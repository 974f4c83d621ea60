/** Text helpers: line splitting with JavaScript `split('\n')` semantics,
    prefix and substring tests, character counting and decimal rendering. */
module Strings {

  /** `p` is a prefix of `s`. */
  predicate IsPrefix(p: string, s: string) {
    |p| <= |s| && s[..|p|] == p
  }

  /** `needle` occurs in `s` at offset `i`. */
  predicate OccursAt(s: string, needle: string, i: int) {
    0 <= i && i + |needle| <= |s| && s[i..i + |needle|] == needle
  }

  /** JavaScript's `s.includes(needle)`. */
  predicate Contains(s: string, needle: string) {
    exists i | 0 <= i <= |s| - |needle| :: OccursAt(s, needle, i)
  }

  /** Inserting a string that contains `needle` anywhere yields a string that contains it. */
  lemma InsertedNeedleIsFound(text: string, k: nat, s: string, needle: string)
    requires k <= |text|
    requires Contains(s, needle)
    ensures Contains(text[..k] + s + text[k..], needle)
  {
    var j :| 0 <= j <= |s| - |needle| && OccursAt(s, needle, j);
    var t := text[..k] + s + text[k..];
    assert |t| == |text| + |s|;
    forall m | 0 <= m < |needle|
      ensures t[k + j + m] == needle[m]
    {
      assert t[k + j + m] == s[j + m];
      assert s[j..j + |needle|][m] == s[j + m];
    }
    assert t[k + j..k + j + |needle|] == needle;
    assert OccursAt(t, needle, k + j);
  }

  /** Go's `strings.Count(s, string(c))` for a single character. */
  function CountChar(s: string, c: char): (n: nat)
    ensures n <= |s|
    ensures n == 0 <==> c !in s
  {
    if |s| == 0 then 0
    else (if s[0] == c then 1 else 0) + CountChar(s[1..], c)
  }

  /** JavaScript's `s.split('\n')`: the pieces between line feeds, always at least one. */
  function SplitLines(s: string): (lines: seq<string>)
    ensures |lines| >= 1
  {
    if |s| == 0 then [""]
    else
      var rest := SplitLines(s[1..]);
      if s[0] == '\n' then [""] + rest
      else [[s[0]] + rest[0]] + rest[1..]
  }

  /** Joins lines with line feeds; the inverse of `SplitLines`. */
  function JoinLines(lines: seq<string>): string
    requires |lines| >= 1
  {
    if |lines| == 1 then lines[0] else lines[0] + "\n" + JoinLines(lines[1..])
  }

  /** Splitting yields one more piece than there are line feeds. */
  lemma {:induction false} SplitLinesCount(s: string)
    ensures |SplitLines(s)| == CountChar(s, '\n') + 1
  {
    if |s| > 0 {
      SplitLinesCount(s[1..]);
    }
  }

  /** No piece of a split holds a line feed. */
  lemma {:induction false} SplitLinesHaveNoLineFeed(s: string)
    ensures forall i :: 0 <= i < |SplitLines(s)| ==> '\n' !in SplitLines(s)[i]
  {
    if |s| > 0 {
      SplitLinesHaveNoLineFeed(s[1..]);
      var rest := SplitLines(s[1..]);
      var lines := SplitLines(s);
      forall i | 0 <= i < |lines|
        ensures '\n' !in lines[i]
      {
        if s[0] == '\n' {
          if i > 0 {
            assert lines[i] == rest[i - 1];
          }
        } else if i > 0 {
          assert lines[i] == rest[i];
        }
      }
    }
  }

  /** Joining the pieces of a split gives the original text back. */
  lemma {:induction false} SplitLinesRoundTrip(s: string)
    ensures JoinLines(SplitLines(s)) == s
  {
    if |s| > 0 {
      SplitLinesRoundTrip(s[1..]);
      var rest := SplitLines(s[1..]);
      var lines := SplitLines(s);
      assert s == [s[0]] + s[1..];
      if s[0] == '\n' {
        assert lines == [""] + rest;
        assert lines[1..] == rest;
      } else {
        assert lines == [[s[0]] + rest[0]] + rest[1..];
        if |rest| > 1 {
          assert lines[1..] == rest[1..];
        }
      }
    }
  }

  /** Offset of the position `line`/`col` in `text`; a column past the end of its
      line stops at the line feed and a line past the last stops at the end. */
  function OffsetAt(text: string, line: nat, col: nat): (k: nat)
    ensures k <= |text|
  {
    if line == 0 then LinePrefixLength(text, col)
    else if '\n' in text then
      var nl := IndexOfLineFeed(text);
      nl + 1 + OffsetAt(text[nl + 1..], line - 1, col)
    else |text|
  }

  /** The number of characters before the first line feed, capped at `col`. */
  function LinePrefixLength(text: string, col: nat): (k: nat)
    ensures k <= |text| && k <= col
  {
    if col == 0 || |text| == 0 || text[0] == '\n' then 0
    else 1 + LinePrefixLength(text[1..], col - 1)
  }

  /** Index of the first line feed of `text`. */
  function IndexOfLineFeed(text: string): (i: nat)
    requires '\n' in text
    ensures i < |text| && text[i] == '\n' && '\n' !in text[..i]
  {
    if text[0] == '\n' then 0
    else
      var j := IndexOfLineFeed(text[1..]);
      assert text[..j + 1] == [text[0]] + text[1..][..j];
      j + 1
  }

  /** Decimal rendering of a natural number, as JavaScript template literals print it. */
  function NatToString(n: nat): (s: string)
    ensures |s| >= 1
    ensures forall i :: 0 <= i < |s| ==> '0' <= s[i] <= '9'
  {
    if n < 10 then [Digit(n)] else NatToString(n / 10) + [Digit(n % 10)]
  }

  function Digit(d: nat): (c: char)
    requires d < 10
    ensures '0' <= c <= '9'
  {
    ['0', '1', '2', '3', '4', '5', '6', '7', '8', '9'][d]
  }

  lemma DigitValue(d: nat)
    requires d < 10
    ensures Digit(d) as int - '0' as int == d
  {
  }

  /** Reading the digits back gives the number: decimal rendering loses nothing. */
  function ParseNat(s: string): nat
    requires forall i :: 0 <= i < |s| ==> '0' <= s[i] <= '9'
  {
    if |s| == 0 then 0 else ParseNat(s[..|s| - 1]) * 10 + (s[|s| - 1] as int - '0' as int)
  }

  lemma {:induction false} NatToStringRoundTrip(n: nat)
    ensures ParseNat(NatToString(n)) == n
  {
    var s := NatToString(n);
    if n < 10 {
      DigitValue(n);
      assert s[..0] == [];
    } else {
      NatToStringRoundTrip(n / 10);
      DigitValue(n % 10);
      assert s[..|s| - 1] == NatToString(n / 10);
      assert s[|s| - 1] == Digit(n % 10);
    }
  }
}
