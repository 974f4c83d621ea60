/** The Travis CI Go-version check: a line scanner that flags `go:` and
    `language: go` lines of `.travis.yml` files, the single-file fix that adds
    the current Go version, the fix-all aggregation over the diagnostics store
    and the code actions offered for a flagged line. */
module TravisGo {
  import opened Wrappers
  import opened Strings

  /** The diagnostic code that identifies this check's diagnostics. */
  const CodeTravisGo: string := "check-search.travis-go"
  const DiagnosticMessage: string := "Outdated Go version used in Travis CI"
  /** The version marker whose presence anywhere in a document means "already fixed". */
  const TargetVersion: string := "1.13.x"
  /** Inserted after each `go:` key. */
  const VersionEntry: string := "\n  - \"1.13.x\""
  /** Appended at the end of a document that has no `go:` key. */
  const VersionBlock: string := "\n\ngo:\n  - \"1.13.x\"\n"
  const DocsUrl: string := "https://docs.travis-ci.com/user/languages/go/"

  datatype Position = Position(line: nat, character: nat)
  datatype Range = Range(start: Position, end: Position)
  datatype Severity = Error | Warning | Information | Hint
  /** A diagnostic's code: a string, a number, or absent. */
  datatype Code = StringCode(s: string) | NumberCode(n: int) | NoCode
  datatype Diagnostic = Diagnostic(message: string, range: Range, severity: Severity, code: Code)
  datatype TextDocument = TextDocument(uri: string, text: string)

  /** One text insertion of a workspace edit. */
  datatype Insertion = Insertion(uri: string, position: Position, text: string)
  /** A workspace edit: insertions in the order they were added. */
  type WorkspaceEdit = seq<Insertion>

  /** A regular expression whose alternatives are all anchored with `^` and that
      has no multiline flag: applied to one line it can only match at column 0,
      and it matches the first alternative that is a prefix of the line. */
  datatype LinePattern = AnchoredAlternatives(alternatives: seq<string>)

  /** `/(^go:)|(^language: go)/g`, the detector's pattern. */
  const DetectorPattern: LinePattern := AnchoredAlternatives(["go:", "language: go"])
  /** `/^go:/g`, the fix's pattern. */
  const GoKeyPattern: LinePattern := AnchoredAlternatives(["go:"])

  /** A line the detector reports. */
  predicate FlaggedLine(line: string) {
    IsPrefix("go:", line) || IsPrefix("language: go", line)
  }

  /** `alts[k]` is the first alternative that is a prefix of `line`. */
  predicate FirstPrefixAlternative(alts: seq<string>, line: string, k: int) {
    && 0 <= k < |alts|
    && IsPrefix(alts[k], line)
    && forall j :: 0 <= j < k ==> !IsPrefix(alts[j], line)
  }

  /** The length of the match of `pat` against `line`, if it matches. */
  function MatchLine(pat: LinePattern, line: string): (r: Option<nat>)
    ensures r.None? ==> forall k :: 0 <= k < |pat.alternatives| ==> !IsPrefix(pat.alternatives[k], line)
    ensures r.Some? ==> exists k :: 0 <= k < |pat.alternatives| && IsPrefix(pat.alternatives[k], line) &&
                                    r.value == |pat.alternatives[k]|
    decreases |pat.alternatives|
  {
    var alts := pat.alternatives;
    if |alts| == 0 then None
    else if IsPrefix(alts[0], line) then Some(|alts[0]|)
    else
      var r := MatchLine(AnchoredAlternatives(alts[1..]), line);
      assert forall k :: 1 <= k < |alts| ==> alts[k] == alts[1..][k - 1];
      r
  }

  /** A line matches exactly when some alternative is a prefix of it, and the
      match is as long as the first such alternative. */
  lemma {:induction false} MatchLineIsFirstPrefix(pat: LinePattern, line: string)
    ensures MatchLine(pat, line).Some? <==> exists k :: 0 <= k < |pat.alternatives| && IsPrefix(pat.alternatives[k], line)
    ensures MatchLine(pat, line).Some? ==>
              exists k :: FirstPrefixAlternative(pat.alternatives, line, k) && MatchLine(pat, line).value == |pat.alternatives[k]|
    decreases |pat.alternatives|
  {
    var alts := pat.alternatives;
    if |alts| == 0 {
    } else if IsPrefix(alts[0], line) {
      assert FirstPrefixAlternative(alts, line, 0);
    } else {
      var rest := AnchoredAlternatives(alts[1..]);
      MatchLineIsFirstPrefix(rest, line);
      assert forall k :: 1 <= k < |alts| ==> alts[k] == alts[1..][k - 1];
      if exists k :: 0 <= k < |alts| && IsPrefix(alts[k], line) {
        var k :| 0 <= k < |alts| && IsPrefix(alts[k], line);
        assert IsPrefix(alts[1..][k - 1], line);
      }
      if MatchLine(pat, line).Some? {
        var k :| FirstPrefixAlternative(alts[1..], line, k) && MatchLine(rest, line).value == |alts[1..][k]|;
        assert FirstPrefixAlternative(alts, line, k + 1) by {
          forall j | 0 <= j < k + 1
            ensures !IsPrefix(alts[j], line)
          {
            if j > 0 {
              assert alts[j] == alts[1..][j - 1];
            }
          }
        }
      }
    }
  }

  /** The detector's pattern matches exactly the flagged lines: `go:` for 3
      columns, otherwise `language: go` for 12. */
  lemma DetectorMatchesFlaggedLines(line: string)
    ensures MatchLine(DetectorPattern, line).Some? <==> FlaggedLine(line)
    ensures IsPrefix("go:", line) ==> MatchLine(DetectorPattern, line) == Some(3)
    ensures FlaggedLine(line) && !IsPrefix("go:", line) ==> MatchLine(DetectorPattern, line) == Some(12)
  {
    var rest := AnchoredAlternatives(DetectorPattern.alternatives[1..]);
    assert rest.alternatives == ["language: go"];
    assert AnchoredAlternatives(rest.alternatives[1..]).alternatives == [];
  }

  /** The fix's pattern matches exactly the lines that start with `go:`, for 3 columns. */
  lemma GoKeyMatchesGoLines(line: string)
    ensures MatchLine(GoKeyPattern, line) == (if IsPrefix("go:", line) then Some(3) else None)
  {
    assert AnchoredAlternatives(GoKeyPattern.alternatives[1..]).alternatives == [];
  }

  /** `r` covers the match of `pat` on its own line of `lines`. */
  predicate RangeOnMatchedLine(lines: seq<string>, pat: LinePattern, r: Range) {
    && r.start.line < |lines|
    && r.end.line == r.start.line
    && r.start.character == 0
    && MatchLine(pat, lines[r.start.line]) == Some(r.end.character)
  }

  /** The ranges of `pat`'s matches on `lines[i..]`. */
  function RangesFrom(lines: seq<string>, pat: LinePattern, i: nat): (rs: seq<Range>)
    requires i <= |lines|
    ensures forall k :: 0 <= k < |rs| ==> RangeOnMatchedLine(lines, pat, rs[k]) && i <= rs[k].start.line
    ensures forall k, m :: 0 <= k < m < |rs| ==> rs[k].start.line < rs[m].start.line
    decreases |lines| - i
  {
    if i == |lines| then []
    else
      var rest := RangesFrom(lines, pat, i + 1);
      match MatchLine(pat, lines[i])
      case Some(n) =>
        var rs := [Range(Position(i, 0), Position(i, n))] + rest;
        assert forall k :: 1 <= k < |rs| ==> rs[k] == rest[k - 1];
        rs
      case None => rest
  }

  /** Every line of `lines[i..]` that `pat` matches has its range. */
  lemma {:induction false} RangesFromCoversMatches(lines: seq<string>, pat: LinePattern, i: nat, j: nat)
    requires i <= j < |lines|
    requires MatchLine(pat, lines[j]).Some?
    ensures exists k :: 0 <= k < |RangesFrom(lines, pat, i)| && RangesFrom(lines, pat, i)[k].start.line == j
    decreases j - i
  {
    var rs := RangesFrom(lines, pat, i);
    var rest := RangesFrom(lines, pat, i + 1);
    var here := MatchLine(pat, lines[i]);
    if here.Some? {
      assert rs == [Range(Position(i, 0), Position(i, here.value))] + rest;
    } else {
      assert rs == rest;
    }
    if j == i {
      assert rs[0].start.line == j;
    } else {
      RangesFromCoversMatches(lines, pat, i + 1, j);
      var k :| 0 <= k < |rest| && rest[k].start.line == j;
      if here.Some? {
        assert rs[k + 1] == rest[k];
      } else {
        assert rs[k] == rest[k];
      }
    }
  }

  /** `findMatchRanges`: splits `text` on line feeds and returns, in line order,
      one single-line range per line that `pat` matches. */
  function FindMatchRanges(text: string, pat: LinePattern): (rs: seq<Range>)
    ensures forall k :: 0 <= k < |rs| ==> RangeOnMatchedLine(SplitLines(text), pat, rs[k])
    ensures forall k, m :: 0 <= k < m < |rs| ==> rs[k].start.line < rs[m].start.line
    ensures forall j :: 0 <= j < |SplitLines(text)| && MatchLine(pat, SplitLines(text)[j]).Some? ==>
      exists k :: 0 <= k < |rs| && rs[k].start.line == j
  {
    var lines := SplitLines(text);
    var rs := RangesFrom(lines, pat, 0);
    assert forall j :: 0 <= j < |lines| && MatchLine(pat, lines[j]).Some? ==>
      exists k :: 0 <= k < |rs| && rs[k].start.line == j by {
      forall j | 0 <= j < |lines| && MatchLine(pat, lines[j]).Some?
        ensures exists k :: 0 <= k < |rs| && rs[k].start.line == j
      {
        RangesFromCoversMatches(lines, pat, 0, j);
      }
    }
    rs
  }

  /** The first range is on the first line the pattern matches. */
  lemma FirstRangeIsFirstMatch(text: string, pat: LinePattern)
    requires |FindMatchRanges(text, pat)| > 0
    ensures forall j :: 0 <= j < |SplitLines(text)| && MatchLine(pat, SplitLines(text)[j]).Some? ==>
      FindMatchRanges(text, pat)[0].start.line <= j
  {
    var rs := FindMatchRanges(text, pat);
    forall j | 0 <= j < |SplitLines(text)| && MatchLine(pat, SplitLines(text)[j]).Some?
      ensures rs[0].start.line <= j
    {
      var k :| 0 <= k < |rs| && rs[k].start.line == j;
      assert k == 0 || rs[0].start.line < rs[k].start.line;
    }
  }

  /** The per-file diagnostics of the detector: only the first flagged line of the
      document is reported, as a warning carrying the check's code. */
  function DiagnosticsFor(text: string): (ds: seq<Diagnostic>)
    ensures |ds| <= 1
    ensures |ds| == 1 <==> exists j :: 0 <= j < |SplitLines(text)| && FlaggedLine(SplitLines(text)[j])
    ensures |ds| == 1 ==>
      var line := ds[0].range.start.line;
      && line < |SplitLines(text)|
      && FlaggedLine(SplitLines(text)[line])
      && (forall j :: 0 <= j < line ==> !FlaggedLine(SplitLines(text)[j]))
      && ds[0].range == Range(Position(line, 0),
                              Position(line, if IsPrefix("go:", SplitLines(text)[line]) then 3 else 12))
      && ds[0].code == StringCode(CodeTravisGo)
      && ds[0].severity == Warning
      && ds[0].message == DiagnosticMessage
  {
    var rs := FindMatchRanges(text, DetectorPattern);
    var lines := SplitLines(text);
    if |rs| == 0 then
      assert forall j :: 0 <= j < |lines| ==> !FlaggedLine(lines[j]) by {
        forall j | 0 <= j < |lines|
          ensures !FlaggedLine(lines[j])
        {
          DetectorMatchesFlaggedLines(lines[j]);
        }
      }
      []
    else
      var line := rs[0].start.line;
      FirstRangeIsFirstMatch(text, DetectorPattern);
      DetectorMatchesFlaggedLines(lines[line]);
      assert 0 <= line < |lines| && FlaggedLine(lines[line]);
      assert exists j :: 0 <= j < |SplitLines(text)| && FlaggedLine(SplitLines(text)[j]);
      assert forall j :: 0 <= j < line ==> !FlaggedLine(lines[j]) by {
        forall j | 0 <= j < line
          ensures !FlaggedLine(lines[j])
        {
          DetectorMatchesFlaggedLines(lines[j]);
        }
      }
      [Diagnostic(DiagnosticMessage, rs[0], Warning, StringCode(CodeTravisGo))]
  }

  /** `isTravisGoDiagnostic`: the code is a string equal to the check's code. */
  predicate IsTravisGoDiagnostic(d: Diagnostic): (b: bool)
    ensures d.code.NumberCode? || d.code.NoCode? ==> !b
    ensures d.code.StringCode? ==> (b <==> d.code.s == CodeTravisGo)
  {
    d.code == StringCode(CodeTravisGo)
  }

  /** The position just past the last character of `text`. */
  function EndOfDocument(text: string): Position {
    var lines := SplitLines(text);
    Position(|lines| - 1, |lines[|lines| - 1]|)
  }

  /** The two texts the fix inserts. */
  predicate FixText(text: string) {
    text == VersionEntry || text == VersionBlock
  }

  /** Both texts the fix inserts mention the target version. */
  lemma FixTextsMentionTargetVersion(text: string)
    requires FixText(text)
    ensures Contains(text, TargetVersion)
  {
    if text == VersionEntry {
      assert OccursAt(VersionEntry, TargetVersion, 6);
    } else {
      assert OccursAt(VersionBlock, TargetVersion, 11);
    }
  }

  /** One version entry at the end of each range. */
  function VersionEntriesAt(uri: string, ranges: seq<Range>): (r: seq<Insertion>)
    ensures |r| == |ranges|
    ensures forall k :: 0 <= k < |r| ==> r[k] == Insertion(uri, ranges[k].end, VersionEntry)
  {
    if |ranges| == 0 then []
    else [Insertion(uri, ranges[0].end, VersionEntry)] + VersionEntriesAt(uri, ranges[1..])
  }

  /** The insertions the fix adds for a document without the target version. */
  function FixInsertions(doc: TextDocument): (added: seq<Insertion>)
    ensures |added| >= 1
    ensures forall k :: 0 <= k < |added| ==> added[k].uri == doc.uri && FixText(added[k].text)
  {
    var ranges := FindMatchRanges(doc.text, GoKeyPattern);
    if |ranges| > 0 then VersionEntriesAt(doc.uri, ranges)
    else [Insertion(doc.uri, EndOfDocument(doc.text), VersionBlock)]
  }

  /** `computeFixEdit`: unless the document already mentions the target version,
      appends to `edit` one version entry after every `go:` key, or, when there is
      none, one version block at the end of the document. The diagnostic itself
      does not influence the edit. */
  function ComputeFixEdit(diag: Diagnostic, doc: TextDocument, edit: WorkspaceEdit): (r: WorkspaceEdit)
    ensures |r| >= |edit| && r[..|edit|] == edit
    ensures Contains(doc.text, TargetVersion) ==> r == edit
    ensures !Contains(doc.text, TargetVersion) ==> |r| > |edit|
    ensures forall k :: |edit| <= k < |r| ==> r[k].uri == doc.uri && FixText(r[k].text)
  {
    if !Contains(doc.text, TargetVersion) then edit + FixInsertions(doc) else edit
  }

  /** The fix pattern's ranges are the `go:` keys: each ends at column 3 of a
      line starting with `go:`, and every such line has one. */
  lemma GoKeyRanges(text: string)
    ensures var ranges := FindMatchRanges(text, GoKeyPattern);
      && (forall k :: 0 <= k < |ranges| ==>
            && ranges[k].end == Position(ranges[k].start.line, 3)
            && ranges[k].start.line < |SplitLines(text)|
            && IsPrefix("go:", SplitLines(text)[ranges[k].start.line]))
      && (forall j :: 0 <= j < |SplitLines(text)| && IsPrefix("go:", SplitLines(text)[j]) ==>
            exists k :: 0 <= k < |ranges| && ranges[k].start.line == j)
  {
    var lines := SplitLines(text);
    var ranges := FindMatchRanges(text, GoKeyPattern);
    forall k | 0 <= k < |ranges|
      ensures ranges[k].end == Position(ranges[k].start.line, 3)
      ensures IsPrefix("go:", lines[ranges[k].start.line])
    {
      GoKeyMatchesGoLines(lines[ranges[k].start.line]);
    }
    forall j | 0 <= j < |lines| && IsPrefix("go:", lines[j])
      ensures exists k :: 0 <= k < |ranges| && ranges[k].start.line == j
    {
      GoKeyMatchesGoLines(lines[j]);
    }
  }

  /** `added` is one version entry at column 3 of every line of `lines` that
      starts with `go:`, in ascending line order, and nothing else. */
  predicate VersionEntryAfterEachGoKey(added: seq<Insertion>, lines: seq<string>) {
    && (forall k :: 0 <= k < |added| ==>
          && added[k].text == VersionEntry
          && added[k].position.character == 3
          && added[k].position.line < |lines|
          && IsPrefix("go:", lines[added[k].position.line]))
    && (forall k, m :: 0 <= k < m < |added| ==> added[k].position.line < added[m].position.line)
    && (forall j :: 0 <= j < |lines| && IsPrefix("go:", lines[j]) ==>
          exists k :: 0 <= k < |added| && added[k].position.line == j)
  }

  /** Version entries at the ends of the `go:` key ranges of some lines, in line
      order and covering every key, are one entry after each key. */
  lemma EntriesAtGoKeys(uri: string, ranges: seq<Range>, lines: seq<string>)
    requires forall k :: 0 <= k < |ranges| ==>
               && ranges[k].end == Position(ranges[k].start.line, 3)
               && ranges[k].start.line < |lines|
               && IsPrefix("go:", lines[ranges[k].start.line])
    requires forall k, m :: 0 <= k < m < |ranges| ==> ranges[k].start.line < ranges[m].start.line
    requires forall j :: 0 <= j < |lines| && IsPrefix("go:", lines[j]) ==>
               exists k :: 0 <= k < |ranges| && ranges[k].start.line == j
    ensures VersionEntryAfterEachGoKey(VersionEntriesAt(uri, ranges), lines)
  {
    var added := VersionEntriesAt(uri, ranges);
    forall k | 0 <= k < |added|
      ensures && added[k].text == VersionEntry
              && added[k].position.character == 3
              && added[k].position.line < |lines|
              && IsPrefix("go:", lines[added[k].position.line])
    {
      assert added[k].position == ranges[k].end;
    }
    forall k, m | 0 <= k < m < |added|
      ensures added[k].position.line < added[m].position.line
    {
      assert added[k].position == ranges[k].end && added[m].position == ranges[m].end;
    }
    forall j | 0 <= j < |lines| && IsPrefix("go:", lines[j])
      ensures exists k :: 0 <= k < |added| && added[k].position.line == j
    {
      var k :| 0 <= k < |ranges| && ranges[k].start.line == j;
      assert added[k].position.line == j;
    }
  }

  /** The fix's insertions for a document with `go:` lines: one version entry per
      `go:` line, at column 3, in line order. */
  lemma FixInsertionsFollowGoKeys(doc: TextDocument)
    requires exists j :: 0 <= j < |SplitLines(doc.text)| && IsPrefix("go:", SplitLines(doc.text)[j])
    ensures VersionEntryAfterEachGoKey(FixInsertions(doc), SplitLines(doc.text))
  {
    var lines := SplitLines(doc.text);
    var ranges := FindMatchRanges(doc.text, GoKeyPattern);
    GoKeyRanges(doc.text);
    assert |ranges| > 0;
    assert FixInsertions(doc) == VersionEntriesAt(doc.uri, ranges);
    EntriesAtGoKeys(doc.uri, ranges, lines);
  }

  /** With some `go:` line and no target version, the fix adds exactly one version
      entry per `go:` line, at column 3, in line order. */
  lemma FixInsertsAfterEveryGoKey(diag: Diagnostic, doc: TextDocument, edit: WorkspaceEdit)
    requires !Contains(doc.text, TargetVersion)
    requires exists j :: 0 <= j < |SplitLines(doc.text)| && IsPrefix("go:", SplitLines(doc.text)[j])
    ensures VersionEntryAfterEachGoKey(ComputeFixEdit(diag, doc, edit)[|edit|..], SplitLines(doc.text))
  {
    assert ComputeFixEdit(diag, doc, edit)[|edit|..] == FixInsertions(doc);
    FixInsertionsFollowGoKeys(doc);
  }

  /** Without any `go:` line and without the target version, the fix appends one
      version block at the end of the document. */
  lemma FixAppendsBlockWithoutGoKey(diag: Diagnostic, doc: TextDocument, edit: WorkspaceEdit)
    requires !Contains(doc.text, TargetVersion)
    requires forall j :: 0 <= j < |SplitLines(doc.text)| ==> !IsPrefix("go:", SplitLines(doc.text)[j])
    ensures ComputeFixEdit(diag, doc, edit) == edit + [Insertion(doc.uri, EndOfDocument(doc.text), VersionBlock)]
  {
    var ranges := FindMatchRanges(doc.text, GoKeyPattern);
    if |ranges| > 0 {
      GoKeyMatchesGoLines(SplitLines(doc.text)[ranges[0].start.line]);
    }
  }

  /** Applies one insertion to `text` at the offset of its position. */
  function InsertAt(text: string, ins: Insertion): string {
    var k := OffsetAt(text, ins.position.line, ins.position.character);
    text[..k] + ins.text + text[k..]
  }

  /** Applies insertions for one document, last first, so that every position
      still refers to the text before any of them was applied. */
  function ApplyInsertions(text: string, ins: seq<Insertion>): string
    decreases |ins|
  {
    if |ins| == 0 then text
    else ApplyInsertions(InsertAt(text, ins[|ins| - 1]), ins[..|ins| - 1])
  }

  lemma {:induction false} ApplyingMarkedInsertionsAddsMarker(text: string, ins: seq<Insertion>)
    requires |ins| > 0
    requires forall k :: 0 <= k < |ins| ==> FixText(ins[k].text)
    ensures Contains(ApplyInsertions(text, ins), TargetVersion)
    decreases |ins|
  {
    var t := InsertAt(text, ins[|ins| - 1]);
    FixTextsMentionTargetVersion(ins[|ins| - 1].text);
    InsertedNeedleIsFound(text, OffsetAt(text, ins[|ins| - 1].position.line, ins[|ins| - 1].position.character),
      ins[|ins| - 1].text, TargetVersion);
    if |ins| > 1 {
      ApplyingMarkedInsertionsAddsMarker(t, ins[..|ins| - 1]);
    } else {
      assert ApplyInsertions(text, ins) == ApplyInsertions(t, []) == t;
    }
  }

  /** Idempotence: applying the insertions the fix added and running the fix
      again on the new text adds nothing, whatever diagnostic and edit it is given. */
  lemma FixIsIdempotent(diag: Diagnostic, doc: TextDocument, edit: WorkspaceEdit,
                        diag': Diagnostic, edit': WorkspaceEdit)
    ensures var added := ComputeFixEdit(diag, doc, edit)[|edit|..];
      ComputeFixEdit(diag', TextDocument(doc.uri, ApplyInsertions(doc.text, added)), edit') == edit'
  {
    var added := ComputeFixEdit(diag, doc, edit)[|edit|..];
    if Contains(doc.text, TargetVersion) {
      assert added == [];
    } else {
      ApplyingMarkedInsertionsAddsMarker(doc.text, added);
    }
  }

  /** One file's entry in the diagnostics store. */
  datatype FileDiagnostics = FileDiagnostics(uri: string, diagnostics: seq<Diagnostic>)

  /** `diagnostics.filter(isTravisGoDiagnostic)`. */
  function TravisGoOnly(ds: seq<Diagnostic>): (r: seq<Diagnostic>)
    ensures |r| <= |ds|
  {
    if |ds| == 0 then []
    else (if IsTravisGoDiagnostic(ds[0]) then [ds[0]] else []) + TravisGoOnly(ds[1..])
  }

  /** The filter keeps exactly the check's diagnostics. */
  lemma {:induction false} TravisGoOnlyMembers(ds: seq<Diagnostic>)
    ensures forall d :: d in TravisGoOnly(ds) <==> d in ds && IsTravisGoDiagnostic(d)
  {
    if |ds| > 0 {
      TravisGoOnlyMembers(ds[1..]);
      assert ds == [ds[0]] + ds[1..];
    }
  }

  /** `ds` holds one of the check's diagnostics. */
  predicate HasTravisGo(ds: seq<Diagnostic>) {
    exists k :: 0 <= k < |ds| && IsTravisGoDiagnostic(ds[k])
  }

  lemma TravisGoOnlyEmpty(ds: seq<Diagnostic>)
    ensures |TravisGoOnly(ds)| > 0 <==> HasTravisGo(ds)
  {
    TravisGoOnlyMembers(ds);
    if |TravisGoOnly(ds)| > 0 {
      assert TravisGoOnly(ds)[0] in TravisGoOnly(ds);
    }
    if HasTravisGo(ds) {
      var k :| 0 <= k < |ds| && IsTravisGoDiagnostic(ds[k]);
      assert ds[k] in TravisGoOnly(ds);
    }
  }

  /** All diagnostics of the store, file after file. */
  function AllDiagnostics(store: seq<FileDiagnostics>): seq<Diagnostic> {
    if |store| == 0 then [] else store[0].diagnostics + AllDiagnostics(store[1..])
  }

  /** The store's entries restricted to the check's diagnostics, dropping files
      left without any. */
  function TravisGoEntries(store: seq<FileDiagnostics>): (r: seq<FileDiagnostics>)
    ensures |r| <= |store|
    ensures forall k :: 0 <= k < |r| ==> |r[k].diagnostics| > 0
  {
    if |store| == 0 then []
    else
      var ds := TravisGoOnly(store[0].diagnostics);
      var rest := TravisGoEntries(store[1..]);
      if |ds| > 0 then [FileDiagnostics(store[0].uri, ds)] + rest else rest
  }

  lemma {:induction false} TravisGoOnlyDistributes(a: seq<Diagnostic>, b: seq<Diagnostic>)
    ensures TravisGoOnly(a + b) == TravisGoOnly(a) + TravisGoOnly(b)
  {
    if |a| > 0 {
      assert (a + b)[1..] == a[1..] + b;
      TravisGoOnlyDistributes(a[1..], b);
    } else {
      assert a + b == b;
    }
  }

  /** The diagnostics the fix-all collects are exactly the check's diagnostics
      of the whole store, in store order. */
  lemma {:induction false} TravisGoEntriesKeepStoreOrder(store: seq<FileDiagnostics>)
    ensures AllDiagnostics(TravisGoEntries(store)) == TravisGoOnly(AllDiagnostics(store))
  {
    if |store| > 0 {
      TravisGoEntriesKeepStoreOrder(store[1..]);
      TravisGoOnlyDistributes(store[0].diagnostics, AllDiagnostics(store[1..]));
      var ds := TravisGoOnly(store[0].diagnostics);
      var rest := TravisGoEntries(store[1..]);
      if |ds| > 0 {
        var r := [FileDiagnostics(store[0].uri, ds)] + rest;
        assert r[0].diagnostics == ds;
        assert r[1..] == rest;
        assert AllDiagnostics(r) == ds + AllDiagnostics(rest);
      }
    }
  }

  /** The files a workspace edit touches. */
  function EditedFiles(edit: WorkspaceEdit): set<string> {
    set k | 0 <= k < |edit| :: edit[k].uri
  }

  /** The `textEdits()` count of an edit: one per file it touches. */
  function TextEditsCount(edit: WorkspaceEdit): nat {
    |EditedFiles(edit)|
  }

  /** Appending insertions for `uri` adds `uri` to the edited files, if any were appended. */
  lemma EditedFilesAppend(edit: WorkspaceEdit, added: seq<Insertion>, uri: string)
    requires forall k :: 0 <= k < |added| ==> added[k].uri == uri
    ensures EditedFiles(edit + added) == EditedFiles(edit) + (if |added| > 0 then {uri} else {})
  {
    var e := edit + added;
    forall u | u in EditedFiles(e)
      ensures u in EditedFiles(edit) + (if |added| > 0 then {uri} else {})
    {
      var k :| 0 <= k < |e| && e[k].uri == u;
      if k < |edit| {
        assert e[k] == edit[k];
      } else {
        assert e[k] == added[k - |edit|];
      }
    }
    forall u | u in EditedFiles(edit)
      ensures u in EditedFiles(e)
    {
      var k :| 0 <= k < |edit| && edit[k].uri == u;
      assert e[k] == edit[k];
    }
    if |added| > 0 {
      assert e[|edit|] == added[0];
    }
  }

  /** The single-file fix of each diagnostic of `doc`, each computed into an
      empty edit on its own, laid end to end in order. */
  function FixesOf(doc: TextDocument, diags: seq<Diagnostic>): WorkspaceEdit {
    if |diags| == 0 then [] else ComputeFixEdit(diags[0], doc, []) + FixesOf(doc, diags[1..])
  }

  /** The single-file fixes of every diagnostic of every file of `entries`, each
      file read through `openText`, laid end to end in order. */
  function AllFixes(entries: seq<FileDiagnostics>, openText: string -> string): WorkspaceEdit {
    if |entries| == 0 then []
    else FixesOf(TextDocument(entries[0].uri, openText(entries[0].uri)), entries[0].diagnostics)
           + AllFixes(entries[1..], openText)
  }

  lemma AppendAssociates(a: WorkspaceEdit, b: WorkspaceEdit, c: WorkspaceEdit)
    ensures (a + b) + c == a + (b + c)
  {
  }

  /** Runs the fix for every diagnostic of one file into the shared edit: the
      edit grows by exactly the single fixes of those diagnostics. */
  function FixFile(doc: TextDocument, diags: seq<Diagnostic>, edit: WorkspaceEdit): (r: WorkspaceEdit)
    ensures r == edit + FixesOf(doc, diags)
    ensures EditedFiles(r) == EditedFiles(edit) + (if |diags| > 0 && !Contains(doc.text, TargetVersion) then {doc.uri} else {})
    decreases |diags|
  {
    if |diags| == 0 then
      assert edit + [] == edit;
      edit
    else
      var e := ComputeFixEdit(diags[0], doc, edit);
      assert e == edit + ComputeFixEdit(diags[0], doc, []) by {
        assert [] + FixInsertions(doc) == FixInsertions(doc);
      }
      assert FixesOf(doc, diags) == ComputeFixEdit(diags[0], doc, []) + FixesOf(doc, diags[1..]);
      var r := FixFile(doc, diags[1..], e);
      AppendAssociates(edit, ComputeFixEdit(diags[0], doc, []), FixesOf(doc, diags[1..]));
      assert e == edit + e[|edit|..];
      EditedFilesAppend(edit, e[|edit|..], doc.uri);
      r
  }

  /** Fixes every collected file, each read afresh through `openText`: the
      shared edit grows by exactly the single fixes of all their diagnostics. */
  function FixEntries(entries: seq<FileDiagnostics>, openText: string -> string, edit: WorkspaceEdit): (r: WorkspaceEdit)
    ensures r == edit + AllFixes(entries, openText)
    decreases |entries|
  {
    if |entries| == 0 then
      assert edit + [] == edit;
      edit
    else
      var doc := TextDocument(entries[0].uri, openText(entries[0].uri));
      var e := FixFile(doc, entries[0].diagnostics, edit);
      AppendAssociates(edit, FixesOf(doc, entries[0].diagnostics), AllFixes(entries[1..], openText));
      FixEntries(entries[1..], openText, e)
  }

  /** The files among `entries` that have diagnostics and whose current text lacks
      the target version. */
  function FilesNeedingFix(entries: seq<FileDiagnostics>, openText: string -> string): set<string> {
    if |entries| == 0 then {}
    else
      (if |entries[0].diagnostics| > 0 && !Contains(openText(entries[0].uri), TargetVersion)
       then {entries[0].uri} else {})
      + FilesNeedingFix(entries[1..], openText)
  }

  lemma {:induction false} FixEntriesTouchesFilesNeedingFix(entries: seq<FileDiagnostics>, openText: string -> string, edit: WorkspaceEdit)
    ensures EditedFiles(FixEntries(entries, openText, edit)) == EditedFiles(edit) + FilesNeedingFix(entries, openText)
    decreases |entries|
  {
    if |entries| > 0 {
      var e := FixFile(TextDocument(entries[0].uri, openText(entries[0].uri)), entries[0].diagnostics, edit);
      FixEntriesTouchesFilesNeedingFix(entries[1..], openText, e);
    }
  }

  /** The result of the fix-all computation: one shared edit and the diagnostics it addresses. */
  datatype FixAll = FixAll(edit: WorkspaceEdit, diagnostics: seq<Diagnostic>)

  /** `computeFixAllAction` over a given snapshot of the diagnostics store:
      collects the check's diagnostics file by file and runs the single-file fix
      for each of them into one shared edit. */
  function ComputeFixAllAction(store: seq<FileDiagnostics>, openText: string -> string): (r: FixAll)
    ensures r.diagnostics == TravisGoOnly(AllDiagnostics(store))
    ensures EditedFiles(r.edit) == FilesNeedingFix(TravisGoEntries(store), openText)
    ensures r.edit == AllFixes(TravisGoEntries(store), openText)
  {
    var entries := TravisGoEntries(store);
    TravisGoEntriesKeepStoreOrder(store);
    FixEntriesTouchesFilesNeedingFix(entries, openText, []);
    assert EditedFiles([]) == {};
    FixAll(FixEntries(entries, openText, []), AllDiagnostics(entries))
  }

  /** The files of the store that carry one of the check's diagnostics and whose
      current text lacks the target version. */
  function FlaggedFiles(store: seq<FileDiagnostics>, openText: string -> string): set<string> {
    if |store| == 0 then {}
    else
      (if HasTravisGo(store[0].diagnostics) && !Contains(openText(store[0].uri), TargetVersion)
       then {store[0].uri} else {})
      + FlaggedFiles(store[1..], openText)
  }

  lemma {:induction false} TravisGoEntriesNeedFixExactlyFlagged(store: seq<FileDiagnostics>, openText: string -> string)
    ensures FilesNeedingFix(TravisGoEntries(store), openText) == FlaggedFiles(store, openText)
  {
    if |store| > 0 {
      TravisGoEntriesNeedFixExactlyFlagged(store[1..], openText);
      TravisGoOnlyEmpty(store[0].diagnostics);
      var ds := TravisGoOnly(store[0].diagnostics);
      var rest := TravisGoEntries(store[1..]);
      if |ds| > 0 {
        var r := [FileDiagnostics(store[0].uri, ds)] + rest;
        assert r[1..] == rest;
      }
    }
  }

  lemma {:induction false} FlaggedFilesMembers(store: seq<FileDiagnostics>, openText: string -> string, uri: string)
    ensures uri in FlaggedFiles(store, openText) <==>
      (exists k :: 0 <= k < |store| && store[k].uri == uri && HasTravisGo(store[k].diagnostics))
      && !Contains(openText(uri), TargetVersion)
  {
    if |store| > 0 {
      FlaggedFilesMembers(store[1..], openText, uri);
      if exists k :: 0 <= k < |store[1..]| && store[1..][k].uri == uri && HasTravisGo(store[1..][k].diagnostics) {
        var k :| 0 <= k < |store[1..]| && store[1..][k].uri == uri && HasTravisGo(store[1..][k].diagnostics);
        assert store[k + 1] == store[1..][k];
      }
      if exists k :: 0 <= k < |store| && store[k].uri == uri && HasTravisGo(store[k].diagnostics) {
        var k :| 0 <= k < |store| && store[k].uri == uri && HasTravisGo(store[k].diagnostics);
        if k > 0 {
          assert store[1..][k - 1] == store[k];
        }
      }
    }
  }

  /** A file is touched by the fix-all exactly when the store holds one of the
      check's diagnostics for it and its current text lacks the target version. */
  lemma FixAllTouchesFlaggedFiles(store: seq<FileDiagnostics>, openText: string -> string, uri: string)
    ensures uri in EditedFiles(ComputeFixAllAction(store, openText).edit) <==>
      (exists k :: 0 <= k < |store| && store[k].uri == uri && HasTravisGo(store[k].diagnostics))
      && !Contains(openText(uri), TargetVersion)
  {
    TravisGoEntriesNeedFixExactlyFlagged(store, openText);
    FlaggedFilesMembers(store, openText, uri);
  }

  datatype Command = Command(title: string, command: string, arguments: seq<string>)
  datatype CodeAction = CodeAction(title: string, edit: Option<WorkspaceEdit>,
                                   diagnostics: seq<Diagnostic>, command: Option<Command>)

  /** `ds[k]` is the first of the check's diagnostics in `ds`. */
  predicate FirstTravisGoAt(ds: seq<Diagnostic>, k: int) {
    && 0 <= k < |ds|
    && IsTravisGoDiagnostic(ds[k])
    && forall j :: 0 <= j < k ==> !IsTravisGoDiagnostic(ds[j])
  }

  /** `Array.prototype.find(isTravisGoDiagnostic)`. */
  function FirstTravisGo(ds: seq<Diagnostic>): (r: Option<Diagnostic>)
    ensures r.None? <==> !HasTravisGo(ds)
    ensures r.Some? ==> IsTravisGoDiagnostic(r.value) && exists k :: FirstTravisGoAt(ds, k) && ds[k] == r.value
  {
    if |ds| == 0 then None
    else if IsTravisGoDiagnostic(ds[0]) then Some(ds[0])
    else
      var r := FirstTravisGo(ds[1..]);
      assert forall k :: 1 <= k < |ds| ==> ds[k] == ds[1..][k - 1];
      if r.Some? then
        ghost var k :| FirstTravisGoAt(ds[1..], k) && ds[1..][k] == r.value;
        assert FirstTravisGoAt(ds, k + 1);
        r
      else r
  }

  /** `.filter(isDefined)`: drops the absent candidates, keeping order. */
  function Defined(xs: seq<Option<CodeAction>>): (r: seq<CodeAction>)
    ensures |r| <= |xs|
  {
    if |xs| == 0 then []
    else (if xs[0].Some? then [xs[0].value] else []) + Defined(xs[1..])
  }

  lemma {:induction false} DefinedDistributes(a: seq<Option<CodeAction>>, b: seq<Option<CodeAction>>)
    ensures Defined(a + b) == Defined(a) + Defined(b)
  {
    if |a| > 0 {
      assert (a + b)[1..] == a[1..] + b;
      DefinedDistributes(a[1..], b);
    } else {
      assert a + b == b;
    }
  }

  function FixAllTitle(n: nat): string {
    "Fix in all " + NatToString(n) + " repositories"
  }

  /** The single-file fix action for `diag`. */
  function FixAction(diag: Diagnostic, doc: TextDocument): CodeAction {
    CodeAction("Use current Go version", Some(ComputeFixEdit(diag, doc, [])), [diag], None)
  }

  /** The documentation link action for `diag`. */
  function DocsAction(diag: Diagnostic): CodeAction {
    CodeAction("View Travis CI docs", None, [diag], Some(Command("", "open", [DocsUrl])))
  }

  /** The fix-all action, offered only when its edit touches more than one file. */
  function FixAllCandidate(fixAll: FixAll): (r: Option<CodeAction>)
    ensures r.Some? <==> |EditedFiles(fixAll.edit)| > 1
    ensures r.Some? ==> && r.value.title == FixAllTitle(|EditedFiles(fixAll.edit)|)
                        && r.value.edit == Some(fixAll.edit)
                        && r.value.diagnostics == fixAll.diagnostics
                        && r.value.command.None?
  {
    var n := TextEditsCount(fixAll.edit);
    if n > 1 then Some(CodeAction(FixAllTitle(n), Some(fixAll.edit), fixAll.diagnostics, None)) else None
  }

  /** `provideCodeActions`: no actions unless the request carries one of the
      check's diagnostics; otherwise the candidates below, absent ones dropped. */
  function ProvideCodeActions(doc: TextDocument, context: seq<Diagnostic>, store: seq<FileDiagnostics>,
                              openText: string -> string, others: seq<Option<CodeAction>>): (r: seq<CodeAction>)
    ensures r == [] <==> !HasTravisGo(context)
  {
    match FirstTravisGo(context)
    case None => []
    case Some(diag) =>
      var candidates := [Some(FixAction(diag, doc)), FixAllCandidate(ComputeFixAllAction(store, openText)), Some(DocsAction(diag))];
      DefinedDistributes(candidates, others);
      assert Defined(candidates) == [FixAction(diag, doc)] + Defined(candidates[1..]);
      Defined(candidates + others)
  }

  lemma DefinedCandidates(fix: CodeAction, all: Option<CodeAction>, docs: CodeAction)
    ensures Defined([Some(fix), all, Some(docs)]) == [fix] + (if all.Some? then [all.value] else []) + [docs]
  {
    var c := [Some(fix), all, Some(docs)];
    assert c[1..] == [all, Some(docs)];
    assert c[1..][1..] == [Some(docs)];
    assert c[1..][1..][1..] == [];
    assert Defined([Some(docs)]) == [docs];
    assert Defined([all, Some(docs)]) == (if all.Some? then [all.value] else []) + [docs];
    assert Defined(c) == [fix] + Defined(c[1..]);
  }

  /** When the request carries one of the check's diagnostics, the actions are, in
      order: the single fix for the first such diagnostic, the fix-all titled with
      its file count when it touches more than one file, the documentation link,
      then the other checks' actions that are defined. */
  lemma CodeActionsInOrder(doc: TextDocument, context: seq<Diagnostic>, store: seq<FileDiagnostics>,
                           openText: string -> string, others: seq<Option<CodeAction>>)
    requires HasTravisGo(context)
    ensures var r := ProvideCodeActions(doc, context, store, openText, others);
      var diag := FirstTravisGo(context).value;
      var fixAll := ComputeFixAllAction(store, openText);
      var n := TextEditsCount(fixAll.edit);
      var k := if n > 1 then 3 else 2;
      && |r| == k + |Defined(others)|
      && r[0] == CodeAction("Use current Go version", Some(ComputeFixEdit(diag, doc, [])), [diag], None)
      && (n > 1 ==> r[1] == CodeAction(FixAllTitle(n), Some(fixAll.edit), fixAll.diagnostics, None))
      && r[k - 1] == CodeAction("View Travis CI docs", None, [diag], Some(Command("", "open", [DocsUrl])))
      && r[k..] == Defined(others)
  {
    var diag := FirstTravisGo(context).value;
    var all := FixAllCandidate(ComputeFixAllAction(store, openText));
    var candidates := [Some(FixAction(diag, doc)), all, Some(DocsAction(diag))];
    DefinedDistributes(candidates, others);
    DefinedCandidates(FixAction(diag, doc), all, DocsAction(diag));
    var r := ProvideCodeActions(doc, context, store, openText, others);
    assert r == [FixAction(diag, doc)] + (if all.Some? then [all.value] else []) + [DocsAction(diag)] + Defined(others);
  }
}
