/** The pure parts of the language statistics of a search: the size recorded
    for a file match and for a file of a commit diff, the first-seen repository
    table, the adjustment of repository inventories, the merge of all
    inventories by language name, the descending sort, and the rendering of a
    language's type. */
module LanguageStats {
  import opened Wrappers
  import opened Strings
  import opened Inventory

  /** The size recorded for a file match that is not a directory: its number
      of line matches when there are any; otherwise the number of line feeds
      in its content, fetched only then (a fetch error aborts the statistics). */
  function FileMatchSize(lineMatches: nat, content: Result<string, Error>): (r: Result<nat, Error>)
    ensures lineMatches > 0 ==> r == Ok(lineMatches)
    ensures r.Err? <==> lineMatches == 0 && content.Err?
    ensures lineMatches == 0 && content.Ok? ==> r.Ok? && r.value + 1 == |SplitLines(content.value)|
    ensures lineMatches == 0 && content.Ok? ==> (r.value == 0 <==> '\n' !in content.value)
  {
    if lineMatches > 0 then Ok(lineMatches)
    else
      match content
      case Err(e) => Err(e)
      case Ok(text) =>
        SplitLinesCount(text);
        Ok(CountChar(text, '\n'))
  }

  /** A hunk of a file diff: its line counts in the old and the new file. */
  datatype Hunk = Hunk(origLines: int, newLines: int)

  /** A file of a commit diff: its new name and its hunks. */
  datatype FileDiff = FileDiff(newName: string, hunks: seq<Hunk>)

  function Abs(x: int): nat {
    if x < 0 then -x else x
  }

  /** The size recorded for a file of a commit diff: the sum over its hunks of
      the absolute difference between new and old line counts. */
  function DiffFileSize(hunks: seq<Hunk>): (lines: nat)
    ensures lines == 0 <==> forall i :: 0 <= i < |hunks| ==> hunks[i].newLines == hunks[i].origLines
    ensures forall i :: 0 <= i < |hunks| ==> Abs(hunks[i].newLines - hunks[i].origLines) <= lines
    ensures |hunks| == 1 ==> lines == Abs(hunks[0].newLines - hunks[0].origLines)
  {
    if |hunks| == 0 then 0
    else
      var rest := DiffFileSize(hunks[1..]);
      assert forall i :: 1 <= i < |hunks| ==> hunks[i] == hunks[1..][i - 1];
      Abs(hunks[0].newLines - hunks[0].origLines) + rest
  }

  /** The size of a diff is additive over its hunks. */
  lemma {:induction false} DiffFileSizeAppend(h1: seq<Hunk>, h2: seq<Hunk>)
    ensures DiffFileSize(h1 + h2) == DiffFileSize(h1) + DiffFileSize(h2)
  {
    if |h1| > 0 {
      DiffFileSizeAppend(h1[1..], h2);
      assert (h1 + h2)[0] == h1[0];
      assert (h1 + h2)[1..] == h1[1..] + h2;
    } else {
      assert h1 + h2 == h2;
    }
  }

  /** The synthesized file entries of a commit diff, one per file, named by
      the file's new name and sized by its changed lines. */
  function DiffEntries(fileDiffs: seq<FileDiff>): (entries: seq<FileInfo>)
    ensures |entries| == |fileDiffs|
    ensures forall i :: 0 <= i < |fileDiffs| ==>
              entries[i] == FileInfo(fileDiffs[i].newName, RegularMode, DiffFileSize(fileDiffs[i].hunks))
  {
    if |fileDiffs| == 0 then []
    else
      [FileInfo(fileDiffs[0].newName, RegularMode, DiffFileSize(fileDiffs[0].hunks))] + DiffEntries(fileDiffs[1..])
  }

  /** A repository as the statistics see it. */
  datatype Repo = Repo(id: nat, name: string)

  /** `sawRepo`: records a repository under its ID unless one is recorded already. */
  function SawRepo(repos: map<nat, Repo>, repo: Repo): (r: map<nat, Repo>)
    ensures r.Keys == repos.Keys + {repo.id}
    ensures forall id :: id in repos ==> r[id] == repos[id]
    ensures repo.id !in repos ==> r[repo.id] == repo
  {
    if repo.id in repos then repos else repos[repo.id := repo]
  }

  /** Records repositories in order. */
  function SawRepos(repos: map<nat, Repo>, seen: seq<Repo>): map<nat, Repo>
    decreases |seen|
  {
    if |seen| == 0 then repos else SawRepos(SawRepo(repos, seen[0]), seen[1..])
  }

  /** The first repository with the given ID in a sequence. */
  function FirstWithId(seen: seq<Repo>, id: nat): Option<Repo> {
    if |seen| == 0 then None
    else if seen[0].id == id then Some(seen[0])
    else FirstWithId(seen[1..], id)
  }

  /** Starting from an empty table, each ID maps to the first repository seen
      with that ID, and every ID seen is recorded. */
  lemma {:induction false} SawReposKeepsFirst(repos: map<nat, Repo>, seen: seq<Repo>, id: nat)
    ensures id in SawRepos(repos, seen) <==> id in repos || FirstWithId(seen, id).Some?
    ensures id in repos ==> SawRepos(repos, seen)[id] == repos[id]
    ensures id !in repos && FirstWithId(seen, id).Some? ==> SawRepos(repos, seen)[id] == FirstWithId(seen, id).value
    decreases |seen|
  {
    if |seen| > 0 {
      SawReposKeepsFirst(SawRepo(repos, seen[0]), seen[1..], id);
    }
  }

  /** The adjustment of a repository's inventory AS WRITTEN: the `range` loop
      variable is a copy of each `Lang`, so the division by 31 is stored in
      that copy and the inventory comes out unchanged. */
  method AdjustRepoInventoryAsWritten(inv: Inventory) returns (r: Inventory)
    ensures r == inv
  {
    r := inv;
    for i := 0 to |r.languages| {
      var l := r.languages[i];
      l := l.(totalBytes := l.totalBytes / 31);
    }
  }

  /** The intended adjustment leaves an inventory as it is only when no
      language has a byte to divide; on every other inventory it differs from
      the adjustment as written, which returns its input. */
  lemma AdjustAsWrittenDiffers(inv: Inventory)
    ensures AdjustRepoInventory(inv) == inv <==>
              forall i :: 0 <= i < |inv.languages| ==> inv.languages[i].totalBytes == 0
  {
    var r := AdjustRepoInventory(inv);
    if forall i :: 0 <= i < |inv.languages| ==> inv.languages[i].totalBytes == 0 {
      assert r.languages == inv.languages by {
        forall i | 0 <= i < |inv.languages|
          ensures r.languages[i] == inv.languages[i]
        {
          assert r.languages[i].totalBytes == 0;
        }
      }
    } else {
      var i :| 0 <= i < |inv.languages| && inv.languages[i].totalBytes != 0;
      assert r.languages[i].totalBytes * 31 <= inv.languages[i].totalBytes;
      assert r.languages[i] != inv.languages[i];
    }
  }

  /** The adjustment as intended: each language's byte total is divided by 31
      (rounding down), with names and line totals unchanged. */
  function AdjustRepoInventory(inv: Inventory): (r: Inventory)
    ensures |r.languages| == |inv.languages|
    ensures forall i :: 0 <= i < |inv.languages| ==>
              && r.languages[i].name == inv.languages[i].name
              && r.languages[i].totalLines == inv.languages[i].totalLines
              && r.languages[i].totalBytes * 31 <= inv.languages[i].totalBytes < (r.languages[i].totalBytes + 1) * 31
  {
    Inventory(seq(|inv.languages|, i requires 0 <= i < |inv.languages| =>
                    inv.languages[i].(totalBytes := inv.languages[i].totalBytes / 31)))
  }

  /** The names used across a list of inventories. */
  function AllNames(invs: seq<Inventory>): set<string> {
    if |invs| == 0 then {} else Names(invs[0].languages) + AllNames(invs[1..])
  }

  /** The bytes recorded for `name` across a list of inventories. */
  function AllTotal(invs: seq<Inventory>, name: string): nat {
    if |invs| == 0 then 0 else TotalOf(invs[0].languages, name) + AllTotal(invs[1..], name)
  }

  /** The first entry named `name` in a list, if any. */
  function LangNamed(langs: seq<Lang>, name: string): (r: Option<Lang>)
    ensures r.None? <==> name !in Names(langs)
    ensures r.Some? ==> r.value in langs && r.value.name == name
  {
    if |langs| == 0 then None
    else
      NamesHeadTail(langs);
      if langs[0].name == name then Some(langs[0]) else LangNamed(langs[1..], name)
  }

  /** The first `Lang` named `name` across a list of inventories, in order. */
  function FirstLang(invs: seq<Inventory>, name: string): (r: Option<Lang>)
    ensures r.None? <==> name !in AllNames(invs)
    ensures r.Some? ==> r.value.name == name
  {
    if |invs| == 0 then None
    else
      match LangNamed(invs[0].languages, name)
      case Some(l) => Some(l)
      case None => FirstLang(invs[1..], name)
  }

  /** One step of the merge AS WRITTEN: a language seen before is left as it
      was (`+=` updates a copy of the map's value); a new one is stored. */
  function KeepFirst(acc: seq<Lang>, lang: Lang): (r: seq<Lang>)
    ensures Names(r) == Names(acc) + {lang.name}
    ensures UniqueNames(acc) ==> UniqueNames(r)
    ensures lang.name in Names(acc) ==> r == acc
    ensures lang.name !in Names(acc) ==> |r| == |acc| + 1 && r[..|acc|] == acc && r[|acc|] == lang
  {
    if lang.name in Names(acc) then acc
    else
      AppendName(acc, lang);
      acc + [lang]
  }

  /** The merge AS WRITTEN, over all inventories in order: entries already
      stored are never changed, new languages are only appended. */
  function MergeAsWritten(acc: seq<Lang>, invs: seq<Inventory>): (r: seq<Lang>)
    ensures |acc| <= |r| && forall i :: 0 <= i < |acc| ==> r[i] == acc[i]
    decreases |invs|
  {
    if |invs| == 0 then acc else MergeAsWritten(MergeLangsAsWritten(acc, invs[0].languages), invs[1..])
  }

  function MergeLangsAsWritten(acc: seq<Lang>, langs: seq<Lang>): (r: seq<Lang>)
    ensures |acc| <= |r| && forall i :: 0 <= i < |acc| ==> r[i] == acc[i]
    decreases |langs|
  {
    if |langs| == 0 then acc
    else
      var acc1 := KeepFirst(acc, langs[0]);
      assert forall i :: 0 <= i < |acc| ==> acc1[i] == acc[i];
      MergeLangsAsWritten(acc1, langs[1..])
  }

  /** Two inventories each using Go: the merge as written reports the first
      one's 10 bytes, where the sum, 15, was intended. */
  lemma MergeAsWrittenDropsLaterBytes()
    ensures MergeAsWritten([], [Inventory([Lang("Go", 10, 0)]), Inventory([Lang("Go", 5, 0)])]) == [Lang("Go", 10, 0)]
    ensures TotalOf(Merge([], [Inventory([Lang("Go", 10, 0)]), Inventory([Lang("Go", 5, 0)])]), "Go") == 15
  {
    var invs := [Inventory([Lang("Go", 10, 0)]), Inventory([Lang("Go", 5, 0)])];
    assert Names([Lang("Go", 10, 0)]) == {"Go"} by {
      assert [Lang("Go", 10, 0)][0].name == "Go";
    }
    assert AllTotal(invs, "Go") == 15;
  }

  /** `acc + [lang]` names what `acc` names and `lang`'s name. */
  lemma AppendName(acc: seq<Lang>, lang: Lang)
    ensures Names(acc + [lang]) == Names(acc) + {lang.name}
    ensures UniqueNames(acc) && lang.name !in Names(acc) ==> UniqueNames(acc + [lang])
    ensures forall m :: TotalOf(acc + [lang], m) == TotalOf(acc, m) + (if m == lang.name then lang.totalBytes else 0)
  {
    var r := acc + [lang];
    assert r[|acc|] == lang;
    forall m | m in Names(acc)
      ensures m in Names(r)
    {
      var i :| 0 <= i < |acc| && acc[i].name == m;
      assert r[i] == acc[i];
    }
    if UniqueNames(acc) && lang.name !in Names(acc) {
      forall i, j | 0 <= i < j < |r|
        ensures r[i].name != r[j].name
      {
        if j == |acc| {
          assert r[i] == acc[i];
          assert acc[i].name in Names(acc);
        }
      }
    }
    TotalOfAppend(acc, lang);
  }

  lemma {:induction false} TotalOfAppend(acc: seq<Lang>, lang: Lang)
    ensures forall m :: TotalOf(acc + [lang], m) == TotalOf(acc, m) + (if m == lang.name then lang.totalBytes else 0)
  {
    if |acc| > 0 {
      TotalOfAppend(acc[1..], lang);
      assert (acc + [lang])[1..] == acc[1..] + [lang];
    } else {
      assert forall m :: TotalOf([lang], m) == (if m == lang.name then lang.totalBytes else 0) + TotalOf([], m);
    }
  }

  /** One step of the merge as intended: a language seen before has its bytes
      added to the stored entry; a new one is stored as it is. */
  function Absorb(acc: seq<Lang>, lang: Lang): (r: seq<Lang>)
    ensures Names(r) == Names(acc) + {lang.name}
    ensures UniqueNames(acc) ==> UniqueNames(r)
    ensures forall m :: TotalOf(r, m) == TotalOf(acc, m) + (if m == lang.name then lang.totalBytes else 0)
  {
    if lang.name in Names(acc) then AddBytes(acc, lang.name, lang.totalBytes)
    else
      AppendName(acc, lang);
      acc + [lang]
  }

  /** The merge by language name as intended, over all inventories in order:
      it keeps one entry per language, names exactly the languages of the
      inventories, and gives each language the sum of its bytes across them. */
  function Merge(acc: seq<Lang>, invs: seq<Inventory>): (r: seq<Lang>)
    ensures Names(r) == Names(acc) + AllNames(invs)
    ensures UniqueNames(acc) ==> UniqueNames(r)
    ensures forall m :: TotalOf(r, m) == TotalOf(acc, m) + AllTotal(invs, m)
    decreases |invs|
  {
    if |invs| == 0 then acc else Merge(MergeLangs(acc, invs[0].languages), invs[1..])
  }

  function MergeLangs(acc: seq<Lang>, langs: seq<Lang>): (r: seq<Lang>)
    ensures Names(r) == Names(acc) + Names(langs)
    ensures UniqueNames(acc) ==> UniqueNames(r)
    ensures forall m :: TotalOf(r, m) == TotalOf(acc, m) + TotalOf(langs, m)
    decreases |langs|
  {
    if |langs| == 0 then acc
    else
      assert langs == [langs[0]] + langs[1..];
      NamesCons(langs[0], langs[1..]);
      MergeLangs(Absorb(acc, langs[0]), langs[1..])
  }

  /** The merge as written also keeps one entry per language and names exactly
      the languages of the inventories, but each entry is the first `Lang`
      seen with its name. */
  lemma {:induction false} MergeAsWrittenKeepsFirst(acc: seq<Lang>, invs: seq<Inventory>)
    ensures Names(MergeAsWritten(acc, invs)) == Names(acc) + AllNames(invs)
    ensures UniqueNames(acc) ==> UniqueNames(MergeAsWritten(acc, invs))
    ensures forall x :: x in MergeAsWritten(acc, invs) ==>
              x in acc || (x.name !in Names(acc) && FirstLang(invs, x.name) == Some(x))
    decreases |invs|
  {
    if |invs| > 0 {
      var acc1 := MergeLangsAsWritten(acc, invs[0].languages);
      MergeLangsAsWrittenKeepsFirst(acc, invs[0].languages);
      MergeAsWrittenKeepsFirst(acc1, invs[1..]);
      forall x | x in MergeAsWritten(acc, invs)
        ensures x in acc || (x.name !in Names(acc) && FirstLang(invs, x.name) == Some(x))
      {
        if x !in acc1 {
          assert LangNamed(invs[0].languages, x.name).None?;
        }
      }
    }
  }

  lemma {:induction false} MergeLangsAsWrittenKeepsFirst(acc: seq<Lang>, langs: seq<Lang>)
    ensures Names(MergeLangsAsWritten(acc, langs)) == Names(acc) + Names(langs)
    ensures UniqueNames(acc) ==> UniqueNames(MergeLangsAsWritten(acc, langs))
    ensures forall x :: x in MergeLangsAsWritten(acc, langs) ==>
              x in acc || (x.name !in Names(acc) && LangNamed(langs, x.name) == Some(x))
    decreases |langs|
  {
    if |langs| > 0 {
      assert langs == [langs[0]] + langs[1..];
      NamesCons(langs[0], langs[1..]);
      MergeLangsAsWrittenKeepsFirst(KeepFirst(acc, langs[0]), langs[1..]);
    }
    MergeLangsAsWrittenAddsFirst(acc, langs);
  }

  /** Each entry the merge as written adds for one list is the list's first
      `Lang` under its name. */
  lemma {:induction false} MergeLangsAsWrittenAddsFirst(acc: seq<Lang>, langs: seq<Lang>)
    ensures forall x :: x in MergeLangsAsWritten(acc, langs) ==>
              x in acc || (x.name !in Names(acc) && LangNamed(langs, x.name) == Some(x))
    decreases |langs|
  {
    if |langs| > 0 {
      var acc1 := KeepFirst(acc, langs[0]);
      MergeLangsAsWrittenAddsFirst(acc1, langs[1..]);
      KeepFirstMembers(acc, langs[0]);
      forall x | x in MergeLangsAsWritten(acc, langs)
        ensures x in acc || (x.name !in Names(acc) && LangNamed(langs, x.name) == Some(x))
      {
        if x !in acc1 {
          assert LangNamed(langs, x.name) == LangNamed(langs[1..], x.name);
        }
      }
    }
  }

  /** A merge step as written adds at most the given `Lang`, and only under a
      new name. */
  lemma KeepFirstMembers(acc: seq<Lang>, lang: Lang)
    ensures forall x :: x in KeepFirst(acc, lang) ==> x in acc || (x == lang && lang.name !in Names(acc))
  {
    if lang.name !in Names(acc) {
      assert KeepFirst(acc, lang) == acc + [lang];
    }
  }

  /** Byte totals never increase along the sequence. */
  predicate SortedByBytes(langs: seq<Lang>) {
    forall i, j :: 0 <= i < j < |langs| ==> langs[i].totalBytes >= langs[j].totalBytes
  }

  /** Inserts `lang` into a list sorted by descending byte totals. */
  function Insert(lang: Lang, sorted: seq<Lang>): (r: seq<Lang>)
    requires SortedByBytes(sorted)
    ensures SortedByBytes(r)
    ensures multiset(r) == multiset(sorted) + multiset{lang}
    ensures |r| > 0 && (r[0] == lang || (|sorted| > 0 && r[0] == sorted[0]))
  {
    if |sorted| == 0 || lang.totalBytes >= sorted[0].totalBytes then [lang] + sorted
    else
      var rest := Insert(lang, sorted[1..]);
      assert sorted == [sorted[0]] + sorted[1..];
      [sorted[0]] + rest
  }

  /** `sort.Slice` with `TotalBytes` descending: a permutation of the
      statistics sorted by byte total, largest first. */
  function SortByBytes(langs: seq<Lang>): (r: seq<Lang>)
    ensures SortedByBytes(r)
    ensures multiset(r) == multiset(langs)
  {
    if |langs| == 0 then []
    else
      assert langs == [langs[0]] + langs[1..];
      Insert(langs[0], SortByBytes(langs[1..]))
  }

  /** Inserting keeps the names and their uniqueness, and adds the inserted
      language's name. */
  lemma {:induction false} InsertKeepsNames(lang: Lang, sorted: seq<Lang>)
    requires SortedByBytes(sorted)
    ensures Names(Insert(lang, sorted)) == Names(sorted) + {lang.name}
    ensures UniqueNames(sorted) && lang.name !in Names(sorted) ==> UniqueNames(Insert(lang, sorted))
  {
    if |sorted| == 0 || lang.totalBytes >= sorted[0].totalBytes {
      NamesCons(lang, sorted);
      if UniqueNames(sorted) && lang.name !in Names(sorted) {
        ConsKeepsNamesUnique(lang, sorted);
      }
    } else {
      var rest := Insert(lang, sorted[1..]);
      InsertKeepsNames(lang, sorted[1..]);
      assert sorted == [sorted[0]] + sorted[1..];
      NamesCons(sorted[0], sorted[1..]);
      NamesCons(sorted[0], rest);
      if UniqueNames(sorted) && lang.name !in Names(sorted) {
        UniqueTail(sorted);
        ConsKeepsNamesUnique(sorted[0], rest);
      }
    }
  }

  /** Inserting adds the inserted language's bytes to its name's total. */
  lemma {:induction false} InsertKeepsTotals(lang: Lang, sorted: seq<Lang>)
    requires SortedByBytes(sorted)
    ensures forall m :: TotalOf(Insert(lang, sorted), m) ==
                        TotalOf(sorted, m) + (if m == lang.name then lang.totalBytes else 0)
  {
    if |sorted| == 0 || lang.totalBytes >= sorted[0].totalBytes {
      assert (([lang] + sorted)[1..]) == sorted;
    } else {
      var rest := Insert(lang, sorted[1..]);
      InsertKeepsTotals(lang, sorted[1..]);
      assert ([sorted[0]] + rest)[1..] == rest;
    }
  }

  lemma NamesHeadTail(langs: seq<Lang>)
    requires |langs| > 0
    ensures Names(langs) == {langs[0].name} + Names(langs[1..])
  {
    assert langs == [langs[0]] + langs[1..];
    NamesCons(langs[0], langs[1..]);
  }

  /** The head of a list with unique names is not named again in its tail. */
  lemma UniqueTail(langs: seq<Lang>)
    requires UniqueNames(langs) && |langs| > 0
    ensures UniqueNames(langs[1..]) && langs[0].name !in Names(langs[1..])
  {
    forall k | 0 <= k < |langs| - 1
      ensures langs[1..][k].name != langs[0].name
    {
      assert langs[1..][k] == langs[k + 1];
    }
  }

  /** Sorting keeps the names, their uniqueness and the totals. */
  lemma SortKeepsLanguages(langs: seq<Lang>)
    ensures Names(SortByBytes(langs)) == Names(langs)
    ensures UniqueNames(langs) ==> UniqueNames(SortByBytes(langs))
    ensures forall m :: TotalOf(SortByBytes(langs), m) == TotalOf(langs, m)
  {
    SortKeepsNames(langs);
    SortKeepsTotals(langs);
  }

  lemma {:induction false} SortKeepsNames(langs: seq<Lang>)
    ensures Names(SortByBytes(langs)) == Names(langs)
    ensures UniqueNames(langs) ==> UniqueNames(SortByBytes(langs))
  {
    if |langs| > 0 {
      var rest := SortByBytes(langs[1..]);
      SortKeepsNames(langs[1..]);
      InsertKeepsNames(langs[0], rest);
      NamesHeadTail(langs);
      if UniqueNames(langs) {
        UniqueTail(langs);
      }
    }
  }

  lemma {:induction false} SortKeepsTotals(langs: seq<Lang>)
    ensures forall m :: TotalOf(SortByBytes(langs), m) == TotalOf(langs, m)
  {
    if |langs| > 0 {
      SortKeepsTotals(langs[1..]);
      InsertKeepsTotals(langs[0], SortByBytes(langs[1..]));
    }
  }

  /** The tail of the statistics: adjust the repositories' inventories, merge
      them with the file inventories by language name, sort by bytes. */
  function LanguageStatistics(repoInventories: seq<Inventory>, fileInventories: seq<Inventory>): (r: seq<Lang>)
    ensures SortedByBytes(r)
    ensures multiset(r) == multiset(Merge([], AdjustAll(repoInventories) + fileInventories))
  {
    SortByBytes(Merge([], AdjustAll(repoInventories) + fileInventories))
  }

  /** The statistics hold one entry per language used in any inventory, each
      with the sum of that language's bytes across the (adjusted) inventories. */
  lemma LanguageStatisticsConserve(repoInventories: seq<Inventory>, fileInventories: seq<Inventory>, name: string)
    ensures UniqueNames(LanguageStatistics(repoInventories, fileInventories))
    ensures Names(LanguageStatistics(repoInventories, fileInventories)) ==
              AllNames(AdjustAll(repoInventories) + fileInventories)
    ensures TotalOf(LanguageStatistics(repoInventories, fileInventories), name) ==
              AllTotal(AdjustAll(repoInventories) + fileInventories, name)
  {
    var invs := AdjustAll(repoInventories) + fileInventories;
    SortKeepsLanguages(Merge([], invs));
  }

  /** The tail of the statistics AS WRITTEN: every repository inventory goes
      through the adjustment as written, then all inventories through the merge
      as written and the sort. Each language used anywhere is reported once,
      with the first `Lang` seen under its name. */
  method LanguageStatisticsAsWritten(repoInventories: seq<Inventory>, fileInventories: seq<Inventory>)
    returns (r: seq<Lang>)
    ensures SortedByBytes(r)
    ensures UniqueNames(r)
    ensures Names(r) == AllNames(repoInventories + fileInventories)
    ensures forall x :: x in r ==> FirstLang(repoInventories + fileInventories, x.name) == Some(x)
  {
    var all: seq<Inventory> := [];
    for i := 0 to |repoInventories|
      invariant all == repoInventories[..i]
    {
      var adjusted := AdjustRepoInventoryAsWritten(repoInventories[i]);
      all := all + [adjusted];
    }
    assert repoInventories[..|repoInventories|] == repoInventories;
    all := all + fileInventories;
    var merged := MergeAsWritten([], all);
    MergeAsWrittenKeepsFirst([], all);
    r := SortByBytes(merged);
    SortKeepsLanguages(merged);
    SortKeepsMembers(merged);
  }

  /** The sort neither adds nor drops an element. */
  lemma SortKeepsMembers(langs: seq<Lang>)
    ensures forall x :: x in SortByBytes(langs) <==> x in langs
  {
    var r := SortByBytes(langs);
    forall x
      ensures x in r <==> x in langs
    {
      assert x in r <==> x in multiset(r);
      assert x in langs <==> x in multiset(langs);
    }
  }

  function AdjustAll(invs: seq<Inventory>): (r: seq<Inventory>)
    ensures |r| == |invs|
    ensures forall i :: 0 <= i < |invs| ==> r[i] == AdjustRepoInventory(invs[i])
  {
    if |invs| == 0 then [] else [AdjustRepoInventory(invs[0])] + AdjustAll(invs[1..])
  }

  /** enry's language types. */
  datatype LanguageType = Unknown | Data | Programming | Markup | Prose

  /** `typeToString`: the lower-case name of a known type, "" otherwise. */
  function TypeToString(t: LanguageType): (s: string)
    ensures s == "" <==> t == Unknown
  {
    match t
    case Data => "data"
    case Programming => "programming"
    case Markup => "markup"
    case Prose => "prose"
    case Unknown => ""
  }

  /** Reads a type back from its rendering. */
  function ParseType(s: string): LanguageType {
    if s == "data" then Data
    else if s == "programming" then Programming
    else if s == "markup" then Markup
    else if s == "prose" then Prose
    else Unknown
  }

  /** The rendering loses nothing: every type reads back as itself, so distinct
      types render differently. */
  lemma TypeToStringRoundTrip(t: LanguageType)
    ensures ParseType(TypeToString(t)) == t
  {
  }
}
