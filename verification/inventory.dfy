/** The language inventory's data model and per-file classification: `Lang`
    and `Inventory`, the filename-based guess with its Markdown override,
    `detect` and `getLang`, the per-language byte totals the tree and file
    inventories accumulate, and the subtree/file cache. */
module Inventory {
  import opened Wrappers

  newtype byte = x: int | 0 <= x < 256

  /** A language used in a tree, with its byte and line totals. */
  datatype Lang = Lang(name: string, totalBytes: nat, totalLines: nat)

  /** The languages used in a tree. */
  datatype Inventory = Inventory(languages: seq<Lang>)

  /** How many bytes of a file are read, at least, when detection needs its content. */
  const MinFileBytes: nat := 16 * 1024

  /** The kind of a directory entry: a regular file, a directory, or anything
      else (symlink, submodule, ...). */
  datatype Mode = RegularMode | DirMode | OtherMode

  /** The parts of `os.FileInfo` the inventory uses. */
  datatype FileInfo = FileInfo(name: string, mode: Mode, size: nat)

  /** Errors, with the context the source wraps them in. */
  datatype Error =
    | Cause(message: string)
    | InventoryFile(file: string, inner: Error)
    | InventoryTree(tree: string, inner: Error)
    | ScanningFile(inner: Error)

  /** The language-detection library the source calls, taken as given: the guess
      from a file name with its "safe" flag, the vendored-path test, and the
      guess from a name and a content prefix. */
  datatype Enry = Enry(
    languageByExtension: string -> (string, bool),
    isVendor: string -> bool,
    languageByContent: (string, seq<byte>) -> string)

  /** Reads at least the given number of leading bytes of the named file. */
  type FileReader = (string, nat) -> Result<seq<byte>, Error>

  /** The detection context: the library and the optional content reader. */
  datatype Detection = Detection(enry: Enry, readFile: Option<FileReader>)

  /** Go's `filepath.Ext`: the suffix from the last dot of the last path
      element, or "" when that element has no dot. */
  function Ext(path: string): (e: string)
    ensures e == "" || (e[0] == '.' && |e| <= |path| && path[|path| - |e|..] == e)
    ensures forall i :: 0 <= i < |e| ==> e[i] != '/'
    ensures e != "" ==> '.' !in e[1..]
    ensures e == "" ==> forall i :: 0 <= i < |path| && path[i] == '.' ==>
                          exists j :: i < j < |path| && path[j] == '/'
  {
    if |path| == 0 || path[|path| - 1] == '/' then ""
    else if path[|path| - 1] == '.' then "."
    else
      var e := Ext(path[..|path| - 1]);
      if e == "" then
        forall i | 0 <= i < |path| && path[i] == '.'
          ensures exists j :: i < j < |path| && path[j] == '/'
        {
          assert path[..|path| - 1][i] == '.';
          var j :| i < j < |path| - 1 && path[..|path| - 1][j] == '/';
          assert path[j] == '/';
        }
        ""
      else
        assert path[..|path| - 1][|path| - 1 - |e|..] == path[|path| - 1 - |e|..|path| - 1];
        e + [path[|path| - 1]]
  }

  /** The result of a guess from the file name alone. */
  datatype Guess = Guess(language: string, safe: bool)

  /** `GetLanguageByFilename`: the library's guess from the name, except that a
      ".md" file guessed as "GCC Machine Description" is taken as Markdown. */
  function GetLanguageByFilename(enry: Enry, name: string): (g: Guess)
    ensures g.safe == enry.languageByExtension(name).1
    ensures Ext(name) != ".md" ==> g.language == enry.languageByExtension(name).0
    ensures Ext(name) == ".md" ==> g.language != "GCC Machine Description"
    ensures g.language != enry.languageByExtension(name).0 <==>
              Ext(name) == ".md" && enry.languageByExtension(name).0 == "GCC Machine Description"
    ensures g.language != enry.languageByExtension(name).0 ==> g.language == "Markdown"
  {
    var (language, safe) := enry.languageByExtension(name);
    if language == "GCC Machine Description" && Ext(name) == ".md" then Guess("Markdown", safe)
    else Guess(language, safe)
  }

  /** Whether the inventory skips a file before looking at its name or content. */
  predicate Skipped(enry: Enry, file: FileInfo) {
    file.mode != RegularMode || enry.isVendor(file.name)
  }

  /** `detect`: the language of one file; "" for skipped files. The content is
      read, at least `MinFileBytes` of it, only when the name alone is not a
      safe guess and a reader is present; a read error is returned (with the
      empty language). */
  function Detect(d: Detection, file: FileInfo): (r: Result<string, Error>)
    ensures Skipped(d.enry, file) ==> r == Ok("")
    ensures r.Err? ==> && !Skipped(d.enry, file)
                       && d.readFile.Some?
                       && !GetLanguageByFilename(d.enry, file.name).safe
                       && d.readFile.value(file.name, MinFileBytes) == Err(r.error)
    ensures !Skipped(d.enry, file) && (GetLanguageByFilename(d.enry, file.name).safe || d.readFile.None?) ==>
              r == Ok(GetLanguageByFilename(d.enry, file.name).language)
    ensures !Skipped(d.enry, file) && !GetLanguageByFilename(d.enry, file.name).safe && d.readFile.Some? &&
            d.readFile.value(file.name, MinFileBytes).Ok? ==>
              r == Ok(d.enry.languageByContent(file.name, d.readFile.value(file.name, MinFileBytes).value))
  {
    if Skipped(d.enry, file) then Ok("")
    else
      var guess := GetLanguageByFilename(d.enry, file.name);
      if !guess.safe && d.readFile.Some? then
        match d.readFile.value(file.name, MinFileBytes)
        case Err(e) => Err(e)
        case Ok(data) => Ok(d.enry.languageByContent(file.name, data))
      else Ok(guess.language)
  }

  /** The bytes a file contributes to `lang` in an inventory: its size when it
      is detected as that language, nothing otherwise (and nothing to ""). */
  function FileBytes(d: Detection, file: FileInfo, lang: string): nat {
    if lang != "" && Detect(d, file) == Ok(lang) then file.size else 0
  }

  /** A skipped file is classified without the filename table and without the
      reader: any two libraries that agree on vendoring, and any two readers,
      give the same answer. */
  lemma SkippedFileIgnoresNameAndContent(enry1: Enry, enry2: Enry, read1: Option<FileReader>,
                                         read2: Option<FileReader>, file: FileInfo)
    requires enry1.isVendor == enry2.isVendor
    requires Skipped(enry1, file)
    ensures Detect(Detection(enry1, read1), file) == Detect(Detection(enry2, read2), file) == Ok("")
  {
  }

  /** A safe filename guess is never second-guessed: the reader is irrelevant. */
  lemma SafeGuessIgnoresReader(enry: Enry, read1: Option<FileReader>, read2: Option<FileReader>, file: FileInfo)
    requires GetLanguageByFilename(enry, file.name).safe
    ensures Detect(Detection(enry, read1), file) == Detect(Detection(enry, read2), file)
  {
  }

  /** What `getLang` reads from the file's `io.ReadCloser`: the outcome of
      reading its first `MinFileBytes` bytes, and the outcome of counting its
      lines (the line scanner itself is not modelled). */
  datatype ReadCloser = ReadCloser(prefix: Result<seq<byte>, Error>, lineCount: Result<nat, Error>)

  /** `getLang`: the zero `Lang` for skipped files; with no reader, only the
      name; with a reader, the name (from the content when the filename guess is
      not safe), the file's size and its line count. */
  function GetLang(enry: Enry, file: FileInfo, rc: Option<ReadCloser>): (r: Result<Lang, Error>)
    ensures Skipped(enry, file) ==> r == Ok(Lang("", 0, 0))
    ensures !Skipped(enry, file) && rc.None? ==> r == Ok(Lang(GetLanguageByFilename(enry, file.name).language, 0, 0))
    ensures !Skipped(enry, file) && rc.Some? && r.Ok? ==>
              r.value.totalBytes == file.size && rc.value.lineCount == Ok(r.value.totalLines)
    ensures r.Err? <==> (!Skipped(enry, file) && rc.Some? &&
                         ((!GetLanguageByFilename(enry, file.name).safe && rc.value.prefix.Err?) || rc.value.lineCount.Err?))
  {
    if Skipped(enry, file) then Ok(Lang("", 0, 0))
    else
      var guess := GetLanguageByFilename(enry, file.name);
      match rc
      case None => Ok(Lang(guess.language, 0, 0))
      case Some(reader) =>
        var named :- if guess.safe then Ok(guess.language)
                     else match reader.prefix
                          case Err(e) => Err(e)
                          case Ok(data) => Ok(enry.languageByContent(file.name, data));
        match reader.lineCount
        case Err(e) => Err(ScanningFile(e))
        case Ok(n) => Ok(Lang(named, file.size, n))
  }

  /** The bytes recorded for `name` in a list of languages. */
  function TotalOf(langs: seq<Lang>, name: string): nat {
    if |langs| == 0 then 0
    else (if langs[0].name == name then langs[0].totalBytes else 0) + TotalOf(langs[1..], name)
  }

  /** No language appears twice. */
  predicate UniqueNames(langs: seq<Lang>) {
    forall i, j :: 0 <= i < j < |langs| ==> langs[i].name != langs[j].name
  }

  /** The names appearing in a list of languages. */
  function Names(langs: seq<Lang>): set<string> {
    set i | 0 <= i < |langs| :: langs[i].name
  }

  /** `langTotalBytes[name] += n`: adds `n` bytes to `name`'s entry, appending a
      new entry the first time the name is seen. */
  function AddBytes(langs: seq<Lang>, name: string, n: nat): (r: seq<Lang>)
    ensures forall m :: TotalOf(r, m) == TotalOf(langs, m) + (if m == name then n else 0)
    ensures UniqueNames(langs) ==> UniqueNames(r)
    ensures Names(r) == Names(langs) + {name}
  {
    if |langs| == 0 then
      assert TotalOf([Lang(name, n, 0)], name) == n + TotalOf([], name);
      [Lang(name, n, 0)]
    else if langs[0].name == name then
      var r := [Lang(name, langs[0].totalBytes + n, langs[0].totalLines)] + langs[1..];
      assert r[1..] == langs[1..];
      assert Names(r) == Names(langs) by {
        assert forall i :: 0 <= i < |r| ==> r[i].name == langs[i].name;
      }
      r
    else
      var rest := AddBytes(langs[1..], name, n);
      var r := [langs[0]] + rest;
      assert r[1..] == rest;
      NamesCons(langs[0], rest);
      assert langs == [langs[0]] + langs[1..];
      NamesCons(langs[0], langs[1..]);
      assert UniqueNames(langs) ==> UniqueNames(r) by {
        if UniqueNames(langs) {
          ConsKeepsNamesUnique(langs[0], rest);
        }
      }
      r
  }

  lemma NamesCons(head: Lang, rest: seq<Lang>)
    ensures Names([head] + rest) == {head.name} + Names(rest)
  {
    var r := [head] + rest;
    assert r[0] == head;
    forall m | m in Names(rest)
      ensures m in Names(r)
    {
      var i :| 0 <= i < |rest| && rest[i].name == m;
      assert r[i + 1] == rest[i];
    }
    forall m | m in Names(r)
      ensures m in {head.name} + Names(rest)
    {
      var i :| 0 <= i < |r| && r[i].name == m;
      if i > 0 {
        assert r[i] == rest[i - 1];
      }
    }
  }

  /** Putting a language in front of a list that does not name it keeps names unique. */
  lemma ConsKeepsNamesUnique(head: Lang, rest: seq<Lang>)
    requires UniqueNames(rest) && head.name !in Names(rest)
    ensures UniqueNames([head] + rest)
  {
    var r := [head] + rest;
    forall i, j | 0 <= i < j < |r|
      ensures r[i].name != r[j].name
    {
      if i == 0 {
        assert r[j] == rest[j - 1];
      }
    }
  }

  /** Adds every language's bytes of `langs` into `acc`, as the tree adds a
      subtree's inventory into its parent's totals. */
  function AddAll(acc: seq<Lang>, langs: seq<Lang>): (r: seq<Lang>)
    ensures forall m :: TotalOf(r, m) == TotalOf(acc, m) + TotalOf(langs, m)
    ensures UniqueNames(acc) ==> UniqueNames(r)
    decreases |langs|
  {
    if |langs| == 0 then acc
    else AddAll(AddBytes(acc, langs[0].name, langs[0].totalBytes), langs[1..])
  }

  /** A cache of inventories keyed by `K`, with the source's two optional hooks:
      lookups happen only when `getEnabled`, stores only when `setEnabled`. */
  datatype Cache<K> = Cache(getEnabled: bool, setEnabled: bool, store: map<K, Inventory>) {
    predicate Hit(key: K) {
      getEnabled && key in store
    }

    /** Stores `inv` under `key` when storing is enabled. */
    function Put(key: K, inv: Inventory): (c: Cache<K>)
      ensures c.getEnabled == getEnabled && c.setEnabled == setEnabled
      ensures store.Keys <= c.store.Keys
      ensures setEnabled ==> key in c.store && c.store[key] == inv
      ensures forall k :: k in c.store && k != key ==> k in store && c.store[k] == store[k]
      ensures !setEnabled ==> c == this
    {
      if setEnabled then Cache(getEnabled, setEnabled, store[key := inv]) else this
    }
  }
}
