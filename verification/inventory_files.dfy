/** `Context.file` and `Context.Files`: the inventory of a flat list of
    files, with the optional per-file cache. */
module InventoryFiles {
  import opened Wrappers
  import opened Inventory

  /** A result with the per-file cache as it stands afterwards. */
  datatype FileOutcome = FileOutcome(result: Result<Inventory, Error>, cache: Cache<FileInfo>)

  /** `file` panics on a non-regular file that is not a cache hit: the lookup
      comes first, the regular-file check second. */
  predicate Panics(cache: Cache<FileInfo>, file: FileInfo) {
    !cache.Hit(file) && file.mode != RegularMode
  }

  /** `file`: the cached inventory on a hit; otherwise the empty inventory when
      no language is detected, or one language holding exactly the file's
      size. A detection error is returned wrapped, and only a success is
      stored in the cache. */
  function File(d: Detection, cache: Cache<FileInfo>, file: FileInfo): (o: FileOutcome)
    requires !Panics(cache, file)
    ensures cache.Hit(file) ==> o == FileOutcome(Ok(cache.store[file]), cache)
    ensures o.result.Err? <==> !cache.Hit(file) && Detect(d, file).Err?
    ensures o.result.Err? ==> o.result.error == InventoryFile(file.name, Detect(d, file).error) && o.cache == cache
    ensures o.result.Ok? && !cache.Hit(file) ==>
              && |o.result.value.languages| <= 1
              && (forall lang :: TotalOf(o.result.value.languages, lang) == FileBytes(d, file, lang))
              && o.cache == cache.Put(file, o.result.value)
    ensures !cache.Hit(file) && Detect(d, file) == Ok("") ==> o.result == Ok(Inventory([]))
    ensures !cache.Hit(file) && Detect(d, file).Ok? && Detect(d, file).value != "" ==>
              o.result == Ok(Inventory([Lang(Detect(d, file).value, file.size, 0)]))
  {
    if cache.Hit(file) then FileOutcome(Ok(cache.store[file]), cache)
    else
      match Detect(d, file)
      case Err(e) => FileOutcome(Err(InventoryFile(file.name, e)), cache)
      case Ok(lang) =>
        var inv := if lang == "" then Inventory([]) else Inventory([Lang(lang, file.size, 0)]);
        assert forall l :: TotalOf(inv.languages, l) == FileBytes(d, file, l) by {
          if lang != "" {
            assert forall l :: TotalOf(inv.languages, l) == (if l == lang then file.size else 0) + TotalOf([], l);
          }
        }
        FileOutcome(Ok(inv), cache.Put(file, inv))
  }

  /** `Files` reaches no panic: each file it gets to is a cache hit or a regular
      file. The loop stops at the first error, so files after it do not matter. */
  predicate NoPanic(d: Detection, cache: Cache<FileInfo>, files: seq<FileInfo>)
    decreases |files|
  {
    |files| == 0 ||
      (!Panics(cache, files[0]) &&
       var o := File(d, cache, files[0]);
       o.result.Err? || NoPanic(d, o.cache, files[1..]))
  }

  /** `Files`: the per-language sums of the files' inventories. It never
      returns an error: the first failing file makes it return the empty
      inventory instead. */
  function Files(d: Detection, cache: Cache<FileInfo>, files: seq<FileInfo>): (o: FileOutcome)
    requires NoPanic(d, cache, files)
    ensures o.result.Ok?
  {
    FilesFrom(d, cache, files, [])
  }

  /** The loop of `Files` from `files[0]` on, adding into `acc`. */
  function FilesFrom(d: Detection, cache: Cache<FileInfo>, files: seq<FileInfo>, acc: seq<Lang>): (o: FileOutcome)
    requires NoPanic(d, cache, files)
    ensures o.result.Ok?
    decreases |files|
  {
    if |files| == 0 then FileOutcome(Ok(Inventory(acc)), cache)
    else
      var f := File(d, cache, files[0]);
      match f.result
      case Err(_) => FileOutcome(Ok(Inventory([])), f.cache)
      case Ok(inv) => FilesFrom(d, f.cache, files[1..], AddAll(acc, inv.languages))
  }

  /** Every inventory the cache can return is the true inventory of its file. */
  ghost predicate Coherent(d: Detection, cache: Cache<FileInfo>) {
    cache.getEnabled ==>
      forall f :: f in cache.store ==> CorrectInventory(d, f, cache.store[f])
  }

  ghost predicate CorrectInventory(d: Detection, f: FileInfo, inv: Inventory) {
    && Detect(d, f).Ok?
    && UniqueNames(inv.languages)
    && forall lang :: TotalOf(inv.languages, lang) == FileBytes(d, f, lang)
  }

  /** Reference definition: the bytes of the files detected as `lang`. */
  function FilesBytes(d: Detection, files: seq<FileInfo>, lang: string): nat {
    if |files| == 0 then 0 else FileBytes(d, files[0], lang) + FilesBytes(d, files[1..], lang)
  }

  /** Some file's detection fails. */
  predicate SomeFileFails(d: Detection, files: seq<FileInfo>) {
    exists i :: 0 <= i < |files| && Detect(d, files[i]).Err?
  }

  /** With a coherent cache (in particular with no cache lookups): when some
      file's detection fails, `Files` swallows the error and returns the empty
      inventory; otherwise each language's total is the sum of the sizes of the
      files detected as that language. */
  lemma FilesSumsOrSwallows(d: Detection, cache: Cache<FileInfo>, files: seq<FileInfo>)
    requires NoPanic(d, cache, files) && Coherent(d, cache)
    ensures SomeFileFails(d, files) ==> Files(d, cache, files).result == Ok(Inventory([]))
    ensures !SomeFileFails(d, files) ==>
              && UniqueNames(Files(d, cache, files).result.value.languages)
              && forall lang :: TotalOf(Files(d, cache, files).result.value.languages, lang) == FilesBytes(d, files, lang)
  {
    FilesFromSumsOrSwallows(d, cache, files, []);
  }

  lemma {:induction false} FilesFromSumsOrSwallows(d: Detection, cache: Cache<FileInfo>, files: seq<FileInfo>, acc: seq<Lang>)
    requires NoPanic(d, cache, files) && Coherent(d, cache) && UniqueNames(acc)
    ensures SomeFileFails(d, files) ==> FilesFrom(d, cache, files, acc).result == Ok(Inventory([]))
    ensures !SomeFileFails(d, files) ==>
              && UniqueNames(FilesFrom(d, cache, files, acc).result.value.languages)
              && forall lang :: TotalOf(FilesFrom(d, cache, files, acc).result.value.languages, lang) ==
                                TotalOf(acc, lang) + FilesBytes(d, files, lang)
    decreases |files|
  {
    if |files| > 0 {
      var f := File(d, cache, files[0]);
      if Detect(d, files[0]).Err? {
        assert f.result.Err?;
      } else {
        assert f.result.Ok?;
        var inv := f.result.value;
        assert CorrectInventory(d, files[0], inv);
        assert Coherent(d, f.cache);
        FilesFromSumsOrSwallows(d, f.cache, files[1..], AddAll(acc, inv.languages));
        if SomeFileFails(d, files) {
          var i :| 0 <= i < |files| && Detect(d, files[i]).Err?;
          assert files[1..][i - 1] == files[i];
        } else {
          assert !SomeFileFails(d, files[1..]) by {
            forall i | 0 <= i < |files| - 1
              ensures Detect(d, files[1..][i]).Ok?
            {
              assert files[1..][i] == files[i + 1];
            }
          }
        }
      }
    }
  }
}
