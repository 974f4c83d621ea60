/** `Context.Tree`: the per-language byte totals of a directory tree, folded
    over its entries recursively, with the optional subtree cache. The
    directory reader `ReadTree` is replaced by the listing stored in each
    directory entry; an unreadable directory carries the reader's error. */
module InventoryTree {
  import opened Wrappers
  import opened Inventory

  /** What `ReadTree` returns for a directory: its entries, or an error. */
  datatype Listing = Listed(entries: seq<Entry>) | Unreadable(error: Error)

  /** A directory entry: a regular file, a subdirectory, or anything else
      (symlink, submodule, ...). */
  datatype Entry =
    | RegularFile(name: string, size: nat)
    | Directory(name: string, listing: Listing)
    | Special(name: string)

  /** The `os.FileInfo` of an entry, as `detect` sees it. */
  function Info(e: Entry): FileInfo {
    match e
    case RegularFile(name, size) => FileInfo(name, RegularMode, size)
    case Directory(name, _) => FileInfo(name, DirMode, 0)
    case Special(name) => FileInfo(name, OtherMode, 0)
  }

  /** A size measure of an entry: every entry counts at least one, and a listed
      directory counts more than all its entries together. */
  function Size(e: Entry): (n: nat)
    ensures n >= 1
    decreases e
  {
    match e
    case Directory(_, Listed(es)) => 2 + SizeAll(es)
    case _ => 1
  }

  function SizeAll(es: seq<Entry>): nat
    decreases es
  {
    if |es| == 0 then 0 else Size(es[0]) + SizeAll(es[1..])
  }

  /** `c2` differs from `c1` only in entries smaller than `bound`: keys are never
      removed, the hooks are unchanged, and no entry of size `bound` or more is
      written. */
  predicate ChangesBelow(c1: Cache<Entry>, c2: Cache<Entry>, bound: nat) {
    && c2.getEnabled == c1.getEnabled
    && c2.setEnabled == c1.setEnabled
    && c1.store.Keys <= c2.store.Keys
    && forall k :: k in c2.store && Size(k) >= bound ==> k in c1.store && c2.store[k] == c1.store[k]
  }

  /** A result with the cache as it stands afterwards. */
  datatype Outcome<T> = Outcome(result: Result<T, Error>, cache: Cache<Entry>)

  /** `Tree`: a cache hit is returned as stored, without reading the directory;
      otherwise the directory's entries are folded into per-language totals,
      which are stored in the cache only when no error occurred. */
  function Tree(d: Detection, cache: Cache<Entry>, dir: Entry): (o: Outcome<Inventory>)
    requires dir.Directory?
    ensures cache.Hit(dir) ==> o == Outcome(Ok(cache.store[dir]), cache)
    ensures !cache.Hit(dir) && dir.listing.Unreadable? ==> o == Outcome(Err(dir.listing.error), cache)
    ensures o.result.Ok? && !cache.Hit(dir) && cache.setEnabled ==>
              dir in o.cache.store && o.cache.store[dir] == o.result.value
    ensures o.result.Err? ==> && (dir in o.cache.store <==> dir in cache.store)
                              && (dir in cache.store ==> o.cache.store[dir] == cache.store[dir])
    ensures ChangesBelow(cache, o.cache, Size(dir) + 1)
    decreases Size(dir), 1
  {
    if cache.Hit(dir) then Outcome(Ok(cache.store[dir]), cache)
    else
      match dir.listing
      case Unreadable(e) => Outcome(Err(e), cache)
      case Listed(entries) =>
        var walked := Walk(d, cache, entries, []);
        match walked.result
        case Err(e) => Outcome(Err(e), walked.cache)
        case Ok(totals) =>
          var inv := Inventory(totals);
          Outcome(Ok(inv), walked.cache.Put(dir, inv))
  }

  /** The loop over a directory's entries, from `es[0]` on, adding into `acc`.
      A regular file adds its size to its detected language (nothing when the
      language is ""); a subdirectory adds its own totals; other entries are
      skipped; the first error ends the loop. */
  function Walk(d: Detection, cache: Cache<Entry>, es: seq<Entry>, acc: seq<Lang>): (o: Outcome<seq<Lang>>)
    ensures ChangesBelow(cache, o.cache, SizeAll(es) + 1)
    decreases SizeAll(es) + 1, 0
  {
    if |es| == 0 then Outcome(Ok(acc), cache)
    else
      match es[0]
      case RegularFile(name, size) =>
        (match Detect(d, Info(es[0]))
         case Err(e) => Outcome(Err(InventoryFile(name, e)), cache)
         case Ok(lang) => Walk(d, cache, es[1..], if lang != "" then AddBytes(acc, lang, size) else acc))
      case Directory(name, _) =>
        var sub := Tree(d, cache, es[0]);
        (match sub.result
         case Err(e) => Outcome(Err(InventoryTree(name, e)), sub.cache)
         case Ok(inv) => Walk(d, sub.cache, es[1..], AddAll(acc, inv.languages)))
      case Special(_) => Walk(d, cache, es[1..], acc)
  }

  /** Reference definition: the bytes of all regular files of `e` detected as
      `lang`. Subdirectories count through their files; other entries and
      unreadable directories count nothing. */
  function DetectedBytes(d: Detection, e: Entry, lang: string): nat
    decreases e
  {
    match e
    case RegularFile(_, _) => FileBytes(d, Info(e), lang)
    case Directory(_, Listed(es)) => DetectedBytesAll(d, es, lang)
    case _ => 0
  }

  function DetectedBytesAll(d: Detection, es: seq<Entry>, lang: string): nat
    decreases es
  {
    if |es| == 0 then 0 else DetectedBytes(d, es[0], lang) + DetectedBytesAll(d, es[1..], lang)
  }

  /** Reference definition: somewhere in `e` a directory cannot be read or a
      file's detection fails. */
  predicate Fails(d: Detection, e: Entry)
    decreases e
  {
    match e
    case RegularFile(_, _) => Detect(d, Info(e)).Err?
    case Directory(_, Unreadable(_)) => true
    case Directory(_, Listed(es)) => FailsAny(d, es)
    case Special(_) => false
  }

  predicate FailsAny(d: Detection, es: seq<Entry>)
    decreases es
  {
    |es| > 0 && (Fails(d, es[0]) || FailsAny(d, es[1..]))
  }

  /** Every inventory the cache can return is the true inventory of its key:
      the key is a directory whose walk succeeds, and the stored totals are the
      detected bytes per language, with no language listed twice. A cache whose
      lookups are disabled is coherent whatever it stores. */
  ghost predicate Coherent(d: Detection, cache: Cache<Entry>) {
    cache.getEnabled ==>
      forall k :: k in cache.store ==> CorrectInventory(d, k, cache.store[k])
  }

  ghost predicate CorrectInventory(d: Detection, k: Entry, inv: Inventory) {
    && k.Directory?
    && !Fails(d, k)
    && UniqueNames(inv.languages)
    && forall lang :: TotalOf(inv.languages, lang) == DetectedBytes(d, k, lang)
  }

  /** Conservation: with a coherent cache (in particular with no cache lookups),
      `Tree` succeeds exactly when nothing below the directory fails, its totals
      are, per language, the sizes of all regular files detected as that
      language, and the cache stays coherent. */
  lemma {:induction false} TreeConserves(d: Detection, cache: Cache<Entry>, dir: Entry)
    requires dir.Directory? && Coherent(d, cache)
    ensures Coherent(d, Tree(d, cache, dir).cache)
    ensures Tree(d, cache, dir).result.Ok? <==> !Fails(d, dir)
    ensures Tree(d, cache, dir).result.Ok? ==> CorrectInventory(d, dir, Tree(d, cache, dir).result.value)
    decreases Size(dir), 1
  {
    if !cache.Hit(dir) && dir.listing.Listed? {
      var entries := dir.listing.entries;
      WalkConserves(d, cache, entries, []);
      var walked := Walk(d, cache, entries, []);
      if walked.result.Ok? {
        var inv := Inventory(walked.result.value);
        assert CorrectInventory(d, dir, inv);
      }
    }
  }

  lemma {:induction false} WalkConserves(d: Detection, cache: Cache<Entry>, es: seq<Entry>, acc: seq<Lang>)
    requires Coherent(d, cache) && UniqueNames(acc)
    ensures Coherent(d, Walk(d, cache, es, acc).cache)
    ensures Walk(d, cache, es, acc).result.Ok? <==> !FailsAny(d, es)
    ensures Walk(d, cache, es, acc).result.Ok? ==> UniqueNames(Walk(d, cache, es, acc).result.value)
    ensures Walk(d, cache, es, acc).result.Ok? ==>
              forall lang :: TotalOf(Walk(d, cache, es, acc).result.value, lang) ==
                             TotalOf(acc, lang) + DetectedBytesAll(d, es, lang)
    decreases SizeAll(es) + 1, 0
  {
    if |es| > 0 {
      var e := es[0];
      match e
      case RegularFile(name, size) =>
        if Detect(d, Info(e)).Ok? {
          var lang := Detect(d, Info(e)).value;
          var acc' := if lang != "" then AddBytes(acc, lang, size) else acc;
          WalkConserves(d, cache, es[1..], acc');
          assert forall l :: TotalOf(acc', l) == TotalOf(acc, l) + DetectedBytes(d, e, l);
        }
      case Directory(name, _) =>
        TreeConserves(d, cache, e);
        var sub := Tree(d, cache, e);
        if sub.result.Ok? {
          var acc' := AddAll(acc, sub.result.value.languages);
          WalkConserves(d, sub.cache, es[1..], acc');
        }
      case Special(_) =>
        WalkConserves(d, cache, es[1..], acc);
    }
  }

  /** With cache lookups disabled, the walk is the reference computation
      whatever the cache holds. */
  lemma TreeConservesWithoutCache(d: Detection, cache: Cache<Entry>, dir: Entry, lang: string)
    requires dir.Directory? && !cache.getEnabled
    ensures Tree(d, cache, dir).result.Ok? <==> !Fails(d, dir)
    ensures Tree(d, cache, dir).result.Ok? ==>
              TotalOf(Tree(d, cache, dir).result.value.languages, lang) == DetectedBytes(d, dir, lang)
  {
    TreeConserves(d, cache, dir);
  }
}
