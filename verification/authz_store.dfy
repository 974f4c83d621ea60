/** The explicit permissions store over its three tables: user permissions,
    repository permissions and pending user permissions. Each table maps its
    key to a row holding an encoded ID set and an update time; the store's
    operations are state transformers over the three tables. Reading an
    operation's clock is a parameter; a failed operation inside a transaction
    changes nothing, which the model states by returning an error instead of
    a store. */
module AuthzStore {
  import opened Wrappers

  /** Who a permission row comes from: Sourcegraph itself or an external
      code host. */
  datatype Provider = Sourcegraph | External(name: string)

  /** What the IDs of a user row denote; only repositories exist today. */
  datatype PermType = Repos | OtherType(name: string)

  /** A permission level, such as "read". */
  type Perms = string

  /** A point in time; 0 is Go's zero `time.Time`. */
  type Time = nat

  const ZeroTime: Time := 0

  /** The stored ID column: no bytes, the encoding of a set, or bytes that do
      not decode. */
  datatype Blob = EmptyBlob | Encoded(ids: set<nat>) | Undecodable

  datatype Row = Row(blob: Blob, updatedAt: Time)

  datatype UserKey = UserKey(userId: nat, perm: Perms, permType: PermType, provider: Provider)
  datatype RepoKey = RepoKey(repoId: nat, perm: Perms, provider: Provider)
  datatype PendingKey = PendingKey(bindId: string, perm: Perms, permType: PermType)

  /** The three tables. */
  datatype Db = Db(users: map<UserKey, Row>, repos: map<RepoKey, Row>, pending: map<PendingKey, Row>)

  datatype Error =
    | UndecodableIds   // a stored ID column does not decode
    | ZeroUpdatedAt    // an upsert without a timestamp
    | NilBitmap        // a nil ID set is dereferenced: the source panics
    | Refused          // the database refuses a write

  function Get<K, V>(m: map<K, V>, k: K): Option<V> {
    if k in m then Some(m[k]) else None
  }

  /** The IDs a row holds as far as its readers are concerned: none unless it
      holds a decodable encoding. */
  function StoredIds(row: Option<Row>): set<nat> {
    if row.Some? && row.value.blob.Encoded? then row.value.blob.ids else {}
  }

  /** What `load` returns: the ID set (nil when there is no row) and the time. */
  datatype Loaded = Loaded(ids: Option<set<nat>>, updatedAt: Time)

  /** `load`: no row gives a nil set and the zero time; an empty column gives
      the empty set and the zero time whatever the row's time; a column that
      does not decode is an error; otherwise the stored set and time. */
  function Load(row: Option<Row>): (r: Result<Loaded, Error>)
    ensures row.None? ==> r == Ok(Loaded(None, ZeroTime))
    ensures row.Some? && row.value.blob.EmptyBlob? ==> r == Ok(Loaded(Some({}), ZeroTime))
    ensures r.Err? <==> row.Some? && row.value.blob.Undecodable?
    ensures r.Ok? && r.value.updatedAt != ZeroTime ==> row.Some? && row.value.updatedAt == r.value.updatedAt
    ensures row.Some? && row.value.blob.Encoded? ==> r == Ok(Loaded(Some(row.value.blob.ids), row.value.updatedAt))
    ensures r.Ok? && row.Some? ==> r.value.ids == Some(StoredIds(row))
  {
    match row
    case None => Ok(Loaded(None, ZeroTime))
    case Some(Row(EmptyBlob, _)) => Ok(Loaded(Some({}), ZeroTime))
    case Some(Row(Undecodable, _)) => Err(UndecodableIds)
    case Some(Row(Encoded(ids), t)) => Ok(Loaded(Some(ids), t))
  }

  /** A loaded ID set, a nil one read as empty. */
  function OrEmpty(ids: Option<set<nat>>): set<nat> {
    if ids.Some? then ids.value else {}
  }

  /** The IDs a batch load found for a key; a key it omits reads as empty. */
  function Found<K>(loaded: map<K, set<nat>>, k: K): set<nat> {
    if k in loaded then loaded[k] else {}
  }

  /** `batchLoad` over the requested keys: any column that does not decode
      fails the whole load; rows with an empty column are omitted. */
  function BatchLoad<K>(table: map<K, Row>, keys: set<K>): (r: Result<map<K, set<nat>>, Error>)
    ensures r.Err? <==> exists k :: k in keys && Load(Get(table, k)).Err?
    ensures r.Ok? ==> forall k :: k in keys ==> Found(r.value, k) == OrEmpty(Load(Get(table, k)).value.ids)
    ensures r.Ok? ==> forall k :: k in r.value ==> k in keys && k in table && table[k].blob.Encoded?
  {
    if exists k :: k in keys && k in table && table[k].blob.Undecodable? then Err(UndecodableIds)
    else Ok(map k | k in keys && k in table && table[k].blob.Encoded? :: table[k].blob.ids)
  }

  /** The checks of `upsertUserPermissionsQuery`, `upsertRepoPermissionsQuery`
      and `upsertPendingPermissionsQuery`, and the row they write: a nil set
      panics when it is optimized, and a zero timestamp is refused. A written
      row loads back as the set and time it was given. */
  function UpsertRow(ids: Option<set<nat>>, updatedAt: Time): (r: Result<Row, Error>)
    ensures ids.None? ==> r == Err(NilBitmap)
    ensures ids.Some? && updatedAt == ZeroTime ==> r == Err(ZeroUpdatedAt)
    ensures r.Ok? <==> ids.Some? && updatedAt != ZeroTime
    ensures r.Ok? ==> Load(Some(r.value)) == Ok(Loaded(ids, updatedAt))
  {
    if ids.None? then Err(NilBitmap)
    else if updatedAt == ZeroTime then Err(ZeroUpdatedAt)
    else Ok(Row(Encoded(ids.value), updatedAt))
  }

  /** A check-and-modify function applied to an ID set: `CheckedAdd` or
      `CheckedRemove` of one ID. */
  datatype Update = AddId(id: nat) | RemoveId(id: nat)

  /** Whether the update modifies the set. */
  predicate Changes(u: Update, s: set<nat>) {
    match u
    case AddId(x) => x !in s
    case RemoveId(x) => x in s
  }

  /** The set after the update. */
  function Apply(u: Update, s: set<nat>): (r: set<nat>)
    ensures Changes(u, s) <==> r != s
    ensures u.AddId? ==> u.id in r
    ensures u.RemoveId? ==> u.id !in r
    ensures forall x :: x != u.id ==> (x in r <==> x in s)
  {
    match u
    case AddId(x) => s + {x}
    case RemoveId(x) => s - {x}
  }

  /** `m` is the smallest element of `s`. */
  predicate IsLeast(m: nat, s: set<nat>) {
    m in s && forall x :: x in s ==> m <= x
  }

  /** The smallest element of a non-empty set: roaring iterates in ascending order. */
  function MinOf(s: set<nat>): (m: nat)
    requires s != {}
    ensures m in s && forall x :: x in s ==> m <= x
  {
    MinExists(s);
    var m :| IsLeast(m, s);
    m
  }

  lemma {:induction false} MinExists(s: set<nat>)
    requires s != {}
    ensures exists m :: IsLeast(m, s)
    decreases |s|
  {
    var y :| y in s;
    var rest := s - {y};
    if rest == {} {
      forall x | x in s
        ensures y <= x
      {
        assert x !in rest;
      }
      assert IsLeast(y, s);
    } else {
      MinExists(rest);
      var m :| IsLeast(m, rest);
      var least := if y < m then y else m;
      forall x | x in s
        ensures least <= x
      {
        if x != y {
          assert x in rest;
        }
      }
      assert IsLeast(least, s);
    }
  }

  /** The keys an iteration rewrites: those of the IDs whose set the update changes. */
  function Touched<K>(writeKey: nat -> K, before: nat -> set<nat>, update: Update, todo: set<nat>): set<K> {
    set id | id in todo && Changes(update, before(id)) :: writeKey(id)
  }

  /** The iteration shared by `iterateAndUpsertUserPermissions` and the
      repository loop of `GrantPendingPermissions`: for each ID in ascending
      order, apply the update to the ID's current set (`before`, empty when
      nothing was loaded) and upsert the row under `writeKey(id)`, all with the
      same timestamp, but only when the update changed the set. */
  function UpsertEach<K(!new)>(table: map<K, Row>, writeKey: nat -> K, before: nat -> set<nat>,
                         update: Update, todo: set<nat>, t: Time): (r: Result<map<K, Row>, Error>)
    requires forall a, b :: writeKey(a) == writeKey(b) ==> a == b
    ensures r.Err? <==> t == ZeroTime && exists id :: id in todo && Changes(update, before(id))
    ensures r.Err? ==> r.error == ZeroUpdatedAt
    ensures r.Ok? ==> forall id :: id in todo && Changes(update, before(id)) ==>
                        Get(r.value, writeKey(id)) == Some(Row(Encoded(Apply(update, before(id))), t))
    ensures r.Ok? ==> forall k :: k !in Touched(writeKey, before, update, todo) ==> Get(r.value, k) == Get(table, k)
    decreases |todo|
  {
    if todo == {} then Ok(table)
    else
      var id := MinOf(todo);
      var rest := todo - {id};
      if !Changes(update, before(id)) then
        assert Touched(writeKey, before, update, todo) == Touched(writeKey, before, update, rest);
        UpsertEach(table, writeKey, before, update, rest, t)
      else
        var row :- UpsertRow(Some(Apply(update, before(id))), t);
        assert Touched(writeKey, before, update, todo) == Touched(writeKey, before, update, rest) + {writeKey(id)};
        assert writeKey(id) !in Touched(writeKey, before, update, rest);
        UpsertEach(table[writeKey(id) := row], writeKey, before, update, rest, t)
  }

  /** The fixed part of an `iterateAndUpsertUserPermissions` call: the
      permission, the type and provider rows are loaded with, and the update. */
  datatype UserScan = UserScan(perm: Perms, permType: PermType, provider: Provider, update: Update)

  /** The row a user's current set is loaded from. */
  function LoadKey(scan: UserScan, id: nat): UserKey {
    UserKey(id, scan.perm, scan.permType, scan.provider)
  }

  /** The row a user's new set is written to: the type is always repositories. */
  function WriteKey(scan: UserScan, id: nat): UserKey {
    UserKey(id, scan.perm, Repos, scan.provider)
  }

  /** `iterateAndUpsertUserPermissions`: batch-load the users' rows, then upsert
      the row of every user whose set the update changes (a user without a row
      starts from the empty set), all stamped with one clock reading. Other
      rows and tables are left alone. */
  function IterateAndUpsertUserPermissions(db: Db, ids: set<nat>, scan: UserScan, t: Time): (r: Result<Db, Error>)
    ensures r.Err? <==>
              || BatchLoad(db.users, set id | id in ids :: LoadKey(scan, id)).Err?
              || (t == ZeroTime && exists id :: id in ids && Changes(scan.update, UserIdsBefore(db, scan, id)))
    ensures r.Ok? ==> r.value.repos == db.repos && r.value.pending == db.pending
    ensures r.Ok? ==> forall id :: id in ids && Changes(scan.update, UserIdsBefore(db, scan, id)) ==>
                        Get(r.value.users, WriteKey(scan, id)) ==
                        Some(Row(Encoded(Apply(scan.update, UserIdsBefore(db, scan, id))), t))
    ensures r.Ok? ==> forall k :: !Rewrites(db, ids, scan, k) ==> Get(r.value.users, k) == Get(db.users, k)
  {
    var loaded :- BatchLoad(db.users, set id | id in ids :: LoadKey(scan, id));
    var before := id => Found(loaded, LoadKey(scan, id));
    assert forall id :: id in ids ==> before(id) == UserIdsBefore(db, scan, id);
    var users :- UpsertEach(db.users, id => WriteKey(scan, id), before, scan.update, ids, t);
    assert forall k :: !Rewrites(db, ids, scan, k) ==> k !in Touched(id => WriteKey(scan, id), before, scan.update, ids);
    Ok(db.(users := users))
  }

  /** The iteration rewrites user row `k`: it belongs to a listed user, has
      the written type, and the update changes the user's set. */
  predicate Rewrites(db: Db, ids: set<nat>, scan: UserScan, k: UserKey) {
    k.userId in ids && k == WriteKey(scan, k.userId) && Changes(scan.update, UserIdsBefore(db, scan, k.userId))
  }

  /** A user's current set as the iteration sees it, the empty set when the
      row is missing or empty. */
  function UserIdsBefore(db: Db, scan: UserScan, id: nat): set<nat> {
    StoredIds(Get(db.users, LoadKey(scan, id)))
  }

  /** The arguments of `SetRepoPermissions`: a repository, a permission, the
      user IDs (possibly nil) and the provider. */
  datatype RepoPermissions = RepoPermissions(repoId: nat, perm: Perms, userIds: Option<set<nat>>, provider: Provider)

  function RepoKeyOf(p: RepoPermissions): RepoKey {
    RepoKey(p.repoId, p.perm, p.provider)
  }

  /** The scan over user rows that adds (or removes) the repository. */
  function RepoScan(p: RepoPermissions, update: Update): UserScan {
    UserScan(p.perm, Repos, p.provider, update)
  }

  /** The add and remove sets AS WRITTEN: both are differences of the
      intersection with one of the sets it was taken from, hence always empty. */
  function RepoDiffAsWritten(newIds: set<nat>, oldIds: set<nat>): (r: (set<nat>, set<nat>))
    ensures r.0 == {} && r.1 == {}
  {
    var isec := newIds * oldIds;
    (isec - newIds, isec - oldIds)
  }

  /** `SetRepoPermissions` AS WRITTEN: load the repository's stored set (a
      missing row leaves it nil, and intersecting with nil panics), compute the
      always-empty add and remove sets, so no user row changes, and store the
      intersection of the new and the stored sets. The batch loads of those
      empty sets are read as returning no rows. */
  function SetRepoPermissionsAsWritten(db: Db, p: RepoPermissions, tAdd: Time, tRemove: Time, tRepo: Time): (r: Result<Db, Error>)
    ensures Get(db.repos, RepoKeyOf(p)).Some? && Get(db.repos, RepoKeyOf(p)).value.blob.Undecodable? ==> r == Err(UndecodableIds)
    ensures RepoKeyOf(p) !in db.repos || p.userIds.None? ==> r.Err?
    ensures r.Ok? ==> r.value.users == db.users && r.value.pending == db.pending
    ensures r.Ok? ==> r.value.repos == db.repos[RepoKeyOf(p) := Row(Encoded(p.userIds.value * StoredIds(Get(db.repos, RepoKeyOf(p)))), tRepo)]
  {
    var stored :- Load(Get(db.repos, RepoKeyOf(p)));
    if p.userIds.None? || stored.ids.None? then Err(NilBitmap)
    else
      var isec := p.userIds.value * stored.ids.value;
      var diff := RepoDiffAsWritten(p.userIds.value, stored.ids.value);
      var toAdd := diff.0;
      var toRemove := diff.1;
      var db1 :- IterateAndUpsertUserPermissions(db, toAdd, RepoScan(p, AddId(p.repoId)), tAdd);
      var db2 :- IterateAndUpsertUserPermissions(db1, toRemove, RepoScan(p, RemoveId(p.repoId)), tRemove);
      assert isec + toAdd == p.userIds.value * StoredIds(Get(db.repos, RepoKeyOf(p)));
      var row :- UpsertRow(Some(isec + toAdd), tRepo);
      Ok(db2.(repos := db2.repos[RepoKeyOf(p) := row]))
  }

  /** After a successful iteration each listed user's row holds the updated
      set, whether or not it had to be written (the user rows are read and
      written with the same type). */
  lemma IterateUpdatesListedUsers(db: Db, ids: set<nat>, scan: UserScan, t: Time, u: nat)
    requires IterateAndUpsertUserPermissions(db, ids, scan, t).Ok?
    requires scan.permType == Repos && u in ids
    ensures StoredIds(Get(IterateAndUpsertUserPermissions(db, ids, scan, t).value.users, WriteKey(scan, u))) ==
            Apply(scan.update, UserIdsBefore(db, scan, u))
  {
    var r := IterateAndUpsertUserPermissions(db, ids, scan, t).value;
    var before := UserIdsBefore(db, scan, u);
    assert LoadKey(scan, u) == WriteKey(scan, u);
    if !Changes(scan.update, before) {
      assert Apply(scan.update, before) == before;
      if WriteKey(scan, u) !in db.users {
        assert WriteKey(scan, u) !in r.users;
      }
    }
  }

  /** A successful iteration leaves every row it does not list untouched. */
  lemma IterateKeepsOtherUsers(db: Db, ids: set<nat>, scan: UserScan, t: Time, k: UserKey)
    requires IterateAndUpsertUserPermissions(db, ids, scan, t).Ok?
    requires k.userId !in ids || k != WriteKey(scan, k.userId)
    ensures Get(IterateAndUpsertUserPermissions(db, ids, scan, t).value.users, k) == Get(db.users, k)
  {
  }

  /** The iteration succeeds whenever it has a timestamp and every listed
      user's row decodes. */
  lemma IterateSucceeds(db: Db, ids: set<nat>, scan: UserScan, t: Time)
    requires t != ZeroTime
    requires forall id :: id in ids ==> Load(Get(db.users, LoadKey(scan, id))).Ok?
    ensures IterateAndUpsertUserPermissions(db, ids, scan, t).Ok?
  {
    var keys := set id | id in ids :: LoadKey(scan, id);
    assert forall k :: k in keys ==> Load(Get(db.users, k)).Ok?;
  }

  /** `SetRepoPermissions` as its documentation promises: a full update. The
      users gaining access get the repository added to their rows, the users
      losing access get it removed, and the repository's row becomes the new
      set; a missing repository row reads as the empty set. */
  function SetRepoPermissions(db: Db, p: RepoPermissions, tAdd: Time, tRemove: Time, tRepo: Time): (r: Result<Db, Error>)
    ensures p.userIds.None? ==> r.Err?
    ensures Get(db.repos, RepoKeyOf(p)).Some? && Get(db.repos, RepoKeyOf(p)).value.blob.Undecodable? ==> r == Err(UndecodableIds)
    ensures r.Ok? ==> r.value.pending == db.pending
    ensures r.Ok? ==> Load(Get(r.value.repos, RepoKeyOf(p))) == Ok(Loaded(p.userIds, tRepo))
    ensures r.Ok? ==> forall k :: k != RepoKeyOf(p) ==> Get(r.value.repos, k) == Get(db.repos, k)
  {
    var stored :- Load(Get(db.repos, RepoKeyOf(p)));
    if p.userIds.None? then Err(NilBitmap)
    else
      var db1 :- Granted(db, p, OrEmpty(stored.ids), tAdd);
      var db2 :- Revoked(db1, p, OrEmpty(stored.ids), tRemove);
      var row :- UpsertRow(p.userIds, tRepo);
      Ok(db2.(repos := db2.repos[RepoKeyOf(p) := row]))
  }

  /** The first stage of the full update: add the repository to the rows of
      the users gaining access, and leave every other row as it is. */
  function Granted(db: Db, p: RepoPermissions, oldIds: set<nat>, t: Time): (r: Result<Db, Error>)
    requires p.userIds.Some?
    ensures r.Ok? ==> r.value.repos == db.repos && r.value.pending == db.pending
    ensures r.Ok? ==> forall u :: u in p.userIds.value && u !in oldIds ==>
                        StoredIds(Get(r.value.users, GrantKey(p, u))) == StoredIds(Get(db.users, GrantKey(p, u))) + {p.repoId}
    ensures r.Ok? ==> forall k: UserKey :: k.userId !in p.userIds.value - oldIds || k != GrantKey(p, k.userId) ==>
                        Get(r.value.users, k) == Get(db.users, k)
  {
    var scan := RepoScan(p, AddId(p.repoId));
    var r := IterateAndUpsertUserPermissions(db, p.userIds.value - oldIds, scan, t);
    assert forall u :: WriteKey(scan, u) == GrantKey(p, u);
    assert forall u :: LoadKey(scan, u) == GrantKey(p, u);
    assert r.Ok? ==> forall u :: u in p.userIds.value && u !in oldIds ==>
                       StoredIds(Get(r.value.users, GrantKey(p, u))) == StoredIds(Get(db.users, GrantKey(p, u))) + {p.repoId} by {
      if r.Ok? {
        forall u | u in p.userIds.value && u !in oldIds
          ensures StoredIds(Get(r.value.users, GrantKey(p, u))) == StoredIds(Get(db.users, GrantKey(p, u))) + {p.repoId}
        {
          IterateUpdatesListedUsers(db, p.userIds.value - oldIds, scan, t, u);
        }
      }
    }
    r
  }

  /** The second stage: remove the repository from the rows of the users
      losing access, and leave every other row as it is. */
  function Revoked(db: Db, p: RepoPermissions, oldIds: set<nat>, t: Time): (r: Result<Db, Error>)
    requires p.userIds.Some?
    ensures r.Ok? ==> r.value.repos == db.repos && r.value.pending == db.pending
    ensures r.Ok? ==> forall u :: u in oldIds && u !in p.userIds.value ==>
                        StoredIds(Get(r.value.users, GrantKey(p, u))) == StoredIds(Get(db.users, GrantKey(p, u))) - {p.repoId}
    ensures r.Ok? ==> forall k: UserKey :: k.userId !in oldIds - p.userIds.value || k != GrantKey(p, k.userId) ==>
                        Get(r.value.users, k) == Get(db.users, k)
  {
    var scan := RepoScan(p, RemoveId(p.repoId));
    var r := IterateAndUpsertUserPermissions(db, oldIds - p.userIds.value, scan, t);
    assert forall u :: WriteKey(scan, u) == GrantKey(p, u);
    assert forall u :: LoadKey(scan, u) == GrantKey(p, u);
    assert r.Ok? ==> forall u :: u in oldIds && u !in p.userIds.value ==>
                       StoredIds(Get(r.value.users, GrantKey(p, u))) == StoredIds(Get(db.users, GrantKey(p, u))) - {p.repoId} by {
      if r.Ok? {
        forall u | u in oldIds && u !in p.userIds.value
          ensures StoredIds(Get(r.value.users, GrantKey(p, u))) == StoredIds(Get(db.users, GrantKey(p, u))) - {p.repoId}
        {
          IterateUpdatesListedUsers(db, oldIds - p.userIds.value, scan, t, u);
        }
      }
    }
    r
  }

  /** The repository's stored set, a missing row read as empty. */
  function OldRepoIds(db: Db, p: RepoPermissions): set<nat> {
    StoredIds(Get(db.repos, RepoKeyOf(p)))
  }

  /** The user row that grants the repository to user `u`. */
  function GrantKey(p: RepoPermissions, u: nat): UserKey {
    UserKey(u, p.perm, Repos, p.provider)
  }

  /** After a successful full update every user gaining access has the
      repository added to their row and every user losing access has it
      removed; the other repositories in those rows are kept. */
  lemma SetRepoPermissionsGrantsAndRevokes(db: Db, p: RepoPermissions, tAdd: Time, tRemove: Time, tRepo: Time, u: nat)
    requires SetRepoPermissions(db, p, tAdd, tRemove, tRepo).Ok?
    ensures u in p.userIds.value && u !in OldRepoIds(db, p) ==>
              StoredIds(Get(SetRepoPermissions(db, p, tAdd, tRemove, tRepo).value.users, GrantKey(p, u))) ==
              StoredIds(Get(db.users, GrantKey(p, u))) + {p.repoId}
    ensures u in OldRepoIds(db, p) && u !in p.userIds.value ==>
              StoredIds(Get(SetRepoPermissions(db, p, tAdd, tRemove, tRepo).value.users, GrantKey(p, u))) ==
              StoredIds(Get(db.users, GrantKey(p, u))) - {p.repoId}
  {
    var oldIds := OrEmpty(Load(Get(db.repos, RepoKeyOf(p))).value.ids);
    assert oldIds == OldRepoIds(db, p);
    var addScan := RepoScan(p, AddId(p.repoId));
    var removeScan := RepoScan(p, RemoveId(p.repoId));
    var db1 := Granted(db, p, oldIds, tAdd).value;
    var db2 := Revoked(db1, p, oldIds, tRemove).value;
    var k := GrantKey(p, u);
    assert k == WriteKey(addScan, u) == WriteKey(removeScan, u);
    assert k == LoadKey(addScan, u) == LoadKey(removeScan, u);
    if u in p.userIds.value && u !in oldIds {
      IterateUpdatesListedUsers(db, p.userIds.value - oldIds, addScan, tAdd, u);
      IterateKeepsOtherUsers(db1, oldIds - p.userIds.value, removeScan, tRemove, k);
    }
    if u in oldIds && u !in p.userIds.value {
      IterateKeepsOtherUsers(db, p.userIds.value - oldIds, addScan, tAdd, k);
      IterateUpdatesListedUsers(db1, oldIds - p.userIds.value, removeScan, tRemove, u);
    }
  }

  /** A successful full update touches no user row other than those of the
      users gaining or losing access. */
  lemma SetRepoPermissionsKeepsOtherUsers(db: Db, p: RepoPermissions, tAdd: Time, tRemove: Time, tRepo: Time, k: UserKey)
    requires SetRepoPermissions(db, p, tAdd, tRemove, tRepo).Ok?
    requires k != GrantKey(p, k.userId) || (k.userId in p.userIds.value <==> k.userId in OldRepoIds(db, p))
    ensures Get(SetRepoPermissions(db, p, tAdd, tRemove, tRepo).value.users, k) == Get(db.users, k)
  {
    var oldIds := OrEmpty(Load(Get(db.repos, RepoKeyOf(p))).value.ids);
    assert oldIds == OldRepoIds(db, p);
    var addScan := RepoScan(p, AddId(p.repoId));
    var removeScan := RepoScan(p, RemoveId(p.repoId));
    var db1 := Granted(db, p, oldIds, tAdd).value;
    assert GrantKey(p, k.userId) == WriteKey(addScan, k.userId) == WriteKey(removeScan, k.userId);
    IterateKeepsOtherUsers(db, p.userIds.value - oldIds, addScan, tAdd, k);
    IterateKeepsOtherUsers(db1, oldIds - p.userIds.value, removeScan, tRemove, k);
  }

  /** The full update succeeds whenever it is given a user set and non-zero
      timestamps, and the repository's row and the rows of the users whose
      access changes all decode. */
  lemma SetRepoPermissionsSucceeds(db: Db, p: RepoPermissions, tAdd: Time, tRemove: Time, tRepo: Time)
    requires p.userIds.Some? && tAdd != ZeroTime && tRemove != ZeroTime && tRepo != ZeroTime
    requires Load(Get(db.repos, RepoKeyOf(p))).Ok?
    requires forall u :: u in p.userIds.value || u in OldRepoIds(db, p) ==> Load(Get(db.users, GrantKey(p, u))).Ok?
    ensures SetRepoPermissions(db, p, tAdd, tRemove, tRepo).Ok?
  {
    var oldIds := OrEmpty(Load(Get(db.repos, RepoKeyOf(p))).value.ids);
    assert oldIds == OldRepoIds(db, p);
    var addScan := RepoScan(p, AddId(p.repoId));
    var removeScan := RepoScan(p, RemoveId(p.repoId));
    assert forall u :: LoadKey(addScan, u) == GrantKey(p, u) == LoadKey(removeScan, u);
    IterateSucceeds(db, p.userIds.value - oldIds, addScan, tAdd);
    var db1 := Granted(db, p, oldIds, tAdd).value;
    forall u | u in oldIds - p.userIds.value
      ensures Load(Get(db1.users, LoadKey(removeScan, u))).Ok?
    {
      IterateKeepsOtherUsers(db, p.userIds.value - oldIds, addScan, tAdd, GrantKey(p, u));
    }
    IterateSucceeds(db1, oldIds - p.userIds.value, removeScan, tRemove);
  }

  /** The store of the example below: user 1 may read repository 7. */
  function OneReader(): Db {
    Db(map[UserKey(1, "read", Repos, Sourcegraph) := Row(Encoded({7}), 5)],
       map[RepoKey(7, "read", Sourcegraph) := Row(Encoded({1}), 5)], map[])
  }

  /** Repository 7 is set to be readable by user 2 only. */
  function OnlyUserTwo(): RepoPermissions {
    RepoPermissions(7, "read", Some({2}), Sourcegraph)
  }

  /** As written, setting repository 7 to be readable by user 2 only never
      grants it to user 2 and leaves user 1's row granting it; with the empty
      batch loads read as returning no rows, the repository ends up readable by
      nobody. */
  lemma SetRepoPermissionsAsWrittenIntersects()
    ensures SetRepoPermissionsAsWritten(OneReader(), OnlyUserTwo(), 9, 9, 9) ==
              Ok(OneReader().(repos := map[RepoKey(7, "read", Sourcegraph) := Row(Encoded({}), 9)]))
  {
    var db := OneReader();
    var p := OnlyUserTwo();
    assert OldRepoIds(db, p) == {1};
    assert {2} * {1} == {};
    IterateSucceeds(db, {}, RepoScan(p, AddId(7)), 9);
    var db1 := IterateAndUpsertUserPermissions(db, {}, RepoScan(p, AddId(7)), 9).value;
    IterateSucceeds(db1, {}, RepoScan(p, RemoveId(7)), 9);
    var r := SetRepoPermissionsAsWritten(db, p, 9, 9, 9);
    assert r.Ok?;
    assert r.value.users == db.users;
    assert r.value.repos == db.repos[RepoKeyOf(p) := Row(Encoded({}), 9)];
    assert db.repos[RepoKeyOf(p) := Row(Encoded({}), 9)] == map[RepoKey(7, "read", Sourcegraph) := Row(Encoded({}), 9)];
  }

  /** As intended, the same update makes the repository's set {2}, user 2's
      row grants the repository and user 1's row no longer does. */
  lemma SetRepoPermissionsReplacesReaders()
    ensures SetRepoPermissions(OneReader(), OnlyUserTwo(), 9, 9, 9).Ok?
    ensures var r := SetRepoPermissions(OneReader(), OnlyUserTwo(), 9, 9, 9).value;
            && StoredIds(Get(r.repos, RepoKey(7, "read", Sourcegraph))) == {2}
            && 7 in StoredIds(Get(r.users, UserKey(2, "read", Repos, Sourcegraph)))
            && 7 !in StoredIds(Get(r.users, UserKey(1, "read", Repos, Sourcegraph)))
  {
    var db := OneReader();
    var p := OnlyUserTwo();
    assert OldRepoIds(db, p) == {1};
    SetRepoPermissionsSucceeds(db, p, 9, 9, 9);
    SetRepoPermissionsGrantsAndRevokes(db, p, 9, 9, 9, 1);
    SetRepoPermissionsGrantsAndRevokes(db, p, 9, 9, 9, 2);
  }

  /** A repository without a stored row: as written, the stored set is nil and
      intersecting with it panics; as intended, the missing row reads as the
      empty set and the repository's row becomes the new set. */
  lemma SetRepoPermissionsAsWrittenFailsOnNewRepo()
    ensures var db := Db(map[], map[], map[]);
            var p := RepoPermissions(7, "read", Some({}), Sourcegraph);
            && SetRepoPermissionsAsWritten(db, p, 9, 9, 9) == Err(NilBitmap)
            && SetRepoPermissions(db, p, 9, 9, 9).Ok?
            && Load(Get(SetRepoPermissions(db, p, 9, 9, 9).value.repos, RepoKey(7, "read", Sourcegraph))) ==
                 Ok(Loaded(Some({}), 9))
  {
    var db := Db(map[], map[], map[]);
    var p := RepoPermissions(7, "read", Some({}), Sourcegraph);
    assert OldRepoIds(db, p) == {};
    SetRepoPermissionsSucceeds(db, p, 9, 9, 9);
  }

  /** The Sourcegraph row of a repository for a pending permission. */
  function RepoKeyFor(pending: PendingKey, repoId: nat): RepoKey {
    RepoKey(repoId, pending.perm, Sourcegraph)
  }

  /** The user row a grant writes. */
  function GrantedUserKey(userId: nat, pending: PendingKey): UserKey {
    UserKey(userId, pending.perm, pending.permType, Sourcegraph)
  }

  /** The pending set as stored, a missing or empty row read as empty. */
  function PendingIds(db: Db, pending: PendingKey): set<nat> {
    StoredIds(Get(db.pending, pending))
  }

  /** The grant rewrites repository row `k`: the repository is pending, the row
      is its Sourcegraph row, and the row does not list the user yet. */
  predicate GrantRewrites(db: Db, userId: nat, pending: PendingKey, k: RepoKey) {
    k.repoId in PendingIds(db, pending) && k == RepoKeyFor(pending, k.repoId) && userId !in StoredIds(Get(db.repos, k))
  }

  /** The repository half of a grant: batch-load the pending repositories'
      Sourcegraph rows, then add the user to each that does not list it yet,
      all with one timestamp. */
  function GrantToRepos(db: Db, userId: nat, pending: PendingKey, tRepos: Time): (r: Result<map<RepoKey, Row>, Error>)
    ensures r.Err? <==>
              || BatchLoad(db.repos, set id | id in PendingIds(db, pending) :: RepoKeyFor(pending, id)).Err?
              || (tRepos == ZeroTime &&
                  exists id :: id in PendingIds(db, pending) && userId !in StoredIds(Get(db.repos, RepoKeyFor(pending, id))))
    ensures r.Ok? ==> forall id :: id in PendingIds(db, pending) ==> userId in StoredIds(Get(r.value, RepoKeyFor(pending, id)))
    ensures r.Ok? ==> forall k :: !GrantRewrites(db, userId, pending, k) ==> Get(r.value, k) == Get(db.repos, k)
    ensures r.Ok? ==> forall id :: id in PendingIds(db, pending) && userId !in StoredIds(Get(db.repos, RepoKeyFor(pending, id))) ==>
                        Get(r.value, RepoKeyFor(pending, id)) ==
                          Some(Row(Encoded(StoredIds(Get(db.repos, RepoKeyFor(pending, id))) + {userId}), tRepos))
  {
    var ids := PendingIds(db, pending);
    // The batch load can only fail here; what it finds for each repository is
    // the row's stored set (its contract), so the iteration reads that directly.
    var _ :- BatchLoad(db.repos, set id | id in ids :: RepoKeyFor(pending, id));
    var before := id => StoredIds(Get(db.repos, RepoKeyFor(pending, id)));
    var r := UpsertEach(db.repos, id => RepoKeyFor(pending, id), before, AddId(userId), ids, tRepos);
    assert r.Ok? ==> forall k :: !GrantRewrites(db, userId, pending, k) ==>
                       k !in Touched(id => RepoKeyFor(pending, id), before, AddId(userId), ids);
    r
  }

  /** `GrantPendingPermissions`: load the pending set (a missing row leaves it
      nil, which panics when it is written), set the user's Sourcegraph row to
      exactly that set, then add the user to every listed repository's
      Sourcegraph row, skipping those that already list the user. */
  function GrantPendingPermissions(db: Db, userId: nat, pending: PendingKey, tUser: Time, tRepos: Time): (r: Result<Db, Error>)
    ensures pending !in db.pending ==> r == Err(NilBitmap)
    ensures pending in db.pending && db.pending[pending].blob.Undecodable? ==> r == Err(UndecodableIds)
    ensures pending in db.pending && !db.pending[pending].blob.Undecodable? && tUser == ZeroTime ==> r == Err(ZeroUpdatedAt)
    ensures r.Ok? ==> r.value.pending == db.pending
    ensures r.Ok? ==> Load(Get(r.value.users, GrantedUserKey(userId, pending))) == Ok(Loaded(Some(PendingIds(db, pending)), tUser))
    ensures r.Ok? ==> forall k :: k != GrantedUserKey(userId, pending) ==> Get(r.value.users, k) == Get(db.users, k)
    ensures r.Ok? ==> forall id :: id in PendingIds(db, pending) ==> userId in StoredIds(Get(r.value.repos, RepoKeyFor(pending, id)))
    ensures r.Ok? ==> forall k :: !GrantRewrites(db, userId, pending, k) ==> Get(r.value.repos, k) == Get(db.repos, k)
    ensures r.Ok? ==> forall id :: id in PendingIds(db, pending) && userId !in StoredIds(Get(db.repos, RepoKeyFor(pending, id))) ==>
                        Get(r.value.repos, RepoKeyFor(pending, id)) ==
                          Some(Row(Encoded(StoredIds(Get(db.repos, RepoKeyFor(pending, id))) + {userId}), tRepos))
  {
    var loadedPending :- Load(Get(db.pending, pending));
    var userRow :- UpsertRow(loadedPending.ids, tUser);
    assert loadedPending.ids == Some(PendingIds(db, pending));
    var repos :- GrantToRepos(db, userId, pending, tRepos);
    Ok(db.(users := db.users[GrantedUserKey(userId, pending) := userRow], repos := repos))
  }

  /** A grant succeeds whenever the pending row exists and decodes, both
      timestamps are non-zero, and every pending repository's row decodes. */
  lemma GrantPendingPermissionsSucceeds(db: Db, userId: nat, pending: PendingKey, tUser: Time, tRepos: Time)
    requires pending in db.pending && !db.pending[pending].blob.Undecodable?
    requires tUser != ZeroTime && tRepos != ZeroTime
    requires forall id :: id in PendingIds(db, pending) ==> Load(Get(db.repos, RepoKeyFor(pending, id))).Ok?
    ensures GrantPendingPermissions(db, userId, pending, tUser, tRepos).Ok?
  {
    var keys := set id | id in PendingIds(db, pending) :: RepoKeyFor(pending, id);
    assert forall k :: k in keys ==> Load(Get(db.repos, k)).Ok?;
  }

  /** The arguments of one `SetPendingPermissions` entry. */
  datatype PendingPermissions = PendingPermissions(bindId: string, perm: Perms, permType: PermType, ids: Option<set<nat>>)

  function PendingKeyOf(p: PendingPermissions): PendingKey {
    PendingKey(p.bindId, p.perm, p.permType)
  }

  /** The outcome of an operation without a transaction: the store as left,
      and the error that stopped it, if any. */
  datatype Partial = Partial(db: Db, err: Option<Error>)

  /** Whether entry `p` can be written with timestamp `t`, the database
      refusing the keys in `refused`. */
  predicate Writable(p: PendingPermissions, t: Time, refused: set<PendingKey>) {
    p.ids.Some? && t != ZeroTime && PendingKeyOf(p) !in refused
  }

  /** Reference definition: the pending table after writing every entry in
      order with timestamp `t`, later entries for the same key winning. */
  function WritePending(pending: map<PendingKey, Row>, ps: seq<PendingPermissions>, t: Time): map<PendingKey, Row>
    requires forall i :: 0 <= i < |ps| ==> ps[i].ids.Some?
    decreases |ps|
  {
    if |ps| == 0 then pending
    else WritePending(pending[PendingKeyOf(ps[0]) := Row(Encoded(ps[0].ids.value), t)], ps[1..], t)
  }

  /** The number of entries before the first one that cannot be written. */
  function WritablePrefix(ps: seq<PendingPermissions>, t: Time, refused: set<PendingKey>): (n: nat)
    ensures n <= |ps|
    ensures forall i :: 0 <= i < n ==> Writable(ps[i], t, refused)
    ensures n < |ps| ==> !Writable(ps[n], t, refused)
  {
    if |ps| == 0 || !Writable(ps[0], t, refused) then 0
    else 1 + WritablePrefix(ps[1..], t, refused)
  }

  /** `SetPendingPermissions`: one clock reading stamps every entry; entries
      are written in order, outside any transaction, and the first failure
      stops the loop with the earlier writes kept. */
  method SetPendingPermissions(db: Db, ps: seq<PendingPermissions>, t: Time, refused: set<PendingKey>)
    returns (r: Partial)
    ensures r.err.None? <==> WritablePrefix(ps, t, refused) == |ps|
    ensures r.db == db.(pending := WritePending(db.pending, ps[..WritablePrefix(ps, t, refused)], t))
    ensures t == ZeroTime && |ps| > 0 ==> r.db == db && r.err.Some?
    ensures forall k :: k in r.db.pending && (k !in db.pending || r.db.pending[k] != db.pending[k]) ==>
              r.db.pending[k].updatedAt == t
  {
    var pending := db.pending;
    var i := 0;
    while i < |ps|
      invariant 0 <= i <= WritablePrefix(ps, t, refused)
      invariant pending == WritePending(db.pending, ps[..i], t)
      invariant forall k :: k in pending && (k !in db.pending || pending[k] != db.pending[k]) ==> pending[k].updatedAt == t
    {
      var p := ps[i];
      var row := UpsertRow(p.ids, t);
      if row.Err? || PendingKeyOf(p) in refused {
        return Partial(db.(pending := pending), Some(if row.Err? then row.error else Refused));
      }
      WritePendingStep(db.pending, ps, i, t);
      pending := pending[PendingKeyOf(p) := row.value];
      i := i + 1;
    }
    return Partial(db.(pending := pending), None);
  }

  /** Writing one more entry extends the reference definition by one write. */
  lemma {:induction false} WritePendingStep(pending: map<PendingKey, Row>, ps: seq<PendingPermissions>, i: nat, t: Time)
    requires i < |ps| && forall j :: 0 <= j <= i ==> ps[j].ids.Some?
    ensures WritePending(pending, ps[..i + 1], t) ==
            WritePending(pending, ps[..i], t)[PendingKeyOf(ps[i]) := Row(Encoded(ps[i].ids.value), t)]
    decreases i
  {
    if i > 0 {
      var first := pending[PendingKeyOf(ps[0]) := Row(Encoded(ps[0].ids.value), t)];
      WritePendingStep(first, ps[1..], i - 1, t);
      assert ps[..i + 1][1..] == ps[1..][..i];
      assert ps[..i][1..] == ps[1..][..i - 1];
    } else {
      assert ps[..1][1..] == [];
    }
  }
}
