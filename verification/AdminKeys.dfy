// Access keys over whole runs of admin operations: when the checks before a store suffice, and what becomes of lookups.
module AdminKeys {
  import opened Rgw
  import opened Order
  import opened Entities
  import opened Users
  import opened Tables
  import opened AdminUsers
  import opened AdminRuns

  // ------------------------------------------------------------- keys

  // No key of the record belongs to another user.
  ghost predicate KeysFree(t: Db, info: UserInfo) {
    forall k :: k in info.accessKeys && k in t.accessKeys ==> t.accessKeys[k] == info.userId.ToString()
  }

  // A key id found free is unused, or already the user's own.
  lemma KeyFreeMeans(t: Db, id: UserId, k: string)
    requires Valid(t) && Sound(t) && OrdinaryRows(t) && KeyFree(t, id, k).Ok? && k in t.accessKeys
    ensures t.accessKeys[k] == id.ToString()
  {
    hide Printable, Deserialize, StartsWithDollar, ObjectsPlaced, BucketIdsUnique;
    var owner := t.accessKeys[k];
    assert owner in t.users;
    UidTextRoundTrip(owner);
  }

  lemma KeyIdMeans(t: Db, uid: UserId, key: KeyInput, draw: Draw)
    requires Valid(t) && Sound(t) && OrdinaryRows(t) && KeyId(t, uid, key, draw).Ok?
    ensures var id := KeyId(t, uid, key, draw).value; id in t.accessKeys ==> t.accessKeys[id] == uid.ToString()
  {
    hide Sound, OrdinaryRows, KeyFree, UnusedKey;
    var id := KeyId(t, uid, key, draw).value;
    if key.access.Some? {
      if id in t.accessKeys { KeyFreeMeans(t, uid, id); }
    } else {
      var i := UnusedKeyMeaning(t, Take(draw.candidates, KEYGEN_ATTEMPTS));
      assert id in t.accessKeys ==> HoldsKey(t, t.accessKeys[id], id);
    }
  }

  lemma WithKeyStaysFree(t: Db, info: UserInfo, key: KeyInput, draw: Draw)
    requires Valid(t) && Sound(t) && OrdinaryRows(t) && KeysFree(t, info) && WithKey(t, info, key, draw).Ok?
    ensures KeysFree(t, WithKey(t, info, key, draw).value)
  {
    hide Valid, Sound, OrdinaryRows, KeyId, KeySecret;
    KeyIdMeans(t, info.userId, key, draw);
  }

  lemma LoadedKeysFree(t: Db, uid: UserId)
    requires Valid(t) && LoadUser(t, uid).Ok? && !StartsWithDollar(uid.ToString())
    ensures KeysFree(t, LoadUser(t, uid).value) && LoadUser(t, uid).value.userId.ToString() == uid.ToString()
  {
    hide Deserialize, StartsWithDollar, ObjectsPlaced, BucketIdsUnique;
    UidTextRoundTrip(uid.ToString());
  }

  lemma PreparedKeysFree(t: Db, op: AdminOp)
    requires Valid(t) && Sound(t) && OrdinaryRows(t) && !op.Remove? && !op.Data? && RecordOf(t, op).Ok?
    requires !StartsWithDollar(Subject(op).value.ToString())
    ensures KeysFree(t, RecordOf(t, op).value)
  {
    hide Valid, Sound, OrdinaryRows, WithKey, LoadUser, StartsWithDollar, KeyRequest, GrantCaps, ClaimEmail, ParseCaps,
      Granted, Revoked;
    match op {
      case Create(p, draw) =>
        var access, secret := NonEmpty(p.accessKey), NonEmpty(p.secretKey);
        var key := KeyRequest(access, secret, GetOr(p.generateKey, access.None? && secret.None?)).value;
        var info := Created(p, GrantCaps(p.caps).value, ClaimEmail(t, p.uid, p.email, "").value, draw.now);
        if key.Some? { WithKeyStaysFree(t, info, key.value, draw); }
      case Modify(p, draw) =>
        LoadedKeysFree(t, p.uid);
        var info := LoadUser(t, p.uid).value;
        var key := KeyRequest(NonEmpty(p.accessKey), NonEmpty(p.secretKey), p.generateKey).value;
        if key.Some? {
          WithKeyStaysFree(t, Modified(info, p, ClaimEmail(t, info.userId, p.email, info.email).value),
                           key.value, draw);
        }
      case CreateKey(uid, access, secret, generate, draw) =>
        LoadedKeysFree(t, uid);
        WithKeyStaysFree(t, LoadUser(t, uid).value, KeyInput(NonEmpty(access), NonEmpty(secret), generate), draw);
      case RemoveKey(uid, _) => LoadedKeysFree(t, uid);
      case AddCaps(uid, _) => LoadedKeysFree(t, uid);
      case RemoveCaps(uid, _) => LoadedKeysFree(t, uid);
    }
  }

  // The store accepts what the operation prepared, or refuses a creation because the user exists.
  ghost predicate StoresPrepared(t: Db, op: AdminOp) {
    !op.Remove? && !op.Data? && RecordOf(t, op).Ok? ==>
      var r := Commit(t, RecordOf(t, op), op.Create?).1;
      if op.Create? && Subject(op).value.ToString() in t.users then r == Err(UserAlreadyExists)
      else r == RecordOf(t, op)
  }

  lemma OrdinaryStores(t: Db, op: AdminOp)
    requires Valid(t) && Sound(t) && OrdinaryRows(t) && !op.Remove? && !op.Data? && RecordOf(t, op).Ok?
    requires !StartsWithDollar(Subject(op).value.ToString())
    ensures StoresPrepared(t, op)
  {
    hide Valid, Sound, OrdinaryRows, RecordOf, StartsWithDollar, Prepared, ToDoc;
    PreparedKeysFree(t, op);
    if op.Create? { CreatedUnder(t, op); }
  }

  lemma CreatedUnder(t: Db, op: AdminOp)
    requires Sound(t) && op.Create? && RecordOf(t, op).Ok?
    ensures RecordOf(t, op).value.userId == Subject(op).value
  {
    hide Sound, RecordOf, LoadUser, EmailFree, Printable;
    RecordIsPrepared(t, op);
  }

  lemma {:induction false} OrdinaryRunsStore(ops: seq<AdminOp>, op: AdminOp, ids: set<UserId>)
    requires Ordinary(ids) && About(ops + [op], ids)
    ensures StoresPrepared(RunOps(EMPTY, ops), op)
  {
    var t := RunOps(EMPTY, ops);
    assert forall i :: 0 <= i < |ops| ==> (ops + [op])[i] == ops[i];
    assert (ops + [op])[|ops|] == op;
    OrdinaryRunsKeepEmails(ops, ids);
    RunsAreValid(ops);
    RunsAreSound(ops);
    hide Valid, Sound, OrdinaryRows, EmailsUnique, RecordOf, StartsWithDollar, RunOps;
    if !op.Remove? && !op.Data? && RecordOf(t, op).Ok? {
      SubjectNamed(t, op);
      OrdinaryStores(t, op);
    }
  }

  lemma SubjectNamed(t: Db, op: AdminOp)
    requires Sound(t) && !op.Remove? && !op.Data? && RecordOf(t, op).Ok?
    ensures Subject(op).Some? && Subject(op).value.id != ""
  {
    hide Sound, RecordOf, LoadUser, EmailFree, Printable;
    RecordIsPrepared(t, op);
  }

  const KEY := AccessKey("k", "s", "", true, 0)

  function KeyedCreate(id: UserId): AdminOp {
    Create(CreateParams(id, "n", None, Some("k"), Some("s"), None, None, None, None, None, None), Draw([], "", 0))
  }

  function KeyedAlice(id: UserId): UserInfo {
    UserInfo(id, "n", "", map["k" := KEY], map[], false, DEFAULT_MAX_BUCKETS, false, false, 0)
  }

  lemma KeyedFirst(id: UserId)
    requires id.id != ""
    ensures ApplyOp(EMPTY, KeyedCreate(id))
         == EMPTY.(users := map[id.ToString() := RowOf(KeyedAlice(id))], accessKeys := map["k" := id.ToString()])
  {
    hide ToDoc, FromDoc;
    var uid := id.ToString();
    assert RecordOf(EMPTY, KeyedCreate(id)) == Ok(KeyedAlice(id));
    assert WithoutOwner(EMPTY.accessKeys, uid) + (map k | k in KeyedAlice(id).accessKeys :: uid) == map["k" := uid];
  }

  lemma RenamePrepares(t: Db, id: UserId)
    requires id.id != "" && LoadUser(t, id).Ok?
    ensures RecordOf(t, Rename(id)) == Ok(LoadUser(t, id).value.(displayName := "m"))
  {
    hide LoadUser;
  }

  lemma TakenKeyRefused(t: Db, info: UserInfo, k: string)
    requires k in info.accessKeys && k in t.accessKeys && t.accessKeys[k] != info.userId.ToString()
    ensures Commit(t, Ok(info), false) == (t, Err(KeyExists))
  {
    hide RowOf, WithoutOwner;
  }

  lemma IndexedUnder(t: Db, row: string, k: string)
    requires IndexAgrees(t.users, t.accessKeys) && row in t.users && k in t.users[row].doc.accessKeys
    ensures k in t.accessKeys && t.accessKeys[k] == row
  {
  }

  // A stored user with a key whose row starts with `$`: renaming it prepares the record under another id, and the
  // store then finds the key taken.
  lemma RenameClashes(t: Db, id: UserId)
    requires Valid(t) && id.id != "" && StartsWithDollar(id.ToString())
    requires LoadUser(t, id).Ok? && LoadUser(t, id).value.accessKeys != map[]
    ensures RecordOf(t, Rename(id)).Ok?
    ensures Commit(t, RecordOf(t, Rename(id)), false) == (t, Err(KeyExists))
  {
    hide LoadUser, IndexAgrees, RecordsKeyed, ObjectsPlaced, BucketIdsUnique, StartsWithDollar, ParseUserId, RecordOf,
      Commit, Rename;
    RenamePrepares(t, id);
    LoadedRow(t, id);
    UidTextRoundTrip(id.ToString());
    var info := LoadUser(t, id).value;
    var k :| k in info.accessKeys;
    IndexedUnder(t, id.ToString(), k);
    TakenKeyRefused(t, info.(displayName := "m"), k);
  }

  lemma DollarIdClashesKey(id: UserId)
    requires id.id != "" && StartsWithDollar(id.ToString())
    ensures !StoresPrepared(RunOps(EMPTY, [KeyedCreate(id)]), Rename(id))
  {
    KeyedFirst(id);
    DocReads(KeyedAlice(id));
    RunsAreValid([KeyedCreate(id)]);
    RunsAreSound([KeyedCreate(id)]);
    hide ApplyOp, RecordOf, Valid, Sound, StartsWithDollar, ToDoc, FromDoc;
    OneOp(EMPTY, KeyedCreate(id));
    var t := RunOps(EMPTY, [KeyedCreate(id)]);
    assert LoadUser(t, id).Ok? && "k" in LoadUser(t, id).value.accessKeys;
    RenameClashes(t, id);
  }

  // Over all runs about the given users, whatever passes the checks is stored, but for the creation of a user that
  // exists, exactly when no user's id in string form starts with `$`.
  lemma PreparedStores(ids: set<UserId>)
    ensures (forall ops: seq<AdminOp>, op :: About(ops + [op], ids) ==>
               StoresPrepared(RunOps(EMPTY, ops), op)) <==> Ordinary(ids)
  {
    hide StoresPrepared, StartsWithDollar, ApplyOp, RecordOf;
    if Ordinary(ids) {
      forall ops: seq<AdminOp>, op | About(ops + [op], ids) ensures StoresPrepared(RunOps(EMPTY, ops), op) {
        OrdinaryRunsStore(ops, op, ids);
      }
    } else {
      var id :| id in ids && id.id != "" && StartsWithDollar(id.ToString());
      DollarIdClashesKey(id);
      assert About([KeyedCreate(id)] + [Rename(id)], ids);
    }
  }

  // A key id passes the check exactly when nobody holds it, or its holder's row reads as the id asked for.
  lemma KeyFreeExactly(t: Db, id: UserId, k: string)
    requires Valid(t) && Sound(t)
    ensures KeyFree(t, id, k).Ok? <==> k !in t.accessKeys || ParseUserId(t.accessKeys[k]) == id
  {
    hide Printable, Deserialize, ObjectsPlaced, BucketIdsUnique, ParseUserId;
    if k in t.accessKeys {
      assert t.accessKeys[k] in t.users;
    }
  }

  // An email passes exactly when nobody holds it, or its first holder's row reads as the id asked for.
  lemma EmailFreeExactly(t: Db, id: UserId, email: string)
    requires Sound(t) && email != ""
    ensures EmailFree(t, id, email).Ok?
      <==> (var holders := SortedNames(Holders(t, email)); holders == [] || ParseUserId(holders[0]) == id)
  {
    hide Printable, Deserialize, ParseUserId, SortedNames;
    var holders := SortedNames(Holders(t, email));
    NamesSorted(Holders(t, email));
    if holders != [] {
      assert holders[0] in holders;
    }
  }

  // ------------------------------------------------------------- what key operations do to lookups

  // Rewriting a row's index entries for its keys less one, and with one more.
  lemma IndexWithout(users: map<string, UserRow>, keys: map<string, string>, row: string, k: string)
    requires IndexAgrees(users, keys) && row in users && k in users[row].doc.accessKeys
    ensures WithoutOwner(keys, row) + (map x | x in users[row].doc.accessKeys - {k} :: row) == keys - {k}
  {
    assert forall x :: x in users[row].doc.accessKeys <==> x in keys && keys[x] == row;
  }

  lemma IndexWith(users: map<string, UserRow>, keys: map<string, string>, row: string, k: string,
                  held: map<string, AccessKey>)
    requires IndexAgrees(users, keys) && row in users && (k in keys ==> keys[k] == row)
    requires held.Keys == users[row].doc.accessKeys.Keys + {k}
    ensures WithoutOwner(keys, row) + (map x | x in held :: row) == keys[k := row]
  {
    assert forall x :: x in users[row].doc.accessKeys <==> x in keys && keys[x] == row;
  }

  lemma StoredTables(t: Db, info: UserInfo)
    requires Commit(t, Ok(info), false).1.Ok?
    ensures
      var next, row := Commit(t, Ok(info), false).0, info.userId.ToString();
      && next.users == t.users[row := RowOf(info)]
      && next.accessKeys == WithoutOwner(t.accessKeys, row) + (map x | x in info.accessKeys :: row)
      && KeysFree(t, info)
  {
    hide RowOf, WithoutOwner;
  }

  lemma LoadedRow(t: Db, uid: UserId)
    requires LoadUser(t, uid).Ok? && RecordsKeyed(t)
    ensures
      var row := uid.ToString();
      && row in t.users && LoadUser(t, uid).value.accessKeys == t.users[row].doc.accessKeys
      && LoadUser(t, uid).value.userId == ParseUserId(row)
  {
    hide Deserialize, ParseUserId;
  }

  lemma Unindexed(t: Db, k: string)
    requires IndexAgrees(t.users, t.accessKeys)
    ensures Held(t, k) <==> k in t.accessKeys
  {
    if k in t.accessKeys {
      assert HoldsKey(t, t.accessKeys[k], k);
    }
  }

  lemma KeyStays(keys: map<string, string>, k: string, stored: string, held: map<string, AccessKey>)
    requires k in keys && keys[k] != stored && k !in held
    ensures k in WithoutOwner(keys, stored) + (map x | x in held :: stored)
  {
  }

  lemma RemovedRecord(t: Db, uid: UserId, k: string)
    requires KeyRemoveRecord(t, uid, k).Ok?
    ensures
      LoadUser(t, uid).Ok? && k in LoadUser(t, uid).value.accessKeys
      && KeyRemoveRecord(t, uid, k).value
         == LoadUser(t, uid).value.(accessKeys := LoadUser(t, uid).value.accessKeys - {k})
  {
    hide LoadUser;
  }

  lemma KeptIndex(t: Db, info: UserInfo)
    requires Valid(t)
    ensures var next := Commit(t, Ok(info), false).0; IndexAgrees(next.users, next.accessKeys)
  {
    hide StoreUser;
    StoreUserKeepsValid(t, info, false);
  }

  // After a successful key removal the index has lost exactly that key, and the key finds no one; unless the user's
  // row starts with `$`: the record is then stored under another id and the key stays with the old row.
  lemma KeyRemoved(t: Db, uid: UserId, k: string)
    requires Valid(t) && Commit(t, KeyRemoveRecord(t, uid, k), false).1.Ok?
    ensures
      var next := Commit(t, KeyRemoveRecord(t, uid, k), false).0;
      && (next.accessKeys == t.accessKeys - {k} <==> !StartsWithDollar(uid.ToString()))
      && (LoadUserByAccessKey(next, k) == Err(NoSuchUser) <==> !StartsWithDollar(uid.ToString()))
  {
    RemovedRecord(t, uid, k);
    hide ObjectsPlaced, BucketIdsUnique, StartsWithDollar, LoadUser, LoadUserByAccessKey, Commit, ParseUserId,
      WithoutOwner, RowOf, KeysFree, KeyRemoveRecord, Held;
    var row := uid.ToString();
    UidTextRoundTrip(row);
    var info := KeyRemoveRecord(t, uid, k).value;
    var next := Commit(t, Ok(info), false).0;
    LoadedRow(t, uid);
    StoredTables(t, info);
    KeptIndex(t, info);
    KeyLookup(next, k);
    Unindexed(next, k);
    assert t.accessKeys[k] == row;
    hide IndexAgrees, RecordsKeyed;
    if info.userId.ToString() == row {
      IndexWithout(t.users, t.accessKeys, row, k);
    } else {
      KeyStays(t.accessKeys, k, info.userId.ToString(), info.accessKeys);
    }
  }

  // The key a successful key operation sets then finds the record it reports, exactly when that record's id is
  // canonical; and the index has gained exactly that key for the user, unless the user's row starts with `$`.
  lemma KeyCreated(t: Db, uid: UserId, access: Option<string>, secret: Option<string>, generate: bool, draw: Draw)
    requires Valid(t) && Sound(t)
    requires Commit(t, KeyCreateRecord(t, uid, access, secret, generate, draw), false).1.Ok?
    ensures
      var (next, r) := Commit(t, KeyCreateRecord(t, uid, access, secret, generate, draw), false);
      var id := KeyId(t, LoadUser(t, uid).value.userId,
                     KeyInput(NonEmpty(access), NonEmpty(secret), generate), draw).value;
      && (next.accessKeys == t.accessKeys[id := uid.ToString()] <==> !StartsWithDollar(uid.ToString()))
      && (LoadUserByAccessKey(next, id) == r <==> r.value.userId.Canonical())
  {
    hide Sound, ObjectsPlaced, BucketIdsUnique, StartsWithDollar, LoadUser, StoreUser, ParseUserId, WithoutOwner,
      RowOf, KeyId, KeySecret, FromDoc, Printable;
    var row := uid.ToString();
    UidTextRoundTrip(row);
    var key := KeyInput(NonEmpty(access), NonEmpty(secret), generate);
    var held := LoadUser(t, uid).value;
    var id := KeyId(t, held.userId, key, draw).value;
    var info := KeyCreateRecord(t, uid, access, secret, generate, draw).value;
    SoundRecords(t);
    LoadedRow(t, uid);
    StoredTables(t, info);
    LoadedIsPrintable(t, uid);
    RecordRoundTrip(info);
    SetKey(t, row, id, info);
    ReadsRow(Commit(t, Ok(info), false).0, id, info);
  }

  lemma SoundRecords(t: Db)
    requires Sound(t)
    ensures RecordsKeyed(t)
  {
  }

  lemma SetKey(t: Db, row: string, id: string, info: UserInfo)
    requires IndexAgrees(t.users, t.accessKeys) && row in t.users && KeysFree(t, info)
    requires info.accessKeys.Keys == t.users[row].doc.accessKeys.Keys + {id}
    ensures
      var stored := info.userId.ToString();
      var next := WithoutOwner(t.accessKeys, stored) + (map x | x in info.accessKeys :: stored);
      && (next == t.accessKeys[id := row] <==> stored == row)
      && id in next && next[id] == stored
  {
    var stored := info.userId.ToString();
    var next := WithoutOwner(t.accessKeys, stored) + (map x | x in info.accessKeys :: stored);
    assert id in info.accessKeys.Keys;
    assert id in next && next[id] == stored;
    hide IndexAgrees, WithoutOwner;
    if stored == row {
      assert id in t.accessKeys ==> t.accessKeys[id] == row;
      IndexWith(t.users, t.accessKeys, row, id, info.accessKeys);
    }
  }

  lemma ReadsRow(next: Db, id: string, info: UserInfo)
    requires id in next.accessKeys && next.accessKeys[id] == info.userId.ToString()
    requires info.userId.ToString() in next.users && next.users[info.userId.ToString()] == RowOf(info)
    ensures LoadUserByAccessKey(next, id) == FromDoc(ToDoc(info))
  {
    hide FromDoc, ToDoc;
  }

  // Both failures happen: for every id whose string form starts with `$`, removing the key the user was created with
  // succeeds, and the key still finds a user.
  lemma RemovedKeyStays(id: UserId)
    requires id.id != "" && StartsWithDollar(id.ToString())
    ensures
      var t := RunOps(EMPTY, [KeyedCreate(id)]);
      var (next, r) := Commit(t, KeyRemoveRecord(t, id, "k"), false);
      r.Ok? && LoadUserByAccessKey(next, "k") != Err(NoSuchUser)
  {
    KeyedFirst(id);
    DocReads(KeyedAlice(id));
    RunsAreValid([KeyedCreate(id)]);
    hide ApplyOp, StartsWithDollar, FromDoc, ToDoc, Valid, LoadUserByAccessKey;
    OneOp(EMPTY, KeyedCreate(id));
    var t := RunOps(EMPTY, [KeyedCreate(id)]);
    KeyTakenOut(t, id, KeyedAlice(id).(userId := ParseUserId(id.ToString())));
    KeyRemoved(t, id, "k");
  }

  lemma KeyTakenOut(t: Db, id: UserId, info: UserInfo)
    requires id.id != "" && LoadUser(t, id) == Ok(info) && info.accessKeys == map["k" := KEY]
    ensures Commit(t, KeyRemoveRecord(t, id, "k"), false).1.Ok?
  {
    hide LoadUser, RowOf, WithoutOwner;
    var kept := info.(accessKeys := info.accessKeys - {"k"});
    assert kept.accessKeys == map[];
    assert KeyRemoveRecord(t, id, "k") == Ok(kept);
  }

  lemma OneOp(t: Db, op: AdminOp)
    ensures RunOps(t, [op]) == ApplyOp(t, op)
  {
    hide ApplyOp;
    assert [op][..0] == [];
  }

  // And setting a key for such a user created without one succeeds, with the key indexed under another row.
  lemma CreatedKeyStrays(id: UserId)
    requires id.id != "" && StartsWithDollar(id.ToString())
    ensures
      var t := RunOps(EMPTY, [PlainCreate(id)]);
      var (next, r) := Commit(t, KeyCreateRecord(t, id, Some("k"), Some("s"), false, Draw([], "", 0)), false);
      r.Ok? && "k" in next.accessKeys && next.accessKeys["k"] == id.ToString()[1..] != id.ToString()
  {
    hide ApplyOp, StartsWithDollar, FromDoc, ToDoc, ParseUserId, Commit, KeyCreateRecord;
    FirstCreate(id);
    DocReads(Alice(id));
    UidTextRoundTrip(id.ToString());
    OneOp(EMPTY, PlainCreate(id));
    hide RunOps;
    var t := RunOps(EMPTY, [PlainCreate(id)]);
    assert t == EMPTY.(users := map[id.ToString() := RowOf(Alice(id))]);
    AliceLoads(t, id);
    KeySetFirst(t, id, Alice(id).(userId := ParseUserId(id.ToString())));
  }

  lemma AliceLoads(t: Db, id: UserId)
    requires id.ToString() in t.users && t.users[id.ToString()] == RowOf(Alice(id))
    ensures LoadUser(t, id) == Ok(Alice(id).(userId := ParseUserId(id.ToString())))
  {
    hide ToDoc, FromDoc, ParseUserId;
    DocReads(Alice(id));
  }

  lemma KeySetFirst(t: Db, id: UserId, info: UserInfo)
    requires id.id != "" && t.accessKeys == map[] && LoadUser(t, id) == Ok(info) && info.accessKeys == map[]
    ensures
      var (next, r) := Commit(t, KeyCreateRecord(t, id, Some("k"), Some("s"), false, Draw([], "", 0)), false);
      r.Ok? && "k" in next.accessKeys && next.accessKeys["k"] == info.userId.ToString()
  {
    hide LoadUser, RowOf;
    var keyed := info.(accessKeys := info.accessKeys["k" := KEY]);
    assert KeyFree(t, info.userId, "k") == Ok(());
    assert KeyCreateRecord(t, id, Some("k"), Some("s"), false, Draw([], "", 0)) == Ok(keyed);
  }
}
