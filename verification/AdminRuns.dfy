// Whole runs of admin operations: what every stored record satisfies, and when emails stay unique.
module AdminRuns {
  import opened Rgw
  import opened Text
  import opened Order
  import opened Entities
  import opened Users
  import opened Tables
  import opened AdminBuckets
  import opened AdminUsers

  // An admin operation, or a client's call on buckets and objects in between.
  datatype AdminOp =
    | Create(created: CreateParams, draw: Draw)
    | Modify(changes: ModifyParams, draw: Draw)
    | CreateKey(uid: UserId, access: Option<string>, secret: Option<string>, generate: bool, draw: Draw)
    | RemoveKey(uid: UserId, accessKey: string)
    | AddCaps(uid: UserId, caps: string)
    | RemoveCaps(uid: UserId, caps: string)
    | Remove(uid: UserId, purge: bool)
    | Data(call: Call)

  // The id the operation names, if it is about a user.
  function Subject(op: AdminOp): Option<UserId> {
    match op
    case Create(p, _) => Some(p.uid)
    case Modify(p, _) => Some(p.uid)
    case Data(_) => None
    case _ => Some(op.uid)
  }

  function RecordOf(t: Db, op: AdminOp): Result<UserInfo>
    requires !op.Remove? && !op.Data?
  {
    match op
    case Create(p, draw) => CreateRecord(t, p, draw)
    case Modify(p, draw) => ModifyRecord(t, p, draw)
    case CreateKey(uid, access, secret, generate, draw) => KeyCreateRecord(t, uid, access, secret, generate, draw)
    case RemoveKey(uid, accessKey) => KeyRemoveRecord(t, uid, accessKey)
    case AddCaps(uid, caps) => CapsAddRecord(t, uid, caps)
    case RemoveCaps(uid, caps) => CapsRemoveRecord(t, uid, caps)
  }

  function ApplyOp(t: Db, op: AdminOp): Db {
    match op
    case Remove(uid, purge) => UserRemove(t, uid, purge).0
    case Data(call) => if call.CallStoreUser? || call.CallRemoveUser? then t else Apply(t, call).0
    case _ => Commit(t, RecordOf(t, op), op.Create?).0
  }

  function RunOps(t: Db, ops: seq<AdminOp>): Db {
    if ops == [] then t else ApplyOp(RunOps(t, ops[..|ops| - 1]), ops[|ops| - 1])
  }

  // ------------------------------------------------------------- records

  ghost predicate Readable(row: UserRow) {
    FromDoc(row.doc).Ok? && Printable(FromDoc(row.doc).value.caps)
  }

  ghost predicate Sound(t: Db) {
    RecordsKeyed(t) && forall uid :: uid in t.users ==> Readable(t.users[uid])
  }

  // A printable record reads back as itself, but for an id that does not survive its string form.
  lemma DocReads(info: UserInfo)
    requires Printable(info.caps)
    ensures FromDoc(ToDoc(info)) == Ok(info.(userId := ParseUserId(info.userId.ToString())))
  {
    hide Deserialize, Serialize, Printable;
    CapsRoundTrip(info.caps);
  }

  // What is known about a record an operation is about to store.
  ghost predicate Prepared(t: Db, uid: UserId, isNew: bool, info: UserInfo) {
    && uid.id != "" && Printable(info.caps)
    && (if isNew then info.userId == uid else LoadUser(t, uid).Ok? && info.userId == LoadUser(t, uid).value.userId)
    && (|| info.email == ""
        || (!isNew && info.email == LoadUser(t, uid).value.email)
        || EmailFree(t, info.userId, info.email).Ok?)
  }

  lemma WithKeyKeeps(t: Db, info: UserInfo, key: KeyInput, draw: Draw)
    requires WithKey(t, info, key, draw).Ok?
    ensures var r := WithKey(t, info, key, draw).value;
      r.userId == info.userId && r.email == info.email && r.caps == info.caps
  {
    hide KeyId, KeySecret;
  }

  lemma CreatePrepares(t: Db, p: CreateParams, draw: Draw)
    requires CreateRecord(t, p, draw).Ok?
    ensures Prepared(t, p.uid, true, CreateRecord(t, p, draw).value)
  {
    hide VALID_CAP_TYPES, AddItems, Split, WithKey, EmailFree, LoadUser, KeyRequest;
    var caps := GrantCaps(p.caps).value;
    if NonEmpty(p.caps).Some? {
      AddItemsKeepsPrintable(map[], Split(p.caps.value, ';'));
    }
    var access, secret := NonEmpty(p.accessKey), NonEmpty(p.secretKey);
    var key := KeyRequest(access, secret, GetOr(p.generateKey, access.None? && secret.None?)).value;
    if key.Some? {
      WithKeyKeeps(t, Created(p, caps, ClaimEmail(t, p.uid, p.email, "").value, draw.now), key.value, draw);
    }
  }

  // A user that loads from a sound store has printable capabilities.
  lemma LoadedIsPrintable(t: Db, uid: UserId)
    requires Sound(t) && LoadUser(t, uid).Ok?
    ensures Printable(LoadUser(t, uid).value.caps)
    ensures uid.ToString() in t.users && LoadUser(t, uid).value.userId == ParseUserId(uid.ToString())
    ensures t.users[uid.ToString()].email == (var e := LoadUser(t, uid).value.email; if e != "" then Some(e) else None)
  {
    hide Printable, Deserialize;
  }

  lemma ModifyPrepares(t: Db, p: ModifyParams, draw: Draw)
    requires Sound(t) && ModifyRecord(t, p, draw).Ok?
    ensures Prepared(t, p.uid, false, ModifyRecord(t, p, draw).value)
  {
    hide Sound, Printable, WithKey, EmailFree, LoadUser, KeyRequest;
    LoadedIsPrintable(t, p.uid);
    var info := LoadUser(t, p.uid).value;
    var key := KeyRequest(NonEmpty(p.accessKey), NonEmpty(p.secretKey), p.generateKey).value;
    if key.Some? {
      WithKeyKeeps(t, Modified(info, p, ClaimEmail(t, info.userId, p.email, info.email).value), key.value, draw);
    }
  }

  lemma GrantedPrintable(held: Caps, given: Caps)
    requires Printable(held) && Printable(given)
    ensures Printable(Granted(held, given)) && Printable(Revoked(held, given))
  {
    hide VALID_CAP_TYPES;
  }

  lemma OtherPrepares(t: Db, op: AdminOp)
    requires Sound(t) && (op.CreateKey? || op.RemoveKey? || op.AddCaps? || op.RemoveCaps?) && RecordOf(t, op).Ok?
    ensures Prepared(t, op.uid, false, RecordOf(t, op).value)
  {
    hide Sound, Printable, WithKey, EmailFree, LoadUser, ParseCaps, Granted, Revoked, CreateRecord, ModifyRecord;
    LoadedIsPrintable(t, op.uid);
    var info := LoadUser(t, op.uid).value;
    match op
    case CreateKey(_, access, secret, generate, draw) =>
      WithKeyKeeps(t, info, KeyInput(NonEmpty(access), NonEmpty(secret), generate), draw);
    case RemoveKey(_, _) =>
    case AddCaps(_, caps) =>
      ParsedCapsPrintable(caps);
      GrantedPrintable(info.caps, ParseCaps(caps).value);
    case RemoveCaps(_, caps) =>
      ParsedCapsPrintable(caps);
      GrantedPrintable(info.caps, ParseCaps(caps).value);
  }

  // Every record an operation stores is printable, its id is the one asked for or loaded, and its email is old or free.
  lemma RecordIsPrepared(t: Db, op: AdminOp)
    requires Sound(t) && !op.Remove? && !op.Data? && RecordOf(t, op).Ok?
    ensures Prepared(t, Subject(op).value, op.Create?, RecordOf(t, op).value)
  {
    hide Sound, Prepared, CreateRecord, ModifyRecord, KeyCreateRecord, KeyRemoveRecord, CapsAddRecord, CapsRemoveRecord;
    match op
    case Create(p, draw) => CreatePrepares(t, p, draw);
    case Modify(p, draw) => ModifyPrepares(t, p, draw);
    case _ => OtherPrepares(t, op);
  }

  // The record an operation reports is the one a later load returns, exactly when its id is canonical.
  lemma ReportedIsLoaded(t: Db, op: AdminOp)
    requires Sound(t) && !op.Remove? && !op.Data? && Commit(t, RecordOf(t, op), op.Create?).1.Ok?
    ensures
      var (next, r) := Commit(t, RecordOf(t, op), op.Create?);
      LoadUser(next, r.value.userId) == Ok(r.value) <==> r.value.userId.Canonical()
  {
    hide Sound, RecordOf, FromDoc, ToDoc, Printable, LoadUser, EmailFree;
    var info := RecordOf(t, op).value;
    RecordIsPrepared(t, op);
    StoredIsLoaded(t, info, op.Create?);
    RecordRoundTrip(info);
  }

  lemma StoredIsLoaded(t: Db, info: UserInfo, exclusive: bool)
    requires StoreUser(t, info, exclusive).1.Ok?
    ensures LoadUser(StoreUser(t, info, exclusive).0, info.userId) == FromDoc(ToDoc(info))
  {
    hide FromDoc, ToDoc;
  }

  // ------------------------------------------------------------- whole runs

  lemma {:induction false} RemoveAllKeepsUsers(t: Db, infos: seq<BucketInfo>)
    ensures RemoveAll(t, infos).0.users == t.users && RemoveAll(t, infos).0.accessKeys == t.accessKeys
    decreases |infos|
  {
    if infos != [] {
      var b := infos[0].bucket;
      var purged := PurgeObjects(t, b.bucketId).0;
      if PurgeObjects(t, b.bucketId).1.Ok? && RemoveBucket(purged, b.tenant, b.name).1.Ok? {
        RemoveAllKeepsUsers(RemoveBucket(purged, b.tenant, b.name).0, infos[1..]);
      }
    }
  }

  // Removal changes no record but the user's own, which may go.
  lemma RemovalUsers(t: Db, uid: UserId, purge: bool)
    ensures
      var next := UserRemove(t, uid, purge).0;
      next.users == t.users || next.users == t.users - {uid.ToString()}
  {
    hide RemoveAll, LoadUser, ListBuckets;
    ListedExist(t, OwnerText(Some(uid)));
    RemoveAllKeepsUsers(t, ReadBuckets(t, ListedKeys(t, OwnerText(Some(uid)))));
  }

  lemma DataUsers(t: Db, call: Call)
    requires !call.CallStoreUser? && !call.CallRemoveUser?
    ensures Apply(t, call).0.users == t.users && Apply(t, call).0.accessKeys == t.accessKeys
  {
  }

  // What one operation does to the user table: nothing, one record less, or one prepared record stored.
  lemma OpOnUsers(t: Db, op: AdminOp)
    requires Sound(t)
    ensures
      var next := ApplyOp(t, op);
      || next.users == t.users
      || (op.Remove? && next.users == t.users - {op.uid.ToString()})
      || (!op.Remove? && !op.Data? && RecordOf(t, op).Ok? &&
          Prepared(t, Subject(op).value, op.Create?, RecordOf(t, op).value)
          && (var info := RecordOf(t, op).value;
              && next.users == t.users[info.userId.ToString() := RowOf(info)]
              && (op.Create? ==> info.userId.ToString() !in t.users)))
  {
    hide Sound, RecordOf, Prepared, RowOf, UserRemove, Apply;
    match op
    case Remove(uid, purge) => RemovalUsers(t, uid, purge);
    case Data(call) =>
      if !call.CallStoreUser? && !call.CallRemoveUser? { DataUsers(t, call); }
    case _ =>
      if RecordOf(t, op).Ok? { RecordIsPrepared(t, op); }
  }

  lemma OpKeepsSound(t: Db, op: AdminOp)
    requires Sound(t)
    ensures Sound(ApplyOp(t, op))
  {
    hide RecordOf, ApplyOp, RowOf, LoadUser, EmailFree, Readable;
    OpOnUsers(t, op);
    if !op.Remove? && !op.Data? && RecordOf(t, op).Ok? {
      RowReads(RecordOf(t, op).value, Subject(op).value, t, op.Create?);
    }
  }

  lemma RowReads(info: UserInfo, uid: UserId, t: Db, isNew: bool)
    ensures Prepared(t, uid, isNew, info) ==> Readable(RowOf(info))
    ensures RowOf(info).doc.userId == info.userId.ToString()
    ensures RowOf(info).email == (if info.email != "" then Some(info.email) else None) &&
      RowOf(info).doc.email == info.email
  {
    hide ToDoc, FromDoc, Printable, LoadUser, EmailFree;
    DocFields(info);
    if Printable(info.caps) { DocReads(info); }
  }

  // After any run every stored record reads back, with valid capabilities.
  lemma {:induction false} RunsAreSound(ops: seq<AdminOp>)
    ensures Sound(RunOps(EMPTY, ops))
  {
    if ops != [] {
      hide Sound, ApplyOp;
      RunsAreSound(ops[..|ops| - 1]);
      OpKeepsSound(RunOps(EMPTY, ops[..|ops| - 1]), ops[|ops| - 1]);
    }
  }

  lemma PurgedKeepsValid(t: Db, bucketId: string)
    requires Valid(t)
    ensures Valid(Purged(t, bucketId))
  {
    hide IndexAgrees;
    SameBuckets(t, Purged(t, bucketId));
  }

  lemma {:induction false} RemoveAllKeepsValid(t: Db, infos: seq<BucketInfo>)
    requires Valid(t)
    ensures Valid(RemoveAll(t, infos).0)
    decreases |infos|
  {
    hide Valid, Purged, RemoveBucket;
    if infos != [] {
      var b := infos[0].bucket;
      PurgedKeepsValid(t, b.bucketId);
      var purged := PurgeObjects(t, b.bucketId).0;
      RemoveBucketKeepsValid(purged, b.tenant, b.name);
      var (removed, r) := RemoveBucket(purged, b.tenant, b.name);
      RemoveAllKeepsValid(removed, infos[1..]);
    }
  }

  lemma OpKeepsValid(t: Db, op: AdminOp)
    requires Valid(t)
    ensures Valid(ApplyOp(t, op))
  {
    hide Valid, StoreUser, RemoveUser, CreateBucket, RemoveBucket, PutObject, DeleteObject, RemoveAll,
      RecordOf, LoadUser, ListBuckets;
    match op
    case Remove(uid, _) =>
      ListedExist(t, OwnerText(Some(uid)));
      var infos := ReadBuckets(t, ListedKeys(t, OwnerText(Some(uid))));
      RemoveAllKeepsValid(t, infos);
      RemoveUserKeepsValid(t, uid);
      RemoveUserKeepsValid(RemoveAll(t, infos).0, uid);
    case Data(call) => CallKeepsValid(t, call);
    case _ =>
      if RecordOf(t, op).Ok? { StoreUserKeepsValid(t, RecordOf(t, op).value, op.Create?); }
  }

  // After any run the key index agrees with the records and every object has its bucket.
  lemma {:induction false} RunsAreValid(ops: seq<AdminOp>)
    ensures Valid(RunOps(EMPTY, ops))
  {
    if ops != [] {
      hide ApplyOp;
      RunsAreValid(ops[..|ops| - 1]);
      hide Valid;
      OpKeepsValid(RunOps(EMPTY, ops[..|ops| - 1]), ops[|ops| - 1]);
    }
  }

  // ------------------------------------------------------------- emails

  ghost predicate EmailsUnique(t: Db) {
    forall a, b :: a in t.users && b in t.users && t.users[a].email.Some? ==>
      (t.users[a].email == t.users[b].email ==> a == b)
  }

  // No row is keyed by a string that starts with `$`; only such strings are changed by being read as an id.
  ghost predicate OrdinaryRows(t: Db) {
    forall uid :: uid in t.users ==> !StartsWithDollar(uid)
  }

  // Where emails are unique, looking one up reads the record of its holder.
  lemma EmailFindsHolder(t: Db, uid: string, email: string)
    requires EmailsUnique(t) && uid in t.users && t.users[uid].email == Some(email) && email != ""
    ensures LoadUserByEmail(t, email) == ReadRow(t.users[uid])
  {
    hide FromDoc;
    assert Holders(t, email) == {uid};
    NamesSorted(Holders(t, email));
    assert SortedNames(Holders(t, email))[0] in SortedNames(Holders(t, email));
  }

  // A free email is held by no one but the user asking.
  lemma FreeMeansUnheld(t: Db, id: UserId, email: string, uid: string)
    requires Sound(t) && EmailsUnique(t) && OrdinaryRows(t) && EmailFree(t, id, email).Ok?
    requires uid in t.users && t.users[uid].email == Some(email) && email != ""
    ensures uid == id.ToString()
  {
    hide LoadUserByEmail, Printable, Deserialize;
    EmailFindsHolder(t, uid, email);
    UidTextRoundTrip(uid);
  }

  lemma StoreKeepsEmails(t: Db, op: AdminOp, info: UserInfo, uid: UserId)
    requires Sound(t) && EmailsUnique(t) && OrdinaryRows(t) && Prepared(t, uid, op.Create?, info)
    requires !StartsWithDollar(uid.ToString())
    ensures info.userId.ToString() == uid.ToString()
    ensures forall a :: a in t.users && info.email != "" && t.users[a].email == Some(info.email) ==> a == uid.ToString()
  {
    hide Sound, LoadUser, EmailFree, Printable, StartsWithDollar;
    UidTextRoundTrip(uid.ToString());
    if !op.Create? { LoadedIsPrintable(t, uid); }
    forall a | a in t.users && info.email != "" && t.users[a].email == Some(info.email) ensures a == uid.ToString() {
      if EmailFree(t, info.userId, info.email).Ok? {
        FreeMeansUnheld(t, info.userId, info.email, a);
      }
    }
  }

  lemma OpKeepsEmails(t: Db, op: AdminOp)
    requires Sound(t) && EmailsUnique(t) && OrdinaryRows(t)
    requires Subject(op).Some? && Subject(op).value.id != "" ==> !StartsWithDollar(Subject(op).value.ToString())
    ensures EmailsUnique(ApplyOp(t, op)) && OrdinaryRows(ApplyOp(t, op))
  {
    hide Sound, RecordOf, ApplyOp, RowOf, StartsWithDollar;
    OpOnUsers(t, op);
    if !op.Remove? && !op.Data? && RecordOf(t, op).Ok? &&
       Prepared(t, Subject(op).value, op.Create?, RecordOf(t, op).value) {
      var info, uid := RecordOf(t, op).value, Subject(op).value;
      StoreKeepsEmails(t, op, info, uid);
      RowReads(info, uid, t, op.Create?);
    }
  }

  // Every operation names one of these ids, or no user.
  ghost predicate About(ops: seq<AdminOp>, ids: set<UserId>) {
    forall i :: 0 <= i < |ops| && Subject(ops[i]).Some? ==> Subject(ops[i]).value in ids
  }

  ghost predicate Ordinary(ids: set<UserId>) {
    forall id :: id in ids && id.id != "" ==> !StartsWithDollar(id.ToString())
  }

  lemma {:induction false} OrdinaryRunsKeepEmails(ops: seq<AdminOp>, ids: set<UserId>)
    requires Ordinary(ids) && About(ops, ids)
    ensures EmailsUnique(RunOps(EMPTY, ops)) && OrdinaryRows(RunOps(EMPTY, ops))
  {
    if ops != [] {
      var before, op := ops[..|ops| - 1], ops[|ops| - 1];
      OrdinaryRunsKeepEmails(before, ids);
      RunsAreSound(before);
      hide Sound, EmailsUnique, OrdinaryRows, StartsWithDollar;
      OpKeepsEmails(RunOps(EMPTY, before), op);
    }
  }

  function PlainCreate(id: UserId): AdminOp {
    Create(CreateParams(id, "n", Some("e"), None, None, Some(false), None, None, None, None, None), Draw([], "", 0))
  }

  function Rename(id: UserId): AdminOp {
    Modify(ModifyParams(id, Some("m"), None, None, None, None, None, None, None, false), Draw([], "", 0))
  }

  // Creating a user and renaming it, when the string form of its id starts with `$`: the modified record is stored
  // under another id, so two users hold the email.
  lemma DollarIdDuplicatesEmail(id: UserId)
    requires id.id != "" && StartsWithDollar(id.ToString())
    ensures !EmailsUnique(RunOps(EMPTY, [PlainCreate(id), Rename(id)]))
  {
    hide ApplyOp, RowOf, StartsWithDollar;
    var uid := id.ToString();
    FirstCreate(id);
    RenameCopies(id);
    var ops := [PlainCreate(id), Rename(id)];
    assert ops[..1] == [PlainCreate(id)] && ops[..1][..0] == [];
    var created := EMPTY.(users := map[uid := RowOf(Alice(id))]);
    assert RunOps(EMPTY, ops[..1]) == created;
    var last := RunOps(EMPTY, ops);
    assert last == ApplyOp(created, Rename(id));
    assert last.users[uid].email == Some("e") == last.users[uid[1..]].email;
  }

  function Alice(id: UserId): UserInfo {
    UserInfo(id, "n", "e", map[], map[], false, DEFAULT_MAX_BUCKETS, false, false, 0)
  }

  lemma RenameCopies(id: UserId)
    requires id.id != "" && StartsWithDollar(id.ToString())
    ensures
      var uid := id.ToString();
      var created := EMPTY.(users := map[uid := RowOf(Alice(id))]);
      var last := ApplyOp(created, Rename(id));
      && uid in last.users && uid[1..] in last.users && uid != uid[1..]
      && last.users[uid].email == Some("e") == last.users[uid[1..]].email
  {
    hide ToDoc, FromDoc;
    var uid := id.ToString();
    var created := EMPTY.(users := map[uid := RowOf(Alice(id))]);
    DocReads(Alice(id));
    UidTextRoundTrip(uid);
    var loaded := Alice(id).(userId := ParseUserId(uid));
    assert LoadUser(created, id) == Ok(loaded);
    var renamed := loaded.(displayName := "m");
    assert RecordOf(created, Rename(id)) == Ok(renamed);
    assert ApplyOp(created, Rename(id)).users == created.users[uid[1..] := RowOf(renamed)];
  }

  lemma FirstCreate(id: UserId)
    requires id.id != ""
    ensures ApplyOp(EMPTY, PlainCreate(id)) == EMPTY.(users := map[id.ToString() := RowOf(Alice(id))])
  {
    hide ToDoc, FromDoc;
    NamesSorted(Holders(EMPTY, "e"));
    assert Holders(EMPTY, "e") == {};
  }

  // Over all runs about the given users, emails stay unique exactly when no user's id in string form starts with `$`.
  lemma EmailUniqueness(ids: set<UserId>)
    ensures (forall ops: seq<AdminOp> :: About(ops, ids) ==> EmailsUnique(RunOps(EMPTY, ops))) <==> Ordinary(ids)
  {
    hide EmailsUnique, StartsWithDollar, ApplyOp, RecordOf;
    if Ordinary(ids) {
      forall ops: seq<AdminOp> | About(ops, ids) ensures EmailsUnique(RunOps(EMPTY, ops)) {
        OrdinaryRunsKeepEmails(ops, ids);
      }
    } else {
      var id :| id in ids && id.id != "" && StartsWithDollar(id.ToString());
      DollarIdDuplicatesEmail(id);
      assert About([PlainCreate(id), Rename(id)], ids);
    }
  }

  // ------------------------------------------------------------- checks and stores that interleave

  // A record prepared earlier, on whatever tables, keeps emails unique when it is stored exactly when no other row
  // holds its email by then.
  lemma LateCommitKeepsEmails(t: Db, info: UserInfo, exclusive: bool)
    requires EmailsUnique(t) && Commit(t, Ok(info), exclusive).1.Ok?
    ensures EmailsUnique(Commit(t, Ok(info), exclusive).0)
      <==> info.email == "" || Holders(t, info.email) <= {info.userId.ToString()}
  {
    hide ToDoc, WithoutOwner;
    var row, next := info.userId.ToString(), Commit(t, Ok(info), exclusive).0;
    if info.email != "" && !(Holders(t, info.email) <= {row}) {
      var other :| other in Holders(t, info.email) && other != row;
      assert next.users[row].email == Some(info.email) == next.users[other].email;
    } else {
      assert forall u :: u in t.users && info.email != "" && t.users[u].email == Some(info.email) ==>
        u in Holders(t, info.email);
    }
  }

  // Two creations checked before either is stored both take the email.
  lemma InterleavedCreatesShareEmail(a: UserId, b: UserId)
    requires a.id != "" && b.id != "" && a.ToString() != b.ToString()
    ensures
      var first := Commit(EMPTY, RecordOf(EMPTY, PlainCreate(a)), true);
      var second := Commit(first.0, RecordOf(EMPTY, PlainCreate(b)), true);
      first.1.Ok? && second.1.Ok? && !EmailsUnique(second.0)
  {
    hide ToDoc;
    PlainRecord(a);
    PlainRecord(b);
    hide RecordOf;
    var first := Commit(EMPTY, RecordOf(EMPTY, PlainCreate(a)), true);
    var second := Commit(first.0, RecordOf(EMPTY, PlainCreate(b)), true);
    assert second.0.users[a.ToString()].email == Some("e") == second.0.users[b.ToString()].email;
  }

  lemma PlainRecord(id: UserId)
    requires id.id != ""
    ensures RecordOf(EMPTY, PlainCreate(id)) == Ok(Alice(id))
  {
    hide FromDoc;
    NamesSorted(Holders(EMPTY, "e"));
    assert Holders(EMPTY, "e") == {};
  }
}
