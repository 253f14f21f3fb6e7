// The tables of the SQLite driver and what each driver call does to them. A call is one atomic step, so any
// interleaving of clients is a sequence of calls.
module Tables {
  import opened Rgw
  import opened Text
  import opened Order
  import opened Entities
  import opened Listing
  import opened Ranges
  import opened Users

  datatype UserRow = UserRow(email: Option<string>, doc: UserDoc)

  // A bucket row under its unique (name, tenant); the owner is kept in its string form.
  datatype BucketRow = BucketRow(bucketId: string, owner: string, creationTime: nat)

  datatype ObjectId = ObjectId(bucketId: string, name: string)

  datatype Db = Db(users: map<string, UserRow>, accessKeys: map<string, string>, buckets: map<Pair, BucketRow>,
                   objects: map<ObjectId, ObjectRow>)

  const EMPTY := Db(map[], map[], map[], map[])

  // ------------------------------------------------------------- users

  function ReadRow(row: UserRow): Result<UserInfo> {
    FromDoc(row.doc)
  }

  function LoadUser(t: Db, id: UserId): Result<UserInfo> {
    if id.ToString() in t.users then ReadRow(t.users[id.ToString()]) else Err(NoSuchUser)
  }

  function LoadUserByAccessKey(t: Db, accessKey: string): Result<UserInfo> {
    if accessKey in t.accessKeys && t.accessKeys[accessKey] in t.users then ReadRow(t.users[t.accessKeys[accessKey]])
    else Err(NoSuchUser)
  }

  function Holders(t: Db, email: string): set<string> {
    set uid | uid in t.users && t.users[uid].email == Some(email)
  }

  // The first of the holders by uid.
  function LoadUserByEmail(t: Db, email: string): Result<UserInfo> {
    var holders := SortedNames(Holders(t, email));
    if email == "" || holders == [] then Err(NoSuchUser)
    else
      NamesSorted(Holders(t, email));
      assert holders[0] in holders;
      ReadRow(t.users[holders[0]])
  }

  function RowOf(info: UserInfo): UserRow {
    UserRow(if info.email != "" then Some(info.email) else None, ToDoc(info))
  }

  function WithoutOwner(keys: map<string, string>, uid: string): map<string, string> {
    map k | k in keys && keys[k] != uid :: keys[k]
  }

  function StoreUser(t: Db, info: UserInfo, exclusive: bool): (Db, Result<()>) {
    var uid := info.userId.ToString();
    if exclusive && uid in t.users then (t, Err(UserAlreadyExists))
    else if exists k :: k in info.accessKeys && k in t.accessKeys && t.accessKeys[k] != uid then (t, Err(KeyExists))
    else
      var keys := WithoutOwner(t.accessKeys, uid) + (map k | k in info.accessKeys :: uid);
      (t.(users := t.users[uid := RowOf(info)], accessKeys := keys), Ok(()))
  }

  // The access key rows go by cascade.
  function RemoveUser(t: Db, id: UserId): (Db, Result<()>) {
    var uid := id.ToString();
    if uid !in t.users then (t, Err(NoSuchUser))
    else (t.(users := t.users - {uid}, accessKeys := WithoutOwner(t.accessKeys, uid)), Ok(()))
  }

  function UidsAfter(t: Db, marker: string): seq<string> {
    SortedNames(Above(t.users.Keys, marker))
  }

  function Take<T>(s: seq<T>, n: nat): seq<T> {
    if |s| > n then s[..n] else s
  }

  function ParseAll(uids: seq<string>): seq<UserId> {
    if uids == [] then [] else [ParseUserId(uids[0])] + ParseAll(uids[1..])
  }

  function ListUsers(t: Db, marker: string, max: nat): Result<seq<UserId>> {
    if PageSize(max) > I64_MAX then Err(InternalError) else Ok(ParseAll(Take(UidsAfter(t, marker), PageSize(max))))
  }

  // ------------------------------------------------------------- buckets

  predicate BucketExists(t: Db, bucketId: string) {
    exists k :: k in t.buckets && t.buckets[k].bucketId == bucketId
  }

  function ReadBucket(t: Db, k: Pair): BucketInfo
    requires k in t.buckets
  {
    BucketInfo(BucketKey(k.1, k.0, t.buckets[k].bucketId), ParseUserId(t.buckets[k].owner), t.buckets[k].creationTime)
  }

  function CreateBucket(t: Db, info: BucketInfo): (Db, Result<()>) {
    var k := (info.bucket.name, info.bucket.tenant);
    if k in t.buckets || BucketExists(t, info.bucket.bucketId) then (t, Err(BucketAlreadyExists))
    else
      var row := BucketRow(info.bucket.bucketId, info.owner.ToString(), info.creationTime);
      (t.(buckets := t.buckets[k := row]), Ok(()))
  }

  function LoadBucket(t: Db, tenant: string, name: string): Result<BucketInfo> {
    if (name, tenant) in t.buckets then Ok(ReadBucket(t, (name, tenant))) else Err(NoSuchBucket)
  }

  function RemoveBucket(t: Db, tenant: string, name: string): (Db, Result<()>) {
    if (name, tenant) !in t.buckets then (t, Err(NoSuchBucket))
    else if exists o :: o in t.objects && o.bucketId == t.buckets[(name, tenant)].bucketId then (t, Err(BucketNotEmpty))
    else (t.(buckets := t.buckets - {(name, tenant)}), Ok(()))
  }

  datatype BucketList = BucketList(buckets: seq<BucketInfo>, isTruncated: bool, nextMarker: string)

  // The buckets of an owner, or of everyone.
  function OwnedKeys(t: Db, owner: Option<string>): set<Pair> {
    set k | k in t.buckets && (owner.None? || t.buckets[k].owner == owner.value)
  }

  function NamesAbove(keys: set<Pair>, marker: string): set<Pair> {
    set k | k in keys && Less(marker, k.0)
  }

  // ORDER BY name, tenant; the marker is the name alone.
  function BucketsAfter(t: Db, owner: Option<string>, marker: string): seq<Pair> {
    SortedPairs(NamesAbove(OwnedKeys(t, owner), marker))
  }

  function ReadBuckets(t: Db, keys: seq<Pair>): (r: seq<BucketInfo>)
    requires forall i :: 0 <= i < |keys| ==> keys[i] in t.buckets
    ensures |r| == |keys|
  {
    if keys == [] then [] else ReadBuckets(t, keys[..|keys| - 1]) + [ReadBucket(t, keys[|keys| - 1])]
  }

  lemma BucketsAfterExist(t: Db, owner: Option<string>, marker: string)
    ensures forall i :: 0 <= i < |BucketsAfter(t, owner, marker)| ==> BucketsAfter(t, owner, marker)[i] in t.buckets
  {
    var keys := BucketsAfter(t, owner, marker);
    PairsSorted(NamesAbove(OwnedKeys(t, owner), marker));
    assert forall i :: 0 <= i < |keys| ==> keys[i] in keys;
  }

  function BucketPage(t: Db, owner: Option<string>, marker: string, max: nat): BucketList {
    var keys := BucketsAfter(t, owner, marker);
    var shown := Take(keys, max);
    BucketsAfterExist(t, owner, marker);
    BucketList(ReadBuckets(t, shown), |keys| > max, if shown == [] then "" else shown[|shown| - 1].0)
  }

  function ListBuckets(t: Db, owner: Option<UserId>, marker: string, max: nat): Result<BucketList> {
    var text := if owner.Some? then Some(owner.value.ToString()) else None;
    if PageSize(max) + 1 > I64_MAX then Err(InternalError) else Ok(BucketPage(t, text, marker, PageSize(max)))
  }

  // ------------------------------------------------------------- objects

  // The object rows of one bucket, by name.
  function Contents(t: Db, bucketId: string): Table {
    map o | o in t.objects && o.bucketId == bucketId :: o.name := t.objects[o]
  }

  function ListObjects(t: Db, bucketId: string, p: ListParams): Result<ListResult> {
    if !BucketExists(t, bucketId) then Err(NoSuchBucket) else Ok(Page(Contents(t, bucketId), p))
  }

  function HeadObject(t: Db, bucketId: string, name: string): Result<ObjectInfo> {
    if !BucketExists(t, bucketId) then Err(NoSuchBucket)
    else if ObjectId(bucketId, name) !in t.objects then Err(NoSuchKey)
    else Ok(t.objects[ObjectId(bucketId, name)].IntoInfo())
  }

  datatype ObjectRead = ObjectRead(info: ObjectInfo, range: Option<(nat, nat)>, body: string)

  function GetObject(t: Db, bucketId: string, name: string, range: Option<ByteRange>): Result<ObjectRead> {
    var info :- HeadObject(t, bucketId, name);
    var data := t.objects[ObjectId(bucketId, name)].data;
    match range
    case None => Ok(ObjectRead(info, None, Substr(data, 1, info.size)))
    case Some(r) =>
      ResolveSelects(r, info.size);
      var (start, end) :- Resolve(r, info.size);
      Ok(ObjectRead(info, Some((start, end)), Substr(data, start + 1, end - start + 1)))
  }

  // What a put carries besides the payload; the digest and the time are computed outside.
  datatype Put = Put(etag: string, mtime: nat, owner: Owner, attrs: map<string, string>, data: string)

  const STANDARD := "STANDARD"

  function PutRow(name: string, p: Put): ObjectRow {
    ObjectRow(name, |p.data|, p.etag, p.mtime, p.owner.id.ToString(), p.owner.displayName, STANDARD, p.attrs, p.data)
  }

  // What the call reports: the owner as given, not as it will read back.
  function PutInfo(name: string, p: Put): ObjectInfo {
    ObjectInfo(name, |p.data|, p.etag, p.mtime, p.owner, STANDARD, p.attrs)
  }

  function PutObject(t: Db, bucketId: string, name: string, p: Put): (Db, Result<ObjectInfo>) {
    if |p.data| > I64_MAX then (t, Err(InternalError))
    else if !BucketExists(t, bucketId) then (t, Err(NoSuchBucket))
    else (t.(objects := t.objects[ObjectId(bucketId, name) := PutRow(name, p)]), Ok(PutInfo(name, p)))
  }

  function DeleteObject(t: Db, bucketId: string, name: string): (Db, Result<()>) {
    if !BucketExists(t, bucketId) then (t, Err(NoSuchBucket))
    else if ObjectId(bucketId, name) !in t.objects then (t, Err(NoSuchKey))
    else (t.(objects := t.objects - {ObjectId(bucketId, name)}), Ok(()))
  }

  // ------------------------------------------------------------- what every reachable state satisfies

  // The access key index is exactly the inverse of the key maps inside the records.
  ghost predicate IndexAgrees(users: map<string, UserRow>, keys: map<string, string>) {
    && (forall k :: k in keys ==> keys[k] in users && k in users[keys[k]].doc.accessKeys)
    && (forall uid, k :: uid in users && k in users[uid].doc.accessKeys ==> k in keys && keys[k] == uid)
  }

  // Each record carries its own row's id and email.
  ghost predicate RecordsKeyed(t: Db) {
    forall uid :: uid in t.users ==>
      var row := t.users[uid];
      row.doc.userId == uid && row.email == if row.doc.email != "" then Some(row.doc.email) else None
  }

  ghost predicate BucketIdsUnique(t: Db) {
    forall a, b :: a in t.buckets && b in t.buckets && t.buckets[a].bucketId == t.buckets[b].bucketId ==> a == b
  }

  // Every object belongs to a bucket, under its own name, with the size of its payload.
  ghost predicate ObjectsPlaced(t: Db) {
    forall o :: o in t.objects ==>
      && BucketExists(t, o.bucketId) && t.objects[o].name == o.name
      && t.objects[o].size == |t.objects[o].data| <= I64_MAX
  }

  ghost predicate Valid(t: Db) {
    IndexAgrees(t.users, t.accessKeys) && RecordsKeyed(t) && BucketIdsUnique(t) && ObjectsPlaced(t)
  }

  datatype Call =
    | CallStoreUser(info: UserInfo, exclusive: bool)
    | CallRemoveUser(id: UserId)
    | CallCreateBucket(bucket: BucketInfo)
    | CallRemoveBucket(tenant: string, name: string)
    | CallPutObject(bucketId: string, name: string, put: Put)
    | CallDeleteObject(bucketId: string, name: string)

  function Apply(t: Db, c: Call): (Db, Result<()>) {
    match c
    case CallStoreUser(info, exclusive) => StoreUser(t, info, exclusive)
    case CallRemoveUser(id) => RemoveUser(t, id)
    case CallCreateBucket(bucket) => CreateBucket(t, bucket)
    case CallRemoveBucket(tenant, name) => RemoveBucket(t, tenant, name)
    case CallPutObject(bucketId, name, put) =>
      match PutObject(t, bucketId, name, put) {
        case (next, Ok(_)) => (next, Ok(()))
        case (next, Err(e)) => (next, Err(e))
      }
    case CallDeleteObject(bucketId, name) => DeleteObject(t, bucketId, name)
  }

  function RunCalls(t: Db, calls: seq<Call>): Db {
    if calls == [] then t else Apply(RunCalls(t, calls[..|calls| - 1]), calls[|calls| - 1]).0
  }

  // The index after a record is stored under `uid`.
  function Reindex(keys: map<string, string>, uid: string, row: UserRow): map<string, string> {
    WithoutOwner(keys, uid) + (map k | k in row.doc.accessKeys :: uid)
  }

  lemma ReindexAt(keys: map<string, string>, uid: string, row: UserRow, k: string)
    ensures k in Reindex(keys, uid, row) <==> k in row.doc.accessKeys || (k in keys && keys[k] != uid)
    ensures k in Reindex(keys, uid, row) ==>
      Reindex(keys, uid, row)[k] == if k in row.doc.accessKeys then uid else keys[k]
  {
  }

  lemma Reindexed(users: map<string, UserRow>, keys: map<string, string>, uid: string, row: UserRow)
    requires IndexAgrees(users, keys)
    requires forall k :: k in row.doc.accessKeys && k in keys ==> keys[k] == uid
    ensures IndexAgrees(users[uid := row], WithoutOwner(keys, uid) + (map k | k in row.doc.accessKeys :: uid))
  {
    hide Reindex;
    var next := Reindex(keys, uid, row);
    var stored := users[uid := row];
    forall k | k in next ensures next[k] in stored && k in stored[next[k]].doc.accessKeys {
      ReindexAt(keys, uid, row, k);
    }
    forall u, k | u in stored && k in stored[u].doc.accessKeys ensures k in next && next[k] == u {
      ReindexAt(keys, uid, row, k);
    }
    ReindexIs(keys, uid, row);
  }

  lemma ReindexIs(keys: map<string, string>, uid: string, row: UserRow)
    ensures Reindex(keys, uid, row) == WithoutOwner(keys, uid) + (map k | k in row.doc.accessKeys :: uid)
  {
  }

  lemma StoreUserKeepsValid(t: Db, info: UserInfo, exclusive: bool)
    requires Valid(t)
    ensures Valid(StoreUser(t, info, exclusive).0)
  {
    hide IndexAgrees;
    DocFields(info);
    hide ToDoc;
    if StoreUser(t, info, exclusive).1.Ok? {
      Reindexed(t.users, t.accessKeys, info.userId.ToString(), RowOf(info));
    }
    var next := StoreUser(t, info, exclusive).0;
    assert next.buckets == t.buckets && next.objects == t.objects;
    assert forall bid :: BucketExists(next, bid) <==> BucketExists(t, bid);
  }

  lemma DocFields(info: UserInfo)
    ensures ToDoc(info).userId == info.userId.ToString() && ToDoc(info).email == info.email
    ensures ToDoc(info).accessKeys == info.accessKeys
  {
  }

  lemma RemoveUserKeepsValid(t: Db, id: UserId)
    requires Valid(t)
    ensures Valid(RemoveUser(t, id).0)
  {
    var next := RemoveUser(t, id).0;
    assert forall bid :: BucketExists(next, bid) <==> BucketExists(t, bid);
  }

  lemma CreateBucketKeepsValid(t: Db, info: BucketInfo)
    requires Valid(t)
    ensures Valid(CreateBucket(t, info).0)
  {
    var (next, r) := CreateBucket(t, info);
    if r.Ok? {
      forall bid | BucketExists(t, bid) ensures BucketExists(next, bid) {
        var k :| k in t.buckets && t.buckets[k].bucketId == bid;
        assert k in next.buckets && next.buckets[k].bucketId == bid;
      }
    }
  }

  lemma RemoveBucketKeepsValid(t: Db, tenant: string, name: string)
    requires Valid(t)
    ensures Valid(RemoveBucket(t, tenant, name).0)
  {
    var (next, r) := RemoveBucket(t, tenant, name);
    if r.Ok? {
      forall o | o in next.objects ensures BucketExists(next, o.bucketId) {
        var k :| k in t.buckets && t.buckets[k].bucketId == o.bucketId;
        assert k in next.buckets && next.buckets[k].bucketId == o.bucketId;
      }
    }
  }

  lemma ObjectCallKeepsValid(t: Db, c: Call)
    requires Valid(t) && (c.CallPutObject? || c.CallDeleteObject?)
    ensures Valid(Apply(t, c).0)
  {
    var next := Apply(t, c).0;
    assert forall bid :: BucketExists(next, bid) <==> BucketExists(t, bid);
  }

  lemma CallKeepsValid(t: Db, c: Call)
    requires Valid(t)
    ensures Valid(Apply(t, c).0)
  {
    hide StoreUser, RemoveUser, CreateBucket, RemoveBucket, Valid;
    match c
    case CallStoreUser(info, exclusive) => StoreUserKeepsValid(t, info, exclusive);
    case CallRemoveUser(id) => RemoveUserKeepsValid(t, id);
    case CallCreateBucket(bucket) => CreateBucketKeepsValid(t, bucket);
    case CallRemoveBucket(tenant, name) => RemoveBucketKeepsValid(t, tenant, name);
    case _ => ObjectCallKeepsValid(t, c);
  }

  // In every state any interleaving of driver calls can reach, the index is the inverse of the records' key maps,
  // bucket ids are unique and every object has its bucket.
  lemma {:induction false} ReachableIsValid(calls: seq<Call>)
    ensures Valid(RunCalls(EMPTY, calls))
  {
    hide Apply;
    if calls != [] {
      ReachableIsValid(calls[..|calls| - 1]);
      CallKeepsValid(RunCalls(EMPTY, calls[..|calls| - 1]), calls[|calls| - 1]);
    }
  }

  // A key id belongs to at most one user, and the lookup by key reads exactly the record that holds it.
  lemma LookupByKeyFindsHolder(t: Db, k: string)
    requires IndexAgrees(t.users, t.accessKeys)
    ensures forall a, b :: HoldsKey(t, a, k) && HoldsKey(t, b, k) ==> a == b
    ensures forall uid :: HoldsKey(t, uid, k) ==> LoadUserByAccessKey(t, k) == ReadRow(t.users[uid])
    ensures (forall uid :: !HoldsKey(t, uid, k)) ==> LoadUserByAccessKey(t, k) == Err(NoSuchUser)
  {
    hide FromDoc;
    if k in t.accessKeys {
      assert HoldsKey(t, t.accessKeys[k], k);
    }
  }

  ghost predicate HoldsKey(t: Db, uid: string, k: string) {
    uid in t.users && k in t.users[uid].doc.accessKeys
  }

  // ------------------------------------------------------------- what is read back

  // A stored object reads back whole, and with the metadata the put reported exactly when the owner's id is
  // canonical; every other object is as it was.
  lemma PutThenGet(t: Db, bucketId: string, name: string, p: Put)
    requires PutObject(t, bucketId, name, p).1.Ok?
    ensures
      var next := PutObject(t, bucketId, name, p).0;
      && (GetObject(next, bucketId, name, None)
          == Ok(ObjectRead(PutObject(t, bucketId, name, p).1.value, None, p.data))
          <==> p.owner.id.Canonical())
      && HeadObject(next, bucketId, name)
         == Ok(ObjectInfo(name := name, size := |p.data|, etag := p.etag, mtime := p.mtime,
                          owner := Owner(ParseUserId(p.owner.id.ToString()), p.owner.displayName),
                          storageClass := "STANDARD", attrs := p.attrs))
      && GetObject(next, bucketId, name, None)
         == Ok(ObjectRead(HeadObject(next, bucketId, name).value, None, p.data))
      && forall id, n :: (id, n) != (bucketId, name) ==> HeadObject(next, id, n) == HeadObject(t, id, n)
  {
    var next := PutObject(t, bucketId, name, p).0;
    assert forall bid :: BucketExists(next, bid) <==> BucketExists(t, bid);
    UserIdRoundTrip(p.owner.id);
    hide ParseUserId, BucketExists;
    assert Substr(p.data, 1, |p.data|) == p.data;
  }

  // A deleted object is gone and no other is; a new put brings back exactly the table a put alone gives.
  lemma DeleteThenHead(t: Db, bucketId: string, name: string)
    requires DeleteObject(t, bucketId, name).1.Ok?
    ensures
      var next := DeleteObject(t, bucketId, name).0;
      && HeadObject(next, bucketId, name) == Err(NoSuchKey)
      && (forall id, n :: (id, n) != (bucketId, name) ==> HeadObject(next, id, n) == HeadObject(t, id, n))
      && forall p: Put :: |p.data| <= I64_MAX ==> PutObject(next, bucketId, name, p) == PutObject(t, bucketId, name, p)
  {
    var next := DeleteObject(t, bucketId, name).0;
    assert forall bid :: BucketExists(next, bid) <==> BucketExists(t, bid);
    hide BucketExists;
    forall p: Put | |p.data| <= I64_MAX
      ensures PutObject(next, bucketId, name, p) == PutObject(t, bucketId, name, p)
    {
      var id := ObjectId(bucketId, name);
      assert (t.objects - {id})[id := PutRow(name, p)] == t.objects[id := PutRow(name, p)];
    }
  }

  // A created bucket loads back as it was given, exactly when its owner's id is canonical; removing it again, while
  // nothing was stored in it, undoes the creation.
  lemma CreateThenLoad(t: Db, info: BucketInfo)
    requires Valid(t) && CreateBucket(t, info).1.Ok?
    ensures
      var next := CreateBucket(t, info).0;
      && (LoadBucket(next, info.bucket.tenant, info.bucket.name) == Ok(info) <==> info.owner.Canonical())
      && RemoveBucket(next, info.bucket.tenant, info.bucket.name) == (t, Ok(()))
  {
    hide IndexAgrees, RecordsKeyed;
    UserIdRoundTrip(info.owner);
    hide ParseUserId;
    var next := CreateBucket(t, info).0;
    var k := (info.bucket.name, info.bucket.tenant);
    assert next.buckets - {k} == t.buckets;
    assert forall o :: o in t.objects ==> o.bucketId != info.bucket.bucketId;
  }
}
