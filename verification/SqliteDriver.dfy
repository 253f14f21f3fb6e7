// The SQLite driver: four tables, changed by calls that each run to the end or change nothing.
module SqliteDriver {
  import opened Rgw
  import opened Text
  import opened Order
  import opened Entities
  import opened Listing
  import opened Ranges
  import opened Users
  import T = Tables

  class Driver {
    var users: map<string, T.UserRow>
    var accessKeys: map<string, string>
    var buckets: map<Pair, T.BucketRow>
    var objects: map<T.ObjectId, ObjectRow>

    function State(): T.Db
      reads this
    {
      T.Db(users, accessKeys, buckets, objects)
    }

    constructor ()
      ensures State() == T.EMPTY
    {
      users, accessKeys, buckets, objects := map[], map[], map[], map[];
    }

    // ----------------------------------------------------------- users

    method LoadUser(id: UserId) returns (r: Result<UserInfo>)
      ensures r == T.LoadUser(State(), id)
    {
      var uid := id.ToString();
      if uid !in users { return Err(NoSuchUser); }
      r := FromDoc(users[uid].doc);
    }

    method LoadUserByAccessKey(accessKey: string) returns (r: Result<UserInfo>)
      ensures r == T.LoadUserByAccessKey(State(), accessKey)
    {
      hide FromDoc;
      if accessKey !in accessKeys || accessKeys[accessKey] !in users { return Err(NoSuchUser); }
      r := FromDoc(users[accessKeys[accessKey]].doc);
    }

    method LoadUserByEmail(email: string) returns (r: Result<UserInfo>)
      ensures r == T.LoadUserByEmail(State(), email)
    {
      hide FromDoc;
      if email == "" { return Err(NoSuchUser); }
      var holders := T.Holders(State(), email);
      var ordered := SortedNames(holders);
      NamesSorted(holders);
      if ordered == [] { return Err(NoSuchUser); }
      assert ordered[0] in ordered;
      r := FromDoc(users[ordered[0]].doc);
    }

    // Does one of the keys belong to another user?
    method KeyTaken(keys: set<string>, uid: string) returns (taken: bool)
      ensures taken <==> exists k :: k in keys && k in accessKeys && accessKeys[k] != uid
    {
      var rest := keys;
      while rest != {}
        invariant rest <= keys
        invariant forall k :: k in keys && k !in rest && k in accessKeys ==> accessKeys[k] == uid
      {
        var k :| k in rest;
        if k in accessKeys && accessKeys[k] != uid { return true; }
        rest := rest - {k};
      }
      return false;
    }

    method IndexKeys(keys: set<string>, uid: string)
      modifies this`accessKeys
      ensures accessKeys == old(accessKeys) + (map k | k in keys :: uid)
    {
      var rest := keys;
      while rest != {}
        invariant rest <= keys
        invariant accessKeys == old(accessKeys) + (map k | k in keys && k !in rest :: uid)
      {
        var k :| k in rest;
        accessKeys := accessKeys[k := uid];
        rest := rest - {k};
      }
    }

    // The record, and the access key index rewritten with it.
    method StoreUser(info: UserInfo, exclusive: bool) returns (r: Result<()>)
      modifies this
      ensures (State(), r) == T.StoreUser(old(State()), info, exclusive)
      ensures r.Err? ==> State() == old(State())
    {
      hide ToDoc;
      var uid := info.userId.ToString();
      if exclusive && uid in users { return Err(UserAlreadyExists); }
      var taken := KeyTaken(info.accessKeys.Keys, uid);
      if taken { return Err(KeyExists); }
      users := users[uid := T.RowOf(info)];
      accessKeys := map k | k in accessKeys && accessKeys[k] != uid :: accessKeys[k];
      assert accessKeys == T.WithoutOwner(old(accessKeys), uid);
      IndexKeys(info.accessKeys.Keys, uid);
      assert (map k | k in info.accessKeys.Keys :: uid) == (map k | k in info.accessKeys :: uid);
      return Ok(());
    }

    method RemoveUser(id: UserId) returns (r: Result<()>)
      modifies this
      ensures (State(), r) == T.RemoveUser(old(State()), id)
      ensures r.Err? ==> State() == old(State())
    {
      var uid := id.ToString();
      if uid !in users { return Err(NoSuchUser); }
      users := users - {uid};
      accessKeys := map k | k in accessKeys && accessKeys[k] != uid :: accessKeys[k];
      return Ok(());
    }

    method ListUsers(marker: string, max: nat) returns (r: Result<seq<UserId>>)
      ensures r == T.ListUsers(State(), marker, max)
    {
      var limit := PageSize(max);
      if limit > I64_MAX { return Err(InternalError); }
      var rows := T.Take(T.UidsAfter(State(), marker), limit);
      var ids: seq<UserId> := [];
      for i := 0 to |rows|
        invariant ids + T.ParseAll(rows[i..]) == T.ParseAll(rows)
      {
        assert rows[i..][1..] == rows[i + 1..];
        ids := ids + [ParseUserId(rows[i])];
      }
      assert ids == T.ParseAll(rows);
      return Ok(ids);
    }

    // ----------------------------------------------------------- buckets

    method CreateBucket(info: BucketInfo) returns (r: Result<()>)
      modifies this
      ensures (State(), r) == T.CreateBucket(old(State()), info)
      ensures r.Err? ==> State() == old(State())
    {
      var k := (info.bucket.name, info.bucket.tenant);
      if k in buckets || T.BucketExists(State(), info.bucket.bucketId) { return Err(BucketAlreadyExists); }
      buckets := buckets[k := T.BucketRow(info.bucket.bucketId, info.owner.ToString(), info.creationTime)];
      return Ok(());
    }

    method LoadBucket(tenant: string, name: string) returns (r: Result<BucketInfo>)
      ensures r == T.LoadBucket(State(), tenant, name)
    {
      if (name, tenant) !in buckets { return Err(NoSuchBucket); }
      return Ok(T.ReadBucket(State(), (name, tenant)));
    }

    method ListBuckets(owner: Option<UserId>, marker: string, max: nat) returns (r: Result<T.BucketList>)
      ensures r == T.ListBuckets(State(), owner, marker, max)
    {
      var text := if owner.Some? then Some(owner.value.ToString()) else None;
      var size := PageSize(max);
      if size + 1 > I64_MAX { return Err(InternalError); }
      T.BucketsAfterExist(State(), text, marker);
      hide PageSize, T.BucketsAfter, T.ReadBuckets;
      var keys := T.BucketsAfter(State(), text, marker);
      var rows := T.Take(keys, size + 1);
      var page := FillBuckets(rows, size);
      assert T.Take(rows, size) == T.Take(keys, size);
      return Ok(page);
    }

    // The loop over the selected rows, at most one more than the page holds.
    method FillBuckets(rows: seq<Pair>, size: nat) returns (out: T.BucketList)
      requires |rows| <= size + 1 && forall i :: 0 <= i < |rows| ==> rows[i] in buckets
      ensures
        var shown := T.Take(rows, size);
        out == T.BucketList(T.ReadBuckets(State(), shown), |rows| > size,
            if shown == [] then "" else shown[|shown| - 1].0)
    {
      out := T.BucketList([], false, "");
      for i := 0 to |rows|
        invariant i <= size && !out.isTruncated
        invariant out.buckets == T.ReadBuckets(State(), rows[..i])
        invariant out.nextMarker == if i == 0 then "" else rows[i - 1].0
      {
        var info := T.ReadBucket(State(), rows[i]);
        if |out.buckets| == size {
          out := out.(isTruncated := true);
          return;
        }
        assert rows[..i + 1][..i] == rows[..i];
        out := out.(nextMarker := info.bucket.name, buckets := out.buckets + [info]);
      }
      assert rows[..|rows|] == rows;
    }

    method RemoveBucket(tenant: string, name: string) returns (r: Result<()>)
      modifies this
      ensures (State(), r) == T.RemoveBucket(old(State()), tenant, name)
      ensures r.Err? ==> State() == old(State())
    {
      if (name, tenant) !in buckets { return Err(NoSuchBucket); }
      var id := buckets[(name, tenant)].bucketId;
      if exists o :: o in objects && o.bucketId == id { return Err(BucketNotEmpty); }
      buckets := buckets - {(name, tenant)};
      return Ok(());
    }

    // ----------------------------------------------------------- objects

    method ListObjects(bucketId: string, params: ListParams) returns (r: Result<ListResult>)
      requires T.ObjectsPlaced(State())
      ensures r == T.ListObjects(State(), bucketId, params)
    {
      hide Page, PassOver, QueryRows;
      if !T.BucketExists(State(), bucketId) { return Err(NoSuchBucket); }
      var table := T.Contents(State(), bucketId);
      PassIsPage(table, params);
      var page := ListPage(QueryRows(table, params), params);
      return Ok(page);
    }

    method HeadObject(bucketId: string, name: string) returns (r: Result<ObjectInfo>)
      ensures r == T.HeadObject(State(), bucketId, name)
    {
      if !T.BucketExists(State(), bucketId) { return Err(NoSuchBucket); }
      if T.ObjectId(bucketId, name) !in objects { return Err(NoSuchKey); }
      return Ok(objects[T.ObjectId(bucketId, name)].IntoInfo());
    }

    method GetObject(bucketId: string, name: string, range: Option<ByteRange>) returns (r: Result<T.ObjectRead>)
      requires T.ObjectsPlaced(State())
      ensures r == T.GetObject(State(), bucketId, name, range)
    {
      hide Resolve;
      var info :- HeadObject(bucketId, name);
      var data := objects[T.ObjectId(bucketId, name)].data;
      var resolved: Option<(nat, nat)> := None;
      var from, len := 1, info.size;
      if range.Some? {
        ResolveSelects(range.value, info.size);
        var pair :- Resolve(range.value, info.size);
        resolved := Some(pair);
        from, len := pair.0 + 1, pair.1 - pair.0 + 1;
      }
      // `to_i64` of both arguments cannot fail: a stored size fits 63 bits.
      assert from <= I64_MAX && len <= I64_MAX;
      if len == 0 { return Ok(T.ObjectRead(info, resolved, "")); }
      return Ok(T.ObjectRead(info, resolved, Substr(data, from, len)));
    }

    method PutObject(bucketId: string, name: string, put: T.Put) returns (r: Result<ObjectInfo>)
      modifies this
      ensures (State(), r) == T.PutObject(old(State()), bucketId, name, put)
      ensures r.Err? ==> State() == old(State())
    {
      var info := ObjectInfo(name, |put.data|, put.etag, put.mtime, put.owner, T.STANDARD, put.attrs);
      if info.size > I64_MAX { return Err(InternalError); }
      if !T.BucketExists(State(), bucketId) { return Err(NoSuchBucket); }
      objects := objects[T.ObjectId(bucketId, name) := T.PutRow(name, put)];
      return Ok(info);
    }

    method DeleteObject(bucketId: string, name: string) returns (r: Result<()>)
      modifies this
      ensures (State(), r) == T.DeleteObject(old(State()), bucketId, name)
      ensures r.Err? ==> State() == old(State())
    {
      if !T.BucketExists(State(), bucketId) { return Err(NoSuchBucket); }
      if T.ObjectId(bucketId, name) !in objects { return Err(NoSuchKey); }
      objects := objects - {T.ObjectId(bucketId, name)};
      return Ok(());
    }
  }
}
