// S3 requests by an authenticated user: the identity is the record its access key leads to.
module S3Identity {
  import opened Rgw
  import opened Text
  import opened Entities
  import opened Users
  import opened Tables
  import opened AdminRuns
  import opened AdminKeys
  import opened S3Buckets

  // A row key whose reading as an id is not written back the same: one `$` in front and another behind.
  predicate TwiceDollar(uid: string) {
    StartsWithDollar(uid) && '$' in uid[1..]
  }

  // The id a request carries is canonical unless the user's row key is such a one.
  lemma LoadedIdCanonical(t: Db, key: string)
    requires Valid(t) && LoadUserByAccessKey(t, key).Ok?
    ensures key in t.accessKeys
    ensures LoadUserByAccessKey(t, key).value.userId == ParseUserId(t.accessKeys[key])
    ensures LoadUserByAccessKey(t, key).value.userId.Canonical() <==> !TwiceDollar(t.accessKeys[key])
  {
    hide Deserialize, ParseUserId, StartsWithDollar, IndexAgrees, ObjectsPlaced, BucketIdsUnique;
    ParsedCanonical(t.accessKeys[key]);
  }

  // An authenticated user can delete the bucket they have just created, and that undoes the creation, unless their row
  // key starts with one `$` and holds another and they are neither a system nor an admin user.
  lemma CreatorDeletes(t: Db, key: string, name: string, bucketId: string, now: nat)
    requires Valid(t) && LoadUserByAccessKey(t, key).Ok?
    requires CreateS3(t, Some(LoadUserByAccessKey(t, key).value), name, bucketId, now).1.Ok?
    ensures key in t.accessKeys
    ensures
      var user := LoadUserByAccessKey(t, key).value;
      var created := CreateS3(t, Some(user), name, bucketId, now).0;
      var (next, r) := DeleteS3(created, Some(user), name);
      && LoadUserByAccessKey(created, key) == Ok(user)
      && (r.Ok? <==> user.system || user.admin || !TwiceDollar(t.accessKeys[key]))
      && next == (if r.Ok? then t else created)
  {
    hide Valid, LoadUserByAccessKey, CreateS3, DeleteS3, TwiceDollar;
    LoadedIdCanonical(t, key);
    var user := LoadUserByAccessKey(t, key).value;
    CreatedCanBeDeleted(t, user, name, bucketId, now);
    CreationKeepsUsers(t, user, name, bucketId, now, key);
    DeletionMeaning(CreateS3(t, Some(user), name, bucketId, now).0, Some(user), name);
  }

  lemma CreationKeepsUsers(t: Db, user: UserInfo, name: string, bucketId: string, now: nat, key: string)
    ensures
      var created := CreateS3(t, Some(user), name, bucketId, now).0;
      && created.users == t.users && created.accessKeys == t.accessKeys
      && LoadUserByAccessKey(created, key) == LoadUserByAccessKey(t, key)
  {
    hide FromDoc, ValidName, OverLimit, BucketExists;
  }

  // ------------------------------------------------------------- two runs

  // The id the text `uid` stands for on the command line, created with a key, then authenticated by it.
  function Authenticated(uid: string): Result<UserInfo> {
    LoadUserByAccessKey(RunOps(EMPTY, [KeyedCreate(ParseUserId(uid))]), "k")
  }

  lemma AuthenticatesAs(uid: string)
    requires ParseUserId(uid).id != ""
    ensures
      var row := ParseUserId(uid).ToString();
      && Authenticated(uid) == Ok(KeyedAlice(ParseUserId(uid)).(userId := ParseUserId(row)))
      && RunOps(EMPTY, [KeyedCreate(ParseUserId(uid))]).accessKeys == map["k" := row]
  {
    var id := ParseUserId(uid);
    KeyedFirst(id);
    OneOp(EMPTY, KeyedCreate(id));
    DocReads(KeyedAlice(id));
    hide ApplyOp, RunOps, ParseUserId, ToDoc, FromDoc, KeyedAlice;
    KeyedLoads(RunOps(EMPTY, [KeyedCreate(id)]), id);
  }

  lemma KeyedLoads(t: Db, id: UserId)
    requires t.users == map[id.ToString() := RowOf(KeyedAlice(id))] && t.accessKeys == map["k" := id.ToString()]
    ensures LoadUserByAccessKey(t, "k") == FromDoc(ToDoc(KeyedAlice(id)))
  {
    hide FromDoc, ToDoc, KeyedAlice;
  }

  lemma Readings()
    ensures ParseUserId("$a$b") == UserId("", "a$b") && UserId("", "a$b").ToString() == "a$b"
    ensures ParseUserId("a$b") == UserId("a", "b")
    ensures ParseUserId("$$a$b") == UserId("", "$a$b") && UserId("", "$a$b").ToString() == "$a$b"
    ensures TwiceDollar("$a$b")
  {
    hide ParseUserId;
    assert "$a$b" == "$" + "a$b" && "$$a$b" == "$" + "$a$b" && "a$b" == "a" + "$" + "b";
    DollarFirst("a$b");
    DollarFirst("$a$b");
    TenantFirst("a", "b");
    assert "$a$b"[1..] == "a$b" && "a$b"[1] == '$';
  }

  // `$a$b` is not canonical when created, but authenticates as the canonical `a$b`: its user can delete.
  lemma OneDollarHeals()
    ensures ParseUserId("$a$b") == UserId("", "a$b") && !ParseUserId("$a$b").Canonical()
    ensures Authenticated("$a$b").Ok? && Authenticated("$a$b").value.userId == UserId("a", "b")
  {
    hide Authenticated, ParseUserId, UserId.ToString, TwiceDollar;
    Readings();
    assert "a$b"[1] == '$';
    AuthenticatesAs("$a$b");
  }

  // `$$a$b` authenticates as an id that is not canonical: its user cannot delete the bucket they create.
  lemma TwoDollarsFail(name: string, bucketId: string, now: nat)
    requires ValidName(name)
    ensures Authenticated("$$a$b").Ok? && Authenticated("$$a$b").value.userId == UserId("", "a$b")
    ensures
      var t, user := RunOps(EMPTY, [KeyedCreate(ParseUserId("$$a$b"))]), Authenticated("$$a$b").value;
      var (created, r) := CreateS3(t, Some(user), name, bucketId, now);
      r.Ok? && DeleteS3(created, Some(user), name) == (created, Err(AccessDenied))
  {
    hide Authenticated, ParseUserId, UserId.ToString, TwiceDollar, RunOps, KeyedCreate, KeyedAlice, CreateS3, DeleteS3,
      Valid, ValidName;
    Readings();
    AuthenticatesAs("$$a$b");
    var id := UserId("", "$a$b");
    var t, user := RunOps(EMPTY, [KeyedCreate(id)]), Authenticated("$$a$b").value;
    RunsAreValid([KeyedCreate(id)]);
    PlainKeyed(id, user.userId);
    NoBuckets(id);
    SameAuthentication("$$a$b");
    RefusedCreator(t, "k", name, bucketId, now);
  }

  // An ordinary user of such a row, on tables without buckets.
  lemma RefusedCreator(t: Db, key: string, name: string, bucketId: string, now: nat)
    requires Valid(t) && t.buckets == map[] && t.objects == map[] && ValidName(name)
    requires LoadUserByAccessKey(t, key).Ok? && key in t.accessKeys && TwiceDollar(t.accessKeys[key])
    requires
      var user := LoadUserByAccessKey(t, key).value;
      !user.system && !user.admin && user.maxBuckets > 0
    ensures
      var user := LoadUserByAccessKey(t, key).value;
      var (created, r) := CreateS3(t, Some(user), name, bucketId, now);
      r.Ok? && DeleteS3(created, Some(user), name) == (created, Err(AccessDenied))
  {
    hide Valid, LoadUserByAccessKey, CreateS3, DeleteS3, TwiceDollar, ValidName;
    var user := LoadUserByAccessKey(t, key).value;
    FirstCreation(t, user, name, bucketId, now);
    CreatorDeletes(t, key, name, bucketId, now);
    RefusedDeletion(CreateS3(t, Some(user), name, bucketId, now).0, user, name);
  }

  lemma SameAuthentication(uid: string)
    ensures LoadUserByAccessKey(RunOps(EMPTY, [KeyedCreate(ParseUserId(uid))]), "k") == Authenticated(uid)
  {
  }

  lemma PlainKeyed(id: UserId, reading: UserId)
    ensures
      var user := KeyedAlice(id).(userId := reading);
      !user.system && !user.admin && user.maxBuckets == DEFAULT_MAX_BUCKETS
  {
  }

  lemma NoBuckets(id: UserId)
    requires id.id != ""
    ensures
      var t := RunOps(EMPTY, [KeyedCreate(id)]);
      t.buckets == map[] && t.objects == map[]
  {
    KeyedFirst(id);
    OneOp(EMPTY, KeyedCreate(id));
    hide ApplyOp, RunOps, KeyedCreate, RowOf;
  }

  lemma FirstCreation(t: Db, user: UserInfo, name: string, bucketId: string, now: nat)
    requires t.buckets == map[] && user.maxBuckets > 0 && ValidName(name)
    ensures
      var (created, r) := CreateS3(t, Some(user), name, bucketId, now);
      r.Ok? && (name, "") in created.buckets && created.objects == t.objects && '/' !in name
  {
    hide ValidName, CreateS3;
    NoSlash(name);
    assert Owned(t, user.userId) == {};
    CreationMeaning(t, Some(user), name, bucketId, now);
  }

  // A bucket in the way of whose deletion stands no object is refused for lack of access alone.
  lemma RefusedDeletion(t: Db, user: UserInfo, name: string)
    requires (name, "") in t.buckets && '/' !in name && DeleteS3(t, Some(user), name).1.Err? && t.objects == map[]
    ensures DeleteS3(t, Some(user), name) == (t, Err(AccessDenied))
  {
    hide ParseUserId;
  }

  lemma DollarFirst(rest: string)
    ensures ParseUserId("$" + rest) == UserId("", rest)
  {
    assert "$" + rest == "" + ['$'] + rest;
    SplitOnceIs("", '$', rest);
  }

  lemma TenantFirst(tenant: string, id: string)
    requires '$' !in tenant
    ensures ParseUserId(tenant + "$" + id) == UserId(tenant, id)
  {
    assert tenant + "$" + id == tenant + ['$'] + id;
    SplitOnceIs(tenant, '$', id);
  }
}
