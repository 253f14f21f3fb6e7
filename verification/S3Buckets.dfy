// Bucket creation and deletion over S3, and the limit on the buckets a user may own.
module S3Buckets {
  import opened Rgw
  import opened Text
  import opened Order
  import opened Entities
  import opened Users
  import opened Tables
  import opened BucketPaging
  import opened AdminBuckets
  import opened SqliteDriver

  // ------------------------------------------------------------- bucket names

  predicate Alphanumeric(c: char) {
    'a' <= c <= 'z' || '0' <= c <= '9'
  }

  predicate Digits(s: string) {
    s != "" && forall i :: 0 <= i < |s| ==> '0' <= s[i] <= '9'
  }

  predicate LooksLikeIpv4(name: string) {
    var parts := Split(name, '.');
    |parts| == 4 && forall i :: 0 <= i < 4 ==> Digits(parts[i])
  }

  // A dot may stand next to neither a dash nor another dot.
  predicate BadNeighbours(a: char, b: char) {
    (a == '.' && (b == '.' || b == '-')) || (a == '-' && b == '.')
  }

  predicate ValidName(name: string) {
    && 3 <= |name| <= 63
    && Alphanumeric(name[0]) && Alphanumeric(name[|name| - 1])
    && (forall i :: 0 <= i < |name| ==> Alphanumeric(name[i]) || name[i] == '-' || name[i] == '.')
    && (forall i :: 0 < i < |name| ==> !BadNeighbours(name[i - 1], name[i]))
    && !LooksLikeIpv4(name)
  }

  // `validate_bucket_name`.
  method ValidateBucketName(name: string) returns (r: Result<()>)
    ensures r == Need(ValidName(name), InvalidBucketName)
  {
    hide LooksLikeIpv4;
    if !(3 <= |name| <= 63) { return Err(InvalidBucketName); }
    if !Alphanumeric(name[0]) || !Alphanumeric(name[|name| - 1]) { return Err(InvalidBucketName); }
    for i := 0 to |name|
      invariant forall j :: 0 <= j < i ==> Alphanumeric(name[j]) || name[j] == '-' || name[j] == '.'
      invariant forall j :: 0 < j < i ==> !BadNeighbours(name[j - 1], name[j])
      invariant 0 < i < |name| && name[i - 1] == '.' ==> name[i] != '.' && name[i] != '-'
    {
      var c := name[i];
      if Alphanumeric(c) || c == '-' { continue; }
      if c == '.' && name[i - 1] != '-' && name[i + 1] != '.' && name[i + 1] != '-' { continue; }
      assert c == '.' ==> BadNeighbours(name[i - 1], name[i]) || BadNeighbours(name[i], name[i + 1]);
      return Err(InvalidBucketName);
    }
    if LooksLikeIpv4(name) { return Err(InvalidBucketName); }
    return Ok(());
  }

  // ------------------------------------------------------------- the buckets of one owner

  // The keys still to be collected after `seen` of them.
  function Remaining(owned: set<Pair>, marker: string, limit: Option<nat>, seen: nat): seq<Pair> {
    if limit.None? then Pages(owned, marker, DEFAULT_MAX_ENTRIES)
    else PagesUpTo(owned, marker, DEFAULT_MAX_ENTRIES, limit.value - seen)
  }

  lemma RemainingStep(t: Db, owner: string, marker: string, limit: Option<nat>, seen: nat)
    ensures
      var owned, page := OwnedKeys(t, Some(owner)), BucketPage(t, Some(owner), marker, DEFAULT_MAX_ENTRIES);
      var shown := Take(RowsAfter(owned, marker), DEFAULT_MAX_ENTRIES);
      && (forall i :: 0 <= i < |shown| ==> shown[i] in t.buckets)
      && page.buckets == ReadBuckets(t, shown)
      && (page.isTruncated ==> shown != [] && page.nextMarker == shown[|shown| - 1].0 != ""
                               && |RowsAfter(owned, page.nextMarker)| < |RowsAfter(owned, marker)|)
      && Remaining(owned, marker, limit, seen)
         == (if !page.isTruncated || (limit.Some? && seen + |shown| >= limit.value) then shown
             else shown + Remaining(owned, page.nextMarker, limit, seen + |shown|))
  {
    PageStep(t, Some(owner), marker);
    hide ReadBuckets, SortedPairs, Pages;
    if |RowsAfter(OwnedKeys(t, Some(owner)), marker)| > DEFAULT_MAX_ENTRIES {
      NextRows(OwnedKeys(t, Some(owner)), marker, DEFAULT_MAX_ENTRIES);
    }
  }

  lemma InHand(before: seq<Pair>, shown: seq<Pair>, rest: seq<Pair>)
    ensures before + (shown + rest) == before + shown + rest
  {
  }

  // `list_owned_buckets`: page through an owner's buckets, stopping once `limit` of them are in hand.
  method ListOwnedBuckets(driver: Driver, owner: UserId, limit: Option<nat>) returns (r: Result<seq<BucketInfo>>)
    ensures
      var keys := Remaining(OwnedKeys(driver.State(), Some(owner.ToString())), "", limit, 0);
      && (forall i :: 0 <= i < |keys| ==> keys[i] in driver.State().buckets)
      && r == Ok(ReadBuckets(driver.State(), keys))
  {
    hide BucketPage, Remaining, RowsAfter, ReadBuckets, OwnedKeys, ReadBucket, Take;
    ghost var t, owned := driver.State(), OwnedKeys(driver.State(), Some(owner.ToString()));
    ghost var seen: seq<Pair> := [];
    NothingRead(t);
    var out: seq<BucketInfo> := [];
    var marker := "";
    while true
      invariant seen + Remaining(owned, marker, limit, |seen|) == Remaining(owned, "", limit, 0)
      invariant forall i :: 0 <= i < |seen| ==> seen[i] in t.buckets
      invariant out == ReadBuckets(t, seen)
      decreases |RowsAfter(owned, marker)|
    {
      var listed := driver.ListBuckets(Some(owner), marker, 0);
      match listed {
        case Err(e) => return Err(e);
        case Ok(page) =>
          RemainingStep(t, owner.ToString(), marker, limit, |seen|);
          ghost var shown := Take(RowsAfter(owned, marker), DEFAULT_MAX_ENTRIES);
          ReadBucketsConcat(t, seen, shown);
          ghost var before := seen;
          seen := seen + shown;
          out := out + page.buckets;
          if limit.Some? && |out| >= limit.value { return Ok(out); }
          if page.buckets == [] || !page.isTruncated { return Ok(out); }
          var last := page.buckets[|page.buckets| - 1].bucket.name;
          InHand(before, shown, Remaining(owned, page.nextMarker, limit, |seen|));
          marker := if page.nextMarker == "" then last else page.nextMarker;
      }
    }
  }

  // ------------------------------------------------------------- creation

  function Owned(t: Db, user: UserId): set<Pair> {
    OwnedKeys(t, Some(user.ToString()))
  }

  // The over-limit answer, from an early-stopping count.
  predicate OverLimit(t: Db, user: UserInfo) {
    user.maxBuckets > 0 &&
    |PagesUpTo(Owned(t, user.userId), "", DEFAULT_MAX_ENTRIES, user.maxBuckets)| >= user.maxBuckets
  }

  function Requested(user: UserId, name: string, bucketId: string, now: nat): BucketInfo {
    BucketInfo(BucketKey("", name, bucketId), user, now)
  }

  // `create_bucket`, by a user or anonymously; the bucket id is drawn at random.
  function CreateS3(t: Db, identity: Option<UserInfo>, name: string, bucketId: string, now: nat): (Db, Result<()>) {
    if identity.None? then (t, Err(AccessDenied))
    else
      var user := identity.value;
      if !ValidName(name) then (t, Err(InvalidBucketName))
      else if user.maxBuckets < 0 then (t, Err(AccessDenied))
      else if OverLimit(t, user) then (t, Err(TooManyBuckets))
      else
        match CreateBucket(t, Requested(user.userId, name, bucketId, now))
        case (next, Ok(_)) => (next, Ok(()))
        case (next, Err(BucketAlreadyExists)) =>
          var existing := LoadBucket(next, "", name);
          (next, Err(if existing.Ok? && existing.value.owner == user.userId then BucketAlreadyOwnedByYou
                     else BucketAlreadyExists))
        case (next, Err(e)) => (next, Err(e))
  }

  method CreateOverS3(driver: Driver, identity: Option<UserInfo>, name: string, bucketId: string, now: nat)
    returns (r: Result<()>)
    modifies driver
    ensures (driver.State(), r) == CreateS3(old(driver.State()), identity, name, bucketId, now)
  {
    hide ValidName, Tables.CreateBucket, Tables.LoadBucket, PagesUpTo, ReadBuckets;
    if identity.None? { return Err(AccessDenied); }
    var user := identity.value;
    var _ :- ValidateBucketName(name);
    if user.maxBuckets < 0 { return Err(AccessDenied); }
    if user.maxBuckets > 0 {
      var listed := ListOwnedBuckets(driver, user.userId, Some(user.maxBuckets));
      match listed {
        case Err(e) => return Err(e);
        case Ok(owned) => if |owned| >= user.maxBuckets { return Err(TooManyBuckets); }
      }
    }
    var created := driver.CreateBucket(Requested(user.userId, name, bucketId, now));
    match created {
      case Ok(_) => return Ok(());
      case Err(BucketAlreadyExists) =>
        var existing := driver.LoadBucket("", name);
        if existing.Ok? && existing.value.owner == user.userId { return Err(BucketAlreadyOwnedByYou); }
        return Err(BucketAlreadyExists);
      case Err(e) => return Err(e);
    }
  }

  // `delete_bucket`: only the owner, or a system or admin user.
  function DeleteS3(t: Db, identity: Option<UserInfo>, name: string): (Db, Result<()>) {
    if '/' in name then (t, Err(NoSuchBucket))
    else
      match LoadBucket(t, "", name)
      case Err(e) => (t, Err(e))
      case Ok(info) =>
        if identity.Some? && (identity.value.system || identity.value.admin || identity.value.userId == info.owner)
        then RemoveBucket(t, info.bucket.tenant, info.bucket.name)
        else (t, Err(AccessDenied))
  }

  method DeleteOverS3(driver: Driver, identity: Option<UserInfo>, name: string) returns (r: Result<()>)
    modifies driver
    ensures (driver.State(), r) == DeleteS3(old(driver.State()), identity, name)
  {
    hide Tables.LoadBucket, Tables.RemoveBucket;
    if '/' in name { return Err(NoSuchBucket); }
    var info :- driver.LoadBucket("", name);
    if identity.None? { return Err(AccessDenied); }
    var user := identity.value;
    if !user.system && !user.admin && user.userId != info.owner { return Err(AccessDenied); }
    r := driver.RemoveBucket(info.bucket.tenant, info.bucket.name);
  }

  // ------------------------------------------------------------- the limit

  // Every bucket is in the default tenant under a non-empty name, as S3 creation leaves it.
  ghost predicate DefaultTenant(t: Db) {
    forall k :: k in t.buckets ==> k.0 != "" && k.1 == ""
  }

  // Stopping early does not change the answer: the user is over the limit exactly when they own that many buckets.
  lemma CountIsExact(t: Db, user: UserInfo)
    requires DefaultTenant(t)
    ensures OverLimit(t, user) <==> 0 < user.maxBuckets <= |Owned(t, user.userId)|
  {
    hide Pages, PagesUpTo;
    var owned := Owned(t, user.userId);
    UpToCounts(owned, "", DEFAULT_MAX_ENTRIES, user.maxBuckets);
    DistinctRunComplete(owned);
    PairsSorted(owned);
  }

  // A creation succeeds exactly for a user below a non-negative limit (0: none), with a valid unused name and id; the
  // bucket is then theirs and nothing else changed.
  lemma CreationMeaning(t: Db, identity: Option<UserInfo>, name: string, bucketId: string, now: nat)
    requires DefaultTenant(t)
    ensures
      var (next, r) := CreateS3(t, identity, name, bucketId, now);
      && (r.Ok? <==>
            && identity.Some? && ValidName(name) && (name, "") !in t.buckets && !BucketExists(t, bucketId)
            && (identity.value.maxBuckets == 0 || |Owned(t, identity.value.userId)| < identity.value.maxBuckets))
      && (r.Ok? ==>
            next == t.(buckets := t.buckets[(name, "") := BucketRow(bucketId, identity.value.userId.ToString(), now)])
            && Owned(next, identity.value.userId) == Owned(t, identity.value.userId) + {(name, "")})
      && (r.Err? ==> next == t)
      && (r == Err(BucketAlreadyOwnedByYou) ==>
            (name, "") in t.buckets && ParseUserId(t.buckets[(name, "")].owner) == identity.value.userId)
  {
    hide ValidName, OverLimit, BucketExists, ParseUserId;
    if identity.Some? {
      CountIsExact(t, identity.value);
    }
  }

  // The limit is what refuses a creation exactly when the user already owns that many.
  lemma RefusalMeaning(t: Db, identity: Option<UserInfo>, name: string, bucketId: string, now: nat)
    requires DefaultTenant(t)
    ensures CreateS3(t, identity, name, bucketId, now).1 == Err(TooManyBuckets)
      <==> identity.Some? && ValidName(name) && 0 < identity.value.maxBuckets <= |Owned(t, identity.value.userId)|
  {
    hide ValidName, OverLimit, BucketExists, Owned;
    if identity.Some? {
      CountIsExact(t, identity.value);
    }
  }

  // Who may delete a bucket: a system or admin user, or one whose id is what the owner column reads as.
  predicate MayDelete(t: Db, identity: Option<UserInfo>, k: Pair)
    requires k in t.buckets
  {
    identity.Some?
    && (identity.value.system || identity.value.admin || identity.value.userId == ParseUserId(t.buckets[k].owner))
  }

  // A deletion succeeds exactly when the bucket exists in the default tenant, is the requester's to delete and holds
  // no object; then that row alone goes.
  lemma DeletionMeaning(t: Db, identity: Option<UserInfo>, name: string)
    ensures
      var (next, r) := DeleteS3(t, identity, name);
      var k := (name, "");
      && (r.Ok? <==>
            && '/' !in name && k in t.buckets && MayDelete(t, identity, k)
            && forall o :: o in t.objects ==> o.bucketId != t.buckets[k].bucketId)
      && next == (if r.Ok? then t.(buckets := t.buckets - {k}) else t)
  {
    hide ParseUserId;
  }

  lemma NoSlash(name: string)
    requires ValidName(name)
    ensures '/' !in name
  {
  }

  // A user can delete the bucket they have just created exactly when their id is canonical, or they are a system or
  // admin user; it undoes the creation.
  lemma CreatedCanBeDeleted(t: Db, user: UserInfo, name: string, bucketId: string, now: nat)
    requires Valid(t) && CreateS3(t, Some(user), name, bucketId, now).1.Ok?
    ensures
      var (next, r) := DeleteS3(CreateS3(t, Some(user), name, bucketId, now).0, Some(user), name);
      && (r.Ok? <==> user.system || user.admin || user.userId.Canonical())
      && (r.Ok? ==> next == t)
  {
    hide IndexAgrees, RecordsKeyed, OverLimit, ValidName, ParseUserId, BucketIdsUnique;
    var created := CreateS3(t, Some(user), name, bucketId, now).0;
    var info := Requested(user.userId, name, bucketId, now);
    assert CreateBucket(t, info) == (created, Ok(()));
    NoSlash(name);
    UserIdRoundTrip(user.userId);
    CreateThenLoad(t, info);
  }

  datatype S3Op =
    | CreateOp(identity: Option<UserInfo>, name: string, bucketId: string, now: nat)
    | DeleteOp(identity: Option<UserInfo>, name: string)
    | OtherOp(call: Call)

  // Any other driver call may come in between, but none that creates a bucket.
  function ApplyS3(t: Db, op: S3Op): Db {
    match op
    case CreateOp(identity, name, bucketId, now) => CreateS3(t, identity, name, bucketId, now).0
    case DeleteOp(identity, name) => DeleteS3(t, identity, name).0
    case OtherOp(call) => if call.CallCreateBucket? then t else Apply(t, call).0
  }

  function RunS3(t: Db, ops: seq<S3Op>): Db {
    if ops == [] then t else ApplyS3(RunS3(t, ops[..|ops| - 1]), ops[|ops| - 1])
  }

  // An operation other than a creation leaves only buckets that were there, as they were.
  lemma OthersOnlyRemove(t: Db, op: S3Op)
    requires !op.CreateOp?
    ensures forall k :: k in ApplyS3(t, op).buckets ==> k in t.buckets && ApplyS3(t, op).buckets[k] == t.buckets[k]
  {
    hide BucketExists;
  }

  lemma {:induction false} RunsStayInDefaultTenant(ops: seq<S3Op>)
    ensures DefaultTenant(RunS3(EMPTY, ops))
  {
    if ops != [] {
      var t, op := RunS3(EMPTY, ops[..|ops| - 1]), ops[|ops| - 1];
      hide ApplyS3, ValidName;
      RunsStayInDefaultTenant(ops[..|ops| - 1]);
      if op.CreateOp? {
        CreatedByS3(t, op);
      } else {
        OthersOnlyRemove(t, op);
      }
    }
  }

  lemma CreatedByS3(t: Db, op: S3Op)
    requires op.CreateOp? && DefaultTenant(t)
    ensures DefaultTenant(ApplyS3(t, op))
  {
    hide BucketExists, OverLimit, LooksLikeIpv4;
  }

  predicate CreatedBy(op: S3Op, uid: string) {
    op.CreateOp? && op.identity.Some? && op.identity.value.userId.ToString() == uid
  }

  // Every creation in the run by a user with this id in string form is under a positive limit of at most `m`.
  ghost predicate Limited(ops: seq<S3Op>, uid: string, m: nat) {
    forall i :: 0 <= i < |ops| && CreatedBy(ops[i], uid) ==>
      0 < ops[i].identity.value.maxBuckets <= m
  }

  // Over every run a user limited to `m` buckets never owns more.
  lemma {:induction false} LimitHolds(ops: seq<S3Op>, uid: string, m: nat)
    requires Limited(ops, uid, m)
    ensures |OwnedKeys(RunS3(EMPTY, ops), Some(uid))| <= m
  {
    if ops != [] {
      var t, op := RunS3(EMPTY, ops[..|ops| - 1]), ops[|ops| - 1];
      var next := RunS3(EMPTY, ops);
      LimitHolds(ops[..|ops| - 1], uid, m);
      RunsStayInDefaultTenant(ops[..|ops| - 1]);
      if op.CreateOp? {
        LimitedStep(t, op, uid, m);
      } else {
        OthersOnlyRemove(t, op);
        Fewer(OwnedKeys(next, Some(uid)), OwnedKeys(t, Some(uid)));
      }
    }
  }

  lemma LimitedStep(t: Db, op: S3Op, uid: string, m: nat)
    requires op.CreateOp? && DefaultTenant(t) && |OwnedKeys(t, Some(uid))| <= m
    requires op.identity.Some? && op.identity.value.userId.ToString() == uid ==> 0 < op.identity.value.maxBuckets <= m
    ensures |OwnedKeys(ApplyS3(t, op), Some(uid))| <= m
  {
    hide CreateS3, ValidName, BucketExists;
    CreationMeaning(t, op.identity, op.name, op.bucketId, op.now);
    var next := ApplyS3(t, op);
    if op.identity.Some? && op.identity.value.userId.ToString() != uid {
      assert OwnedKeys(next, Some(uid)) <= OwnedKeys(t, Some(uid));
      Fewer(OwnedKeys(next, Some(uid)), OwnedKeys(t, Some(uid)));
    }
  }

  lemma {:induction false} Fewer(a: set<Pair>, b: set<Pair>)
    requires a <= b
    ensures |a| <= |b|
  {
    if a != {} {
      var x :| x in a;
      Fewer(a - {x}, b - {x});
    }
  }

  // ------------------------------------------------------------- checks and creations that interleave

  // A creation whose check was made earlier, on whatever tables, stays within a limit of `m` exactly when the user is
  // below it by then.
  lemma LateCreation(t: Db, user: UserId, name: string, bucketId: string, now: nat, m: nat)
    requires CreateBucket(t, Requested(user, name, bucketId, now)).1.Ok?
    ensures |Owned(CreateBucket(t, Requested(user, name, bucketId, now)).0, user)| <= m <==> |Owned(t, user)| < m
  {
    hide Owned, UserId.ToString;
    OwnedGrows(t, user, name, bucketId, now);
    hide CreateBucket;
    OneMore(Owned(t, user), (name, ""), m);
  }

  lemma OneMore(keys: set<Pair>, k: Pair, m: nat)
    requires k !in keys
    ensures |keys + {k}| <= m <==> |keys| < m
  {
  }

  lemma OwnedGrows(t: Db, user: UserId, name: string, bucketId: string, now: nat)
    requires CreateBucket(t, Requested(user, name, bucketId, now)).1.Ok?
    ensures (name, "") !in Owned(t, user)
    ensures Owned(CreateBucket(t, Requested(user, name, bucketId, now)).0, user) == Owned(t, user) + {(name, "")}
  {
    hide BucketExists, UserId.ToString;
  }

  // Two creations checked before either is made both pass, and a user limited to one bucket owns two.
  lemma InterleavedCreationsExceed(user: UserInfo, a: string, b: string, idA: string, idB: string, now: nat)
    requires user.maxBuckets == 1 && a != b && idA != idB
    ensures
      var first := CreateBucket(EMPTY, Requested(user.userId, a, idA, now));
      var second := CreateBucket(first.0, Requested(user.userId, b, idB, now));
      && !OverLimit(EMPTY, user) && first.1.Ok? && second.1.Ok? && |Owned(second.0, user.userId)| == 2
  {
    CountIsExact(EMPTY, user);
    hide OverLimit;
    assert Owned(EMPTY, user.userId) == {};
    var first := CreateBucket(EMPTY, Requested(user.userId, a, idA, now));
    var second := CreateBucket(first.0, Requested(user.userId, b, idB, now));
    assert Owned(second.0, user.userId) == {(a, ""), (b, "")};
  }
}
