// The values that cross the storage interface: user ids, bucket and object records, byte ranges.
module Entities {
  import opened Rgw
  import opened Text

  // A user id qualified by tenant.
  datatype UserId = UserId(tenant: string, id: string) {
    // `Display`: `tenant$id`, or the bare id when the tenant is empty.
    function ToString(): string {
      if tenant == "" then id else tenant + "$" + id
    }

    predicate Canonical() {
      '$' !in tenant && (tenant == "" ==> '$' !in id)
    }
  }

  // `UserId::parse`: split on the first `$`.
  function ParseUserId(s: string): UserId {
    match SplitOnce(s, '$')
    case None => UserId("", s)
    case Some((tenant, id)) => UserId(tenant, id)
  }

  // An id survives its string form exactly when it is canonical.
  lemma UserIdRoundTrip(u: UserId)
    ensures ParseUserId(u.ToString()) == u <==> u.Canonical()
  {
    SplitOnceShape(u.ToString(), '$');
    SplitOnceShape(u.id, '$');
    if u.Canonical() && u.tenant != "" {
      SplitOnceIs(u.tenant, '$', u.id);
    }
    assert '$' in u.id ==> |ParseUserId(u.id).id| < |u.id|;
  }

  // A parsed id is canonical unless the text starts with one `$` and holds another.
  lemma ParsedCanonical(s: string)
    ensures ParseUserId(s).Canonical() <==> !(StartsWithDollar(s) && '$' in s[1..])
  {
    SplitOnceShape(s, '$');
    if StartsWithDollar(s) {
      assert s == "" + ['$'] + s[1..];
      SplitOnceIs("", '$', s[1..]);
    } else if '$' in s {
      var (tenant, id) := SplitOnce(s, '$').value;
      assert s[0] == (tenant + ['$'] + id)[0];
    }
  }

  predicate StartsWithDollar(s: string) {
    s != "" && s[0] == '$'
  }

  // A string survives being read as an id exactly when it does not start with `$`; otherwise the `$` is lost.
  lemma UidTextRoundTrip(s: string)
    ensures ParseUserId(s).ToString() == s <==> !StartsWithDollar(s)
    ensures StartsWithDollar(s) ==> ParseUserId(s).ToString() == s[1..]
  {
    SplitOnceShape(s, '$');
    if StartsWithDollar(s) {
      assert s == "" + ['$'] + s[1..];
      SplitOnceIs("", '$', s[1..]);
      assert |s[1..]| < |s|;
    } else if '$' in s {
      var (tenant, id) := SplitOnce(s, '$').value;
      assert s[0] == (tenant + ['$'] + id)[0];
    }
  }

  datatype Owner = Owner(id: UserId, displayName: string)

  datatype ObjectInfo = ObjectInfo(name: string, size: nat, etag: string, mtime: nat, owner: Owner,
                                   storageClass: string, attrs: map<string, string>)

  // The columns of an object row; the payload is the inline BLOB.
  datatype ObjectRow = ObjectRow(name: string, size: nat, etag: string, mtime: nat, ownerId: string,
                                 ownerDisplay: string, storageClass: string, attrs: map<string, string>, data: string)
  {
    function IntoInfo(): ObjectInfo {
      ObjectInfo(name, size, etag, mtime, Owner(ParseUserId(ownerId), ownerDisplay), storageClass, attrs)
    }
  }

  datatype BucketKey = BucketKey(tenant: string, name: string, bucketId: string)

  datatype BucketInfo = BucketInfo(bucket: BucketKey, owner: UserId, creationTime: nat)

  datatype ByteRange = Absolute(start: nat, end: Option<nat>) | Suffix(len: nat)

  const DEFAULT_MAX_ENTRIES: nat := 1000

  // `page_size`: 0 asks for the default.
  function PageSize(max: nat): (r: nat)
    ensures r > 0
  {
    if max == 0 then DEFAULT_MAX_ENTRIES else max
  }
}
