// Bucket operations of the admin layer: listing every bucket, emptying one, removing one.
module AdminBuckets {
  import opened Rgw
  import opened Text
  import opened Order
  import opened Entities
  import opened Listing
  import opened Tables
  import opened BucketPaging
  import opened SqliteDriver

  // ------------------------------------------------------------- all buckets, page by page

  function OwnerText(owner: Option<UserId>): Option<string> {
    if owner.Some? then Some(owner.value.ToString()) else None
  }

  // The keys of the buckets a whole run of pages shows.
  function ListedKeys(t: Db, owner: Option<string>): seq<Pair> {
    Pages(OwnedKeys(t, owner), "", DEFAULT_MAX_ENTRIES)
  }

  lemma ListedExist(t: Db, owner: Option<string>)
    ensures forall i :: 0 <= i < |ListedKeys(t, owner)| ==>
      ListedKeys(t, owner)[i] in t.buckets && ListedKeys(t, owner)[i] in OwnedKeys(t, owner)
  {
    var keys := ListedKeys(t, owner);
    PagesMembers(OwnedKeys(t, owner), "", DEFAULT_MAX_ENTRIES);
    hide ListedKeys;
    assert forall i :: 0 <= i < |keys| ==> keys[i] in keys;
  }

  lemma {:induction false} ReadBucketsConcat(t: Db, a: seq<Pair>, b: seq<Pair>)
    requires forall i :: 0 <= i < |a + b| ==> (a + b)[i] in t.buckets
    ensures forall i :: 0 <= i < |a| ==> a[i] in t.buckets
    ensures forall i :: 0 <= i < |b| ==> b[i] in t.buckets
    ensures ReadBuckets(t, a + b) == ReadBuckets(t, a) + ReadBuckets(t, b)
  {
    assert forall i :: 0 <= i < |a| ==> a[i] == (a + b)[i];
    assert forall i :: 0 <= i < |b| ==> b[i] == (a + b)[|a| + i];
    if b == [] {
      assert a + b == a;
    } else {
      var b' := b[..|b| - 1];
      assert (a + b)[..|a + b| - 1] == a + b';
      ReadBucketsConcat(t, a, b');
    }
  }

  // What one page contributes to the run, and that a truncated one advances the marker.
  lemma PageStep(t: Db, owner: Option<string>, marker: string)
    ensures
      var owned, page := OwnedKeys(t, owner), BucketPage(t, owner, marker, DEFAULT_MAX_ENTRIES);
      var shown := Take(RowsAfter(owned, marker), DEFAULT_MAX_ENTRIES);
      && (forall i :: 0 <= i < |shown| ==> shown[i] in t.buckets)
      && page.buckets == ReadBuckets(t, shown)
      && Pages(owned, marker, DEFAULT_MAX_ENTRIES)
         == (if page.isTruncated then shown + Pages(owned, page.nextMarker, DEFAULT_MAX_ENTRIES) else shown)
      && (page.isTruncated ==>
            Less(marker, page.nextMarker) && |RowsAfter(owned, page.nextMarker)| < |RowsAfter(owned, marker)|)
  {
    BucketsAfterExist(t, owner, marker);
    hide ReadBuckets, SortedPairs;
    if |RowsAfter(OwnedKeys(t, owner), marker)| > DEFAULT_MAX_ENTRIES {
      NextRows(OwnedKeys(t, owner), marker, DEFAULT_MAX_ENTRIES);
    }
  }

  // `list_all_buckets`. The listing always advances: the internal error is never returned.
  method ListAllBuckets(driver: Driver, owner: Option<UserId>) returns (r: Result<seq<BucketInfo>>)
    ensures
      var keys := ListedKeys(driver.State(), OwnerText(owner));
      (forall i :: 0 <= i < |keys| ==> keys[i] in driver.State().buckets) && r == Ok(ReadBuckets(driver.State(), keys))
  {
    hide BucketPage, Pages, RowsAfter, ReadBuckets, OwnedKeys;
    ghost var t, text := driver.State(), OwnerText(owner);
    ghost var owned := OwnedKeys(t, text);
    ghost var seen: seq<Pair> := [];
    ListedExist(t, text);
    NothingRead(t);
    var out: seq<BucketInfo> := [];
    var marker := "";
    while true
      invariant seen + Pages(owned, marker, DEFAULT_MAX_ENTRIES) == ListedKeys(t, text)
      invariant forall i :: 0 <= i < |seen| ==> seen[i] in t.buckets
      invariant out == ReadBuckets(t, seen)
      decreases |RowsAfter(owned, marker)|
    {
      var listed := driver.ListBuckets(owner, marker, 0);
      match listed
      case Err(e) => return Err(e);
      case Ok(page) =>
      PageStep(t, text, marker);
      ghost var shown := Take(RowsAfter(owned, marker), DEFAULT_MAX_ENTRIES);
      ReadBucketsConcat(t, seen, shown);
      seen := seen + shown;
      out := out + page.buckets;
      if !page.isTruncated {
        return Ok(out);
      }
      LessIrreflexive(marker);
      if page.nextMarker == "" || page.nextMarker == marker {
        return Err(InternalError);
      }
      marker := page.nextMarker;
    }
  }

  lemma NothingRead(t: Db)
    ensures ReadBuckets(t, []) == []
  {
  }

  // ------------------------------------------------------------- emptying a bucket

  function Plain(marker: string): ListParams {
    ListParams("", "", marker, 0)
  }

  predicate Named(listed: seq<ObjectInfo>, name: string) {
    exists i :: 0 <= i < |listed| && listed[i].name == name
  }

  lemma {:induction false} InfosName(table: Table, names: seq<string>, i: nat)
    requires forall n :: n in names ==> n in table && table[n].name == n
    requires i < |names|
    ensures Infos(table, names)[i].name == names[i]
  {
    assert names[i] in names;
    if i < |names| - 1 {
      InfosName(table, names[..|names| - 1], i);
    }
  }

  lemma {:induction false} KeptPlain(marker: string, entries: seq<string>)
    ensures Kept(Plain(marker), entries, false) == entries
  {
    if entries != [] {
      KeptPlain(marker, entries[..|entries| - 1]);
    }
  }

  lemma PlainEntries(names: set<string>, marker: string)
    ensures AllEntries(names, Plain(marker)) == SortedNames(Above(names, marker))
  {
    assert EntrySet(names, Plain(marker)) == Above(names, marker);
  }

  lemma PlainShape(table: Table, marker: string)
    ensures
      var all := SortedNames(Above(table.Keys, marker));
      var shown, page := Take(all, 1000), Page(table, Plain(marker));
      && (forall n :: n in shown ==> n in table)
      && page.objects == Infos(table, shown)
      && page.isTruncated == (|all| > 1000) && page.nextMarker == LastOr(shown)
  {
    hide Less, EntrySet, Entry, RollsUp, Infos, SortedNames, Kept;
    var all := SortedNames(Above(table.Keys, marker));
    NamesSorted(Above(table.Keys, marker));
    PlainEntries(table.Keys, marker);
    assert forall n :: n in Take(all, 1000) ==> n in all;
    KeptPlain(marker, Take(all, 1000));
  }

  // Without prefix and delimiter a page holds keys above the marker, and the keys it leaves out lie above its last.
  lemma PlainPage(table: Table, marker: string)
    requires forall n :: n in table ==> table[n].name == n
    ensures
      var page := Page(table, Plain(marker));
      && (forall i :: 0 <= i < |page.objects| ==> page.objects[i].name in table && Less(marker, page.objects[i].name))
      && (forall n :: n in table && Less(marker, n) && !Named(page.objects, n) ==>
            page.isTruncated && Less(page.nextMarker, n))
      && (page.isTruncated ==> page.objects != [] && page.nextMarker == page.objects[|page.objects| - 1].name)
  {
    hide Less, Infos, SortedNames, Page;
    var all := SortedNames(Above(table.Keys, marker));
    var page := Page(table, Plain(marker));
    NamesSorted(Above(table.Keys, marker));
    PlainShape(table, marker);
    var shown := Take(all, 1000);
    assert forall n :: n in shown ==> n in all;
    forall i | 0 <= i < |shown| ensures page.objects[i].name == shown[i] && shown[i] in all {
      assert shown[i] == all[i];
      InfosName(table, shown, i);
    }
    forall n | n in table && Less(marker, n) && !Named(page.objects, n)
      ensures page.isTruncated && Less(page.nextMarker, n)
    {
      assert n in all;
      var j :| 0 <= j < |all| && all[j] == n;
      assert j >= |shown|;
    }
  }

  // What the deletions leave: everything but the bucket's objects with a name. An object named "" is never listed,
  // since no marker lies below it.
  function Purged(t: Db, bucketId: string): Db {
    t.(objects := map o | o in t.objects && (o.bucketId != bucketId || o.name == "") :: t.objects[o])
  }

  function PurgeObjects(t: Db, bucketId: string): (Db, Result<()>) {
    if !BucketExists(t, bucketId) then (t, Err(NoSuchBucket)) else (Purged(t, bucketId), Ok(()))
  }

  function WithoutListed(t: Db, bucketId: string, listed: seq<ObjectInfo>): Db {
    t.(objects := map o | o in t.objects && !(o.bucketId == bucketId && Named(listed, o.name)) :: t.objects[o])
  }

  lemma NamedOneMore(listed: seq<ObjectInfo>, i: nat)
    requires i < |listed|
    ensures forall n :: Named(listed[..i + 1], n) <==> Named(listed[..i], n) || n == listed[i].name
  {
    forall n | Named(listed[..i], n) ensures Named(listed[..i + 1], n) {
      var j :| 0 <= j < i && listed[..i][j].name == n;
      assert listed[..i + 1][j].name == n;
    }
    assert listed[..i + 1][i].name == listed[i].name;
    forall n | Named(listed[..i + 1], n) && n != listed[i].name ensures Named(listed[..i], n) {
      var j :| 0 <= j < i + 1 && listed[..i + 1][j].name == n;
      assert listed[..i][j].name == n;
    }
  }

  // The inner loop: each listed object is deleted, one already gone is no error.
  method DeleteListed(driver: Driver, bucketId: string, listed: seq<ObjectInfo>) returns (r: Result<()>)
    requires BucketExists(driver.State(), bucketId)
    modifies driver
    ensures r == Ok(()) && driver.State() == WithoutListed(old(driver.State()), bucketId, listed)
  {
    ghost var t := driver.State();
    for i := 0 to |listed|
      invariant driver.State() == WithoutListed(t, bucketId, listed[..i])
    {
      NamedOneMore(listed, i);
      assert forall bid :: BucketExists(driver.State(), bid) <==> BucketExists(t, bid);
      var deleted := driver.DeleteObject(bucketId, listed[i].name);
      match deleted {
        case Ok(_) =>
        case Err(NoSuchKey) =>
        case Err(e) => return Err(e);
      }
    }
    assert listed[..|listed|] == listed;
    return Ok(());
  }

  // Names still to visit once everything listed so far is gone.
  ghost predicate Unvisited(t: Db, bucketId: string, marker: string) {
    forall o :: o in t.objects && o.bucketId == bucketId && o.name != "" ==> Less(marker, o.name)
  }

  lemma SameGoal(t: Db, bucketId: string, listed: seq<ObjectInfo>)
    requires ObjectsPlaced(t) && !Named(listed, "")
    ensures
      var next := WithoutListed(t, bucketId, listed);
      ObjectsPlaced(next) && next.buckets == t.buckets && Purged(next, bucketId) == Purged(t, bucketId)
  {
    hide Named;
    SameBuckets(t, WithoutListed(t, bucketId, listed));
  }

  // What a page does not list lies above its end.
  ghost predicate Leaves(t: Db, bucketId: string, marker: string, page: ListResult) {
    forall o :: o in t.objects && o.bucketId == bucketId && Less(marker, o.name) && !Named(page.objects, o.name) ==>
      page.isTruncated && Less(page.nextMarker, o.name)
  }

  lemma ContentsPage(t: Db, bucketId: string, marker: string)
    requires ObjectsPlaced(t)
    ensures
      var page := Page(Contents(t, bucketId), Plain(marker));
      && (forall i :: 0 <= i < |page.objects| ==>
            ObjectId(bucketId, page.objects[i].name) in t.objects && Less(marker, page.objects[i].name))
      && Leaves(t, bucketId, marker, page)
      && (page.isTruncated ==> page.objects != [] && page.nextMarker == page.objects[|page.objects| - 1].name)
  {
    hide Less, Page, Named;
    var table := Contents(t, bucketId);
    assert forall o :: o in t.objects && o.bucketId == bucketId ==> o.name in table;
    PlainPage(table, marker);
  }

  // After one page's deletions the purge has the same goal, and only names above the page's end are left.
  lemma PurgeStep(t: Db, bucketId: string, marker: string)
    requires ObjectsPlaced(t) && Unvisited(t, bucketId, marker)
    ensures
      var page := Page(Contents(t, bucketId), Plain(marker));
      var next := WithoutListed(t, bucketId, page.objects);
      && ObjectsPlaced(next) && next.buckets == t.buckets && Purged(next, bucketId) == Purged(t, bucketId)
      && (if page.isTruncated then
            Unvisited(next, bucketId, page.nextMarker) && next.objects.Keys < t.objects.Keys
            && Less(marker, page.nextMarker)
          else next == Purged(t, bucketId))
  {
    hide Page, Contents, ObjectsPlaced;
    ContentsPage(t, bucketId, marker);
    var page := Page(Contents(t, bucketId), Plain(marker));
    NamedAbove(page.objects, marker);
    SameGoal(t, bucketId, page.objects);
    hide Less;
    if page.isTruncated {
      Shrinks(t, bucketId, page.objects);
    }
  }

  lemma Shrinks(t: Db, bucketId: string, listed: seq<ObjectInfo>)
    requires listed != [] && ObjectId(bucketId, listed[|listed| - 1].name) in t.objects
    ensures WithoutListed(t, bucketId, listed).objects.Keys < t.objects.Keys
  {
    var next := WithoutListed(t, bucketId, listed);
    assert ObjectId(bucketId, listed[|listed| - 1].name) !in next.objects;
  }

  lemma NamedAbove(listed: seq<ObjectInfo>, marker: string)
    requires forall i :: 0 <= i < |listed| ==> Less(marker, listed[i].name)
    ensures !Named(listed, "")
  {
  }

  // `purge_objects`. It always ends and the listing always advances.
  method Purge(driver: Driver, bucketId: string) returns (r: Result<()>)
    requires ObjectsPlaced(driver.State())
    modifies driver
    ensures (driver.State(), r) == PurgeObjects(old(driver.State()), bucketId)
  {
    hide ObjectsPlaced, Unvisited, Purged, WithoutListed, Page, BucketExists, Contents;
    ghost var t := driver.State();
    var marker := "";
    AllUnvisited(t, bucketId);
    while true
      invariant ObjectsPlaced(driver.State()) && Unvisited(driver.State(), bucketId, marker)
      invariant driver.State() == t || BucketExists(t, bucketId)
      invariant BucketExists(driver.State(), bucketId) == BucketExists(t, bucketId)
      invariant Purged(driver.State(), bucketId) == Purged(t, bucketId)
      decreases driver.objects.Keys
    {
      ghost var before := driver.State();
      var page :- driver.ListObjects(bucketId, Plain(marker));
      var deleted := DeleteListed(driver, bucketId, page.objects);
      match deleted {
        case Err(e) => return Err(e);
        case Ok(_) =>
      }
      PurgeStep(before, bucketId, marker);
      SameBuckets(before, driver.State());
      if !page.isTruncated {
        return Ok(());
      }
      LessIrreflexive(marker);
      if page.nextMarker == "" || page.nextMarker == marker {
        return Err(InternalError);
      }
      marker := page.nextMarker;
    }
  }

  lemma AllUnvisited(t: Db, bucketId: string)
    ensures Unvisited(t, bucketId, "")
  {
  }

  lemma SameBuckets(s: Db, t: Db)
    requires s.buckets == t.buckets
    ensures forall bid :: BucketExists(s, bid) <==> BucketExists(t, bid)
  {
  }

  // ------------------------------------------------------------- removing buckets

  // `bucket_remove`.
  function BucketRemove(t: Db, tenant: string, name: string, purge: bool): (Db, Result<()>) {
    if name == "" then (t, Err(InvalidArgument))
    else if !purge then RemoveBucket(t, tenant, name)
    else
      match LoadBucket(t, tenant, name)
      case Err(e) => (t, Err(e))
      case Ok(info) => RemoveBucket(Purged(t, info.bucket.bucketId), tenant, name)
  }

  method RemoveOne(driver: Driver, tenant: string, name: string, purge: bool) returns (r: Result<()>)
    requires ObjectsPlaced(driver.State())
    modifies driver
    ensures (driver.State(), r) == BucketRemove(old(driver.State()), tenant, name, purge)
  {
    hide Purged, RemoveBucket;
    if name == "" { return Err(InvalidArgument); }
    if purge {
      var info :- driver.LoadBucket(tenant, name);
      assert BucketExists(driver.State(), info.bucket.bucketId);
      var purged := Purge(driver, info.bucket.bucketId);
      match purged {
        case Err(e) => return Err(e);
        case Ok(_) =>
      }
    }
    r := driver.RemoveBucket(tenant, name);
  }

  predicate IdAmong(t: Db, keys: set<Pair>, bucketId: string) {
    exists k :: k in keys && k in t.buckets && t.buckets[k].bucketId == bucketId
  }

  // One of these buckets holds an object with the empty name.
  predicate NamelessIn(t: Db, keys: set<Pair>) {
    exists k :: k in keys && k in t.buckets && ObjectId(t.buckets[k].bucketId, "") in t.objects
  }

  // These buckets and everything in them gone, all else as it was.
  function WithoutBuckets(t: Db, keys: set<Pair>): Db {
    t.(buckets := t.buckets - keys, objects := map o | o in t.objects && !IdAmong(t, keys, o.bucketId) :: t.objects[o])
  }

  // Purging a bucket and removing it does exactly that, unless an object with the empty name is in the way.
  lemma PurgeThenRemove(t: Db, k: Pair)
    requires BucketIdsUnique(t) && k in t.buckets
    ensures RemoveBucket(Purged(t, t.buckets[k].bucketId), k.1, k.0)
         == if NamelessIn(t, {k}) then (Purged(t, t.buckets[k].bucketId), Err(BucketNotEmpty))
            else (WithoutBuckets(t, {k}), Ok(()))
  {
    var id := t.buckets[k].bucketId;
    var purged := Purged(t, id);
    assert (k.0, k.1) == k;
    assert forall bid :: IdAmong(t, {k}, bid) <==> bid == id;
    if NamelessIn(t, {k}) {
      assert ObjectId(id, "") in purged.objects;
    } else {
      assert forall o :: o in t.objects && o.bucketId == id ==> o == ObjectId(id, o.name);
      assert purged.objects == WithoutBuckets(t, {k}).objects;
    }
  }

  // `bucket_remove` with purge succeeds exactly when the bucket exists and holds no object with the empty name.
  lemma BucketRemoveMeaning(t: Db, tenant: string, name: string)
    requires BucketIdsUnique(t) && name != ""
    ensures
      var (next, r) := BucketRemove(t, tenant, name, true);
      var k := (name, tenant);
      && (r.Ok? <==> k in t.buckets && !NamelessIn(t, {k}))
      && (r.Ok? ==> next == WithoutBuckets(t, {k}))
      && (k in t.buckets && r.Err? ==> r == Err(BucketNotEmpty) && next == Purged(t, t.buckets[k].bucketId))
      && (k !in t.buckets ==> (next, r) == (t, Err(NoSuchBucket)))
  {
    hide BucketIdsUnique, NamelessIn, WithoutBuckets, Purged, RemoveBucket;
    if (name, tenant) in t.buckets {
      PurgeThenRemove(t, (name, tenant));
    }
  }

  // The loop of `user_remove`: purge and remove each bucket in turn.
  function RemoveAll(t: Db, infos: seq<BucketInfo>): (Db, Result<()>)
    decreases |infos|
  {
    if infos == [] then (t, Ok(()))
    else
      var b := infos[0].bucket;
      match PurgeObjects(t, b.bucketId)
      case (purged, Err(e)) => (purged, Err(e))
      case (purged, Ok(_)) =>
        match RemoveBucket(purged, b.tenant, b.name)
        case (removed, Err(e)) => (removed, Err(e))
        case (removed, Ok(_)) => RemoveAll(removed, infos[1..])
  }

  function SetOf(keys: seq<Pair>): set<Pair> {
    set k | k in keys
  }

  lemma ReadBucketsFirst(t: Db, keys: seq<Pair>)
    requires keys != [] && forall i :: 0 <= i < |keys| ==> keys[i] in t.buckets
    ensures forall i :: 0 <= i < |keys[1..]| ==> keys[1..][i] in t.buckets
    ensures ReadBuckets(t, keys) == [ReadBucket(t, keys[0])] + ReadBuckets(t, keys[1..])
  {
    assert keys == keys[..1] + keys[1..];
    ReadBucketsConcat(t, keys[..1], keys[1..]);
    assert keys[..1][..0] == [];
    NothingRead(t);
  }

  lemma {:induction false} ReadBucketsFrame(s: Db, t: Db, keys: seq<Pair>)
    requires forall i :: 0 <= i < |keys| ==>
      keys[i] in s.buckets && keys[i] in t.buckets && s.buckets[keys[i]] == t.buckets[keys[i]]
    ensures ReadBuckets(s, keys) == ReadBuckets(t, keys)
  {
    if keys != [] {
      ReadBucketsFrame(s, t, keys[..|keys| - 1]);
    }
  }

  lemma IdsSplit(t: Db, k: Pair, rest: set<Pair>)
    requires BucketIdsUnique(t) && k in t.buckets && k !in rest && rest <= t.buckets.Keys
    ensures forall bid :: IdAmong(t, {k} + rest, bid) <==>
      IdAmong(t, {k}, bid) || IdAmong(WithoutBuckets(t, {k}), rest, bid)
    ensures forall j :: j in rest ==> !IdAmong(t, {k}, t.buckets[j].bucketId)
  {
    var u := WithoutBuckets(t, {k});
    assert forall j :: j in rest ==> j in u.buckets && u.buckets[j] == t.buckets[j];
  }

  lemma WithoutTwice(t: Db, k: Pair, rest: set<Pair>)
    requires BucketIdsUnique(t) && k in t.buckets && k !in rest && rest <= t.buckets.Keys
    ensures WithoutBuckets(WithoutBuckets(t, {k}), rest) == WithoutBuckets(t, {k} + rest)
    ensures BucketIdsUnique(WithoutBuckets(t, {k}))
  {
    hide IdAmong;
    IdsSplit(t, k, rest);
    var once, both := WithoutBuckets(t, {k}), WithoutBuckets(t, {k} + rest);
    assert once.buckets - rest == both.buckets;
    assert WithoutBuckets(once, rest).objects == both.objects;
  }

  lemma NamelessRest(t: Db, k: Pair, rest: set<Pair>)
    requires BucketIdsUnique(t) && k in t.buckets && k !in rest && rest <= t.buckets.Keys && !NamelessIn(t, {k})
    ensures NamelessIn(WithoutBuckets(t, {k}), rest) <==> NamelessIn(t, {k} + rest)
  {
    hide IdAmong;
    IdsSplit(t, k, rest);
    var once := WithoutBuckets(t, {k});
    assert forall j :: j in rest ==> j in once.buckets && once.buckets[j] == t.buckets[j];
  }

  // Where the first bucket that holds an object with the empty name stands; the length if there is none.
  function FirstNameless(t: Db, keys: seq<Pair>): (j: nat)
    ensures j <= |keys|
    decreases |keys|
  {
    if keys == [] || NamelessIn(t, {keys[0]}) then 0 else 1 + FirstNameless(t, keys[1..])
  }

  lemma {:induction false} FirstNamelessIs(t: Db, keys: seq<Pair>)
    ensures
      var j := FirstNameless(t, keys);
      && (forall i :: 0 <= i < j ==> !NamelessIn(t, {keys[i]})) && (j < |keys| ==> NamelessIn(t, {keys[j]}))
      && (NamelessIn(t, SetOf(keys)) <==> j < |keys|)
    decreases |keys|
  {
    if keys != [] {
      FirstNamelessIs(t, keys[1..]);
      assert SetOf(keys) == {keys[0]} + SetOf(keys[1..]);
    }
  }

  lemma {:induction false} FirstNamelessFrame(t: Db, u: Db, keys: seq<Pair>)
    requires forall i :: 0 <= i < |keys| ==> (NamelessIn(t, {keys[i]}) <==> NamelessIn(u, {keys[i]}))
    ensures FirstNameless(t, keys) == FirstNameless(u, keys)
    decreases |keys|
  {
    hide NamelessIn;
    if keys != [] { FirstNamelessFrame(t, u, keys[1..]); }
  }

  // The tables after purging and removing these buckets in turn: all gone with their contents; or those before the
  // first that holds an object with the empty name gone, and that one emptied of its other objects.
  function RemovedUpTo(t: Db, keys: seq<Pair>, j: nat): Db
    requires j <= |keys| && forall i :: 0 <= i < |keys| ==> keys[i] in t.buckets
  {
    var gone := WithoutBuckets(t, SetOf(keys[..j]));
    if j == |keys| then gone else Purged(gone, t.buckets[keys[j]].bucketId)
  }

  lemma RemovedFirst(t: Db, keys: seq<Pair>, j: nat)
    requires keys != [] && j < |keys| && BucketIdsUnique(t)
    requires forall i :: 0 <= i < |keys| ==> keys[i] in t.buckets
    requires forall i, j :: 0 <= i < j < |keys| ==> keys[i] != keys[j]
    ensures
      var u, rest := WithoutBuckets(t, {keys[0]}), keys[1..];
      && (forall i :: 0 <= i < |rest| ==> rest[i] in u.buckets)
      && RemovedUpTo(u, rest, j) == RemovedUpTo(t, keys, j + 1)
  {
    hide BucketIdsUnique, WithoutBuckets, Purged;
    var k, rest := keys[0], keys[1..];
    StillThere(t, k);
    assert SetOf(keys[..j + 1]) == {k} + SetOf(rest[..j]);
    assert k !in rest[..j];
    WithoutTwice(t, k, SetOf(rest[..j]));
  }

  lemma NamelessOthers(t: Db, k: Pair, rest: seq<Pair>)
    requires BucketIdsUnique(t) && k in t.buckets && k !in rest && !NamelessIn(t, {k})
    requires forall i :: 0 <= i < |rest| ==> rest[i] in t.buckets
    ensures FirstNameless(WithoutBuckets(t, {k}), rest) == FirstNameless(t, rest)
  {
    hide BucketIdsUnique, WithoutBuckets, FirstNameless;
    forall i | 0 <= i < |rest| ensures NamelessIn(t, {rest[i]}) <==> NamelessIn(WithoutBuckets(t, {k}), {rest[i]}) {
      NamelessRest(t, k, {rest[i]});
    }
    FirstNamelessFrame(t, WithoutBuckets(t, {k}), rest);
  }

  // Removing a list of distinct buckets this way removes exactly them and their contents; or it stops at the first
  // that holds an object with the empty name, those before it gone and that one emptied of all its other objects.
  lemma {:induction false} RemoveAllMeaning(t: Db, keys: seq<Pair>)
    requires BucketIdsUnique(t) && forall i :: 0 <= i < |keys| ==> keys[i] in t.buckets
    requires forall i, j :: 0 <= i < j < |keys| ==> keys[i] != keys[j]
    ensures
      var j := FirstNameless(t, keys);
      RemoveAll(t, ReadBuckets(t, keys))
      == (RemovedUpTo(t, keys, j), if j < |keys| then Err(BucketNotEmpty) else Ok(()))
    decreases |keys|
  {
    hide BucketIdsUnique, NamelessIn, WithoutBuckets, Purged, RemoveBucket, ReadBuckets, RemovedUpTo;
    if keys == [] {
      NothingRead(t);
      NothingRemoved(t, keys);
    } else {
      var k, rest := keys[0], keys[1..];
      ReadBucketsFirst(t, keys);
      PurgeThenRemove(t, k);
      assert BucketExists(t, t.buckets[k].bucketId);
      assert ReadBuckets(t, keys)[1..] == ReadBuckets(t, rest);
      assert k !in rest;
      if NamelessIn(t, {k}) {
        NothingRemoved(t, keys);
      } else {
        var next := WithoutBuckets(t, {k});
        StillThere(t, k);
        NamelessOthers(t, k, rest);
        ReadBucketsFrame(next, t, rest);
        StillUnique(t, k);
        RemoveAllMeaning(next, rest);
        RemovedFirst(t, keys, FirstNameless(t, rest));
      }
    }
  }

  lemma StillUnique(t: Db, k: Pair)
    requires BucketIdsUnique(t)
    ensures BucketIdsUnique(WithoutBuckets(t, {k}))
  {
  }

  lemma NothingRemoved(t: Db, keys: seq<Pair>)
    requires forall i :: 0 <= i < |keys| ==> keys[i] in t.buckets
    ensures keys == [] ==> RemovedUpTo(t, keys, 0) == t
    ensures keys != [] ==> RemovedUpTo(t, keys, 0) == Purged(t, t.buckets[keys[0]].bucketId)
  {
    hide Purged;
    assert WithoutBuckets(t, {}) == t;
    assert SetOf(keys[..0]) == {};
  }

  lemma StillThere(t: Db, k: Pair)
    ensures forall j :: j in t.buckets && j != k ==>
      j in WithoutBuckets(t, {k}).buckets && WithoutBuckets(t, {k}).buckets[j] == t.buckets[j]
  {
  }

  lemma TwoCalls(t: Db, a: Call, b: Call)
    ensures RunCalls(t, [a, b]) == Apply(Apply(t, a).0, b).0
  {
    hide Apply;
    var none: seq<Call> := [];
    assert [a, b][..1] == [a] && [a][..0] == none;
    assert RunCalls(t, none) == t;
    assert RunCalls(t, [a]) == Apply(t, a).0;
  }

  // Driver calls that put an object with the empty name, which no S3 request can: its bucket cannot be purged away.
  lemma NamelessWitness(info: BucketInfo, put: Put)
    requires info.bucket.name != "" && |put.data| <= I64_MAX
    ensures
      var t := RunCalls(EMPTY, [CallCreateBucket(info), CallPutObject(info.bucket.bucketId, "", put)]);
      && NamelessIn(t, {(info.bucket.name, info.bucket.tenant)})
      && BucketRemove(t, info.bucket.tenant, info.bucket.name, true).1 == Err(BucketNotEmpty)
  {
    hide PutRow, BucketRemove, BucketIdsUnique, ObjectsPlaced, IndexAgrees, RecordsKeyed, Purged,
      WithoutBuckets, RunCalls;
    var calls := [CallCreateBucket(info), CallPutObject(info.bucket.bucketId, "", put)];
    var k := (info.bucket.name, info.bucket.tenant);
    TwoCalls(EMPTY, calls[0], calls[1]);
    var created := CreateBucket(EMPTY, info).0;
    assert k in created.buckets && created.buckets[k].bucketId == info.bucket.bucketId;
    assert BucketExists(created, info.bucket.bucketId);
    var t := RunCalls(EMPTY, calls);
    assert t == PutObject(created, info.bucket.bucketId, "", put).0;
    assert k in t.buckets && ObjectId(t.buckets[k].bucketId, "") in t.objects;
    ReachableIsValid(calls);
    BucketRemoveMeaning(t, info.bucket.tenant, info.bucket.name);
  }
}
