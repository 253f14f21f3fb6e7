// What removing a user leaves behind.
module UserRemoval {
  import opened Rgw
  import opened Order
  import opened Entities
  import opened Users
  import opened Tables
  import opened BucketPaging
  import opened AdminBuckets
  import opened AdminUsers

  // The user, their keys, their buckets and everything in those gone; all else as it was.
  function Forgotten(t: Db, uid: string): Db {
    Db(map u | u in t.users && u != uid :: t.users[u],
       map k | k in t.accessKeys && t.accessKeys[k] != uid :: t.accessKeys[k],
       map b | b in t.buckets && t.buckets[b].owner != uid :: t.buckets[b],
       map o | o in t.objects && !IdAmong(t, OwnedKeys(t, Some(uid)), o.bucketId) :: t.objects[o])
  }

  lemma ForgottenShape(t: Db, id: UserId, listed: set<Pair>)
    requires id.ToString() in t.users && listed <= OwnedKeys(t, Some(id.ToString()))
    ensures RemoveUser(WithoutBuckets(t, listed), id) == (RemoveUser(WithoutBuckets(t, listed), id).0, Ok(()))
    ensures RemoveUser(WithoutBuckets(t, listed), id).0 == Forgotten(t, id.ToString())
      <==> listed == OwnedKeys(t, Some(id.ToString()))
  {
    hide IdAmong;
    var uid := id.ToString();
    var next, owned := RemoveUser(WithoutBuckets(t, listed), id).0, OwnedKeys(t, Some(uid));
    assert next.users == Forgotten(t, uid).users;
    assert next.accessKeys == Forgotten(t, uid).accessKeys;
    if next.buckets == Forgotten(t, uid).buckets {
      forall k | k in owned ensures k in listed {
        assert k !in next.buckets;
      }
    }
    assert listed == owned ==> next.buckets == Forgotten(t, uid).buckets;
  }

  function Listed(t: Db, uid: UserId): set<Pair> {
    SetOf(ListedKeys(t, OwnerText(Some(uid))))
  }

  lemma ListedFacts(t: Db, uid: UserId)
    ensures
      var keys := ListedKeys(t, OwnerText(Some(uid)));
      && (forall i :: 0 <= i < |keys| ==> keys[i] in t.buckets)
      && (forall i, j :: 0 <= i < j < |keys| ==> keys[i] != keys[j])
    ensures Listed(t, uid) <= OwnedKeys(t, Some(uid.ToString()))
  {
    hide Pages, OwnedKeys;
    ListedExist(t, OwnerText(Some(uid)));
    PagesAscend(OwnedKeys(t, Some(uid.ToString())), "", DEFAULT_MAX_ENTRIES);
    PairLessLaws();
  }

  // With purge, removal succeeds exactly when the user loads and no listed bucket holds an object with the empty
  // name. It then forgets the user completely, exactly when no page boundary of their bucket listing falls between
  // two buckets of the same name and none of their buckets has the empty name.
  lemma PurgeRemoval(t: Db, uid: UserId)
    requires Valid(t)
    ensures
      var (next, r) := UserRemove(t, uid, true);
      var owned := OwnedKeys(t, Some(uid.ToString()));
      && (r.Ok? <==> uid.id != "" && LoadUser(t, uid).Ok? && !NamelessIn(t, Listed(t, uid)))
      && (r.Ok? ==>
            (next == Forgotten(t, uid.ToString())
             <==> CleanBoundaries(RowsAfter(owned, ""), DEFAULT_MAX_ENTRIES) && forall k :: k in owned ==> k.0 != ""))
      && (r.Err? && (uid.id == "" || LoadUser(t, uid).Err?) ==> next == t)
  {
    hide IndexAgrees, RecordsKeyed, ObjectsPlaced, BucketIdsUnique, FromDoc, NamelessIn, WithoutBuckets, RemoveAll,
      RemoveUser, Forgotten, RowsAfter, CleanBoundaries, Pages, ReadBuckets;
    var owned := OwnedKeys(t, Some(uid.ToString()));
    ListedFacts(t, uid);
    RemoveAllMeaning(t, ListedKeys(t, OwnerText(Some(uid))));
    FirstNamelessIs(t, ListedKeys(t, OwnerText(Some(uid))));
    AllRemoved(t, ListedKeys(t, OwnerText(Some(uid))));
    ListedIsAll(owned);
    if uid.ToString() in t.users {
      ForgottenShape(t, uid, Listed(t, uid));
    }
  }

  lemma AllRemoved(t: Db, keys: seq<Pair>)
    requires forall i :: 0 <= i < |keys| ==> keys[i] in t.buckets
    ensures RemovedUpTo(t, keys, |keys|) == WithoutBuckets(t, SetOf(keys))
  {
    assert keys[..|keys|] == keys;
  }

  // A purge of a loaded user that fails has stopped at the first listed bucket with an object of the empty name: the
  // buckets listed before it are gone with their contents, it has lost its other objects, and everything else, the
  // user and their keys included, is as it was.
  lemma FailedPurge(t: Db, uid: UserId)
    requires Valid(t) && uid.id != "" && LoadUser(t, uid).Ok? && UserRemove(t, uid, true).1.Err?
    ensures
      var (next, r) := UserRemove(t, uid, true);
      var keys := ListedKeys(t, OwnerText(Some(uid)));
      var j := FirstNameless(t, keys);
      && (forall i :: 0 <= i < |keys| ==> keys[i] in t.buckets)
      && r == Err(BucketNotEmpty) && j < |keys| && NamelessIn(t, {keys[j]})
      && (forall i :: 0 <= i < j ==> !NamelessIn(t, {keys[i]}))
      && next == Purged(WithoutBuckets(t, SetOf(keys[..j])), t.buckets[keys[j]].bucketId)
      && next.users == t.users && next.accessKeys == t.accessKeys
  {
    hide IndexAgrees, RecordsKeyed, ObjectsPlaced, BucketIdsUnique, FromDoc, NamelessIn, RemoveAll, RowsAfter, Pages,
      ReadBuckets;
    var keys := ListedKeys(t, OwnerText(Some(uid)));
    ListedFacts(t, uid);
    RemoveAllMeaning(t, keys);
    FirstNamelessIs(t, keys);
    if FirstNameless(t, keys) == |keys| {
      RemovedUsers(t, keys, |keys|);
    }
  }

  lemma RemovedUsers(t: Db, keys: seq<Pair>, j: nat)
    requires j <= |keys| && forall i :: 0 <= i < |keys| ==> keys[i] in t.buckets
    ensures RemovedUpTo(t, keys, j).users == t.users && RemovedUpTo(t, keys, j).accessKeys == t.accessKeys
  {
    hide IdAmong;
  }

  // When the user's buckets have distinct non-empty names, as S3 creation gives them, success means exactly that
  // everything of the user is gone, and the only obstacle in a loaded user's way is an object with the empty name.
  lemma PurgeForgets(t: Db, uid: UserId)
    requires Valid(t) && uid.id != "" && LoadUser(t, uid).Ok?
    requires
      var owned := OwnedKeys(t, Some(uid.ToString()));
      DistinctNames(owned) && forall k :: k in owned ==> k.0 != ""
    ensures
      UserRemove(t, uid, true).1.Ok? <==> !NamelessIn(t, OwnedKeys(t, Some(uid.ToString())))
    ensures UserRemove(t, uid, true).1.Ok? ==> UserRemove(t, uid, true).0 == Forgotten(t, uid.ToString())
  {
    hide IndexAgrees, RecordsKeyed, ObjectsPlaced, BucketIdsUnique, LoadUser, NamelessIn, UserRemove, Forgotten, Pages,
      CleanBoundaries;
    var owned := OwnedKeys(t, Some(uid.ToString()));
    PurgeRemoval(t, uid);
    DistinctRunComplete(owned);
    RunComplete(owned, "", DEFAULT_MAX_ENTRIES);
    PairsSorted(owned);
    assert NamesAbove(owned, "") == owned;
    assert Listed(t, uid) == owned;
  }

  // Without purge only a user whose listing shows no bucket is removed, and nothing else changes.
  lemma PlainRemoval(t: Db, uid: UserId)
    ensures
      var (next, r) := UserRemove(t, uid, false);
      var owned := OwnedKeys(t, Some(uid.ToString()));
      && (r.Ok? <==> uid.id != "" && LoadUser(t, uid).Ok? && forall k :: k in owned ==> k.0 == "")
      && next == (if r.Ok? then RemoveUser(t, uid).0 else t)
      && (uid.id != "" && LoadUser(t, uid).Ok? && r.Err? ==> r == Err(InvalidRequest))
  {
    hide FromDoc, ReadBuckets;
    var owned := OwnedKeys(t, Some(uid.ToString()));
    PairsSorted(NamesAbove(owned, ""));
    var rows := BucketsAfter(t, Some(uid.ToString()), "");
    if rows != [] {
      assert rows[0] in rows;
    }
    forall k | k in owned && k.0 != "" ensures rows != [] {
      assert k in NamesAbove(owned, "");
    }
  }
}
