// What listings hold, in terms of the stored names and the request alone.
module ListingContents {
  import opened Rgw
  import opened Order
  import opened Text
  import opened Entities
  import opened Listing
  import opened ListRuns

  // The delimiter stands in `name` at `k`, behind the prefix.
  ghost predicate DelimitedAt(p: ListParams, name: string, k: nat) {
    |p.prefix| <= k <= |name| && p.delimiter <= name[k..]
  }

  ghost predicate Undelimited(p: ListParams, name: string) {
    p.delimiter == "" || forall k: nat :: !DelimitedAt(p, name, k)
  }

  // `e` is `name` up to and including the first delimiter behind the prefix.
  ghost predicate CutAt(p: ListParams, name: string, k: nat, e: string) {
    && p.delimiter != "" && DelimitedAt(p, name, k) && (forall j: nat | j < k :: !DelimitedAt(p, name, j))
    && e == name[..k + |p.delimiter|]
  }

  // The name of a stored object that the listing shows as an object.
  ghost predicate Shown(table: Table, p: ListParams, n: string) {
    n in table && p.prefix <= n && Less(p.marker, n) && Undelimited(p, n)
  }

  // The text that the listing shows as a common prefix.
  ghost predicate Grouped(table: Table, p: ListParams, e: string) {
    Less(p.marker, e) && exists n, k: nat :: n in table && p.prefix <= n && CutAt(p, n, k, e)
  }

  lemma Shifts(p: ListParams, name: string, k: nat)
    requires p.prefix <= name
    ensures DelimitedAt(p, name, k) <==> |p.prefix| <= k && OccursAt(name[|p.prefix|..], p.delimiter, k - |p.prefix|)
  {
    if |p.prefix| <= k <= |name| {
      assert name[|p.prefix|..][k - |p.prefix|..] == name[k..];
    }
  }

  lemma RollsUpIs(p: ListParams, name: string)
    requires p.prefix <= name
    ensures RollsUp(p.prefix, p.delimiter, name) <==> !Undelimited(p, name)
  {
    hide OccursAt, DelimitedAt;
    if p.delimiter != "" {
      var first := Find(name[|p.prefix|..], p.delimiter);
      if first.Some? {
        Shifts(p, name, |p.prefix| + first.value);
      }
      forall k: nat | DelimitedAt(p, name, k) ensures first.Some? { Shifts(p, name, k); }
    }
  }

  lemma CutIs(p: ListParams, name: string, e: string)
    requires p.prefix <= name
    ensures RollsUpTo(p, name, e) <==> exists k: nat :: CutAt(p, name, k, e)
  {
    hide OccursAt, DelimitedAt;
    if RollsUpTo(p, name, e) {
      var k := |p.prefix| + Find(name[|p.prefix|..], p.delimiter).value;
      forall j: nat | j <= k ensures DelimitedAt(p, name, j) <==> j == k { Shifts(p, name, j); }
      assert CutAt(p, name, k, e);
    }
    if k: nat :| CutAt(p, name, k, e) {
      Behind(p, name, k);
      var i := k - |p.prefix|;
      forall j: nat | j <= i ensures OccursAt(name[|p.prefix|..], p.delimiter, j) <==> j == i {
        Shifts(p, name, |p.prefix| + j);
      }
      FindIs(name[|p.prefix|..], p.delimiter, i);
    }
  }

  lemma Behind(p: ListParams, name: string, k: nat)
    requires DelimitedAt(p, name, k)
    ensures |p.prefix| <= k
  {
  }

  // The common prefixes are the names cut after the first delimiter behind the prefix; the objects are the names
  // with no delimiter there. Both lie above the marker, in name order and once each.
  lemma ListingHolds(table: Table, p: ListParams)
    requires forall n :: n in table ==> table[n].name == n
    ensures Ascending(WholeListing(table, p).commonPrefixes)
    ensures forall e :: e in WholeListing(table, p).commonPrefixes <==> Grouped(table, p, e)
    ensures
      var objects := WholeListing(table, p).objects;
      exists names :: Ascending(names) && |names| == |objects|
        && (forall i :: 0 <= i < |names| ==> names[i] in table && objects[i] == table[names[i]].IntoInfo())
        && (forall n :: n in names <==> Shown(table, p, n))
  {
    hide WholeListing, RollsUp, RollsUpTo, CutAt, Undelimited, Less, Ascending;
    WholeListingMeaning(table, p);
    forall e ensures e in WholeListing(table, p).commonPrefixes <==> Grouped(table, p, e) { GroupedIs(table, p, e); }
    forall n ensures Shown(table, p, n) <==>
      n in table && p.prefix <= n && !RollsUp(p.prefix, p.delimiter, n) && Less(p.marker, n) {
      if p.prefix <= n { RollsUpIs(p, n); }
    }
  }

  lemma GroupedIs(table: Table, p: ListParams, e: string)
    ensures Grouped(table, p, e) <==> exists n :: n in table && RollsUpTo(p, n, e) && Less(p.marker, e)
  {
    hide CutAt, Less, CommonPrefix;
    forall n | p.prefix <= n ensures RollsUpTo(p, n, e) <==> exists k: nat :: CutAt(p, n, k, e) { CutIs(p, n, e); }
    if n :| n in table && RollsUpTo(p, n, e) && Less(p.marker, e) {
      var k: nat :| CutAt(p, n, k, e);
    }
  }

  // A page holds as many entries as it may, 1000 where no number is given, and says whether there are more.
  lemma PageHolds(table: Table, p: ListParams)
    ensures
      var whole, page := WholeListing(table, p), Page(table, p);
      var total := |whole.objects| + |whole.commonPrefixes|;
      var max := if p.maxKeys == 0 then 1000 else p.maxKeys;
      && |page.objects| + |page.commonPrefixes| == (if total > max then max else total)
      && page.isTruncated == (total > max)
      && page.objects <= whole.objects && page.commonPrefixes <= whole.commonPrefixes
  {
    hide EntrySet, Kept, Infos, SortedNames;
    var all := AllEntries(table.Keys, p);
    KeptCounts(p, all);
    if Page(table, p).isTruncated {
      KeptCounts(p, all[..PageSize(p.maxKeys)]);
      PageThenRest(table, p);
    } else {
      LastPage(table, p);
    }
  }

  // Where a run over the S3 interface starts: behind the marker, behind the token where there is one, else behind
  // `start-after`, else at the beginning.
  lemma RunsStart(table: Table, prefix: string, delimiter: string, maxKeys: nat, a: string, b: string)
    requires maxKeys > 0
    ensures ClientRun(table, prefix, delimiter, maxKeys, V1(Some(a)))
         == WholeListing(table, ListParams(prefix, delimiter, a, maxKeys))
    ensures ClientRun(table, prefix, delimiter, maxKeys, V2(Some(a), None))
         == ClientRun(table, prefix, delimiter, maxKeys, V2(Some(a), Some(b)))
         == WholeListing(table, ListParams(prefix, delimiter, a, maxKeys))
    ensures ClientRun(table, prefix, delimiter, maxKeys, V2(None, Some(b)))
         == WholeListing(table, ListParams(prefix, delimiter, b, maxKeys))
    ensures ClientRun(table, prefix, delimiter, maxKeys, V1(None))
         == ClientRun(table, prefix, delimiter, maxKeys, V2(None, None))
         == WholeListing(table, ListParams(prefix, delimiter, "", maxKeys))
  {
    hide ClientRun, WholeListing;
    ClientSeesWholeListing(table, prefix, delimiter, maxKeys, V1(Some(a)));
    ClientSeesWholeListing(table, prefix, delimiter, maxKeys, V2(Some(a), None));
    ClientSeesWholeListing(table, prefix, delimiter, maxKeys, V2(Some(a), Some(b)));
    ClientSeesWholeListing(table, prefix, delimiter, maxKeys, V2(None, Some(b)));
    ClientSeesWholeListing(table, prefix, delimiter, maxKeys, V1(None));
    ClientSeesWholeListing(table, prefix, delimiter, maxKeys, V2(None, None));
  }
}
