// Runs of listing pages: a client that follows the next marker until the listing is not truncated.
module ListRuns {
  import opened Rgw
  import opened Order
  import opened Text
  import opened Entities
  import opened Listing

  // S3's page ceiling and default for `max-keys`.
  const MAX_KEYS: nat := 1000

  // `parse_max_keys`: absent means the default, values above the ceiling are clamped.
  function ParseMaxKeys(v: Option<string>): (r: Result<nat>)
    ensures v.None? ==> r == Ok(1000)
    ensures v.Some? ==> (r.Ok? <==> exists n :: ParseI64(Trim(v.value)) == Some(n) && n >= 0)
    ensures v.Some? && r.Ok? ==> r.value <= 1000 && r.value <= ParseI64(Trim(v.value)).value
    ensures v.Some? && r.Ok? ==> r.value == 1000 || r.value == ParseI64(Trim(v.value)).value
    ensures r.Err? ==> r == Err(InvalidArgument)
  {
    match v
    case None => Ok(MAX_KEYS)
    case Some(text) =>
      match ParseI64(Trim(text))
      case None => Err(InvalidArgument)
      case Some(n) => if n < 0 then Err(InvalidArgument) else if n > MAX_KEYS then Ok(MAX_KEYS) else Ok(n)
  }

  // `next_marker` of the handlers: the driver's resume point, or the larger of the last key and the last prefix.
  function NextMarker(res: ListResult): Option<string> {
    if !res.isTruncated then None
    else if res.nextMarker != "" then Some(res.nextMarker)
    else LargerLast(res)
  }

  function LargerLast(res: ListResult): Option<string> {
    var keys, prefixes := res.objects, res.commonPrefixes;
    if keys == [] then (if prefixes == [] then None else Some(prefixes[|prefixes| - 1]))
    else
      var key := keys[|keys| - 1].name;
      if prefixes != [] && Less(key, prefixes[|prefixes| - 1]) then Some(prefixes[|prefixes| - 1]) else Some(key)
  }

  // ------------------------------------------------------------- one page and the next

  // A full page ends at the max-th entry; what lies after its last entry is exactly the rest.
  lemma NextPageResumes(names: set<string>, p: ListParams, k: nat)
    requires 0 < k <= |AllEntries(names, p)|
    ensures Less(p.marker, AllEntries(names, p)[k - 1])
    ensures AllEntries(names, p.(marker := AllEntries(names, p)[k - 1])) == AllEntries(names, p)[k..]
  {
    var all := AllEntries(names, p);
    var m := all[k - 1];
    NamesSorted(EntrySet(names, p));
    assert m in all;
    var next := EntrySet(names, p.(marker := m));
    forall e ensures e in next <==> e in Above(EntrySet(names, p), m) {
      if e in next && !Less(p.marker, e) {
        LessTransitive(p.marker, m, e);
      }
    }
    assert next == Above(EntrySet(names, p), m);
    NamesAfter(EntrySet(names, p), k);
  }

  lemma PageAdvances(table: Table, p: ListParams)
    requires Page(table, p).isTruncated
    ensures |AllEntries(table.Keys, p)| > PageSize(p.maxKeys)
    ensures Page(table, p).nextMarker == AllEntries(table.Keys, p)[PageSize(p.maxKeys) - 1] != ""
    ensures NextMarker(Page(table, p)) == Some(Page(table, p).nextMarker)
    ensures |AllEntries(table.Keys, p.(marker := Page(table, p).nextMarker))| < |AllEntries(table.Keys, p)|
  {
    hide EntrySet, Entry, RollsUp, SortedNames, Kept, Infos, LargerLast;
    NextPageResumes(table.Keys, p, PageSize(p.maxKeys));
  }

  lemma {:induction false} InfosAt(table: Table, names: seq<string>, i: nat)
    requires i < |names| && forall n :: n in names ==> n in table
    ensures Infos(table, names)[i] == table[names[i]].IntoInfo()
  {
    if i < |names| - 1 {
      InfosAt(table, names[..|names| - 1], i);
    }
  }

  // Of the keys and the prefixes on a page, the list that holds the page's last entry ends with it; the other
  // ends below it.
  lemma KeptLast(p: ListParams, before: seq<string>, e: string, common: bool)
    requires forall x :: x in before ==> Less(x, e)
    ensures
      var kept := Kept(p, before + [e], common);
      if RollsUp(p.prefix, p.delimiter, e) == common then kept != [] && kept[|kept| - 1] == e
      else kept != [] ==> Less(kept[|kept| - 1], e)
  {
    KeptSnoc(p, before, e, common);
    KeptMembers(p, before, common);
  }

  lemma FallbackFinds(table: Table, p: ListParams, before: seq<string>, e: string)
    requires forall n :: n in table ==> table[n].name == n
    requires forall x :: x in before ==> Less(x, e)
    requires forall n :: n in Kept(p, before + [e], false) ==> n in table
    ensures LargerLast(Showing(table, p, before + [e]).(isTruncated := true)) == Some(e)
  {
    var keys, prefixes := Kept(p, before + [e], false), Kept(p, before + [e], true);
    KeptLast(p, before, e, true);
    KeptLast(p, before, e, false);
    if keys != [] {
      InfosAt(table, keys, |keys| - 1);
      if prefixes != [] {
        LessExcludes(prefixes[|prefixes| - 1], e);
      }
    }
  }

  // The handlers' fallback would have found the same resume point: the larger of the last key and the last prefix.
  lemma FallbackAgrees(table: Table, p: ListParams)
    requires forall n :: n in table ==> table[n].name == n
    requires Page(table, p).isTruncated
    ensures LargerLast(Page(table, p)) == Some(Page(table, p).nextMarker)
  {
    hide Entry, RollsUp, CommonPrefix, EntrySet, Less, LargerLast, Infos, Kept, SortedNames;
    var max, all := PageSize(p.maxKeys), AllEntries(table.Keys, p);
    var before, e := all[..max - 1], all[max - 1];
    NamesSorted(EntrySet(table.Keys, p));
    assert all[..max] == before + [e];
    EntriesClassify(table.Keys, p);
    KeptMembers(p, before + [e], false);
    FallbackFinds(table, p, before, e);
  }

  // ------------------------------------------------------------- whole runs

  datatype Gathered = Gathered(objects: seq<ObjectInfo>, commonPrefixes: seq<string>)

  // Following the next marker until a page is not truncated.
  function Run(table: Table, p: ListParams): Gathered
    decreases |AllEntries(table.Keys, p)|
  {
    var res := Page(table, p);
    match NextMarker(res)
    case None => Gathered(res.objects, res.commonPrefixes)
    case Some(m) =>
      PageAdvances(table, p);
      var rest := Run(table, p.(marker := m));
      Gathered(res.objects + rest.objects, res.commonPrefixes + rest.commonPrefixes)
  }

  // Every entry above the marker, in one listing.
  function WholeListing(table: Table, p: ListParams): Gathered {
    var all := AllEntries(table.Keys, p);
    NamesSorted(EntrySet(table.Keys, p));
    EntriesClassify(table.Keys, p);
    KeptMembers(p, all, false);
    Gathered(Infos(table, Kept(p, all, false)), Kept(p, all, true))
  }

  lemma {:induction false} KeptConcat(p: ListParams, a: seq<string>, b: seq<string>, m: string, common: bool)
    ensures Kept(p, a + b, common) == Kept(p, a, common) + Kept(p.(marker := m), b, common)
  {
    if b == [] {
      assert a + b == a;
    } else {
      var b', e := b[..|b| - 1], b[|b| - 1];
      assert a + b == (a + b') + [e] && b == b' + [e];
      KeptConcat(p, a, b', m, common);
      KeptSnoc(p, a + b', e, common);
      KeptSnoc(p.(marker := m), b', e, common);
    }
  }

  lemma {:induction false} InfosConcat(table: Table, a: seq<string>, b: seq<string>)
    requires forall n :: n in a + b ==> n in table
    ensures Infos(table, a + b) == Infos(table, a) + Infos(table, b)
  {
    if b == [] {
      assert a + b == a;
    } else {
      assert (a + b)[..|a + b| - 1] == a + b[..|b| - 1];
      assert b[|b| - 1] in b;
      InfosConcat(table, a, b[..|b| - 1]);
    }
  }

  // A truncated page followed by the whole listing after it is the whole listing.
  lemma PageThenRest(table: Table, p: ListParams)
    requires Page(table, p).isTruncated
    ensures
      var res := Page(table, p);
      var rest := WholeListing(table, p.(marker := res.nextMarker));
      WholeListing(table, p) == Gathered(res.objects + rest.objects, res.commonPrefixes + rest.commonPrefixes)
  {
    hide EntrySet, Entry, RollsUp, CommonPrefix, SortedNames, Kept, Infos, Less;
    var all, max := AllEntries(table.Keys, p), PageSize(p.maxKeys);
    var m := Page(table, p).nextMarker;
    NextPageResumes(table.Keys, p, max);
    var a, b := all[..max], all[max..];
    assert all == a + b && m == a[max - 1];
    KeptConcat(p, a, b, m, true);
    KeptConcat(p, a, b, m, false);
    NamesSorted(EntrySet(table.Keys, p));
    EntriesClassify(table.Keys, p);
    KeptMembers(p, all, false);
    InfosConcat(table, Kept(p, a, false), Kept(p.(marker := m), b, false));
  }

  // A page that is not truncated is the whole listing.
  lemma LastPage(table: Table, p: ListParams)
    requires !Page(table, p).isTruncated
    ensures WholeListing(table, p) == Gathered(Page(table, p).objects, Page(table, p).commonPrefixes)
  {
    hide EntrySet, Entry, RollsUp, CommonPrefix, SortedNames, Kept, Infos, Less;
  }

  // The pages of a run, concatenated, are the whole listing: every distinct entry above the start marker exactly
  // once and in order, whatever the page size. Termination is the `decreases` of `Run`.
  lemma {:induction false} RunIsWholeListing(table: Table, p: ListParams)
    ensures Run(table, p) == WholeListing(table, p)
    decreases |AllEntries(table.Keys, p)|
  {
    hide Page, AllEntries, WholeListing;
    var res := Page(table, p);
    if res.isTruncated {
      PageAdvances(table, p);
      RunIsWholeListing(table, p.(marker := res.nextMarker));
      PageThenRest(table, p);
    } else {
      LastPage(table, p);
    }
  }

  lemma {:induction false} KeptAscending(p: ListParams, entries: seq<string>, common: bool)
    requires Ascending(entries)
    ensures Ascending(Kept(p, entries, common))
  {
    if entries != [] {
      var before := entries[..|entries| - 1];
      KeptAscending(p, before, common);
      KeptMembers(p, before, common);
      var kept := Kept(p, before, common);
      assert forall i :: 0 <= i < |kept| ==> kept[i] in kept && kept[i] in before;
    }
  }

  // What the whole listing means, without the machinery: the prefixes are those the names above the marker roll
  // up to, the objects are those that roll up to nothing, each once and in name order.
  lemma WholeListingMeaning(table: Table, p: ListParams)
    requires forall n :: n in table ==> table[n].name == n
    ensures Ascending(WholeListing(table, p).commonPrefixes)
    ensures forall e :: e in WholeListing(table, p).commonPrefixes <==>
      exists n :: n in table && RollsUpTo(p, n, e) && Less(p.marker, e)
    ensures
      var objects := WholeListing(table, p).objects;
      exists names :: Ascending(names) && |names| == |objects|
        && (forall i :: 0 <= i < |names| ==> names[i] in table && objects[i] == table[names[i]].IntoInfo())
        && (forall n :: n in names <==>
              n in table && p.prefix <= n && !RollsUp(p.prefix, p.delimiter, n) && Less(p.marker, n))
  {
    var all := AllEntries(table.Keys, p);
    NamesSorted(EntrySet(table.Keys, p));
    EntriesClassify(table.Keys, p);
    KeptMembers(p, all, true);
    KeptMembers(p, all, false);
    KeptAscending(p, all, true);
    KeptAscending(p, all, false);
    forall e ensures e in Kept(p, all, true) <==> exists n :: n in table && RollsUpTo(p, n, e) && Less(p.marker, e) {
      if n :| n in table && RollsUpTo(p, n, e) && Less(p.marker, e) {
        EntryStable(p.prefix, p.delimiter, n, e);
      }
      if e in Kept(p, all, true) {
        var n :| n in table && p.prefix <= n &&
            Less(p.marker, Entry(p.prefix, p.delimiter, n)) &&
            Entry(p.prefix, p.delimiter, n) == e;
        assert RollsUpTo(p, n, e);
      }
    }
    var names := Kept(p, all, false);
    forall i | 0 <= i < |names| ensures names[i] in table && Infos(table, names)[i] == table[names[i]].IntoInfo() {
      InfosAt(table, names, i);
    }
    forall n ensures n in names <==>
      n in table && p.prefix <= n && !RollsUp(p.prefix, p.delimiter, n) && Less(p.marker, n) {
      if n in names {
        var k :| k in table && p.prefix <= k &&
            Less(p.marker, Entry(p.prefix, p.delimiter, k)) &&
            Entry(p.prefix, p.delimiter, k) == n;
        if RollsUp(p.prefix, p.delimiter, k) { EntryStable(p.prefix, p.delimiter, k, n); }
      }
    }
  }

  ghost predicate RollsUpTo(p: ListParams, name: string, e: string) {
    RollsUp(p.prefix, p.delimiter, name) && Entry(p.prefix, p.delimiter, name) == e
  }

  // ------------------------------------------------------------- the S3 handlers

  // Where a request resumes: V1 has `marker`; in V2 the continuation token wins over `start-after`.
  datatype Query = V1(marker: Option<string>) | V2(token: Option<string>, startAfter: Option<string>) {
    function Marker(): string {
      match this
      case V1(Some(m)) => m
      case V2(Some(t), _) => t
      case V2(None, Some(s)) => s
      case _ => ""
    }

    // The client's next request, given the marker or token it was handed.
    function Follow(next: string): Query {
      match this
      case V1(_) => V1(Some(next))
      case V2(_, s) => V2(Some(next), s)
    }
  }

  // `Common::list`: `max-keys=0` never reaches the driver.
  function Handle(table: Table, prefix: string, delimiter: string, maxKeys: nat, q: Query): ListResult {
    if maxKeys == 0 then ListResult([], [], false, "")
    else Page(table, ListParams(prefix, delimiter, q.Marker(), maxKeys))
  }

  function ClientRun(table: Table, prefix: string, delimiter: string, maxKeys: nat, q: Query): Gathered
    decreases |AllEntries(table.Keys, ListParams(prefix, delimiter, q.Marker(), maxKeys))|
  {
    var res := Handle(table, prefix, delimiter, maxKeys, q);
    match NextMarker(res)
    case None => Gathered(res.objects, res.commonPrefixes)
    case Some(m) =>
      PageAdvances(table, ListParams(prefix, delimiter, q.Marker(), maxKeys));
      var rest := ClientRun(table, prefix, delimiter, maxKeys, q.Follow(m));
      Gathered(res.objects + rest.objects, res.commonPrefixes + rest.commonPrefixes)
  }

  // A client that pages with either version sees the whole listing after its marker, exactly when it did not ask
  // for pages of no keys (or nothing was there to see).
  lemma {:induction false} ClientSeesWholeListing(table: Table, prefix: string, delimiter: string,
                                                 maxKeys: nat, q: Query)
    ensures
      var p := ListParams(prefix, delimiter, q.Marker(), maxKeys);
      ClientRun(table, prefix, delimiter, maxKeys, q) == WholeListing(table, p)
      <==> maxKeys > 0 || AllEntries(table.Keys, p) == []
    decreases |AllEntries(table.Keys, ListParams(prefix, delimiter, q.Marker(), maxKeys))|
  {
    var p := ListParams(prefix, delimiter, q.Marker(), maxKeys);
    if maxKeys > 0 {
      RunIsWholeListing(table, p);
      if Page(table, p).isTruncated {
        PageAdvances(table, p);
        var m := Page(table, p).nextMarker;
        ClientSeesWholeListing(table, prefix, delimiter, maxKeys, q.Follow(m));
        RunIsWholeListing(table, p.(marker := m));
      }
    } else {
      KeptCounts(p, AllEntries(table.Keys, p));
    }
  }
}
