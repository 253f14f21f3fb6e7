// The object listing engine: one pass over sorted rows, and the runs of pages built on it.
module Listing {
  import opened Rgw
  import opened Order
  import opened Text
  import opened Entities

  datatype ListParams = ListParams(prefix: string, delimiter: string, marker: string, maxKeys: nat)

  datatype ListResult = ListResult(objects: seq<ObjectInfo>, commonPrefixes: seq<string>, isTruncated: bool,
                                   nextMarker: string)

  // The object rows of one bucket, by name.
  type Table = map<string, ObjectRow>

  // ------------------------------------------------------------- the specification: a sorted set of entries

  // The common prefix `name` collapses into: its text up to and including the first delimiter after the prefix.
  function CommonPrefix(prefix: string, delimiter: string, name: string): (r: Option<string>)
    requires prefix <= name
    ensures r.Some? ==> r.value <= name
  {
    if delimiter == "" then None
    else
      match Find(name[|prefix|..], delimiter)
      case None => None
      case Some(i) => Some(name[..|prefix| + i + |delimiter|])
  }

  predicate RollsUp(prefix: string, delimiter: string, name: string) {
    prefix <= name && CommonPrefix(prefix, delimiter, name).Some?
  }

  // What `name` is listed as.
  function Entry(prefix: string, delimiter: string, name: string): (e: string)
    ensures e <= name
  {
    if RollsUp(prefix, delimiter, name) then CommonPrefix(prefix, delimiter, name).value else name
  }

  // The distinct entries a bucket holding `names` lists after the marker.
  function EntrySet(names: set<string>, p: ListParams): set<string> {
    set n | n in names && p.prefix <= n && Less(p.marker, Entry(p.prefix, p.delimiter, n)) ::
      Entry(p.prefix, p.delimiter, n)
  }

  function AllEntries(names: set<string>, p: ListParams): seq<string> {
    SortedNames(EntrySet(names, p))
  }

  // The entries that are common prefixes, or those that are keys, in order.
  function Kept(p: ListParams, entries: seq<string>, common: bool): seq<string> {
    if entries == [] then []
    else
      var last, before := entries[|entries| - 1], Kept(p, entries[..|entries| - 1], common);
      if RollsUp(p.prefix, p.delimiter, last) == common then before + [last] else before
  }

  function Infos(table: Table, names: seq<string>): (r: seq<ObjectInfo>)
    requires forall n :: n in names ==> n in table
    ensures |r| == |names|
  {
    if names == [] then [] else Infos(table, names[..|names| - 1]) + [table[names[|names| - 1]].IntoInfo()]
  }

  function LastOr(s: seq<string>): string {
    if s == [] then "" else s[|s| - 1]
  }

  lemma {:induction false} KeptMembers(p: ListParams, entries: seq<string>, common: bool)
    ensures forall e :: e in Kept(p, entries, common) <==> e in entries && RollsUp(p.prefix, p.delimiter, e) == common
  {
    if entries != [] {
      KeptMembers(p, entries[..|entries| - 1], common);
    }
  }

  // The result that shows exactly these entries and stops there.
  function Showing(table: Table, p: ListParams, shown: seq<string>): ListResult
    requires forall e :: e in Kept(p, shown, false) ==> e in table
  {
    ListResult(Infos(table, Kept(p, shown, false)), Kept(p, shown, true), false, LastOr(shown))
  }

  // The page the contract promises: the first `max` entries after the marker.
  function Page(table: Table, p: ListParams): ListResult {
    var all := AllEntries(table.Keys, p);
    var max := PageSize(p.maxKeys);
    var shown := if |all| > max then all[..max] else all;
    EntriesClassify(table.Keys, p);
    NamesSorted(EntrySet(table.Keys, p));
    KeptMembers(p, shown, false);
    Showing(table, p, shown).(isTruncated := |all| > max)
  }

  // The rows the SQL of `list_objects` selects, in name order.
  function SelectedNames(names: set<string>, p: ListParams): seq<string> {
    SortedNames(set n | n in names && Less(p.marker, n) && AtMost(p.prefix, n) && p.prefix <= n)
  }

  lemma Selected(names: set<string>, p: ListParams)
    ensures Ascending(SelectedNames(names, p))
    ensures forall n :: n in SelectedNames(names, p) <==>
      n in names && Less(p.marker, n) && AtMost(p.prefix, n) && p.prefix <= n
  {
    NamesSorted(set n | n in names && Less(p.marker, n) && AtMost(p.prefix, n) && p.prefix <= n);
  }

  function Rows(table: Table, names: seq<string>): (r: seq<ObjectRow>)
    requires forall n :: n in names ==> n in table
    ensures |r| == |names| && forall i :: 0 <= i < |r| ==> r[i] == table[names[i]]
  {
    if names == [] then [] else Rows(table, names[..|names| - 1]) + [table[names[|names| - 1]]]
  }

  // ------------------------------------------------------------- roll-up lemmas

  lemma SameOccurrence(a: string, b: string, end: nat, k: nat, pat: string, j: nat)
    requires k + j + |pat| <= end <= |a| && end <= |b| && a[..end] == b[..end]
    ensures OccursAt(a[k..], pat, j) <==> OccursAt(b[k..], pat, j)
  {
    assert a[k..][j..][..|pat|] == a[..end][k + j..k + j + |pat|];
    assert b[k..][j..][..|pat|] == b[..end][k + j..k + j + |pat|];
    assert forall s: string :: pat <= s <==> |pat| <= |s| && s[..|pat|] == pat;
  }

  // A common prefix is decided by itself: every name that starts with it rolls up to it. The first delimiter of
  // the longer name cannot come earlier, even when the delimiter overlaps itself.
  lemma EntryStable(prefix: string, delimiter: string, a: string, b: string)
    requires RollsUp(prefix, delimiter, a) && Entry(prefix, delimiter, a) <= b
    ensures RollsUp(prefix, delimiter, b) && Entry(prefix, delimiter, b) == Entry(prefix, delimiter, a)
  {
    hide Find, OccursAt;
    var k := |prefix|;
    var i := Find(a[k..], delimiter).value;
    var e := Entry(prefix, delimiter, a);
    assert a[..|e|] == e == b[..|e|];
    forall j: nat | j <= i ensures OccursAt(b[k..], delimiter, j) <==> OccursAt(a[k..], delimiter, j) {
      SameOccurrence(a, b, |e|, k, delimiter, j);
    }
    FindIs(b[k..], delimiter, i);
    assert b[..k] == a[..k];
  }

  // A key entry is the name of an object; only common prefixes are made up.
  lemma EntriesClassify(names: set<string>, p: ListParams)
    ensures forall e :: e in EntrySet(names, p) && !RollsUp(p.prefix, p.delimiter, e) ==> e in names
  {
    forall n | n in names && RollsUp(p.prefix, p.delimiter, n)
      ensures RollsUp(p.prefix, p.delimiter, Entry(p.prefix, p.delimiter, n))
    {
      EntryStable(p.prefix, p.delimiter, n, Entry(p.prefix, p.delimiter, n));
    }
  }

  // Roll-up is monotone, so names that share a common prefix are contiguous in name order.
  lemma EntryMonotone(prefix: string, delimiter: string, a: string, b: string)
    requires prefix <= a && prefix <= b && AtMost(a, b)
    ensures AtMost(Entry(prefix, delimiter, a), Entry(prefix, delimiter, b))
  {
    LessLaws();
    var ea, eb := Entry(prefix, delimiter, a), Entry(prefix, delimiter, b);
    PrefixAtMost(ea, a);
    if a != b && RollsUp(prefix, delimiter, b) {
      if eb <= a {
        EntryStable(prefix, delimiter, b, a);
      } else {
        BelowPrefix(a, b, eb);
      }
    }
  }

  // The SQL filter loses no entry: an entry above the marker comes from a row above it.
  lemma SelectionKeepsEntries(names: set<string>, p: ListParams)
    ensures EntrySet(Elements(SelectedNames(names, p)), p) == EntrySet(names, p)
  {
    LessLaws();
    Selected(names, p);
    var chosen := Elements(SelectedNames(names, p));
    forall n | n in names && p.prefix <= n && Less(p.marker, Entry(p.prefix, p.delimiter, n)) ensures n in chosen {
      PrefixAtMost(Entry(p.prefix, p.delimiter, n), n);
      PrefixAtMost(p.prefix, n);
    }
  }

  function Elements(s: seq<string>): set<string> {
    set x | x in s
  }

  // After the first `i` rows the entries seen are an initial piece of all of them.
  lemma EntriesSoFar(names: seq<string>, i: nat, p: ListParams)
    requires i <= |names| && Ascending(names)
    ensures AllEntries(Elements(names), p)
         == AllEntries(Elements(names[..i]), p)
            + SortedNames(EntrySet(Elements(names), p) - EntrySet(Elements(names[..i]), p))
  {
    LessLaws();
    var seen, all := EntrySet(Elements(names[..i]), p), EntrySet(Elements(names), p);
    assert seen + (all - seen) == all;
    forall x, y | x in seen && y in all - seen ensures Less(x, y) {
      var k :| 0 <= k < i && p.prefix <= names[k] && Entry(p.prefix, p.delimiter, names[k]) == x;
      var n :| n in Elements(names) && p.prefix <= n && Entry(p.prefix, p.delimiter, n) == y;
      assert n !in names[..i];
      var j :| 0 <= j < |names| && names[j] == n;
      EntryMonotone(p.prefix, p.delimiter, names[k], names[j]);
    }
    NamesConcat(seen, all - seen);
  }

  // ------------------------------------------------------------- the pass

  // Everything shown so far is at most the next row's entry, and a key entry is new.
  lemma NextEntryOrder(names: seq<string>, i: nat, p: ListParams)
    requires i < |names| && Ascending(names) && p.prefix <= names[i]
    ensures
      var e := Entry(p.prefix, p.delimiter, names[i]);
      forall x :: x in EntrySet(Elements(names[..i]), p) ==>
        AtMost(x, e) && (x == e ==> RollsUp(p.prefix, p.delimiter, names[i]))
  {
    LessLaws();
    var e := Entry(p.prefix, p.delimiter, names[i]);
    forall n | n in names[..i] && p.prefix <= n
      ensures AtMost(Entry(p.prefix, p.delimiter, n), e)
      ensures Entry(p.prefix, p.delimiter, n) == e ==> RollsUp(p.prefix, p.delimiter, names[i])
    {
      EntryMonotone(p.prefix, p.delimiter, n, names[i]);
      if RollsUp(p.prefix, p.delimiter, n) && Entry(p.prefix, p.delimiter, n) == names[i] {
        EntryStable(p.prefix, p.delimiter, n, names[i]);
      }
    }
  }

  // The entries the specification shows for the rows before the i-th.
  function ShownBefore(names: seq<string>, p: ListParams, i: nat): seq<string>
    requires i <= |names|
  {
    AllEntries(Elements(names[..i]), p)
  }

  lemma AppendGreatest(before: set<string>, e: string)
    requires forall x :: x in before ==> Less(x, e)
    ensures SortedNames(before + {e}) == SortedNames(before) + [e]
  {
    NamesConcat(before, {e});
    NamesUnique([e], {e});
  }

  lemma NextEntrySet(names: seq<string>, i: nat, p: ListParams)
    requires i < |names|
    ensures
      var e := Entry(p.prefix, p.delimiter, names[i]);
      EntrySet(Elements(names[..i + 1]), p)
      == EntrySet(Elements(names[..i]), p) + (if p.prefix <= names[i] && Less(p.marker, e) then {e} else {})
  {
    assert Elements(names[..i + 1]) == Elements(names[..i]) + {names[i]};
  }

  // A row adds its entry at the end, unless the entry is shown already or at or below the marker.
  lemma NextEntry(names: seq<string>, i: nat, p: ListParams)
    requires i < |names| && Ascending(names)
    ensures
      var e := Entry(p.prefix, p.delimiter, names[i]);
      var shown := ShownBefore(names, p, i);
      ShownBefore(names, p, i + 1)
      == if !(p.prefix <= names[i]) || AtMost(e, p.marker) || e in shown then shown else shown + [e]
  {
    hide Less, SortedNames, EntrySet, Entry, RollsUp, CommonPrefix, Find;
    var e := Entry(p.prefix, p.delimiter, names[i]);
    var before := EntrySet(Elements(names[..i]), p);
    NamesSorted(before);
    NextEntrySet(names, i, p);
    LessExcludes(p.marker, e);
    if p.prefix <= names[i] && Less(p.marker, e) && e !in before {
      NextEntryOrder(names, i, p);
      AppendGreatest(before, e);
    } else {
      assert before + (if p.prefix <= names[i] && Less(p.marker, e) then {e} else {}) == before;
    }
  }

  // From `shown` before a row to `next` after it, in terms of that row's name alone.
  ghost predicate RowStep(p: ListParams, name: string, shown: seq<string>, next: seq<string>) {
    var e := Entry(p.prefix, p.delimiter, name);
    if !(p.prefix <= name) || AtMost(e, p.marker) || e in shown then
      next == shown &&
      (p.prefix <= name ==> RollsUp(p.prefix, p.delimiter, name) && forall x :: x in shown ==> AtMost(x, e))
    else
      next == shown + [e] && forall x :: x in shown ==> AtMost(x, e)
  }

  lemma RowStepHolds(table: Table, i: nat, p: ListParams)
    requires i < |SelectedNames(table.Keys, p)|
    ensures
      var names := SelectedNames(table.Keys, p);
      names[i] in table && RowStep(p, names[i], ShownBefore(names, p, i), ShownBefore(names, p, i + 1))
  {
    var names := SelectedNames(table.Keys, p);
    Selected(table.Keys, p);
    NamesSorted(EntrySet(Elements(names[..i]), p));
    assert names[i] in names;
    NextEntry(names, i, p);
    LessExcludes(p.marker, names[i]);
    if p.prefix <= names[i] {
      NextEntryOrder(names, i, p);
    }
  }

  // What the rows before the i-th show is an initial piece of what all rows show.
  lemma ShownIsInitial(table: Table, p: ListParams, i: nat)
    requires i <= |SelectedNames(table.Keys, p)|
    ensures
      var shown, all := ShownBefore(SelectedNames(table.Keys, p), p, i), AllEntries(table.Keys, p);
      |shown| <= |all| && shown == all[..|shown|] && (i == |SelectedNames(table.Keys, p)| ==> shown == all)
  {
    var names := SelectedNames(table.Keys, p);
    SelectionKeepsEntries(table.Keys, p);
    Selected(table.Keys, p);
    EntriesSoFar(names, i, p);
    if i == |names| {
      assert names[..i] == names;
    }
  }

  lemma KeptSnoc(p: ListParams, entries: seq<string>, e: string, common: bool)
    ensures Kept(p, entries + [e], common)
         == if RollsUp(p.prefix, p.delimiter, e) == common then Kept(p, entries, common) + [e]
            else Kept(p, entries, common)
  {
    assert (entries + [e])[..|entries|] == entries;
  }

  // The one comparison the pass makes: `last` is the greatest common prefix shown.
  ghost predicate LastPrefixOf(p: ListParams, shown: seq<string>, last: Option<string>) {
    && (last.Some? ==> last.value in shown)
    && (forall e :: e in shown && RollsUp(p.prefix, p.delimiter, e) ==> last.Some? && AtMost(e, last.value))
  }

  lemma KeptCounts(p: ListParams, shown: seq<string>)
    ensures |shown| == |Kept(p, shown, false)| + |Kept(p, shown, true)|
  {
  }

  // Appending one new entry to what is shown.
  lemma Show(table: Table, p: ListParams, shown: seq<string>, e: string)
    requires forall x :: x in Kept(p, shown, false) ==> x in table
    requires !RollsUp(p.prefix, p.delimiter, e) ==> e in table
    ensures forall x :: x in Kept(p, shown + [e], false) ==> x in table
    ensures
      var out, next := Showing(table, p, shown), Showing(table, p, shown + [e]);
      next == if RollsUp(p.prefix, p.delimiter, e)
              then out.(commonPrefixes := out.commonPrefixes + [e], nextMarker := e)
              else out.(objects := out.objects + [table[e].IntoInfo()], nextMarker := e)
  {
    KeptSnoc(p, shown, e, true);
    KeptSnoc(p, shown, e, false);
    var keys := Kept(p, shown, false);
    assert (keys + [e])[..|keys|] == keys;
  }

  // ------------------------------------------------------------- the pass, row by row

  datatype Pass = Pass(out: ListResult, lastPrefix: Option<string>)

  function RowPass(p: ListParams, row: ObjectRow, s: Pass): Pass {
    if s.out.isTruncated || !(p.prefix <= row.name) then s
    else
      var common := CommonPrefix(p.prefix, p.delimiter, row.name);
      if common.Some? && (s.lastPrefix == common || AtMost(common.value, p.marker)) then s
      else if |s.out.objects| + |s.out.commonPrefixes| >= PageSize(p.maxKeys) then
        s.(out := s.out.(isTruncated := true))
      else
        match common
        case Some(cp) => Pass(s.out.(nextMarker := cp, commonPrefixes := s.out.commonPrefixes + [cp]), Some(cp))
        case None => s.(out := s.out.(nextMarker := row.name, objects := s.out.objects + [row.IntoInfo()]))
  }

  function PassOver(p: ListParams, rows: seq<ObjectRow>): Pass {
    if rows == [] then Pass(ListResult([], [], false, ""), None)
    else RowPass(p, rows[|rows| - 1], PassOver(p, rows[..|rows| - 1]))
  }

  lemma {:induction false} TruncationEndsPass(p: ListParams, rows: seq<ObjectRow>, i: nat)
    requires i <= |rows| && PassOver(p, rows[..i]).out.isTruncated
    ensures PassOver(p, rows) == PassOver(p, rows[..i])
  {
    if i == |rows| {
      assert rows[..i] == rows;
    } else {
      assert rows[..|rows| - 1][..i] == rows[..i];
      TruncationEndsPass(p, rows[..|rows| - 1], i);
    }
  }

  // `list_page`: over rows in name order, one comparison with the last common prefix is all it remembers.
  method ListPage(rows: seq<ObjectRow>, params: ListParams) returns (out: ListResult)
    ensures out == PassOver(params, rows).out
  {
    hide Find, AtMost, PageSize;
    var max := PageSize(params.maxKeys);
    out := ListResult([], [], false, "");
    var lastPrefix := None;
    for i := 0 to |rows|
      invariant Pass(out, lastPrefix) == PassOver(params, rows[..i])
      invariant !out.isTruncated
    {
      var row := rows[i];
      assert rows[..i + 1][..i] == rows[..i];
      if !(params.prefix <= row.name) {
        continue;
      }
      var rest := row.name[|params.prefix|..];
      var common :=
        if params.delimiter == "" then None
        else
          match Find(rest, params.delimiter)
          case None => None
          case Some(i) => Some(row.name[..|params.prefix| + i + |params.delimiter|]);
      if common.Some? && (lastPrefix == common || AtMost(common.value, params.marker)) {
        continue;
      }
      if |out.objects| + |out.commonPrefixes| >= max {
        out := out.(isTruncated := true);
        TruncationEndsPass(params, rows, i + 1);
        return;
      }
      match common {
        case Some(cp) =>
          out := out.(nextMarker := cp, commonPrefixes := out.commonPrefixes + [cp]);
          lastPrefix := Some(cp);
        case None =>
          out := out.(nextMarker := row.name, objects := out.objects + [row.IntoInfo()]);
      }
    }
    assert rows[..|rows|] == rows;
  }

  // The pass shows what the specification shows, until the page is full.
  ghost predicate PassAgrees(table: Table, p: ListParams, shown: seq<string>, s: Pass) {
    var max := PageSize(p.maxKeys);
    var page := if |shown| > max then shown[..max] else shown;
    && (forall e :: e in Kept(p, page, false) ==> e in table)
    && s.out == Showing(table, p, page).(isTruncated := |shown| > max)
    && (|shown| <= max ==> LastPrefixOf(p, shown, s.lastPrefix))
  }

  // The pass on a row that adds the entry `e`.
  function Emitted(p: ListParams, row: ObjectRow, s: Pass, e: string): Pass {
    if |s.out.objects| + |s.out.commonPrefixes| >= PageSize(p.maxKeys) then s.(out := s.out.(isTruncated := true))
    else if RollsUp(p.prefix, p.delimiter, e) then
      Pass(s.out.(nextMarker := e, commonPrefixes := s.out.commonPrefixes + [e]), Some(e))
    else s.(out := s.out.(nextMarker := e, objects := s.out.objects + [row.IntoInfo()]))
  }

  lemma NewEntry(p: ListParams, row: ObjectRow, shown: seq<string>, s: Pass)
    requires RowStep(p, row.name, shown, shown + [Entry(p.prefix, p.delimiter, row.name)])
    requires LastPrefixOf(p, shown, s.lastPrefix) && !s.out.isTruncated
    ensures
      var e := Entry(p.prefix, p.delimiter, row.name);
      && RowPass(p, row, s) == Emitted(p, row, s, e)
      && (!RollsUp(p.prefix, p.delimiter, e) ==> e == row.name)
  {
    hide Less, Find, PageSize;
    var e := Entry(p.prefix, p.delimiter, row.name);
    assert |shown + [e]| != |shown|;
    if RollsUp(p.prefix, p.delimiter, row.name) {
      EntryStable(p.prefix, p.delimiter, row.name, e);
    }
  }

  lemma LastPrefixGrows(p: ListParams, shown: seq<string>, e: string, last: Option<string>)
    requires LastPrefixOf(p, shown, last) && forall x :: x in shown ==> AtMost(x, e)
    ensures LastPrefixOf(p, shown + [e], if RollsUp(p.prefix, p.delimiter, e) then Some(e) else last)
  {
    hide RollsUp, Less;
  }

  lemma RowPassAgrees(table: Table, p: ListParams, row: ObjectRow, shown: seq<string>, next: seq<string>, s: Pass)
    requires row.name in table && table[row.name] == row
    requires RowStep(p, row.name, shown, next) && PassAgrees(table, p, shown, s)
    ensures PassAgrees(table, p, next, RowPass(p, row, s))
  {
    hide RowPass, PageSize, AtMost, Entry, RollsUp, Kept, Infos, LastPrefixOf;
    var e := Entry(p.prefix, p.delimiter, row.name);
    var max := PageSize(p.maxKeys);
    if |shown| > max {
      assert next[..max] == shown[..max];
      TruncatedStays(p, row, s);
    } else if next == shown {
      RowEntryRolls(p, row.name);
      NothingNew(p, row, shown, s);
    } else {
      NewEntry(p, row, shown, s);
      LastPrefixGrows(p, shown, e, s.lastPrefix);
      KeptCounts(p, shown);
      assert |s.out.objects| + |s.out.commonPrefixes| == |shown|;
      if |shown| == max {
        assert next[..max] == shown;
      } else {
        Show(table, p, shown, e);
      }
    }
  }

  lemma TruncatedStays(p: ListParams, row: ObjectRow, s: Pass)
    requires s.out.isTruncated
    ensures RowPass(p, row, s) == s
  {
  }

  lemma RowEntryRolls(p: ListParams, name: string)
    ensures RollsUp(p.prefix, p.delimiter, name) ==> RollsUp(p.prefix, p.delimiter, Entry(p.prefix, p.delimiter, name))
  {
    if RollsUp(p.prefix, p.delimiter, name) {
      EntryStable(p.prefix, p.delimiter, name, Entry(p.prefix, p.delimiter, name));
    }
  }

  // Remembering only the last common prefix is enough to recognise every row that adds nothing.
  lemma NothingNew(p: ListParams, row: ObjectRow, shown: seq<string>, s: Pass)
    requires RowStep(p, row.name, shown, shown) && LastPrefixOf(p, shown, s.lastPrefix)
    requires RollsUp(p.prefix, p.delimiter, row.name) ==>
      RollsUp(p.prefix, p.delimiter, Entry(p.prefix, p.delimiter, row.name))
    ensures RowPass(p, row, s) == s
  {
    var e := Entry(p.prefix, p.delimiter, row.name);
    if p.prefix <= row.name && !AtMost(e, p.marker) && s.lastPrefix.Some? {
      LessExcludes(e, s.lastPrefix.value);
    }
  }

  lemma {:induction false} PassAgreesUpTo(table: Table, p: ListParams, rows: seq<ObjectRow>, i: nat)
    requires forall n :: n in table ==> table[n].name == n
    requires i <= |rows| == |SelectedNames(table.Keys, p)|
    requires forall k :: 0 <= k < i ==>
      rows[k].name == SelectedNames(table.Keys, p)[k] && rows[k].name in table && table[rows[k].name] == rows[k]
    ensures PassAgrees(table, p, ShownBefore(SelectedNames(table.Keys, p), p, i), PassOver(p, rows[..i]))
  {
    hide SelectedNames, RowPass, RowStep, Entry, RollsUp, CommonPrefix, Less;
    var names := SelectedNames(table.Keys, p);
    if i == 0 {
      assert ShownBefore(names, p, 0) == [] by { NamesSorted(EntrySet(Elements(names[..0]), p)); }
    } else {
      PassAgreesUpTo(table, p, rows, i - 1);
      RowStepHolds(table, i - 1, p);
      assert rows[..i][..i - 1] == rows[..i - 1];
      RowPassAgrees(table, p, rows[i - 1], ShownBefore(names, p, i - 1), ShownBefore(names, p, i),
                    PassOver(p, rows[..i - 1]));
    }
  }

  // The rows the query of `list_objects` yields.
  function QueryRows(table: Table, p: ListParams): seq<ObjectRow> {
    Selected(table.Keys, p);
    Rows(table, SelectedNames(table.Keys, p))
  }

  // One pass over the query's rows is the page the contract promises: the first `max` of the distinct rolled-up
  // entries after the marker, `is_truncated` exactly when there are more, `next_marker` the last entry shown.
  lemma PassIsPage(table: Table, p: ListParams)
    requires forall n :: n in table ==> table[n].name == n
    ensures PassOver(p, QueryRows(table, p)).out == Page(table, p)
  {
    hide SelectedNames, RowPass, PassOver, Entry, RollsUp, CommonPrefix, EntrySet, Less, Infos, Kept;
    var names, rows := SelectedNames(table.Keys, p), QueryRows(table, p);
    Selected(table.Keys, p);
    assert forall k :: 0 <= k < |names| ==> names[k] in names;
    PassAgreesUpTo(table, p, rows, |rows|);
    assert rows[..|rows|] == rows;
    ShownIsInitial(table, p, |rows|);
  }
}
