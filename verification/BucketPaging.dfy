// Paging over buckets with the name alone as marker: what a whole run returns, and exactly when that is everything.
module BucketPaging {
  import opened Order
  import opened Entities
  import opened Tables

  // The rows after a marker: ORDER BY name, tenant.
  function RowsAfter(keys: set<Pair>, marker: string): seq<Pair> {
    SortedPairs(NamesAbove(keys, marker))
  }

  // Following the next marker, `max` rows at a time, until a page is not truncated.
  function Pages(keys: set<Pair>, marker: string, max: nat): seq<Pair>
    requires max > 0
    decreases |RowsAfter(keys, marker)|
  {
    var rows := RowsAfter(keys, marker);
    if |rows| <= max then rows
    else
      NextRows(keys, marker, max);
      rows[..max] + Pages(keys, rows[max - 1].0, max)
  }

  // No two rows on either side of a page boundary share their name.
  predicate CleanBoundaries(rows: seq<Pair>, max: nat)
    requires max > 0
    decreases |rows|
  {
    |rows| <= max || (rows[max - 1].0 != rows[max].0 && CleanBoundaries(rows[max..], max))
  }

  lemma {:induction false} CoveredSize(a: set<Pair>, s: seq<Pair>)
    requires forall x :: x in a ==> x in s
    ensures |a| <= |s|
  {
    if s != [] {
      forall x | x in a - {s[0]} ensures x in s[1..] {
        assert s == [s[0]] + s[1..];
      }
      CoveredSize(a - {s[0]}, s[1..]);
    }
  }

  // Rows before the i-th are not above its predecessor's name; the later ones are not below it.
  lemma AroundBoundary(rows: seq<Pair>, i: nat, j: nat)
    requires AscendingPairs(rows) && 0 < i <= |rows| && j < |rows|
    ensures j < i ==> !Less(rows[i - 1].0, rows[j].0)
    ensures i <= j ==> AtMost(rows[i - 1].0, rows[j].0)
    ensures i <= j && rows[i].0 != rows[i - 1].0 ==> Less(rows[i - 1].0, rows[j].0)
  {
    var m := rows[i - 1].0;
    LessExcludes(m, rows[j].0);
    LessIrreflexive(m);
    if i < j {
      assert PairLess(rows[i - 1], rows[i]) && PairLess(rows[i], rows[j]);
      if Less(m, rows[i].0) && Less(rows[i].0, rows[j].0) {
        LessTransitive(m, rows[i].0, rows[j].0);
      }
    }
  }

  lemma Located(keys: set<Pair>, marker: string, i: nat, k: Pair) returns (j: nat)
    requires 0 < i <= |RowsAfter(keys, marker)| && k in NamesAbove(keys, RowsAfter(keys, marker)[i - 1].0)
    ensures i <= j < |RowsAfter(keys, marker)| && RowsAfter(keys, marker)[j] == k
  {
    var rows := RowsAfter(keys, marker);
    PairsSorted(NamesAbove(keys, marker));
    assert rows[i - 1] in rows;
    LessTransitive(marker, rows[i - 1].0, k.0);
    hide Less, AscendingPairs;
    assert k in rows;
    j :| 0 <= j < |rows| && rows[j] == k;
    AroundBoundary(rows, i, j);
  }

  lemma AscendingTail(rows: seq<Pair>, i: nat)
    requires AscendingPairs(rows) && i <= |rows|
    ensures AscendingPairs(rows[i..])
  {
  }

  lemma RowsSorted(keys: set<Pair>, marker: string)
    ensures AscendingPairs(RowsAfter(keys, marker)) && |RowsAfter(keys, marker)| == |NamesAbove(keys, marker)|
    ensures forall k :: k in RowsAfter(keys, marker) <==> k in keys && Less(marker, k.0)
  {
    hide Less, AscendingPairs;
    PairsSorted(NamesAbove(keys, marker));
  }

  // The boundary falls inside a name: what comes after that name is less than what is left.
  lemma NextRowsSkip(keys: set<Pair>, marker: string, i: nat)
    requires 0 < i < |RowsAfter(keys, marker)| && RowsAfter(keys, marker)[i].0 == RowsAfter(keys, marker)[i - 1].0
    ensures |RowsAfter(keys, RowsAfter(keys, marker)[i - 1].0)| < |RowsAfter(keys, marker)| - i
  {
    hide Less, AscendingPairs, RowsAfter;
    var rows := RowsAfter(keys, marker);
    var m := rows[i - 1].0;
    RowsSorted(keys, m);
    LessIrreflexive(m);
    var next := NamesAbove(keys, m);
    forall k | k in next ensures k in rows[i + 1..] {
      var j := Located(keys, marker, i, k);
      assert rows[i + 1..][j - i - 1] == k;
    }
    CoveredSize(next, rows[i + 1..]);
  }

  // The boundary falls between names: what comes after is what is left.
  lemma NextRowsRest(keys: set<Pair>, marker: string, i: nat)
    requires 0 < i <= |RowsAfter(keys, marker)|
    requires i == |RowsAfter(keys, marker)| || RowsAfter(keys, marker)[i].0 != RowsAfter(keys, marker)[i - 1].0
    ensures RowsAfter(keys, RowsAfter(keys, marker)[i - 1].0) == RowsAfter(keys, marker)[i..]
  {
    hide Less, AscendingPairs, SortedPairs;
    var rows := RowsAfter(keys, marker);
    var m := rows[i - 1].0;
    RowsSorted(keys, marker);
    AscendingTail(rows, i);
    var next := NamesAbove(keys, m);
    forall k | k in next ensures k in rows[i..] {
      var j := Located(keys, marker, i, k);
      assert rows[i..][j - i] == k;
    }
    forall j | 0 <= j < |rows| - i ensures rows[i..][j] in next {
      AroundBoundary(rows, i, i + j);
      assert rows[i + j] in rows;
    }
    PairsUnique(rows[i..], next);
  }

  // The rows after the name of the i-th: the remaining ones, less those that share that name.
  lemma NextRows(keys: set<Pair>, marker: string, i: nat)
    requires 0 < i <= |RowsAfter(keys, marker)|
    ensures
      var rows := RowsAfter(keys, marker);
      var next := RowsAfter(keys, rows[i - 1].0);
      && Less(marker, rows[i - 1].0)
      && (if i < |rows| && rows[i].0 == rows[i - 1].0 then |next| < |rows| - i else next == rows[i..])
  {
    hide Less, AscendingPairs, RowsAfter;
    var rows := RowsAfter(keys, marker);
    RowsSorted(keys, marker);
    assert rows[i - 1] in rows;
    if i < |rows| && rows[i].0 == rows[i - 1].0 {
      NextRowsSkip(keys, marker, i);
    } else {
      NextRowsRest(keys, marker, i);
    }
  }

  lemma {:induction false} PagesMembers(keys: set<Pair>, marker: string, max: nat)
    requires max > 0
    ensures forall k :: k in Pages(keys, marker, max) ==> k in keys && Less(marker, k.0)
    decreases |RowsAfter(keys, marker)|
  {
    var rows := RowsAfter(keys, marker);
    PairsSorted(NamesAbove(keys, marker));
    hide AscendingPairs, SortedPairs, Less;
    assert forall k :: k in rows ==> k in keys && Less(marker, k.0);
    if |rows| > max {
      var m := rows[max - 1].0;
      NextRows(keys, marker, max);
      PagesMembers(keys, m, max);
      forall k | k in Pages(keys, m, max) ensures Less(marker, k.0) {
        LessTransitive(marker, m, k.0);
      }
      assert Pages(keys, marker, max) == rows[..max] + Pages(keys, m, max);
    }
  }

  // A run never shows a row twice, and shows rows in order.
  lemma {:induction false} PagesAscend(keys: set<Pair>, marker: string, max: nat)
    requires max > 0
    ensures AscendingPairs(Pages(keys, marker, max))
    decreases |RowsAfter(keys, marker)|
  {
    var rows := RowsAfter(keys, marker);
    PairsSorted(NamesAbove(keys, marker));
    hide SortedPairs, Less;
    if |rows| > max {
      var m := rows[max - 1].0;
      NextRows(keys, marker, max);
      PagesMembers(keys, m, max);
      PagesAscend(keys, m, max);
      var shown, rest := rows[..max], Pages(keys, m, max);
      forall i, j | 0 <= i < max && 0 <= j < |rest| ensures PairLess(shown[i], rest[j]) {
        AroundBoundary(rows, max, i);
        assert rest[j] in rest && Less(m, rest[j].0);
        LessTotal(shown[i].0, m);
        if Less(shown[i].0, m) { LessTransitive(shown[i].0, m, rest[j].0); }
      }
      assert Pages(keys, marker, max) == shown + rest;
    }
  }

  lemma {:induction false} PagesFit(keys: set<Pair>, marker: string, max: nat)
    requires max > 0
    ensures |Pages(keys, marker, max)| <= |RowsAfter(keys, marker)|
    decreases |RowsAfter(keys, marker)|
  {
    var rows := RowsAfter(keys, marker);
    if |rows| > max {
      NextRows(keys, marker, max);
      PagesFit(keys, rows[max - 1].0, max);
    }
  }

  // A run returns every row exactly when no page boundary falls between two rows of the same name; otherwise it
  // loses some.
  lemma {:induction false} RunComplete(keys: set<Pair>, marker: string, max: nat)
    requires max > 0
    ensures Pages(keys, marker, max) == RowsAfter(keys, marker) <==> CleanBoundaries(RowsAfter(keys, marker), max)
    decreases |RowsAfter(keys, marker)|
  {
    hide RowsAfter;
    var rows := RowsAfter(keys, marker);
    if |rows| > max {
      NextRows(keys, marker, max);
      var m := rows[max - 1].0;
      PagesFit(keys, m, max);
      if rows[max].0 != m {
        RunComplete(keys, m, max);
        assert rows == rows[..max] + rows[max..];
        if rows[..max] + Pages(keys, m, max) == rows {
          assert (rows[..max] + Pages(keys, m, max))[max..] == Pages(keys, m, max);
        }
      }
    }
  }

  // The j-th boundary, if there is one, falls between two names.
  predicate CleanAt(rows: seq<Pair>, j: nat) {
    0 < j && j * 1000 < |rows| ==> rows[j * 1000 - 1].0 != rows[j * 1000].0
  }

  lemma CleanAtLater(rows: seq<Pair>, j: nat)
    requires |rows| > 1000 && j > 0
    ensures CleanAt(rows[1000..], j) <==> CleanAt(rows, j + 1)
  {
    if j * 1000 < |rows| - 1000 {
      assert rows[1000..][j * 1000 - 1] == rows[(j + 1) * 1000 - 1];
      assert rows[1000..][j * 1000] == rows[(j + 1) * 1000];
    }
  }

  // With the default page size the boundaries are at 1000, 2000, and so on.
  lemma {:induction false} CleanMeaning(rows: seq<Pair>)
    ensures CleanBoundaries(rows, DEFAULT_MAX_ENTRIES) <==> forall j: nat :: CleanAt(rows, j)
    decreases |rows|
  {
    if |rows| > 1000 {
      var rest := rows[1000..];
      CleanMeaning(rest);
      FirstBoundary(rows);
      hide CleanAt, CleanBoundaries;
      if CleanAt(rows, 1) && forall j: nat :: CleanAt(rest, j) {
        forall j: nat ensures CleanAt(rows, j) {
          if j > 1 { CleanAtLater(rows, j - 1); } else if j == 0 { NoBoundary(rows); }
        }
      }
      if forall j: nat :: CleanAt(rows, j) {
        forall j: nat ensures CleanAt(rest, j) {
          if j > 0 { CleanAtLater(rows, j); } else { NoBoundary(rest); }
        }
      }
    }
  }

  lemma FirstBoundary(rows: seq<Pair>)
    requires |rows| > 1000
    ensures CleanBoundaries(rows, DEFAULT_MAX_ENTRIES)
      <==> CleanAt(rows, 1) && CleanBoundaries(rows[1000..], DEFAULT_MAX_ENTRIES)
  {
  }

  lemma NoBoundary(rows: seq<Pair>)
    ensures CleanAt(rows, 0)
  {
  }

  // Distinct names, as S3 creation guarantees, leave every boundary clean.
  ghost predicate DistinctNames(keys: set<Pair>) {
    forall a, b :: a in keys && b in keys && a.0 == b.0 ==> a == b
  }

  lemma {:induction false} DistinctNamesAreClean(rows: seq<Pair>, max: nat)
    requires max > 0 && forall i, j :: 0 <= i < j < |rows| ==> rows[i].0 != rows[j].0
    ensures CleanBoundaries(rows, max)
    decreases |rows|
  {
    if |rows| > max {
      DistinctNamesAreClean(rows[max..], max);
    }
  }

  lemma NotBelowItself(a: Pair)
    ensures !PairLess(a, a)
  {
    PairLessLaws();
  }

  // With distinct non-empty names a run from the start returns exactly the keys, in name order.
  lemma DistinctRunComplete(keys: set<Pair>)
    requires DistinctNames(keys) && forall k :: k in keys ==> k.0 != ""
    ensures Pages(keys, "", DEFAULT_MAX_ENTRIES) == SortedPairs(keys)
  {
    hide Pages, SortedPairs, CleanBoundaries, PairLess;
    var rows := RowsAfter(keys, "");
    assert NamesAbove(keys, "") == keys;
    PairsSorted(keys);
    forall i, j | 0 <= i < j < |rows| ensures rows[i].0 != rows[j].0 {
      assert rows[i] in rows && rows[j] in rows;
      assert PairLess(rows[i], rows[j]);
      NotBelowItself(rows[i]);
    }
    DistinctNamesAreClean(rows, DEFAULT_MAX_ENTRIES);
    RunComplete(keys, "", DEFAULT_MAX_ENTRIES);
  }

  // A run from the start shows every key exactly when the boundaries are clean and no key has the empty name.
  lemma ListedIsAll(keys: set<Pair>)
    ensures (forall k :: k in keys ==> k in Pages(keys, "", DEFAULT_MAX_ENTRIES))
      <==> CleanBoundaries(RowsAfter(keys, ""), DEFAULT_MAX_ENTRIES) && forall k :: k in keys ==> k.0 != ""
  {
    hide Pages, AscendingPairs, CleanBoundaries;
    var all, rows := Pages(keys, "", DEFAULT_MAX_ENTRIES), RowsAfter(keys, "");
    PagesMembers(keys, "", DEFAULT_MAX_ENTRIES);
    PagesAscend(keys, "", DEFAULT_MAX_ENTRIES);
    PairsSorted(NamesAbove(keys, ""));
    RunComplete(keys, "", DEFAULT_MAX_ENTRIES);
    if forall k :: k in keys ==> k in all {
      assert NamesAbove(keys, "") == keys;
      AscendingUnique(all, rows);
    }
  }

  // ------------------------------------------------------------- stopping early

  // Pages until at least `limit` rows are in hand.
  function PagesUpTo(keys: set<Pair>, marker: string, max: nat, limit: int): seq<Pair>
    requires max > 0
    decreases |RowsAfter(keys, marker)|
  {
    var rows := RowsAfter(keys, marker);
    if |rows| <= max then rows
    else if max >= limit then rows[..max]
    else
      NextRows(keys, marker, max);
      rows[..max] + PagesUpTo(keys, rows[max - 1].0, max, limit - max)
  }

  // Stopping early never changes the answer to "at least `limit`?".
  lemma {:induction false} UpToCounts(keys: set<Pair>, marker: string, max: nat, limit: int)
    requires max > 0
    ensures |PagesUpTo(keys, marker, max, limit)| >= limit <==> |Pages(keys, marker, max)| >= limit
    decreases |RowsAfter(keys, marker)|
  {
    var rows := RowsAfter(keys, marker);
    if |rows| > max && max < limit {
      NextRows(keys, marker, max);
      UpToCounts(keys, rows[max - 1].0, max, limit - max);
    }
  }
}
