// The bytewise order on strings and on pairs of strings, and the sorted enumeration of a set (ORDER BY).
module Order {
  // Bytewise order, as Rust compares strings and SQLite's BINARY collation compares TEXT.
  predicate Less(a: string, b: string) {
    b != [] && (a == [] || a[0] < b[0] || (a[0] == b[0] && Less(a[1..], b[1..])))
  }

  predicate AtMost(a: string, b: string) {
    a == b || Less(a, b)
  }

  // At the first place where they differ the lower one ends or has the lower byte.
  ghost predicate DiffersBelow(a: string, b: string, k: nat) {
    k <= |a| && k < |b| && a[..k] == b[..k] && (k == |a| || a[k] < b[k])
  }

  lemma {:induction false} LessIs(a: string, b: string)
    ensures Less(a, b) <==> exists k: nat :: DiffersBelow(a, b, k)
  {
    if a != [] && b != [] && a[0] == b[0] {
      LessIs(a[1..], b[1..]);
      if Less(a, b) {
        var k: nat :| DiffersBelow(a[1..], b[1..], k);
        assert a[..k + 1] == [a[0]] + a[1..][..k] && b[..k + 1] == [b[0]] + b[1..][..k];
        assert DiffersBelow(a, b, k + 1);
      }
      if k: nat :| DiffersBelow(a, b, k) {
        assert k > 0;
        assert a[1..][..k - 1] == a[..k][1..] && b[1..][..k - 1] == b[..k][1..];
        assert DiffersBelow(a[1..], b[1..], k - 1);
      }
    } else if Less(a, b) {
      assert DiffersBelow(a, b, 0);
    }
  }

  // Two columns: (name, tenant) or (name, value), the first one deciding.
  type Pair = (string, string)

  predicate PairLess(a: Pair, b: Pair) {
    Less(a.0, b.0) || (a.0 == b.0 && Less(a.1, b.1))
  }

  // ------------------------------------------------------------- both orders are strict and total

  lemma {:induction false} LessIrreflexive(a: string)
    ensures !Less(a, a)
  {
    if a != [] { LessIrreflexive(a[1..]); }
  }

  lemma {:induction false} LessTransitive(a: string, b: string, c: string)
    requires Less(a, b) && Less(b, c)
    ensures Less(a, c)
  {
    if a != [] && a[0] == b[0] && b[0] == c[0] {
      LessTransitive(a[1..], b[1..], c[1..]);
    }
  }

  lemma {:induction false} LessTotal(a: string, b: string)
    ensures a == b || Less(a, b) || Less(b, a)
  {
    if a != [] && b != [] && a[0] == b[0] {
      LessTotal(a[1..], b[1..]);
      assert a == [a[0]] + a[1..] && b == [b[0]] + b[1..];
    }
  }

  // `a < b` and `b <= a` are opposites.
  lemma LessExcludes(a: string, b: string)
    ensures Less(a, b) <==> !AtMost(b, a)
  {
    LessTotal(a, b);
    LessIrreflexive(a);
    if Less(a, b) && Less(b, a) {
      LessTransitive(a, b, a);
    }
  }

  lemma LessLaws()
    ensures forall x: string :: !Less(x, x)
    ensures forall x, y, z :: Less(x, y) && Less(y, z) ==> Less(x, z)
    ensures forall x, y :: x == y || Less(x, y) || Less(y, x)
  {
    forall x: string ensures !Less(x, x) { LessIrreflexive(x); }
    forall x, y, z | Less(x, y) && Less(y, z) ensures Less(x, z) { LessTransitive(x, y, z); }
    forall x, y ensures x == y || Less(x, y) || Less(y, x) { LessTotal(x, y); }
  }

  lemma PairLessLaws()
    ensures forall x: Pair :: !PairLess(x, x)
    ensures forall x, y, z :: PairLess(x, y) && PairLess(y, z) ==> PairLess(x, z)
    ensures forall x, y :: x == y || PairLess(x, y) || PairLess(y, x)
  {
    LessLaws();
  }

  // ------------------------------------------------------------- prefixes

  lemma {:induction false} PrefixAtMost(p: string, s: string)
    requires p <= s
    ensures AtMost(p, s)
  {
    if p != [] && p != s {
      assert p[1..] <= s[1..] && p[1..] != s[1..] by { assert p == [p[0]] + p[1..] && s == [s[0]] + s[1..]; }
      PrefixAtMost(p[1..], s[1..]);
    }
  }

  // A string below `b` that does not start with b's prefix `p` is already below `p`.
  lemma {:induction false} BelowPrefix(a: string, b: string, p: string)
    requires Less(a, b) && p <= b && !(p <= a)
    ensures Less(a, p)
  {
    if a != [] && a[0] == b[0] {
      assert a == [a[0]] + a[1..] && p == [p[0]] + p[1..];
      BelowPrefix(a[1..], b[1..], p[1..]);
    }
  }

  // ------------------------------------------------------------- sets of pairs in order

  ghost predicate AscendingPairs(s: seq<Pair>) {
    forall i, j :: 0 <= i < j < |s| ==> PairLess(s[i], s[j])
  }

  ghost predicate IsLeast(s: set<Pair>, m: Pair) {
    m in s && forall x :: x in s ==> x == m || PairLess(m, x)
  }

  lemma {:induction false} LeastExists(s: set<Pair>)
    requires s != {}
    ensures exists m :: IsLeast(s, m)
  {
    PairLessLaws();
    var y :| y in s;
    if s == {y} {
      assert IsLeast(s, y);
    } else {
      LeastExists(s - {y});
      var m :| IsLeast(s - {y}, m);
      assert IsLeast(s, if PairLess(y, m) then y else m);
    }
  }

  function SortedPairs(s: set<Pair>): seq<Pair> {
    if s == {} then []
    else
      LeastExists(s);
      PairLessLaws();
      var m :| m in s && forall x :: x in s ==> x == m || PairLess(m, x);
      [m] + SortedPairs(s - {m})
  }

  // The enumeration starts with the least element.
  lemma SortedFirst(s: set<Pair>) returns (m: Pair)
    requires s != {}
    ensures IsLeast(s, m) && SortedPairs(s) == [m] + SortedPairs(s - {m})
  {
    hide PairLess;
    LeastExists(s);
    m :| m in s && SortedPairs(s) == [m] + SortedPairs(s - {m}) && IsLeast(s, m);
  }

  lemma LeastFirst(s: set<Pair>, m: Pair, r: seq<Pair>)
    requires IsLeast(s, m) && AscendingPairs(r) && forall x :: x in r <==> x in s - {m}
    ensures AscendingPairs([m] + r) && forall x :: x in [m] + r <==> x in s
  {
    hide PairLess;
    assert forall j :: 0 <= j < |r| ==> r[j] in r;
  }

  lemma {:induction false} PairsSorted(s: set<Pair>)
    ensures AscendingPairs(SortedPairs(s)) && |SortedPairs(s)| == |s|
    ensures forall x :: x in SortedPairs(s) <==> x in s
    decreases s
  {
    hide PairLess, AscendingPairs, IsLeast;
    if s == {} {
      NoneAscend();
    } else {
      var m := SortedFirst(s);
      LeastIn(s, m);
      PairsSorted(s - {m});
      LeastFirst(s, m, SortedPairs(s - {m}));
    }
  }

  lemma LeastIn(s: set<Pair>, m: Pair)
    requires IsLeast(s, m)
    ensures m in s
  {
  }

  lemma NoneAscend()
    ensures AscendingPairs([])
  {
  }

  lemma NoElements(s: seq<Pair>)
    ensures s == [] || exists x :: x in s
  {
    if s != [] { assert s[0] in s; }
  }

  // Two ascending sequences with the same elements are the same sequence.
  lemma {:induction false} AscendingUnique(a: seq<Pair>, b: seq<Pair>)
    requires AscendingPairs(a) && AscendingPairs(b) && forall x :: x in a <==> x in b
    ensures a == b
  {
    PairLessLaws();
    if a == [] {
      NoElements(b);
    } else {
      assert a[0] in b && b[0] in a by { assert a[0] in a; assert b[0] in b; }
      assert a[0] == b[0];
      var a', b' := a[1..], b[1..];
      forall x ensures x in a' <==> x in b' {
        assert x in a <==> x == a[0] || x in a';
        assert x in b <==> x == b[0] || x in b';
        assert a[0] !in a' && b[0] !in b';
      }
      AscendingUnique(a', b');
      assert a == [a[0]] + a' && b == [b[0]] + b';
    }
  }

  lemma PairsUnique(r: seq<Pair>, s: set<Pair>)
    requires AscendingPairs(r) && forall x :: x in r <==> x in s
    ensures r == SortedPairs(s)
  {
    PairsSorted(s);
    AscendingUnique(r, SortedPairs(s));
  }

  // ------------------------------------------------------------- sets of names in order

  ghost predicate Ascending(s: seq<string>) {
    forall i, j :: 0 <= i < j < |s| ==> Less(s[i], s[j])
  }

  function Firsts(s: seq<Pair>): (r: seq<string>)
    ensures |r| == |s| && forall i :: 0 <= i < |s| ==> r[i] == s[i].0
  {
    if s == [] then [] else [s[0].0] + Firsts(s[1..])
  }

  // A set of names in ORDER BY name.
  function SortedNames(s: set<string>): seq<string> {
    Firsts(SortedPairs(set n | n in s :: (n, "")))
  }

  lemma NamesSorted(s: set<string>)
    ensures Ascending(SortedNames(s)) && |SortedNames(s)| == |s|
    ensures forall x :: x in SortedNames(s) <==> x in s
  {
    hide Less, PairLess, AscendingPairs, Ascending, SortedPairs;
    var pairs := set n | n in s :: (n, "");
    var r := SortedPairs(pairs);
    PairsSorted(pairs);
    FirstsMembers(r, s);
    FirstsAscend(r);
    SameSize(s, pairs);
  }

  lemma FirstsMembers(r: seq<Pair>, s: set<string>)
    requires forall x :: x in r <==> x.0 in s && x.1 == ""
    ensures forall x :: x in Firsts(r) <==> x in s
    ensures forall i :: 0 <= i < |r| ==> r[i].1 == ""
  {
    assert forall i :: 0 <= i < |r| ==> r[i] in r;
    forall x | x in s ensures x in Firsts(r) {
      assert (x, "") in r;
      var i :| 0 <= i < |r| && r[i] == (x, "");
      assert Firsts(r)[i] == x;
    }
  }

  lemma FirstsAscend(r: seq<Pair>)
    requires AscendingPairs(r) && forall i :: 0 <= i < |r| ==> r[i].1 == ""
    ensures Ascending(Firsts(r))
  {
    LessIrreflexive("");
  }

  lemma {:induction false} SameSize(s: set<string>, pairs: set<Pair>)
    requires pairs == set n | n in s :: (n, "")
    ensures |pairs| == |s|
  {
    if s != {} {
      var x :| x in s;
      SameSize(s - {x}, pairs - {(x, "")});
    }
  }

  lemma NamesUnique(r: seq<string>, s: set<string>)
    requires Ascending(r) && forall x :: x in r <==> x in s
    ensures r == SortedNames(s)
  {
    var pairs := set n | n in s :: (n, "");
    var p := seq(|r|, i requires 0 <= i < |r| => (r[i], ""));
    PairsSorted(pairs);
    forall x ensures x in p <==> x in SortedPairs(pairs) {
      if x in pairs {
        var i :| 0 <= i < |r| && r[i] == x.0;
        assert p[i] == x;
      }
    }
    AscendingUnique(p, SortedPairs(pairs));
  }

  // Everything in `low` precedes everything in `high`: the enumerations concatenate.
  lemma NamesConcat(low: set<string>, high: set<string>)
    requires forall x, y :: x in low && y in high ==> Less(x, y)
    ensures SortedNames(low + high) == SortedNames(low) + SortedNames(high)
  {
    var a, b := SortedNames(low), SortedNames(high);
    NamesSorted(low);
    NamesSorted(high);
    forall i, j | 0 <= i < j < |a + b| ensures Less((a + b)[i], (a + b)[j]) {
      if i < |a| <= j {
        assert (a + b)[i] in a && (a + b)[j] in b;
      }
    }
    NamesUnique(a + b, low + high);
  }

  function Above(s: set<string>, m: string): set<string> {
    set x | x in s && Less(m, x)
  }

  // The names after position k - 1 are exactly those above the k-th smallest.
  lemma NamesAfter(s: set<string>, k: nat)
    requires 0 < k <= |SortedNames(s)|
    ensures SortedNames(Above(s, SortedNames(s)[k - 1])) == SortedNames(s)[k..]
  {
    var r := SortedNames(s);
    NamesSorted(s);
    forall x ensures x in r[k..] <==> x in Above(s, r[k - 1]) {
      LessIrreflexive(x);
      LessExcludes(x, r[k - 1]);
      if x in s {
        var i :| 0 <= i < |r| && r[i] == x;
        if i >= k { assert r[k..][i - k] == x; }
      }
    }
    NamesUnique(r[k..], Above(s, r[k - 1]));
  }

  // ------------------------------------------------------------- sorting a sequence that may repeat

  ghost predicate Nondescending(s: seq<Pair>) {
    forall i, j :: 0 <= i < j < |s| ==> !PairLess(s[j], s[i])
  }

  function Insert(p: Pair, s: seq<Pair>): seq<Pair> {
    if s == [] || !PairLess(s[0], p) then [p] + s else [s[0]] + Insert(p, s[1..])
  }

  // `Vec::sort` on pairs.
  function Sort(s: seq<Pair>): seq<Pair> {
    if s == [] then [] else Insert(s[0], Sort(s[1..]))
  }

  lemma ConsSorted(h: Pair, r: seq<Pair>)
    requires Nondescending(r) && forall x :: x in multiset(r) ==> !PairLess(x, h)
    ensures Nondescending([h] + r)
  {
    hide PairLess;
    assert forall j :: 0 <= j < |r| ==> r[j] in multiset(r);
  }

  lemma NoneBelow(p: Pair, s: seq<Pair>)
    requires Nondescending(s) && s != [] && !PairLess(s[0], p)
    ensures forall x :: x in multiset(s) ==> !PairLess(x, p)
  {
    PairLessLaws();
    hide PairLess;
  }

  lemma {:induction false} InsertSorts(p: Pair, s: seq<Pair>)
    requires Nondescending(s)
    ensures Nondescending(Insert(p, s)) && multiset(Insert(p, s)) == multiset{p} + multiset(s)
  {
    hide PairLess;
    if s != [] {
      assert s == [s[0]] + s[1..];
      if PairLess(s[0], p) {
        InsertSorts(p, s[1..]);
        HeadIsLeast(s);
        NotBoth(s[0], p);
        ConsSorted(s[0], Insert(p, s[1..]));
      } else {
        NoneBelow(p, s);
        ConsSorted(p, s);
      }
    }
  }

  lemma HeadIsLeast(s: seq<Pair>)
    requires Nondescending(s) && s != []
    ensures forall x :: x in multiset(s) ==> !PairLess(x, s[0])
  {
    PairLessLaws();
    hide PairLess;
  }

  lemma NotBoth(a: Pair, b: Pair)
    ensures PairLess(a, b) ==> !PairLess(b, a)
  {
    PairLessLaws();
  }

  lemma {:induction false} SortSorts(s: seq<Pair>)
    ensures Nondescending(Sort(s)) && multiset(Sort(s)) == multiset(s)
  {
    if s != [] {
      assert s == [s[0]] + s[1..];
      SortSorts(s[1..]);
      InsertSorts(s[0], Sort(s[1..]));
    }
  }

  lemma SameHead(a: seq<Pair>, b: seq<Pair>)
    requires Nondescending(a) && Nondescending(b) && multiset(a) == multiset(b) && a != []
    ensures b != [] && a[0] == b[0]
  {
    hide PairLess, Nondescending;
    assert a[0] in multiset(b);
    assert b[0] in multiset(a);
    HeadIsLeast(a);
    HeadIsLeast(b);
    EqualOrBelow(a[0], b[0]);
  }

  lemma EqualOrBelow(a: Pair, b: Pair)
    ensures a == b || PairLess(a, b) || PairLess(b, a)
  {
    PairLessLaws();
  }

  lemma SameTail(a: seq<Pair>, b: seq<Pair>)
    requires a != [] && b != [] && a[0] == b[0] && multiset(a) == multiset(b)
    ensures multiset(a[1..]) == multiset(b[1..])
  {
    assert a == [a[0]] + a[1..] && b == [b[0]] + b[1..];
    assert multiset(a[1..]) == multiset(a) - multiset{a[0]};
    assert multiset(b[1..]) == multiset(b) - multiset{b[0]};
  }

  lemma TailSorted(s: seq<Pair>)
    requires Nondescending(s) && s != []
    ensures Nondescending(s[1..])
  {
    hide PairLess;
  }

  lemma {:induction false} SortedUnique(a: seq<Pair>, b: seq<Pair>)
    requires Nondescending(a) && Nondescending(b) && multiset(a) == multiset(b)
    ensures a == b
    decreases |a|
  {
    hide Nondescending;
    if a != [] {
      SameHead(a, b);
      SameTail(a, b);
      TailSorted(a);
      TailSorted(b);
      SortedUnique(a[1..], b[1..]);
      assert a == [a[0]] + a[1..] && b == [b[0]] + b[1..];
    } else {
      assert |multiset(a)| == 0 && |multiset(b)| == |b|;
    }
  }

  // Sorting forgets the order and nothing else.
  lemma SortForgetsOrder(a: seq<Pair>, b: seq<Pair>)
    ensures Sort(a) == Sort(b) <==> multiset(a) == multiset(b)
  {
    SortSorts(a);
    SortSorts(b);
    if multiset(a) == multiset(b) {
      SortedUnique(Sort(a), Sort(b));
    }
  }
}
