// Listing users page by page, and the loop of the command line tool that follows the pages.
module UserListing {
  import opened Rgw
  import opened Order
  import opened Entities
  import opened Tables
  import opened SqliteDriver

  datatype UserList = UserList(ids: seq<UserId>, truncated: bool, nextMarker: string)

  // 0 means 1000, and no page holds more.
  function Clamp(max: nat): (r: nat)
    ensures 0 < r <= DEFAULT_MAX_ENTRIES
  {
    if max == 0 || max > DEFAULT_MAX_ENTRIES then DEFAULT_MAX_ENTRIES else max
  }

  // The string form of an id read from a row: the row's key, but for a leading `$`.
  function Reparsed(uid: string): string {
    ParseUserId(uid).ToString()
  }

  // One page: the first ids after the marker, and the string form of the last one when there are more.
  function UserPage(t: Db, marker: string, max: nat): UserList {
    var rows := UidsAfter(t, marker);
    if |rows| <= Clamp(max) then UserList(ParseAll(rows), false, "")
    else UserList(ParseAll(rows[..Clamp(max)]), true, Reparsed(rows[Clamp(max) - 1]))
  }

  lemma {:induction false} ParseAllAt(uids: seq<string>)
    ensures |ParseAll(uids)| == |uids| && forall i :: 0 <= i < |uids| ==> ParseAll(uids)[i] == ParseUserId(uids[i])
  {
    if uids != [] {
      ParseAllAt(uids[1..]);
    }
  }

  lemma ParseAllPrefix(uids: seq<string>, n: nat)
    requires n <= |uids|
    ensures |ParseAll(uids)| == |uids| && ParseAll(uids)[..n] == ParseAll(uids[..n])
  {
    ParseAllAt(uids);
    ParseAllAt(uids[..n]);
  }

  // `user_list`: one id more than the page holds tells whether it is truncated.
  method ListPage(driver: Driver, marker: string, max: nat) returns (r: Result<UserList>)
    ensures r == Ok(UserPage(driver.State(), marker, max))
  {
    hide ParseAll, UidsAfter;
    var size := Clamp(max);
    ghost var rows := UidsAfter(driver.State(), marker);
    var listed := driver.ListUsers(marker, size + 1);
    match listed {
      case Err(e) => return Err(e);
      case Ok(ids) =>
        var taken := Take(rows, size + 1);
        ParseAllPrefix(taken, |taken|);
        if |ids| <= size {
          assert taken == rows;
          return Ok(UserList(ids, false, ""));
        }
        ParseAllPrefix(taken, size);
        ParseAllAt(taken);
        assert taken[..size] == rows[..size];
        var shown := ids[..size];
        return Ok(UserList(shown, true, shown[size - 1].ToString()));
    }
  }

  // A page holds the ids of the first users above the marker, as many as asked for but between 1 and 1000, and 1000
  // where 0 or more was asked for; the marker of a page with more behind it is its last id written back.
  lemma UserPageHolds(t: Db, marker: string, max: nat) returns (rows: seq<string>)
    ensures Ascending(rows) && forall u :: u in rows <==> u in t.users && Less(marker, u)
    ensures
      var page, size := UserPage(t, marker, max), if 1 <= max <= 1000 then max else 1000;
      && |page.ids| == (if |rows| > size then size else |rows|) && page.truncated == (|rows| > size)
      && (forall i :: 0 <= i < |page.ids| ==> page.ids[i] == ParseUserId(rows[i]))
      && page.nextMarker == if |rows| > size then ParseUserId(rows[size - 1]).ToString() else ""
  {
    hide Less, ParseUserId, UserId.ToString;
    rows := UidsAfter(t, marker);
    NamesSorted(Above(t.users.Keys, marker));
    ParseAllAt(rows);
    if |rows| > Clamp(max) { ParseAllAt(rows[..Clamp(max)]); }
  }

  // ------------------------------------------------------------- following the pages

  // The rows shown by at most `turns` pages, if a page that is not truncated is among them.
  function Follow(t: Db, marker: string, max: nat, turns: nat): Option<seq<string>>
    decreases turns
  {
    var rows := UidsAfter(t, marker);
    if turns == 0 then None
    else if |rows| <= Clamp(max) then Some(rows)
    else
      match Follow(t, Reparsed(rows[Clamp(max) - 1]), max, turns - 1)
      case None => None
      case Some(rest) => Some(rows[..Clamp(max)] + rest)
  }

  // No user lies between a row's key and its string form, so resuming from either is the same.
  ghost predicate Resumes(t: Db, uid: string) {
    forall u :: u in t.users ==> (Less(uid, u) <==> Less(Reparsed(uid), u))
  }

  // Every page boundary resumes where it stopped.
  ghost predicate Steady(t: Db, rows: seq<string>, size: nat)
    requires size > 0
    decreases |rows|
  {
    |rows| <= size || (Resumes(t, rows[size - 1]) && Steady(t, rows[size..], size))
  }

  lemma Resumed(t: Db, marker: string, i: nat)
    requires 0 < i <= |UidsAfter(t, marker)| && Resumes(t, UidsAfter(t, marker)[i - 1])
    ensures UidsAfter(t, Reparsed(UidsAfter(t, marker)[i - 1])) == UidsAfter(t, marker)[i..]
  {
    var rows := UidsAfter(t, marker);
    var last := rows[i - 1];
    NamesAfter(Above(t.users.Keys, marker), i);
    NamesSorted(Above(t.users.Keys, marker));
    assert last in rows;
    hide Less;
    forall u ensures u in Above(Above(t.users.Keys, marker), last) <==> u in Above(t.users.Keys, Reparsed(last)) {
      if u in t.users && Less(last, u) { LessTransitive(marker, last, u); }
    }
    assert Above(Above(t.users.Keys, marker), last) == Above(t.users.Keys, Reparsed(last));
  }

  lemma {:induction false} SteadyRunListsAll(t: Db, marker: string, max: nat, turns: nat)
    requires Steady(t, UidsAfter(t, marker), Clamp(max)) && turns > |UidsAfter(t, marker)|
    ensures Follow(t, marker, max, turns) == Some(UidsAfter(t, marker))
    decreases turns
  {
    hide UidsAfter, Resumes, Clamp, Reparsed;
    var rows := UidsAfter(t, marker);
    var size := Clamp(max);
    if |rows| > size {
      Resumed(t, marker, size);
      SteadyRunListsAll(t, Reparsed(rows[size - 1]), max, turns - 1);
      assert rows == rows[..size] + rows[size..];
    }
  }

  // Two markers with the same next row have the same rows after them.
  lemma SameNext(t: Db, a: string, b: string)
    requires UidsAfter(t, a) != [] && UidsAfter(t, b) != [] && UidsAfter(t, a)[0] == UidsAfter(t, b)[0]
    ensures forall u :: u in t.users ==> (Less(a, u) <==> Less(b, u))
  {
    NextRow(t, a);
    NextRow(t, b);
  }

  lemma NextRow(t: Db, a: string)
    requires UidsAfter(t, a) != []
    ensures forall u :: u in t.users ==> (Less(a, u) <==> AtMost(UidsAfter(t, a)[0], u))
  {
    var rows := UidsAfter(t, a);
    NamesSorted(Above(t.users.Keys, a));
    assert rows[0] in rows;
    hide Less;
    forall u | u in t.users ensures Less(a, u) <==> AtMost(rows[0], u) {
      if Less(a, u) {
        assert u in rows;
        var i :| 0 <= i < |rows| && rows[i] == u;
      } else if Less(rows[0], u) {
        LessTransitive(a, rows[0], u);
      }
    }
  }

  lemma {:induction false} FirstFollowed(t: Db, marker: string, max: nat, turns: nat)
    requires Follow(t, marker, max, turns).Some? && Follow(t, marker, max, turns).value != []
    ensures UidsAfter(t, marker) != [] && Follow(t, marker, max, turns).value[0] == UidsAfter(t, marker)[0]
  {
    hide UidsAfter;
  }

  lemma {:induction false} CompleteRunIsSteady(t: Db, marker: string, max: nat, turns: nat)
    requires Follow(t, marker, max, turns) == Some(UidsAfter(t, marker))
    ensures Steady(t, UidsAfter(t, marker), Clamp(max))
    decreases turns
  {
    hide UidsAfter, Clamp, Reparsed, Less;
    var rows := UidsAfter(t, marker);
    var size := Clamp(max);
    if |rows| > size {
      var last := rows[size - 1];
      var rest := Follow(t, Reparsed(last), max, turns - 1).value;
      assert (rows[..size] + rest)[size..] == rest;
      assert rest == rows[size..];
      FirstFollowed(t, Reparsed(last), max, turns - 1);
      AfterRow(t, marker, size);
      SameNext(t, last, Reparsed(last));
      Resumed(t, marker, size);
      CompleteRunIsSteady(t, Reparsed(last), max, turns - 1);
    }
  }

  lemma AfterRow(t: Db, marker: string, i: nat)
    requires 0 < i <= |UidsAfter(t, marker)|
    ensures UidsAfter(t, UidsAfter(t, marker)[i - 1]) == UidsAfter(t, marker)[i..]
  {
    var rows := UidsAfter(t, marker);
    NamesAfter(Above(t.users.Keys, marker), i);
    NamesSorted(Above(t.users.Keys, marker));
    assert rows[i - 1] in rows;
    hide Less;
    forall u | u in t.users && Less(rows[i - 1], u) ensures Less(marker, u) {
      LessTransitive(marker, rows[i - 1], u);
    }
    assert Above(Above(t.users.Keys, marker), rows[i - 1]) == Above(t.users.Keys, rows[i - 1]);
  }

  // Following the pages ends having shown every user after the marker once and in order, exactly when every page
  // boundary resumes where it stopped.
  lemma RunListsAllUsers(t: Db, marker: string, max: nat)
    ensures (exists turns :: Follow(t, marker, max, turns) == Some(UidsAfter(t, marker)))
      <==> Steady(t, UidsAfter(t, marker), Clamp(max))
  {
    hide Follow, Steady, UidsAfter;
    if Steady(t, UidsAfter(t, marker), Clamp(max)) {
      SteadyRunListsAll(t, marker, max, |UidsAfter(t, marker)| + 1);
    }
    if turns :| Follow(t, marker, max, turns) == Some(UidsAfter(t, marker)) {
      CompleteRunIsSteady(t, marker, max, turns);
    }
  }

  // Keys that do not start with `$` always resume; canonical ids have such keys or an empty tenant and no `$` at all.
  lemma {:induction false} OrdinaryIsSteady(t: Db, rows: seq<string>, size: nat)
    requires size > 0 && forall i :: 0 <= i < |rows| ==> !StartsWithDollar(rows[i])
    ensures Steady(t, rows, size)
    decreases |rows|
  {
    if |rows| > size {
      UidTextRoundTrip(rows[size - 1]);
      OrdinaryIsSteady(t, rows[size..], size);
    }
  }

  lemma CanonicalIsOrdinary(id: UserId)
    requires id.Canonical()
    ensures !StartsWithDollar(id.ToString())
  {
  }

  // A page that ends on "$" followed by its own marker hands that marker out again: the run never ends.
  lemma {:induction false} Stuck(t: Db, marker: string, max: nat, turns: nat)
    requires |UidsAfter(t, marker)| > Clamp(max) && UidsAfter(t, marker)[Clamp(max) - 1] == "$" + marker
    ensures Follow(t, marker, max, turns) == None
  {
    hide UidsAfter;
    UidTextRoundTrip("$" + marker);
    assert ("$" + marker)[1..] == marker;
    if turns > 0 {
      Stuck(t, marker, max, turns - 1);
    }
  }

  // Two users, "$" and "a", listed one at a time.
  lemma StuckExample(t: Db, turns: nat)
    requires t.users.Keys == {"$", "a"}
    ensures Follow(t, "", 1, turns) == None
  {
    assert Above(t.users.Keys, "") == {"$", "a"};
    assert Ascending(["$", "a"]);
    NamesUnique(["$", "a"], {"$", "a"});
    Stuck(t, "", 1, turns);
  }

  // Three users, "!", "$" and "a", listed one at a time: two pages take turns for ever.
  lemma {:induction false} CycleExample(t: Db, turns: nat)
    requires t.users.Keys == {"!", "$", "a"}
    ensures Follow(t, "", 1, turns) == None && Follow(t, "!", 1, turns) == None
  {
    CycleRows(t);
    hide UidsAfter;
    if turns > 0 {
      CycleExample(t, turns - 1);
    }
  }

  lemma CycleRows(t: Db)
    requires t.users.Keys == {"!", "$", "a"}
    ensures UidsAfter(t, "") == ["!", "$", "a"] && UidsAfter(t, "!") == ["$", "a"]
    ensures Reparsed("!") == "!" && Reparsed("$") == ""
  {
    assert Above(t.users.Keys, "") == {"!", "$", "a"} && Above(t.users.Keys, "!") == {"$", "a"};
    assert Ascending(["!", "$", "a"]) && Ascending(["$", "a"]);
    NamesUnique(["!", "$", "a"], {"!", "$", "a"});
    NamesUnique(["$", "a"], {"$", "a"});
    UidTextRoundTrip("!");
    UidTextRoundTrip("$");
    assert "$"[1..] == "";
  }

  // ------------------------------------------------------------- how long to wait

  // The page after this marker is the last.
  predicate Ends(t: Db, marker: string, max: nat) {
    |UidsAfter(t, marker)| <= Clamp(max)
  }

  // The row that gives the next marker.
  function Boundary(t: Db, marker: string, max: nat): string {
    if Ends(t, marker, max) then "" else UidsAfter(t, marker)[Clamp(max) - 1]
  }

  function Next(t: Db, marker: string, max: nat): string {
    Reparsed(Boundary(t, marker, max))
  }

  // The marker after `i` pages.
  function MarkerAt(t: Db, marker: string, max: nat, i: nat): string
    decreases i
  {
    if i == 0 then marker else MarkerAt(t, Next(t, marker, max), max, i - 1)
  }

  // Some page among the first `turns` is the last.
  ghost predicate EndsWithin(t: Db, marker: string, max: nat, turns: nat) {
    exists i: nat :: i < turns && Ends(t, MarkerAt(t, marker, max, i), max)
  }

  lemma EndsWithinNext(t: Db, marker: string, max: nat, turns: nat)
    requires turns > 0
    ensures EndsWithin(t, marker, max, turns)
      <==> Ends(t, marker, max) || EndsWithin(t, Next(t, marker, max), max, turns - 1)
  {
    hide Ends, Next;
    var next := Next(t, marker, max);
    assert MarkerAt(t, marker, max, 0) == marker;
    if i: nat :| i < turns - 1 && Ends(t, MarkerAt(t, next, max, i), max) {
      assert MarkerAt(t, marker, max, i + 1) == MarkerAt(t, next, max, i);
    }
    if i: nat :| i < turns && Ends(t, MarkerAt(t, marker, max, i), max) {
      if i > 0 {
        assert MarkerAt(t, marker, max, i) == MarkerAt(t, next, max, i - 1);
      }
    }
  }

  lemma {:induction false} FollowEnds(t: Db, marker: string, max: nat, turns: nat)
    ensures Follow(t, marker, max, turns).Some? <==> EndsWithin(t, marker, max, turns)
    decreases turns
  {
    hide UidsAfter, Reparsed, EndsWithin;
    if turns > 0 {
      EndsWithinNext(t, marker, max, turns);
      FollowEnds(t, Next(t, marker, max), max, turns - 1);
    } else {
      NoneWithin(t, marker, max);
    }
  }

  lemma NoneWithin(t: Db, marker: string, max: nat)
    ensures !EndsWithin(t, marker, max, 0)
  {
  }

  lemma {:induction false} MarkerCompose(t: Db, marker: string, max: nat, i: nat, j: nat)
    ensures MarkerAt(t, marker, max, i + j) == MarkerAt(t, MarkerAt(t, marker, max, i), max, j)
    decreases i
  {
    hide Next;
    if i > 0 {
      MarkerCompose(t, Next(t, marker, max), max, i - 1, j);
    }
  }

  // Pages that come back to a marker never end.
  lemma {:induction false} CycleNeverEnds(t: Db, marker: string, max: nat, i: nat, j: nat, n: nat)
    requires i < j && MarkerAt(t, marker, max, i) == MarkerAt(t, marker, max, j)
    requires forall k :: 0 <= k < j ==> !Ends(t, MarkerAt(t, marker, max, k), max)
    ensures !Ends(t, MarkerAt(t, marker, max, n), max)
    decreases n
  {
    hide Ends, MarkerAt;
    if n >= j {
      MarkerCompose(t, marker, max, i, n - j);
      MarkerCompose(t, marker, max, j, n - j);
      CycleNeverEnds(t, marker, max, i, j, i + n - j);
    }
  }

  function Boundaries(t: Db, marker: string, max: nat, n: nat): seq<string>
    decreases n
  {
    if n == 0 then [] else Boundaries(t, marker, max, n - 1) + [Boundary(t, MarkerAt(t, marker, max, n - 1), max)]
  }

  lemma {:induction false} BoundaryAt(t: Db, marker: string, max: nat, n: nat)
    ensures
      var bs := Boundaries(t, marker, max, n);
      |bs| == n && forall i :: 0 <= i < n ==> bs[i] == Boundary(t, MarkerAt(t, marker, max, i), max)
    decreases n
  {
    hide Boundary, MarkerAt;
    if n > 0 { BoundaryAt(t, marker, max, n - 1); }
  }

  // More elements than the set has: two are the same.
  lemma {:induction false} Pigeonhole(s: seq<string>, among: set<string>) returns (i: nat, j: nat)
    requires |s| > |among| && forall x :: x in s ==> x in among
    ensures i < j < |s| && s[i] == s[j]
    decreases |s|
  {
    var last, before := s[|s| - 1], s[..|s| - 1];
    assert last in s;
    if last in before {
      i :| 0 <= i < |before| && before[i] == last;
      j := |s| - 1;
    } else {
      i, j := Pigeonhole(before, among - {last});
    }
  }

  lemma BoundaryIsUser(t: Db, marker: string, max: nat)
    requires !Ends(t, marker, max)
    ensures Boundary(t, marker, max) in t.users
  {
    var rows := UidsAfter(t, marker);
    NamesSorted(Above(t.users.Keys, marker));
    hide SortedNames;
    assert rows[Clamp(max) - 1] in rows;
  }

  // As many pages without an end as there are users, and one more: two of them stop at the same row, so none ends.
  lemma NeverEnds(t: Db, marker: string, max: nat, n: nat)
    requires forall k :: 0 <= k <= |t.users| ==> !Ends(t, MarkerAt(t, marker, max, k), max)
    ensures !Ends(t, MarkerAt(t, marker, max, n), max)
  {
    hide Ends, Boundary, Boundaries;
    var size := |t.users| + 1;
    var bs := Boundaries(t, marker, max, size);
    BoundaryAt(t, marker, max, size);
    forall k | 0 <= k < size ensures bs[k] in t.users {
      BoundaryIsUser(t, MarkerAt(t, marker, max, k), max);
    }
    assert forall x :: x in bs ==> x in t.users.Keys;
    var i, j := Pigeonhole(bs, t.users.Keys);
    MarkerCompose(t, marker, max, i, 1);
    MarkerCompose(t, marker, max, j, 1);
    OneMarker(t, MarkerAt(t, marker, max, i), max);
    OneMarker(t, MarkerAt(t, marker, max, j), max);
    hide MarkerAt, Next;
    CycleNeverEnds(t, marker, max, i + 1, j + 1, n);
  }

  lemma OneMarker(t: Db, marker: string, max: nat)
    ensures MarkerAt(t, marker, max, 1) == Reparsed(Boundary(t, marker, max))
  {
  }

  // A run that ends at all ends within one page more than there are users.
  lemma EndsByThen(t: Db, marker: string, max: nat)
    ensures (exists turns: nat :: Follow(t, marker, max, turns).Some?)
      <==> Follow(t, marker, max, |t.users| + 1).Some?
  {
    hide Follow, Ends, MarkerAt;
    FollowEnds(t, marker, max, |t.users| + 1);
    if turns: nat :| Follow(t, marker, max, turns).Some? {
      FollowEnds(t, marker, max, turns);
      var k: nat :| k < turns && Ends(t, MarkerAt(t, marker, max, k), max);
      if Follow(t, marker, max, |t.users| + 1).None? {
        NeverEnds(t, marker, max, k);
      }
    }
  }

  // Waiting longer does not change what a run that has ended shows.
  lemma {:induction false} FollowLonger(t: Db, marker: string, max: nat, turns: nat, more: nat)
    requires Follow(t, marker, max, turns).Some? && turns <= more
    ensures Follow(t, marker, max, more) == Follow(t, marker, max, turns)
    decreases turns
  {
    hide UidsAfter, Reparsed, Clamp;
    var rows := UidsAfter(t, marker);
    if |rows| > Clamp(max) {
      FollowLonger(t, Reparsed(rows[Clamp(max) - 1]), max, turns - 1, more - 1);
    }
  }

  lemma FollowedOnce(t: Db, marker: string, max: nat, turns: nat, n: nat)
    requires turns > |t.users| && Follow(t, marker, max, n).Some?
    ensures Follow(t, marker, max, turns) == Follow(t, marker, max, n)
  {
    hide Follow;
    EndsByThen(t, marker, max);
    FollowLonger(t, marker, max, |t.users| + 1, turns);
    if n <= turns {
      FollowLonger(t, marker, max, n, turns);
    } else {
      FollowLonger(t, marker, max, turns, n);
    }
  }

  // ------------------------------------------------------------- the command line tool's loop

  function Printed(uids: seq<string>): seq<string> {
    if uids == [] then [] else Printed(uids[..|uids| - 1]) + [Reparsed(uids[|uids| - 1])]
  }

  lemma {:induction false} PrintedConcat(a: seq<string>, b: seq<string>)
    ensures Printed(a + b) == Printed(a) + Printed(b)
  {
    if b == [] {
      assert a + b == a;
    } else {
      assert (a + b)[..|a + b| - 1] == a + b[..|b| - 1];
      PrintedConcat(a, b[..|b| - 1]);
    }
  }

  lemma ReparsedOrdinary(uid: string)
    ensures Reparsed(uid) == uid <==> !StartsWithDollar(uid)
  {
    UidTextRoundTrip(uid);
  }

  lemma {:induction false} PrintedOrdinary(uids: seq<string>)
    ensures (forall i :: 0 <= i < |uids| ==> !StartsWithDollar(uids[i])) ==> Printed(uids) == uids
  {
    hide Reparsed, StartsWithDollar;
    if uids != [] {
      ReparsedOrdinary(uids[|uids| - 1]);
      PrintedOrdinary(uids[..|uids| - 1]);
    }
  }

  method Texts(ids: seq<UserId>, ghost uids: seq<string>) returns (texts: seq<string>)
    requires ids == ParseAll(uids)
    ensures texts == Printed(uids)
  {
    ParseAllAt(uids);
    texts := [];
    for i := 0 to |ids|
      invariant texts == Printed(uids[..i])
    {
      assert uids[..i + 1][..i] == uids[..i];
      texts := texts + [ids[i].ToString()];
    }
    assert uids[..|uids|] == uids;
  }

  // What the loop has printed if it ends within `turns` pages.
  function PrintedRun(t: Db, start: string, turns: nat): Option<seq<string>> {
    match Follow(t, start, 0, turns)
    case None => None
    case Some(rows) => Some(Printed(rows))
  }

  // A run over steady boundaries prints every user; over rows without a leading `$`, as their very keys.
  lemma PrintsAll(t: Db, start: string, turns: nat)
    requires turns > |UidsAfter(t, start)|
    ensures Steady(t, UidsAfter(t, start), DEFAULT_MAX_ENTRIES) ==>
      PrintedRun(t, start, turns) == Some(Printed(UidsAfter(t, start)))
    ensures OrdinaryAfter(t, start) ==> PrintedRun(t, start, turns) == Some(UidsAfter(t, start))
  {
    hide Follow, Steady, Printed, UidsAfter, StartsWithDollar;
    var rows := UidsAfter(t, start);
    if OrdinaryAfter(t, start) {
      OrdinaryIsSteady(t, rows, DEFAULT_MAX_ENTRIES);
      PrintedOrdinary(rows);
    }
    if Steady(t, rows, DEFAULT_MAX_ENTRIES) {
      SteadyRunListsAll(t, start, 0, turns);
    }
  }

  // No user after the marker has a row that starts with `$`.
  ghost predicate OrdinaryAfter(t: Db, marker: string) {
    forall i :: 0 <= i < |UidsAfter(t, marker)| ==> !StartsWithDollar(UidsAfter(t, marker)[i])
  }

  // `list_all_users`, watched for at most `turns` pages, since on some stores the loop never ends; see `Stuck`. One
  // page more than there are users is enough: what has not ended by then never does.
  method ListAllUsers(driver: Driver, start: string, turns: nat) returns (r: Option<seq<string>>)
    ensures r == PrintedRun(driver.State(), start, turns)
    ensures var t := driver.State();
      turns > |t.users| ==> forall n: nat :: Follow(t, start, 0, n).Some? ==> r == PrintedRun(t, start, n)
    ensures var t := driver.State();
      turns > |UidsAfter(t, start)| && Steady(t, UidsAfter(t, start), DEFAULT_MAX_ENTRIES) ==>
        r == Some(Printed(UidsAfter(t, start)))
    ensures var t := driver.State();
      turns > |UidsAfter(t, start)| && OrdinaryAfter(t, start) ==> r == Some(UidsAfter(t, start))
  {
    hide UidsAfter, Printed, Steady, OrdinaryAfter, Reparsed, ParseAll;
    ghost var t := driver.State();
    ghost var seen: seq<string> := [];
    if turns > |UidsAfter(t, start)| { PrintsAll(t, start, turns); }
    if turns > |t.users| {
      forall n: nat | Follow(t, start, 0, n).Some? ensures PrintedRun(t, start, turns) == PrintedRun(t, start, n) {
        FollowedOnce(t, start, 0, turns, n);
      }
    }
    var marker := start;
    var ids: seq<string> := [];
    NothingPrinted();
    JoinedTwice([], [], Follow(t, start, 0, turns));
    for turn := 0 to turns
      invariant ids == Printed(seen)
      invariant Follow(t, start, 0, turns) == Joined(seen, Follow(t, marker, 0, turns - turn))
    {
      ghost var rows := UidsAfter(t, marker);
      var listed := ListPage(driver, marker, 0);
      match listed {
        case Err(e) => return None;
        case Ok(page) =>
          ghost var shown := Take(rows, DEFAULT_MAX_ENTRIES);
          var texts := Texts(page.ids, shown);
          PrintedConcat(seen, shown);
          ids := ids + texts;
          if !page.truncated { return Some(ids); }
          JoinedTwice(seen, shown, Follow(t, page.nextMarker, 0, turns - turn - 1));
          seen := seen + shown;
          marker := page.nextMarker;
      }
    }
    return None;
  }

  ghost function Joined(before: seq<string>, rest: Option<seq<string>>): Option<seq<string>> {
    if rest.None? then None else Some(before + rest.value)
  }

  lemma JoinedTwice(a: seq<string>, b: seq<string>, rest: Option<seq<string>>)
    ensures Joined(a, Joined(b, rest)) == Joined(a + b, rest) && Joined([], rest) == rest
  {
    if rest.Some? {
      assert [] + rest.value == rest.value;
      assert a + (b + rest.value) == a + b + rest.value;
    }
  }

  lemma NothingPrinted()
    ensures Printed([]) == []
  {
  }
}
