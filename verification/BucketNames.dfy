// The bucket naming rule, label by label, and how S3 creation and deletion answer.
module BucketNames {
  import opened Rgw
  import opened Text
  import opened Entities
  import opened Users
  import opened Tables
  import opened S3Buckets

  // Letters in lower case, digits and dashes, with no dash at either end.
  predicate Label(s: string) {
    && s != "" && s[0] != '-' && s[|s| - 1] != '-'
    && forall i :: 0 <= i < |s| ==> 'a' <= s[i] <= 'z' || '0' <= s[i] <= '9' || s[i] == '-'
  }

  predicate AllLabels(parts: seq<string>) {
    forall i :: 0 <= i < |parts| ==> Label(parts[i])
  }

  predicate Number(s: string) {
    s != "" && forall i :: 0 <= i < |s| ==> '0' <= s[i] <= '9'
  }

  // What the rule asks of the characters, apart from the length and the look of an address.
  predicate Spelled(s: string) {
    && s != "" && Alphanumeric(s[0]) && Alphanumeric(s[|s| - 1])
    && (forall i :: 0 <= i < |s| ==> Alphanumeric(s[i]) || s[i] == '-' || s[i] == '.')
    && (forall i :: 0 < i < |s| ==> !BadNeighbours(s[i - 1], s[i]))
  }

  lemma OneLabel(s: string)
    requires '.' !in s
    ensures Spelled(s) <==> Label(s)
  {
  }

  // A dot joins a label and a name.
  lemma Dotted(a: string, b: string)
    requires '.' !in a
    ensures Spelled(a + "." + b) <==> Label(a) && Spelled(b)
  {
    var s := a + "." + b;
    if Spelled(s) {
      SpelledAround(a, b);
    } else if Label(a) && Spelled(b) {
      SpelledJoins(a, b);
    }
  }

  lemma SpelledAround(a: string, b: string)
    requires '.' !in a && Spelled(a + "." + b)
    ensures Label(a) && Spelled(b)
  {
    var s := a + "." + b;
    var k := |a|;
    assert s[k] == '.' && s[0] != '.';
    assert k > 0 && |b| > 0;
    assert !BadNeighbours(s[k - 1], s[k]) && !BadNeighbours(s[k], s[k + 1]);
    forall i | 0 <= i < |a| ensures a[i] == s[i] && a[i] != '.' { assert a[i] in a; }
    forall i | 0 <= i < |b| ensures b[i] == s[k + 1 + i] { }
    forall i | 0 < i < |b| ensures !BadNeighbours(b[i - 1], b[i]) {
      assert b[i] == s[k + 1 + i] && b[i - 1] == s[k + 1 + i - 1];
    }
  }

  lemma SpelledJoins(a: string, b: string)
    requires '.' !in a && Label(a) && Spelled(b)
    ensures Spelled(a + "." + b)
  {
    var s := a + "." + b;
    var k := |a|;
    forall i | 0 < i < |s| ensures !BadNeighbours(s[i - 1], s[i]) {
      if i > k + 1 {
        assert s[i] == b[i - k - 1] && s[i - 1] == b[i - k - 2];
      }
    }
  }

  lemma LabelsFirst(x: string, rest: seq<string>)
    ensures AllLabels([x] + rest) <==> Label(x) && AllLabels(rest)
  {
    hide Label;
    assert ([x] + rest)[1..] == rest;
    assert AllLabels([x] + rest) ==> Label(([x] + rest)[0]);
    forall i | AllLabels([x] + rest) && 0 <= i < |rest| ensures Label(rest[i]) {
      assert ([x] + rest)[i + 1] == rest[i];
    }
  }

  lemma {:induction false} SpelledByLabels(s: string)
    ensures Spelled(s) <==> AllLabels(Split(s, '.'))
    decreases |s|
  {
    hide Spelled, Label, AllLabels, SplitOnce;
    SplitOnceShape(s, '.');
    match SplitOnce(s, '.')
    case None =>
      OneLabel(s);
      LabelsFirst(s, []);
      NoLabels();
      assert [s] + [] == [s];
    case Some((a, b)) =>
      assert s == a + "." + b;
      Dotted(a, b);
      SpelledByLabels(b);
      LabelsFirst(a, Split(b, '.'));
  }

  lemma NoLabels()
    ensures AllLabels([])
  {
  }

  // A bucket name is 3 to 63 characters long, made of labels between dots, and not four numbers.
  lemma NamesByLabels(name: string)
    ensures ValidName(name)
      <==> && 3 <= |name| <= 63 && AllLabels(Split(name, '.'))
           && !(|Split(name, '.')| == 4 && forall i :: 0 <= i < 4 ==> Number(Split(name, '.')[i]))
  {
    hide Split, AllLabels;
    SpelledByLabels(name);
    if |Split(name, '.')| == 4 {
      assert forall i :: 0 <= i < 4 ==> (Number(Split(name, '.')[i]) <==> Digits(Split(name, '.')[i]));
    }
  }

  // ------------------------------------------------------------- the answers

  // Who asks, the name, the user's limit, and a bucket of that name are looked at in this order.
  lemma CreationAnswers(t: Db, identity: Option<UserInfo>, name: string, bucketId: string, now: nat)
    requires DefaultTenant(t)
    ensures
      var r := CreateS3(t, identity, name, bucketId, now).1;
      if identity.None? then r == Err(AccessDenied)
      else
        var user := identity.value;
        if !ValidName(name) then r == Err(InvalidBucketName)
        else if user.maxBuckets < 0 then r == Err(AccessDenied)
        else if 0 < user.maxBuckets <= |Owned(t, user.userId)| then r == Err(TooManyBuckets)
        else if (name, "") in t.buckets && ParseUserId(t.buckets[(name, "")].owner) == user.userId then
          r == Err(BucketAlreadyOwnedByYou)
        else if (name, "") in t.buckets || BucketExists(t, bucketId) then r == Err(BucketAlreadyExists)
        else r == Ok(())
  {
    hide ValidName, OverLimit, BucketExists, ParseUserId, Owned;
    if identity.Some? {
      CountIsExact(t, identity.value);
    }
  }

  // A name with a slash is no bucket's; then existence, access and emptiness are looked at in this order.
  lemma DeletionAnswers(t: Db, identity: Option<UserInfo>, name: string)
    ensures
      var r, k := DeleteS3(t, identity, name).1, (name, "");
      if '/' in name || k !in t.buckets then r == Err(NoSuchBucket)
      else if identity.None? then r == Err(AccessDenied)
      else if !identity.value.system && !identity.value.admin
              && identity.value.userId != ParseUserId(t.buckets[k].owner) then r == Err(AccessDenied)
      else if exists o :: o in t.objects && o.bucketId == t.buckets[k].bucketId then r == Err(BucketNotEmpty)
      else r == Ok(())
  {
    hide ParseUserId;
  }
}
