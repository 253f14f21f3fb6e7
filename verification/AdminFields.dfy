// Field by field, the record that loads after an admin operation.
module AdminFields {
  import opened Rgw
  import opened Text
  import opened Entities
  import opened Users
  import opened CapsMeaning
  import opened Tables
  import opened AdminUsers
  import opened AdminRuns

  // The record a load returns after the operation: what was reported, under the id as it reads back.
  lemma LoadsReported(t: Db, op: AdminOp)
    requires Sound(t) && !op.Remove? && !op.Data? && Commit(t, RecordOf(t, op), op.Create?).1.Ok?
    ensures
      var (next, r) := Commit(t, RecordOf(t, op), op.Create?);
      && LoadUser(next, r.value.userId) == Ok(r.value.(userId := ParseUserId(r.value.userId.ToString())))
      && r == RecordOf(t, op)
  {
    hide Sound, RecordOf, FromDoc, ToDoc, Printable, LoadUser, EmailFree;
    var info := RecordOf(t, op).value;
    RecordIsPrepared(t, op);
    StoredIsLoaded(t, info, op.Create?);
    DocReads(info);
  }

  predicate Given(s: Option<string>) {
    s.Some? && s.value != ""
  }

  // The first of ten candidates that no user holds.
  predicate Picks(t: Db, draw: Draw, id: string) {
    UnusedKey(t, if |draw.candidates| > 10 then draw.candidates[..10] else draw.candidates) == Ok(id)
  }

  // One key is set; its id and its secret are the given ones, or generated where that was asked for.
  ghost predicate SetsKey(t: Db, access: Option<string>, secret: Option<string>, generate: bool, draw: Draw,
                          before: map<string, AccessKey>, after: map<string, AccessKey>)
  {
    exists id, text ::
      && after == before[id := AccessKey(id := id, key := text, subuser := "", active := true, createDate := draw.now)]
      && (if Given(access) then id == access.value else generate && Picks(t, draw, id))
      && (if Given(secret) then text == secret.value else generate && text == draw.secret)
  }

  // The key half of a create or modify: nothing where nothing was asked for, else one key set.
  ghost predicate KeysAfter(t: Db, access: Option<string>, secret: Option<string>, generate: bool, draw: Draw,
                            before: map<string, AccessKey>, after: map<string, AccessKey>)
  {
    if !Given(access) && !Given(secret) && !generate then after == before
    else (generate || (Given(access) && Given(secret))) && SetsKey(t, access, secret, generate, draw, before, after)
  }

  lemma KeyIsSet(t: Db, info: UserInfo, access: Option<string>, secret: Option<string>, generate: bool, draw: Draw)
    requires WithKey(t, info, KeyInput(NonEmpty(access), NonEmpty(secret), generate), draw).Ok?
    ensures
      var r := WithKey(t, info, KeyInput(NonEmpty(access), NonEmpty(secret), generate), draw).value;
      && r == info.(accessKeys := r.accessKeys)
      && SetsKey(t, access, secret, generate, draw, info.accessKeys, r.accessKeys)
  {
    hide KeyFree, UnusedKey;
  }

  lemma KeyIsSetIf(t: Db, info: UserInfo, access: Option<string>, secret: Option<string>, generate: bool, draw: Draw)
    requires KeyRequest(NonEmpty(access), NonEmpty(secret), generate).Ok?
    requires WithKeyIf(t, info, KeyRequest(NonEmpty(access), NonEmpty(secret), generate).value, draw).Ok?
    ensures
      var r := WithKeyIf(t, info, KeyRequest(NonEmpty(access), NonEmpty(secret), generate).value, draw).value;
      && r == info.(accessKeys := r.accessKeys)
      && KeysAfter(t, access, secret, generate, draw, info.accessKeys, r.accessKeys)
  {
    hide WithKey, SetsKey;
    if KeyRequest(NonEmpty(access), NonEmpty(secret), generate).value.Some? {
      KeyIsSet(t, info, access, secret, generate, draw);
    }
  }

  // ------------------------------------------------------------- create

  // Which key a create asks for where nothing was said about generating: one of its own if no part was given.
  function Generates(p: CreateParams): bool {
    if p.generateKey.Some? then p.generateKey.value else !Given(p.accessKey) && !Given(p.secretKey)
  }

  // What the capabilities of a record hold, as far as one of them is concerned.
  ghost predicate CapAsGiven(caps: Caps, given: Option<string>, cap: string) {
    && (Reads(caps, cap) <==> given.Some? && SomeReads(Split(given.value, ';'), cap))
    && (Writes(caps, cap) <==> given.Some? && SomeWrites(Split(given.value, ';'), cap))
  }

  lemma GrantsAsGiven(given: Option<string>, cap: string)
    requires GrantCaps(given).Ok?
    ensures CapAsGiven(GrantCaps(given).value, given, cap)
  {
    hide AddItems, SomeReads, SomeWrites;
    if given.Some? {
      var items := Split(given.value, ';');
      if given.value == "" {
        SplitOnceShape("", ';');
        OnlyBlank(items, cap);
      } else {
        AddItemsMean(map[], items, cap);
      }
    }
  }

  lemma OnlyBlank(items: seq<string>, cap: string)
    requires items == [""]
    ensures !SomeReads(items, cap) && !SomeWrites(items, cap)
  {
    NothingAsked("", cap);
  }

  lemma CreateRecordFields(t: Db, p: CreateParams, draw: Draw, cap: string)
    requires CreateRecord(t, p, draw).Ok?
    ensures
      var u := CreateRecord(t, p, draw).value;
      && u.userId == p.uid && u.displayName == p.displayName && u.createDate == draw.now
      && u.email == (if p.email.Some? then p.email.value else "")
      && (u.suspended <==> p.suspended == Some(true))
      && (u.system <==> p.system == Some(true))
      && (u.admin <==> p.admin == Some(true))
      && u.maxBuckets == (if p.maxBuckets.Some? then p.maxBuckets.value else 1000)
      && CapAsGiven(u.caps, p.caps, cap)
      && KeysAfter(t, p.accessKey, p.secretKey, Generates(p), draw, map[], u.accessKeys)
  {
    hide GrantCaps, EmailFree, WithKeyIf, KeyRequest, CapAsGiven, KeysAfter;
    GrantsAsGiven(p.caps, cap);
    var email := ClaimEmail(t, p.uid, p.email, "").value;
    var info := Created(p, GrantCaps(p.caps).value, email, draw.now);
    KeyIsSetIf(t, info, p.accessKey, p.secretKey, Generates(p), draw);
  }

  // After a create the user loads with what was asked for: flags that were given as true, the bucket limit given or
  // 1000, the permissions the text grants, and the key given or generated.
  lemma CreateLoads(t: Db, p: CreateParams, draw: Draw, cap: string)
    requires Sound(t) && Commit(t, CreateRecord(t, p, draw), true).1.Ok?
    ensures
      var next := Commit(t, CreateRecord(t, p, draw), true).0;
      LoadUser(next, p.uid).Ok? &&
      var u := LoadUser(next, p.uid).value;
      && u.userId == ParseUserId(p.uid.ToString()) && u.displayName == p.displayName && u.createDate == draw.now
      && u.email == (if p.email.Some? then p.email.value else "")
      && (u.suspended <==> p.suspended == Some(true))
      && (u.system <==> p.system == Some(true))
      && (u.admin <==> p.admin == Some(true))
      && u.maxBuckets == (if p.maxBuckets.Some? then p.maxBuckets.value else 1000)
      && CapAsGiven(u.caps, p.caps, cap)
      && KeysAfter(t, p.accessKey, p.secretKey, Generates(p), draw, map[], u.accessKeys)
  {
    hide CreateRecord, Sound, LoadUser, StoreUser, CapAsGiven, KeysAfter;
    LoadsReported(t, Create(p, draw));
    CreateRecordFields(t, p, draw, cap);
  }

  // ------------------------------------------------------------- modify

  lemma ModifyRecordFields(t: Db, p: ModifyParams, draw: Draw)
    requires ModifyRecord(t, p, draw).Ok?
    ensures LoadUser(t, p.uid).Ok?
    ensures
      var was, u := LoadUser(t, p.uid).value, ModifyRecord(t, p, draw).value;
      && u.userId == was.userId && u.createDate == was.createDate && u.caps == was.caps
      && u.displayName == (if p.displayName.Some? then p.displayName.value else was.displayName)
      && u.email == (if p.email.Some? then p.email.value else was.email)
      && u.suspended == (if p.suspended.Some? then p.suspended.value else was.suspended)
      && u.system == (if p.system.Some? then p.system.value else was.system)
      && u.admin == (if p.admin.Some? then p.admin.value else was.admin)
      && u.maxBuckets == (if p.maxBuckets.Some? then p.maxBuckets.value else was.maxBuckets)
      && KeysAfter(t, p.accessKey, p.secretKey, p.generateKey, draw, was.accessKeys, u.accessKeys)
  {
    hide EmailFree, WithKeyIf, KeyRequest, KeysAfter, LoadUser;
    var was := LoadUser(t, p.uid).value;
    var info := Modified(was, p, ClaimEmail(t, was.userId, p.email, was.email).value);
    KeyIsSetIf(t, info, p.accessKey, p.secretKey, p.generateKey, draw);
  }

  // After a modify every field is the one given, or as it was; permissions and creation time are as they were.
  lemma ModifyLoads(t: Db, p: ModifyParams, draw: Draw)
    requires Sound(t) && Commit(t, ModifyRecord(t, p, draw), false).1.Ok?
    ensures LoadUser(t, p.uid).Ok?
    ensures
      var was, next := LoadUser(t, p.uid).value, Commit(t, ModifyRecord(t, p, draw), false).0;
      LoadUser(next, was.userId).Ok? &&
      var u := LoadUser(next, was.userId).value;
      && u.userId == ParseUserId(was.userId.ToString()) && u.createDate == was.createDate && u.caps == was.caps
      && u.displayName == (if p.displayName.Some? then p.displayName.value else was.displayName)
      && u.email == (if p.email.Some? then p.email.value else was.email)
      && u.suspended == (if p.suspended.Some? then p.suspended.value else was.suspended)
      && u.system == (if p.system.Some? then p.system.value else was.system)
      && u.admin == (if p.admin.Some? then p.admin.value else was.admin)
      && u.maxBuckets == (if p.maxBuckets.Some? then p.maxBuckets.value else was.maxBuckets)
      && KeysAfter(t, p.accessKey, p.secretKey, p.generateKey, draw, was.accessKeys, u.accessKeys)
  {
    hide ModifyRecord, Sound, LoadUser, StoreUser, KeysAfter;
    LoadsReported(t, Modify(p, draw));
    ModifyRecordFields(t, p, draw);
  }

  // ------------------------------------------------------------- keys and capabilities

  // The operation left every field but the one named as it was.
  function Rekeyed(was: UserInfo, u: UserInfo): UserInfo {
    was.(userId := ParseUserId(was.userId.ToString()), accessKeys := u.accessKeys)
  }

  function Recapped(was: UserInfo, u: UserInfo): UserInfo {
    was.(userId := ParseUserId(was.userId.ToString()), caps := u.caps)
  }

  // Creating a key sets one key and changes nothing else.
  lemma KeyCreateLoads(t: Db, uid: UserId, access: Option<string>, secret: Option<string>, generate: bool, draw: Draw)
    requires Sound(t) && Commit(t, KeyCreateRecord(t, uid, access, secret, generate, draw), false).1.Ok?
    ensures LoadUser(t, uid).Ok?
    ensures
      var was := LoadUser(t, uid).value;
      var next := Commit(t, KeyCreateRecord(t, uid, access, secret, generate, draw), false).0;
      LoadUser(next, was.userId).Ok? &&
      var u := LoadUser(next, was.userId).value;
      u == Rekeyed(was, u) && SetsKey(t, access, secret, generate, draw, was.accessKeys, u.accessKeys)
  {
    hide Sound, LoadUser, StoreUser, SetsKey, WithKey;
    LoadsReported(t, CreateKey(uid, access, secret, generate, draw));
    KeyIsSet(t, LoadUser(t, uid).value, access, secret, generate, draw);
  }

  // Removing a key takes that key and changes nothing else.
  lemma KeyRemoveLoads(t: Db, uid: UserId, accessKey: string)
    requires Sound(t) && Commit(t, KeyRemoveRecord(t, uid, accessKey), false).1.Ok?
    ensures LoadUser(t, uid).Ok?
    ensures
      var was, next := LoadUser(t, uid).value, Commit(t, KeyRemoveRecord(t, uid, accessKey), false).0;
      LoadUser(next, was.userId).Ok? &&
      var u := LoadUser(next, was.userId).value;
      u == Rekeyed(was, u) && accessKey in was.accessKeys && u.accessKeys == was.accessKeys - {accessKey}
  {
    hide Sound, LoadUser, StoreUser;
    LoadsReported(t, RemoveKey(uid, accessKey));
  }

  lemma ParseCapsIs(caps: string, cap: string)
    ensures ParseCaps(caps).Ok? <==> Trim(caps) != "" && GoodItems(Split(caps, ';'))
    ensures ParseCaps(caps).Err? ==> ParseCaps(caps) == Err(InvalidArgument)
    ensures ParseCaps(caps).Ok? ==> CapAsGiven(ParseCaps(caps).value, Some(caps), cap)
  {
    hide AddItems, SomeReads, SomeWrites, GoodItems, Split, Trim;
    AddItemsMean(map[], Split(caps, ';'), cap);
  }

  // Adding capabilities keeps every permission and gains exactly those the text grants.
  lemma CapsAddLoads(t: Db, uid: UserId, caps: string, cap: string)
    requires Sound(t) && Commit(t, CapsAddRecord(t, uid, caps), false).1.Ok?
    ensures LoadUser(t, uid).Ok?
    ensures
      var was, next := LoadUser(t, uid).value, Commit(t, CapsAddRecord(t, uid, caps), false).0;
      LoadUser(next, was.userId).Ok? &&
      var u := LoadUser(next, was.userId).value;
      && u == Recapped(was, u)
      && (Reads(u.caps, cap) <==> Reads(was.caps, cap) || SomeReads(Split(caps, ';'), cap))
      && (Writes(u.caps, cap) <==> Writes(was.caps, cap) || SomeWrites(Split(caps, ';'), cap))
  {
    hide Sound, LoadUser, StoreUser, ParseCaps, SomeReads, SomeWrites, Split;
    LoadsReported(t, AddCaps(uid, caps));
    ParseCapsIs(caps, cap);
  }

  // Removing capabilities takes exactly the permissions the text grants.
  lemma CapsRemoveLoads(t: Db, uid: UserId, caps: string, cap: string)
    requires Sound(t) && Commit(t, CapsRemoveRecord(t, uid, caps), false).1.Ok?
    ensures LoadUser(t, uid).Ok?
    ensures
      var was, next := LoadUser(t, uid).value, Commit(t, CapsRemoveRecord(t, uid, caps), false).0;
      LoadUser(next, was.userId).Ok? &&
      var u := LoadUser(next, was.userId).value;
      && u == Recapped(was, u)
      && (Reads(u.caps, cap) <==> Reads(was.caps, cap) && !SomeReads(Split(caps, ';'), cap))
      && (Writes(u.caps, cap) <==> Writes(was.caps, cap) && !SomeWrites(Split(caps, ';'), cap))
  {
    hide Sound, LoadUser, StoreUser, ParseCaps, SomeReads, SomeWrites, Split;
    LoadsReported(t, RemoveCaps(uid, caps));
    ParseCapsIs(caps, cap);
  }

  // ------------------------------------------------------------- when an operation is refused

  // Both halves of a key, neither, or whatever is missing generated.
  predicate KeyAsked(access: Option<string>, secret: Option<string>, generate: bool) {
    generate || (Given(access) <==> Given(secret))
  }

  // Where the key's id comes from, and whether it is to be had.
  function KeyAnswer(t: Db, uid: UserId, access: Option<string>, generate: bool, draw: Draw): Result<()> {
    if Given(access) then KeyFree(t, uid, access.value)
    else if !generate then Ok(())
    else
      match UnusedKey(t, if |draw.candidates| > 10 then draw.candidates[..10] else draw.candidates)
      case Ok(_) => Ok(())
      case Err(e) => Err(e)
  }

  function EmailAnswer(t: Db, uid: UserId, email: Option<string>): Result<()> {
    if Given(email) then EmailFree(t, uid, email.value) else Ok(())
  }

  // The checks that depend on the store, in turn.
  function StoreAnswers(email: Result<()>, key: Result<()>): Result<()> {
    if email.Err? then email else key
  }

  // The record is made, or the answer is this refusal.
  ghost predicate Agrees(r: Result<UserInfo>, answer: Result<()>) {
    match answer
    case Ok(_) => r.Ok?
    case Err(e) => r == Err(e)
  }

  lemma KeyIfAnswers(t: Db, info: UserInfo, access: Option<string>, secret: Option<string>, generate: bool, draw: Draw)
    requires KeyAsked(access, secret, generate)
    ensures
      var key := KeyRequest(NonEmpty(access), NonEmpty(secret), generate);
      key.Ok? && Agrees(WithKeyIf(t, info, key.value, draw), KeyAnswer(t, info.userId, access, generate, draw))
  {
    hide KeyFree, UnusedKey;
  }

  lemma ClaimAnswers(t: Db, uid: UserId, email: Option<string>, current: string)
    ensures
      var r, answer := ClaimEmail(t, uid, email, current), EmailAnswer(t, uid, email);
      if answer.Ok? then r.Ok? else r.Err? && r.error == answer.error
  {
    hide EmailFree;
  }

  ghost predicate CapsGood(caps: Option<string>) {
    Given(caps) ==> GoodItems(Split(caps.value, ';'))
  }

  lemma GrantAnswers(caps: Option<string>)
    ensures GrantCaps(caps).Ok? <==> CapsGood(caps)
    ensures GrantCaps(caps).Err? ==> GrantCaps(caps) == Err(InvalidArgument)
  {
    hide AddItems, GoodItems, Split;
    if Given(caps) { AddItemsMean(map[], Split(caps.value, ';'), ""); }
  }

  // A create is refused for a missing id or name, half a key or a bad capability text, then for a taken email, then
  // for a taken key; otherwise the record is made.
  lemma CreateAnswers(t: Db, p: CreateParams, draw: Draw)
    ensures
      if p.uid.id == "" || p.displayName == "" || !KeyAsked(p.accessKey, p.secretKey, Generates(p)) || !CapsGood(p.caps)
      then CreateRecord(t, p, draw) == Err(InvalidArgument)
      else Agrees(CreateRecord(t, p, draw), StoreAnswers(EmailAnswer(t, p.uid, p.email),
                                                         KeyAnswer(t, p.uid, p.accessKey, Generates(p), draw)))
  {
    hide GrantCaps, ClaimEmail, WithKeyIf, CapsGood, EmailAnswer, KeyAnswer;
    GrantAnswers(p.caps);
    ClaimAnswers(t, p.uid, p.email, "");
    if KeyAsked(p.accessKey, p.secretKey, Generates(p)) && CapsGood(p.caps) && EmailAnswer(t, p.uid, p.email).Ok? {
      var email := ClaimEmail(t, p.uid, p.email, "").value;
      var info := Created(p, GrantCaps(p.caps).value, email, draw.now);
      KeyIfAnswers(t, info, p.accessKey, p.secretKey, Generates(p), draw);
    }
  }

  // A modify is refused for a missing id or half a key, then for an unknown user, then for an empty name, then as a
  // create is for its email and key.
  lemma ModifyAnswers(t: Db, p: ModifyParams, draw: Draw)
    ensures
      if p.uid.id == "" || !KeyAsked(p.accessKey, p.secretKey, p.generateKey) then
        ModifyRecord(t, p, draw) == Err(InvalidArgument)
      else if LoadUser(t, p.uid).Err? then ModifyRecord(t, p, draw) == Err(LoadUser(t, p.uid).error)
      else if p.displayName == Some("") then ModifyRecord(t, p, draw) == Err(InvalidArgument)
      else
        var id := LoadUser(t, p.uid).value.userId;
        Agrees(ModifyRecord(t, p, draw), StoreAnswers(EmailAnswer(t, id, p.email),
                                                      KeyAnswer(t, id, p.accessKey, p.generateKey, draw)))
  {
    hide ClaimEmail, WithKeyIf, EmailAnswer, KeyAnswer, LoadUser;
    if LoadUser(t, p.uid).Ok? {
      var was := LoadUser(t, p.uid).value;
      ClaimAnswers(t, was.userId, p.email, was.email);
      if KeyAsked(p.accessKey, p.secretKey, p.generateKey) && EmailAnswer(t, was.userId, p.email).Ok? {
        var email := ClaimEmail(t, was.userId, p.email, was.email).value;
        KeyIfAnswers(t, Modified(was, p, email), p.accessKey, p.secretKey, p.generateKey, draw);
      }
    }
  }

  // A key is created under a given or a generated id, with a given or a generated secret; an id that is taken is
  // reported before a secret that is missing.
  lemma KeyCreateAnswers(t: Db, uid: UserId, access: Option<string>, secret: Option<string>, generate: bool, draw: Draw)
    ensures
      var r := KeyCreateRecord(t, uid, access, secret, generate, draw);
      if uid.id == "" then r == Err(InvalidArgument)
      else if LoadUser(t, uid).Err? then r == Err(LoadUser(t, uid).error)
      else if !Given(access) && !generate then r == Err(InvalidArgument)
      else
        Agrees(r, StoreAnswers(KeyAnswer(t, LoadUser(t, uid).value.userId, access, generate, draw),
                               if Given(secret) || generate then Ok(()) else Err(InvalidArgument)))
  {
    hide LoadUser, KeyFree, UnusedKey;
  }

  // Only a key the user has can be removed.
  lemma KeyRemoveAnswers(t: Db, uid: UserId, accessKey: string)
    ensures
      var r := KeyRemoveRecord(t, uid, accessKey);
      if uid.id == "" || accessKey == "" then r == Err(InvalidArgument)
      else if LoadUser(t, uid).Err? then r == Err(LoadUser(t, uid).error)
      else if accessKey !in LoadUser(t, uid).value.accessKeys then r == Err(InvalidAccessKeyId)
      else r.Ok?
  {
    hide LoadUser;
  }

  // Capabilities are added and removed exactly under a good text and for a known user.
  lemma CapsAnswers(t: Db, uid: UserId, caps: string)
    ensures
      var added, removed := CapsAddRecord(t, uid, caps), CapsRemoveRecord(t, uid, caps);
      if uid.id == "" || Trim(caps) == "" || !GoodItems(Split(caps, ';')) then
        added == Err(InvalidArgument) && removed == Err(InvalidArgument)
      else if LoadUser(t, uid).Err? then
        added == Err(LoadUser(t, uid).error) && removed == Err(LoadUser(t, uid).error)
      else added.Ok? && removed.Ok?
  {
    hide LoadUser, ParseCaps, Granted, Revoked, GoodItems, Split;
    ParseCapsIs(caps, "");
  }

  // The store refuses a new user whose id is taken, and any user one of whose keys another record holds; whatever it
  // takes is stored, and no other record changes.
  lemma CommitAnswers(t: Db, info: UserInfo, isNew: bool)
    requires IndexAgrees(t.users, t.accessKeys)
    ensures
      var (next, r) := Commit(t, Ok(info), isNew);
      var uid := info.userId.ToString();
      if isNew && uid in t.users then r == Err(UserAlreadyExists) && next == t
      else if exists k :: k in info.accessKeys && HeldElsewhere(t, uid, k) then
        r == Err(KeyExists) && next == t
      else
        && r == Ok(info) && uid in next.users && next.buckets == t.buckets && next.objects == t.objects
        && next.users - {uid} == t.users - {uid}
  {
    hide IndexAgrees, RowOf, UserId.ToString, HoldsKey;
    var uid := info.userId.ToString();
    forall k ensures (k in t.accessKeys && t.accessKeys[k] != uid) <==> HeldElsewhere(t, uid, k) {
      ClashIs(t, uid, k);
    }
  }

  ghost predicate HeldElsewhere(t: Db, uid: string, k: string) {
    exists other :: other != uid && HoldsKey(t, other, k)
  }

  lemma ClashIs(t: Db, uid: string, k: string)
    requires IndexAgrees(t.users, t.accessKeys)
    ensures (k in t.accessKeys && t.accessKeys[k] != uid) <==> HeldElsewhere(t, uid, k)
  {
    if k in t.accessKeys { assert HoldsKey(t, t.accessKeys[k], k); }
  }
}
