// User, key and capability operations of the admin layer, each a sequence of driver calls.
module AdminUsers {
  import opened Rgw
  import opened Text
  import opened Order
  import opened Entities
  import opened Users
  import opened Tables
  import opened AdminBuckets
  import opened SqliteDriver

  // What the generators and the clock return during one operation.
  datatype Draw = Draw(candidates: seq<string>, secret: string, now: nat)

  const KEYGEN_ATTEMPTS := 10

  datatype CreateParams = CreateParams(uid: UserId, displayName: string, email: Option<string>,
                                       accessKey: Option<string>, secretKey: Option<string>,
                                       generateKey: Option<bool>, caps: Option<string>,
                                       maxBuckets: Option<int>, suspended: Option<bool>, system: Option<bool>,
                                       admin: Option<bool>)

  datatype ModifyParams = ModifyParams(uid: UserId, displayName: Option<string>, email: Option<string>,
                                       maxBuckets: Option<int>, suspended: Option<bool>, system: Option<bool>,
                                       admin: Option<bool>, accessKey: Option<string>, secretKey: Option<string>,
                                       generateKey: bool)

  function NonEmpty(s: Option<string>): Option<string> {
    if s == Some("") then None else s
  }

  function GetOr<T>(o: Option<T>, default: T): T {
    if o.Some? then o.value else default
  }

  // ------------------------------------------------------------- checks against the store

  function EmailFree(t: Db, uid: UserId, email: string): Result<()> {
    match LoadUserByEmail(t, email)
    case Ok(other) => if other.userId != uid then Err(UserAlreadyExists) else Ok(())
    case Err(NoSuchUser) => Ok(())
    case Err(e) => Err(e)
  }

  method EnsureEmailFree(driver: Driver, uid: UserId, email: string) returns (r: Result<()>)
    ensures r == EmailFree(driver.State(), uid, email)
  {
    hide LoadUserByEmail;
    var found := driver.LoadUserByEmail(email);
    match found
    case Ok(other) => if other.userId != uid { return Err(UserAlreadyExists); } return Ok(());
    case Err(NoSuchUser) => return Ok(());
    case Err(e) => return Err(e);
  }

  function KeyFree(t: Db, uid: UserId, accessKey: string): Result<()> {
    match LoadUserByAccessKey(t, accessKey)
    case Ok(other) => if other.userId != uid then Err(KeyExists) else Ok(())
    case Err(NoSuchUser) => Ok(())
    case Err(e) => Err(e)
  }

  method EnsureKeyFree(driver: Driver, uid: UserId, accessKey: string) returns (r: Result<()>)
    ensures r == KeyFree(driver.State(), uid, accessKey)
  {
    hide LoadUserByAccessKey;
    var found := driver.LoadUserByAccessKey(accessKey);
    match found
    case Ok(other) => if other.userId != uid { return Err(KeyExists); } return Ok(());
    case Err(NoSuchUser) => return Ok(());
    case Err(e) => return Err(e);
  }

  // The first candidate no user holds.
  function UnusedKey(t: Db, candidates: seq<string>): Result<string> {
    if candidates == [] then Err(InternalError)
    else
      match LoadUserByAccessKey(t, candidates[0])
      case Err(NoSuchUser) => Ok(candidates[0])
      case Ok(_) => UnusedKey(t, candidates[1..])
      case Err(e) => Err(e)
  }

  ghost predicate Held(t: Db, k: string) {
    exists uid :: HoldsKey(t, uid, k)
  }

  // The search takes the first candidate that no user holds, and gives up only when every candidate is held, or a
  // record does not read.
  lemma {:induction false} UnusedKeyMeaning(t: Db, candidates: seq<string>) returns (i: nat)
    requires IndexAgrees(t.users, t.accessKeys)
    ensures i <= |candidates|
    ensures UnusedKey(t, candidates).Ok? ==>
      i < |candidates| && UnusedKey(t, candidates).value == candidates[i] && !Held(t, candidates[i])
    ensures UnusedKey(t, candidates).Err? ==> i == |candidates| || LoadUserByAccessKey(t, candidates[i]).Err?
    ensures forall j :: 0 <= j < i ==> Held(t, candidates[j])
    decreases |candidates|
  {
    hide IndexAgrees, LoadUserByAccessKey;
    i := 0;
    if candidates != [] {
      KeyLookup(t, candidates[0]);
      if LoadUserByAccessKey(t, candidates[0]).Ok? {
        var j := UnusedKeyMeaning(t, candidates[1..]);
        i := j + 1;
      }
    }
  }

  lemma KeyLookup(t: Db, k: string)
    requires IndexAgrees(t.users, t.accessKeys)
    ensures LoadUserByAccessKey(t, k).Ok? ==> Held(t, k)
    ensures LoadUserByAccessKey(t, k) == Err(NoSuchUser) <==> !Held(t, k)
  {
    hide IndexAgrees, Deserialize;
    LookupByKeyFindsHolder(t, k);
    hide LoadUserByAccessKey;
    if uid :| HoldsKey(t, uid, k) {
      assert LoadUserByAccessKey(t, k) == ReadRow(t.users[uid]);
    }
  }

  method UnusedAccessKey(driver: Driver, candidates: seq<string>) returns (r: Result<string>)
    ensures r == UnusedKey(driver.State(), Take(candidates, KEYGEN_ATTEMPTS))
  {
    hide LoadUserByAccessKey;
    var drawn := Take(candidates, KEYGEN_ATTEMPTS);
    for i := 0 to |drawn|
      invariant UnusedKey(driver.State(), drawn[i..]) == UnusedKey(driver.State(), drawn)
    {
      assert drawn[i..][1..] == drawn[i + 1..];
      var found := driver.LoadUserByAccessKey(drawn[i]);
      match found {
        case Err(NoSuchUser) => return Ok(drawn[i]);
        case Ok(_) =>
        case Err(e) => return Err(e);
      }
    }
    return Err(InternalError);
  }

  // ------------------------------------------------------------- keys

  datatype KeyInput = KeyInput(access: Option<string>, secret: Option<string>, generate: bool)

  // `key_request`: which key, if any, create or modify is to add.
  function KeyRequest(access: Option<string>, secret: Option<string>, generate: bool): Result<Option<KeyInput>> {
    if !generate && access.None? && secret.None? then Ok(None)
    else if !generate && access.Some? != secret.Some? then Err(InvalidArgument)
    else Ok(Some(KeyInput(access, secret, generate)))
  }

  function KeyId(t: Db, uid: UserId, key: KeyInput, draw: Draw): Result<string> {
    match key.access
    case Some(id) =>
      var _ :- KeyFree(t, uid, id);
      Ok(id)
    case None => if key.generate then UnusedKey(t, Take(draw.candidates, KEYGEN_ATTEMPTS)) else Err(InvalidArgument)
  }

  function KeySecret(key: KeyInput, draw: Draw): Result<string> {
    match key.secret
    case Some(secret) => Ok(secret)
    case None => if key.generate then Ok(draw.secret) else Err(InvalidArgument)
  }

  function WithKey(t: Db, info: UserInfo, key: KeyInput, draw: Draw): Result<UserInfo> {
    var id :- KeyId(t, info.userId, key, draw);
    var secret :- KeySecret(key, draw);
    Ok(info.(accessKeys := info.accessKeys[id := AccessKey(id, secret, "", true, draw.now)]))
  }

  // `put_key`: set or replace one key of the record.
  method PutKey(driver: Driver, info: UserInfo, key: KeyInput, draw: Draw) returns (r: Result<UserInfo>)
    ensures r == WithKey(driver.State(), info, key, draw)
  {
    hide KeyFree, UnusedKey;
    var id: string;
    match key.access {
      case Some(given) =>
        var _ :- EnsureKeyFree(driver, info.userId, given);
        id := given;
      case None =>
        if !key.generate { return Err(InvalidArgument); }
        id :- UnusedAccessKey(driver, draw.candidates);
    }
    var secret: string;
    match key.secret {
      case Some(given) => secret := given;
      case None =>
        if !key.generate { return Err(InvalidArgument); }
        secret := draw.secret;
    }
    return Ok(info.(accessKeys := info.accessKeys[id := AccessKey(id, secret, "", true, draw.now)]));
  }

  function WithKeyIf(t: Db, info: UserInfo, key: Option<KeyInput>, draw: Draw): Result<UserInfo> {
    if key.None? then Ok(info) else WithKey(t, info, key.value, draw)
  }

  // ------------------------------------------------------------- create and modify

  function GrantCaps(caps: Option<string>): Result<Caps> {
    if NonEmpty(caps).None? then Ok(map[])
    else
      match AddItems(map[], Split(caps.value, ';'))
      case (granted, Ok(_)) => Ok(granted)
      case (_, Err(e)) => Err(e)
  }

  function ClaimEmail(t: Db, uid: UserId, email: Option<string>, current: string): Result<string> {
    if email.None? then Ok(current)
    else if email.value == "" then Ok("")
    else
      var _ :- EmailFree(t, uid, email.value);
      Ok(email.value)
  }

  method GrantedCaps(caps: Option<string>) returns (r: Result<Caps>)
    ensures r == GrantCaps(caps)
  {
    hide Split, AddItems;
    if NonEmpty(caps).None? { return Ok(map[]); }
    var granted := new UserCaps(map[]);
    var _ :- granted.AddFromString(caps.value);
    return Ok(granted.entries);
  }

  method ClaimedEmail(driver: Driver, uid: UserId, email: Option<string>, current: string) returns (r: Result<string>)
    ensures r == ClaimEmail(driver.State(), uid, email, current)
  {
    hide EmailFree;
    if email.None? { return Ok(current); }
    if email.value != "" {
      var _ :- EnsureEmailFree(driver, uid, email.value);
    }
    return Ok(email.value);
  }

  function Created(p: CreateParams, caps: Caps, email: string, now: nat): UserInfo {
    UserInfo(p.uid, p.displayName, email, map[], caps,
             GetOr(p.suspended, false), GetOr(p.maxBuckets, DEFAULT_MAX_BUCKETS), GetOr(p.system, false),
             GetOr(p.admin, false), now)
  }

  // The record `user_create` is about to store.
  function CreateRecord(t: Db, p: CreateParams, draw: Draw): Result<UserInfo> {
    var _ :- Need(p.uid.id != "" && p.displayName != "", InvalidArgument);
    var access, secret := NonEmpty(p.accessKey), NonEmpty(p.secretKey);
    var key :- KeyRequest(access, secret, GetOr(p.generateKey, access.None? && secret.None?));
    var caps :- GrantCaps(p.caps);
    var email :- ClaimEmail(t, p.uid, p.email, "");
    WithKeyIf(t, Created(p, caps, email, draw.now), key, draw)
  }

  function Modified(info: UserInfo, p: ModifyParams, email: string): UserInfo {
    UserInfo(info.userId, GetOr(p.displayName, info.displayName), email, info.accessKeys, info.caps,
             GetOr(p.suspended, info.suspended), GetOr(p.maxBuckets, info.maxBuckets), GetOr(p.system, info.system),
             GetOr(p.admin, info.admin), info.createDate)
  }

  // The record `user_modify` is about to store.
  function ModifyRecord(t: Db, p: ModifyParams, draw: Draw): Result<UserInfo> {
    var _ :- Need(p.uid.id != "", InvalidArgument);
    var key :- KeyRequest(NonEmpty(p.accessKey), NonEmpty(p.secretKey), p.generateKey);
    var info :- LoadUser(t, p.uid);
    var _ :- Need(p.displayName != Some(""), InvalidArgument);
    var email :- ClaimEmail(t, info.userId, p.email, info.email);
    WithKeyIf(t, Modified(info, p, email), key, draw)
  }

  // Storing a prepared record.
  function Commit(t: Db, record: Result<UserInfo>, exclusive: bool): (Db, Result<UserInfo>) {
    match record
    case Err(e) => (t, Err(e))
    case Ok(info) =>
      match StoreUser(t, info, exclusive)
      case (next, Ok(_)) => (next, Ok(info))
      case (next, Err(e)) => (next, Err(e))
  }

  method Store(driver: Driver, info: UserInfo, exclusive: bool) returns (r: Result<UserInfo>)
    modifies driver
    ensures (driver.State(), r) == Commit(old(driver.State()), Ok(info), exclusive)
  {
    hide Tables.StoreUser;
    var _ :- driver.StoreUser(info, exclusive);
    return Ok(info);
  }

  method PutKeyIf(driver: Driver, info: UserInfo, key: Option<KeyInput>, draw: Draw) returns (r: Result<UserInfo>)
    ensures r == WithKeyIf(driver.State(), info, key, draw)
  {
    hide WithKey;
    if key.None? { return Ok(info); }
    r := PutKey(driver, info, key.value, draw);
  }

  method FillNew(p: CreateParams, caps: Caps, email: string, now: nat) returns (info: UserInfo)
    ensures info == Created(p, caps, email, now)
  {
    info := NewUser(p.uid, p.displayName, now);
    info := info.(caps := caps, email := email);
    if p.maxBuckets.Some? { info := info.(maxBuckets := p.maxBuckets.value); }
    info := info.(suspended := GetOr(p.suspended, false));
    info := info.(system := GetOr(p.system, false));
    info := info.(admin := GetOr(p.admin, false));
  }

  method PrepareCreate(driver: Driver, p: CreateParams, draw: Draw) returns (r: Result<UserInfo>)
    ensures r == CreateRecord(driver.State(), p, draw)
  {
    hide GrantCaps, ClaimEmail, WithKeyIf, KeyRequest, NonEmpty, GetOr, Created;
    if p.uid.id == "" || p.displayName == "" { return Err(InvalidArgument); }
    var access, secret := NonEmpty(p.accessKey), NonEmpty(p.secretKey);
    var key :- KeyRequest(access, secret, GetOr(p.generateKey, access.None? && secret.None?));
    var caps :- GrantedCaps(p.caps);
    var email :- ClaimedEmail(driver, p.uid, p.email, "");
    var info := FillNew(p, caps, email, draw.now);
    r := PutKeyIf(driver, info, key, draw);
  }

  method UserCreate(driver: Driver, p: CreateParams, draw: Draw) returns (r: Result<UserInfo>)
    modifies driver
    ensures var t := old(driver.State()); (driver.State(), r) == Commit(t, CreateRecord(t, p, draw), true)
  {
    hide CreateRecord, Tables.StoreUser;
    var info :- PrepareCreate(driver, p, draw);
    r := Store(driver, info, true);
  }

  method Update(current: UserInfo, p: ModifyParams, email: string) returns (info: UserInfo)
    ensures info == Modified(current, p, email)
  {
    var name, max := current.displayName, current.maxBuckets;
    var suspended, system, admin := current.suspended, current.system, current.admin;
    if p.displayName.Some? { name := p.displayName.value; }
    if p.maxBuckets.Some? { max := p.maxBuckets.value; }
    if p.suspended.Some? { suspended := p.suspended.value; }
    if p.system.Some? { system := p.system.value; }
    if p.admin.Some? { admin := p.admin.value; }
    info := current.(displayName := name, email := email, maxBuckets := max);
    info := info.(suspended := suspended, system := system, admin := admin);
  }

  method PrepareModify(driver: Driver, p: ModifyParams, draw: Draw) returns (r: Result<UserInfo>)
    ensures r == ModifyRecord(driver.State(), p, draw)
  {
    hide ClaimEmail, WithKeyIf, KeyRequest, Tables.LoadUser, NonEmpty, GetOr, Modified;
    if p.uid.id == "" { return Err(InvalidArgument); }
    var key :- KeyRequest(NonEmpty(p.accessKey), NonEmpty(p.secretKey), p.generateKey);
    var current :- driver.LoadUser(p.uid);
    if p.displayName == Some("") { return Err(InvalidArgument); }
    var email :- ClaimedEmail(driver, current.userId, p.email, current.email);
    var info := Update(current, p, email);
    r := PutKeyIf(driver, info, key, draw);
  }

  method UserModify(driver: Driver, p: ModifyParams, draw: Draw) returns (r: Result<UserInfo>)
    modifies driver
    ensures var t := old(driver.State()); (driver.State(), r) == Commit(t, ModifyRecord(t, p, draw), false)
  {
    hide ModifyRecord, Tables.StoreUser;
    var info :- PrepareModify(driver, p, draw);
    r := Store(driver, info, false);
  }

  // ------------------------------------------------------------- keys of an existing user

  function KeyCreateRecord(t: Db, uid: UserId, access: Option<string>, secret: Option<string>, generate: bool,
                           draw: Draw): Result<UserInfo>
  {
    var _ :- Need(uid.id != "", InvalidArgument);
    var info :- LoadUser(t, uid);
    WithKey(t, info, KeyInput(NonEmpty(access), NonEmpty(secret), generate), draw)
  }

  method KeyCreate(driver: Driver, uid: UserId, access: Option<string>, secret: Option<string>, generate: bool,
                   draw: Draw) returns (r: Result<UserInfo>)
    modifies driver
    ensures
      var t := old(driver.State());
      (driver.State(), r) == Commit(t, KeyCreateRecord(t, uid, access, secret, generate, draw), false)
  {
    hide WithKey, Tables.LoadUser, Tables.StoreUser;
    if uid.id == "" { return Err(InvalidArgument); }
    var info :- driver.LoadUser(uid);
    info :- PutKey(driver, info, KeyInput(NonEmpty(access), NonEmpty(secret), generate), draw);
    r := Store(driver, info, false);
  }

  function KeyRemoveRecord(t: Db, uid: UserId, accessKey: string): Result<UserInfo> {
    var _ :- Need(uid.id != "", InvalidArgument);
    var _ :- Need(accessKey != "", InvalidArgument);
    var info :- LoadUser(t, uid);
    var _ :- Need(accessKey in info.accessKeys, InvalidAccessKeyId);
    Ok(info.(accessKeys := info.accessKeys - {accessKey}))
  }

  method KeyRemove(driver: Driver, uid: UserId, accessKey: string) returns (r: Result<UserInfo>)
    modifies driver
    ensures var t := old(driver.State()); (driver.State(), r) == Commit(t, KeyRemoveRecord(t, uid, accessKey), false)
  {
    hide Tables.LoadUser, Tables.StoreUser;
    if uid.id == "" || accessKey == "" { return Err(InvalidArgument); }
    var info :- driver.LoadUser(uid);
    if accessKey !in info.accessKeys { return Err(InvalidAccessKeyId); }
    info := info.(accessKeys := info.accessKeys - {accessKey});
    r := Store(driver, info, false);
  }

  // ------------------------------------------------------------- capabilities of an existing user

  function ParseCaps(caps: string): Result<Caps> {
    if Trim(caps) == "" then Err(InvalidArgument)
    else
      match AddItems(map[], Split(caps, ';'))
      case (parsed, Ok(_)) => Ok(parsed)
      case (_, Err(e)) => Err(e)
  }

  method ParseCapsText(caps: string) returns (r: Result<Caps>)
    ensures r == ParseCaps(caps)
  {
    hide Trim, Split, AddItems;
    if Trim(caps) == "" { return Err(InvalidArgument); }
    var parsed := new UserCaps(map[]);
    var _ :- parsed.AddFromString(caps);
    return Ok(parsed.entries);
  }

  // Every permission of `given` added to, or taken from, what is held.
  function Granted(held: Caps, given: Caps): Caps {
    map cap | cap in held.Keys + given.Keys ::
      if cap !in given then held[cap] else if cap in held then held[cap].Union(given[cap]) else given[cap]
  }

  function Revoked(held: Caps, given: Caps): Caps {
    map cap | cap in held && (cap !in given || !held[cap].Difference(given[cap]).IsNone()) ::
      if cap in given then held[cap].Difference(given[cap]) else held[cap]
  }

  function CapsAddRecord(t: Db, uid: UserId, caps: string): Result<UserInfo> {
    var _ :- Need(uid.id != "", InvalidArgument);
    var parsed :- ParseCaps(caps);
    var info :- LoadUser(t, uid);
    Ok(info.(caps := Granted(info.caps, parsed)))
  }

  function CapsRemoveRecord(t: Db, uid: UserId, caps: string): Result<UserInfo> {
    var _ :- Need(uid.id != "", InvalidArgument);
    var parsed :- ParseCaps(caps);
    var info :- LoadUser(t, uid);
    Ok(info.(caps := Revoked(info.caps, parsed)))
  }

  lemma ParsedCapsPrintable(caps: string)
    requires ParseCaps(caps).Ok?
    ensures Printable(ParseCaps(caps).value)
  {
    hide AddItems, Split, Trim, VALID_CAP_TYPES;
    AddItemsKeepsPrintable(map[], Split(caps, ';'));
  }

  // The names of the given capabilities, each once.
  lemma Names(given: Caps) returns (names: seq<string>)
    ensures names == SortedNames(given.Keys) && Restricted(given, names) == given
    ensures forall i :: 0 <= i < |names| ==> names[i] in given && names[i] !in names[..i]
  {
    hide SortedNames, Restricted, Less;
    names := SortedNames(given.Keys);
    NamesSorted(given.Keys);
    forall i | 0 <= i < |names| ensures names[i] in given && names[i] !in names[..i] {
      assert names[i] in names;
      LessIrreflexive(names[i]);
    }
    RestrictedToAll(given, names);
  }

  lemma RestrictedToAll(given: Caps, names: seq<string>)
    requires forall cap :: cap in given ==> cap in names
    ensures Restricted(given, names) == given
  {
  }

  lemma OneMoreName(given: Caps, names: seq<string>, i: nat)
    requires i < |names| && names[i] in given && names[i] !in names[..i]
    ensures names[i] !in Restricted(given, names[..i])
    ensures Restricted(given, names[..i + 1]) == Restricted(given, names[..i])[names[i] := given[names[i]]]
  {
    assert names[..i + 1] == names[..i] + [names[i]];
  }

  method GrantEach(held: Caps, given: Caps) returns (r: Result<Caps>)
    requires forall cap :: cap in given ==> cap in VALID_CAP_TYPES
    ensures r == Ok(Granted(held, given))
  {
    hide VALID_CAP_TYPES, SortedNames, Restricted;
    var caps := new UserCaps(held);
    ghost var _ := Names(given);
    var names := SortedNames(given.Keys);
    NoneRestricted(given);
    for i := 0 to |names|
      invariant caps.entries == Granted(held, Restricted(given, names[..i]))
    {
      OneMoreName(given, names, i);
      var added := caps.Add(names[i], given[names[i]]);
      match added {
        case Err(e) => return Err(e);
        case Ok(_) =>
      }
    }
    assert names[..|names|] == names;
    return Ok(caps.entries);
  }

  lemma NoneRestricted(given: Caps)
    ensures Restricted(given, []) == map[]
  {
  }

  method RevokeEach(held: Caps, given: Caps) returns (r: Caps)
    ensures r == Revoked(held, given)
  {
    hide VALID_CAP_TYPES, SortedNames, Restricted;
    var caps := new UserCaps(held);
    ghost var _ := Names(given);
    var names := SortedNames(given.Keys);
    NoneRestricted(given);
    for i := 0 to |names|
      invariant caps.entries == Revoked(held, Restricted(given, names[..i]))
    {
      OneMoreName(given, names, i);
      caps.Remove(names[i], given[names[i]]);
    }
    assert names[..|names|] == names;
    return caps.entries;
  }

  method CapsAdd(driver: Driver, uid: UserId, caps: string) returns (r: Result<UserInfo>)
    modifies driver
    ensures var t := old(driver.State()); (driver.State(), r) == Commit(t, CapsAddRecord(t, uid, caps), false)
  {
    hide ParseCaps, Granted, Tables.LoadUser, Tables.StoreUser, VALID_CAP_TYPES;
    if uid.id == "" { return Err(InvalidArgument); }
    var parsed :- ParseCapsText(caps);
    ParsedCapsPrintable(caps);
    var info :- driver.LoadUser(uid);
    var granted := GrantEach(info.caps, parsed);
    match granted {
      case Err(e) => return Err(e);
      case Ok(all) => info := info.(caps := all);
    }
    r := Store(driver, info, false);
  }

  method CapsRemove(driver: Driver, uid: UserId, caps: string) returns (r: Result<UserInfo>)
    modifies driver
    ensures var t := old(driver.State()); (driver.State(), r) == Commit(t, CapsRemoveRecord(t, uid, caps), false)
  {
    hide ParseCaps, Revoked, Tables.LoadUser, Tables.StoreUser, VALID_CAP_TYPES;
    if uid.id == "" { return Err(InvalidArgument); }
    var parsed :- ParseCapsText(caps);
    var info :- driver.LoadUser(uid);
    var kept := RevokeEach(info.caps, parsed);
    info := info.(caps := kept);
    r := Store(driver, info, false);
  }

  // ------------------------------------------------------------- removal

  // `user_remove`.
  function UserRemove(t: Db, uid: UserId, purge: bool): (Db, Result<()>) {
    if uid.id == "" then (t, Err(InvalidArgument))
    else if LoadUser(t, uid).Err? then (t, Err(LoadUser(t, uid).error))
    else if !purge then
      match ListBuckets(t, Some(uid), "", 1)
      case Err(e) => (t, Err(e))
      case Ok(first) => if first.buckets != [] then (t, Err(InvalidRequest)) else RemoveUser(t, uid)
    else
      ListedExist(t, OwnerText(Some(uid)));
      match RemoveAll(t, ReadBuckets(t, ListedKeys(t, OwnerText(Some(uid)))))
      case (next, Err(e)) => (next, Err(e))
      case (next, Ok(_)) => RemoveUser(next, uid)
  }

  method PurgeAll(driver: Driver, infos: seq<BucketInfo>) returns (r: Result<()>)
    requires ObjectsPlaced(driver.State())
    modifies driver
    ensures (driver.State(), r) == RemoveAll(old(driver.State()), infos)
  {
    hide ObjectsPlaced, PurgeObjects, RemoveBucket;
    ghost var t := driver.State();
    for i := 0 to |infos|
      invariant ObjectsPlaced(driver.State())
      invariant RemoveAll(driver.State(), infos[i..]) == RemoveAll(t, infos)
    {
      assert infos[i..][1..] == infos[i + 1..];
      ghost var before := driver.State();
      var b := infos[i].bucket;
      var _ :- Purge(driver, b.bucketId);
      var _ :- driver.RemoveBucket(b.tenant, b.name);
      StillPlaced(before, b);
    }
    return Ok(());
  }

  method RemoveWithData(driver: Driver, uid: UserId, purge: bool) returns (r: Result<()>)
    requires ObjectsPlaced(driver.State())
    modifies driver
    ensures (driver.State(), r) == UserRemove(old(driver.State()), uid, purge)
  {
    hide ObjectsPlaced, RemoveAll, RemoveUser, ListedKeys, Tables.ListBuckets, Tables.LoadUser;
    if uid.id == "" { return Err(InvalidArgument); }
    var _ :- driver.LoadUser(uid);
    if !purge {
      var first :- driver.ListBuckets(Some(uid), "", 1);
      if first.buckets != [] { return Err(InvalidRequest); }
    } else {
      var listed := ListAllBuckets(driver, Some(uid));
      match listed {
        case Err(e) => return Err(e);
        case Ok(infos) => var _ :- PurgeAll(driver, infos);
      }
    }
    r := driver.RemoveUser(uid);
  }

  lemma StillPlaced(t: Db, b: BucketKey)
    requires ObjectsPlaced(t) && PurgeObjects(t, b.bucketId).1.Ok?
    requires RemoveBucket(PurgeObjects(t, b.bucketId).0, b.tenant, b.name).1.Ok?
    ensures ObjectsPlaced(RemoveBucket(PurgeObjects(t, b.bucketId).0, b.tenant, b.name).0)
  {
    var purged := Purged(t, b.bucketId);
    SameBuckets(t, purged);
    PlacedAfterRemoval(purged, b.tenant, b.name);
  }

  lemma PlacedAfterRemoval(t: Db, tenant: string, name: string)
    requires ObjectsPlaced(t) && RemoveBucket(t, tenant, name).1.Ok?
    ensures ObjectsPlaced(RemoveBucket(t, tenant, name).0)
  {
    var next := RemoveBucket(t, tenant, name).0;
    forall o | o in next.objects ensures BucketExists(next, o.bucketId) {
      var k :| k in t.buckets && t.buckets[k].bucketId == o.bucketId;
      assert k in next.buckets && next.buckets[k].bucketId == o.bucketId;
    }
  }
}
