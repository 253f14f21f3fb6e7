// User records, their capabilities, and the document form the store keeps them in.
module Users {
  import opened Rgw
  import opened Text
  import opened Order
  import opened Entities

  // ------------------------------------------------------------- capabilities

  // The two permission bits.
  datatype CapPerm = CapPerm(read: bool, write: bool) {
    predicate IsNone() {
      !read && !write
    }

    function Union(other: CapPerm): CapPerm {
      CapPerm(read || other.read, write || other.write)
    }

    function Difference(other: CapPerm): CapPerm {
      CapPerm(read && !other.read, write && !other.write)
    }

    // `perm_to_str`.
    function ToString(): string {
      if read && write then "*" else if read then "read" else if write then "write" else "<invalid>"
    }
  }

  const NO_PERM := CapPerm(false, false)

  function PartPerm(part: string): Option<CapPerm> {
    if part == "*" then Some(CapPerm(true, true))
    else if part == "read" then Some(CapPerm(true, false))
    else if part == "write" then Some(CapPerm(false, true))
    else None
  }

  function ParseParts(parts: seq<string>, perm: CapPerm): Result<CapPerm> {
    if parts == [] then Ok(perm)
    else
      var p := PartPerm(Trim(parts[0]));
      if p.None? then Err(InvalidArgument) else ParseParts(parts[1..], perm.Union(p.value))
  }

  // `CapPerm::parse` as a function of the text.
  function ParsePerm(s: string): Result<CapPerm> {
    ParseParts(Split(s, ','), NO_PERM)
  }

  method ParseCapPerm(s: string) returns (r: Result<CapPerm>)
    ensures r == ParsePerm(s)
  {
    hide Split, PartPerm, Trim;
    var perm := NO_PERM;
    var parts := Split(s, ',');
    for i := 0 to |parts|
      invariant ParseParts(parts[i..], perm) == ParseParts(parts, NO_PERM)
    {
      assert parts[i..][1..] == parts[i + 1..];
      var p := PartPerm(Trim(parts[i]));
      if p.None? { return Err(InvalidArgument); }
      perm := perm.Union(p.value);
    }
    return Ok(perm);
  }

  // No text parses to the empty permission set.
  lemma {:induction false} ParsedPermIsSome(parts: seq<string>, perm: CapPerm)
    requires ParseParts(parts, perm).Ok? && (parts != [] || !perm.IsNone())
    ensures !ParseParts(parts, perm).value.IsNone()
  {
    hide Trim;
    if parts != [] {
      ParsedPermIsSome(parts[1..], perm.Union(PartPerm(Trim(parts[0])).value));
    }
  }

  lemma OnePart(s: string)
    requires ',' !in s && Trimmed(s)
    ensures ParsePerm(s) == if PartPerm(s).Some? then Ok(NO_PERM.Union(PartPerm(s).value)) else Err(InvalidArgument)
  {
    hide Trim, PartPerm, SplitOnce;
    SplitOnceShape(s, ',');
    assert Split(s, ',') == [s];
    TrimIdentity(s);
    assert [s][1..] == [];
    var none: seq<string> := [];
    assert PartPerm(s).Some? ==>
      ParseParts(none, NO_PERM.Union(PartPerm(s).value)) == Ok(NO_PERM.Union(PartPerm(s).value));
  }

  // A permission set prints and parses back exactly when it is not empty.
  lemma PermRoundTrip(p: CapPerm)
    ensures ParsePerm(p.ToString()) == if p.IsNone() then Err(InvalidArgument) else Ok(p)
  {
    hide ParsePerm;
    OnePart(p.ToString());
  }

  const VALID_CAP_TYPES: set<string> := {
    "user", "users", "bucket", "buckets", "metadata", "info", "usage", "zone", "bilog", "mdlog", "datalog", "roles",
    "user-policy", "amz-cache", "oidc-provider", "ratelimit", "user-info-without-keys", "accounts"
  }

  type Caps = map<string, CapPerm>

  function AddCap(caps: Caps, cap: string, perm: CapPerm): Result<Caps> {
    if cap !in VALID_CAP_TYPES then Err(InvalidArgument)
    else Ok(caps[cap := if cap in caps then caps[cap].Union(perm) else perm])
  }

  function RemoveCap(caps: Caps, cap: string, perm: CapPerm): Caps {
    if cap !in caps then caps
    else if caps[cap].Difference(perm).IsNone() then caps - {cap}
    else caps[cap := caps[cap].Difference(perm)]
  }

  // One `type=perm` item.
  function AddItem(caps: Caps, item: string): Result<Caps> {
    var split := SplitOnce(item, '=');
    if split.None? then Err(InvalidArgument)
    else
      var perm :- ParsePerm(split.value.1);
      AddCap(caps, Trim(split.value.0), perm)
  }

  // Items in turn; what was added before a bad item stays.
  function AddItems(caps: Caps, items: seq<string>): (Caps, Result<()>)
    decreases |items|
  {
    if items == [] then (caps, Ok(()))
    else if Trim(items[0]) == "" then AddItems(caps, items[1..])
    else
      match AddItem(caps, Trim(items[0]))
      case Err(e) => (caps, Err(e))
      case Ok(next) => AddItems(next, items[1..])
  }

  // `RGWUserCaps`: capability type to permission bits.
  class UserCaps {
    var entries: Caps

    constructor (initial: Caps)
      ensures entries == initial
    {
      entries := initial;
    }

    method Add(cap: string, perm: CapPerm) returns (r: Result<()>)
      modifies this
      ensures match AddCap(old(entries), cap, perm)
              case Err(e) => r == Err(e) && entries == old(entries)
              case Ok(next) => r == Ok(()) && entries == next
    {
      if cap !in VALID_CAP_TYPES { return Err(InvalidArgument); }
      var entry := if cap in entries then entries[cap] else NO_PERM;
      entries := entries[cap := entry.Union(perm)];
      return Ok(());
    }

    method Remove(cap: string, perm: CapPerm)
      modifies this
      ensures entries == RemoveCap(old(entries), cap, perm)
    {
      if cap in entries {
        entries := entries[cap := entries[cap].Difference(perm)];
        if entries[cap].IsNone() {
          entries := entries - {cap};
          assert entries == old(entries) - {cap};
        }
      }
    }

    // `users=*;buckets=read`.
    method AddFromString(s: string) returns (r: Result<()>)
      modifies this
      ensures (entries, r) == AddItems(old(entries), Split(s, ';'))
    {
      hide AddCap, Split, Trim, ParsePerm;
      var items := Split(s, ';');
      for i := 0 to |items|
        invariant AddItems(entries, items[i..]) == AddItems(old(entries), items)
      {
        assert items[i..][1..] == items[i + 1..];
        var item := Trim(items[i]);
        if item == "" { continue; }
        var split := SplitOnce(item, '=');
        if split.None? { return Err(InvalidArgument); }
        var perm := ParseCapPerm(split.value.1);
        if perm.Err? { return Err(perm.error); }
        var added := Add(Trim(split.value.0), perm.value);
        if added.Err? { return added; }
      }
      return Ok(());
    }
  }

  // ------------------------------------------------------------- the list form of the capabilities

  datatype CapEntry = CapEntry(capType: string, perm: string)

  function EntriesOf(caps: Caps, names: seq<string>): seq<CapEntry>
    requires forall i :: 0 <= i < |names| ==> names[i] in caps
  {
    if names == [] then [] else [CapEntry(names[0], caps[names[0]].ToString())] + EntriesOf(caps, names[1..])
  }

  // In key order, as a BTreeMap iterates.
  function Serialize(caps: Caps): seq<CapEntry> {
    NamesSorted(caps.Keys);
    assert forall i :: 0 <= i < |SortedNames(caps.Keys)| ==> SortedNames(caps.Keys)[i] in SortedNames(caps.Keys);
    EntriesOf(caps, SortedNames(caps.Keys))
  }

  function Deserialize(caps: Caps, entries: seq<CapEntry>): Result<Caps>
    decreases |entries|
  {
    if entries == [] then Ok(caps)
    else
      var perm :- ParsePerm(entries[0].perm);
      var next :- AddCap(caps, entries[0].capType, perm);
      Deserialize(next, entries[1..])
  }

  // What every capability the admin operations grant satisfies.
  ghost predicate Printable(caps: Caps) {
    forall cap :: cap in caps ==> cap in VALID_CAP_TYPES && !caps[cap].IsNone()
  }

  function Restricted(caps: Caps, names: seq<string>): Caps {
    map cap | cap in caps && cap in names :: caps[cap]
  }

  lemma {:induction false} EntriesRead(caps: Caps, names: seq<string>, acc: Caps)
    requires forall i :: 0 <= i < |names| ==> names[i] in caps
    requires Ascending(names) && forall i :: 0 <= i < |names| ==> names[i] !in acc
    ensures Deserialize(acc, EntriesOf(caps, names))
         == if Printable(Restricted(caps, names)) then Ok(acc + Restricted(caps, names)) else Err(InvalidArgument)
  {
    hide VALID_CAP_TYPES, ParsePerm, Printable, Restricted;
    if names == [] {
      NothingRestricted(caps, acc);
    } else {
      var cap, rest := names[0], names[1..];
      var perm := caps[cap];
      PermRoundTrip(perm);
      assert EntriesOf(caps, names)[1..] == EntriesOf(caps, rest);
      RestrictedFirst(caps, names);
      if cap in VALID_CAP_TYPES && !perm.IsNone() {
        EntriesRead(caps, rest, acc[cap := perm]);
        assert acc[cap := perm] + Restricted(caps, rest) == acc + Restricted(caps, rest)[cap := perm];
      }
    }
  }

  lemma NothingRestricted(caps: Caps, acc: Caps)
    ensures acc + Restricted(caps, []) == acc && Printable(Restricted(caps, []))
  {
  }

  lemma RestrictedFirst(caps: Caps, names: seq<string>)
    requires names != [] && Ascending(names) && names[0] in caps
    ensures names[0] !in names[1..] && names[0] !in Restricted(caps, names[1..])
    ensures Restricted(caps, names) == Restricted(caps, names[1..])[names[0] := caps[names[0]]]
    ensures forall i :: 0 <= i < |names[1..]| ==> names[1..][i] != names[0]
    ensures Printable(Restricted(caps, names))
      <==> Printable(Restricted(caps, names[1..])) && names[0] in VALID_CAP_TYPES && !caps[names[0]].IsNone()
  {
    hide VALID_CAP_TYPES;
    LessIrreflexive(names[0]);
    var all, rest := Restricted(caps, names), Restricted(caps, names[1..]);
    assert all == rest[names[0] := caps[names[0]]];
    if Printable(all) {
      assert forall cap :: cap in rest ==> cap in all && all[cap] == rest[cap];
      assert names[0] in all;
    }
  }

  // The list form reads back exactly when every entry has a valid type and a non-empty permission set.
  lemma CapsRoundTrip(caps: Caps)
    ensures Deserialize(map[], Serialize(caps)) == if Printable(caps) then Ok(caps) else Err(InvalidArgument)
  {
    hide Deserialize, EntriesOf, Printable;
    var names := SortedNames(caps.Keys);
    NamesSorted(caps.Keys);
    assert forall i :: 0 <= i < |names| ==> names[i] in names;
    EntriesRead(caps, names, map[]);
    assert Restricted(caps, names) == caps && map[] + caps == caps;
  }

  // ------------------------------------------------------------- what the operations can grant

  lemma AddCapKeepsPrintable(caps: Caps, cap: string, perm: CapPerm)
    requires Printable(caps) && !perm.IsNone() && AddCap(caps, cap, perm).Ok?
    ensures Printable(AddCap(caps, cap, perm).value)
  {
    hide VALID_CAP_TYPES;
  }

  lemma {:induction false} AddItemsKeepsPrintable(caps: Caps, items: seq<string>)
    requires Printable(caps)
    ensures Printable(AddItems(caps, items).0)
    decreases |items|
  {
    hide VALID_CAP_TYPES, Printable, Trim, AddCap, ParseParts, Split, SplitOnce;
    if items != [] {
      var item := Trim(items[0]);
      if item != "" && AddItem(caps, item).Ok? {
        var (cap, text) := SplitOnce(item, '=').value;
        ParsedPermIsSome(Split(text, ','), NO_PERM);
        AddCapKeepsPrintable(caps, Trim(cap), ParsePerm(text).value);
        AddItemsKeepsPrintable(AddItem(caps, item).value, items[1..]);
      } else if item == "" {
        AddItemsKeepsPrintable(caps, items[1..]);
      }
    }
  }

  // ------------------------------------------------------------- records

  datatype AccessKey = AccessKey(id: string, key: string, subuser: string, active: bool, createDate: nat)

  datatype UserInfo = UserInfo(userId: UserId, displayName: string, email: string, accessKeys: map<string, AccessKey>,
                               caps: Caps, suspended: bool, maxBuckets: int, system: bool, admin: bool, createDate: nat)

  const DEFAULT_MAX_BUCKETS := 1000

  function NewUser(userId: UserId, displayName: string, now: nat): UserInfo {
    UserInfo(userId, displayName, "", map[], map[], false, DEFAULT_MAX_BUCKETS, false, false, now)
  }

  // The stored document: the id in its string form, the capabilities as a list.
  datatype UserDoc = UserDoc(userId: string, displayName: string, email: string, accessKeys: map<string, AccessKey>,
                             caps: seq<CapEntry>, suspended: bool, maxBuckets: int, system: bool, admin: bool,
                             createDate: nat)

  function ToDoc(info: UserInfo): UserDoc {
    UserDoc(info.userId.ToString(), info.displayName, info.email, info.accessKeys, Serialize(info.caps), info.suspended,
            info.maxBuckets, info.system, info.admin, info.createDate)
  }

  function FromDoc(doc: UserDoc): Result<UserInfo> {
    match Deserialize(map[], doc.caps)
    case Err(_) => Err(InternalError)
    case Ok(caps) =>
      Ok(UserInfo(ParseUserId(doc.userId), doc.displayName, doc.email, doc.accessKeys, caps, doc.suspended,
                  doc.maxBuckets, doc.system, doc.admin, doc.createDate))
  }

  // A record reads back as it was written exactly when its id is canonical and its capabilities print.
  lemma RecordRoundTrip(info: UserInfo)
    ensures FromDoc(ToDoc(info)) == Ok(info) <==> info.userId.Canonical() && Printable(info.caps)
  {
    hide Deserialize, Serialize, Printable;
    CapsRoundTrip(info.caps);
    UserIdRoundTrip(info.userId);
  }
}
