// The `Authorization` header of Signature Version 4.
module Authorization {
  import opened Rgw
  import opened Text
  import opened Order
  import opened Signing

  const ALGORITHM := "AWS4-HMAC-SHA256"

  datatype AuthorizationV4 = AuthorizationV4(accessKeyId: string, scope: CredentialScope, signedHeaders: seq<string>,
                                             signature: string)

  datatype Field = Credential | SignedHeaders | Signature {
    function Name(): string {
      match this
      case Credential => "Credential"
      case SignedHeaders => "SignedHeaders"
      case Signature => "Signature"
    }
  }

  function FieldNamed(name: string): Option<Field> {
    if name == "Credential" then Some(Credential)
    else if name == "SignedHeaders" then Some(SignedHeaders)
    else if name == "Signature" then Some(Signature)
    else None
  }

  // The three slots the header's fields fill, each at most once.
  type Slots = map<Field, string>

  // ------------------------------------------------------------- the parser

  function TakeField(slots: Slots, field: string): Result<Slots> {
    var split := SplitOnce(field, '=');
    if split.None? then Err(AuthorizationHeaderMalformed)
    else
      var slot := FieldNamed(Trim(split.value.0));
      if slot.None? || slot.value in slots then Err(AuthorizationHeaderMalformed)
      else Ok(slots[slot.value := Trim(split.value.1)])
  }

  function TakeFields(slots: Slots, fields: seq<string>): Result<Slots>
    decreases |fields|
  {
    if fields == [] then Ok(slots)
    else if Trim(fields[0]) == "" then TakeFields(slots, fields[1..])
    else
      var next :- TakeField(slots, Trim(fields[0]));
      TakeFields(next, fields[1..])
  }

  datatype CredentialParts = CredentialParts(accessKeyId: string, date: string, region: string,
                                             service: string, terminator: string)

  // `rsplitn(5, '/')`: the access key id is everything before the last four components.
  function SplitCredential(credential: string): Option<CredentialParts> {
    var a := RSplitOnce(credential, '/');
    if a.None? then None else
    var b := RSplitOnce(a.value.0, '/');
    if b.None? then None else
    var c := RSplitOnce(b.value.0, '/');
    if c.None? then None else
    var d := RSplitOnce(c.value.0, '/');
    if d.None? then None else
    Some(CredentialParts(d.value.0, d.value.1, c.value.1, b.value.1, a.value.1))
  }

  predicate IsDate(s: string) {
    |s| == 8 && forall i :: 0 <= i < 8 ==> '0' <= s[i] <= '9'
  }

  predicate IsHeaderName(h: string) {
    h != "" && forall i :: 0 <= i < |h| ==> !('A' <= h[i] <= 'Z')
  }

  predicate AreSignedHeaders(names: seq<string>) {
    && (forall i :: 0 <= i < |names| ==> IsHeaderName(names[i]))
    && (forall i :: 0 <= i < |names| - 1 ==> Less(names[i], names[i + 1]))
    && "host" in names
  }

  predicate IsSignature(s: string) {
    |s| == 64 && forall i :: 0 <= i < 64 ==> DigitValue(s[i]).Some?
  }

  function Assemble(credential: string, signedHeaders: string, signature: string): Result<AuthorizationV4> {
    var parts := SplitCredential(credential);
    if parts.None? then Err(AuthorizationHeaderMalformed)
    else
      var CredentialParts(accessKeyId, date, region, service, terminator) := parts.value;
      var names := Split(signedHeaders, ';');
      if accessKeyId == "" || terminator != "aws4_request" || !IsDate(date) || service != "s3"
         || !AreSignedHeaders(names) || !IsSignature(signature)
      then Err(AuthorizationHeaderMalformed)
      else Ok(AuthorizationV4(accessKeyId, CredentialScope(date, region, service), names, Lower(signature)))
  }

  function Parse(value: string): Result<AuthorizationV4> {
    if !(ALGORITHM <= value) || |value| == |ALGORITHM| || value[|ALGORITHM|] !in " \t" then
      Err(AuthorizationHeaderMalformed)
    else
      var slots :- TakeFields(map[], Split(value[|ALGORITHM|..], ','));
      if Credential !in slots || SignedHeaders !in slots || Signature !in slots then Err(AuthorizationHeaderMalformed)
      else Assemble(slots[Credential], slots[SignedHeaders], slots[Signature])
  }

  // `parse_authorization`.
  method ParseAuthorization(value: string) returns (r: Result<AuthorizationV4>)
    ensures r == Parse(value)
  {
    hide Assemble, Split, TakeField;
    if !(ALGORITHM <= value) || |value| == |ALGORITHM| || value[|ALGORITHM|] !in " \t" {
      return Err(AuthorizationHeaderMalformed);
    }
    var fields := Split(value[|ALGORITHM|..], ',');
    var slots: Slots := map[];
    for i := 0 to |fields|
      invariant TakeFields(slots, fields[i..]) == TakeFields(map[], fields)
    {
      assert fields[i..][1..] == fields[i + 1..];
      var field := Trim(fields[i]);
      if field == "" {
        continue;
      }
      slots :- TakeField(slots, field);
    }
    if Credential !in slots || SignedHeaders !in slots || Signature !in slots {
      return Err(AuthorizationHeaderMalformed);
    }
    return Assemble(slots[Credential], slots[SignedHeaders], slots[Signature]);
  }

  // ------------------------------------------------------------- formatting, and what can be parsed

  function CredentialText(a: AuthorizationV4): string {
    a.accessKeyId + "/" + a.scope.date + "/" + a.scope.region + "/" + a.scope.service + "/" + "aws4_request"
  }

  function FieldValue(a: AuthorizationV4, f: Field): string {
    match f
    case Credential => CredentialText(a)
    case SignedHeaders => Join(a.signedHeaders, ";")
    case Signature => a.signature
  }

  function FieldText(a: AuthorizationV4, f: Field): string {
    f.Name() + "=" + FieldValue(a, f)
  }

  // The header with its fields in the given order, separated by a comma and any white space.
  function Format(a: AuthorizationV4, first: Field, second: Field, third: Field, gap: string): string {
    ALGORITHM + Join([" " + FieldText(a, first), gap + FieldText(a, second), gap + FieldText(a, third)], ",")
  }

  // Parts a header can carry.
  ghost predicate WellFormed(a: AuthorizationV4) {
    && a.accessKeyId != "" && IsDate(a.scope.date) && '/' !in a.scope.region && a.scope.service == "s3"
    && AreSignedHeaders(a.signedHeaders) && (forall h :: h in a.signedHeaders ==> ';' !in h)
    && |a.signature| == 64 && IsLowerHex(a.signature)
    && (forall f: Field :: Trimmed(FieldValue(a, f)) && ',' !in FieldValue(a, f))
  }

  lemma SplitCredentialIs(a: AuthorizationV4)
    requires '/' !in a.scope.date && '/' !in a.scope.region && '/' !in a.scope.service
    ensures SplitCredential(CredentialText(a))
         == Some(CredentialParts(a.accessKeyId, a.scope.date, a.scope.region, a.scope.service, "aws4_request"))
  {
    hide RSplitOnce;
    var k0 := a.accessKeyId;
    var k1 := k0 + "/" + a.scope.date;
    var k2 := k1 + "/" + a.scope.region;
    var k3 := k2 + "/" + a.scope.service;
    RSplitOnceIs(k3, '/', "aws4_request");
    RSplitOnceIs(k2, '/', a.scope.service);
    RSplitOnceIs(k1, '/', a.scope.region);
    RSplitOnceIs(k0, '/', a.scope.date);
  }

  lemma AssembleIs(a: AuthorizationV4)
    requires WellFormed(a)
    ensures Assemble(FieldValue(a, Credential), FieldValue(a, SignedHeaders), FieldValue(a, Signature)) == Ok(a)
  {
    hide SplitCredential, Split, Join, AreSignedHeaders, Trimmed;
    assert '/' !in a.scope.date && '/' !in a.scope.service;
    SplitCredentialIs(a);
    assert a.signedHeaders != [] by { hide *; HostIsThere(a.signedHeaders); }
    SplitJoin(a.signedHeaders, ';');
    assert Lower(a.signature) == a.signature;
  }

  lemma HostIsThere(names: seq<string>)
    requires AreSignedHeaders(names)
    ensures names != []
  {
  }

  lemma NameReads(f: Field)
    ensures '=' !in f.Name() && Trimmed(f.Name()) && FieldNamed(f.Name()) == Some(f)
  {
  }

  lemma TakesText(slots: Slots, f: Field, value: string)
    requires Trimmed(value) && f !in slots
    ensures TakeField(slots, f.Name() + "=" + value) == Ok(slots[f := value])
  {
    NameReads(f);
    hide Trim, SplitOnce, FieldNamed, Field.Name, Trimmed;
    var name := f.Name();
    SplitOnceIs(name, '=', value);
    TrimIdentity(name);
    TrimIdentity(value);
    assert name + "=" + value == name + ['='] + value;
  }

  lemma TakeFieldIs(a: AuthorizationV4, f: Field, slots: Slots, ws: string)
    requires WellFormed(a) && AllSpace(ws) && f !in slots
    ensures Trim(ws + FieldText(a, f)) != ""
    ensures TakeField(slots, Trim(ws + FieldText(a, f))) == Ok(slots[f := FieldValue(a, f)])
  {
    FieldIsTrimmed(a, f);
    hide WellFormed, FieldValue, Trim, SplitOnce, TakeField, FieldNamed, Field.Name, Trimmed, AllSpace;
    TrimLead(ws, FieldText(a, f));
    TakesText(slots, f, FieldValue(a, f));
  }

  lemma FieldIsTrimmed(a: AuthorizationV4, f: Field)
    requires WellFormed(a)
    ensures Trimmed(FieldValue(a, f)) && Trimmed(FieldText(a, f)) && ',' !in FieldText(a, f)
  {
    hide FieldValue;
  }

  // For every well-formed set of parts, in any order of the fields, formatting the header and parsing it returns
  // those parts.
  lemma ParseFormat(a: AuthorizationV4, first: Field, second: Field, third: Field, gap: string)
    requires WellFormed(a) && AllSpace(gap) && first != second && second != third && first != third
    ensures Parse(Format(a, first, second, third, gap)) == Ok(a)
  {
    hide WellFormed, FieldText, Format, Assemble, TakeField, Split, Join, FieldValue;
    var value := Format(a, first, second, third, gap);
    var t1, t2, t3 := " " + FieldText(a, first), gap + FieldText(a, second), gap + FieldText(a, third);
    FormatShape(a, first, second, third, gap);
    FieldIsTrimmed(a, first);
    FieldIsTrimmed(a, second);
    FieldIsTrimmed(a, third);
    SplitJoin([t1, t2, t3], ',');
    var s1 := map[first := FieldValue(a, first)];
    var s2 := s1[second := FieldValue(a, second)];
    var s3 := s2[third := FieldValue(a, third)];
    TakeFieldIs(a, first, map[], " ");
    TakeFieldIs(a, second, s1, gap);
    TakeFieldIs(a, third, s2, gap);
    TakeThree(t1, t2, t3, s1, s2, s3);
    AssembleIs(a);
    assert s3[Credential] == FieldValue(a, Credential);
  }

  lemma FormatShape(a: AuthorizationV4, first: Field, second: Field, third: Field, gap: string)
    ensures
      var value := Format(a, first, second, third, gap);
      && ALGORITHM <= value && |value| > |ALGORITHM| && value[|ALGORITHM|] == ' '
      && value[|ALGORITHM|..] ==
         Join([" " + FieldText(a, first), gap + FieldText(a, second), gap + FieldText(a, third)], ",")
  {
    hide FieldText;
    var t1, t2, t3 := " " + FieldText(a, first), gap + FieldText(a, second), gap + FieldText(a, third);
    JoinStarts(t1, [t2, t3]);
    assert [t1] + [t2, t3] == [t1, t2, t3];
  }

  lemma JoinStarts(t: string, more: seq<string>)
    requires t != ""
    ensures |Join([t] + more, ",")| > 0 && Join([t] + more, ",")[0] == t[0]
  {
  }

  lemma TakeThree(t1: string, t2: string, t3: string, s1: Slots, s2: Slots, s3: Slots)
    requires Trim(t1) != "" && TakeField(map[], Trim(t1)) == Ok(s1)
    requires Trim(t2) != "" && TakeField(s1, Trim(t2)) == Ok(s2)
    requires Trim(t3) != "" && TakeField(s2, Trim(t3)) == Ok(s3)
    ensures TakeFields(map[], [t1, t2, t3]) == Ok(s3)
  {
    hide TakeField, Trim;
    assert [t1, t2, t3][1..] == [t2, t3] && [t2, t3][1..] == [t3] && [t3][1..] == [];
    assert TakeFields(s3, []) == Ok(s3);
    assert TakeFields(s2, [t3]) == Ok(s3);
    assert TakeFields(s1, [t2, t3]) == Ok(s3);
  }

  // ------------------------------------------------------------- whatever parses is well formed

  ghost predicate CleanSlots(slots: Slots) {
    forall f :: f in slots ==> Trimmed(slots[f]) && ',' !in slots[f]
  }

  lemma TakeFieldClean(slots: Slots, field: string)
    requires CleanSlots(slots) && ',' !in field && TakeField(slots, field).Ok?
    ensures CleanSlots(TakeField(slots, field).value)
  {
    hide SplitOnce, Trim, Trimmed;
    SplitOnceShape(field, '=');
    var value := SplitOnce(field, '=').value.1;
    TrimTrims(value);
    assert forall c :: c in value ==> c in field;
  }

  lemma {:induction false} TakeFieldsClean(slots: Slots, fields: seq<string>)
    requires CleanSlots(slots) && (forall i :: 0 <= i < |fields| ==> ',' !in fields[i]) && TakeFields(slots, fields).Ok?
    ensures CleanSlots(TakeFields(slots, fields).value)
    decreases |fields|
  {
    hide Trim, TakeField, CleanSlots;
    if fields != [] {
      TrimTrims(fields[0]);
      if Trim(fields[0]) == "" {
        TakeFieldsClean(slots, fields[1..]);
      } else {
        TakeFieldClean(slots, Trim(fields[0]));
        TakeFieldsClean(TakeField(slots, Trim(fields[0])).value, fields[1..]);
      }
    }
  }

  lemma AssembleWellFormed(credential: string, signedHeaders: string, signature: string)
    requires Trimmed(credential) && ',' !in credential && Trimmed(signedHeaders) && ',' !in signedHeaders
    requires Assemble(credential, signedHeaders, signature).Ok?
    ensures WellFormed(Assemble(credential, signedHeaders, signature).value)
  {
    hide SplitCredential, Split, Join, AreSignedHeaders, CredentialText, Trimmed;
    var a := Assemble(credential, signedHeaders, signature).value;
    CredentialTextIs(credential);
    JoinSplit(signedHeaders, ';');
    SplitParts(signedHeaders, ';');
    LowerHexSignature(signature);
    forall f: Field ensures Trimmed(FieldValue(a, f)) && ',' !in FieldValue(a, f) {
      match f
      case Credential =>
      case SignedHeaders =>
      case Signature => assert Trimmed(a.signature) by { LowerHexTrimmed(a.signature); }
    }
  }

  lemma LowerHexTrimmed(s: string)
    requires IsLowerHex(s)
    ensures Trimmed(s) && ',' !in s
  {
  }

  lemma LowerHexSignature(s: string)
    requires IsSignature(s)
    ensures |Lower(s)| == 64 && IsLowerHex(Lower(s)) && ',' !in Lower(s)
  {
  }

  // The four components and the id, put back together, are the credential that was split.
  lemma CredentialTextIs(credential: string)
    requires SplitCredential(credential).Some?
    ensures
      var p := SplitCredential(credential).value;
      && '/' !in p.region
      && (p.terminator == "aws4_request" ==>
            forall names, signature ::
              CredentialText(AuthorizationV4(p.accessKeyId, CredentialScope(p.date, p.region, p.service),
                                             names, signature)) == credential)
  {
    hide RSplitOnce;
    RSplitOnceShape(credential, '/');
    var a := RSplitOnce(credential, '/').value.0;
    RSplitOnceShape(a, '/');
    var b := RSplitOnce(a, '/').value.0;
    RSplitOnceShape(b, '/');
    var c := RSplitOnce(b, '/').value.0;
    RSplitOnceShape(c, '/');
  }

  // Well-formedness is exactly what the parser can return: whatever parses is well formed, so formatting it and
  // parsing again gives the same parts.
  lemma ParsedIsWellFormed(value: string)
    requires Parse(value).Ok?
    ensures WellFormed(Parse(value).value)
    ensures Parse(Format(Parse(value).value, Credential, SignedHeaders, Signature, " ")) == Parse(value)
  {
    hide Split, TakeFields, Assemble, WellFormed, Format, CleanSlots;
    var fields := Split(value[|ALGORITHM|..], ',');
    SplitParts(value[|ALGORITHM|..], ',');
    assert forall i :: 0 <= i < |fields| ==> fields[i] in fields;
    var slots := TakeFields(map[], fields).value;
    assert CleanSlots(slots) by { NoSlots(); TakeFieldsClean(map[], fields); }
    SlotsClean(slots, Credential);
    SlotsClean(slots, SignedHeaders);
    AssembleWellFormed(slots[Credential], slots[SignedHeaders], slots[Signature]);
    assert AllSpace(" ");
    ParseFormat(Parse(value).value, Credential, SignedHeaders, Signature, " ");
  }

  lemma NoSlots()
    ensures CleanSlots(map[])
  {
  }

  lemma SlotsClean(slots: Slots, f: Field)
    requires CleanSlots(slots) && f in slots
    ensures Trimmed(slots[f]) && ',' !in slots[f]
  {
  }
}
