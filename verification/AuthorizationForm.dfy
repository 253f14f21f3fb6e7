// Exactly which `Authorization` headers parse, and to what.
module AuthorizationForm {
  import opened Rgw
  import opened Text
  import opened Order
  import opened Signing
  import opened Authorization

  // ------------------------------------------------------------- fields

  function Word(f: Field): string {
    match f
    case Credential => "Credential"
    case SignedHeaders => "SignedHeaders"
    case Signature => "Signature"
  }

  // The field says `name=value`, white space around either left out.
  ghost predicate Says(field: string, f: Field, v: string) {
    exists name, x :: Trim(field) == name + "=" + x && '=' !in name && Trim(name) == Word(f) && Trim(x) == v
  }

  ghost predicate Mentions(field: string, f: Field) {
    exists v :: Says(field, f, v)
  }

  lemma SaysIs(field: string, f: Field, v: string)
    ensures
      var split := SplitOnce(Trim(field), '=');
      Says(field, f, v) <==> split.Some? && FieldNamed(Trim(split.value.0)) == Some(f) && Trim(split.value.1) == v
  {
    hide SplitOnce, Trim, FieldNamed, Word;
    SplitOnceShape(Trim(field), '=');
    if SplitOnce(Trim(field), '=').Some? { NamedIs(Trim(SplitOnce(Trim(field), '=').value.0), f); }
    forall name, x | Trim(field) == name + "=" + x && '=' !in name
      ensures SplitOnce(Trim(field), '=') == Some((name, x))
    {
      SplitOnceIs(name, '=', x);
    }
  }

  lemma NamedIs(name: string, f: Field)
    ensures FieldNamed(name) == Some(f) <==> name == Word(f)
  {
  }

  lemma SaysOnce(field: string, f: Field, v: string, g: Field, w: string)
    requires Says(field, f, v) && Says(field, g, w)
    ensures f == g && v == w
  {
    hide Says, SplitOnce, Trim, FieldNamed;
    SaysIs(field, f, v);
    SaysIs(field, g, w);
  }

  // A field is taken exactly when it is one of the three and not yet there.
  lemma TakesSaid(slots: Slots, field: string, f: Field, v: string)
    requires Says(field, f, v)
    ensures Trim(field) != ""
    ensures TakeField(slots, Trim(field))
         == if f in slots then Err(AuthorizationHeaderMalformed) else Ok(slots[f := v])
  {
    hide Says, SplitOnce, Trim, FieldNamed;
    SaysIs(field, f, v);
    if Trim(field) == "" { BlankSaysNothing(field, f); }
  }

  lemma TakesNothing(slots: Slots, field: string)
    requires forall f :: !Mentions(field, f)
    ensures TakeField(slots, Trim(field)) == Err(AuthorizationHeaderMalformed)
  {
    hide Says, SplitOnce, Trim, FieldNamed, Mentions;
    if SplitOnce(Trim(field), '=').Some? {
      forall f: Field ensures FieldNamed(Trim(SplitOnce(Trim(field), '=').value.0)) != Some(f) {
        MentionsNamed(field, f);
      }
    }
  }

  lemma MentionsNamed(field: string, f: Field)
    requires SplitOnce(Trim(field), '=').Some? && !Mentions(field, f)
    ensures FieldNamed(Trim(SplitOnce(Trim(field), '=').value.0)) != Some(f)
  {
    hide Says, SplitOnce, Trim, FieldNamed;
    SaysIs(field, f, Trim(SplitOnce(Trim(field), '=').value.1));
  }

  lemma BlankSaysNothing(field: string, f: Field)
    requires Trim(field) == ""
    ensures !Mentions(field, f)
  {
  }

  // How many fields mention `f`.
  ghost function Times(fields: seq<string>, f: Field): nat {
    if fields == [] then 0 else (if Mentions(fields[0], f) then 1 else 0) + Times(fields[1..], f)
  }

  ghost predicate SaysOne(field: string) {
    Trim(field) == "" || exists f :: Mentions(field, f)
  }

  ghost predicate EachSays(fields: seq<string>) {
    forall i :: 0 <= i < |fields| ==> SaysOne(fields[i])
  }

  ghost predicate Said(fields: seq<string>, f: Field, v: string) {
    exists i :: 0 <= i < |fields| && Says(fields[i], f, v)
  }

  lemma SaidFirst(fields: seq<string>, f: Field, v: string)
    requires fields != []
    ensures Said(fields, f, v) <==> Says(fields[0], f, v) || Said(fields[1..], f, v)
    ensures EachSays(fields) <==> SaysOne(fields[0]) && EachSays(fields[1..])
  {
    hide Says, SaysOne;
    assert fields == [fields[0]] + fields[1..];
  }

  // No slot would be filled twice.
  ghost predicate Fits(slots: Slots, fields: seq<string>) {
    EachSays(fields) && forall f :: Times(fields, f) + (if f in slots then 1 else 0) <= 1
  }

  lemma FitsFirst(slots: Slots, fields: seq<string>, f: Field, v: string)
    requires fields != [] && Says(fields[0], f, v)
    ensures Fits(slots, fields) <==> f !in slots && Fits(slots[f := v], fields[1..])
  {
    hide Says;
    SaidFirst(fields, f, v);
    hide EachSays;
    forall g, w | Says(fields[0], g, w) ensures g == f { SaysOnce(fields[0], f, v, g, w); }
    forall g ensures Times(fields, g) == (if g == f then 1 else 0) + Times(fields[1..], g) {
      assert Mentions(fields[0], g) <==> g == f;
    }
    if Fits(slots[f := v], fields[1..]) {
      assert Times(fields[1..], f) == 0;
    }
  }

  lemma FitsBlank(slots: Slots, fields: seq<string>)
    requires fields != [] && Trim(fields[0]) == ""
    ensures Fits(slots, fields) <==> Fits(slots, fields[1..])
  {
    hide Says, Trim;
    SaidFirst(fields, Credential, "");
    hide EachSays;
    forall g ensures Times(fields, g) == Times(fields[1..], g) { BlankSaysNothing(fields[0], g); }
  }

  lemma TakesRest(slots: Slots, fields: seq<string>, next: Slots)
    requires fields != [] && (if Trim(fields[0]) == "" then next == slots
                              else TakeField(slots, Trim(fields[0])) == Ok(next))
    ensures TakeFields(slots, fields) == TakeFields(next, fields[1..])
  {
    hide Trim, TakeField;
  }

  lemma TakesError(slots: Slots, fields: seq<string>)
    requires fields != [] && Trim(fields[0]) != ""
    requires TakeField(slots, Trim(fields[0])) == Err(AuthorizationHeaderMalformed)
    ensures TakeFields(slots, fields) == Err(AuthorizationHeaderMalformed)
  {
    hide Trim, TakeField;
  }

  // The slots get filled exactly where every field that is not blank is one of the three, none of them twice.
  lemma {:induction false} TakeFieldsFit(slots: Slots, fields: seq<string>)
    ensures TakeFields(slots, fields).Ok? <==> Fits(slots, fields)
    ensures TakeFields(slots, fields).Err? ==> TakeFields(slots, fields) == Err(AuthorizationHeaderMalformed)
    decreases |fields|
  {
    hide TakeField, TakeFields, Trim, Says, Said, Fits;
    if fields == [] {
      NoneTaken(slots);
    } else if Trim(fields[0]) == "" {
      FitsBlank(slots, fields);
      TakesRest(slots, fields, slots);
      TakeFieldsFit(slots, fields[1..]);
    } else if g, w :| Says(fields[0], g, w) {
      FitsFirst(slots, fields, g, w);
      TakesSaid(slots, fields[0], g, w);
      if g in slots {
        TakesError(slots, fields);
      } else {
        TakesRest(slots, fields, slots[g := w]);
        TakeFieldsFit(slots[g := w], fields[1..]);
      }
    } else {
      TakesNothing(slots, fields[0]);
      TakesError(slots, fields);
      NothingFits(slots, fields);
    }
  }

  lemma NoneTaken(slots: Slots)
    ensures TakeFields(slots, []) == Ok(slots) && Fits(slots, [])
  {
  }

  // A slot holds what its field says.
  lemma {:induction false} TakeFieldsHold(slots: Slots, fields: seq<string>, f: Field, v: string)
    requires TakeFields(slots, fields).Ok?
    ensures
      var r := TakeFields(slots, fields).value;
      f in r && r[f] == v <==> (f in slots && slots[f] == v) || Said(fields, f, v)
    decreases |fields|
  {
    hide TakeField, TakeFields, Trim, Says, Said, Fits;
    if fields == [] {
      NoneTaken(slots);
      NoneSaid(f, v);
    } else {
      SaidFirst(fields, f, v);
      if Trim(fields[0]) == "" {
        TakesRest(slots, fields, slots);
        BlankSaysNothing(fields[0], f);
        TakeFieldsHold(slots, fields[1..], f, v);
      } else if g, w :| Says(fields[0], g, w) {
        TakesSaid(slots, fields[0], g, w);
        if g in slots {
          TakesError(slots, fields);
        } else {
          TakesRest(slots, fields, slots[g := w]);
          if Says(fields[0], f, v) { SaysOnce(fields[0], f, v, g, w); }
          TakeFieldsHold(slots[g := w], fields[1..], f, v);
        }
      } else {
        TakesNothing(slots, fields[0]);
        TakesError(slots, fields);
      }
    }
  }

  lemma NoneSaid(f: Field, v: string)
    ensures !Said([], f, v)
  {
  }

  lemma NothingFits(slots: Slots, fields: seq<string>)
    requires fields != [] && Trim(fields[0]) != "" && forall f :: !Mentions(fields[0], f)
    ensures !Fits(slots, fields)
  {
    hide Says, Trim;
  }

  // ------------------------------------------------------------- the three values

  // The access key id, an eight-digit date, the region, and two fixed words, with slashes in between.
  ghost predicate CredentialIs(credential: string, id: string, scope: CredentialScope) {
    && credential == id + "/" + scope.date + "/" + scope.region + "/" + "s3" + "/" + "aws4_request"
    && scope.service == "s3" && id != "" && '/' !in scope.region
    && |scope.date| == 8 && forall i :: 0 <= i < 8 ==> '0' <= scope.date[i] <= '9'
  }

  // Names between semicolons, in ascending order, none empty or with an upper-case letter, `host` among them.
  ghost predicate SignedHeadersAre(text: string, names: seq<string>) {
    && names == Split(text, ';') && "host" in names
    && (forall i :: 0 <= i < |names| - 1 ==> Less(names[i], names[i + 1]))
    && (forall i :: 0 <= i < |names| ==> names[i] != "")
    && (forall i, k :: 0 <= i < |names| && 0 <= k < |names[i]| ==> !('A' <= names[i][k] <= 'Z'))
  }

  // 64 hex digits of either case; lower case is kept.
  ghost predicate SignatureIs(text: string, signature: string) {
    && |text| == 64 && signature == Lower(text)
    && forall i :: 0 <= i < 64 ==> '0' <= text[i] <= '9' || 'a' <= text[i] <= 'f' || 'A' <= text[i] <= 'F'
  }

  function Whole(id: string, scope: CredentialScope): AuthorizationV4 {
    AuthorizationV4(id, scope, [], "")
  }

  lemma CredentialMeans(credential: string, id: string, scope: CredentialScope)
    ensures CredentialIs(credential, id, scope)
      <==> && SplitCredential(credential) == Some(CredentialParts(id, scope.date, scope.region, "s3", "aws4_request"))
           && id != "" && IsDate(scope.date) && scope.service == "s3"
  {
    hide SplitCredential;
    if SplitCredential(credential).Some? { CredentialTextIs(credential); }
    if SplitCredential(credential) == Some(CredentialParts(id, scope.date, scope.region, "s3", "aws4_request"))
       && scope.service == "s3" {
      assert CredentialText(AuthorizationV4(id, CredentialScope(scope.date, scope.region, "s3"), [], "")) == credential;
    }
    if CredentialIs(credential, id, scope) {
      assert '/' !in scope.date;
      assert credential == CredentialText(Whole(id, scope));
      SplitCredentialIs(Whole(id, scope));
    }
  }

  lemma SignedHeadersMean(text: string, names: seq<string>)
    ensures SignedHeadersAre(text, names) <==> names == Split(text, ';') && AreSignedHeaders(names)
  {
    hide Split, Less;
  }

  lemma SignatureMeans(text: string, signature: string)
    ensures SignatureIs(text, signature) <==> IsSignature(text) && signature == Lower(text)
  {
    hide Lower;
  }

  lemma AssembleMeans(credential: string, signedHeaders: string, signature: string, a: AuthorizationV4)
    ensures Assemble(credential, signedHeaders, signature) == Ok(a)
      <==> && CredentialIs(credential, a.accessKeyId, a.scope) && SignedHeadersAre(signedHeaders, a.signedHeaders)
           && SignatureIs(signature, a.signature)
    ensures Assemble(credential, signedHeaders, signature).Err? ==>
      Assemble(credential, signedHeaders, signature) == Err(AuthorizationHeaderMalformed)
  {
    hide SplitCredential, Split, AreSignedHeaders, IsDate, IsSignature, Lower, CredentialIs, SignedHeadersAre,
      SignatureIs;
    CredentialMeans(credential, a.accessKeyId, a.scope);
    SignedHeadersMean(signedHeaders, a.signedHeaders);
    SignatureMeans(signature, a.signature);
    var parts := SplitCredential(credential);
    if parts.Some? {
      var p := parts.value;
      assert p == CredentialParts(p.accessKeyId, p.date, p.region, p.service, p.terminator);
      var own := CredentialScope(p.date, p.region, p.service);
      assert a == AuthorizationV4(p.accessKeyId, own, Split(signedHeaders, ';'), Lower(signature)) <==>
        a.accessKeyId == p.accessKeyId && a.scope == own && a.signedHeaders == Split(signedHeaders, ';')
        && a.signature == Lower(signature);
      assert a.scope == own <==>
        a.scope.date == p.date && a.scope.region == p.region && a.scope.service == p.service;
    }
  }

  // ------------------------------------------------------------- whole headers

  // The fields say each of the three exactly once, and nothing else.
  ghost predicate ThreeFields(fields: seq<string>, credential: string, signedHeaders: string, signature: string) {
    && EachSays(fields) && (forall f :: Times(fields, f) == 1)
    && Said(fields, Credential, credential) && Said(fields, SignedHeaders, signedHeaders)
    && Said(fields, Signature, signature)
  }

  // The algorithm's name, a blank or a tab, and the fields between commas.
  ghost predicate HeaderIs(value: string, fields: seq<string>) {
    exists rest :: value == "AWS4-HMAC-SHA256" + rest && rest != "" && (rest[0] == ' ' || rest[0] == '\t')
                   && fields == Split(rest, ',')
  }

  lemma HeaderMeans(value: string)
    ensures
      if ALGORITHM <= value && |value| != |ALGORITHM| && value[|ALGORITHM|] in " \t" then
        forall fields :: HeaderIs(value, fields) <==> fields == Split(value[|ALGORITHM|..], ',')
      else forall fields :: !HeaderIs(value, fields)
  {
    hide Split;
    if ALGORITHM <= value {
      assert value == ALGORITHM + value[|ALGORITHM|..];
      forall rest | value == ALGORITHM + rest ensures rest == value[|ALGORITHM|..] { }
    }
  }

  lemma SlotsAre(fields: seq<string>, f: Field)
    requires TakeFields(map[], fields).Ok?
    ensures f in TakeFields(map[], fields).value <==> Times(fields, f) == 1
    ensures f in TakeFields(map[], fields).value ==> Said(fields, f, TakeFields(map[], fields).value[f])
    ensures forall v :: Said(fields, f, v) ==>
      f in TakeFields(map[], fields).value && TakeFields(map[], fields).value[f] == v
  {
    hide TakeFields, Said, Mentions, EachSays;
    var slots := TakeFields(map[], fields).value;
    TakeFieldsFit(map[], fields);
    if f in slots { TakeFieldsHold(map[], fields, f, slots[f]); }
    forall v | Said(fields, f, v) ensures f in slots && slots[f] == v { TakeFieldsHold(map[], fields, f, v); }
    TimesSaid(fields, f);
    if Times(fields, f) == 1 {
      var v :| Said(fields, f, v);
    }
  }

  lemma {:induction false} TimesSaid(fields: seq<string>, f: Field)
    ensures Times(fields, f) > 0 <==> exists v :: Said(fields, f, v)
  {
    hide Says;
    if fields != [] {
      TimesSaid(fields[1..], f);
      hide Said;
      forall v ensures Said(fields, f, v) <==> Says(fields[0], f, v) || Said(fields[1..], f, v) {
        SaidFirst(fields, f, v);
      }
    }
  }

  ghost predicate Parts(fields: seq<string>, credential: string, signedHeaders: string, signature: string,
                        a: AuthorizationV4)
  {
    && ThreeFields(fields, credential, signedHeaders, signature)
    && CredentialIs(credential, a.accessKeyId, a.scope) && SignedHeadersAre(signedHeaders, a.signedHeaders)
    && SignatureIs(signature, a.signature)
  }

  // A header parses exactly when it is the algorithm's name and three fields, each once, in any order and among blank
  // ones, whose values are well formed; everything else is refused as malformed.
  lemma ParseMeans(value: string, a: AuthorizationV4)
    ensures Parse(value) == Ok(a)
      <==> exists fields, credential, signedHeaders, signature ::
             HeaderIs(value, fields) && Parts(fields, credential, signedHeaders, signature, a)
    ensures Parse(value).Err? ==> Parse(value) == Err(AuthorizationHeaderMalformed)
  {
    hide Assemble, TakeFields, Split, HeaderIs, Says, Said, EachSays, CredentialIs, SignedHeadersAre, SignatureIs;
    HeaderMeans(value);
    if ALGORITHM <= value && |value| != |ALGORITHM| && value[|ALGORITHM|] in " \t" {
      FieldsMean(Split(value[|ALGORITHM|..], ','), a);
    }
  }

  function FromFields(fields: seq<string>): Result<AuthorizationV4> {
    var slots :- TakeFields(map[], fields);
    if Credential !in slots || SignedHeaders !in slots || Signature !in slots then Err(AuthorizationHeaderMalformed)
    else Assemble(slots[Credential], slots[SignedHeaders], slots[Signature])
  }

  lemma FieldsMean(fields: seq<string>, a: AuthorizationV4)
    ensures FromFields(fields) == Ok(a)
      <==> exists credential, signedHeaders, signature :: Parts(fields, credential, signedHeaders, signature, a)
    ensures FromFields(fields).Err? ==> FromFields(fields) == Err(AuthorizationHeaderMalformed)
  {
    hide Assemble, TakeFields, Said, EachSays, CredentialIs, SignedHeadersAre, SignatureIs, Times;
    TakeFieldsFit(map[], fields);
    if TakeFields(map[], fields).Ok? {
      SlotsAre(fields, Credential);
      SlotsAre(fields, SignedHeaders);
      SlotsAre(fields, Signature);
      var slots := TakeFields(map[], fields).value;
      if Credential in slots && SignedHeaders in slots && Signature in slots {
        var c, h, g := slots[Credential], slots[SignedHeaders], slots[Signature];
        AssembleMeans(c, h, g, a);
        EachOne(fields);
        if FromFields(fields) == Ok(a) { assert Parts(fields, c, h, g, a); }
      }
    }
  }

  lemma EachOne(fields: seq<string>)
    requires Times(fields, Credential) == 1 && Times(fields, SignedHeaders) == 1 && Times(fields, Signature) == 1
    ensures forall f :: Times(fields, f) == 1
  {
    hide Times;
    forall f ensures Times(fields, f) == 1 {
      match f case Credential => case SignedHeaders => case Signature =>
    }
  }
}
