// Which `Range` headers are read, as what, and what a GET under them returns.
module RangeForms {
  import opened Rgw
  import opened Text
  import opened TextForms
  import opened Entities
  import opened Ranges
  import opened Tables
  import opened ObjectReads

  datatype Blanks = Blanks(b0: string, b1: string, b2: string, b3: string, b4: string)

  predicate AllBlank(b: Blanks) {
    Blank(b.b0) && Blank(b.b1) && Blank(b.b2) && Blank(b.b3) && Blank(b.b4)
  }

  function Spelling(a: string, z: string, b: Blanks): string {
    b.b0 + "bytes=" + b.b1 + a + b.b2 + "-" + b.b3 + z + b.b4
  }

  // A decimal numeral of 64 bits.
  predicate Number(s: string, n: nat) {
    Decimal(s) && DecNumber(s) == n && n < 0x1_0000_0000_0000_0000
  }

  // `a-z`, `a-` and `-z`.
  predicate Denotes(a: string, z: string, r: ByteRange) {
    match r
    case Absolute(first, None) => Number(a, first) && z == ""
    case Absolute(first, Some(last)) => Number(a, first) && Number(z, last) && first <= last
    case Suffix(n) => a == "" && Number(z, n)
  }

  predicate Digits(s: string) {
    forall i :: 0 <= i < |s| ==> '0' <= s[i] <= '9'
  }

  lemma BlankPlain(s: string)
    requires Blank(s) || Digits(s)
    ensures '-' !in s && ',' !in s
  {
  }

  lemma DigitsBare(s: string)
    requires Digits(s)
    ensures Bare(s)
  {
    BlankIsSpace(s);
  }

  // The blanks next to an absent number merge with those outside.
  lemma Merges(a: string, z: string, b: Blanks) returns (lead: string, x: string, y: string, trail: string)
    requires AllBlank(b) && Digits(a) && Digits(z)
    ensures Spelling(a, z, b) == b.b0 + ("bytes=" + (lead + (x + "-" + y))) + trail
    ensures Blank(lead) && Blank(trail) && Bare(x + "-" + y) && '-' !in x && ',' !in x + "-" + y
    ensures Trim(x) == a && Trim(y) == z
  {
    lead := if a == "" then b.b1 + b.b2 else b.b1;
    x := if a == "" then "" else a + b.b2;
    y := if z == "" then "" else b.b3 + z;
    trail := if z == "" then b.b3 + b.b4 else b.b4;
    Associate(a, z, b);
    BlankPlain(a);
    BlankPlain(z);
    BlankPlain(b.b2);
    BlankPlain(b.b3);
    Ends(a, b.b2, b.b3, z);
  }

  lemma Ends(a: string, b: string, c: string, z: string)
    requires Digits(a) && Digits(z) && Blank(b) && Blank(c)
    ensures
      var x, y := if a == "" then "" else a + b, if z == "" then "" else c + z;
      Trim(x) == a && Trim(y) == z && Bare(x + "-" + y)
  {
    var x, y := if a == "" then "" else a + b, if z == "" then "" else c + z;
    hide Trim;
    Nothing();
    DigitsBare(a);
    DigitsBare(z);
    TrimOf("", a, b);
    TrimOf(c, z, "");
    assert "" + a + b == a + b && c + z + "" == c + z;
    hide Blank, Bare;
    if a != "" { assert x[0] == a[0]; }
    if z != "" { assert y[|y| - 1] == z[|z| - 1]; }
    DashBare(x, y);
  }

  lemma Nothing()
    ensures Blank("") && Trim("") == ""
  {
  }

  lemma DashBare(x: string, y: string)
    requires x == "" || !IsSpace(x[0])
    requires y == "" || !IsSpace(y[|y| - 1])
    ensures Bare(x + "-" + y)
  {
    var spec := x + "-" + y;
    BlankIsSpace(spec);
    assert spec[0] == if x == "" then '-' else x[0];
    assert spec[|spec| - 1] == if y == "" then '-' else y[|y| - 1];
  }

  lemma Associate(a: string, z: string, b: Blanks)
    ensures
      var lead, x := if a == "" then b.b1 + b.b2 else b.b1, if a == "" then "" else a + b.b2;
      var y, trail := if z == "" then "" else b.b3 + z, if z == "" then b.b3 + b.b4 else b.b4;
      Spelling(a, z, b) == b.b0 + ("bytes=" + (lead + (x + "-" + y))) + trail
  {
  }

  // What the two texts around the dash denote.
  function Read(a: string, z: string): Option<ByteRange> {
    if a == "" then
      if ParseU64(z).Some? then Some(Suffix(ParseU64(z).value)) else None
    else if ParseU64(a).None? then None
    else if z == "" then Some(Absolute(ParseU64(a).value, None))
    else if ParseU64(z).Some? && ParseU64(a).value <= ParseU64(z).value then
      Some(Absolute(ParseU64(a).value, Some(ParseU64(z).value)))
    else None
  }

  lemma ReadIs(a: string, z: string, r: ByteRange)
    ensures Read(a, z) == Some(r) <==> Denotes(a, z, r)
  {
    hide DecNumber, ParseU64, Decimal;
    assert !Decimal("") by { NotEmpty(); }
    match r
    case Absolute(first, None) => ParseU64Is(a, first);
    case Absolute(first, Some(last)) =>
      ParseU64Is(a, first);
      ParseU64Is(z, last);
    case Suffix(n) => ParseU64Is(z, n);
  }

  lemma NotEmpty()
    ensures !Decimal("")
  {
  }

  lemma SpelledReads(a: string, z: string, b: Blanks)
    requires AllBlank(b) && Digits(a) && Digits(z)
    ensures ParseRange(Spelling(a, z, b)) == Read(a, z)
  {
    var lead, x, y, trail := Merges(a, z, b);
    var spec := x + "-" + y;
    hide *;
    Unwraps(b.b0, lead, spec, trail);
    SplitOnceIs(x, '-', y);
    Parses(Spelling(a, z, b), lead + spec, spec, x, y);
  }

  lemma Parses(header: string, rest: string, spec: string, x: string, y: string)
    requires Trim(header) == "bytes=" + rest && Trim(rest) == spec && ',' !in spec
    requires SplitOnce(spec, '-') == Some((x, y))
    ensures ParseRange(header) == Read(Trim(x), Trim(y))
  {
    hide Trim, SplitOnce, ParseU64;
    assert ("bytes=" + rest)[|"bytes="|..] == rest;
  }

  lemma Unwraps(b: string, lead: string, spec: string, trail: string)
    requires Blank(b) && Blank(lead) && Blank(trail) && Bare(spec) && spec != ""
    ensures Trim(b + ("bytes=" + (lead + spec)) + trail) == "bytes=" + (lead + spec)
    ensures Trim(lead + spec) == spec
  {
    hide Trim, Blank, Bare;
    var core := "bytes=" + (lead + spec);
    BlankIsSpace(spec);
    assert core[0] == 'b' && core[|core| - 1] == spec[|spec| - 1];
    BlankIsSpace(core);
    TrimOf(b, core, trail);
    Nothing();
    TrimOf(lead, spec, "");
    assert lead + spec + "" == lead + spec;
  }

  lemma BlankConcat(a: string, b: string)
    requires Blank(a) && Blank(b)
    ensures Blank(a + b)
  {
  }

  // Whatever parses is spelled this way.
  lemma ParsedIsSpelled(header: string) returns (a: string, z: string, b: Blanks)
    requires ParseRange(header).Some?
    ensures AllBlank(b) && header == Spelling(a, z, b) && Read(a, z) == ParseRange(header)
  {
    hide Trim, Blank, Bare, Spelling, Read, ParseU64, SplitOnce;
    var rest := Trim(header)[|"bytes="|..];
    var (x, y) := SplitOnce(Trim(rest), '-').value;
    a, z := Trim(x), Trim(y);
    var b0, k := TrimParts(header);
    var g, h := TrimParts(rest);
    var xf, xb := TrimParts(x);
    var yf, yb := TrimParts(y);
    b := Blanks(b0, g + xf, xb, yf, yb + h + k);
    BlankConcat(g, xf);
    BlankConcat(yb, h);
    BlankConcat(yb + h, k);
    SplitOnceShape(Trim(rest), '-');
    Opened(Trim(header));
    Parses(header, rest, Trim(rest), x, y);
    Rebuilds(b0, g, xf, a, xb, yf, z, yb, h, k);
  }

  lemma Opened(text: string)
    requires "bytes=" <= text
    ensures text == "bytes=" + text[|"bytes="|..]
  {
  }

  lemma Rebuilds(b0: string, g: string, xf: string, a: string, xb: string,
                 yf: string, z: string, yb: string, h: string, k: string)
    ensures b0 + ("bytes=" + (g + ((xf + a + xb) + "-" + (yf + z + yb)) + h)) + k
         == Spelling(a, z, Blanks(b0, g + xf, xb, yf, yb + h + k))
  {
  }

  lemma DenotesDigits(a: string, z: string, r: ByteRange)
    requires Denotes(a, z, r)
    ensures Digits(a) && Digits(z)
  {
  }

  // A header is read as a range exactly when it is `bytes=`, a number, a dash and a number, with blanks anywhere
  // between them, where one number may be missing and two do not descend.
  lemma ParseRangeIs(header: string, r: ByteRange)
    ensures ParseRange(header) == Some(r)
      <==> exists a, z, b :: AllBlank(b) && header == Spelling(a, z, b) && Denotes(a, z, r)
  {
    hide ParseRange, AllBlank, Spelling, Read, Denotes, Digits;
    if ParseRange(header) == Some(r) {
      var a, z, b := ParsedIsSpelled(header);
      ReadIs(a, z, r);
    }
    if a, z, b :| AllBlank(b) && header == Spelling(a, z, b) && Denotes(a, z, r) {
      DenotesDigits(a, z, r);
      SpelledReads(a, z, b);
      ReadIs(a, z, r);
    }
  }

  // The printed forms, for all numbers of 64 bits.
  lemma PrintedRanges(a: nat, z: nat, b: Blanks)
    requires AllBlank(b) && a < 0x1_0000_0000_0000_0000 && z < 0x1_0000_0000_0000_0000
    ensures ParseRange(Spelling(PrintDec(a), PrintDec(z), b)) == if a <= z then Some(Absolute(a, Some(z))) else None
    ensures ParseRange(Spelling(PrintDec(a), "", b)) == Some(Absolute(a, None))
    ensures ParseRange(Spelling("", PrintDec(z), b)) == Some(Suffix(z))
    ensures ParseRange(Spelling("", "", b)) == None
  {
    hide ParseRange, AllBlank, Spelling, ParseU64;
    PrintDecReads(a);
    PrintDecReads(z);
    ParseU64Is(PrintDec(a), a);
    ParseU64Is(PrintDec(z), z);
    SpelledReads(PrintDec(a), PrintDec(z), b);
    SpelledReads(PrintDec(a), "", b);
    SpelledReads("", PrintDec(z), b);
    SpelledReads("", "", b);
    NotEmpty();
    forall n: nat ensures ParseU64("") != Some(n) { ParseU64Is("", n); }
  }

  // ------------------------------------------------------------- the bytes served

  function DataOf(t: Db, bucketId: string, name: string): string
    requires HeadObject(t, bucketId, name).Ok?
  {
    t.objects[ObjectId(bucketId, name)].data
  }

  // The reply and body of a GET are those of `len` bytes from the one at `from`.
  ghost predicate Serves(t: Db, bucketId: string, name: string, header: string, from: nat, len: nat)
    requires HeadObject(t, bucketId, name).Ok?
  {
    var data, reply := DataOf(t, bucketId, name), ReplyTo(t, bucketId, name, Some(header));
    && len > 0 && from + len <= |data|
    && reply == Served(HeadObject(t, bucketId, name).value, Some((from, from + len - 1)), len)
    && Selected(data, reply.range) == data[from..from + len]
  }

  lemma ReplyFor(t: Db, bucketId: string, name: string, header: string, r: ByteRange)
    requires ObjectsPlaced(t) && HeadObject(t, bucketId, name).Ok? && ParseRange(header) == Some(r)
    ensures
      var data := DataOf(t, bucketId, name);
      match Resolve(r, |data|)
      case Ok(pair) => Serves(t, bucketId, name, header, pair.0, pair.1 + 1 - pair.0)
      case Err(_) => ReplyTo(t, bucketId, name, Some(header)) == Unsatisfiable(|data|)
  {
    hide ParseRange;
    ResolveSelects(r, |DataOf(t, bucketId, name)|);
  }

  // `bytes=-n` serves the last n bytes, or all where there are fewer.
  lemma SuffixServed(t: Db, bucketId: string, name: string, n: nat, b: Blanks)
    requires ObjectsPlaced(t) && HeadObject(t, bucketId, name).Ok? && AllBlank(b) && n < 0x1_0000_0000_0000_0000
    ensures
      var data, header := DataOf(t, bucketId, name), Spelling("", PrintDec(n), b);
      if n == 0 || data == "" then ReplyTo(t, bucketId, name, Some(header)) == Unsatisfiable(|data|)
      else if n < |data| then Serves(t, bucketId, name, header, |data| - n, n)
      else Serves(t, bucketId, name, header, 0, |data|)
  {
    hide ParseRange, AllBlank, Spelling, HeadObject, ReplyTo;
    PrintedRanges(0, n, b);
    ReplyFor(t, bucketId, name, Spelling("", PrintDec(n), b), Suffix(n));
  }

  // `bytes=a-` serves everything from byte `a` on, and `bytes=a-z` stops behind byte `z`.
  lemma SpanServed(t: Db, bucketId: string, name: string, a: nat, z: nat, b: Blanks)
    requires ObjectsPlaced(t) && HeadObject(t, bucketId, name).Ok? && AllBlank(b)
    requires a <= z < 0x1_0000_0000_0000_0000
    ensures
      var data := DataOf(t, bucketId, name);
      var open, closed := Spelling(PrintDec(a), "", b), Spelling(PrintDec(a), PrintDec(z), b);
      if a >= |data| then
        ReplyTo(t, bucketId, name, Some(open)) == ReplyTo(t, bucketId, name, Some(closed)) == Unsatisfiable(|data|)
      else
        Serves(t, bucketId, name, open, a, |data| - a)
        && Serves(t, bucketId, name, closed, a, if z < |data| then z + 1 - a else |data| - a)
  {
    hide ParseRange, AllBlank, Spelling, HeadObject, ReplyTo;
    PrintedRanges(a, z, b);
    ReplyFor(t, bucketId, name, Spelling(PrintDec(a), "", b), Absolute(a, None));
    ReplyFor(t, bucketId, name, Spelling(PrintDec(a), PrintDec(z), b), Absolute(a, Some(z)));
  }

  // Without a header that reads as a range the whole object is served.
  lemma WholeServed(t: Db, bucketId: string, name: string, header: Option<string>)
    requires ObjectsPlaced(t) && HeadObject(t, bucketId, name).Ok?
    requires header.Some? ==> ParseRange(header.value) == None
    ensures
      var data, reply := DataOf(t, bucketId, name), ReplyTo(t, bucketId, name, header);
      reply == Served(HeadObject(t, bucketId, name).value, None, |data|) && Selected(data, reply.range) == data
  {
    hide ParseRange;
  }
}
