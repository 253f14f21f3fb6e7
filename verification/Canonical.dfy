// Percent recoding and the canonical query string of Signature Version 4.
module Canonical {
  import opened Rgw
  import opened Text
  import opened Order

  // ------------------------------------------------------------- percent coding (RFC 3986, sections 2.1 and 2.3)

  predicate IsUnreserved(b: char) {
    'A' <= b <= 'Z' || 'a' <= b <= 'z' || '0' <= b <= '9' || b == '-' || b == '_' || b == '.' || b == '~'
  }

  // One byte re-encoded; characters stand for bytes, so none is above 255.
  function EncodeByte(b: char, encodeSlash: bool): string {
    if IsUnreserved(b) || (b == '/' && !encodeSlash) || b as int > 255 then [b]
    else ['%', UpperHexDigit(b as int / 16), UpperHexDigit(b as int % 16)]
  }

  function UriEncode(bytes: string, encodeSlash: bool): string {
    if bytes == "" then "" else EncodeByte(bytes[0], encodeSlash) + UriEncode(bytes[1..], encodeSlash)
  }

  // `uri_encode`: appends to `out`.
  method UriEncodeInto(out: string, bytes: string, encodeSlash: bool) returns (r: string)
    ensures r == out + UriEncode(bytes, encodeSlash)
  {
    hide UpperHexDigit, IsUnreserved;
    r := out;
    for i := 0 to |bytes|
      invariant r + UriEncode(bytes[i..], encodeSlash) == out + UriEncode(bytes, encodeSlash)
    {
      ghost var before, rest := r, UriEncode(bytes[i + 1..], encodeSlash);
      assert bytes[i..][1..] == bytes[i + 1..];
      var b := bytes[i];
      if IsUnreserved(b) || (b == '/' && !encodeSlash) || b as int > 255 {
        r := r + [b];
      } else {
        r := r + ['%', UpperHexDigit(b as int / 16), UpperHexDigit(b as int % 16)];
      }
      assert before + (EncodeByte(b, encodeSlash) + rest) == r + rest;
    }
  }

  predicate IsEscape(s: string) {
    |s| >= 3 && s[0] == '%' && DigitValue(s[1]).Some? && DigitValue(s[2]).Some?
  }

  // `percent_decode_str`: a `%` without two hex digits stands for itself.
  function PercentDecode(s: string): string {
    if s == "" then ""
    else if IsEscape(s) then [(DigitValue(s[1]).value * 16 + DigitValue(s[2]).value) as char] + PercentDecode(s[3..])
    else [s[0]] + PercentDecode(s[1..])
  }

  // `uri_recode`: one spelling for every way a client may have escaped the same bytes.
  function UriRecode(s: string, encodeSlash: bool): string {
    UriEncode(PercentDecode(s), encodeSlash)
  }

  // `canonical_uri`.
  function CanonicalUri(path: string): string {
    if path == "" then "/" else UriRecode(path, false)
  }

  lemma {:induction false} DecodeEncode(bytes: string, encodeSlash: bool)
    ensures PercentDecode(UriEncode(bytes, encodeSlash)) == bytes
  {
    if bytes != "" {
      var first, rest := EncodeByte(bytes[0], encodeSlash), UriEncode(bytes[1..], encodeSlash);
      DecodeEncode(bytes[1..], encodeSlash);
      assert (first + rest)[|first|..] == rest;
    }
  }

  // The bytes a path stands for; no path stands for the root.
  function PathMeaning(path: string): string {
    PercentDecode(if path == "" then "/" else path)
  }

  lemma EncodesRoot()
    ensures UriRecode("/", false) == "/"
  {
    assert "/"[1..] == "";
    assert PercentDecode("/") == "/";
  }

  // The canonical path is a complete invariant of the decoded path, and canonicalising twice changes nothing.
  lemma CanonicalUriComplete(a: string, b: string)
    ensures CanonicalUri(a) == CanonicalUri(b) <==> PathMeaning(a) == PathMeaning(b)
    ensures CanonicalUri(CanonicalUri(a)) == CanonicalUri(a)
  {
    EncodesRoot();
    DecodeEncode(PathMeaning(a), false);
    DecodeEncode(PathMeaning(b), false);
    hide UriEncode, PercentDecode;
    assert CanonicalUri(a) == UriEncode(PathMeaning(a), false);
    assert CanonicalUri(b) == UriEncode(PathMeaning(b), false);
    CanonicalUriNonEmpty(a);
    assert CanonicalUri(CanonicalUri(a)) == UriEncode(PercentDecode(CanonicalUri(a)), false);
  }

  lemma CanonicalUriNonEmpty(path: string)
    ensures CanonicalUri(path) != ""
  {
    if path != "" {
      assert PercentDecode(path) != "";
      DecodeEncode(PercentDecode(path), false);
      assert PercentDecode("") == "";
    }
  }

  // ------------------------------------------------------------- the code: replace, split, recode, sort, join

  function ReplacePlus(s: string): string {
    if s == "" then "" else (if s[0] == '+' then "%20" else [s[0]]) + ReplacePlus(s[1..])
  }

  function NonEmpty(parts: seq<string>): seq<string> {
    if parts == [] then [] else (if parts[0] == "" then [] else [parts[0]]) + NonEmpty(parts[1..])
  }

  // `split_once('=')`, or the whole segment with an empty value.
  function NameValue(segment: string): Pair {
    var split := SplitOnce(segment, '=');
    if split.Some? then split.value else (segment, "")
  }

  function EncodePair(p: Pair): Pair {
    (UriEncode(p.0, true), UriEncode(p.1, true))
  }

  function DecodePair(p: Pair): Pair {
    (PercentDecode(p.0), PercentDecode(p.1))
  }

  function RecodedPairs(segments: seq<string>): seq<Pair> {
    if segments == [] then [] else [EncodePair(DecodePair(NameValue(segments[0])))] + RecodedPairs(segments[1..])
  }

  function Items(pairs: seq<Pair>): seq<string> {
    if pairs == [] then [] else [pairs[0].0 + "=" + pairs[0].1] + Items(pairs[1..])
  }

  function CanonicalQuery(query: string): string {
    Join(Items(Sort(RecodedPairs(NonEmpty(Split(ReplacePlus(query), '&'))))), "&")
  }

  // `canonical_query`: collect the pairs, sort them, push them out with separators.
  method BuildCanonicalQuery(query: string) returns (out: string)
    ensures out == CanonicalQuery(query)
  {
    hide UriEncode, PercentDecode, ReplacePlus, Split, Sort, Items, Join, Rest;
    var segments := NonEmpty(Split(ReplacePlus(query), '&'));
    var pairs: seq<Pair> := [];
    for i := 0 to |segments|
      invariant pairs + RecodedPairs(segments[i..]) == RecodedPairs(segments)
    {
      assert segments[i..][1..] == segments[i + 1..];
      var nv := NameValue(segments[i]);
      pairs := pairs + [(UriRecode(nv.0, true), UriRecode(nv.1, true))];
    }
    assert pairs == RecodedPairs(segments);
    pairs := Sort(pairs);
    out := "";
    RestWhole(pairs);
    for i := 0 to |pairs|
      invariant out + Rest(pairs[i..], i > 0) == Join(Items(pairs), "&")
    {
      RestStep(pairs, i);
      if i > 0 {
        out := out + "&";
      }
      out := out + pairs[i].0 + "=" + pairs[i].1;
    }
    RestDone(pairs);
  }

  // What is still to be written: a separator first, unless nothing has been written yet.
  function Rest(pairs: seq<Pair>, started: bool): string {
    if pairs == [] then "" else (if started then "&" else "") + Join(Items(pairs), "&")
  }

  lemma RestStep(pairs: seq<Pair>, i: nat)
    requires i < |pairs|
    ensures Rest(pairs[i..], i > 0)
         == (if i > 0 then "&" else "") + (pairs[i].0 + "=" + pairs[i].1) + Rest(pairs[i + 1..], true)
  {
    assert pairs[i..][1..] == pairs[i + 1..];
    assert Items(pairs[i..])[1..] == Items(pairs[i + 1..]);
  }

  lemma RestWhole(pairs: seq<Pair>)
    ensures Rest(pairs[0..], false) == Join(Items(pairs), "&")
  {
    assert pairs[0..] == pairs;
  }

  lemma RestDone(pairs: seq<Pair>)
    ensures Rest(pairs[|pairs|..], |pairs| > 0) == ""
  {
  }

  // ------------------------------------------------------------- the meaning: decode each segment

  // Percent-decoding with `+` read as a space.
  function PlusDecode(s: string): string {
    if s == "" then ""
    else if IsEscape(s) then [(DigitValue(s[1]).value * 16 + DigitValue(s[2]).value) as char] + PlusDecode(s[3..])
    else [if s[0] == '+' then ' ' else s[0]] + PlusDecode(s[1..])
  }

  function MeaningOf(segments: seq<string>): seq<Pair> {
    if segments == [] then []
    else
      var nv := NameValue(segments[0]);
      [(PlusDecode(nv.0), PlusDecode(nv.1))] + MeaningOf(segments[1..])
  }

  // The name/value byte pairs a query string carries.
  function Meaning(query: string): seq<Pair> {
    MeaningOf(NonEmpty(Split(query, '&')))
  }

  function EncodeAll(pairs: seq<Pair>): seq<Pair> {
    if pairs == [] then [] else [EncodePair(pairs[0])] + EncodeAll(pairs[1..])
  }

  // Replacing `+` first and decoding afterwards is decoding with `+` as a space, even next to a stray `%`.
  lemma {:induction false} DecodeReplaced(s: string)
    ensures PercentDecode(ReplacePlus(s)) == PlusDecode(s)
    decreases |s|
  {
    if s == "" {
    } else if s[0] == '+' {
      DecodeReplaced(s[1..]);
      assert ReplacePlus(s)[3..] == ReplacePlus(s[1..]);
    } else if IsEscape(s) {
      DecodeReplaced(s[3..]);
      EscapeReplaced(s);
      EscapeDecodes(s, ReplacePlus(s));
    } else {
      DecodeReplaced(s[1..]);
      StrayPercent(s);
      assert ReplacePlus(s)[1..] == ReplacePlus(s[1..]);
    }
  }

  // An escape holds no `+`, so replacing leaves it.
  lemma EscapeReplaced(s: string)
    requires IsEscape(s)
    ensures ReplacePlus(s) == s[..3] + ReplacePlus(s[3..])
  {
    hide DigitValue;
    EscapePlain(s);
    assert s[1..][1..] == s[2..] && s[2..][1..] == s[3..];
    assert ReplacePlus(s[1..]) == [s[1]] + ReplacePlus(s[2..]);
    assert ReplacePlus(s[2..]) == [s[2]] + ReplacePlus(s[3..]);
  }

  lemma EscapePlain(s: string)
    requires IsEscape(s)
    ensures s[0] != '+' && s[1] != '+' && s[2] != '+'
  {
  }

  lemma EscapeDecodes(s: string, r: string)
    requires IsEscape(s) && |r| >= 3 && r[..3] == s[..3] && PercentDecode(r[3..]) == PlusDecode(s[3..])
    ensures PercentDecode(r) == PlusDecode(s)
  {
    hide DigitValue;
    assert r[0] == r[..3][0] && r[1] == r[..3][1] && r[2] == r[..3][2];
    assert s[0] == s[..3][0] && s[1] == s[..3][1] && s[2] == s[..3][2];
  }

  lemma StrayPercent(s: string)
    requires s != "" && s[0] != '+' && !IsEscape(s)
    ensures !IsEscape(ReplacePlus(s))
  {
    var t := ReplacePlus(s[1..]);
    assert ReplacePlus(s) == [s[0]] + t;
    if |s| >= 2 {
      assert t[0] == (if s[1] == '+' then '%' else s[1]);
      if |s| >= 3 && s[1] != '+' {
        assert s[1..][1..] == s[2..];
        assert t == [s[1]] + ReplacePlus(s[2..]);
      }
      if |s| == 2 {
        assert ReplacePlus(s[1..][1..]) == "";
      }
    }
  }

  // Replacing `+` touches neither the separators nor which segments are empty.
  lemma ReplaceSplitOnce(s: string, c: char)
    requires c == '&' || c == '='
    ensures
      SplitOnce(ReplacePlus(s), c)
      == match SplitOnce(s, c) case None => None case Some((a, b)) => Some((ReplacePlus(a), ReplacePlus(b)))
  {
    hide SplitOnce, ReplacePlus;
    SplitOnceShape(s, c);
    match SplitOnce(s, c)
    case None =>
      ReplaceMembers(s, c);
      SplitOnceShape(ReplacePlus(s), c);
    case Some((a, b)) =>
      ReplaceMembers(a, c);
      ReplaceConcat(a, [c] + b);
      ReplaceCons(c, b);
      SplitOnceIs(ReplacePlus(a), c, ReplacePlus(b));
      assert s == a + ([c] + b);
      assert ReplacePlus(s) == ReplacePlus(a) + [c] + ReplacePlus(b);
  }

  lemma ReplaceCons(c: char, b: string)
    requires c != '+'
    ensures ReplacePlus([c] + b) == [c] + ReplacePlus(b)
  {
    assert ([c] + b)[1..] == b;
  }

  lemma {:induction false} ReplaceMembers(s: string, c: char)
    requires (c == '&' || c == '=') && c !in s
    ensures c !in ReplacePlus(s)
  {
    if s != "" { ReplaceMembers(s[1..], c); }
  }

  lemma {:induction false} ReplaceConcat(a: string, b: string)
    ensures ReplacePlus(a + b) == ReplacePlus(a) + ReplacePlus(b)
  {
    if a == "" {
      assert a + b == b;
    } else {
      assert (a + b)[1..] == a[1..] + b;
      ReplaceConcat(a[1..], b);
    }
  }

  lemma {:induction false} SegmentsRecode(s: string)
    ensures RecodedPairs(NonEmpty(Split(ReplacePlus(s), '&'))) == EncodeAll(MeaningOf(NonEmpty(Split(s, '&'))))
    decreases |s|
  {
    ReplaceSplitOnce(s, '&');
    match SplitOnce(s, '&')
    case None =>
      OneSegment(s, [], []);
    case Some((a, b)) =>
      SegmentsRecode(b);
      OneSegment(a, Split(ReplacePlus(b), '&'), Split(b, '&'));
  }

  lemma OneSegment(a: string, replaced: seq<string>, plain: seq<string>)
    requires RecodedPairs(NonEmpty(replaced)) == EncodeAll(MeaningOf(NonEmpty(plain)))
    ensures RecodedPairs(NonEmpty([ReplacePlus(a)] + replaced)) == EncodeAll(MeaningOf(NonEmpty([a] + plain)))
  {
    hide *;
    ReplaceKeepsEmpty(a);
    NonEmptyCons(a, plain);
    NonEmptyCons(ReplacePlus(a), replaced);
    if a != "" {
      SegmentRecodes(a);
      RecodedCons(ReplacePlus(a), NonEmpty(replaced));
      MeaningCons(a, NonEmpty(plain));
    }
  }

  lemma NonEmptyCons(x: string, rest: seq<string>)
    ensures NonEmpty([x] + rest) == if x == "" then NonEmpty(rest) else [x] + NonEmpty(rest)
  {
    assert ([x] + rest)[1..] == rest;
  }

  lemma RecodedCons(x: string, rest: seq<string>)
    ensures RecodedPairs([x] + rest) == [EncodePair(DecodePair(NameValue(x)))] + RecodedPairs(rest)
  {
    hide EncodePair, DecodePair, NameValue;
    assert ([x] + rest)[1..] == rest;
  }

  lemma MeaningCons(x: string, rest: seq<string>)
    ensures EncodeAll(MeaningOf([x] + rest))
         == [EncodePair((PlusDecode(NameValue(x).0), PlusDecode(NameValue(x).1)))] + EncodeAll(MeaningOf(rest))
  {
    hide EncodePair, PlusDecode, NameValue;
    assert ([x] + rest)[1..] == rest;
    var m := (PlusDecode(NameValue(x).0), PlusDecode(NameValue(x).1));
    assert ([m] + MeaningOf(rest))[1..] == MeaningOf(rest);
  }

  lemma ReplaceKeepsEmpty(s: string)
    ensures ReplacePlus(s) == "" <==> s == ""
  {
  }

  lemma SegmentRecodes(a: string)
    ensures DecodePair(NameValue(ReplacePlus(a))) == (PlusDecode(NameValue(a).0), PlusDecode(NameValue(a).1))
  {
    hide PercentDecode, PlusDecode, SplitOnce, ReplacePlus;
    ReplaceSplitOnce(a, '=');
    DecodeReplaced(NameValue(a).0);
    DecodeReplaced(NameValue(a).1);
    ReplaceKeepsEmpty("");
  }

  // ------------------------------------------------------------- canonical text determines the pairs

  lemma {:induction false} EncodedClean(bytes: string)
    ensures '&' !in UriEncode(bytes, true) && '=' !in UriEncode(bytes, true) && '+' !in UriEncode(bytes, true)
  {
    if bytes != "" {
      EncodedClean(bytes[1..]);
      assert forall c :: c in EncodeByte(bytes[0], true) ==> c != '&' && c != '=' && c != '+';
    }
  }

  ghost predicate Clean(p: Pair) {
    '&' !in p.0 && '=' !in p.0 && '+' !in p.0 && '&' !in p.1 && '=' !in p.1 && '+' !in p.1
  }

  lemma {:induction false} EncodeAllClean(pairs: seq<Pair>)
    ensures forall p :: p in EncodeAll(pairs) ==> Clean(p)
  {
    if pairs != [] {
      EncodedClean(pairs[0].0);
      EncodedClean(pairs[0].1);
      EncodeAllClean(pairs[1..]);
    }
  }

  lemma {:induction false} ItemsAt(pairs: seq<Pair>)
    ensures |Items(pairs)| == |pairs|
    ensures forall i :: 0 <= i < |pairs| ==> Items(pairs)[i] == pairs[i].0 + "=" + pairs[i].1
  {
    if pairs != [] { ItemsAt(pairs[1..]); }
  }

  lemma ItemReads(p: Pair)
    requires Clean(p)
    ensures NameValue(p.0 + "=" + p.1) == p && '&' !in p.0 + "=" + p.1
  {
    SplitOnceIs(p.0, '=', p.1);
  }

  // The text of clean pairs splits back into their items.
  lemma RenderedSplits(pairs: seq<Pair>)
    requires forall p :: p in pairs ==> Clean(p)
    ensures NonEmpty(Split(Join(Items(pairs), "&"), '&')) == Items(pairs)
  {
    ItemsAt(pairs);
    if pairs == [] {
      SplitOnceShape("", '&');
      assert Split("", '&') == [""];
    } else {
      forall i | 0 <= i < |pairs| ensures '&' !in Items(pairs)[i] { ItemReads(pairs[i]); }
      SplitJoin(Items(pairs), '&');
      NonEmptyIdentity(Items(pairs));
    }
  }

  lemma {:induction false} NonEmptyIdentity(parts: seq<string>)
    requires forall i :: 0 <= i < |parts| ==> parts[i] != ""
    ensures NonEmpty(parts) == parts
  {
    if parts != [] { NonEmptyIdentity(parts[1..]); }
  }

  lemma RenderInjective(a: seq<Pair>, b: seq<Pair>)
    requires (forall p :: p in a ==> Clean(p)) && (forall p :: p in b ==> Clean(p))
    requires Join(Items(a), "&") == Join(Items(b), "&")
    ensures a == b
  {
    RenderedSplits(a);
    RenderedSplits(b);
    ItemsAt(a);
    ItemsAt(b);
    forall i | 0 <= i < |a| ensures a[i] == b[i] {
      ItemReads(a[i]);
      ItemReads(b[i]);
    }
  }

  // ------------------------------------------------------------- encoding keeps multisets apart

  lemma {:induction false} EncodeAllCounts(pairs: seq<Pair>, y: Pair)
    ensures multiset(EncodeAll(pairs))[y] ==
      if EncodePair(DecodePair(y)) == y then multiset(pairs)[DecodePair(y)] else 0
  {
    if pairs != [] {
      hide UriEncode, PercentDecode;
      EncodeAllCounts(pairs[1..], y);
      PairDecodes(pairs[0]);
      assert pairs == [pairs[0]] + pairs[1..];
      assert EncodeAll(pairs) == [EncodePair(pairs[0])] + EncodeAll(pairs[1..]);
    }
  }

  lemma PairDecodes(p: Pair)
    ensures DecodePair(EncodePair(p)) == p
  {
    DecodeEncode(p.0, true);
    DecodeEncode(p.1, true);
  }

  lemma EncodeAllKeepsMultisets(a: seq<Pair>, b: seq<Pair>)
    ensures multiset(EncodeAll(a)) == multiset(EncodeAll(b)) <==> multiset(a) == multiset(b)
  {
    hide EncodePair, DecodePair, EncodeAll;
    forall y ensures multiset(a) == multiset(b) ==> multiset(EncodeAll(a))[y] == multiset(EncodeAll(b))[y] {
      EncodeAllCounts(a, y);
      EncodeAllCounts(b, y);
    }
    forall p ensures multiset(EncodeAll(a)) == multiset(EncodeAll(b)) ==> multiset(a)[p] == multiset(b)[p] {
      PairDecodes(p);
      EncodeAllCounts(a, EncodePair(p));
      EncodeAllCounts(b, EncodePair(p));
    }
  }

  // The canonical query is the sorted text of the encoded meaning.
  lemma CanonicalFromMeaning(q: string)
    ensures CanonicalQuery(q) == Join(Items(Sort(EncodeAll(Meaning(q)))), "&")
    ensures forall p :: p in Sort(EncodeAll(Meaning(q))) ==> Clean(p)
  {
    hide Join, Items, Sort, RecodedPairs, EncodeAll, MeaningOf, Clean;
    SegmentsRecode(q);
    EncodeAllClean(Meaning(q));
    SortSorts(EncodeAll(Meaning(q)));
    forall p | p in Sort(EncodeAll(Meaning(q))) ensures Clean(p) {
      assert p in multiset(EncodeAll(Meaning(q)));
    }
  }

  // The canonical query is a complete invariant: two query strings have the same one exactly when they carry the
  // same multiset of decoded name/value pairs, whatever the order of the parameters and the client's encoding.
  lemma CanonicalQueryComplete(a: string, b: string)
    ensures CanonicalQuery(a) == CanonicalQuery(b) <==> multiset(Meaning(a)) == multiset(Meaning(b))
  {
    hide CanonicalQuery, Join, Items, Sort, EncodeAll, Meaning, Clean;
    CanonicalFromMeaning(a);
    CanonicalFromMeaning(b);
    if CanonicalQuery(a) == CanonicalQuery(b) {
      RenderInjective(Sort(EncodeAll(Meaning(a))), Sort(EncodeAll(Meaning(b))));
    }
    SortForgetsOrder(EncodeAll(Meaning(a)), EncodeAll(Meaning(b)));
    EncodeAllKeepsMultisets(Meaning(a), Meaning(b));
  }

  lemma {:induction false} NoPlus(s: string)
    requires '+' !in s
    ensures PlusDecode(s) == PercentDecode(s)
    decreases |s|
  {
    if s == "" {
    } else if IsEscape(s) {
      NoPlus(s[3..]);
    } else {
      assert s[0] in s;
      NoPlus(s[1..]);
    }
  }

  function DecodeAll(pairs: seq<Pair>): seq<Pair> {
    if pairs == [] then [] else [DecodePair(pairs[0])] + DecodeAll(pairs[1..])
  }

  lemma {:induction false} ItemsMean(pairs: seq<Pair>)
    requires forall i :: 0 <= i < |pairs| ==> Clean(pairs[i])
    ensures MeaningOf(Items(pairs)) == DecodeAll(pairs)
  {
    hide PlusDecode, PercentDecode, NameValue;
    if pairs != [] {
      var p := pairs[0];
      ItemReads(p);
      NoPlus(p.0);
      NoPlus(p.1);
      ItemsMean(pairs[1..]);
      assert Items(pairs)[1..] == Items(pairs[1..]);
    }
  }

  lemma {:induction false} ReencodeAll(pairs: seq<Pair>)
    requires forall i :: 0 <= i < |pairs| ==> EncodePair(DecodePair(pairs[i])) == pairs[i]
    ensures EncodeAll(DecodeAll(pairs)) == pairs
  {
    hide EncodePair, DecodePair;
    if pairs != [] { ReencodeAll(pairs[1..]); }
  }

  lemma {:induction false} EncodedReencodes(pairs: seq<Pair>)
    ensures forall p :: p in EncodeAll(pairs) ==> EncodePair(DecodePair(p)) == p
  {
    hide EncodePair, DecodePair;
    if pairs != [] {
      PairDecodes(pairs[0]);
      EncodedReencodes(pairs[1..]);
    }
  }

  // The canonical text carries the same pairs as the query it came from; so canonicalising twice changes nothing.
  lemma CanonicalQueryIdempotent(q: string)
    ensures multiset(Meaning(CanonicalQuery(q))) == multiset(Meaning(q))
    ensures CanonicalQuery(CanonicalQuery(q)) == CanonicalQuery(q)
  {
    hide CanonicalQuery, Join, Items, Sort, EncodeAll, DecodeAll, MeaningOf, Clean, EncodePair, DecodePair;
    var encoded := EncodeAll(Meaning(q));
    var sorted := Sort(encoded);
    CanonicalFromMeaning(q);
    SortSorts(encoded);
    RenderedSplits(sorted);
    assert forall i :: 0 <= i < |sorted| ==> sorted[i] in sorted;
    ItemsMean(sorted);
    EncodedReencodes(Meaning(q));
    assert forall i :: 0 <= i < |sorted| ==> sorted[i] in multiset(encoded);
    ReencodeAll(sorted);
    EncodeAllKeepsMultisets(DecodeAll(sorted), Meaning(q));
    CanonicalQueryComplete(CanonicalQuery(q), q);
  }
}
