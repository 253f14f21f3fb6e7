// The canonical path and query themselves: which text they are, not only which requests share it.
module CanonicalForm {
  import opened Order
  import opened Text
  import opened TextForms
  import opened Canonical

  ghost predicate Bytes(s: string) {
    forall i :: 0 <= i < |s| ==> s[i] as int < 256
  }

  // A character that stands for itself: unreserved, or a slash where slashes are kept.
  predicate Itself(c: char, encodeSlash: bool) {
    || '0' <= c <= '9' || 'A' <= c <= 'Z' || 'a' <= c <= 'z' || c == '-' || c == '.' || c == '_' || c == '~'
    || (c == '/' && !encodeSlash)
  }

  predicate UpperHex(c: char) {
    '0' <= c <= '9' || 'A' <= c <= 'F'
  }

  function ByteOf(high: char, low: char): char
    requires IsHexDigit(high) && IsHexDigit(low)
  {
    (16 * HexOf(high) + HexOf(low)) as char
  }

  // Characters that stand for themselves, and `%` with two digits in upper case for bytes that do not.
  predicate Normal(t: string, encodeSlash: bool) {
    if t == "" then true
    else if t[0] == '%' then
      |t| >= 3 && UpperHex(t[1]) && UpperHex(t[2]) && !Itself(ByteOf(t[1], t[2]), encodeSlash)
      && Normal(t[3..], encodeSlash)
    else Itself(t[0], encodeSlash) && Normal(t[1..], encodeSlash)
  }

  // ------------------------------------------------------------- decoding by pieces

  lemma DigitIs(c: char)
    ensures DigitValue(c).Some? <==> IsHexDigit(c)
    ensures IsHexDigit(c) ==> DigitValue(c).value == HexOf(c)
  {
  }

  lemma EscapeIs(s: string)
    ensures IsEscape(s) <==> |s| >= 3 && s[0] == '%' && IsHexDigit(s[1]) && IsHexDigit(s[2])
  {
    hide DigitValue, IsHexDigit;
    if |s| >= 3 {
      DigitIs(s[1]);
      DigitIs(s[2]);
    }
  }

  lemma EscapeDecoded(h: char, l: char, s: string)
    requires IsHexDigit(h) && IsHexDigit(l)
    ensures PercentDecode(['%', h, l] + s) == [ByteOf(h, l)] + PercentDecode(s)
  {
    hide DigitValue, HexOf, IsHexDigit, IsEscape;
    var t := ['%', h, l] + s;
    EscapeIs(t);
    DigitIs(h);
    DigitIs(l);
    assert t[1] == h && t[2] == l && t[3..] == s;
  }

  lemma OtherDecoded(c: char, s: string)
    requires !IsEscape([c] + s)
    ensures PercentDecode([c] + s) == [c] + PercentDecode(s)
  {
    assert ([c] + s)[1..] == s;
  }

  // `%` and two hex digits of either case stand for a byte; every other character stands for itself, a `%` too.
  lemma PercentDecodes(c: char, h: char, l: char, s: string)
    ensures PercentDecode("") == ""
    ensures IsHexDigit(h) && IsHexDigit(l) ==> PercentDecode(['%', h, l] + s) == [ByteOf(h, l)] + PercentDecode(s)
    ensures c != '%' ==> PercentDecode([c] + s) == [c] + PercentDecode(s)
    ensures !(|s| >= 2 && IsHexDigit(s[0]) && IsHexDigit(s[1])) ==> PercentDecode(['%'] + s) == ['%'] + PercentDecode(s)
  {
    hide IsHexDigit, IsEscape;
    EscapeIs([c] + s);
    if IsHexDigit(h) && IsHexDigit(l) { EscapeDecoded(h, l, s); }
    if c != '%' { OtherDecoded(c, s); }
    if !(|s| >= 2 && IsHexDigit(s[0]) && IsHexDigit(s[1])) {
      NotTwoDigits(s);
      OtherDecoded('%', s);
    }
  }

  lemma NotTwoDigits(s: string)
    requires !(|s| >= 2 && IsHexDigit(s[0]) && IsHexDigit(s[1]))
    ensures !IsEscape(['%'] + s)
  {
    hide IsHexDigit, DigitValue;
    EscapeIs(['%'] + s);
  }

  // A `+` is a space.
  function Spaced(s: string): string {
    if s == "" then "" else [if s[0] == '+' then ' ' else s[0]] + Spaced(s[1..])
  }

  lemma {:induction false} SpacedAt(s: string)
    ensures |Spaced(s)| == |s|
    ensures forall i :: 0 <= i < |s| ==> Spaced(s)[i] == if s[i] == '+' then ' ' else s[i]
  {
    if s != "" { SpacedAt(s[1..]); }
  }

  lemma SpacedRest(s: string, k: nat)
    requires k <= |s|
    ensures |Spaced(s)| == |s| && Spaced(s)[k..] == Spaced(s[k..])
  {
    SpacedAt(s);
    SpacedAt(s[k..]);
    hide Spaced;
  }

  lemma SpacedEscape(s: string)
    ensures IsEscape(Spaced(s)) <==> IsEscape(s)
    ensures IsEscape(s) ==> Spaced(s)[..3] == s[..3]
  {
    hide IsHexDigit, IsEscape, Spaced;
    SpacedAt(s);
    EscapeIs(s);
    EscapeIs(Spaced(s));
    if |s| >= 3 {
      NoSign('+');
      NoSign(' ');
    }
  }

  lemma NoSign(c: char)
    requires c == '+' || c == ' '
    ensures !IsHexDigit(c)
  {
  }

  lemma {:induction false} PlusIsSpace(s: string)
    ensures PlusDecode(s) == PercentDecode(Spaced(s))
    decreases |s|
  {
    hide DigitValue, IsEscape, Spaced;
    if s == "" {
      SpacedAt("");
    } else {
      var t := Spaced(s);
      SpacedAt(s);
      SpacedEscape(s);
      if IsEscape(s) {
        EscapeIs(s);
        SpacedRest(s, 3);
        PlusIsSpace(s[3..]);
        assert t[1] == t[..3][1] && t[2] == t[..3][2] && s[1] == s[..3][1] && s[2] == s[..3][2];
      } else {
        SpacedRest(s, 1);
        PlusIsSpace(s[1..]);
      }
    }
  }

  // ------------------------------------------------------------- the normal spelling

  lemma ItselfIs(c: char, encodeSlash: bool)
    requires c as int < 256
    ensures EncodeByte(c, encodeSlash) ==
      if Itself(c, encodeSlash) then [c]
      else ['%', UpperHexDigit(c as int / 16), UpperHexDigit(c as int % 16)]
    ensures Itself(c, encodeSlash) ==> c != '%'
  {
    hide UpperHexDigit;
  }

  lemma UpperDigits(c: char)
    requires c as int < 256
    ensures
      var high, low := UpperHexDigit(c as int / 16), UpperHexDigit(c as int % 16);
      UpperHex(high) && UpperHex(low) && ByteOf(high, low) == c
  {
    hide UpperHexDigit;
    DigitIs(UpperHexDigit(c as int / 16));
    DigitIs(UpperHexDigit(c as int % 16));
  }

  lemma EscapeOfByte(high: char, low: char)
    requires UpperHex(high) && UpperHex(low)
    ensures
      var c := ByteOf(high, low);
      c as int < 256 && UpperHexDigit(c as int / 16) == high && UpperHexDigit(c as int % 16) == low
  {
  }

  lemma {:induction false} EncodesNormal(x: string, encodeSlash: bool)
    requires Bytes(x)
    ensures Normal(UriEncode(x, encodeSlash), encodeSlash)
  {
    hide EncodeByte, Itself, UpperHex, UpperHexDigit, HexOf, IsHexDigit;
    if x != "" {
      var c, rest := x[0], UriEncode(x[1..], encodeSlash);
      EncodesNormal(x[1..], encodeSlash);
      ItselfIs(c, encodeSlash);
      if Itself(c, encodeSlash) {
        assert ([c] + rest)[1..] == rest;
      } else {
        UpperDigits(c);
        assert (EncodeByte(c, encodeSlash) + rest)[3..] == rest;
      }
    }
  }

  lemma {:induction false} NormalEncodes(t: string, encodeSlash: bool)
    requires Normal(t, encodeSlash)
    ensures UriEncode(PercentDecode(t), encodeSlash) == t
  {
    hide EncodeByte, Itself, UpperHexDigit, PercentDecode;
    if t != "" {
      if t[0] == '%' {
        var c := ByteOf(t[1], t[2]);
        EscapeOfByte(t[1], t[2]);
        EscapeDecoded(t[1], t[2], t[3..]);
        NormalEncodes(t[3..], encodeSlash);
        ItselfIs(c, encodeSlash);
        assert t == [t[0], t[1], t[2]] + t[3..];
        EncodeCons(c, PercentDecode(t[3..]), encodeSlash);
      } else {
        NormalEncodes(t[1..], encodeSlash);
        ItselfNarrow(t[0], encodeSlash);
        ItselfIs(t[0], encodeSlash);
        EscapeIs(t);
        assert t == [t[0]] + t[1..];
        OtherDecoded(t[0], t[1..]);
        EncodeCons(t[0], PercentDecode(t[1..]), encodeSlash);
      }
    } else {
      DecodesNothing(encodeSlash);
    }
  }

  lemma DecodesNothing(encodeSlash: bool)
    ensures UriEncode(PercentDecode(""), encodeSlash) == ""
  {
  }

  lemma ItselfNarrow(c: char, encodeSlash: bool)
    requires Itself(c, encodeSlash)
    ensures c as int < 256
  {
  }

  lemma EncodeCons(c: char, x: string, encodeSlash: bool)
    ensures UriEncode([c] + x, encodeSlash) == EncodeByte(c, encodeSlash) + UriEncode(x, encodeSlash)
  {
    assert ([c] + x)[1..] == x;
  }

  // The encoding of some bytes is the one normal text that decodes to them.
  lemma EncodingIsNormalForm(x: string, t: string, encodeSlash: bool)
    requires Bytes(x)
    ensures t == UriEncode(x, encodeSlash) <==> PercentDecode(t) == x && Normal(t, encodeSlash)
  {
    hide UriEncode, PercentDecode, Normal;
    DecodeEncode(x, encodeSlash);
    EncodesNormal(x, encodeSlash);
    if Normal(t, encodeSlash) { NormalEncodes(t, encodeSlash); }
  }

  lemma {:induction false} DecodesBytes(s: string)
    requires Bytes(s)
    ensures Bytes(PercentDecode(s)) && Bytes(PlusDecode(s))
    decreases |s|
  {
    hide DigitValue;
    if s != "" {
      if IsEscape(s) { DecodesBytes(s[3..]); } else { DecodesBytes(s[1..]); }
    }
  }

  // The canonical path is the one normal text that decodes as the path does, or to the root.
  lemma CanonicalUriIs(path: string, t: string)
    requires Bytes(path)
    ensures t == CanonicalUri(path)
      <==> PercentDecode(t) == PercentDecode(if path == "" then "/" else path) && Normal(t, false)
  {
    hide UriEncode, PercentDecode, Normal;
    EncodesRoot();
    var asked := if path == "" then "/" else path;
    DecodesBytes(asked);
    EncodingIsNormalForm(PercentDecode(asked), t, false);
  }

  // ------------------------------------------------------------- what a query carries

  lemma SplitFirst(x: string, y: string)
    requires '&' !in x
    ensures Split(x + "&" + y, '&') == [x] + Split(y, '&')
  {
    SplitOnceIs(x, '&', y);
  }

  lemma {:induction false} SplitSeparated(a: string, b: string)
    ensures Split(a + "&" + b, '&') == Split(a, '&') + Split(b, '&')
    decreases |a|
  {
    hide SplitOnce;
    SplitOnceShape(a, '&');
    match SplitOnce(a, '&')
    case None =>
      SplitFirst(a, b);
    case Some((x, y)) =>
      assert a == x + "&" + y;
      assert a + "&" + b == x + "&" + (y + "&" + b);
      hide Split;
      SplitFirst(x, y);
      SplitFirst(x, y + "&" + b);
      SplitSeparated(y, b);
  }

  lemma {:induction false} NonEmptyConcat(a: seq<string>, b: seq<string>)
    ensures NonEmpty(a + b) == NonEmpty(a) + NonEmpty(b)
  {
    if a == [] {
      assert a + b == b;
    } else {
      assert (a + b)[1..] == a[1..] + b;
      NonEmptyConcat(a[1..], b);
    }
  }

  lemma {:induction false} MeaningConcat(a: seq<string>, b: seq<string>)
    ensures MeaningOf(a + b) == MeaningOf(a) + MeaningOf(b)
  {
    if a == [] {
      assert a + b == b;
    } else {
      assert (a + b)[1..] == a[1..] + b;
      MeaningConcat(a[1..], b);
    }
  }

  // Segments stand next to one another between `&`; the first `=` of a segment ends its name.
  lemma QueryMeans(a: string, b: string, name: string, v: string)
    ensures Meaning("") == []
    ensures Meaning(a + "&" + b) == Meaning(a) + Meaning(b)
    ensures '&' !in name + v && '=' !in name ==>
      Meaning(name + "=" + v) == [(PercentDecode(Spaced(name)), PercentDecode(Spaced(v)))]
    ensures '&' !in name && '=' !in name && name != "" ==> Meaning(name) == [(PercentDecode(Spaced(name)), "")]
  {
    hide Split, PlusDecode, PercentDecode;
    NothingMeant();
    SplitSeparated(a, b);
    NonEmptyConcat(Split(a, '&'), Split(b, '&'));
    MeaningConcat(NonEmpty(Split(a, '&')), NonEmpty(Split(b, '&')));
    PlusIsSpace(name);
    PlusIsSpace(v);
    if '&' !in name + v && '=' !in name {
      OneMeant(name + "=" + v);
      SplitOnceIs(name, '=', v);
    }
    if '&' !in name && '=' !in name && name != "" {
      OneMeant(name);
      SplitOnceShape(name, '=');
    }
  }

  lemma NothingMeant()
    ensures Meaning("") == [] && PlusDecode("") == ""
  {
    SplitOnceShape("", '&');
    assert Split("", '&') == [""];
  }

  lemma OneMeant(segment: string)
    requires '&' !in segment && segment != ""
    ensures Meaning(segment) == [(PlusDecode(NameValue(segment).0), PlusDecode(NameValue(segment).1))]
  {
    hide PlusDecode, NameValue;
    SplitOnceShape(segment, '&');
    NonEmptyCons(segment, []);
    OneSegmentMeans(segment);
  }

  lemma OneSegmentMeans(segment: string)
    ensures MeaningOf([segment]) == [(PlusDecode(NameValue(segment).0), PlusDecode(NameValue(segment).1))]
    ensures NonEmpty([]) == [] && [segment] + [] == [segment]
  {
    hide PlusDecode, NameValue;
    assert [segment][1..] == [];
    assert MeaningOf([]) == [];
  }

  // ------------------------------------------------------------- the canonical query

  // By name, and by value where names repeat.
  ghost predicate InOrder(pairs: seq<Pair>) {
    forall i, j :: 0 <= i < j < |pairs| ==>
      !Less(pairs[j].0, pairs[i].0) && (pairs[i].0 == pairs[j].0 ==> !Less(pairs[j].1, pairs[i].1))
  }

  ghost predicate AllNormal(pairs: seq<Pair>) {
    forall i :: 0 <= i < |pairs| ==> Normal(pairs[i].0, true) && Normal(pairs[i].1, true)
  }

  // The text is `name=value` for each pair in turn, with `&` in between.
  ghost predicate Lists(t: string, pairs: seq<Pair>) {
    if pairs == [] then t == ""
    else
      |Split(t, '&')| == |pairs| && forall i :: 0 <= i < |pairs| ==> Split(t, '&')[i] == pairs[i].0 + "=" + pairs[i].1
  }

  lemma ListsIs(t: string, pairs: seq<Pair>)
    ensures Lists(t, pairs) && AllNormal(pairs) ==> t == Join(Items(pairs), "&")
    ensures t == Join(Items(pairs), "&") && AllNormal(pairs) ==> Lists(t, pairs)
  {
    hide Normal, Split, Join;
    ItemsAt(pairs);
    if pairs != [] && AllNormal(pairs) {
      if Lists(t, pairs) {
        assert Split(t, '&') == Items(pairs);
        JoinSplit(t, '&');
      }
      if t == Join(Items(pairs), "&") {
        forall i | 0 <= i < |pairs| ensures '&' !in Items(pairs)[i] {
          NormalClean(pairs[i].0);
          NormalClean(pairs[i].1);
        }
        SplitJoin(Items(pairs), '&');
      }
    } else {
      NothingJoined();
    }
  }

  lemma NothingJoined()
    ensures Join(Items([]), "&") == ""
  {
  }

  lemma {:induction false} NormalClean(t: string)
    requires Normal(t, true)
    ensures '&' !in t && '=' !in t && '+' !in t
  {
    hide HexOf, IsHexDigit;
    if t != "" {
      if t[0] == '%' {
        NormalClean(t[3..]);
        assert t == [t[0], t[1], t[2]] + t[3..];
      } else {
        NormalClean(t[1..]);
        assert t == [t[0]] + t[1..];
      }
    }
  }

  ghost predicate AllBytes(parts: seq<string>) {
    forall i :: 0 <= i < |parts| ==> Bytes(parts[i])
  }

  ghost predicate PairsOfBytes(pairs: seq<Pair>) {
    forall i :: 0 <= i < |pairs| ==> Bytes(pairs[i].0) && Bytes(pairs[i].1)
  }

  lemma PiecesOfBytes(s: string, c: char)
    requires Bytes(s) && SplitOnce(s, c).Some?
    ensures Bytes(SplitOnce(s, c).value.0) && Bytes(SplitOnce(s, c).value.1)
  {
  }

  lemma {:induction false} SplitBytes(s: string)
    requires Bytes(s)
    ensures AllBytes(NonEmpty(Split(s, '&')))
    decreases |s|
  {
    hide SplitOnce, Bytes;
    match SplitOnce(s, '&')
    case None =>
      NonEmptyCons(s, []);
      assert [s] + [] == [s];
    case Some((x, y)) =>
      PiecesOfBytes(s, '&');
      SplitOnceShape(s, '&');
      SplitBytes(y);
      NonEmptyCons(x, Split(y, '&'));
  }

  lemma {:induction false} MeaningBytes(segments: seq<string>)
    requires AllBytes(segments)
    ensures PairsOfBytes(MeaningOf(segments))
  {
    hide SplitOnce, PlusDecode, Bytes;
    if segments != [] {
      if SplitOnce(segments[0], '=').Some? { PiecesOfBytes(segments[0], '='); }
      NoBytes();
      DecodesBytes(NameValue(segments[0]).0);
      DecodesBytes(NameValue(segments[0]).1);
      MeaningBytes(segments[1..]);
    }
  }

  lemma NoBytes()
    ensures Bytes("")
  {
  }

  lemma {:induction false} EncodesAllNormal(pairs: seq<Pair>)
    requires PairsOfBytes(pairs)
    ensures AllNormal(EncodeAll(pairs))
  {
    hide UriEncode, Normal, Bytes;
    if pairs != [] {
      EncodesNormal(pairs[0].0, true);
      EncodesNormal(pairs[0].1, true);
      EncodesAllNormal(pairs[1..]);
    }
  }

  lemma MembersNormal(a: seq<Pair>, b: seq<Pair>)
    requires multiset(a) == multiset(b) && AllNormal(a)
    ensures AllNormal(b)
  {
    hide Normal;
    forall i | 0 <= i < |b| ensures Normal(b[i].0, true) && Normal(b[i].1, true) {
      assert b[i] in multiset(b);
      assert b[i] in a;
    }
  }

  lemma NormalReencodes(pairs: seq<Pair>)
    requires AllNormal(pairs)
    ensures EncodeAll(DecodeAll(pairs)) == pairs
  {
    hide Normal, UriEncode, PercentDecode;
    forall i | 0 <= i < |pairs| ensures EncodePair(DecodePair(pairs[i])) == pairs[i] {
      NormalEncodes(pairs[i].0, true);
      NormalEncodes(pairs[i].1, true);
    }
    ReencodeAll(pairs);
  }

  lemma InOrderIs(pairs: seq<Pair>)
    ensures InOrder(pairs) <==> Nondescending(pairs)
  {
  }

  // `t` lists, in order and in normal spelling, pairs that stand for exactly what the query carries.
  ghost predicate Spells(t: string, q: string, pairs: seq<Pair>) {
    Lists(t, pairs) && AllNormal(pairs) && InOrder(pairs) && multiset(DecodeAll(pairs)) == multiset(Meaning(q))
  }

  lemma CanonicalSpells(q: string) returns (pairs: seq<Pair>)
    requires Bytes(q)
    ensures Spells(CanonicalQuery(q), q, pairs)
  {
    hide CanonicalQuery, Join, Items, Sort, EncodeAll, DecodeAll, MeaningOf, Normal, Bytes, Lists, InOrder;
    hide Nondescending;
    var encoded := EncodeAll(Meaning(q));
    pairs := Sort(encoded);
    CanonicalFromMeaning(q);
    SortSorts(encoded);
    SplitBytes(q);
    MeaningBytes(NonEmpty(Split(q, '&')));
    EncodesAllNormal(Meaning(q));
    MembersNormal(encoded, pairs);
    ListsIs(CanonicalQuery(q), pairs);
    InOrderIs(pairs);
    NormalReencodes(pairs);
    EncodeAllKeepsMultisets(DecodeAll(pairs), Meaning(q));
  }

  // The canonical query of a query string is the one text that lists what the query carries, sorted and in normal
  // spelling.
  lemma CanonicalQueryIs(q: string, t: string)
    requires Bytes(q)
    ensures t == CanonicalQuery(q) <==> exists pairs :: Spells(t, q, pairs)
  {
    hide CanonicalQuery, Join, Items, EncodeAll, DecodeAll, Normal, Bytes, Lists, InOrder, Nondescending, MeaningOf;
    var own := CanonicalSpells(q);
    if pairs :| Spells(t, q, pairs) {
      EncodeAllKeepsMultisets(DecodeAll(pairs), DecodeAll(own));
      NormalReencodes(pairs);
      NormalReencodes(own);
      InOrderIs(pairs);
      InOrderIs(own);
      SortedUnique(pairs, own);
      ListsIs(t, pairs);
      ListsIs(CanonicalQuery(q), own);
    }
  }
}
