// The encoder of signed `aws-chunked` bodies, and what every prefix of its output decodes to.
module ChunkCoding {
  import opened Rgw
  import opened Text
  import opened Signing
  import opened Chunked

  // ------------------------------------------------------------- the encoder

  function EncodedHeader(size: nat, signature: string): string {
    PrintHex(size) + ";" + (SIGNATURE_KEY + signature)
  }

  function EncodeChunk(c: Crypto, signer: ChunkSigner, prev: string, chunk: string): string {
    EncodedHeader(|chunk|, ChunkSignature(c, signer, prev, chunk)) + CRLF + chunk + CRLF
  }

  // The chunks and the final empty one, the signature chain starting from `prev`.
  function Encode(c: Crypto, signer: ChunkSigner, prev: string, chunks: seq<string>): string
    decreases |chunks|
  {
    if chunks == [] then EncodeChunk(c, signer, prev, "")
    else
      var next := ChunkSignature(c, signer, prev, chunks[0]);
      EncodeChunk(c, signer, prev, chunks[0]) + Encode(c, signer, next, chunks[1..])
  }

  function Concat(chunks: seq<string>): string {
    if chunks == [] then "" else chunks[0] + Concat(chunks[1..])
  }

  // `encode_signed`.
  method EncodeSigned(c: Crypto, signer: ChunkSigner, chunks: seq<string>) returns (out: string)
    ensures out == Encode(c, signer, signer.seedSignature, chunks)
  {
    hide EncodeChunk, ChunkSignature;
    out := "";
    var prev := signer.seedSignature;
    for i := 0 to |chunks|
      invariant out + Encode(c, signer, prev, chunks[i..]) == Encode(c, signer, signer.seedSignature, chunks)
    {
      assert chunks[i..][1..] == chunks[i + 1..];
      out := out + EncodeChunk(c, signer, prev, chunks[i]);
      prev := ChunkSignature(c, signer, prev, chunks[i]);
    }
    out := out + EncodeChunk(c, signer, prev, "");
  }

  // ------------------------------------------------------------- header lines

  lemma PlainLine(h: string)
    requires '\r' !in h
    ensures IsLine(h)
  {
    forall j: nat ensures !OccursAt(h, CRLF, j) {
      assert j < |h| ==> h[j..][0] == h[j];
    }
  }

  lemma NoCrlf(s: string)
    requires forall i :: 0 <= i < |s| - 1 ==> s[i] != '\r'
    ensures Find(s, CRLF).None?
  {
    forall j: nat | j < |s| - 1 ensures !OccursAt(s, CRLF, j) {
      assert s[j..][0] == s[j];
    }
  }

  // What the encoder's header says to the decoder.
  lemma EncodedHeaderReads(size: nat, signature: string)
    requires size <= U64_MAX && |signature| == 64 && IsLowerHex(signature)
    ensures
      var h := EncodedHeader(size, signature);
      && '\r' !in h && ValidUtf8(h)
      && HeaderSize(h) == Some(size) && HeaderSignature(h) == Some(signature)
  {
    var digits, ext := PrintHex(size), SIGNATURE_KEY + signature;
    var h := EncodedHeader(size, signature);
    EncodedHeaderAscii(size, signature);
    assert SplitOnce(h, ';') == Some((digits, ext)) by {
      assert h == digits + [';'] + ext;
      SplitOnceIs(digits, ';', ext);
    }
    ParseHexPrintHex(size);
    assert Trim(digits) == digits by { TrimIdentity(digits); }
    assert Trim(ext) == ext by { TrimIdentity(ext); }
    hide PrintHex, Trim, ParseHex, EncodedHeader, SplitOnce, ValidUtf8;
    assert ext[|SIGNATURE_KEY|..] == signature;
  }

  lemma EncodedHeaderAscii(size: nat, signature: string)
    requires IsLowerHex(signature)
    ensures '\r' !in EncodedHeader(size, signature) && ValidUtf8(EncodedHeader(size, signature))
  {
    hide PrintHex, ValidUtf8;
    AsciiIsUtf8(EncodedHeader(size, signature));
  }

  lemma HeaderFits(pre: string, h: string, n: nat, tail: string)
    requires '\r' !in h && ValidUtf8(h) && HeaderSize(h) == Some(n)
    requires |pre + h + CRLF + tail| <= U64_MAX
    ensures
      var body, start := pre + h + CRLF + tail, |pre| + |h| + 2;
      if n <= |tail| then
        ReadHeader(body, |pre|) == Ok(Header(h, start, start + n)) && body[start..start + n] == tail[..n]
      else ReadHeader(body, |pre|).Err?
  {
    hide ValidUtf8, HeaderSize, NextLine, IsLine;
    PlainLine(h);
    NextLineIs(pre, h, tail);
    if n <= |tail| { SliceAfter(pre, h, tail, n); }
  }

  lemma SliceAfter(pre: string, h: string, tail: string, n: nat)
    requires n <= |tail|
    ensures (pre + h + CRLF + tail)[|pre| + |h| + 2..|pre| + |h| + 2 + n] == tail[..n]
  {
  }

  lemma HeaderCut(pre: string, h: string, k: nat)
    requires '\r' !in h && k < |h| + 2
    ensures ReadHeader(pre + (h + CRLF)[..k], |pre|).Err?
  {
    var body := pre + (h + CRLF)[..k];
    assert body[|pre|..] == (h + CRLF)[..k];
    NoCrlf(body[|pre|..]);
  }

  // ------------------------------------------------------------- chunk by chunk

  // The decoder checks the encoder's signatures, or ignores them.
  ghost predicate Follows(c: Crypto, signer: ChunkSigner, checked: Option<ChunkSigner>, prev: string, at: string) {
    checked == None || (checked == Some(signer) && at == prev)
  }

  lemma OwnSignature(c: Crypto, signer: ChunkSigner, checked: Option<ChunkSigner>, prev: string,
                     at: string, chunk: string)
    requires Follows(c, signer, checked, prev, at) && |chunk| <= U64_MAX
    ensures
      var signature := ChunkSignature(c, signer, prev, chunk);
      var r := NextSignature(c, checked, at, EncodedHeader(|chunk|, signature), chunk);
      r.Ok? && Follows(c, signer, checked, signature, r.value)
  {
    var signature := ChunkSignature(c, signer, prev, chunk);
    EncodedHeaderReads(|chunk|, signature);
    hide EncodedHeader, HeaderSignature, HeaderSize, ValidUtf8, SignatureMatches;
    assert Lower(signature) == signature;
    SignatureMatchesIs(ChunkMac(c, signer, prev, chunk), signature);
  }

  // A header line that the decoder reads as announcing `n` bytes.
  ghost predicate HeaderLine(h: string, n: nat) {
    '\r' !in h && ValidUtf8(h) && HeaderSize(h) == Some(n)
  }

  // A whole chunk, followed by anything.
  lemma WholeChunk(c: Crypto, checked: Option<ChunkSigner>, at: string, pre: string, h: string,
                   data: string, tail: string, next: string)
    requires HeaderLine(h, |data|) && NextSignature(c, checked, at, h, data) == Ok(next)
    requires |pre + h + CRLF + (data + tail)| <= U64_MAX
    ensures ReadChunk(c, pre + h + CRLF + (data + tail), |pre|, checked, at)
         == Ok(ChunkRead(data, |pre| + |h| + 2 + |data|, next))
  {
    hide ValidUtf8, HeaderSize, ReadHeader, NextSignature;
    HeaderFits(pre, h, |data|, data + tail);
    assert (data + tail)[..|data|] == data;
  }

  // A chunk cut off before the end of its data.
  lemma CutChunk(c: Crypto, checked: Option<ChunkSigner>, at: string, pre: string, h: string, data: string, k: nat)
    requires HeaderLine(h, |data|) && k < |h| + 2 + |data| && |pre| + |h| + 2 + |data| <= U64_MAX
    ensures ReadChunk(c, pre + (h + CRLF + data)[..k], |pre|, checked, at).Err?
  {
    hide ValidUtf8, HeaderSize, ReadHeader, NextSignature;
    var e := h + CRLF + data;
    if k < |h| + 2 {
      assert e[..k] == (h + CRLF)[..k];
      HeaderCut(pre, h, k);
    } else {
      var part := data[..k - |h| - 2];
      assert pre + e[..k] == pre + h + CRLF + part;
      HeaderFits(pre, h, |data|, part);
    }
  }

  // ------------------------------------------------------------- every prefix of an encoded body

  // One turn of the decoder over `first` = header line and data of a chunk, then CRLF and `rest`, cut at `k`.
  lemma PrefixTurn(c: Crypto, checked: Option<ChunkSigner>, at: string, pre: string, h: string, data: string,
                   rest: string, next: string, k: nat, payload: string)
    requires HeaderLine(h, |data|) && NextSignature(c, checked, at, h, data) == Ok(next)
    requires |pre| + |h| + 4 + |data| + |rest| <= U64_MAX && k <= |h| + 4 + |data| + |rest|
    ensures
      var first := h + CRLF + data;
      var body := pre + (first + CRLF + rest)[..k];
      var r := DecodeChunks(c, body, |pre|, checked, at, payload);
      if k < |first| then r.Err?
      else if data == "" then r == Ok((payload, |pre| + |first|))
      else if k < |first| + 2 then r.Err?
      else
        var pre' := pre + first + CRLF;
        body == pre' + rest[..k - |first| - 2]
        && r == DecodeChunks(c, pre' + rest[..k - |first| - 2], |pre'|, checked, next, payload + data)
  {
    hide HeaderLine, NextSignature, ReadChunk;
    var first := h + CRLF + data;
    var e := first + CRLF + rest;
    var body := pre + e[..k];
    if k < |first| {
      assert e[..k] == first[..k];
      CutChunk(c, checked, at, pre, h, data, k);
    } else {
      var tail := (CRLF + rest)[..k - |first|];
      CutAfter(pre, h, data, rest, k);
      WholeChunk(c, checked, at, pre, h, data, tail, next);
    }
  }

  lemma CutAfter(pre: string, h: string, data: string, rest: string, k: nat)
    requires |h + CRLF + data| <= k <= |h + CRLF + data + CRLF + rest|
    ensures
      var first := h + CRLF + data;
      var tail := (CRLF + rest)[..k - |first|];
      var body := pre + (first + CRLF + rest)[..k];
      && body == pre + h + CRLF + (data + tail) && body[|pre| + |first|..] == tail
      && (k >= |first| + 2 ==> body == pre + first + CRLF + rest[..k - |first| - 2] && CRLF <= tail)
  {
    var first := h + CRLF + data;
    assert first + CRLF + rest == first + (CRLF + rest);
    assert (first + (CRLF + rest))[..k] == first + (CRLF + rest)[..k - |first|];
    if k >= |first| + 2 {
      assert (CRLF + rest)[..k - |first|] == CRLF + rest[..k - |first| - 2];
    }
  }

  ghost predicate PrefixOutcome(c: Crypto, checked: Option<ChunkSigner>, at: string, pre: string, e: string, k: nat,
                                payload: string, total: string)
    requires 2 <= |e| && k <= |e|
  {
    var r := DecodeChunks(c, pre + e[..k], |pre|, checked, at, payload);
    if k < |e| - 2 then r.Err? else r == Ok((total, |pre| + |e| - 2))
  }

  lemma {:induction false} PrefixDecodes(c: Crypto, signer: ChunkSigner, checked: Option<ChunkSigner>, prev: string,
                                         at: string, pre: string, chunks: seq<string>, k: nat, payload: string)
    requires Follows(c, signer, checked, prev, at) && forall i :: 0 <= i < |chunks| ==> chunks[i] != ""
    requires |pre| + |Encode(c, signer, prev, chunks)| <= U64_MAX && k <= |Encode(c, signer, prev, chunks)|
    ensures |Encode(c, signer, prev, chunks)| >= 2
    ensures PrefixOutcome(c, checked, at, pre, Encode(c, signer, prev, chunks), k, payload, payload + Concat(chunks))
    decreases |chunks|
  {
    hide EncodeChunk, EncodedHeader, ChunkSignature, ValidUtf8, HeaderSize, HeaderSignature, NextSignature,
         DecodeChunks, Follows, Encode, Concat, PrefixOutcome;
    var data := if chunks == [] then "" else chunks[0];
    var signature := ChunkSignature(c, signer, prev, data);
    var h := EncodedHeader(|data|, signature);
    var rest := if chunks == [] then "" else Encode(c, signer, signature, chunks[1..]);
    EncodeFirst(c, signer, prev, chunks);
    EncodedHeaderReads(|data|, signature);
    OwnSignature(c, signer, checked, prev, at, data);
    var next := NextSignature(c, checked, at, h, data).value;
    if chunks == [] {
      assert payload + Concat(chunks) == payload;
      assert h + CRLF + data + CRLF + rest == h + CRLF + CRLF;
      PrefixLast(c, checked, at, pre, h, next, k, payload);
    } else {
      var n := |h| + 4 + |data|;
      var pre' := pre + (h + CRLF + data) + CRLF;
      var k' := if k >= n then k - n else 0;
      PrefixDecodes(c, signer, checked, signature, next, pre', chunks[1..], k', payload + data);
      assert payload + data + Concat(chunks[1..]) == payload + Concat(chunks);
      PrefixMore(c, checked, at, pre, h, data, rest, next, k, k', payload, payload + Concat(chunks));
    }
  }

  lemma PrefixLast(c: Crypto, checked: Option<ChunkSigner>, at: string, pre: string, h: string,
                   next: string, k: nat, payload: string)
    requires HeaderLine(h, 0) && NextSignature(c, checked, at, h, "") == Ok(next)
    requires |pre| + |h| + 4 <= U64_MAX && k <= |h| + 4
    ensures PrefixOutcome(c, checked, at, pre, h + CRLF + CRLF, k, payload, payload)
  {
    hide HeaderLine, NextSignature, DecodeChunks;
    PrefixTurn(c, checked, at, pre, h, "", "", next, k, payload);
    assert h + CRLF + "" + CRLF + "" == h + CRLF + CRLF;
  }

  lemma PrefixMore(c: Crypto, checked: Option<ChunkSigner>, at: string, pre: string, h: string, data: string,
                   rest: string, next: string, k: nat, k': nat, payload: string, total: string)
    requires HeaderLine(h, |data|) && NextSignature(c, checked, at, h, data) == Ok(next) && data != ""
    requires |pre| + |h| + 4 + |data| + |rest| <= U64_MAX && k <= |h| + 4 + |data| + |rest|
    requires k' == (if k >= |h| + 4 + |data| then k - |h| - 4 - |data| else 0) && |rest| >= 2
    requires PrefixOutcome(c, checked, next, pre + (h + CRLF + data) + CRLF, rest, k', payload + data, total)
    ensures PrefixOutcome(c, checked, at, pre, h + CRLF + data + CRLF + rest, k, payload, total)
  {
    hide HeaderLine, NextSignature, DecodeChunks;
    PrefixTurn(c, checked, at, pre, h, data, rest, next, k, payload);
  }

  // The first chunk of an encoded body, the final empty one if there is no other.
  lemma EncodeFirst(c: Crypto, signer: ChunkSigner, prev: string, chunks: seq<string>)
    ensures
      var data := if chunks == [] then "" else chunks[0];
      var signature := ChunkSignature(c, signer, prev, data);
      var h := EncodedHeader(|data|, signature);
      var rest := if chunks == [] then "" else Encode(c, signer, signature, chunks[1..]);
      && Encode(c, signer, prev, chunks) == h + CRLF + data + CRLF + rest
      && |Encode(c, signer, prev, chunks)| == |h| + 4 + |data| + |rest|
    ensures Concat(chunks) == if chunks == [] then "" else chunks[0] + Concat(chunks[1..])
  {
    hide EncodedHeader, ChunkSignature;
  }

  // What a prefix of an encoded body decodes to, whether or not the signatures are checked: nothing is accepted
  // before the zero chunk's header line is complete; there the body may end, or go on with exactly its last CRLF.
  // With k the whole length this is the round trip.
  lemma EncodedPrefix(c: Crypto, signer: ChunkSigner, check: bool, withTrailers: bool, chunks: seq<string>, k: nat)
    requires forall i :: 0 <= i < |chunks| ==> chunks[i] != ""
    requires |Encode(c, signer, signer.seedSignature, chunks)| <= U64_MAX
    requires k <= |Encode(c, signer, signer.seedSignature, chunks)|
    ensures
      var e := Encode(c, signer, signer.seedSignature, chunks);
      var r := Decode(c, e[..k], if check then Some(signer) else None, withTrailers);
      && (r.Ok? <==> k == |e| - 2 || k == |e|)
      && (r.Ok? ==> r.value == Decoded(Concat(chunks), []))
  {
    hide Encode, Concat, DecodeChunks, Finish;
    var seed := signer.seedSignature;
    var e := Encode(c, signer, seed, chunks);
    var checked := if check then Some(signer) else None;
    EncodeEnds(c, signer, seed, chunks);
    PrefixDecodes(c, signer, checked, seed, Seed(checked), "", chunks, k, "");
    assert "" + e[..k] == e[..k] && "" + Concat(chunks) == Concat(chunks);
    if k >= |e| - 2 {
      assert e[..k][|e| - 2..] == CRLF[..k - (|e| - 2)];
      FinishAtEnd(e[..k], |e| - 2, withTrailers, Concat(chunks));
    }
  }

  // After the zero chunk's header the body may end, or go on with exactly one CRLF.
  lemma FinishAtEnd(body: string, pos: nat, withTrailers: bool, payload: string)
    requires pos <= |body| <= pos + 2 && body[pos..] == CRLF[..|body| - pos]
    ensures Finish(body, pos, withTrailers, payload) ==
      if |body| == pos + 1 then Err(InvalidRequest) else Ok(Decoded(payload, []))
  {
    if |body| < pos + 2 {
      NoCrlf(body[pos..]);
    } else {
      assert body[pos..][0..] == CRLF;
      FindIs(body[pos..], CRLF, 0);
    }
  }

  lemma {:induction false} EncodeEnds(c: Crypto, signer: ChunkSigner, prev: string, chunks: seq<string>)
    ensures |Encode(c, signer, prev, chunks)| >= 2
    ensures Encode(c, signer, prev, chunks)[|Encode(c, signer, prev, chunks)| - 2..] == CRLF
    decreases |chunks|
  {
    if chunks != [] {
      EncodeEnds(c, signer, ChunkSignature(c, signer, prev, chunks[0]), chunks[1..]);
    }
  }

  // Decoding what the encoder writes returns the chunks' concatenation and no trailers.
  lemma RoundTrip(c: Crypto, signer: ChunkSigner, check: bool, withTrailers: bool, chunks: seq<string>)
    requires forall i :: 0 <= i < |chunks| ==> chunks[i] != ""
    requires |Encode(c, signer, signer.seedSignature, chunks)| <= U64_MAX
    ensures Decode(c, Encode(c, signer, signer.seedSignature, chunks),
                     if check then Some(signer) else None, withTrailers)
         == Ok(Decoded(Concat(chunks), []))
  {
    hide Decode, Encode, Concat;
    var e := Encode(c, signer, signer.seedSignature, chunks);
    assert e[..|e|] == e;
    EncodedPrefix(c, signer, check, withTrailers, chunks, |e|);
  }
}
