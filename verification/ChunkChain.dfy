// What a decoded `aws-chunked` body must have looked like, and what the encoder's output decodes to.
module ChunkChain {
  import opened Rgw
  import opened Text
  import opened Signing
  import opened Chunked

  // ------------------------------------------------------------- soundness of the chain

  datatype Frame = Frame(header: string, data: string)

  function Wire(frames: seq<Frame>): string {
    if frames == [] then "" else frames[0].header + CRLF + frames[0].data + CRLF + Wire(frames[1..])
  }

  function Payload(frames: seq<Frame>): string {
    if frames == [] then "" else frames[0].data + Payload(frames[1..])
  }

  // The signature that continues the chain from `prev` over `data`; without a signer there is no chain.
  function Continue(c: Crypto, signer: Option<ChunkSigner>, prev: string, data: string): string {
    if signer.Some? then ChunkSignature(c, signer.value, prev, data) else prev
  }

  // The header is one line, announces its data's size and, under a signer, carries a case variant of the signature that
  // continues the chain.
  ghost predicate Announces(signer: Option<ChunkSigner>, f: Frame, signature: string) {
    && IsLine(f.header) && ValidUtf8(f.header) && HeaderSize(f.header) == Some(|f.data|)
    && (signer.Some? ==> HeaderSignature(f.header).Some? && Lower(HeaderSignature(f.header).value) == signature)
  }

  // The computed signatures depend on the seed and the data alone.
  ghost predicate Chained(c: Crypto, signer: Option<ChunkSigner>, prev: string, frames: seq<Frame>)
    decreases |frames|
  {
    frames != [] ==>
      var signature := Continue(c, signer, prev, frames[0].data);
      Announces(signer, frames[0], signature) && Chained(c, signer, signature, frames[1..])
  }

  lemma NextLineShape(body: string, pos: nat)
    requires pos <= |body| && NextLine(body, pos).Some?
    ensures body[pos..NextLine(body, pos).value.1] == NextLine(body, pos).value.0 + CRLF
    ensures IsLine(NextLine(body, pos).value.0)
  {
    hide Find, IsLine;
    var end := Find(body[pos..], CRLF).value;
    FoundAt(body, pos, end);
    SliceConcat(body, pos, pos + end, pos + end + 2);
    LineBefore(body, pos, end);
  }

  lemma FoundAt(body: string, pos: nat, end: nat)
    requires pos <= |body| && OccursAt(body[pos..], CRLF, end)
    ensures pos + end + 2 <= |body| && body[pos + end..pos + end + 2] == CRLF
  {
    assert body[pos..][end..] == body[pos + end..];
    assert body[pos + end..][..2] == CRLF;
  }

  lemma LineBefore(body: string, pos: nat, end: nat)
    requires pos + end <= |body| && forall j: nat :: j < end ==> !OccursAt(body[pos..], CRLF, j)
    ensures IsLine(body[pos..pos + end])
  {
    var line := body[pos..pos + end];
    forall j: nat ensures !OccursAt(line, CRLF, j) {
      if j + 2 <= end {
        assert !OccursAt(body[pos..], CRLF, j);
        assert line[j..][..2] == body[pos..][j..][..2];
      }
    }
  }

  lemma HeaderShape(body: string, pos: nat)
    requires pos <= |body| && ReadHeader(body, pos).Ok?
    ensures
      var h := ReadHeader(body, pos).value;
      && body[pos..h.end] == h.line + CRLF + body[h.start..h.end]
      && IsLine(h.line) && ValidUtf8(h.line) && HeaderSize(h.line) == Some(h.end - h.start) && h.end <= U64_MAX
  {
    var h := ReadHeader(body, pos).value;
    NextLineShape(body, pos);
    SliceConcat(body, pos, h.start, h.end);
  }

  lemma SliceConcat(s: string, a: nat, b: nat, c: nat)
    requires a <= b <= c <= |s|
    ensures s[a..c] == s[a..b] + s[b..c]
  {
  }

  // An accepted signature is a case variant of the computed one.
  lemma SignatureShape(c: Crypto, signer: Option<ChunkSigner>, prev: string, line: string, data: string)
    requires NextSignature(c, signer, prev, line, data).Ok?
    ensures NextSignature(c, signer, prev, line, data).value == Continue(c, signer, prev, data)
    ensures signer.Some? ==>
      HeaderSignature(line).Some? && Lower(HeaderSignature(line).value) == Continue(c, signer, prev, data)
  {
    if signer.Some? {
      SignatureMatchesIs(ChunkMac(c, signer.value, prev, data), HeaderSignature(line).value);
    }
  }

  // One accepted chunk, read back from the body.
  lemma ReadChunkShape(c: Crypto, body: string, pos: nat, signer: Option<ChunkSigner>, prev: string) returns (f: Frame)
    requires pos <= |body| && ReadChunk(c, body, pos, signer, prev).Ok?
    ensures
      var r := ReadChunk(c, body, pos, signer, prev).value;
      && f.data == r.data && body[pos..r.next] == f.header + CRLF + f.data
      && r.prev == Continue(c, signer, prev, f.data) && Announces(signer, f, r.prev) && r.next <= U64_MAX
  {
    var header := ReadHeader(body, pos).value;
    var data := body[header.start..header.end];
    f := Frame(header.line, data);
    HeaderShape(body, pos);
    SignatureShape(c, signer, prev, header.line, data);
  }

  // One turn of a chunk loop that succeeds.
  lemma {:induction false} OneTurn(c: Crypto, body: string, pos: nat, signer: Option<ChunkSigner>,
                                  prev: string, payload: string, result: string, end: nat)
    requires pos <= |body| && DecodeChunks(c, body, pos, signer, prev, payload) == Ok((result, end))
    ensures ReadChunk(c, body, pos, signer, prev).Ok?
    ensures
      var chunk := ReadChunk(c, body, pos, signer, prev).value;
      if chunk.data == "" then result == payload && end == chunk.next
      else CRLF <= body[chunk.next..]
           && DecodeChunks(c, body, chunk.next + 2, signer, chunk.prev, payload + chunk.data) == Ok((result, end))
  {
    hide ReadChunk;
  }

  // If the chunk loop succeeds, the body is a chain of non-empty chunks and a final empty one whose
  // concatenation is the payload.
  lemma {:induction false} ChunksSound(c: Crypto, body: string, pos: nat, signer: Option<ChunkSigner>, prev: string,
                                       payload: string, result: string, end: nat)
    returns (frames: seq<Frame>, last: Frame)
    requires pos <= |body| && DecodeChunks(c, body, pos, signer, prev, payload) == Ok((result, end))
    ensures pos <= end <= |body| && end <= U64_MAX && body[pos..end] == Wire(frames) + last.header + CRLF
    ensures result == payload + Payload(frames)
    ensures last.data == "" && (forall f :: f in frames ==> f.data != "")
    ensures Chained(c, signer, prev, frames + [last])
    decreases |body| - pos
  {
    hide DecodeChunks, ReadChunk, Chained, Announces, Continue, Wire, Payload;
    OneTurn(c, body, pos, signer, prev, payload, result, end);
    var chunk := ReadChunk(c, body, pos, signer, prev).value;
    var f := ReadChunkShape(c, body, pos, signer, prev);
    if chunk.data == "" {
      frames, last := [], f;
      LastFrame(c, signer, prev, f);
    } else {
      var next := chunk.next;
      var rest, final := ChunksSound(c, body, next + 2, signer, chunk.prev, payload + chunk.data, result, end);
      assert body[next..next + 2] == CRLF;
      SliceConcat(body, pos, next, end);
      SliceConcat(body, next, next + 2, end);
      FrameFirst(f, rest, final, payload);
      frames, last := [f] + rest, final;
      ChainedCons(c, signer, prev, f, rest + [last]);
      assert frames + [last] == [f] + (rest + [last]);
    }
  }

  lemma FrameFirst(f: Frame, rest: seq<Frame>, last: Frame, payload: string)
    ensures Wire([f] + rest) + last.header + CRLF
         == f.header + CRLF + f.data + (CRLF + (Wire(rest) + last.header + CRLF))
    ensures payload + Payload([f] + rest) == payload + f.data + Payload(rest)
  {
    assert ([f] + rest)[1..] == rest;
  }

  lemma ChainedCons(c: Crypto, signer: Option<ChunkSigner>, prev: string, f: Frame, rest: seq<Frame>)
    requires Announces(signer, f, Continue(c, signer, prev, f.data))
    requires Chained(c, signer, Continue(c, signer, prev, f.data), rest)
    ensures Chained(c, signer, prev, [f] + rest)
  {
    hide Announces, Continue;
    assert ([f] + rest)[1..] == rest;
  }

  lemma LastFrame(c: Crypto, signer: Option<ChunkSigner>, prev: string, f: Frame)
    requires Announces(signer, f, Continue(c, signer, prev, f.data))
    ensures Wire([]) == "" && Payload([]) == "" && Chained(c, signer, prev, [] + [f])
  {
    hide Announces, Continue;
    assert ([] + [f])[1..] == [];
  }

  lemma {:induction false} PayloadFits(frames: seq<Frame>)
    ensures |Payload(frames)| <= |Wire(frames)|
  {
    if frames != [] { PayloadFits(frames[1..]); }
  }

  // Where no trailers were declared, the rest of the body after the zero chunk's header may only be nothing, a
  // blank line, or a blank line and one more CRLF.
  lemma TailWithoutTrailers(body: string, pos: nat, payload: string)
    requires pos <= |body|
    ensures Finish(body, pos, false, payload).Ok? <==>
      body[pos..] == "" || body[pos..] == CRLF || body[pos..] == CRLF + CRLF
    ensures Finish(body, pos, false, payload).Ok? ==> Finish(body, pos, false, payload).value == Decoded(payload, [])
  {
    var rest := body[pos..];
    match NextLine(body, pos)
    case None =>
      assert !OccursAt(rest, CRLF, 0) && rest[0..] == rest;
    case Some((line, next)) =>
      var end := Find(rest, CRLF).value;
      assert rest[end..end + 2] == CRLF;
      if line == "" {
        var tail := body[next..];
        assert rest == CRLF + tail && rest[2..] == tail && (CRLF + CRLF)[2..] == CRLF;
        assert tail == "" ==> rest == CRLF;
        assert rest == CRLF ==> |tail| == 0;
      } else {
        assert !OccursAt(rest, CRLF, 0) && rest[0..] == rest;
      }
  }
}
