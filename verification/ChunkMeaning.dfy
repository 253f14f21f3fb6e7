// Exactly which `aws-chunked` bodies decode, and to what: framed and chained chunks, trailer lines, and an ending.
module ChunkMeaning {
  import opened Rgw
  import opened Text
  import opened Signing
  import opened Chunked
  import opened ChunkChain

  // ------------------------------------------------------------- chunks

  // Up to and including the zero chunk's header line.
  function Head(frames: seq<Frame>, last: Frame): string {
    Wire(frames) + last.header + CRLF
  }

  // Non-empty chunks and a final empty one, chained from the seed; the header lines end within the address space.
  ghost predicate Framed(c: Crypto, signer: Option<ChunkSigner>, frames: seq<Frame>, last: Frame) {
    && last.data == "" && (forall i :: 0 <= i < |frames| ==> frames[i].data != "")
    && Chained(c, signer, Seed(signer), frames + [last]) && |Head(frames, last)| <= U64_MAX
  }

  // A signature that is a case variant of the computed one is accepted.
  lemma SignatureContinues(c: Crypto, signer: Option<ChunkSigner>, prev: string, f: Frame)
    requires Announces(signer, f, Continue(c, signer, prev, f.data))
    ensures NextSignature(c, signer, prev, f.header, f.data) == Ok(Continue(c, signer, prev, f.data))
  {
    hide IsLine, ValidUtf8, HeaderSize, HeaderSignature, SignatureMatches, HexEncode, Lower;
    if signer.Some? {
      SignatureMatchesIs(ChunkMac(c, signer.value, prev, f.data), HeaderSignature(f.header).value);
    }
  }

  lemma HeaderReads(pre: string, f: Frame, tail: string)
    requires IsLine(f.header) && ValidUtf8(f.header) && HeaderSize(f.header) == Some(|f.data|)
    requires |pre| + |f.header| + 2 + |f.data| <= U64_MAX
    ensures
      var body, start := pre + f.header + CRLF + (f.data + tail), |pre| + |f.header| + 2;
      ReadHeader(body, |pre|) == Ok(Header(f.header, start, start + |f.data|)) &&
      body[start..start + |f.data|] == f.data
  {
    hide ValidUtf8, HeaderSize, NextLine, IsLine;
    NextLineIs(pre, f.header, f.data + tail);
  }

  lemma ChunkReads(c: Crypto, signer: Option<ChunkSigner>, prev: string, pre: string, f: Frame, tail: string)
    requires Announces(signer, f, Continue(c, signer, prev, f.data)) && |pre| + |f.header| + 2 + |f.data| <= U64_MAX
    ensures ReadChunk(c, pre + f.header + CRLF + (f.data + tail), |pre|, signer, prev)
         == Ok(ChunkRead(f.data, |pre| + |f.header| + 2 + |f.data|, Continue(c, signer, prev, f.data)))
  {
    hide ReadHeader, NextSignature, ValidUtf8, HeaderSize, HeaderSignature, IsLine, Continue, Lower;
    SignatureContinues(c, signer, prev, f);
    HeaderReads(pre, f, tail);
  }

  lemma ChainedFirst(c: Crypto, signer: Option<ChunkSigner>, prev: string, frames: seq<Frame>)
    requires frames != [] && Chained(c, signer, prev, frames)
    ensures
      var signature := Continue(c, signer, prev, frames[0].data);
      Announces(signer, frames[0], signature) && Chained(c, signer, signature, frames[1..])
  {
  }

  // The chunk loop reads every chain back.
  lemma {:induction false} ChunksComplete(c: Crypto, signer: Option<ChunkSigner>, prev: string, pre: string,
                                          frames: seq<Frame>, last: Frame, rest: string, payload: string)
    requires last.data == "" && forall i :: 0 <= i < |frames| ==> frames[i].data != ""
    requires Chained(c, signer, prev, frames + [last]) && |pre| + |Head(frames, last)| <= U64_MAX
    ensures DecodeChunks(c, pre + (Head(frames, last) + rest), |pre|, signer, prev, payload)
         == Ok((payload + Payload(frames), |pre| + |Head(frames, last)|))
    decreases |frames|
  {
    hide Chained, Announces, Continue, ReadChunk, DecodeChunks, Wire, Payload, Head;
    var body := pre + (Head(frames, last) + rest);
    ChainedFirst(c, signer, prev, frames + [last]);
    if frames == [] {
      OnlyChunk(pre, last, rest, payload);
      ChunkReads(c, signer, prev, pre, last, rest);
      LastTurn(c, body, |pre|, signer, prev, payload);
    } else {
      var f, more := frames[0], frames[1..];
      FirstChunk(pre, frames, last, rest, payload);
      ChunkReads(c, signer, prev, pre, f, CRLF + (Head(more, last) + rest));
      MoreTurns(c, body, |pre|, signer, prev, payload);
      assert (frames + [last])[1..] == more + [last];
      ChunksComplete(c, signer, Continue(c, signer, prev, f.data), pre + f.header + CRLF + f.data + CRLF,
                     more, last, rest, payload + f.data);
    }
  }

  lemma LastTurn(c: Crypto, body: string, pos: nat, signer: Option<ChunkSigner>, prev: string, payload: string)
    requires pos <= |body| && ReadChunk(c, body, pos, signer, prev).Ok? &&
      ReadChunk(c, body, pos, signer, prev).value.data == ""
    ensures DecodeChunks(c, body, pos, signer, prev, payload) ==
      Ok((payload, ReadChunk(c, body, pos, signer, prev).value.next))
  {
    hide ReadChunk;
  }

  lemma MoreTurns(c: Crypto, body: string, pos: nat, signer: Option<ChunkSigner>, prev: string, payload: string)
    requires pos <= |body| && ReadChunk(c, body, pos, signer, prev).Ok?
    requires
      var chunk := ReadChunk(c, body, pos, signer, prev).value;
      chunk.data != "" && CRLF <= body[chunk.next..]
    ensures
      var chunk := ReadChunk(c, body, pos, signer, prev).value;
      && chunk.next + 2 <= |body|
      && DecodeChunks(c, body, pos, signer, prev, payload)
         == DecodeChunks(c, body, chunk.next + 2, signer, chunk.prev, payload + chunk.data)
  {
    hide ReadChunk;
  }

  lemma OnlyChunk(pre: string, last: Frame, rest: string, payload: string)
    requires last.data == ""
    ensures pre + (Head([], last) + rest) == pre + last.header + CRLF + (last.data + rest)
    ensures payload + Payload([]) == payload && |Head([], last)| == |last.header| + 2
  {
    assert last.data + rest == rest && "" + last.header + CRLF == last.header + CRLF;
    assert pre + (last.header + CRLF + rest) == pre + last.header + CRLF + rest;
  }

  // One chunk `h`, `d` in front of `w` and `rest`, cut at either end of its data.
  lemma Regroup(pre: string, h: string, d: string, w: string, rest: string)
    ensures
      var body, next, end := pre + (h + CRLF + d + CRLF + w + rest), pre + h + CRLF + d + CRLF, |pre| + |h| + 2 + |d|;
      && body == pre + h + CRLF + (d + (CRLF + (w + rest))) && body == next + (w + rest)
      && end <= |body| && body[end..] == CRLF + (w + rest)
  {
    var next, end := pre + h + CRLF + d + CRLF, |pre| + |h| + 2 + |d|;
    assert (next + (w + rest))[end..] == CRLF + (w + rest);
  }

  lemma Associates(x: string, w: string, h: string)
    ensures x + w + h + CRLF == x + (w + h + CRLF)
  {
  }

  lemma AppendsFirst(payload: string, data: string, more: string)
    ensures payload + (data + more) == payload + data + more
  {
  }

  lemma FirstFrame(frames: seq<Frame>, last: Frame, payload: string)
    requires frames != []
    ensures Head(frames, last) == frames[0].header + CRLF + frames[0].data + CRLF + Head(frames[1..], last)
    ensures payload + Payload(frames) == payload + frames[0].data + Payload(frames[1..])
  {
    var x := frames[0].header + CRLF + frames[0].data + CRLF;
    WireFirst(frames);
    hide Wire, Payload;
    Associates(x, Wire(frames[1..]), last.header);
    AppendsFirst(payload, frames[0].data, Payload(frames[1..]));
  }

  lemma WireFirst(frames: seq<Frame>)
    requires frames != []
    ensures Wire(frames) == frames[0].header + CRLF + frames[0].data + CRLF + Wire(frames[1..])
    ensures Payload(frames) == frames[0].data + Payload(frames[1..])
  {
  }

  lemma FirstChunk(pre: string, frames: seq<Frame>, last: Frame, rest: string, payload: string)
    requires frames != []
    ensures
      var f, more := frames[0], frames[1..];
      var body, end := pre + (Head(frames, last) + rest), |pre| + |f.header| + 2 + |f.data|;
      var next := pre + f.header + CRLF + f.data + CRLF;
      && body == pre + f.header + CRLF + (f.data + (CRLF + (Head(more, last) + rest)))
      && body == next + (Head(more, last) + rest)
      && end <= |body| && CRLF <= body[end..] && |next| == end + 2
      && |pre| + |Head(frames, last)| == |next| + |Head(more, last)|
      && payload + Payload(frames) == payload + f.data + Payload(more)
  {
    hide Head, Payload;
    FirstFrame(frames, last, payload);
    Regroup(pre, frames[0].header, frames[0].data, Head(frames[1..], last), rest);
  }

  // ------------------------------------------------------------- trailers and the ending

  ghost predicate TrailerLine(line: string) {
    line != "" && IsLine(line) && ValidUtf8(line) && ':' in line
  }

  // The name in lower case and the value, both trimmed.
  function TrailerOf(line: string): (string, string) {
    match SplitOnce(line, ':')
    case None => ("", "")
    case Some((name, value)) => (Lower(Trim(name)), Trim(value))
  }

  function Lines(lines: seq<string>): string {
    if lines == [] then "" else lines[0] + CRLF + Lines(lines[1..])
  }

  function TrailersOf(lines: seq<string>): seq<(string, string)> {
    if lines == [] then [] else [TrailerOf(lines[0])] + TrailersOf(lines[1..])
  }

  predicate Ending(e: string) {
    e == "" || e == CRLF || e == CRLF + CRLF
  }

  // What may follow the zero chunk's header: trailer lines, if they were declared, and an ending.
  ghost predicate TailIs(rest: string, withTrailers: bool, lines: seq<string>, e: string) {
    && rest == Lines(lines) + e && Ending(e) && (!withTrailers ==> lines == [])
    && forall i :: 0 <= i < |lines| ==> TrailerLine(lines[i])
  }

  lemma EmptyIsLine()
    ensures IsLine("")
  {
  }

  // The end of the trailers: no further line, or a blank one.
  lemma EndingReads(pre: string, e: string, withTrailers: bool, trailers: seq<(string, string)>)
    requires Ending(e)
    ensures
      var body, r := pre + e, ReadTrailers(pre + e, |pre|, withTrailers, trailers);
      r.Ok? && r.value.0 == trailers && (r.value.1 >= |body| || body[r.value.1..] == CRLF)
  {
    var body := pre + e;
    assert body[|pre|..] == e;
    if e == "" {
      assert !OccursAt(e, CRLF, 0);
    } else {
      var tail := e[2..];
      EmptyIsLine();
      assert body == pre + "" + CRLF + tail;
      NextLineIs(pre, "", tail);
      hide NextLine;
      assert body[|pre| + 2..] == tail;
    }
  }

  lemma TrailerReads(pre: string, line: string, tail: string, trailers: seq<(string, string)>)
    requires TrailerLine(line)
    ensures
      var body := pre + line + CRLF + tail;
      ReadTrailers(body, |pre|, true, trailers)
      == ReadTrailers(body, |pre + line + CRLF|, true, trailers + [TrailerOf(line)])
  {
    hide NextLine, SplitOnce, Trim, Lower, ValidUtf8, IsLine;
    NextLineIs(pre, line, tail);
    SplitOnceShape(line, ':');
  }

  lemma NoLines(e: string, trailers: seq<(string, string)>)
    ensures Lines([]) + e == e && trailers + TrailersOf([]) == trailers
  {
  }

  lemma FirstLine(pre: string, lines: seq<string>, e: string, trailers: seq<(string, string)>)
    requires lines != []
    ensures
      var line, more := lines[0], lines[1..];
      && pre + (Lines(lines) + e) == pre + line + CRLF + (Lines(more) + e)
      && trailers + TrailersOf(lines) == trailers + [TrailerOf(line)] + TrailersOf(more)
  {
    hide TrailerOf;
    assert Lines(lines) + e == lines[0] + CRLF + (Lines(lines[1..]) + e);
  }

  lemma {:induction false} TrailersComplete(pre: string, lines: seq<string>, e: string, withTrailers: bool,
                                            trailers: seq<(string, string)>)
    requires Ending(e) && (!withTrailers ==> lines == []) && forall i :: 0 <= i < |lines| ==> TrailerLine(lines[i])
    ensures
      var body, r := pre + (Lines(lines) + e), ReadTrailers(pre + (Lines(lines) + e), |pre|, withTrailers, trailers);
      r.Ok? && r.value.0 == trailers + TrailersOf(lines) && (r.value.1 >= |body| || body[r.value.1..] == CRLF)
    decreases |lines|
  {
    hide ReadTrailers, TrailerLine, TrailerOf, Ending, Lines, TrailersOf;
    if lines == [] {
      NoLines(e, trailers);
      EndingReads(pre, e, withTrailers, trailers);
    } else {
      var line, more := lines[0], lines[1..];
      FirstLine(pre, lines, e, trailers);
      TrailerReads(pre, line, Lines(more) + e, trailers);
      TrailersComplete(pre + line + CRLF, more, e, withTrailers, trailers + [TrailerOf(line)]);
    }
  }

  lemma BlankEnding(body: string, pos: nat)
    requires pos <= |body| && NextLine(body, pos).Some? && NextLine(body, pos).value.0 == ""
    requires var next := NextLine(body, pos).value.1; next >= |body| || body[next..] == CRLF
    ensures Ending(body[pos..])
  {
    NextLineShape(body, pos);
    var next := NextLine(body, pos).value.1;
    SliceConcat(body, pos, next, |body|);
    assert body[pos..|body|] == body[pos..] && body[next..|body|] == body[next..];
  }

  lemma NoLineNoCrlf(body: string, pos: nat)
    requires pos <= |body| && NextLine(body, pos).None?
    ensures body[pos..] != CRLF
  {
    assert !OccursAt(body[pos..], CRLF, 0);
    assert body[pos..][0..] == body[pos..];
  }

  lemma {:induction false} TrailersSound(body: string, pos: nat, withTrailers: bool, trailers: seq<(string, string)>)
    returns (lines: seq<string>, e: string)
    requires pos <= |body| && ReadTrailers(body, pos, withTrailers, trailers).Ok?
    requires
      var end := ReadTrailers(body, pos, withTrailers, trailers).value.1;
      end >= |body| || body[end..] == CRLF
    ensures TailIs(body[pos..], withTrailers, lines, e)
    ensures ReadTrailers(body, pos, withTrailers, trailers).value.0 == trailers + TrailersOf(lines)
    decreases |body| - pos
  {
    hide NextLine, SplitOnce, Trim, Lower, ValidUtf8, IsLine;
    var next := NextLine(body, pos);
    if next.None? {
      NoLineNoCrlf(body, pos);
      lines, e := [], "";
    } else if next.value.0 == "" {
      BlankEnding(body, pos);
      lines, e := [], body[pos..];
      assert Lines([]) + e == e && trailers + TrailersOf([]) == trailers;
    } else {
      var (line, after) := next.value;
      NextLineShape(body, pos);
      SplitOnceShape(line, ':');
      var more, end := TrailersSound(body, after, withTrailers, trailers + [TrailerOf(line)]);
      lines, e := [line] + more, end;
      ConsLines(line, more, e);
      SliceConcat(body, pos, after, |body|);
      assert body[pos..|body|] == body[pos..] && body[after..|body|] == body[after..];
      assert trailers + TrailersOf(lines) == trailers + [TrailerOf(line)] + TrailersOf(more);
    }
  }

  lemma ConsLines(line: string, more: seq<string>, e: string)
    ensures Lines([line] + more) + e == line + CRLF + (Lines(more) + e)
    ensures TrailersOf([line] + more) == [TrailerOf(line)] + TrailersOf(more)
  {
    assert ([line] + more)[1..] == more;
  }

  // ------------------------------------------------------------- whole bodies

  // How a body reads as `d`.
  ghost predicate Reads(c: Crypto, body: string, signer: Option<ChunkSigner>, withTrailers: bool, d: Decoded,
                        frames: seq<Frame>, last: Frame, lines: seq<string>, e: string)
  {
    && body == Head(frames, last) + (Lines(lines) + e) && Framed(c, signer, frames, last)
    && TailIs(Lines(lines) + e, withTrailers, lines, e) && d == Decoded(Payload(frames), TrailersOf(lines))
  }

  lemma ReadsDecode(c: Crypto, body: string, signer: Option<ChunkSigner>, withTrailers: bool, d: Decoded,
                    frames: seq<Frame>, last: Frame, lines: seq<string>, e: string)
    requires Reads(c, body, signer, withTrailers, d, frames, last, lines, e)
    ensures Decode(c, body, signer, withTrailers) == Ok(d)
  {
    hide DecodeChunks, ReadTrailers, Chained, Wire, Payload, TrailersOf, Lines, TrailerLine, Head, Ending;
    var head, rest := Head(frames, last), Lines(lines) + e;
    assert body == "" + (head + rest) && "" + Payload(frames) == Payload(frames);
    ChunksComplete(c, signer, Seed(signer), "", frames, last, rest, "");
    TrailersComplete(head, lines, e, withTrailers, []);
    assert [] + TrailersOf(lines) == TrailersOf(lines);
  }

  lemma DecodeReads(c: Crypto, body: string, signer: Option<ChunkSigner>, withTrailers: bool)
    returns (frames: seq<Frame>, last: Frame, lines: seq<string>, e: string)
    requires Decode(c, body, signer, withTrailers).Ok?
    ensures Reads(c, body, signer, withTrailers, Decode(c, body, signer, withTrailers).value, frames, last, lines, e)
  {
    hide DecodeChunks, ReadTrailers, Chained, Wire, Payload, TrailersOf, Lines, TrailerLine, Ending;
    var (payload, pos) := DecodeChunks(c, body, 0, signer, Seed(signer), "").value;
    frames, last := ChunksSound(c, body, 0, signer, Seed(signer), "", payload, pos);
    assert forall i :: 0 <= i < |frames| ==> frames[i] in frames;
    lines, e := TrailersSound(body, pos, withTrailers, []);
    assert "" + Payload(frames) == Payload(frames) && [] + TrailersOf(lines) == TrailersOf(lines);
    assert body == body[0..pos] + body[pos..];
  }

  // A body decodes to a payload and trailers exactly when it is made of non-empty chunks and a final empty one, each
  // under a one-line header with its size and a case variant of the signature computed from the one before and its
  // data, followed by trailer lines, if declared, and nothing, a blank line, or a blank line and one more CRLF; the
  // payload is the chunks' concatenation, and the trailers are the lines' names and values.
  lemma DecodeMeaning(c: Crypto, body: string, signer: Option<ChunkSigner>, withTrailers: bool, d: Decoded)
    ensures Decode(c, body, signer, withTrailers) == Ok(d)
      <==> exists frames, last, lines, e :: Reads(c, body, signer, withTrailers, d, frames, last, lines, e)
    ensures Decode(c, body, signer, withTrailers) == Ok(d) ==> |d.payload| <= |body|
  {
    hide Decode, Reads;
    if Decode(c, body, signer, withTrailers) == Ok(d) {
      var frames, last, lines, e := DecodeReads(c, body, signer, withTrailers);
      PayloadShorter(c, body, signer, withTrailers, d, frames, last, lines, e);
    }
    if frames, last, lines, e :| Reads(c, body, signer, withTrailers, d, frames, last, lines, e) {
      ReadsDecode(c, body, signer, withTrailers, d, frames, last, lines, e);
    }
  }

  lemma PayloadShorter(c: Crypto, body: string, signer: Option<ChunkSigner>, withTrailers: bool, d: Decoded,
                       frames: seq<Frame>, last: Frame, lines: seq<string>, e: string)
    requires Reads(c, body, signer, withTrailers, d, frames, last, lines, e)
    ensures |d.payload| <= |body|
  {
    hide Chained, TrailerLine;
    PayloadFits(frames);
  }
}
