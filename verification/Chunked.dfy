// `aws-chunked` bodies: the decoder with its signature chain, and the encoder it is checked against.
module Chunked {
  import opened Rgw
  import opened Text
  import opened Signing

  const CRLF := "\r\n"
  const SIGNATURE_KEY := "chunk-signature="

  datatype Decoded = Decoded(payload: string, trailers: seq<(string, string)>)

  // ------------------------------------------------------------- the decoder as a function of the cursor

  // `next_line`: one CRLF-terminated line starting at `pos`, and the cursor after it.
  function NextLine(body: string, pos: nat): (r: Option<(string, nat)>)
    requires pos <= |body|
    ensures r.Some? ==> pos + 2 <= r.value.1 <= |body|
  {
    match Find(body[pos..], CRLF)
    case None => None
    case Some(end) => Some((body[pos..pos + end], pos + end + 2))
  }

  // Text that is one line: no CRLF inside it.
  ghost predicate IsLine(s: string) {
    forall j: nat :: !OccursAt(s, CRLF, j)
  }

  // A line ends at the first CRLF, whatever follows it; its own last character may be a carriage return.
  lemma FindCrlf(h: string, tail: string)
    requires IsLine(h)
    ensures Find(h + CRLF + tail, CRLF) == Some(|h|)
  {
    var whole := h + CRLF + tail;
    assert whole[|h|..] == CRLF + tail;
    forall j: nat | j < |h| ensures !OccursAt(whole, CRLF, j) {
      if j + 2 <= |h| {
        assert !OccursAt(h, CRLF, j) && h[j..][..2] == whole[j..][..2];
        assert h[j..][..2] != CRLF;
      } else {
        assert whole[j..][1] == '\r';
      }
    }
    FindIs(whole, CRLF, |h|);
  }

  lemma NextLineIs(pre: string, h: string, tail: string)
    requires IsLine(h)
    ensures NextLine(pre + h + CRLF + tail, |pre|) == Some((h, |pre| + |h| + 2))
  {
    var body := pre + h + CRLF + tail;
    assert body[|pre|..] == h + CRLF + tail;
    FindCrlf(h, tail);
    hide Find;
    assert body[|pre|..|pre| + |h|] == h;
  }

  // What a chunk header announces: the data size and the supplied signature.
  function HeaderSize(header: string): Option<nat> {
    var split := SplitOnce(header, ';');
    ParseHex(Trim(if split.Some? then split.value.0 else header))
  }

  function HeaderSignature(header: string): Option<string> {
    var split := SplitOnce(header, ';');
    if split.Some? && SIGNATURE_KEY <= Trim(split.value.1) then Some(Trim(split.value.1)[|SIGNATURE_KEY|..]) else None
  }

  datatype Header = Header(line: string, start: nat, end: nat)

  // The header line at `pos` and where its data starts and ends.
  function ReadHeader(body: string, pos: nat): (r: Result<Header>)
    requires pos <= |body|
    ensures r.Ok? ==> pos + 2 <= r.value.start <= r.value.end <= |body|
  {
    var next := NextLine(body, pos);
    if next.None? || !ValidUtf8(next.value.0) then Err(InvalidRequest)
    else
      var (line, start) := next.value;
      var size := HeaderSize(line);
      if size.None? || start + size.value > U64_MAX || start + size.value > |body| then Err(InvalidRequest)
      else Ok(Header(line, start, start + size.value))
  }

  // The signature the chain stands at after a chunk, if the header continues the chain from `prev`.
  function NextSignature(c: Crypto, signer: Option<ChunkSigner>, prev: string, line: string, data: string)
    : Result<string>
  {
    if signer.None? then Ok(prev)
    else
      var provided := HeaderSignature(line);
      if provided.None? then Err(InvalidRequest)
      else if !SignatureMatches(ChunkMac(c, signer.value, prev, data), provided.value) then Err(SignatureDoesNotMatch)
      else Ok(Lower(provided.value))
  }

  datatype ChunkRead = ChunkRead(data: string, next: nat, prev: string)

  function ReadChunk(c: Crypto, body: string, pos: nat, signer: Option<ChunkSigner>, prev: string)
    : (r: Result<ChunkRead>)
    requires pos <= |body|
    ensures r.Ok? ==> pos + 2 <= r.value.next <= |body|
  {
    var header :- ReadHeader(body, pos);
    var data := body[header.start..header.end];
    var next :- NextSignature(c, signer, prev, header.line, data);
    Ok(ChunkRead(data, header.end, next))
  }

  // The chunk loop: the payload, and the cursor after the zero chunk's header line.
  function DecodeChunks(c: Crypto, body: string, pos: nat, signer: Option<ChunkSigner>, prev: string, payload: string)
    : (r: Result<(string, nat)>)
    requires pos <= |body|
    ensures r.Ok? ==> r.value.1 <= |body|
    decreases |body| - pos
  {
    match ReadChunk(c, body, pos, signer, prev)
    case Err(e) => Err(e)
    case Ok(chunk) =>
      if chunk.data == "" then Ok((payload, chunk.next))
      else if !(CRLF <= body[chunk.next..]) then Err(InvalidRequest)
      else DecodeChunks(c, body, chunk.next + 2, signer, chunk.prev, payload + chunk.data)
  }

  // The trailer loop.
  function ReadTrailers(body: string, pos: nat, withTrailers: bool, trailers: seq<(string, string)>)
    : (r: Result<(seq<(string, string)>, nat)>)
    requires pos <= |body|
    ensures r.Ok? ==> r.value.1 <= |body|
    decreases |body| - pos
  {
    match NextLine(body, pos)
    case None => Ok((trailers, pos))
    case Some((line, next)) =>
      if line == "" then Ok((trailers, next))
      else if !withTrailers || !ValidUtf8(line) then Err(InvalidRequest)
      else
        match SplitOnce(line, ':')
        case None => Err(InvalidRequest)
        case Some((name, value)) =>
          ReadTrailers(body, next, withTrailers, trailers + [(Lower(Trim(name)), Trim(value))])
  }

  function Seed(signer: Option<ChunkSigner>): string {
    match signer case None => "" case Some(s) => s.seedSignature
  }

  function Finish(body: string, pos: nat, withTrailers: bool, payload: string): Result<Decoded>
    requires pos <= |body|
  {
    match ReadTrailers(body, pos, withTrailers, [])
    case Err(e) => Err(e)
    case Ok((trailers, end)) =>
      if end < |body| && body[end..] != CRLF then Err(InvalidRequest) else Ok(Decoded(payload, trailers))
  }

  function Decode(c: Crypto, body: string, signer: Option<ChunkSigner>, withTrailers: bool): Result<Decoded> {
    match DecodeChunks(c, body, 0, signer, Seed(signer), "")
    case Err(e) => Err(e)
    case Ok((payload, pos)) => Finish(body, pos, withTrailers, payload)
  }

  // `decode_aws_chunked`.
  method DecodeAwsChunked(c: Crypto, body: string, signer: Option<ChunkSigner>, withTrailers: bool)
    returns (r: Result<Decoded>)
    ensures r == Decode(c, body, signer, withTrailers)
  {
    var payload :- ChunkLines(c, body, signer);
    var trailers :- TrailerLines(body, payload.1, withTrailers);
    var pos := trailers.1;
    if pos < |body| && body[pos..] != CRLF { return Err(InvalidRequest); }
    return Ok(Decoded(payload.0, trailers.0));
  }

  // The loop over the chunks. The cursor strictly advances on every turn.
  method ChunkLines(c: Crypto, body: string, signer: Option<ChunkSigner>) returns (r: Result<(string, nat)>)
    ensures r == DecodeChunks(c, body, 0, signer, Seed(signer), "")
  {
    hide ReadChunk, Seed;
    var payload := "";
    var prevSignature := Seed(signer);
    var pos := 0;
    while true
      invariant pos <= |body|
      invariant DecodeChunks(c, body, 0, signer, Seed(signer), "")
             == DecodeChunks(c, body, pos, signer, prevSignature, payload)
      decreases |body| - pos
    {
      var chunk :- ReadChunk(c, body, pos, signer, prevSignature);
      pos := chunk.next;
      prevSignature := chunk.prev;
      if chunk.data == "" { return Ok((payload, pos)); }
      payload := payload + chunk.data;
      if !(CRLF <= body[pos..]) { return Err(InvalidRequest); }
      pos := pos + 2;
    }
  }

  // The loop after the zero chunk: trailer lines up to a blank line or the end of the lines.
  method TrailerLines(body: string, start: nat, withTrailers: bool) returns (r: Result<(seq<(string, string)>, nat)>)
    requires start <= |body|
    ensures r == ReadTrailers(body, start, withTrailers, [])
  {
    var pos := start;
    var trailers := [];
    while true
      invariant pos <= |body|
      invariant ReadTrailers(body, start, withTrailers, []) == ReadTrailers(body, pos, withTrailers, trailers)
      decreases |body| - pos
    {
      var next := NextLine(body, pos);
      if next.None? { return Ok((trailers, pos)); }
      var line := next.value.0;
      pos := next.value.1;
      if line == "" { return Ok((trailers, pos)); }
      if !withTrailers || !ValidUtf8(line) { return Err(InvalidRequest); }
      var split := SplitOnce(line, ':');
      if split.None? { return Err(InvalidRequest); }
      trailers := trailers + [(Lower(Trim(split.value.0)), Trim(split.value.1))];
    }
  }
}
