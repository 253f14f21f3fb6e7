// What one chunk's signature says about all the data before it.
module ChainBinding {
  import opened Rgw
  import opened Text
  import opened Signing
  import opened Chunked
  import opened ChunkChain
  import opened ChunkMeaning

  // ------------------------------------------------------------- the text signed

  // Six lines: algorithm, date, scope, previous signature, hash of the empty text, hash of the chunk.
  lemma ChunkText(c: Crypto, signer: ChunkSigner, prev: string, chunk: string)
    requires '\n' !in signer.amzDate && '\n' !in signer.scope.date && '\n' !in signer.scope.region
    requires '\n' !in signer.scope.service && '\n' !in prev
    ensures Split(ChunkStringToSign(c, signer, prev, chunk), '\n')
         == ["AWS4-HMAC-SHA256-PAYLOAD", signer.amzDate,
             signer.scope.date + "/" + signer.scope.region + "/" + signer.scope.service + "/aws4_request",
             prev, "e3b0c44298fc1c14" + "9afbf4c8996fb924" + "27ae41e4649b934c" + "a495991b7852b855",
             HexEncode(c.sha256(chunk))]
    ensures ChunkSignature(c, signer, prev, chunk)
         == HexEncode(c.hmac(signer.signingKey, ChunkStringToSign(c, signer, prev, chunk)))
  {
    hide HexEncode, Split;
    var hash := HexEncode(c.sha256(chunk));
    var lines := ["AWS4-HMAC-SHA256-PAYLOAD", signer.amzDate, signer.scope.ToString(), prev, EMPTY_SHA256, hash];
    HexIsLine(hash);
    EmptyHashIsLine();
    SplitJoin(lines, '\n');
    SixJoined("AWS4-HMAC-SHA256-PAYLOAD", signer.amzDate, signer.scope.ToString(), prev, EMPTY_SHA256, hash);
  }

  lemma HexIsLine(s: string)
    requires IsLowerHex(s)
    ensures '\n' !in s
  {
  }

  lemma EmptyHashIsLine()
    ensures '\n' !in EMPTY_SHA256
  {
    assert '\n' !in "e3b0c44298fc1c14" && '\n' !in "9afbf4c8996fb924";
    assert '\n' !in "27ae41e4649b934c" && '\n' !in "a495991b7852b855";
  }

  lemma SixJoined(a: string, b: string, c: string, d: string, e: string, f: string)
    ensures Join([a, b, c, d, e, f], "\n") == a + "\n" + b + "\n" + c + "\n" + d + "\n" + e + "\n" + f
  {
    hide Join;
    JoinOne(f);
    JoinFirst(a, [b, c, d, e, f]);
    JoinFirst(b, [c, d, e, f]);
    JoinFirst(c, [d, e, f]);
    JoinFirst(d, [e, f]);
    JoinFirst(e, [f]);
    assert [a] + [b, c, d, e, f] == [a, b, c, d, e, f];
    assert [b] + [c, d, e, f] == [b, c, d, e, f];
    assert [c] + [d, e, f] == [c, d, e, f];
    assert [d] + [e, f] == [d, e, f];
    assert [e] + [f] == [e, f];
    Regrouped(a, b, Join([c, d, e, f], "\n"));
    Regrouped(a + "\n" + b, c, Join([d, e, f], "\n"));
    Regrouped(a + "\n" + b + "\n" + c, d, Join([e, f], "\n"));
    Regrouped(a + "\n" + b + "\n" + c + "\n" + d, e, f);
  }

  lemma JoinOne(x: string)
    ensures Join([x], "\n") == x
  {
  }

  lemma JoinFirst(x: string, rest: seq<string>)
    requires rest != []
    ensures Join([x] + rest, "\n") == x + "\n" + Join(rest, "\n")
  {
    assert ([x] + rest)[1..] == rest;
  }

  lemma Regrouped(x: string, y: string, rest: string)
    ensures x + "\n" + (y + "\n" + rest) == x + "\n" + y + "\n" + rest
  {
  }

  // ------------------------------------------------------------- the chain

  // The signature a chain over these chunks ends with, from the seed.
  function ChainSignature(c: Crypto, signer: ChunkSigner, chunks: seq<string>): string
    decreases |chunks|
  {
    if chunks == [] then signer.seedSignature
    else
      var before := chunks[..|chunks| - 1];
      ChunkSignature(c, signer, ChainSignature(c, signer, before), chunks[|chunks| - 1])
  }

  // The texts signed along the way.
  function Texts(c: Crypto, signer: ChunkSigner, chunks: seq<string>): set<string>
    decreases |chunks|
  {
    if chunks == [] then {}
    else
      var before := chunks[..|chunks| - 1];
      Texts(c, signer, before)
      + {ChunkStringToSign(c, signer, ChainSignature(c, signer, before), chunks[|chunks| - 1])}
  }

  // Two distinct texts among those hashed with one hash, or among those signed with one code.
  ghost predicate Collide(c: Crypto, key: Digest, hashed: set<string>, signed: set<string>, x: string, y: string) {
    x != y && ((x in hashed && y in hashed && c.sha256(x) == c.sha256(y))
               || (x in signed && y in signed && c.hmac(key, x) == c.hmac(key, y)))
  }

  function Chunks(chunks: seq<string>): set<string> {
    set x | x in chunks
  }

  lemma HexInjective(a: seq<Byte>, b: seq<Byte>)
    requires HexEncode(a) == HexEncode(b)
    ensures a == b
  {
    HexDecodes(HexEncode(a), a);
    HexDecodes(HexEncode(a), b);
    assert Lower(HexEncode(a)) == HexEncode(a);
  }

  // Where the text signed is the same, so are the previous signature and the chunk's hash.
  lemma TextInjective(c: Crypto, signer: ChunkSigner, p: string, q: string, x: string, y: string)
    requires |p| == |q|
    requires ChunkStringToSign(c, signer, p, x) == ChunkStringToSign(c, signer, q, y)
    ensures p == q && c.sha256(x) == c.sha256(y)
  {
    hide HexEncode;
    var head := CHUNK_ALGORITHM + "\n" + signer.amzDate + "\n" + signer.scope.ToString() + "\n";
    SamePieces(head, p, EMPTY_SHA256, HexEncode(c.sha256(x)), q, HexEncode(c.sha256(y)));
    HexInjective(c.sha256(x), c.sha256(y));
  }

  lemma SamePieces(head: string, p: string, e: string, h: string, q: string, k: string)
    requires |p| == |q| && head + p + "\n" + e + "\n" + h == head + q + "\n" + e + "\n" + k
    ensures p == q && h == k
  {
    var s := head + p + "\n" + e + "\n" + h;
    assert s[|head|..|head| + |p|] == p && s[|head| + |p| + |e| + 2..] == h;
    assert s == head + q + "\n" + e + "\n" + k;
    assert s[|head|..|head| + |q|] == q && s[|head| + |q| + |e| + 2..] == k;
  }

  // The request that opens the upload is signed under another algorithm name.
  lemma RequestDiffers(c: Crypto, signer: ChunkSigner, prev: string, chunk: string, request: string)
    requires "AWS4-HMAC-SHA256\n" <= request
    ensures request != ChunkStringToSign(c, signer, prev, chunk)
  {
    assert request[16] == '\n';
    assert ChunkStringToSign(c, signer, prev, chunk)[16] == '-';
  }

  lemma SignatureLength(c: Crypto, signer: ChunkSigner, chunks: seq<string>)
    requires |signer.seedSignature| == 64
    ensures |ChainSignature(c, signer, chunks)| == 64
  {
  }

  lemma Last(chunks: seq<string>) returns (before: seq<string>, x: string)
    requires chunks != []
    ensures chunks == before + [x] && |before| < |chunks| && Chunks(chunks) == Chunks(before) + {x}
    ensures before == chunks[..|chunks| - 1] && x == chunks[|chunks| - 1]
  {
    before, x := chunks[..|chunks| - 1], chunks[|chunks| - 1];
  }

  // The opening request's signature is not that of a chunk, unless two texts collide.
  lemma SeedDiffers(c: Crypto, signer: ChunkSigner, request: string, chunks: seq<string>)
    returns (x: string, y: string)
    requires "AWS4-HMAC-SHA256\n" <= request && chunks != []
    requires HexEncode(c.hmac(signer.signingKey, request)) == ChainSignature(c, signer, chunks)
    ensures Collide(c, signer.signingKey, {}, {request} + Texts(c, signer, chunks), x, y)
  {
    hide HexEncode, ChunkStringToSign;
    var before, z := Last(chunks);
    var prev := ChainSignature(c, signer, before);
    x, y := request, ChunkStringToSign(c, signer, prev, z);
    RequestDiffers(c, signer, prev, z, request);
    HexInjective(c.hmac(signer.signingKey, x), c.hmac(signer.signingKey, y));
  }

  // One signature binds the whole chain behind it: two chains from the same signed request that end with the same
  // signature have the same chunks, or two different texts among those hashed or signed have the same digest.
  lemma {:induction false} ChainBinds(c: Crypto, signer: ChunkSigner, request: string, a: seq<string>, b: seq<string>)
    returns (x: string, y: string)
    requires "AWS4-HMAC-SHA256\n" <= request
    requires signer.seedSignature == HexEncode(c.hmac(signer.signingKey, request))
    requires ChainSignature(c, signer, a) == ChainSignature(c, signer, b)
    ensures a == b || Collide(c, signer.signingKey, Chunks(a) + Chunks(b),
                              {request} + Texts(c, signer, a) + Texts(c, signer, b), x, y)
    decreases |a|
  {
    hide HexEncode, ChunkStringToSign, Chunks;
    x, y := "", "";
    if a == [] && b != [] {
      x, y := SeedDiffers(c, signer, request, b);
    } else if a != [] && b == [] {
      x, y := SeedDiffers(c, signer, request, a);
    } else if a != [] {
      var a', p := Last(a);
      var b', q := Last(b);
      var s, t := ChainSignature(c, signer, a'), ChainSignature(c, signer, b');
      var u, v := ChunkStringToSign(c, signer, s, p), ChunkStringToSign(c, signer, t, q);
      HexInjective(c.hmac(signer.signingKey, u), c.hmac(signer.signingKey, v));
      if u != v {
        x, y := u, v;
      } else {
        SignatureLength(c, signer, a');
        SignatureLength(c, signer, b');
        TextInjective(c, signer, s, t, p, q);
        if p != q {
          x, y := p, q;
        } else {
          x, y := ChainBinds(c, signer, request, a', b');
        }
      }
    }
  }

  // ------------------------------------------------------------- the chunks of a body

  function Data(frames: seq<Frame>): seq<string> {
    if frames == [] then [] else [frames[0].data] + Data(frames[1..])
  }

  ghost predicate Carries(f: Frame, signature: string) {
    HeaderSignature(f.header).Some? && Lower(HeaderSignature(f.header).value) == signature
  }

  lemma OneMore(c: Crypto, signer: ChunkSigner, done: seq<string>, chunk: string)
    ensures ChunkSignature(c, signer, ChainSignature(c, signer, done), chunk)
         == ChainSignature(c, signer, done + [chunk])
  {
    assert (done + [chunk])[..|done|] == done;
  }

  lemma DataFirst(frames: seq<Frame>)
    requires frames != []
    ensures Data(frames) == [frames[0].data] + Data(frames[1..])
    ensures |frames| == 1 ==> Data(frames[1..]) == []
  {
  }

  lemma Appends(done: seq<string>, x: string, more: seq<string>)
    ensures done + ([x] + more) == done + [x] + more
    ensures more == [] ==> done + ([x] + more) == done + [x]
  {
  }

  lemma DataCons(done: seq<string>, frames: seq<Frame>)
    requires frames != []
    ensures done + Data(frames) == done + [frames[0].data] + Data(frames[1..])
    ensures |frames| == 1 ==> done + Data(frames) == done + [frames[0].data]
  {
    hide Data;
    DataFirst(frames);
    Appends(done, frames[0].data, Data(frames[1..]));
  }

  // Every header of a chain carries the signature over the data up to and including its own.
  lemma {:induction false} HeadersCarry(c: Crypto, signer: ChunkSigner, done: seq<string>, frames: seq<Frame>)
    requires Chained(c, Some(signer), ChainSignature(c, signer, done), frames) && frames != []
    ensures Carries(frames[|frames| - 1], ChainSignature(c, signer, done + Data(frames)))
    decreases |frames|
  {
    hide ChunkSignature, ChainSignature, Data, HeaderSignature, HeaderSize, IsLine, ValidUtf8;
    var next := done + [frames[0].data];
    OneMore(c, signer, done, frames[0].data);
    DataCons(done, frames);
    if |frames| > 1 {
      HeadersCarry(c, signer, next, frames[1..]);
    }
  }

  lemma {:induction false} DataSnoc(frames: seq<Frame>, last: Frame)
    ensures Data(frames + [last]) == Data(frames) + [last.data]
  {
    if frames != [] {
      assert (frames + [last])[1..] == frames[1..] + [last];
      DataSnoc(frames[1..], last);
    }
  }

  lemma {:induction false} DataMakesPayload(f: seq<Frame>, g: seq<Frame>)
    requires Data(f) == Data(g)
    ensures Payload(f) == Payload(g)
  {
    if f != [] && g != [] {
      assert Data(f)[0] == f[0].data && Data(g)[0] == g[0].data;
      assert Data(f)[1..] == Data(f[1..]) && Data(g)[1..] == Data(g[1..]);
      DataMakesPayload(f[1..], g[1..]);
    }
  }

  // The same for the chunks of two accepted uploads whose zero chunks carry the same signature: no chunk of one can
  // be changed, dropped, repeated or moved in the other without a collision.
  lemma UploadsBind(c: Crypto, signer: ChunkSigner, request: string, f: seq<Frame>, l: Frame,
                    g: seq<Frame>, m: Frame, signature: string) returns (x: string, y: string)
    requires "AWS4-HMAC-SHA256\n" <= request
    requires signer.seedSignature == HexEncode(c.hmac(signer.signingKey, request))
    requires Framed(c, Some(signer), f, l) && Framed(c, Some(signer), g, m)
    requires Carries(l, signature) && Carries(m, signature)
    ensures (Data(f) == Data(g) && Payload(f) == Payload(g))
      || Collide(c, signer.signingKey, Chunks(Data(f)) + Chunks(Data(g)) + {""},
                 {request} + Texts(c, signer, Data(f) + [""]) + Texts(c, signer, Data(g) + [""]), x, y)
  {
    hide HexEncode, ChainSignature, Texts, Collide, Chained, Payload, Data, HeaderSignature;
    var a, b := Data(f) + [""], Data(g) + [""];
    SeedStarts(c, signer);
    HeadersCarry(c, signer, [], f + [l]);
    HeadersCarry(c, signer, [], g + [m]);
    DataSnoc(f, l);
    DataSnoc(g, m);
    assert [] + a == a && [] + b == b;
    x, y := ChainBinds(c, signer, request, a, b);
    if a == b {
      assert a[..|a| - 1] == Data(f) && b[..|b| - 1] == Data(g);
      DataMakesPayload(f, g);
    } else {
      assert Chunks(a) + Chunks(b) == Chunks(Data(f)) + Chunks(Data(g)) + {""};
    }
  }

  lemma SeedStarts(c: Crypto, signer: ChunkSigner)
    ensures ChainSignature(c, signer, []) == signer.seedSignature == Seed(Some(signer))
  {
  }
}
