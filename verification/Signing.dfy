// What Signature Version 4 signs a chunk with. SHA-256 and HMAC are parameters: everything proved here holds for
// any pair of functions with digests of 32 bytes.
module Signing {
  import opened Rgw
  import opened Text

  type Byte = c: char | c as int < 256 witness '\0'

  type Digest = d: seq<Byte> | |d| == 32 witness seq(32, i => '\0')

  datatype Crypto = Crypto(sha256: string -> Digest, hmac: (Digest, string) -> Digest)

  datatype CredentialScope = CredentialScope(date: string, region: string, service: string) {
    function ToString(): string {
      date + "/" + region + "/" + service + "/aws4_request"
    }
  }

  const CHUNK_ALGORITHM := "AWS4-HMAC-SHA256-PAYLOAD"
  const EMPTY_SHA256 := "e3b0c44298fc1c14" + "9afbf4c8996fb924" + "27ae41e4649b934c" + "a495991b7852b855"

  // ------------------------------------------------------------- hex of a digest

  // `hex::encode`.
  function HexEncode(bytes: seq<Byte>): (r: string)
    ensures |r| == 2 * |bytes| && IsLowerHex(r)
  {
    if bytes == [] then ""
    else
      var last := bytes[|bytes| - 1] as int;
      HexEncode(bytes[..|bytes| - 1]) + [HexDigit(last / 16), HexDigit(last % 16)]
  }

  // `hex::decode_to_slice`: digits of either case, two a byte.
  function HexDecode(s: string): Option<seq<Byte>> {
    if s == "" then Some([])
    else if |s| == 1 then None
    else
      var high, hi, lo := HexDecode(s[..|s| - 2]), DigitValue(s[|s| - 2]), DigitValue(s[|s| - 1]);
      if high.Some? && hi.Some? && lo.Some? then Some(high.value + [(hi.value * 16 + lo.value) as char]) else None
  }

  // `signature_matches`: the 32 decoded bytes equal the computed ones, compared without an early exit.
  predicate SignatureMatches(computed: Digest, provided: string) {
    |provided| == 64 && HexDecode(provided) == Some(computed)
  }

  lemma TwoDigits(hi: char, lo: char, b: nat)
    requires b < 256
    ensures (DigitValue(hi).Some? && DigitValue(lo).Some? && DigitValue(hi).value * 16 + DigitValue(lo).value == b)
      <==> LowerChar(hi) == HexDigit(b / 16) && LowerChar(lo) == HexDigit(b % 16)
  {
  }

  lemma {:induction false} HexDecodes(text: string, bytes: seq<Byte>)
    ensures HexDecode(text) == Some(bytes) <==> Lower(text) == HexEncode(bytes)
  {
    hide DigitValue, HexDigit, LowerChar, Lower, IsLowerHex;
    if bytes != [] && |text| >= 2 {
      var n, m := |text| - 2, |bytes| - 1;
      HexDecodes(text[..n], bytes[..m]);
      TwoDigits(text[n], text[n + 1], bytes[m] as int);
      assert bytes == bytes[..m] + [bytes[m]];
      assert Lower(text) == Lower(text[..n]) + [LowerChar(text[n]), LowerChar(text[n + 1])];
      if Lower(text) == HexEncode(bytes) {
        assert Lower(text)[..n] == Lower(text[..n]);
        assert HexEncode(bytes)[..n] == HexEncode(bytes[..m]);
        assert HexEncode(bytes)[n..] == [HexDigit(bytes[m] as int / 16), HexDigit(bytes[m] as int % 16)];
      }
    }
  }

  // A supplied signature passes exactly when it is a case variant of the hex of the computed one.
  lemma SignatureMatchesIs(computed: Digest, provided: string)
    ensures SignatureMatches(computed, provided) <==> Lower(provided) == HexEncode(computed)
  {
    HexDecodes(provided, computed);
  }

  // ------------------------------------------------------------- the chunk chain

  datatype ChunkSigner = ChunkSigner(signingKey: Digest, amzDate: string, scope: CredentialScope, seedSignature: string)

  function ChunkStringToSign(c: Crypto, signer: ChunkSigner, prev: string, chunk: string): string {
    CHUNK_ALGORITHM + "\n" + signer.amzDate + "\n" + signer.scope.ToString() + "\n" + prev + "\n" + EMPTY_SHA256 + "\n"
    + HexEncode(c.sha256(chunk))
  }

  function ChunkMac(c: Crypto, signer: ChunkSigner, prev: string, chunk: string): Digest {
    c.hmac(signer.signingKey, ChunkStringToSign(c, signer, prev, chunk))
  }

  // `signature`: the lowercase hex the headers carry.
  function ChunkSignature(c: Crypto, signer: ChunkSigner, prev: string, chunk: string): (r: string)
    ensures |r| == 64 && IsLowerHex(r)
  {
    HexEncode(ChunkMac(c, signer, prev, chunk))
  }
}
