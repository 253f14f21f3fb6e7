// Which chunk header lines announce a size and a signature, and how the encoder writes them.
module ChunkHeaders {
  import opened Rgw
  import opened Text
  import opened TextForms
  import opened Signing
  import opened Chunked
  import opened ChunkCoding

  // Hex digits of either case behind at most one plus sign.
  ghost predicate SizeText(s: string, n: nat) {
    exists digits :: (s == digits || s == "+" + digits) && Hexadecimal(digits) && HexNumber(digits) == n
                     && n < 0x1_0000_0000_0000_0000
  }

  // The line up to the first semicolon, if there is one, and the extension behind it.
  ghost predicate SizeField(header: string, field: string) {
    ';' !in field && (header == field || exists ext :: header == field + ";" + ext)
  }

  lemma FieldIs(header: string, field: string)
    ensures SizeField(header, field)
      <==> field == if SplitOnce(header, ';').Some? then SplitOnce(header, ';').value.0 else header
  {
    hide SplitOnce;
    SplitOnceShape(header, ';');
    if ext :| header == field + ";" + ext {
      if ';' !in field { SplitOnceIs(field, ';', ext); }
    }
  }

  // A header announces the hex number in front of the first semicolon, white space around it left out.
  lemma HeaderSizeIs(header: string, n: nat)
    ensures HeaderSize(header) == Some(n)
      <==> exists field, core :: SizeField(header, field) && Padded(field, core) && SizeText(core, n)
  {
    hide SplitOnce, Trim, ParseHex, SizeField, Padded, Bare, SizeText;
    var own := if SplitOnce(header, ';').Some? then SplitOnce(header, ';').value.0 else header;
    FieldIs(header, own);
    TrimIs(own, Trim(own));
    SizeTextIs(Trim(own), n);
    if field, core :| SizeField(header, field) && Padded(field, core) && SizeText(core, n) {
      FieldIs(header, field);
      SizeIsBare(core, n);
      TrimIs(field, core);
    }
  }

  lemma SizeTextIs(s: string, n: nat)
    ensures ParseHex(s) == Some(n) <==> SizeText(s, n)
  {
    hide ParseHex, Hexadecimal, HexNumber;
    ParseHexIs(s, n);
  }

  lemma SizeIsBare(s: string, n: nat)
    requires SizeText(s, n)
    ensures Bare(s)
  {
    BlankIsSpace(s);
    var digits :| (s == digits || s == "+" + digits) && Hexadecimal(digits) && HexNumber(digits) == n;
    assert s[|s| - 1] == digits[|digits| - 1];
  }

  // A header carries what stands behind `chunk-signature=` in its extension, white space around both left out.
  lemma HeaderSignatureIs(header: string, signature: string)
    ensures HeaderSignature(header) == Some(signature)
      <==> exists field, ext :: ';' !in field && header == field + ";" + ext &&
             Padded(ext, "chunk-signature=" + signature) && Bare("chunk-signature=" + signature)
  {
    hide SplitOnce, Trim, Padded, Bare;
    SplitOnceShape(header, ';');
    match SplitOnce(header, ';')
    case None =>
      forall field, ext ensures header != field + ";" + ext {
        assert (field + ";" + ext)[|field|] == ';';
      }
    case Some((a, b)) =>
      TrimIs(b, "chunk-signature=" + signature);
      KeyFollows(Trim(b), signature);
      assert header == a + ";" + b;
      forall field, ext | ';' !in field && header == field + ";" + ext ensures field == a && ext == b {
        SplitOnceIs(field, ';', ext);
      }
  }

  lemma KeyFollows(text: string, signature: string)
    ensures SIGNATURE_KEY <= text && text[|SIGNATURE_KEY|..] == signature <==> text == "chunk-signature=" + signature
  {
  }

  // ------------------------------------------------------------- the encoder

  const HEX := "0123456789abcdef"

  // Two digits a byte, the high one first.
  lemma {:induction false} HexDigits(bytes: seq<Byte>, i: nat)
    requires i < |bytes|
    ensures |HexEncode(bytes)| == 2 * |bytes|
    ensures HexEncode(bytes)[2 * i] == HEX[bytes[i] as int / 16]
    ensures HexEncode(bytes)[2 * i + 1] == HEX[bytes[i] as int % 16]
  {
    HexDigitAt(bytes[i] as int / 16);
    HexDigitAt(bytes[i] as int % 16);
    hide HexDigit;
    if i < |bytes| - 1 {
      HexDigits(bytes[..|bytes| - 1], i);
    }
  }

  lemma HexDigitAt(n: nat)
    requires n < 16
    ensures HexDigit(n) == HEX[n]
  {
  }

  // What the encoder writes for a chunk, its size in lower-case hex.
  lemma EncodedChunkIs(c: Crypto, signer: ChunkSigner, prev: string, chunk: string)
    ensures EncodeChunk(c, signer, prev, chunk)
         == PrintHex(|chunk|) + ";" + ("chunk-signature=" + ChunkSignature(c, signer, prev, chunk))
            + "\r\n" + chunk + "\r\n"
  {
  }
}
