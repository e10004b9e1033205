/** How the encryption functions and the interpreter's operations fit
    together: every decoder undoes its encoder for every key and every
    generator, and every well-formed ciphertext is the encoding of what it
    decodes to. */
module RoundTrips {
  import opened Results
  import opened Bits
  import opened Text
  import opened Literals
  import opened Ciphers
  import opened Interpreter
  import opened Encryption

  /** `get_int` reads back what `str` writes, negative numbers included. */
  lemma GetIntRoundTrip(n: int)
    ensures EvalGetInt(IntToString(n)) == Ok(n)
  {
    if n < 0 {
      assert IntToString(n)[1..] == NatToString(-n);
    }
  }

  /** `bit_to_string` decodes the concatenated `format(ord(c), '07b')` of a
      message back to the message. */
  lemma TextRoundTrip(m: string)
    requires IsAscii7(m)
    ensures IsBinary(Encode7(Codes(m))) && EvalBitToString(Encode7(Codes(m))) == Ok(m)
  {
    Encode7Binary(Codes(m));
    Decode7Encode7(Codes(m));
    CharsCodes(m);
  }

  /** Every well-formed bit-string is the encoding of the text
      `bit_to_string` decodes it to. */
  lemma TextDecodeRoundTrip(bits: string)
    requires |bits| % 7 == 0 && IsBinary(bits)
    ensures Encode7(Codes(EvalBitToString(bits).value)) == bits
  {
    CodesChars(Decode7(bits));
    Encode7Decode7(bits);
  }

  /** `caesar` with the key `enc_caesar` used yields the message's 7-bit
      encoding, for every integer key. */
  lemma CaesarRoundTrip(m: string, key: int)
    requires IsAscii7(m)
    ensures DecodeCaesar(EncodeCaesar(m, key), key) == Ok(Encode7(Codes(m)))
  {
    Decode7Encode7(Rotate(Codes(m), key));
    RotateInverse(Codes(m), key);
  }

  /** Decrypting a Caesar ciphertext and then reading it as text gives the message. */
  lemma CaesarMessageRoundTrip(m: string, key: int)
    requires IsAscii7(m)
    ensures EvalBitToString(DecodeCaesar(EncodeCaesar(m, key), key).value) == Ok(m)
  {
    CaesarRoundTrip(m, key);
    TextRoundTrip(m);
  }

  /** Every well-formed bit-string is the Caesar encryption, under the same
      key, of the text it decrypts to. */
  lemma CaesarDecodeRoundTrip(bits: string, key: int)
    requires |bits| % 7 == 0 && IsBinary(bits)
    ensures EncodeCaesar(EvalBitToString(DecodeCaesar(bits, key).value).value, key) == bits
  {
    var cs := Decode7(bits);
    var out := Rotate(cs, -key);
    assert DecodeCaesar(bits, key).value == Encode7(out);
    Decode7Encode7(out);
    var text := Chars(out);
    assert EvalBitToString(Encode7(out)).value == text;
    CodesChars(out);
    RotateInverse(cs, -key);
    assert Rotate(out, key) == cs;
    Encode7Decode7(bits);
  }

  /** Adding 128 to the Caesar key changes nothing. */
  lemma CaesarKeyPeriod(m: string, key: int)
    ensures EncodeCaesar(m, key + 128) == EncodeCaesar(m, key)
  {
    var xs := Ords(m);
    forall i | 0 <= i < |xs| ensures Rotate(xs, key + 128)[i] == Rotate(xs, key)[i] {
      var q := (xs[i] + key) / 128;
      assert xs[i] + key + 128 == (xs[i] + key) % 128 + 128 * (q + 1);
    }
    assert Rotate(xs, key + 128) == Rotate(xs, key);
  }

  /** `one_time_pad` seeded with the key `enc_one_time_pad` used sees the same
      keystream and yields the message's 7-bit encoding. */
  lemma OneTimePadRoundTrip(m: string, key: int, stream: Stream)
    requires IsAscii7(m)
    ensures DecodeOneTimePad(EncodeOneTimePad(m, key, stream), key, stream) == Ok(Encode7(Codes(m)))
  {
    Decode7Encode7(OneTimePad(Codes(m), stream, key));
    OneTimePadInverse(Codes(m), stream, key);
  }

  /** Decrypting a one-time-pad ciphertext and then reading it as text gives the message. */
  lemma OneTimePadMessageRoundTrip(m: string, key: int, stream: Stream)
    requires IsAscii7(m)
    ensures EvalBitToString(DecodeOneTimePad(EncodeOneTimePad(m, key, stream), key, stream).value) == Ok(m)
  {
    OneTimePadRoundTrip(m, key, stream);
    TextRoundTrip(m);
  }

  /** Every well-formed bit-string is the one-time-pad encryption, under the
      same key and keystream, of the text it decrypts to. */
  lemma OneTimePadDecodeRoundTrip(bits: string, key: int, stream: Stream)
    requires |bits| % 7 == 0 && IsBinary(bits)
    ensures EncodeOneTimePad(EvalBitToString(DecodeOneTimePad(bits, key, stream).value).value, key, stream) == bits
  {
    var cs := Decode7(bits);
    var out := OneTimePad(cs, stream, key);
    assert DecodeOneTimePad(bits, key, stream).value == Encode7(out);
    Decode7Encode7(out);
    var text := Chars(out);
    assert EvalBitToString(Encode7(out)).value == text;
    CodesChars(out);
    OneTimePadInverse(cs, stream, key);
    Encode7Decode7(bits);
  }

  /** `prf_scheme` with the key `enc_prf_scheme` used yields the message's
      7-bit encoding, whatever tags were drawn. */
  lemma PrfRoundTrip(m: string, key: int, tags: seq<Code>, draw: Draw)
    requires IsAscii7(m) && |tags| == |m|
    ensures DecodePrf(EncodePrf(m, key, tags, draw), key, draw) == Ok(Encode7(Codes(m)))
  {
    var mask := MaskOf(draw, key);
    var cs := PrfEncode(Codes(m), tags, mask);
    var bits := Encode7(cs);
    assert |bits| == 14 * |m|;
    assert |bits| % 14 == 0;
    Decode7Encode7(cs);
    PrfDecodeEncode(Codes(m), tags, mask);
  }

  /** Decrypting a PRF ciphertext and then reading it as text gives the message. */
  lemma PrfMessageRoundTrip(m: string, key: int, tags: seq<Code>, draw: Draw)
    requires IsAscii7(m) && |tags| == |m|
    ensures EvalBitToString(DecodePrf(EncodePrf(m, key, tags, draw), key, draw).value) == Ok(m)
  {
    PrfRoundTrip(m, key, tags, draw);
    TextRoundTrip(m);
  }

  /** Every well-formed bit-string is the PRF encryption, under the same key
      and with the tags it carries, of the text it decrypts to. */
  lemma PrfDecodeRoundTrip(bits: string, key: int, draw: Draw)
    requires |bits| % 14 == 0 && IsBinary(bits)
    ensures |bits| % 7 == 0 && |Decode7(bits)| % 2 == 0
    ensures |Tags(Decode7(bits))| == |EvalBitToString(DecodePrf(bits, key, draw).value).value|
    ensures EncodePrf(EvalBitToString(DecodePrf(bits, key, draw).value).value, key, Tags(Decode7(bits)), draw) == bits
  {
    PairedChunks(bits);
    var mask := MaskOf(draw, key);
    var cs := Decode7(bits);
    var out := PrfDecode(cs, mask);
    assert DecodePrf(bits, key, draw).value == Encode7(out);
    Decode7Encode7(out);
    var text := Chars(out);
    assert EvalBitToString(Encode7(out)).value == text;
    CodesChars(out);
    PrfEncodeDecode(cs, mask);
    Encode7Decode7(bits);
  }
}
