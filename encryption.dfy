/** The encryption functions that build example ciphertexts: one function
    stating what each returns, and the method that builds it a character at a
    time as the source does. */
module Encryption {
  import opened Bits
  import opened Text
  import opened Ciphers

  /** `enc_caesar`: every character's ordinal shifted by the key modulo 128,
      seven digits each.  Ordinals of 128 and more wrap like the rest. */
  function EncodeCaesar(message: string, key: int): (bits: string)
    ensures |bits| == 7 * |message| && |bits| % 7 == 0 && IsBinary(bits)
  {
    Encode7Binary(Rotate(Ords(message), key));
    Encode7(Rotate(Ords(message), key))
  }

  /** The `enc_caesar` loop: one seven-digit chunk appended per character. */
  method EncCaesar(message: string, key: int) returns (res: string)
    ensures res == EncodeCaesar(message, key)
  {
    ghost var out := Rotate(Ords(message), key);
    res := "";
    for i := 0 to |message|
      invariant res == Encode7(out[..i])
    {
      assert out[i] == (message[i] as int + key) % 128;
      Encode7Prefix(out, i);
      res := res + Format((message[i] as int + key) % 128, 7);
    }
    assert out[..|out|] == out;
  }

  /** `enc_one_time_pad`: after seeding with `key`, every character's ordinal
      XORed with the next keystream value, seven digits each. */
  function EncodeOneTimePad(message: string, key: int, stream: Stream): (bits: string)
    requires IsAscii7(message)
    ensures |bits| == 7 * |message| && |bits| % 7 == 0 && IsBinary(bits)
  {
    Encode7Binary(OneTimePad(Codes(message), stream, key));
    Encode7(OneTimePad(Codes(message), stream, key))
  }

  /** The `enc_one_time_pad` loop: the `i`-th character meets the `i`-th
      keystream value after the seed. */
  method EncOneTimePad(message: string, key: int, stream: Stream) returns (res: string)
    requires IsAscii7(message)
    ensures res == EncodeOneTimePad(message, key, stream)
  {
    ghost var out := OneTimePad(Codes(message), stream, key);
    res := "";
    for i := 0 to |message|
      invariant res == Encode7(out[..i])
    {
      OneTimePadAt(Codes(message), stream, key, i);
      Encode7Prefix(out, i);
      res := res + Format(Xor(message[i] as int, stream(key, i)), 7);
    }
    assert out[..|out|] == out;
  }

  /** `enc_prf_scheme`: per character, its tag in seven digits, then the
      character's ordinal XORed with the mask that tag selects from the key.
      `tags[i]` is the value the source draws for the `i`-th character. */
  function EncodePrf(message: string, key: int, tags: seq<Code>, draw: Draw): (bits: string)
    requires IsAscii7(message) && |tags| == |message|
    ensures |bits| == 14 * |message| && |bits| % 14 == 0 && IsBinary(bits)
  {
    Encode7Binary(PrfEncode(Codes(message), tags, MaskOf(draw, key)));
    Encode7(PrfEncode(Codes(message), tags, MaskOf(draw, key)))
  }

  /** The `enc_prf_scheme` loop: per character, the drawn tag, then the seven
      feedback rounds, then the masked ordinal. */
  method EncPrfScheme(message: string, key: int, tags: seq<Code>, draw: Draw) returns (res: string)
    requires IsAscii7(message) && |tags| == |message|
    ensures res == EncodePrf(message, key, tags, draw)
  {
    ghost var out := PrfEncode(Codes(message), tags, MaskOf(draw, key));
    res := "";
    for i := 0 to |message|
      invariant res == Encode7(out[..2 * i])
    {
      var gen := tags[i];
      var k := FeedbackRounds(draw, key, gen);
      assert k == MaskOf(draw, key)(gen);
      PrfEncodeAt(Codes(message), tags, MaskOf(draw, key), i);
      Encode7PrefixPair(out, 2 * i, gen, Xor(message[i] as int, k));
      res := res + Format(gen, 7);
      res := res + Format(Xor(message[i] as int, k), 7);
    }
    assert out[..|out|] == out;
  }
}
