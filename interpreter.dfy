/** The node semantics of the decryption interpreter: one function stating
    what each operation returns or raises, and, for the operations the source
    writes as loops, the method that computes it the same way. */
module Interpreter {
  import opened Results
  import opened Bits
  import opened Text
  import opened Literals
  import opened Ciphers

  /** `get_int`: the integer a leaf string denotes, or `ValueError`. */
  function EvalGetInt(s: string): (r: Result<int>)
    ensures r.Ok? <==> IsIntLiteral(s)
    ensures r.Err? ==> r.error == ValueError
    ensures r.Ok? && AllDigits(s) ==> r.value == DigitsValue(s)
    ensures r.Ok? && s[0] == '-' ==> r.value == -(DigitsValue(s[1..]) as int)
    ensures r.Ok? && s[0] == '+' ==> r.value == DigitsValue(s[1..])
  {
    if |s| > 0 && (s[0] == '-' || s[0] == '+') then
      if |s| > 1 && AllDigits(s[1..]) then
        Ok(if s[0] == '-' then -(DigitsValue(s[1..]) as int) else DigitsValue(s[1..]))
      else Err(ValueError)
    else if |s| > 0 && AllDigits(s) then Ok(DigitsValue(s))
    else Err(ValueError)
  }

  /** `caesar`: raises exactly when the length is not a multiple of 7;
      otherwise every chunk `v` becomes `(v - key) % 128`, in order. */
  function DecodeCaesar(bits: string, key: int): (r: Result<string>)
    requires |bits| % 7 == 0 ==> IsBinary(bits)
    ensures r.Err? <==> |bits| % 7 != 0
    ensures r.Err? ==> r.error == GeneralError
    ensures r.Ok? ==> |r.value| == |bits| && IsBinary(r.value)
  {
    if |bits| % 7 != 0 then Err(GeneralError) else
      Encode7Binary(Rotate(Decode7(bits), -key));
      Ok(Encode7(Rotate(Decode7(bits), -key)))
  }

  /** One pass of the `caesar` loop appends the `i`-th chunk rotated back by the key. */
  lemma CaesarStep(bits: string, key: int, i: nat)
    requires |bits| % 7 == 0 && i * 7 + 7 <= |bits|
    ensures i < |Decode7(bits)|
    ensures Encode7(Rotate(Decode7(bits), -key)[..i + 1])
         == Encode7(Rotate(Decode7(bits), -key)[..i]) + Format((Parse(bits[i * 7..i * 7 + 7]) - key) % 128, 7)
  {
    var cs := Decode7(bits);
    var out := Rotate(cs, -key);
    Decode7At(bits, i);
    RotateBack(cs[i], key);
    assert out[i] == (Parse(bits[i * 7..i * 7 + 7]) - key) % 128;
    Encode7Prefix(out, i);
  }

  /** The `caesar` loop: the length guard, then one chunk per pass. */
  method EvalCaesar(bits: string, key: int) returns (result: Result<string>)
    requires |bits| % 7 == 0 ==> IsBinary(bits)
    ensures result == DecodeCaesar(bits, key)
  {
    if |bits| % 7 != 0 {
      return Err(GeneralError);
    }
    ghost var cs := Decode7(bits);
    ghost var out := Rotate(cs, -key);
    var res := "";
    for i := 0 to |bits| / 7
      invariant res == Encode7(out[..i])
    {
      assert i * 7 + 7 <= |bits|;
      CaesarStep(bits, key, i);
      var decValue := Parse(bits[i * 7..i * 7 + 7]);
      res := res + Format((decValue - key) % 128, 7);
    }
    assert out[..|out|] == out;
    return Ok(res);
  }

  /** The `i`-th output chunk of `caesar` is the `i`-th input chunk rotated
      back by the key, whatever the other chunks hold. */
  lemma CaesarChunk(bits: string, key: int, i: nat)
    requires |bits| % 7 == 0 && IsBinary(bits) && i * 7 + 7 <= |bits|
    ensures Chunk(DecodeCaesar(bits, key).value, i) == Format((ChunkCode(bits, i) - key) % 128, 7)
  {
    var cs := Decode7(bits);
    var out := Rotate(cs, -key);
    assert DecodeCaesar(bits, key).value == Encode7(out);
    Decode7At(bits, i);
    RotateBack(cs[i], key);
    assert out[i] == (ChunkCode(bits, i) - key) % 128;
    Encode7Chunk(out, i);
  }

  /** `one_time_pad`: raises exactly when the length is not a multiple of 7;
      otherwise, after seeding with `key`, the `i`-th chunk is XORed with the
      `i`-th keystream value. */
  function DecodeOneTimePad(bits: string, key: int, stream: Stream): (r: Result<string>)
    requires |bits| % 7 == 0 ==> IsBinary(bits)
    ensures r.Err? <==> |bits| % 7 != 0
    ensures r.Err? ==> r.error == GeneralError
    ensures r.Ok? ==> |r.value| == |bits| && IsBinary(r.value)
  {
    if |bits| % 7 != 0 then Err(GeneralError) else
      Encode7Binary(OneTimePad(Decode7(bits), stream, key));
      Ok(Encode7(OneTimePad(Decode7(bits), stream, key)))
  }

  /** The `one_time_pad` loop: the length guard, then the `i`-th chunk XORed
      with the `i`-th keystream value after seeding with the key. */
  method EvalOneTimePad(bits: string, key: int, stream: Stream) returns (result: Result<string>)
    requires |bits| % 7 == 0 ==> IsBinary(bits)
    ensures result == DecodeOneTimePad(bits, key, stream)
  {
    if |bits| % 7 != 0 {
      return Err(GeneralError);
    }
    ghost var cs := Decode7(bits);
    ghost var out := OneTimePad(cs, stream, key);
    var res := "";
    for i := 0 to |bits| / 7
      invariant res == Encode7(out[..i])
    {
      assert i * 7 + 7 <= |bits|;
      Decode7At(bits, i);
      OneTimePadAt(cs, stream, key, i);
      Encode7Prefix(out, i);
      var decValue := Format(Xor(Parse(bits[i * 7..i * 7 + 7]), stream(key, i)), 7);
      res := res + decValue;
    }
    assert out[..|out|] == out;
    return Ok(res);
  }

  /** The `i`-th output chunk of `one_time_pad` is the `i`-th input chunk
      XORed with the `i`-th keystream value. */
  lemma OneTimePadChunk(bits: string, key: int, stream: Stream, i: nat)
    requires |bits| % 7 == 0 && IsBinary(bits) && i * 7 + 7 <= |bits|
    ensures Chunk(DecodeOneTimePad(bits, key, stream).value, i)
         == Format(Xor(ChunkCode(bits, i), stream(key, i)), 7)
  {
    var cs := Decode7(bits);
    assert DecodeOneTimePad(bits, key, stream).value == Encode7(OneTimePad(cs, stream, key));
    Decode7At(bits, i);
    OneTimePadAt(cs, stream, key, i);
    Encode7Chunk(OneTimePad(cs, stream, key), i);
  }

  /** Seven digits per code make a multiple of 7. */
  lemma SevenfoldLength(n: nat)
    ensures (7 * n) % 7 == 0
  {
  }

  /** A multiple of 14 is an even multiple of 7. */
  lemma EvenSevens(n: nat)
    requires n % 14 == 0
    ensures n % 7 == 0 && (n / 7) % 2 == 0
  {
    var q := n / 14;
    assert n == 7 * (2 * q);
  }

  /** A length that is a multiple of 14 holds an even number of 7-digit chunks. */
  lemma PairedChunks(bits: string)
    requires |bits| % 14 == 0
    ensures |bits| % 7 == 0 && |Decode7(bits)| % 2 == 0
  {
    EvenSevens(|bits|);
    assert |Decode7(bits)| == |bits| / 7;
  }

  /** `prf_scheme`: raises exactly when the length is not a multiple of 14;
      otherwise each 14-digit chunk, a tag then a payload, becomes the payload
      XORed with the mask the tag selects from the key. */
  function DecodePrf(bits: string, key: int, draw: Draw): (r: Result<string>)
    requires |bits| % 14 == 0 ==> IsBinary(bits)
    ensures r.Err? <==> |bits| % 14 != 0
    ensures r.Err? ==> r.error == GeneralError
    ensures r.Ok? ==> 2 * |r.value| == |bits| && |r.value| % 7 == 0 && IsBinary(r.value)
  {
    if |bits| % 14 != 0 then Err(GeneralError) else
      PairedChunks(bits);
      var ms := PrfDecode(Decode7(bits), MaskOf(draw, key));
      Encode7Binary(ms);
      SevenfoldLength(|ms|);
      Ok(Encode7(ms))
  }

  /** The `i`-th decoded code comes from the `i`-th 14-digit chunk alone:
      its payload XORed with the mask its tag selects. */
  lemma PrfChunk(bits: string, mask: Code -> Code, i: nat)
    requires |bits| % 14 == 0 && i * 14 + 14 <= |bits|
    ensures |bits| % 7 == 0 && |Decode7(bits)| % 2 == 0
    ensures Parse(bits[i * 14..i * 14 + 7]) < 128 && Parse(bits[i * 14 + 7..i * 14 + 14]) < 128
    ensures i < |PrfDecode(Decode7(bits), mask)|
    ensures PrfDecode(Decode7(bits), mask)[i]
         == Xor(Parse(bits[i * 14 + 7..i * 14 + 14]), mask(Parse(bits[i * 14..i * 14 + 7])))
  {
    PairedChunks(bits);
    var cs := Decode7(bits);
    Decode7At(bits, 2 * i);
    Decode7At(bits, 2 * i + 1);
    PrfDecodeAt(cs, mask, i);
  }

  /** The `prf_scheme` loop: the length guard, then per 14-digit chunk the
      seven feedback rounds driven by its tag, and the payload XORed with the
      result. */
  method EvalPrfScheme(bits: string, key: int, draw: Draw) returns (result: Result<string>)
    requires |bits| % 14 == 0 ==> IsBinary(bits)
    ensures result == DecodePrf(bits, key, draw)
  {
    if |bits| % 14 != 0 {
      return Err(GeneralError);
    }
    PairedChunks(bits);
    ghost var out := PrfDecode(Decode7(bits), MaskOf(draw, key));
    var res := "";
    for i := 0 to |bits| / 14
      invariant res == Encode7(out[..i])
    {
      assert i * 14 + 14 <= |bits|;
      PrfChunk(bits, MaskOf(draw, key), i);
      Encode7Prefix(out, i);
      var r := Parse(bits[i * 14..i * 14 + 7]);
      var k := FeedbackRounds(draw, key, r);
      assert k == MaskOf(draw, key)(r);
      res := res + Format(Xor(Parse(bits[i * 14 + 7..i * 14 + 14]), k), 7);
    }
    assert out[..|out|] == out;
    return Ok(res);
  }

  /** The `i`-th output chunk of `prf_scheme` is the payload of the `i`-th
      14-digit input chunk XORed with the mask that chunk's own tag selects. */
  lemma PrfSchemeChunk(bits: string, key: int, draw: Draw, i: nat)
    requires |bits| % 14 == 0 && IsBinary(bits) && i * 14 + 14 <= |bits|
    ensures Chunk(DecodePrf(bits, key, draw).value, i)
         == Format(Xor(ChunkCode(bits, 2 * i + 1), Mask(draw, key, ChunkCode(bits, 2 * i))), 7)
  {
    PrfChunk(bits, MaskOf(draw, key), i);
    PairedChunks(bits);
    assert DecodePrf(bits, key, draw).value == Encode7(PrfDecode(Decode7(bits), MaskOf(draw, key)));
    Encode7Chunk(PrfDecode(Decode7(bits), MaskOf(draw, key)), i);
  }

  /** `bit_to_string`: raises exactly when the length is not a multiple of 7;
      otherwise one character per chunk, in order. */
  function EvalBitToString(bits: string): (r: Result<string>)
    requires |bits| % 7 == 0 ==> IsBinary(bits)
    ensures r.Err? <==> |bits| % 7 != 0
    ensures r.Err? ==> r.error == GeneralError
    ensures r.Ok? ==> 7 * |r.value| == |bits| && IsAscii7(r.value)
  {
    if |bits| % 7 != 0 then Err(GeneralError) else Ok(Chars(Decode7(bits)))
  }

  /** The `i`-th character `bit_to_string` returns is the value of the `i`-th
      chunk, whatever the other chunks hold. */
  lemma BitToStringAt(bits: string, i: nat)
    requires |bits| % 7 == 0 && IsBinary(bits) && i * 7 + 7 <= |bits|
    ensures i < |EvalBitToString(bits).value|
    ensures EvalBitToString(bits).value[i] as int == ChunkCode(bits, i)
  {
    Decode7At(bits, i);
  }
}
