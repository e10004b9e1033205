/** Bit-strings: strings over '0' and '1' holding fixed-width binary codes. */
module Bits {

  /** A 7-bit code, the value of one character or one chunk. */
  type Code = v: int | 0 <= v < 128

  predicate IsBit(c: char) {
    c == '0' || c == '1'
  }

  predicate IsBinary(s: string) {
    forall i :: 0 <= i < |s| ==> IsBit(s[i])
  }

  function Pow2(n: nat): (p: nat)
    ensures p >= 1
  {
    if n == 0 then 1 else 2 * Pow2(n - 1)
  }

  /** Python's `format(v, '0<w>b')` for a value that fits in `w` digits
      (`v < Pow2(w)`, as at every use here): exactly `w` binary digits, most
      significant first, zero-padded.  On a wider value this keeps only the
      low `w` digits. */
  function Format(v: nat, w: nat): (s: string)
    ensures |s| == w
  {
    if w == 0 then "" else Format(v / 2, w - 1) + [if v % 2 == 0 then '0' else '1']
  }

  /** Two binary strings concatenate to a binary string. */
  lemma BinaryAppend(s: string, t: string)
    requires IsBinary(s) && IsBinary(t)
    ensures IsBinary(s + t)
  {
    forall j | 0 <= j < |s + t| ensures IsBit((s + t)[j]) {
      if j >= |s| {
        assert (s + t)[j] == t[j - |s|];
      }
    }
  }

  /** `format` writes binary digits only. */
  lemma {:induction false} FormatBinary(v: nat, w: nat)
    ensures IsBinary(Format(v, w))
  {
    if w > 0 {
      FormatBinary(v / 2, w - 1);
      BinaryAppend(Format(v / 2, w - 1), [if v % 2 == 0 then '0' else '1']);
    }
  }

  /** Python's `int(s, 2)` on a string of binary digits, read most
      significant digit first.  The source only ever applies it to 7-digit
      chunks, so the empty string (on which Python raises) never reaches it;
      it reads as 0 here.  Callers guarantee binary digits (`IsBinary`); this
      definition reads any digit other than '0' as 1. */
  function Parse(s: string): nat
  {
    if s == "" then 0 else 2 * Parse(s[..|s| - 1]) + (if s[|s| - 1] == '0' then 0 else 1)
  }

  /** `w` binary digits hold a value below `2^w`. */
  lemma {:induction false} ParseBound(s: string)
    ensures Parse(s) < Pow2(|s|)
  {
    if s != "" {
      ParseBound(s[..|s| - 1]);
    }
  }

  /** A 7-digit chunk holds a 7-bit code. */
  lemma ParseChunk(s: string)
    requires |s| == 7
    ensures Parse(s) < 128
  {
    ParseBound(s);
    assert Pow2(7) == 128;
  }

  /** Reading back a formatted value gives the value. */
  lemma {:induction false} ParseFormat(v: nat, w: nat)
    requires v < Pow2(w)
    ensures Parse(Format(v, w)) == v
  {
    if w > 0 {
      var s := Format(v, w);
      assert s[..w - 1] == Format(v / 2, w - 1);
      ParseFormat(v / 2, w - 1);
    }
  }

  /** Formatting a parsed string to its own width gives the string back. */
  lemma {:induction false} FormatParse(s: string)
    requires IsBinary(s)
    ensures Parse(s) < Pow2(|s|) && Format(Parse(s), |s|) == s
  {
    if s != "" {
      var p := s[..|s| - 1];
      var v := Parse(s);
      ParseBound(p);
      assert v / 2 == Parse(p) && (v % 2 == 0 <==> s[|s| - 1] == '0');
      FormatParse(p);
      assert s == p + [s[|s| - 1]];
    }
  }

  /** The `i`-th 7-digit chunk, `s[i*7:i*7+7]`. */
  function Chunk(s: string, i: nat): string
    requires i * 7 + 7 <= |s|
  {
    s[i * 7..i * 7 + 7]
  }

  /** `int(s[i*7:i*7+7], 2)`: the code held by the `i`-th chunk. */
  function ChunkCode(s: string, i: nat): Code
    requires i * 7 + 7 <= |s|
  {
    ParseChunk(Chunk(s, i));
    Parse(Chunk(s, i))
  }

  /** The bit-string built by appending `format(c, '07b')` for each code in
      order: seven digits per code, the `i`-th chunk holding the `i`-th code. */
  function Encode7(cs: seq<Code>): (s: string)
    ensures |s| == 7 * |cs|
  {
    if cs == [] then "" else Encode7(cs[..|cs| - 1]) + Format(cs[|cs| - 1], 7)
  }

  /** An encoding is a bit-string. */
  lemma {:induction false} Encode7Binary(cs: seq<Code>)
    ensures IsBinary(Encode7(cs))
  {
    if cs != [] {
      var n := |cs| - 1;
      Encode7Binary(cs[..n]);
      FormatBinary(cs[n], 7);
      BinaryAppend(Encode7(cs[..n]), Format(cs[n], 7));
    }
  }

  /** The `i`-th chunk of an encoding holds the `i`-th code. */
  lemma {:induction false} Encode7Chunk(cs: seq<Code>, i: nat)
    requires i < |cs|
    ensures Chunk(Encode7(cs), i) == Format(cs[i], 7)
  {
    var n := |cs| - 1;
    var p := Encode7(cs[..n]);
    var f := Format(cs[n], 7);
    assert Encode7(cs) == p + f;
    if i < n {
      Encode7Chunk(cs[..n], i);
      assert (p + f)[i * 7..i * 7 + 7] == p[i * 7..i * 7 + 7];
    } else {
      assert (p + f)[|p|..|p| + 7] == f;
    }
  }

  /** The codes of a bit-string read 7 digits at a time, in order: one per
      whole chunk, as `range(len(bits) // 7)` visits them. */
  function Decode7(bits: string): (cs: seq<Code>)
    ensures |bits| % 7 == 0 ==> 7 * |cs| == |bits|
  {
    seq(|bits| / 7, i requires 0 <= i < |bits| / 7 => ChunkCode(bits, i))
  }

  /** The `i`-th code of a bit-string is the value of its `i`-th chunk. */
  lemma Decode7At(bits: string, i: nat)
    requires i * 7 + 7 <= |bits|
    ensures i < |Decode7(bits)| && Decode7(bits)[i] == ChunkCode(bits, i)
  {
  }

  /** Appending one code appends its seven digits. */
  lemma Encode7Snoc(cs: seq<Code>, c: Code)
    ensures Encode7(cs + [c]) == Encode7(cs) + Format(c, 7)
  {
    assert (cs + [c])[..|cs|] == cs;
  }

  /** Encoding one code more of a sequence appends that code's digits. */
  lemma Encode7Prefix(cs: seq<Code>, i: nat)
    requires i < |cs|
    ensures Encode7(cs[..i + 1]) == Encode7(cs[..i]) + Format(cs[i], 7)
  {
    assert cs[..i + 1] == cs[..i] + [cs[i]];
    Encode7Snoc(cs[..i], cs[i]);
  }

  /** Encoding two codes more of a sequence appends their digits in order. */
  lemma Encode7PrefixPair(cs: seq<Code>, i: nat, a: Code, b: Code)
    requires i + 2 <= |cs| && cs[i] == a && cs[i + 1] == b
    ensures Encode7(cs[..i + 2]) == Encode7(cs[..i]) + Format(a, 7) + Format(b, 7)
  {
    Encode7Prefix(cs, i + 1);
    Encode7Prefix(cs, i);
  }

  /** Reading 7-bit chunks inverts writing them. */
  lemma {:induction false} Decode7Encode7(cs: seq<Code>)
    ensures Decode7(Encode7(cs)) == cs
  {
    var s := Encode7(cs);
    var ds := Decode7(s);
    forall i | 0 <= i < |cs| ensures ds[i] == cs[i] {
      Decode7At(s, i);
      Encode7Chunk(cs, i);
      ParseFormat(cs[i], 7);
    }
  }

  /** Splitting off the last chunk of a bit-string splits off its last code. */
  lemma Decode7Last(bits: string)
    requires |bits| % 7 == 0 && |bits| >= 7
    ensures Parse(bits[|bits| - 7..]) < 128
    ensures Decode7(bits) == Decode7(bits[..|bits| - 7]) + [Parse(bits[|bits| - 7..])]
  {
    var n := |bits| - 7;
    var p := bits[..n];
    ParseChunk(bits[n..]);
    var ds, dp := Decode7(bits), Decode7(p);
    assert |ds| == |dp| + 1;
    forall i | 0 <= i < |dp| ensures ds[i] == dp[i] {
      assert Chunk(p, i) == Chunk(bits, i);
    }
    assert Chunk(bits, |dp|) == bits[n..];
  }

  /** A binary string splits into two binary strings. */
  lemma BinarySplit(s: string, n: nat)
    requires IsBinary(s) && n <= |s|
    ensures IsBinary(s[..n]) && IsBinary(s[n..])
  {
    assert forall j :: 0 <= j < n ==> s[..n][j] == s[j];
    assert forall j :: 0 <= j < |s| - n ==> s[n..][j] == s[n + j];
  }

  /** Writing the chunks of a well-formed bit-string rebuilds it. */
  lemma {:induction false} Encode7Decode7(bits: string)
    requires |bits| % 7 == 0 && IsBinary(bits)
    ensures Encode7(Decode7(bits)) == bits
  {
    if |bits| >= 7 {
      var n := |bits| - 7;
      var p, last := bits[..n], bits[n..];
      BinarySplit(bits, n);
      Decode7Last(bits);
      var c: Code := Parse(last);
      calc {
        Encode7(Decode7(bits));
        Encode7(Decode7(p) + [c]);
        { Encode7Snoc(Decode7(p), c); }
        Encode7(Decode7(p)) + Format(c, 7);
        { Encode7Decode7(p); FormatParse(last); }
        p + last;
        bits;
      }
    }
  }
}
