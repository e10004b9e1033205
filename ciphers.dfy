/** The three ciphers on sequences of 7-bit codes, and the keystream
    abstraction they share. */
module Ciphers {
  import opened Bits

  /** A value of `random.randint(0, 16383)`. */
  type Word14 = v: int | 0 <= v < 16384

  /** `Stream(seed, i)`: the `i`-th value of `random.randint(0, 127)` drawn
      after `random.seed(seed)`.  Any deterministic function of the seed and
      the position will do. */
  type Stream = (int, nat) -> Code

  /** `Draw(seed)`: the first value of `random.randint(0, 16383)` drawn after
      `random.seed(seed)`. */
  type Draw = int -> Word14

  /** Rotation: every code shifted by `d` modulo 128 (Python's `%`, never
      negative), in order. */
  function Rotate(xs: seq<int>, d: int): (ys: seq<Code>)
    ensures |ys| == |xs|
  {
    seq(|xs|, i requires 0 <= i < |xs| => (xs[i] + d) % 128)
  }

  /** Rotating by `-key` is subtracting the key, as the decoder writes it. */
  lemma RotateBack(x: int, key: int)
    ensures (x + -key) % 128 == (x - key) % 128
  {
  }

  /** Shifting a code by `d` and then by `e = -d`, modulo 128, restores it. */
  lemma ShiftBack(c: Code, d: int, e: int)
    requires d + e == 0
    ensures ((c + d) % 128 + e) % 128 == c
  {
    var q := (c + d) / 128;
    assert (c + d) % 128 + e == c + 128 * (-q);
  }

  /** Rotating back by the same amount, in either order, restores every code. */
  lemma RotateInverse(cs: seq<Code>, d: int)
    ensures Rotate(Rotate(cs, d), -d) == cs
    ensures Rotate(Rotate(cs, -d), d) == cs
  {
    var ys := Rotate(Rotate(cs, d), -d);
    var zs := Rotate(Rotate(cs, -d), d);
    forall i | 0 <= i < |cs| ensures ys[i] == cs[i] && zs[i] == cs[i] {
      ShiftBack(cs[i], d, -d);
      ShiftBack(cs[i], -d, d);
    }
  }

  /** Python's `^` on natural numbers, one binary digit at a time from the
      least significant end. */
  function XorBits(a: nat, b: nat): nat
    decreases a + b
  {
    if a == 0 && b == 0 then 0 else 2 * XorBits(a / 2, b / 2) + (a + b) % 2
  }

  /** Two values of `w` bits XOR to a value of `w` bits. */
  lemma {:induction false} XorBitsBound(a: nat, b: nat, w: nat)
    requires a < Pow2(w) && b < Pow2(w)
    ensures XorBits(a, b) < Pow2(w)
  {
    if !(a == 0 && b == 0) {
      assert w > 0;
      XorBitsBound(a / 2, b / 2, w - 1);
    }
  }

  /** XOR with zero is the identity. */
  lemma {:induction false} XorBitsZero(a: nat)
    ensures XorBits(a, 0) == a
  {
    if a != 0 {
      XorBitsZero(a / 2);
    }
  }

  /** The digit arithmetic of one XOR step: the low digit of `a ^ b` is the
      parity of `a + b`, the rest is `y`, and adding `b` back restores the
      parity of `a`. */
  lemma XorDigit(a: nat, b: nat, y: nat, x: nat)
    requires x == 2 * y + (a + b) % 2
    ensures x / 2 == y && (x + b) % 2 == a % 2
  {
    if (a + b) % 2 == 0 {
      assert x == 2 * y;
    } else {
      assert x == 2 * y + 1;
    }
  }

  /** XOR with the same value twice is the identity. */
  lemma {:induction false} XorBitsCancel(a: nat, b: nat)
    ensures XorBits(XorBits(a, b), b) == a
    decreases a + b
  {
    if b == 0 {
      XorBitsZero(a);
      XorBitsZero(XorBits(a, 0));
    } else {
      var y := XorBits(a / 2, b / 2);
      var x := XorBits(a, b);
      assert x == 2 * y + (a + b) % 2;
      XorDigit(a, b, y, x);
      XorBitsCancel(a / 2, b / 2);
      assert XorBits(x, b) == 2 * XorBits(y, b / 2) + a % 2;
    }
  }

  /** Python's `^` on two 7-bit values, which is again a 7-bit value. */
  function Xor(a: Code, b: Code): Code {
    XorBitsBound(a, b, 7);
    XorBits(a, b)
  }

  /** XOR with the same value twice is the identity. */
  lemma XorCancel(a: Code, b: Code)
    ensures Xor(Xor(a, b), b) == a
  {
    XorBitsCancel(a, b);
  }

  /** One-time pad: the `i`-th code XORed with the `i`-th keystream value
      after seeding with `seed`. */
  function OneTimePad(xs: seq<Code>, stream: Stream, seed: int): (ys: seq<Code>)
    ensures |ys| == |xs|
  {
    if xs == [] then [] else
      OneTimePad(xs[..|xs| - 1], stream, seed) + [Xor(xs[|xs| - 1], stream(seed, |xs| - 1))]
  }

  /** The `i`-th padded code is the `i`-th input XORed with the `i`-th keystream value. */
  lemma {:induction false} OneTimePadAt(xs: seq<Code>, stream: Stream, seed: int, i: nat)
    requires i < |xs|
    ensures OneTimePad(xs, stream, seed)[i] == Xor(xs[i], stream(seed, i))
  {
    var n := |xs| - 1;
    if i < n {
      OneTimePadAt(xs[..n], stream, seed, i);
    }
  }

  /** Padding twice with the same seed restores every code. */
  lemma {:induction false} OneTimePadInverse(cs: seq<Code>, stream: Stream, seed: int)
    ensures OneTimePad(OneTimePad(cs, stream, seed), stream, seed) == cs
  {
    var ys := OneTimePad(OneTimePad(cs, stream, seed), stream, seed);
    forall i | 0 <= i < |cs| ensures ys[i] == cs[i] {
      OneTimePadAt(cs, stream, seed, i);
      OneTimePadAt(OneTimePad(cs, stream, seed), stream, seed, i);
      XorCancel(cs[i], stream(seed, i));
    }
  }

  /** One feedback round: reseed with `k`, draw, and keep the low 7 bits when
      the tag's current low bit is 0, the high 7 bits when it is 1. */
  function Step(draw: Draw, k: int, r: nat): (k': int)
    ensures 0 <= k' < 128
  {
    var v := draw(k);
    if r % 2 == 0 then v % 128 else v / 128
  }

  /** `n` feedback rounds from state `k` and tag `r`, the tag shifted right once
      per round; after at least one round the state is a 7-bit value. */
  function Feedback(draw: Draw, k: int, r: nat, n: nat): (k': int)
    ensures n > 0 ==> 0 <= k' < 128
    ensures n == 0 ==> k' == k
    decreases n
  {
    if n == 0 then k else Feedback(draw, Step(draw, k, r), r / 2, n - 1)
  }

  /** The first round of a run of feedback rounds, written out. */
  lemma FeedbackFirst(draw: Draw, k: int, r: nat, n: nat)
    requires n > 0
    ensures Feedback(draw, k, r, n) == Feedback(draw, if r % 2 == 0 then draw(k) % 128 else draw(k) / 128, r / 2, n - 1)
  {
  }

  /** The number of feedback rounds per PRF chunk, one per tag bit. */
  const Rounds: nat := 7

  /** The mask of one PRF chunk: `Rounds` rounds from the key, driven by the tag. */
  function Mask(draw: Draw, key: int, tag: Code): Code {
    Feedback(draw, key, tag, Rounds)
  }

  /** The masks a key selects, one per tag. */
  function MaskOf(draw: Draw, key: int): Code -> Code {
    tag => Mask(draw, key, tag)
  }

  /** The seven feedback rounds that `prf_scheme` and `enc_prf_scheme` both
      run for each chunk: reseed with `k`, draw, keep the low or the high 7
      bits as the tag's current low bit says, shift the tag right. */
  method FeedbackRounds(draw: Draw, key: int, tag: Code) returns (k: int)
    ensures k == Mask(draw, key, tag)
  {
    var r: nat := tag;
    k := key;
    for j := 0 to Rounds
      invariant Feedback(draw, k, r, Rounds - j) == Mask(draw, key, tag)
    {
      FeedbackFirst(draw, k, r, Rounds - j);
      var v := draw(k);
      k := if r % 2 == 0 then v % 128 else v / 128;
      r := r / 2;
    }
  }

  /** PRF encoding: per message code, the tag followed by the code XORed with
      the mask that tag selects.  The cipher itself uses `MaskOf(draw, key)`;
      the round trips below hold for any choice of masks. */
  function PrfEncode(ms: seq<Code>, tags: seq<Code>, mask: Code -> Code): (cs: seq<Code>)
    requires |tags| == |ms|
    ensures |cs| == 2 * |ms|
  {
    if ms == [] then [] else
      var n := |ms| - 1;
      PrfEncode(ms[..n], tags[..n], mask) + [tags[n], Xor(ms[n], mask(tags[n]))]
  }

  /** The `i`-th pair of a PRF encoding is the `i`-th tag and the `i`-th code
      XORed with that tag's mask. */
  lemma {:induction false} PrfEncodeAt(ms: seq<Code>, tags: seq<Code>, mask: Code -> Code, i: nat)
    requires |tags| == |ms| && i < |ms|
    ensures PrfEncode(ms, tags, mask)[2 * i] == tags[i]
    ensures PrfEncode(ms, tags, mask)[2 * i + 1] == Xor(ms[i], mask(tags[i]))
  {
    var n := |ms| - 1;
    var p := PrfEncode(ms[..n], tags[..n], mask);
    assert PrfEncode(ms, tags, mask) == p + [tags[n], Xor(ms[n], mask(tags[n]))];
    if i < n {
      PrfEncodeAt(ms[..n], tags[..n], mask, i);
      assert ms[..n][i] == ms[i] && tags[..n][i] == tags[i];
    }
  }

  /** PRF decoding: per pair of codes, the second XORed with the mask the
      first (the tag) selects. */
  function PrfDecode(cs: seq<Code>, mask: Code -> Code): (ms: seq<Code>)
    requires |cs| % 2 == 0
    ensures 2 * |ms| == |cs|
  {
    if cs == [] then [] else
      var n := |cs| - 2;
      PrfDecode(cs[..n], mask) + [Xor(cs[n + 1], mask(cs[n]))]
  }

  /** The `i`-th decoded code is the second code of the `i`-th pair XORed with
      the mask the first selects. */
  lemma {:induction false} PrfDecodeAt(cs: seq<Code>, mask: Code -> Code, i: nat)
    requires |cs| % 2 == 0 && 2 * i + 2 <= |cs|
    ensures i < |PrfDecode(cs, mask)|
    ensures PrfDecode(cs, mask)[i] == Xor(cs[2 * i + 1], mask(cs[2 * i]))
  {
    var n := |cs| - 2;
    var p := PrfDecode(cs[..n], mask);
    assert PrfDecode(cs, mask) == p + [Xor(cs[n + 1], mask(cs[n]))];
    if 2 * i + 2 <= n {
      PrfDecodeAt(cs[..n], mask, i);
      assert cs[..n][2 * i] == cs[2 * i] && cs[..n][2 * i + 1] == cs[2 * i + 1];
    }
  }

  /** The tags of a pair sequence: its even positions. */
  function Tags(cs: seq<Code>): (ts: seq<Code>)
    requires |cs| % 2 == 0
    ensures 2 * |ts| == |cs|
  {
    if cs == [] then [] else Tags(cs[..|cs| - 2]) + [cs[|cs| - 2]]
  }

  /** The `i`-th tag is the first code of the `i`-th pair. */
  lemma {:induction false} TagsAt(cs: seq<Code>, i: nat)
    requires |cs| % 2 == 0 && 2 * i + 2 <= |cs|
    ensures i < |Tags(cs)| && Tags(cs)[i] == cs[2 * i]
  {
    var n := |cs| - 2;
    assert Tags(cs) == Tags(cs[..n]) + [cs[n]];
    if 2 * i + 2 <= n {
      TagsAt(cs[..n], i);
    }
  }

  /** Decoding recovers the message whatever the tags were. */
  lemma {:induction false} PrfDecodeEncode(ms: seq<Code>, tags: seq<Code>, mask: Code -> Code)
    requires |tags| == |ms|
    ensures PrfDecode(PrfEncode(ms, tags, mask), mask) == ms
  {
    var ys := PrfDecode(PrfEncode(ms, tags, mask), mask);
    forall i | 0 <= i < |ms| ensures ys[i] == ms[i] {
      PrfEncodeAt(ms, tags, mask, i);
      PrfDecodeAt(PrfEncode(ms, tags, mask), mask, i);
      XorCancel(ms[i], mask(tags[i]));
    }
  }

  /** Re-encoding a decoded pair sequence with its own tags rebuilds it. */
  lemma {:induction false} PrfEncodeDecode(cs: seq<Code>, mask: Code -> Code)
    requires |cs| % 2 == 0
    ensures PrfEncode(PrfDecode(cs, mask), Tags(cs), mask) == cs
  {
    if cs != [] {
      var n := |cs| - 2;
      var p := cs[..n];
      var t, c := cs[n], cs[n + 1];
      var x := Xor(c, mask(t));
      var ms := PrfDecode(cs, mask);
      var ts := Tags(cs);
      assert ms == PrfDecode(p, mask) + [x];
      assert ts == Tags(p) + [t];
      var m := |ms| - 1;
      assert ms[..m] == PrfDecode(p, mask) && ts[..m] == Tags(p);
      calc {
        PrfEncode(ms, ts, mask);
        PrfEncode(ms[..m], ts[..m], mask) + [t, Xor(x, mask(t))];
        { PrfEncodeDecode(p, mask); XorCancel(c, mask(t)); }
        p + [t, c];
        cs;
      }
    }
  }
}
