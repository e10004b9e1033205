/** Characters as 7-bit codes: `ord` and `chr` restricted to 0..127. */
module Text {
  import opened Bits

  /** Every character's ordinal fits in 7 bits. */
  predicate IsAscii7(m: string) {
    forall i :: 0 <= i < |m| ==> m[i] as int < 128
  }

  /** `ord(c)` for each character, in order, whatever its range. */
  function Ords(m: string): (xs: seq<int>)
    ensures |xs| == |m|
  {
    seq(|m|, i requires 0 <= i < |m| => m[i] as int)
  }

  /** The same ordinals, typed as 7-bit codes, for a 7-bit message.  The
      Caesar encoder wraps every ordinal and so works on `Ords`; the other
      encoders and `chr` need codes. */
  function Codes(m: string): (cs: seq<Code>)
    requires IsAscii7(m)
    ensures |cs| == |m|
  {
    Ords(m)
  }

  /** `chr(v)` for each code, in order. */
  function Chars(cs: seq<Code>): (m: string)
    ensures |m| == |cs|
  {
    seq(|cs|, i requires 0 <= i < |cs| => cs[i] as char)
  }

  /** `chr` and `ord` are mutually inverse on 7-bit text. */
  lemma CharsCodes(m: string)
    requires IsAscii7(m)
    ensures Chars(Codes(m)) == m
  {
  }

  lemma CodesChars(cs: seq<Code>)
    ensures IsAscii7(Chars(cs)) && Codes(Chars(cs)) == cs
  {
  }
}
