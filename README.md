# crypto_synth cipher core in Dafny

`crypto_synth.py` is a program-synthesis example. Each candidate program is a
tree of decryption operations. A post-order interpreter evaluates the tree on
a ciphertext, and a decider compares the result with the expected plaintext.
The ciphertexts come from three encryption functions in the same file.

Ciphertexts and intermediate values are bit-strings: strings over `'0'` and
`'1'` made of 7-digit chunks, one chunk per 7-bit character code, most
significant digit first. This project models the interpreter's five node
operations and the three encryption functions:

- `get_int` reads an integer key from a leaf string.
- `caesar` rotates every chunk back by the key, modulo 128.
- `one_time_pad` seeds the generator with the key and XORs the `i`-th chunk
  with the `i`-th draw from `[0, 127]`.
- `prf_scheme` reads 14-digit chunks, each a 7-bit tag followed by a 7-bit
  payload. For each chunk it runs seven feedback rounds. Each round reseeds
  with the current state `k` and draws from `[0, 16383]`. It then keeps the
  draw's low 7 bits (`% 128`) when the tag's current low bit is 0 and its
  high 7 bits (`// 128`) when it is 1, and shifts the tag right. The payload
  is XORed with the final state.
- `bit_to_string` turns each chunk into the character with that code.
- `enc_caesar`, `enc_one_time_pad` and `enc_prf_scheme` are the
  corresponding encryptions. `enc_prf_scheme` writes a freshly drawn tag in
  front of every payload.

Module layout:

- `Results`: the two error kinds, `GeneralError` (a decoder's length guard)
  and `ValueError` (`int()` on a malformed literal).
- `Bits`: the chunk layer. `Format` is `format(v, '07b')`, `Parse` is
  `int(s, 2)`, and `Encode7`/`Decode7` map between code sequences and
  bit-strings.
- `Text`: `ord`/`chr` for 7-bit characters.
- `Literals`: decimal literals, for `int()` and its inverse `str()`.
- `Ciphers`: the ciphers on code sequences, with their inverses. These are
  rotation, one-time pad, feedback rounds and the PRF pairing.
- `Interpreter`: for each node operation, a function that says what it
  returns or raises. Each operation written as a loop also gets a method
  that runs the same loop and is proved equal to that function.
- `Encryption`: the same pairing of functions and loop methods for the three
  encryption functions.
- `RoundTrips`: each decoder inverts its encoder for every key and every
  generator. Conversely, every well-formed ciphertext is the encryption of
  the text it decrypts to.

Python's `random` is abstracted. After `random.seed(s)`, the `i`-th
`randint(0, 127)` is `stream(s, i)` for an arbitrary `Stream`. The first
`randint(0, 16383)` after `random.seed(k)` is `draw(k)` for an arbitrary
`Draw`. The tags `enc_prf_scheme` draws with `randint(0, 127)` are passed in
as a sequence of arbitrary 7-bit codes. The Dafny types give every draw its range: `Code`
for `[0, 127]` and `Word14` for `[0, 16383]`, both bounds included as in
`randint`. Every property below holds for every such generator, so it holds
for the Mersenne Twister in particular.

The Python `%` and `//` here only ever see a positive divisor. With a
positive divisor they agree with Dafny's Euclidean `%` and `/`, including for
negative keys. XOR of two 7-bit values is written out bit by bit (`XorBits`).

The model follows the code on these points:

- The decoders never check the binary alphabet. The only TODO about it is the
  comment at `crypto_synth.py:15-16`. The model states the alphabet as a
  precondition instead, conditioned on the length guard passing (see Left
  out).
- Every decoder's length failure raises the framework's `GeneralError`, the
  one error kind the decoders raise.
- The encoders accept every ordinal. None of them rejects an ordinal of 128
  or more.
- The PRF draws from `randint(0, 16383)`, which includes 16383.

## Model

| member | source | states |
|---|---|---|
| Interpreter.EvalGetInt | crypto_synth.py:21-22 | Succeeds exactly on an optionally signed, non-empty decimal literal. Otherwise raises `ValueError`. The value is the literal's value, negated after `-`. |
| RoundTrips.GetIntRoundTrip | crypto_synth.py:21-22 | `get_int` reads back `str(n)` as `n` for every integer, negative ones included. |
| Bits.Parse | crypto_synth.py:31 | `int(s, 2)` on binary digits: their value read most significant digit first. Its range is stated by `ParseBound`, and its inverse by `ParseFormat` and `FormatParse`. |
| Bits.ChunkCode | crypto_synth.py:31 | `int(bits[i*7:i*7+7], 2)`, which is a 7-bit code by its result type (see `ParseChunk`). |
| Bits.Format | crypto_synth.py:32 | `format(v, '07b')` always yields exactly the requested number of digits. |
| Bits.FormatBinary | crypto_synth.py:32 | `format(v, '07b')` writes only `'0'` and `'1'`. |
| Bits.ParseBound | crypto_synth.py:31 | `int(s, 2)` of an n-digit string is below 2^n. |
| Bits.ParseChunk | crypto_synth.py:31 | Every 7-digit chunk parses to a 7-bit code. |
| Bits.ParseFormat | crypto_synth.py:31-32 | Parsing the formatted digits of a value that fits gives the value back. |
| Bits.FormatParse | crypto_synth.py:31-32 | Formatting a parsed binary string at its own width gives the string back. |
| Bits.Encode7 | crypto_synth.py:32 | Concatenating the 7-digit forms of n codes gives 7n digits. |
| Bits.Encode7Binary | crypto_synth.py:32 | The concatenation is itself a binary string. |
| Bits.Encode7Chunk | crypto_synth.py:30-32 | The `i`-th 7-digit chunk of the concatenation is the `i`-th code's 7-digit form. |
| Bits.Decode7 | crypto_synth.py:30-31 | A bit-string of 7n digits splits into n codes. |
| Bits.Decode7At | crypto_synth.py:30-31 | The `i`-th code is the value of digits `7i .. 7i+7`. |
| Bits.Decode7Encode7 | crypto_synth.py:30-32 | Splitting the concatenated 7-digit forms gives back the codes. |
| Bits.Encode7Decode7 | crypto_synth.py:30-32 | Re-formatting the chunk values of a binary string whose length is a multiple of 7 gives back the string. |
| Text.Ords | crypto_synth.py:76 | `ord(c)` for every character, in order, one ordinal per character, whatever its range. |
| Text.Codes | crypto_synth.py:83 | `ord(c)` for the characters of a 7-bit message, typed as 7-bit codes, one per character (see also line 98). |
| Text.Chars | crypto_synth.py:68 | `chr(v)` for every code, in order, one character per code. It is inverse to `Codes` by `CharsCodes` and `CodesChars`. |
| Text.CharsCodes | crypto_synth.py:68 | `chr` undoes `ord` on 7-bit characters. |
| Text.CodesChars | crypto_synth.py:68 | `chr` of a code is a 7-bit character whose `ord` is the code. |
| Ciphers.Rotate | crypto_synth.py:32 | Rotating by a key keeps the number of codes. |
| Ciphers.RotateInverse | crypto_synth.py:32 | Rotating by `d` and then by `-d` is the identity on codes, in both orders, for every integer `d` (see also line 76). |
| Ciphers.XorBits | crypto_synth.py:43 | Python's `^` on naturals, one binary digit at a time from the least significant end. Its range is given by `XorBitsBound` and its inverse by `XorBitsCancel`. |
| Ciphers.Xor | crypto_synth.py:43 | `^` on two 7-bit values, whose result is a 7-bit value by its type (see also lines 61, 83 and 98). |
| Ciphers.XorBitsBound | crypto_synth.py:43 | XOR of two values below 2^w is below 2^w, so XOR of 7-bit codes is a 7-bit code. |
| Ciphers.XorBitsZero | crypto_synth.py:43 | XOR with 0 is the identity. |
| Ciphers.XorBitsCancel | crypto_synth.py:43 | XOR with `b` twice is the identity. |
| Ciphers.XorCancel | crypto_synth.py:43 | XOR with the same 7-bit value twice gives back the code (see also line 83). |
| Ciphers.OneTimePad | crypto_synth.py:40-43 | The one-time pad keeps the number of codes. |
| Ciphers.OneTimePadAt | crypto_synth.py:40-43 | The `i`-th output is the `i`-th input XORed with the `i`-th draw after seeding with the key. |
| Ciphers.OneTimePadInverse | crypto_synth.py:40-43 | Applying the pad twice with the same seed is the identity (see also lines 80-83). |
| Ciphers.Step | crypto_synth.py:57-59 | One round leaves a 7-bit state whatever the tag bit. |
| Ciphers.Feedback | crypto_synth.py:56-60 | After at least one round the state is a 7-bit value for every starting key. After zero rounds it is the key itself. |
| Ciphers.FeedbackFirst | crypto_synth.py:56-60 | A run of rounds is the first round followed by the rest, with the tag shifted right once. |
| Ciphers.Mask | crypto_synth.py:55-60 | The `k` left after the seven feedback rounds from the key driven by the tag, which is a 7-bit value by its type, proved by `Feedback` (see also lines 91-97). |
| Ciphers.FeedbackRounds | crypto_synth.py:55-60 | The seven-round loop computes the mask the key and the tag select (see also lines 91-97). |
| Ciphers.PrfEncode | crypto_synth.py:88-98 | Every message code becomes two codes. |
| Ciphers.PrfEncodeAt | crypto_synth.py:88-98 | Pair `i` is the `i`-th tag followed by the `i`-th code XORed with that tag's mask. |
| Ciphers.PrfDecode | crypto_synth.py:53-61 | Every pair of codes becomes one code. |
| Ciphers.PrfDecodeAt | crypto_synth.py:53-61 | Decoded code `i` is the payload of pair `i` XORed with the mask its tag selects. |
| Ciphers.Tags | crypto_synth.py:54 | A sequence of pairs has half as many tags as codes. |
| Ciphers.TagsAt | crypto_synth.py:54 | The `i`-th tag is the first code of pair `i`. |
| Ciphers.PrfDecodeEncode | crypto_synth.py:53-61 | PRF decoding recovers the message whatever tags the encoder chose, for any masks (see also lines 88-98). |
| Ciphers.PrfEncodeDecode | crypto_synth.py:53-61 | Re-encoding a decoded pair sequence with its own tags rebuilds it (see also lines 88-98). |
| Interpreter.DecodeCaesar | crypto_synth.py:24-33 | Raises `GeneralError` exactly when the length is not a multiple of 7. Otherwise the result has the input's length and is binary. |
| Interpreter.CaesarStep | crypto_synth.py:30-32 | One loop pass appends the `i`-th chunk's value minus the key, modulo 128, in 7 digits. |
| Interpreter.EvalCaesar | crypto_synth.py:24-33 | The loop returns what `DecodeCaesar` says, the error included. |
| Interpreter.CaesarChunk | crypto_synth.py:30-32 | Output chunk `i` depends on input chunk `i` alone: its value minus the key, modulo 128. |
| Interpreter.DecodeOneTimePad | crypto_synth.py:35-45 | Raises `GeneralError` exactly when the length is not a multiple of 7. Otherwise the result has the input's length and is binary. |
| Interpreter.EvalOneTimePad | crypto_synth.py:35-45 | The loop returns what `DecodeOneTimePad` says, the error included. |
| Interpreter.OneTimePadChunk | crypto_synth.py:40-43 | Output chunk `i` is input chunk `i` XORed with the `i`-th draw after seeding with the key. |
| Interpreter.PairedChunks | crypto_synth.py:50-53 | A length that is a multiple of 14 holds an even number of 7-digit chunks. |
| Interpreter.DecodePrf | crypto_synth.py:47-62 | Raises `GeneralError` exactly when the length is not a multiple of 14. Otherwise the result has half the input's length and is binary. |
| Interpreter.PrfChunk | crypto_synth.py:53-61 | Decoded code `i` comes from the `i`-th 14-digit chunk alone: its payload XORed with the mask its tag selects. |
| Interpreter.EvalPrfScheme | crypto_synth.py:47-62 | The nested loops return what `DecodePrf` says, the error included. |
| Interpreter.PrfSchemeChunk | crypto_synth.py:53-61 | Output chunk `i` is the payload of input chunk `i` XORed with the mask that chunk's tag selects. |
| Interpreter.EvalBitToString | crypto_synth.py:64-68 | Raises `GeneralError` exactly when the length is not a multiple of 7. Otherwise it returns one 7-bit character per chunk. |
| Interpreter.BitToStringAt | crypto_synth.py:68 | Character `i` has the code of chunk `i`. |
| Encryption.EncodeCaesar | crypto_synth.py:73-77 | Each character becomes 7 binary digits. |
| Encryption.EncCaesar | crypto_synth.py:73-77 | The loop returns the rotated ordinals in 7-digit form. |
| Encryption.EncodeOneTimePad | crypto_synth.py:79-84 | Each character becomes 7 binary digits. |
| Encryption.EncOneTimePad | crypto_synth.py:79-84 | The loop returns the padded ordinals in 7-digit form. |
| Encryption.EncodePrf | crypto_synth.py:86-99 | Each character becomes 14 binary digits. |
| Encryption.EncPrfScheme | crypto_synth.py:86-99 | The nested loops return the tag/payload pairs in 7-digit form. |
| RoundTrips.TextRoundTrip | crypto_synth.py:64-68 | `bit_to_string` decodes the 7-digit forms of a 7-bit message back to the message. |
| RoundTrips.TextDecodeRoundTrip | crypto_synth.py:64-68 | Every well-formed bit-string is the encoding of the text `bit_to_string` gives. |
| RoundTrips.CaesarRoundTrip | crypto_synth.py:24-33 | `caesar` with the encryption key yields the message's 7-digit encoding, for every integer key (see also lines 73-77). |
| RoundTrips.CaesarMessageRoundTrip | crypto_synth.py:24-33 | `bit_to_string(caesar(enc_caesar(m, k), k)) == m` (see also lines 64-77). |
| RoundTrips.CaesarDecodeRoundTrip | crypto_synth.py:24-33 | Every well-formed bit-string is the Caesar encryption, under the same key, of the text it decrypts to (see also lines 64-77). |
| RoundTrips.CaesarKeyPeriod | crypto_synth.py:76 | Keys that differ by 128 encrypt every message the same way. |
| RoundTrips.OneTimePadRoundTrip | crypto_synth.py:35-45 | `one_time_pad` with the encryption key yields the message's 7-digit encoding, for every generator (see also lines 79-84). |
| RoundTrips.OneTimePadMessageRoundTrip | crypto_synth.py:35-45 | `bit_to_string(one_time_pad(enc_one_time_pad(m, k), k)) == m` (see also lines 64-68 and 79-84). |
| RoundTrips.OneTimePadDecodeRoundTrip | crypto_synth.py:35-45 | Every well-formed bit-string is the one-time-pad encryption, under the same key, of the text it decrypts to (see also lines 64-68 and 79-84). |
| RoundTrips.PrfRoundTrip | crypto_synth.py:47-62 | `prf_scheme` with the encryption key yields the message's 7-digit encoding, whatever tags were drawn (see also lines 86-99). |
| RoundTrips.PrfMessageRoundTrip | crypto_synth.py:47-68 | `bit_to_string(prf_scheme(enc_prf_scheme(m, k), k)) == m` (see also lines 86-99). |
| RoundTrips.PrfDecodeRoundTrip | crypto_synth.py:47-68 | Every well-formed 14n-digit bit-string is the PRF encryption, under the same key and with the tags it carries, of the text it decrypts to (see also lines 86-99). |

## Left out

- The synthesis driver is not modelled (`crypto_synth.py:4-11`, `crypto_synth.py:101-132`). This covers the tyrell spec parsing, the enumerator, the decider, the post-order tree traversal, logging and `main`. It is framework code, not cipher logic.
- Python's `random` (Mersenne Twister, `seed`, `randint`) is not modelled. It is abstracted as the `Stream` and `Draw` parameters. The generator is a global mutable object: `one_time_pad` and the PRF code reseed it, and `enc_prf_scheme` draws its tags from whatever state it was left in. The model keeps only the draws each operation sees.
- `enc_prf_scheme`'s tags are not computed. Each tag is the next `randint(0, 127)` (`crypto_synth.py:89`). For the first character that draw depends on the generator state before the call. For every later character it follows the previous character's last `random.seed(k)` and `randint(0, 16383)` (`crypto_synth.py:94-95`), so it is a fixed function of the key and the previous tag. The model takes all tags as an arbitrary caller-supplied sequence of 7-bit codes, which covers both cases, and the round trips hold for every choice of tags.
- The decoders' binary alphabet is not checked by the code. `caesar`, `one_time_pad`, `prf_scheme` and `bit_to_string` assume it, just as `int(s, 2)` does. The model states it as a precondition that applies only when the length guard passes. What `int(s, 2)` does on a chunk with other characters is therefore not modelled. It raises `ValueError` on most such chunks, but it reads a value from some of them that the model does not capture: a sign (`int('-000001', 2) == -1`), surrounding whitespace, `_` between digits, or a `0b` prefix (`int('0b10101', 2) == 21`).
- Interpreter.EvalGetInt: models `int()` on ASCII decimal literals with an optional sign. It does not model the surrounding whitespace, the `_` digit separators or the non-ASCII Unicode digits that Python also accepts.
- Encryption.EncodeOneTimePad: requires a 7-bit message. For an ordinal of 128 or more, Python's `format(..., '07b')` writes more than 7 digits, and the chunk layout the decoders rely on breaks. `enc_caesar` needs no such requirement, because its `% 128` wraps every ordinal.
- Encryption.EncOneTimePad: requires a 7-bit message, for the same reason as `EncodeOneTimePad`.
- Encryption.EncodePrf: requires a 7-bit message. For an ordinal of 128 or more the payload chunk is longer than 7 digits, as with `EncodeOneTimePad`.
- Encryption.EncPrfScheme: requires a 7-bit message, for the same reason as `EncodePrf`.
- Bits.Format: is used only on values below 2^w, which is every value the source formats. On a wider value it keeps the low w digits, whereas Python writes them all.
- The wrong-arity, wrong-type and `None` arguments that the interpreter framework could pass are not modelled. Every operation takes its arguments with the types the source expects.
