# Collatz XP cipher, modelled in Dafny

This project models `CollatzXPCipher` from `collatz-rsu.py`, a toy stream cipher. Its parts:

- **Generator.** A Collatz walk over an unbounded integer `state`. An
  anti-collapse guard re-seeds the walk when it reaches 0 or 1.
- **Raw bit.** Each step yields one raw bit: bit 0 of a shadow copy
  `state ^ mask`, rotated left by 5 within 32 bits.
- **Debiaser.** A Von Neumann debiaser turns pairs of raw bits into balanced
  bits. It has a local loop guard that nudges the state after 1001 discarded
  pairs in a row.
- **Keystream.** The keystream is `length` balanced bits drawn after a reset
  to the original seed.
- **Encryption.** `encrypt` turns UTF-8 text into bits, most significant
  first, XORs them with the keystream, and writes the result as one hex
  number. `decrypt` reads the number back, pads its binary digits to whole
  bytes, XORs again and decodes.

The files:

- `intbits.dfy` (`IntBits`) defines Python's `^` and `|` on non-negative
  integers, one binary digit at a time. `<<`, `>>` and `&` with a mask of
  low bits are written inline as `*`, `/` and `%` by a power of two.
- `bits.dfy` (`Bits`) holds bit lists: `int(s, 2)`, `bin`, `zfill` and the
  position-wise XOR.
- `generator.dfy` (`Generator`) is the generator as pure functions of the
  state. The debiaser runs on explicit fuel, and `Run` is the keystream.
- `packing.dfy` (`Packing`) turns text into bytes, bytes into bits, and back.
- `cipher.dfy` (`CollatzCipher`) holds the class `CollatzXPCipher`. Its
  field `state` is overwritten by `ChaosStep`, `BalancedBit` and
  `GenerateKeystream`. Each of these methods is proved against the
  functions of `Generator`. The same file has the ciphertext-side functions.

Three facts about the state, as the code has it:

- **The state is an unbounded `nat`.** The code never reduces `3 * state + 1`
  modulo 2^32, and a seed may exceed 2^32. Only the guard, the rotate and the
  loop-guard nudge reduce modulo 2^32.
- **The guard can leave `state == 1`.** From state 2, the step gives 1, and
  the guard gives `(1 + mask + 137) mod 2^32`. That is 1 when `mask + 137` is
  a multiple of 2^32, for example `mask = 0xFFFFFF77`. From state 0 the step
  gives 0, and the guard gives 1 when `mask + 137` is one more than a multiple
  of 2^32. `Generator.StepYieldsOne` states exactly when a step yields 1.
  What does hold after every step is `state != 0`.
- **The loop-guard nudge can make the state 0.** `(state + 1001) mod 2^32` is
  0 for every state congruent to 2^32 - 1001 modulo 2^32. The next Collatz
  step and guard repair it.

## Model

| member | source | states |
|---|---|---|
| Generator.NormalizeSeed | collatz-rsu.py:8 | the starting state is at least 1: `abs(seed)` for a nonzero seed, 12345 for seed 0 |
| CollatzCipher.CollatzXPCipher.constructor | collatz-rsu.py:6-10 | the state and the original seed are the normalised seed, and the mask is stored unchanged |
| IntBits.XorDigit | collatz-rsu.py:39 | a binary digit of `a ^ b` is 1 exactly where the digits of `a` and `b` differ |
| IntBits.Xor | collatz-rsu.py:39 | Python's `a ^ b` on non-negative ints: the lowest digit is 1 where the lowest digits of `a` and `b` differ, and the rest is `(a >> 1) ^ (b >> 1)`; `XorDigit` states what this gives at every digit |
| IntBits.Or | collatz-rsu.py:15 | Python's `a \| b` on non-negative ints: the lowest digit is 1 where either lowest digit is 1, and the rest is `(a >> 1) \| (b >> 1)`; `OrShifted` states what this gives for the rotate's operands |
| IntBits.OrShifted | collatz-rsu.py:15 | or-ing a value below 2^k into `a << k` is adding it |
| Generator.RotateLeft | collatz-rsu.py:12-15 | `_rotate_left` always returns a value below 2^32 |
| Generator.RotateLeftMovesDigits | collatz-rsu.py:12-15 | with shift 5, the low 27 bits of `num mod 2^32` move up 5 places and the top 5 bits come round to the bottom |
| Generator.RotateLeftInverse | collatz-rsu.py:12-15 | rotating left by 5 and then by 27 gives back `num mod 2^32` |
| Generator.RotatedLowBit | collatz-rsu.py:40-42 | bit 0 of `_rotate_left(x)` is bit 27 of `x` |
| Generator.OutputBit | collatz-rsu.py:39-42 | the raw bit of a step: bit 0 of `_rotate_left(state ^ mask)`; `OutputBitIsBit27` states which bit of state and mask it is |
| Generator.OutputBitIsBit27 | collatz-rsu.py:39-42 | the raw bit is bit 27 of the state XOR bit 27 of the mask |
| Generator.Collatz | collatz-rsu.py:25-28 | the transition keeps a positive state positive, and yields at most 1 exactly from the states 0 and 2 |
| Generator.Guard | collatz-rsu.py:32-35 | the guard never yields 0; it leaves a value above 1 alone; otherwise it yields `(c + mask + 137) mod 2^32`, or 12345 when that is 0 |
| Generator.NextState | collatz-rsu.py:25-35 | after a step the state is never 0, and away from states 0 and 2 it is the plain Collatz transition |
| Generator.StepYieldsOne | collatz-rsu.py:25-35 | a step yields 1 exactly from state 2 when `mask + 137` is a multiple of 2^32, and from state 0 when `mask + 137` is one more than a multiple of 2^32 |
| CollatzCipher.CollatzXPCipher.ChaosStep | collatz-rsu.py:17-42 | the new state is the guarded transition of the old one and is never 0, and the returned bit is the raw bit of the new state |
| Generator.Round | collatz-rsu.py:50-68 | a round takes two steps; it accepts exactly when the two raw bits differ and returns the first one (so (0,1) gives 0 and (1,0) gives 1), leaving the state of the second step; an equal pair increments the guard, and the 1001st discard adds 1001 to the state mod 2^32 and resets the guard to 0, so the guard stays at most 1000 |
| Generator.DebiasRound | collatz-rsu.py:50-61 | an unequal pair ends the debiaser with the first bit, and an equal pair continues it from the state and guard the round leaves |
| Generator.Debias | collatz-rsu.py:50-68 | the debiaser loop allowed at most `fuel` rounds: the first accepted round's bit and state, or None if no round is accepted within the allowance; `DebiasRound`, `DebiasMoreFuel` and `DebiasFuelIrrelevant` state its behaviour |
| Generator.Halts | collatz-rsu.py:50 | a debiaser call from a state, with loop guard 0, accepts a pair after some number of rounds; the `while True` loop returns exactly then |
| Generator.DebiasMoreFuel | collatz-rsu.py:47-68 | once the debiaser has returned, more rounds of allowance do not change its result |
| Generator.DebiasFuelIrrelevant | collatz-rsu.py:47-68 | the debiaser is deterministic: any two round bounds after which it returns give the same bit and state |
| Generator.BalancedDraw | collatz-rsu.py:44-68 | the bit and state a debiaser call returns are those of every round bound after which it returns |
| CollatzCipher.CollatzXPCipher.BalancedBit | collatz-rsu.py:44-68 | the method returns the bit and leaves the state that the debiaser from the old state with loop guard 0 determines; its loop keeps the guard at most 1000 |
| Generator.Run | collatz-rsu.py:70-77 | a keystream that is produced has exactly `length` bits |
| Generator.RunPrefix | collatz-rsu.py:70-77 | a shorter keystream from the same seed is produced whenever a longer one is, and is its prefix |
| Generator.Keystream | collatz-rsu.py:70-77 | the keystream of `length` bits has exactly `length` bits |
| CollatzCipher.CollatzXPCipher.GenerateKeystream | collatz-rsu.py:70-77 | after resetting to the original seed, the result is the keystream of the seed and length; it has `length` bits, is the same on every call, and the state is where that run leaves it |
| Bits.BitsValue | collatz-rsu.py:96 | `int(s, 2)` on a bit list, most significant bit first; `BitsValueBound`, `BinaryOfValue` and `LeadingZerosValue` state its properties |
| Bits.Binary | collatz-rsu.py:116 | `bin(v)[2:]` is nonempty, starts with 1 unless `v` is 0 (then it is "0"), and denotes `v` |
| Bits.BinaryOfValue | collatz-rsu.py:116 | `bin` inverts `int(s, 2)` on bit strings that start with 1 |
| Bits.BinaryLength | collatz-rsu.py:116 | a value below 2^k has at most k binary digits |
| Bits.ZeroFill | collatz-rsu.py:85 | `zfill(width)` gives the string, prefixed by zeros up to `width` |
| Bits.LeadingZerosValue | collatz-rsu.py:117-118 | leading zeros do not change the value a bit string denotes |
| Packing.ByteBits | collatz-rsu.py:84-86 | a byte becomes exactly 8 bits, most significant first, denoting the byte |
| Packing.ByteBitsZeroFill | collatz-rsu.py:85 | those 8 bits are `bin(b)[2:].zfill(8)` |
| Packing.BytesBits | collatz-rsu.py:82-86 | a byte string becomes 8 bits per byte |
| Packing.BytesBitsAppend | collatz-rsu.py:82-86 | the bits of two byte strings in a row are the bits of each in a row |
| Packing.Regroup | collatz-rsu.py:93-97 | regrouping gives one byte per whole chunk of 8 bits, and a shorter trailing chunk is dropped |
| Packing.RegroupBytesBits | collatz-rsu.py:93-97 | regrouping the bits of bytes, followed by fewer than 8 extra bits, gives back exactly the bytes |
| Packing.Utf8Bytes | collatz-rsu.py:81-83 | the UTF-8 bytes of a text: the encodings of its characters one after another |
| Packing.TextBits | collatz-rsu.py:79-87 | the bits `str_to_bits` produces: 8 per UTF-8 byte of the text |
| Packing.BitsText | collatz-rsu.py:89-102 | what `bits_to_str` returns: the decoder's text for the regrouped bytes, or the fixed error message; `TextBitsRoundTrip` and `BitsTextError` state both outcomes |
| Packing.RegroupTextBits | collatz-rsu.py:79-97 | the bits of a text regroup into exactly its UTF-8 bytes |
| Packing.TextBitsRoundTrip | collatz-rsu.py:79-102 | `bits_to_str` undoes `str_to_bits` whenever the decoder reads the encoder's bytes back as the text |
| Packing.BitsTextError | collatz-rsu.py:99-102 | bytes the decoder rejects give the fixed error message |
| CollatzCipher.CollatzXPCipher.StrToBits | collatz-rsu.py:79-87 | the loops produce the 8 bits of every UTF-8 byte of the text in order, and those bits regroup into the text's bytes |
| CollatzCipher.CollatzXPCipher.BitsToStr | collatz-rsu.py:89-102 | the loop cuts the bits into whole bytes, stopping at a short chunk; the result is the decoded text, or the error message when the decoder rejects the bytes |
| Bits.XorBits | collatz-rsu.py:107 | the XOR is as long as the shorter input, and a position differs from the plaintext bit exactly where the key bit is 1 |
| Bits.XorBitsInvolution | collatz-rsu.py:124 | XOR-ing twice with the same keystream, at least as long, gives the input back |
| CollatzCipher.CollatzXPCipher.Encrypt | collatz-rsu.py:104-111 | the ciphertext is "" for a text with no bits; otherwise it is the number denoted by the text's bits XOR the keystream of their length; the XOR keeps the length |
| CollatzCipher.CipherBits | collatz-rsu.py:115-118 | the bits read from a hex number are whole bytes that denote the number, with fewer than 8 padding zeros |
| CollatzCipher.PaddingRestores | collatz-rsu.py:117 | the padding of digits that lost fewer than 8 leading zeros of whole bytes is exactly those zeros |
| CollatzCipher.CipherBitsRecover | collatz-rsu.py:111-118 | whole bytes whose first byte is not zero are read back exactly from the number they denote |
| CollatzCipher.LeadingZeroByteLost | collatz-rsu.py:111-118 | whole bytes, at least two, whose first byte is zero are read back at least one byte short |
| CollatzCipher.CollatzXPCipher.Decrypt | collatz-rsu.py:113-125 | text that is not a hex number gives "Hata: Geçersiz Hex" and leaves the state alone; otherwise the result is the padded bits of the number, XORed with the keystream of their length and turned into text, and the state is where that keystream run leaves it |
| CollatzCipher.DecryptEncrypt | collatz-rsu.py:104-125 | decryption undoes encryption when the ciphertext's first byte is not zero and the decoder inverts the encoder |

## Left out

- **Console output.** The progress `print` calls in `generate_keystream`, the
  demonstration block with its timing and statistics, and the unused `random`
  import have no counterpart.
- **UTF-8 codec.** The codec is Python's, so it is passed in as parameters: a
  per-character encoder, and a decoder that answers None where Python raises
  `UnicodeDecodeError`. A character `encode` rejects, such as a lone
  surrogate, is not modelled. Dafny's `char` is a Unicode scalar value.
- **Hex text.** A ciphertext is modelled by the number its hex digits denote
  (`HexText`). The digits `hex` writes, and the leniency of `int(..., 16)`
  (prefixes, underscores, whitespace), are not modelled. Empty text and
  malformed text both lead to the invalid-hex message.
- **Negative masks.** The mask is a `nat`. Python would XOR a negative mask in
  two's complement.
- **Negative lengths.** `GenerateKeystream` takes a `nat`. Python's
  `range(length)` would give an empty keystream for a negative length.
- CollatzCipher.CollatzXPCipher.BalancedBit: requires that the debiaser call
  returns (`Halts`). The source loop has no termination argument, and the
  model says nothing about a call that runs forever.
- CollatzCipher.CollatzXPCipher.GenerateKeystream: requires that each of its
  `length` debiaser calls returns, for the same reason. `Encrypt` and
  `Decrypt` inherit the requirement for the keystream they draw.
- CollatzCipher.DecryptEncrypt: the end-to-end round trip is not a property of
  the code, so it is proved only when the ciphertext's first byte is nonzero.
  A first byte of zero loses a byte (`LeadingZeroByteLost`). An empty
  plaintext encrypts to "", which decrypts to the invalid-hex message.
- **In-place list building.** The lists `extend` and `append` build in place
  are modelled as sequences that the loops reassign.
- **Statistical claims.** Bit balance, randomness quality, eventual
  termination of the debiaser and any security property are not stated.
