/**
 * The cipher object: a generator state that every raw step overwrites, the
 * seed it is reset to before each keystream, and the mask. Encryption XORs
 * the bits of the plaintext with the keystream and writes the result as one
 * hex number; decryption reads the number back, pads its binary digits to
 * whole bytes and XORs again.
 */
module CollatzCipher {
  import opened Wrappers
  import opened IntBits
  import opened Bits
  import opened Generator
  import opened Packing

  /**
   * A ciphertext as text: "" (what an empty plaintext encrypts to), hex
   * digits denoting `value`, or text that `int(..., 16)` rejects. The
   * digits themselves are not modelled, only the number they denote.
   */
  datatype HexText = Empty | Hex(value: nat) | Malformed

  /** What `decrypt` returns for text that is not a hex number. */
  const InvalidHex: string := "Hata: Geçersiz Hex"

  /**
   * The bits `decrypt` reads from the number a ciphertext denotes: its
   * binary digits, with zeros prepended up to the next multiple of eight.
   * They are whole bytes, denote the number, and carry fewer than eight
   * padding zeros.
   */
  function CipherBits(v: nat): (bits: seq<Bit>)
    ensures |bits| % 8 == 0 && BitsValue(bits) == v
    ensures |Binary(v)| <= |bits| < |Binary(v)| + 8
  {
    var digits := Binary(v);
    var padding := (8 - |digits| % 8) % 8;
    LeadingZerosValue(padding, digits);
    Zeros(padding) + digits
  }

  /** The padding of a digit string that lost z < 8 leading zeros of whole bytes is z. */
  lemma PaddingRestores(n: nat, z: nat)
    requires n % 8 == 0 && z < 8 && z < n
    ensures (8 - (n - z) % 8) % 8 == z
  {
    var m := n / 8;
    assert n == 8 * m;
    if z == 0 {
      DivModUnique(n - z, 8, m, 0);
    } else {
      DivModUnique(n - z, 8, m - 1, 8 - z);
    }
  }

  /**
   * Whole bytes whose first byte is not zero are read back exactly: the
   * padding restores just the zeros the number dropped.
   */
  lemma CipherBitsRecover(e: seq<Bit>, z: nat)
    requires |e| % 8 == 0 && z < 8 && z < |e| && e[z] == 1
    requires forall i :: 0 <= i < z ==> e[i] == 0
    ensures CipherBits(BitsValue(e)) == e
  {
    var rest := e[z..];
    assert e == Zeros(z) + rest;
    LeadingZerosValue(z, rest);
    assert rest[0] == 1;
    BinaryOfValue(rest);
    PaddingRestores(|e|, z);
  }

  /**
   * A ciphertext whose first byte is zero is not read back: the number
   * drops the whole byte and the padding cannot restore it, so decryption
   * reads at least one byte fewer than were encrypted.
   */
  lemma LeadingZeroByteLost(e: seq<Bit>)
    requires |e| % 8 == 0 && |e| >= 16
    requires forall i :: 0 <= i < 8 ==> e[i] == 0
    ensures |CipherBits(BitsValue(e))| <= |e| - 8
  {
    var rest := e[8..];
    assert e[..8] == Zeros(8);
    assert e == e[..8] + rest;
    LeadingZerosValue(8, rest);
    BitsValueBound(rest);
    BinaryLength(BitsValue(rest), |rest|);
    WholeBytesBelow(|CipherBits(BitsValue(e))|, |e|);
  }

  lemma WholeBytesBelow(n: nat, m: nat)
    requires n % 8 == 0 && m % 8 == 0 && n < m
    ensures n <= m - 8
  {
    var a, b := n / 8, m / 8;
    assert n == 8 * a && m == 8 * b;
  }

  /**
   * Decryption undoes encryption when the ciphertext's first byte is not
   * zero and the decoder reads the encoder's bytes back as the text: the
   * same keystream is XORed twice and the bits regroup into the bytes.
   */
  lemma DecryptEncrypt(text: string, encodeChar: char -> seq<Byte>, decode: seq<Byte> -> Option<string>,
                       keystream: seq<Bit>, z: nat)
    requires |keystream| == |TextBits(text, encodeChar)|
    requires decode(Utf8Bytes(text, encodeChar)) == Some(text)
    requires var e := XorBits(TextBits(text, encodeChar), keystream);
             z < 8 && z < |e| && e[z] == 1 && forall i :: 0 <= i < z ==> e[i] == 0
    ensures var bits := CipherBits(BitsValue(XorBits(TextBits(text, encodeChar), keystream)));
            BitsText(XorBits(bits, keystream), decode) == text
  {
    var plain := TextBits(text, encodeChar);
    var e := XorBits(plain, keystream);
    CipherBitsRecover(e, z);
    XorBitsInvolution(plain, keystream);
    TextBitsRoundTrip(text, encodeChar, decode);
  }

  class CollatzXPCipher {
    /** The generator state: overwritten by every raw step, reset before every keystream. */
    var state: nat
    const originalSeed: nat
    const mask: nat

    /** A cipher starts at |seed| (12345 for seed 0) and keeps the mask as given. */
    constructor (seed: int, mask: nat := DefaultMask)
      ensures originalSeed == NormalizeSeed(seed) && state == originalSeed
      ensures this.mask == mask
    {
      var s := if seed != 0 then (if seed < 0 then -seed else seed) else FallbackSeed;
      state := s;
      originalSeed := s;
      this.mask := mask;
    }

    /**
     * `_collatz_chaos_step`: one Collatz transition of the state, the
     * anti-collapse guard, then the raw bit read from the new state
     * through a shadow copy, which is bit 27 of state XOR mask.
     */
    method ChaosStep() returns (bit: Bit)
      modifies this`state
      ensures state == NextState(old(state), mask) && state != 0
      ensures bit == OutputBit(state, mask)
    {
      if state % 2 == 0 {
        state := state / 2;
      } else {
        state := 3 * state + 1;
      }
      if state <= 1 {
        state := (state + mask + Salt) % Word;
        if state == 0 {
          state := FallbackSeed;
        }
      }
      var shadow := Xor(state, mask);
      shadow := RotateLeft(shadow, OutputShift);
      bit := shadow % 2;
    }

    /**
     * `_get_balanced_bit`: steps in pairs until the two raw bits differ and
     * returns the first of them, nudging the state after 1001 discarded
     * pairs in a row. The loop has no bound of its own, so a caller must
     * start from a state from which it returns.
     */
    method BalancedBit() returns (bit: Bit)
      requires Halts(state, mask)
      modifies this`state
      ensures Draw(bit, state) == BalancedDraw(old(state), mask)
    {
      ghost var fuel: nat :| Debias(state, mask, 0, fuel).Some?;
      ghost var d := BalancedDraw(state, mask);
      assert Debias(state, mask, 0, fuel) == Some(d);
      var loopGuard := 0;
      while true
        invariant loopGuard <= GuardLimit
        invariant Debias(state, mask, loopGuard, fuel) == Some(d)
        invariant d == BalancedDraw(old(state), mask)
        decreases fuel
      {
        ghost var s0, guard0 := state, loopGuard;
        var b1 := ChaosStep();
        ghost var s1 := state;
        var b2 := ChaosStep();
        DebiasRound(s0, mask, guard0, fuel, s1, state);
        ghost var round := Round(s0, mask, guard0);
        if b1 == 0 && b2 == 1 {
          return 0;
        } else if b1 == 1 && b2 == 0 {
          return 1;
        }
        loopGuard := loopGuard + 1;
        if loopGuard > GuardLimit {
          state := (state + loopGuard) % Word;
          loopGuard := 0;
        }
        assert round == Discarded(state, loopGuard);
        fuel := fuel - 1;
      }
    }

    /**
     * `generate_keystream`: reset the state to the original seed and draw
     * `length` balanced bits. The result is the keystream of the seed, so
     * every call with one length returns the same list.
     */
    method GenerateKeystream(length: nat) returns (keystream: seq<Bit>)
      requires Run(originalSeed, mask, length).Some?
      modifies this`state
      ensures Run(originalSeed, mask, length) == Some(Stream(keystream, state))
      ensures keystream == Keystream(originalSeed, mask, length) && |keystream| == length
    {
      state := originalSeed;
      keystream := [];
      for i := 0 to length
        invariant Run(originalSeed, mask, i) == Some(Stream(keystream, state))
      {
        RunPrefix(originalSeed, mask, i + 1, length);
        var bit := BalancedBit();
        keystream := keystream + [bit];
      }
    }

    /** `str_to_bits`: the eight bits of every UTF-8 byte of the text, in order. */
    method StrToBits(text: string, encodeChar: char -> seq<Byte>) returns (bits: seq<Bit>)
      ensures bits == TextBits(text, encodeChar)
      ensures Regroup(bits) == Utf8Bytes(text, encodeChar)
    {
      bits := [];
      for i := 0 to |text|
        invariant bits == TextBits(text[..i], encodeChar)
      {
        var bytesVal := encodeChar(text[i]);
        for j := 0 to |bytesVal|
          invariant bits == TextBits(text[..i], encodeChar) + BytesBits(bytesVal[..j])
        {
          var binVal := ByteBits(bytesVal[j]);
          assert bytesVal[..j + 1][..j] == bytesVal[..j];
          bits := bits + binVal;
        }
        assert text[..i + 1] == text[..i] + [text[i]];
        assert bytesVal[..|bytesVal|] == bytesVal;
        Utf8BytesAppend(text[..i], text[i], encodeChar);
        BytesBitsAppend(Utf8Bytes(text[..i], encodeChar), bytesVal);
      }
      assert text[..|text|] == text;
      RegroupTextBits(text, encodeChar);
    }

    /**
     * `bits_to_str`: cut the bits into chunks of eight, stop at a shorter
     * chunk, and decode the bytes; undecodable bytes give the error message.
     */
    method BitsToStr(bits: seq<Bit>, decode: seq<Byte> -> Option<string>) returns (text: string)
      ensures text == BitsText(bits, decode)
      ensures decode(Regroup(bits)).None? ==> text == DecodeError
    {
      var byteArray: seq<Byte> := [];
      var i := 0;
      while i < |bits|
        invariant i <= |bits|
        invariant byteArray + Regroup(bits[i..]) == Regroup(bits)
        decreases |bits| - i
      {
        var byteChunk := bits[i..if i + 8 <= |bits| then i + 8 else |bits|];
        if |byteChunk| < 8 {
          break;
        }
        BitsValueBound(byteChunk);
        Pow2Facts();
        var byteVal: Byte := BitsValue(byteChunk);
        assert bits[i..][..8] == byteChunk && bits[i..][8..] == bits[i + 8..];
        byteArray := byteArray + [byteVal];
        i := i + 8;
      }
      assert byteArray == Regroup(bits);
      var decoded := decode(byteArray);
      if decoded.Some? {
        text := decoded.value;
      } else {
        text := DecodeError;
      }
    }

    /**
     * `encrypt`: XOR the plaintext's bits with the keystream of their
     * length; no bits give "", otherwise the hex number the bits denote.
     */
    method Encrypt(plaintext: string, encodeChar: char -> seq<Byte>) returns (ciphertext: HexText)
      requires Run(originalSeed, mask, |TextBits(plaintext, encodeChar)|).Some?
      modifies this`state
      ensures var bits := TextBits(plaintext, encodeChar);
              var encrypted := XorBits(bits, Keystream(originalSeed, mask, |bits|));
              && |encrypted| == |bits|
              && (ciphertext == if bits == [] then Empty else Hex(BitsValue(encrypted)))
      ensures state == Run(originalSeed, mask, |TextBits(plaintext, encodeChar)|).value.state
    {
      var plaintextBits := StrToBits(plaintext, encodeChar);
      var keystream := GenerateKeystream(|plaintextBits|);
      var encryptedBits := XorBits(plaintextBits, keystream);
      if encryptedBits == [] {
        return Empty;
      }
      return Hex(BitsValue(encryptedBits));
    }

    /**
     * `decrypt`: text that is not a hex number gives the error message and
     * leaves the state alone; otherwise the number's bits, padded to whole
     * bytes, are XORed with the keystream of their length and turned back
     * into text.
     */
    method Decrypt(ciphertext: HexText, decode: seq<Byte> -> Option<string>) returns (plaintext: string)
      requires ciphertext.Hex? ==> Run(originalSeed, mask, |CipherBits(ciphertext.value)|).Some?
      modifies this`state
      ensures !ciphertext.Hex? ==> plaintext == InvalidHex && state == old(state)
      ensures ciphertext.Hex? ==>
                var bits := CipherBits(ciphertext.value);
                plaintext == BitsText(XorBits(bits, Keystream(originalSeed, mask, |bits|)), decode)
    ensures ciphertext.Hex? ==> state == Run(originalSeed, mask, |CipherBits(ciphertext.value)|).value.state
    {
      if !ciphertext.Hex? {
        return InvalidHex;
      }
      var bitStr := Binary(ciphertext.value);
      var padding := (8 - |bitStr| % 8) % 8;
      var encryptedBits := Zeros(padding) + bitStr;
      var keystream := GenerateKeystream(|encryptedBits|);
      var decryptedBits := XorBits(encryptedBits, keystream);
      plaintext := BitsToStr(decryptedBits, decode);
    }
  }
}
