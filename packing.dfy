/**
 * The bit glue of the cipher: text to UTF-8 bytes to bits (eight per byte,
 * most significant first) and back. UTF-8 itself is Python's codec, outside
 * this model: the encoder of one character and the decoder of a byte string
 * are parameters, the decoder answering None where Python raises
 * UnicodeDecodeError.
 */
module Packing {
  import opened Wrappers
  import opened IntBits
  import opened Bits

  /** What `bits_to_str` returns when the bytes are not valid UTF-8. */
  const DecodeError: string := "[Hata: Karakter çözülemedi - Yanlış Anahtar?]"

  /** The eight bits of a byte, most significant first, denoting the byte. */
  function ByteBits(b: Byte): (bits: seq<Bit>)
    ensures |bits| == 8 && BitsValue(bits) == b
  {
    DigitsValue(b, 8);
    Pow2Facts();
    DivModUnique(b, 256, 0, b);
    Digits(b, 8)
  }

  /** The eight bits of a byte are its digits `bin(b)[2:]` zero-filled to eight. */
  lemma ByteBitsZeroFill(b: Byte)
    ensures ByteBits(b) == ZeroFill(Binary(b), 8)
  {
    var digits := Binary(b);
    Pow2Facts();
    BinaryLength(b, 8);
    LeadingZerosValue(8 - |digits|, digits);
    BitsValueInjective(ByteBits(b), ZeroFill(digits, 8));
  }

  /** The UTF-8 bytes of a text, the characters' encodings one after another. */
  function Utf8Bytes(text: string, encodeChar: char -> seq<Byte>): seq<Byte>
  {
    if text == [] then []
    else Utf8Bytes(text[..|text| - 1], encodeChar) + encodeChar(text[|text| - 1])
  }

  /** The bits of a byte string: eight per byte, in order. */
  function BytesBits(bytes: seq<Byte>): (bits: seq<Bit>)
    ensures |bits| == 8 * |bytes|
  {
    if bytes == [] then []
    else BytesBits(bytes[..|bytes| - 1]) + ByteBits(bytes[|bytes| - 1])
  }

  /** The bits `str_to_bits` produces for a text. */
  function TextBits(text: string, encodeChar: char -> seq<Byte>): (bits: seq<Bit>)
    ensures |bits| == 8 * |Utf8Bytes(text, encodeChar)|
  {
    BytesBits(Utf8Bytes(text, encodeChar))
  }

  /**
   * The bytes `bits_to_str` cuts a bit list into: the value of each whole
   * chunk of eight bits, in order; a shorter trailing chunk is dropped.
   */
  function Regroup(bits: seq<Bit>): (bytes: seq<Byte>)
    ensures |bytes| == |bits| / 8
    decreases |bits|
  {
    if |bits| < 8 then []
    else
      var chunk := bits[..8];
      BitsValueBound(chunk);
      Pow2Facts();
      [BitsValue(chunk)] + Regroup(bits[8..])
  }

  /** What `bits_to_str` returns: the decoded text, or the error message. */
  function BitsText(bits: seq<Bit>, decode: seq<Byte> -> Option<string>): string
  {
    match decode(Regroup(bits))
    case Some(text) => text
    case None => DecodeError
  }

  lemma {:induction false} Utf8BytesAppend(text: string, c: char, encodeChar: char -> seq<Byte>)
    ensures Utf8Bytes(text + [c], encodeChar) == Utf8Bytes(text, encodeChar) + encodeChar(c)
  {
    assert (text + [c])[..|text|] == text;
  }

  /** The bits of two byte strings placed one after the other. */
  lemma {:induction false} BytesBitsAppend(xs: seq<Byte>, ys: seq<Byte>)
    ensures BytesBits(xs + ys) == BytesBits(xs) + BytesBits(ys)
    decreases |ys|
  {
    if ys == [] {
      assert xs + ys == xs;
    } else {
      var init, last := ys[..|ys| - 1], ys[|ys| - 1];
      assert (xs + ys)[..|xs + ys| - 1] == xs + init;
      assert (xs + ys)[|xs + ys| - 1] == last;
      assert BytesBits(xs + ys) == BytesBits(xs + init) + ByteBits(last);
      BytesBitsAppend(xs, init);
      assert BytesBits(ys) == BytesBits(init) + ByteBits(last);
    }
  }

  /**
   * Regrouping the bits of a byte string, with fewer than eight bits after
   * them, gives back exactly the bytes.
   */
  lemma {:induction false} RegroupBytesBits(bytes: seq<Byte>, tail: seq<Bit>)
    requires |tail| < 8
    ensures Regroup(BytesBits(bytes) + tail) == bytes
    decreases |bytes|
  {
    if bytes != [] {
      var rest := bytes[1..];
      assert bytes == [bytes[0]] + rest;
      BytesBitsAppend([bytes[0]], rest);
      assert BytesBits([bytes[0]]) == ByteBits(bytes[0]) by {
        assert [bytes[0]][..0] == [];
      }
      var bits := BytesBits(bytes) + tail;
      assert bits == ByteBits(bytes[0]) + (BytesBits(rest) + tail);
      assert bits[..8] == ByteBits(bytes[0]);
      assert bits[8..] == BytesBits(rest) + tail;
      RegroupBytesBits(rest, tail);
    }
  }

  /** The bits of a text regroup into exactly its UTF-8 bytes. */
  lemma RegroupTextBits(text: string, encodeChar: char -> seq<Byte>)
    ensures Regroup(TextBits(text, encodeChar)) == Utf8Bytes(text, encodeChar)
  {
    var bytes := Utf8Bytes(text, encodeChar);
    assert BytesBits(bytes) + [] == BytesBits(bytes);
    RegroupBytesBits(bytes, []);
  }

  /**
   * `bits_to_str` undoes `str_to_bits` whenever the decoder reads the
   * encoder's bytes back as the text, as UTF-8 does for every text Python
   * can encode.
   */
  lemma TextBitsRoundTrip(text: string, encodeChar: char -> seq<Byte>, decode: seq<Byte> -> Option<string>)
    requires decode(Utf8Bytes(text, encodeChar)) == Some(text)
    ensures BitsText(TextBits(text, encodeChar), decode) == text
  {
    RegroupTextBits(text, encodeChar);
  }

  /** Bits that do not regroup into decodable bytes give the error message. */
  lemma BitsTextError(bits: seq<Bit>, decode: seq<Byte> -> Option<string>)
    requires decode(Regroup(bits)) == None
    ensures BitsText(bits, decode) == DecodeError
  {
  }
}
