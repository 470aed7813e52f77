/** Bytes and the 32-bit integers that travel in network byte order. */
module Bytes {

  type Byte = b: int | 0 <= b < 256

  const TWO_31: int := 0x8000_0000
  const TWO_32: int := 0x1_0000_0000

  predicate IsInt32(x: int) {
    -TWO_31 <= x < TWO_31
  }

  /** static_cast<int32_t>: two's complement wrap-around. */
  function ToInt32(x: int): (r: int)
    ensures IsInt32(r)
    ensures (r - x) % TWO_32 == 0
    ensures IsInt32(x) ==> r == x
  {
    (x + TWO_31) % TWO_32 - TWO_31
  }

  function Word(b0: int, b1: int, b2: int, b3: int): int {
    b0 * 0x100_0000 + b1 * 0x1_0000 + b2 * 0x100 + b3
  }

  /** The four bytes that htobe32 and memcpy leave in the buffer, the most significant first. */
  function EncodeInt32(x: int): (bs: seq<Byte>)
    ensures |bs| == 4
  {
    var u := x % TWO_32;
    var u1 := u / 0x100;
    var u2 := u1 / 0x100;
    [u2 / 0x100, u2 % 0x100, u1 % 0x100, u % 0x100]
  }

  /** memcpy followed by be32toh. */
  function DecodeInt32(bs: seq<Byte>): (r: int)
    requires |bs| == 4
    ensures IsInt32(r)
  {
    ToInt32(Word(bs[0], bs[1], bs[2], bs[3]))
  }

  lemma DecodeEncode(x: int)
    ensures DecodeInt32(EncodeInt32(x)) == ToInt32(x)
  {
    MostSignificantFirst(x);
    ToInt32OfResidue(x);
  }

  /** Network byte order. */
  lemma MostSignificantFirst(x: int)
    ensures var bs := EncodeInt32(x); Word(bs[0], bs[1], bs[2], bs[3]) == x % TWO_32
  {
    WordOfDigits(x % TWO_32);
  }

  lemma ToInt32OfResidue(x: int)
    ensures ToInt32(x % TWO_32) == ToInt32(x)
  {
  }

  /** A cast before encoding changes nothing. */
  lemma EncodeCast(x: int)
    ensures EncodeInt32(ToInt32(x)) == EncodeInt32(x)
  {
    assert ToInt32(x) % TWO_32 == x % TWO_32;
  }

  lemma Halves(high: int, low: int)
    requires 0 <= low < 0x1_0000
    ensures (high * 0x1_0000 + low) % 0x1_0000 == low && (high * 0x1_0000 + low) / 0x1_0000 == high
  {
  }

  lemma Digits(u: int)
    ensures u == u / 0x100 * 0x100 + u % 0x100 && 0 <= u % 0x100 < 0x100
  {
  }

  lemma HalvesOfDigits(x: int)
    ensures Pair(x / 0x100 / 0x100 / 0x100, x / 0x100 / 0x100 % 0x100) == x / 0x1_0000
    ensures Pair(x / 0x100 % 0x100, x % 0x100) == x % 0x1_0000
  {
    var u1 := x / 0x100;
    var u2 := u1 / 0x100;
    Digits(x);
    Digits(u1);
    Digits(u2);
    Halves(u2, u1 % 0x100 * 0x100 + x % 0x100);
  }

  /** The two halves of an encoded word, each as two bytes. */
  lemma HalvesOnWire(x: int)
    requires 0 <= x < TWO_32
    ensures var bs := EncodeInt32(x);
            Pair(bs[0], bs[1]) == x / 0x1_0000 && Pair(bs[2], bs[3]) == x % 0x1_0000
  {
    assert x % TWO_32 == x;
    HalvesOfDigits(x);
  }

  function Pair(high: int, low: int): int {
    high * 0x100 + low
  }

  lemma WordOfDigits(u: int)
    ensures Word(u / 0x100 / 0x100 / 0x100, u / 0x100 / 0x100 % 0x100, u / 0x100 % 0x100, u % 0x100) == u
  {
  }

  lemma DigitsOfWord(b0: int, b1: Byte, b2: Byte, b3: Byte)
    ensures var u := Word(b0, b1, b2, b3);
            && u % 0x100 == b3
            && u / 0x100 % 0x100 == b2
            && u / 0x100 / 0x100 % 0x100 == b1
            && u / 0x100 / 0x100 / 0x100 == b0
  {
    var u := Word(b0, b1, b2, b3);
    var u1 := b0 * 0x1_0000 + b1 * 0x100 + b2;
    assert u == u1 * 0x100 + b3 && u / 0x100 == u1;
    var u2 := b0 * 0x100 + b1;
    assert u1 == u2 * 0x100 + b2 && u1 / 0x100 == u2;
  }

  lemma EncodeDecode(bs: seq<Byte>)
    requires |bs| == 4
    ensures EncodeInt32(DecodeInt32(bs)) == bs
  {
    var u := Word(bs[0], bs[1], bs[2], bs[3]);
    assert ToInt32(u) % TWO_32 == u;
    DigitsOfWord(bs[0], bs[1], bs[2], bs[3]);
  }

  /** Two different words never decode to the same integer. */
  lemma DecodeInjective(a: seq<Byte>, b: seq<Byte>)
    requires |a| == 4 == |b|
    requires DecodeInt32(a) == DecodeInt32(b)
    ensures a == b
  {
    EncodeDecode(a);
    EncodeDecode(b);
  }

  /** Casting to int32_t loses nothing of an unsigned 32-bit value. */
  lemma ToInt32Injective(x: int, y: int)
    requires 0 <= x < TWO_32 && 0 <= y < TWO_32
    requires ToInt32(x) == ToInt32(y)
    ensures x == y
  {
  }
}
