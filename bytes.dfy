/** Bytes, bits and the fixed-width fields of the two container formats. */
module Bytes {

  /** One element of a Node.js `Buffer`. */
  type byte = x: int | 0 <= x < 256

  /** One character of the `"0"`/`"1"` strings the Huffman codec builds its
      bit streams from: 0 stands for `"0"`, 1 for `"1"`. */
  type Bit = x: int | 0 <= x < 2

  /** The three-byte ASCII header `"HUF"` of a Huffman container. */
  const HufMagic: seq<byte> := [72, 85, 70]

  /** The three-byte ASCII header `"RLE"` of a run-length container. */
  const RleMagic: seq<byte> := [82, 76, 69]

  function Pow2(n: nat): (r: nat)
    ensures r >= 1
  {
    if n == 0 then 1 else 2 * Pow2(n - 1)
  }

  /** `parseInt(bits, 2)`: the bits read as an unsigned binary numeral, most
      significant bit first. */
  function BitsValue(s: seq<Bit>): (v: nat)
    ensures v < Pow2(|s|)
  {
    if s == [] then 0 else 2 * BitsValue(s[..|s| - 1]) + s[|s| - 1]
  }

  /** The `n` low-order bits of `v`, most significant first; for `v < 2^n` this
      is `v.toString(2).padStart(n, "0")`. */
  function ToBits(v: nat, n: nat): (s: seq<Bit>)
    ensures |s| == n
  {
    if n == 0 then [] else ToBits(v / 2, n - 1) + [v % 2]
  }

  /** Reading a bit string as a number and writing the number back with as
      many digits gives the bit string again. */
  lemma {:induction false} ToBitsOfValue(s: seq<Bit>)
    ensures ToBits(BitsValue(s), |s|) == s
  {
    if s != [] {
      var init, last := s[..|s| - 1], s[|s| - 1];
      assert s == init + [last];
      var v := BitsValue(init);
      assert BitsValue(s) == 2 * v + last;
      assert (2 * v + last) / 2 == v && (2 * v + last) % 2 == last;
      ToBitsOfValue(init);
    }
  }

  /** Writing a number below `2^n` with `n` digits and reading it back gives
      the number again. */
  lemma {:induction false} ValueOfToBits(v: nat, n: nat)
    requires v < Pow2(n)
    ensures BitsValue(ToBits(v, n)) == v
  {
    if n > 0 {
      var s := ToBits(v, n);
      var half := v / 2;
      assert v == 2 * half + v % 2;
      assert half < Pow2(n - 1);
      assert s[..n - 1] == ToBits(half, n - 1);
      ValueOfToBits(half, n - 1);
    }
  }

  /** `b.toString(2).padStart(8, "0")`: the eight bits of a byte, most
      significant first. */
  function ByteBits(b: byte): (s: seq<Bit>)
    ensures |s| == 8
    ensures BitsValue(s) == b
  {
    ValueOfToBits(b, 8);
    ToBits(b, 8)
  }

  /** `parseInt(bits, 2)` on a slice of eight bits: the byte whose eight
      bits, most significant first, are `s`. */
  function ByteOf(s: seq<Bit>): (b: byte)
    requires |s| == 8
    ensures ByteBits(b) == s
  {
    ToBitsOfValue(s);
    assert Pow2(8) == 256;
    BitsValue(s)
  }

  /** `writeUInt32BE(n, 0)`: four bytes, most significant first. */
  function U32BE(n: nat): (r: seq<byte>)
    requires n < 0x1_0000_0000
    ensures |r| == 4
    ensures ReadU32BE(r) == n
  {
    var r0 := n % 0x100_0000;
    var r1 := r0 % 0x1_0000;
    [n / 0x100_0000, r0 / 0x1_0000, r1 / 0x100, r1 % 0x100]
  }

  /** `readUInt32BE`: four bytes read as a big-endian unsigned number. */
  function ReadU32BE(s: seq<byte>): (n: nat)
    requires |s| == 4
    ensures n < 0x1_0000_0000
  {
    (s[0] as int) * 0x100_0000 + (s[1] as int) * 0x1_0000 + (s[2] as int) * 0x100 + s[3] as int
  }
}
