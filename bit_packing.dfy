/** The bit stream of the Huffman container: how `huffmanCompress` pads the
    concatenated codes to whole bytes and packs them, and how
    `huffmanDecompress` unpacks the payload and drops the padding again
    (backend/app.js). */
module BitPacking {
  import opened Bytes

  /** `(8 - (bits.length % 8)) % 8`: the number of zero bits appended so that
      the stream fills whole bytes. */
  function PadCount(n: nat): (pad: nat)
    ensures pad < 8 && (n + pad) % 8 == 0
  {
    (8 - n % 8) % 8
  }

  /** `"0".repeat(n)`. */
  function Zeros(n: nat): (z: seq<Bit>)
    ensures |z| == n && forall i | 0 <= i < n :: z[i] == 0
  {
    seq(n, _ => 0)
  }

  /** The bytes `parseInt(bits.slice(i, i + 8), 2)` for i = 0, 8, 16, ...:
      each group of eight bits, most significant first, becomes one byte. */
  function Pack(s: seq<Bit>): (p: seq<byte>)
    requires |s| % 8 == 0
    ensures |p| == |s| / 8
  {
    if s == [] then [] else Pack(s[..|s| - 8]) + [ByteOf(s[|s| - 8..])]
  }

  /** `[...compressed].map(b => b.toString(2).padStart(8, "0")).join("")`:
      the eight bits of every byte, in order. */
  function Unpack(p: seq<byte>): (s: seq<Bit>)
    ensures |s| == 8 * |p|
  {
    if p == [] then [] else Unpack(p[..|p| - 1]) + ByteBits(p[|p| - 1])
  }

  /** Where `bits.slice(0, bits.length - pad)` ends: a negative end counts
      back from the length, and one still negative after that is 0. */
  function SliceEnd(len: nat, pad: nat): (end: nat)
    ensures end <= len
    ensures pad <= len ==> end == len - pad
    ensures pad > 2 * len ==> end == 0
  {
    if pad <= len then len - pad
    else if pad <= 2 * len then 2 * len - pad
    else 0
  }

  /** The unpacked payload without its padding. */
  function DropPad(bits: seq<Bit>, pad: nat): (r: seq<Bit>)
    ensures r <= bits
    ensures pad <= |bits| ==> |r| == |bits| - pad
  {
    bits[..SliceEnd(|bits|, pad)]
  }

  /** Unpacking packed bits gives them back. */
  lemma {:induction false} UnpackPack(s: seq<Bit>)
    requires |s| % 8 == 0
    ensures Unpack(Pack(s)) == s
    decreases |s|
  {
    if s != [] {
      var init, last := s[..|s| - 8], s[|s| - 8..];
      var p := Pack(s);
      assert p == Pack(init) + [ByteOf(last)];
      assert p[..|p| - 1] == Pack(init) && p[|p| - 1] == ByteOf(last);
      assert Unpack(p) == Unpack(Pack(init)) + last;
      UnpackPack(init);
      assert s == init + last;
    }
  }

  /** Packing unpacked bytes gives them back. */
  lemma {:induction false} PackUnpack(p: seq<byte>)
    ensures Pack(Unpack(p)) == p
  {
    if p != [] {
      var s := Unpack(p);
      var init := p[..|p| - 1];
      assert s[..|s| - 8] == Unpack(init);
      assert s[|s| - 8..] == ByteBits(p[|p| - 1]);
      assert BitsValue(ByteBits(p[|p| - 1])) == p[|p| - 1];
      PackUnpack(init);
      assert p == init + [p[|p| - 1]];
    }
  }

  /** The padding written by the compressor is dropped exactly by the
      decompressor: the round trip of the bit stream. */
  lemma {:induction false} PaddedRoundTrip(bits: seq<Bit>, pad: nat)
    requires pad == PadCount(|bits|)
    ensures DropPad(Unpack(Pack(bits + Zeros(pad))), pad) == bits
  {
    var padded := bits + Zeros(pad);
    UnpackPack(padded);
    var unpacked := Unpack(Pack(padded));
    assert unpacked == padded;
    assert SliceEnd(|unpacked|, pad) == |bits|;
    assert padded[..|bits|] == bits;
  }

  /** Byte `j` of the packed stream is made of bits `8j` to `8j + 8`. */
  lemma {:induction false} PackAt(s: seq<Bit>, j: nat)
    requires |s| % 8 == 0 && j < |s| / 8
    ensures 8 * j + 8 <= |s| && Pack(s)[j] == ByteOf(s[8 * j..8 * j + 8])
    decreases |s|
  {
    var n := |s| / 8;
    assert |s| == 8 * n;
    var init := s[..|s| - 8];
    assert |init| == 8 * (n - 1) && |init| / 8 == n - 1;
    assert Pack(s) == Pack(init) + [ByteOf(s[|s| - 8..])];
    if j < n - 1 {
      PackAt(init, j);
      assert init[8 * j..8 * j + 8] == s[8 * j..8 * j + 8];
    } else {
      assert 8 * j == |s| - 8 && |Pack(init)| == j;
      assert Pack(s)[j] == ByteOf(s[|s| - 8..]);
      assert s[8 * j..8 * j + 8] == s[|s| - 8..];
    }
  }

  /** The stride-8 loop of `huffmanCompress`: allocate `bits.length / 8`
      bytes and fill byte `i / 8` from bits `i` to `i + 8`. */
  method PackBytes(padded: seq<Bit>) returns (payload: seq<byte>)
    requires |padded| % 8 == 0
    ensures payload == Pack(padded)
  {
    var n := |padded| / 8;
    var compressed := new byte[n];
    var i := 0;
    ghost var k := 0;
    while i < |padded|
      invariant i == 8 * k && k <= n
      invariant forall j | 0 <= j < k :: compressed[j] == ByteOf(padded[8 * j..8 * j + 8])
    {
      assert i / 8 == k;
      compressed[i / 8] := ByteOf(padded[i..i + 8]);
      i, k := i + 8, k + 1;
    }
    payload := compressed[..];
    forall j | 0 <= j < n ensures payload[j] == Pack(padded)[j] {
      PackAt(padded, j);
    }
  }

  /** `huffmanCompress` from the padding to the payload: append `pad` zero
      bits and pack the padded stream. */
  method PackBits(bits: seq<Bit>) returns (pad: nat, payload: seq<byte>)
    ensures pad == PadCount(|bits|)
    ensures payload == Pack(bits + Zeros(pad))
    ensures DropPad(Unpack(payload), pad) == bits
  {
    pad := PadCount(|bits|);
    payload := PackBytes(bits + Zeros(pad));
    PaddedRoundTrip(bits, pad);
  }
}
