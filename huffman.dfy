/** The Huffman container (`huffmanCompress` and `huffmanDecompress` in
    backend/app.js): the header `"HUF"`, the length of the serialized tree
    as a big-endian 32-bit number, the serialized tree, the number of
    padding bits, and the packed code stream. */
module Huffman {
  import opened Errors
  import opened Bytes
  import opened HuffmanTree
  import opened HuffmanCodes
  import opened TreeCodec
  import opened BitPacking

  /** `[...buffer].map((byte) => codeMap[byte]).join("")`: the codes of the
      input's bytes, one after the other. */
  function Encode(codes: map<byte, seq<Bit>>, s: seq<byte>): (r: seq<Bit>)
    requires forall i | 0 <= i < |s| :: s[i] in codes
    ensures (forall b | b in codes :: codes[b] != []) ==> |r| >= |s|
  {
    if s == [] then [] else codes[s[0]] + Encode(codes, s[1..])
  }

  /** The code stream `huffmanCompress` builds for a non-empty input. */
  function CodeStream(buf: seq<byte>): seq<Bit>
    requires |buf| > 0
  {
    TreeBytes(buf);
    Encode(Codes(HuffmanTreeOf(buf), []), buf)
  }

  /** The serialized tree is at most 767 bytes long, so its length always
      fits the 32-bit field. */
  lemma {:induction false} TreeSizeBound(buf: seq<byte>)
    requires |buf| > 0
    ensures |Serialize(HuffmanTreeOf(buf))| <= 767
  {
    TreeBytes(buf);
    DistinctBound(buf);
    SerializeLength(HuffmanTreeOf(buf));
  }

  /** The layout of a Huffman container: `Buffer.concat([head, treeSize,
      treeBuffer, padBuffer, compressed])`. */
  function Frame(tree: seq<byte>, pad: byte, payload: seq<byte>): (r: seq<byte>)
    requires |tree| < 0x1_0000_0000
    ensures |r| == 8 + |tree| + |payload|
  {
    HufMagic + U32BE(|tree|) + tree + [pad] + payload
  }

  /** Where the fields of a container lie. */
  lemma {:induction false} FrameFields(tree: seq<byte>, pad: byte, payload: seq<byte>)
    requires |tree| < 0x1_0000_0000
    ensures var out := Frame(tree, pad, payload);
            |out| == 8 + |tree| + |payload| &&
            out[..3] == HufMagic && out[3..7] == U32BE(|tree|) &&
            out[7..7 + |tree|] == tree && out[7 + |tree|] == pad &&
            out[8 + |tree|..] == payload
  {
    var out := Frame(tree, pad, payload);
    var head := HufMagic + U32BE(|tree|);
    assert out == head + tree + [pad] + payload;
    assert out[..3] == head[..3];
    assert out[3..7] == head[3..7];
  }

  /** The buffer `huffmanCompress` returns for a non-empty input. */
  function Container(buf: seq<byte>): seq<byte>
    requires |buf| > 0
  {
    var bits := CodeStream(buf);
    var pad := PadCount(|bits|);
    TreeSizeBound(buf);
    Frame(Serialize(HuffmanTreeOf(buf)), pad, Pack(bits + Zeros(pad)))
  }

  function Min(a: nat, b: nat): nat {
    if a <= b then a else b
  }

  /** The first half of `huffmanDecompress`: check the header, read the tree
      length (a `RangeError` when the buffer is shorter than seven bytes),
      deserialize the bytes that `slice(7, 7 + treeSize)` keeps, and unpack
      the payload after the padding byte without its padding. When the
      padding byte is missing, `bits.length - undefined` is `NaN` and the
      slice keeps no bits. */
  function Unframe(buf: seq<byte>): (r: Result<(Tree, seq<Bit>)>)
    ensures (|buf| < 3 || buf[..3] != HufMagic) ==> r == Failure(InvalidHuffmanFile)
  {
    if |buf| < 3 || buf[..3] != HufMagic then Failure(InvalidHuffmanFile)
    else if |buf| < 7 then Failure(OutOfRange)
    else
      var size := ReadU32BE(buf[3..7]);
      var root :- Deserialize(buf[7..Min(7 + size, |buf|)]);
      var payload := buf[Min(8 + size, |buf|)..];
      var bits := if 7 + size < |buf| then DropPad(Unpack(payload), buf[7 + size]) else [];
      Success((root, bits))
  }

  /** Puts `prefix` in front of the output of a successful walk. */
  function Prepend(prefix: seq<byte>, r: Result<seq<byte>>): Result<seq<byte>> {
    match r
    case Success(out) => Success(prefix + out)
    case Failure(e) => Failure(e)
  }

  /** The `for (const bit of bits)` loop of `huffmanDecompress`, from the
      current `node` on: each bit steps to the left (0) or right (1) child;
      reaching a leaf emits its byte and goes back to the root. Stepping from
      a leaf reaches `null`, and reading `null.left` is a `TypeError`. Bits
      left over inside the tree are ignored. */
  function Walk(root: Tree, node: Tree, bits: seq<Bit>): (r: Result<seq<byte>>)
    ensures r.Failure? ==> r.error == NullNode && (node.Leaf? || root.Leaf?)
    decreases |bits|
  {
    if bits == [] then Success([])
    else if node.Leaf? then Failure(NullNode)
    else
      var next := if bits[0] == 0 then node.left else node.right;
      if next.Leaf? then Prepend([next.value], Walk(root, root, bits[1..]))
      else Walk(root, next, bits[1..])
  }

  /** `huffmanDecompress` as a function of its input. */
  function Decoded(buf: seq<byte>): (r: Result<seq<byte>>)
    ensures (|buf| < 3 || buf[..3] != HufMagic) ==> r == Failure(InvalidHuffmanFile)
    ensures 3 <= |buf| < 7 && buf[..3] == HufMagic ==> r == Failure(OutOfRange)
  {
    var framed :- Unframe(buf);
    Walk(framed.0, framed.0, framed.1)
  }

  /** Following the code of a byte from `node` emits that byte and returns
      to the root. */
  lemma {:induction false} WalkPath(root: Tree, node: Tree, p: seq<Bit>, b: byte, rest: seq<Bit>)
    requires p != [] && PathTo(node, p, b)
    ensures Walk(root, node, p + rest) == Prepend([b], Walk(root, root, rest))
    decreases |p|
  {
    var next := if p[0] == 0 then node.left else node.right;
    assert (p + rest)[0] == p[0];
    assert (p + rest)[1..] == p[1..] + rest;
    if p[1..] != [] {
      WalkPath(root, next, p[1..], b, rest);
    }
  }

  /** Walking the encoding of an input under a code table whose codes are
      non-empty paths to their bytes gives the input back. */
  lemma {:induction false} WalkEncoded(root: Tree, codes: map<byte, seq<Bit>>, s: seq<byte>)
    requires forall i | 0 <= i < |s| :: s[i] in codes
    requires forall b | b in codes :: codes[b] != [] && PathTo(root, codes[b], b)
    ensures Walk(root, root, Encode(codes, s)) == Success(s)
  {
    if s != [] {
      WalkPath(root, root, codes[s[0]], s[0], Encode(codes, s[1..]));
      WalkEncoded(root, codes, s[1..]);
      assert s == [s[0]] + s[1..];
    }
  }

  /** An input whose bytes all have the empty code encodes to no bits. */
  lemma {:induction false} EncodeEmptyCodes(codes: map<byte, seq<Bit>>, s: seq<byte>)
    requires forall i | 0 <= i < |s| :: s[i] in codes && codes[s[i]] == []
    ensures Encode(codes, s) == []
  {
    if s != [] {
      EncodeEmptyCodes(codes, s[1..]);
    }
  }

  /** Reading a container back: the header checks out, the length field
      gives the tree's length, the tree deserializes, and the payload is
      unpacked without its padding. */
  lemma {:induction false} UnframeFrame(tree: seq<byte>, t: Tree, pad: byte, payload: seq<byte>)
    requires |tree| < 0x1_0000_0000
    requires Deserialize(tree) == Success(t)
    ensures Unframe(Frame(tree, pad, payload)) == Success((t, DropPad(Unpack(payload), pad)))
  {
    var out := Frame(tree, pad, payload);
    FrameFields(tree, pad, payload);
    assert ReadU32BE(out[3..7]) == |tree|;
    assert Min(7 + |tree|, |out|) == 7 + |tree|;
    assert Min(8 + |tree|, |out|) == 8 + |tree|;
  }

  /** The decompressor reads back the tree's shape and the code stream
      from the container. */
  lemma {:induction false} UnframeContainer(buf: seq<byte>)
    requires |buf| > 0
    ensures Unframe(Container(buf)) == Success((Shape(HuffmanTreeOf(buf)), CodeStream(buf)))
  {
    var tree := Serialize(HuffmanTreeOf(buf));
    var bits := CodeStream(buf);
    var pad := PadCount(|bits|);
    TreeSizeBound(buf);
    DeserializeSerialized(HuffmanTreeOf(buf));
    UnframeFrame(tree, Shape(HuffmanTreeOf(buf)), pad, Pack(bits + Zeros(pad)));
    PaddedRoundTrip(bits, pad);
  }

  /** Every code of a tree with an internal root is a non-empty path to
      its byte in the tree's shape. */
  lemma {:induction false} CodesArePaths(root: Tree)
    requires root.Node?
    ensures forall b | b in Codes(root, []) ::
              Codes(root, [])[b] != [] && PathTo(Shape(root), Codes(root, [])[b], b)
  {
    var codes := Codes(root, []);
    CodesNonEmpty(root);
    forall b | b in codes ensures codes[b] != [] && PathTo(Shape(root), codes[b], b) {
      CodeIsPath(root, [], b);
      assert codes[b][0..] == codes[b];
      PathToShape(root, codes[b], b);
    }
  }

  /** Walking the code stream of an input with two different bytes gives
      the input back. */
  lemma {:induction false} WalkCodeStream(buf: seq<byte>)
    requires |buf| > 0 && TwoDistinct(buf)
    ensures Walk(Shape(HuffmanTreeOf(buf)), Shape(HuffmanTreeOf(buf)), CodeStream(buf)) == Success(buf)
  {
    var root := HuffmanTreeOf(buf);
    var codes := Codes(root, []);
    assert forall i | 0 <= i < |buf| :: buf[i] in codes by {
      TreeBytes(buf);
    }
    assert root.Node? by {
      RootIsNode(buf);
    }
    CodesArePaths(root);
    WalkEncoded(Shape(root), codes, buf);
  }

  /** For an input made of one repeated byte the tree is a single leaf and
      the code stream is empty. */
  lemma {:induction false} CodeStreamOfRepeatedByte(buf: seq<byte>)
    requires |buf| > 0 && !TwoDistinct(buf)
    ensures CodeStream(buf) == []
  {
    var root := HuffmanTreeOf(buf);
    var codes := Codes(root, []);
    RootIsNode(buf);
    forall i | 0 <= i < |buf| ensures buf[i] in codes && codes[buf[i]] == [] {
      assert buf[i] == buf[0];
    }
    EncodeEmptyCodes(codes, buf);
  }

  /** The round trip of the Huffman container: decompressing what the
      compressor produced gives the input back when it holds two different
      bytes. An input made of one repeated byte gets the empty code, so its
      container carries no bits and decompresses to an empty output. */
  lemma {:induction false} HuffmanRoundTrip(buf: seq<byte>)
    requires |buf| > 0
    ensures TwoDistinct(buf) ==> Decoded(Container(buf)) == Success(buf)
    ensures !TwoDistinct(buf) ==> Decoded(Container(buf)) == Success([])
  {
    UnframeContainer(buf);
    if TwoDistinct(buf) {
      WalkCodeStream(buf);
    } else {
      CodeStreamOfRepeatedByte(buf);
    }
  }

  /** Input made of one repeated byte does not survive the round trip. */
  lemma {:induction false} RepeatedByteIsLost()
    ensures Decoded(Container([7, 7, 7, 7])) == Success([])
  {
    var buf: seq<byte> := [7, 7, 7, 7];
    assert !TwoDistinct(buf);
    HuffmanRoundTrip(buf);
  }

  /** A buffer that does not start with `"HUF"` is rejected before anything
      else is read. */
  lemma {:induction false} RejectsForeignHeader(buf: seq<byte>)
    requires |buf| < 3 || buf[..3] != HufMagic
    ensures Decoded(buf) == Failure(InvalidHuffmanFile)
  {
  }

  /** Bits that stop partway along a code are dropped without an error:
      the walk ends inside the tree and emits nothing for them. */
  lemma {:induction false} PartialCodeDropped(root: Tree, node: Tree, p: seq<Bit>, q: seq<Bit>, b: byte)
    requires q != [] && PathTo(node, p + q, b)
    ensures Walk(root, node, p) == Success([])
    decreases |p|
  {
    if p != [] {
      var next := if p[0] == 0 then node.left else node.right;
      assert (p + q)[0] == p[0] && (p + q)[1..] == p[1..] + q;
      assert next.Node?;
      PartialCodeDropped(root, next, p[1..], q, b);
    }
  }

  /** A container cut off inside its tree: the length field then claims
      more bytes than are left. The cut is rejected as a malformed tree
      unless only the tree's final byte is missing; then the last leaf reads
      0, the padding byte and the payload are gone, and the output is
      empty. */
  lemma {:induction false} TruncatedFrame(t: Tree, pad: byte, payload: seq<byte>, k: nat)
    requires |Serialize(t)| < 0x1_0000_0000 && k < |Serialize(t)|
    ensures var cut := Frame(Serialize(t), pad, payload)[..7 + k];
            (k < |Serialize(t)| - 1 ==> Decoded(cut) == Failure(MalformedTree)) &&
            (k == |Serialize(t)| - 1 ==> Decoded(cut) == Success([]))
  {
    var tree := Serialize(t);
    var cut := Frame(tree, pad, payload)[..7 + k];
    CutFields(tree, pad, payload, k);
    assert ReadU32BE(cut[3..7]) == |tree|;
    assert Min(7 + |tree|, |cut|) == 7 + k;
    TruncatedTreeRejected(t, k);
  }

  /** Where the fields of a container cut off inside its tree lie. */
  lemma {:induction false} CutFields(tree: seq<byte>, pad: byte, payload: seq<byte>, k: nat)
    requires |tree| < 0x1_0000_0000 && k < |tree|
    ensures var cut := Frame(tree, pad, payload)[..7 + k];
            |cut| == 7 + k && cut[..3] == HufMagic && cut[3..7] == U32BE(|tree|) &&
            cut[7..7 + k] == tree[..k]
  {
    var head := HufMagic + U32BE(|tree|);
    var rest := tree + ([pad] + payload);
    var cut := Frame(tree, pad, payload)[..7 + k];
    assert Frame(tree, pad, payload) == head + rest;
    assert rest[..k] == tree[..k];
    assert cut == head + rest[..k];
    assert cut[..3] == head[..3];
    assert cut[3..7] == head[3..7];
  }

  /** The compressor's output cut off inside its tree, as above. */
  lemma {:induction false} TruncatedContainer(buf: seq<byte>, k: nat)
    requires |buf| > 0 && k < |Serialize(HuffmanTreeOf(buf))|
    ensures var tree := Serialize(HuffmanTreeOf(buf));
            (k < |tree| - 1 ==> Decoded(Container(buf)[..7 + k]) == Failure(MalformedTree)) &&
            (k == |tree| - 1 ==> Decoded(Container(buf)[..7 + k]) == Success([]))
  {
    var bits := CodeStream(buf);
    var pad := PadCount(|bits|);
    TreeSizeBound(buf);
    TruncatedFrame(HuffmanTreeOf(buf), pad, Pack(bits + Zeros(pad)), k);
  }

  /** `huffmanCompress`: build the tree, generate the codes, encode, pad and
      pack the code stream, and assemble the container. */
  method Compress(buf: seq<byte>) returns (out: seq<byte>)
    requires |buf| > 0
    ensures out == Container(buf)
    ensures TwoDistinct(buf) ==> Decoded(out) == Success(buf)
    ensures !TwoDistinct(buf) ==> Decoded(out) == Success([])
  {
    var root := BuildHuffmanTree(buf);
    var codeMap := Codes(root, []);
    assert forall i | 0 <= i < |buf| :: buf[i] in codeMap by {
      TreeBytes(buf);
    }
    var bits := Encode(codeMap, buf);
    var pad, compressed := PackBits(bits);
    var treeBuffer := Serialize(root);
    assert |treeBuffer| < 0x1_0000_0000 by {
      TreeSizeBound(buf);
    }
    out := Frame(treeBuffer, pad, compressed);
    HuffmanRoundTrip(buf);
  }

  /** `huffmanDecompress`: read the container, then walk the bits from the
      root, one node pointer at a time. */
  method Decompress(buf: seq<byte>) returns (r: Result<seq<byte>>)
    ensures r == Decoded(buf)
  {
    var framed :- Unframe(buf);
    var root, bits := framed.0, framed.1;
    var output: seq<byte> := [];
    var node := root;
    var i := 0;
    assert bits[0..] == bits;
    assert Prepend([], Walk(root, root, bits)) == Walk(root, root, bits) by {
      if Walk(root, root, bits).Success? {
        assert [] + Walk(root, root, bits).value == Walk(root, root, bits).value;
      }
    }
    while i < |bits|
      invariant 0 <= i <= |bits|
      invariant Prepend(output, Walk(root, node, bits[i..])) == Walk(root, root, bits)
    {
      assert bits[i..][0] == bits[i] && bits[i..][1..] == bits[i + 1..];
      if node.Leaf? {
        return Failure(NullNode);
      }
      node := if bits[i] == 0 then node.left else node.right;
      if node.Leaf? {
        ghost var rest := Walk(root, root, bits[i + 1..]);
        if rest.Success? {
          assert output + ([node.value] + rest.value) == output + [node.value] + rest.value;
        }
        output := output + [node.value];
        node := root;
      }
      i := i + 1;
    }
    assert Walk(root, node, bits[i..]) == Success([]);
    assert output + [] == output;
    return Success(output);
  }
}
