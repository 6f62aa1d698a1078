/** The preorder byte encoding of a Huffman tree (`serializeTreeBuffer` and
    `deserializeTreeBuffer` in backend/app.js): a leaf is the flag 1
    followed by its byte, an internal node is the flag 0 followed by its
    left and then its right subtree. */
module TreeCodec {
  import opened Errors
  import opened Bytes
  import opened HuffmanTree

  /** `serializeTreeBuffer`: the preorder encoding. */
  function Serialize(t: Tree): seq<byte> {
    match t
    case Leaf(v, _) => [1, v]
    case Node(l, r, _) => [0] + Serialize(l) + Serialize(r)
  }

  /** The recursive `build` of `deserializeTreeBuffer`, with the shared
      cursor made explicit: parse one tree starting at `pos`, and return it
      with the position just after it. Reading a flag at or past the end
      throws "Malformed Huffman tree."; every flag other than 1 is an
      internal node. A flag of 1 in the last byte makes a leaf whose byte is
      the `undefined` read past the end, which `Buffer.from` later turns
      into 0, so the model gives that leaf the byte 0; the cursor then stands
      one past the end. Deserialized nodes carry frequency 0. */
  function Parse(buf: seq<byte>, pos: nat): (r: Result<(Tree, nat)>)
    ensures r.Success? ==> pos < |buf| && pos + 2 <= r.value.1 <= |buf| + 1
    ensures r.Success? ==> (buf[pos] == 1 <==> r.value.0.Leaf?)
    ensures r.Failure? ==> r.error == MalformedTree
    decreases |buf| + 1 - pos
  {
    if pos >= |buf| then Failure(MalformedTree)
    else if buf[pos] == 1 then
      Success((Leaf(if pos + 1 < |buf| then buf[pos + 1] else 0, 0), pos + 2))
    else
      match Parse(buf, pos + 1)
      case Failure(e) => Failure(e)
      case Success((left, mid)) =>
        match Parse(buf, mid)
        case Failure(e) => Failure(e)
        case Success((right, end)) => Success((Node(left, right, 0), end))
  }

  /** `deserializeTreeBuffer`: parse one tree from the start of the buffer;
      bytes after it are ignored. */
  function Deserialize(buf: seq<byte>): (r: Result<Tree>)
    ensures |buf| == 0 ==> r == Failure(MalformedTree)
    ensures r.Failure? ==> r.error == MalformedTree
    ensures r.Success? ==> |buf| > 0 && (buf[0] == 1 <==> r.value.Leaf?)
  {
    match Parse(buf, 0)
    case Failure(e) => Failure(e)
    case Success((t, _)) => Success(t)
  }

  /** A tree with n leaves takes 3n - 1 bytes: two per leaf and one per
      internal node, of which there are n - 1. */
  lemma {:induction false} SerializeLength(t: Tree)
    ensures |Serialize(t)| == 3 * |Leaves(t)| - 1
  {
    match t
    case Leaf(_, _) =>
    case Node(l, r, _) =>
      SerializeLength(l);
      SerializeLength(r);
  }

  /** An internal node whose two subtrees parse one after the other
      parses to the node of the two, ending where the right one ends. */
  lemma {:induction false} ParsedNode(buf: seq<byte>, pos: nat, left: Tree, mid: nat, right: Tree, end: nat)
    requires pos < |buf| && buf[pos] != 1
    requires Parse(buf, pos + 1) == Success((left, mid))
    requires Parse(buf, mid) == Success((right, end))
    ensures Parse(buf, pos) == Success((Node(left, right, 0), end))
  {
  }

  /** Parsing where a serialized tree starts rebuilds the tree's shape and
      leaf bytes and stops exactly after its encoding, whatever surrounds it. */
  lemma {:induction false} ParseSerialized(t: Tree, before: seq<byte>, after: seq<byte>)
    ensures Parse(before + Serialize(t) + after, |before|)
         == Success((Shape(t), |before| + |Serialize(t)|))
    decreases t, 1
  {
    var buf := before + Serialize(t) + after;
    match t
    case Leaf(v, _) =>
      assert buf[|before|] == 1 && buf[|before| + 1] == v;
    case Node(l, r, f) =>
      var mid := |before| + 1 + |Serialize(l)|;
      assert buf[|before|] == 0;
      SerializedLeft(l, r, f, before, after);
      SerializedRight(l, r, f, before, after);
      ParsedNode(buf, |before|, Shape(l), mid, Shape(r), |before| + |Serialize(t)|);
  }

  /** The left subtree of a serialized internal node parses right after
      the node's flag. */
  lemma {:induction false} SerializedLeft(l: Tree, r: Tree, f: nat, before: seq<byte>, after: seq<byte>)
    ensures Parse(before + Serialize(Node(l, r, f)) + after, |before| + 1)
         == Success((Shape(l), |before| + 1 + |Serialize(l)|))
    decreases Node(l, r, f), 0
  {
    var sl, sr := Serialize(l), Serialize(r);
    assert before + Serialize(Node(l, r, f)) + after == (before + [0]) + sl + (sr + after);
    ParseSerialized(l, before + [0], sr + after);
  }

  /** The right subtree of a serialized internal node parses right after
      the left one and ends where the node ends. */
  lemma {:induction false} SerializedRight(l: Tree, r: Tree, f: nat, before: seq<byte>, after: seq<byte>)
    ensures Parse(before + Serialize(Node(l, r, f)) + after, |before| + 1 + |Serialize(l)|)
         == Success((Shape(r), |before| + |Serialize(Node(l, r, f))|))
    decreases Node(l, r, f), 0
  {
    var sl, sr := Serialize(l), Serialize(r);
    assert before + Serialize(Node(l, r, f)) + after == (before + [0] + sl) + sr + after;
    ParseSerialized(r, before + [0] + sl, after);
  }

  /** Round trip: deserializing a serialized tree gives back its shape and
      leaf bytes, consuming exactly the serialized bytes. */
  lemma {:induction false} DeserializeSerialized(t: Tree)
    ensures Parse(Serialize(t), 0) == Success((Shape(t), |Serialize(t)|))
    ensures Deserialize(Serialize(t)) == Success(Shape(t))
  {
    ParseSerialized(t, [], []);
    assert [] + Serialize(t) + [] == Serialize(t);
  }

  /** The shape of `t` with the byte of its last (rightmost) leaf read as
      0: what a serialized tree deserializes to when its final byte is cut
      off. */
  function LastLeafZeroed(t: Tree): (z: Tree)
    ensures z.Leaf? == t.Leaf?
  {
    match t
    case Leaf(_, _) => Leaf(0, 0)
    case Node(l, r, _) => Node(Shape(l), LastLeafZeroed(r), 0)
  }

  /** Cutting off only the final byte of a serialized tree (the byte of its
      last leaf) is not detected: the leaf reads its byte past the end, which
      becomes 0. */
  lemma {:induction false} ParseMissingLastByte(t: Tree, before: seq<byte>)
    ensures var s := Serialize(t);
            Parse(before + s[..|s| - 1], |before|) == Success((LastLeafZeroed(t), |before| + |s|))
    decreases t, 1
  {
    var s := Serialize(t);
    var buf := before + s[..|s| - 1];
    match t
    case Leaf(v, _) =>
      assert buf[|before|] == 1;
    case Node(l, r, f) =>
      var mid := |before| + 1 + |Serialize(l)|;
      assert buf[|before|] == 0;
      MissingLastLeft(l, r, f, before);
      MissingLastRight(l, r, f, before);
      ParsedNode(buf, |before|, Shape(l), mid, LastLeafZeroed(r), |before| + |s|);
      assert LastLeafZeroed(t) == Node(Shape(l), LastLeafZeroed(r), 0);
  }

  /** A serialized internal node without its final byte, placed after
      `before`, is the flag, the left subtree, and the right subtree
      without its final byte. */
  lemma {:induction false} NodeDropLast(l: Tree, r: Tree, f: nat, before: seq<byte>)
    ensures var s, sr := Serialize(Node(l, r, f)), Serialize(r);
            |sr| >= 1 && |s| == 1 + |Serialize(l)| + |sr| &&
            before + s[..|s| - 1] == before + [0] + Serialize(l) + sr[..|sr| - 1]
  {
    var s, sl, sr := Serialize(Node(l, r, f)), Serialize(l), Serialize(r);
    assert |sr| >= 1 by {
      SerializeLength(r);
    }
    assert s == [0] + sl + sr;
    assert s[..|s| - 1] == [0] + sl + sr[..|sr| - 1];
  }

  /** Without its final byte, a serialized internal node still holds its
      whole left subtree, which parses right after the node's flag. */
  lemma {:induction false} MissingLastLeft(l: Tree, r: Tree, f: nat, before: seq<byte>)
    ensures var s := Serialize(Node(l, r, f));
            Parse(before + s[..|s| - 1], |before| + 1) == Success((Shape(l), |before| + 1 + |Serialize(l)|))
  {
    var sr := Serialize(r);
    NodeDropLast(l, r, f, before);
    ParseSerialized(l, before + [0], sr[..|sr| - 1]);
  }

  /** Without its final byte, a serialized internal node holds its right
      subtree without that subtree's final byte. */
  lemma {:induction false} MissingLastRight(l: Tree, r: Tree, f: nat, before: seq<byte>)
    ensures var s := Serialize(Node(l, r, f));
            Parse(before + s[..|s| - 1], |before| + 1 + |Serialize(l)|) ==
            Success((LastLeafZeroed(r), |before| + |s|))
    decreases Node(l, r, f), 0
  {
    NodeDropLast(l, r, f, before);
    ParseMissingLastByte(r, before + [0] + Serialize(l));
  }

  /** A serialized tree missing more than its final byte is rejected with
      "Malformed Huffman tree.": some flag is read past the end. */
  lemma {:induction false} ParseTruncated(t: Tree, before: seq<byte>, k: nat)
    requires k < |Serialize(t)| - 1
    ensures Parse(before + Serialize(t)[..k], |before|) == Failure(MalformedTree)
    decreases t, 1
  {
    var s := Serialize(t);
    if k == 0 {
      assert before + s[..k] == before;
    } else {
      match t
      case Leaf(v, _) =>
      case Node(l, r, f) =>
        var sl := Serialize(l);
        if k - 1 < |sl| - 1 {
          CutInLeft(l, r, f, before, k);
        } else if k - 1 == |sl| - 1 {
          CutAtLeftEnd(l, r, f, before);
        } else {
          CutInRight(l, r, f, before, k);
        }
    }
  }

  /** The cut falls inside the left subtree, two or more bytes before its
      end: the left subtree is rejected. */
  lemma {:induction false} CutInLeft(l: Tree, r: Tree, f: nat, before: seq<byte>, k: nat)
    requires 1 <= k && k - 1 < |Serialize(l)| - 1
    ensures Parse(before + Serialize(Node(l, r, f))[..k], |before|) == Failure(MalformedTree)
    decreases Node(l, r, f), 0
  {
    var sl, sr := Serialize(l), Serialize(r);
    var buf := before + Serialize(Node(l, r, f))[..k];
    assert buf[|before|] == 0;
    assert buf == (before + [0]) + sl[..k - 1];
    ParseTruncated(l, before + [0], k - 1);
  }

  /** The cut takes off the last byte of the left subtree: its last leaf
      reads past the end, and the right subtree finds no flag. */
  lemma {:induction false} CutAtLeftEnd(l: Tree, r: Tree, f: nat, before: seq<byte>)
    ensures var k := |Serialize(l)|;
            Parse(before + Serialize(Node(l, r, f))[..k], |before|) == Failure(MalformedTree)
  {
    var sl, sr := Serialize(l), Serialize(r);
    var buf := before + Serialize(Node(l, r, f))[..|sl|];
    assert buf[|before|] == 0;
    assert buf == (before + [0]) + sl[..|sl| - 1];
    ParseMissingLastByte(l, before + [0]);
  }

  /** The cut falls inside the right subtree, two or more bytes before its
      end: the left subtree parses and the right one is rejected. */
  lemma {:induction false} CutInRight(l: Tree, r: Tree, f: nat, before: seq<byte>, k: nat)
    requires |Serialize(l)| < k < |Serialize(Node(l, r, f))| - 1
    ensures Parse(before + Serialize(Node(l, r, f))[..k], |before|) == Failure(MalformedTree)
    decreases Node(l, r, f), 0
  {
    var sl, sr := Serialize(l), Serialize(r);
    var buf := before + Serialize(Node(l, r, f))[..k];
    var j := k - 1 - |sl|;
    assert buf[|before|] == 0;
    assert buf == (before + [0]) + sl + sr[..j];
    ParseSerialized(l, before + [0], sr[..j]);
    assert buf == (before + [0] + sl) + sr[..j];
    ParseTruncated(r, before + [0] + sl, j);
  }

  /** A proper prefix of a serialized tree is rejected exactly when it is
      missing more than the final byte. */
  lemma {:induction false} TruncatedTreeRejected(t: Tree, k: nat)
    requires k < |Serialize(t)|
    ensures Deserialize(Serialize(t)[..k]).Failure? <==> k < |Serialize(t)| - 1
    ensures k == |Serialize(t)| - 1 ==> Deserialize(Serialize(t)[..k]) == Success(LastLeafZeroed(t))
  {
    assert [] + Serialize(t)[..k] == Serialize(t)[..k];
    if k < |Serialize(t)| - 1 {
      ParseTruncated(t, [], k);
    } else {
      ParseMissingLastByte(t, []);
    }
  }

  /** Only the flag 1 makes a leaf: a buffer none of whose bytes from `pos`
      on is 1 reads internal nodes until the flags run out, and is rejected
      as a malformed tree. */
  lemma {:induction false} NoLeafFlagIsMalformed(buf: seq<byte>, pos: nat)
    requires forall i | pos <= i < |buf| :: buf[i] != 1
    ensures Parse(buf, pos) == Failure(MalformedTree)
    decreases |buf| - pos
  {
    if pos < |buf| {
      NoLeafFlagIsMalformed(buf, pos + 1);
    }
  }
}
