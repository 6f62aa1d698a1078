/** The code table (`generateHuffmanCodes` in backend/app.js): every leaf's
    byte is mapped to the path from the root to the leaf, 0 for a step to
    the left child and 1 for a step to the right child. */
module HuffmanCodes {
  import opened Bytes
  import opened HuffmanTree

  /** Following the bits of `p` from `t` (0 to the left, 1 to the right)
      ends exactly at a leaf holding `b`. */
  predicate PathTo(t: Tree, p: seq<Bit>, b: byte) {
    if p == [] then t.Leaf? && t.value == b
    else t.Node? && PathTo(if p[0] == 0 then t.left else t.right, p[1..], b)
  }

  /** `generateHuffmanCodes(node, prefix, map)`: the walk threads one
      accumulator map through the recursion, the left subtree first, so a
      byte met again in the right subtree is overwritten there. */
  function Codes(t: Tree, prefix: seq<Bit>): (m: map<byte, seq<Bit>>)
    ensures m.Keys == LeafBytes(t)
  {
    match t
    case Leaf(v, _) => map[v := prefix]
    case Node(l, r, _) => Codes(l, prefix + [0]) + Codes(r, prefix + [1])
  }

  /** Every code is the walk's prefix followed by a root path in `t` to a
      leaf holding the code's byte. */
  lemma {:induction false} CodeIsPath(t: Tree, prefix: seq<Bit>, b: byte)
    requires b in Codes(t, prefix)
    ensures |prefix| <= |Codes(t, prefix)[b]|
    ensures Codes(t, prefix)[b][..|prefix|] == prefix
    ensures PathTo(t, Codes(t, prefix)[b][|prefix|..], b)
  {
    match t
    case Leaf(v, _) =>
    case Node(l, r, _) =>
      var code := Codes(t, prefix)[b];
      if b in Codes(r, prefix + [1]) {
        assert code == Codes(r, prefix + [1])[b];
        CodeIsPath(r, prefix + [1], b);
        ChildStep(t, code, prefix, 1, b);
      } else {
        assert code == Codes(l, prefix + [0])[b];
        CodeIsPath(l, prefix + [0], b);
        ChildStep(t, code, prefix, 0, b);
      }
  }

  /** A path through one child, preceded by the step to that child, is a
      path through the parent. */
  lemma {:induction false} ChildStep(t: Tree, code: seq<Bit>, prefix: seq<Bit>, step: Bit, b: byte)
    requires t.Node?
    requires |prefix| + 1 <= |code| && code[..|prefix| + 1] == prefix + [step]
    requires PathTo(if step == 0 then t.left else t.right, code[|prefix| + 1..], b)
    ensures code[..|prefix|] == prefix
    ensures PathTo(t, code[|prefix|..], b)
  {
    var p := code[|prefix|..];
    assert p[0] == code[..|prefix| + 1][|prefix|] == step;
    assert p[1..] == code[|prefix| + 1..];
    assert code[..|prefix|] == code[..|prefix| + 1][..|prefix|];
  }

  /** Root paths are prefix-free: a path that ends at a leaf cannot be
      continued, so if one path is a prefix of another they are the same
      path and reach the same leaf. */
  lemma {:induction false} PathsPrefixFree(t: Tree, p: seq<Bit>, q: seq<Bit>, b1: byte, b2: byte)
    requires PathTo(t, p, b1) && PathTo(t, q, b2)
    requires p <= q
    ensures p == q && b1 == b2
  {
    if p != [] {
      assert q[0] == p[0];
      assert p[1..] <= q[1..];
      PathsPrefixFree(if p[0] == 0 then t.left else t.right, p[1..], q[1..], b1, b2);
      assert p == [p[0]] + p[1..] && q == [q[0]] + q[1..];
    }
  }

  /** The generated table is a prefix code: no byte's code is a prefix of
      another byte's code. */
  lemma {:induction false} CodesPrefixFree(t: Tree)
    ensures forall b1, b2 | b1 in Codes(t, []) && b2 in Codes(t, []) && b1 != b2 ::
              !(Codes(t, [])[b1] <= Codes(t, [])[b2])
  {
    var m := Codes(t, []);
    forall b1, b2 | b1 in m && b2 in m && b1 != b2
      ensures !(m[b1] <= m[b2])
    {
      CodeIsPath(t, [], b1);
      CodeIsPath(t, [], b2);
      assert m[b1][0..] == m[b1] && m[b2][0..] == m[b2];
      if m[b1] <= m[b2] {
        PathsPrefixFree(t, m[b1], m[b2], b1, b2);
      }
    }
  }

  /** Every code of a tree whose root is an internal node is non-empty, and
      a single-leaf tree gets the empty code: the generator never takes a
      step there. */
  lemma {:induction false} CodesNonEmpty(t: Tree)
    ensures t.Node? <==> forall b | b in Codes(t, []) :: Codes(t, [])[b] != []
  {
    if t.Node? {
      forall b | b in Codes(t, []) ensures Codes(t, [])[b] != [] {
        CodeIsPath(t, [], b);
        assert Codes(t, [])[b][0..] == Codes(t, [])[b];
      }
    } else {
      assert t.value in Codes(t, []);
    }
  }

  /** The code table of a single-leaf tree maps its byte to the empty code. */
  lemma {:induction false} SingleLeafCode(v: byte, f: nat)
    ensures Codes(Leaf(v, f), []) == map[v := []]
  {
  }

  /** Paths do not look at frequencies, so a tree and its shape have the
      same paths. */
  lemma {:induction false} PathToShape(t: Tree, p: seq<Bit>, b: byte)
    ensures PathTo(Shape(t), p, b) <==> PathTo(t, p, b)
  {
    if p != [] && t.Node? {
      PathToShape(if p[0] == 0 then t.left else t.right, p[1..], b);
    }
  }
}
