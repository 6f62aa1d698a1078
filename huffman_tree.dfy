/** The Huffman tree and its construction (`HuffmanNode` and
    `buildHuffmanTree` in backend/app.js). */
module HuffmanTree {
  import opened Bytes

  /** A node of the tree: a leaf owns a byte value and its frequency, an
      internal node owns exactly two children and a frequency. The source
      uses one class with nullable children; a node without children is a
      leaf. */
  datatype Tree =
    | Leaf(value: byte, freq: nat)
    | Node(left: Tree, right: Tree, freq: nat)

  /** Every leaf has a positive frequency and every internal node's
      frequency is the sum of its children's. */
  predicate WellFormed(t: Tree) {
    match t
    case Leaf(_, f) => f >= 1
    case Node(l, r, f) => f == l.freq + r.freq && WellFormed(l) && WellFormed(r)
  }

  /** The leaves of a tree, as a multiset. */
  function Leaves(t: Tree): (m: multiset<Tree>)
    ensures |m| >= 1
  {
    match t
    case Leaf(_, _) => multiset{t}
    case Node(l, r, _) => Leaves(l) + Leaves(r)
  }

  /** The byte values stored in the leaves of a tree. */
  function LeafBytes(t: Tree): set<byte> {
    match t
    case Leaf(v, _) => {v}
    case Node(l, r, _) => LeafBytes(l) + LeafBytes(r)
  }

  /** The tree with every frequency set to 0: what a deserialized tree keeps
      of the tree that was serialized (its shape and its leaf bytes). */
  function Shape(t: Tree): (s: Tree)
    ensures s.Leaf? == t.Leaf?
  {
    match t
    case Leaf(v, _) => Leaf(v, 0)
    case Node(l, r, _) => Node(Shape(l), Shape(r), 0)
  }

  /** What `Leaves` collects are leaves, and their bytes are the tree's leaf
      bytes. */
  lemma {:induction false} LeavesAreLeaves(t: Tree, x: Tree)
    requires x in Leaves(t)
    ensures x.Leaf? && x.value in LeafBytes(t)
  {
    match t
    case Leaf(_, _) =>
    case Node(l, r, _) =>
      if x in Leaves(l) { LeavesAreLeaves(l, x); } else { LeavesAreLeaves(r, x); }
  }

  /** Every leaf byte belongs to some leaf. */
  lemma {:induction false} LeafBytesHaveLeaves(t: Tree, b: byte)
    requires b in LeafBytes(t)
    ensures exists x :: x in Leaves(t) && x.Leaf? && x.value == b
  {
    match t
    case Leaf(_, _) => assert t in Leaves(t);
    case Node(l, r, _) =>
      if b in LeafBytes(l) {
        LeafBytesHaveLeaves(l, b);
        var x :| x in Leaves(l) && x.Leaf? && x.value == b;
        assert x in Leaves(t);
      } else {
        LeafBytesHaveLeaves(r, b);
        var x :| x in Leaves(r) && x.Leaf? && x.value == b;
        assert x in Leaves(t);
      }
  }

  // ----- the working collection of the construction -----

  /** The leaves of a collection of trees. */
  function ForestLeaves(nodes: seq<Tree>): multiset<Tree> {
    if nodes == [] then multiset{} else Leaves(nodes[0]) + ForestLeaves(nodes[1..])
  }

  /** The sum of the frequencies of a collection of trees. */
  function SumFreq(nodes: seq<Tree>): nat {
    if nodes == [] then 0 else nodes[0].freq + SumFreq(nodes[1..])
  }

  lemma {:induction false} ForestAppend(a: seq<Tree>, b: seq<Tree>)
    ensures SumFreq(a + b) == SumFreq(a) + SumFreq(b)
    ensures ForestLeaves(a + b) == ForestLeaves(a) + ForestLeaves(b)
  {
    if a != [] {
      assert (a + b)[1..] == a[1..] + b;
      ForestAppend(a[1..], b);
    } else {
      assert a + b == b;
    }
  }

  /** A collection of leaves is its own multiset of leaves. */
  lemma {:induction false} ForestOfLeaves(s: seq<Tree>)
    requires forall x | x in s :: x.Leaf?
    ensures ForestLeaves(s) == multiset(s)
  {
    if s != [] {
      assert s == [s[0]] + s[1..];
      ForestOfLeaves(s[1..]);
    }
  }

  predicate SortedByFreq(s: seq<Tree>) {
    forall i, j | 0 <= i < j < |s| :: s[i].freq <= s[j].freq
  }

  /** Inserts `x` into a collection sorted by frequency, in front of the
      first element whose frequency is not smaller than its own. */
  function InsertByFreq(x: Tree, s: seq<Tree>): (r: seq<Tree>)
    ensures |r| == |s| + 1
    ensures multiset(r) == multiset(s) + multiset{x}
  {
    if s == [] || x.freq <= s[0].freq then [x] + s
    else
      assert s == [s[0]] + s[1..];
      [s[0]] + InsertByFreq(x, s[1..])
  }

  lemma {:induction false} InsertSorted(x: Tree, s: seq<Tree>)
    requires SortedByFreq(s)
    ensures SortedByFreq(InsertByFreq(x, s))
  {
    var r := InsertByFreq(x, s);
    if s == [] || x.freq <= s[0].freq {
      assert r == [x] + s;
      forall i, j | 0 <= i < j < |r| ensures r[i].freq <= r[j].freq {
        if i > 0 {
          assert r[i] == s[i - 1] && r[j] == s[j - 1];
        } else {
          assert r[j] == s[j - 1];
        }
      }
    } else {
      var rest := InsertByFreq(x, s[1..]);
      assert r == [s[0]] + rest;
      InsertSorted(x, s[1..]);
      assert s[0].freq <= rest[0].freq by {
        if !(s[1..] == [] || x.freq <= s[1].freq) {
          assert rest[0] == s[1];
        }
      }
      forall i, j | 0 <= i < j < |r| ensures r[i].freq <= r[j].freq {
        assert r[j] == rest[j - 1];
        if i > 0 {
          assert r[i] == rest[i - 1];
        } else if j > 1 {
          assert rest[0].freq <= rest[j - 1].freq;
        }
      }
    }
  }

  /** `nodes.sort((a, b) => a.freq - b.freq)`: a stable sort by frequency,
      as `Array.prototype.sort` is. Each element is inserted in front of the
      later elements of equal frequency, so equal elements keep their
      order. */
  function SortByFreq(s: seq<Tree>): (r: seq<Tree>)
    ensures |r| == |s|
    ensures multiset(r) == multiset(s)
  {
    if s == [] then []
    else
      assert s == [s[0]] + s[1..];
      InsertByFreq(s[0], SortByFreq(s[1..]))
  }

  /** The trees of `s` whose frequency is `f`, in their order in `s`. */
  function WithFreq(s: seq<Tree>, f: nat): seq<Tree> {
    if s == [] then [] else (if s[0].freq == f then [s[0]] else []) + WithFreq(s[1..], f)
  }

  lemma {:induction false} WithFreqCons(t: Tree, s: seq<Tree>, f: nat)
    ensures WithFreq([t] + s, f) == (if t.freq == f then [t] else []) + WithFreq(s, f)
  {
    assert ([t] + s)[1..] == s;
  }

  /** Inserting `x` puts it in front of every tree of its own frequency
      and keeps the order of the others. */
  lemma {:induction false} WithFreqInsert(x: Tree, r: seq<Tree>, f: nat)
    ensures WithFreq(InsertByFreq(x, r), f) ==
            (if x.freq == f then [x] + WithFreq(r, f) else WithFreq(r, f))
  {
    if r == [] || x.freq <= r[0].freq {
      WithFreqCons(x, r, f);
    } else {
      var rest := InsertByFreq(x, r[1..]);
      var w := WithFreq(r[1..], f);
      WithFreqCons(r[0], rest, f);
      WithFreqCons(r[0], r[1..], f);
      assert r == [r[0]] + r[1..];
      WithFreqInsert(x, r[1..], f);
      if x.freq == f {
        assert WithFreq(r, f) == w;
        assert WithFreq(InsertByFreq(x, r), f) == [x] + w;
      }
    }
  }

  /** The sort is stable: trees of equal frequency keep their relative
      order. */
  lemma {:induction false} SortStable(s: seq<Tree>, f: nat)
    ensures WithFreq(SortByFreq(s), f) == WithFreq(s, f)
  {
    if s != [] {
      SortStable(s[1..], f);
      WithFreqInsert(s[0], SortByFreq(s[1..]), f);
    }
  }

  /** The sort yields a permutation ordered by frequency. */
  lemma {:induction false} SortSorted(s: seq<Tree>)
    ensures SortedByFreq(SortByFreq(s)) && multiset(SortByFreq(s)) == multiset(s)
  {
    if s != [] {
      SortSorted(s[1..]);
      InsertSorted(s[0], SortByFreq(s[1..]));
    }
  }

  lemma {:induction false} InsertKeepsLeaves(x: Tree, s: seq<Tree>)
    ensures ForestLeaves(InsertByFreq(x, s)) == Leaves(x) + ForestLeaves(s)
  {
    var r := InsertByFreq(x, s);
    if s == [] || x.freq <= s[0].freq {
      assert r == [x] + s && r[1..] == s;
    } else {
      var r' := InsertByFreq(x, s[1..]);
      assert r == [s[0]] + r' && r[1..] == r';
      InsertKeepsLeaves(x, s[1..]);
    }
  }

  lemma {:induction false} InsertKeepsSum(x: Tree, s: seq<Tree>)
    ensures SumFreq(InsertByFreq(x, s)) == x.freq + SumFreq(s)
  {
    var r := InsertByFreq(x, s);
    if s == [] || x.freq <= s[0].freq {
      assert r == [x] + s && r[1..] == s;
    } else {
      var r' := InsertByFreq(x, s[1..]);
      assert r == [s[0]] + r' && r[1..] == r';
      InsertKeepsSum(x, s[1..]);
    }
  }

  /** Sorting rearranges the trees of the working collection: it keeps
      every leaf and the total frequency. */
  lemma {:induction false} SortKeepsLeaves(s: seq<Tree>)
    ensures ForestLeaves(SortByFreq(s)) == ForestLeaves(s)
    ensures SumFreq(SortByFreq(s)) == SumFreq(s)
  {
    if s != [] {
      SortKeepsLeaves(s[1..]);
      InsertKeepsLeaves(s[0], SortByFreq(s[1..]));
      InsertKeepsSum(s[0], SortByFreq(s[1..]));
    }
  }

  // ----- frequency analysis -----

  predicate NoDuplicates(d: seq<byte>) {
    forall i, j | 0 <= i < j < |d| :: d[i] != d[j]
  }

  /** The distinct bytes of `s` in the order of their first occurrence: the
      key order of the source's `Map` of counts. */
  function Distinct(s: seq<byte>): (d: seq<byte>)
    ensures forall x :: x in d <==> x in s
    ensures NoDuplicates(d)
  {
    if s == [] then []
    else
      var d := Distinct(s[..|s| - 1]);
      assert forall x :: x in s <==> x in s[..|s| - 1] || x == s[|s| - 1];
      if s[|s| - 1] in d then d else d + [s[|s| - 1]]
  }

  /** One leaf per byte of `d`, in order, each with the count `counts` gives it. */
  function LeavesFor(d: seq<byte>, counts: map<byte, nat>): (r: seq<Tree>)
    requires forall b | b in d :: b in counts
    ensures |r| == |d|
    ensures forall j | 0 <= j < |d| :: r[j] == Leaf(d[j], counts[d[j]])
  {
    if d == [] then [] else [Leaf(d[0], counts[d[0]])] + LeavesFor(d[1..], counts)
  }

  /** How often each byte of `s` occurs in it. */
  function CountsOf(s: seq<byte>): (m: map<byte, nat>)
    ensures forall b :: b in m <==> b in s
  {
    map b | b in s :: multiset(s)[b]
  }

  /** The leaves `buildHuffmanTree` starts from: one per distinct byte of the
      input, in first-occurrence order, with its number of occurrences. */
  function FrequencyLeaves(s: seq<byte>): seq<Tree> {
    LeavesFor(Distinct(s), CountsOf(s))
  }

  /** The leaves of the frequency table are exactly the distinct bytes of
      the input, each with its occurrence count, and no byte has two. */
  lemma {:induction false} FrequencyLeavesAreCounts(s: seq<byte>)
    ensures forall x: Tree :: x in FrequencyLeaves(s) <==> x.Leaf? && x.value in s && x.freq == multiset(s)[x.value]
    ensures forall i, j | 0 <= i < j < |FrequencyLeaves(s)| :: FrequencyLeaves(s)[i].value != FrequencyLeaves(s)[j].value
    ensures |FrequencyLeaves(s)| == |Distinct(s)|
  {
    var d, f := Distinct(s), FrequencyLeaves(s);
    forall x: Tree | x.Leaf? && x.value in s && x.freq == multiset(s)[x.value]
      ensures x in f
    {
      var j :| 0 <= j < |d| && d[j] == x.value;
      assert f[j] == x;
    }
    forall x: Tree | x in f
      ensures x.Leaf? && x.value in s && x.freq == multiset(s)[x.value]
    {
      var j :| 0 <= j < |f| && f[j] == x;
    }
  }

  /** Adding one occurrence of `x` raises the total count over a duplicate-free
      key sequence by one when `x` is a key, and not at all otherwise. */
  lemma {:induction false} SumFreqOneMore(d: seq<byte>, s: seq<byte>, x: byte)
    requires NoDuplicates(d)
    requires forall b | b in d :: b in s
    ensures SumFreq(LeavesFor(d, CountsOf(s + [x]))) == SumFreq(LeavesFor(d, CountsOf(s))) + (if x in d then 1 else 0)
  {
    if d != [] {
      assert multiset(s + [x]) == multiset(s) + multiset{x};
      assert d[0] in s + [x];
      SumFreqOneMore(d[1..], s, x);
      assert x in d[1..] ==> x != d[0];
      assert x in d <==> x == d[0] || x in d[1..];
    }
  }

  lemma {:induction false} LeavesForAppend(d: seq<byte>, x: byte, counts: map<byte, nat>)
    requires forall b | b in d + [x] :: b in counts
    ensures LeavesFor(d + [x], counts) == LeavesFor(d, counts) + [Leaf(x, counts[x])]
  {
  }

  /** The counts of the frequency table add up to the input length. */
  lemma {:induction false} FrequencyLeavesSum(s: seq<byte>)
    ensures SumFreq(FrequencyLeaves(s)) == |s|
  {
    if s != [] {
      var init, x := s[..|s| - 1], s[|s| - 1];
      assert s == init + [x];
      var d := Distinct(init);
      FrequencyLeavesSum(init);
      SumFreqOneMore(d, init, x);
      if x !in d {
        LeavesForAppend(d, x, CountsOf(s));
        ForestAppend(LeavesFor(d, CountsOf(s)), [Leaf(x, CountsOf(s)[x])]);
        assert multiset(s)[x] == multiset(init)[x] + 1;
        assert multiset(init)[x] == 0;
      }
    }
  }

  /** A tree is a Huffman tree for `buf` when its frequencies are consistent
      and its leaves are exactly the frequency table of `buf`. */
  predicate IsHuffmanTreeFor(root: Tree, buf: seq<byte>) {
    WellFormed(root) &&
    root.freq == |buf| &&
    Leaves(root) == multiset(FrequencyLeaves(buf))
  }

  /** The input holds at least two different byte values. */
  predicate TwoDistinct(buf: seq<byte>) {
    exists i, j | 0 <= i < |buf| && 0 <= j < |buf| :: buf[i] != buf[j]
  }

  /** Counting one more byte raises its count by one (from 0 when it is
      new) and leaves the other counts alone. */
  lemma {:induction false} CountsOfSnoc(s: seq<byte>, b: byte)
    ensures CountsOf(s + [b]) == CountsOf(s)[b := (if b in s then multiset(s)[b] else 0) + 1]
  {
    var m, m' := CountsOf(s), CountsOf(s + [b]);
    assert multiset(s + [b]) == multiset(s) + multiset{b};
    assert b !in s ==> multiset(s)[b] == 0;
    assert forall c :: c in s + [b] <==> c in s || c == b;
  }

  lemma {:induction false} DistinctSnoc(s: seq<byte>, b: byte)
    ensures Distinct(s + [b]) == if b in s then Distinct(s) else Distinct(s) + [b]
  {
    assert (s + [b])[..|s|] == s;
  }

  /** `freq.set(byte, (freq.get(byte) || 0) + 1)`: count one more byte,
      as a new key at the end when it was not counted before. Counting `b`
      after `seen` gives the keys and counts of `seen + [b]`. */
  method Tally(ghost seen: seq<byte>, keys: seq<byte>, counts: map<byte, nat>, b: byte)
    returns (keys': seq<byte>, counts': map<byte, nat>)
    requires keys == Distinct(seen) && counts == CountsOf(seen)
    ensures keys' == Distinct(seen + [b])
    ensures counts' == CountsOf(seen + [b])
  {
    CountsOfSnoc(seen, b);
    DistinctSnoc(seen, b);
    keys' := if b in counts then keys else keys + [b];
    counts' := counts[b := (if b in counts then counts[b] else 0) + 1];
  }

  /** The first loop of `buildHuffmanTree`: the `freq` Map, as its keys in
      insertion order and its counts. */
  method CountBytes(buf: seq<byte>) returns (keys: seq<byte>, counts: map<byte, nat>)
    ensures keys == Distinct(buf)
    ensures counts == CountsOf(buf)
  {
    keys, counts := [], map[];
    var i := 0;
    while i < |buf|
      invariant 0 <= i <= |buf|
      invariant keys == Distinct(buf[..i])
      invariant counts == CountsOf(buf[..i])
    {
      assert buf[..i + 1] == buf[..i] + [buf[i]];
      keys, counts := Tally(buf[..i], keys, counts, buf[i]);
      i := i + 1;
    }
    assert buf[..i] == buf;
  }

  /** Replacing the first two trees of the working collection by their
      parent keeps every leaf and the total frequency. */
  lemma {:induction false} MergeKeepsLeaves(nodes: seq<Tree>)
    requires |nodes| >= 2
    ensures var parent := Node(nodes[0], nodes[1], nodes[0].freq + nodes[1].freq);
            ForestLeaves(nodes[2..] + [parent]) == ForestLeaves(nodes) &&
            SumFreq(nodes[2..] + [parent]) == SumFreq(nodes)
  {
    var left, right, rest := nodes[0], nodes[1], nodes[2..];
    var parent := Node(left, right, left.freq + right.freq);
    assert nodes == [left, right] + rest;
    ForestAppend([left, right], rest);
    ForestAppend(rest, [parent]);
    assert ForestLeaves([parent]) == Leaves(left) + Leaves(right);
    assert [left, right][1..] == [right] && [right][1..] == [];
    assert ForestLeaves([left, right]) == Leaves(left) + Leaves(right);
  }

  /** One round of the construction: once the working collection is
      rearranged by the sort, merging its first two trees keeps every tree
      well formed, every leaf and the total frequency, and leaves one tree
      fewer. */
  lemma {:induction false} RoundKeepsForest(nodes: seq<Tree>, sorted: seq<Tree>, next: seq<Tree>)
    requires |nodes| >= 2
    requires forall t | t in nodes :: WellFormed(t)
    requires multiset(sorted) == multiset(nodes)
    requires ForestLeaves(sorted) == ForestLeaves(nodes)
    requires SumFreq(sorted) == SumFreq(nodes)
    requires |sorted| >= 2 && next == sorted[2..] + [Node(sorted[0], sorted[1], sorted[0].freq + sorted[1].freq)]
    ensures |next| == |nodes| - 1
    ensures forall t | t in next :: WellFormed(t)
    ensures ForestLeaves(next) == ForestLeaves(nodes)
    ensures SumFreq(next) == SumFreq(nodes)
  {
    assert |multiset(sorted)| == |multiset(nodes)|;
    MergeKeepsLeaves(sorted);
    var parent := Node(sorted[0], sorted[1], sorted[0].freq + sorted[1].freq);
    forall t | t in sorted ensures WellFormed(t) {
      assert t in multiset(sorted);
      assert t in nodes;
    }
    assert WellFormed(parent);
    forall t | t in next ensures WellFormed(t) {
      if t != parent {
        assert t in sorted[2..];
      }
    }
  }

  lemma {:induction false} SingletonForest(nodes: seq<Tree>)
    requires |nodes| == 1
    ensures ForestLeaves(nodes) == Leaves(nodes[0]) && SumFreq(nodes) == nodes[0].freq
  {
    assert nodes[1..] == [];
  }

  /** One round of the second loop of `buildHuffmanTree`: sort the working
      collection by frequency (stably), take the first two trees and append
      their parent. */
  function MergeRound(nodes: seq<Tree>): (next: seq<Tree>)
    requires |nodes| >= 2
    ensures |next| == |nodes| - 1
  {
    var sorted := SortByFreq(nodes);
    sorted[2..] + [Node(sorted[0], sorted[1], sorted[0].freq + sorted[1].freq)]
  }

  /** The tree the second loop of `buildHuffmanTree` ends with: rounds are
      repeated until one tree is left. */
  function Merged(nodes: seq<Tree>): Tree
    requires |nodes| >= 1
    decreases |nodes|
  {
    if |nodes| == 1 then nodes[0] else Merged(MergeRound(nodes))
  }

  /** Merging a collection of well-formed trees gives a well-formed tree
      that holds every leaf of the collection and their total frequency. */
  lemma {:induction false} MergedKeepsForest(nodes: seq<Tree>)
    requires |nodes| >= 1
    requires forall t | t in nodes :: WellFormed(t)
    ensures WellFormed(Merged(nodes))
    ensures Leaves(Merged(nodes)) == ForestLeaves(nodes)
    ensures Merged(nodes).freq == SumFreq(nodes)
    decreases |nodes|
  {
    if |nodes| == 1 {
      SingletonForest(nodes);
    } else {
      var sorted := SortByFreq(nodes);
      SortKeepsLeaves(nodes);
      RoundKeepsForest(nodes, sorted, MergeRound(nodes));
      MergedKeepsForest(MergeRound(nodes));
    }
  }

  /** Each round merges two trees of least frequency: the new parent is
      the last tree, its children are the two front trees of the sorted
      collection, the other trees are kept, and none of them has a smaller
      frequency than either child. */
  lemma {:induction false} MergeRoundPicksLeast(nodes: seq<Tree>)
    requires |nodes| >= 2
    ensures var next := MergeRound(nodes);
            var p := next[|next| - 1];
            p.Node? && p.freq == p.left.freq + p.right.freq &&
            multiset(next[..|next| - 1]) + multiset{p.left, p.right} == multiset(nodes) &&
            p.left.freq <= p.right.freq &&
            forall t | t in next[..|next| - 1] :: p.right.freq <= t.freq
  {
    var sorted := SortByFreq(nodes);
    SortSorted(nodes);
    FrontTwoLeast(sorted);
    FrontTwoSplit(sorted);
    var next := MergeRound(nodes);
    assert next[..|next| - 1] == sorted[2..];
  }

  /** In a collection sorted by frequency, the first two trees have the
      least frequencies. */
  lemma {:induction false} FrontTwoLeast(sorted: seq<Tree>)
    requires |sorted| >= 2 && SortedByFreq(sorted)
    ensures sorted[0].freq <= sorted[1].freq
    ensures forall t | t in sorted[2..] :: sorted[1].freq <= t.freq
  {
    forall t | t in sorted[2..] ensures sorted[1].freq <= t.freq {
      var k :| 0 <= k < |sorted[2..]| && sorted[2..][k] == t;
      assert t == sorted[k + 2];
    }
  }

  lemma {:induction false} FrontTwoSplit(sorted: seq<Tree>)
    requires |sorted| >= 2
    ensures multiset(sorted[2..]) + multiset{sorted[0], sorted[1]} == multiset(sorted)
  {
    assert sorted == [sorted[0], sorted[1]] + sorted[2..];
  }

  /** Shifting two trees off the sorted collection and pushing their
      parent is one round. */
  lemma {:induction false} ShiftShiftPush(before: seq<Tree>, sorted: seq<Tree>, rest: seq<Tree>)
    requires |before| >= 2 && sorted == SortByFreq(before)
    requires rest == sorted[1..][1..]
    ensures rest + [Node(sorted[0], sorted[1..][0], sorted[0].freq + sorted[1..][0].freq)] == MergeRound(before)
  {
    assert rest == sorted[2..] && sorted[1..][0] == sorted[1];
  }

  /** One iteration of the second loop of `buildHuffmanTree`: sort the
      working collection, shift off the first two trees and push their
      parent. */
  method MergeStep(nodes: seq<Tree>) returns (next: seq<Tree>)
    requires |nodes| >= 2
    ensures next == MergeRound(nodes)
  {
    next := SortByFreq(nodes);
    ghost var sorted := next;
    var left := next[0];
    next := next[1..];
    var right := next[0];
    next := next[1..];
    ShiftShiftPush(nodes, sorted, next);
    next := next + [Node(left, right, left.freq + right.freq)];
  }

  /** The second loop of `buildHuffmanTree`: until one tree is left, sort
      the working collection by frequency, shift off the first two trees and
      push their parent. */
  method MergeNodes(leaves: seq<Tree>) returns (root: Tree)
    requires |leaves| >= 1
    requires forall t | t in leaves :: WellFormed(t)
    ensures root == Merged(leaves)
    ensures WellFormed(root)
    ensures Leaves(root) == ForestLeaves(leaves)
    ensures root.freq == SumFreq(leaves)
  {
    var nodes := leaves;
    while |nodes| > 1
      invariant |nodes| >= 1
      invariant Merged(nodes) == Merged(leaves)
      decreases |nodes|
    {
      nodes := MergeStep(nodes);
    }
    root := nodes[0];
    MergedKeepsForest(leaves);
  }

  /** `buildHuffmanTree`: count the bytes, make one leaf per distinct byte
      in first-occurrence order, and merge them into one tree. */
  method BuildHuffmanTree(buf: seq<byte>) returns (root: Tree)
    requires |buf| > 0
    ensures root == HuffmanTreeOf(buf)
    ensures IsHuffmanTreeFor(root, buf)
  {
    var keys, counts := CountBytes(buf);
    var nodes := LeavesFor(keys, counts);
    FrequencyLeavesAreCounts(buf);
    ForestOfLeaves(nodes);
    FrequencyLeavesSum(buf);
    root := MergeNodes(nodes);
  }

  /** The tree `buildHuffmanTree` builds for a non-empty input. */
  function HuffmanTreeOf(buf: seq<byte>): Tree
    requires |buf| > 0
  {
    FrequencyLeavesAreCounts(buf);
    Merged(FrequencyLeaves(buf))
  }

  /** The tree built for a non-empty input is well formed, its frequency is
      the input's length, and its leaves are exactly one leaf per distinct
      byte of the input, carrying that byte's count. */
  lemma {:induction false} HuffmanTreeOfIsHuffmanTree(buf: seq<byte>)
    requires |buf| > 0
    ensures IsHuffmanTreeFor(HuffmanTreeOf(buf), buf)
  {
    var leaves := FrequencyLeaves(buf);
    FrequencyLeavesAreCounts(buf);
    ForestOfLeaves(leaves);
    FrequencyLeavesSum(buf);
    MergedKeepsForest(leaves);
  }

  /** Distinct values below `n` number at most `n`. */
  lemma {:induction false} NoDuplicatesBelow(d: seq<byte>, n: nat)
    requires NoDuplicates(d)
    requires forall i | 0 <= i < |d| :: d[i] < n
    ensures |d| <= n
  {
    if |d| > 0 {
      assert 0 <= d[0] < n;
      if k :| 0 <= k < |d| && d[k] == n - 1 {
        var e := d[..k] + d[k + 1..];
        assert |e| == |d| - 1;
        forall i | 0 <= i < |e| ensures e[i] == (if i < k then d[i] else d[i + 1]) {
        }
        NoDuplicatesBelow(e, n - 1);
      } else {
        NoDuplicatesBelow(d, n - 1);
      }
    }
  }

  /** An input holds at most 256 distinct bytes. */
  lemma {:induction false} DistinctBound(buf: seq<byte>)
    ensures |Distinct(buf)| <= 256
  {
    NoDuplicatesBelow(Distinct(buf), 256);
  }

  /** The leaves of the tree built for an input hold exactly the bytes of
      the input, and there is one leaf per distinct byte. */
  lemma {:induction false} TreeBytes(buf: seq<byte>)
    requires |buf| > 0
    ensures forall b :: b in LeafBytes(HuffmanTreeOf(buf)) <==> b in buf
    ensures |Leaves(HuffmanTreeOf(buf))| == |Distinct(buf)|
  {
    var root := HuffmanTreeOf(buf);
    HuffmanTreeOfIsHuffmanTree(buf);
    FrequencyLeavesAreCounts(buf);
    forall b ensures b in LeafBytes(root) <==> b in buf {
      if b in buf {
        var x := Leaf(b, multiset(buf)[b]);
        assert x in FrequencyLeaves(buf);
        assert x in Leaves(root);
        LeavesAreLeaves(root, x);
      }
      if b in LeafBytes(root) {
        LeafBytesHaveLeaves(root, b);
        var x :| x in Leaves(root) && x.Leaf? && x.value == b;
        assert x in FrequencyLeaves(buf);
      }
    }
  }

  /** A tree has one leaf exactly when it is a single leaf. */
  lemma {:induction false} LeafCount(t: Tree)
    ensures t.Leaf? <==> |Leaves(t)| == 1
  {
    if t.Node? {
      assert |Leaves(t)| == |Leaves(t.left)| + |Leaves(t.right)|;
    }
  }

  /** An input has two different bytes exactly when its distinct bytes
      number at least two. */
  lemma {:induction false} TwoDistinctCount(buf: seq<byte>)
    requires |buf| > 0
    ensures TwoDistinct(buf) <==> |Distinct(buf)| >= 2
  {
    var d := Distinct(buf);
    assert buf[0] in d;
    if TwoDistinct(buf) {
      var i, j :| 0 <= i < |buf| && 0 <= j < |buf| && buf[i] != buf[j];
      assert buf[i] in d && buf[j] in d;
    }
    if |d| >= 2 {
      assert d[0] in buf && d[1] in buf;
      var i :| 0 <= i < |buf| && buf[i] == d[0];
      var j :| 0 <= j < |buf| && buf[j] == d[1];
    }
  }

  /** The root of the tree built for an input is an internal node exactly
      when the input holds two different bytes; otherwise it is the single
      leaf of the only byte. */
  lemma {:induction false} RootIsNode(buf: seq<byte>)
    requires |buf| > 0
    ensures HuffmanTreeOf(buf).Node? <==> TwoDistinct(buf)
    ensures HuffmanTreeOf(buf).Leaf? ==> HuffmanTreeOf(buf).value == buf[0]
  {
    var root := HuffmanTreeOf(buf);
    TreeBytes(buf);
    LeafCount(root);
    TwoDistinctCount(buf);
    assert buf[0] in LeafBytes(root);
  }
}
