/** The run-length container (`rle` and `rleDecompress` in backend/app.js):
    the header `"RLE"` followed by one (count, byte) pair per run, with runs
    of at most 255 equal bytes. */
module Rle {
  import opened Errors
  import opened Bytes

  /** The inner `while` of `rle`: starting from `count` bytes at `i`,
      extend the run while the next byte is the same and the count is below
      255. The result, the length of the run at `i`, lies between `count`
      and 255 and stays inside the input; `RunFromUniform` and
      `RunFromMaximal` say that the run is made of equal bytes and is as
      long as possible. */
  function RunFrom(s: seq<byte>, i: nat, count: nat): (n: nat)
    requires i < |s| && 1 <= count <= 255 && i + count <= |s|
    ensures count <= n <= 255 && i + n <= |s|
    decreases 255 - count
  {
    if i + count < |s| && s[i] == s[i + count] && count < 255 then RunFrom(s, i, count + 1)
    else count
  }

  /** The length of the run that starts at `i`. */
  function RunLength(s: seq<byte>, i: nat): (n: nat)
    requires i < |s|
    ensures 1 <= n <= 255 && i + n <= |s|
  {
    RunFrom(s, i, 1)
  }

  /** A run is made of equal bytes. */
  lemma {:induction false} RunFromUniform(s: seq<byte>, i: nat, count: nat)
    requires i < |s| && 1 <= count <= 255 && i + count <= |s|
    requires forall k | i <= k < i + count :: s[k] == s[i]
    ensures forall k | i <= k < i + RunFrom(s, i, count) :: s[k] == s[i]
    decreases 255 - count
  {
    if i + count < |s| && s[i] == s[i + count] && count < 255 {
      RunFromUniform(s, i, count + 1);
    }
  }

  /** A run stops only at the end of the input, at a different byte, or at
      255 bytes. */
  lemma {:induction false} RunFromMaximal(s: seq<byte>, i: nat, count: nat)
    requires i < |s| && 1 <= count <= 255 && i + count <= |s|
    ensures var n := RunFrom(s, i, count);
            i + n < |s| && n < 255 ==> s[i + n] != s[i]
    decreases 255 - count
  {
    if i + count < |s| && s[i] == s[i + count] && count < 255 {
      RunFromMaximal(s, i, count + 1);
    }
  }

  /** The (count, byte) pairs `rle` pushes for the input from `i` on. */
  function RunPairs(s: seq<byte>, i: nat): seq<byte>
    decreases |s| - i
  {
    if i >= |s| then []
    else
      var n := RunLength(s, i);
      [n, s[i]] + RunPairs(s, i + n)
  }

  /** `rle` as a function of its input. */
  function Encoded(buf: seq<byte>): seq<byte> {
    RleMagic + RunPairs(buf, 0)
  }

  /** `Array(count).fill(value)`. */
  function Repeat(value: byte, count: nat): (r: seq<byte>)
    ensures |r| == count && forall k | 0 <= k < count :: r[k] == value
  {
    seq(count, _ => value)
  }

  /** The loop of `rleDecompress` from position `i` on: each pair repeats
      its byte `count` times. A count without a byte (an odd trailing byte)
      fills with `undefined`, which `Buffer.from` turns into zeros. */
  function ExpandFrom(buf: seq<byte>, i: nat): seq<byte>
    decreases |buf| - i
  {
    if i >= |buf| then []
    else Repeat(if i + 1 < |buf| then buf[i + 1] else 0, buf[i]) + ExpandFrom(buf, i + 2)
  }

  /** `rleDecompress` as a function of its input. */
  function Decoded(buf: seq<byte>): (r: Result<seq<byte>>)
    ensures r.Failure? <==> |buf| < 3 || buf[..3] != RleMagic
    ensures r.Failure? ==> r.error == InvalidRleFile
  {
    if |buf| < 3 || buf[..3] != RleMagic then Failure(InvalidRleFile)
    else Success(ExpandFrom(buf, 3))
  }

  /** Expanding one pair in front of the rest of the buffer. */
  lemma {:induction false} ExpandPair(before: seq<byte>, count: byte, value: byte, rest: seq<byte>)
    ensures ExpandFrom(before + [count, value] + rest, |before|)
         == Repeat(value, count) + ExpandFrom(before + [count, value] + rest, |before| + 2)
  {
    var buf := before + [count, value] + rest;
    assert buf[|before|] == count && buf[|before| + 1] == value;
  }

  /** The input from `i` on is its first run followed by the rest. */
  lemma {:induction false} RunThenRest(s: seq<byte>, i: nat)
    requires i < |s|
    ensures s[i..] == Repeat(s[i], RunLength(s, i)) + s[i + RunLength(s, i)..]
  {
    var n := RunLength(s, i);
    RunFromUniform(s, i, 1);
    var r := Repeat(s[i], n) + s[i + n..];
    assert |r| == |s[i..]|;
    forall k | 0 <= k < |r| ensures r[k] == s[i..][k] {
      if k < n {
        assert r[k] == s[i] == s[i + k];
      } else {
        assert r[k] == s[i + n..][k - n];
      }
    }
  }

  /** Expanding the pairs of the input from `i` on, wherever they are
      placed, gives the input from `i` on. */
  lemma {:induction false} ExpandRunPairs(s: seq<byte>, i: nat, before: seq<byte>)
    requires i <= |s|
    ensures ExpandFrom(before + RunPairs(s, i), |before|) == s[i..]
    decreases |s| - i
  {
    if i < |s| {
      var n := RunLength(s, i);
      var rest := RunPairs(s, i + n);
      var before' := before + [n as byte, s[i]];
      assert before + RunPairs(s, i) == before' + rest;
      ExpandPair(before, n as byte, s[i], rest);
      ExpandRunPairs(s, i + n, before');
      RunThenRest(s, i);
    } else {
      assert before + [] == before;
    }
  }

  /** The round trip of the run-length container. */
  lemma {:induction false} RleRoundTrip(s: seq<byte>)
    ensures Decoded(Encoded(s)) == Success(s)
  {
    ExpandRunPairs(s, 0, RleMagic);
    assert Encoded(s)[..3] == RleMagic;
  }

  /** The pairs come two by two; every count is between 1 and 255; and two
      neighbouring runs repeat the same byte only when the first one is
      full (255 bytes): every run is as long as the format allows. */
  lemma {:induction false} RunPairsShape(s: seq<byte>, i: nat)
    ensures |RunPairs(s, i)| % 2 == 0
    ensures forall k | 0 <= k < |RunPairs(s, i)| && k % 2 == 0 :: 1 <= RunPairs(s, i)[k] <= 255
    ensures forall k | 0 <= k && k + 3 < |RunPairs(s, i)| && k % 2 == 0 ::
              RunPairs(s, i)[k + 1] == RunPairs(s, i)[k + 3] ==> RunPairs(s, i)[k] == 255
    decreases |s| - i
  {
    if i < |s| {
      var n := RunLength(s, i);
      var p, rest := RunPairs(s, i), RunPairs(s, i + n);
      assert p == [n as byte, s[i]] + rest;
      RunPairsShape(s, i + n);
      RunFromMaximal(s, i, 1);
      if rest != [] {
        assert rest[1] == s[i + n];
      }
      forall k | 0 <= k < |p| && k % 2 == 0 ensures 1 <= p[k] <= 255 {
        if k >= 2 {
          assert p[k] == rest[k - 2];
        }
      }
      forall k | 0 <= k && k + 3 < |p| && k % 2 == 0 && p[k + 1] == p[k + 3] ensures p[k] == 255 {
        if k >= 2 {
          assert p[k] == rest[k - 2] && p[k + 1] == rest[k - 1] && p[k + 3] == rest[k + 1];
        }
      }
    }
  }

  /** The counts add up to the length of the input. */
  function SumCounts(p: seq<byte>): nat
    decreases |p|
  {
    if |p| < 2 then 0 else p[0] + SumCounts(p[2..])
  }

  lemma {:induction false} RunPairsCount(s: seq<byte>, i: nat)
    requires i <= |s|
    ensures SumCounts(RunPairs(s, i)) == |s| - i
    decreases |s| - i
  {
    if i < |s| {
      var n := RunLength(s, i);
      var p := RunPairs(s, i);
      assert p[2..] == RunPairs(s, i + n);
      RunPairsCount(s, i + n);
    }
  }

  /** An example: `[1, 1, 1, 2, 2, 3]` is stored as three runs. */
  lemma {:induction false} ShortExample()
    ensures Encoded([1, 1, 1, 2, 2, 3]) == RleMagic + [3, 1, 2, 2, 1, 3]
  {
    var s: seq<byte> := [1, 1, 1, 2, 2, 3];
    assert RunFrom(s, 0, 3) == 3;
    assert RunFrom(s, 0, 2) == 3;
    assert RunLength(s, 0) == 3;
    assert RunFrom(s, 3, 2) == 2;
    assert RunLength(s, 3) == 2;
    assert RunLength(s, 5) == 1;
    assert RunPairs(s, 6) == [];
    assert RunPairs(s, 5) == [1, 3];
    assert RunPairs(s, 3) == [2, 2, 1, 3];
  }

  /** A run longer than 255 bytes is cut after 255 bytes. */
  lemma {:induction false} LongRunFrom(s: seq<byte>, i: nat, count: nat)
    requires i + 255 < |s| && 1 <= count <= 255
    requires forall k | i <= k <= i + 255 :: s[k] == s[i]
    ensures RunFrom(s, i, count) == 255
    decreases 255 - count
  {
    if count < 255 {
      LongRunFrom(s, i, count + 1);
    }
  }

  lemma {:induction false} LongRunSplits(s: seq<byte>, i: nat)
    requires i + 255 < |s|
    requires forall k | i <= k <= i + 255 :: s[k] == s[i]
    ensures RunPairs(s, i)[..2] == [255, s[i]]
  {
    LongRunFrom(s, i, 1);
  }

  /** A run that reaches the end of the input within 255 bytes ends there. */
  lemma {:induction false} RunToEnd(s: seq<byte>, i: nat, count: nat)
    requires i < |s| && 1 <= count <= 255 && i + count <= |s| && |s| - i <= 255
    requires forall k | i <= k < |s| :: s[k] == s[i]
    ensures RunFrom(s, i, count) == |s| - i
    decreases 255 - count
  {
    if i + count < |s| {
      RunToEnd(s, i, count + 1);
    }
  }

  /** An example: a run of 300 equal bytes is stored as a full run of 255
      and a run of 45. */
  lemma {:induction false} ThreeHundredRun(v: byte)
    ensures Encoded(Repeat(v, 300)) == RleMagic + [255, v, 45, v]
  {
    var s := Repeat(v, 300);
    LongRunFrom(s, 0, 1);
    RunToEnd(s, 255, 1);
    assert RunPairs(s, 300) == [];
    assert RunPairs(s, 255) == [45, v];
    assert RunPairs(s, 0) == [255, v, 45, v];
  }

  /** From a position an even number of bytes before the last one, the
      pairs expand as they do without the last byte, followed by that many
      zero bytes. */
  lemma {:induction false} ExpandOddTail(buf: seq<byte>, i: nat)
    requires i <= |buf| - 1 && (|buf| - 1 - i) % 2 == 0
    ensures ExpandFrom(buf, i) == ExpandFrom(buf[..|buf| - 1], i) + Repeat(0, buf[|buf| - 1])
    decreases |buf| - i
  {
    var p := buf[..|buf| - 1];
    if i == |buf| - 1 {
      assert ExpandFrom(buf, i + 2) == [];
      assert ExpandFrom(p, i) == [];
    } else {
      assert p[i] == buf[i] && p[i + 1] == buf[i + 1];
      ExpandOddTail(buf, i + 2);
      var run := Repeat(buf[i + 1], buf[i]);
      assert ExpandFrom(buf, i) == run + ExpandFrom(buf, i + 2);
      assert ExpandFrom(p, i) == run + ExpandFrom(p, i + 2);
    }
  }

  /** A payload of odd length decodes like the payload without its last
      byte, followed by as many zero bytes as that last byte says: the
      count has no value, and the `undefined` fill becomes 0. */
  lemma {:induction false} OddTrailingByte(buf: seq<byte>)
    requires |buf| >= 4 && buf[..3] == RleMagic && (|buf| - 3) % 2 == 1
    ensures Decoded(buf[..|buf| - 1]).Success?
    ensures Decoded(buf) == Success(Decoded(buf[..|buf| - 1]).value + Repeat(0, buf[|buf| - 1]))
  {
    assert buf[..|buf| - 1][..3] == RleMagic;
    ExpandOddTail(buf, 3);
  }

  /** An example: `RLE` followed by `2, 5, 3` decodes to two 5s and three
      zeros. */
  lemma {:induction false} OddExample()
    ensures Decoded(RleMagic + [2, 5, 3]) == Success([5, 5, 0, 0, 0])
  {
    var buf := RleMagic + [2, 5, 3];
    assert buf == [82, 76, 69, 2, 5, 3];
    assert buf[..3] == RleMagic;
    assert ExpandFrom(buf, 7) == [];
    assert Repeat(0, 3) == [0, 0, 0];
    assert ExpandFrom(buf, 5) == [0, 0, 0];
    assert Repeat(5, 2) == [5, 5];
    assert ExpandFrom(buf, 3) == [5, 5] + [0, 0, 0] == [5, 5, 0, 0, 0];
    assert Decoded(buf) == Success(ExpandFrom(buf, 3));
  }

  /** A buffer that does not start with `"RLE"` is rejected. */
  lemma {:induction false} RejectsForeignHeader(buf: seq<byte>)
    requires |buf| < 3 || buf[..3] != RleMagic
    ensures Decoded(buf) == Failure(InvalidRleFile)
  {
  }

  /** The inner `while` of `rle`: count the run that starts at `i`. */
  method ScanRun(buf: seq<byte>, i: nat) returns (count: nat)
    requires i < |buf|
    ensures count == RunLength(buf, i)
  {
    count := 1;
    while i + count < |buf| && buf[i] == buf[i + count] && count < 255
      invariant 1 <= count <= 255 && i + count <= |buf|
      invariant RunFrom(buf, i, count) == RunLength(buf, i)
      decreases 255 - count
    {
      count := count + 1;
    }
  }

  /** `rle`: scan the input run by run and push each run's (count, byte)
      pair. */
  method Compress(buf: seq<byte>) returns (out: seq<byte>)
    ensures out == Encoded(buf)
    ensures Decoded(out) == Success(buf)
  {
    var compressed: seq<byte> := [];
    var i := 0;
    while i < |buf|
      invariant i <= |buf|
      invariant compressed + RunPairs(buf, i) == RunPairs(buf, 0)
      decreases |buf| - i
    {
      var count := ScanRun(buf, i);
      assert RunPairs(buf, i) == [count as byte, buf[i]] + RunPairs(buf, i + count);
      assert compressed + ([count as byte, buf[i]] + RunPairs(buf, i + count))
          == (compressed + [count as byte, buf[i]]) + RunPairs(buf, i + count);
      compressed := compressed + [count as byte, buf[i]];
      i := i + count;
    }
    assert compressed + [] == compressed;
    out := RleMagic + compressed;
    RleRoundTrip(buf);
  }

  /** `rleDecompress`: check the header, then expand the pairs two bytes at
      a time. */
  method Decompress(buf: seq<byte>) returns (r: Result<seq<byte>>)
    ensures r == Decoded(buf)
  {
    if |buf| < 3 || buf[..3] != RleMagic {
      return Failure(InvalidRleFile);
    }
    var decompressed: seq<byte> := [];
    var i := 3;
    while i < |buf|
      invariant 3 <= i <= |buf| + 1
      invariant decompressed + ExpandFrom(buf, i) == ExpandFrom(buf, 3)
      decreases |buf| + 1 - i
    {
      var count := buf[i];
      var value := if i + 1 < |buf| then buf[i + 1] else 0;
      assert decompressed + (Repeat(value, count) + ExpandFrom(buf, i + 2))
          == (decompressed + Repeat(value, count)) + ExpandFrom(buf, i + 2);
      decompressed := decompressed + Repeat(value, count);
      i := i + 2;
    }
    assert decompressed + [] == decompressed;
    return Success(decompressed);
  }
}
