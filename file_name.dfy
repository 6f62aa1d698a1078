/** The original file name the decompress route recovers from the name of
    the uploaded container (backend/app.js, the `/decompress` handler): the
    name is split on `"."`, at least three parts are required, and the last
    part (the container's extension) is dropped. */
module FileName {
  import opened Errors

  /** `s.split(sep)`: the maximal pieces of `s` between separators, from
      left to right; there is always one more piece than separators. */
  function Split(s: string, sep: char): (parts: seq<string>)
    ensures |parts| >= 1
    ensures forall i | 0 <= i < |parts| :: sep !in parts[i]
  {
    if s == [] then [""]
    else
      var rest := Split(s[1..], sep);
      if s[0] == sep then [""] + rest
      else [[s[0]] + rest[0]] + rest[1..]
  }

  /** `parts.join(sep)`. */
  function Join(parts: seq<string>, sep: char): string
    requires |parts| >= 1
  {
    if |parts| == 1 then parts[0] else parts[0] + [sep] + Join(parts[1..], sep)
  }

  /** The number of occurrences of `c` in `s`. */
  function Occurrences(s: string, c: char): nat {
    if s == [] then 0 else (if s[0] == c then 1 else 0) + Occurrences(s[1..], c)
  }

  /** Joining the pieces of a split gives the string back, and there is one
      piece more than there are separators. */
  lemma {:induction false} JoinSplit(s: string, sep: char)
    ensures Join(Split(s, sep), sep) == s
    ensures |Split(s, sep)| == Occurrences(s, sep) + 1
  {
    if s != [] {
      var rest := Split(s[1..], sep);
      JoinSplit(s[1..], sep);
      if s[0] == sep {
        assert ([""] + rest)[1..] == rest;
      } else {
        var parts := Split(s, sep);
        if |rest| > 1 {
          assert parts[1..] == rest[1..];
          assert Join(rest, sep) == rest[0] + [sep] + Join(rest[1..], sep);
        }
      }
      assert s == [s[0]] + s[1..];
    }
  }

  /** Joining all pieces but the last one, then the separator and the last
      one, is the same as joining them all. */
  lemma {:induction false} JoinSnoc(parts: seq<string>, sep: char)
    requires |parts| >= 2
    ensures Join(parts, sep) == Join(parts[..|parts| - 1], sep) + [sep] + parts[|parts| - 1]
  {
    if |parts| > 2 {
      JoinSnoc(parts[1..], sep);
      assert parts[1..][..|parts| - 2] == parts[..|parts| - 1][1..];
    }
  }

  /** The original name: `parts.slice(0, n - 2).join(".")` followed by
      `"." + parts[n - 2]`; fewer than three parts answer "Compressed file
      must include original extension". */
  function RestoredName(name: string): (r: Result<string>)
    ensures r.Failure? ==> r.error == MissingExtension
  {
    var parts := Split(name, '.');
    var n := |parts|;
    if n < 3 then Failure(MissingExtension)
    else Success(Join(parts[..n - 2], '.') + "." + parts[n - 2])
  }

  /** A name is accepted exactly when it holds at least two dots, and then
      the original name is the uploaded name without its last extension:
      the uploaded name is the original name, a dot, and a last part with
      no dot. */
  lemma {:induction false} RestoredNameDropsLastExtension(name: string)
    ensures RestoredName(name).Success? <==> Occurrences(name, '.') >= 2
    ensures RestoredName(name).Success? ==>
      exists ext :: '.' !in ext && name == RestoredName(name).value + "." + ext
  {
    var parts := Split(name, '.');
    var n := |parts|;
    JoinSplit(name, '.');
    if n >= 3 {
      var init := parts[..n - 1];
      JoinSnoc(parts, '.');
      JoinSnoc(init, '.');
      assert init[..n - 2] == parts[..n - 2];
      assert name == RestoredName(name).value + "." + parts[n - 1];
    }
  }

  /** Splitting pieces without separators that were joined gives the pieces
      back. */
  lemma {:induction false} SplitJoin(parts: seq<string>, sep: char)
    requires |parts| >= 1
    requires forall i | 0 <= i < |parts| :: sep !in parts[i]
    ensures Split(Join(parts, sep), sep) == parts
  {
    if |parts| == 1 {
      SplitNoSeparator(parts[0], sep);
    } else {
      SplitJoin(parts[1..], sep);
      SplitPrefix(parts[0], sep, Join(parts[1..], sep));
      assert parts == [parts[0]] + parts[1..];
    }
  }

  /** A string without separators is one piece. */
  lemma {:induction false} SplitNoSeparator(s: string, sep: char)
    requires sep !in s
    ensures Split(s, sep) == [s]
  {
    if s != [] {
      SplitNoSeparator(s[1..], sep);
      assert s == [s[0]] + s[1..];
    }
  }

  /** A piece without separators, a separator and a rest split into the
      piece followed by the pieces of the rest. */
  lemma {:induction false} SplitPrefix(a: string, sep: char, rest: string)
    requires sep !in a
    ensures Split(a + [sep] + rest, sep) == [a] + Split(rest, sep)
  {
    if a == [] {
      assert a + [sep] + rest == [sep] + rest;
      assert ([sep] + rest)[1..] == rest;
    } else {
      SplitPrefix(a[1..], sep, rest);
      assert (a + [sep] + rest)[1..] == a[1..] + [sep] + rest;
      assert a == [a[0]] + a[1..];
    }
  }

  /** The decompress side undoes the compress side: a container named after
      a file name with an extension, plus the container's extension, gives
      the file name back; a file name without a dot gives a container name
      that is rejected. */
  lemma {:induction false} ContainerNameRoundTrip(name: string, ext: string)
    requires '.' !in ext
    ensures '.' in name ==> RestoredName(name + "." + ext) == Success(name)
    ensures '.' !in name ==> RestoredName(name + "." + ext) == Failure(MissingExtension)
  {
    var full := name + "." + ext;
    var parts := Split(name, '.');
    JoinSplit(name, '.');
    SplitJoin(parts + [ext], '.');
    JoinSnoc(parts + [ext], '.');
    assert (parts + [ext])[..|parts|] == parts;
    assert Join(parts + [ext], '.') == full;
    if '.' in name {
      var k :| 0 <= k < |name| && name[k] == '.';
      OccurrencesPositive(name, '.', k);
      var n := |parts|;
      JoinSnoc(parts, '.');
      assert (parts + [ext])[..n - 1] == parts[..n - 1];
    } else {
      OccurrencesZero(name, '.');
    }
  }

  lemma {:induction false} OccurrencesPositive(s: string, c: char, k: nat)
    requires k < |s| && s[k] == c
    ensures Occurrences(s, c) >= 1
  {
    if k > 0 {
      OccurrencesPositive(s[1..], c, k - 1);
    }
  }

  lemma {:induction false} OccurrencesZero(s: string, c: char)
    requires c !in s
    ensures Occurrences(s, c) == 0
  {
    if s != [] {
      OccurrencesZero(s[1..], c);
    }
  }

  /** An example: `report.txt.huf` is restored to `report.txt`. */
  lemma {:induction false} Example()
    ensures RestoredName("report.txt.huf") == Success("report.txt")
  {
    ContainerNameRoundTrip("report.txt", "huf");
    assert "report.txt" + "." + "huf" == "report.txt.huf";
  }
}
