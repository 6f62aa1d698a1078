/** What the `/compress` and `/decompress` handlers of backend/app.js decide,
    without the HTTP and file-system plumbing: the empty-upload check, the
    choice of codec by the `algorithm` field, and the names of the files
    they write. */
module Routes {
  import opened Errors
  import opened Bytes
  import HuffmanTree
  import Huffman
  import Rle
  import opened FileName

  /** The extensions `/compress` appends, without their leading dot. */
  const HufExtension: string := "huf"
  const RleExtension: string := "rle"

  /** The `/compress` handler: reject an empty upload, pick the codec, and
      name the output after the uploaded file plus `.huf` or `.rle`. The
      answer is the compressed bytes and the output file name. */
  function CompressRoute(buf: seq<byte>, algorithm: string, name: string): (r: Result<(seq<byte>, string)>)
    ensures |buf| == 0 ==> r == Failure(EmptyInput)
    ensures |buf| > 0 && algorithm != "huffman" && algorithm != "rle" ==> r == Failure(UnsupportedAlgorithm)
    ensures r.Failure? ==> r.error in {EmptyInput, UnsupportedAlgorithm}
  {
    if |buf| == 0 then Failure(EmptyInput)
    else if algorithm == "huffman" then Success((Huffman.Container(buf), name + "." + HufExtension))
    else if algorithm == "rle" then Success((Rle.Encoded(buf), name + "." + RleExtension))
    else Failure(UnsupportedAlgorithm)
  }

  /** The `/decompress` handler: reject an empty upload, pick the codec,
      decompress (whose errors become the answer), then recover the original
      file name. The answer is the decompressed bytes and that name. */
  function DecompressRoute(buf: seq<byte>, algorithm: string, name: string): (r: Result<(seq<byte>, string)>)
    ensures |buf| == 0 ==> r == Failure(EmptyInput)
    ensures |buf| > 0 && algorithm != "huffman" && algorithm != "rle" ==> r == Failure(UnsupportedAlgorithm)
  {
    if |buf| == 0 then Failure(EmptyInput)
    else
      var output :-
        if algorithm == "huffman" then Huffman.Decoded(buf)
        else if algorithm == "rle" then Rle.Decoded(buf)
        else Failure(UnsupportedAlgorithm);
      var original :- RestoredName(name);
      Success((output, original))
  }

  /** The `/decompress` answer for an upload that its codec decodes and
      whose name carries the original name plus a container extension. */
  lemma {:induction false} DecompressRouteOf(out: seq<byte>, algorithm: string, name: string, ext: string, buf: seq<byte>)
    requires algorithm == "huffman" || algorithm == "rle"
    requires algorithm == "huffman" ==> Huffman.Decoded(out) == Success(buf)
    requires algorithm == "rle" ==> Rle.Decoded(out) == Success(buf)
    requires '.' in name && '.' !in ext
    ensures DecompressRoute(out, algorithm, name + "." + ext) == Success((buf, name))
  {
    ContainerNameRoundTrip(name, ext);
  }

  /** For a non-empty upload and a supported algorithm, `/compress` answers
      with that codec's container and the uploaded name plus the codec's
      extension. */
  lemma {:induction false} CompressRouteOf(buf: seq<byte>, name: string)
    requires |buf| > 0
    ensures CompressRoute(buf, "huffman", name) == Success((Huffman.Container(buf), name + "." + HufExtension))
    ensures CompressRoute(buf, "rle", name) == Success((Rle.Encoded(buf), name + "." + RleExtension))
  {
  }

  /** End to end with Huffman coding: uploading the output of `/compress`,
      under the name it was given, to `/decompress` gives back the original
      bytes and file name, provided the name has an extension and the input
      holds two different bytes. */
  lemma {:induction false} HuffmanRoutesRoundTrip(buf: seq<byte>, name: string)
    requires |buf| > 0 && '.' in name && HuffmanTree.TwoDistinct(buf)
    ensures DecompressRoute(Huffman.Container(buf), "huffman", name + "." + HufExtension) == Success((buf, name))
  {
    var out := Huffman.Container(buf);
    assert Huffman.Decoded(out) == Success(buf) by {
      Huffman.HuffmanRoundTrip(buf);
    }
    DecompressRouteOf(out, "huffman", name, HufExtension, buf);
  }

  /** End to end with run-length coding: the same, for any non-empty input
      whose name has an extension. */
  lemma {:induction false} RleRoutesRoundTrip(buf: seq<byte>, name: string)
    requires |buf| > 0 && '.' in name
    ensures DecompressRoute(Rle.Encoded(buf), "rle", name + "." + RleExtension) == Success((buf, name))
  {
    Rle.RleRoundTrip(buf);
    DecompressRouteOf(Rle.Encoded(buf), "rle", name, RleExtension, buf);
  }
}
