/** Failure values of the codec core.

    The first six variants are the errors the server reports (the exception
    messages of `huffmanDecompress`, `rleDecompress` and
    `deserializeTreeBuffer`, and the 400 answers of the two routes). The last
    two are exceptions the JavaScript runtime throws on its own, which the
    decompress route reports the same way. */
module Errors {

  datatype Error =
    | EmptyInput            // "Uploaded file is empty"
    | UnsupportedAlgorithm  // "Unsupported algorithm"
    | InvalidHuffmanFile    // "Invalid Huffman file"
    | InvalidRleFile        // "Invalid RLE file"
    | MalformedTree         // "Malformed Huffman tree."
    | MissingExtension      // "Compressed file must include original extension"
    | OutOfRange            // RangeError of `readUInt32BE` past the buffer's end
    | NullNode              // TypeError: a step from a leaf to its missing child

  /** The outcome of an operation that can throw. */
  datatype Result<+T> = Success(value: T) | Failure(error: Error) {

    predicate IsFailure() {
      Failure?
    }

    function PropagateFailure<U>(): Result<U>
      requires Failure?
    {
      Failure(error)
    }

    function Extract(): T
      requires Success?
    {
      value
    }
  }
}
