/** Types shared by every stage of the codec. */
module Types {

  /** One byte of a file. Input symbols are the bytes below 128. */
  type Byte = b: int | 0 <= b < 256

  /** The two copies of the codec: class `HuffmanTree` (HuffmanTree.cpp) and
      class `Huffman` (huffman.hpp). They differ in the header sentinel, the
      unescape table and the loop condition of tree building. */
  datatype Variant = HuffmanTreeClass | HuffmanClass

  /** The ways a run of the codec goes wrong. In the source each of the
      first five is undefined behaviour (reading the top of an empty queue,
      dereferencing a null node, indexing the table with a negative `char`,
      reading an uninitialised count), not a reported error; the last two
      are reported only by the repaired codec. */
  datatype Error =
    | EmptyQueue       // `top()` of an empty priority queue
    | NullRoot         // the root pointer is still null
    | NullChild        // a bit is walked below a leaf
    | BadLine          // a header line whose count is never read: no token, or none after it
    | BadSymbol        // a header token naming a byte outside the 128-entry table
    | NoEndMarker      // repaired reader: the header ends before its sentinel line
    | BadPadding       // repaired reader: no padding count after the header
}
