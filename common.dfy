/** Values shared by every stage of the Huffman pipeline: octets, the two
    bit-characters of the encoded data region, and the error results that
    stand for the places where the original program throws, loops forever
    or reads past the end of its input. */
module Common {

  /** One octet of a file (the original works on `char`; only equality of
      letters matters to the algorithm, so signedness plays no part). */
  newtype byte = x: int | 0 <= x < 0x100

  /** ASCII '0' and '1': the tree markers and the bit-characters of the
      encoded data, one octet per code bit. */
  const ZERO: byte := 48
  const ONE: byte := 49

  /** ASCII line feed, appended by the line-by-line reading of the data region. */
  const NEWLINE: byte := 10

  datatype Error =
    | EmptyInput        // no symbol to build a tree from
    | UnknownSymbol     // `codes.at(c)` throws: c has no code
    | TruncatedStream   // a read at or past the end of the input
    | NonTerminating    // the decode loop would spin forever on a lone-leaf tree

  datatype Option<+T> = None | Some(value: T)

  datatype Result<+T> = Ok(value: T) | Err(error: Error)

  /** Every octet of `s` is a bit-character. */
  predicate IsBits(s: seq<byte>)
  {
    forall i :: 0 <= i < |s| ==> s[i] == ZERO || s[i] == ONE
  }

  /** `p` is a prefix of `q`. */
  predicate IsPrefix(p: seq<byte>, q: seq<byte>)
  {
    |p| <= |q| && q[..|p|] == p
  }
}
