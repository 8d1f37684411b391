/** Byte sequences, ASCII literals over them, and the Option wrapper used by
    the locator and the codec oracles. */
module Bytes {

  /** One octet of the input document, as Go's `byte`. */
  type byte = b: int | 0 <= b < 256

  /** The conventional Some/None wrapper. */
  datatype Option<+T> = None | Some(value: T)

  /** The bytes of an ASCII string literal, one byte per character. */
  function Lit(s: string): (r: seq<byte>)
    ensures |r| == |s|
    ensures forall i :: 0 <= i < |s| && s[i] as int < 256 ==> r[i] == s[i] as int
  {
    seq(|s|, i requires 0 <= i < |s| => (s[i] as int) % 256)
  }

  /** The word `w` occurs in `d` starting at position `i`. */
  predicate OccursAt(d: seq<byte>, i: nat, w: seq<byte>)
  {
    i + |w| <= |d| && d[i..i + |w|] == w
  }
}
