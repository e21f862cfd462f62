/** Octets, as JavaScript's `Uint8Array` elements hold them. */
module Bytes {

  type byte = b: int | 0 <= b < 256

  /** `Uint8Array.from(Array(n).fill(b))`. */
  function Fill(n: nat, b: byte): (r: seq<byte>)
    ensures |r| == n
    ensures forall i :: 0 <= i < n ==> r[i] == b
  {
    seq(n, _ => b)
  }
}
