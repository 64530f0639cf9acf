/** Bytes and words: as bits where the code shifts and masks them, as numbers where it counts. */
module ByteTypes {
  type byte = bv8
  type word = bv32
  type octet = x: int | 0 <= x < 256

  /** Two adjoining pieces of d, appended one after the other. */
  lemma Glue<T>(w: seq<T>, d: seq<T>, from: nat, mid: nat, to: nat)
    requires from <= mid <= to <= |d|
    ensures (w + d[from..mid]) + d[mid..to] == w + d[from..to]
  {
  }
}
