/** The sixteen-bit words of the bitsliced AES. */
module Slices {
  import opened Sbox

  /** A uint16_t seen as its sixteen bits, the lowest first. */
  type Slice = s: seq<bool> | |s| == 16 witness seq(16, k => false)

  function XorSlice(x: Slice, y: Slice): (r: Slice) {
    seq(16, k requires 0 <= k < 16 => x[k] != y[k])
  }

  function AndSlice(x: Slice, y: Slice): (r: Slice) {
    seq(16, k requires 0 <= k < 16 => x[k] && y[k])
  }

  function NotSlice(x: Slice): (r: Slice) {
    seq(16, k requires 0 <= k < 16 => !x[k])
  }

  function OrSlice(x: Slice, y: Slice): (r: Slice) {
    seq(16, k requires 0 <= k < 16 => x[k] || y[k])
  }

  /** x << n; bits moved beyond the sixteenth are lost. */
  function Left(x: Slice, n: nat): (r: Slice) {
    seq(16, k requires 0 <= k < 16 => if k < n then false else x[k - n])
  }

  /** x >> n. */
  function Right(x: Slice, n: nat): (r: Slice) {
    seq(16, k requires 0 <= k < 16 => if k + n < 16 then x[k + n] else false)
  }

  /** x & BIT_RANGE(from, to). */
  function Range(x: Slice, from: nat, to: nat): (r: Slice) {
    seq(16, k requires 0 <= k < 16 => from <= k < to && x[k])
  }

  /** ROT(x, b). */
  function Rot(x: Slice, b: nat): (r: Slice)
    requires b <= 4
  {
    OrSlice(Right(x, b * 4), Left(x, (4 - b) * 4))
  }

  /** The byte that eight slices hold at position k. */
  function LaneOf(v: seq<Slice>, k: nat): (b: Bits)
    requires |v| == 8 && k < 16
  {
    Bits(v[0][k], v[1][k], v[2][k], v[3][k], v[4][k], v[5][k], v[6][k], v[7][k])
  }
}
