/** Searching a bitmap. */
module Bitmap {

  /** find_next_bit_le and find_next_zero_bit_le. */
  method FindNext(bits: seq<bool>, value: bool, start: nat) returns (r: nat)
    requires start <= |bits|
    ensures start <= r <= |bits| && (r < |bits| ==> bits[r] == value)
    ensures forall q :: start <= q < r ==> bits[q] != value
  {
    r := start;
    while r < |bits| && bits[r] != value
      invariant start <= r <= |bits|
      invariant forall q :: start <= q < r ==> bits[q] != value
    {
      r := r + 1;
    }
  }
}
