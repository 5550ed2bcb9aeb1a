/**
  Checking a SIT entry (check_block_count in segment.h): its block count against
  its bitmap, run by run.
*/
module SitEntry {

  import opened Bitmap
  import opened Errno

  function Ones(bits: seq<bool>, n: nat): nat
    requires n <= |bits|
  {
    if n == 0 then 0 else Ones(bits, n - 1) + if bits[n - 1] then 1 else 0
  }

  lemma {:induction false} RunOfOnes(bits: seq<bool>, a: nat, b: nat, value: bool)
    requires a <= b <= |bits| && forall q :: a <= q < b ==> bits[q] == value
    ensures Ones(bits, b) == Ones(bits, a) + (if value then b - a else 0)
    decreases b
  {
    if a < b { RunOfOnes(bits, a, b - 1, value); }
  }

  /**
    `usable` blocks of the segment can be written, `count` is the count stored.
    A set bit past the usable blocks only raises a warning: `warned` says so.
  */
  method CheckBlockCount(valid: seq<bool>, usable: nat, count: nat, segno: int, totalSegs: nat)
    returns (err: int, warned: bool)
    requires usable <= |valid| && |valid| > 0
    ensures err == 0 || err == EFSCORRUPTED
    ensures err == 0 <==> count == Ones(valid, usable) && segno <= totalSegs - 1
    ensures warned <==> count == Ones(valid, usable) && exists q :: usable <= q < |valid| && valid[q]
    // So an entry passes without a warning exactly if the count is that of the whole map and nothing is past the end.
    ensures err == 0 && !warned <==>
            count == Ones(valid, |valid|) == Ones(valid, usable) && segno <= totalSegs - 1
  {
    var isValid := valid[0];
    var blocks, cur := 0, 0;
    var front := valid[..usable];
    while true
      invariant 0 <= cur <= usable && (cur < usable ==> isValid == front[cur]) && (cur == usable ==> usable == 0)
      invariant blocks == Ones(valid, cur)
      decreases usable - cur, cur < usable
    {
      var next := FindNext(front, !isValid, cur);
      RunOfOnes(valid, cur, next, isValid);
      if isValid {
        blocks := blocks + (next - cur);
      }
      cur := next;
      isValid := !isValid;
      if cur >= usable {
        break;
      }
    }
    OnesBound(valid, usable);
    OnesPast(valid, usable, |valid|);
    if count != blocks {
      return EFSCORRUPTED, false;
    }
    var past := FindNext(valid, true, usable);
    warned := past != |valid|;
    if count > usable || segno > totalSegs - 1 {
      return EFSCORRUPTED, warned;
    }
    err := 0;
  }

  /** The bits past `a` add to the count exactly if one of them is set. */
  lemma {:induction false} OnesPast(bits: seq<bool>, a: nat, b: nat)
    requires a <= b <= |bits|
    ensures Ones(bits, a) <= Ones(bits, b)
    ensures Ones(bits, a) < Ones(bits, b) <==> exists q :: a <= q < b && bits[q]
  {
    if a < b { OnesPast(bits, a, b - 1); }
  }

  lemma {:induction false} OnesBound(bits: seq<bool>, n: nat)
    requires n <= |bits|
    ensures Ones(bits, n) <= n
  {
    if n > 0 { OnesBound(bits, n - 1); }
  }
}
