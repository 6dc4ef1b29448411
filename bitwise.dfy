/** Lane-wise bitwise operations of the reference backend, on the bit pattern
    of each lane. Only the ones the shuffles and the sign extraction rely on
    are here: and, and-not, or, broadcasting a scalar bit pattern, and turning
    a boolean mask into the all-ones / all-zeros lane convention. */
module NullBitwise {

  const ALL_ONES_32: bv32 := 0xFFFF_FFFF

  /** Every one of n lanes holds the scalar bit pattern c. */
  function Fill<T>(n: nat, c: T): (r: seq<T>)
    ensures |r| == n && forall i :: 0 <= i < n ==> r[i] == c
  {
    seq(n, _ => c)
  }

  function BitAnd32(a: seq<bv32>, b: seq<bv32>): (r: seq<bv32>)
    requires |a| == |b|
    ensures |r| == |a|
  {
    seq(|a|, i requires 0 <= i < |a| => a[i] & b[i])
  }

  function BitAnd64(a: seq<bv64>, b: seq<bv64>): (r: seq<bv64>)
    requires |a| == |b|
    ensures |r| == |a|
  {
    seq(|a|, i requires 0 <= i < |a| => a[i] & b[i])
  }

  /** bit_andnot(a, b) is a & ~b. */
  function BitAndNot32(a: seq<bv32>, b: seq<bv32>): (r: seq<bv32>)
    requires |a| == |b|
    ensures |r| == |a|
  {
    seq(|a|, i requires 0 <= i < |a| => a[i] & !b[i])
  }

  function BitOr32(a: seq<bv32>, b: seq<bv32>): (r: seq<bv32>)
    requires |a| == |b|
    ensures |r| == |a|
  {
    seq(|a|, i requires 0 <= i < |a| => a[i] | b[i])
  }

  /** The reference convention for a mask lane read as data: a true lane is
      all bits set (the integer -1), a false lane is all bits clear. */
  function Unmask32(m: seq<bool>): (r: seq<bv32>)
    ensures |r| == |m|
    ensures forall i :: 0 <= i < |m| ==> (m[i] <==> r[i] != 0)
    ensures forall i :: 0 <= i < |m| ==> r[i] == 0 || r[i] == ALL_ONES_32
  {
    seq(|m|, i requires 0 <= i < |m| => if m[i] then ALL_ONES_32 else 0)
  }
}
