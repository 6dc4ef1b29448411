/** Extracting the sign of every floating-point lane, as the reference backend
    does it: a bitwise and of each lane's bit pattern with the pattern that
    has only the sign bit set. The sign is bit 31 of an IEEE 754 binary32
    value and bit 63 of a binary64 value (section 3.4 of IEEE 754-2008), so a
    lane becomes +0.0 (all bits clear) when its sign bit is clear and -0.0
    (only the sign bit set) when it is set. Lanes are the bit patterns. */
module FloatSign {
  import opened NullBitwise

  /** The binary32 pattern with only the sign bit set, -0.0. */
  const SIGN_MASK_32: bv32 := 0x8000_0000
  /** The binary64 pattern with only the sign bit set, -0.0. */
  const SIGN_MASK_64: bv64 := 0x8000_0000_0000_0000

  /** Bit 31 of a binary32 pattern. */
  predicate SignBit32(x: bv32)
  {
    x >> 31 == 1
  }

  /** Bit 63 of a binary64 pattern. */
  predicate SignBit64(x: bv64)
  {
    x >> 63 == 1
  }

  /** i_sign on float32 lanes: and with the sign mask broadcast to every lane. */
  function SignF32(a: seq<bv32>): (r: seq<bv32>)
    ensures |r| == |a|
    ensures forall i :: 0 <= i < |a| ==> r[i] == if SignBit32(a[i]) then SIGN_MASK_32 else 0
  {
    BitAnd32(a, Fill(|a|, SIGN_MASK_32))
  }

  /** i_sign on float64 lanes: and with the sign mask broadcast to every lane. */
  function SignF64(a: seq<bv64>): (r: seq<bv64>)
    ensures |r| == |a|
    ensures forall i :: 0 <= i < |a| ==> r[i] == if SignBit64(a[i]) then SIGN_MASK_64 else 0
  {
    BitAnd64(a, Fill(|a|, SIGN_MASK_64))
  }

  /** Bit 31 of every lane is kept and the other 31 bits are cleared. */
  lemma SignF32Bits(a: seq<bv32>)
    ensures forall i :: 0 <= i < |a| ==>
      SignF32(a)[i] >> 31 == a[i] >> 31 && SignF32(a)[i] & 0x7FFF_FFFF == 0
  {
  }

  /** Bit 63 of every lane is kept and the other 63 bits are cleared. */
  lemma SignF64Bits(a: seq<bv64>)
    ensures forall i :: 0 <= i < |a| ==>
      SignF64(a)[i] >> 63 == a[i] >> 63 && SignF64(a)[i] & 0x7FFF_FFFF_FFFF_FFFF == 0
  {
  }

  /** Lane i of the result depends on lane i of the input only. */
  lemma SignLaneWise(a: seq<bv32>, b: seq<bv32>, c: seq<bv64>, d: seq<bv64>, i: nat)
    ensures i < |a| && i < |b| && a[i] == b[i] ==> SignF32(a)[i] == SignF32(b)[i]
    ensures i < |c| && i < |d| && c[i] == d[i] ==> SignF64(c)[i] == SignF64(d)[i]
  {
  }

  /** Taking the sign twice is taking it once. */
  lemma SignIdempotent(a: seq<bv32>, c: seq<bv64>)
    ensures SignF32(SignF32(a)) == SignF32(a)
    ensures SignF64(SignF64(c)) == SignF64(c)
  {
  }

  /** Width decomposition: the sign of a vector made of two parts is the
      sign of each part, in order. */
  lemma SignOfConcatenation(a1: seq<bv32>, a2: seq<bv32>, c1: seq<bv64>, c2: seq<bv64>)
    ensures SignF32(a1 + a2) == SignF32(a1) + SignF32(a2)
    ensures SignF64(c1 + c2) == SignF64(c1) + SignF64(c2)
  {
  }

  /** 1.0, -0.0, a negative quiet NaN and -infinity as binary32 patterns:
      only the sign survives. */
  lemma SignF32Examples()
    ensures SignF32([0x3F80_0000, 0x8000_0000, 0xFFC0_0000, 0xFF80_0000]) ==
      [0, SIGN_MASK_32, SIGN_MASK_32, SIGN_MASK_32]
  {
  }

  /** 2.0, a positive quiet NaN and -1.0 as binary64 patterns. */
  lemma SignF64Examples()
    ensures SignF64([0x4000_0000_0000_0000, 0x7FF8_0000_0000_0000, 0xBFF0_0000_0000_0000]) ==
      [0, 0, SIGN_MASK_64]
  {
  }
}
