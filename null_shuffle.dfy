/** The reference ("null") backend of the structural shuffles. A vector is a
    value: a sequence of lanes whose length is the vector type's lane count.
    Every operation default-constructs a result vector (a fresh array of that
    many lanes, of an auto-initialisable lane type), fills it lane by lane with
    the source's index arithmetic, and returns its contents. Each method is
    proved against a reference definition, and the properties the other
    backends must reproduce are proved about those definitions. */
module NullShuffle {
  import opened Interleaving
  import opened NullBitwise

  // ---------------------------------------------------------------------
  // zip and unzip
  // ---------------------------------------------------------------------

  /** The low halves of a and b, interleaved. */
  function ZipLo<T>(a: seq<T>, b: seq<T>): seq<T>
    requires |a| == |b|
  {
    var half := |a| / 2;
    Interleave(a[..half], b[..half])
  }

  /** The high halves of a and b, interleaved. */
  function ZipHi<T>(a: seq<T>, b: seq<T>): seq<T>
    requires |a| == |b|
  {
    var half := |a| / 2;
    Interleave(a[half..2 * half], b[half..2 * half])
  }

  /** The even lanes of a followed by the even lanes of b. */
  function UnzipLo<T>(a: seq<T>, b: seq<T>): seq<T>
    requires |a| == |b|
  {
    var even := |a| / 2 * 2;
    Evens(a[..even]) + Evens(b[..even])
  }

  /** The odd lanes of a followed by the odd lanes of b. */
  function UnzipHi<T>(a: seq<T>, b: seq<T>): seq<T>
    requires |a| == |b|
  {
    var even := |a| / 2 * 2;
    Odds(a[..even]) + Odds(b[..even])
  }

  /** Lane m of zip_lo is lane m/2 of a when m is even and of b when m is odd. */
  lemma ZipLoLanes<T>(a: seq<T>, b: seq<T>)
    requires |a| == |b|
    ensures |ZipLo(a, b)| == |a| / 2 * 2
    ensures forall m :: 0 <= m < |a| / 2 * 2 ==>
      ZipLo(a, b)[m] == (if m % 2 == 0 then a else b)[m / 2]
  {
    var half := |a| / 2;
    forall m | 0 <= m < 2 * half
      ensures ZipLo(a, b)[m] == (if m % 2 == 0 then a else b)[m / 2]
    {
      InterleaveAt(a[..half], b[..half], m / 2);
    }
  }

  /** Lane m of zip_hi is lane half + m/2 of a when m is even and of b when m is odd. */
  lemma ZipHiLanes<T>(a: seq<T>, b: seq<T>)
    requires |a| == |b|
    ensures |ZipHi(a, b)| == |a| / 2 * 2
    ensures forall m :: 0 <= m < |a| / 2 * 2 ==>
      ZipHi(a, b)[m] == (if m % 2 == 0 then a else b)[|a| / 2 + m / 2]
  {
    var half := |a| / 2;
    forall m | 0 <= m < 2 * half
      ensures ZipHi(a, b)[m] == (if m % 2 == 0 then a else b)[half + m / 2]
    {
      InterleaveAt(a[half..2 * half], b[half..2 * half], m / 2);
    }
  }

  /** The first half of unzip_lo holds the even lanes of a, the second half those of b. */
  lemma UnzipLoLanes<T>(a: seq<T>, b: seq<T>)
    requires |a| == |b|
    ensures |UnzipLo(a, b)| == |a| / 2 * 2
    ensures forall m :: 0 <= m < |a| / 2 * 2 ==>
      UnzipLo(a, b)[m] == if m < |a| / 2 then a[2 * m] else b[2 * (m - |a| / 2)]
  {
    var half := |a| / 2;
    var x, y := a[..2 * half], b[..2 * half];
    var u := UnzipLo(a, b);
    assert u == Evens(x) + Evens(y);
    forall m | 0 <= m < 2 * half
      ensures u[m] == if m < half then a[2 * m] else b[2 * (m - half)]
    {
      if m < half {
        EvensAt(x, m);
        assert u[m] == Evens(x)[m];
      } else {
        EvensAt(y, m - half);
        assert u[m] == Evens(y)[m - half];
      }
    }
  }

  /** The first half of unzip_hi holds the odd lanes of a, the second half those of b. */
  lemma UnzipHiLanes<T>(a: seq<T>, b: seq<T>)
    requires |a| == |b|
    ensures |UnzipHi(a, b)| == |a| / 2 * 2
    ensures forall m :: 0 <= m < |a| / 2 * 2 ==>
      UnzipHi(a, b)[m] == if m < |a| / 2 then a[2 * m + 1] else b[2 * (m - |a| / 2) + 1]
  {
    var half := |a| / 2;
    var x, y := a[..2 * half], b[..2 * half];
    var u := UnzipHi(a, b);
    assert u == Odds(x) + Odds(y);
    forall m | 0 <= m < 2 * half
      ensures u[m] == if m < half then a[2 * m + 1] else b[2 * (m - half) + 1]
    {
      if m < half {
        OddsAt(x, m);
        assert u[m] == Odds(x)[m];
      } else {
        OddsAt(y, m - half);
        assert u[m] == Odds(y)[m - half];
      }
    }
  }

  /** zip_lo_impl. For an odd lane count the last lane is left as constructed. */
  method ZipLoImpl<T(0)>(a: seq<T>, b: seq<T>) returns (r: seq<T>)
    requires |a| == |b|
    ensures |r| == |a|
    ensures r[..|a| / 2 * 2] == ZipLo(a, b)
  {
    var out := new T[|a|];
    for i := 0 to |a| / 2
      invariant forall m :: 0 <= m < 2 * i ==> out[m] == (if m % 2 == 0 then a else b)[m / 2]
    {
      out[i * 2] := a[i];
      out[i * 2 + 1] := b[i];
    }
    r := out[..];
    ZipLoLanes(a, b);
  }

  /** zip_hi_impl. For an odd lane count the last lane is left as constructed. */
  method ZipHiImpl<T(0)>(a: seq<T>, b: seq<T>) returns (r: seq<T>)
    requires |a| == |b|
    ensures |r| == |a|
    ensures r[..|a| / 2 * 2] == ZipHi(a, b)
  {
    var out := new T[|a|];
    var half := |a| / 2;
    for i := 0 to half
      invariant forall m :: 0 <= m < 2 * i ==> out[m] == (if m % 2 == 0 then a else b)[half + m / 2]
    {
      out[i * 2] := a[half + i];
      out[i * 2 + 1] := b[half + i];
    }
    r := out[..];
    ZipHiLanes(a, b);
  }

  /** unzip_lo_impl. For an odd lane count the last lane is left as constructed. */
  method UnzipLoImpl<T(0)>(a: seq<T>, b: seq<T>) returns (r: seq<T>)
    requires |a| == |b|
    ensures |r| == |a|
    ensures r[..|a| / 2 * 2] == UnzipLo(a, b)
  {
    var out := new T[|a|];
    var half := |a| / 2;
    for i := 0 to half
      invariant forall m :: 0 <= m < i ==> out[m] == a[2 * m]
      invariant forall m :: half <= m < half + i ==> out[m] == b[2 * (m - half)]
    {
      out[i] := a[i * 2];
      out[i + half] := b[i * 2];
    }
    r := out[..];
    UnzipLoLanes(a, b);
  }

  /** unzip_hi_impl. For an odd lane count the last lane is left as constructed. */
  method UnzipHiImpl<T(0)>(a: seq<T>, b: seq<T>) returns (r: seq<T>)
    requires |a| == |b|
    ensures |r| == |a|
    ensures r[..|a| / 2 * 2] == UnzipHi(a, b)
  {
    var out := new T[|a|];
    var half := |a| / 2;
    for i := 0 to half
      invariant forall m :: 0 <= m < i ==> out[m] == a[2 * m + 1]
      invariant forall m :: half <= m < half + i ==> out[m] == b[2 * (m - half) + 1]
    {
      out[i] := a[i * 2 + 1];
      out[i + half] := b[i * 2 + 1];
    }
    r := out[..];
    UnzipHiLanes(a, b);
  }

  /** Zipping two vectors made of equal-length halves interleaves the low
      halves (zip_lo) and the high halves (zip_hi). */
  lemma ZipOfHalves<T>(x1: seq<T>, x2: seq<T>, y1: seq<T>, y2: seq<T>)
    requires |x1| == |x2| == |y1| == |y2|
    ensures ZipLo(x1 + x2, y1 + y2) == Interleave(x1, y1)
    ensures ZipHi(x1 + x2, y1 + y2) == Interleave(x2, y2)
  {
    var a, b, n := x1 + x2, y1 + y2, |x1|;
    assert |a| / 2 == n;
    assert a[..n] == x1 && b[..n] == y1;
    assert a[n..2 * n] == x2 && b[n..2 * n] == y2;
  }

  /** On even-length vectors unzip keeps every lane: the even (odd) lanes
      of a followed by those of b. */
  lemma UnzipOfEvenLength<T>(a: seq<T>, b: seq<T>)
    requires |a| == |b| && |a| % 2 == 0
    ensures UnzipLo(a, b) == Evens(a) + Evens(b)
    ensures UnzipHi(a, b) == Odds(a) + Odds(b)
  {
    assert |a| / 2 * 2 == |a|;
    assert a[..|a|] == a && b[..|b|] == b;
  }

  /** Unzipping the two halves of a zip gives back both operands. */
  lemma UnzipOfZip<T>(a: seq<T>, b: seq<T>)
    requires |a| == |b| && |a| % 2 == 0
    ensures UnzipLo(ZipLo(a, b), ZipHi(a, b)) == a
    ensures UnzipHi(ZipLo(a, b), ZipHi(a, b)) == b
  {
    var half := |a| / 2;
    var x1, x2, y1, y2 := a[..half], a[half..], b[..half], b[half..];
    assert x1 + x2 == a && y1 + y2 == b;
    ZipOfHalves(x1, x2, y1, y2);
    UnzipOfEvenLength(Interleave(x1, y1), Interleave(x2, y2));
    SplitInterleave(x1, y1);
    SplitInterleave(x2, y2);
  }

  /** Zipping the two halves of an unzip gives back both operands. */
  lemma ZipOfUnzip<T>(x: seq<T>, y: seq<T>)
    requires |x| == |y| && |x| % 2 == 0
    ensures ZipLo(UnzipLo(x, y), UnzipHi(x, y)) == x
    ensures ZipHi(UnzipLo(x, y), UnzipHi(x, y)) == y
  {
    UnzipOfEvenLength(x, y);
    ZipOfHalves(Evens(x), Evens(y), Odds(x), Odds(y));
    InterleaveSplit(x);
    InterleaveSplit(y);
  }

  /** unzip_lo and unzip_hi split the 2n lanes of a followed by b into their
      even and their odd lanes. */
  lemma UnzipSplitsConcatenation<T>(a: seq<T>, b: seq<T>)
    requires |a| == |b| && |a| % 2 == 0
    ensures UnzipLo(a, b) == Evens(a + b)
    ensures UnzipHi(a, b) == Odds(a + b)
  {
    UnzipOfEvenLength(a, b);
    EvensAppend(a, b);
    OddsAppend(a, b);
  }

  // ---------------------------------------------------------------------
  // splat
  // ---------------------------------------------------------------------

  /** Every lane holds lane pos of v. */
  function Splatted<T>(v: seq<T>, pos: nat): seq<T>
    requires pos < |v|
  {
    seq(|v|, _ => v[pos])
  }

  /** splat<pos>: the lane index must be in range. */
  method Splat<T(0)>(v: seq<T>, pos: nat) returns (r: seq<T>)
    requires pos < |v|
    ensures |r| == |v| && forall k :: 0 <= k < |r| ==> r[k] == v[pos]
    ensures r == Splatted(v, pos)
  {
    var out := new T[|v|];
    for i := 0 to |v|
      invariant forall k :: 0 <= k < i ==> out[k] == v[pos]
    {
      out[i] := v[pos];
    }
    r := out[..];
  }

  /** Splatting twice from the same position is splatting once. */
  lemma SplatIdempotent<T>(v: seq<T>, pos: nat)
    requires pos < |v|
    ensures Splatted(Splatted(v, pos), pos) == Splatted(v, pos)
  {
  }

  /** A vector is left unchanged by splat exactly when all its lanes are equal. */
  lemma SplatFixedPoint<T>(v: seq<T>, pos: nat)
    requires pos < |v|
    ensures Splatted(v, pos) == v <==> forall k :: 0 <= k < |v| ==> v[k] == v[pos]
  {
    if forall k :: 0 <= k < |v| ==> v[k] == v[pos] {
      assert Splatted(v, pos) == v;
    }
  }

  // ---------------------------------------------------------------------
  // align
  // ---------------------------------------------------------------------

  /** The lane count align is written for. */
  const ALIGN_LANES: nat := 16

  /** Reduction modulo 2^32: the source's unsigned arithmetic. */
  function Wrap32(x: int): nat
  {
    x % 0x1_0000_0000
  }

  /** The index `i - 16 + shift` as the source computes it, in unsigned 32-bit
      arithmetic: the subtraction wraps, the addition wraps back, and the
      result is the mathematical value, a lane of hi below shift. */
  function HiIndex(i: nat, shift: nat): (j: nat)
    requires shift <= ALIGN_LANES && ALIGN_LANES - shift <= i < ALIGN_LANES
    ensures j == i + shift - ALIGN_LANES && j < shift
  {
    Wrap32(Wrap32(i - ALIGN_LANES) + shift)
  }

  /** The 16 lanes starting at lane shift of lo followed by hi. */
  function Aligned<T>(lo: seq<T>, hi: seq<T>, shift: nat): seq<T>
    requires |lo| == |hi| == ALIGN_LANES && shift <= ALIGN_LANES
  {
    (lo + hi)[shift..shift + ALIGN_LANES]
  }

  /** align<shift>: the source hard-codes 16 lanes, and a shift above 16 would
      make the unsigned bound 16 - shift wrap, so both are required. */
  method Align<T(0)>(lo: seq<T>, hi: seq<T>, shift: nat) returns (r: seq<T>)
    requires |lo| == ALIGN_LANES && |hi| == ALIGN_LANES && shift <= ALIGN_LANES
    ensures |r| == ALIGN_LANES
    ensures forall i :: 0 <= i < ALIGN_LANES ==>
      r[i] == if i + shift < ALIGN_LANES then lo[i + shift] else hi[i + shift - ALIGN_LANES]
    ensures r == Aligned(lo, hi, shift)
  {
    var out := new T[ALIGN_LANES];
    for i := 0 to ALIGN_LANES - shift
      invariant forall k :: 0 <= k < i ==> out[k] == lo[k + shift]
    {
      out[i] := lo[i + shift];
    }
    for i := ALIGN_LANES - shift to ALIGN_LANES
      invariant forall k :: 0 <= k < ALIGN_LANES - shift ==> out[k] == lo[k + shift]
      invariant forall k :: ALIGN_LANES - shift <= k < i ==> out[k] == hi[k + shift - ALIGN_LANES]
    {
      out[i] := hi[HiIndex(i, shift)];
    }
    r := out[..];
  }

  /** A shift of 0 yields lo and a shift of 16 yields hi. */
  lemma AlignEnds<T>(lo: seq<T>, hi: seq<T>)
    requires |lo| == |hi| == ALIGN_LANES
    ensures Aligned(lo, hi, 0) == lo
    ensures Aligned(lo, hi, ALIGN_LANES) == hi
  {
  }

  /** align is a window sliding over the stream a, b, c: sliding by s and then
      by t is sliding by s + t. */
  lemma AlignCompose<T>(a: seq<T>, b: seq<T>, c: seq<T>, s: nat, t: nat)
    requires |a| == |b| == |c| == ALIGN_LANES && s + t <= ALIGN_LANES
    ensures Aligned(Aligned(a, b, s), Aligned(b, c, s), t) == Aligned(a, b, s + t)
  {
    var x, y := Aligned(a, b, s), Aligned(b, c, s);
    forall i | 0 <= i < ALIGN_LANES
      ensures Aligned(x, y, t)[i] == Aligned(a, b, s + t)[i]
    {
      if t + i < ALIGN_LANES {
        assert Aligned(x, y, t)[i] == x[t + i] == (a + b)[s + t + i];
      } else {
        var k := t + i - ALIGN_LANES;
        assert s + k < ALIGN_LANES;
        assert Aligned(x, y, t)[i] == y[k];
        assert y[k] == (b + c)[s + k] == b[s + k];
        assert Aligned(a, b, s + t)[i] == (a + b)[s + t + i] == b[s + k];
      }
    }
  }

  // ---------------------------------------------------------------------
  // blend
  // ---------------------------------------------------------------------

  /** One lane of the bitwise select: where mask has a bit set the result
      agrees with on, where it has it clear the result agrees with off. */
  function Mux32(on: bv32, off: bv32, mask: bv32): (r: bv32)
    ensures r & mask == on & mask
    ensures r & !mask == off & !mask
  {
    (on & mask) | (off & !mask)
  }

  /** The bitwise select, lane by lane. */
  function BitSelect(on: seq<bv32>, off: seq<bv32>, mask: seq<bv32>): seq<bv32>
    requires |on| == |off| == |mask|
  {
    seq(|on|, i requires 0 <= i < |on| => Mux32(on[i], off[i], mask[i]))
  }

  /** blend: each bit of the result comes from on where mask has it set and
      from off where it is clear. */
  method Blend(on: seq<bv32>, off: seq<bv32>, mask: seq<bv32>) returns (r: seq<bv32>)
    requires |on| == |off| == |mask|
    ensures r == BitSelect(on, off, mask)
  {
    var onBits, offBits := on, off;
    onBits := BitAnd32(onBits, mask);
    offBits := BitAndNot32(offBits, mask);
    r := BitOr32(onBits, offBits);
  }

  /** In every lane of a blend, the bits set in the mask agree with on and
      the bits clear in the mask agree with off. */
  lemma BlendBits(on: seq<bv32>, off: seq<bv32>, mask: seq<bv32>)
    requires |on| == |off| == |mask|
    ensures |BitSelect(on, off, mask)| == |on|
    ensures forall i :: 0 <= i < |on| ==>
      BitSelect(on, off, mask)[i] & mask[i] == on[i] & mask[i] &&
      BitSelect(on, off, mask)[i] & !mask[i] == off[i] & !mask[i]
  {
  }

  /** An all-ones mask selects on, an all-zeros mask selects off. */
  lemma BlendConstantMasks(on: seq<bv32>, off: seq<bv32>)
    requires |on| == |off|
    ensures BitSelect(on, off, Fill(|on|, ALL_ONES_32)) == on
    ensures BitSelect(on, off, Fill(|on|, 0)) == off
  {
  }

  /** Blending a vector with itself gives it back, whatever the mask. */
  lemma BlendSame(x: seq<bv32>, mask: seq<bv32>)
    requires |x| == |mask|
    ensures BitSelect(x, x, mask) == x
  {
  }

  /** With a mask in the reference convention (all ones or all zeros per
      lane), the bitwise blend and the per-lane mask blend agree. */
  lemma BlendOfUnmask(on: seq<bv32>, off: seq<bv32>, mask: seq<bool>)
    requires |on| == |off| == |mask|
    ensures BitSelect(on, off, Unmask32(mask)) == MaskSelect(on, off, mask)
  {
  }

  // ---------------------------------------------------------------------
  // blend_mask
  // ---------------------------------------------------------------------

  /** Lane i is on[i] where mask[i] holds and off[i] elsewhere. */
  function MaskSelect<T>(on: seq<T>, off: seq<T>, mask: seq<bool>): seq<T>
    requires |on| == |off| == |mask|
  {
    seq(|on|, i requires 0 <= i < |on| => if mask[i] then on[i] else off[i])
  }

  /** blend_mask_impl<L>::run, the generic loop over L = the lane count. */
  method BlendMaskRun<T(0)>(on: seq<T>, off: seq<T>, mask: seq<bool>) returns (r: seq<T>)
    requires |on| == |off| == |mask|
    ensures r == MaskSelect(on, off, mask)
  {
    var out := new T[|on|];
    for i := 0 to |on|
      invariant forall k :: 0 <= k < i ==> out[k] == if mask[k] then on[k] else off[k]
    {
      out[i] := if mask[i] then on[i] else off[i];
    }
    r := out[..];
  }

  /** blend_mask_impl<1>::run, unrolled. */
  method BlendMaskRun1<T(0)>(on: seq<T>, off: seq<T>, mask: seq<bool>) returns (r: seq<T>)
    requires |on| == |off| == |mask| == 1
    ensures r == MaskSelect(on, off, mask)
  {
    var out := new T[1];
    out[0] := if mask[0] then on[0] else off[0];
    r := out[..];
  }

  /** blend_mask_impl<2>::run, unrolled. */
  method BlendMaskRun2<T(0)>(on: seq<T>, off: seq<T>, mask: seq<bool>) returns (r: seq<T>)
    requires |on| == |off| == |mask| == 2
    ensures r == MaskSelect(on, off, mask)
  {
    var out := new T[2];
    out[0] := if mask[0] then on[0] else off[0];
    out[1] := if mask[1] then on[1] else off[1];
    r := out[..];
  }

  /** blend_mask_impl<4>::run, unrolled. */
  method BlendMaskRun4<T(0)>(on: seq<T>, off: seq<T>, mask: seq<bool>) returns (r: seq<T>)
    requires |on| == |off| == |mask| == 4
    ensures r == MaskSelect(on, off, mask)
  {
    var out := new T[4];
    out[0] := if mask[0] then on[0] else off[0];
    out[1] := if mask[1] then on[1] else off[1];
    out[2] := if mask[2] then on[2] else off[2];
    out[3] := if mask[3] then on[3] else off[3];
    r := out[..];
  }

  /** blend_mask: picks the implementation for the vector's lane count. Since
      every variant is proved equal to MaskSelect, the unrolled ones compute
      exactly what the generic loop computes. */
  method BlendMask<T(0)>(on: seq<T>, off: seq<T>, mask: seq<bool>) returns (r: seq<T>)
    requires |on| == |off| == |mask|
    ensures |r| == |on|
    ensures forall i :: 0 <= i < |r| ==> (mask[i] ==> r[i] == on[i]) && (!mask[i] ==> r[i] == off[i])
  {
    if |on| == 1 {
      r := BlendMaskRun1(on, off, mask);
    } else if |on| == 2 {
      r := BlendMaskRun2(on, off, mask);
    } else if |on| == 4 {
      r := BlendMaskRun4(on, off, mask);
    } else {
      r := BlendMaskRun(on, off, mask);
    }
  }

  /** An all-true mask selects on, an all-false mask selects off, and
      blending a vector with itself gives it back. */
  lemma MaskSelectExtremes<T>(on: seq<T>, off: seq<T>, mask: seq<bool>)
    requires |on| == |off| == |mask|
    ensures (forall i :: 0 <= i < |mask| ==> mask[i]) ==> MaskSelect(on, off, mask) == on
    ensures (forall i :: 0 <= i < |mask| ==> !mask[i]) ==> MaskSelect(on, off, mask) == off
    ensures MaskSelect(on, on, mask) == on
  {
  }

  // ---------------------------------------------------------------------
  // permute, shuffle1, shuffle2
  // ---------------------------------------------------------------------

  /** Every selector addresses a lane inside a group of |sel| lanes. */
  predicate ValidSelectors(sel: seq<nat>)
  {
    forall j :: 0 <= j < |sel| ==> sel[j] < |sel|
  }

  /** One group: lane j reads position sel[j] of x when j < split, of y otherwise. */
  function PickGroup<T>(x: seq<T>, y: seq<T>, sel: seq<nat>, split: nat): seq<T>
    requires |x| == |y| == |sel| && ValidSelectors(sel)
  {
    seq(|sel|, j requires 0 <= j < |sel| => if j < split then x[sel[j]] else y[sel[j]])
  }

  /** The group-wise selection applied to consecutive groups of |sel| lanes. */
  function GroupPick<T>(a: seq<T>, b: seq<T>, sel: seq<nat>, split: nat): seq<T>
    requires |a| == |b| && 0 < |sel| && ValidSelectors(sel)
    decreases |a|
  {
    if |a| < |sel| then []
    else PickGroup(a[..|sel|], b[..|sel|], sel, split) + GroupPick(a[|sel|..], b[|sel|..], sel, split)
  }

  /** n lanes make a whole number of groups of g lanes. */
  predicate WholeGroups(n: nat, g: nat)
    decreases n
  {
    n == 0 || (0 < g <= n && WholeGroups(n - g, g))
  }

  /** For the group sizes of the source, whole groups means divisibility. */
  lemma {:induction false} WholeGroupsOfMultiple(n: nat, g: nat)
    requires (g == 2 || g == 4) && n % g == 0
    ensures WholeGroups(n, g)
    decreases n
  {
    if n > 0 {
      if g == 2 {
        WholeGroupsOfMultiple(n - 2, 2);
      } else {
        WholeGroupsOfMultiple(n - 4, 4);
      }
    }
  }

  /** Over whole groups the result has as many lanes as the input. */
  lemma {:induction false} GroupPickLength<T>(a: seq<T>, b: seq<T>, sel: seq<nat>, split: nat)
    requires |a| == |b| && 0 < |sel| && ValidSelectors(sel) && WholeGroups(|a|, |sel|)
    ensures |GroupPick(a, b, sel, split)| == |a|
    decreases |a|
  {
    if |a| > 0 {
      GroupPickLength(a[|sel|..], b[|sel|..], sel, split);
    }
  }

  /** Lane j of the group starting at lane base comes from that same group:
      from a at offset sel[j] when j < split, and from b at offset sel[j]
      otherwise. */
  lemma {:induction false} GroupPickAt<T>(a: seq<T>, b: seq<T>, sel: seq<nat>, split: nat, base: nat, j: nat)
    requires |a| == |b| && 0 < |sel| && ValidSelectors(sel)
    requires WholeGroups(base, |sel|) && j < |sel| && base + |sel| <= |a|
    ensures base + j < |GroupPick(a, b, sel, split)|
    ensures GroupPick(a, b, sel, split)[base + j] == (if j < split then a else b)[base + sel[j]]
    decreases base
  {
    if base > 0 {
      var g := |sel|;
      GroupPickAt(a[g..], b[g..], sel, split, base - g, j);
    }
  }

  /** The lane formula of GroupPick for groups of two lanes. */
  lemma GroupPickLanes2<T>(a: seq<T>, b: seq<T>, sel: seq<nat>, split: nat)
    requires |a| == |b| && |sel| == 2 && ValidSelectors(sel) && |a| % 2 == 0
    ensures |GroupPick(a, b, sel, split)| == |a|
    ensures forall k :: 0 <= k < |a| ==>
      GroupPick(a, b, sel, split)[k] == (if k % 2 < split then a else b)[k - k % 2 + sel[k % 2]]
  {
    WholeGroupsOfMultiple(|a|, 2);
    GroupPickLength(a, b, sel, split);
    forall k | 0 <= k < |a|
      ensures GroupPick(a, b, sel, split)[k] == (if k % 2 < split then a else b)[k - k % 2 + sel[k % 2]]
    {
      WholeGroupsOfMultiple(k - k % 2, 2);
      GroupPickAt(a, b, sel, split, k - k % 2, k % 2);
    }
  }

  /** The lane formula of GroupPick for groups of four lanes. */
  lemma GroupPickLanes4<T>(a: seq<T>, b: seq<T>, sel: seq<nat>, split: nat)
    requires |a| == |b| && |sel| == 4 && ValidSelectors(sel) && |a| % 4 == 0
    ensures |GroupPick(a, b, sel, split)| == |a|
    ensures forall k :: 0 <= k < |a| ==>
      GroupPick(a, b, sel, split)[k] == (if k % 4 < split then a else b)[k - k % 4 + sel[k % 4]]
  {
    WholeGroupsOfMultiple(|a|, 4);
    GroupPickLength(a, b, sel, split);
    forall k | 0 <= k < |a|
      ensures GroupPick(a, b, sel, split)[k] == (if k % 4 < split then a else b)[k - k % 4 + sel[k % 4]]
    {
      WholeGroupsOfMultiple(k - k % 4, 4);
      GroupPickAt(a, b, sel, split, k - k % 4, k % 4);
    }
  }

  /** Identity selectors reproduce the input: permute<0,1> and
      permute<0,1,2,3> are the identity. */
  lemma {:induction false} PermuteIdentity<T>(a: seq<T>, sel: seq<nat>, split: nat)
    requires 0 < |sel| && (forall j :: 0 <= j < |sel| ==> sel[j] == j) && WholeGroups(|a|, |sel|)
    ensures GroupPick(a, a, sel, split) == a
    decreases |a|
  {
    if |a| > 0 {
      PermuteIdentity(a[|sel|..], sel, split);
      assert PickGroup(a[..|sel|], a[..|sel|], sel, split) == a[..|sel|];
      assert a[..|sel|] + a[|sel|..] == a;
    }
  }

  /** Width decomposition: over whole groups, the selection of a concatenation
      is the concatenation of the selections. */
  lemma {:induction false} GroupPickAppend<T>(a1: seq<T>, b1: seq<T>, a2: seq<T>, b2: seq<T>,
                                              sel: seq<nat>, split: nat)
    requires |a1| == |b1| && |a2| == |b2| && 0 < |sel| && ValidSelectors(sel)
    requires WholeGroups(|a1|, |sel|)
    ensures GroupPick(a1 + a2, b1 + b2, sel, split) ==
      GroupPick(a1, b1, sel, split) + GroupPick(a2, b2, sel, split)
    decreases |a1|
  {
    var g := |sel|;
    if |a1| == 0 {
      assert a1 + a2 == a2 && b1 + b2 == b2;
    } else {
      assert (a1 + a2)[..g] == a1[..g] && (b1 + b2)[..g] == b1[..g];
      assert (a1 + a2)[g..] == a1[g..] + a2 && (b1 + b2)[g..] == b1[g..] + b2;
      GroupPickAppend(a1[g..], b1[g..], a2, b2, sel, split);
    }
  }

  /** The lane the selection puts at position k, for groups of two lanes. */
  function Lane2<T>(a: seq<T>, b: seq<T>, sel: seq<nat>, split: nat, k: nat): T
    requires |a| == |b| && |sel| == 2 && ValidSelectors(sel) && |a| % 2 == 0 && k < |a|
  {
    (if k % 2 < split then a else b)[k - k % 2 + sel[k % 2]]
  }

  /** The lane the selection puts at position k, for groups of four lanes. */
  function Lane4<T>(a: seq<T>, b: seq<T>, sel: seq<nat>, split: nat, k: nat): T
    requires |a| == |b| && |sel| == 4 && ValidSelectors(sel) && |a| % 4 == 0 && k < |a|
  {
    (if k % 4 < split then a else b)[k - k % 4 + sel[k % 4]]
  }

  /** permute<s0,s1>: every pair of lanes is permuted within itself. */
  method Permute2<T(0)>(a: seq<T>, s0: nat, s1: nat) returns (r: seq<T>)
    requires |a| % 2 == 0 && s0 < 2 && s1 < 2
    ensures r == GroupPick(a, a, [s0, s1], 2)
  {
    var sel := [s0, s1];
    var out := new T[|a|];
    var i := 0;
    while i < |a|
      invariant 0 <= i <= |a| && i % 2 == 0
      invariant forall k :: 0 <= k < i ==> out[k] == Lane2(a, a, sel, 2, k)
    {
      out[i] := a[i + s0];
      out[i + 1] := a[i + s1];
      i := i + 2;
    }
    r := out[..];
    GroupPickLanes2(a, a, sel, 2);
  }

  /** permute<s0,s1,s2,s3>: every group of four lanes is permuted within itself. */
  method Permute4<T(0)>(a: seq<T>, s0: nat, s1: nat, s2: nat, s3: nat) returns (r: seq<T>)
    requires |a| % 4 == 0 && s0 < 4 && s1 < 4 && s2 < 4 && s3 < 4
    ensures r == GroupPick(a, a, [s0, s1, s2, s3], 4)
  {
    var sel := [s0, s1, s2, s3];
    var out := new T[|a|];
    var i := 0;
    while i < |a|
      invariant 0 <= i <= |a| && i % 4 == 0
      invariant forall k :: 0 <= k < i ==> out[k] == Lane4(a, a, sel, 4, k)
    {
      out[i] := a[i + s0];
      out[i + 1] := a[i + s1];
      out[i + 2] := a[i + s2];
      out[i + 3] := a[i + s3];
      i := i + 4;
    }
    r := out[..];
    GroupPickLanes4(a, a, sel, 4);
  }

  /** shuffle1<s0,s1>: in every pair, the first lane comes from a, the second from b. */
  method Shuffle1<T(0)>(a: seq<T>, b: seq<T>, s0: nat, s1: nat) returns (r: seq<T>)
    requires |a| == |b| && |a| % 2 == 0 && s0 < 2 && s1 < 2
    ensures r == GroupPick(a, b, [s0, s1], 1)
  {
    var sel := [s0, s1];
    var out := new T[|a|];
    var i := 0;
    while i < |a|
      invariant 0 <= i <= |a| && i % 2 == 0
      invariant forall k :: 0 <= k < i ==> out[k] == Lane2(a, b, sel, 1, k)
    {
      out[i] := a[i + s0];
      out[i + 1] := b[i + s1];
      i := i + 2;
    }
    r := out[..];
    GroupPickLanes2(a, b, sel, 1);
  }

  /** shuffle2<s0,s1,s2,s3>: in every group of four, the first two lanes come
      from a and the last two from b. */
  method Shuffle2<T(0)>(a: seq<T>, b: seq<T>, s0: nat, s1: nat, s2: nat, s3: nat) returns (r: seq<T>)
    requires |a| == |b| && |a| % 4 == 0 && s0 < 4 && s1 < 4 && s2 < 4 && s3 < 4
    ensures r == GroupPick(a, b, [s0, s1, s2, s3], 2)
  {
    var sel := [s0, s1, s2, s3];
    var out := new T[|a|];
    var i := 0;
    while i < |a|
      invariant 0 <= i <= |a| && i % 4 == 0
      invariant forall k :: 0 <= k < i ==> out[k] == Lane4(a, b, sel, 2, k)
    {
      out[i] := a[i + s0];
      out[i + 1] := a[i + s1];
      out[i + 2] := b[i + s2];
      out[i + 3] := b[i + s3];
      i := i + 4;
    }
    r := out[..];
    GroupPickLanes4(a, b, sel, 2);
  }
}
