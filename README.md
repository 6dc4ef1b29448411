# libsimdpp reference shuffles and sign extraction, in Dafny

libsimdpp is a C++ SIMD library. Every operation has a portable "null" backend that works on plain arrays of lanes. The other backends (SSE, NEON, AltiVec, ...) must reproduce its results. This project models two parts of that backend and proves the lane-level behaviour they promise:

- The structural shuffles of `simdpp/detail/null/shuffle.h`: zip and unzip of the low and high halves, splat, align, the bitwise blend, the per-lane mask blend with its unrolled specialisations, the in-group permutes, and the two-source in-group shuffles.
- `i_sign` for 32- and 64-bit floating-point vectors, from `simdpp/detail/insn/f_sign.h`. It is a bitwise and with the sign-bit pattern.

A vector is a value: a `seq` of lanes whose length is the vector's lane count. Each shuffle is a `method` that does what the source does:

- it default-constructs the result, which is a fresh array of that many lanes of an auto-initialisable lane type;
- it fills the array with the source's loop and the source's index arithmetic;
- it returns the contents.

The proof works in two layers:

- Each method is proved, through its loop invariants, equal to a reference definition: `ZipLo`, `Evens`, `Splatted`, `Aligned`, `BitSelect`, `MaskSelect` or `GroupPick`.
- Lemmas then prove about those definitions the properties a user of the shuffles relies on: lane formulas, round trips, ends and composition of windows, fixed points, locality within groups, and linearity over concatenation.

Floating-point lanes are bit patterns (`bv32`, `bv64`), because `i_sign` is defined on bits.

Files:

- `interleaving.dfy`, module `Interleaving`: the reference definitions `Interleave`, `Evens` and `Odds`, with their lane formulas and round trips.
- `bitwise.dfy`, module `NullBitwise`: the lane-wise bitwise operations that blend and `i_sign` use, plus the boolean-mask-to-bits convention.
- `null_shuffle.dfy`, module `NullShuffle`: the shuffles.
- `f_sign.dfy`, module `FloatSign`: `i_sign`.

## Model

| member | source | states |
|---|---|---|
| NullShuffle.ZipLoImpl | simdpp/detail/null/shuffle.h:28-37 | the result has the input's lane count, and its first 2·(n/2) lanes are the low halves of a and b interleaved |
| NullShuffle.ZipLoLanes | simdpp/detail/null/shuffle.h:32-35 | lane m of zip_lo is a[m/2] for even m and b[m/2] for odd m |
| NullShuffle.ZipHiImpl | simdpp/detail/null/shuffle.h:39-49 | the result's first 2·(n/2) lanes are the high halves (from lane n/2) of a and b interleaved |
| NullShuffle.ZipHiLanes | simdpp/detail/null/shuffle.h:43-47 | lane m of zip_hi is a[n/2 + m/2] for even m and b[n/2 + m/2] for odd m |
| NullShuffle.UnzipLoImpl | simdpp/detail/null/shuffle.h:52-62 | the result's first 2·(n/2) lanes are the even lanes of a followed by the even lanes of b |
| NullShuffle.UnzipLoLanes | simdpp/detail/null/shuffle.h:56-60 | lane m < n/2 of unzip_lo is a[2m], and lane n/2 + m is b[2m] |
| NullShuffle.UnzipHiImpl | simdpp/detail/null/shuffle.h:64-74 | the result's first 2·(n/2) lanes are the odd lanes of a followed by the odd lanes of b |
| NullShuffle.UnzipHiLanes | simdpp/detail/null/shuffle.h:68-72 | lane m < n/2 of unzip_hi is a[2m+1], and lane n/2 + m is b[2m+1] |
| NullShuffle.ZipOfHalves | simdpp/detail/null/shuffle.h:28-49 | zipping two vectors made of equal halves interleaves their low halves (zip_lo) and their high halves (zip_hi) |
| NullShuffle.UnzipOfEvenLength | simdpp/detail/null/shuffle.h:52-74 | for an even lane count, unzip_lo and unzip_hi keep every lane: the even (odd) lanes of a, then those of b |
| NullShuffle.UnzipOfZip | simdpp/detail/null/shuffle.h:28-74 | unzip_lo(zip_lo(a,b), zip_hi(a,b)) = a and unzip_hi(zip_lo(a,b), zip_hi(a,b)) = b |
| NullShuffle.ZipOfUnzip | simdpp/detail/null/shuffle.h:28-74 | zip_lo(unzip_lo(x,y), unzip_hi(x,y)) = x and zip_hi(unzip_lo(x,y), unzip_hi(x,y)) = y |
| NullShuffle.UnzipSplitsConcatenation | simdpp/detail/null/shuffle.h:52-74 | unzip_lo(a,b) is the even lanes and unzip_hi(a,b) the odd lanes of a followed by b |
| Interleaving.InterleaveAt | simdpp/detail/null/shuffle.h:33-34 | lane 2i of an interleaving is x[i] and lane 2i+1 is y[i] |
| Interleaving.EvensAt | simdpp/detail/null/shuffle.h:58-59 | lane i of the even-lane selection is s[2i] |
| Interleaving.OddsAt | simdpp/detail/null/shuffle.h:70-71 | lane i of the odd-lane selection is s[2i+1] |
| Interleaving.SplitInterleave | simdpp/detail/null/shuffle.h:28-74 | the even lanes of interleave(x,y) are x and the odd lanes are y |
| Interleaving.InterleaveSplit | simdpp/detail/null/shuffle.h:28-74 | interleaving the even and the odd lanes of an even-length sequence gives it back |
| Interleaving.EvensAppend | simdpp/detail/null/shuffle.h:52-62 | after an even-length prefix, taking the even lanes distributes over concatenation |
| Interleaving.OddsAppend | simdpp/detail/null/shuffle.h:64-74 | after an even-length prefix, taking the odd lanes distributes over concatenation |
| NullShuffle.Splat | simdpp/detail/null/shuffle.h:94-102 | for pos below the lane count, every lane of the result is v[pos], with the same lane count |
| NullShuffle.SplatIdempotent | simdpp/detail/null/shuffle.h:94-102 | splatting a splat from the same position changes nothing |
| NullShuffle.SplatFixedPoint | simdpp/detail/null/shuffle.h:94-102 | splat leaves v unchanged if and only if all lanes of v equal v[pos] |
| NullShuffle.HiIndex | simdpp/detail/null/shuffle.h:111-113 | the unsigned 32-bit index i - 16 + shift wraps back to the true value, which is below shift, so the read of hi stays in range |
| NullShuffle.Align | simdpp/detail/null/shuffle.h:104-115 | lane i is lo[i + shift] while i + shift < 16 and hi[i + shift - 16] after that; the result is the 16-lane window at shift over lo followed by hi |
| NullShuffle.AlignEnds | simdpp/detail/null/shuffle.h:104-115 | align with shift 0 gives lo, and with shift 16 gives hi |
| NullShuffle.AlignCompose | simdpp/detail/null/shuffle.h:104-115 | aligning two aligned windows of a stream a,b,c by t equals aligning a,b by s + t |
| NullShuffle.Mux32 | simdpp/detail/null/shuffle.h:121-123 | in one lane, the bits set in the mask agree with on and the bits clear in it agree with off |
| NullShuffle.Blend | simdpp/detail/null/shuffle.h:117-125 | (on and mask) or (off and not mask) computes the lane-wise bitwise select |
| NullShuffle.BlendBits | simdpp/detail/null/shuffle.h:117-125 | in every lane of a blend, the mask's set bits come from on and its clear bits from off |
| NullShuffle.BlendConstantMasks | simdpp/detail/null/shuffle.h:117-125 | an all-ones mask yields on, and an all-zeros mask yields off |
| NullShuffle.BlendSame | simdpp/detail/null/shuffle.h:117-125 | blend(x, x, m) = x for every mask m |
| NullShuffle.BlendOfUnmask | simdpp/types/float32x4.h:157-164 | with an unmasked boolean mask (all ones or all zeros per lane), the bitwise blend equals the per-lane mask blend |
| NullBitwise.Unmask32 | simdpp/types/float32x4.h:157-168 | a true mask lane becomes all bits set and a false one all bits clear, so a lane is nonzero exactly when the mask lane holds |
| NullShuffle.BlendMaskRun | simdpp/detail/null/shuffle.h:127-137 | lane i is on[i] where mask[i] holds and off[i] elsewhere |
| NullShuffle.BlendMaskRun1 | simdpp/detail/null/shuffle.h:139-147 | the one-lane specialisation computes the same result as the generic loop |
| NullShuffle.BlendMaskRun2 | simdpp/detail/null/shuffle.h:148-157 | the two-lane specialisation computes the same result as the generic loop |
| NullShuffle.BlendMaskRun4 | simdpp/detail/null/shuffle.h:158-169 | the four-lane specialisation computes the same result as the generic loop |
| NullShuffle.BlendMask | simdpp/detail/null/shuffle.h:171-175 | whichever implementation the lane count picks, a lane comes from on when its mask lane holds and from off otherwise |
| NullShuffle.MaskSelectExtremes | simdpp/detail/null/shuffle.h:127-137 | an all-true mask yields on, an all-false mask yields off, and blending x with itself yields x |
| NullShuffle.Permute2 | simdpp/detail/null/shuffle.h:177-186 | for an even lane count and selectors below 2, the result is each pair of a rearranged by (s0, s1) |
| NullShuffle.Permute4 | simdpp/detail/null/shuffle.h:188-199 | for a lane count divisible by 4 and selectors below 4, the result is each group of four of a rearranged by (s0..s3) |
| NullShuffle.Shuffle1 | simdpp/detail/null/shuffle.h:201-210 | in each pair, the first lane is a at offset s0 and the second is b at offset s1 |
| NullShuffle.Shuffle2 | simdpp/detail/null/shuffle.h:212-223 | in each group of four, the first two lanes come from a at s0, s1 and the last two from b at s2, s3 |
| NullShuffle.GroupPickLength | simdpp/detail/null/shuffle.h:177-223 | over a whole number of groups, the result has as many lanes as the input |
| NullShuffle.GroupPickAt | simdpp/detail/null/shuffle.h:177-223 | lane j of the group at base reads lane base + sel[j] of the same group, from a when j < split and from b otherwise |
| NullShuffle.GroupPickLanes2 | simdpp/detail/null/shuffle.h:181-184 | lane k of a two-lane group selection is (a or b)[k - k%2 + sel[k%2]], so it never leaves its group |
| NullShuffle.GroupPickLanes4 | simdpp/detail/null/shuffle.h:192-197 | lane k of a four-lane group selection is (a or b)[k - k%4 + sel[k%4]], so it never leaves its group |
| NullShuffle.PermuteIdentity | simdpp/detail/null/shuffle.h:177-199 | permute<0,1> and permute<0,1,2,3> leave the vector unchanged |
| NullShuffle.GroupPickAppend | simdpp/detail/null/shuffle.h:177-223 | over whole groups, the selection of a concatenation is the concatenation of the selections |
| NullShuffle.WholeGroupsOfMultiple | simdpp/detail/null/shuffle.h:181 | a lane count divisible by 2 (or by 4) splits into whole groups of that size, so stepping by 2 (or 4) ends exactly at the length |
| FloatSign.SignF32 | simdpp/detail/insn/f_sign.h:27-31 | lane i is -0.0 (only bit 31 set) when a[i] has its sign bit set, and +0.0 otherwise |
| FloatSign.SignF64 | simdpp/detail/insn/f_sign.h:33-37 | lane i is -0.0 (only bit 63 set) when a[i] has its sign bit set, and +0.0 otherwise |
| FloatSign.SignF32Bits | simdpp/detail/insn/f_sign.h:30 | bit 31 of every lane is kept and the other 31 bits are cleared |
| FloatSign.SignF64Bits | simdpp/detail/insn/f_sign.h:36 | bit 63 of every lane is kept and the other 63 bits are cleared |
| FloatSign.SignLaneWise | simdpp/detail/insn/f_sign.h:27-37 | lane i of the result depends on lane i of the input only |
| FloatSign.SignIdempotent | simdpp/detail/insn/f_sign.h:27-37 | applying i_sign twice equals applying it once |
| FloatSign.SignOfConcatenation | simdpp/detail/insn/f_sign.h:27-37 | the sign of a concatenation is the concatenation of the signs |
| FloatSign.SignF32Examples | simdpp/detail/insn/f_sign.h:30 | 1.0, -0.0, a negative NaN and -infinity map to +0.0, -0.0, -0.0 and -0.0 |
| FloatSign.SignF64Examples | simdpp/detail/insn/f_sign.h:36 | 2.0, a positive NaN and -1.0 map to +0.0, +0.0 and -0.0 |

## Left out

- zip16_lo … zip2_hi and unzip16_lo … unzip2_hi (shuffle.h:76-92) only forward to zip_lo_impl, zip_hi_impl, unzip_lo_impl and unzip_hi_impl. Their element-size tag does not change the null computation, so the four impl methods stand for them.
- ZipLoImpl, ZipHiImpl, UnzipLoImpl, UnzipHiImpl: for an odd lane count the source leaves the last lane of the result as default-constructed. The contracts therefore constrain only the first 2·(n/2) lanes and the length. The library's lane counts are powers of two, so this case does not arise in practice.
- Align: the source hard-codes 16 lanes and computes `16 - shift` in unsigned arithmetic. The model requires 16 lanes and shift ≤ 16. With a larger shift the bound wraps and the loop reads out of range, which the source does not guard against.
- Permute2, Permute4, Shuffle1, Shuffle2: the selectors are template parameters that the source does not check. The model requires them to lie inside the group, and the lane count to be a whole number of groups. Otherwise the source reads past the vector.
- Template parameters (pos, shift, s0…s3) are ordinary arguments, and the lane count V::length is the length of the sequence.
- Blend, BlendBits, BlendConstantMasks, BlendSame, BlendOfUnmask: these are stated for 32-bit lanes (`bv32`). The source is generic over the vector type, and other lane widths behave the same way bit by bit.
- The null `bit_and`, `bit_andnot` and `bit_or` that blend calls, and `unmask_mask`, are not part of this model. They are modelled lane-wise as the bitwise operations their names denote (`NullBitwise`), and a true mask lane unmasks to all bits set.
- SignF32, SignF64: the integer constant that i_sign passes to bit_and is broadcast to every lane as a bit pattern. Floating-point values appear only as their IEEE 754 bit patterns, and no floating-point arithmetic is modelled.
- Result vectors are fresh local arrays returned by value. C++ references to lanes (`el()` returning `float&`), copies and aliasing between vectors are not modelled.
- The hardware backends (SSE, AVX, NEON, AltiVec, MSA), feature dispatch, the expression-template protocol (`simdpp/detail/expr/bit_not.h`), the rest of the vector-type headers, `cmp_le` and `f_isnan` lie outside this model. Only the `el()` lane interface of the types is used.
