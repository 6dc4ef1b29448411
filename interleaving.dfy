/** Reference definitions for the interleaving shuffles: merging two lane
    sequences lane by lane, and splitting one sequence into its even- and
    odd-indexed lanes. The null zip and unzip methods are proved against
    these definitions, and the round trips between them are proved here. */
module Interleaving {

  /** [x0, y0, x1, y1, ...] */
  function Interleave<T>(x: seq<T>, y: seq<T>): (r: seq<T>)
    requires |x| == |y|
    ensures |r| == 2 * |x|
  {
    if x == [] then [] else [x[0], y[0]] + Interleave(x[1..], y[1..])
  }

  /** The lanes at even positions: s0, s2, s4, ... */
  function Evens<T>(s: seq<T>): (r: seq<T>)
    ensures |r| == (|s| + 1) / 2
  {
    if |s| < 2 then s else [s[0]] + Evens(s[2..])
  }

  /** The lanes at odd positions: s1, s3, s5, ... */
  function Odds<T>(s: seq<T>): (r: seq<T>)
    ensures |r| == |s| / 2
  {
    if |s| < 2 then [] else [s[1]] + Odds(s[2..])
  }

  /** Lane 2i of an interleaving is x[i] and lane 2i+1 is y[i]. */
  lemma {:induction false} InterleaveAt<T>(x: seq<T>, y: seq<T>, i: nat)
    requires |x| == |y| && i < |x|
    ensures Interleave(x, y)[2 * i] == x[i] && Interleave(x, y)[2 * i + 1] == y[i]
  {
    if i > 0 {
      InterleaveAt(x[1..], y[1..], i - 1);
    }
  }

  /** Lane i of Evens(s) is s[2i]. */
  lemma {:induction false} EvensAt<T>(s: seq<T>, i: nat)
    requires 2 * i < |s|
    ensures Evens(s)[i] == s[2 * i]
  {
    if i > 0 {
      EvensAt(s[2..], i - 1);
    }
  }

  /** Lane i of Odds(s) is s[2i+1]. */
  lemma {:induction false} OddsAt<T>(s: seq<T>, i: nat)
    requires 2 * i + 1 < |s|
    ensures Odds(s)[i] == s[2 * i + 1]
  {
    if i > 0 {
      OddsAt(s[2..], i - 1);
    }
  }

  /** Taking the even lanes of an interleaving gives back its first operand,
      the odd lanes its second. */
  lemma {:induction false} SplitInterleave<T>(x: seq<T>, y: seq<T>)
    requires |x| == |y|
    ensures Evens(Interleave(x, y)) == x
    ensures Odds(Interleave(x, y)) == y
  {
    if x != [] {
      var rest := Interleave(x[1..], y[1..]);
      assert Interleave(x, y)[2..] == rest;
      SplitInterleave(x[1..], y[1..]);
    }
  }

  /** Interleaving the even and the odd lanes of an even-length sequence
      gives back that sequence. */
  lemma {:induction false} InterleaveSplit<T>(s: seq<T>)
    requires |s| % 2 == 0
    ensures Interleave(Evens(s), Odds(s)) == s
  {
    if s != [] {
      InterleaveSplit(s[2..]);
      assert Evens(s)[1..] == Evens(s[2..]);
      assert Odds(s)[1..] == Odds(s[2..]);
    }
  }

  /** Taking the even lanes is linear over an even-length prefix. */
  lemma {:induction false} EvensAppend<T>(s: seq<T>, t: seq<T>)
    requires |s| % 2 == 0
    ensures Evens(s + t) == Evens(s) + Evens(t)
  {
    if s == [] {
      assert s + t == t;
    } else {
      var u := s + t;
      assert u[0] == s[0];
      assert u[2..] == s[2..] + t;
      EvensAppend(s[2..], t);
      assert Evens(u) == [s[0]] + Evens(s[2..] + t);
      assert Evens(s) == [s[0]] + Evens(s[2..]);
    }
  }

  /** Taking the odd lanes is linear over an even-length prefix. */
  lemma {:induction false} OddsAppend<T>(s: seq<T>, t: seq<T>)
    requires |s| % 2 == 0
    ensures Odds(s + t) == Odds(s) + Odds(t)
  {
    if s == [] {
      assert s + t == t;
    } else {
      var u := s + t;
      assert u[1] == s[1];
      assert u[2..] == s[2..] + t;
      OddsAppend(s[2..], t);
      assert Odds(u) == [s[1]] + Odds(s[2..] + t);
      assert Odds(s) == [s[1]] + Odds(s[2..]);
    }
  }
}
