/**
 * Reference definitions for the subset-sum problem.
 *
 * `Sigma(s)` is the set of sums of the non-empty sub-selections of the
 * sequence `s`, and `SigmaU(s, u)` keeps those below the bound `u` (the
 * paper's Σ_u). `IsSubsetSum` is the power-set view used by the test
 * suite's brute-force solver; the two are proved to agree.
 */
module SumsSpec {

  /** Every element of `s` is at least 1. */
  ghost predicate Positive(s: seq<int>) {
    forall i :: 0 <= i < |s| ==> s[i] >= 1
  }

  /** Every element of `s` lies in the closed interval [lo, hi]. */
  ghost predicate AllIn(s: seq<int>, lo: int, hi: int) {
    forall i :: 0 <= i < |s| ==> lo <= s[i] <= hi
  }

  /** The sum of the elements of `s` that the mask `m` selects. */
  ghost function MaskedSum(s: seq<int>, m: seq<bool>): int
    requires |m| == |s|
    decreases |s|
  {
    if s == [] then 0
    else MaskedSum(s[..|s| - 1], m[..|m| - 1]) + (if m[|m| - 1] then s[|s| - 1] else 0)
  }

  /** `v` is the sum of some non-empty subset of the positions of `s`. */
  ghost predicate IsSubsetSum(s: seq<int>, v: int) {
    exists m: seq<bool> :: |m| == |s| && true in m && MaskedSum(s, m) == v
  }

  /** Sums of the non-empty sub-selections of `s`, built element by element. */
  ghost function Sigma(s: seq<int>): set<int>
    decreases |s|
  {
    if s == [] then {}
    else
      var p, x := s[..|s| - 1], s[|s| - 1];
      Sigma(p) + {x} + Shift(Sigma(p), x)
  }

  /** Every value of `X` increased by `x`. */
  ghost function Shift(X: set<int>, x: int): set<int> {
    set v | v in X :: v + x
  }

  /** Σ_u(s): the subset sums of `s` strictly below `u`. */
  ghost function SigmaU(s: seq<int>, u: int): set<int> {
    set v | v in Sigma(s) && v < u
  }

  /** The values of `X` strictly below `u`. */
  ghost function Below(X: set<int>, u: int): set<int> {
    set v | v in X && v < u
  }

  /** The Minkowski sum {x + y | x in X, y in Y}. */
  ghost function SumSet(X: set<int>, Y: set<int>): set<int> {
    set x, y | x in X && y in Y :: x + y
  }

  /** The right-hand side of Theorem 2: (X ∪ Y ∪ (X ⊕ Y)) ∩ (-∞, u). */
  ghost function MergeTarget(X: set<int>, Y: set<int>, u: int): set<int> {
    Below(X + Y + SumSet(X, Y), u)
  }

  /** `v` is the sum of a possibly empty subset of `p` (the DP tables' cell meaning). */
  ghost predicate Reach(p: seq<int>, v: int) {
    v == 0 || v in Sigma(p)
  }

  lemma SigmaSnoc(p: seq<int>, x: int)
    ensures Sigma(p + [x]) == Sigma(p) + {x} + Shift(Sigma(p), x)
  {
    assert (p + [x])[..|p|] == p;
  }

  /** Every subset sum of a positive sequence is positive. */
  lemma {:induction false} SigmaPositive(s: seq<int>)
    requires Positive(s)
    ensures forall v :: v in Sigma(s) ==> v >= 1
    decreases |s|
  {
    if s != [] {
      SigmaPositive(s[..|s| - 1]);
    }
  }

  /** The masks that select nothing sum to 0. */
  lemma {:induction false} MaskedSumNone(s: seq<int>, m: seq<bool>)
    requires |m| == |s| && !(true in m)
    ensures MaskedSum(s, m) == 0
    decreases |s|
  {
    if s != [] {
      assert m[..|m| - 1] <= m;
      MaskedSumNone(s[..|s| - 1], m[..|m| - 1]);
    }
  }

  lemma MaskedSumSnoc(p: seq<int>, mp: seq<bool>, x: int, b: bool)
    requires |mp| == |p|
    ensures MaskedSum(p + [x], mp + [b]) == MaskedSum(p, mp) + (if b then x else 0)
  {
    assert (p + [x])[..|p|] == p;
    assert (mp + [b])[..|mp|] == mp;
  }

  /** Every value of Sigma(s) is the sum of a non-empty selection of `s`. */
  lemma {:induction false} SigmaHasMask(s: seq<int>, v: int) returns (m: seq<bool>)
    requires v in Sigma(s)
    ensures |m| == |s| && true in m && MaskedSum(s, m) == v
    decreases |s|
  {
    var p, x := s[..|s| - 1], s[|s| - 1];
    assert s == p + [x];
    SigmaSnoc(p, x);
    if v in Sigma(p) {
      var mp := SigmaHasMask(p, v);
      MaskedSumSnoc(p, mp, x, false);
      m := mp + [false];
      assert m[..|mp|] == mp;
    } else if v == x {
      var mp := seq(|p|, _ => false);
      MaskedSumNone(p, mp);
      MaskedSumSnoc(p, mp, x, true);
      m := mp + [true];
      assert m[|p|];
    } else {
      var w :| w in Sigma(p) && v == w + x;
      var mp := SigmaHasMask(p, w);
      MaskedSumSnoc(p, mp, x, true);
      m := mp + [true];
      assert m[|p|];
    }
  }

  /** The sum of every non-empty selection of `s` is in Sigma(s). */
  lemma {:induction false} MaskInSigma(s: seq<int>, m: seq<bool>)
    requires |m| == |s| && true in m
    ensures MaskedSum(s, m) in Sigma(s)
    decreases |s|
  {
    var p, x := s[..|s| - 1], s[|s| - 1];
    var mp, b := m[..|m| - 1], m[|m| - 1];
    assert s == p + [x];
    assert m == mp + [b];
    SigmaSnoc(p, x);
    MaskedSumSnoc(p, mp, x, b);
    if true in mp {
      MaskInSigma(p, mp);
    } else {
      MaskedSumNone(p, mp);
    }
  }

  /**
   * The recursive definition agrees with the power-set enumeration: `v` is in
   * Sigma(s) exactly when some non-empty subset of `s` sums to `v`.
   */
  lemma SigmaIsPowerSetSums(s: seq<int>, v: int)
    ensures v in Sigma(s) <==> IsSubsetSum(s, v)
  {
    if v in Sigma(s) {
      var m := SigmaHasMask(s, v);
    }
    if IsSubsetSum(s, v) {
      var m :| |m| == |s| && true in m && MaskedSum(s, m) == v;
      MaskInSigma(s, m);
    }
  }

  /** The set algebra behind one induction step of SigmaConcat. */
  lemma ConcatStep(P: set<int>, Q: set<int>, x: int)
    ensures var PQ := P + Q + SumSet(P, Q);
            var Qx := Q + {x} + Shift(Q, x);
            PQ + {x} + Shift(PQ, x) == P + Qx + SumSet(P, Qx)
  {
    ConcatStepForth(P, Q, x);
    ConcatStepBack(P, Q, x);
  }

  lemma ConcatStepForth(P: set<int>, Q: set<int>, x: int)
    ensures var PQ := P + Q + SumSet(P, Q);
            var Qx := Q + {x} + Shift(Q, x);
            PQ + {x} + Shift(PQ, x) <= P + Qx + SumSet(P, Qx)
  {
    var PQ := P + Q + SumSet(P, Q);
    forall v | v in PQ + {x} + Shift(PQ, x) ensures v in P + (Q + {x} + Shift(Q, x)) + SumSet(P, Q + {x} + Shift(Q, x)) {
      ConcatForthElem(P, Q, x, v);
    }
  }

  lemma ConcatForthElem(P: set<int>, Q: set<int>, x: int, v: int)
    requires v in (P + Q + SumSet(P, Q)) + {x} + Shift(P + Q + SumSet(P, Q), x)
    ensures v in P + (Q + {x} + Shift(Q, x)) + SumSet(P, Q + {x} + Shift(Q, x))
  {
    var PQ := P + Q + SumSet(P, Q);
    var Qx := Q + {x} + Shift(Q, x);
    if v in PQ {
      if v !in P && v !in Q {
        var a, b := SumSetWitness(P, Q, v);
        InSumSet(P, Qx, a, b);
      }
    } else if v != x {
      var w := ShiftWitness(PQ, x, v);
      if w in P {
        InSumSet(P, Qx, w, x);
      } else if w in Q {
        InShift(Q, w, x);
      } else {
        var a, b := SumSetWitness(P, Q, w);
        InShift(Q, b, x);
        InSumSet(P, Qx, a, b + x);
      }
    }
  }

  lemma ConcatStepBack(P: set<int>, Q: set<int>, x: int)
    ensures var PQ := P + Q + SumSet(P, Q);
            var Qx := Q + {x} + Shift(Q, x);
            P + Qx + SumSet(P, Qx) <= PQ + {x} + Shift(PQ, x)
  {
    var Qx := Q + {x} + Shift(Q, x);
    forall v | v in P + Qx + SumSet(P, Qx) ensures v in (P + Q + SumSet(P, Q)) + {x} + Shift(P + Q + SumSet(P, Q), x) {
      ConcatBackElem(P, Q, x, v);
    }
  }

  lemma ConcatBackElem(P: set<int>, Q: set<int>, x: int, v: int)
    requires v in P + (Q + {x} + Shift(Q, x)) + SumSet(P, Q + {x} + Shift(Q, x))
    ensures v in (P + Q + SumSet(P, Q)) + {x} + Shift(P + Q + SumSet(P, Q), x)
  {
    var PQ := P + Q + SumSet(P, Q);
    var Qx := Q + {x} + Shift(Q, x);
    if v in P || v in Q {
    } else if v in Qx {
      if v != x {
        var c := ShiftWitness(Q, x, v);
        InShift(PQ, c, x);
      }
    } else {
      var a, b := SumSetWitness(P, Qx, v);
      if b in Q {
        InSumSet(P, Q, a, b);
      } else if b == x {
        InShift(PQ, a, x);
      } else {
        var c := ShiftWitness(Q, x, b);
        InSumSet(P, Q, a, c);
        InShift(PQ, a + c, x);
      }
    }
  }

  lemma InSumSet(X: set<int>, Y: set<int>, a: int, b: int)
    requires a in X && b in Y
    ensures a + b in SumSet(X, Y)
  {
  }

  lemma SumSetWitness(X: set<int>, Y: set<int>, v: int) returns (a: int, b: int)
    requires v in SumSet(X, Y)
    ensures a in X && b in Y && v == a + b
  {
    a, b :| a in X && b in Y && v == a + b;
  }

  lemma InShift(X: set<int>, w: int, x: int)
    requires w in X
    ensures w + x in Shift(X, x)
  {
  }

  lemma ShiftWitness(X: set<int>, x: int, v: int) returns (w: int)
    requires v in Shift(X, x)
    ensures w in X && v == w + x
  {
    w :| w in X && v == w + x;
  }

  /** Σ(pq) = Σ(p) ∪ Σ(q) ∪ (Σ(p) ⊕ Σ(q)). */
  lemma {:induction false} SigmaConcat(p: seq<int>, q: seq<int>)
    ensures Sigma(p + q) == Sigma(p) + Sigma(q) + SumSet(Sigma(p), Sigma(q))
    decreases |q|
  {
    if q == [] {
      assert p + q == p;
    } else {
      var q', x := q[..|q| - 1], q[|q| - 1];
      assert q == q' + [x];
      assert p + q == (p + q') + [x];
      SigmaConcat(p, q');
      SigmaSnoc(p + q', x);
      SigmaSnoc(q', x);
      ConcatStep(Sigma(p), Sigma(q'), x);
    }
  }

  /**
   * Theorem 2 of the paper on the level of sets: for positive sequences,
   * Σ_u(pq) is obtained from Σ_u(p) and Σ_u(q) alone.
   */
  lemma SigmaUConcat(p: seq<int>, q: seq<int>, u: int)
    requires Positive(p) && Positive(q)
    ensures SigmaU(p + q, u) == MergeTarget(SigmaU(p, u), SigmaU(q, u), u)
  {
    SigmaConcat(p, q);
    SigmaPositive(p);
    SigmaPositive(q);
    var X, Y := SigmaU(p, u), SigmaU(q, u);
    forall v | v in SigmaU(p + q, u) ensures v in MergeTarget(X, Y, u) {
      if v !in Sigma(p) && v !in Sigma(q) {
        var a, b :| a in Sigma(p) && b in Sigma(q) && v == a + b;
        assert a in X && b in Y;
        assert v in SumSet(X, Y);
      }
    }
    forall v | v in MergeTarget(X, Y, u) ensures v in SigmaU(p + q, u) {
      if v !in X && v !in Y {
        var a, b :| a in X && b in Y && v == a + b;
        assert v in SumSet(Sigma(p), Sigma(q));
      }
    }
  }

  /** Sub-selections of a prefix are sub-selections of the whole. */
  lemma SigmaPrefix(s: seq<int>, j: nat, k: nat)
    requires j <= k <= |s|
    ensures Sigma(s[..j]) <= Sigma(s[..k])
  {
    assert s[..k] == s[..j] + s[j..k];
    SigmaConcat(s[..j], s[j..k]);
  }

  /**
   * Adding one element to a prefix: the DP transition. A value is reachable
   * with `p + [x]` iff it is reachable with `p`, or `v - x` is (and v - x >= 0).
   */
  lemma ReachSnoc(p: seq<int>, x: int, v: int)
    requires Positive(p)
    ensures Reach(p + [x], v) <==> Reach(p, v) || (v - x >= 0 && Reach(p, v - x))
  {
    SigmaSnocMember(p, x, v);
    SigmaPositive(p);
  }

  lemma SigmaSnocMember(p: seq<int>, x: int, v: int)
    ensures v in Sigma(p + [x]) <==> v in Sigma(p) || v == x || v - x in Sigma(p)
  {
    SigmaSnoc(p, x);
    if v in Shift(Sigma(p), x) {
      var w := ShiftWitness(Sigma(p), x, v);
    }
    if v - x in Sigma(p) {
      InShift(Sigma(p), v - x, x);
    }
  }

  /**
   * A subset sum of a sequence whose elements lie in [a, a + l - 1] is the sum
   * of some number t of them, so it lies in [t·a, t·(a + l - 1)].
   */
  lemma {:induction false} SubsetCount(s: seq<int>, a: int, l: int, v: int) returns (t: nat)
    requires AllIn(s, a, a + l - 1)
    requires v in Sigma(s)
    ensures 1 <= t <= |s|
    ensures t * a <= v <= t * (a + l - 1)
    decreases |s|
  {
    var p, x := s[..|s| - 1], s[|s| - 1];
    if v in Sigma(p) {
      t := SubsetCount(p, a, l, v);
    } else if v == x {
      t := 1;
    } else {
      var w :| w in Sigma(p) && v == w + x;
      var t' := SubsetCount(p, a, l, w);
      t := t' + 1;
      MulSucc(t', a);
      MulSucc(t', a + l - 1);
    }
  }

  lemma MulSucc(t: int, c: int)
    ensures (t + 1) * c == t * c + c
  {
  }

  /** Subset sums of positive elements below u: every such set lies in [1, u). */
  lemma SigmaURange(s: seq<int>, u: int)
    requires Positive(s)
    ensures forall v :: v in SigmaU(s, u) ==> 1 <= v < u
  {
    SigmaPositive(s);
  }
}
