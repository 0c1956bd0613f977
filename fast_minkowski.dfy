/**
 * `FastMinkowskiSubsetSummer`: the divide-and-conquer solver after
 * Koiliaris and Xu, "A Faster Pseudopolynomial Time Algorithm for Subset
 * Sum" (arXiv 1507.02318), a deterministic algorithm, in integer arithmetic.
 *
 * The solver splits the sorted input into intervals, seeds one singleton
 * record per element, reduces each interval with `Combine` and then reduces
 * the interval results. Each merge takes the Minkowski sum of two sum sets,
 * directly or after the coordinate compression `PerfectH` of the paper's
 * Lemma 1.
 */
module FastMinkowski {
  import opened SumsSpec
  import opened SubsetSummer
  import opened SubsetSumsRecord
  import opened Minkowski

  // ---------------------------------------------------------------------
  // Integer helpers (Java `long` semantics where they matter)
  // ---------------------------------------------------------------------

  function Min(x: int, y: int): int { if x <= y then x else y }

  function Max(x: int, y: int): int { if x >= y then x else y }

  /** Java's `/` on longs: truncates toward zero. */
  function JDiv(x: int, d: int): (q: int)
    requires d > 0
    ensures x >= 0 ==> d * q <= x < d * q + d
    ensures x < 0 ==> d * q - d < x <= d * q
  {
    if x >= 0 then x / d else -((-x) / d)
  }

  /** Java's `%` on longs: the remainder takes the sign of the dividend. */
  function JRem(x: int, d: int): (r: int)
    requires d > 0
    ensures x == d * JDiv(x, d) + r
    ensures -d < r < d
    ensures x >= 0 ==> r == x % d
    ensures x < 0 ==> r <= 0
  {
    x - d * JDiv(x, d)
  }

  /** `LongMath.divide(u, a, CEILING)`: the least q with a·q >= u. */
  function CeilDiv(u: int, a: int): (q: int)
    requires a > 0
    ensures a * q >= u
    ensures a * (q - 1) < u
  {
    -((-u) / a)
  }

  function Pow2(k: nat): (p: int)
    ensures p >= 1
  {
    if k == 0 then 1 else 2 * Pow2(k - 1)
  }

  /** `LongMath.log2(n, CEILING)`: the least r with 2^r >= n. */
  function CeilLog2(n: int): (r: nat)
    requires n >= 1
    ensures Pow2(r) >= n
    ensures r == 0 || Pow2(r - 1) < n
  {
    if n == 1 then 0 else 1 + CeilLog2((n + 1) / 2)
  }

  /** The number k of interior interval boundaries for n input elements (`log2(max(log2(n), 1))` in `subsetSums`). */
  function IntervalCount(n: int): (k: nat)
    requires n >= 1
    ensures Pow2(k) >= CeilLog2(n) && Pow2(k) >= 1
    ensures k == 0 || Pow2(k - 1) < CeilLog2(n)
  {
    CeilLog2(Max(CeilLog2(n), 1))
  }

  // ---------------------------------------------------------------------
  // Coordinate compression (Lemma 1 of the paper)
  // ---------------------------------------------------------------------

  /**
   * h(x) = 2·l·(x div d) + (x mod d), with Java's truncating operators: it
   * moves the quotient of x by d onto a grid of step 2l and keeps the
   * residue, so both can be read back modulo 2l while the residue is below 2l.
   */
  function H(x: int, d: int, l: int): (y: int)
    requires d > 0
    ensures x >= 0 && l >= 1 && x % d < 2 * l ==>
      y >= 0 && y / (2 * l) == x / d && y % (2 * l) == x % d
  {
    var y := 2 * l * JDiv(x, d) + JRem(x, d);
    if x >= 0 && l >= 1 && x % d < 2 * l then
      DivNonNeg(x, d);
      MulNonNeg(2 * l, x / d);
      DivModUnique(y, 2 * l, x / d, x % d);
      y
    else y
  }

  /**
   * h⁻¹(y) = d·(y div 2l) + (y mod 2l), with Java's truncating operators: the
   * mirror of h, moving the quotient by 2l back onto a grid of step d.
   */
  function HInverse(y: int, d: int, l: int): (x: int)
    requires l >= 1
    ensures y >= 0 && d > 0 && y % (2 * l) < d ==>
      x >= 0 && x / d == y / (2 * l) && x % d == y % (2 * l)
  {
    var x := d * JDiv(y, 2 * l) + JRem(y, 2 * l);
    if y >= 0 && d > 0 && y % (2 * l) < d then
      DivNonNeg(y, 2 * l);
      MulNonNeg(d, y / (2 * l));
      DivModUnique(x, d, y / (2 * l), y % (2 * l));
      x
    else x
  }

  lemma MulAtLeast(m: int, k: int)
    requires m > 0 && k >= 1
    ensures m * k >= m
  {
  }

  lemma MulNonNeg(a: int, b: int)
    requires a >= 0 && b >= 0
    ensures a * b >= 0
  {
  }

  lemma Distrib(a: int, b: int, c: int)
    ensures a * (b + c) == a * b + a * c
  {
  }

  lemma DivNonNeg(x: int, d: int)
    requires x >= 0 && d > 0
    ensures x / d >= 0 && 0 <= x % d < d
  {
  }

  /** Division with remainder is unique. */
  lemma DivModUnique(y: int, m: int, q: int, r: int)
    requires m > 0 && 0 <= r < m && y == m * q + r
    ensures y / m == q && y % m == r
  {
    var q0, r0 := y / m, y % m;
    assert y == m * q0 + r0 && 0 <= r0 < m;
    assert m * q - m * q0 == m * (q - q0);
    if q > q0 {
      MulAtLeast(m, q - q0);
    } else if q < q0 {
      MulAtLeast(m, q0 - q);
    }
  }

  lemma HOfNonNeg(x: int, d: int, l: int)
    requires d > 0 && x >= 0
    ensures H(x, d, l) == 2 * l * (x / d) + x % d
  {
  }

  lemma HNonNeg(x: int, d: int, l: int)
    requires d > 0 && l >= 1 && x >= 0
    ensures H(x, d, l) >= 0
  {
    HOfNonNeg(x, d, l);
    DivNonNeg(x, d);
    MulNonNeg(2 * l, x / d);
  }

  lemma HInverseNonNeg(y: int, d: int, l: int)
    requires d > 0 && l >= 1 && y >= 0
    ensures HInverse(y, d, l) >= 0
  {
    DivNonNeg(y, 2 * l);
    MulNonNeg(d, y / (2 * l));
  }

  /** h⁻¹(2l·q + r) = d·q + r for 0 <= r < 2l. */
  lemma HInverseOf(z: int, d: int, l: int, q: int, r: int)
    requires l >= 1 && q >= 0 && 0 <= r < 2 * l && z == 2 * l * q + r
    ensures HInverse(z, d, l) == d * q + r
  {
    MulNonNeg(2 * l, q);
    DivModUnique(z, 2 * l, q, r);
  }

  lemma ImageNonEmpty(S: set<int>, r: set<int>, d: int, l: int)
    requires d > 0
    requires forall x :: x in S ==> H(x, d, l) in r
    ensures S != {} ==> r != {}
  {
    if S != {} {
      var x := PickElement(S);
      assert H(x, d, l) in r;
    }
  }

  /** `perfectH(S, d, l)`: h applied to every element when d >= 2l, the identity otherwise. */
  function PerfectH(S: set<int>, d: int, l: int): (r: set<int>)
    requires l >= 1
    ensures d < 2 * l ==> r == S
    ensures (forall x :: x in S ==> x >= 0) ==> forall y :: y in r ==> y >= 0
    ensures S != {} ==> r != {}
  {
    if d >= 2 * l then
      var r := set x | x in S :: H(x, d, l);
      assert forall x :: x in S ==> H(x, d, l) in r;
      ImageNonEmpty(S, r, d, l);
      forall x | x in S && x >= 0 ensures H(x, d, l) >= 0 {
        HNonNeg(x, d, l);
      }
      r
    else S
  }

  /** `inverseH(hS, d, l)`: h⁻¹ applied to every element when d >= 2l, the identity otherwise. */
  function InverseH(hS: set<int>, d: int, l: int): (r: set<int>)
    requires l >= 1
    ensures d < 2 * l ==> r == hS
    ensures (forall y :: y in hS ==> y >= 0) ==> forall x :: x in r ==> x >= 0
  {
    if d >= 2 * l then
      var r := set y | y in hS :: HInverse(y, d, l);
      assert forall y :: y in hS ==> HInverse(y, d, l) in r;
      forall y | y in hS && y >= 0 ensures HInverse(y, d, l) >= 0 {
        HInverseNonNeg(y, d, l);
      }
      r
    else hS
  }

  /** h of every element of S is in perfectH(S, d, l). */
  lemma PerfectHImage(S: set<int>, d: int, l: int, x: int)
    requires l >= 1 && d >= 2 * l && x in S
    ensures H(x, d, l) in PerfectH(S, d, l)
  {
  }

  /** h⁻¹ of every element of hS is in inverseH(hS, d, l). */
  lemma InverseHImage(hS: set<int>, d: int, l: int, y: int)
    requires l >= 1 && d >= 2 * l && y in hS
    ensures HInverse(y, d, l) in InverseH(hS, d, l)
  {
  }

  /** Every element of perfectH(S, d, l) is h of an element of S. */
  lemma PerfectHPreimage(S: set<int>, d: int, l: int, y: int) returns (x: int)
    requires l >= 1 && d >= 2 * l && y in PerfectH(S, d, l)
    ensures x in S && y == H(x, d, l)
  {
    x :| x in S && y == H(x, d, l);
  }

  /** Every element of inverseH(hS, d, l) is h⁻¹ of an element of hS. */
  lemma InverseHPreimage(hS: set<int>, d: int, l: int, x: int) returns (y: int)
    requires l >= 1 && d >= 2 * l && x in InverseH(hS, d, l)
    ensures y in hS && x == HInverse(y, d, l)
  {
    y :| y in hS && x == HInverse(y, d, l);
  }

  /**
   * h respects addition: when d >= 2l and the residues of x and y modulo d
   * add up to less than 2l, h⁻¹(h(x) + h(y)) = x + y.
   */
  lemma HAdditive(x: int, y: int, d: int, l: int)
    requires l >= 1 && d >= 2 * l
    requires x >= 0 && y >= 0
    requires x % d + y % d < 2 * l
    ensures HInverse(H(x, d, l) + H(y, d, l), d, l) == x + y
  {
    var qx, rx, qy, ry := x / d, x % d, y / d, y % d;
    var hx, hy := H(x, d, l), H(y, d, l);
    HOfNonNeg(x, d, l);
    HOfNonNeg(y, d, l);
    var m := 2 * l;
    assert hx == m * qx + rx;
    assert hy == m * qy + ry;
    Distrib(m, qx, qy);
    assert hx + hy == m * (qx + qy) + (rx + ry);
    DivNonNeg(x, d);
    DivNonNeg(y, d);
    HInverseOf(hx + hy, d, l, qx + qy, rx + ry);
    Distrib(d, qx, qy);
  }

  /** h⁻¹ undoes h on every x >= 0 whose residue modulo d is below 2l. */
  lemma HRoundTrip(x: int, d: int, l: int)
    requires l >= 1 && d >= 2 * l
    requires x >= 0 && x % d < 2 * l
    ensures HInverse(H(x, d, l), d, l) == x
  {
    HAdditive(x, 0, d, l);
    assert H(0, d, l) == 0;
  }

  /**
   * `inverseH(perfectH(S, d, l), d, l) == S` when every x in S has x mod d < 2l
   * (nothing is needed when d < 2l, where both are the identity).
   */
  lemma PerfectHRoundTrip(S: set<int>, d: int, l: int)
    requires l >= 1
    requires d >= 2 * l ==> (forall x :: x in S ==> x >= 0) && ResiduesBelow(S, d, 2 * l)
    ensures InverseH(PerfectH(S, d, l), d, l) == S
  {
    if d >= 2 * l {
      var hS := PerfectH(S, d, l);
      var back := InverseH(hS, d, l);
      forall x | x in S ensures x in back {
        RoundTripForth(S, hS, back, x, d, l);
      }
      forall z | z in back ensures z in S {
        RoundTripBack(S, hS, back, z, d, l);
      }
      assert back == S;
    }
  }

  lemma RoundTripForth(S: set<int>, hS: set<int>, back: set<int>, x: int, d: int, l: int)
    requires l >= 1 && d >= 2 * l
    requires (forall x :: x in S ==> x >= 0) && ResiduesBelow(S, d, 2 * l)
    requires hS == PerfectH(S, d, l) && back == InverseH(hS, d, l)
    requires x in S
    ensures x in back
  {
    HRoundTrip(x, d, l);
    PerfectHImage(S, d, l, x);
    InverseHImage(hS, d, l, H(x, d, l));
  }

  lemma RoundTripBack(S: set<int>, hS: set<int>, back: set<int>, z: int, d: int, l: int)
    requires l >= 1 && d >= 2 * l
    requires (forall x :: x in S ==> x >= 0) && ResiduesBelow(S, d, 2 * l)
    requires hS == PerfectH(S, d, l) && back == InverseH(hS, d, l)
    requires z in back
    ensures z in S
  {
    var y := InverseHPreimage(hS, d, l, z);
    var x := PerfectHPreimage(S, d, l, y);
    HRoundTrip(x, d, l);
  }

  /** A value in [d, d + l) has residue below l modulo d when d >= 2l. */
  lemma ResidueInSpan(x: int, d: int, l: int)
    requires l >= 1 && d >= 2 * l && d <= x < d + l
    ensures x % d == x - d < l
  {
    DivModUnique(x, d, 1, x - d);
  }

  /** The randomized round trip of the tests: S inside [d, d + l) with d >= 2l. */
  lemma PerfectHRoundTripOnSpan(S: set<int>, d: int, l: int)
    requires l >= 1 && d >= 2 * l
    requires forall x :: x in S ==> d <= x < d + l
    ensures InverseH(PerfectH(S, d, l), d, l) == S
  {
    forall x | x in S ensures x >= 0 && x % d < 2 * l {
      ResidueInSpan(x, d, l);
    }
    PerfectHRoundTrip(S, d, l);
  }

  /** Every element of `X` has residue modulo d below `bound`. */
  ghost predicate ResiduesBelow(X: set<int>, d: int, bound: int)
    requires d > 0
  {
    forall v :: v in X ==> v % d < bound
  }

  /**
   * The compressed convolution is exact: when every operand value has residue
   * below l modulo d (and d >= 2l), h⁻¹(h(A) ⊕ h(B)) = A ⊕ B.
   */
  lemma CompressedMinkowskiExact(A: set<int>, B: set<int>, d: int, l: int)
    requires l >= 1 && d >= 2 * l
    requires forall x :: x in A + B ==> x >= 0
    requires A + B != {}
    requires ResiduesBelow(A + B, d, l)
    ensures InverseH(MinkowskiSum(PerfectH(A, d, l), PerfectH(B, d, l)), d, l) == SumSet(A, B)
  {
    var hA, hB := PerfectH(A, d, l), PerfectH(B, d, l);
    var hC := MinkowskiSum(hA, hB);
    var C := InverseH(hC, d, l);
    forall c | c in SumSet(A, B) ensures c in C {
      CompressedForth(A, B, d, l, c);
    }
    forall c | c in C ensures c in SumSet(A, B) {
      CompressedBack(A, B, d, l, c);
    }
    assert C == SumSet(A, B);
  }

  lemma CompressedForth(A: set<int>, B: set<int>, d: int, l: int, c: int)
    requires l >= 1 && d >= 2 * l
    requires forall x :: x in A + B ==> x >= 0
    requires A + B != {}
    requires ResiduesBelow(A + B, d, l)
    requires c in SumSet(A, B)
    ensures c in InverseH(MinkowskiSum(PerfectH(A, d, l), PerfectH(B, d, l)), d, l)
  {
    var a, b :| a in A && b in B && c == a + b;
    var hA, hB := PerfectH(A, d, l), PerfectH(B, d, l);
    var hC := MinkowskiSum(hA, hB);
    var y := H(a, d, l) + H(b, d, l);
    PerfectHImage(A, d, l, a);
    PerfectHImage(B, d, l, b);
    SumSetMember(hA, hB, H(a, d, l), H(b, d, l), y);
    assert a in A + B && b in A + B;
    HAdditiveAt(a, b, d, l, y, c);
    InverseHImage(hC, d, l, y);
  }

  /** `HAdditive` for y = h(a) + h(b): h⁻¹(y) and a + b are the same value c. */
  lemma HAdditiveAt(a: int, b: int, d: int, l: int, y: int, c: int)
    requires l >= 1 && d >= 2 * l
    requires a >= 0 && b >= 0 && a % d < l && b % d < l
    requires y == H(a, d, l) + H(b, d, l)
    requires c == a + b || c == HInverse(y, d, l)
    ensures c == a + b == HInverse(y, d, l)
  {
    HAdditive(a, b, d, l);
  }

  lemma SumSetMember(A: set<int>, B: set<int>, a: int, b: int, c: int)
    requires a in A && b in B && c == a + b
    ensures c in SumSet(A, B)
  {
  }

  lemma CompressedBack(A: set<int>, B: set<int>, d: int, l: int, c: int)
    requires l >= 1 && d >= 2 * l
    requires forall x :: x in A + B ==> x >= 0
    requires A + B != {}
    requires ResiduesBelow(A + B, d, l)
    requires c in InverseH(MinkowskiSum(PerfectH(A, d, l), PerfectH(B, d, l)), d, l)
    ensures c in SumSet(A, B)
  {
    var hA, hB := PerfectH(A, d, l), PerfectH(B, d, l);
    var hC := MinkowskiSum(hA, hB);
    var y := InverseHPreimage(hC, d, l, c);
    var ha, hb :| ha in hA && hb in hB && y == ha + hb;
    var a := PerfectHPreimage(A, d, l, ha);
    var b := PerfectHPreimage(B, d, l, hb);
    assert a in A + B && b in A + B;
    HAdditiveAt(a, b, d, l, y, c);
    SumSetMember(A, B, a, b, c);
  }

  // ---------------------------------------------------------------------
  // Theorem 2: merging the subset sums of two stretches
  // ---------------------------------------------------------------------

  /** The length l of a span a + [l - 1], as `mergeSubsetSums` computes it. */
  function SpanLength(s: Span): (l: int)
    ensures s.hi == s.lo + l - 1
    ensures l >= 1 <==> s.lo <= s.hi
  {
    s.hi + 1 - s.lo
  }

  /** k = min(n, ⌈u / a⌉) of `mergeSubsetSums`, where a is the low end of the joint span. */
  function MergeBound(A: SubsetSums, B: SubsetSums, u: int): (k: int)
    requires SpanUnion(A.span, B.span).lo > 0
    ensures k <= A.size + B.size && k <= CeilDiv(u, SpanUnion(A.span, B.span).lo)
    ensures k == A.size + B.size || k == CeilDiv(u, SpanUnion(A.span, B.span).lo)
    ensures u >= 1 && A.size + B.size >= 1 ==> k >= 1
  {
    var a := SpanUnion(A.span, B.span).lo;
    CeilDivPositive(u, a);
    Min(A.size + B.size, CeilDiv(u, a))
  }

  lemma CeilDivPositive(u: int, a: int)
    requires a > 0
    ensures u >= 1 ==> CeilDiv(u, a) >= 1
  {
    var q := CeilDiv(u, a);
    if q < 1 {
      MulNonNeg(a, -q);
      assert a * q == -(a * (-q));
    }
  }

  /** The path test of `mergeSubsetSums`: k²·l >= u selects the plain Minkowski sum. */
  function UsesStandardPath(A: SubsetSums, B: SubsetSums, u: int): (standard: bool)
    requires SpanUnion(A.span, B.span).lo > 0
    ensures !standard && A.size + B.size >= 1 && SpanUnion(A.span, B.span).lo <= SpanUnion(A.span, B.span).hi ==>
      u >= 2 && MergeBound(A, B, u) >= 1 && MergeBound(A, B, u) * SpanLength(SpanUnion(A.span, B.span)) >= 1
  {
    var k, l := MergeBound(A, B, u), SpanLength(SpanUnion(A.span, B.span));
    var standard := k * k * l >= u;
    if !standard && A.size + B.size >= 1 && l >= 1 then
      FastPathArith(k, l, u);
      standard
    else
      standard
  }

  /** k²·l < u with l >= 1 forces u >= 1; then k >= 1 gives k·l >= 1 and u >= 2. */
  lemma FastPathArith(k: int, l: int, u: int)
    requires l >= 1 && k * k * l < u && (u >= 1 ==> k >= 1)
    ensures u >= 2 && k >= 1 && k * l >= 1
  {
    if k < 0 {
      assert k * k == (-k) * (-k);
    }
    MulNonNeg(k * k, l);
    MulAtLeast(k, l);
    MulAtLeast(k * l, k);
    assert k * k * l == (k * l) * k;
  }

  /**
   * The condition under which the compressed convolution of `mergeSubsetSums` is
   * exact: compression is the identity (a < 2·maxL), or every operand sum has
   * residue below maxL = k·l modulo a.
   */
  ghost predicate FastPathExact(A: SubsetSums, B: SubsetSums, u: int)
    requires SpanUnion(A.span, B.span).lo > 0
  {
    var a := SpanUnion(A.span, B.span).lo;
    var maxL := MergeBound(A, B, u) * SpanLength(SpanUnion(A.span, B.span));
    UsesStandardPath(A, B, u) || a < 2 * maxL || ResiduesBelow(A.sums + B.sums, a, maxL)
  }

  lemma MulLessCancel(a: int, t: int, q: int)
    requires a > 0 && a * t < a * q
    ensures t < q
  {
    assert a * t - a * q == a * (t - q);
    if t >= q {
      MulNonNeg(a, t - q);
    }
  }

  lemma MulMono(x: int, y: int, z: int)
    requires 0 <= x <= y && z >= 0
    ensures x * z <= y * z
  {
    MulNonNeg(y - x, z);
    assert y * z - x * z == (y - x) * z;
  }

  /** On the fast path k and maxL = k·l are at least 1. */
  lemma FastPathBounds(A: SubsetSums, B: SubsetSums, u: int)
    requires WellFormed(A, u) && WellFormed(B, u)
    ensures u >= 1
    ensures MergeBound(A, B, u) >= 1 && SpanLength(SpanUnion(A.span, B.span)) >= 1
    ensures MergeBound(A, B, u) * SpanLength(SpanUnion(A.span, B.span)) >= 1
  {
    var v := PickElement(Below(A.sums, u));
    var a := SpanUnion(A.span, B.span).lo;
    var q := CeilDiv(u, a);
    assert a * q == -(a * (-q));
    if q <= 0 {
      MulNonNeg(a, -q);
    }
    MulAtLeast(MergeBound(A, B, u), SpanLength(SpanUnion(A.span, B.span)));
  }

  /**
   * The set C of `mergeSubsetSums`: A.sums ⊕ B.sums, computed directly or through
   * the compression h with d = a and l = maxL = k·l.
   */
  function MergeConvolution(A: SubsetSums, B: SubsetSums, u: int): (C: set<int>)
    requires WellFormed(A, u) && WellFormed(B, u)
    ensures forall v :: v in C ==> v >= 0
    ensures FastPathExact(A, B, u) ==> C == SumSet(A.sums, B.sums)
  {
    var span := SpanUnion(A.span, B.span);
    var a, l := span.lo, SpanLength(span);
    var k := MergeBound(A, B, u);
    assert A.sums + B.sums != {} by {
      var v := PickElement(Below(A.sums, u));
      assert v in A.sums + B.sums;
    }
    if k * k * l >= u then
      MinkowskiSum(A.sums, B.sums)
    else
      FastPathBounds(A, B, u);
      var maxL := k * l;
      var hA := PerfectH(A.sums, a, maxL);
      var hB := PerfectH(B.sums, a, maxL);
      assert hA + hB != {} by {
        var v := PickElement(Below(A.sums, u));
        assert A.sums != {};
      }
      var C := InverseH(MinkowskiSum(hA, hB), a, maxL);
      assert FastPathExact(A, B, u) ==> C == SumSet(A.sums, B.sums) by {
        if FastPathExact(A, B, u) {
          if a < 2 * maxL {
          } else {
            CompressedMinkowskiExact(A.sums, B.sums, a, maxL);
          }
        }
      }
      C
  }

  /**
   * `mergeSubsetSums(ssA, ssB, u)`: the union of both sum sets and their
   * Minkowski sum, cut below u, with the joint span and the total size.
   */
  function MergeSubsetSums(A: SubsetSums, B: SubsetSums, u: int): (r: SubsetSums)
    requires WellFormed(A, u) && WellFormed(B, u)
    ensures r.span == SpanUnion(A.span, B.span) && r.size == A.size + B.size
    ensures WellFormed(r, u)
    ensures forall v :: v in r.sums ==> v < u
  {
    var C := MergeConvolution(A, B, u);
    var sums := set v | v in A.sums + B.sums + C && v < u;
    assert Below(sums, u) != {} by {
      var v := PickElement(Below(A.sums, u));
      assert v in Below(sums, u);
    }
    SubsetSums(sums, SpanUnion(A.span, B.span), A.size + B.size)
  }

  /**
   * The merged sums: every operand sum below u survives, and when the fast
   * path is exact the result is Σ_u of the joined stretch, i.e.
   * (A ∪ B ∪ (A ⊕ B)) ∩ [0, u - 1].
   */
  lemma MergeSums(A: SubsetSums, B: SubsetSums, u: int)
    requires WellFormed(A, u) && WellFormed(B, u)
    ensures Below(A.sums + B.sums, u) <= MergeSubsetSums(A, B, u).sums
    ensures FastPathExact(A, B, u) ==> MergeSubsetSums(A, B, u).sums == MergeTarget(A.sums, B.sums, u)
  {
    var C := MergeConvolution(A, B, u);
  }

  /**
   * A sum of t elements of [a, a + l - 1] lies in [t·a, t·(a + l - 1)]; when
   * t <= k and a >= 2·k·l its residue modulo a is below k·l.
   */
  lemma ResidueBound(v: int, t: int, a: int, l: int, k: int)
    requires 1 <= t <= k && a >= 1 && l >= 1
    requires t * a <= v <= t * (a + l - 1)
    requires a >= 2 * (k * l)
    ensures v % a < k * l
  {
    var e := v - t * a;
    assert t * (a + l - 1) == t * a + t * (l - 1);
    assert t * l == t * (l - 1) + t;
    MulMono(t, k, l);
    assert e < k * l;
    DivModUnique(v, a, t, e);
  }

  /** A sum below u of t elements, each at least a, has t < ⌈u / a⌉. */
  lemma CountBelowBound(v: int, t: int, a: int, u: int)
    requires a >= 1 && t * a <= v < u
    ensures t <= CeilDiv(u, a) - 1
  {
    var q := CeilDiv(u, a);
    assert a * t < a * q;
    MulLessCancel(a, t, q);
  }

  /** The residue condition of one operand, from the sequence it represents. */
  lemma OperandResidues(X: SubsetSums, s: seq<int>, A: SubsetSums, B: SubsetSums, u: int)
    requires Represents(X, s, u) && |s| <= A.size + B.size
    requires SpanUnion(A.span, B.span).lo <= X.span.lo && X.span.hi <= SpanUnion(A.span, B.span).hi
    requires SpanUnion(A.span, B.span).lo >= 1
    requires var maxL := MergeBound(A, B, u) * SpanLength(SpanUnion(A.span, B.span));
      SpanUnion(A.span, B.span).lo >= 2 * maxL
    ensures ResiduesBelow(X.sums, SpanUnion(A.span, B.span).lo,
      MergeBound(A, B, u) * SpanLength(SpanUnion(A.span, B.span)))
  {
    var span := SpanUnion(A.span, B.span);
    var a, l, k := span.lo, SpanLength(span), MergeBound(A, B, u);
    forall v | v in X.sums ensures v % a < k * l {
      assert AllIn(s, a, a + l - 1);
      var t := SubsetCount(s, a, l, v);
      CountBelowBound(v, t, a, u);
      ResidueBound(v, t, a, l, k);
    }
  }

  /**
   * On records of actual stretches the compressed convolution is exact: every
   * operand sum below u is a sum of t <= k elements of a + [l - 1].
   */
  lemma RepresentsFastPathExact(A: SubsetSums, B: SubsetSums, p: seq<int>, q: seq<int>, u: int)
    requires Represents(A, p, u) && Represents(B, q, u)
    ensures SpanUnion(A.span, B.span).lo > 0
    ensures FastPathExact(A, B, u)
  {
    var span := SpanUnion(A.span, B.span);
    var a, l, k := span.lo, SpanLength(span), MergeBound(A, B, u);
    if !UsesStandardPath(A, B, u) && a >= 2 * (k * l) {
      OperandResidues(A, p, A, B, u);
      OperandResidues(B, q, A, B, u);
      assert ResiduesBelow(A.sums + B.sums, a, k * l);
    }
  }

  /**
   * Theorem 2 for the records: merging the records of two stretches p and q
   * gives the record of their concatenation pq.
   */
  lemma MergeRepresents(A: SubsetSums, B: SubsetSums, p: seq<int>, q: seq<int>, u: int)
    requires Represents(A, p, u) && Represents(B, q, u)
    ensures WellFormed(A, u) && WellFormed(B, u)
    ensures Represents(MergeSubsetSums(A, B, u), p + q, u)
  {
    RepresentsWellFormed(A, p, u);
    RepresentsWellFormed(B, q, u);
    RepresentsFastPathExact(A, B, p, q, u);
    MergeSums(A, B, u);
    SigmaUConcat(p, q, u);
    var r := MergeSubsetSums(A, B, u);
    assert r.span.lo in p + q && r.span.hi in p + q;
  }

  // ---------------------------------------------------------------------
  // combine: pairwise reduction of a list of records
  // ---------------------------------------------------------------------

  ghost predicate AllWellFormed(sets: seq<SubsetSums>, u: int) {
    forall i {:trigger WellFormed(sets[i], u)} :: 0 <= i < |sets| ==> WellFormed(sets[i], u)
  }

  /**
   * One round of `combine`: `Lists.partition(sets, 2)`, each
   * pair merged, an odd last record carried over unchanged.
   */
  function PairUp(sets: seq<SubsetSums>, u: int): (r: seq<SubsetSums>)
    requires AllWellFormed(sets, u)
    ensures |r| == (|sets| + 1) / 2
    ensures AllWellFormed(r, u)
    decreases |sets|
  {
    if |sets| <= 1 then sets
    else [MergeSubsetSums(sets[0], sets[1], u)] + PairUp(sets[2..], u)
  }

  /** A round on two or more records starts with the merge of the first two. */
  lemma PairUpCons(sets: seq<SubsetSums>, u: int)
    requires AllWellFormed(sets, u) && |sets| >= 2
    ensures AllWellFormed(sets[2..], u)
    ensures PairUp(sets, u)[0] == MergeSubsetSums(sets[0], sets[1], u)
    ensures PairUp(sets, u)[1..] == PairUp(sets[2..], u)
  {
  }

  /** Entry i of a round is the merge of records 2i and 2i + 1. */
  lemma {:induction false} PairUpPair(sets: seq<SubsetSums>, u: int, i: nat)
    requires AllWellFormed(sets, u) && i < |sets| / 2
    ensures PairUp(sets, u)[i] == MergeSubsetSums(sets[2 * i], sets[2 * i + 1], u)
    decreases i
  {
    PairUpCons(sets, u);
    if i > 0 {
      var rest := sets[2..];
      PairUpPair(rest, u, i - 1);
      assert PairUp(sets, u)[i] == PairUp(rest, u)[i - 1];
      assert rest[2 * (i - 1)] == sets[2 * i] && rest[2 * (i - 1) + 1] == sets[2 * i + 1];
    }
  }

  /** With an odd number of records, the last one passes through a round unchanged. */
  lemma {:induction false} PairUpOddTail(sets: seq<SubsetSums>, u: int)
    requires AllWellFormed(sets, u) && |sets| % 2 == 1
    ensures PairUp(sets, u)[|PairUp(sets, u)| - 1] == sets[|sets| - 1]
    decreases |sets|
  {
    if |sets| > 1 {
      var rest := sets[2..];
      PairUpOddTail(rest, u);
      assert rest[|rest| - 1] == sets[|sets| - 1];
    }
  }

  /**
   * `combine(sets, u)` as a value: pair up until one record is left. A lone
   * record is returned without being looked at; only lists that get merged
   * need records fit to merge.
   */
  function CombineSpec(sets: seq<SubsetSums>, u: int): (r: SubsetSums)
    requires sets != [] && (|sets| >= 2 ==> AllWellFormed(sets, u))
    ensures |sets| == 1 ==> r == sets[0]
    ensures |sets| >= 2 ==> WellFormed(r, u)
    decreases |sets|
  {
    if |sets| == 1 then sets[0] else CombineSpec(PairUp(sets, u), u)
  }

  /**
   * `combine(sets, u)`: fails on an empty list, returns a lone record as it
   * is, and otherwise merges adjacent pairs and recurses on the shorter list.
   */
  method Combine(sets: seq<SubsetSums>, u: int) returns (r: Result<SubsetSums>)
    requires |sets| >= 2 ==> AllWellFormed(sets, u)
    ensures sets == [] ==> r == Err(EmptyList)
    ensures |sets| == 1 ==> r == Ok(sets[0])
    ensures sets != [] ==> r == Ok(CombineSpec(sets, u))
    decreases |sets|
  {
    if |sets| <= 1 {
      if sets == [] {
        return Err(EmptyList);
      }
      return Ok(sets[0]);
    }
    var combined := PairRound(sets, u);
    CombineSpecStep(sets, u);
    r := Combine(combined, u);
  }

  /**
   * The loop over `Lists.partition(sets, 2)` in `combine`: each pair is
   * merged and an odd last record is carried over, giving one round.
   */
  method PairRound(sets: seq<SubsetSums>, u: int) returns (combined: seq<SubsetSums>)
    requires AllWellFormed(sets, u)
    ensures combined == PairUp(sets, u)
  {
    combined := [];
    var i := 0;
    while i < |sets|
      invariant 0 <= i <= |sets|
      invariant AllWellFormed(combined, u)
      invariant combined + PairUp(sets[i..], u) == PairUp(sets, u)
    {
      if i + 1 < |sets| {
        PairUpStep(sets, combined, i, u);
        combined := combined + [MergeSubsetSums(sets[i], sets[i + 1], u)];
        i := i + 2;
      } else {
        PairUpLast(sets, combined, i, u);
        combined := combined + [sets[i]];
        i := i + 1;
      }
    }
    PairUpDone(sets, combined, u);
  }

  lemma PairUpDone(sets: seq<SubsetSums>, combined: seq<SubsetSums>, u: int)
    requires AllWellFormed(sets, u)
    requires combined + PairUp(sets[|sets|..], u) == PairUp(sets, u)
    ensures combined == PairUp(sets, u)
  {
    assert sets[|sets|..] == [];
    assert combined + [] == combined;
  }

  lemma CombineSpecStep(sets: seq<SubsetSums>, u: int)
    requires |sets| >= 2 && AllWellFormed(sets, u)
    ensures CombineSpec(sets, u) == CombineSpec(PairUp(sets, u), u)
  {
  }

  /** The loop step of `combine` on a pair: merge records i and i + 1. */
  lemma PairUpStep(sets: seq<SubsetSums>, combined: seq<SubsetSums>, i: nat, u: int)
    requires AllWellFormed(sets, u) && i + 1 < |sets|
    requires combined + PairUp(sets[i..], u) == PairUp(sets, u)
    ensures (combined + [MergeSubsetSums(sets[i], sets[i + 1], u)]) + PairUp(sets[i + 2..], u) == PairUp(sets, u)
  {
    var rest := sets[i..];
    assert rest[0] == sets[i] && rest[1] == sets[i + 1] && rest[2..] == sets[i + 2..];
    var m, tail := MergeSubsetSums(sets[i], sets[i + 1], u), PairUp(sets[i + 2..], u);
    assert PairUp(rest, u) == [m] + tail;
    AppendAssoc(combined, [m], tail);
  }

  lemma AppendAssoc(a: seq<SubsetSums>, b: seq<SubsetSums>, c: seq<SubsetSums>)
    ensures (a + b) + c == a + (b + c)
  {
  }

  /** The loop step of `combine` on an odd last record: carry it over. */
  lemma PairUpLast(sets: seq<SubsetSums>, combined: seq<SubsetSums>, i: nat, u: int)
    requires AllWellFormed(sets, u) && i + 1 == |sets|
    requires combined + PairUp(sets[i..], u) == PairUp(sets, u)
    ensures (combined + [sets[i]]) + PairUp(sets[i + 1..], u) == PairUp(sets, u)
  {
    assert sets[i..] == [sets[i]];
    assert sets[i + 1..] == [];
    assert combined + [sets[i]] + [] == combined + [sets[i]];
  }

  /** The concatenation of a list of stretches. */
  ghost function Concat(parts: seq<seq<int>>): seq<int>
    decreases |parts|
  {
    if parts == [] then [] else parts[0] + Concat(parts[1..])
  }

  lemma {:induction false} ConcatAppend(ps: seq<seq<int>>, qs: seq<seq<int>>)
    ensures Concat(ps + qs) == Concat(ps) + Concat(qs)
    decreases |ps|
  {
    if ps == [] {
      assert ps + qs == qs;
    } else {
      assert (ps + qs)[1..] == ps[1..] + qs;
      ConcatAppend(ps[1..], qs);
    }
  }

  /** The stretches behind one round of `PairUp`: adjacent stretches joined. */
  ghost function PairParts(parts: seq<seq<int>>): seq<seq<int>>
    decreases |parts|
  {
    if |parts| <= 1 then parts else [parts[0] + parts[1]] + PairParts(parts[2..])
  }

  lemma {:induction false} PairPartsConcat(parts: seq<seq<int>>)
    ensures Concat(PairParts(parts)) == Concat(parts)
    decreases |parts|
  {
    if |parts| > 1 {
      PairPartsConcat(parts[2..]);
      assert parts[1..][1..] == parts[2..];
      assert Concat(parts) == parts[0] + (parts[1] + Concat(parts[2..]));
      var pp := PairParts(parts);
      assert pp[1..] == PairParts(parts[2..]);
    }
  }

  /** Record i describes stretch i, for every i. */
  ghost predicate AllRepresent(sets: seq<SubsetSums>, parts: seq<seq<int>>, u: int) {
    |sets| == |parts| && forall i :: 0 <= i < |sets| ==> Represents(sets[i], parts[i], u)
  }

  lemma AllRepresentWellFormed(sets: seq<SubsetSums>, parts: seq<seq<int>>, u: int)
    requires AllRepresent(sets, parts, u)
    ensures AllWellFormed(sets, u)
  {
    forall i | 0 <= i < |sets| ensures WellFormed(sets[i], u) {
      RepresentsWellFormed(sets[i], parts[i], u);
    }
  }

  /** One round of pairing keeps every record describing its (joined) stretch. */
  lemma {:induction false} PairUpRepresents(sets: seq<SubsetSums>, parts: seq<seq<int>>, u: int)
    requires AllRepresent(sets, parts, u)
    ensures AllWellFormed(sets, u)
    ensures AllRepresent(PairUp(sets, u), PairParts(parts), u)
    decreases |sets|
  {
    AllRepresentWellFormed(sets, parts, u);
    if |sets| > 1 {
      assert AllRepresent(sets[2..], parts[2..], u);
      PairUpRepresents(sets[2..], parts[2..], u);
      MergeRepresents(sets[0], sets[1], parts[0], parts[1], u);
      var r, pp := PairUp(sets, u), PairParts(parts);
      assert r[1..] == PairUp(sets[2..], u);
      assert pp[1..] == PairParts(parts[2..]);
    }
  }

  /**
   * `combine` over records of consecutive stretches yields the record of
   * their concatenation (Theorem 2 applied along the reduction tree).
   */
  lemma {:induction false} CombineRepresents(sets: seq<SubsetSums>, parts: seq<seq<int>>, u: int)
    requires sets != [] && AllRepresent(sets, parts, u)
    ensures AllWellFormed(sets, u)
    ensures Represents(CombineSpec(sets, u), Concat(parts), u)
    decreases |sets|
  {
    AllRepresentWellFormed(sets, parts, u);
    if |sets| == 1 {
      assert parts[1..] == [];
      assert Concat(parts) == parts[0] + Concat([]);
      assert Concat(parts) == parts[0];
    } else {
      PairUpRepresents(sets, parts, u);
      CombineRepresents(PairUp(sets, u), PairParts(parts), u);
      PairPartsConcat(parts);
    }
  }

  // ---------------------------------------------------------------------
  // The solver
  // ---------------------------------------------------------------------

  /** `S.subSet(lo, hi)` on the sorted input: the elements of s in [lo, hi), in order. */
  function Slice(s: seq<int>, lo: int, hi: int): (r: seq<int>)
    ensures |r| <= |s|
    decreases |s|
  {
    if s == [] then [] else (if lo <= s[0] < hi then [s[0]] else []) + Slice(s[1..], lo, hi)
  }

  /** The stretch of an interval holds exactly the elements inside it. */
  lemma {:induction false} SliceMembers(s: seq<int>, lo: int, hi: int)
    ensures forall x :: x in Slice(s, lo, hi) <==> x in s && lo <= x < hi
    decreases |s|
  {
    if s != [] {
      SliceMembers(s[1..], lo, hi);
      assert s == [s[0]] + s[1..];
    }
  }

  lemma {:induction false} SliceNone(s: seq<int>, lo: int, hi: int)
    requires forall x :: x in s ==> !(lo <= x < hi)
    ensures Slice(s, lo, hi) == []
    decreases |s|
  {
    if s != [] {
      assert s[0] in s;
      assert forall x :: x in s[1..] ==> x in s;
      SliceNone(s[1..], lo, hi);
    }
  }

  lemma {:induction false} SliceAll(s: seq<int>, lo: int, hi: int)
    requires forall x :: x in s ==> lo <= x < hi
    ensures Slice(s, lo, hi) == s
    decreases |s|
  {
    if s != [] {
      assert s[0] in s;
      assert forall x :: x in s[1..] ==> x in s;
      SliceAll(s[1..], lo, hi);
      assert s == [s[0]] + s[1..];
    }
  }

  /** On sorted input, adjacent intervals [lo, mid) and [mid, hi) slice consecutive stretches. */
  lemma {:induction false} SliceSplit(s: seq<int>, lo: int, mid: int, hi: int)
    requires StrictlyIncreasing(s) && lo <= mid <= hi
    ensures Slice(s, lo, mid) + Slice(s, mid, hi) == Slice(s, lo, hi)
    decreases |s|
  {
    if s != [] {
      var t := s[1..];
      IncreasingTail(s);
      SliceSplit(t, lo, mid, hi);
      if mid <= s[0] {
        SliceNone(t, lo, mid);
      }
      SliceSplitCons(s, lo, mid, hi);
    }
  }

  /**
   * The induction step of `SliceSplit`: the first element lands in at most
   * one of the two stretches, and when it lands in the upper one the lower
   * stretch of the rest is empty.
   */
  lemma SliceSplitCons(s: seq<int>, lo: int, mid: int, hi: int)
    requires s != [] && lo <= mid <= hi
    requires mid <= s[0] ==> Slice(s[1..], lo, mid) == []
    requires Slice(s[1..], lo, mid) + Slice(s[1..], mid, hi) == Slice(s[1..], lo, hi)
    ensures Slice(s, lo, mid) + Slice(s, mid, hi) == Slice(s, lo, hi)
  {
    var x := s[0];
    var A, B := if lo <= x < mid then [x] else [], if mid <= x < hi then [x] else [];
    var P, Q := Slice(s[1..], lo, mid), Slice(s[1..], mid, hi);
    assert Slice(s, lo, mid) == A + P;
    assert Slice(s, mid, hi) == B + Q;
    assert A + B == if lo <= x < hi then [x] else [];
    Regroup(A, P, B, Q);
  }

  lemma Regroup(A: seq<int>, P: seq<int>, B: seq<int>, Q: seq<int>)
    requires B == [] || P == []
    ensures (A + P) + (B + Q) == (A + B) + (P + Q)
  {
    if B == [] {
      assert B + Q == Q && A + B == A;
    } else {
      assert A + P == A;
    }
  }

  /** `k` interior boundaries, each in [0, u] and non-decreasing. */
  ghost predicate BoundariesMonotone(boundary: nat -> int, k: nat, u: int) {
    forall i :: 1 <= i <= k ==> 0 <= boundary(i) <= u && (i < k ==> boundary(i) <= boundary(i + 1))
  }

  /** The boundary loop of `subsetSums`: the list a = [0, a_1, ..., a_k, u]. */
  method Boundaries(k: nat, u: int, boundary: nat -> int) returns (a: seq<int>)
    ensures |a| == k + 2 && a[0] == 0 && a[k + 1] == u
    ensures forall j :: 1 <= j <= k ==> a[j] == boundary(j)
    ensures BoundariesMonotone(boundary, k, u) && u >= 0 ==>
      forall j :: 0 <= j < |a| - 1 ==> 0 <= a[j] <= a[j + 1]
  {
    a := [0];
    var i := 1;
    while i <= k
      invariant 1 <= i <= k + 1 && |a| == i && a[0] == 0
      invariant forall j :: 1 <= j < i ==> a[j] == boundary(j)
    {
      a := a + [boundary(i)];
      i := i + 1;
    }
    a := a + [u];
  }

  /** The inner loop of `subsetSums`: one singleton record per element of an interval. */
  method Singletons(sub: seq<int>) returns (B: seq<SubsetSums>)
    ensures |B| == |sub|
    ensures forall j :: 0 <= j < |sub| ==> B[j] == OfSingleElement(sub[j])
  {
    B := [];
    for j := 0 to |sub|
      invariant |B| == j
      invariant forall t :: 0 <= t < j ==> B[t] == OfSingleElement(sub[t])
    {
      B := B + [OfSingleElement(sub[j])];
    }
  }

  /** The one-element stretches of a sequence. */
  ghost function Units(s: seq<int>): (r: seq<seq<int>>)
    ensures |r| == |s| && forall j :: 0 <= j < |s| ==> r[j] == [s[j]]
    decreases |s|
  {
    if s == [] then [] else [[s[0]]] + Units(s[1..])
  }

  /** The singleton records of a stretch of valid elements describe its unit stretches, which concatenate back to it. */
  lemma {:induction false} SingletonsRepresent(sub: seq<int>, B: seq<SubsetSums>, u: int)
    requires AllIn(sub, 1, u - 1)
    requires |B| == |sub| && forall j :: 0 <= j < |sub| ==> B[j] == OfSingleElement(sub[j])
    ensures AllRepresent(B, Units(sub), u)
    ensures Concat(Units(sub)) == sub
    decreases |sub|
  {
    forall j | 0 <= j < |sub| ensures Represents(B[j], Units(sub)[j], u) {
      SingleRepresents(sub[j], u);
    }
    if sub != [] {
      SingletonsRepresent(sub[1..], B[1..], u);
      assert Units(sub)[1..] == Units(sub[1..]);
    }
  }

  /** One pass of the interval loop of `subsetSums`: the record of a non-empty interval, from its singletons. */
  method IntervalRecord(sub: seq<int>, u: int) returns (c: SubsetSums)
    requires sub != [] && AllIn(sub, 1, u - 1)
    ensures Represents(c, sub, u)
  {
    var B := Singletons(sub);
    SingletonsRepresent(sub, B, u);
    AllRepresentWellFormed(B, Units(sub), u);
    var r := Combine(B, u);
    CombineRepresents(B, Units(sub), u);
    c := r.value;
  }

  /**
   * The interval loop of `subsetSums`: for each interval [a_i, a_(i+1)) holding elements, the
   * combined record of its singletons. The intervals' stretches, in order,
   * make up the whole sorted input.
   */
  method IntervalRecords(s: seq<int>, a: seq<int>, u: int) returns (A: seq<SubsetSums>, ghost parts: seq<seq<int>>)
    requires StrictlyIncreasing(s) && AllIn(s, 1, u - 1)
    requires |a| >= 2 && a[0] == 0 && a[|a| - 1] == u
    requires forall j :: 0 <= j < |a| - 1 ==> 0 <= a[j] <= a[j + 1]
    ensures AllRepresent(A, parts, u)
    ensures Concat(parts) == s
    ensures AllWellFormed(A, u) && |A| <= |a| - 1
  {
    A := [];
    parts := [];
    SliceNone(s, 0, 0);
    for i := 0 to |a| - 1
      invariant AllRepresent(A, parts, u) && |A| <= i
      invariant Concat(parts) == Slice(s, 0, a[i])
    {
      var sub := Slice(s, a[i], a[i + 1]);
      NextStretch(s, parts, a[i], a[i + 1]);
      if |sub| != 0 {
        SliceMembers(s, a[i], a[i + 1]);
        forall j | 0 <= j < |sub| ensures 1 <= sub[j] <= u - 1 {
          assert sub[j] in sub;
        }
        var c := IntervalRecord(sub, u);
        AllRepresentSnoc(A, parts, c, sub, u);
        A := A + [c];
        parts := parts + [sub];
      }
    }
    assert forall x :: x in s ==> 0 <= x < u;
    SliceAll(s, 0, u);
    AllRepresentWellFormed(A, parts, u);
  }

  /** The stretches seen so far, extended by the next interval's, cover the input up to its end. */
  lemma NextStretch(s: seq<int>, parts: seq<seq<int>>, lo: int, hi: int)
    requires StrictlyIncreasing(s) && 0 <= lo <= hi
    requires Concat(parts) == Slice(s, 0, lo)
    ensures Concat(parts + [Slice(s, lo, hi)]) == Slice(s, 0, hi)
    ensures Slice(s, lo, hi) == [] ==> Concat(parts) == Slice(s, 0, hi)
  {
    SliceSplit(s, 0, lo, hi);
    ConcatAppend(parts, [Slice(s, lo, hi)]);
    assert Concat([Slice(s, lo, hi)]) == Slice(s, lo, hi) + Concat([]);
  }

  lemma AllRepresentSnoc(A: seq<SubsetSums>, parts: seq<seq<int>>, c: SubsetSums, sub: seq<int>, u: int)
    requires AllRepresent(A, parts, u) && Represents(c, sub, u)
    ensures AllRepresent(A + [c], parts + [sub], u)
  {
  }

  /**
   * The end of `subsetSums`: combine the interval records and run the self-checks on the
   * result (values in [1, u - 1], span inside [0, u - 1], size n), which hold.
   */
  method CombineIntervals(A: seq<SubsetSums>, ghost parts: seq<seq<int>>, s: seq<int>, u: int) returns (sums: set<int>)
    requires AllRepresent(A, parts, u) && Concat(parts) == s && s != []
    ensures sums == SigmaU(s, u)
  {
    assert parts != [];
    AllRepresentWellFormed(A, parts, u);
    var output := Combine(A, u);
    CombineRepresents(A, parts, u);
    SigmaUPassesValidateOutput(s, u);
    assert ValidateOutput(output.value.sums, u);
    assert 0 <= output.value.span.lo && output.value.span.hi <= u - 1;
    assert output.value.size == |s|;
    sums := output.value.sums;
  }

  /**
   * `subsetSums(S, u)`: validate, sort, cut the sorted input at the interval
   * boundaries a_0 = 0 <= a_1 <= ... <= a_k <= a_(k+1) = u, combine the
   * singleton records of each non-empty interval, then combine the interval
   * results. The returned set is Σ_u of the input.
   */
  method Solve(S: set<int>, u: int, boundary: nat -> int) returns (r: Result<set<int>>)
    requires ValidateInput(S, u) == Pass && S != {} ==> BoundariesMonotone(boundary, IntervalCount(|S|), u)
    ensures ValidateInput(S, u).Fail? ==> r == Err(ValidateInput(S, u).error)
    ensures ValidateInput(S, u) == Pass ==> r == Ok(SigmaU(Ascending(S), u))
  {
    var check := ValidateInput(S, u);
    if check.Fail? {
      return Err(check.error);
    }
    var s := Ascending(S);
    AscendingOfValid(S, u);
    if |s| == 0 {
      assert Sigma(s) == {};
      assert SigmaU(s, u) == {};
      return Ok({});
    }
    var n := |s|;
    var k := IntervalCount(n);
    assert |S| == n;
    var a := Boundaries(k, u, boundary);

    var A, parts := IntervalRecords(s, a, u);
    var sums := CombineIntervals(A, parts, s, u);
    return Ok(sums);
  }
}
