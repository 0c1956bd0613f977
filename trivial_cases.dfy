/**
 * The small fixed cases the solvers are expected to reproduce: Σ_u of the
 * sorted view of a handful of concrete inputs, and `combine` on one record.
 */
module TrivialCases {
  import opened SumsSpec
  import opened SubsetSummer
  import opened SubsetSumsRecord
  import opened FastMinkowski

  lemma SigmaPair(x: int, y: int)
    ensures Sigma([x, y]) == {x, y, x + y}
  {
    assert [x, y] == [x] + [y];
    assert [x] == [] + [x];
    SigmaSnoc([], x);
    SigmaSnoc([x], y);
    assert Shift({x}, y) == {x + y} by {
      InShift({x}, x, y);
    }
  }

  lemma SigmaOne(x: int)
    ensures Sigma([x]) == {x}
  {
    assert [x] == [] + [x];
    SigmaSnoc([], x);
  }

  lemma AscendingPair(x: int, y: int)
    requires x < y
    ensures Ascending({x, y}) == [x, y]
  {
    AscendingUnique([x, y], {x, y});
  }

  /** {7} below 42 gives {7}. */
  lemma OneElement()
    ensures SigmaU(Ascending({7}), 42) == {7}
  {
    AscendingUnique([7], {7});
    SigmaOne(7);
  }

  /** {2, 3} below 42 gives {2, 3, 5}. */
  lemma TwoElements()
    ensures SigmaU(Ascending({2, 3}), 42) == {2, 3, 5}
  {
    AscendingPair(2, 3);
    SigmaPair(2, 3);
  }

  /** {2, 3} below 5 gives {2, 3}: the sum 5 is cut by the bound. */
  lemma TwoElementsCut()
    ensures SigmaU(Ascending({2, 3}), 5) == {2, 3}
  {
    AscendingPair(2, 3);
    SigmaPair(2, 3);
  }

  /** The sequence [1, 2, ..., n]. */
  function Upto(n: nat): (s: seq<int>)
    ensures |s| == n && forall i :: 0 <= i < n ==> s[i] == i + 1
  {
    if n == 0 then [] else Upto(n - 1) + [n]
  }

  /** The triangular number 1 + 2 + ... + n. */
  function Triangle(n: nat): (t: nat)
    ensures t >= n
  {
    if n == 0 then 0 else Triangle(n - 1) + n
  }

  /** The subset sums of 1, 2, ..., n are exactly the values 1 .. 1 + 2 + ... + n. */
  lemma {:induction false} SigmaUpto(n: nat)
    ensures forall v :: v in Sigma(Upto(n)) <==> 1 <= v <= Triangle(n)
    decreases n
  {
    if n > 0 {
      SigmaUpto(n - 1);
      forall v ensures v in Sigma(Upto(n)) <==> 1 <= v <= Triangle(n) {
        SigmaSnocMember(Upto(n - 1), n, v);
      }
    }
  }

  /** Below a bound above 1 + 2 + ... + n, Σ_u of 1, 2, ..., n is the whole range 1 .. 1 + 2 + ... + n. */
  lemma SigmaUUpto(n: nat, u: int)
    requires Triangle(n) < u
    ensures forall v :: v in SigmaU(Upto(n), u) <==> 1 <= v <= Triangle(n)
  {
    SigmaUpto(n);
  }

  /** {1, 2, 3, 4, 5} below 100 gives every value from 1 to 15. */
  lemma FirstFive()
    ensures SigmaU(Ascending({1, 2, 3, 4, 5}), 100) == {1, 2, 3, 4, 5, 6, 7, 8, 9, 10, 11, 12, 13, 14, 15}
  {
    var s := Upto(5);
    assert s == [1, 2, 3, 4, 5];
    AscendingUnique(s, {1, 2, 3, 4, 5});
    assert Triangle(5) == 15;
    SigmaUUpto(5, 100);
    OneToFifteen(SigmaU(s, 100));
  }

  lemma OneToFifteen(X: set<int>)
    requires forall v :: v in X <==> 1 <= v <= 15
    ensures X == {1, 2, 3, 4, 5, 6, 7, 8, 9, 10, 11, 12, 13, 14, 15}
  {
    forall v ensures v in X <==> v in {1, 2, 3, 4, 5, 6, 7, 8, 9, 10, 11, 12, 13, 14, 15} {
      InDisplay(v);
    }
  }

  lemma InDisplay(v: int)
    ensures v in {1, 2, 3, 4, 5, 6, 7, 8, 9, 10, 11, 12, 13, 14, 15} <==> 1 <= v <= 15
  {
  }

  /**
   * `combine` on one record returns it as it is, even when its only sum is
   * not below the bound: [ofSingleElement(42)] gives {42} for u = 100 and
   * for u = 20.
   */
  lemma CombineLoneRecord()
    ensures CombineSpec([OfSingleElement(42)], 100).sums == {42}
    ensures CombineSpec([OfSingleElement(42)], 20).sums == {42}
  {
  }
}
