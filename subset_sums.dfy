/**
 * The `SubsetSums` record: the subset sums of a stretch of the sorted input,
 * together with the closed interval its elements span and how many elements
 * it holds. Records are immutable values.
 */
module SubsetSumsRecord {
  import opened SumsSpec

  /** A closed interval [lo, hi] (Guava's `Range.closed`). */
  datatype Span = Span(lo: int, hi: int)

  datatype SubsetSums = SubsetSums(sums: set<int>, span: Span, size: int)

  /** `Range.span`: the smallest closed interval enclosing both intervals. */
  function SpanUnion(a: Span, b: Span): (r: Span)
    ensures r.lo <= a.lo && r.lo <= b.lo && (r.lo == a.lo || r.lo == b.lo)
    ensures r.hi >= a.hi && r.hi >= b.hi && (r.hi == a.hi || r.hi == b.hi)
  {
    Span(if a.lo <= b.lo then a.lo else b.lo, if a.hi >= b.hi then a.hi else b.hi)
  }

  /** `ofSingleElement(x)`: the record of the one-element sequence [x]. */
  function OfSingleElement(x: int): (r: SubsetSums)
    ensures r.sums == {x} && r.span == Span(x, x) && r.size == 1
  {
    SubsetSums({x}, Span(x, x), 1)
  }

  /**
   * The record's documented meaning: it describes the non-empty sequence `s`
   * of input elements (all in [1, u - 1]); `sums` is Σ_u(s), `span` is
   * [min s, max s] and `size` is |s|.
   */
  ghost predicate Represents(r: SubsetSums, s: seq<int>, u: int) {
    && s != []
    && r.size == |s|
    && r.span.lo in s && r.span.hi in s
    && AllIn(s, r.span.lo, r.span.hi)
    && AllIn(s, 1, u - 1)
    && r.sums == SigmaU(s, u)
  }

  /**
   * What `mergeSubsetSums` needs of an operand: a positive span, at least one
   * element, non-negative sums and at least one sum below u.
   */
  ghost predicate WellFormed(r: SubsetSums, u: int) {
    && 1 <= r.span.lo <= r.span.hi
    && r.size >= 1
    && (forall v :: v in r.sums ==> v >= 0)
    && Below(r.sums, u) != {}
  }

  /** A single element x in [1, u - 1] is described exactly by ofSingleElement(x). */
  lemma SingleRepresents(x: int, u: int)
    requires 1 <= x < u
    ensures Represents(OfSingleElement(x), [x], u)
  {
    assert Sigma([x]) == {x} by {
      assert [x][..0] == [];
    }
  }

  /** Every record that describes a valid sequence is fit to be merged. */
  lemma RepresentsWellFormed(r: SubsetSums, s: seq<int>, u: int)
    requires Represents(r, s, u)
    ensures WellFormed(r, u)
  {
    SigmaPositive(s);
    var x := s[0];
    assert x in Sigma(s) by {
      assert s == [x] + s[1..];
      SigmaConcat([x], s[1..]);
      assert Sigma([x]) == {x} by { assert [x][..0] == []; }
    }
    assert x in Below(r.sums, u);
  }
}
