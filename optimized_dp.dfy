/**
 * The compacted solver. Rows of the baseline table are monotone (once cell
 * (v, j) holds, every cell to its right does), so each row is stored as one
 * int: the first column at which it becomes true, or Integer.MAX_VALUE when
 * it never does.
 */
module OptimizedDynamicProgramming {
  import opened SumsSpec
  import opened SubsetSummer
  import DynamicProgramming

  /** Java's Integer.MAX_VALUE, the "no subset reaches this row" sentinel. */
  const MaxValue := 0x7fff_ffff

  /** The first column j >= k whose prefix s[0..j] reaches v, or the sentinel. */
  ghost function FirstFrom(s: seq<int>, v: int, k: nat): int
    decreases |s| - k
  {
    if k >= |s| then MaxValue
    else if Reach(s[..k + 1], v) then k
    else FirstFrom(s, v, k + 1)
  }

  /** The value a row of the compacted table must hold: its first true column. */
  ghost function First(s: seq<int>, v: int): int {
    FirstFrom(s, v, 0)
  }

  lemma {:induction false} FirstFromRange(s: seq<int>, v: int, k: nat)
    ensures FirstFrom(s, v, k) == MaxValue || k <= FirstFrom(s, v, k) < |s|
    decreases |s| - k
  {
    if k < |s| && !Reach(s[..k + 1], v) {
      FirstFromRange(s, v, k + 1);
    }
  }

  lemma {:induction false} FirstFromAtMost(s: seq<int>, v: int, k: nat, j: nat)
    requires k <= j < |s| < MaxValue
    ensures FirstFrom(s, v, k) <= j <==> Reach(s[..j + 1], v)
    decreases j - k
  {
    if Reach(s[..k + 1], v) {
      SigmaPrefix(s, k + 1, j + 1);
    } else if k == j {
      FirstFromRange(s, v, k + 1);
    } else {
      FirstFromAtMost(s, v, k + 1, j);
    }
  }

  /**
   * The compacted row is exact: First(s, v) <= j iff cell (v, j) of the
   * baseline table holds, i.e. some subset of s[0..j] reaches v.
   */
  lemma FirstAtMost(s: seq<int>, v: int, j: nat)
    requires j < |s| < MaxValue
    ensures First(s, v) <= j <==> Reach(s[..j + 1], v)
  {
    FirstFromAtMost(s, v, 0, j);
  }

  /** A row holds a real column iff its value is reachable with all of s. */
  lemma FirstBelowMax(s: seq<int>, v: int)
    requires s != [] && |s| < MaxValue
    ensures First(s, v) < MaxValue <==> Reach(s, v)
  {
    FirstFromRange(s, v, 0);
    FirstAtMost(s, v, |s| - 1);
    assert s[..|s|] == s;
  }

  /** The seeded rows: First is 0 exactly at rows 0 and s[0]. */
  lemma FirstZero(s: seq<int>, v: int)
    requires s != [] && |s| < MaxValue
    ensures First(s, v) == 0 <==> v == 0 || v == s[0]
  {
    FirstFromRange(s, v, 0);
    FirstAtMost(s, v, 0);
    DynamicProgramming.FirstColumn(s, v);
  }

  /** The test in the inner loop of `subsetSums`: column j of row i fires when row i - s[j] was already reachable by column j - 1. */
  ghost predicate Fires(s: seq<int>, i: int, j: int)
    requires 1 <= j < |s|
  {
    i - s[j] >= 0 && j - 1 >= First(s, i - s[j])
  }

  /**
   * The inner loop's step: row i is true by column j iff it was by column
   * j - 1 or column j fires. So the first firing column is First(s, i).
   */
  lemma FirstStep(s: seq<int>, i: int, j: int)
    requires Positive(s) && 1 <= j < |s| < MaxValue
    ensures First(s, i) <= j <==> First(s, i) <= j - 1 || Fires(s, i, j)
  {
    FirstAtMost(s, i, j);
    FirstAtMost(s, i, j - 1);
    FirstAtMost(s, i - s[j], j - 1);
    DynamicProgramming.Transition(s, i, j);
  }

  /**
   * The set-up of `subsetSums`: an array of u sentinels, then rows s[0] and 0 set to
   * column 0.
   */
  method InitState(s: seq<int>, u: int) returns (newState: array<int>)
    requires s != [] && 0 < s[0] < u
    ensures fresh(newState) && newState.Length == u
    ensures forall v :: 0 <= v < u ==> newState[v] == (if v == 0 || v == s[0] then 0 else MaxValue)
  {
    newState := new int[u](_ => MaxValue);
    newState[s[0]] := 0;
    newState[0] := 0;
  }

  /**
   * One pass of the outer fill loop of `subsetSums`, for row i: scan j = 1 .. n - 1 and record the first j
   * that fires. No column fires at row s[0] (every later element is larger),
   * so its seed 0 stays.
   */
  method FillRow(newState: array<int>, s: seq<int>, i: int)
    requires Positive(s) && StrictlyIncreasing(s) && s != [] && |s| < MaxValue
    requires 1 <= i < newState.Length
    requires forall v :: 0 <= v < i ==> newState[v] == First(s, v)
    requires newState[i] == (if i == s[0] then 0 else MaxValue)
    modifies newState
    ensures newState[..] == old(newState[..])[i := First(s, i)]
  {
    FirstZero(s, i);
    FirstFromRange(s, i, 0);
    for j := 1 to |s|
      invariant newState[..] == old(newState[..])
      invariant i != s[0] ==> First(s, i) >= j
    {
      var reducedSum := i - s[j];
      FirstStep(s, i, j);
      if reducedSum >= 0 && j - 1 >= newState[reducedSum] {
        assert s[0] < s[j];
        newState[i] := j;
        break;
      }
    }
  }

  /** The fill loops of `subsetSums`: every row from 1 to u - 1 in turn. */
  method FillState(newState: array<int>, s: seq<int>)
    requires Positive(s) && StrictlyIncreasing(s) && s != [] && |s| < MaxValue
    requires newState.Length >= 1
    requires forall v :: 0 <= v < newState.Length ==> newState[v] == (if v == 0 || v == s[0] then 0 else MaxValue)
    modifies newState
    ensures forall v :: 0 <= v < newState.Length ==> newState[v] == First(s, v)
  {
    FirstZero(s, 0);
    for i := 1 to newState.Length
      invariant forall v :: 0 <= v < i ==> newState[v] == First(s, v)
      invariant forall v :: i <= v < newState.Length ==> newState[v] == (if v == 0 || v == s[0] then 0 else MaxValue)
    {
      FillRow(newState, s, i);
    }
  }

  /** The collecting loop of `subsetSums`: the rows 1 .. u - 1 that hold a real column. */
  method ReachedRows(newState: array<int>) returns (sums: set<int>)
    requires newState.Length >= 1
    ensures forall v :: v in sums <==> 1 <= v < newState.Length && newState[v] < MaxValue
  {
    sums := {};
    for i := 1 to newState.Length
      invariant forall v :: v in sums <==> 1 <= v < i && newState[v] < MaxValue
    {
      if newState[i] < MaxValue {
        sums := sums + {i};
      }
    }
  }

  /**
   * The body of `subsetSums` on a non-empty sorted input: seed, fill and read the
   * compacted table, which yields Σ_u(s).
   */
  method StateSums(s: seq<int>, u: int) returns (sums: set<int>)
    requires s != [] && StrictlyIncreasing(s) && AllIn(s, 1, u - 1) && u < MaxValue
    ensures sums == SigmaU(s, u)
  {
    assert |s| < u by {
      IncreasingGap(s, |s| - 1);
    }
    var newState := InitState(s, u);
    FillState(newState, s);
    sums := ReachedRows(newState);
    forall v | 1 <= v < u ensures newState[v] < MaxValue <==> Reach(s, v) {
      FirstBelowMax(s, v);
    }
    DynamicProgramming.LastColumn(s, u, sums);
  }

  /**
   * `subsetSums(S, u)` for u below Integer.MAX_VALUE: rejects invalid input,
   * returns the empty set for an empty S, and otherwise returns exactly Σ_u
   * of the sorted input, the same answer as the baseline table.
   */
  method SubsetSums(S: set<int>, u: int) returns (r: Result<set<int>>)
    requires u < MaxValue
    ensures ValidateInput(S, u).Fail? ==> r == Err(ValidateInput(S, u).error)
    ensures ValidateInput(S, u) == Pass ==> r == Ok(SigmaU(Ascending(S), u))
  {
    var check := ValidateInput(S, u);
    if check.Fail? {
      return Err(check.error);
    }
    var s := Ascending(S);
    if |s| == 0 {
      assert Sigma(s) == {};
      assert SigmaU(s, u) == {};
      return Ok({});
    }
    AscendingOfValid(S, u);
    var sums := StateSums(s, u);
    SigmaUPassesValidateOutput(s, u);
    assert ValidateOutput(sums, u);
    return Ok(sums);
  }
}
