/**
 * The contract shared by the three solvers: input validation, the output
 * self-check, and the ascending view of the input set that every solver
 * works on.
 */
module SubsetSummer {
  import opened SumsSpec

  /** The argument errors the solvers raise. */
  datatype Error =
    | NonPositiveBound   // u <= 0
    | ElementOutOfRange  // some element of S is <= 0 or >= u
    | EmptyList          // `combine` was given no partial results

  datatype Outcome = Pass | Fail(error: Error)

  datatype Result<T> = Ok(value: T) | Err(error: Error)

  /** `validateInput`: u must be positive and every element of S must lie in [1, u - 1]. */
  function ValidateInput(S: set<int>, u: int): (r: Outcome)
    ensures r == Pass <==> u > 0 && forall e :: e in S ==> 0 < e < u
    ensures u <= 0 ==> r == Fail(NonPositiveBound)
    ensures u > 0 && S == {} ==> r == Pass
    ensures u > 0 && (exists e :: e in S && (e <= 0 || e >= u)) ==> r == Fail(ElementOutOfRange)
  {
    if u <= 0 then Fail(NonPositiveBound)
    else if forall e | e in S :: 0 < e < u then Pass
    else Fail(ElementOutOfRange)
  }

  /** `validateOutput`: accepts exactly the outputs whose values all lie in [1, u - 1]. */
  function ValidateOutput(output: set<int>, u: int): (ok: bool)
    ensures ok <==> forall v :: v in output ==> 1 <= v <= u - 1
  {
    forall v | v in output :: 0 < v < u
  }

  /** Σ_u of a positive sequence always passes the output self-check. */
  lemma SigmaUPassesValidateOutput(s: seq<int>, u: int)
    requires Positive(s)
    ensures ValidateOutput(SigmaU(s, u), u)
  {
    SigmaURange(s, u);
  }

  ghost predicate StrictlyIncreasing(s: seq<int>) {
    forall i, j :: 0 <= i < j < |s| ==> s[i] < s[j]
  }

  lemma PickElement(S: set<int>) returns (x: int)
    requires S != {}
    ensures x in S
  {
    if forall y :: y !in S { assert false; }
    x :| x in S;
  }

  lemma {:induction false} MinOf(S: set<int>) returns (m: int)
    requires S != {}
    ensures m in S && forall y :: y in S ==> m <= y
    decreases |S|
  {
    var x := PickElement(S);
    var R := S - {x};
    if R == {} {
      m := x;
      forall y | y in S ensures x <= y { assert y !in R; }
    } else {
      var m' := MinOf(R);
      m := if x < m' then x else m';
      forall y | y in S ensures m <= y { if y != x { assert y in R; } }
    }
  }

  lemma MinExists(S: set<int>)
    requires S != {}
    ensures exists m :: m in S && forall y :: y in S ==> m <= y
  {
    var m := MinOf(S);
  }

  /** The least element of a non-empty finite set. */
  function SetMin(S: set<int>): (m: int)
    requires S != {}
    ensures m in S && forall y :: y in S ==> m <= y
  {
    MinExists(S);
    var m :| m in S && forall y :: y in S ==> m <= y;
    m
  }

  /** The ascending enumeration of a finite set (Java's sorted copy of the input). */
  function Ascending(S: set<int>): (s: seq<int>)
    ensures StrictlyIncreasing(s)
    ensures forall x :: x in s <==> x in S
    ensures |s| == |S|
    decreases |S|
  {
    if S == {} then []
    else
      var m := SetMin(S);
      var rest := Ascending(S - {m});
      assert forall i :: 0 <= i < |rest| ==> m < rest[i] by {
        forall i | 0 <= i < |rest| ensures m < rest[i] {
          assert rest[i] in S - {m};
        }
      }
      [m] + rest
  }

  /** A set has exactly one ascending enumeration. */
  lemma {:induction false} AscendingUnique(s: seq<int>, S: set<int>)
    requires StrictlyIncreasing(s)
    requires forall x :: x in s <==> x in S
    ensures s == Ascending(S)
    decreases |s|
  {
    if s == [] {
      forall x ensures x !in S { assert x !in s; }
    } else {
      var m, rest := s[0], s[1..];
      IncreasingTail(s);
      assert s == [m] + rest;
      assert m == SetMin(S) by {
        assert m in S;
        forall y | y in S ensures m <= y {
          assert y == m || y in rest;
        }
      }
      forall x ensures x in rest <==> x in S - {m} {
        assert x in s <==> x == m || x in rest;
      }
      AscendingUnique(rest, S - {m});
    }
  }

  lemma IncreasingTail(s: seq<int>)
    requires StrictlyIncreasing(s) && s != []
    ensures StrictlyIncreasing(s[1..])
    ensures forall y :: y in s[1..] ==> s[0] < y
  {
    forall y | y in s[1..] ensures s[0] < y {
      var j :| 0 <= j < |s[1..]| && s[1..][j] == y;
      assert s[j + 1] == y;
    }
  }

  /** The ascending view of a validated input lies in [1, u - 1]; each element exceeds the first by at least its index. */
  lemma {:induction false} AscendingOfValid(S: set<int>, u: int)
    requires ValidateInput(S, u) == Pass
    ensures var s := Ascending(S);
      && Positive(s) && AllIn(s, 1, u - 1)
      && forall j :: 0 <= j < |s| ==> s[j] >= s[0] + j
  {
    var s := Ascending(S);
    forall j | 0 <= j < |s| ensures 1 <= s[j] <= u - 1 {
      assert s[j] in S;
    }
    IncreasingGaps(s);
  }

  lemma IncreasingGaps(s: seq<int>)
    requires StrictlyIncreasing(s)
    ensures forall j :: 0 <= j < |s| ==> s[j] >= s[0] + j
  {
    forall j | 0 <= j < |s| ensures s[j] >= s[0] + j {
      IncreasingGap(s, j);
    }
  }

  lemma {:induction false} IncreasingGap(s: seq<int>, j: nat)
    requires StrictlyIncreasing(s) && j < |s|
    ensures s[j] >= s[0] + j
    decreases j
  {
    if j > 0 {
      IncreasingGap(s, j - 1);
    }
  }
}
