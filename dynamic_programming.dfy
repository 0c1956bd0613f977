/**
 * The baseline solver: a u × n boolean table over the sorted input s, where
 * cell (v, j) records whether some subset of s[0..j] sums to v (the empty
 * subset giving v = 0). It is filled row by row, left to right, and the
 * answer is read off the last column.
 */
module DynamicProgramming {
  import opened SumsSpec
  import opened SubsetSummer

  /** Column 0 describes the one-element prefix [s[0]]: rows 0 and s[0] only. */
  lemma FirstColumn(s: seq<int>, v: int)
    requires s != []
    ensures Reach(s[..1], v) <==> v == 0 || v == s[0]
  {
    assert s[..1] == [] + [s[0]];
    SigmaSnoc([], s[0]);
    assert Sigma([]) == {};
  }

  /**
   * The table's recurrence: cell (v, j) holds iff cell (v, j - 1) does, or
   * v - s[j] is a row (non-negative) whose cell in column j - 1 holds.
   */
  lemma Transition(s: seq<int>, v: int, j: int)
    requires Positive(s) && 1 <= j < |s|
    ensures Reach(s[..j + 1], v) <==> Reach(s[..j], v) || (v - s[j] >= 0 && Reach(s[..j], v - s[j]))
  {
    assert s[..j + 1] == s[..j] + [s[j]];
    ReachSnoc(s[..j], s[j], v);
  }

  /**
   * The last column with row 0 cleared is exactly Σ_u(s): the values in
   * [1, u - 1] that some non-empty subset reaches.
   */
  lemma LastColumn(s: seq<int>, u: int, C: set<int>)
    requires Positive(s)
    requires forall v :: v in C <==> 1 <= v < u && Reach(s, v)
    ensures C == SigmaU(s, u)
  {
    SigmaPositive(s);
    forall v ensures v in C <==> v in SigmaU(s, u) {
      assert v in SigmaU(s, u) <==> v in Sigma(s) && v < u;
    }
  }

  /**
   * The table set-up of `subsetSums`: a fresh u × n table; column 0 is true only at row s[0], then
   * row 0 is set true throughout. Cells the source leaves `null` are `false`.
   */
  method InitTable(s: seq<int>, u: int) returns (state: array2<bool>)
    requires s != [] && u > 0
    ensures fresh(state) && state.Length0 == u && state.Length1 == |s|
    ensures forall v :: 0 <= v < u ==> state[v, 0] == Reach(s[..1], v)
    ensures forall j :: 0 <= j < |s| ==> state[0, j]
  {
    state := new bool[u, |s|];
    for v := 0 to u
      invariant forall r :: 0 <= r < v ==> state[r, 0] == (r == s[0])
    {
      state[v, 0] := v == s[0];
    }
    for j := 0 to |s|
      invariant forall r :: 1 <= r < u ==> state[r, 0] == (r == s[0])
      invariant forall c :: 0 <= c < j ==> state[0, c]
    {
      state[0, j] := true;
    }
    forall v | 0 <= v < u ensures state[v, 0] == Reach(s[..1], v) {
      FirstColumn(s, v);
    }
  }

  /**
   * The nested fill loops of `subsetSums`: rows 1 .. u - 1, columns 1 .. n - 1, each cell from the
   * recurrence; a row index below 0 reads as false.
   */
  method FillTable(state: array2<bool>, s: seq<int>)
    requires Positive(s) && s != [] && state.Length0 >= 1 && state.Length1 == |s|
    requires forall v :: 0 <= v < state.Length0 ==> state[v, 0] == Reach(s[..1], v)
    requires forall j :: 0 <= j < |s| ==> state[0, j]
    modifies state
    ensures forall v, j :: 0 <= v < state.Length0 && 0 <= j < |s| ==> state[v, j] == Reach(s[..j + 1], v)
  {
    var u := state.Length0;
    for i := 1 to u
      invariant forall v, j :: 0 <= v < i && 0 <= j < |s| ==> state[v, j] == Reach(s[..j + 1], v)
      invariant forall v :: i <= v < u ==> state[v, 0] == Reach(s[..1], v)
    {
      for j := 1 to |s|
        invariant forall v, c :: 0 <= v < i && 0 <= c < |s| ==> state[v, c] == Reach(s[..c + 1], v)
        invariant forall v :: i <= v < u ==> state[v, 0] == Reach(s[..1], v)
        invariant forall c :: 0 <= c < j ==> state[i, c] == Reach(s[..c + 1], i)
      {
        var below := if i - s[j] >= 0 then state[i - s[j], j - 1] else false;
        Transition(s, i, j);
        state[i, j] := state[i, j - 1] || below;
      }
    }
  }

  /** The final stream over column n - 1: the rows whose cell in column c is true. */
  method TrueRows(state: array2<bool>, c: nat) returns (rows: set<int>)
    requires c < state.Length1
    ensures forall v :: v in rows <==> 0 <= v < state.Length0 && state[v, c]
  {
    rows := {};
    for v := 0 to state.Length0
      invariant forall r :: r in rows <==> 0 <= r < v && state[r, c]
    {
      if state[v, c] {
        rows := rows + {v};
      }
    }
  }

  /**
   * `subsetSums(S, u)`: rejects invalid input, returns the empty set for an
   * empty S, and otherwise returns exactly Σ_u of the sorted input.
   */
  method SubsetSums(S: set<int>, u: int) returns (r: Result<set<int>>)
    ensures ValidateInput(S, u).Fail? ==> r == Err(ValidateInput(S, u).error)
    ensures ValidateInput(S, u) == Pass ==> r == Ok(SigmaU(Ascending(S), u))
  {
    var check := ValidateInput(S, u);
    if check.Fail? {
      return Err(check.error);
    }
    var s := Ascending(S);
    if |s| == 0 {
      assert Sigma(s) == {};
      assert SigmaU(s, u) == {};
      return Ok({});
    }
    AscendingOfValid(S, u);
    var sums := TableSums(s, u);
    SigmaUPassesValidateOutput(s, u);
    assert ValidateOutput(sums, u);
    return Ok(sums);
  }

  /**
   * The body of `subsetSums` on a non-empty sorted input: build and fill the table, clear
   * cell (0, n - 1) so that the empty subset is not reported, and collect
   * the last column, which is Σ_u(s).
   */
  method TableSums(s: seq<int>, u: int) returns (sums: set<int>)
    requires s != [] && u > 0 && Positive(s)
    ensures sums == SigmaU(s, u)
  {
    var n := |s|;
    var state := InitTable(s, u);
    FillTable(state, s);
    state[0, n - 1] := false;
    sums := TrueRows(state, n - 1);
    assert s[..n] == s;
    LastColumn(s, u, sums);
  }
}
