# Subset sums below a bound, modelled in Dafny

The modelled repository solves the "all subset sums" problem: given a positive
bound `u` and a set `S` of integers in `[1, u - 1]`, compute Σ_u(S), the set of
sums of the non-empty subsets of `S` that are smaller than `u`. It ships three
solvers behind one interface (`SubsetSummer`):

- `DynamicProgrammingSubsetSummer`, a `u × n` boolean table filled row by row;
- `OptimizedDynamicProgrammingSubsetSummer`, the same table compacted into one
  `int` per row (the first true column, `Integer.MAX_VALUE` for none);
- `FastMinkowskiSubsetSummer`, the deterministic divide-and-conquer algorithm
  of Koiliaris and Xu ("A Faster Pseudopolynomial Time Algorithm for Subset
  Sum", arXiv 1507.02318). It splits the sorted input into intervals and
  reduces records of partial results (`SubsetSums`: sums, span, size) pairwise
  with `combine`. Each merge applies the paper's Theorem 2 through a Minkowski
  sum, optionally after the coordinate compression `perfectH` of Lemma 1.

Layout:

| file | module | contents |
|---|---|---|
| `sums.dfy` | `SumsSpec` | reference semantics: Σ(s) by recursion, proved equal to the power-set definition; Σ_u; Theorem 2 on sets; the DP cell meaning `Reach` |
| `subset_summer.dfy` | `SubsetSummer` | `validateInput`, `validateOutput`, error results, the ascending view of the input set |
| `subset_sums.dfy` | `SubsetSumsRecord` | the `SubsetSums` record, `ofSingleElement`, and what it means for a record to describe a stretch of input |
| `minkowski.dfy` | `Minkowski` | the Minkowski sum, given by its result |
| `fast_minkowski.dfy` | `FastMinkowski` | `perfectH`/`inverseH`, `mergeSubsetSums`, `combine` and the whole solver |
| `dynamic_programming.dfy` | `DynamicProgramming` | the boolean table solver over an `array2<bool>` |
| `optimized_dp.dfy` | `OptimizedDynamicProgramming` | the compacted solver over an `array<int>`, with `break` |
| `trivial_cases.dfy` | `TrivialCases` | the fixed small cases the solvers are expected to reproduce |

All three solvers are proved to return `Ok(SigmaU(Ascending(S), u))` on valid
input, and the error for invalid input. `SigmaU` is tied to the brute-force
power-set definition by `SumsSpec.SigmaIsPowerSetSums`. The solvers are
therefore equal to the brute-force solver and to each other. The runtime
self-checks of the source (`validateOutput`, `checkState`) are proved never to
fire.

## Model

Source paths are relative to the repository root.

| member | source | states |
|---|---|---|
| SumsSpec.SigmaIsPowerSetSums | src/test/java/com/github/shtratos/subsetsum/TestUtils.java:38-44 | v is in Σ(s) exactly when some non-empty subset of the positions of s sums to v (the brute-force solver's power-set definition) |
| SumsSpec.SigmaConcat | src/main/java/com/github/shtratos/subsetsum/FastMinkowskiSubsetSummer.java:109-111 | Σ(pq) = Σ(p) ∪ Σ(q) ∪ (Σ(p) ⊕ Σ(q)) for any two sequences |
| SumsSpec.SigmaUConcat | src/main/java/com/github/shtratos/subsetsum/FastMinkowskiSubsetSummer.java:105-118 | Theorem 2: for positive p, q, Σ_u(pq) = (Σ_u(p) ∪ Σ_u(q) ∪ (Σ_u(p) ⊕ Σ_u(q))) ∩ (-∞, u) |
| SumsSpec.SigmaPrefix | src/main/java/com/github/shtratos/subsetsum/OptimizedDynamicProgrammingSubsetSummer.java:24-28 | the sums of a prefix are sums of every longer prefix, so a true table cell stays true to its right |
| SumsSpec.ReachSnoc | src/main/java/com/github/shtratos/subsetsum/DynamicProgrammingSubsetSummer.java:44-45 | v is reachable (0 or a subset sum) with p + [x] iff it is reachable with p, or v - x >= 0 is |
| SumsSpec.SubsetCount | src/main/java/com/github/shtratos/subsetsum/FastMinkowskiSubsetSummer.java:109-112 | a subset sum of elements in a + [l - 1] is a sum of some t elements, 1 <= t <= length of s, hence in [t·a, t·(a + l - 1)] |
| SumsSpec.SigmaURange | src/main/java/com/github/shtratos/subsetsum/SubsetSummer.java:13-17 | for positive input every value of Σ_u lies in [1, u - 1] |
| SubsetSummer.ValidateInput | src/main/java/com/github/shtratos/subsetsum/SubsetSummer.java:19-23 | passes iff u > 0 and every element is in [1, u - 1]; u <= 0 gives the bound error, an out-of-range element the element error, an empty S with u > 0 passes |
| SubsetSummer.ValidateOutput | src/main/java/com/github/shtratos/subsetsum/SubsetSummer.java:25-28 | accepts exactly the outputs whose values all lie in [1, u - 1] |
| SubsetSummer.SigmaUPassesValidateOutput | src/main/java/com/github/shtratos/subsetsum/SubsetSummer.java:25-28 | Σ_u of a positive sequence always passes the output check |
| SubsetSummer.Ascending | src/main/java/com/github/shtratos/subsetsum/DynamicProgrammingSubsetSummer.java:25 | the sorted copy of S: strictly increasing, the same members as S, as many elements as S |
| SubsetSummer.AscendingUnique | src/main/java/com/github/shtratos/subsetsum/FastMinkowskiSubsetSummer.java:32 | every strictly increasing sequence with the members of S is the sorted copy of S |
| SubsetSummer.AscendingOfValid | src/main/java/com/github/shtratos/subsetsum/OptimizedDynamicProgrammingSubsetSummer.java:13-17 | after validation the sorted input is positive, inside [1, u - 1], and its j-th element is at least the first plus j |
| SubsetSummer.SetMin | src/main/java/com/github/shtratos/subsetsum/DynamicProgrammingSubsetSummer.java:25 | the least element of a non-empty set, the head of its sorted copy |
| SubsetSumsRecord.SpanUnion | src/main/java/com/github/shtratos/subsetsum/FastMinkowskiSubsetSummer.java:121 | the smallest closed interval enclosing both spans: each end is one of the operands' ends and encloses both |
| SubsetSumsRecord.OfSingleElement | src/main/java/com/github/shtratos/subsetsum/SubsetSums.java:30-32 | the record with sums {x}, span [x, x] and size 1 |
| SubsetSumsRecord.SingleRepresents | src/main/java/com/github/shtratos/subsetsum/SubsetSums.java:30-32 | for 1 <= x < u, ofSingleElement(x) describes the one-element stretch [x] |
| SubsetSumsRecord.RepresentsWellFormed | src/main/java/com/github/shtratos/subsetsum/SubsetSums.java:10-28 | a record describing a valid stretch has a positive span, size >= 1, non-negative sums and a sum below u |
| Minkowski.MinkowskiSum | src/main/java/com/github/shtratos/subsetsum/MinkowskiSumUtils.java:15-32 | the result is {a + b : a in A, b in B} for non-negative A, B with A ∪ B non-empty |
| FastMinkowski.JDiv | src/main/java/com/github/shtratos/subsetsum/FastMinkowskiSubsetSummer.java:158 | Java's long division truncates toward zero: d·q <= x < d·q + d for x >= 0, and d·q - d < x <= d·q for x < 0 |
| FastMinkowski.JRem | src/main/java/com/github/shtratos/subsetsum/FastMinkowskiSubsetSummer.java:159 | Java's remainder: x = d·JDiv(x, d) + r with -d < r < d, r = x mod d for x >= 0 and r <= 0 for x < 0 |
| FastMinkowski.CeilDiv | src/main/java/com/github/shtratos/subsetsum/FastMinkowskiSubsetSummer.java:125 | `LongMath.divide(u, a, CEILING)`: the least q with a·q >= u |
| FastMinkowski.Pow2 | src/main/java/com/github/shtratos/subsetsum/FastMinkowskiSubsetSummer.java:74-76 | 2^k, at least 1; used to state CeilLog2 |
| FastMinkowski.CeilLog2 | src/main/java/com/github/shtratos/subsetsum/FastMinkowskiSubsetSummer.java:78-80 | the least r with 2^r >= n |
| FastMinkowski.IntervalCount | src/main/java/com/github/shtratos/subsetsum/FastMinkowskiSubsetSummer.java:38 | k is the least value with 2^k >= max(⌈log2 n⌉, 1) |
| FastMinkowski.PerfectH | src/main/java/com/github/shtratos/subsetsum/FastMinkowskiSubsetSummer.java:154-166 | the identity when d < 2l; keeps non-negative sets non-negative and non-empty sets non-empty |
| FastMinkowski.InverseH | src/main/java/com/github/shtratos/subsetsum/FastMinkowskiSubsetSummer.java:176-188 | the identity when d < 2l; keeps non-negative sets non-negative |
| FastMinkowski.H | src/main/java/com/github/shtratos/subsetsum/FastMinkowskiSubsetSummer.java:157-161 | for x >= 0 with x mod d < 2l, h(x) >= 0, h(x) div 2l = x div d and h(x) mod 2l = x mod d: the quotient moves to a grid of step 2l, the residue stays |
| FastMinkowski.HInverse | src/main/java/com/github/shtratos/subsetsum/FastMinkowskiSubsetSummer.java:179-183 | for y >= 0 with y mod 2l < d, h⁻¹(y) >= 0, h⁻¹(y) div d = y div 2l and h⁻¹(y) mod d = y mod 2l: the mirror of h |
| FastMinkowski.PerfectHImage | src/main/java/com/github/shtratos/subsetsum/FastMinkowskiSubsetSummer.java:155-162 | for d >= 2l, h(x) = 2l·(x / d) + x % d is in perfectH(S) for every x in S |
| FastMinkowski.PerfectHPreimage | src/main/java/com/github/shtratos/subsetsum/FastMinkowskiSubsetSummer.java:155-162 | for d >= 2l, every element of perfectH(S) is h(x) for some x in S |
| FastMinkowski.InverseHImage | src/main/java/com/github/shtratos/subsetsum/FastMinkowskiSubsetSummer.java:177-184 | for d >= 2l, h⁻¹(y) = d·(y / 2l) + y % 2l is in inverseH(hS) for every y in hS |
| FastMinkowski.InverseHPreimage | src/main/java/com/github/shtratos/subsetsum/FastMinkowskiSubsetSummer.java:177-184 | for d >= 2l, every element of inverseH(hS) is h⁻¹(y) for some y in hS |
| FastMinkowski.HAdditive | src/main/java/com/github/shtratos/subsetsum/FastMinkowskiSubsetSummer.java:146-153 | Lemma 1: for x, y >= 0 whose residues mod d sum to less than 2l, h⁻¹(h(x) + h(y)) = x + y |
| FastMinkowski.HRoundTrip | src/main/java/com/github/shtratos/subsetsum/FastMinkowskiSubsetSummer.java:168-175 | h⁻¹(h(x)) = x for x >= 0 with x mod d < 2l |
| FastMinkowski.PerfectHRoundTrip | src/main/java/com/github/shtratos/subsetsum/FastMinkowskiSubsetSummer.java:168-175 | inverseH(perfectH(S)) = S, unconditionally when d < 2l and for non-negative S with residues below 2l when d >= 2l |
| FastMinkowski.PerfectHRoundTripOnSpan | src/test/java/com/github/shtratos/subsetsum/FastMinkowskiSubsetSummerTest.java:133-174 | the round trip for any S inside [d, d + l) with d >= 2l, the shape the tests draw |
| FastMinkowski.CompressedMinkowskiExact | src/main/java/com/github/shtratos/subsetsum/FastMinkowskiSubsetSummer.java:134-138 | when all residues mod d are below l, h⁻¹(h(A) ⊕ h(B)) = A ⊕ B |
| FastMinkowski.SpanLength | src/main/java/com/github/shtratos/subsetsum/FastMinkowskiSubsetSummer.java:124 | the span [a, hi] is a + [l - 1]: hi = a + l - 1, and l >= 1 exactly when the span is non-empty |
| FastMinkowski.MergeBound | src/main/java/com/github/shtratos/subsetsum/FastMinkowskiSubsetSummer.java:125 | k = min(n, ⌈u / a⌉): at most both, equal to one of them, and at least 1 when u >= 1 and n >= 1 |
| FastMinkowski.UsesStandardPath | src/main/java/com/github/shtratos/subsetsum/FastMinkowskiSubsetSummer.java:128 | the path test k²·l >= u; when it fails (the fast path) with n >= 1 and a non-empty span, u >= 2, k >= 1 and maxL = k·l >= 1, so the compression is defined |
| FastMinkowski.FastPathBounds | src/main/java/com/github/shtratos/subsetsum/FastMinkowskiSubsetSummer.java:123-134 | for well-formed operands u >= 1, k >= 1, l >= 1 and maxL = k·l >= 1 |
| FastMinkowski.MergeConvolution | src/main/java/com/github/shtratos/subsetsum/FastMinkowskiSubsetSummer.java:127-139 | C is non-negative, and equals A.sums ⊕ B.sums whenever the standard path is taken or the compression is exact |
| FastMinkowski.MergeSubsetSums | src/main/java/com/github/shtratos/subsetsum/FastMinkowskiSubsetSummer.java:119-144 | the result has the joint span and the total size, is again fit to merge, and all its sums are below u |
| FastMinkowski.MergeSums | src/main/java/com/github/shtratos/subsetsum/FastMinkowskiSubsetSummer.java:140-143 | every operand sum below u survives the merge; with an exact convolution the sums are (A ∪ B ∪ (A ⊕ B)) ∩ (-∞, u) |
| FastMinkowski.RepresentsFastPathExact | src/main/java/com/github/shtratos/subsetsum/FastMinkowskiSubsetSummer.java:125-138 | for records of real stretches, every operand sum has residue below k·l mod a, so the compressed convolution is exact |
| FastMinkowski.MergeRepresents | src/main/java/com/github/shtratos/subsetsum/FastMinkowskiSubsetSummer.java:105-118 | merging the records of stretches p and q gives the record of pq (sums Σ_u(pq), its span, size of p plus size of q) |
| FastMinkowski.PairUp | src/main/java/com/github/shtratos/subsetsum/FastMinkowskiSubsetSummer.java:93-100 | one round halves the list, rounding up, and keeps every record fit to merge |
| FastMinkowski.PairUpPair | src/main/java/com/github/shtratos/subsetsum/FastMinkowskiSubsetSummer.java:94-96 | entry i of a round is the merge of records 2i and 2i + 1 |
| FastMinkowski.PairUpOddTail | src/main/java/com/github/shtratos/subsetsum/FastMinkowskiSubsetSummer.java:97-99 | with an odd count the last record is carried over unchanged |
| FastMinkowski.CombineSpec | src/main/java/com/github/shtratos/subsetsum/FastMinkowskiSubsetSummer.java:88-103 | a lone record comes back as it is; the reduction of two or more mergeable records is again mergeable |
| FastMinkowski.PairRound | src/main/java/com/github/shtratos/subsetsum/FastMinkowskiSubsetSummer.java:93-100 | the pairing loop over a list of mergeable records builds exactly one round, PairUp, of that list |
| FastMinkowski.Combine | src/main/java/com/github/shtratos/subsetsum/FastMinkowskiSubsetSummer.java:88-103 | an empty list is the empty-list error; a lone record is returned unchanged whatever its sums; otherwise the result is CombineSpec of the list |
| FastMinkowski.PairUpRepresents | src/main/java/com/github/shtratos/subsetsum/FastMinkowskiSubsetSummer.java:82-87 | a round over records of consecutive stretches yields records of the joined adjacent stretches |
| FastMinkowski.CombineRepresents | src/main/java/com/github/shtratos/subsetsum/FastMinkowskiSubsetSummer.java:82-87 | combine over records of consecutive stretches yields the record of their concatenation |
| FastMinkowski.Slice | src/main/java/com/github/shtratos/subsetsum/FastMinkowskiSubsetSummer.java:54 | `S.subSet(lo, hi)` on the sorted input: no longer than the input; its members are stated by SliceMembers |
| FastMinkowski.SliceMembers | src/main/java/com/github/shtratos/subsetsum/FastMinkowskiSubsetSummer.java:54 | `S.subSet(lo, hi)` holds exactly the elements of S in [lo, hi) |
| FastMinkowski.SliceSplit | src/main/java/com/github/shtratos/subsetsum/FastMinkowskiSubsetSummer.java:52-54 | on sorted input the stretches of [lo, mid) and [mid, hi) concatenate to the stretch of [lo, hi) |
| FastMinkowski.Boundaries | src/main/java/com/github/shtratos/subsetsum/FastMinkowskiSubsetSummer.java:39-48 | a = [0, a_1 .. a_k, u]; non-decreasing inside [0, u] when the interior boundaries are |
| FastMinkowski.Singletons | src/main/java/com/github/shtratos/subsetsum/FastMinkowskiSubsetSummer.java:57-61 | one ofSingleElement record per element, in order |
| FastMinkowski.SingletonsRepresent | src/main/java/com/github/shtratos/subsetsum/FastMinkowskiSubsetSummer.java:58-60 | the singleton records describe the one-element stretches, which concatenate back to the interval |
| FastMinkowski.IntervalRecord | src/main/java/com/github/shtratos/subsetsum/FastMinkowskiSubsetSummer.java:57-62 | the combined record of a non-empty interval describes that interval's stretch |
| FastMinkowski.IntervalRecords | src/main/java/com/github/shtratos/subsetsum/FastMinkowskiSubsetSummer.java:52-63 | at most one record per interval, each fit to merge and describing a non-empty stretch; in order, the stretches concatenate to the whole sorted input |
| FastMinkowski.CombineIntervals | src/main/java/com/github/shtratos/subsetsum/FastMinkowskiSubsetSummer.java:66-71 | the combined interval records give Σ_u of the input, and the three self-checks hold |
| FastMinkowski.Solve | src/main/java/com/github/shtratos/subsetsum/FastMinkowskiSubsetSummer.java:30-72 | invalid input gives its error; valid input gives exactly Σ_u of the sorted input (empty for an empty S) |
| DynamicProgramming.FirstColumn | src/main/java/com/github/shtratos/subsetsum/DynamicProgrammingSubsetSummer.java:36-40 | column 0 (prefix [s[0]]) is true exactly at rows 0 and s[0] |
| DynamicProgramming.Transition | src/main/java/com/github/shtratos/subsetsum/DynamicProgrammingSubsetSummer.java:42-47 | cell (v, j) holds iff cell (v, j - 1) does or v - s[j] is a row whose cell in column j - 1 holds |
| DynamicProgramming.LastColumn | src/main/java/com/github/shtratos/subsetsum/DynamicProgrammingSubsetSummer.java:51-55 | the rows in [1, u) reachable with all of s are exactly Σ_u(s) |
| DynamicProgramming.InitTable | src/main/java/com/github/shtratos/subsetsum/DynamicProgrammingSubsetSummer.java:30-40 | a fresh u × n table whose column 0 and row 0 already hold their meaning |
| DynamicProgramming.FillTable | src/main/java/com/github/shtratos/subsetsum/DynamicProgrammingSubsetSummer.java:42-48 | afterwards every cell (v, j) is true iff v is reachable with s[0..j] |
| DynamicProgramming.TrueRows | src/main/java/com/github/shtratos/subsetsum/DynamicProgrammingSubsetSummer.java:52-55 | the collected rows are exactly the rows whose cell in the given column is true |
| DynamicProgramming.TableSums | src/main/java/com/github/shtratos/subsetsum/DynamicProgrammingSubsetSummer.java:28-55 | on non-empty positive input the table yields exactly Σ_u(s) |
| DynamicProgramming.SubsetSums | src/main/java/com/github/shtratos/subsetsum/DynamicProgrammingSubsetSummer.java:22-59 | invalid input gives its error; valid input gives exactly Σ_u of the sorted input |
| OptimizedDynamicProgramming.FirstAtMost | src/main/java/com/github/shtratos/subsetsum/OptimizedDynamicProgrammingSubsetSummer.java:24-28 | a row's first true column is at most j iff the row is reachable with s[0..j] |
| OptimizedDynamicProgramming.FirstBelowMax | src/main/java/com/github/shtratos/subsetsum/OptimizedDynamicProgrammingSubsetSummer.java:30 | a row holds a value below MAX_VALUE iff it is reachable with all of s |
| OptimizedDynamicProgramming.FirstZero | src/main/java/com/github/shtratos/subsetsum/OptimizedDynamicProgrammingSubsetSummer.java:32-36 | the first true column is 0 exactly at rows 0 and s[0] |
| OptimizedDynamicProgramming.FirstStep | src/main/java/com/github/shtratos/subsetsum/OptimizedDynamicProgrammingSubsetSummer.java:39-45 | a row is true by column j iff it was by column j - 1 or column j fires from row i - s[j] |
| OptimizedDynamicProgramming.InitState | src/main/java/com/github/shtratos/subsetsum/OptimizedDynamicProgrammingSubsetSummer.java:29-36 | a fresh array of u sentinels with rows 0 and s[0] set to 0 |
| OptimizedDynamicProgramming.FillRow | src/main/java/com/github/shtratos/subsetsum/OptimizedDynamicProgrammingSubsetSummer.java:39-46 | row i is set to its first true column (or stays at the sentinel); no other entry changes |
| OptimizedDynamicProgramming.FillState | src/main/java/com/github/shtratos/subsetsum/OptimizedDynamicProgrammingSubsetSummer.java:38-47 | afterwards every row holds its first true column, or MAX_VALUE when it has none |
| OptimizedDynamicProgramming.ReachedRows | src/main/java/com/github/shtratos/subsetsum/OptimizedDynamicProgrammingSubsetSummer.java:49-55 | the collected rows are exactly the rows in [1, u) below MAX_VALUE |
| OptimizedDynamicProgramming.StateSums | src/main/java/com/github/shtratos/subsetsum/OptimizedDynamicProgrammingSubsetSummer.java:29-55 | on non-empty sorted input the compacted table yields exactly Σ_u(s) |
| OptimizedDynamicProgramming.SubsetSums | src/main/java/com/github/shtratos/subsetsum/OptimizedDynamicProgrammingSubsetSummer.java:11-58 | for u < MAX_VALUE: invalid input gives its error; valid input gives exactly Σ_u of the sorted input |
| TrivialCases.OneElement | src/test/java/com/github/shtratos/subsetsum/DynamicProgrammingSubsetSummerTest.java:32 | Σ_u of the sorted input {7} below 42 is {7} |
| TrivialCases.TwoElements | src/test/java/com/github/shtratos/subsetsum/DynamicProgrammingSubsetSummerTest.java:33 | Σ_u of the sorted input {2, 3} below 42 is {2, 3, 5} |
| TrivialCases.TwoElementsCut | src/test/java/com/github/shtratos/subsetsum/DynamicProgrammingSubsetSummerTest.java:34 | Σ_u of the sorted input {2, 3} below 5 is {2, 3}: the full sum 5 is cut off by the bound |
| TrivialCases.SigmaUpto | src/test/java/com/github/shtratos/subsetsum/DynamicProgrammingSubsetSummerTest.java:17-25 | the subset sums of 1, 2, ..., n are exactly the values from 1 to 1 + 2 + ... + n |
| TrivialCases.FirstFive | src/test/java/com/github/shtratos/subsetsum/DynamicProgrammingSubsetSummerTest.java:17-25 | Σ_u of the sorted input {1, 2, 3, 4, 5} below 100 is every value from 1 to 15 |
| TrivialCases.CombineLoneRecord | src/test/java/com/github/shtratos/subsetsum/FastMinkowskiSubsetSummerTest.java:79-86 | combine of [ofSingleElement(42)] has sums {42} for u = 100 and for u = 20, where 42 is not below the bound |

## Left out

- The FFT convolution and `float` characteristic vectors of `minkowskiSum` (MinkowskiSumUtils.java:34-98): the Minkowski sum is given by its exact result. The `limit < 2^29` Java `assert` is not modelled.
- Interval boundaries (FastMinkowskiSubsetSummer.java:42-47) are computed with `double` arithmetic and `Math.pow`. `FastMinkowski.Solve` takes them as a parameter `boundary` and requires only that they be non-decreasing inside [0, u]. The correctness proof holds for every such choice.
- Java's `long`/`int` widths: all integers are unbounded. Overflow of `k·k·l`, of `pow2` (`checkedPow`) and of the sums themselves is not modelled.
- Pow2: stated only as 2^k >= 1; it serves to specify CeilLog2, and its one other use is the `double` boundary formula, which is a parameter here.
- PerfectH, InverseH: require l >= 1, under which Java never divides by zero. For l < 1 Java can throw ArithmeticException on a non-empty set. perfectH throws when d = 0 and l <= 0 (`x / d`). inverseH throws when l = 0 and d >= 0 (`x / (2 * l)`). For other l < 1 Java returns values the model does not define. The solver only calls them with maxL >= 1. Their round-trip and exactness lemmas are stated for non-negative values, the only values the solver passes.
- MergeSubsetSums, PairUp: require every operand to be well-formed: span start at least 1, size at least 1, non-negative sums and at least one sum below u. In some respects this is stronger than one Java merge needs. Java throws when: the joint span starts at 0 (`LongMath.divide`); both sum sets are empty (`Ordering.max` in `minkowskiSum`); a sum is negative (an array index in `characteristic`); a sum reaches about 2^29 (`Ints.checkedCast(limit * 2)` in `characteristic`, or the `limit < 2^29` assert when assertions are on); or the sizes add up to 0 while both sum sets are non-empty (then k = 0 and the fast path runs with maxL = 0, so `inverseH` divides by 2·0). "A sum below u" is an invariant that every record the solver builds carries, and it keeps the next merge's sum sets non-empty. Merges that Java completes outside these conditions, such as ofSingleElement(42) with ofSingleElement(5) at u = 20, are not modelled.
- Combine, CombineSpec: require well-formed records only when the list has two or more records, for the reason above; a lone record is returned with no condition on it.
- Slice: its own contract states only that a slice is no longer than the input. Which elements it holds is the contract of SliceMembers, kept separate so that the proofs about slices stay within the resource limit.
- MergeSubsetSums: its sums are stated exactly only when the convolution is exact (`MergeSums`). Exactness is proved for records that describe real stretches (`RepresentsFastPathExact`), the only records the solver merges.
- OptimizedDynamicProgramming.SubsetSums: the Java `assert u < Integer.MAX_VALUE` becomes a precondition. The conversion of elements to `int` is the identity under it.
- DynamicProgramming: the table's `null` cells read as `false`, as the source's `== Boolean.TRUE` test does. A row index below 0 is not a table key, and Guava's `get` answers `null` for it.
- Debug output (`printState`, the `System.out` calls in tests), timing experiments and the random test-data generators are not modelled.
- `MinkowskiSumUtils` helpers `characteristic`, `convolution`, `multiplyComplexVectors` and `inverseCharacteristic` are not part of this model.
