# Minimum-cost DNA sequence alignment, modelled and proved in Dafny

The repository aligns two DNA strings at minimum cost: a linear gap
penalty of 30 per gap column, and a symmetric 4x4 substitution table over
A, C, G and T whose diagonal is zero. It has two solvers.

- `basic.py` (`align_basic`) fills the whole (m+1) x (n+1) Needleman-Wunsch
  table. It then backtracks from the last cell. At each step it takes the
  diagonal if that accounts for the cell's cost, otherwise a gap in t if
  that does, otherwise a gap in s.
- `memory-efficient.py` has four parts:
  - `_nw_cost_vector` computes one row of the table at a time, keeping only
    two rows;
  - `_nw_align_small` builds a full table plus a pointer table, as the base
    case;
  - `hirschberg` splits x at its middle row. It picks the column q that
    minimises forward cost plus backward cost, then recurses on both halves;
  - `alignment_cost` adds up the cost of an alignment's columns.
- `Generator.py` (`generateString`) builds the input strings. It starts from
  a seed and, for each index, doubles the string by splicing a copy into it.

The model does not depend on either solver. It defines:

- the cost of an aligned pair as the sum of its column costs (`Alignment.Cost`);
- what makes a pair of gapped strings an alignment of x with y
  (`Alignment.IsAlignment`): equal lengths, deleting gaps gives back x and y,
  and no column is a gap against a gap;
- the optimal cost `Alignment.OptCost`, which is the last cell of the
  Needleman-Wunsch recurrence on prefixes (`Alignment.Table`);
- the traceback `Alignment.Traceback`, which breaks ties diagonal first,
  then up, then left.

Most of the theory is in `AlignmentTheory`. OptCost is a lower bound on the
cost of every alignment, and the traceback attains it. Alignments can be
concatenated, split and reversed. From these follow reversal invariance and
Hirschberg's theorem: the optimal cost splits additively at every row.

Each solver routine is an imperative method proved against these
definitions:

- `basic.py` is modelled in `basic.dfy`;
- `memory-efficient.py` in `memory_efficient.dfy`;
- the two solvers are compared in `solvers.dfy`;
- `Generator.py` is modelled in `generator.dfy`;
- the shared cost constants are in `cost_model.dfy`.

Nested Python loops become one method per loop level (`FillBasicRow`
inside `FillBasic`, `FillRow` inside `FillTables`, `NextRow` inside
`NwCostVector`). The two-dimensional lists become `array2`s.

Two decisions, in both of which the model follows the code:

- Gap symbol: the docstring at memory-efficient.py:106 says gaps are `'-'`.
  The code emits `'_'`, and so does the model (`CostModel.Gap`).
- Unknown symbols: the model keeps the two programs' different behaviour.
  - memory-efficient.py falls back to cost 0 or 1. This is
    `CostModel.MismatchCost`, the cost that OptCost uses.
  - basic.py does a bare dictionary lookup, `CostModel.Mismatch`, which is
    defined only on A/C/G/T. `Basic.AlignBasic` returns `KeyError` exactly
    when the fill loop would perform a lookup on a symbol outside the table.

## Model

| member | source | states |
|---|---|---|
| CostModel.AlphaKeys | basic.py:10-15 | The table's rows, and every row's columns, are exactly A, C, G and T. |
| CostModel.Mismatch | basic.py:18-19 | `mismatch` is defined only for A/C/G/T. Its cost is zero exactly when the two symbols are equal. |
| CostModel.MismatchCostOnBases | memory-efficient.py:18-23 | On A/C/G/T, `mismatch_cost` equals the table lookup. On any other symbol it is 0 for equal symbols and 1 otherwise. |
| CostModel.MismatchSymmetric | basic.py:10-15 | The substitution table is symmetric. |
| CostModel.MismatchCostSymmetric | memory-efficient.py:11-23 | `mismatch_cost` is symmetric, including the fallback. |
| CostModel.MismatchCost | memory-efficient.py:18-23 | `mismatch_cost(a, b)` is 0 if and only if a == b, both on the table and in the 0/1 fallback. This is the substitution cost OptCost uses. |
| Alignment.Min3 | basic.py:38-42 | The three-way `min` is at most each argument and equals one of them. |
| Alignment.TableIsOptCost | basic.py:33-42 | Cell (i, j) of the table of x and y is OptCost(x[..i], y[..j]). The traceback and the move from (i, j) are those of the prefixes. |
| Alignment.OptCostRecurrence | basic.py:27-42 | OptCost is j·30 on an empty x and i·30 on an empty y. Otherwise it is the min of diagonal plus substitution, up plus 30, and left plus 30, on the shortened strings. |
| Alignment.ChoiceCost | memory-efficient.py:74-81 | The move at the last cell is D if and only if the diagonal accounts for OptCost. It is U if and only if it is not D and the cell above accounts for it, and L otherwise. Each move's predecessor gives OptCost. |
| Alignment.TracebackRecurrence | basic.py:49-72 | The traceback is empty at (0, 0). Otherwise it is the traceback of the predecessor that the move names, plus that move's column. |
| AlignmentTheory.CostConcat | memory-efficient.py:136-145 | The column-sum cost is additive over concatenation. |
| AlignmentTheory.AlignmentConcat | memory-efficient.py:131-133 | Two alignments side by side align the concatenated inputs, at the sum of their costs. |
| AlignmentTheory.AlignmentJoin | memory-efficient.py:131-133 | Alignments of x[..i] with y[..j] and of x[i..] with y[j..], concatenated, align x with y at the sum of their costs. |
| AlignmentTheory.AlignmentSplit | memory-efficient.py:116-133 | Cutting an alignment after any column gives an alignment of a prefix pair and one of the remaining suffix pair. Their costs add up to the whole. |
| AlignmentTheory.OptCostLowerBound | basic.py:38-42 | No alignment of x with y costs less than OptCost(x, y). |
| AlignmentTheory.TracebackEmptyLeft | basic.py:49-69 | With s empty, the backtracking takes only case 3: the result is ('_'·n, t). |
| AlignmentTheory.TracebackEmptyRight | basic.py:49-69 | With t empty, the backtracking takes only case 2: the result is (s, '_'·m). |
| AlignmentTheory.TracebackEdges | basic.py:27-30 | When either string is empty, the traceback is all gaps on the empty side, and its cost is OptCost whatever symbols the other side holds. |
| AlignmentTheory.TracebackOptimal | basic.py:45-74 | The traceback's two sides have equal length. For gap-free inputs it is an alignment, and its cost is OptCost. |
| AlignmentTheory.GapsAlignLeft | memory-efficient.py:109-110 | ('_'·n, y) aligns the empty string with a gap-free y at the optimal cost n·30. |
| AlignmentTheory.GapsAlignRight | memory-efficient.py:111-112 | (x, '_'·m) aligns a gap-free x with the empty string at the optimal cost m·30. |
| AlignmentTheory.AlignmentReverse | memory-efficient.py:119-120 | Reversing both sides of an alignment gives an alignment of the reversed inputs at the same cost. |
| AlignmentTheory.OptCostReverse | memory-efficient.py:119-120 | OptCost(rev x, rev y) == OptCost(x, y) for gap-free inputs. This is the reversal lemma behind the backward cost vector. |
| AlignmentTheory.SplitUpperBound | memory-efficient.py:116-129 | For every split q of y at row mid, OptCost(x, y) is at most the sum of the costs of the two halves. |
| AlignmentTheory.SplitAttained | memory-efficient.py:116-129 | Some split q of y at row mid attains OptCost(x, y) as the sum of the halves. |
| AlignmentTheory.OptCostSymmetric | basic.py:38-42 | Because the table is symmetric, the cost of (s, t) equals the cost of (t, s). |
| AlignmentTheory.OptCostSelf | basic.py:10-19 | Because the diagonal is zero, s against itself costs 0, and the traceback is (s, s). |
| AlignmentTheory.ExampleACvsAG | basic.py:22-74 | On ("AC", "AG") the cost is 60 and the alignment is ("A_C", "AG_"). |
| Basic.FillBasicCell | basic.py:38-42 | The inner fill step sets dp[i][j] to table cell (i, j) and leaves every other cell unchanged. |
| Basic.FillBasicRow | basic.py:33-42 | The row pass succeeds if and only if t is empty, or s[i-1] and all of t are bases. On success, rows 0..i equal the table. |
| Basic.FillBasic | basic.py:27-42 | The fill succeeds if and only if one input is empty or both are over A/C/G/T. On success, dp is the whole table. |
| Basic.BasicStep | basic.py:50-69 | The comparisons of a backtracking step choose exactly the move the table defines: diagonal, then gap in t, then gap in s. |
| Basic.BasicTraceback | basic.py:45-72 | The backtracking loop reaches (0, 0), and its reversed lists are Traceback(s, t). |
| Basic.AlignBasic | basic.py:22-74 | `align_basic` raises KeyError if and only if both strings are non-empty and one of them holds a symbol outside A/C/G/T. Otherwise it returns OptCost(s, t) and Traceback(s, t). The produced columns always have equal length and cost exactly the returned dp[m][n]. They align s with t whenever both are non-empty or both are gap-free. |
| MemoryEfficient.NextRow | memory-efficient.py:39-46 | From row i-1 of the table, one outer pass builds row i. |
| MemoryEfficient.NwCostVector | memory-efficient.py:26-47 | The vector has length len(y)+1 and entry j is OptCost(x, y[..j]). Entry 0 is len(x)·30, and for empty x entry j is j·30. |
| MemoryEfficient.FillCell | memory-efficient.py:69-81 | The inner fill step sets dp[i][j] to table cell (i, j) and ptr[i][j] to its D/U/L move, and changes no other cell. |
| MemoryEfficient.FillRow | memory-efficient.py:67-81 | One outer pass extends the filled rows, for both tables, by row i. |
| MemoryEfficient.FillTables | memory-efficient.py:54-81 | dp is the whole table, and every cell other than (0, 0) holds its move in ptr. |
| MemoryEfficient.FollowPointers | memory-efficient.py:83-101 | Following the pointers from the last cell and reversing gives Traceback(x, y). |
| MemoryEfficient.NwAlignSmall | memory-efficient.py:50-101 | `_nw_align_small` returns Traceback(x, y), whose sides have equal length. For gap-free inputs it is an alignment at cost OptCost(x, y). |
| MemoryEfficient.SplitPoint | memory-efficient.py:122-129 | The scan returns a q in [0, n] minimising fwd[q] + bwd[n-q], and it is the smallest such q. |
| MemoryEfficient.SplitMinimum | memory-efficient.py:116-129 | For gap-free inputs, the minimum the scan finds, fwd[q] + bwd[n-q], is OptCost(x, y). It is also the sum of the optimal costs of the two halves x[..mid], y[..q] and x[mid..], y[q..]. |
| MemoryEfficient.JoinHalves | memory-efficient.py:131-133 | The two recursive results, concatenated, align gap-free x with y at cost OptCost(x, y). |
| MemoryEfficient.Hirschberg | memory-efficient.py:104-133 | Empty x gives ('_'·n, y) and empty y gives (x, '_'·m). A side of length 1 gives Traceback(x, y). Every result has equal-length sides, and for gap-free inputs it is an alignment at cost OptCost(x, y). The recursion terminates on len(x). |
| MemoryEfficient.AlignmentCost | memory-efficient.py:136-145 | `alignment_cost` returns the column-sum cost: 30 per column holding a gap, `mismatch_cost` otherwise. |
| Solvers.CompareSolvers | memory-efficient.py:188-193 | On A/C/G/T strings, the cost `align_basic` returns (basic.py:74) and `alignment_cost(*hirschberg(s, t))` are both OptCost(s, t). |
| Generator.Splice | Generator.py:3-6 | One pass of the loop body: the new string is twice as long as the old one. |
| Generator.SpliceDoubles | Generator.py:3-6 | One step doubles the length and every symbol count. An in-range index gives s[..i+1] + s + s[i+1..], and any other index gives s + s. |
| Generator.ExpandLength | Generator.py:1-7 | After k indices the length is len(s)·2^k. |
| Generator.ExpandCounts | Generator.py:3-6 | After k indices every symbol occurs 2^k times as often. |
| Generator.ExpandSymbols | Generator.py:3-6 | A symbol occurs in the output if and only if it occurs in the seed. |
| Generator.ExpandEmpty | Generator.py:3-6 | An empty seed stays empty whatever the indices. |
| Generator.ExampleDouble | Generator.py:3-6 | Seed "A" with indices [0] gives "AA", since 0 is not below len - 1. |
| Generator.ExampleSplice | Generator.py:3-4 | Seed "ACTG" with indices [1] gives "ACACTGTG". |
| Generator.GenerateString | Generator.py:1-7 | The loop computes the fold of the splice steps, and an empty index list returns s unchanged. The length law and the count law hold of its result. |

## Left out

- Command-line handling, file reading and writing, and printing are I/O. This covers every `main`, `read_strings_from_file` and Generator.py's input parsing.
- Running Generator.py as a subprocess (`run_generator`, `get_strings_from_generator`) is a foreign process call.
- Time and memory measurement (`tracemalloc`, `time`, `psutil`) give floats that depend on the environment. The output formatting of those floats is left out too.
- The O(n) memory bound cannot be stated on a value model. The model states only that the cost vector has length len(y)+1 and that `NextRow` allocates a single row per pass.
- Hirschberg: validity and optimality are promised only for gap-free inputs. Every other clause holds for all inputs. When '_' is already in x or y, deleting gaps does not give the input back. In addition, `mismatch_cost('_', '_')` is 0, while `alignment_cost` charges 30 for that column.
- NwAlignSmall: validity and optimality are promised only for gap-free inputs, for the same reason.
- AlignBasic: validity is promised when both inputs are non-empty or both are gap-free. Those are exactly the cases in which the source's output is an alignment. When one input is empty and the other holds '_', deleting gaps does not give that input back. The cost match holds for every result.
- AlignmentCost: the Python `assert len(ax) == len(ay)` is a precondition, so the failed-assertion path is not modelled.
- Python's integers are unbounded, and so are the model's. No width or overflow is modelled.
