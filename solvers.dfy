/**
 * The two programs against each other: on strings over the table's
 * alphabet, the cost basic.py reports and the cost memory-efficient.py
 * recomputes from Hirschberg's alignment are the same optimal cost.
 */
module Solvers {
  import opened CostModel
  import opened Alignment
  import opened AlignmentTheory
  import Basic
  import MemoryEfficient

  /**
   * `align_basic(s, t)` and `alignment_cost(*hirschberg(s, t))` agree,
   * and both alignments are optimal alignments of s with t.
   */
  method CompareSolvers(s: string, t: string) returns (basicCost: int, efficientCost: int)
    requires IsDna(s) && IsDna(t)
    ensures basicCost == OptCost(s, t) && efficientCost == OptCost(s, t)
  {
    DnaNoGap(s);
    DnaNoGap(t);
    var r := Basic.AlignBasic(s, t);
    basicCost := r.cost;
    var ax, ay := MemoryEfficient.Hirschberg(s, t);
    efficientCost := MemoryEfficient.AlignmentCost(ax, ay);
  }
}
