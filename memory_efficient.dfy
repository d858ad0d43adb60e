/**
 * The linear-space solver of memory-efficient.py: the rolling-row cost
 * vector, the full-table base-case aligner with its pointer table,
 * Hirschberg's divide-and-conquer recursion and the alignment cost checker.
 */
module MemoryEfficient {
  import opened CostModel
  import opened Alignment
  import opened AlignmentTheory

  datatype Option<T> = None | Some(value: T)

  /** One pass of the outer loop of `_nw_cost_vector`: row i of the table from row i - 1. */
  method NextRow(x: string, y: string, i: nat, prev: array<int>) returns (curr: array<int>)
    requires 1 <= i <= |x| && prev.Length == |y| + 1
    requires forall k {:trigger prev[k]} :: 0 <= k <= |y| ==> prev[k] == Table(x, y, i - 1, k)
    ensures fresh(curr) && curr.Length == |y| + 1
    ensures forall k {:trigger curr[k]} :: 0 <= k <= |y| ==> curr[k] == Table(x, y, i, k)
  {
    var n := |y|;
    curr := new int[n + 1](_ => 0);
    curr[0] := i * GapCost;
    for j := 1 to n + 1
      modifies curr
      invariant forall k {:trigger curr[k]} :: 0 <= k < j ==> curr[k] == Table(x, y, i, k)
    {
      var costMatch := prev[j - 1] + MismatchCost(x[i - 1], y[j - 1]);
      var costGapX := prev[j] + GapCost;
      var costGapY := curr[j - 1] + GapCost;
      assert costMatch == Table(x, y, i - 1, j - 1) + MismatchCost(x[i - 1], y[j - 1]);
      assert costGapX == Table(x, y, i - 1, j) + GapCost;
      assert costGapY == Table(x, y, i, j - 1) + GapCost;
      curr[j] := Min3(costMatch, costGapX, costGapY);
    }
  }

  /**
   * `_nw_cost_vector`: the last row of the table of x against y, computed
   * with two rows: entry j is the optimal cost of x against y[..j].
   */
  method NwCostVector(x: string, y: string) returns (v: seq<int>)
    ensures |v| == |y| + 1
    ensures forall j :: 0 <= j <= |y| ==> v[j] == OptCost(x, y[..j])
    ensures v[0] == |x| * GapCost
    ensures |x| == 0 ==> forall j :: 0 <= j <= |y| ==> v[j] == j * GapCost
  {
    var n := |y|;
    var prev := new int[n + 1](j => j);
    for j := 0 to n + 1
      invariant forall k :: 0 <= k < j ==> prev[k] == k * GapCost
    {
      prev[j] := j * GapCost;
    }
    for i := 1 to |x| + 1
      invariant prev.Length == n + 1
      invariant forall k {:trigger prev[k]} :: 0 <= k <= n ==> prev[k] == Table(x, y, i - 1, k)
    {
      prev := NextRow(x, y, i, prev);
    }
    v := prev[..];
    assert x[..|x|] == x;
    forall j | 0 <= j <= |y|
      ensures v[j] == OptCost(x, y[..j])
    {
      TableIsOptCost(x, y, |x|, j);
    }
  }

  /** Both tables agree with the specification on rows 0 to i - 1, and on column 0 of every row. */
  predicate Filled(x: string, y: string, dp: array2<int>, ptr: array2<Option<Move>>, i: nat)
    reads dp, ptr
    requires dp.Length0 == |x| + 1 && dp.Length1 == |y| + 1
    requires ptr.Length0 == |x| + 1 && ptr.Length1 == |y| + 1
    requires i <= |x| + 1
  {
    && (forall a, b {:trigger dp[a, b]} :: 0 <= a < i && 0 <= b <= |y| ==> dp[a, b] == Table(x, y, a, b))
    && (forall a, b {:trigger ptr[a, b]} :: 0 <= a < i && 0 <= b <= |y| && a + b > 0 ==>
          ptr[a, b] == Some(TableMove(x, y, a, b)))
    && (forall a {:trigger dp[a, 0]} :: 0 <= a <= |x| ==> dp[a, 0] == Table(x, y, a, 0))
    && (forall a {:trigger ptr[a, 0]} :: 0 < a <= |x| ==> ptr[a, 0] == Some(TableMove(x, y, a, 0)))
  }

  /** The body of the inner fill loop of `_nw_align_small`: cell (i, j) of both tables. */
  method FillCell(x: string, y: string, dp: array2<int>, ptr: array2<Option<Move>>, i: nat, j: nat)
    modifies dp, ptr
    requires dp.Length0 == |x| + 1 && dp.Length1 == |y| + 1
    requires ptr.Length0 == |x| + 1 && ptr.Length1 == |y| + 1
    requires 1 <= i <= |x| && 1 <= j <= |y|
    requires dp[i - 1, j - 1] == Table(x, y, i - 1, j - 1)
    requires dp[i - 1, j] == Table(x, y, i - 1, j)
    requires dp[i, j - 1] == Table(x, y, i, j - 1)
    ensures dp[i, j] == Table(x, y, i, j) && ptr[i, j] == Some(TableMove(x, y, i, j))
    ensures forall a, b {:trigger dp[a, b]} :: 0 <= a <= |x| && 0 <= b <= |y| && (a != i || b != j) ==>
      dp[a, b] == old(dp[a, b])
    ensures forall a, b {:trigger ptr[a, b]} :: 0 <= a <= |x| && 0 <= b <= |y| && (a != i || b != j) ==>
      ptr[a, b] == old(ptr[a, b])
  {
    var diag := dp[i - 1, j - 1] + MismatchCost(x[i - 1], y[j - 1]);
    var up := dp[i - 1, j] + GapCost;
    var left := dp[i, j - 1] + GapCost;
    var best := Min3(diag, up, left);
    dp[i, j] := best;
    if best == diag {
      ptr[i, j] := Some(Diag);
    } else if best == up {
      ptr[i, j] := Some(Up);
    } else {
      ptr[i, j] := Some(Left);
    }
  }

  /**
   * One pass of the outer fill loop of `_nw_align_small`: row i of both
   * tables, taking diagonal, then up, then left when they tie.
   */
  method FillRow(x: string, y: string, dp: array2<int>, ptr: array2<Option<Move>>, i: nat)
    modifies dp, ptr
    requires dp.Length0 == |x| + 1 && dp.Length1 == |y| + 1
    requires ptr.Length0 == |x| + 1 && ptr.Length1 == |y| + 1
    requires 1 <= i <= |x| && Filled(x, y, dp, ptr, i)
    ensures Filled(x, y, dp, ptr, i + 1)
  {
    var n := |y|;
    for j := 1 to n + 1
      invariant forall a, b {:trigger dp[a, b]} :: 0 <= a < i && 0 <= b <= n ==> dp[a, b] == Table(x, y, a, b)
      invariant forall a, b {:trigger ptr[a, b]} :: 0 <= a < i && 0 <= b <= n && a + b > 0 ==>
        ptr[a, b] == Some(TableMove(x, y, a, b))
      invariant forall b {:trigger dp[i, b]} :: 0 <= b < j ==> dp[i, b] == Table(x, y, i, b)
      invariant forall b {:trigger ptr[i, b]} :: 0 <= b < j ==> ptr[i, b] == Some(TableMove(x, y, i, b))
      invariant forall a {:trigger dp[a, 0]} :: 0 <= a <= |x| ==> dp[a, 0] == Table(x, y, a, 0)
      invariant forall a {:trigger ptr[a, 0]} :: 0 < a <= |x| ==> ptr[a, 0] == Some(TableMove(x, y, a, 0))
    {
      FillCell(x, y, dp, ptr, i, j);
    }
  }

  /**
   * The table-filling half of `_nw_align_small`: the cost table dp and the
   * pointer table ptr, borders first, then row by row.
   */
  method FillTables(x: string, y: string) returns (dp: array2<int>, ptr: array2<Option<Move>>)
    ensures fresh(dp) && fresh(ptr)
    ensures dp.Length0 == |x| + 1 && dp.Length1 == |y| + 1
    ensures ptr.Length0 == |x| + 1 && ptr.Length1 == |y| + 1
    ensures Filled(x, y, dp, ptr, |x| + 1)
  {
    var m, n := |x|, |y|;
    dp := new int[m + 1, n + 1]((_, _) => 0);
    ptr := new Option<Move>[m + 1, n + 1]((_, _) => None);
    for i := 0 to m + 1
      invariant forall a {:trigger dp[a, 0]} :: 0 <= a < i ==> dp[a, 0] == Table(x, y, a, 0)
      invariant forall a {:trigger ptr[a, 0]} :: 0 < a < i ==> ptr[a, 0] == Some(TableMove(x, y, a, 0))
    {
      dp[i, 0] := i * GapCost;
      if i > 0 {
        ptr[i, 0] := Some(Up);
      }
    }
    for j := 0 to n + 1
      invariant forall a {:trigger dp[a, 0]} :: 0 <= a <= m ==> dp[a, 0] == Table(x, y, a, 0)
      invariant forall a {:trigger ptr[a, 0]} :: 0 < a <= m ==> ptr[a, 0] == Some(TableMove(x, y, a, 0))
      invariant forall b {:trigger dp[0, b]} :: 0 <= b < j ==> dp[0, b] == Table(x, y, 0, b)
      invariant forall b {:trigger ptr[0, b]} :: 0 < b < j ==> ptr[0, b] == Some(TableMove(x, y, 0, b))
    {
      dp[0, j] := j * GapCost;
      if j > 0 {
        ptr[0, j] := Some(Left);
      }
    }
    for i := 1 to m + 1
      invariant Filled(x, y, dp, ptr, i)
    {
      FillRow(x, y, dp, ptr, i);
    }
  }

  /**
   * The traceback half of `_nw_align_small`: from the last cell, follow the
   * pointers to (0, 0), collecting the columns last to first, then reverse.
   */
  method FollowPointers(x: string, y: string, ptr: array2<Option<Move>>) returns (ax: string, ay: string)
    requires ptr.Length0 == |x| + 1 && ptr.Length1 == |y| + 1
    requires forall a, b {:trigger ptr[a, b]} :: 0 <= a <= |x| && 0 <= b <= |y| && a + b > 0 ==>
      ptr[a, b] == Some(TableMove(x, y, a, b))
    ensures (ax, ay) == Traceback(x, y)
  {
    var i, j := |x|, |y|;
    var rx: string, ry: string := [], [];
    while i > 0 || j > 0
      invariant 0 <= i <= |x| && 0 <= j <= |y|
      invariant Collected(x, y, i, j, rx, ry)
      decreases i + j
    {
      assert ptr[i, j] == Some(TableMove(x, y, i, j));
      if i > 0 && j > 0 && ptr[i, j] == Some(Diag) {
        TracebackDiagStep(x, y, i, j, rx, ry);
        rx, ry := rx + [x[i - 1]], ry + [y[j - 1]];
        i, j := i - 1, j - 1;
      } else if i > 0 && ptr[i, j] == Some(Up) {
        TracebackUpStep(x, y, i, j, rx, ry);
        rx, ry := rx + [x[i - 1]], ry + [Gap];
        i := i - 1;
      } else {
        TracebackLeftStep(x, y, i, j, rx, ry);
        rx, ry := rx + [Gap], ry + [y[j - 1]];
        j := j - 1;
      }
    }
    assert [] + Reverse(rx) == Reverse(rx) && [] + Reverse(ry) == Reverse(ry);
    ax, ay := Reverse(rx), Reverse(ry);
  }

  /**
   * `_nw_align_small`: fills the full cost table and a pointer table
   * choosing diagonal, then up, then left, and follows the pointers back
   * from the last cell; the result is the specification's Traceback.
   */
  method NwAlignSmall(x: string, y: string) returns (ax: string, ay: string)
    ensures (ax, ay) == Traceback(x, y)
    ensures |ax| == |ay|
    ensures NoGap(x) && NoGap(y) ==> IsAlignment(x, y, ax, ay) && Cost(ax, ay) == OptCost(x, y)
  {
    var dp, ptr := FillTables(x, y);
    ax, ay := FollowPointers(x, y, ptr);
    TracebackOptimal(x, y);
  }

  /** The cost of splitting y after column p: forward entry p plus backward entry n - p. */
  function SplitCost(fwd: seq<int>, bwd: seq<int>, p: nat): int
    requires |fwd| == |bwd| && p < |fwd|
  {
    fwd[p] + bwd[|bwd| - 1 - p]
  }

  /**
   * The split-point scan of `hirschberg`: the first q minimising
   * fwd[q] + bwd[n - q], with `min_cost` starting out undefined.
   */
  method SplitPoint(fwd: seq<int>, bwd: seq<int>) returns (split: nat)
    requires |fwd| == |bwd| && |fwd| > 0
    ensures split < |fwd|
    ensures forall p :: 0 <= p < |fwd| ==> SplitCost(fwd, bwd, split) <= SplitCost(fwd, bwd, p)
    ensures forall p :: 0 <= p < split ==> SplitCost(fwd, bwd, split) < SplitCost(fwd, bwd, p)
  {
    var n := |fwd| - 1;
    var minCost: Option<int> := None;
    split := 0;
    for q := 0 to n + 1
      invariant split <= n && (q == 0 <==> minCost == None)
      invariant q > 0 ==> split < q && minCost == Some(SplitCost(fwd, bwd, split))
      invariant forall p :: 0 <= p < q ==> SplitCost(fwd, bwd, split) <= SplitCost(fwd, bwd, p)
      invariant forall p :: 0 <= p < split ==> SplitCost(fwd, bwd, split) < SplitCost(fwd, bwd, p)
    {
      var cost := fwd[q] + bwd[n - q];
      if minCost == None || cost < minCost.value {
        minCost := Some(cost);
        split := q;
      }
    }
  }

  /**
   * `hirschberg`: empty sides are filled with gaps, a side of length one
   * goes to the full-table aligner, otherwise x is cut at its middle row,
   * y at the split point found from the forward and backward cost
   * vectors, and the two halves are aligned recursively.
   */
  method Hirschberg(x: string, y: string) returns (ax: string, ay: string)
    ensures |ax| == |ay|
    ensures |x| == 0 ==> ax == Gaps(|y|) && ay == y
    ensures |x| > 0 && |y| == 0 ==> ax == x && ay == Gaps(|x|)
    ensures |x| > 0 && |y| > 0 && (|x| == 1 || |y| == 1) ==> (ax, ay) == Traceback(x, y)
    ensures NoGap(x) && NoGap(y) ==> IsAlignment(x, y, ax, ay) && Cost(ax, ay) == OptCost(x, y)
    decreases |x|
  {
    var m, n := |x|, |y|;
    if m == 0 {
      ax, ay := Gaps(n), y;
      if NoGap(y) {
        GapsAlignLeft(y);
      }
      return;
    }
    if n == 0 {
      ax, ay := x, Gaps(m);
      if NoGap(x) {
        GapsAlignRight(x);
      }
      return;
    }
    if m == 1 || n == 1 {
      ax, ay := NwAlignSmall(x, y);
      return;
    }

    var mid := m / 2;
    var fwd := NwCostVector(x[..mid], y);
    var bwd := NwCostVector(Reverse(x[mid..]), Reverse(y));
    var q := SplitPoint(fwd, bwd);
    var leftX, leftY := Hirschberg(x[..mid], y[..q]);
    var rightX, rightY := Hirschberg(x[mid..], y[q..]);
    ax, ay := leftX + rightX, leftY + rightY;
    JoinHalves(x, y, mid, fwd, bwd, q, leftX, leftY, rightX, rightY);
  }

  /** The two recursive alignments of `hirschberg`, side by side, are an optimal alignment of x with y. */
  lemma JoinHalves(x: string, y: string, mid: nat, fwd: seq<int>, bwd: seq<int>, q: nat,
                   leftX: string, leftY: string, rightX: string, rightY: string)
    requires mid <= |x| && |fwd| == |y| + 1 && |bwd| == |y| + 1 && q <= |y|
    requires forall j :: 0 <= j <= |y| ==> fwd[j] == OptCost(x[..mid], y[..j])
    requires forall j :: 0 <= j <= |y| ==> bwd[j] == OptCost(Reverse(x[mid..]), Reverse(y)[..j])
    requires forall p :: 0 <= p < |fwd| ==> SplitCost(fwd, bwd, q) <= SplitCost(fwd, bwd, p)
    requires NoGap(x[..mid]) && NoGap(y[..q]) ==>
      IsAlignment(x[..mid], y[..q], leftX, leftY) && Cost(leftX, leftY) == OptCost(x[..mid], y[..q])
    requires NoGap(x[mid..]) && NoGap(y[q..]) ==>
      IsAlignment(x[mid..], y[q..], rightX, rightY) && Cost(rightX, rightY) == OptCost(x[mid..], y[q..])
    ensures NoGap(x) && NoGap(y) ==>
      IsAlignment(x, y, leftX + rightX, leftY + rightY) && Cost(leftX + rightX, leftY + rightY) == OptCost(x, y)
  {
    if NoGap(x) && NoGap(y) {
      NoGapSlice(x, mid);
      NoGapSlice(y, q);
      AlignmentJoin(x, y, mid, q, leftX, leftY, rightX, rightY);
      SplitMinimum(x, y, mid, fwd, bwd, q);
    }
  }

  /**
   * Hirschberg's argument: when fwd and bwd are the forward and backward
   * cost vectors for the cut at row mid, the minimum the scan finds,
   * fwd[q] + bwd[n - q], is the optimal cost, and it is the sum of the
   * optimal costs of the two halves.
   */
  lemma SplitMinimum(x: string, y: string, mid: nat, fwd: seq<int>, bwd: seq<int>, q: nat)
    requires NoGap(x) && NoGap(y) && mid <= |x|
    requires |fwd| == |y| + 1 && |bwd| == |y| + 1 && q <= |y|
    requires forall j :: 0 <= j <= |y| ==> fwd[j] == OptCost(x[..mid], y[..j])
    requires forall j :: 0 <= j <= |y| ==> bwd[j] == OptCost(Reverse(x[mid..]), Reverse(y)[..j])
    requires forall p :: 0 <= p < |fwd| ==> SplitCost(fwd, bwd, q) <= SplitCost(fwd, bwd, p)
    ensures OptCost(x, y) == OptCost(x[..mid], y[..q]) + OptCost(x[mid..], y[q..])
    ensures SplitCost(fwd, bwd, q) == OptCost(x, y)
  {
    NoGapSlice(x, mid);
    var best := SplitAttained(x, y, mid);
    forall p | 0 <= p <= |y|
      ensures SplitCost(fwd, bwd, p) == OptCost(x[..mid], y[..p]) + OptCost(x[mid..], y[p..])
    {
      ReverseSuffix(y, p);
      NoGapSlice(y, p);
      OptCostReverse(x[mid..], y[p..]);
    }
    assert SplitCost(fwd, bwd, q) <= SplitCost(fwd, bwd, best);
    SplitUpperBound(x, y, mid, q);
  }

  /**
   * `alignment_cost`: the sum over the columns of the gap penalty when
   * either side is a gap and the substitution cost otherwise.
   */
  method AlignmentCost(ax: string, ay: string) returns (total: int)
    requires |ax| == |ay|
    ensures total == Cost(ax, ay)
  {
    total := 0;
    for k := 0 to |ax|
      invariant total == Cost(ax[..k], ay[..k])
    {
      var a, b := ax[k], ay[k];
      if a == Gap || b == Gap {
        total := total + GapCost;
      } else {
        total := total + MismatchCost(a, b);
      }
      CostSnoc(ax[..k], ay[..k], a, b);
      assert ax[..k + 1] == ax[..k] + [a] && ay[..k + 1] == ay[..k] + [b];
    }
    assert ax[..|ax|] == ax && ay[..|ay|] == ay;
  }
}
