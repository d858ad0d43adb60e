/**
 * The quadratic-space solver of basic.py: fill the whole cost table with
 * the bare substitution lookup, then trace back from the last cell by
 * re-deriving each step from the table's values.
 */
module Basic {
  import opened CostModel
  import opened Alignment
  import opened AlignmentTheory

  /** What `align_basic` returns, or the KeyError its substitution lookup raises. */
  datatype Outcome = KeyError | Aligned(cost: int, alignedS: string, alignedT: string)

  /** Rows 0 to i - 1 of dp, and its column 0, agree with the table. */
  predicate RowsFilled(s: string, t: string, dp: array2<int>, i: nat)
    reads dp
    requires dp.Length0 == |s| + 1 && dp.Length1 == |t| + 1 && i <= |s| + 1
  {
    && (forall a, b {:trigger dp[a, b]} :: 0 <= a < i && 0 <= b <= |t| ==> dp[a, b] == Table(s, t, a, b))
    && (forall a {:trigger dp[a, 0]} :: 0 <= a <= |s| ==> dp[a, 0] == Table(s, t, a, 0))
  }

  /** The body of the inner fill loop of `align_basic`: cell (i, j) from its three predecessors. */
  method FillBasicCell(s: string, t: string, dp: array2<int>, i: nat, j: nat)
    modifies dp
    requires dp.Length0 == |s| + 1 && dp.Length1 == |t| + 1
    requires 1 <= i <= |s| && 1 <= j <= |t| && IsBase(s[i - 1]) && IsBase(t[j - 1])
    requires dp[i - 1, j - 1] == Table(s, t, i - 1, j - 1)
    requires dp[i - 1, j] == Table(s, t, i - 1, j)
    requires dp[i, j - 1] == Table(s, t, i, j - 1)
    ensures dp[i, j] == Table(s, t, i, j)
    ensures forall a, b {:trigger dp[a, b]} :: 0 <= a <= |s| && 0 <= b <= |t| && (a != i || b != j) ==>
      dp[a, b] == old(dp[a, b])
  {
    MismatchCostOnBases(s[i - 1], t[j - 1]);
    dp[i, j] := Min3(dp[i - 1, j - 1] + Mismatch(s[i - 1], t[j - 1]),
                     dp[i - 1, j] + GapCost,
                     dp[i, j - 1] + GapCost);
  }

  /**
   * One pass of the outer fill loop of `align_basic`: row i, which fails
   * at the first symbol pair outside the substitution table.
   */
  method FillBasicRow(s: string, t: string, dp: array2<int>, i: nat) returns (ok: bool)
    modifies dp
    requires dp.Length0 == |s| + 1 && dp.Length1 == |t| + 1
    requires 1 <= i <= |s| && RowsFilled(s, t, dp, i)
    ensures ok <==> |t| == 0 || (IsBase(s[i - 1]) && IsDna(t))
    ensures ok ==> RowsFilled(s, t, dp, i + 1)
  {
    var n := |t|;
    var si := s[i - 1];
    for j := 1 to n + 1
      invariant forall a, b {:trigger dp[a, b]} :: 0 <= a < i && 0 <= b <= n ==> dp[a, b] == Table(s, t, a, b)
      invariant forall b {:trigger dp[i, b]} :: 0 <= b < j ==> dp[i, b] == Table(s, t, i, b)
      invariant forall a {:trigger dp[a, 0]} :: 0 <= a <= |s| ==> dp[a, 0] == Table(s, t, a, 0)
      invariant j > 1 ==> IsBase(si)
      invariant forall b :: 0 <= b < j - 1 ==> IsBase(t[b])
    {
      var tj := t[j - 1];
      if !(IsBase(si) && IsBase(tj)) {
        return false;
      }
      FillBasicCell(s, t, dp, i, j);
    }
    return true;
  }

  /** The fill of `align_basic`, row by row; the lookup fails on a symbol outside the table. */
  method FillBasic(s: string, t: string, dp: array2<int>) returns (ok: bool)
    modifies dp
    requires dp.Length0 == |s| + 1 && dp.Length1 == |t| + 1
    requires RowsFilled(s, t, dp, 1)
    ensures ok <==> |s| == 0 || |t| == 0 || (IsDna(s) && IsDna(t))
    ensures ok ==> RowsFilled(s, t, dp, |s| + 1)
  {
    for i := 1 to |s| + 1
      invariant RowsFilled(s, t, dp, i)
      invariant |t| > 0 ==> forall a :: 0 <= a < i - 1 ==> IsBase(s[a])
      invariant |t| > 0 && i > 1 ==> IsDna(t)
    {
      ok := FillBasicRow(s, t, dp, i);
      if !ok {
        return false;
      }
    }
    return true;
  }

  /**
   * The test at the head of each backtracking step of `align_basic`: the
   * diagonal when it accounts for the cell, else a gap in t when that does,
   * else a gap in s; it is the pointer the table itself defines.
   */
  method BasicStep(s: string, t: string, dp: array2<int>, i: nat, j: nat) returns (mv: Move)
    requires dp.Length0 == |s| + 1 && dp.Length1 == |t| + 1
    requires RowsFilled(s, t, dp, |s| + 1)
    requires |s| > 0 && |t| > 0 ==> IsDna(s) && IsDna(t)
    requires i <= |s| && j <= |t| && i + j > 0
    ensures mv == TableMove(s, t, i, j)
  {
    assert dp[i, j] == Table(s, t, i, j);
    if i > 0 && j > 0 {
      MismatchCostOnBases(s[i - 1], t[j - 1]);
      assert dp[i - 1, j - 1] == Table(s, t, i - 1, j - 1);
      if dp[i, j] == dp[i - 1, j - 1] + Mismatch(s[i - 1], t[j - 1]) {
        return Diag;
      }
    }
    if i > 0 {
      assert dp[i - 1, j] == Table(s, t, i - 1, j);
      if dp[i, j] == dp[i - 1, j] + GapCost {
        return Up;
      }
    }
    return Left;
  }

  /**
   * The backtracking of `align_basic`: from the last cell, step by step
   * back to cell (0, 0), collecting one column per step; the collected
   * columns are then reversed.
   */
  method BasicTraceback(s: string, t: string, dp: array2<int>) returns (alignedS: string, alignedT: string)
    requires dp.Length0 == |s| + 1 && dp.Length1 == |t| + 1
    requires RowsFilled(s, t, dp, |s| + 1)
    requires |s| > 0 && |t| > 0 ==> IsDna(s) && IsDna(t)
    ensures (alignedS, alignedT) == Traceback(s, t)
  {
    var i, j := |s|, |t|;
    var sList: string, tList: string := [], [];
    while i > 0 || j > 0
      invariant 0 <= i <= |s| && 0 <= j <= |t|
      invariant Collected(s, t, i, j, sList, tList)
      decreases i + j
    {
      var mv := BasicStep(s, t, dp, i, j);
      match mv
      case Diag =>
        TracebackDiagStep(s, t, i, j, sList, tList);
        sList, tList := sList + [s[i - 1]], tList + [t[j - 1]];
        i, j := i - 1, j - 1;
      case Up =>
        TracebackUpStep(s, t, i, j, sList, tList);
        sList, tList := sList + [s[i - 1]], tList + [Gap];
        i := i - 1;
      case Left =>
        TracebackLeftStep(s, t, i, j, sList, tList);
        sList, tList := sList + [Gap], tList + [t[j - 1]];
        j := j - 1;
    }
    assert [] + Reverse(sList) == Reverse(sList) && [] + Reverse(tList) == Reverse(tList);
    alignedS, alignedT := Reverse(sList), Reverse(tList);
  }

  /**
   * `align_basic`: the optimal cost of s against t with a traceback that
   * prefers the diagonal, then a gap in t, then a gap in s.
   */
  method AlignBasic(s: string, t: string) returns (r: Outcome)
    ensures r == KeyError <==> |s| > 0 && |t| > 0 && !(IsDna(s) && IsDna(t))
    ensures r.Aligned? ==> r.cost == OptCost(s, t)
    ensures r.Aligned? ==> (r.alignedS, r.alignedT) == Traceback(s, t)
    ensures r.Aligned? ==> |r.alignedS| == |r.alignedT| && Cost(r.alignedS, r.alignedT) == r.cost
    ensures r.Aligned? && ((|s| > 0 && |t| > 0) || (NoGap(s) && NoGap(t))) ==>
      IsAlignment(s, t, r.alignedS, r.alignedT)
  {
    var m, n := |s|, |t|;
    var dp := new int[m + 1, n + 1]((_, _) => 0);
    for i := 1 to m + 1
      invariant forall a {:trigger dp[a, 0]} :: 0 <= a < i ==> dp[a, 0] == Table(s, t, a, 0)
    {
      dp[i, 0] := i * GapCost;
    }
    for j := 1 to n + 1
      invariant forall a {:trigger dp[a, 0]} :: 0 <= a <= m ==> dp[a, 0] == Table(s, t, a, 0)
      invariant forall b {:trigger dp[0, b]} :: 0 <= b < j ==> dp[0, b] == Table(s, t, 0, b)
    {
      dp[0, j] := j * GapCost;
    }
    assert RowsFilled(s, t, dp, 1);
    var ok := FillBasic(s, t, dp);
    if !ok {
      return KeyError;
    }
    var alignedS, alignedT := BasicTraceback(s, t, dp);
    assert dp[|s|, |t|] == Table(s, t, |s|, |t|);
    r := Aligned(dp[m, n], alignedS, alignedT);
    if m > 0 && n > 0 {
      DnaNoGap(s);
      DnaNoGap(t);
    }
    TracebackOptimal(s, t);
    TracebackEdges(s, t);
  }
}
