/**
 * The solver-independent definitions both aligners are proved against:
 * the column-sum cost of an alignment, what makes a pair of strings an
 * alignment of two inputs, the optimal cost by the Needleman-Wunsch
 * recurrence on prefixes, and the traceback that tie-breaks diagonal,
 * then up, then left.
 */
module Alignment {
  import opened CostModel

  /** Python's three-way `min`. */
  function Min3(a: int, b: int, c: int): (r: int)
    ensures r <= a && r <= b && r <= c
    ensures r == a || r == b || r == c
  {
    if a <= b && a <= c then a else if b <= c then b else c
  }

  /** String without its last symbol. */
  function Init(s: string): string
    requires |s| > 0
  {
    s[..|s| - 1]
  }

  function Last(s: string): char
    requires |s| > 0
  {
    s[|s| - 1]
  }

  /** `Gap * n` */
  function Gaps(n: nat): (g: string)
    ensures |g| == n
  {
    seq(n, _ => Gap)
  }

  /** Python's `s[::-1]`. */
  function Reverse(s: string): (r: string)
    ensures |r| == |s|
  {
    seq(|s|, k requires 0 <= k < |s| => s[|s| - 1 - k])
  }

  /** The string holds no gap symbol. */
  predicate NoGap(s: string) {
    forall k :: 0 <= k < |s| ==> s[k] != Gap
  }

  /** The cost of one aligned column. */
  function ColumnCost(a: char, b: char): nat {
    if a == Gap || b == Gap then GapCost else MismatchCost(a, b)
  }

  /** The cost of an alignment: the sum of its column costs. */
  function Cost(ax: string, ay: string): nat
    requires |ax| == |ay|
    decreases |ax|
  {
    if |ax| == 0 then 0
    else Cost(Init(ax), Init(ay)) + ColumnCost(Last(ax), Last(ay))
  }

  /** The string with every gap symbol deleted. */
  function Strip(s: string): string
    decreases |s|
  {
    if |s| == 0 then []
    else Strip(Init(s)) + (if Last(s) == Gap then [] else [Last(s)])
  }

  /**
   * (ax, ay) aligns x with y: equal lengths, deleting the gaps gives back
   * the inputs, and no column is a gap against a gap.
   */
  predicate IsAlignment(x: string, y: string, ax: string, ay: string) {
    && |ax| == |ay|
    && Strip(ax) == x
    && Strip(ay) == y
    && forall k :: 0 <= k < |ax| ==> ax[k] != Gap || ay[k] != Gap
  }

  /**
   * Cell (i, j) of the (|x|+1) x (|y|+1) dynamic-programming table: the
   * Needleman-Wunsch recurrence on the prefixes x[..i] and y[..j].
   */
  function Table(x: string, y: string, i: nat, j: nat): nat
    requires i <= |x| && j <= |y|
  {
    TableRec(x, y, i, j)
  }

  /**
   * The recursion behind Table. Everything else is stated through Table,
   * which the verifier unfolds one step at a time.
   */
  function TableRec(x: string, y: string, i: nat, j: nat): nat
    requires i <= |x| && j <= |y|
    decreases i + j
  {
    if i == 0 then j * GapCost
    else if j == 0 then i * GapCost
    else Min3(TableRec(x, y, i - 1, j - 1) + MismatchCost(x[i - 1], y[j - 1]),
              TableRec(x, y, i - 1, j) + GapCost,
              TableRec(x, y, i, j - 1) + GapCost)
  }

  /** The optimal alignment cost: the last cell of the table. */
  function OptCost(x: string, y: string): nat {
    Table(x, y, |x|, |y|)
  }

  /** The move of a traceback step: 'D' diagonal, 'U' up, 'L' left. */
  datatype Move = Diag | Up | Left

  /**
   * The pointer of cell (i, j): the first of diagonal, up and left whose
   * predecessor cell accounts for the cell's cost.
   */
  function TableMove(x: string, y: string, i: nat, j: nat): (mv: Move)
    requires i <= |x| && j <= |y| && i + j > 0
    ensures mv == Diag ==> i > 0 && j > 0
    ensures mv == Up ==> i > 0
    ensures mv == Left ==> j > 0
  {
    if i == 0 then Left
    else if j == 0 then Up
    else if Table(x, y, i, j) == Table(x, y, i - 1, j - 1) + MismatchCost(x[i - 1], y[j - 1]) then Diag
    else if Table(x, y, i, j) == Table(x, y, i - 1, j) + GapCost then Up
    else Left
  }

  /** The alignment read off the pointers from cell (i, j) back to (0, 0), columns in order. */
  function TableTraceback(x: string, y: string, i: nat, j: nat): (string, string)
    requires i <= |x| && j <= |y|
  {
    TracebackRec(x, y, i, j)
  }

  /** The recursion behind TableTraceback, which is unfolded one step at a time like Table. */
  function TracebackRec(x: string, y: string, i: nat, j: nat): (string, string)
    requires i <= |x| && j <= |y|
    decreases i + j
  {
    if i + j == 0 then ([], [])
    else match TableMove(x, y, i, j)
      case Diag =>
        var t := TracebackRec(x, y, i - 1, j - 1);
        (t.0 + [x[i - 1]], t.1 + [y[j - 1]])
      case Up =>
        var t := TracebackRec(x, y, i - 1, j);
        (t.0 + [x[i - 1]], t.1 + [Gap])
      case Left =>
        var t := TracebackRec(x, y, i, j - 1);
        (t.0 + [Gap], t.1 + [y[j - 1]])
  }

  /** The alignment the traceback produces from the last cell. */
  function Traceback(x: string, y: string): (string, string) {
    TableTraceback(x, y, |x|, |y|)
  }

  /** The traceback's move at the last cell. */
  function Choice(x: string, y: string): (mv: Move)
    requires |x| + |y| > 0
    ensures mv == Diag ==> |x| > 0 && |y| > 0
    ensures mv == Up ==> |x| > 0
    ensures mv == Left ==> |y| > 0
  {
    TableMove(x, y, |x|, |y|)
  }

  // ---------------------------------------------------------------------
  // The table depends only on the prefixes it covers

  lemma {:induction false} TableAgree(x: string, y: string, x': string, y': string, i: nat, j: nat)
    requires i <= |x| && i <= |x'| && j <= |y| && j <= |y'|
    requires forall k :: 0 <= k < i ==> x[k] == x'[k]
    requires forall k :: 0 <= k < j ==> y[k] == y'[k]
    ensures Table(x, y, i, j) == Table(x', y', i, j)
    decreases i + j
  {
    if i > 0 && j > 0 {
      TableAgree(x, y, x', y', i - 1, j - 1);
      TableAgree(x, y, x', y', i - 1, j);
      TableAgree(x, y, x', y', i, j - 1);
      assert x[i - 1] == x'[i - 1] && y[j - 1] == y'[j - 1];
    }
  }

  lemma TableMoveAgree(x: string, y: string, x': string, y': string, i: nat, j: nat)
    requires i <= |x| && i <= |x'| && j <= |y| && j <= |y'| && i + j > 0
    requires forall k :: 0 <= k < i ==> x[k] == x'[k]
    requires forall k :: 0 <= k < j ==> y[k] == y'[k]
    ensures TableMove(x, y, i, j) == TableMove(x', y', i, j)
  {
    TableAgree(x, y, x', y', i, j);
    if i > 0 && j > 0 {
      TableAgree(x, y, x', y', i - 1, j - 1);
      TableAgree(x, y, x', y', i - 1, j);
    }
  }

  lemma {:induction false} TableTracebackAgree(x: string, y: string, x': string, y': string, i: nat, j: nat)
    requires i <= |x| && i <= |x'| && j <= |y| && j <= |y'|
    requires forall k :: 0 <= k < i ==> x[k] == x'[k]
    requires forall k :: 0 <= k < j ==> y[k] == y'[k]
    ensures TableTraceback(x, y, i, j) == TableTraceback(x', y', i, j)
    decreases i + j
  {
    if i + j > 0 {
      TableMoveAgree(x, y, x', y', i, j);
      match TableMove(x, y, i, j)
      case Diag =>
        TableTracebackAgree(x, y, x', y', i - 1, j - 1);
        assert x[i - 1] == x'[i - 1] && y[j - 1] == y'[j - 1];
      case Up =>
        TableTracebackAgree(x, y, x', y', i - 1, j);
        assert x[i - 1] == x'[i - 1];
      case Left =>
        TableTracebackAgree(x, y, x', y', i, j - 1);
        assert y[j - 1] == y'[j - 1];
    }
  }

  /** Cell (i, j) of the table of x and y is the optimal cost of their prefixes, and its traceback theirs. */
  lemma TableIsOptCost(x: string, y: string, i: nat, j: nat)
    requires i <= |x| && j <= |y|
    ensures Table(x, y, i, j) == OptCost(x[..i], y[..j])
    ensures TableTraceback(x, y, i, j) == Traceback(x[..i], y[..j])
    ensures i + j > 0 ==> TableMove(x, y, i, j) == Choice(x[..i], y[..j])
  {
    TableAgree(x, y, x[..i], y[..j], i, j);
    TableTracebackAgree(x, y, x[..i], y[..j], i, j);
    if i + j > 0 {
      TableMoveAgree(x, y, x[..i], y[..j], i, j);
    }
  }

  /** The cells next to the last one are the optimal costs of the shortened strings. */
  lemma PrefixCells(x: string, y: string)
    ensures |x| > 0 && |y| > 0 ==> Table(x, y, |x| - 1, |y| - 1) == OptCost(Init(x), Init(y))
    ensures |x| > 0 ==> Table(x, y, |x| - 1, |y|) == OptCost(Init(x), y)
    ensures |y| > 0 ==> Table(x, y, |x|, |y| - 1) == OptCost(x, Init(y))
  {
    assert y[..|y|] == y && x[..|x|] == x;
    if |x| > 0 {
      TableIsOptCost(x, y, |x| - 1, |y|);
    }
    if |y| > 0 {
      TableIsOptCost(x, y, |x|, |y| - 1);
    }
    if |x| > 0 && |y| > 0 {
      TableIsOptCost(x, y, |x| - 1, |y| - 1);
    }
  }

  /** OptCost satisfies the Needleman-Wunsch recurrence on string prefixes. */
  lemma OptCostRecurrence(x: string, y: string)
    ensures |x| == 0 ==> OptCost(x, y) == |y| * GapCost
    ensures |y| == 0 ==> OptCost(x, y) == |x| * GapCost
    ensures |x| > 0 && |y| > 0 ==>
      OptCost(x, y) == Min3(OptCost(Init(x), Init(y)) + MismatchCost(Last(x), Last(y)),
                            OptCost(Init(x), y) + GapCost,
                            OptCost(x, Init(y)) + GapCost)
  {
    PrefixCells(x, y);
  }

  /** The move at cell (i, j) says which predecessor cell accounts for its cost. */
  lemma MoveCost(x: string, y: string, i: nat, j: nat)
    requires i <= |x| && j <= |y| && i + j > 0
    ensures TableMove(x, y, i, j) == Diag <==>
      i > 0 && j > 0 && Table(x, y, i, j) == Table(x, y, i - 1, j - 1) + MismatchCost(x[i - 1], y[j - 1])
    ensures TableMove(x, y, i, j) == Up <==>
      i > 0 && TableMove(x, y, i, j) != Diag && (j == 0 || Table(x, y, i, j) == Table(x, y, i - 1, j) + GapCost)
    ensures TableMove(x, y, i, j) == Up ==> Table(x, y, i, j) == Table(x, y, i - 1, j) + GapCost
    ensures TableMove(x, y, i, j) == Left ==> Table(x, y, i, j) == Table(x, y, i, j - 1) + GapCost
  {
  }

  /** The move at the last cell says which predecessor accounts for OptCost. */
  lemma ChoiceCost(x: string, y: string)
    requires |x| + |y| > 0
    ensures Choice(x, y) == Diag ==>
      OptCost(x, y) == OptCost(Init(x), Init(y)) + MismatchCost(Last(x), Last(y))
    ensures Choice(x, y) == Up ==> OptCost(x, y) == OptCost(Init(x), y) + GapCost
    ensures Choice(x, y) == Left ==> OptCost(x, y) == OptCost(x, Init(y)) + GapCost
    ensures Choice(x, y) == Diag <==>
      |x| > 0 && |y| > 0 && OptCost(x, y) == OptCost(Init(x), Init(y)) + MismatchCost(Last(x), Last(y))
    ensures Choice(x, y) == Up <==>
      |x| > 0 && Choice(x, y) != Diag && (|y| == 0 || OptCost(x, y) == OptCost(Init(x), y) + GapCost)
  {
    MoveCost(x, y, |x|, |y|);
    PrefixCells(x, y);
  }

  /** Traceback follows the move at the last cell and recurses on string prefixes. */
  lemma TracebackRecurrence(x: string, y: string)
    ensures |x| + |y| == 0 ==> Traceback(x, y) == ([], [])
    ensures |x| + |y| > 0 && Choice(x, y) == Diag ==>
      Traceback(x, y) == (Traceback(Init(x), Init(y)).0 + [Last(x)], Traceback(Init(x), Init(y)).1 + [Last(y)])
    ensures |x| + |y| > 0 && Choice(x, y) == Up ==>
      Traceback(x, y) == (Traceback(Init(x), y).0 + [Last(x)], Traceback(Init(x), y).1 + [Gap])
    ensures |x| + |y| > 0 && Choice(x, y) == Left ==>
      Traceback(x, y) == (Traceback(x, Init(y)).0 + [Gap], Traceback(x, Init(y)).1 + [Last(y)])
  {
    if |x| + |y| > 0 {
      assert x[..|x|] == x && y[..|y|] == y;
      match Choice(x, y)
      case Diag => TableIsOptCost(x, y, |x| - 1, |y| - 1);
      case Up => TableIsOptCost(x, y, |x| - 1, |y|);
      case Left => TableIsOptCost(x, y, |x|, |y| - 1);
    }
  }

  /** Reversing a string with one symbol appended puts that symbol first. */
  lemma ReverseSnoc(s: string, c: char)
    ensures Reverse(s + [c]) == [c] + Reverse(s)
  {
  }

  /** Moving one symbol from the front of a reversed tail to the end of the head. */
  lemma ShiftReversed(head: string, c: char, rev: string)
    ensures (head + [c]) + Reverse(rev) == head + Reverse(rev + [c])
  {
    ReverseSnoc(rev, c);
    assert (head + [c]) + Reverse(rev) == head + ([c] + Reverse(rev));
  }

  /**
   * The loop state of a traceback from the last cell: the columns still to
   * come from cell (i, j) back, followed by the reversed columns collected
   * so far, make up the whole traceback.
   */
  predicate Collected(x: string, y: string, i: nat, j: nat, rx: string, ry: string)
    requires i <= |x| && j <= |y|
  {
    && Traceback(x, y).0 == TableTraceback(x, y, i, j).0 + Reverse(rx)
    && Traceback(x, y).1 == TableTraceback(x, y, i, j).1 + Reverse(ry)
  }

  /** A diagonal step of the traceback moves one column from the table's part to the collected part. */
  lemma TracebackDiagStep(x: string, y: string, i: nat, j: nat, rx: string, ry: string)
    requires 0 < i <= |x| && 0 < j <= |y| && TableMove(x, y, i, j) == Diag
    requires Collected(x, y, i, j, rx, ry)
    ensures Collected(x, y, i - 1, j - 1, rx + [x[i - 1]], ry + [y[j - 1]])
  {
    var t := TableTraceback(x, y, i - 1, j - 1);
    assert TableTraceback(x, y, i, j) == (t.0 + [x[i - 1]], t.1 + [y[j - 1]]);
    ShiftReversed(t.0, x[i - 1], rx);
    ShiftReversed(t.1, y[j - 1], ry);
  }

  /** An up step: x's symbol against a gap. */
  lemma TracebackUpStep(x: string, y: string, i: nat, j: nat, rx: string, ry: string)
    requires 0 < i <= |x| && j <= |y| && TableMove(x, y, i, j) == Up
    requires Collected(x, y, i, j, rx, ry)
    ensures Collected(x, y, i - 1, j, rx + [x[i - 1]], ry + [Gap])
  {
    var t := TableTraceback(x, y, i - 1, j);
    assert TableTraceback(x, y, i, j) == (t.0 + [x[i - 1]], t.1 + [Gap]);
    ShiftReversed(t.0, x[i - 1], rx);
    ShiftReversed(t.1, Gap, ry);
  }

  /** A left step: a gap against y's symbol. */
  lemma TracebackLeftStep(x: string, y: string, i: nat, j: nat, rx: string, ry: string)
    requires i <= |x| && 0 < j <= |y| && TableMove(x, y, i, j) == Left
    requires Collected(x, y, i, j, rx, ry)
    ensures Collected(x, y, i, j - 1, rx + [Gap], ry + [y[j - 1]])
  {
    var t := TableTraceback(x, y, i, j - 1);
    assert TableTraceback(x, y, i, j) == (t.0 + [Gap], t.1 + [y[j - 1]]);
    ShiftReversed(t.0, Gap, rx);
    ShiftReversed(t.1, y[j - 1], ry);
  }
}
