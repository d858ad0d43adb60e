/**
 * What the definitions in module Alignment promise: OptCost is the least
 * cost of any alignment and Traceback attains it; alignments concatenate,
 * split and reverse; hence OptCost is invariant under reversing both
 * strings and splits additively at any row (Hirschberg's theorem).
 */
module AlignmentTheory {
  import opened CostModel
  import opened Alignment

  // ---------------------------------------------------------------------
  // Gap stripping

  lemma StripSnoc(s: string, c: char)
    ensures Strip(s + [c]) == Strip(s) + (if c == Gap then [] else [c])
  {
    assert Init(s + [c]) == s;
  }

  lemma {:induction false} StripConcat(a: string, b: string)
    ensures Strip(a + b) == Strip(a) + Strip(b)
    decreases |b|
  {
    if |b| == 0 {
      assert a + b == a;
    } else {
      assert a + b == (a + Init(b)) + [Last(b)];
      assert b == Init(b) + [Last(b)];
      StripSnoc(a + Init(b), Last(b));
      StripSnoc(Init(b), Last(b));
      StripConcat(a, Init(b));
    }
  }

  /** Stripping removes every gap and keeps a gap-free string as it is. */
  lemma {:induction false} StripNoGap(s: string)
    ensures NoGap(Strip(s)) && |Strip(s)| <= |s|
    ensures NoGap(s) ==> Strip(s) == s
    decreases |s|
  {
    if |s| > 0 {
      StripNoGap(Init(s));
      if NoGap(s) {
        assert NoGap(Init(s));
        assert s == Init(s) + [Last(s)];
      }
    }
  }

  /** A string over the table's alphabet holds no gap. */
  lemma DnaNoGap(s: string)
    requires IsDna(s)
    ensures NoGap(s)
  {
    assert forall k :: 0 <= k < |s| ==> IsBase(s[k]);
  }

  lemma NoGapSlice(s: string, i: nat)
    requires NoGap(s) && i <= |s|
    ensures NoGap(s[..i]) && NoGap(s[i..])
  {
    assert forall k :: 0 <= k < |s| - i ==> s[i..][k] == s[i + k];
  }

  // ---------------------------------------------------------------------
  // Column-sum cost

  lemma CostSnoc(ax: string, ay: string, a: char, b: char)
    requires |ax| == |ay|
    ensures Cost(ax + [a], ay + [b]) == Cost(ax, ay) + ColumnCost(a, b)
  {
    assert Init(ax + [a]) == ax && Init(ay + [b]) == ay;
  }

  /** The cost of an alignment is additive over concatenation. */
  lemma {:induction false} CostConcat(a1: string, b1: string, a2: string, b2: string)
    requires |a1| == |b1| && |a2| == |b2|
    ensures Cost(a1 + a2, b1 + b2) == Cost(a1, b1) + Cost(a2, b2)
    decreases |a2|
  {
    if |a2| == 0 {
      assert a1 + a2 == a1 && b1 + b2 == b1;
    } else {
      assert a1 + a2 == (a1 + Init(a2)) + [Last(a2)];
      assert b1 + b2 == (b1 + Init(b2)) + [Last(b2)];
      CostSnoc(a1 + Init(a2), b1 + Init(b2), Last(a2), Last(b2));
      CostConcat(a1, b1, Init(a2), Init(b2));
    }
  }

  // ---------------------------------------------------------------------
  // Alignments: concatenation, splitting, all-gap sides

  /** Two alignments side by side align the concatenated inputs. */
  lemma AlignmentConcat(x1: string, y1: string, a1: string, b1: string,
                        x2: string, y2: string, a2: string, b2: string)
    requires IsAlignment(x1, y1, a1, b1) && IsAlignment(x2, y2, a2, b2)
    ensures IsAlignment(x1 + x2, y1 + y2, a1 + a2, b1 + b2)
    ensures Cost(a1 + a2, b1 + b2) == Cost(a1, b1) + Cost(a2, b2)
  {
    StripConcat(a1, a2);
    StripConcat(b1, b2);
    CostConcat(a1, b1, a2, b2);
    forall k | 0 <= k < |a1 + a2|
      ensures (a1 + a2)[k] != Gap || (b1 + b2)[k] != Gap
    {
      if k >= |a1| {
        assert (a1 + a2)[k] == a2[k - |a1|] && (b1 + b2)[k] == b2[k - |b1|];
      }
    }
  }

  /** Alignments of the two halves of a cut of x and of y, side by side, align x with y. */
  lemma AlignmentJoin(x: string, y: string, i: nat, j: nat, a1: string, b1: string, a2: string, b2: string)
    requires i <= |x| && j <= |y|
    requires IsAlignment(x[..i], y[..j], a1, b1) && IsAlignment(x[i..], y[j..], a2, b2)
    ensures IsAlignment(x, y, a1 + a2, b1 + b2)
    ensures Cost(a1 + a2, b1 + b2) == Cost(a1, b1) + Cost(a2, b2)
  {
    AlignmentConcat(x[..i], y[..j], a1, b1, x[i..], y[j..], a2, b2);
    assert x[..i] + x[i..] == x && y[..j] + y[j..] == y;
  }

  /** Cutting a gapped string after position k cuts its stripped string after the symbols seen so far. */
  lemma StripSplit(x: string, s: string, k: nat)
    requires Strip(s) == x && k <= |s|
    ensures |Strip(s[..k])| <= |x|
    ensures x[..|Strip(s[..k])|] == Strip(s[..k]) && x[|Strip(s[..k])|..] == Strip(s[k..])
  {
    assert s == s[..k] + s[k..];
    StripConcat(s[..k], s[k..]);
  }

  /** The columns before k of an alignment are an alignment of the prefixes they strip to. */
  lemma AlignmentPrefix(x: string, y: string, ax: string, ay: string, k: nat)
    requires IsAlignment(x, y, ax, ay) && k <= |ax|
    ensures |Strip(ax[..k])| <= |x| && |Strip(ay[..k])| <= |y|
    ensures IsAlignment(x[..|Strip(ax[..k])|], y[..|Strip(ay[..k])|], ax[..k], ay[..k])
  {
    StripSplit(x, ax, k);
    StripSplit(y, ay, k);
  }

  /** The columns from k on of an alignment are an alignment of the suffixes that remain. */
  lemma AlignmentSuffix(x: string, y: string, ax: string, ay: string, k: nat)
    requires IsAlignment(x, y, ax, ay) && k <= |ax|
    ensures |Strip(ax[..k])| <= |x| && |Strip(ay[..k])| <= |y|
    ensures IsAlignment(x[|Strip(ax[..k])|..], y[|Strip(ay[..k])|..], ax[k..], ay[k..])
  {
    StripSplit(x, ax, k);
    StripSplit(y, ay, k);
    assert forall c :: 0 <= c < |ax| - k ==> ax[k..][c] == ax[k + c] && ay[k..][c] == ay[k + c];
  }

  /** The cost of an alignment is the cost of its columns before k plus that of the rest. */
  lemma CostSplit(ax: string, ay: string, k: nat)
    requires |ax| == |ay| && k <= |ax|
    ensures Cost(ax, ay) == Cost(ax[..k], ay[..k]) + Cost(ax[k..], ay[k..])
  {
    assert ax == ax[..k] + ax[k..] && ay == ay[..k] + ay[k..];
    CostConcat(ax[..k], ay[..k], ax[k..], ay[k..]);
  }

  /**
   * Cutting an alignment after column k gives an alignment of a prefix of
   * x with a prefix of y, and one of the remaining suffixes.
   */
  lemma AlignmentSplit(x: string, y: string, ax: string, ay: string, k: nat)
    requires IsAlignment(x, y, ax, ay) && k <= |ax|
    ensures |Strip(ax[..k])| <= |x| && |Strip(ay[..k])| <= |y|
    ensures var i, j := |Strip(ax[..k])|, |Strip(ay[..k])|;
      && IsAlignment(x[..i], y[..j], ax[..k], ay[..k])
      && IsAlignment(x[i..], y[j..], ax[k..], ay[k..])
      && Cost(ax, ay) == Cost(ax[..k], ay[..k]) + Cost(ax[k..], ay[k..])
  {
    AlignmentPrefix(x, y, ax, ay, k);
    AlignmentSuffix(x, y, ax, ay, k);
    CostSplit(ax, ay, k);
  }

  /** Some prefix of s holds exactly t non-gap symbols, for every t up to their number. */
  lemma {:induction false} StripPrefixReaching(s: string, t: nat) returns (k: nat)
    requires t <= |Strip(s)|
    ensures k <= |s| && |Strip(s[..k])| == t
    decreases |s|
  {
    if t == |Strip(s)| {
      assert s[..|s|] == s;
      k := |s|;
    } else {
      assert |Strip(Init(s))| + 1 >= |Strip(s)|;
      k := StripPrefixReaching(Init(s), t);
      assert Init(s)[..k] == s[..k];
    }
  }

  lemma {:induction false} GapsStrip(n: nat)
    ensures Strip(Gaps(n)) == []
    decreases n
  {
    if n > 0 {
      assert Init(Gaps(n)) == Gaps(n - 1);
      GapsStrip(n - 1);
    }
  }

  lemma {:induction false} GapsCostLeft(y: string)
    ensures Cost(Gaps(|y|), y) == |y| * GapCost
    decreases |y|
  {
    if |y| > 0 {
      assert Init(Gaps(|y|)) == Gaps(|y| - 1);
      GapsCostLeft(Init(y));
    }
  }

  lemma {:induction false} GapsCostRight(x: string)
    ensures Cost(x, Gaps(|x|)) == |x| * GapCost
    decreases |x|
  {
    if |x| > 0 {
      assert Init(Gaps(|x|)) == Gaps(|x| - 1);
      GapsCostRight(Init(x));
    }
  }

  /** Y against all gaps is an optimal alignment of the empty string with y. */
  lemma GapsAlignLeft(y: string)
    requires NoGap(y)
    ensures IsAlignment([], y, Gaps(|y|), y) && Cost(Gaps(|y|), y) == OptCost([], y)
  {
    GapsStrip(|y|);
    StripNoGap(y);
    GapsCostLeft(y);
  }

  /** X against all gaps is an optimal alignment of x with the empty string. */
  lemma GapsAlignRight(x: string)
    requires NoGap(x)
    ensures IsAlignment(x, [], x, Gaps(|x|)) && Cost(x, Gaps(|x|)) == OptCost(x, [])
  {
    GapsStrip(|x|);
    StripNoGap(x);
    GapsCostRight(x);
  }

  /** Against an empty x the traceback is all gaps on x's side. */
  lemma {:induction false} TracebackEmptyLeft(x: string, y: string)
    requires |x| == 0
    ensures Traceback(x, y) == (Gaps(|y|), y)
    decreases |y|
  {
    TracebackRecurrence(x, y);
    if |y| > 0 {
      TracebackEmptyLeft(x, Init(y));
      assert Gaps(|y|) == Gaps(|y| - 1) + [Gap];
      assert y == Init(y) + [Last(y)];
    }
  }

  /** Against an empty y the traceback is all gaps on y's side. */
  lemma {:induction false} TracebackEmptyRight(x: string, y: string)
    requires |y| == 0
    ensures Traceback(x, y) == (x, Gaps(|x|))
    decreases |x|
  {
    TracebackRecurrence(x, y);
    if |x| > 0 {
      TracebackEmptyRight(Init(x), y);
      assert Gaps(|x|) == Gaps(|x| - 1) + [Gap];
      assert x == Init(x) + [Last(x)];
    }
  }

  /**
   * Against an empty string the traceback is all gaps on the empty side,
   * and its cost is the optimal one whatever symbols the other side holds.
   */
  lemma TracebackEdges(x: string, y: string)
    ensures |x| == 0 ==> Traceback(x, y) == (Gaps(|y|), y)
    ensures |y| == 0 ==> Traceback(x, y) == (x, Gaps(|x|))
    ensures |x| == 0 || |y| == 0 ==> Cost(Traceback(x, y).0, Traceback(x, y).1) == OptCost(x, y)
  {
    OptCostRecurrence(x, y);
    if |x| == 0 {
      TracebackEmptyLeft(x, y);
      GapsCostLeft(y);
    }
    if |y| == 0 {
      TracebackEmptyRight(x, y);
      GapsCostRight(x);
    }
  }

  // ---------------------------------------------------------------------
  // OptCost is the minimum over all alignments

  /** Each of the three predecessors bounds OptCost from above. */
  lemma OptCostSteps(x: string, y: string)
    ensures |x| > 0 && |y| > 0 ==>
      OptCost(x, y) <= OptCost(Init(x), Init(y)) + MismatchCost(Last(x), Last(y))
    ensures |x| > 0 ==> OptCost(x, y) <= OptCost(Init(x), y) + GapCost
    ensures |y| > 0 ==> OptCost(x, y) <= OptCost(x, Init(y)) + GapCost
  {
    OptCostRecurrence(x, y);
  }

  /** No alignment of x with y costs less than OptCost(x, y). */
  lemma {:induction false} OptCostLowerBound(x: string, y: string, ax: string, ay: string)
    requires IsAlignment(x, y, ax, ay)
    ensures OptCost(x, y) <= Cost(ax, ay)
    decreases |ax|
  {
    if |ax| > 0 {
      var a, b := Last(ax), Last(ay);
      var ax', ay' := Init(ax), Init(ay);
      assert ax == ax' + [a] && ay == ay' + [b];
      StripSnoc(ax', a);
      StripSnoc(ay', b);
      assert forall k :: 0 <= k < |ax'| ==> ax'[k] == ax[k] && ay'[k] == ay[k];
      OptCostSteps(x, y);
      if a != Gap && b != Gap {
        assert Init(x) == Strip(ax') && Last(x) == a;
        assert Init(y) == Strip(ay') && Last(y) == b;
        OptCostLowerBound(Init(x), Init(y), ax', ay');
      } else if a != Gap {
        assert Init(x) == Strip(ax');
        OptCostLowerBound(Init(x), y, ax', ay');
      } else {
        assert b != Gap;
        assert Init(y) == Strip(ay');
        OptCostLowerBound(x, Init(y), ax', ay');
      }
    }
  }

  /** Appending one column that is not a gap against a gap extends an alignment. */
  lemma AlignmentSnoc(x: string, y: string, ax: string, ay: string, a: char, b: char)
    requires IsAlignment(x, y, ax, ay) && (a != Gap || b != Gap)
    ensures IsAlignment(x + (if a == Gap then [] else [a]), y + (if b == Gap then [] else [b]),
                        ax + [a], ay + [b])
    ensures Cost(ax + [a], ay + [b]) == Cost(ax, ay) + ColumnCost(a, b)
  {
    StripSnoc(ax, a);
    StripSnoc(ay, b);
    CostSnoc(ax, ay, a, b);
    assert forall k :: 0 <= k < |ax| ==> (ax + [a])[k] == ax[k] && (ay + [b])[k] == ay[k];
  }

  /**
   * One traceback step keeps its result an optimal alignment: a column
   * appended to an optimal alignment of the shorter inputs, at the cost
   * the recurrence charges for it.
   */
  lemma ExtendOptimal(x: string, y: string, x': string, y': string, t0: string, t1: string, a: char, b: char)
    requires |t0| == |t1|
    requires NoGap(x) && NoGap(y) ==>
      && IsAlignment(x', y', t0, t1) && Cost(t0, t1) == OptCost(x', y')
      && x == x' + (if a == Gap then [] else [a]) && y == y' + (if b == Gap then [] else [b])
      && (a != Gap || b != Gap)
      && OptCost(x, y) == OptCost(x', y') + ColumnCost(a, b)
    ensures |t0 + [a]| == |t1 + [b]|
    ensures NoGap(x) && NoGap(y) ==>
      IsAlignment(x, y, t0 + [a], t1 + [b]) && Cost(t0 + [a], t1 + [b]) == OptCost(x, y)
  {
    if NoGap(x) && NoGap(y) {
      AlignmentSnoc(x', y', t0, t1, a, b);
    }
  }

  /** The traceback aligns gap-free inputs, at exactly the optimal cost. */
  lemma {:induction false} TracebackOptimal(x: string, y: string)
    ensures |Traceback(x, y).0| == |Traceback(x, y).1|
    ensures NoGap(x) && NoGap(y) ==>
      IsAlignment(x, y, Traceback(x, y).0, Traceback(x, y).1) &&
      Cost(Traceback(x, y).0, Traceback(x, y).1) == OptCost(x, y)
    decreases |x| + |y|
  {
    if |x| + |y| > 0 {
      var ok := NoGap(x) && NoGap(y);
      if |x| > 0 {
        assert x == Init(x) + [Last(x)];
        assert ok ==> NoGap(Init(x)) && Last(x) != Gap;
      }
      if |y| > 0 {
        assert y == Init(y) + [Last(y)];
        assert ok ==> NoGap(Init(y)) && Last(y) != Gap;
      }
      TracebackRecurrence(x, y);
      ChoiceCost(x, y);
      match Choice(x, y)
      case Diag =>
        var t := Traceback(Init(x), Init(y));
        TracebackOptimal(Init(x), Init(y));
        ExtendOptimal(x, y, Init(x), Init(y), t.0, t.1, Last(x), Last(y));
      case Up =>
        var t := Traceback(Init(x), y);
        TracebackOptimal(Init(x), y);
        assert y + [] == y;
        ExtendOptimal(x, y, Init(x), y, t.0, t.1, Last(x), Gap);
      case Left =>
        var t := Traceback(x, Init(y));
        TracebackOptimal(x, Init(y));
        assert x + [] == x;
        ExtendOptimal(x, y, x, Init(y), t.0, t.1, Gap, Last(y));
    }
  }

  /** Gap-free inputs have an alignment at the optimal cost. */
  lemma OptimalAlignment(x: string, y: string) returns (ax: string, ay: string)
    requires NoGap(x) && NoGap(y)
    ensures IsAlignment(x, y, ax, ay) && Cost(ax, ay) == OptCost(x, y)
  {
    TracebackOptimal(x, y);
    ax, ay := Traceback(x, y).0, Traceback(x, y).1;
  }

  // ---------------------------------------------------------------------
  // Reversal

  lemma ReverseReverse(s: string)
    ensures Reverse(Reverse(s)) == s
  {
  }

  lemma ReverseConcat(a: string, b: string)
    ensures Reverse(a + b) == Reverse(b) + Reverse(a)
  {
  }

  /** Reversing y and keeping its first |y| - q symbols reverses the suffix y[q..]. */
  lemma ReverseSuffix(y: string, q: nat)
    requires q <= |y|
    ensures Reverse(y)[..|y| - q] == Reverse(y[q..])
  {
  }

  lemma NoGapReverse(s: string)
    requires NoGap(s)
    ensures NoGap(Reverse(s))
  {
  }

  lemma {:induction false} StripReverse(s: string)
    ensures Strip(Reverse(s)) == Reverse(Strip(s))
    decreases |s|
  {
    if |s| > 0 {
      var c := Last(s);
      assert s == Init(s) + [c];
      ReverseConcat(Init(s), [c]);
      assert Reverse([c]) == [c];
      StripConcat([c], Reverse(Init(s)));
      StripSnoc([], c);
      assert [] + [c] == [c];
      StripReverse(Init(s));
      var tail := if c == Gap then [] else [c];
      ReverseConcat(Strip(Init(s)), tail);
      assert Reverse(tail) == tail;
    }
  }

  lemma {:induction false} CostReverse(ax: string, ay: string)
    requires |ax| == |ay|
    ensures Cost(Reverse(ax), Reverse(ay)) == Cost(ax, ay)
    decreases |ax|
  {
    if |ax| > 0 {
      var a, b := Last(ax), Last(ay);
      assert ax == Init(ax) + [a] && ay == Init(ay) + [b];
      ReverseConcat(Init(ax), [a]);
      ReverseConcat(Init(ay), [b]);
      assert Reverse([a]) == [a] && Reverse([b]) == [b];
      CostConcat([a], [b], Reverse(Init(ax)), Reverse(Init(ay)));
      CostSnoc([], [], a, b);
      assert [] + [a] == [a] && [] + [b] == [b];
      CostReverse(Init(ax), Init(ay));
    }
  }

  /** Reversing both rows of an alignment aligns the reversed inputs, at the same cost. */
  lemma AlignmentReverse(x: string, y: string, ax: string, ay: string)
    requires IsAlignment(x, y, ax, ay)
    ensures IsAlignment(Reverse(x), Reverse(y), Reverse(ax), Reverse(ay))
    ensures Cost(Reverse(ax), Reverse(ay)) == Cost(ax, ay)
  {
    StripReverse(ax);
    StripReverse(ay);
    CostReverse(ax, ay);
    var rx, ry := Reverse(ax), Reverse(ay);
    assert forall k :: 0 <= k < |rx| ==> rx[k] == ax[|ax| - 1 - k] && ry[k] == ay[|ay| - 1 - k];
  }

  /** The optimal cost does not change when both strings are reversed. */
  lemma OptCostReverse(x: string, y: string)
    requires NoGap(x) && NoGap(y)
    ensures OptCost(Reverse(x), Reverse(y)) == OptCost(x, y)
  {
    var ax, ay := OptimalAlignment(x, y);
    AlignmentReverse(x, y, ax, ay);
    OptCostLowerBound(Reverse(x), Reverse(y), Reverse(ax), Reverse(ay));
    NoGapReverse(x);
    NoGapReverse(y);
    var rx, ry := OptimalAlignment(Reverse(x), Reverse(y));
    AlignmentReverse(Reverse(x), Reverse(y), rx, ry);
    ReverseReverse(x);
    ReverseReverse(y);
    OptCostLowerBound(x, y, Reverse(rx), Reverse(ry));
  }

  // ---------------------------------------------------------------------
  // Hirschberg's theorem: OptCost splits additively at any row

  /** Aligning two pieces separately never beats aligning the concatenations. */
  lemma OptCostConcatBound(x1: string, x2: string, y1: string, y2: string)
    requires NoGap(x1) && NoGap(x2) && NoGap(y1) && NoGap(y2)
    ensures OptCost(x1 + x2, y1 + y2) <= OptCost(x1, y1) + OptCost(x2, y2)
  {
    var l0, l1 := OptimalAlignment(x1, y1);
    var r0, r1 := OptimalAlignment(x2, y2);
    AlignmentConcat(x1, y1, l0, l1, x2, y2, r0, r1);
    OptCostLowerBound(x1 + x2, y1 + y2, l0 + r0, l1 + r1);
  }

  /** Every column split q of y bounds the cost of x against y from above. */
  lemma SplitUpperBound(x: string, y: string, mid: nat, q: nat)
    requires NoGap(x) && NoGap(y) && mid <= |x| && q <= |y|
    ensures OptCost(x, y) <= OptCost(x[..mid], y[..q]) + OptCost(x[mid..], y[q..])
  {
    NoGapSlice(x, mid);
    NoGapSlice(y, q);
    OptCostConcatBound(x[..mid], x[mid..], y[..q], y[q..]);
    assert x[..mid] + x[mid..] == x && y[..q] + y[q..] == y;
  }

  /** Some column split q of y attains the cost of x against y. */
  lemma SplitAttained(x: string, y: string, mid: nat) returns (q: nat)
    requires NoGap(x) && NoGap(y) && mid <= |x|
    ensures q <= |y|
    ensures OptCost(x, y) == OptCost(x[..mid], y[..q]) + OptCost(x[mid..], y[q..])
  {
    var ax, ay := OptimalAlignment(x, y);
    var k := StripPrefixReaching(ax, mid);
    AlignmentSplit(x, y, ax, ay, k);
    q := |Strip(ay[..k])|;
    OptCostLowerBound(x[..mid], y[..q], ax[..k], ay[..k]);
    OptCostLowerBound(x[mid..], y[q..], ax[k..], ay[k..]);
    SplitUpperBound(x, y, mid, q);
  }

  // ---------------------------------------------------------------------
  // Symmetry, self-alignment, a worked example

  lemma {:induction false} TableSymmetric(x: string, y: string, i: nat, j: nat)
    requires i <= |x| && j <= |y|
    ensures Table(x, y, i, j) == Table(y, x, j, i)
    decreases i + j
  {
    if i > 0 && j > 0 {
      TableSymmetric(x, y, i - 1, j - 1);
      TableSymmetric(x, y, i - 1, j);
      TableSymmetric(x, y, i, j - 1);
      MismatchCostSymmetric(x[i - 1], y[j - 1]);
    }
  }

  /** With a symmetric table the cost of (x, y) equals that of (y, x). */
  lemma OptCostSymmetric(x: string, y: string)
    ensures OptCost(x, y) == OptCost(y, x)
  {
    TableSymmetric(x, y, |x|, |y|);
  }

  lemma {:induction false} TableSelf(s: string, i: nat)
    requires i <= |s|
    ensures Table(s, s, i, i) == 0
    ensures TableTraceback(s, s, i, i) == (s[..i], s[..i])
    decreases i
  {
    if i > 0 {
      TableSelf(s, i - 1);
      assert TableMove(s, s, i, i) == Diag;
      assert s[..i] == s[..i - 1] + [s[i - 1]];
    }
  }

  /** With a zero diagonal a string aligns with itself at cost 0, and the traceback is that string twice. */
  lemma OptCostSelf(s: string)
    ensures OptCost(s, s) == 0
    ensures Traceback(s, s) == (s, s)
  {
    TableSelf(s, |s|);
    assert s[..|s|] == s;
  }

  /** "AC" against "AG": cost 60, aligned as "A_C" over "AG_". */
  lemma ExampleACvsAG()
    ensures OptCost("AC", "AG") == 60
    ensures Traceback("AC", "AG") == ("A_C", "AG_")
  {
    var x, y := "AC", "AG";
    assert MismatchCost('A', 'A') == 0 && MismatchCost('A', 'G') == 48;
    assert MismatchCost('C', 'A') == 110 && MismatchCost('C', 'G') == 118;
    assert Table(x, y, 1, 1) == 0;
    assert Table(x, y, 1, 2) == 30;
    assert Table(x, y, 2, 1) == 30;
    assert Table(x, y, 2, 2) == 60;
    var t1 := TableTraceback(x, y, 1, 1);
    assert t1 == ("A", "A") by {
      assert TableMove(x, y, 1, 1) == Diag;
      assert [] + ['A'] == "A";
    }
    var t2 := TableTraceback(x, y, 1, 2);
    assert t2 == ("A_", "AG") by {
      assert TableMove(x, y, 1, 2) == Left;
      assert t2 == (t1.0 + [Gap], t1.1 + ['G']);
      assert "A" + [Gap] == "A_" && "A" + ['G'] == "AG";
    }
    assert TableTraceback(x, y, 2, 2) == ("A_C", "AG_") by {
      assert TableMove(x, y, 2, 2) == Up;
      assert TableTraceback(x, y, 2, 2) == (t2.0 + ['C'], t2.1 + [Gap]);
      assert "A_" + ['C'] == "A_C" && "AG" + [Gap] == "AG_";
    }
  }
}
