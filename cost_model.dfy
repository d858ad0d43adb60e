/**
 * The cost model shared by both solvers: the gap symbol, the linear gap
 * penalty and the 4x4 substitution table over A/C/G/T.
 */
module CostModel {

  /** The gap symbol both solvers emit in aligned strings. */
  const Gap: char := '_'

  /** The linear gap penalty (GAP in basic.py, GAP_COST in memory-efficient.py). */
  const GapCost: nat := 30

  /** The substitution table, as a dictionary of dictionaries. */
  const Alpha: map<char, map<char, nat>> := map[
    'A' := map['A' := 0,   'C' := 110, 'G' := 48,  'T' := 94],
    'C' := map['A' := 110, 'C' := 0,   'G' := 118, 'T' := 48],
    'G' := map['A' := 48,  'C' := 118, 'G' := 0,   'T' := 110],
    'T' := map['A' := 94,  'C' := 48,  'G' := 110, 'T' := 0]
  ]

  predicate IsBase(c: char) {
    c == 'A' || c == 'C' || c == 'G' || c == 'T'
  }

  /** A string over the table's alphabet. */
  predicate IsDna(s: string) {
    forall k :: 0 <= k < |s| ==> IsBase(s[k])
  }

  /** The table's keys are exactly the four bases, in every row. */
  lemma AlphaKeys(a: char, b: char)
    ensures a in Alpha <==> IsBase(a)
    ensures a in Alpha ==> (b in Alpha[a] <==> IsBase(b))
  {
  }

  /**
   * basic.py's `mismatch`: a bare lookup, defined only when both symbols
   * are in the table (the source raises a KeyError otherwise).
   */
  function Mismatch(a: char, b: char): (c: nat)
    requires IsBase(a) && IsBase(b)
    ensures c == 0 <==> a == b
  {
    AlphaKeys(a, b);
    AlphaKeys(b, a);
    Alpha[a][b]
  }

  /**
   * memory-efficient.py's `mismatch_cost`: the table entry when both
   * symbols are in the table, otherwise 0 for equal symbols and 1 else.
   */
  function MismatchCost(a: char, b: char): (c: nat)
    ensures c == 0 <==> a == b
  {
    AlphaKeys(a, b);
    AlphaKeys(b, a);
    if a in Alpha && b in Alpha[a] then Alpha[a][b]
    else if a == b then 0 else 1
  }

  /** On the table's alphabet the fallback never applies: both lookups agree. */
  lemma MismatchCostOnBases(a: char, b: char)
    ensures IsBase(a) && IsBase(b) ==> MismatchCost(a, b) == Mismatch(a, b)
    ensures !(IsBase(a) && IsBase(b)) ==> MismatchCost(a, b) == (if a == b then 0 else 1)
  {
    AlphaKeys(a, b);
  }

  /** The table is symmetric. */
  lemma MismatchSymmetric(a: char, b: char)
    requires IsBase(a) && IsBase(b)
    ensures Mismatch(a, b) == Mismatch(b, a)
  {
  }

  /** The table is symmetric, and so is the fallback. */
  lemma MismatchCostSymmetric(a: char, b: char)
    ensures MismatchCost(a, b) == MismatchCost(b, a)
  {
    AlphaKeys(a, b);
    AlphaKeys(b, a);
    if IsBase(a) && IsBase(b) {
      MismatchSymmetric(a, b);
    }
  }
}
