/**
 * Generator.py's input expansion: starting from a seed string, each index
 * in turn splices a copy of the current string into itself right after
 * that position, or appends the copy when the index is out of range.
 */
module Generator {

  /** One expansion step: a copy of s inserted after position i, or appended when i is out of range. */
  function Splice(s: string, i: int): (r: string)
    ensures |r| == 2 * |s|
  {
    if 0 <= i < |s| - 1 then s[..i + 1] + s + s[i + 1..] else s + s
  }

  /** The string after all of `indices` have been applied in order. */
  function Expand(s: string, indices: seq<int>): string
    decreases |indices|
  {
    if |indices| == 0 then s
    else Expand(Splice(s, indices[0]), indices[1..])
  }

  function Pow2(k: nat): (p: nat)
    ensures p >= 1
  {
    if k == 0 then 1 else 2 * Pow2(k - 1)
  }

  /**
   * Every step doubles the string: its length doubles and so does the
   * count of every symbol; an in-range index keeps the first i + 1 symbols,
   * places the whole old string next and the old tail after it.
   */
  lemma SpliceDoubles(s: string, i: int)
    ensures |Splice(s, i)| == 2 * |s|
    ensures multiset(Splice(s, i)) == multiset(s) + multiset(s)
    ensures 0 <= i < |s| - 1 ==>
      && Splice(s, i)[..i + 1] == s[..i + 1]
      && Splice(s, i)[i + 1..i + 1 + |s|] == s
      && Splice(s, i)[i + 1 + |s|..] == s[i + 1..]
    ensures !(0 <= i < |s| - 1) ==> Splice(s, i)[..|s|] == s && Splice(s, i)[|s|..] == s
  {
    if 0 <= i < |s| - 1 {
      assert s == s[..i + 1] + s[i + 1..];
      calc {
        multiset(Splice(s, i));
        multiset(s[..i + 1]) + multiset(s) + multiset(s[i + 1..]);
        multiset(s[..i + 1]) + multiset(s[i + 1..]) + multiset(s);
        multiset(s) + multiset(s);
      }
    }
  }

  /** n doubled k times. */
  function Doubled(n: nat, k: nat): nat
    decreases k
  {
    if k == 0 then n else Doubled(n + n, k - 1)
  }

  lemma {:induction false} DoubledIsProduct(n: nat, k: nat)
    ensures Doubled(n, k) == n * Pow2(k)
    decreases k
  {
    if k > 0 {
      DoubledIsProduct(n + n, k - 1);
      DoubleFactor(n, n + n, Pow2(k - 1));
    }
  }

  lemma DoubleFactor(a: int, b: int, p: int)
    requires b == a + a
    ensures b * p == a * (p + p)
  {
  }

  lemma {:induction false} ExpandLengthDoubled(s: string, indices: seq<int>)
    ensures |Expand(s, indices)| == Doubled(|s|, |indices|)
    decreases |indices|
  {
    if |indices| > 0 {
      SpliceDoubles(s, indices[0]);
      ExpandLengthDoubled(Splice(s, indices[0]), indices[1..]);
    }
  }

  /** The length law: len(s) * 2^k after k indices. */
  lemma ExpandLength(s: string, indices: seq<int>)
    ensures |Expand(s, indices)| == |s| * Pow2(|indices|)
  {
    ExpandLengthDoubled(s, indices);
    DoubledIsProduct(|s|, |indices|);
  }

  lemma {:induction false} ExpandCountsDoubled(s: string, indices: seq<int>, c: char)
    ensures multiset(Expand(s, indices))[c] == Doubled(multiset(s)[c], |indices|)
    decreases |indices|
  {
    if |indices| > 0 {
      var next := SpliceCount(s, indices, c);
      ExpandCountsDoubled(next, indices[1..], c);
    }
  }

  /** The first step of Expand doubles the count of every symbol. */
  lemma SpliceCount(s: string, indices: seq<int>, c: char) returns (next: string)
    requires |indices| > 0
    ensures Expand(s, indices) == Expand(next, indices[1..])
    ensures multiset(next)[c] == multiset(s)[c] + multiset(s)[c]
  {
    next := Splice(s, indices[0]);
    SpliceDoubles(s, indices[0]);
  }

  /** Each symbol occurs 2^k times as often after k indices. */
  lemma ExpandCounts(s: string, indices: seq<int>, c: char)
    ensures multiset(Expand(s, indices))[c] == multiset(s)[c] * Pow2(|indices|)
  {
    ExpandCountsDoubled(s, indices, c);
    DoubledIsProduct(multiset(s)[c], |indices|);
  }

  /** The output uses only symbols of the seed, and every one of them. */
  lemma ExpandSymbols(s: string, indices: seq<int>, c: char)
    ensures c in Expand(s, indices) <==> c in s
  {
    ExpandCounts(s, indices, c);
    assert c in multiset(Expand(s, indices)) <==> c in multiset(s);
  }

  /** An empty seed stays empty whatever the indices. */
  lemma ExpandEmpty(indices: seq<int>)
    ensures Expand([], indices) == []
  {
    ExpandLength([], indices);
  }

  /** "A" with the index list [0]: 0 is not below len - 1 = 0, so the string is doubled. */
  lemma ExampleDouble()
    ensures Expand("A", [0]) == "AA"
  {
    assert [0][1..] == [];
  }

  /** "ACTG" with the index list [1]: the copy goes after "AC". */
  lemma ExampleSplice()
    ensures Expand("ACTG", [1]) == "ACACTGTG"
  {
    assert [1][1..] == [];
    assert "ACTG"[..2] == "AC" && "ACTG"[2..] == "TG";
  }

  /** `generateString`: apply the indices one after the other to the growing string. */
  method GenerateString(s: string, indices: seq<int>) returns (r: string)
    ensures r == Expand(s, indices)
    ensures |indices| == 0 ==> r == s
    ensures |r| == |s| * Pow2(|indices|)
    ensures forall c :: multiset(r)[c] == multiset(s)[c] * Pow2(|indices|)
  {
    r := s;
    for k := 0 to |indices|
      invariant Expand(r, indices[k..]) == Expand(s, indices)
    {
      var i := indices[k];
      assert indices[k..][1..] == indices[k + 1..];
      if i >= 0 && i < |r| - 1 {
        r := r[..i + 1] + r + r[i + 1..];
      } else {
        r := r + r;
      }
    }
    ExpandLength(s, indices);
    forall c
      ensures multiset(r)[c] == multiset(s)[c] * Pow2(|indices|)
    {
      ExpandCounts(s, indices, c);
    }
  }
}
