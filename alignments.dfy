/** Aligned strings: the gap symbol, what an alignment of two sequences is,
    what it costs column by column, and the reversal that turns the
    backtrace's output around. */
module Alignments {
  import opened Scoring

  /** The symbol align writes where one sequence has no counterpart. */
  const GAP: char := '-'

  /** The symbols of s with every gap removed, in order. */
  function RemoveGaps(s: string): (r: string)
    ensures GAP !in r
    ensures |r| <= |s|
    ensures GAP !in s ==> r == s
  {
    if |s| == 0 then []
    else RemoveGaps(s[..|s| - 1]) + (if s[|s| - 1] == GAP then [] else [s[|s| - 1]])
  }

  lemma RemoveGapsSnoc(s: string, c: char)
    ensures RemoveGaps(s + [c]) == RemoveGaps(s) + (if c == GAP then [] else [c])
  {
    assert (s + [c])[..|s|] == s;
  }

  /** Cost of one column: a gap on either side, a match, or a substitution. */
  function ColumnCost(x: char, y: char): int
  {
    if x == GAP || y == GAP then INDEL else Substitution(x, y)
  }

  /** The sum of the column costs of two aligned strings. */
  function AlignmentCost(x: string, y: string): int
    requires |x| == |y|
  {
    if |x| == 0 then 0
    else AlignmentCost(x[..|x| - 1], y[..|y| - 1]) + ColumnCost(x[|x| - 1], y[|y| - 1])
  }

  lemma AlignmentCostSnoc(x: string, y: string, c: char, d: char)
    requires |x| == |y|
    ensures AlignmentCost(x + [c], y + [d]) == AlignmentCost(x, y) + ColumnCost(c, d)
  {
    assert (x + [c])[..|x|] == x;
    assert (y + [d])[..|y|] == y;
  }

  /** No column holds a gap on both sides. */
  predicate NoDoubleGap(x: string, y: string)
    requires |x| == |y|
  {
    forall k :: 0 <= k < |x| ==> !(x[k] == GAP && y[k] == GAP)
  }

  /** x and y are an alignment of a and b. */
  predicate IsAlignment(x: string, y: string, a: string, b: string)
  {
    |x| == |y| && RemoveGaps(x) == a && RemoveGaps(y) == b && NoDoubleGap(x, y)
  }

  /** Adding a column that is not two gaps to an alignment of a and b gives
      an alignment of a and b extended by the column's non-gap symbols. */
  lemma AlignmentSnoc(x: string, y: string, a: string, b: string, c: char, d: char)
    requires IsAlignment(x, y, a, b)
    requires !(c == GAP && d == GAP)
    ensures IsAlignment(x + [c], y + [d],
                        a + (if c == GAP then [] else [c]),
                        b + (if d == GAP then [] else [d]))
  {
    RemoveGapsSnoc(x, c);
    RemoveGapsSnoc(y, d);
    var x', y' := x + [c], y + [d];
    forall k | 0 <= k < |x'| ensures !(x'[k] == GAP && y'[k] == GAP) {
      if k < |x| { assert x'[k] == x[k] && y'[k] == y[k]; }
    }
  }

  /** Removing the last symbol of s removes the last symbol of RemoveGaps(s)
      when it is not a gap, and nothing otherwise. */
  lemma RemoveGapsLast(s: string)
    requires |s| > 0
    ensures var r, c := RemoveGaps(s), s[|s| - 1];
            if c == GAP then RemoveGaps(s[..|s| - 1]) == r
            else |r| > 0 && r[|r| - 1] == c && RemoveGaps(s[..|s| - 1]) == r[..|r| - 1]
  {
  }

  /** An alignment without its last column aligns what is left of a and b. */
  lemma AlignmentPrefix(x: string, y: string, a: string, b: string)
    requires IsAlignment(x, y, a, b) && |x| > 0
    ensures var n := |x| - 1;
            !(x[n] == GAP && y[n] == GAP) &&
            IsAlignment(x[..n], y[..n],
                        if x[n] == GAP then a else a[..|a| - 1],
                        if y[n] == GAP then b else b[..|b| - 1])
  {
    var n := |x| - 1;
    RemoveGapsLast(x);
    RemoveGapsLast(y);
    assert !(x[n] == GAP && y[n] == GAP);
    assert NoDoubleGap(x[..n], y[..n]) by {
      forall k | 0 <= k < n ensures !(x[..n][k] == GAP && y[..n][k] == GAP) {
        assert x[..n][k] == x[k] && y[..n][k] == y[k];
      }
    }
  }

  /** Every alignment of a and b costs at least Cost(a, b): the value of the
      recurrence is the minimum over all alignments. */
  lemma {:induction false} CostIsMinimal(x: string, y: string, a: string, b: string)
    requires IsAlignment(x, y, a, b)
    ensures Cost(a, b) <= AlignmentCost(x, y)
    decreases |x|
  {
    if |x| == 0 {
      assert a == [] && b == [];
    } else {
      var n := |x| - 1;
      var x', y', c, d := x[..n], y[..n], x[n], y[n];
      AlignmentPrefix(x, y, a, b);
      RemoveGapsLast(x);
      RemoveGapsLast(y);
      assert AlignmentCost(x, y) == AlignmentCost(x', y') + ColumnCost(c, d);
      if c != GAP && d != GAP {
        var a', b' := a[..|a| - 1], b[..|b| - 1];
        assert IsAlignment(x', y', a', b');
        CostIsMinimal(x', y', a', b');
        CostDiagonalBound(a, b);
        assert ColumnCost(c, d) == Substitution(a[|a| - 1], b[|b| - 1]);
      } else if c != GAP {
        var a' := a[..|a| - 1];
        assert IsAlignment(x', y', a', b);
        CostIsMinimal(x', y', a', b);
        CostTopBound(a, b);
      } else {
        var b' := b[..|b| - 1];
        assert IsAlignment(x', y', a, b');
        CostIsMinimal(x', y', a, b');
        CostLeftBound(a, b);
      }
    }
  }

  /** s read back to front. */
  function Reverse(s: string): (r: string)
    ensures |r| == |s|
  {
    if |s| == 0 then [] else Reverse(s[1..]) + [s[0]]
  }

  /** Position k of the reversal holds position |s| - 1 - k of s. */
  lemma {:induction false} ReverseAt(s: string, k: int)
    requires 0 <= k < |s|
    ensures Reverse(s)[k] == s[|s| - 1 - k]
  {
    if k < |s| - 1 {
      ReverseAt(s[1..], k);
    }
  }

  /** Appending to the end of s puts the symbol at the front of its reversal. */
  lemma {:induction false} ReverseSnoc(s: string, c: char)
    ensures Reverse(s + [c]) == [c] + Reverse(s)
  {
    if |s| == 0 {
      assert s + [c] == [c];
    } else {
      assert (s + [c])[1..] == s[1..] + [c];
      ReverseSnoc(s[1..], c);
    }
  }

  /** Moving one symbol from the end of a prefix to the end of a reversed
      accumulator keeps their concatenation. */
  lemma ReverseShift(front: string, back: string, c: char)
    ensures front + Reverse(back + [c]) == (front + [c]) + Reverse(back)
  {
    ReverseSnoc(back, c);
  }
}
