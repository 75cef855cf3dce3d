/** The scoring of GeneSequencing.align: the three costs it hard-codes, the
    way it picks the predecessor of an interior cell, and the edit-distance
    recurrence that its table holds. */
module Scoring {

  /** Cost of a column that pairs two equal symbols. */
  const MATCH: int := -3
  /** Cost of a column that pairs two different symbols. */
  const SUB: int := 1
  /** Cost of a column that pairs a symbol with a gap. */
  const INDEL: int := 5

  /** Cost of consuming one symbol of each sequence in the same column. */
  function Substitution(a: char, b: char): (c: int)
    ensures c == MATCH <==> a == b
    ensures c == SUB <==> a != b
  {
    if a == b then MATCH else SUB
  }

  function Min3(x: int, y: int, z: int): (m: int)
    ensures m <= x && m <= y && m <= z
    ensures m == x || m == y || m == z
  {
    if x <= y && x <= z then x else if y <= z then y else z
  }

  /** The neighbour a cell's value is taken from. */
  datatype Step = Diagonal | Top | Left

  /** The choice align makes for an interior cell: the diagonal candidate is
      written first, the top candidate replaces it when it is not larger, and
      the left candidate then replaces the current value when it is not larger. */
  function Choose(diag: int, top: int, left: int): (s: Step)
    ensures s == Left <==> left <= diag && left <= top
    ensures s == Top <==> top <= diag && top < left
    ensures s == Diagonal <==> diag < top && diag < left
  {
    var best := if top <= diag then top else diag;
    var step := if top <= diag then Top else Diagonal;
    if left <= best then Left else step
  }

  /** The candidate that a step selects. */
  function Candidate(s: Step, diag: int, top: int, left: int): int
  {
    match s
    case Diagonal => diag
    case Top => top
    case Left => left
  }

  /** Whichever neighbour align chooses, the value it writes is the minimum. */
  lemma ChosenIsMinimum(diag: int, top: int, left: int)
    ensures Candidate(Choose(diag, top, left), diag, top, left) == Min3(diag, top, left)
  {
  }

  /** The least cost of aligning a with b, by recursion on the last symbols:
      both consumed together, the last of a against a gap, or the last of b
      against a gap. */
  function Cost(a: string, b: string): int
    decreases |a| + |b|
  {
    if |a| == 0 then INDEL * |b|
    else if |b| == 0 then INDEL * |a|
    else
      var a', b' := a[..|a| - 1], b[..|b| - 1];
      Min3(Cost(a', b') + Substitution(a[|a| - 1], b[|b| - 1]),
           Cost(a', b) + INDEL,
           Cost(a, b') + INDEL)
  }

  /** The least cost lies between all-matches on the shorter sequence and
      all-gaps: no alignment is cheaper than MATCH per symbol of the shorter
      input, and aligning every symbol against a gap is always available. */
  lemma {:induction false} CostBounds(a: string, b: string)
    ensures MATCH * (if |a| <= |b| then |a| else |b|) <= Cost(a, b)
    ensures Cost(a, b) <= INDEL * (|a| + |b|)
    decreases |a| + |b|
  {
    if |a| != 0 && |b| != 0 {
      var a', b' := a[..|a| - 1], b[..|b| - 1];
      CostBounds(a', b');
      CostBounds(a', b);
      CostBounds(a, b');
    }
  }

  /** The value align leaves in cell (i, j) of its table, in the table's own
      indices: 5 per index in the first column and the first row, and
      otherwise the least of the diagonal, top and left candidates. */
  function TableCost(s1: string, s2: string, i: int, j: int): (c: int)
    requires 0 <= i <= |s1| && 0 <= j <= |s2|
    decreases i + j
  {
    if j == 0 then INDEL * i
    else if i == 0 then INDEL * j
    else Min3(TableCost(s1, s2, i - 1, j - 1) + Substitution(s1[i - 1], s2[j - 1]),
              TableCost(s1, s2, i - 1, j) + INDEL,
              TableCost(s1, s2, i, j - 1) + INDEL)
  }

  /** The recurrence on prefixes: the cost of two non-empty prefixes is the
      least of the diagonal, top and left candidates. This unfolds the
      definition of Cost once, restated on prefixes of s1 and s2 so that it
      can be lined up with TableCost. */
  lemma CostRecurrence(s1: string, s2: string, i: int, j: int)
    requires 1 <= i <= |s1| && 1 <= j <= |s2|
    ensures Cost(s1[..i], s2[..j])
            == Min3(Cost(s1[..i - 1], s2[..j - 1]) + Substitution(s1[i - 1], s2[j - 1]),
                    Cost(s1[..i - 1], s2[..j]) + INDEL,
                    Cost(s1[..i], s2[..j - 1]) + INDEL)
  {
    assert s1[..i][..i - 1] == s1[..i - 1];
    assert s2[..j][..j - 1] == s2[..j - 1];
  }

  /** Boundary of the table: against an empty sequence every symbol is a gap.
      This unfolds the two base cases of the definition of Cost. */
  lemma CostBoundary(s: string)
    ensures Cost(s, []) == INDEL * |s|
    ensures Cost([], s) == INDEL * |s|
  {
  }

  /** Cell (i, j) of the table holds the least cost of aligning the prefixes
      of lengths i and j. */
  lemma {:induction false} TableCostIsCost(s1: string, s2: string, i: int, j: int)
    requires 0 <= i <= |s1| && 0 <= j <= |s2|
    ensures TableCost(s1, s2, i, j) == Cost(s1[..i], s2[..j])
    decreases i + j
  {
    if j == 0 || i == 0 {
      BorderAgrees(s1, s2, i, j);
    } else {
      TableCostIsCost(s1, s2, i - 1, j - 1);
      TableCostIsCost(s1, s2, i - 1, j);
      TableCostIsCost(s1, s2, i, j - 1);
      InteriorAgrees(s1, s2, i, j);
    }
  }

  /** The base case of TableCostIsCost: on the first row and the first
      column, the table holds the cost against an empty prefix. */
  lemma BorderAgrees(s1: string, s2: string, i: int, j: int)
    requires 0 <= i <= |s1| && 0 <= j <= |s2| && (i == 0 || j == 0)
    ensures TableCost(s1, s2, i, j) == Cost(s1[..i], s2[..j])
  {
    if j == 0 {
      assert s2[..j] == [];
      CostBoundary(s1[..i]);
    } else {
      assert s1[..i] == [];
      CostBoundary(s2[..j]);
    }
  }

  /** The inductive step of TableCostIsCost: where the three neighbours of
      an interior cell agree with the prefix costs, so does the cell. */
  lemma InteriorAgrees(s1: string, s2: string, i: int, j: int)
    requires 1 <= i <= |s1| && 1 <= j <= |s2|
    requires TableCost(s1, s2, i - 1, j - 1) == Cost(s1[..i - 1], s2[..j - 1])
    requires TableCost(s1, s2, i - 1, j) == Cost(s1[..i - 1], s2[..j])
    requires TableCost(s1, s2, i, j - 1) == Cost(s1[..i], s2[..j - 1])
    ensures TableCost(s1, s2, i, j) == Cost(s1[..i], s2[..j])
  {
    CostRecurrence(s1, s2, i, j);
    TableCostInterior(s1, s2, i, j);
  }

  /** One unfolding of TableCost at an interior cell. */
  lemma TableCostInterior(s1: string, s2: string, i: int, j: int)
    requires 1 <= i <= |s1| && 1 <= j <= |s2|
    ensures TableCost(s1, s2, i, j) == Min3(TableCost(s1, s2, i - 1, j - 1) + Substitution(s1[i - 1], s2[j - 1]),
                                            TableCost(s1, s2, i - 1, j) + INDEL,
                                            TableCost(s1, s2, i, j - 1) + INDEL)
  {
  }

  /** The bounds of CostBounds, cell by cell: no cell of the table is below
      MATCH per symbol of the shorter prefix or above the all-gap cost. */
  lemma TableCostBounds(s1: string, s2: string, i: int, j: int)
    requires 0 <= i <= |s1| && 0 <= j <= |s2|
    ensures MATCH * (if i <= j then i else j) <= TableCost(s1, s2, i, j) <= INDEL * (i + j)
  {
    TableCostIsCost(s1, s2, i, j);
    CostBounds(s1[..i], s2[..j]);
  }

  /** The last cell of the table holds the cost of the whole inputs. */
  lemma TableCorner(s1: string, s2: string)
    ensures TableCost(s1, s2, |s1|, |s2|) == Cost(s1, s2)
  {
    TableCostIsCost(s1, s2, |s1|, |s2|);
    assert s1[..|s1|] == s1 && s2[..|s2|] == s2;
  }

  /** Consuming the last symbols of both sequences together costs at least
      the optimum. */
  lemma CostDiagonalBound(a: string, b: string)
    requires |a| > 0 && |b| > 0
    ensures Cost(a, b) <= Cost(a[..|a| - 1], b[..|b| - 1]) + Substitution(a[|a| - 1], b[|b| - 1])
  {
  }

  /** Consuming the last symbol of a against a gap costs at least the optimum. */
  lemma CostTopBound(a: string, b: string)
    requires |a| > 0
    ensures Cost(a, b) <= Cost(a[..|a| - 1], b) + INDEL
  {
  }

  /** Consuming the last symbol of b against a gap costs at least the optimum. */
  lemma CostLeftBound(a: string, b: string)
    requires |b| > 0
    ensures Cost(a, b) <= Cost(a, b[..|b| - 1]) + INDEL
  {
  }
}
