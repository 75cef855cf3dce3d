/** The predecessor table of GeneSequencing.align (the PREV dictionary, from
    a cell (row, col) to the cell its value was taken from) and the walk over
    it that produces the two aligned strings. */
module Predecessors {
  import opened Scoring
  import opened Alignments

  /** A (row, col) position of the table. */
  type Cell = (int, int)

  type PrevMap = map<Cell, Cell>

  /** Position (i, j) of a table with rows 0..n and columns 0..m, other than
      the origin: exactly the keys of the predecessor table. */
  predicate InTable(c: Cell, n: int, m: int)
  {
    0 <= c.0 <= n && 0 <= c.1 <= m && c != (0, 0)
  }

  /** The cells of a table with rows 0..n and columns 0..m, other than the
      origin. */
  function Cells(n: int, m: int): (cells: set<Cell>)
    ensures forall c :: c in cells <==> InTable(c, n, m)
  {
    set i, j | 0 <= i <= n && 0 <= j <= m && (i, j) != (0, 0) :: (i, j)
  }

  /** (i, j) has a recorded predecessor, and it is its diagonal, top or left
      neighbour. */
  predicate StepOk(prev: PrevMap, i: int, j: int)
  {
    (i, j) in prev &&
    var p := prev[(i, j)];
    (i > 0 && j > 0 && p == (i - 1, j - 1)) || (i > 0 && p == (i - 1, j)) || (j > 0 && p == (i, j - 1))
  }

  /** Every cell of the table other than the origin has a neighbouring
      predecessor, so a walk from any cell reaches the origin. */
  predicate WellFormed(prev: PrevMap, n: int, m: int)
  {
    forall i, j :: 0 <= i <= n && 0 <= j <= m && (i != 0 || j != 0) ==> StepOk(prev, i, j)
  }

  /** The predecessors align sets up before the fill: every cell of the
      first column points up and every cell of the first row points left. */
  function BoundaryPrev(n: int, m: int): (prev: PrevMap)
    ensures forall c :: c in prev <==> InTable(c, n, m) && (c.0 == 0 || c.1 == 0)
    ensures forall c :: c in prev ==> prev[c] == (if c.1 == 0 then Up(c) else LeftOf(c))
  {
    map c | c in Cells(n, m) && (c.0 == 0 || c.1 == 0) :: if c.1 == 0 then Up(c) else LeftOf(c)
  }

  function Up(c: Cell): Cell { (c.0 - 1, c.1) }

  function LeftOf(c: Cell): Cell { (c.0, c.1 - 1) }

  /** The predecessor align records for cell (i, j): the row above on the
      first column, the column to the left on the first row, and otherwise
      the neighbour that Choose picks among the three candidates. */
  function PrevCell(s1: string, s2: string, i: int, j: int): (p: Cell)
    requires 0 <= i <= |s1| && 0 <= j <= |s2| && (i != 0 || j != 0)
    ensures j == 0 ==> p == (i - 1, 0)
    ensures j != 0 && i == 0 ==> p == (0, j - 1)
    ensures (i > 0 && j > 0 && p == (i - 1, j - 1)) || (i > 0 && p == (i - 1, j)) || (j > 0 && p == (i, j - 1))
  {
    if j == 0 then (i - 1, j)
    else if i == 0 then (i, j - 1)
    else
      Target(Choose(TableCost(s1, s2, i - 1, j - 1) + Substitution(s1[i - 1], s2[j - 1]),
                    TableCost(s1, s2, i - 1, j) + INDEL,
                    TableCost(s1, s2, i, j - 1) + INDEL), i, j)
  }

  /** For an interior cell, the step align records and the cost it writes
      both come from the same choice among the three candidates. */
  lemma CellChoice(s1: string, s2: string, i: int, j: int)
    requires 1 <= i <= |s1| && 1 <= j <= |s2|
    ensures var diag := TableCost(s1, s2, i - 1, j - 1) + Substitution(s1[i - 1], s2[j - 1]);
            var top := TableCost(s1, s2, i - 1, j) + INDEL;
            var left := TableCost(s1, s2, i, j - 1) + INDEL;
            TableCost(s1, s2, i, j) == Candidate(Choose(diag, top, left), diag, top, left) &&
            PrevCell(s1, s2, i, j) == Target(Choose(diag, top, left), i, j)
  {
    var diag := TableCost(s1, s2, i - 1, j - 1) + Substitution(s1[i - 1], s2[j - 1]);
    var top := TableCost(s1, s2, i - 1, j) + INDEL;
    var left := TableCost(s1, s2, i, j - 1) + INDEL;
    assert TableCost(s1, s2, i, j) == Min3(diag, top, left);
    ChosenIsMinimum(diag, top, left);
  }

  /** The neighbour of (i, j) that a step points to. */
  function Target(s: Step, i: int, j: int): Cell
  {
    match s
    case Diagonal => (i - 1, j - 1)
    case Top => (i - 1, j)
    case Left => (i, j - 1)
  }

  /** The whole predecessor table align builds for s1 and s2. */
  function PrevTable(s1: string, s2: string): (prev: PrevMap)
    ensures WellFormed(prev, |s1|, |s2|)
    ensures forall c :: c in prev <==> InTable(c, |s1|, |s2|)
  {
    map c | c in Cells(|s1|, |s2|) :: PrevCell(s1, s2, c.0, c.1)
  }

  lemma PrevTableAt(s1: string, s2: string, i: int, j: int)
    requires 0 <= i <= |s1| && 0 <= j <= |s2| && (i != 0 || j != 0)
    ensures (i, j) in PrevTable(s1, s2) && PrevTable(s1, s2)[(i, j)] == PrevCell(s1, s2, i, j)
  {
  }

  /** The predecessors set up before the fill are those of the table. */
  lemma BoundaryPrevAgrees(s1: string, s2: string)
    ensures var b, t := BoundaryPrev(|s1|, |s2|), PrevTable(s1, s2);
            forall c :: c in b ==> c in t && b[c] == t[c]
  {
    var b, t := BoundaryPrev(|s1|, |s2|), PrevTable(s1, s2);
    forall c | c in b ensures c in t && b[c] == t[c] {
      PrevTableAt(s1, s2, c.0, c.1);
    }
  }

  /** The interior entries of one row of the table. */
  lemma PrevTableRow(s1: string, s2: string, row: int)
    requires 1 <= row <= |s1|
    ensures var t := PrevTable(s1, s2);
            forall j :: 1 <= j <= |s2| ==> (row, j) in t && t[(row, j)] == PrevCell(s1, s2, row, j)
  {
    forall j | 1 <= j <= |s2| ensures (row, j) in PrevTable(s1, s2) && PrevTable(s1, s2)[(row, j)] == PrevCell(s1, s2, row, j) {
      PrevTableAt(s1, s2, row, j);
    }
  }

  /** The first column points up and the first row points left. */
  lemma PrevTableBoundary(s1: string, s2: string, i: int, j: int)
    requires 0 <= i <= |s1| && 0 <= j <= |s2|
    ensures i > 0 ==> PrevTable(s1, s2)[(i, 0)] == (i - 1, 0)
    ensures j > 0 ==> PrevTable(s1, s2)[(0, j)] == (0, j - 1)
  {
    if i > 0 { PrevTableAt(s1, s2, i, 0); }
    if j > 0 { PrevTableAt(s1, s2, 0, j); }
  }

  /** The tie-break of an interior cell, in terms of the costs of its three
      candidates: left wins whenever it is not larger than the others, top
      wins when it is not larger than the diagonal and smaller than left, and
      the diagonal is kept only when it is smaller than both. */
  lemma PrevTableTieBreak(s1: string, s2: string, i: int, j: int)
    requires 1 <= i <= |s1| && 1 <= j <= |s2|
    ensures var p := PrevTable(s1, s2)[(i, j)];
            var diag := TableCost(s1, s2, i - 1, j - 1) + Substitution(s1[i - 1], s2[j - 1]);
            var top := TableCost(s1, s2, i - 1, j) + INDEL;
            var left := TableCost(s1, s2, i, j - 1) + INDEL;
            (p == (i, j - 1) <==> left <= diag && left <= top) &&
            (p == (i - 1, j) <==> top <= diag && top < left) &&
            (p == (i - 1, j - 1) <==> diag < top && diag < left)
  {
    PrevTableAt(s1, s2, i, j);
  }

  /** The column the walk emits when it steps from (i, j) to p: a diagonal
      step pairs the two symbols, a step up pairs the symbol of s1 with a
      gap, a step left pairs a gap with the symbol of s2. */
  function StepColumn(s1: string, s2: string, i: int, j: int, p: Cell): (col: (char, char))
    requires 0 <= p.0 <= i <= |s1| && 0 <= p.1 <= j <= |s2| && (p.0 < i || p.1 < j)
    ensures p.0 < i ==> col.0 == s1[i - 1]
    ensures p.0 == i ==> col.0 == GAP
    ensures p.1 < j ==> col.1 == s2[j - 1]
    ensures p.1 == j ==> col.1 == GAP
  {
    if p.0 < i && p.1 < j then (s1[i - 1], s2[j - 1])
    else if p.0 < i then (s1[i - 1], GAP)
    else (GAP, s2[j - 1])
  }

  /** The aligned prefixes s1[..i] and s2[..j] that the walk from (i, j) back
      to the origin produces, in forward order. */
  function Trace(s1: string, s2: string, prev: PrevMap, i: int, j: int): (r: (string, string))
    requires WellFormed(prev, |s1|, |s2|)
    requires 0 <= i <= |s1| && 0 <= j <= |s2|
    ensures |r.0| == |r.1|
    ensures i <= |r.0| && j <= |r.0| && |r.0| <= i + j
    decreases i + j
  {
    if i == 0 && j == 0 then ([], [])
    else
      assert StepOk(prev, i, j);
      var p := prev[(i, j)];
      var t := Trace(s1, s2, prev, p.0, p.1);
      var col := StepColumn(s1, s2, i, j, p);
      (t.0 + [col.0], t.1 + [col.1])
  }

  /** One step of the walk: the walk from (i, j) is the walk from its
      predecessor followed by the step's column. */
  lemma TraceStep(s1: string, s2: string, prev: PrevMap, i: int, j: int)
    requires WellFormed(prev, |s1|, |s2|)
    requires 0 <= i <= |s1| && 0 <= j <= |s2| && (i != 0 || j != 0)
    ensures StepOk(prev, i, j)
    ensures var p := prev[(i, j)];
            var t := Trace(s1, s2, prev, p.0, p.1);
            var col := StepColumn(s1, s2, i, j, p);
            Trace(s1, s2, prev, i, j) == (t.0 + [col.0], t.1 + [col.1])
  {
    assert StepOk(prev, i, j);
  }

  /** On inputs without the gap symbol, a step's column is never two gaps,
      and its non-gap symbols are what the step consumes of each input. */
  lemma StepColumnConsumes(s1: string, s2: string, i: int, j: int, p: Cell)
    requires 0 <= p.0 <= i <= |s1| && 0 <= p.1 <= j <= |s2| && (p.0 < i || p.1 < j)
    requires p.0 >= i - 1 && p.1 >= j - 1
    requires GAP !in s1 && GAP !in s2
    ensures var col := StepColumn(s1, s2, i, j, p);
            !(col.0 == GAP && col.1 == GAP) &&
            s1[..i] == s1[..p.0] + (if col.0 == GAP then [] else [col.0]) &&
            s2[..j] == s2[..p.1] + (if col.1 == GAP then [] else [col.1])
  {
    if p.0 < i {
      assert s1[i - 1] in s1;
      assert s1[..i] == s1[..p.0] + [s1[i - 1]];
    }
    if p.1 < j {
      assert s2[j - 1] in s2;
      assert s2[..j] == s2[..p.1] + [s2[j - 1]];
    }
  }

  /** Over any well-formed predecessor table, and for inputs without the gap
      symbol, the walk yields an alignment of the two prefixes. */
  lemma {:induction false} TraceIsAlignment(s1: string, s2: string, prev: PrevMap, i: int, j: int)
    requires WellFormed(prev, |s1|, |s2|)
    requires 0 <= i <= |s1| && 0 <= j <= |s2|
    requires GAP !in s1 && GAP !in s2
    ensures var t := Trace(s1, s2, prev, i, j); IsAlignment(t.0, t.1, s1[..i], s2[..j])
    decreases i + j
  {
    if i != 0 || j != 0 {
      assert StepOk(prev, i, j);
      var p := prev[(i, j)];
      var t := Trace(s1, s2, prev, p.0, p.1);
      var col := StepColumn(s1, s2, i, j, p);
      TraceIsAlignment(s1, s2, prev, p.0, p.1);
      StepColumnConsumes(s1, s2, i, j, p);
      AlignmentSnoc(t.0, t.1, s1[..p.0], s2[..p.1], col.0, col.1);
    }
  }

  /** The step align records for (i, j) emits a column whose cost, added to
      the cost of the cell it steps to, is the cost of (i, j). */
  lemma PrevCellCost(s1: string, s2: string, i: int, j: int)
    requires 0 <= i <= |s1| && 0 <= j <= |s2| && (i != 0 || j != 0)
    requires GAP !in s1 && GAP !in s2
    ensures var p := PrevCell(s1, s2, i, j);
            var col := StepColumn(s1, s2, i, j, p);
            TableCost(s1, s2, p.0, p.1) + ColumnCost(col.0, col.1) == TableCost(s1, s2, i, j)
  {
    if i != 0 && j != 0 {
      var d, t, l := TableCost(s1, s2, i - 1, j - 1), TableCost(s1, s2, i - 1, j), TableCost(s1, s2, i, j - 1);
      var st := Choose(d + Substitution(s1[i - 1], s2[j - 1]), t + INDEL, l + INDEL);
      CellChoice(s1, s2, i, j);
      StepCost(s1, s2, i, j, st, d, t, l);
      TargetCost(s1, s2, i, j, st);
    }
  }

  /** The value of the neighbour a step points to is that step's pick among
      the values of the diagonal, top and left neighbours. */
  lemma TargetCost(s1: string, s2: string, i: int, j: int, st: Step)
    requires 1 <= i <= |s1| && 1 <= j <= |s2|
    ensures var p := Target(st, i, j);
            TableCost(s1, s2, p.0, p.1)
            == Candidate(st, TableCost(s1, s2, i - 1, j - 1), TableCost(s1, s2, i - 1, j), TableCost(s1, s2, i, j - 1))
  {
  }

  /** Each of the three steps out of an interior cell emits a column whose
      cost, added to the value of the cell it steps to, is that step's
      candidate; d, t and l are the values of the diagonal, top and left
      neighbours. */
  lemma StepCost(s1: string, s2: string, i: int, j: int, st: Step, d: int, t: int, l: int)
    requires 1 <= i <= |s1| && 1 <= j <= |s2|
    requires GAP !in s1 && GAP !in s2
    ensures var col := StepColumn(s1, s2, i, j, Target(st, i, j));
            Candidate(st, d, t, l) + ColumnCost(col.0, col.1)
            == Candidate(st, d + Substitution(s1[i - 1], s2[j - 1]), t + INDEL, l + INDEL)
  {
    match st
    case Diagonal =>
      assert s1[i - 1] in s1 && s2[j - 1] in s2;
    case Top =>
      assert s1[i - 1] in s1;
    case Left =>
      assert s2[j - 1] in s2;
  }

  /** Over the table align builds, and for inputs without the gap symbol,
      the column-by-column cost of the walk from (i, j) is the cost of cell
      (i, j). */
  lemma {:induction false} TraceCost(s1: string, s2: string, i: int, j: int)
    requires 0 <= i <= |s1| && 0 <= j <= |s2|
    requires GAP !in s1 && GAP !in s2
    ensures var t := Trace(s1, s2, PrevTable(s1, s2), i, j);
            AlignmentCost(t.0, t.1) == TableCost(s1, s2, i, j)
    decreases i + j
  {
    if i != 0 || j != 0 {
      var prev := PrevTable(s1, s2);
      PrevTableAt(s1, s2, i, j);
      var p := prev[(i, j)];
      TraceCost(s1, s2, p.0, p.1);
      TraceCostStep(s1, s2, prev, i, j);
    }
  }

  /** The inductive step of TraceCost, over any well-formed table that
      records PrevCell at (i, j): if the walk from the predecessor costs that
      cell's value, the walk from (i, j) costs the value of (i, j). */
  lemma TraceCostStep(s1: string, s2: string, prev: PrevMap, i: int, j: int)
    requires WellFormed(prev, |s1|, |s2|)
    requires 0 <= i <= |s1| && 0 <= j <= |s2| && (i != 0 || j != 0)
    requires GAP !in s1 && GAP !in s2
    requires (i, j) in prev && prev[(i, j)] == PrevCell(s1, s2, i, j)
    requires var p := prev[(i, j)];
             var t := Trace(s1, s2, prev, p.0, p.1);
             AlignmentCost(t.0, t.1) == TableCost(s1, s2, p.0, p.1)
    ensures var t := Trace(s1, s2, prev, i, j);
            AlignmentCost(t.0, t.1) == TableCost(s1, s2, i, j)
  {
    var p := prev[(i, j)];
    var t := Trace(s1, s2, prev, p.0, p.1);
    var col := StepColumn(s1, s2, i, j, p);
    TraceStep(s1, s2, prev, i, j);
    AlignmentCostSnoc(t.0, t.1, col.0, col.1);
    PrevCellCost(s1, s2, i, j);
  }

  /** Against an empty second sequence, the walk copies s1[..i] and pairs
      every symbol with a gap. */
  lemma {:induction false} TraceAgainstEmptySecond(s1: string, s2: string, prev: PrevMap, i: int)
    requires WellFormed(prev, |s1|, |s2|)
    requires 0 <= i <= |s1| && s2 == []
    ensures var t := Trace(s1, s2, prev, i, 0);
            t.0 == s1[..i] && forall k :: 0 <= k < |t.1| ==> t.1[k] == GAP
    decreases i
  {
    if i != 0 {
      assert StepOk(prev, i, 0);
      TraceAgainstEmptySecond(s1, s2, prev, i - 1);
      assert s1[..i] == s1[..i - 1] + [s1[i - 1]];
    }
  }

  /** Against an empty first sequence, the walk copies s2[..j] and pairs
      every symbol with a gap. */
  lemma {:induction false} TraceAgainstEmptyFirst(s1: string, s2: string, prev: PrevMap, j: int)
    requires WellFormed(prev, |s1|, |s2|)
    requires 0 <= j <= |s2| && s1 == []
    ensures var t := Trace(s1, s2, prev, 0, j);
            t.1 == s2[..j] && forall k :: 0 <= k < |t.0| ==> t.0[k] == GAP
    decreases j
  {
    if j != 0 {
      assert StepOk(prev, 0, j);
      TraceAgainstEmptyFirst(s1, s2, prev, j - 1);
      assert s2[..j] == s2[..j - 1] + [s2[j - 1]];
    }
  }

  /** What the walk over the whole table align builds yields: an alignment
      of s1 and s2 whose column costs add up to Cost(s1, s2) when the inputs
      have no gap symbol, and the all-gap string opposite an empty input. */
  lemma WalkOfTable(s1: string, s2: string)
    ensures var t := Trace(s1, s2, PrevTable(s1, s2), |s1|, |s2|);
            (GAP !in s1 && GAP !in s2 ==> IsAlignment(t.0, t.1, s1, s2) && AlignmentCost(t.0, t.1) == Cost(s1, s2)) &&
            (s2 == [] ==> Cost(s1, s2) == INDEL * |s1| && t.0 == s1 && forall k :: 0 <= k < |t.1| ==> t.1[k] == GAP) &&
            (s1 == [] ==> Cost(s1, s2) == INDEL * |s2| && t.1 == s2 && forall k :: 0 <= k < |t.0| ==> t.0[k] == GAP)
  {
    var prev := PrevTable(s1, s2);
    assert s1[..|s1|] == s1 && s2[..|s2|] == s2;
    if GAP !in s1 && GAP !in s2 {
      TraceIsAlignment(s1, s2, prev, |s1|, |s2|);
      TraceCost(s1, s2, |s1|, |s2|);
      TableCorner(s1, s2);
    }
    if s2 == [] {
      TraceAgainstEmptySecond(s1, s2, prev, |s1|);
      CostBoundary(s1);
    }
    if s1 == [] {
      TraceAgainstEmptyFirst(s1, s2, prev, |s2|);
      CostBoundary(s2);
    }
  }

  /** Two maps with the same keys and the same value at every key are equal. */
  lemma MapsAgree(p: PrevMap, q: PrevMap)
    requires forall c :: c in p ==> c in q && p[c] == q[c]
    requires forall c :: c in q ==> c in p
    ensures p == q
  {
  }
}
