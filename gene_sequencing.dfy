/** GeneSequencing.align: fill the cost table EDIT_DISTANCE and the
    predecessor dictionary PREV, walk PREV back from the last cell, and
    return the cost together with the two aligned strings. */
module GeneSequencing {
  import opened Scoring
  import opened Alignments
  import opened Predecessors

  /** Whether the row-major fill has already written the final value of cell
      c when it is about to visit (row, col): the first row and the first
      column are set up front, then rows are filled in order, left to right. */
  ghost predicate Settled(c: Cell, row: int, col: int)
  {
    c.0 == 0 || c.1 == 0 || c.0 < row || (c.0 == row && c.1 < col)
  }

  /** Builds the (|seq1| + 1) x (|seq2| + 1) cost table and the predecessor
      map, visiting the interior cells in row-major order. */
  method FillTable(seq1: string, seq2: string) returns (dist: array2<int>, prev: PrevMap)
    ensures fresh(dist)
    ensures dist.Length0 == |seq1| + 1 && dist.Length1 == |seq2| + 1
    ensures forall i, j {:trigger dist[i, j]} :: 0 <= i <= |seq1| && 0 <= j <= |seq2| ==> dist[i, j] == TableCost(seq1, seq2, i, j)
    ensures forall i :: 0 <= i <= |seq1| ==> dist[i, 0] == INDEL * i
    ensures forall j :: 0 <= j <= |seq2| ==> dist[0, j] == INDEL * j
    ensures prev == PrevTable(seq1, seq2)
  {
    var n, m := |seq1|, |seq2|;
    ghost var table := PrevTable(seq1, seq2);
    // Interior cells start at 0, a placeholder every one of them overwrites
    // before it is read.
    dist := new int[n + 1, m + 1]((row, col) => if col == 0 then row * INDEL else if row == 0 then col * INDEL else 0);
    forall i, j | 0 <= i <= n && 0 <= j <= m && Settled((i, j), 1, 1)
      ensures dist[i, j] == TableCost(seq1, seq2, i, j)
    {
    }
    prev := BoundaryPrev(n, m);
    BoundaryPrevFilled(seq1, seq2);

    prev := FillRows(seq1, seq2, dist, prev, table);
    MapsAgree(prev, table);
  }

  /** A table that holds TableCost in every cell satisfies the recurrence of
      the fill: every interior cell is the least of its three candidates. */
  lemma FilledRecurrence(seq1: string, seq2: string, dist: array2<int>)
    requires dist.Length0 == |seq1| + 1 && dist.Length1 == |seq2| + 1
    requires forall i, j {:trigger dist[i, j]} :: 0 <= i <= |seq1| && 0 <= j <= |seq2| ==> dist[i, j] == TableCost(seq1, seq2, i, j)
    ensures forall i, j {:trigger dist[i, j]} :: 1 <= i <= |seq1| && 1 <= j <= |seq2| ==>
              dist[i, j] == Min3(dist[i - 1, j - 1] + Substitution(seq1[i - 1], seq2[j - 1]),
                                 dist[i - 1, j] + INDEL,
                                 dist[i, j - 1] + INDEL)
  {
    forall i, j | 1 <= i <= |seq1| && 1 <= j <= |seq2|
      ensures dist[i, j] == Min3(dist[i - 1, j - 1] + Substitution(seq1[i - 1], seq2[j - 1]),
                                 dist[i - 1, j] + INDEL,
                                 dist[i, j - 1] + INDEL)
    {
      assert dist[i - 1, j - 1] == TableCost(seq1, seq2, i - 1, j - 1);
      assert dist[i - 1, j] == TableCost(seq1, seq2, i - 1, j);
      assert dist[i, j - 1] == TableCost(seq1, seq2, i, j - 1);
    }
  }

  /** Every cell settled before visiting (row, col) holds its final cost. */
  ghost predicate DistFilled(seq1: string, seq2: string, dist: array2<int>, row: int, col: int)
    requires dist.Length0 == |seq1| + 1 && dist.Length1 == |seq2| + 1
    reads dist
  {
    forall i, j {:trigger dist[i, j]} :: 0 <= i <= |seq1| && 0 <= j <= |seq2| && Settled((i, j), row, col) ==>
      dist[i, j] == TableCost(seq1, seq2, i, j)
  }

  /** The predecessor map holds exactly the settled cells of the table, each
      with the predecessor the finished table gives it. */
  ghost predicate PrevFilled(prev: PrevMap, table: PrevMap, n: int, m: int, row: int, col: int)
  {
    (forall c :: c in prev <==> InTable(c, n, m) && Settled(c, row, col)) &&
    (forall c :: c in prev ==> c in table && prev[c] == table[c])
  }

  /** Writing the final cost of (row, col) settles one more cell. */
  lemma DistFilledStep(seq1: string, seq2: string, dist: array2<int>, row: int, col: int)
    requires dist.Length0 == |seq1| + 1 && dist.Length1 == |seq2| + 1
    requires 1 <= row <= |seq1| && 1 <= col <= |seq2|
    requires DistFilled(seq1, seq2, dist, row, col)
    requires dist[row, col] == TableCost(seq1, seq2, row, col)
    ensures DistFilled(seq1, seq2, dist, row, col + 1)
  {
  }

  /** Before the row loop, the boundary predecessors are exactly the
      settled part of the finished table. */
  lemma BoundaryPrevFilled(seq1: string, seq2: string)
    ensures PrevFilled(BoundaryPrev(|seq1|, |seq2|), PrevTable(seq1, seq2), |seq1|, |seq2|, 1, 1)
  {
    BoundaryPrevAgrees(seq1, seq2);
  }

  /** Recording the predecessor of (row, col) settles one more cell. */
  lemma PrevFilledStep(prev: PrevMap, table: PrevMap, n: int, m: int, row: int, col: int)
    requires 1 <= row <= n && 1 <= col <= m
    requires (row, col) in table
    requires PrevFilled(prev, table, n, m, row, col)
    ensures PrevFilled(prev[(row, col) := table[(row, col)]], table, n, m, row, col + 1)
  {
    var prev' := prev[(row, col) := table[(row, col)]];
    forall c | InTable(c, n, m) && Settled(c, row, col + 1) ensures c in prev' {
      if c !in prev { assert c == (row, col); }
    }
  }

  /** The outer loop of the fill: rows 1..|seq1| in order. */
  method FillRows(seq1: string, seq2: string, dist: array2<int>, prev: PrevMap, ghost table: PrevMap)
    returns (prev': PrevMap)
    requires dist.Length0 == |seq1| + 1 && dist.Length1 == |seq2| + 1
    requires table == PrevTable(seq1, seq2)
    requires DistFilled(seq1, seq2, dist, 1, 1)
    requires PrevFilled(prev, table, |seq1|, |seq2|, 1, 1)
    modifies dist
    ensures forall i, j {:trigger dist[i, j]} :: 0 <= i <= |seq1| && 0 <= j <= |seq2| ==> dist[i, j] == TableCost(seq1, seq2, i, j)
    ensures forall c :: c in prev' <==> InTable(c, |seq1|, |seq2|)
    ensures forall c :: c in prev' ==> c in table && prev'[c] == table[c]
  {
    var n, m := |seq1|, |seq2|;
    prev' := prev;
    for row := 1 to n + 1
      invariant DistFilled(seq1, seq2, dist, row, 1)
      invariant PrevFilled(prev', table, n, m, row, 1)
    {
      PrevTableRow(seq1, seq2, row);
      prev' := FillRow(seq1, seq2, dist, prev', row, table);
    }
  }

  /** One row of the fill: the inner loop over the columns 1..|seq2|, given
      the predecessor table it is to reproduce. */
  method FillRow(seq1: string, seq2: string, dist: array2<int>, prev: PrevMap, row: int, ghost table: PrevMap)
    returns (prev': PrevMap)
    requires dist.Length0 == |seq1| + 1 && dist.Length1 == |seq2| + 1
    requires 1 <= row <= |seq1|
    requires forall j :: 1 <= j <= |seq2| ==> (row, j) in table && table[(row, j)] == PrevCell(seq1, seq2, row, j)
    requires DistFilled(seq1, seq2, dist, row, 1)
    requires PrevFilled(prev, table, |seq1|, |seq2|, row, 1)
    modifies dist
    ensures DistFilled(seq1, seq2, dist, row + 1, 1)
    ensures PrevFilled(prev', table, |seq1|, |seq2|, row + 1, 1)
    ensures forall i, j {:trigger dist[i, j]} :: row < i <= |seq1| && 0 <= j <= |seq2| ==> dist[i, j] == old(dist[i, j])
  {
    var n, m := |seq1|, |seq2|;
    prev' := prev;
    for col := 1 to m + 1
      invariant DistFilled(seq1, seq2, dist, row, col)
      invariant PrevFilled(prev', table, n, m, row, col)
      invariant forall i, j {:trigger dist[i, j]} :: row < i <= n && 0 <= j <= m ==> dist[i, j] == old(dist[i, j])
    {
      PrevFilledStep(prev', table, n, m, row, col);
      prev' := FillCell(seq1, seq2, dist, prev', row, col, table);
    }
  }

  /** One interior cell, as the body of the nested loops computes it: the
      diagonal candidate is written first, then the top candidate and the
      left candidate each overwrite the cell when they are not larger. */
  method FillCell(seq1: string, seq2: string, dist: array2<int>, prev: PrevMap, row: int, col: int,
                  ghost table: PrevMap)
    returns (prev': PrevMap)
    requires dist.Length0 == |seq1| + 1 && dist.Length1 == |seq2| + 1
    requires 1 <= row <= |seq1| && 1 <= col <= |seq2|
    requires DistFilled(seq1, seq2, dist, row, col)
    requires (row, col) in table && table[(row, col)] == PrevCell(seq1, seq2, row, col)
    modifies dist
    ensures dist[row, col] == TableCost(seq1, seq2, row, col)
    ensures forall i, j :: 0 <= i < dist.Length0 && 0 <= j < dist.Length1 && (i != row || j != col) ==>
              dist[i, j] == old(dist[i, j])
    ensures prev' == prev[(row, col) := table[(row, col)]]
    ensures DistFilled(seq1, seq2, dist, row, col + 1)
  {
    assert Settled((row - 1, col - 1), row, col) && Settled((row - 1, col), row, col) && Settled((row, col - 1), row, col);
    ghost var diag := dist[row - 1, col - 1] + Substitution(seq1[row - 1], seq2[col - 1]);
    ghost var top := dist[row - 1, col] + INDEL;
    ghost var left := dist[row, col - 1] + INDEL;
    ghost var choice := Choose(diag, top, left);
    CellChoice(seq1, seq2, row, col);

    var prevDiagDist := dist[row - 1, col - 1];
    dist[row, col] := if seq1[row - 1] == seq2[col - 1] then prevDiagDist + MATCH else prevDiagDist + SUB;
    prev' := prev[(row, col) := (row - 1, col - 1)];

    var potentialDistTop := dist[row - 1, col] + INDEL;
    if potentialDistTop <= dist[row, col] {
      dist[row, col] := potentialDistTop;
      prev' := prev[(row, col) := (row - 1, col)];
    }

    var potentialDistLeft := dist[row, col - 1] + INDEL;
    if potentialDistLeft <= dist[row, col] {
      dist[row, col] := potentialDistLeft;
      prev' := prev[(row, col) := (row, col - 1)];
    }

    assert dist[row, col] == Candidate(choice, diag, top, left);
    assert prev' == prev[(row, col) := Target(choice, row, col)];
    assert DistFilled(seq1, seq2, dist, row, col) by {
      forall i, j | 0 <= i <= |seq1| && 0 <= j <= |seq2| && Settled((i, j), row, col)
        ensures dist[i, j] == TableCost(seq1, seq2, i, j)
      {
        assert old(dist[i, j]) == TableCost(seq1, seq2, i, j);
      }
    }
    DistFilledStep(seq1, seq2, dist, row, col);
  }

  /** Walks the predecessor map from (|seq1|, |seq2|) back to the origin,
      appending one column per step to two accumulators that are then
      reversed. */
  method Backtrace(seq1: string, seq2: string, prev: PrevMap) returns (seq1Aligned: string, seq2Aligned: string)
    requires WellFormed(prev, |seq1|, |seq2|)
    ensures (seq1Aligned, seq2Aligned) == Trace(seq1, seq2, prev, |seq1|, |seq2|)
  {
    ghost var whole := Trace(seq1, seq2, prev, |seq1|, |seq2|);
    var seq1AlignedBackwards, seq2AlignedBackwards := "", "";
    var curRow, curCol := |seq1|, |seq2|;
    while curRow > 0 || curCol > 0
      invariant 0 <= curRow <= |seq1| && 0 <= curCol <= |seq2|
      invariant Trace(seq1, seq2, prev, curRow, curCol).0 + Reverse(seq1AlignedBackwards) == whole.0
      invariant Trace(seq1, seq2, prev, curRow, curCol).1 + Reverse(seq2AlignedBackwards) == whole.1
      decreases curRow + curCol
    {
      TraceStep(seq1, seq2, prev, curRow, curCol);
      var p := prev[(curRow, curCol)];
      ghost var col := StepColumn(seq1, seq2, curRow, curCol, p);
      ghost var rest := Trace(seq1, seq2, prev, p.0, p.1);
      ghost var back1, back2 := seq1AlignedBackwards, seq2AlignedBackwards;
      if p.0 < curRow && p.1 < curCol {
        seq1AlignedBackwards := seq1AlignedBackwards + [seq1[curRow - 1]];
        seq2AlignedBackwards := seq2AlignedBackwards + [seq2[curCol - 1]];
      } else if p.0 < curRow {
        seq1AlignedBackwards := seq1AlignedBackwards + [seq1[curRow - 1]];
        seq2AlignedBackwards := seq2AlignedBackwards + [GAP];
      } else if p.1 < curCol {
        seq1AlignedBackwards := seq1AlignedBackwards + [GAP];
        seq2AlignedBackwards := seq2AlignedBackwards + [seq2[curCol - 1]];
      }
      assert seq1AlignedBackwards == back1 + [col.0] && seq2AlignedBackwards == back2 + [col.1];
      ReverseShift(rest.0, back1, col.0);
      ReverseShift(rest.1, back2, col.1);
      curRow, curCol := p.0, p.1;
    }
    seq1Aligned := Reverse(seq1AlignedBackwards);
    seq2Aligned := Reverse(seq2AlignedBackwards);
    assert seq1Aligned == whole.0 && seq2Aligned == whole.1;
  }

  /** The alignment of seq1 against seq2: the least cost of any alignment,
      and the alignment that the tie-break of the fill selects. */
  method Align(seq1: string, seq2: string) returns (alignCost: int, seq1Aligned: string, seq2Aligned: string)
    ensures alignCost == Cost(seq1, seq2)
    ensures (seq1Aligned, seq2Aligned) == Trace(seq1, seq2, PrevTable(seq1, seq2), |seq1|, |seq2|)
    ensures |seq1Aligned| == |seq2Aligned|
    ensures GAP !in seq1 && GAP !in seq2 ==>
              IsAlignment(seq1Aligned, seq2Aligned, seq1, seq2) &&
              AlignmentCost(seq1Aligned, seq2Aligned) == alignCost
    ensures seq2 == [] ==>
              alignCost == INDEL * |seq1| && seq1Aligned == seq1 &&
              forall k :: 0 <= k < |seq2Aligned| ==> seq2Aligned[k] == GAP
    ensures seq1 == [] ==>
              alignCost == INDEL * |seq2| && seq2Aligned == seq2 &&
              forall k :: 0 <= k < |seq1Aligned| ==> seq1Aligned[k] == GAP
  {
    var dist, prev := FillTable(seq1, seq2);
    seq1Aligned, seq2Aligned := Backtrace(seq1, seq2, prev);
    alignCost := dist[|seq1|, |seq2|];

    TableCorner(seq1, seq2);
    WalkOfTable(seq1, seq2);
  }
}
