# Global sequence alignment (GeneSequencing.align)

This project models `GeneSequencing.align`, a Needleman–Wunsch global alignment
of two strings with fixed costs: -3 for a column that pairs equal symbols
(`MATCH`), 1 for a column that pairs different symbols (`SUB`) and 5 for a
column that pairs a symbol with the gap `-` (`INDEL`). The steps are modelled
in the same form as the source:

- **The cost table.** `EDIT_DISTANCE` is an `array2<int>` of size
  `(|seq1| + 1) × (|seq2| + 1)`. `GeneSequencing.FillTable` fills it with two
  nested `for` loops (`FillRows` over the rows, `FillRow` over the columns).
  `FillCell` performs the body of the nested loops: for every interior cell it
  writes the diagonal candidate, then overwrites it with the top candidate and
  then with the left candidate whenever that one is not larger.
- **The predecessor dictionary.** `PREV` is a `map<(int, int), (int, int)>`.
  It is seeded with the first row and the first column
  (`Predecessors.BoundaryPrev`) and then updated, cell by cell, in the same
  loops.
- **The backtrace.** `GeneSequencing.Backtrace` is a `while` loop. It walks
  `PREV` from `(|seq1|, |seq2|)` back to `(0, 0)` and appends one column per
  step to two accumulators. The accumulators are reversed at the end.
- **The result.** `GeneSequencing.Align` returns the cost in the last cell and
  the two aligned strings.

Each part of the code is proved against a specification function:

- `Scoring.TableCost` is the recurrence of the table, in the table's own
  indices.
- `Scoring.Cost` is the least alignment cost, defined on the prefixes
  themselves. `Scoring.TableCostIsCost` proves the two agree on every cell,
  and `Alignments.CostIsMinimal` proves that no alignment costs less than
  `Cost`.
- `Scoring.Choose` is the tie-break of an interior cell.
  `Predecessors.PrevTable` is the whole predecessor table that the fill
  builds.
- `Predecessors.Trace` is the walk over a predecessor table.
  `Alignments.RemoveGaps`, `Alignments.AlignmentCost` and
  `Alignments.IsAlignment` state what the aligned output means.

The two outputs always have equal length. When neither input contains `-`:

- removing the gaps from each output gives back its input;
- no column holds two gaps;
- the column-by-column cost of the output is the returned cost;
- that cost is the least cost of any alignment.

Against an empty input, the cost is 5 per symbol of the other input, that
input is copied unchanged, and the side opposite it is all gaps.

The function hard-codes the three costs. `banded` and `align_length` are
only echoed into debug text. The code applies no band, truncates nothing and
never produces an infinite result.

## Model

| member | source | states |
|---|---|---|
| Scoring.Choose | GeneSequencing.py:57-78 | The predecessor picked for an interior cell is Left exactly when the left candidate is not larger than the diagonal and top candidates. It is Top exactly when top is not larger than diagonal and strictly smaller than left. It is Diagonal exactly when diagonal is strictly smaller than both. |
| Scoring.Substitution | GeneSequencing.py:60-64 | A diagonal step costs -3 exactly when the two symbols are equal and 1 exactly when they differ. |
| Scoring.TableCostBounds | GeneSequencing.py:41-78 | Cell (i, j) of the table recurrence `TableCost` holds at least -3 per symbol of the shorter prefix and at most 5·(i + j), the cost of aligning both prefixes with gaps only. |
| Scoring.ChosenIsMinimum | GeneSequencing.py:59-78 | Whichever candidate the tie-break selects, its value is the least of the three candidates. |
| Scoring.CostRecurrence | GeneSequencing.py:55-78 | For non-empty prefixes, the least cost equals the minimum of three candidates: the diagonal one (plus -3 or 1), the top one (plus 5) and the left one (plus 5). |
| Scoring.CostBoundary | GeneSequencing.py:41-47 | Aligning any string against the empty string costs 5 per symbol, on either side. |
| Scoring.CostBounds | GeneSequencing.py:41-78 | The least cost is at least -3 times the length of the shorter input and at most 5 times the total length (all gaps). |
| Scoring.TableCostIsCost | GeneSequencing.py:41-78 | The value of table cell (i, j) is the least cost of aligning the first i symbols of seq1 with the first j symbols of seq2. |
| Scoring.TableCorner | GeneSequencing.py:102 | The last cell of the table holds the least cost of aligning the whole inputs. |
| Alignments.RemoveGaps | GeneSequencing.py:86-100 | The result contains no gap, is no longer than its argument, and equals its argument when that has no gap. |
| Alignments.CostIsMinimal | GeneSequencing.py:55-78 | No alignment of a and b has a lower column-by-column cost than `Cost(a, b)`. |
| Alignments.Reverse | GeneSequencing.py:99-100 | The `[::-1]` reversal of an accumulator keeps its length. |
| Alignments.ReverseAt | GeneSequencing.py:99-100 | Position k of the reversal holds position \|s\| - 1 - k of s. |
| Alignments.ReverseSnoc | GeneSequencing.py:86-100 | Appending a symbol to the backwards accumulator puts it at the front of the reversed string. |
| Predecessors.BoundaryPrev | GeneSequencing.py:49-53 | The seeded map has exactly the first-row and first-column cells other than the origin as keys. A first-column cell maps to the cell above it and a first-row cell maps to the cell on its left. |
| Predecessors.PrevCell | GeneSequencing.py:49-78 | The predecessor recorded for a cell is the cell above on the first column and the cell to the left on the first row. For every cell it is the diagonal, top or left neighbour inside the table. |
| Predecessors.PrevTable | GeneSequencing.py:49-78 | The finished predecessor map has every table cell except the origin as a key. Each maps to its diagonal, top or left neighbour inside the table. |
| Predecessors.BoundaryPrevAgrees | GeneSequencing.py:49-53 | The seeded boundary entries are exactly the boundary entries of the finished table. |
| Predecessors.PrevTableBoundary | GeneSequencing.py:49-53 | In the finished table, (i, 0) maps to (i - 1, 0) and (0, j) maps to (0, j - 1). |
| Predecessors.PrevTableTieBreak | GeneSequencing.py:57-78 | For every interior cell, the recorded predecessor is the left, top or diagonal neighbour under exactly the three tie-break conditions, both directions, stated on the table values of the neighbours. |
| Predecessors.CellChoice | GeneSequencing.py:59-78 | The value written into an interior cell and the predecessor recorded for it come from the same choice. |
| Predecessors.StepColumn | GeneSequencing.py:86-96 | A diagonal or upward step emits the current symbol of seq1 on the first line; a step that stays in its row emits a gap there. A diagonal or leftward step emits the current symbol of seq2 on the second line; a step that stays in its column emits a gap there. |
| Predecessors.Trace | GeneSequencing.py:83-97 | The walk from (i, j) yields two strings of equal length, between max(i, j) and i + j long, and it terminates because every step lowers i + j. |
| Predecessors.TraceStep | GeneSequencing.py:84-97 | The walk from a cell is the walk from its predecessor followed by the column for that step. |
| Predecessors.TraceIsAlignment | GeneSequencing.py:86-96 | For inputs without `-`, the walk over any well-formed table is an alignment of the two prefixes: no column holds two gaps, and removing the gaps gives back the prefixes. |
| Predecessors.PrevCellCost | GeneSequencing.py:59-96 | For inputs without `-`, the cost of the column a recorded step emits, added to the value of the predecessor cell, is the value of the cell. |
| Predecessors.TraceCost | GeneSequencing.py:59-97 | For inputs without `-`, the column-by-column cost of the walk from (i, j) over the finished table is the value of cell (i, j). |
| Predecessors.TraceAgainstEmptySecond | GeneSequencing.py:83-97 | When seq2 is empty, the walk copies seq1 and pairs every symbol with a gap. |
| Predecessors.TraceAgainstEmptyFirst | GeneSequencing.py:83-97 | When seq1 is empty, the walk copies seq2 and pairs every symbol with a gap. |
| Predecessors.WalkOfTable | GeneSequencing.py:80-102 | The walk over the finished table is a least-cost alignment of the inputs, for inputs without `-`. It copies the non-empty input opposite an all-gap string when the other input is empty. |
| GeneSequencing.FillTable | GeneSequencing.py:41-78 | Returns a fresh table of size (\|seq1\| + 1) × (\|seq2\| + 1) whose every cell holds TableCost, with 5·i and 5·j on the borders. The returned predecessor map is exactly PrevTable. |
| GeneSequencing.FilledRecurrence | GeneSequencing.py:55-78 | In a table holding TableCost in every cell, each interior cell equals the minimum of its diagonal (-3 or 1), top (+5) and left (+5) candidates. |
| GeneSequencing.FillRows | GeneSequencing.py:55-78 | After the row loop, every cell holds its final value and every predecessor is recorded as in PrevTable. |
| GeneSequencing.FillRow | GeneSequencing.py:56-78 | One pass of the column loop settles row `row`, in both the table and the predecessor map, and keeps everything settled before it. The rows below `row` are left unchanged. |
| GeneSequencing.PrevFilledStep | GeneSequencing.py:66-78 | Recording the predecessor of the current cell extends the settled part of the map by that one cell. |
| GeneSequencing.FillCell | GeneSequencing.py:59-78 | The three overwrites leave TableCost in the current cell and change no other cell, so the cell is settled. The map gains exactly the predecessor PrevTable gives that cell. |
| GeneSequencing.Backtrace | GeneSequencing.py:80-100 | The loop and the final reversal return exactly the walk Trace from (\|seq1\|, \|seq2\|). |
| GeneSequencing.Align | GeneSequencing.py:37-116 | The returned cost is the least alignment cost of the inputs, and the returned strings are the walk over the finished table and have equal length. For inputs without `-`, the strings align the inputs with no double-gap column and their column cost is the returned cost. When one input is empty, the cost is 5 per symbol of the other input, that input is returned unchanged, and the opposite string is all gaps. |

## Left out

- The PyQt version selection and imports (GeneSequencing.py:3-12) are not modelled. They are GUI library plumbing.
- The unused `import random` and the unused module constants (`MAXINDELS`, lines 14-23) are not modelled. The model names `MATCH`, `SUB` and `INDEL` with the values the function hard-codes.
- The `banded` and `align_length` parameters and the fields they are stored in (lines 38-39) are not modelled. They are only echoed into debug text, and no band or length limit is applied.
- The DEBUG text packaging of the two strings and the result dictionary (lines 103-116) are not modelled. `Align` returns the cost and the raw aligned strings. Despite its `first100` keys, the code truncates nothing.
- `test_me` and the `print` at import time (lines 119-127) are not modelled; they are I/O.
- `math.inf` for interior cells (line 43) becomes 0 in the array initialiser. Every interior cell is overwritten before it is read, and the model proves this.
- The `RowCol` class (lines 26-29) is not modelled; it is unused.
- Strings are sequences of `char`. Python's notion of a character is not distinguished from Dafny's.
- GeneSequencing.Align: the alignment and cost-of-columns properties are stated only for inputs that contain no `-`. The source accepts such inputs, but there an input `-` cannot be told apart from a gap.
- The backtrace's `if/elif/elif` chain (lines 86-96) has no `else`. The model keeps that shape, and the missing case is unreachable because every recorded predecessor is a neighbour.
