/**
 Cells: the (row, column) address of a versioned value. Cells are ordered by row name and
 then by column name, both in unsigned lexicographic byte order; this is the order in
 which a sweep scan hands them out.
 */
module Cells {
  import opened Ordering
  import opened Bytes

  datatype Cell = Cell(row: Bytes, col: Bytes)

  predicate CellLess(a: Cell, b: Cell) {
    LexLess(a.row, b.row) || (a.row == b.row && LexLess(a.col, b.col))
  }

  /** Row-then-column order is a strict total order on cells. */
  lemma CellLessIsStrictTotalOrder()
    ensures StrictTotalOrder(CellLess)
  {
    LexLessIsStrictTotalOrder();
  }

  /** The cell the sweep tests address by row and column number (`cell(rowNum, colNum)`). */
  function CellOf(rowNum: Int32, colNum: Int32): (c: Cell)
    ensures |c.row| == 4 && |c.col| == 4
    ensures IntFromBytes(c.row) == rowNum && IntFromBytes(c.col) == colNum
  {
    IntBytesRoundTrip(rowNum);
    IntBytesRoundTrip(colNum);
    Cell(IntToBytes(rowNum), IntToBytes(colNum))
  }

  /**
   For non-negative numbers, the cell order of numbered cells is the numeric order of
   (row, column) pairs.
   */
  lemma CellOfOrdered(r1: Int32, c1: Int32, r2: Int32, c2: Int32)
    requires 0 <= r1 && 0 <= c1 && 0 <= r2 && 0 <= c2
    ensures CellLess(CellOf(r1, c1), CellOf(r2, c2)) <==> r1 < r2 || (r1 == r2 && c1 < c2)
  {
    IntToBytesOrdered(r1, r2);
    IntToBytesOrdered(c1, c2);
    IntBytesRoundTrip(r1);
    IntBytesRoundTrip(r2);
  }
}
