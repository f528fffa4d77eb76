/** `Matrix` (Collections/Matrix.swift): a grid of `rowCount` rows of
    `columnCount` cells, stored row after row in one array. */
module Matrices {
  import opened Wrappers

  /** Where cell `(row, column)` lives in the row-major grid. */
  function Offset(row: int, column: int, columnCount: int): int
  {
    row * columnCount + column
  }

  /** Every in-range cell has its own place inside the grid: offsets lie in
      `[0, rowCount * columnCount)`, and two distinct cells never share one. */
  lemma OffsetLayout(rowCount: int, columnCount: int, r: int, c: int, r2: int, c2: int)
    requires 0 <= r < rowCount && 0 <= c < columnCount
    requires 0 <= r2 < rowCount && 0 <= c2 < columnCount
    ensures 0 <= Offset(r, c, columnCount) < rowCount * columnCount
    ensures (r, c) != (r2, c2) ==> Offset(r, c, columnCount) != Offset(r2, c2, columnCount)
  {
    OffsetBelow(r, c, columnCount, rowCount);
    if r < r2 {
      OffsetBelow(r, c, columnCount, r2);
    } else if r2 < r {
      OffsetBelow(r2, c2, columnCount, r);
    }
  }

  /** Row `r` ends before row `bound` starts when `r < bound`. */
  lemma OffsetBelow(r: int, c: int, columnCount: int, bound: int)
    requires 0 <= r < bound && 0 <= c < columnCount
    ensures 0 <= Offset(r, c, columnCount) < bound * columnCount
  {
    assert bound * columnCount == (bound - r - 1) * columnCount + r * columnCount + columnCount;
    assert (bound - r - 1) * columnCount >= 0;
    assert r * columnCount >= 0;
  }

  /** The grid after the column setter has written the first `n` rows. */
  function WriteColumn<T>(grid: seq<T>, columnCount: int, column: int, values: seq<T>, n: nat): (r: seq<T>)
    requires n <= |values|
    requires forall i :: 0 <= i < n ==> 0 <= Offset(i, column, columnCount) < |grid|
    ensures |r| == |grid|
  {
    if n == 0 then grid
    else WriteColumn(grid, columnCount, column, values, n - 1)[Offset(n - 1, column, columnCount) := values[n - 1]]
  }

  /** In a grid holding every cell, every row starts and ends inside. */
  lemma RowInside(rowCount: int, columnCount: int, i: int)
    requires 0 <= i < rowCount && columnCount >= 0
    ensures 0 <= i * columnCount <= i * columnCount + columnCount <= rowCount * columnCount
  {
    assert rowCount * columnCount == (rowCount - i - 1) * columnCount + (i + 1) * columnCount;
    assert (rowCount - i - 1) * columnCount >= 0;
    assert i * columnCount + columnCount == (i + 1) * columnCount;
    assert i * columnCount >= 0;
  }

  /** In a grid holding every cell, every cell of a valid column is inside. */
  lemma ColumnInside(rowCount: int, columnCount: int, column: int)
    requires 0 <= column < columnCount && rowCount >= 0
    ensures forall i :: 0 <= i < rowCount ==> 0 <= Offset(i, column, columnCount) < rowCount * columnCount
  {
    forall i | 0 <= i < rowCount
      ensures 0 <= Offset(i, column, columnCount) < rowCount * columnCount
    {
      OffsetBelow(i, column, columnCount, rowCount);
    }
  }

  /** The column setter puts `values[i]` in row `i` of the column. */
  lemma {:induction false} WriteColumnWrites<T>(grid: seq<T>, rowCount: nat, columnCount: int,
                                               column: int, values: seq<T>, n: nat, i: nat)
    requires n <= rowCount && n <= |values| && 0 <= column < columnCount
    requires |grid| == rowCount * columnCount
    requires i < n
    ensures forall j :: 0 <= j < n ==> 0 <= Offset(j, column, columnCount) < |grid|
    ensures WriteColumn(grid, columnCount, column, values, n)[Offset(i, column, columnCount)] == values[i]
    decreases n
  {
    ColumnInside(rowCount, columnCount, column);
    if i < n - 1 {
      WriteColumnWrites(grid, rowCount, columnCount, column, values, n - 1, i);
      OffsetLayout(rowCount, columnCount, i, column, n - 1, column);
    }
  }

  /** The column setter leaves the cells of every other column alone. */
  lemma {:induction false} WriteColumnKeeps<T>(grid: seq<T>, rowCount: nat, columnCount: int,
                                              column: int, values: seq<T>, n: nat, r: int, c: int)
    requires n <= rowCount && n <= |values| && 0 <= column < columnCount
    requires |grid| == rowCount * columnCount
    requires 0 <= r < rowCount && 0 <= c < columnCount && c != column
    ensures forall j :: 0 <= j < n ==> 0 <= Offset(j, column, columnCount) < |grid|
    ensures 0 <= Offset(r, c, columnCount) < |grid|
    ensures WriteColumn(grid, columnCount, column, values, n)[Offset(r, c, columnCount)]
            == grid[Offset(r, c, columnCount)]
    decreases n
  {
    ColumnInside(rowCount, columnCount, column);
    OffsetLayout(rowCount, columnCount, r, c, r, c);
    if n > 0 {
      WriteColumnKeeps(grid, rowCount, columnCount, column, values, n - 1, r, c);
      OffsetLayout(rowCount, columnCount, r, c, n - 1, column);
    }
  }

  class Matrix<T> {
    const rowCount: int
    const columnCount: int
    var grid: seq<T>

    /** Non-negative dimensions and a grid holding every cell. */
    predicate Valid()
      reads this
    {
      rowCount >= 0 && columnCount >= 0 && |grid| == rowCount * columnCount
    }

    /** `init(height:width:initial:)`: `rowCount * columnCount` copies of
        `initial`; a negative product traps in `Array(repeating:count:)`. */
    constructor (height: int, width: int, initial: T)
      requires height * width >= 0
      ensures rowCount == height && columnCount == width
      ensures |grid| == height * width
      ensures forall i :: 0 <= i < |grid| ==> grid[i] == initial
      ensures height >= 0 && width >= 0 ==> Valid()
    {
      rowCount := height;
      columnCount := width;
      grid := seq(height * width, _ => initial);
    }

    /** The private `index(_:_:)`: nothing unless `row < rowCount` and
        `column < columnCount`; negative indices are not checked. */
    function Index(row: int, column: int): (r: Option<int>)
      reads this
      ensures r.None? <==> row >= rowCount || column >= columnCount
      ensures Valid() && 0 <= row && 0 <= column && r.Some? ==> 0 <= r.value < |grid|
      ensures r.Some? ==> r.value == Offset(row, column, columnCount)
    {
      if row < rowCount && column < columnCount then
        if Valid() && 0 <= row && 0 <= column then
          OffsetLayout(rowCount, columnCount, row, column, row, column);
          Some(Offset(row, column, columnCount))
        else
          Some(Offset(row, column, columnCount))
      else None
    }

    /** A cell can be read or written when `index` finds it inside the grid;
        otherwise the subscript traps. */
    predicate HasCell(row: int, column: int)
      reads this
    {
      Index(row, column).Some? && 0 <= Index(row, column).value < |grid|
    }

    /** The cell getter. */
    function Get(row: int, column: int): (r: T)
      requires HasCell(row, column)
      reads this
      ensures r == grid[Offset(row, column, columnCount)]
    {
      grid[Index(row, column).value]
    }

    /** The cell setter: that cell takes the value and no other cell changes. */
    method Set(row: int, column: int, value: T)
      requires HasCell(row, column)
      modifies this
      ensures grid == old(grid)[Offset(row, column, columnCount) := value]
      ensures Get(row, column) == value
      ensures Valid() ==> forall r, c ::
                (0 <= r < rowCount && 0 <= c < columnCount && 0 <= row && 0 <= column
                 && (r, c) != (row, column)) ==> Get(r, c) == old(Get(r, c))
    {
      var index := Index(row, column).value;
      grid := grid[index := value];
      if Valid() && 0 <= row && 0 <= column {
        forall r, c | 0 <= r < rowCount && 0 <= c < columnCount && (r, c) != (row, column)
          ensures Get(r, c) == old(Get(r, c))
        {
          OffsetLayout(rowCount, columnCount, r, c, row, column);
        }
      }
    }

    /** Row `row` lies inside the grid. */
    predicate HasRow(row: int)
      reads this
    {
      0 <= row * columnCount <= row * columnCount + columnCount <= |grid|
    }

    /** The row getter: the `columnCount` cells of that row, left to right. */
    function Row(row: int): (r: seq<T>)
      requires HasRow(row)
      reads this
      ensures |r| == columnCount
      ensures forall c :: 0 <= c < columnCount ==> r[c] == grid[Offset(row, c, columnCount)]
    {
      grid[row * columnCount..row * columnCount + columnCount]
    }

    /** The row setter: the row's slice is replaced by `newValue`, whatever its
        length; the grid keeps its length when `newValue` has a row's length,
        and then reading the row gives `newValue` back. */
    method SetRow(row: int, newValue: seq<T>)
      requires HasRow(row)
      modifies this
      ensures grid == old(grid)[..row * columnCount] + newValue + old(grid)[row * columnCount + columnCount..]
      ensures |newValue| == columnCount ==> |grid| == old(|grid|) && HasRow(row) && Row(row) == newValue
    {
      var startIndex := row * columnCount;
      var endIndex := row * columnCount + columnCount;
      grid := grid[..startIndex] + newValue + grid[endIndex..];
    }

    /** Every cell of column `column` lies inside the grid. */
    predicate HasColumn(column: int)
      reads this
    {
      rowCount >= 0 && forall i :: 0 <= i < rowCount ==> 0 <= Offset(i, column, columnCount) < |grid|
    }

    /** The column getter: the column's cell in each row, top to bottom. */
    function Column(column: int): (r: seq<T>)
      requires HasColumn(column)
      reads this
      ensures |r| == rowCount
      ensures forall i :: 0 <= i < rowCount ==> r[i] == grid[Offset(i, column, columnCount)]
    {
      seq(rowCount, i requires 0 <= i < rowCount && HasColumn(column) reads this =>
        grid[Offset(i, column, columnCount)])
    }

    /** The column setter: row by row, the column's cell takes the value at
        that row. */
    method SetColumn(column: int, newValue: seq<T>)
      requires HasColumn(column) && |newValue| >= rowCount
      modifies this
      ensures grid == WriteColumn(old(grid), columnCount, column, newValue, rowCount)
    {
      for i := 0 to rowCount
        invariant |grid| == old(|grid|)
        invariant grid == WriteColumn(old(grid), columnCount, column, newValue, i)
      {
        var index := Offset(i, column, columnCount);
        grid := grid[index := newValue[i]];
      }
    }

    /** `rows`: every row, top to bottom. */
    function Rows(): (r: seq<seq<T>>)
      requires rowCount >= 0 && forall i :: 0 <= i < rowCount ==> HasRow(i)
      reads this
      ensures |r| == rowCount
      ensures forall i :: 0 <= i < rowCount ==> r[i] == Row(i)
    {
      seq(rowCount, i requires 0 <= i < rowCount && HasRow(i) reads this => Row(i))
    }

    /** `columns`: every column, left to right. */
    function Columns(): (r: seq<seq<T>>)
      requires columnCount >= 0 && forall c :: 0 <= c < columnCount ==> HasColumn(c)
      reads this
      ensures |r| == columnCount
      ensures forall c :: 0 <= c < columnCount ==> r[c] == Column(c)
    {
      seq(columnCount, c requires 0 <= c < columnCount && HasColumn(c) reads this => Column(c))
    }

    /** `endIndex`: the collection's count, the number of cells. */
    function EndIndex(): (r: int)
      reads this
      ensures Valid() ==> r == rowCount * columnCount
      ensures r == |grid|
    {
      |grid|
    }
  }

  /** A valid matrix has all its rows and columns, `rowCount` and
      `columnCount` of them. */
  lemma ValidMatrixShape<T>(m: Matrix<T>)
    requires m.Valid()
    ensures forall i :: 0 <= i < m.rowCount ==> m.HasRow(i)
    ensures forall c :: 0 <= c < m.columnCount ==> m.HasColumn(c)
    ensures |m.Rows()| == m.rowCount && |m.Columns()| == m.columnCount
  {
    forall i | 0 <= i < m.rowCount
      ensures m.HasRow(i)
    {
      RowInside(m.rowCount, m.columnCount, i);
    }
    forall c | 0 <= c < m.columnCount
      ensures m.HasColumn(c)
    {
      ColumnInside(m.rowCount, m.columnCount, c);
    }
  }

  /** After setting a valid column, reading it gives the new values and the
      other columns are unchanged. */
  lemma SetColumnThenRead<T>(before: seq<T>, after: Matrix<T>, column: int, newValue: seq<T>)
    requires after.Valid() && 0 <= column < after.columnCount && |newValue| >= after.rowCount
    requires |before| == |after.grid|
    requires (forall i :: 0 <= i < after.rowCount ==> 0 <= Offset(i, column, after.columnCount) < |before|)
    requires after.grid == WriteColumn(before, after.columnCount, column, newValue, after.rowCount)
    ensures after.HasColumn(column) && after.Column(column) == newValue[..after.rowCount]
    ensures forall r, c :: 0 <= r < after.rowCount && 0 <= c < after.columnCount && c != column ==>
              after.Get(r, c) == before[Offset(r, c, after.columnCount)]
  {
    ValidMatrixShape(after);
    forall i | 0 <= i < after.rowCount
      ensures after.Column(column)[i] == newValue[i]
    {
      WriteColumnWrites(before, after.rowCount, after.columnCount, column, newValue, after.rowCount, i);
    }
    forall r, c | 0 <= r < after.rowCount && 0 <= c < after.columnCount && c != column
      ensures after.HasCell(r, c) && after.Get(r, c) == before[Offset(r, c, after.columnCount)]
    {
      WriteColumnKeeps(before, after.rowCount, after.columnCount, column, newValue, after.rowCount, r, c);
    }
  }

  /** `==`: the grids are equal; the dimensions are not compared. */
  function Equals<T(==)>(lhs: Matrix<T>, rhs: Matrix<T>): (b: bool)
    reads lhs, rhs
    ensures b <==> |lhs.grid| == |rhs.grid|
                   && forall i :: 0 <= i < |lhs.grid| ==> lhs.grid[i] == rhs.grid[i]
  {
    lhs.grid == rhs.grid
  }

  /** A 2 by 3 and a 3 by 2 matrix of zeros compare equal. */
  method DimensionsAreNotCompared() returns (b: bool)
    ensures b
  {
    var wide := new Matrix(2, 3, 0);
    var tall := new Matrix(3, 2, 0);
    assert wide.grid == tall.grid;
    b := Equals(wide, tall);
  }
}
