/** The index plumbing of the DCT hash: the row-major reshape of the
    greyscale data into a matrix, the top-left corner of the transformed
    matrix, and the anti-diagonal ("snake") read-out of that corner. The
    cosine transform itself is a parameter. */
module Dct {
  import opened Wrappers
  import ArrayUtil
  import opened NjUtil

  // ----------------------------------------------------------------------
  // toMatrix

  /** The error `toMatrix` throws when the data does not fill the shape. */
  datatype ShapeError = LengthMismatch(length: nat, rows: nat, cols: nat)

  lemma RowInside(i: nat, rows: nat, cols: nat)
    requires i < rows
    ensures i * cols + cols <= rows * cols
  {
    ArrayUtil.MulMono(i + 1, rows, cols);
    assert (i + 1) * cols == i * cols + cols;
  }

  /** `toMatrix(arr, rows, cols)`: fails exactly when the length is not
      rows·cols; otherwise row i is built cell by cell from
      arr[i·cols .. i·cols + cols). */
  method ToMatrix<T>(arr: seq<T>, rows: nat, cols: nat) returns (r: Result<seq<seq<T>>, ShapeError>)
    ensures r.Failure? <==> |arr| != rows * cols
    ensures r.Failure? ==> r.error == LengthMismatch(|arr|, rows, cols)
    ensures r.Success? ==> |arr| == rows * cols && r.value == Reshape(arr, rows, cols)
  {
    if |arr| != rows * cols {
      return Failure(LengthMismatch(|arr|, rows, cols));
    }
    var matrix: seq<seq<T>> := [];
    for i := 0 to rows
      invariant |matrix| == i
      invariant forall a :: 0 <= a < i ==> a * cols + cols <= |arr| && matrix[a] == arr[a * cols .. a * cols + cols]
    {
      RowInside(i, rows, cols);
      var row: seq<T> := [];
      for j := 0 to cols
        invariant row == arr[i * cols .. i * cols + j]
      {
        assert arr[i * cols .. i * cols + j + 1] == arr[i * cols .. i * cols + j] + [arr[i * cols + j]];
        row := row + [arr[i * cols + j]];
      }
      matrix := matrix + [row];
    }
    ReshapeRows(arr, rows, cols, matrix);
    return Success(matrix);
  }

  // ----------------------------------------------------------------------
  // getTopLeft

  /** The k×k top-left corner of `pixels`. */
  function TopLeft<T>(pixels: seq<seq<T>>, k: nat): (corner: seq<seq<T>>)
    requires |pixels| >= k && forall r :: 0 <= r < k ==> |pixels[r]| >= k
    ensures IsMatrix(corner, k, k)
    ensures forall r, c :: 0 <= r < k && 0 <= c < k ==> corner[r][c] == pixels[r][c]
  {
    seq(k, r requires 0 <= r < k => pixels[r][..k])
  }

  /** `getTopLeft(pixels, edgeLength)`: `edgeLength` rows that start empty,
      each filled cell by cell from the same cells of `pixels`. */
  method GetTopLeft<T>(pixels: seq<seq<T>>, edgeLength: nat) returns (res: seq<seq<T>>)
    requires |pixels| >= edgeLength && forall r :: 0 <= r < edgeLength ==> |pixels[r]| >= edgeLength
    ensures res == TopLeft(pixels, edgeLength)
  {
    var rows := new seq<T>[edgeLength](_ => []);
    for row := 0 to edgeLength
      invariant forall a :: 0 <= a < row ==> rows[a] == pixels[a][..edgeLength]
      invariant forall a :: row <= a < edgeLength ==> rows[a] == []
    {
      for col := 0 to edgeLength
        invariant forall a :: 0 <= a < row ==> rows[a] == pixels[a][..edgeLength]
        invariant forall a :: row < a < edgeLength ==> rows[a] == []
        invariant rows[row] == pixels[row][..col]
      {
        assert pixels[row][..col + 1] == pixels[row][..col] + [pixels[row][col]];
        rows[row] := rows[row] + [pixels[row][col]];
      }
    }
    res := rows[..];
  }

  // ----------------------------------------------------------------------
  // diagonalSnake

  /** `cell` is a position of a rows×cols matrix. */
  predicate InGrid(rows: nat, cols: nat, cell: (int, int))
  {
    0 <= cell.0 < rows && 0 <= cell.1 < cols
  }

  /** `start_col` of anti-diagonal `line` (lines are numbered from 1). */
  function StartCol(rows: nat, line: int): int
  {
    Max(0, line - rows)
  }

  /** `count` of anti-diagonal `line`: `Math.min(line, cols - start_col, rows)`. */
  function LineCount(rows: nat, cols: nat, line: int): int
  {
    ArrayUtil.Min(ArrayUtil.Min(line, cols - StartCol(rows, line)), rows)
  }

  /** The cells read on anti-diagonal `line`, in reading order: the j-th is
      row `min(rows, line) - j - 1`, column `start_col + j`. A negative count
      reads nothing. Every cell lies on the anti-diagonal row + col = line - 1. */
  function LineCells(rows: nat, cols: nat, line: int): (cells: seq<(int, int)>)
    ensures |cells| == Max(0, LineCount(rows, cols, line))
    ensures forall k :: 0 <= k < |cells| ==>
              InGrid(rows, cols, cells[k]) && cells[k].0 + cells[k].1 == line - 1
  {
    seq(Max(0, LineCount(rows, cols, line)),
        j => (ArrayUtil.Min(rows, line) - j - 1, StartCol(rows, line) + j))
  }

  /** The cells read by the anti-diagonals line .. rows + cols - 1, in
      reading order. */
  function SnakeFrom(rows: nat, cols: nat, line: nat): seq<(int, int)>
    decreases rows + cols - line
  {
    if line >= rows + cols then []
    else LineCells(rows, cols, line) + SnakeFrom(rows, cols, line + 1)
  }

  lemma {:induction false} SnakeFromInGrid(rows: nat, cols: nat, line: nat)
    ensures forall k :: 0 <= k < |SnakeFrom(rows, cols, line)| ==>
              InGrid(rows, cols, SnakeFrom(rows, cols, line)[k]) &&
              line <= SnakeFrom(rows, cols, line)[k].0 + SnakeFrom(rows, cols, line)[k].1 + 1
    decreases rows + cols - line
  {
    if line < rows + cols {
      SnakeFromInGrid(rows, cols, line + 1);
    }
  }

  /** Every cell, in the order `diagonalSnake` reads them. */
  function Snake(rows: nat, cols: nat): (cells: seq<(int, int)>)
    ensures forall k :: 0 <= k < |cells| ==> InGrid(rows, cols, cells[k])
  {
    SnakeFromInGrid(rows, cols, 1);
    SnakeFrom(rows, cols, 1)
  }

  /** The entries of `matrix` at `cells`, in order. */
  function ReadCells<T>(matrix: seq<seq<T>>, rows: nat, cols: nat, cells: seq<(int, int)>): (s: seq<T>)
    requires IsMatrix(matrix, rows, cols)
    requires forall k :: 0 <= k < |cells| ==> InGrid(rows, cols, cells[k])
    ensures |s| == |cells|
  {
    seq(|cells|, k requires 0 <= k < |cells| && InGrid(rows, cols, cells[k]) => matrix[cells[k].0][cells[k].1])
  }

  lemma ReadCellsAt<T>(matrix: seq<seq<T>>, rows: nat, cols: nat, cells: seq<(int, int)>, k: nat)
    requires IsMatrix(matrix, rows, cols) && k < |cells|
    requires forall i :: 0 <= i < |cells| ==> InGrid(rows, cols, cells[i])
    ensures ReadCells(matrix, rows, cols, cells)[k] == matrix[cells[k].0][cells[k].1]
  {
  }

  /** The cells from anti-diagonal `line` on are the last cells of the
      snake. */
  lemma {:induction false} SnakeFromAt(rows: nat, cols: nat, line: nat, k: nat)
    requires 1 <= line && k < |SnakeFrom(rows, cols, line)|
    ensures |SnakeFrom(rows, cols, line)| <= |Snake(rows, cols)|
    ensures Snake(rows, cols)[|Snake(rows, cols)| - |SnakeFrom(rows, cols, line)| + k] == SnakeFrom(rows, cols, line)[k]
    decreases line
  {
    if line > 1 {
      var cells := LineCells(rows, cols, line - 1);
      assert SnakeFrom(rows, cols, line - 1) == cells + SnakeFrom(rows, cols, line);
      SnakeFromAt(rows, cols, line - 1, |cells| + k);
    }
  }

  /** Snake positions before anti-diagonal `line` number |Snake| - |SnakeFrom(line)|. */
  lemma {:induction false} SnakeFromLength(rows: nat, cols: nat, line: nat)
    requires 1 <= line
    ensures |SnakeFrom(rows, cols, line)| <= |Snake(rows, cols)|
    decreases line
  {
    if line > 1 {
      SnakeFromLength(rows, cols, line - 1);
    }
  }

  /** The j-th cell read on anti-diagonal `line`. */
  lemma LineCellAt(rows: nat, cols: nat, line: int, j: nat)
    requires j < LineCount(rows, cols, line)
    ensures j < |LineCells(rows, cols, line)|
    ensures LineCells(rows, cols, line)[j] == (ArrayUtil.Min(rows, line) - j - 1, StartCol(rows, line) + j)
  {
  }

  /** The number of cells read before anti-diagonal `line`. */
  function Offset(rows: nat, cols: nat, line: nat): int
  {
    |Snake(rows, cols)| - |SnakeFrom(rows, cols, line)|
  }

  /** Position Offset(line) + j of the snake is the j-th cell of
      anti-diagonal `line`. */
  lemma SnakeCellAt(rows: nat, cols: nat, line: nat, j: nat)
    requires 1 <= line < rows + cols && j < LineCount(rows, cols, line)
    ensures 0 <= Offset(rows, cols, line) + j < |Snake(rows, cols)|
    ensures Snake(rows, cols)[Offset(rows, cols, line) + j]
         == (ArrayUtil.Min(rows, line) - j - 1, StartCol(rows, line) + j)
  {
    LineCellAt(rows, cols, line, j);
    var cells := LineCells(rows, cols, line);
    assert SnakeFrom(rows, cols, line) == cells + SnakeFrom(rows, cols, line + 1);
    SnakeFromAt(rows, cols, line, j);
  }

  /** Reading anti-diagonal `line` advances the offset by its cell count. */
  lemma SnakeNext(rows: nat, cols: nat, line: nat)
    requires 1 <= line < rows + cols
    ensures 0 <= Offset(rows, cols, line)
    ensures Offset(rows, cols, line + 1) == Offset(rows, cols, line) + |LineCells(rows, cols, line)|
    ensures Offset(rows, cols, line + 1) <= |Snake(rows, cols)|
  {
    SnakeFromLength(rows, cols, line);
    assert |SnakeFrom(rows, cols, line)| == |LineCells(rows, cols, line)| + |SnakeFrom(rows, cols, line + 1)|;
  }

  /** `diagonalSnake(matrix, rows, cols)`: a preallocated result of
      rows·cols entries is filled through `resultIdx`, anti-diagonal by
      anti-diagonal; it reads exactly the cells of `Snake`, in that order. */
  method DiagonalSnake<T(0)>(matrix: seq<seq<T>>, rows: nat, cols: nat) returns (snake: seq<T>)
    requires IsMatrix(matrix, rows, cols)
    ensures |snake| == rows * cols
    ensures snake == ReadCells(matrix, rows, cols, Snake(rows, cols))
  {
    SnakeLength(rows, cols);
    ghost var order := Snake(rows, cols);
    ghost var expected := ReadCells(matrix, rows, cols, order);
    var result := new T[rows * cols];
    var resultIdx := 0;
    var line := 1;
    while line <= rows + cols - 1
      invariant 1 <= line <= rows + cols || line == 1
      invariant resultIdx == Offset(rows, cols, line)
      invariant forall k :: 0 <= k < resultIdx ==> result[k] == expected[k]
      decreases rows + cols - line
    {
      SnakeNext(rows, cols, line);
      var startCol := Max(0, line - rows);
      var count := ArrayUtil.Min(ArrayUtil.Min(line, cols - startCol), rows);
      assert startCol == StartCol(rows, line) && count == LineCount(rows, cols, line);
      var j := 0;
      while j < count
        invariant 0 <= j <= Max(0, count)
        invariant resultIdx == Offset(rows, cols, line) + j
        invariant forall k :: 0 <= k < resultIdx ==> result[k] == expected[k]
      {
        SnakeCellAt(rows, cols, line, j);
        var row, col := ArrayUtil.Min(rows, line) - j - 1, startCol + j;
        ReadCellsAt(matrix, rows, cols, order, resultIdx);
        result[resultIdx] := matrix[row][col];
        resultIdx := resultIdx + 1;
        j := j + 1;
      }
      line := line + 1;
    }
    assert SnakeFrom(rows, cols, line) == [];
    snake := result[..];
  }

  /** Reading order: a later cell lies on a later anti-diagonal, or on the
      same one with a larger column (and so a smaller row). */
  predicate ReadBefore(p: (int, int), q: (int, int))
  {
    p.0 + p.1 < q.0 + q.1 || (p.0 + p.1 == q.0 + q.1 && p.1 < q.1)
  }

  lemma {:induction false} SnakeFromOrdered(rows: nat, cols: nat, line: nat)
    ensures forall i, j :: 0 <= i < j < |SnakeFrom(rows, cols, line)| ==>
              ReadBefore(SnakeFrom(rows, cols, line)[i], SnakeFrom(rows, cols, line)[j])
    decreases rows + cols - line
  {
    if line < rows + cols {
      SnakeFromOrdered(rows, cols, line + 1);
      SnakeFromInGrid(rows, cols, line + 1);
    }
  }

  /** The snake visits the anti-diagonals in increasing order, and along each
      one the column rises while the row falls; in particular it never
      visits a cell twice. */
  lemma SnakeOrdered(rows: nat, cols: nat)
    ensures forall i, j :: 0 <= i < j < |Snake(rows, cols)| ==>
              ReadBefore(Snake(rows, cols)[i], Snake(rows, cols)[j])
    ensures forall i, j :: 0 <= i < j < |Snake(rows, cols)| ==> Snake(rows, cols)[i] != Snake(rows, cols)[j]
  {
    SnakeFromOrdered(rows, cols, 1);
  }

  /** Every cell of the matrix is read, at position k of the snake. */
  lemma SnakeCovers(rows: nat, cols: nat, r: nat, c: nat) returns (k: nat)
    requires r < rows && c < cols
    ensures k < |Snake(rows, cols)| && Snake(rows, cols)[k] == (r, c)
  {
    var line := r + c + 1;
    var j := c - StartCol(rows, line);
    assert 0 <= j < LineCount(rows, cols, line);
    SnakeCellAt(rows, cols, line, j);
    k := Offset(rows, cols, line) + j;
  }

  /** The cells of a rows×cols matrix. */
  function Grid(rows: nat, cols: nat): set<(int, int)>
  {
    set r, c | 0 <= r < rows && 0 <= c < cols :: (r, c)
  }

  function GridRow(r: int, cols: nat): set<(int, int)>
  {
    set c | 0 <= c < cols :: (r, c)
  }

  lemma {:induction false} GridRowSize(r: int, cols: nat)
    ensures |GridRow(r, cols)| == cols
  {
    if cols > 0 {
      GridRowSize(r, cols - 1);
      assert GridRow(r, cols) == GridRow(r, cols - 1) + {(r, cols - 1)};
    }
  }

  lemma {:induction false} GridSize(rows: nat, cols: nat)
    ensures |Grid(rows, cols)| == rows * cols
  {
    if rows > 0 {
      GridSize(rows - 1, cols);
      GridRowSize(rows - 1, cols);
      GridSplit(rows, cols);
      assert rows * cols == (rows - 1) * cols + cols;
    }
  }

  /** The last row splits off the grid. */
  lemma GridSplit(rows: nat, cols: nat)
    requires rows > 0
    ensures Grid(rows, cols) == Grid(rows - 1, cols) + GridRow(rows - 1, cols)
    ensures Grid(rows - 1, cols) * GridRow(rows - 1, cols) == {}
  {
    assert Grid(rows, cols) == Grid(rows - 1, cols) + GridRow(rows - 1, cols);
    assert Grid(rows - 1, cols) * GridRow(rows - 1, cols) == {};
  }

  /** The set of cells in a sequence. */
  function CellSet(cells: seq<(int, int)>): set<(int, int)>
  {
    set k | 0 <= k < |cells| :: cells[k]
  }

  lemma {:induction false} DistinctSize(cells: seq<(int, int)>)
    requires forall i, j :: 0 <= i < j < |cells| ==> cells[i] != cells[j]
    ensures |CellSet(cells)| == |cells|
  {
    if |cells| > 0 {
      var front := cells[..|cells| - 1];
      DistinctSize(front);
      assert CellSet(cells) == CellSet(front) + {cells[|cells| - 1]};
    }
  }

  /** The snake reads exactly rows·cols cells. */
  lemma SnakeLength(rows: nat, cols: nat)
    ensures |Snake(rows, cols)| == rows * cols
  {
    var snake := Snake(rows, cols);
    SnakeOrdered(rows, cols);
    DistinctSize(snake);
    forall cell | cell in Grid(rows, cols)
      ensures cell in CellSet(snake)
    {
      var k := SnakeCovers(rows, cols, cell.0, cell.1);
    }
    assert CellSet(snake) == Grid(rows, cols);
    GridSize(rows, cols);
  }

  /** The first cell read is the top-left one and the last is the
      bottom-right one. */
  lemma SnakeEnds(rows: nat, cols: nat)
    requires rows > 0 && cols > 0
    ensures |Snake(rows, cols)| == rows * cols
    ensures Snake(rows, cols)[0] == (0, 0)
    ensures Snake(rows, cols)[rows * cols - 1] == (rows - 1, cols - 1)
  {
    SnakeLength(rows, cols);
    SnakeCellAt(rows, cols, 1, 0);
    var last := rows + cols - 1;
    SnakeCellAt(rows, cols, last, 0);
    assert SnakeFrom(rows, cols, last) == LineCells(rows, cols, last) + SnakeFrom(rows, cols, last + 1);
    assert |SnakeFrom(rows, cols, last)| == 1;
  }

  // ----------------------------------------------------------------------
  // dct1024Image

  /** A square transform of an n×n signal: entry (i, j) is computed by
      `coefficient`, which stands for the cosine sum of the DCT. */
  function Transform(signal: seq<seq<int>>, coefficient: (seq<seq<int>>, nat, nat) -> real): (res: seq<seq<real>>)
    ensures IsMatrix(res, |signal|, |signal|)
  {
    seq(|signal|, i requires 0 <= i => seq(|signal|, j requires 0 <= j => coefficient(signal, i, j)))
  }

  /** The DCT hash of 64·64 greyscale values: transform the 64×64 matrix,
      keep its 32×32 top-left corner, read that out along the snake. */
  function Dct1024Of(greyed: seq<int>, coefficient: (seq<seq<int>>, nat, nat) -> real): (hash: seq<real>)
    requires |greyed| == 64 * 64
    ensures |hash| == 1024
  {
    SnakeLength(32, 32);
    var dct := Transform(Reshape(greyed, 64, 64), coefficient);
    ReadCells(TopLeft(dct, 32), 32, 32, Snake(32, 32))
  }

  /** `dct1024Image` from the greyscale data onward: fails when the data is
      not 64·64 values (as `toMatrix` throws), otherwise the snake read-out
      of the transform's top-left corner. */
  method Dct1024Image(greyed: seq<int>, coefficient: (seq<seq<int>>, nat, nat) -> real)
    returns (r: Result<seq<real>, ShapeError>)
    ensures r.Success? <==> |greyed| == 64 * 64
    ensures r.Failure? ==> r.error == LengthMismatch(|greyed|, 64, 64)
    ensures r.Success? ==> |greyed| == 64 * 64 && r.value == Dct1024Of(greyed, coefficient)
  {
    var matrix := ToMatrix(greyed, 64, 64);
    if matrix.Failure? {
      return Failure(matrix.error);
    }
    var dct := Transform(matrix.value, coefficient);
    var trimmed := GetTopLeft(dct, 32);
    var snake := DiagonalSnake(trimmed, 32, 32);
    return Success(snake);
  }

  /** The hash has 32·32 = 1024 entries, and entry k is the transform's
      entry at the k-th snake cell, which lies in the 32×32 top-left corner
      of the 64×64 transform. */
  lemma Dct1024Shape(greyed: seq<int>, coefficient: (seq<seq<int>>, nat, nat) -> real, k: nat)
    requires |greyed| == 64 * 64 && k < 1024
    ensures |Dct1024Of(greyed, coefficient)| == 1024
    ensures var cell := Snake(32, 32)[k];
            0 <= cell.0 < 32 && 0 <= cell.1 < 32 &&
            Dct1024Of(greyed, coefficient)[k] == Transform(Reshape(greyed, 64, 64), coefficient)[cell.0][cell.1]
  {
    SnakeLength(32, 32);
  }
}
