/**
 * The grid transformation engine of Transformer.java.
 *
 * A board is a flat int array holding a numRows x numColumns grid in
 * row-major order: cell (r, c) lives at index r * numColumns + c.  Each
 * primitive rewrites the caller's array in place; its effect is specified by
 * a pure function on the board's contents (a `seq<int>`), and the laws about
 * those functions live in module TransformerLaws.
 */
module Transformer {

  /** The kinds of transformation.  Transformer.java spells the last one HORIZONAL_SYMMETRY. */
  datatype Type = Unknown | Identity | Rotation | VerticalSymmetry | HorizontalSymmetry

  // ---------------------------------------------------------------------------
  // Index arithmetic
  // ---------------------------------------------------------------------------

  lemma MulNonNeg(a: int, b: int)
    requires 0 <= a && 0 <= b
    ensures 0 <= a * b
  {
  }

  /** Euclidean division is unique: q and m are the quotient and remainder of q * d + m. */
  lemma DivModUnique(x: int, d: int, q: int, m: int)
    requires 0 < d && 0 <= m < d && x == q * d + m
    ensures x / d == q && x % d == m
  {
    var q', m' := x / d, x % d;
    if q > q' {
      MulNonNeg(q - q' - 1, d);
      assert false;
    } else if q < q' {
      MulNonNeg(q' - q - 1, d);
      assert false;
    }
  }

  /** Dividing row * numColumns + column by numColumns gives back row, with remainder column. */
  lemma RowMajorInverse(numColumns: int, row: int, column: int)
    ensures 0 <= row && 0 <= column < numColumns ==>
              0 <= row * numColumns + column &&
              (row * numColumns + column) / numColumns == row &&
              (row * numColumns + column) % numColumns == column
  {
    if 0 <= row && 0 <= column < numColumns {
      MulNonNeg(row, numColumns);
      DivModUnique(row * numColumns + column, numColumns, row, column);
    }
  }

  /**
   * The row-major index of (row, column) on a board with numColumns columns
   * (the `rotation` helper of Transformer.java).  Dividing the index by numColumns gives
   * the row back and the remainder gives the column.
   */
  function Rotation(numColumns: int, row: int, column: int): (index: int)
    ensures 0 <= row && 0 <= column < numColumns ==>
              0 <= index && index / numColumns == row && index % numColumns == column
  {
    RowMajorInverse(numColumns, row, column);
    row * numColumns + column
  }

  /** A cell of an R x C board has an index below R * C. */
  lemma InBoard(numRows: int, numColumns: int, row: int, column: int)
    requires 0 <= row < numRows && 0 <= column < numColumns
    ensures Rotation(numColumns, row, column) < numRows * numColumns
  {
    MulNonNeg(numRows - row - 1, numColumns);
  }

  /**
   * Every index below R * C is the index of the on-board cell (i / C, i % C);
   * by the ensures of Rotation no other cell has that index.
   */
  lemma Decompose(numRows: nat, numColumns: nat, i: int)
    requires 0 <= i < numRows * numColumns
    ensures 0 <= i / numColumns < numRows && 0 <= i % numColumns < numColumns
    ensures Rotation(numColumns, i / numColumns, i % numColumns) == i
  {
    if numColumns == 0 {
      assert false;
    }
    var q := i / numColumns;
    if q < 0 {
      MulNonNeg(-q - 1, numColumns);
      assert false;
    }
    if q >= numRows {
      MulNonNeg(q - numRows, numColumns);
      assert false;
    }
  }

  /**
   * Rotation restricted to the cells of a numRows x numColumns board.  It is
   * not a second definition of the index: it calls Rotation, and only adds the
   * bound i < numRows * numColumns, so that an expression such as s[Cell(...)]
   * is well formed wherever a contract talks about a cell by its coordinates.
   */
  function Cell(numRows: nat, numColumns: nat, row: nat, column: nat): (i: nat)
    requires row < numRows && column < numColumns
    ensures i < numRows * numColumns
    ensures i / numColumns == row && i % numColumns == column
  {
    InBoard(numRows, numColumns, row, column);
    Rotation(numColumns, row, column)
  }

  /** Two cells with the same index are the same cell. */
  lemma CellInjective(numRows: nat, numColumns: nat, r: nat, c: nat, r': nat, c': nat)
    requires r < numRows && c < numColumns && r' < numRows && c' < numColumns
    ensures Cell(numRows, numColumns, r, c) == Cell(numRows, numColumns, r', c') <==> r == r' && c == c'
  {
  }

  /** The index of the cell in the mirrored row: (r, c) goes to (R-1-r, c). */
  function RowMirrorIndex(numRows: nat, numColumns: nat, i: int): (j: nat)
    requires 0 <= i < numRows * numColumns
    ensures j < numRows * numColumns
    ensures j / numColumns == numRows - 1 - i / numColumns && j % numColumns == i % numColumns
  {
    Decompose(numRows, numColumns, i);
    Cell(numRows, numColumns, numRows - 1 - i / numColumns, i % numColumns)
  }

  /** The index of the cell in the mirrored column: (r, c) goes to (r, C-1-c). */
  function ColumnMirrorIndex(numRows: nat, numColumns: nat, i: int): (j: nat)
    requires 0 <= i < numRows * numColumns
    ensures j < numRows * numColumns
    ensures j / numColumns == i / numColumns && j % numColumns == numColumns - 1 - i % numColumns
  {
    Decompose(numRows, numColumns, i);
    Cell(numRows, numColumns, i / numColumns, numColumns - 1 - i % numColumns)
  }

  /** Where rotate90 writes the value of cell i = (r, c) of an n x n board: (c, n-1-r). */
  function RotationTargetIndex(n: nat, i: int): (j: nat)
    requires 0 <= i < n * n
    ensures j < n * n
    ensures j / n == i % n && j % n == n - 1 - i / n
  {
    Decompose(n, n, i);
    Cell(n, n, i % n, n - i / n - 1)
  }

  /** Which cell of the old board cell j = (r, c) of the rotated board comes from: (n-1-c, r). */
  function RotationSourceIndex(n: nat, j: int): (i: nat)
    requires 0 <= j < n * n
    ensures i < n * n
    ensures i / n == n - 1 - j % n && i % n == j / n
  {
    Decompose(n, n, j);
    Cell(n, n, n - 1 - j % n, j / n)
  }

  // ---------------------------------------------------------------------------
  // What each primitive does to the contents of a board
  // ---------------------------------------------------------------------------

  /** identity: the first n cells are overwritten with their own index. */
  function IdentityBoard(n: nat, s: seq<int>): (t: seq<int>)
    requires n <= |s|
    ensures |t| == |s|
  {
    seq(|s|, i requires 0 <= i < |s| => if i < n then i else s[i])
  }

  /** horizontalFlip: row r and row R-1-r trade places; a board of fewer than two rows is untouched. */
  function HorizontallyFlipped(numRows: nat, numColumns: nat, s: seq<int>): (t: seq<int>)
    requires numRows <= 1 || numRows * numColumns <= |s|
    ensures |t| == |s|
  {
    if numRows <= 1 then s
    else
      seq(|s|, i requires 0 <= i < |s| =>
        if i < numRows * numColumns then s[RowMirrorIndex(numRows, numColumns, i)] else s[i])
  }

  /** verticalFlip: column c and column C-1-c trade places; a board of fewer than two columns is untouched. */
  function VerticallyFlipped(numRows: nat, numColumns: nat, s: seq<int>): (t: seq<int>)
    requires numColumns <= 1 || numRows * numColumns <= |s|
    ensures |t| == |s|
  {
    if numColumns <= 1 then s
    else
      seq(|s|, i requires 0 <= i < |s| =>
        if i < numRows * numColumns then s[ColumnMirrorIndex(numRows, numColumns, i)] else s[i])
  }

  /** rotate90: the clockwise quarter-turn of an n x n board. */
  function Rotated(n: nat, s: seq<int>): (t: seq<int>)
    requires |s| == n * n
    ensures |t| == |s|
  {
    seq(n * n, j requires 0 <= j < n * n => s[RotationSourceIndex(n, j)])
  }

  /** The shapes of board on which the primitive for `kind` stays inside the array. */
  predicate Admissible(kind: Type, numRows: nat, numColumns: nat, length: nat)
  {
    match kind
    case Unknown => true
    case Identity => numRows * numColumns <= length
    case Rotation => length == 0 || (length == numColumns * numColumns && length <= numRows * numColumns)
    case VerticalSymmetry => numColumns <= 1 || numRows * numColumns <= length
    case HorizontalSymmetry => numRows <= 1 || numRows * numColumns <= length
  }

  /** The contents `transform` leaves behind; an Unknown kind leaves the board as it was. */
  function Apply(kind: Type, numRows: nat, numColumns: nat, s: seq<int>): (t: seq<int>)
    requires Admissible(kind, numRows, numColumns, |s|)
    ensures |t| == |s|
    ensures kind == Type.Unknown ==> t == s
  {
    match kind
    case Unknown => s
    case Identity => IdentityBoard(numRows * numColumns, s)
    case Rotation => if |s| == 0 then s else Rotated(numColumns, s)
    case VerticalSymmetry => VerticallyFlipped(numRows, numColumns, s)
    case HorizontalSymmetry => HorizontallyFlipped(numRows, numColumns, s)
  }

  // ---------------------------------------------------------------------------
  // The engine
  // ---------------------------------------------------------------------------

  /**
   * The steps that, applied one after the other starting with the identity
   * layout, visit every symmetric arrangement of a board of the given shape.
   * A square board gets three quarter-turns, one horizontal flip and three
   * more quarter-turns; any other board alternates horizontal and vertical
   * flips.  Only a square board is offered rotations.
   */
  function SymmetricTransformations(numRows: int, numColumns: int): (kinds: seq<Type>)
    ensures |kinds| == if numRows == numColumns then 8 else 4
    ensures kinds[0] == Type.Identity
    ensures numRows == numColumns ==>
      forall k :: 1 <= k < |kinds| ==> kinds[k] == if k == 4 then Type.HorizontalSymmetry else Type.Rotation
    ensures numRows != numColumns ==>
      forall k :: 1 <= k < |kinds| ==> kinds[k] == if k % 2 == 1 then Type.HorizontalSymmetry else Type.VerticalSymmetry
    ensures Type.Unknown !in kinds
    ensures Type.Rotation in kinds <==> numRows == numColumns
  {
    if numRows == numColumns then
      [Type.Identity, Type.Rotation, Type.Rotation, Type.Rotation,
       Type.HorizontalSymmetry, Type.Rotation, Type.Rotation, Type.Rotation]
    else
      [Type.Identity, Type.HorizontalSymmetry, Type.VerticalSymmetry, Type.HorizontalSymmetry]
  }

  /** Applies one transformation to the board; an Unknown kind is refused and changes nothing. */
  method Transform(transformation: Type, numRows: nat, numColumns: nat, board: array?<int>) returns (ok: bool)
    requires board != null ==> Admissible(transformation, numRows, numColumns, board.Length)
    modifies board
    ensures ok <==> board != null && transformation != Type.Unknown
    ensures board != null ==> board[..] == Apply(transformation, numRows, numColumns, old(board[..]))
  {
    match transformation
    case Identity =>
      ok := Identity(numRows, numColumns, board);
    case Rotation =>
      ok := Rotate90(numRows, numColumns, board);
    case VerticalSymmetry =>
      ok := VerticalFlip(numRows, numColumns, board);
    case HorizontalSymmetry =>
      ok := HorizontalFlip(numRows, numColumns, board);
    case Unknown =>
      ok := false;
  }

  /** Fills the first numRows * numColumns cells with their own index. */
  method Identity(numRows: nat, numColumns: nat, board: array?<int>) returns (ok: bool)
    requires board != null ==> numRows * numColumns <= board.Length
    modifies board
    ensures ok <==> board != null
    ensures board != null ==> board[..] == IdentityBoard(numRows * numColumns, old(board[..]))
  {
    if board == null {
      return false;
    }
    var i := 0;
    while i < numRows * numColumns
      invariant 0 <= i <= numRows * numColumns
      invariant forall k :: 0 <= k < i ==> board[k] == k
      invariant forall k :: i <= k < board.Length ==> board[k] == old(board[k])
    {
      board[i] := i;
      i := i + 1;
    }
    return true;
  }

  /**
   * The board while horizontalFlip runs: rows 0..i-1 have traded places with
   * their mirror rows, and so have the first j cells of row i.
   */
  ghost function RowsSwappedSoFar(numRows: nat, numColumns: nat, s: seq<int>, i: nat, j: nat): (t: seq<int>)
    requires numRows * numColumns <= |s|
    ensures |t| == |s|
  {
    seq(|s|, k requires 0 <= k < |s| =>
      if k < numRows * numColumns &&
         var r, c := k / numColumns, k % numColumns;
         r < i || numRows - 1 - i < r || ((r == i || r == numRows - 1 - i) && c < j)
      then s[RowMirrorIndex(numRows, numColumns, k)]
      else s[k])
  }

  lemma RowsSwappedStart(numRows: nat, numColumns: nat, s: seq<int>)
    requires numRows * numColumns <= |s|
    ensures RowsSwappedSoFar(numRows, numColumns, s, 0, 0) == s
  {
    forall k | 0 <= k < numRows * numColumns
      ensures 0 <= k / numColumns < numRows
    {
      Decompose(numRows, numColumns, k);
    }
  }

  /** One swap of the inner loop: cell (i, j) and cell (numRows-1-i, j) trade values. */
  lemma RowsSwappedStep(numRows: nat, numColumns: nat, s: seq<int>, i: nat, j: nat)
    requires numRows * numColumns <= |s| && i < numRows / 2 && j < numColumns
    ensures var t, top, bottom := RowsSwappedSoFar(numRows, numColumns, s, i, j),
                                  Cell(numRows, numColumns, i, j), Cell(numRows, numColumns, numRows - 1 - i, j);
      t[top] == s[top] && t[bottom] == s[bottom] &&
      RowsSwappedSoFar(numRows, numColumns, s, i, j + 1) == t[top := s[bottom]][bottom := s[top]]
  {
    var top, bottom := Cell(numRows, numColumns, i, j), Cell(numRows, numColumns, numRows - 1 - i, j);
    assert RowMirrorIndex(numRows, numColumns, top) == bottom;
    assert RowMirrorIndex(numRows, numColumns, bottom) == top;
    var t, t' := RowsSwappedSoFar(numRows, numColumns, s, i, j), RowsSwappedSoFar(numRows, numColumns, s, i, j + 1);
    forall k | 0 <= k < |s|
      ensures t'[k] == t[top := s[bottom]][bottom := s[top]][k]
    {
      if k < numRows * numColumns {
        Decompose(numRows, numColumns, k);
        CellInjective(numRows, numColumns, k / numColumns, k % numColumns, i, j);
        CellInjective(numRows, numColumns, k / numColumns, k % numColumns, numRows - 1 - i, j);
      }
    }
  }

  lemma RowsSwappedNextRow(numRows: nat, numColumns: nat, s: seq<int>, i: nat)
    requires numRows * numColumns <= |s| && i < numRows / 2
    ensures RowsSwappedSoFar(numRows, numColumns, s, i, numColumns) == RowsSwappedSoFar(numRows, numColumns, s, i + 1, 0)
  {
    forall k | 0 <= k < numRows * numColumns
      ensures 0 <= k % numColumns < numColumns
    {
      Decompose(numRows, numColumns, k);
    }
  }

  lemma RowsSwappedDone(numRows: nat, numColumns: nat, s: seq<int>)
    requires 2 <= numRows && numRows * numColumns <= |s|
    ensures RowsSwappedSoFar(numRows, numColumns, s, numRows / 2, 0) == HorizontallyFlipped(numRows, numColumns, s)
  {
    forall k | 0 <= k < numRows * numColumns
      ensures s[RowMirrorIndex(numRows, numColumns, k)] == s[k] || (var r := k / numColumns; r < numRows / 2 || numRows - 1 - numRows / 2 < r)
    {
      Decompose(numRows, numColumns, k);
      var r := k / numColumns;
      if numRows / 2 <= r <= numRows - 1 - numRows / 2 {
        assert RowMirrorIndex(numRows, numColumns, k) == k;
      }
    }
  }

  /** The two cells the inner loop of horizontalFlip swaps, as Transformer.java computes them. */
  lemma RowSwapIndices(numRows: nat, numColumns: nat, i: nat, j: nat)
    requires i < numRows / 2 && j < numColumns
    ensures numColumns * i + j == Cell(numRows, numColumns, i, j)
    ensures numColumns * (numRows - i - 1) + j == Cell(numRows, numColumns, numRows - 1 - i, j)
  {
  }

  /** Swaps row i with row numRows-1-i, cell by cell, for every i < numRows / 2. */
  method HorizontalFlip(numRows: nat, numColumns: nat, board: array?<int>) returns (ok: bool)
    requires board != null ==> numRows <= 1 || numRows * numColumns <= board.Length
    modifies board
    ensures ok <==> board != null
    ensures board != null ==> board[..] == HorizontallyFlipped(numRows, numColumns, old(board[..]))
  {
    if board == null {
      return false;
    }
    ghost var s := board[..];
    if numRows >= 2 {
      RowsSwappedStart(numRows, numColumns, s);
    }
    var temp: int;
    var i := 0;
    while i < numRows / 2
      invariant 0 <= i <= numRows / 2
      invariant numRows <= 1 ==> board[..] == s
      invariant numRows >= 2 ==> board[..] == RowsSwappedSoFar(numRows, numColumns, s, i, 0)
    {
      var j := 0;
      while j < numColumns
        invariant 0 <= j <= numColumns
        invariant board[..] == RowsSwappedSoFar(numRows, numColumns, s, i, j)
      {
        RowsSwappedStep(numRows, numColumns, s, i, j);
        RowSwapIndices(numRows, numColumns, i, j);
        var top, bottom := numColumns * i + j, numColumns * (numRows - i - 1) + j;
        temp := board[bottom];
        board[bottom] := board[top];
        board[top] := temp;
        j := j + 1;
      }
      RowsSwappedNextRow(numRows, numColumns, s, i);
      i := i + 1;
    }
    if numRows >= 2 {
      RowsSwappedDone(numRows, numColumns, s);
    }
    return true;
  }

  /**
   * The board while verticalFlip runs: columns 0..i-1 have traded places with
   * their mirror columns, and so have the first j cells of column i.
   */
  ghost function ColumnsSwappedSoFar(numRows: nat, numColumns: nat, s: seq<int>, i: nat, j: nat): (t: seq<int>)
    requires numRows * numColumns <= |s|
    ensures |t| == |s|
  {
    seq(|s|, k requires 0 <= k < |s| =>
      if k < numRows * numColumns &&
         var r, c := k / numColumns, k % numColumns;
         c < i || numColumns - 1 - i < c || ((c == i || c == numColumns - 1 - i) && r < j)
      then s[ColumnMirrorIndex(numRows, numColumns, k)]
      else s[k])
  }

  lemma ColumnsSwappedStart(numRows: nat, numColumns: nat, s: seq<int>)
    requires numRows * numColumns <= |s|
    ensures ColumnsSwappedSoFar(numRows, numColumns, s, 0, 0) == s
  {
    forall k | 0 <= k < numRows * numColumns
      ensures 0 <= k % numColumns < numColumns
    {
      Decompose(numRows, numColumns, k);
    }
  }

  /** One swap of the inner loop: cell (j, i) and cell (j, numColumns-1-i) trade values. */
  lemma ColumnsSwappedStep(numRows: nat, numColumns: nat, s: seq<int>, i: nat, j: nat)
    requires numRows * numColumns <= |s| && i < numColumns / 2 && j < numRows
    ensures var t, left, right := ColumnsSwappedSoFar(numRows, numColumns, s, i, j),
                                  Cell(numRows, numColumns, j, i), Cell(numRows, numColumns, j, numColumns - 1 - i);
      t[left] == s[left] && t[right] == s[right] &&
      ColumnsSwappedSoFar(numRows, numColumns, s, i, j + 1) == t[right := s[left]][left := s[right]]
  {
    var left, right := Cell(numRows, numColumns, j, i), Cell(numRows, numColumns, j, numColumns - 1 - i);
    assert ColumnMirrorIndex(numRows, numColumns, left) == right;
    assert ColumnMirrorIndex(numRows, numColumns, right) == left;
    var t, t' := ColumnsSwappedSoFar(numRows, numColumns, s, i, j), ColumnsSwappedSoFar(numRows, numColumns, s, i, j + 1);
    forall k | 0 <= k < |s|
      ensures t'[k] == t[right := s[left]][left := s[right]][k]
    {
      if k < numRows * numColumns {
        Decompose(numRows, numColumns, k);
        CellInjective(numRows, numColumns, k / numColumns, k % numColumns, j, i);
        CellInjective(numRows, numColumns, k / numColumns, k % numColumns, j, numColumns - 1 - i);
      }
    }
  }

  lemma ColumnsSwappedNextColumn(numRows: nat, numColumns: nat, s: seq<int>, i: nat)
    requires numRows * numColumns <= |s| && i < numColumns / 2
    ensures ColumnsSwappedSoFar(numRows, numColumns, s, i, numRows) == ColumnsSwappedSoFar(numRows, numColumns, s, i + 1, 0)
  {
    forall k | 0 <= k < numRows * numColumns
      ensures 0 <= k / numColumns < numRows
    {
      Decompose(numRows, numColumns, k);
    }
  }

  lemma ColumnsSwappedDone(numRows: nat, numColumns: nat, s: seq<int>)
    requires 2 <= numColumns && numRows * numColumns <= |s|
    ensures ColumnsSwappedSoFar(numRows, numColumns, s, numColumns / 2, 0) == VerticallyFlipped(numRows, numColumns, s)
  {
    forall k | 0 <= k < numRows * numColumns
      ensures s[ColumnMirrorIndex(numRows, numColumns, k)] == s[k] ||
              (var c := k % numColumns; c < numColumns / 2 || numColumns - 1 - numColumns / 2 < c)
    {
      Decompose(numRows, numColumns, k);
      var c := k % numColumns;
      if numColumns / 2 <= c <= numColumns - 1 - numColumns / 2 {
        assert ColumnMirrorIndex(numRows, numColumns, k) == k;
      }
    }
  }

  /** The two cells the inner loop of verticalFlip swaps, as Transformer.java computes them. */
  lemma ColumnSwapIndices(numRows: nat, numColumns: nat, i: nat, j: nat)
    requires i < numColumns / 2 && j < numRows
    ensures (j * numColumns) + i == Cell(numRows, numColumns, j, i)
    ensures (j * numColumns) + numColumns - i - 1 == Cell(numRows, numColumns, j, numColumns - 1 - i)
  {
  }

  /** Swaps column i with column numColumns-1-i, cell by cell, for every i < numColumns / 2. */
  method VerticalFlip(numRows: nat, numColumns: nat, board: array?<int>) returns (ok: bool)
    requires board != null ==> numColumns <= 1 || numRows * numColumns <= board.Length
    modifies board
    ensures ok <==> board != null
    ensures board != null ==> board[..] == VerticallyFlipped(numRows, numColumns, old(board[..]))
  {
    if board == null {
      return false;
    }
    ghost var s := board[..];
    if numColumns >= 2 {
      ColumnsSwappedStart(numRows, numColumns, s);
    }
    var temp: int;
    var i := 0;
    while i < numColumns / 2
      invariant 0 <= i <= numColumns / 2
      invariant numColumns <= 1 ==> board[..] == s
      invariant numColumns >= 2 ==> board[..] == ColumnsSwappedSoFar(numRows, numColumns, s, i, 0)
    {
      var j := 0;
      while j < numRows
        invariant 0 <= j <= numRows
        invariant board[..] == ColumnsSwappedSoFar(numRows, numColumns, s, i, j)
      {
        ColumnsSwappedStep(numRows, numColumns, s, i, j);
        ColumnSwapIndices(numRows, numColumns, i, j);
        var left, right := (j * numColumns) + i, (j * numColumns) + numColumns - i - 1;
        temp := board[right];
        board[right] := board[left];
        board[left] := temp;
        j := j + 1;
      }
      ColumnsSwappedNextColumn(numRows, numColumns, s, i);
      i := i + 1;
    }
    if numColumns >= 2 {
      ColumnsSwappedDone(numRows, numColumns, s);
    }
    return true;
  }

  /** The index rotate90 writes cell i to, as Transformer.java computes it. */
  lemma RotationWriteIndex(numColumns: nat, i: int)
    requires 0 <= i < numColumns * numColumns
    ensures Rotation(numColumns, i % numColumns, numColumns - i / numColumns - 1) == RotationTargetIndex(numColumns, i)
  {
  }

  /** rotate90 never writes two cells to the same place. */
  lemma RotationTargetInjective(n: nat, i: int, j: int)
    requires 0 <= i < n * n && 0 <= j < n * n && i != j
    ensures RotationTargetIndex(n, i) != RotationTargetIndex(n, j)
  {
    Decompose(n, n, i);
    Decompose(n, n, j);
  }

  /** The cell rotate90 reads for cell j is the one it writes to j. */
  lemma RotationSourceThenTarget(n: nat, j: int)
    requires 0 <= j < n * n
    ensures RotationTargetIndex(n, RotationSourceIndex(n, j)) == j
  {
    Decompose(n, n, j);
  }

  /**
   * Rotates the numColumns x numColumns board a quarter-turn clockwise: copies
   * the board into a scratch array of numRows * numColumns cells, then writes
   * each old cell (r, c) to (c, n-1-r).  numRows only sizes the scratch array.
   */
  method Rotate90(numRows: nat, numColumns: nat, board: array?<int>) returns (ok: bool)
    requires board != null ==> Admissible(Type.Rotation, numRows, numColumns, board.Length)
    modifies board
    ensures ok <==> board != null
    ensures board != null ==>
      board[..] == if board.Length == 0 then old(board[..]) else Rotated(numColumns, old(board[..]))
  {
    if board == null {
      return false;
    }
    var temp := new int[numRows * numColumns];
    var i := 0;
    while i < board.Length
      invariant 0 <= i <= board.Length
      invariant temp[..i] == board[..i]
      invariant board[..] == old(board[..])
    {
      temp[i] := board[i];
      i := i + 1;
    }
    assert temp[..board.Length] == old(board[..]);
    ghost var n := numColumns;
    i := 0;
    while i < board.Length
      invariant 0 <= i <= board.Length
      invariant temp[..board.Length] == old(board[..])
      invariant forall k :: 0 <= k < i ==> board[RotationTargetIndex(n, k)] == temp[k]
    {
      forall k | 0 <= k < i
        ensures RotationTargetIndex(n, k) != RotationTargetIndex(n, i)
      {
        RotationTargetInjective(n, k, i);
      }
      RotationWriteIndex(numColumns, i);
      var target := Rotation(numColumns, i % numColumns, numColumns - i / numColumns - 1);
      board[target] := temp[i];
      i := i + 1;
    }
    if board.Length != 0 {
      forall j | 0 <= j < board.Length
        ensures board[j] == Rotated(n, old(board[..]))[j]
      {
        var k := RotationSourceIndex(n, j);
        RotationSourceThenTarget(n, j);
        assert temp[k] == temp[..board.Length][k];
      }
    }
    return true;
  }
}
