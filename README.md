# Grid transformer

A Dafny model of `Transformer.java`, the grid transformation engine of a
tic-tac-toe style game. A board is a flat `int` array that holds a
`numRows x numColumns` grid in row-major order, so cell (r, c) lives at
index `r * numColumns + c`. The engine offers:

- the kinds of transformation (`Type`);
- `symmetricTransformations`, the list of steps that, applied one after the
  other from the identity layout, visit every symmetric arrangement of a
  board of a given shape;
- `transform`, which dispatches one kind to its primitive;
- the in-place primitives `identity`, `horizontalFlip`, `verticalFlip` and
  `rotate90`, and the index helper `rotation`.

The project has three modules:

- `Transformer` (`transformer.dfy`) holds the model proper:
  - the `Type` datatype;
  - the index arithmetic (`Rotation` is the `rotation` helper of Transformer.java);
  - one pure function on `seq<int>` per primitive, stating what the
    primitive leaves in the board (`IdentityBoard`, `HorizontallyFlipped`,
    `VerticallyFlipped`, `Rotated`) and `Apply` for a kind;
  - `SymmetricTransformations`;
  - the methods `Transform`, `Identity`, `HorizontalFlip`, `VerticalFlip`
    and `Rotate90`.

  The methods work in place on an `array?<int>`. They keep the loops of
  Transformer.java, its `temp` swap variable and its scratch copy. Each is proved against
  its specification function. The nested swap loops of the flips are
  proved through a ghost description of the board after each swap
  (`RowsSwappedSoFar`, `ColumnsSwappedSoFar`).
- `TransformerLaws` (`laws.dfy`) proves what the primitives do:
  - what they do to each cell;
  - the algebra they obey: the flips are involutions, the quarter-turn has
    order four, and the flips and rotation keep the multiset of values;
  - that the steps of `symmetricTransformations` visit pairwise distinct
    layouts: all 8 symmetries of a square, and all 4 of a rectangle;
  - the 3 x 3 examples drawn in the documentation comments of Transformer.java.
- `Permutation` (`permutation.dfy`) is a generic lemma. Moving the cells of
  a sequence to distinct places keeps its multiset.

The model follows the code where its documentation promises more:

- The primitives reject only a `null` board: they return `false` and write
  nothing. They never compare the array's length with
  `numRows * numColumns`, and they never return `false` because of a shape.
- `rotate90` does not check `numRows == numColumns`, although its comment
  says only n x n boards can be rotated. It reads `numRows` only to size
  its scratch copy, and it rotates the array as a
  `numColumns x numColumns` board. On any other length, a nonempty board
  makes it index outside one of the two arrays.

The model therefore states, as a `requires` of each method, the shapes on
which the code stays inside the array. The same conditions appear as the
predicate `Admissible`:

| primitive | requires (when the board is not null) |
|---|---|
| `Identity` | `numRows * numColumns <= board.Length` |
| `HorizontalFlip` | `numRows <= 1 \|\| numRows * numColumns <= board.Length` |
| `VerticalFlip` | `numColumns <= 1 \|\| numRows * numColumns <= board.Length` |
| `Rotate90` | `board.Length == 0`, or `board.Length == numColumns * numColumns <= numRows * numColumns` |

Each of these is exactly the condition under which the loops stay in
bounds. Cells past `numRows * numColumns` are left alone by the identity
and the flips, and the model says so. On a square board with
`board.Length == numRows * numColumns`, which is what the documentation
asks for, every primitive is admissible.

## Model

| member | source | states |
|---|---|---|
| Transformer.Rotation | Transformer.java:224-226 | For an in-range (row, column), the index is non-negative; dividing it by numColumns gives the row back and the remainder gives the column. |
| Transformer.Decompose | Transformer.java:224-226 | Every index i below R*C is `rotation(C, i / C, i % C)`, the index of the cell (i / C, i % C), which has row < R and column < C. |
| Transformer.RowMajorInverse | Transformer.java:224-226 | For 0 <= row and 0 <= column < C, `row * C + column` is non-negative, and dividing it by C gives row with remainder column. |
| Transformer.CellInjective | Transformer.java:224-226 | Two cells of a board have the same row-major index exactly when they are the same cell. |
| Transformer.RowMirrorIndex | Transformer.java:128-134 | The cell that horizontalFlip swaps with cell (r, c) is (R-1-r, c), and it is on the board. |
| Transformer.ColumnMirrorIndex | Transformer.java:169-175 | The cell that verticalFlip swaps with cell (r, c) is (r, C-1-c), and it is on the board. |
| Transformer.RotationTargetIndex | Transformer.java:216-219 | rotate90 writes the value of cell (r, c) to cell (c, n-1-r), which is on the n x n board. |
| Transformer.RotationSourceIndex | Transformer.java:216-219 | Cell (r, c) of the rotated board receives the value of old cell (n-1-c, r). |
| Transformer.SymmetricTransformations | Transformer.java:22-45 | Square board: 8 steps, identity then rotations except a horizontal flip at step 4. Other boards: 4 steps, identity then horizontal, vertical and horizontal flips. Never Unknown; a rotation appears exactly when the board is square. |
| Transformer.Apply | Transformer.java:55-66 | The result has the board's length, and an Unknown kind leaves the contents as they were. |
| Transformer.Transform | Transformer.java:53-68 | Returns true exactly when the board is not null and the kind is not Unknown. The board ends up as `Apply(kind, old contents)`, so Unknown changes nothing and each other kind acts like its primitive. |
| Transformer.Identity | Transformer.java:86-96 | A null board gives false. Otherwise it gives true and the first R*C cells hold their own index, whatever they held before. |
| Transformer.RowSwapIndices | Transformer.java:130-132 | The two indices the inner loop of horizontalFlip swaps are cells (i, j) and (R-1-i, j). |
| Transformer.HorizontalFlip | Transformer.java:120-137 | A null board gives false. Otherwise it gives true and the board becomes `HorizontallyFlipped` of its old contents. |
| Transformer.ColumnSwapIndices | Transformer.java:171-173 | The two indices the inner loop of verticalFlip swaps are cells (j, i) and (j, C-1-i). |
| Transformer.VerticalFlip | Transformer.java:161-178 | A null board gives false. Otherwise it gives true and the board becomes `VerticallyFlipped` of its old contents. |
| Transformer.RotationWriteIndex | Transformer.java:218 | The index rotate90 computes for cell i = (r, c) is the cell (c, n-1-r). |
| Transformer.RotationTargetInjective | Transformer.java:216-219 | rotate90 never writes two cells of the scratch copy to the same place. |
| Transformer.RotationSourceThenTarget | Transformer.java:216-219 | The old cell that ends up in cell j is written to cell j. |
| Transformer.Rotate90 | Transformer.java:204-222 | A null board gives false. Otherwise it gives true. An empty board stays empty; any other board becomes the clockwise quarter-turn `Rotated` of its old contents as a numColumns x numColumns board. |
| TransformerLaws.IdentityLayout | Transformer.java:86-96 | identity ignores the old contents: any two boards give the same result, and cell (r, c) holds the index r*C + c. |
| TransformerLaws.HorizontallyFlippedAt | Transformer.java:128-134 | After horizontalFlip, cell (r, c) holds the value of old cell (R-1-r, c). |
| TransformerLaws.HorizontalFlipMovesRows | Transformer.java:128-134 | The same for every cell at once, and every cell past R*C is unchanged. |
| TransformerLaws.HorizontalFlipKeepsMiddleRow | Transformer.java:128 | When R is odd the middle row keeps its values. |
| TransformerLaws.RowMirrorTwice | Transformer.java:130-132 | Mirroring a cell's row twice gives the cell back. |
| TransformerLaws.HorizontalFlipInvolution | Transformer.java:120-137 | Flipping horizontally twice restores the board. |
| TransformerLaws.HorizontalFlipPermutes | Transformer.java:126-134 | horizontalFlip keeps the multiset of the board's values. |
| TransformerLaws.VerticallyFlippedAt | Transformer.java:169-175 | After verticalFlip, cell (r, c) holds the value of old cell (r, C-1-c). |
| TransformerLaws.VerticalFlipMovesColumns | Transformer.java:169-175 | The same for every cell at once, and every cell past R*C is unchanged. |
| TransformerLaws.VerticalFlipKeepsMiddleColumn | Transformer.java:169 | When C is odd the middle column keeps its values. |
| TransformerLaws.ColumnMirrorTwice | Transformer.java:171-173 | Mirroring a cell's column twice gives the cell back. |
| TransformerLaws.VerticalFlipInvolution | Transformer.java:161-178 | Flipping vertically twice restores the board. |
| TransformerLaws.VerticalFlipPermutes | Transformer.java:167-175 | verticalFlip keeps the multiset of the board's values. |
| TransformerLaws.RotatedAt | Transformer.java:216-219 | After rotate90, cell (r, c) holds the value of old cell (n-1-c, r). |
| TransformerLaws.RotatedMovesCells | Transformer.java:216-219 | rotate90 moves the value at (r, c) to (c, n-1-r), for every cell. |
| TransformerLaws.RotationOrderFour | Transformer.java:204-222 | Four quarter-turns restore the board. |
| TransformerLaws.RotationPermutes | Transformer.java:210-219 | rotate90 keeps the multiset of the board's values. |
| TransformerLaws.TransformPermutes | Transformer.java:53-68 | Every kind except identity keeps the multiset of the board's values. |
| TransformerLaws.Orbit | Transformer.java:15-21 | Applying a list of kinds one after the other yields one board per kind, each as long as the starting board. |
| TransformerLaws.OrbitSteps | Transformer.java:15-21 | The first visited board is the first kind applied to the start, and each later board is the next kind applied to the previous board. |
| TransformerLaws.OrbitStepAt | Transformer.java:15-21 | The same relation for a single step k. |
| TransformerLaws.SquareOrbitSteps | Transformer.java:34-37 | On a square board the eight steps give identity, three quarter-turns, a horizontal flip and three more quarter-turns. |
| TransformerLaws.SquareFirstHalf | Transformer.java:36 | After the identity step and each of the first three quarter-turns, cell (a, b) holds index (a, b), (n-1-b, a), (n-1-a, n-1-b) and (b, n-1-a) in turn. |
| TransformerLaws.SquareSecondHalf | Transformer.java:36 | After the flip and the three quarter-turns that follow it, cell (a, b) holds index (b, a), (a, n-1-b), (n-1-b, n-1-a) and (n-1-a, b) in turn. |
| TransformerLaws.SquareLayouts | Transformer.java:36 | The values of cells (0, 0) and (0, 1) tell the eight square layouts apart. |
| TransformerLaws.SquareOrbitDistinct | Transformer.java:34-37 | On a square board of side at least 2, the eight visited boards are pairwise distinct. This is the whole symmetry group of the square. |
| TransformerLaws.RectangleOrbitSteps | Transformer.java:38-41 | On a non-square board the four steps give identity, horizontal flip, vertical flip and horizontal flip. |
| TransformerLaws.RectangleCorners | Transformer.java:40 | In the four visited boards, cell (0, 0) holds the index of corners (0, 0), (R-1, 0), (R-1, C-1) and (0, C-1) in turn. |
| TransformerLaws.RectangleLayouts | Transformer.java:40 | Cell (0, 0) tells the four rectangle layouts apart. |
| TransformerLaws.RectangleOrbitDistinct | Transformer.java:38-41 | On a non-square board with at least two rows and columns, the four visited boards are pairwise distinct. This is the whole symmetry group of the rectangle. |
| TransformerLaws.SymmetryOrbitDistinct | Transformer.java:15-45 | For any board with at least two rows and two columns, the symmetry set starts with the identity layout and visits pairwise distinct layouts. |
| TransformerLaws.CellOfThreeByThree | Transformer.java:224-226 | On a 3 x 3 board, cell (r, c) is at index 3r + c. |
| TransformerLaws.IdentityExample | Transformer.java:75-81 | identity on a 3 x 3 board yields 0 .. 8. |
| TransformerLaws.HorizontalFlipNumbered | Transformer.java:102-117 | horizontalFlip on the numbered 3 x 3 board shows row 2-r in row r. |
| TransformerLaws.HorizontalFlipExample | Transformer.java:102-117 | horizontalFlip turns 1 .. 9 into 7 8 9 / 4 5 6 / 1 2 3. |
| TransformerLaws.VerticalFlipNumbered | Transformer.java:143-158 | verticalFlip on the numbered 3 x 3 board shows column 2-c in column c. |
| TransformerLaws.VerticalFlipExample | Transformer.java:143-158 | verticalFlip turns 1 .. 9 into 3 2 1 / 6 5 4 / 9 8 7. |
| TransformerLaws.RotationNumbered | Transformer.java:184-198 | rotate90 on the numbered 3 x 3 board shows old cell (2-c, r) in cell (r, c). |
| TransformerLaws.RotationExample | Transformer.java:184-198 | rotate90 turns 1 .. 9 into 7 4 1 / 8 5 2 / 9 6 3. |
| Permutation.MovedCellsKeepMultiset | Transformer.java:210-219 | If every cell of one sequence is copied to a distinct cell of an equally long sequence, the two hold the same multiset of values. |

## Left out

- `test` and `main` (Transformer.java:228-266) are a console demo harness. Their only effect is printing through `System.out.println` and `java.util.Arrays.toString`. They are not part of this model.
- Negative `numRows` or `numColumns` are out of scope: the dimensions are `nat`.
- Java `int` overflow of `numRows * numColumns` and of the index expressions is not modelled: integers are unbounded.
- Shape checks: a primitive called on a board of a shape it does not fit is excluded by `requires`. The Java code throws `ArrayIndexOutOfBoundsException` there rather than returning `false`. For `rotate90` with zero columns the scratch array is empty, so a nonempty board faults at the copy loop (Transformer.java:213) before `i % numColumns` is evaluated. The model has no "length mismatch" or "non-square" error result because the code has none either.
- The scratch array that `rotate90` allocates is not observable. The model allocates it too but states nothing about it after the call.
- `transform` with a `null` kind throws `NullPointerException` at the `switch` (Transformer.java:55). `Type` has no null value, so the model cannot express that call.
- The enum constant `HORIZONAL_SYMMETRY` is spelled `HorizontalSymmetry` in the model.
