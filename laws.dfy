/**
 * What the transformations of module Transformer do to the cells of a board,
 * and the algebra they obey: the flips are involutions, the quarter-turn has
 * order four, every transformation except identity only moves values around,
 * and the steps of SymmetricTransformations visit pairwise distinct layouts.
 */
module TransformerLaws {
  import opened Transformer
  import Permutation

  // ---------------------------------------------------------------------------
  // identity
  // ---------------------------------------------------------------------------

  /** identity ignores what the board held: cell i of an R x C board ends up holding i. */
  lemma IdentityLayout(numRows: nat, numColumns: nat, s: seq<int>, s': seq<int>)
    requires numRows * numColumns == |s| == |s'|
    ensures IdentityBoard(numRows * numColumns, s) == IdentityBoard(numRows * numColumns, s')
    ensures forall r, c :: 0 <= r < numRows && 0 <= c < numColumns ==>
      IdentityBoard(numRows * numColumns, s)[Cell(numRows, numColumns, r, c)] == Cell(numRows, numColumns, r, c)
  {
  }

  // ---------------------------------------------------------------------------
  // horizontalFlip
  // ---------------------------------------------------------------------------

  /** The horizontally flipped board's cell (r, c) holds what was at (R-1-r, c). */
  lemma HorizontallyFlippedAt(numRows: nat, numColumns: nat, s: seq<int>, r: nat, c: nat)
    requires numRows * numColumns <= |s| && r < numRows && c < numColumns
    ensures HorizontallyFlipped(numRows, numColumns, s)[Cell(numRows, numColumns, r, c)]
              == s[Cell(numRows, numColumns, numRows - 1 - r, c)]
  {
    if numRows >= 2 {
      assert RowMirrorIndex(numRows, numColumns, Cell(numRows, numColumns, r, c))
               == Cell(numRows, numColumns, numRows - 1 - r, c);
    }
  }

  /** horizontalFlip moves cell (R-1-r, c) to (r, c) and leaves the cells past R * C alone. */
  lemma HorizontalFlipMovesRows(numRows: nat, numColumns: nat, s: seq<int>)
    requires numRows * numColumns <= |s|
    ensures forall r, c :: 0 <= r < numRows && 0 <= c < numColumns ==>
      HorizontallyFlipped(numRows, numColumns, s)[Cell(numRows, numColumns, r, c)]
        == s[Cell(numRows, numColumns, numRows - 1 - r, c)]
    ensures forall k :: numRows * numColumns <= k < |s| ==> HorizontallyFlipped(numRows, numColumns, s)[k] == s[k]
  {
    if numRows >= 2 {
      forall r, c | 0 <= r < numRows && 0 <= c < numColumns
        ensures HorizontallyFlipped(numRows, numColumns, s)[Cell(numRows, numColumns, r, c)]
                  == s[Cell(numRows, numColumns, numRows - 1 - r, c)]
      {
        var k := Cell(numRows, numColumns, r, c);
        assert RowMirrorIndex(numRows, numColumns, k) == Cell(numRows, numColumns, numRows - 1 - r, c);
      }
    }
  }

  /** On a board with an odd number of rows the middle row stays where it is. */
  lemma HorizontalFlipKeepsMiddleRow(numRows: nat, numColumns: nat, s: seq<int>)
    requires numRows % 2 == 1 && numRows * numColumns <= |s|
    ensures forall c :: 0 <= c < numColumns ==>
      HorizontallyFlipped(numRows, numColumns, s)[Cell(numRows, numColumns, numRows / 2, c)]
        == s[Cell(numRows, numColumns, numRows / 2, c)]
  {
    HorizontalFlipMovesRows(numRows, numColumns, s);
  }

  /** Mirroring a row index twice gives it back. */
  lemma RowMirrorTwice(numRows: nat, numColumns: nat, k: int)
    requires 0 <= k < numRows * numColumns
    ensures RowMirrorIndex(numRows, numColumns, RowMirrorIndex(numRows, numColumns, k)) == k
  {
    Decompose(numRows, numColumns, k);
  }

  /** Flipping horizontally twice restores the board. */
  lemma {:induction false} HorizontalFlipInvolution(numRows: nat, numColumns: nat, s: seq<int>)
    requires numRows <= 1 || numRows * numColumns <= |s|
    ensures HorizontallyFlipped(numRows, numColumns, HorizontallyFlipped(numRows, numColumns, s)) == s
  {
    if numRows >= 2 {
      var t := HorizontallyFlipped(numRows, numColumns, s);
      forall k | 0 <= k < numRows * numColumns
        ensures HorizontallyFlipped(numRows, numColumns, t)[k] == s[k]
      {
        RowMirrorTwice(numRows, numColumns, k);
      }
    }
  }

  /** horizontalFlip only moves values: the board holds the same multiset afterwards. */
  lemma HorizontalFlipPermutes(numRows: nat, numColumns: nat, s: seq<int>)
    requires numRows <= 1 || numRows * numColumns <= |s|
    ensures multiset(HorizontallyFlipped(numRows, numColumns, s)) == multiset(s)
  {
    if numRows >= 2 {
      var n := numRows * numColumns;
      var f := (k: int) => if 0 <= k < n then RowMirrorIndex(numRows, numColumns, k) else k;
      var t := HorizontallyFlipped(numRows, numColumns, s);
      forall k | 0 <= k < |s|
        ensures 0 <= f(k) < |s| && t[f(k)] == s[k] && f(f(k)) == k
      {
        if k < n {
          RowMirrorTwice(numRows, numColumns, k);
        }
      }
      forall i, j | 0 <= i < j < |s|
        ensures f(i) != f(j)
      {
        if i < n && j < n {
          assert f(f(i)) == i && f(f(j)) == j;
        }
      }
      Permutation.MovedCellsKeepMultiset(s, t, f);
    }
  }

  // ---------------------------------------------------------------------------
  // verticalFlip
  // ---------------------------------------------------------------------------

  /** The vertically flipped board's cell (r, c) holds what was at (r, C-1-c). */
  lemma VerticallyFlippedAt(numRows: nat, numColumns: nat, s: seq<int>, r: nat, c: nat)
    requires numRows * numColumns <= |s| && r < numRows && c < numColumns
    ensures VerticallyFlipped(numRows, numColumns, s)[Cell(numRows, numColumns, r, c)]
              == s[Cell(numRows, numColumns, r, numColumns - 1 - c)]
  {
    if numColumns >= 2 {
      assert ColumnMirrorIndex(numRows, numColumns, Cell(numRows, numColumns, r, c))
               == Cell(numRows, numColumns, r, numColumns - 1 - c);
    }
  }

  /** verticalFlip moves cell (r, C-1-c) to (r, c) and leaves the cells past R * C alone. */
  lemma VerticalFlipMovesColumns(numRows: nat, numColumns: nat, s: seq<int>)
    requires numRows * numColumns <= |s|
    ensures forall r, c :: 0 <= r < numRows && 0 <= c < numColumns ==>
      VerticallyFlipped(numRows, numColumns, s)[Cell(numRows, numColumns, r, c)]
        == s[Cell(numRows, numColumns, r, numColumns - 1 - c)]
    ensures forall k :: numRows * numColumns <= k < |s| ==> VerticallyFlipped(numRows, numColumns, s)[k] == s[k]
  {
    if numColumns >= 2 {
      forall r, c | 0 <= r < numRows && 0 <= c < numColumns
        ensures VerticallyFlipped(numRows, numColumns, s)[Cell(numRows, numColumns, r, c)]
                  == s[Cell(numRows, numColumns, r, numColumns - 1 - c)]
      {
        var k := Cell(numRows, numColumns, r, c);
        assert ColumnMirrorIndex(numRows, numColumns, k) == Cell(numRows, numColumns, r, numColumns - 1 - c);
      }
    }
  }

  /** On a board with an odd number of columns the middle column stays where it is. */
  lemma VerticalFlipKeepsMiddleColumn(numRows: nat, numColumns: nat, s: seq<int>)
    requires numColumns % 2 == 1 && numRows * numColumns <= |s|
    ensures forall r :: 0 <= r < numRows ==>
      VerticallyFlipped(numRows, numColumns, s)[Cell(numRows, numColumns, r, numColumns / 2)]
        == s[Cell(numRows, numColumns, r, numColumns / 2)]
  {
    VerticalFlipMovesColumns(numRows, numColumns, s);
  }

  /** Mirroring a column index twice gives it back. */
  lemma ColumnMirrorTwice(numRows: nat, numColumns: nat, k: int)
    requires 0 <= k < numRows * numColumns
    ensures ColumnMirrorIndex(numRows, numColumns, ColumnMirrorIndex(numRows, numColumns, k)) == k
  {
    Decompose(numRows, numColumns, k);
  }

  /** Flipping vertically twice restores the board. */
  lemma {:induction false} VerticalFlipInvolution(numRows: nat, numColumns: nat, s: seq<int>)
    requires numColumns <= 1 || numRows * numColumns <= |s|
    ensures VerticallyFlipped(numRows, numColumns, VerticallyFlipped(numRows, numColumns, s)) == s
  {
    if numColumns >= 2 {
      var t := VerticallyFlipped(numRows, numColumns, s);
      forall k | 0 <= k < numRows * numColumns
        ensures VerticallyFlipped(numRows, numColumns, t)[k] == s[k]
      {
        ColumnMirrorTwice(numRows, numColumns, k);
      }
    }
  }

  /** verticalFlip only moves values: the board holds the same multiset afterwards. */
  lemma VerticalFlipPermutes(numRows: nat, numColumns: nat, s: seq<int>)
    requires numColumns <= 1 || numRows * numColumns <= |s|
    ensures multiset(VerticallyFlipped(numRows, numColumns, s)) == multiset(s)
  {
    if numColumns >= 2 {
      var n := numRows * numColumns;
      var f := (k: int) => if 0 <= k < n then ColumnMirrorIndex(numRows, numColumns, k) else k;
      var t := VerticallyFlipped(numRows, numColumns, s);
      forall k | 0 <= k < |s|
        ensures 0 <= f(k) < |s| && t[f(k)] == s[k] && f(f(k)) == k
      {
        if k < n {
          ColumnMirrorTwice(numRows, numColumns, k);
        }
      }
      forall i, j | 0 <= i < j < |s|
        ensures f(i) != f(j)
      {
        if i < n && j < n {
          assert f(f(i)) == i && f(f(j)) == j;
        }
      }
      Permutation.MovedCellsKeepMultiset(s, t, f);
    }
  }

  // ---------------------------------------------------------------------------
  // rotate90
  // ---------------------------------------------------------------------------

  /** The rotated board's cell (r, c) holds what was at (n-1-c, r). */
  lemma RotatedAt(n: nat, s: seq<int>, r: nat, c: nat)
    requires |s| == n * n && r < n && c < n
    ensures Rotated(n, s)[Cell(n, n, r, c)] == s[Cell(n, n, n - 1 - c, r)]
  {
    assert RotationSourceIndex(n, Cell(n, n, r, c)) == Cell(n, n, n - 1 - c, r);
  }

  /** rotate90 turns the board clockwise: the value at (r, c) moves to (c, n-1-r). */
  lemma RotatedMovesCells(n: nat, s: seq<int>)
    requires |s| == n * n
    ensures forall r, c :: 0 <= r < n && 0 <= c < n ==>
      Rotated(n, s)[Cell(n, n, c, n - 1 - r)] == s[Cell(n, n, r, c)]
  {
    forall r, c | 0 <= r < n && 0 <= c < n
      ensures Rotated(n, s)[Cell(n, n, c, n - 1 - r)] == s[Cell(n, n, r, c)]
    {
      RotatedAt(n, s, c, n - 1 - r);
    }
  }

  /** Four quarter-turns bring every cell back to where it started. */
  lemma {:induction false} RotationOrderFour(n: nat, s: seq<int>)
    requires |s| == n * n
    ensures Rotated(n, Rotated(n, Rotated(n, Rotated(n, s)))) == s
  {
    var s1 := Rotated(n, s);
    var s2 := Rotated(n, s1);
    var s3 := Rotated(n, s2);
    var s4 := Rotated(n, s3);
    forall k | 0 <= k < n * n
      ensures s4[k] == s[k]
    {
      Decompose(n, n, k);
      var r, c := k / n, k % n;
      assert k == Cell(n, n, r, c);
      RotatedAt(n, s3, r, c);
      RotatedAt(n, s2, n - 1 - c, r);
      RotatedAt(n, s1, n - 1 - r, n - 1 - c);
      RotatedAt(n, s, c, n - 1 - r);
    }
  }

  /** rotate90 only moves values: the board holds the same multiset afterwards. */
  lemma RotationPermutes(n: nat, s: seq<int>)
    requires |s| == n * n
    ensures multiset(Rotated(n, s)) == multiset(s)
  {
    var f := (k: int) => if 0 <= k < n * n then RotationTargetIndex(n, k) else k;
    forall k | 0 <= k < n * n
      ensures RotationSourceIndex(n, f(k)) == k
    {
      Decompose(n, n, k);
    }
    forall i, j | 0 <= i < j < n * n
      ensures f(i) != f(j)
    {
      assert RotationSourceIndex(n, f(i)) == i && RotationSourceIndex(n, f(j)) == j;
    }
    Permutation.MovedCellsKeepMultiset(s, Rotated(n, s), f);
  }

  // ---------------------------------------------------------------------------
  // transform
  // ---------------------------------------------------------------------------

  /** Every kind of transformation except identity only rearranges the board's values. */
  lemma TransformPermutes(kind: Type, numRows: nat, numColumns: nat, s: seq<int>)
    requires kind != Type.Identity && Admissible(kind, numRows, numColumns, |s|)
    ensures multiset(Apply(kind, numRows, numColumns, s)) == multiset(s)
  {
    match kind
    case Unknown =>
    case Rotation => if |s| != 0 { RotationPermutes(numColumns, s); }
    case VerticalSymmetry => VerticalFlipPermutes(numRows, numColumns, s);
    case HorizontalSymmetry => HorizontalFlipPermutes(numRows, numColumns, s);
  }

  // ---------------------------------------------------------------------------
  // The symmetry set
  // ---------------------------------------------------------------------------

  /** The boards visited when `kinds` are applied one after the other, starting from s. */
  function Orbit(kinds: seq<Type>, numRows: nat, numColumns: nat, s: seq<int>): (boards: seq<seq<int>>)
    requires forall k :: k in kinds ==> Admissible(k, numRows, numColumns, |s|)
    ensures |boards| == |kinds|
    ensures forall k :: 0 <= k < |boards| ==> |boards[k]| == |s|
    decreases |kinds|
  {
    if kinds == [] then []
    else
      var t := Apply(kinds[0], numRows, numColumns, s);
      [t] + Orbit(kinds[1..], numRows, numColumns, t)
  }

  /** Each visited board is the previous one with the next step applied. */
  lemma {:induction false} OrbitSteps(kinds: seq<Type>, numRows: nat, numColumns: nat, s: seq<int>)
    requires forall k :: k in kinds ==> Admissible(k, numRows, numColumns, |s|)
    ensures kinds != [] ==> Orbit(kinds, numRows, numColumns, s)[0] == Apply(kinds[0], numRows, numColumns, s)
    ensures forall k :: 0 <= k < |kinds| - 1 ==>
      |Orbit(kinds, numRows, numColumns, s)[k]| == |s| &&
      Orbit(kinds, numRows, numColumns, s)[k + 1]
        == Apply(kinds[k + 1], numRows, numColumns, Orbit(kinds, numRows, numColumns, s)[k])
    decreases |kinds|
  {
    if kinds != [] {
      var boards := Orbit(kinds, numRows, numColumns, s);
      var t := Apply(kinds[0], numRows, numColumns, s);
      var rest := Orbit(kinds[1..], numRows, numColumns, t);
      assert forall k :: k in kinds[1..] ==> k in kinds;
      OrbitSteps(kinds[1..], numRows, numColumns, t);
      forall k | 0 <= k < |kinds| - 1
        ensures |boards[k]| == |s| && boards[k + 1] == Apply(kinds[k + 1], numRows, numColumns, boards[k])
      {
        assert boards[k + 1] == rest[k];
        if k > 0 {
          assert boards[k] == rest[k - 1];
        }
      }
    }
  }

  /** Step k of the orbit, for one k: board k is board k-1 (or s) with kinds[k] applied. */
  lemma OrbitStepAt(kinds: seq<Type>, numRows: nat, numColumns: nat, s: seq<int>, k: nat)
    requires forall x :: x in kinds ==> Admissible(x, numRows, numColumns, |s|)
    requires k < |kinds|
    ensures Orbit(kinds, numRows, numColumns, s)[k]
      == Apply(kinds[k], numRows, numColumns, if k == 0 then s else Orbit(kinds, numRows, numColumns, s)[k - 1])
  {
    OrbitSteps(kinds, numRows, numColumns, s);
  }

  /**
   * Which of the eight layouts of the square's symmetry group a board is in,
   * given the cells that its cells (0, 0) and (0, 1) take their values from.
   */
  function SquareLayoutOf(n: nat, cornerRow: int, cornerColumn: int, nextRow: int, nextColumn: int): int
  {
    if cornerRow == 0 && cornerColumn == 0 then (if nextRow == 0 && nextColumn == 1 then 0 else 4)
    else if cornerRow == n - 1 && cornerColumn == 0 then (if nextRow == n - 2 && nextColumn == 0 then 1 else 7)
    else if cornerRow == n - 1 && cornerColumn == n - 1 then (if nextRow == n - 1 && nextColumn == n - 2 then 2 else 6)
    else (if nextRow == 1 && nextColumn == n - 1 then 3 else 5)
  }

  /** The layout of a board that started as the identity layout, read off cells (0, 0) and (0, 1). */
  ghost function SquareLayout(n: nat, b: seq<int>): int
    requires 2 <= n && |b| == n * n
  {
    var corner, next := b[Cell(n, n, 0, 0)], b[Cell(n, n, 0, 1)];
    SquareLayoutOf(n, corner / n, corner % n, next / n, next % n)
  }

  lemma SquareLayoutAt(n: nat, b: seq<int>, cornerRow: nat, cornerColumn: nat, nextRow: nat, nextColumn: nat)
    requires 2 <= n && |b| == n * n
    requires cornerRow < n && cornerColumn < n && nextRow < n && nextColumn < n
    requires b[Cell(n, n, 0, 0)] == Cell(n, n, cornerRow, cornerColumn)
    requires b[Cell(n, n, 0, 1)] == Cell(n, n, nextRow, nextColumn)
    ensures SquareLayout(n, b) == SquareLayoutOf(n, cornerRow, cornerColumn, nextRow, nextColumn)
  {
  }

  /** The eight boards the square symmetry set visits, step by step. */
  lemma SquareOrbitSteps(n: nat, s: seq<int>)
    requires |s| == n * n
    ensures var boards := Orbit(SymmetricTransformations(n, n), n, n, s);
      |boards| == 8 && (forall k :: 0 <= k < 8 ==> |boards[k]| == |s|) &&
      boards[0] == IdentityBoard(n * n, s) &&
      boards[1] == Rotated(n, boards[0]) && boards[2] == Rotated(n, boards[1]) &&
      boards[3] == Rotated(n, boards[2]) && boards[4] == HorizontallyFlipped(n, n, boards[3]) &&
      boards[5] == Rotated(n, boards[4]) && boards[6] == Rotated(n, boards[5]) &&
      boards[7] == Rotated(n, boards[6])
  {
    var kinds := SymmetricTransformations(n, n);
    OrbitStepAt(kinds, n, n, s, 0);
    OrbitStepAt(kinds, n, n, s, 1);
    OrbitStepAt(kinds, n, n, s, 2);
    OrbitStepAt(kinds, n, n, s, 3);
    OrbitStepAt(kinds, n, n, s, 4);
    OrbitStepAt(kinds, n, n, s, 5);
    OrbitStepAt(kinds, n, n, s, 6);
    OrbitStepAt(kinds, n, n, s, 7);
  }

  /** After the identity step and three quarter-turns, where each cell takes its value from. */
  lemma SquareFirstHalf(n: nat, b0: seq<int>, b1: seq<int>, b2: seq<int>, b3: seq<int>)
    requires |b0| == n * n && (forall k :: 0 <= k < n * n ==> b0[k] == k)
    requires b1 == Rotated(n, b0) && b2 == Rotated(n, b1) && b3 == Rotated(n, b2)
    ensures forall a, b :: 0 <= a < n && 0 <= b < n ==>
      b0[Cell(n, n, a, b)] == Cell(n, n, a, b) &&
      b1[Cell(n, n, a, b)] == Cell(n, n, n - 1 - b, a) &&
      b2[Cell(n, n, a, b)] == Cell(n, n, n - 1 - a, n - 1 - b) &&
      b3[Cell(n, n, a, b)] == Cell(n, n, b, n - 1 - a)
  {
    forall a, b | 0 <= a < n && 0 <= b < n
      ensures b1[Cell(n, n, a, b)] == Cell(n, n, n - 1 - b, a)
    {
      RotatedAt(n, b0, a, b);
    }
    forall a, b | 0 <= a < n && 0 <= b < n
      ensures b2[Cell(n, n, a, b)] == Cell(n, n, n - 1 - a, n - 1 - b)
    {
      RotatedAt(n, b1, a, b);
    }
    forall a, b | 0 <= a < n && 0 <= b < n
      ensures b3[Cell(n, n, a, b)] == Cell(n, n, b, n - 1 - a)
    {
      RotatedAt(n, b2, a, b);
    }
  }

  /** After the flip and the three quarter-turns that follow it, where each cell takes its value from. */
  lemma SquareSecondHalf(n: nat, b3: seq<int>, b4: seq<int>, b5: seq<int>, b6: seq<int>, b7: seq<int>)
    requires |b3| == n * n
    requires forall a, b :: 0 <= a < n && 0 <= b < n ==> b3[Cell(n, n, a, b)] == Cell(n, n, b, n - 1 - a)
    requires b4 == HorizontallyFlipped(n, n, b3) && b5 == Rotated(n, b4)
    requires b6 == Rotated(n, b5) && b7 == Rotated(n, b6)
    ensures forall a, b :: 0 <= a < n && 0 <= b < n ==>
      b4[Cell(n, n, a, b)] == Cell(n, n, b, a) &&
      b5[Cell(n, n, a, b)] == Cell(n, n, a, n - 1 - b) &&
      b6[Cell(n, n, a, b)] == Cell(n, n, n - 1 - b, n - 1 - a) &&
      b7[Cell(n, n, a, b)] == Cell(n, n, n - 1 - a, b)
  {
    forall a, b | 0 <= a < n && 0 <= b < n
      ensures b4[Cell(n, n, a, b)] == Cell(n, n, b, a)
    {
      HorizontallyFlippedAt(n, n, b3, a, b);
    }
    forall a, b | 0 <= a < n && 0 <= b < n
      ensures b5[Cell(n, n, a, b)] == Cell(n, n, a, n - 1 - b)
    {
      RotatedAt(n, b4, a, b);
    }
    forall a, b | 0 <= a < n && 0 <= b < n
      ensures b6[Cell(n, n, a, b)] == Cell(n, n, n - 1 - b, n - 1 - a)
    {
      RotatedAt(n, b5, a, b);
    }
    forall a, b | 0 <= a < n && 0 <= b < n
      ensures b7[Cell(n, n, a, b)] == Cell(n, n, n - 1 - a, b)
    {
      RotatedAt(n, b6, a, b);
    }
  }

  /** Cells (0, 0) and (0, 1) tell the eight boards of the square symmetry set apart. */
  lemma SquareLayouts(n: nat, b0: seq<int>, b1: seq<int>, b2: seq<int>, b3: seq<int>,
                      b4: seq<int>, b5: seq<int>, b6: seq<int>, b7: seq<int>)
    requires 2 <= n && |b0| == n * n && (forall k :: 0 <= k < n * n ==> b0[k] == k)
    requires b1 == Rotated(n, b0) && b2 == Rotated(n, b1) && b3 == Rotated(n, b2)
    requires b4 == HorizontallyFlipped(n, n, b3) && b5 == Rotated(n, b4)
    requires b6 == Rotated(n, b5) && b7 == Rotated(n, b6)
    ensures SquareLayout(n, b0) == 0 && SquareLayout(n, b1) == 1
    ensures SquareLayout(n, b2) == 2 && SquareLayout(n, b3) == 3
    ensures SquareLayout(n, b4) == 4 && SquareLayout(n, b5) == 5
    ensures SquareLayout(n, b6) == 6 && SquareLayout(n, b7) == 7
  {
    SquareFirstHalf(n, b0, b1, b2, b3);
    SquareSecondHalf(n, b3, b4, b5, b6, b7);
    SquareLayoutAt(n, b0, 0, 0, 0, 1);
    SquareLayoutAt(n, b1, n - 1, 0, n - 2, 0);
    SquareLayoutAt(n, b2, n - 1, n - 1, n - 1, n - 2);
    SquareLayoutAt(n, b3, 0, n - 1, 1, n - 1);
    SquareLayoutAt(n, b4, 0, 0, 1, 0);
    SquareLayoutAt(n, b5, 0, n - 1, 0, n - 2);
    SquareLayoutAt(n, b6, n - 1, n - 1, n - 2, n - 1);
    SquareLayoutAt(n, b7, n - 1, 0, n - 1, 1);
  }

  /**
   * On a square board of side at least 2 the eight steps visit eight distinct
   * layouts: the whole symmetry group of the square.
   */
  lemma SquareOrbitDistinct(n: nat, s: seq<int>)
    requires 2 <= n && |s| == n * n
    ensures var boards := Orbit(SymmetricTransformations(n, n), n, n, s);
      forall i, j :: 0 <= i < j < |boards| ==> boards[i] != boards[j]
  {
    var boards := Orbit(SymmetricTransformations(n, n), n, n, s);
    SquareOrbitSteps(n, s);
    SquareLayouts(n, boards[0], boards[1], boards[2], boards[3], boards[4], boards[5], boards[6], boards[7]);
    forall k | 0 <= k < 8
      ensures SquareLayout(n, boards[k]) == k
    {
      assert k == 0 || k == 1 || k == 2 || k == 3 || k == 4 || k == 5 || k == 6 || k == 7;
    }
  }

  /** Which corner of a rectangular board cell (0, 0) takes its value from. */
  function RectangleLayoutOf(numRows: nat, numColumns: nat, row: int, column: int): int
  {
    if row == 0 && column == 0 then 0
    else if row == numRows - 1 && column == 0 then 1
    else if row == numRows - 1 && column == numColumns - 1 then 2
    else 3
  }

  /** The layout of a board that started as the identity layout, read off cell (0, 0). */
  ghost function RectangleLayout(numRows: nat, numColumns: nat, b: seq<int>): int
    requires 2 <= numRows && 2 <= numColumns && |b| == numRows * numColumns
  {
    var corner := b[Cell(numRows, numColumns, 0, 0)];
    RectangleLayoutOf(numRows, numColumns, corner / numColumns, corner % numColumns)
  }

  lemma RectangleLayoutAt(numRows: nat, numColumns: nat, b: seq<int>, row: nat, column: nat)
    requires 2 <= numRows && 2 <= numColumns && |b| == numRows * numColumns
    requires row < numRows && column < numColumns
    requires b[Cell(numRows, numColumns, 0, 0)] == Cell(numRows, numColumns, row, column)
    ensures RectangleLayout(numRows, numColumns, b) == RectangleLayoutOf(numRows, numColumns, row, column)
  {
  }

  /** The four boards the rectangular symmetry set visits, step by step. */
  lemma RectangleOrbitSteps(numRows: nat, numColumns: nat, s: seq<int>)
    requires numRows != numColumns && |s| == numRows * numColumns
    ensures var boards := Orbit(SymmetricTransformations(numRows, numColumns), numRows, numColumns, s);
      |boards| == 4 && (forall k :: 0 <= k < 4 ==> |boards[k]| == |s|) &&
      boards[0] == IdentityBoard(numRows * numColumns, s) &&
      boards[1] == HorizontallyFlipped(numRows, numColumns, boards[0]) &&
      boards[2] == VerticallyFlipped(numRows, numColumns, boards[1]) &&
      boards[3] == HorizontallyFlipped(numRows, numColumns, boards[2])
  {
    var kinds := SymmetricTransformations(numRows, numColumns);
    OrbitStepAt(kinds, numRows, numColumns, s, 0);
    OrbitStepAt(kinds, numRows, numColumns, s, 1);
    OrbitStepAt(kinds, numRows, numColumns, s, 2);
    OrbitStepAt(kinds, numRows, numColumns, s, 3);
  }

  /** Where cell (0, 0) of each of the four boards takes its value from. */
  lemma RectangleCorners(numRows: nat, numColumns: nat, b0: seq<int>, b1: seq<int>, b2: seq<int>, b3: seq<int>)
    requires 2 <= numRows && 2 <= numColumns && |b0| == numRows * numColumns
    requires forall k :: 0 <= k < numRows * numColumns ==> b0[k] == k
    requires b1 == HorizontallyFlipped(numRows, numColumns, b0)
    requires b2 == VerticallyFlipped(numRows, numColumns, b1)
    requires b3 == HorizontallyFlipped(numRows, numColumns, b2)
    ensures var origin, last, right := Cell(numRows, numColumns, 0, 0), numRows - 1, numColumns - 1;
      b0[origin] == origin &&
      b1[origin] == Cell(numRows, numColumns, last, 0) &&
      b2[origin] == Cell(numRows, numColumns, last, right) &&
      b3[origin] == Cell(numRows, numColumns, 0, right)
  {
    var last, right := numRows - 1, numColumns - 1;
    HorizontallyFlippedAt(numRows, numColumns, b0, 0, 0);
    HorizontallyFlippedAt(numRows, numColumns, b0, last, right);
    VerticallyFlippedAt(numRows, numColumns, b1, 0, 0);
    VerticallyFlippedAt(numRows, numColumns, b1, last, 0);
    HorizontallyFlippedAt(numRows, numColumns, b2, 0, 0);
  }

  /** Cell (0, 0) tells the four boards of the rectangular symmetry set apart. */
  lemma RectangleLayouts(numRows: nat, numColumns: nat, b0: seq<int>, b1: seq<int>, b2: seq<int>, b3: seq<int>)
    requires 2 <= numRows && 2 <= numColumns && |b0| == numRows * numColumns
    requires forall k :: 0 <= k < numRows * numColumns ==> b0[k] == k
    requires b1 == HorizontallyFlipped(numRows, numColumns, b0)
    requires b2 == VerticallyFlipped(numRows, numColumns, b1)
    requires b3 == HorizontallyFlipped(numRows, numColumns, b2)
    ensures RectangleLayout(numRows, numColumns, b0) == 0 && RectangleLayout(numRows, numColumns, b1) == 1
    ensures RectangleLayout(numRows, numColumns, b2) == 2 && RectangleLayout(numRows, numColumns, b3) == 3
  {
    var last, right := numRows - 1, numColumns - 1;
    RectangleCorners(numRows, numColumns, b0, b1, b2, b3);
    RectangleLayoutAt(numRows, numColumns, b0, 0, 0);
    RectangleLayoutAt(numRows, numColumns, b1, last, 0);
    RectangleLayoutAt(numRows, numColumns, b2, last, right);
    RectangleLayoutAt(numRows, numColumns, b3, 0, right);
  }

  /**
   * On a rectangular board with at least two rows and two columns the four
   * steps visit four distinct layouts: the whole symmetry group of the rectangle.
   */
  lemma RectangleOrbitDistinct(numRows: nat, numColumns: nat, s: seq<int>)
    requires 2 <= numRows && 2 <= numColumns && numRows != numColumns && |s| == numRows * numColumns
    ensures var boards := Orbit(SymmetricTransformations(numRows, numColumns), numRows, numColumns, s);
      forall i, j :: 0 <= i < j < |boards| ==> boards[i] != boards[j]
  {
    var boards := Orbit(SymmetricTransformations(numRows, numColumns), numRows, numColumns, s);
    RectangleOrbitSteps(numRows, numColumns, s);
    RectangleLayouts(numRows, numColumns, boards[0], boards[1], boards[2], boards[3]);
    forall k | 0 <= k < 4
      ensures RectangleLayout(numRows, numColumns, boards[k]) == k
    {
      assert k == 0 || k == 1 || k == 2 || k == 3;
    }
  }

  /**
   * The symmetry set of any board with at least two rows and two columns
   * starts from the identity layout and visits pairwise distinct layouts.
   */
  lemma SymmetryOrbitDistinct(numRows: nat, numColumns: nat, s: seq<int>)
    requires 2 <= numRows && 2 <= numColumns && |s| == numRows * numColumns
    ensures var boards := Orbit(SymmetricTransformations(numRows, numColumns), numRows, numColumns, s);
      boards[0] == IdentityBoard(numRows * numColumns, s) &&
      forall i, j :: 0 <= i < j < |boards| ==> boards[i] != boards[j]
  {
    if numRows == numColumns {
      SquareOrbitDistinct(numRows, s);
    } else {
      RectangleOrbitDistinct(numRows, numColumns, s);
    }
  }

  // ---------------------------------------------------------------------------
  // The 3 x 3 examples of the documentation
  // ---------------------------------------------------------------------------

  /** identity on a 3 x 3 board, whatever it held. */
  lemma IdentityExample()
    ensures IdentityBoard(9, [5, 5, 5, 5, 5, 5, 5, 5, 5]) == [0, 1, 2, 3, 4, 5, 6, 7, 8]
  {
  }

  /** On a 3 x 3 board cell (r, c) is at index 3r + c. */
  lemma CellOfThreeByThree(r: nat, c: nat)
    requires r < 3 && c < 3
    ensures Cell(3, 3, r, c) == 3 * r + c
  {
  }

  /** The numbered 3 x 3 board of the documentation: cell k holds k + 1. */
  ghost predicate NumberedThreeByThree(s: seq<int>)
  {
    |s| == 9 && forall k :: 0 <= k < 9 ==> s[k] == k + 1
  }

  /** horizontalFlip on the numbered 3 x 3 board: row r shows row 2 - r. */
  lemma HorizontalFlipNumbered(s: seq<int>)
    requires NumberedThreeByThree(s)
    ensures forall k :: 0 <= k < 9 ==> HorizontallyFlipped(3, 3, s)[k] == 3 * (2 - k / 3) + k % 3 + 1
  {
    forall k | 0 <= k < 9
      ensures HorizontallyFlipped(3, 3, s)[k] == 3 * (2 - k / 3) + k % 3 + 1
    {
      HorizontallyFlippedAt(3, 3, s, k / 3, k % 3);
      CellOfThreeByThree(k / 3, k % 3);
      CellOfThreeByThree(2 - k / 3, k % 3);
    }
  }

  /** verticalFlip on the numbered 3 x 3 board: column c shows column 2 - c. */
  lemma VerticalFlipNumbered(s: seq<int>)
    requires NumberedThreeByThree(s)
    ensures forall k :: 0 <= k < 9 ==> VerticallyFlipped(3, 3, s)[k] == 3 * (k / 3) + 2 - k % 3 + 1
  {
    forall k | 0 <= k < 9
      ensures VerticallyFlipped(3, 3, s)[k] == 3 * (k / 3) + 2 - k % 3 + 1
    {
      VerticallyFlippedAt(3, 3, s, k / 3, k % 3);
      CellOfThreeByThree(k / 3, k % 3);
      CellOfThreeByThree(k / 3, 2 - k % 3);
    }
  }

  /** rotate90 on the numbered 3 x 3 board: cell (r, c) shows cell (2 - c, r). */
  lemma RotationNumbered(s: seq<int>)
    requires NumberedThreeByThree(s)
    ensures forall k :: 0 <= k < 9 ==> Rotated(3, s)[k] == 3 * (2 - k % 3) + k / 3 + 1
  {
    forall k | 0 <= k < 9
      ensures Rotated(3, s)[k] == 3 * (2 - k % 3) + k / 3 + 1
    {
      RotatedAt(3, s, k / 3, k % 3);
      CellOfThreeByThree(k / 3, k % 3);
      CellOfThreeByThree(2 - k % 3, k / 3);
    }
  }

  /** horizontalFlip on the documented 3 x 3 board. */
  lemma HorizontalFlipExample()
    ensures HorizontallyFlipped(3, 3, [1, 2, 3, 4, 5, 6, 7, 8, 9]) == [7, 8, 9, 4, 5, 6, 1, 2, 3]
  {
    var s, expected := [1, 2, 3, 4, 5, 6, 7, 8, 9], [7, 8, 9, 4, 5, 6, 1, 2, 3];
    HorizontalFlipNumbered(s);
    assert forall k :: 0 <= k < 9 ==> expected[k] == 3 * (2 - k / 3) + k % 3 + 1;
  }

  /** verticalFlip on the documented 3 x 3 board. */
  lemma VerticalFlipExample()
    ensures VerticallyFlipped(3, 3, [1, 2, 3, 4, 5, 6, 7, 8, 9]) == [3, 2, 1, 6, 5, 4, 9, 8, 7]
  {
    var s, expected := [1, 2, 3, 4, 5, 6, 7, 8, 9], [3, 2, 1, 6, 5, 4, 9, 8, 7];
    VerticalFlipNumbered(s);
    assert forall k :: 0 <= k < 9 ==> expected[k] == 3 * (k / 3) + 2 - k % 3 + 1;
  }

  /** rotate90 on the documented 3 x 3 board. */
  lemma RotationExample()
    ensures Rotated(3, [1, 2, 3, 4, 5, 6, 7, 8, 9]) == [7, 4, 1, 8, 5, 2, 9, 6, 3]
  {
    var s, expected := [1, 2, 3, 4, 5, 6, 7, 8, 9], [7, 4, 1, 8, 5, 2, 9, 6, 3];
    RotationNumbered(s);
    assert forall k :: 0 <= k < 9 ==> expected[k] == 3 * (2 - k % 3) + k / 3 + 1;
  }
}
