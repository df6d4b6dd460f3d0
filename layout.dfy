/** The grid layout of calculatePositions (src/App.js:45-63): the window is
    cut into square boxes of BoxSize pixels, entry `i` of the snapshot takes
    column `i % columns` and row `i / columns`, and rows stack upwards from
    the bottom edge of the window. */
module Layout {

  /** `boxSize`, the edge of one box in pixels. */
  const BoxSize: int := 15

  /** The `left` and `top` of one box; the random animation delay is not modelled. */
  datatype Position = Position(left: int, top: int)

  /** `Math.floor(containerWidth / boxSize)`: the number of whole boxes across the window. */
  function Columns(width: int): (c: int)
    requires width >= BoxSize
    ensures c >= 1
    ensures c * BoxSize <= width < (c + 1) * BoxSize
  {
    width / BoxSize
  }

  /** The box of entry `i` in a grid of `columns` columns above the bottom edge `height`. */
  function Cell(i: nat, columns: int, height: int): Position
    requires columns >= 1
  {
    Position((i % columns) * BoxSize, height - (i / columns + 1) * BoxSize)
  }

  /** Every box lies inside the window horizontally and no lower than its bottom
      edge; it need not lie below the top edge (see CellAboveTop). */
  lemma CellInBounds(i: nat, width: int, height: int)
    requires width >= BoxSize
    ensures 0 <= Cell(i, Columns(width), height).left
    ensures Cell(i, Columns(width), height).left + BoxSize <= width
    ensures Cell(i, Columns(width), height).top <= height - BoxSize
  {
    var c := Columns(width);
    var col, row := i % c, i / c;
    assert 0 <= col <= c - 1;
    assert col * BoxSize + BoxSize <= c * BoxSize;
    assert row >= 0;
  }

  /** Helper: multiplying by a positive count keeps the order of two naturals. */
  lemma MulMonotone(c: int, a: int, b: int)
    requires c >= 1 && 0 <= a <= b
    ensures c * a <= c * b
  {
    assert c * b == c * a + c * (b - a);
  }

  /** Nothing keeps a box inside the top edge: for a non-negative window
      height, entry `i` is drawn above the window (its `top` is negative)
      exactly when it lies at or beyond `columns * floor(height / 15)`, the
      number of boxes that fit in the window. */
  lemma CellAboveTop(i: nat, width: int, height: int)
    requires width >= BoxSize && height >= 0
    ensures Cell(i, Columns(width), height).top < 0 <==>
      i >= Columns(width) * (height / BoxSize)
  {
    var c, h := Columns(width), height / BoxSize;
    var r := i / c;
    assert i == c * r + i % c && 0 <= i % c < c;
    assert height == BoxSize * h + height % BoxSize && 0 <= height % BoxSize < BoxSize;
    if r < h {
      MulMonotone(c, r + 1, h);
      MulMonotone(BoxSize, r + 1, h);
    } else {
      MulMonotone(c, h, r);
      MulMonotone(BoxSize, h + 1, r + 1);
    }
  }

  /** No two entries share a box. */
  lemma CellInjective(i: nat, j: nat, columns: int, height: int)
    requires columns >= 1
    requires Cell(i, columns, height) == Cell(j, columns, height)
    ensures i == j
  {
    assert i % columns == j % columns;
    assert i / columns == j / columns;
    assert i == columns * (i / columns) + i % columns;
    assert j == columns * (j / columns) + j % columns;
  }

  /** calculatePositions: one position per snapshot entry, in snapshot order. */
  method CalculatePositions<T>(sheetData: seq<T>, width: int, height: int)
    returns (positions: seq<Position>)
    requires width >= BoxSize
    ensures |positions| == |sheetData|
    ensures forall i :: 0 <= i < |positions| ==> positions[i] == Cell(i, Columns(width), height)
    ensures forall i :: 0 <= i < |positions| ==>
      0 <= positions[i].left && positions[i].left + BoxSize <= width &&
      positions[i].top <= height - BoxSize
    ensures forall i, j :: 0 <= i < j < |positions| ==> positions[i] != positions[j]
  {
    var columns := width / BoxSize;
    positions := [];
    for i := 0 to |sheetData|
      invariant |positions| == i
      invariant forall k :: 0 <= k < i ==> positions[k] == Cell(k, columns, height)
    {
      var col := i % columns;
      var row := i / columns;
      positions := positions + [Position(col * BoxSize, height - (row + 1) * BoxSize)];
    }
    forall i | 0 <= i < |positions|
      ensures 0 <= positions[i].left && positions[i].left + BoxSize <= width
      ensures positions[i].top <= height - BoxSize
    {
      CellInBounds(i, width, height);
    }
    forall i, j | 0 <= i < j < |positions| ensures positions[i] != positions[j] {
      if positions[i] == positions[j] {
        CellInjective(i, j, columns, height);
      }
    }
  }
}
