/**
 * The grid arithmetic of `create_collage` (logic.py): how many rows the
 * collage has, the thumbnail size, and where each thumbnail is pasted.
 * Opening, resizing, pasting and saving images are left out; an image that
 * fails to load (the `except` around each paste) is an index in `failing`.
 */
module Collage {
  import opened Wrappers

  /** The defaults `collage_size=(500, 500)` and `per_row=3`. */
  const DefaultWidth: nat := 500
  const DefaultHeight: nat := 500
  const DefaultPerRow: nat := 3

  datatype Layout = Layout(perRow: nat, rows: nat, thumbW: nat, thumbH: nat)

  /** A thumbnail pasted at `(x, y)`, its top-left corner. */
  datatype Tile = Tile(index: nat, x: nat, y: nat)

  /** `None` for an empty list, and the ZeroDivisionError of `per_row = 0`. */
  datatype CollageError = NoImages | ZeroPerRow

  datatype Collage = Collage(layout: Layout, tiles: seq<Tile>)

  /**
   * `l` lays out `n` images on a `width x height` canvas: `rows` is the
   * least number of rows of `perRow` that hold them, and each thumbnail is
   * the largest whole size that `perRow` columns and `rows` rows fit into.
   */
  predicate IsGrid(l: Layout, n: nat, width: nat, height: nat) {
    && l.perRow > 0 && l.rows > 0
    && (l.rows - 1) * l.perRow < n <= l.rows * l.perRow
    && l.thumbW * l.perRow <= width < (l.thumbW + 1) * l.perRow
    && l.thumbH * l.rows <= height < (l.thumbH + 1) * l.rows
  }

  /** `rows = ceil(n / per_row)`, `thumb_w = W // per_row`, `thumb_h = H // rows`. */
  function GridLayout(n: nat, width: nat, height: nat, perRow: nat): (r: Result<Layout, CollageError>)
    ensures r == Err(NoImages) <==> n == 0
    ensures r == Err(ZeroPerRow) <==> n > 0 && perRow == 0
    ensures r.Ok? ==> r.value.perRow == perRow && IsGrid(r.value, n, width, height)
  {
    if n == 0 then Err(NoImages)
    else if perRow == 0 then Err(ZeroPerRow)
    else
      var rows := (n + perRow - 1) / perRow;
      var l := Layout(perRow, rows, width / perRow, height / rows);
      LayoutIsGrid(n, width, height, perRow);
      Ok(l)
  }

  lemma LayoutIsGrid(n: nat, width: nat, height: nat, p: nat)
    requires n > 0 && p > 0
    ensures IsGrid(Layout(p, (n + p - 1) / p, width / p, height / ((n + p - 1) / p)), n, width, height)
  {
    var rows := (n + p - 1) / p;
    CeilBounds(n, p);
    DivBounds(width, p);
    DivBounds(height, rows);
  }

  /** `x = (idx % per_row) * thumb_w`, `y = (idx // per_row) * thumb_h`. */
  function Cell(l: Layout, idx: nat): Tile
    requires l.perRow > 0
  {
    Tile(idx, (idx % l.perRow) * l.thumbW, (idx / l.perRow) * l.thumbH)
  }

  /** The thumbnails actually pasted among indices `0 .. k-1`: every index that did not fail. */
  function PlacedTiles(l: Layout, k: nat, failing: set<nat>): (r: seq<Tile>)
    requires l.perRow > 0
    ensures forall t :: t in r ==> t.index < k && t.index !in failing && t == Cell(l, t.index)
    ensures forall i: nat :: i < k && i !in failing ==> Cell(l, i) in r
    ensures forall a, b :: 0 <= a < b < |r| ==> r[a].index < r[b].index
  {
    if k == 0 then []
    else
      var rest := PlacedTiles(l, k - 1, failing);
      if k - 1 in failing then rest else rest + [Cell(l, k - 1)]
  }

  /** `create_collage` on `images`: the layout and the tiles pasted. */
  function CreateCollage(images: seq<string>, failing: set<nat>, width: nat, height: nat, perRow: nat)
    : (r: Result<Collage, CollageError>)
    ensures r == Err(NoImages) <==> images == []
    ensures r == Err(ZeroPerRow) <==> images != [] && perRow == 0
    ensures r.Ok? ==> r.value.layout.perRow == perRow && IsGrid(r.value.layout, |images|, width, height)
    ensures r.Ok? ==> forall t :: t in r.value.tiles ==> t == Cell(r.value.layout, t.index)
    ensures r.Ok? ==> forall a, b :: 0 <= a < b < |r.value.tiles| ==> r.value.tiles[a].index < r.value.tiles[b].index
    ensures r.Ok? ==> forall t :: t in r.value.tiles ==>
              && t.index < |images| && t.index !in failing
              && t.x + r.value.layout.thumbW <= width && t.y + r.value.layout.thumbH <= height
    ensures r.Ok? ==> forall i: nat :: i < |images| && i !in failing ==>
              exists t :: t in r.value.tiles && t.index == i
    ensures r.Ok? && r.value.layout.thumbW > 0 && r.value.layout.thumbH > 0 ==>
              forall a, b :: 0 <= a < b < |r.value.tiles| ==>
                Disjoint(r.value.tiles[a], r.value.tiles[b], r.value.layout)
  {
    match GridLayout(|images|, width, height, perRow)
    case Err(e) => Err(e)
    case Ok(l) =>
      var tiles := PlacedTiles(l, |images|, failing);
      PlacedTilesFit(l, |images|, width, height, failing);
      Ok(Collage(l, tiles))
  }

  /** The pasted tiles of a layout stay on the canvas, cover every loadable index and do not overlap. */
  lemma PlacedTilesFit(l: Layout, n: nat, width: nat, height: nat, failing: set<nat>)
    requires IsGrid(l, n, width, height)
    ensures forall t :: t in PlacedTiles(l, n, failing) ==>
              t.x + l.thumbW <= width && t.y + l.thumbH <= height
    ensures forall i: nat :: i < n && i !in failing ==>
              exists t :: t in PlacedTiles(l, n, failing) && t.index == i
    ensures l.thumbW > 0 && l.thumbH > 0 ==>
              forall a, b :: 0 <= a < b < |PlacedTiles(l, n, failing)| ==>
                Disjoint(PlacedTiles(l, n, failing)[a], PlacedTiles(l, n, failing)[b], l)
  {
    var tiles := PlacedTiles(l, n, failing);
    forall t | t in tiles
      ensures t.x + l.thumbW <= width && t.y + l.thumbH <= height
    {
      CellInBounds(l, n, width, height, t.index);
    }
    forall i: nat | i < n && i !in failing
      ensures exists t :: t in tiles && t.index == i
    {
      assert Cell(l, i) in tiles;
    }
    if l.thumbW > 0 && l.thumbH > 0 {
      forall a, b | 0 <= a < b < |tiles| ensures Disjoint(tiles[a], tiles[b], l) {
        assert tiles[a] in tiles && tiles[b] in tiles;
        CellsDisjoint(l, tiles[a].index, tiles[b].index);
      }
    }
  }

  /** The two thumbnails' rectangles `[x, x + thumb_w) x [y, y + thumb_h)` do not overlap. */
  predicate Disjoint(a: Tile, b: Tile, l: Layout) {
    a.x + l.thumbW <= b.x || b.x + l.thumbW <= a.x || a.y + l.thumbH <= b.y || b.y + l.thumbH <= a.y
  }

  lemma DivBounds(a: nat, d: nat)
    requires d > 0
    ensures (a / d) * d <= a < (a / d + 1) * d
  {
    assert a == (a / d) * d + a % d;
  }

  /** `(n + p - 1) // p` is the least number of rows of `p` that hold `n` items. */
  lemma CeilBounds(n: nat, p: nat)
    requires n > 0 && p > 0
    ensures (n + p - 1) / p > 0
    ensures ((n + p - 1) / p - 1) * p < n <= ((n + p - 1) / p) * p
  {
    var rows := (n + p - 1) / p;
    DivBounds(n + p - 1, p);
    assert rows * p + p == (rows + 1) * p;
    assert (rows - 1) * p == rows * p - p;
  }

  lemma MulLeq(a: nat, b: nat, c: nat)
    requires a <= b
    ensures a * c <= b * c
  {
  }

  /** Every cell of an index below `n` lies inside the `width x height` canvas. */
  lemma CellInBounds(l: Layout, n: nat, width: nat, height: nat, idx: nat)
    requires IsGrid(l, n, width, height)
    requires idx < n
    ensures Cell(l, idx).x + l.thumbW <= width
    ensures Cell(l, idx).y + l.thumbH <= height
  {
    var p := l.perRow;
    SlotFits(idx % p, p, l.thumbW, width);
    RowInGrid(idx, p, l.rows);
    SlotFits(idx / p, l.rows, l.thumbH, height);
  }

  /** Slot `k` of `count` slots of `size` ends inside a length that holds all of them. */
  lemma SlotFits(k: nat, count: nat, size: nat, total: nat)
    requires k < count && size * count <= total
    ensures k * size + size <= total
  {
    MulLeq(k + 1, count, size);
    NextSlot(k, size);
  }

  /** An index below `rows * p` lies in one of the first `rows` rows. */
  lemma RowInGrid(idx: nat, p: nat, rows: nat)
    requires p > 0 && idx < rows * p
    ensures idx / p < rows
  {
    var q := idx / p;
    assert q * p <= idx by {
      DivBounds(idx, p);
    }
    MulStrict(q, rows, p);
  }

  lemma MulStrict(a: nat, b: nat, c: nat)
    requires a * c < b * c
    ensures a < b
  {
  }

  lemma NextSlot(a: nat, size: nat)
    ensures a * size + size == (a + 1) * size
  {
  }

  /** An index is determined by its column and row. */
  lemma ColumnRowDetermineIndex(i: nat, j: nat, p: nat)
    requires p > 0
    ensures i != j ==> i % p != j % p || i / p != j / p
  {
    assert i == (i / p) * p + i % p;
    assert j == (j / p) * p + j % p;
  }

  /** Two slots `a < b` of size `size` along one axis do not overlap. */
  lemma SlotsApart(a: nat, b: nat, size: nat)
    requires a < b
    ensures a * size + size <= b * size
  {
    MulLeq(a + 1, b, size);
    NextSlot(a, size);
  }

  /** With non-empty thumbnails, distinct indices get non-overlapping cells. */
  lemma CellsDisjoint(l: Layout, i: nat, j: nat)
    requires l.perRow > 0 && l.thumbW > 0 && l.thumbH > 0
    requires i != j
    ensures Disjoint(Cell(l, i), Cell(l, j), l)
  {
    var p := l.perRow;
    var ci, cj, ri, rj := i % p, j % p, i / p, j / p;
    ColumnRowDetermineIndex(i, j, p);
    if ci < cj {
      SlotsApart(ci, cj, l.thumbW);
    } else if cj < ci {
      SlotsApart(cj, ci, l.thumbW);
    } else if ri < rj {
      SlotsApart(ri, rj, l.thumbH);
    } else {
      SlotsApart(rj, ri, l.thumbH);
    }
  }

  /**
   * When there are more rows than pixels of height, `thumb_h` is 0 and the
   * cells of the first image of the first two rows coincide.
   */
  lemma CellsCollideWithoutHeight(l: Layout, n: nat, width: nat, height: nat)
    requires GridLayout(n, width, height, l.perRow) == Ok(l)
    requires height < l.rows && l.rows >= 2
    ensures l.thumbH == 0 && l.perRow < n
    ensures Cell(l, 0).x == Cell(l, l.perRow).x && Cell(l, 0).y == Cell(l, l.perRow).y
  {
    var p := l.perRow;
    MulLeq(1, l.rows - 1, p);
    assert p % p == 0 && p / p == 1;
    assert l.thumbH == 0 by {
      if l.thumbH > 0 {
        MulLeq(1, l.thumbH, l.rows);
      }
    }
  }
}
