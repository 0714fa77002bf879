/**
 * `CalculateTileRects` of wxlayer.cpp: how the viewport is split into one tile per layer when
 * layers are tiled. The grid shape depends on the number of layers and the viewport's
 * orientation, over-long tiles fall back to a single row or column, the last row and column
 * absorb the division remainders, and 3, 5 or 7 layers leave a spare cell whose width the
 * last layer takes. An optional border then shrinks each tile.
 */
module TileLayout {
  /** A `wxRect`: left, top, width, height. */
  datatype Rect = Rect(x: int, y: int, width: int, height: int)

  predicate Contains(r: Rect, px: int, py: int) {
    r.x <= px < r.x + r.width && r.y <= py < r.y + r.height
  }

  /** C's `/` on `int`, which truncates toward zero; Dafny's `/` rounds down for a positive divisor. */
  function CDiv(a: int, b: int): (q: int)
    requires b != 0
    ensures a >= 0 && b > 0 ==> q == a / b
  {
    var q := (if a < 0 then -a else a) / (if b < 0 then -b else b);
    if (a < 0) != (b < 0) then -q else q
  }

  /** `rows` x `cols` cells, each `tilewd` by `tileht` before the remainders are added. */
  datatype Layout = Layout(rows: int, cols: int, tilewd: int, tileht: int)

  /** The `switch (numlayers)` table: (rows, cols) for a portrait or a landscape viewport. */
  function Shape(n: int, portrait: bool): (int, int) {
    if n == 4 then (2, 2)
    else if n == 9 then (3, 3)
    else if n == 3 || n == 5 || n == 7 then (if portrait then (n / 2 + 1, 2) else (2, n / 2 + 1))
    else if n == 6 || n == 8 || n == 10 then (if portrait then (n / 2, 2) else (2, n / 2))
    else if portrait then (n, 1) else (1, n)
  }

  /**
   * The layout for `n` layers in a `bigwd` x `bight` viewport: the table's shape, unless its
   * tiles would be more than 2.5 times wider than high (then one row) or higher than wide
   * (then one column). `float(a) > float(b) * 2.5` is `2 * a > 5 * b` on these sizes.
   */
  function ChooseLayout(n: int, bigwd: int, bight: int): (l: Layout)
    requires n >= 1
    ensures l.rows >= 1 && l.cols >= 1
  {
    var (rows, cols) := Shape(n, bigwd <= bight);
    var tilewd := CDiv(bigwd, cols);
    var tileht := CDiv(bight, rows);
    if 2 * tilewd > 5 * tileht then Layout(1, n, CDiv(bigwd, n), bight)
    else if 2 * tileht > 5 * tilewd then Layout(n, 1, bigwd, CDiv(bight, n))
    else Layout(rows, cols, tilewd, tileht)
  }

  /** The table gives `n` cells, or `n + 1` for 3, 5 and 7 layers; portrait is landscape transposed. */
  lemma ShapeCells(n: int, portrait: bool)
    requires n >= 1
    ensures var (rows, cols) := Shape(n, portrait);
      && rows >= 1 && cols >= 1
      && rows * cols == (if n == 3 || n == 5 || n == 7 then n + 1 else n)
      && (n == 3 || n == 5 || n == 7 ==> rows >= 2 && cols >= 2)
      && Shape(n, !portrait) == (cols, rows)
  {
  }

  /** The chosen layout has one cell per layer, plus one spare cell exactly for 3, 5 and 7 layers in the table's shape. */
  lemma LayoutCells(n: int, bigwd: int, bight: int)
    requires n >= 1
    ensures var l := ChooseLayout(n, bigwd, bight);
      && (l.rows * l.cols == n || (l.rows * l.cols == n + 1 && (n == 3 || n == 5 || n == 7)))
      && (l.rows * l.cols == n + 1 ==> l.cols >= 2)
  {
    var (rows, cols) := Shape(n, bigwd <= bight);
    ShapeCells(n, bigwd <= bight);
    var tilewd := CDiv(bigwd, cols);
    var tileht := CDiv(bight, rows);
    if 2 * tilewd > 5 * tileht {
      assert ChooseLayout(n, bigwd, bight) == Layout(1, n, CDiv(bigwd, n), bight);
    } else if 2 * tileht > 5 * tilewd {
      assert ChooseLayout(n, bigwd, bight) == Layout(n, 1, bigwd, CDiv(bight, n));
    } else {
      assert ChooseLayout(n, bigwd, bight) == Layout(rows, cols, tilewd, tileht);
    }
  }

  /**
   * What the fallback does to the tiles (before any border): when the table's tiles would be
   * more than 2.5 times wider than high, the layers form one row of full-height tiles, each
   * `bigwd / n` wide and the last reaching the right edge; when more than 2.5 times higher than
   * wide, one column of full-width tiles, the last reaching the bottom edge.
   */
  lemma LayoutFallback(n: int, bigwd: int, bight: int)
    requires n >= 1
    ensures var (rows, cols) := Shape(n, bigwd <= bight);
      var tilewd := CDiv(bigwd, cols);
      var tileht := CDiv(bight, rows);
      var q := CDiv(bigwd, n);
      2 * tilewd > 5 * tileht ==>
        forall idx :: 0 <= idx < n ==>
          && TileRect(n, bigwd, bight, 0, idx).y == 0
          && TileRect(n, bigwd, bight, 0, idx).height == bight
          && TileRect(n, bigwd, bight, 0, idx).x == idx * q
          && (idx < n - 1 ==> TileRect(n, bigwd, bight, 0, idx).width == q)
          && (idx == n - 1 ==> TileRect(n, bigwd, bight, 0, idx).x + TileRect(n, bigwd, bight, 0, idx).width == bigwd)
    ensures var (rows, cols) := Shape(n, bigwd <= bight);
      var tilewd := CDiv(bigwd, cols);
      var tileht := CDiv(bight, rows);
      var q := CDiv(bight, n);
      2 * tilewd <= 5 * tileht && 2 * tileht > 5 * tilewd ==>
        forall idx :: 0 <= idx < n ==>
          && TileRect(n, bigwd, bight, 0, idx).x == 0
          && TileRect(n, bigwd, bight, 0, idx).width == bigwd
          && TileRect(n, bigwd, bight, 0, idx).y == idx * q
          && (idx < n - 1 ==> TileRect(n, bigwd, bight, 0, idx).height == q)
          && (idx == n - 1 ==> TileRect(n, bigwd, bight, 0, idx).y + TileRect(n, bigwd, bight, 0, idx).height == bight)
  {
    var (rows, cols) := Shape(n, bigwd <= bight);
    var tilewd := CDiv(bigwd, cols);
    var tileht := CDiv(bight, rows);
    if 2 * tilewd > 5 * tileht {
      var l := Layout(1, n, CDiv(bigwd, n), bight);
      assert ChooseLayout(n, bigwd, bight) == l;
      RowTiles(n, bigwd, bight, CDiv(bigwd, n));
      assert forall idx :: 0 <= idx < n ==> TileRect(n, bigwd, bight, 0, idx) == TileOf(l, n, bigwd, bight, idx);
    } else if 2 * tileht > 5 * tilewd {
      var l := Layout(n, 1, bigwd, CDiv(bight, n));
      assert ChooseLayout(n, bigwd, bight) == l;
      ColumnTiles(n, bigwd, bight, CDiv(bight, n));
      assert forall idx :: 0 <= idx < n ==> TileRect(n, bigwd, bight, 0, idx) == TileOf(l, n, bigwd, bight, idx);
    }
  }

  /** The tiles of a one-row layout of `q`-wide cells. */
  lemma RowTiles(n: int, bigwd: int, bight: int, q: int)
    requires n >= 1
    ensures var l := Layout(1, n, q, bight);
      forall idx :: 0 <= idx < n ==>
        && TileOf(l, n, bigwd, bight, idx).y == 0
        && TileOf(l, n, bigwd, bight, idx).height == bight
        && TileOf(l, n, bigwd, bight, idx).x == idx * q
        && (idx < n - 1 ==> TileOf(l, n, bigwd, bight, idx).width == q)
        && (idx == n - 1 ==> TileOf(l, n, bigwd, bight, idx).x + TileOf(l, n, bigwd, bight, idx).width == bigwd)
  {
    var l := Layout(1, n, q, bight);
    forall idx | 0 <= idx < n
      ensures TileOf(l, n, bigwd, bight, idx) == Cell(l, bigwd, bight, 0, idx)
    {
      assert idx / n == 0 && idx % n == idx;
    }
    assert (n - 1) * q + q == n * q;
  }

  /** The tiles of a one-column layout of `q`-high cells. */
  lemma ColumnTiles(n: int, bigwd: int, bight: int, q: int)
    requires n >= 1
    ensures var l := Layout(n, 1, bigwd, q);
      forall idx :: 0 <= idx < n ==>
        && TileOf(l, n, bigwd, bight, idx).x == 0
        && TileOf(l, n, bigwd, bight, idx).width == bigwd
        && TileOf(l, n, bigwd, bight, idx).y == idx * q
        && (idx < n - 1 ==> TileOf(l, n, bigwd, bight, idx).height == q)
        && (idx == n - 1 ==> TileOf(l, n, bigwd, bight, idx).y + TileOf(l, n, bigwd, bight, idx).height == bight)
  {
    var l := Layout(n, 1, bigwd, q);
    forall idx | 0 <= idx < n
      ensures TileOf(l, n, bigwd, bight, idx) == Cell(l, bigwd, bight, idx, 0)
    {
      assert idx / 1 == idx && idx % 1 == 0;
    }
    assert (n - 1) * q + q == n * q;
  }

  /** The width of column `j`: the last one takes what `cols` full columns leave of `bigwd`. */
  function ColWidth(l: Layout, bigwd: int, j: int): int {
    l.tilewd + (if j == l.cols - 1 then bigwd - l.cols * l.tilewd else 0)
  }

  function RowHeight(l: Layout, bight: int, i: int): int {
    l.tileht + (if i == l.rows - 1 then bight - l.rows * l.tileht else 0)
  }

  /** Cell `(i, j)` of the grid. */
  function Cell(l: Layout, bigwd: int, bight: int, i: int, j: int): Rect {
    Rect(j * l.tilewd, i * l.tileht, ColWidth(l, bigwd, j), RowHeight(l, bight, i))
  }

  /** The grid has a spare cell after the last layer's. */
  predicate Spare(l: Layout, n: int) {
    l.rows * l.cols > n
  }

  /** Layer `idx`'s cell, row by row. */
  function CellOf(l: Layout, bigwd: int, bight: int, idx: int): Rect
    requires l.cols >= 1
  {
    Cell(l, bigwd, bight, idx / l.cols, idx % l.cols)
  }

  /** Layer `idx`'s tile: its cell, and for the last layer also the spare cell's width. */
  function TileOf(l: Layout, n: int, bigwd: int, bight: int, idx: int): Rect
    requires l.cols >= 1
  {
    var r := CellOf(l, bigwd, bight, idx);
    if idx == n - 1 && Spare(l, n) then r.(width := r.width + ColWidth(l, bigwd, l.cols - 1)) else r
  }

  /** The border loop's change at layer `idx`'s own cell: in by `b` at left and top, and again at the grid's right and bottom. */
  function BorderStep(l: Layout, r: Rect, b: int, idx: int): Rect
    requires l.cols >= 1
  {
    var i := idx / l.cols;
    var j := idx % l.cols;
    Rect(r.x + b, r.y + b,
         r.width - b - (if j == l.cols - 1 then b else 0),
         r.height - b - (if i == l.rows - 1 then b else 0))
  }

  /** Layer `idx`'s tile with a border of `b`; the spare cell takes another `b` off the last layer's width. */
  function BorderedOf(l: Layout, n: int, bigwd: int, bight: int, b: int, idx: int): Rect
    requires l.cols >= 1
  {
    var s := BorderStep(l, TileOf(l, n, bigwd, bight, idx), b, idx);
    if idx == n - 1 && Spare(l, n) then s.(width := s.width - b) else s
  }

  /** The `tilerect` of layer `idx` once `CalculateTileRects` has run. */
  function TileRect(n: int, bigwd: int, bight: int, tileborder: int, idx: int): Rect
    requires n >= 1
  {
    var l := ChooseLayout(n, bigwd, bight);
    if tileborder > 0 then BorderedOf(l, n, bigwd, bight, tileborder, idx) else TileOf(l, n, bigwd, bight, idx)
  }

  lemma {:induction false} MulMono(a: int, b: int, t: int)
    requires a <= b && t >= 0
    ensures a * t <= b * t
    decreases b - a
  {
    if a < b {
      MulMono(a, b - 1, t);
      assert b * t == (b - 1) * t + t;
    }
  }

  /** A non-zero multiple of `c > 0` is at least `c` away from zero. */
  lemma MulAway(d: int, c: int)
    requires c > 0
    ensures d >= 1 ==> d * c >= c
    ensures d <= -1 ==> d * c <= -c
  {
    if d >= 1 {
      MulMono(1, d, c);
    } else if d <= -1 {
      MulMono(d, -1, c);
    }
  }

  /** `q * c + r` with `0 <= r < c` has quotient `q` and remainder `r`. */
  lemma DivModOf(a: int, q: int, r: int, c: int)
    requires c > 0 && 0 <= r < c && a == q * c + r
    ensures a / c == q && a % c == r
  {
    var d := q - a / c;
    assert d * c == a % c - r;
    MulAway(d, c);
  }

  /** The contents of `rects` after the placing loop has visited the first `k` cells. */
  function Placed(l: Layout, n: int, bigwd: int, bight: int, idx: int, k: int): Rect
    requires l.cols >= 1
  {
    if idx >= k then Rect(0, 0, 0, 0)
    else if k <= n then CellOf(l, bigwd, bight, idx)
    else TileOf(l, n, bigwd, bight, idx)
  }

  /** The contents of `rects` after the border loop has visited the first `k` cells. */
  function Shrunk(l: Layout, n: int, bigwd: int, bight: int, b: int, idx: int, k: int): Rect
    requires l.cols >= 1
  {
    if idx >= k then TileOf(l, n, bigwd, bight, idx)
    else if k <= n then BorderStep(l, TileOf(l, n, bigwd, bight, idx), b, idx)
    else BorderedOf(l, n, bigwd, bight, b, idx)
  }

  /** Cell `(i, j)` is numbered `i * cols + j`; only the spare cell, the grid's last, is numbered `n`. */
  lemma CellIndex(l: Layout, n: int, i: int, j: int)
    requires n >= 1 && l.rows >= 1 && l.cols >= 1
    requires l.rows * l.cols == n || l.rows * l.cols == n + 1
    requires 0 <= i < l.rows && 0 <= j < l.cols
    ensures var k := i * l.cols + j;
      && 0 <= k <= n && k / l.cols == i && k % l.cols == j
      && (k == n ==> i == l.rows - 1 && j == l.cols - 1 && Spare(l, n))
  {
    var rows, cols := l.rows, l.cols;
    DivModOf(i * cols + j, i, j, cols);
    MulMono(i, rows - 1, cols);
    assert (rows - 1) * cols + cols == rows * cols;
    if i < rows - 1 {
      MulMono(i, rows - 2, cols);
      assert (rows - 2) * cols + cols == (rows - 1) * cols;
    }
  }

  /** The first double loop of `CalculateTileRects`: each cell's rectangle goes to its layer. */
  method PlaceTiles(l: Layout, n: int, bigwd: int, bight: int) returns (rects: seq<Rect>)
    requires n >= 1 && l.rows >= 1 && l.cols >= 1
    requires l.rows * l.cols == n || l.rows * l.cols == n + 1
    ensures |rects| == n
    ensures forall idx :: 0 <= idx < n ==> rects[idx] == TileOf(l, n, bigwd, bight, idx)
  {
    var rows, cols := l.rows, l.cols;
    rects := seq(n, _ => Rect(0, 0, 0, 0));
    var i := 0;
    while i < rows
      invariant 0 <= i <= rows && |rects| == n
      invariant forall idx :: 0 <= idx < n ==> rects[idx] == Placed(l, n, bigwd, bight, idx, i * cols)
    {
      var j := 0;
      while j < cols
        invariant 0 <= j <= cols && |rects| == n
        invariant forall idx :: 0 <= idx < n ==> rects[idx] == Placed(l, n, bigwd, bight, idx, i * cols + j)
      {
        CellIndex(l, n, i, j);
        rects := PlaceCell(l, n, bigwd, bight, rects, i * cols + j, i, j);
        j := j + 1;
      }
      assert i * cols + cols == (i + 1) * cols;
      i := i + 1;
    }
  }

  /** One pass of the placing loop's body, at cell `k`, row `i` and column `j`. */
  method PlaceCell(l: Layout, n: int, bigwd: int, bight: int, rects: seq<Rect>, k: int, i: int, j: int)
    returns (rects': seq<Rect>)
    requires n >= 1 && l.rows >= 1 && l.cols >= 1
    requires 0 <= i < l.rows && 0 <= j < l.cols && 0 <= k <= n && k / l.cols == i && k % l.cols == j
    requires k == n ==> i == l.rows - 1 && j == l.cols - 1 && Spare(l, n)
    requires |rects| == n
    requires forall idx :: 0 <= idx < n ==> rects[idx] == Placed(l, n, bigwd, bight, idx, k)
    ensures |rects'| == n
    ensures forall idx :: 0 <= idx < n ==> rects'[idx] == Placed(l, n, bigwd, bight, idx, k + 1)
  {
    var r := Rect(j * l.tilewd, i * l.tileht, l.tilewd, l.tileht);
    if i == l.rows - 1 {
      r := r.(height := r.height + bight - l.rows * l.tileht);
    }
    if j == l.cols - 1 {
      r := r.(width := r.width + bigwd - l.cols * l.tilewd);
    }
    assert r == CellOf(l, bigwd, bight, k);
    if k == n {
      rects' := rects[k - 1 := rects[k - 1].(width := rects[k - 1].width + r.width)];
    } else {
      rects' := rects[k := r];
    }
    forall idx | 0 <= idx < n
      ensures rects'[idx] == Placed(l, n, bigwd, bight, idx, k + 1)
    {
      if idx != k && !(k == n && idx == n - 1) {
        PlacedStep(l, n, bigwd, bight, idx, k);
      }
    }
  }

  /** A placing step at cell `k` leaves every other layer's rectangle as it was. */
  lemma PlacedStep(l: Layout, n: int, bigwd: int, bight: int, idx: int, k: int)
    requires l.cols >= 1 && 0 <= idx < n && 0 <= k <= n
    requires idx != k && !(k == n && idx == n - 1)
    ensures Placed(l, n, bigwd, bight, idx, k + 1) == Placed(l, n, bigwd, bight, idx, k)
  {
  }

  /** The second double loop: each tile moves in by `tileborder` and shrinks to keep equal borders. */
  method BorderTiles(l: Layout, n: int, bigwd: int, bight: int, tileborder: int, tiles: seq<Rect>)
    returns (rects: seq<Rect>)
    requires n >= 1 && l.rows >= 1 && l.cols >= 1
    requires l.rows * l.cols == n || l.rows * l.cols == n + 1
    requires |tiles| == n && forall idx :: 0 <= idx < n ==> tiles[idx] == TileOf(l, n, bigwd, bight, idx)
    ensures |rects| == n
    ensures forall idx :: 0 <= idx < n ==> rects[idx] == BorderedOf(l, n, bigwd, bight, tileborder, idx)
  {
    var rows, cols := l.rows, l.cols;
    rects := tiles;
    var i := 0;
    while i < rows
      invariant 0 <= i <= rows && |rects| == n
      invariant forall idx :: 0 <= idx < n ==> rects[idx] == Shrunk(l, n, bigwd, bight, tileborder, idx, i * cols)
    {
      var j := 0;
      while j < cols
        invariant 0 <= j <= cols && |rects| == n
        invariant forall idx :: 0 <= idx < n ==> rects[idx] == Shrunk(l, n, bigwd, bight, tileborder, idx, i * cols + j)
      {
        CellIndex(l, n, i, j);
        rects := BorderCell(l, n, bigwd, bight, tileborder, rects, i * cols + j, i, j);
        j := j + 1;
      }
      assert i * cols + cols == (i + 1) * cols;
      i := i + 1;
    }
  }

  /** One pass of the border loop's body, at cell `k`, row `i` and column `j`. */
  method BorderCell(l: Layout, n: int, bigwd: int, bight: int, tileborder: int, rects: seq<Rect>, k: int, i: int, j: int)
    returns (rects': seq<Rect>)
    requires n >= 1 && l.rows >= 1 && l.cols >= 1
    requires 0 <= i < l.rows && 0 <= j < l.cols && 0 <= k <= n && k / l.cols == i && k % l.cols == j
    requires k == n ==> Spare(l, n)
    requires |rects| == n
    requires forall idx :: 0 <= idx < n ==> rects[idx] == Shrunk(l, n, bigwd, bight, tileborder, idx, k)
    ensures |rects'| == n
    ensures forall idx :: 0 <= idx < n ==> rects'[idx] == Shrunk(l, n, bigwd, bight, tileborder, idx, k + 1)
  {
    if k == n {
      rects' := rects[k - 1 := rects[k - 1].(width := rects[k - 1].width - tileborder)];
    } else {
      var r := rects[k];
      r := r.(x := r.x + tileborder, y := r.y + tileborder);
      r := r.(width := r.width - tileborder, height := r.height - tileborder);
      if j == l.cols - 1 {
        r := r.(width := r.width - tileborder);
      }
      if i == l.rows - 1 {
        r := r.(height := r.height - tileborder);
      }
      rects' := rects[k := r];
    }
    forall idx | 0 <= idx < n
      ensures rects'[idx] == Shrunk(l, n, bigwd, bight, tileborder, idx, k + 1)
    {
      if idx != k && !(k == n && idx == n - 1) {
        ShrunkStep(l, n, bigwd, bight, tileborder, idx, k);
      }
    }
  }

  /** A border step at cell `k` leaves every other layer's rectangle as it was. */
  lemma ShrunkStep(l: Layout, n: int, bigwd: int, bight: int, b: int, idx: int, k: int)
    requires l.cols >= 1 && 0 <= idx < n && 0 <= k <= n
    requires idx != k && !(k == n && idx == n - 1)
    ensures Shrunk(l, n, bigwd, bight, b, idx, k + 1) == Shrunk(l, n, bigwd, bight, b, idx, k)
  {
  }

  /** `CalculateTileRects(bigwd, bight)` for `numlayers == n`: the `tilerect` of every layer. */
  method CalculateTileRects(n: int, bigwd: int, bight: int, tileborder: int) returns (rects: seq<Rect>)
    requires n >= 1
    ensures |rects| == n
    ensures forall idx :: 0 <= idx < n ==> rects[idx] == TileRect(n, bigwd, bight, tileborder, idx)
  {
    var l := ChooseLayout(n, bigwd, bight);
    LayoutCells(n, bigwd, bight);
    rects := PlaceTiles(l, n, bigwd, bight);
    if tileborder > 0 {
      rects := BorderTiles(l, n, bigwd, bight, tileborder, rects);
    }
  }

  // ---------------------------------------------------------------------------
  // The tiles partition the viewport

  /** The band holding `p` among bands of width `t` from 0, the last of `parts` taking the rest; searched from band `k`. */
  function Band(p: int, t: int, parts: int, k: int): (b: int)
    requires 0 <= k < parts
    ensures k <= b < parts
    decreases parts - k
  {
    if k == parts - 1 || p < (k + 1) * t then k else Band(p, t, parts, k + 1)
  }

  /** `p` lies in band `k` of a length of `total` split as the columns (or rows) are. */
  predicate InBand(p: int, t: int, parts: int, total: int, k: int) {
    k * t <= p < k * t + t + (if k == parts - 1 then total - parts * t else 0)
  }

  /** From band `m` on, `p` lies in exactly one band, the one `Band` finds. */
  lemma {:induction false} BandFrom(p: int, t: int, parts: int, total: int, m: int)
    requires 0 <= m < parts && 0 <= t && m * t <= p < total
    ensures forall k :: m <= k < parts ==> (InBand(p, t, parts, total, k) <==> k == Band(p, t, parts, m))
    decreases parts - m
  {
    if m == parts - 1 {
      assert m * t + t == parts * t;
    } else if p < (m + 1) * t {
      forall k | m < k < parts
        ensures !InBand(p, t, parts, total, k)
      {
        MulMono(m + 1, k, t);
      }
    } else {
      BandFrom(p, t, parts, total, m + 1);
    }
  }

  /** Within `rows * cols` cells, an index's row is a row of the grid. */
  lemma RowOf(idx: int, rows: int, cols: int)
    requires cols >= 1 && 0 <= idx < rows * cols
    ensures 0 <= idx / cols < rows && idx == idx / cols * cols + idx % cols
  {
    var i := idx / cols;
    assert (rows - i) * cols == rows * cols - idx + idx % cols;
    MulAway(rows - i, cols);
  }

  /** The layer whose tile holds the point `(px, py)`: that of its cell, the spare cell's being the last layer. */
  function TileAt(l: Layout, n: int, bigwd: int, bight: int, px: int, py: int): int
    requires l.rows >= 1 && l.cols >= 1
  {
    var k := Band(py, l.tileht, l.rows, 0) * l.cols + Band(px, l.tilewd, l.cols, 0);
    if k >= n then n - 1 else k
  }

  /** A cell holds a point exactly when the point's column and row are the cell's. */
  lemma CellContains(l: Layout, bigwd: int, bight: int, i: int, j: int, px: int, py: int)
    ensures Contains(Cell(l, bigwd, bight, i, j), px, py) <==>
      InBand(px, l.tilewd, l.cols, bigwd, j) && InBand(py, l.tileht, l.rows, bight, i)
  {
  }

  /** A layout of `n` layers for a `bigwd` x `bight` viewport: its cells fit, one per layer plus at most a spare one. */
  predicate Fits(l: Layout, n: int, bigwd: int, bight: int) {
    && l.rows >= 1 && l.cols >= 1
    && (l.rows * l.cols == n || (l.rows * l.cols == n + 1 && l.cols >= 2))
    && 0 <= l.tilewd && l.cols * l.tilewd <= bigwd
    && 0 <= l.tileht && l.rows * l.tileht <= bight
  }

  /** A quotient of non-negatives is non-negative and its multiple does not exceed the dividend. */
  lemma DivBelow(a: int, c: int)
    requires a >= 0 && c >= 1
    ensures 0 <= a / c && c * (a / c) <= a
  {
    assert a == (a / c) * c + a % c;
  }

  lemma LayoutFits(n: int, bigwd: int, bight: int)
    requires n >= 1 && bigwd >= 0 && bight >= 0
    ensures Fits(ChooseLayout(n, bigwd, bight), n, bigwd, bight)
  {
    LayoutCells(n, bigwd, bight);
    var (rows, cols) := Shape(n, bigwd <= bight);
    ShapeCells(n, bigwd <= bight);
    DivBelow(bigwd, cols);
    DivBelow(bight, rows);
    DivBelow(bigwd, n);
    DivBelow(bight, n);
    var tilewd := CDiv(bigwd, cols);
    var tileht := CDiv(bight, rows);
    if 2 * tilewd > 5 * tileht {
      assert ChooseLayout(n, bigwd, bight) == Layout(1, n, CDiv(bigwd, n), bight);
    } else if 2 * tileht > 5 * tilewd {
      assert ChooseLayout(n, bigwd, bight) == Layout(n, 1, bigwd, CDiv(bight, n));
    } else {
      assert ChooseLayout(n, bigwd, bight) == Layout(rows, cols, tilewd, tileht);
    }
  }

  /** With a spare cell the last layer's cell is the grid's last but one. */
  lemma SpareIndex(l: Layout, n: int)
    requires l.rows >= 1 && l.cols >= 2 && l.rows * l.cols == n + 1
    ensures n - 1 == (l.rows - 1) * l.cols + (l.cols - 2)
    ensures (n - 1) / l.cols == l.rows - 1 && (n - 1) % l.cols == l.cols - 2
  {
    assert (l.rows - 1) * l.cols + l.cols == l.rows * l.cols;
    DivModOf(n - 1, l.rows - 1, l.cols - 2, l.cols);
  }

  /** The last layer's tile, widened by the spare cell, holds a point exactly when the point lies in either cell. */
  lemma SpareContains(l: Layout, n: int, bigwd: int, bight: int, px: int, py: int)
    requires Fits(l, n, bigwd, bight) && Spare(l, n)
    ensures (n - 1) / l.cols == l.rows - 1 && (n - 1) % l.cols == l.cols - 2
    ensures Contains(TileOf(l, n, bigwd, bight, n - 1), px, py) <==>
      InBand(py, l.tileht, l.rows, bight, l.rows - 1) &&
      (InBand(px, l.tilewd, l.cols, bigwd, l.cols - 2) || InBand(px, l.tilewd, l.cols, bigwd, l.cols - 1))
  {
    var cols, tw := l.cols, l.tilewd;
    SpareIndex(l, n);
    var a := (cols - 2) * tw;
    assert (cols - 1) * tw == a + tw;
    assert cols * tw == a + tw + tw;
    var t := TileOf(l, n, bigwd, bight, n - 1);
    assert t == Rect(a, (l.rows - 1) * l.tileht, tw + tw + bigwd - cols * tw, RowHeight(l, bight, l.rows - 1));
  }

  /** The cell `TileAt` finds: the row and column bands holding the point, numbered row by row. */
  lemma PointCell(l: Layout, n: int, bigwd: int, bight: int, px: int, py: int)
    requires Fits(l, n, bigwd, bight) && 0 <= px < bigwd && 0 <= py < bight
    ensures var col := Band(px, l.tilewd, l.cols, 0);
      var row := Band(py, l.tileht, l.rows, 0);
      var k := row * l.cols + col;
      && k <= l.rows * l.cols - 1 && k / l.cols == row && k % l.cols == col
      && (forall j :: 0 <= j < l.cols ==> (InBand(px, l.tilewd, l.cols, bigwd, j) <==> j == col))
      && (forall i :: 0 <= i < l.rows ==> (InBand(py, l.tileht, l.rows, bight, i) <==> i == row))
  {
    var rows, cols := l.rows, l.cols;
    BandFrom(px, l.tilewd, cols, bigwd, 0);
    BandFrom(py, l.tileht, rows, bight, 0);
    var col := Band(px, l.tilewd, cols, 0);
    var row := Band(py, l.tileht, rows, 0);
    MulMono(row, rows - 1, cols);
    assert (rows - 1) * cols + cols == rows * cols;
    DivModOf(row * cols + col, row, col, cols);
  }

  /** The partition at a layer whose tile is just its cell. */
  lemma PartitionCell(l: Layout, n: int, bigwd: int, bight: int, px: int, py: int, idx: int)
    requires Fits(l, n, bigwd, bight) && 0 <= px < bigwd && 0 <= py < bight && 0 <= idx < n
    requires !(idx == n - 1 && Spare(l, n))
    ensures Contains(TileOf(l, n, bigwd, bight, idx), px, py) <==> idx == TileAt(l, n, bigwd, bight, px, py)
  {
    var cols := l.cols;
    PointCell(l, n, bigwd, bight, px, py);
    RowOf(idx, l.rows, cols);
    var i := idx / cols;
    var j := idx % cols;
    CellContains(l, bigwd, bight, i, j, px, py);
    var k := Band(py, l.tileht, l.rows, 0) * cols + Band(px, l.tilewd, cols, 0);
    assert idx == k <==> i == k / cols && j == k % cols;
  }

  /** The partition at the last layer when it takes the spare cell too. */
  lemma PartitionSpare(l: Layout, n: int, bigwd: int, bight: int, px: int, py: int)
    requires Fits(l, n, bigwd, bight) && 0 <= px < bigwd && 0 <= py < bight && Spare(l, n)
    ensures Contains(TileOf(l, n, bigwd, bight, n - 1), px, py) <==> n - 1 == TileAt(l, n, bigwd, bight, px, py)
  {
    var cols := l.cols;
    PointCell(l, n, bigwd, bight, px, py);
    SpareContains(l, n, bigwd, bight, px, py);
    var col := Band(px, l.tilewd, cols, 0);
    var row := Band(py, l.tileht, l.rows, 0);
    var k := row * cols + col;
    assert n - 1 == (l.rows - 1) * cols + (cols - 2);
    if row < l.rows - 1 {
      MulMono(row, l.rows - 2, cols);
      assert (l.rows - 2) * cols + cols == (l.rows - 1) * cols;
      assert k < n - 1;
    } else {
      assert k - (n - 1) == col - (cols - 2);
    }
  }

  /** The partition for any layout that fits: layer `idx`'s tile holds `(px, py)` exactly when `TileAt` names it. */
  lemma PartitionOf(l: Layout, n: int, bigwd: int, bight: int, px: int, py: int, idx: int)
    requires Fits(l, n, bigwd, bight) && 0 <= px < bigwd && 0 <= py < bight && 0 <= idx < n
    ensures Contains(TileOf(l, n, bigwd, bight, idx), px, py) <==> idx == TileAt(l, n, bigwd, bight, px, py)
  {
    if idx == n - 1 && Spare(l, n) {
      PartitionSpare(l, n, bigwd, bight, px, py);
    } else {
      PartitionCell(l, n, bigwd, bight, px, py, idx);
    }
  }

  /**
   * Without a border the tiles partition the viewport: every point of it lies in the tile of
   * exactly one layer.
   */
  lemma TilesPartition(n: int, bigwd: int, bight: int, px: int, py: int, idx: int)
    requires n >= 1 && 0 <= px < bigwd && 0 <= py < bight && 0 <= idx < n
    ensures Contains(TileRect(n, bigwd, bight, 0, idx), px, py) <==>
      idx == TileAt(ChooseLayout(n, bigwd, bight), n, bigwd, bight, px, py)
  {
    LayoutFits(n, bigwd, bight);
    PartitionOf(ChooseLayout(n, bigwd, bight), n, bigwd, bight, px, py, idx);
  }

  /** A column's right edge is the viewport's exactly for the last column; likewise for rows. */
  lemma EdgeOf(t: int, parts: int, total: int, k: int)
    requires 0 <= k < parts && t > 0 && parts * t <= total
    ensures k * t + t + (if k == parts - 1 then total - parts * t else 0) == total <==> k == parts - 1
  {
    if k < parts - 1 {
      MulMono(k + 1, parts - 1, t);
      assert (k + 1) * t == k * t + t;
      assert (parts - 1) * t + t == parts * t;
    } else {
      assert k * t + t == parts * t;
    }
  }

  /** The border gaps for any layout that fits and has cells of positive size. */
  lemma GapsOf(l: Layout, n: int, bigwd: int, bight: int, b: int, idx: int)
    requires Fits(l, n, bigwd, bight) && l.tilewd > 0 && l.tileht > 0 && 0 <= idx < n
    ensures var t := TileOf(l, n, bigwd, bight, idx);
      var r := BorderedOf(l, n, bigwd, bight, b, idx);
      && r.x == t.x + b && r.y == t.y + b
      && r.x + r.width == t.x + t.width - (if t.x + t.width == bigwd then b else 0)
      && r.y + r.height == t.y + t.height - (if t.y + t.height == bight then b else 0)
  {
    var rows, cols, tw := l.rows, l.cols, l.tilewd;
    RowOf(idx, rows, cols);
    EdgeOf(l.tileht, rows, bight, idx / cols);
    if idx == n - 1 && Spare(l, n) {
      SpareContains(l, n, bigwd, bight, 0, 0);
      assert (cols - 2) * tw + tw == (cols - 1) * tw;
      assert (cols - 1) * tw + tw == cols * tw;
    } else {
      EdgeOf(tw, cols, bigwd, idx % cols);
    }
  }

  /**
   * With a border of `b` and tiles of positive size, every tile keeps a gap of `b` at its left
   * and top, and a further `b` where it meets the right or bottom edge of the viewport, so
   * the borders between and around the tiles are all `b` wide.
   */
  lemma BorderGaps(n: int, bigwd: int, bight: int, b: int, idx: int)
    requires n >= 1 && bigwd >= 0 && bight >= 0 && b > 0 && 0 <= idx < n
    requires ChooseLayout(n, bigwd, bight).tilewd > 0 && ChooseLayout(n, bigwd, bight).tileht > 0
    ensures var t := TileRect(n, bigwd, bight, 0, idx);
      var r := TileRect(n, bigwd, bight, b, idx);
      && r.x == t.x + b && r.y == t.y + b
      && r.x + r.width == t.x + t.width - (if t.x + t.width == bigwd then b else 0)
      && r.y + r.height == t.y + t.height - (if t.y + t.height == bight then b else 0)
  {
    LayoutFits(n, bigwd, bight);
    GapsOf(ChooseLayout(n, bigwd, bight), n, bigwd, bight, b, idx);
  }
}
