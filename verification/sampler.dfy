/**
  Grid sampling of one camera frame (cube.py, detect_colors_in_grid).

  A square region of the HSV frame is split into n by n equal cells of side
  `size / n`. Cells are visited in row-major order; each is sampled on its
  central inset, a quarter of the cell side in from the cell's top-left
  corner and ending three quarters in, along both axes. An empty inset gives
  `None` for its cell; otherwise the inset's averaged colour is classified.
 */
module Sampler {
  import opened Classifier

  function Min(a: int, b: int): int {
    if a <= b then a else b
  }

  /** A half-open interval [lo, hi) of indices along one image axis. */
  datatype Span = Span(lo: int, hi: int) {
    function Len(): nat {
      if lo < hi then hi - lo else 0
    }
  }

  /**
    The indices that a numpy slice `a[lo:hi]` selects on an axis of length
    `len`, for non-negative bounds: both ends are cut back to the axis.
   */
  function Slice(lo: nat, hi: nat, len: nat): (r: Span)
    ensures 0 <= r.lo <= len && r.hi <= len
    ensures r.Len() <= len
    ensures hi <= len ==> r.Len() == if lo < hi then hi - lo else 0
  {
    Span(Min(lo, len), Min(hi, len))
  }

  /** A rectangle of pixels: a span of rows (y) and a span of columns (x). */
  datatype Rect = Rect(rows: Span, cols: Span) {
    /** The number of array elements of the slice, three channels per pixel. */
    function Size(): nat {
      rows.Len() * cols.Len() * 3
    }
  }

  /**
    The HSV image of one camera frame: its height and width, and the
    per-channel average over a rectangle of it, already cast to 8 bits.
   */
  datatype Frame = Frame(height: nat, width: nat, mean: Rect -> Hsv)

  /** The square grid region: its top-left pixel and its side length. */
  datatype Region = Region(startX: nat, startY: nat, size: nat)

  /** The region lies inside the frame. */
  predicate InFrame(g: Region, f: Frame) {
    g.startX + g.size <= f.width && g.startY + g.size <= f.height
  }

  /** Side of one cell (integer division, as `size // n`). */
  function BoxSize(g: Region, n: nat): nat
    requires n > 0
  {
    g.size / n
  }

  /** The first index of cell `k` along one axis, cells being `box` wide from `start`. */
  function CellStart(start: nat, k: nat, box: nat): nat {
    start + k * box
  }

  /** The inset of one cell along one axis, from the cell's first index `origin`. */
  function Inset(origin: nat, box: nat, len: nat): Span {
    Slice(origin + box / 4, origin + 3 * box / 4, len)
  }

  /**
    The central part of cell (row, col), from a quarter to three quarters
    of the cell side along both axes, with no cutting back to the frame.
   */
  function CentralInset(g: Region, n: nat, row: nat, col: nat): Rect
    requires n > 0
  {
    var box := BoxSize(g, n);
    var x := g.startX + col * box;
    var y := g.startY + row * box;
    Rect(Span(y + box / 4, y + 3 * box / 4), Span(x + box / 4, x + 3 * box / 4))
  }

  /** The sampled inset of cell (row, col). */
  function SampleArea(f: Frame, g: Region, n: nat, row: nat, col: nat): Rect
    requires n > 0
  {
    var box := BoxSize(g, n);
    Rect(Inset(CellStart(g.startY, row, box), box, f.height), Inset(CellStart(g.startX, col, box), box, f.width))
  }

  /** The result for cell (row, col): `None` for an empty inset, else its colour. */
  function CellColor(f: Frame, g: Region, n: nat, row: nat, col: nat): Option<string>
    requires n > 0
  {
    var area := SampleArea(f, g, n, row, col);
    if area.Size() == 0 then None else Classify(f.mean(area))
  }

  /** The results of row `row`, left to right. */
  function RowColors(f: Frame, g: Region, n: nat, row: nat): (r: seq<Option<string>>)
    requires n > 0
    ensures |r| == n
  {
    seq(n, col requires 0 <= col < n => CellColor(f, g, n, row, col))
  }

  /** The rows of the grid, top to bottom. */
  function GridRows(f: Frame, g: Region, n: nat): (r: seq<seq<Option<string>>>)
    requires n > 0
    ensures |r| == n
    ensures forall i :: 0 <= i < n ==> |r[i]| == n
  {
    seq(n, row requires 0 <= row < n => RowColors(f, g, n, row))
  }

  /** The rows of a grid laid end to end. */
  function Flatten<T>(rows: seq<seq<T>>): seq<T> {
    if |rows| == 0 then [] else Flatten(rows[..|rows| - 1]) + rows[|rows| - 1]
  }

  lemma MulStep(a: nat, b: nat)
    ensures (a + 1) * b == a * b + b
  {
  }

  lemma MulMono(a: nat, c: nat, b: nat)
    requires a <= c
    ensures a * b <= c * b
  {
  }

  /** `k` rows of width `n` flatten to `k * n` entries. */
  lemma {:induction false} FlattenLength<T>(rows: seq<seq<T>>, n: nat)
    requires forall i :: 0 <= i < |rows| ==> |rows[i]| == n
    ensures |Flatten(rows)| == |rows| * n
  {
    if |rows| > 0 {
      FlattenLength(rows[..|rows| - 1], n);
      MulStep(|rows| - 1, n);
    }
  }

  /** Once flattened, entry `c` of row `r` sits at index `r * n + c`. */
  lemma {:induction false} FlattenAt<T>(rows: seq<seq<T>>, n: nat, r: nat, c: nat)
    requires forall i :: 0 <= i < |rows| ==> |rows[i]| == n
    requires r < |rows| && c < n
    ensures r * n + c < |Flatten(rows)|
    ensures Flatten(rows)[r * n + c] == rows[r][c]
  {
    var k := |rows| - 1;
    var prev := rows[..k];
    FlattenLength(prev, n);
    assert Flatten(rows) == Flatten(prev) + rows[k];
    if r < k {
      FlattenAt(prev, n, r, c);
    } else {
      assert r * n + c == |Flatten(prev)| + c;
    }
  }

  /** Appending a row to the grid appends its entries to the flattened grid. */
  lemma FlattenSnoc<T>(rows: seq<seq<T>>, k: nat)
    requires k < |rows|
    ensures Flatten(rows[..k + 1]) == Flatten(rows[..k]) + rows[k]
  {
    assert rows[..k + 1][..k] == rows[..k];
  }

  /** Every entry of every row occurs in the flattened grid. */
  lemma {:induction false} FlattenHas<T>(rows: seq<seq<T>>, r: nat, c: nat)
    requires r < |rows| && c < |rows[r]|
    ensures rows[r][c] in Flatten(rows)
  {
    var k := |rows| - 1;
    var prev := rows[..k];
    if r < k {
      FlattenHas(prev, r, c);
      assert prev[r] == rows[r];
    }
  }

  /** A prefix one longer is the prefix followed by the next element. */
  lemma PrefixSnoc<T>(s: seq<T>, k: nat)
    requires k < |s|
    ensures s[..k + 1] == s[..k] + [s[k]]
  {
  }

  /** Every entry of a flattened grid is an entry of one of its rows. */
  lemma {:induction false} FlattenEvery<T>(rows: seq<seq<T>>, P: T -> bool)
    requires forall k, j :: 0 <= k < |rows| && 0 <= j < |rows[k]| ==> P(rows[k][j])
    ensures forall i :: 0 <= i < |Flatten(rows)| ==> P(Flatten(rows)[i])
  {
    if |rows| > 0 {
      var k := |rows| - 1;
      FlattenEvery(rows[..k], P);
      assert Flatten(rows) == Flatten(rows[..k]) + rows[k];
    }
  }

  /** The whole grid, row by row, each row left to right. */
  function Grid(f: Frame, g: Region, n: nat): (r: seq<Option<string>>)
    requires n > 0
    ensures |r| == n * n
  {
    FlattenLength(GridRows(f, g, n), n);
    Flatten(GridRows(f, g, n))
  }

  /** Cell (row, col) is entry `row * n + col` of the grid. */
  lemma GridAt(f: Frame, g: Region, n: nat, row: nat, col: nat)
    requires row < n && col < n
    ensures row * n + col < |Grid(f, g, n)|
    ensures Grid(f, g, n)[row * n + col] == CellColor(f, g, n, row, col)
  {
    FlattenAt(GridRows(f, g, n), n, row, col);
  }

  /** Every cell's result occurs in the grid. */
  lemma GridHas(f: Frame, g: Region, n: nat, row: nat, col: nat)
    requires row < n && col < n
    ensures CellColor(f, g, n, row, col) in Grid(f, g, n)
  {
    FlattenHas(GridRows(f, g, n), row, col);
  }

  /** A property every cell's result has is had by every entry of the grid. */
  lemma GridEvery(f: Frame, g: Region, n: nat, P: Option<string> -> bool)
    requires n > 0
    requires forall row: nat, col: nat :: row < n && col < n ==> P(CellColor(f, g, n, row, col))
    ensures forall i :: 0 <= i < |Grid(f, g, n)| ==> P(Grid(f, g, n)[i])
  {
    var rows := GridRows(f, g, n);
    forall k, j | 0 <= k < |rows| && 0 <= j < |rows[k]|
      ensures P(rows[k][j])
    {
      assert rows[k][j] == CellColor(f, g, n, k, j);
    }
    FlattenEvery(rows, P);
  }

  /** The outcome of one detection call: it raises for n == 0 (`size // 0`). */
  datatype Detection = Raised | Detected(colors: seq<Option<string>>)

  /** Detection as a function of frame, region and cube size. */
  function Detect(f: Frame, g: Region, n: nat): (r: Detection)
    ensures r.Raised? <==> n == 0
    ensures r.Detected? ==> |r.colors| == n * n
  {
    if n == 0 then Raised else Detected(Grid(f, g, n))
  }

  /**
    One cell: slice its central inset out of the frame and classify the
    mean. For a cell of an in-frame grid, a cell side below 2 gives `None`,
    and otherwise the colour of the pixels from a quarter to three quarters
    of the cell along both axes.
   */
  method SampleCell(f: Frame, g: Region, n: nat, row: nat, col: nat) returns (cell: Option<string>)
    requires n > 0
    ensures cell == CellColor(f, g, n, row, col)
    ensures InFrame(g, f) && row < n && col < n ==>
      cell == if BoxSize(g, n) < 2 then None else Classify(f.mean(CentralInset(g, n, row, col)))
  {
    if InFrame(g, f) && row < n && col < n {
      CellColorOfInset(f, g, n, row, col);
    }
    var box := g.size / n;
    var x := CellStart(g.startX, col, box);
    var y := CellStart(g.startY, row, box);
    var area := Rect(Inset(y, box, f.height), Inset(x, box, f.width));
    assert area == SampleArea(f, g, n, row, col);
    if area.Size() == 0 {
      cell := None;
    } else {
      cell := Classify(f.mean(area));
    }
  }

  /** The inner loop over the columns of row `row`. */
  method DetectRow(f: Frame, g: Region, n: nat, row: nat) returns (cells: seq<Option<string>>)
    requires n > 0
    ensures cells == RowColors(f, g, n, row)
    ensures |cells| == n
    ensures forall col :: 0 <= col < n ==> cells[col] == CellColor(f, g, n, row, col)
  {
    ghost var expected := RowColors(f, g, n, row);
    cells := [];
    var col := 0;
    while col < n
      invariant 0 <= col <= n
      invariant cells == expected[..col]
    {
      var cell := SampleCell(f, g, n, row, col);
      assert expected[col] == cell;
      PrefixSnoc(expected, col);
      cells := cells + [cell];
      col := col + 1;
    }
    assert cells == expected;
  }

  /**
    The sampling loops: rows outer, columns inner, one entry per cell.
    A zero cube size fails at `size // n`, before any cell is visited.
   */
  method DetectColorsInGrid(f: Frame, g: Region, n: nat) returns (r: Detection)
    ensures r.Raised? <==> n == 0
    ensures r.Detected? ==> |r.colors| == n * n && r.colors == Grid(f, g, n)
  {
    if n == 0 {
      return Raised;
    }
    ghost var rows := GridRows(f, g, n);
    var detected: seq<Option<string>> := [];
    var row := 0;
    while row < n
      invariant 0 <= row <= n
      invariant detected == Flatten(rows[..row])
    {
      var cells := DetectRow(f, g, n, row);
      assert cells == rows[row];
      FlattenSnoc(rows, row);
      detected := detected + cells;
      row := row + 1;
    }
    assert rows[..n] == rows;
    assert detected == Grid(f, g, n);
    r := Detected(detected);
  }

  // ---------------------------------------------------------------------
  // Geometry

  /** Cell `i` of `n` ends no later than the region does. */
  lemma CellWithinRegion(g: Region, n: nat, i: nat)
    requires n > 0 && i < n
    ensures i * BoxSize(g, n) + BoxSize(g, n) <= g.size
  {
    var box := BoxSize(g, n);
    MulStep(i, box);
    MulMono(i + 1, n, box);
    assert n * box <= g.size;
  }

  /**
    Inside the frame, no slice bound is cut back: the inset of cell
    (row, col) runs from a quarter to three quarters of the cell, along
    both axes, and it lies within its cell.
   */
  lemma SampleAreaIsCentralInset(f: Frame, g: Region, n: nat, row: nat, col: nat)
    requires n > 0 && row < n && col < n && InFrame(g, f)
    ensures var box := BoxSize(g, n);
      var x := g.startX + col * box;
      var y := g.startY + row * box;
      SampleArea(f, g, n, row, col) == CentralInset(g, n, row, col)
      && CentralInset(g, n, row, col) == Rect(Span(y + box / 4, y + 3 * box / 4), Span(x + box / 4, x + 3 * box / 4))
      && x <= x + box / 4 && x + 3 * box / 4 <= x + box <= g.startX + g.size
      && y <= y + box / 4 && y + 3 * box / 4 <= y + box <= g.startY + g.size
  {
    CellWithinRegion(g, n, row);
    CellWithinRegion(g, n, col);
  }

  /**
    Along one axis, an inset that is not cut back is half its cell, rounded
    down, except for cells of side 4k + 3, whose inset is one pixel more.
   */
  lemma InsetHalfCell(origin: nat, box: nat, len: nat)
    requires origin + box <= len
    ensures Inset(origin, box, len).Len() == box / 2 + (if box % 4 == 3 then 1 else 0)
  {
    var q, r := box / 4, box % 4;
    var c := if r == 3 then 2 else if r == 2 then 1 else 0;
    DivFour(3 * box, 3 * q + c, 3 * r - 4 * c);
    DivTwo(box, 2 * q + (if r >= 2 then 1 else 0), r % 2);
    assert Inset(origin, box, len) == Span(origin + q, origin + 3 * q + c);
  }

  lemma DivFour(a: nat, q: nat, r: nat)
    requires a == 4 * q + r && r < 4
    ensures a / 4 == q
  {
  }

  lemma DivTwo(a: nat, q: nat, r: nat)
    requires a == 2 * q + r && r < 2
    ensures a / 2 == q
  {
  }

  /**
    The result of a cell of an in-frame grid: `None` when the cell side is
    below 2, otherwise the colour of its central inset.
   */
  lemma CellColorOfInset(f: Frame, g: Region, n: nat, row: nat, col: nat)
    requires n > 0 && row < n && col < n && InFrame(g, f)
    ensures CellColor(f, g, n, row, col) ==
      if BoxSize(g, n) < 2 then None else Classify(f.mean(CentralInset(g, n, row, col)))
  {
    SampleAreaIsCentralInset(f, g, n, row, col);
    EmptyInsetIffSmallBox(f, g, n, row, col);
  }

  /** Inside the frame, an inset is empty exactly when the cell side is below 2. */
  lemma EmptyInsetIffSmallBox(f: Frame, g: Region, n: nat, row: nat, col: nat)
    requires n > 0 && row < n && col < n && InFrame(g, f)
    ensures SampleArea(f, g, n, row, col).Size() == 0 <==> BoxSize(g, n) < 2
  {
    SampleAreaIsCentralInset(f, g, n, row, col);
    var box := BoxSize(g, n);
    var a := SampleArea(f, g, n, row, col);
    if box >= 2 {
      assert a.rows.Len() >= 1 && a.cols.Len() >= 1;
      assert a.rows.Len() * a.cols.Len() >= 1;
    }
  }

  /** The insets of two different cells share no pixel. */
  lemma InsetsDisjoint(f: Frame, g: Region, n: nat, r1: nat, c1: nat, r2: nat, c2: nat)
    requires n > 0 && r1 < n && c1 < n && r2 < n && c2 < n && InFrame(g, f)
    requires (r1, c1) != (r2, c2)
    ensures var a := SampleArea(f, g, n, r1, c1);
      var b := SampleArea(f, g, n, r2, c2);
      a.rows.hi <= b.rows.lo || b.rows.hi <= a.rows.lo || a.cols.hi <= b.cols.lo || b.cols.hi <= a.cols.lo
  {
    var box := BoxSize(g, n);
    SampleAreaIsCentralInset(f, g, n, r1, c1);
    SampleAreaIsCentralInset(f, g, n, r2, c2);
    if r1 < r2 {
      MulStep(r1, box);
      MulMono(r1 + 1, r2, box);
    } else if r2 < r1 {
      MulStep(r2, box);
      MulMono(r2 + 1, r1, box);
    } else if c1 < c2 {
      MulStep(c1, box);
      MulMono(c1 + 1, c2, box);
    } else {
      MulStep(c2, box);
      MulMono(c2 + 1, c1, box);
    }
  }

  /**
    A frame that averages to the same colour `p` everywhere, with cells of
    side at least 2, gives `Classify(p)` for every one of the n * n cells.
   */
  lemma UniformFrame(f: Frame, g: Region, n: nat, p: Hsv)
    requires n > 0 && InFrame(g, f) && BoxSize(g, n) >= 2
    requires forall a: Rect :: f.mean(a) == p
    ensures forall i :: 0 <= i < |Grid(f, g, n)| ==> Grid(f, g, n)[i] == Classify(p)
  {
    forall row: nat, col: nat | row < n && col < n
      ensures CellColor(f, g, n, row, col) == Classify(p)
    {
      EmptyInsetIffSmallBox(f, g, n, row, col);
    }
    GridEvery(f, g, n, c => c == Classify(p));
  }

  /** A region whose cells are thinner than 2 pixels gives `None` for every cell. */
  lemma TinyRegionIsUnknown(f: Frame, g: Region, n: nat)
    requires n > 0 && InFrame(g, f) && BoxSize(g, n) < 2
    ensures forall i :: 0 <= i < |Grid(f, g, n)| ==> Grid(f, g, n)[i] == None
  {
    forall row: nat, col: nat | row < n && col < n
      ensures CellColor(f, g, n, row, col) == None
    {
      EmptyInsetIffSmallBox(f, g, n, row, col);
    }
    GridEvery(f, g, n, c => c == None);
  }

  lemma DivLower(a: nat, n: nat, q: nat)
    requires n > 0 && n * q <= a
    ensures q <= a / n
  {
    if a / n < q {
      MulMono(a / n + 1, q, n);
      MulStep(a / n, n);
    }
  }

  lemma DivUpper(a: nat, n: nat, q: nat)
    requires n > 0 && a < n * q
    ensures a / n < q
  {
    if a / n >= q {
      MulMono(q, a / n, n);
    }
  }

  /**
    Where interior grid line `i` is drawn, measured from the region's
    first pixel along either axis: `size * i / n`, truncated.
   */
  function GridLineOffset(size: nat, n: nat, i: nat): nat
    requires n > 0
  {
    size * i / n
  }

  /** Interior line `i` falls within the first `i` pixels of cell `i`. */
  lemma GridLineInCell(size: nat, n: nat, i: nat)
    requires 0 < i < n
    ensures var box := size / n;
      i * box <= GridLineOffset(size, n, i) < i * box + i
  {
    var box := size / n;
    var rem := size % n;
    assert size == n * box + rem;
    assert size * i == n * (box * i) + rem * i;
    DivLower(size * i, n, box * i);
    assert rem * i < n * i by {
      MulMono(rem + 1, n, i);
      MulStep(rem, i);
    }
    assert size * i < n * (box * i + i);
    DivUpper(size * i, n, box * i + i);
  }

  /**
    The grid lines are drawn on the frame before it is sampled. When a
    cell is at least `4 * (n - 1)` pixels wide, no interior line crosses
    the inset of any cell along that axis.
   */
  lemma GridLineMissesInsets(size: nat, n: nat, i: nat, k: nat)
    requires 0 < i < n && k < n
    requires 4 * (n - 1) <= size / n
    ensures var box := size / n;
      var line := GridLineOffset(size, n, i);
      line < k * box + box / 4 || k * box + 3 * box / 4 <= line
  {
    var box := size / n;
    var line := GridLineOffset(size, n, i);
    GridLineInCell(size, n, i);
    if k < i {
      MulStep(k, box);
      MulMono(k + 1, i, box);
    } else if k > i {
      MulStep(i, box);
      MulMono(i + 1, k, box);
    }
  }
}
