/** Two-dimensional grids of pixels: bounds, NaN padding, square windows, the
    row-major listing of the cells that satisfy a condition (numpy's argwhere),
    and the fact that drives every fill loop: a grid holding both missing and
    valid cells has a missing cell next to a valid one. */
module Grids {
  import opened Pixels

  type Grid = seq<seq<Cell>>

  /** A boolean grid: true marks a pixel to fill. */
  type Mask = seq<seq<bool>>

  function Width<T>(g: seq<seq<T>>): nat
  {
    if |g| == 0 then 0 else |g[0]|
  }

  /** Every row has the same length. */
  predicate Rect<T>(g: seq<seq<T>>)
  {
    forall y :: 0 <= y < |g| ==> |g[y]| == Width(g)
  }

  predicate SameShape<T, U>(a: seq<seq<T>>, b: seq<seq<U>>)
  {
    |a| == |b| && forall y :: 0 <= y < |a| ==> |a[y]| == |b[y]|
  }

  lemma ShapeRect<T, U>(a: seq<seq<T>>, b: seq<seq<U>>)
    requires Rect(b) && SameShape(a, b)
    ensures Rect(a) && Width(a) == Width(b)
  {
  }

  predicate InBounds<T>(g: seq<seq<T>>, y: int, x: int)
  {
    0 <= y < |g| && 0 <= x < |g[y]|
  }

  /** Two grids of the same shape are equal when they agree cell by cell. */
  lemma SameCells<T>(a: seq<seq<T>>, b: seq<seq<T>>)
    requires SameShape(a, b) && forall y, x :: InBounds(a, y, x) ==> a[y][x] == b[y][x]
    ensures a == b
  {
    forall y | 0 <= y < |a|
      ensures a[y] == b[y]
    {
      assert forall x :: 0 <= x < |a[y]| ==> InBounds(a, y, x);
    }
  }

  /** The cell at (y, x), or the missing sentinel off the grid: the padding
      with NaN that both implementations apply before taking windows. */
  function At(g: Grid, y: int, x: int): (c: Cell)
    ensures !InBounds(g, y, x) ==> c.NaN?
  {
    if InBounds(g, y, x) then g[y][x] else NaN
  }

  predicate HasNaN(g: Grid)
  {
    exists y, x :: 0 <= y < |g| && 0 <= x < |g[y]| && g[y][x].NaN?
  }

  predicate HasValue(g: Grid)
  {
    exists y, x :: 0 <= y < |g| && 0 <= x < |g[y]| && g[y][x].Val?
  }

  /** The grid holds a valid value or nothing to fill: a fill loop can end. */
  predicate Seeded(g: Grid)
  {
    HasValue(g) || !HasNaN(g)
  }

  /** The image with every true cell of the mask set to missing: the package's
      `output[mask] = np.nan` on a copy, and the script's
      `np.where(mask, np.nan, im)`. */
  function Masked(im: Grid, mask: Mask): (r: Grid)
    requires SameShape(mask, im)
    ensures SameShape(r, im) && (Rect(im) ==> Rect(r))
  {
    seq(|im|, y requires 0 <= y < |im| =>
      seq(|im[y]|, x requires 0 <= x < |im[y]| => if mask[y][x] then NaN else im[y][x]))
  }

  /** Every valid value of g lies in [lo, hi]. */
  ghost predicate ValuesWithin(g: Grid, lo: real, hi: real)
  {
    forall y, x :: InBounds(g, y, x) && g[y][x].Val? ==> lo <= g[y][x].v <= hi
  }

  /** The coordinates of the missing cells; its size is the termination
      measure of both fill loops. */
  function NaNSet(g: Grid): set<(int, int)>
  {
    set y, x | 0 <= y < |g| && 0 <= x < |g[y]| && g[y][x].NaN? :: (y, x)
  }

  lemma {:induction false} SubsetNoLarger<T>(a: set<T>, b: set<T>)
    requires a <= b
    ensures |a| <= |b|
  {
    if a != {} {
      var e :| e in a;
      SubsetNoLarger(a - {e}, b - {e});
    }
  }

  /** A grid shrinks its set of missing cells when no valid cell becomes
      missing and some missing cell becomes valid. */
  lemma FewerNaNs(g: Grid, g': Grid, y: int, x: int)
    requires SameShape(g, g')
    requires forall y, x :: InBounds(g, y, x) && g[y][x].Val? ==> g'[y][x].Val?
    requires InBounds(g, y, x) && g[y][x].NaN? && g'[y][x].Val?
    ensures |NaNSet(g')| < |NaNSet(g)|
  {
    var before, after := NaNSet(g), NaNSet(g');
    assert (y, x) in before && (y, x) !in after;
    assert after <= before - {(y, x)};
    SubsetNoLarger(after, before - {(y, x)});
  }

  /** (yy, xx) lies in the (2h+1)-square centred on (y, x). */
  predicate Near(y: int, x: int, yy: int, xx: int, h: int)
  {
    y - h <= yy <= y + h && x - h <= xx <= x + h
  }

  /** (yy, xx) lies in the rows-by-cols block whose top-left cell is (y0, x0). */
  predicate InBlock(y0: int, x0: int, rows: nat, cols: nat, yy: int, xx: int)
  {
    y0 <= yy < y0 + rows && x0 <= xx < x0 + cols
  }

  /** The valid values of row y from column x0 on, n cells, left to right. */
  function RowValues(g: Grid, y: int, x0: int, n: nat): seq<real>
  {
    if n == 0 then []
    else RowValues(g, y, x0, n - 1) + (match At(g, y, x0 + n - 1) case Val(v) => [v] case NaN => [])
  }

  /** The valid values of a rows-by-cols block, in row-major order. */
  function BlockValues(g: Grid, y0: int, x0: int, rows: nat, cols: nat): seq<real>
  {
    if rows == 0 then []
    else BlockValues(g, y0, x0, rows - 1, cols) + RowValues(g, y0 + rows - 1, x0, cols)
  }

  /** The valid values of the (2h+1)-square window centred on (y, x), with the
      grid padded by missing values: `window[~np.isnan(window)]`. */
  function WindowValues(g: Grid, y: int, x: int, h: nat): seq<real>
  {
    BlockValues(g, y - h, x - h, 2 * h + 1, 2 * h + 1)
  }

  /** The valid cells within Chebyshev distance h of (y, x). */
  ghost function WindowCells(g: Grid, y: int, x: int, h: nat): set<(int, int)>
  {
    set yy, xx | y - h <= yy <= y + h && x - h <= xx <= x + h && At(g, yy, xx).Val? :: (yy, xx)
  }

  /** The cells RowValues reads its values from, left to right. */
  function RowCells(g: Grid, y: int, x0: int, n: nat): seq<(int, int)>
  {
    if n == 0 then []
    else RowCells(g, y, x0, n - 1) + (if At(g, y, x0 + n - 1).Val? then [(y, x0 + n - 1)] else [])
  }

  /** The cells BlockValues reads its values from, in row-major order. */
  function BlockCells(g: Grid, y0: int, x0: int, rows: nat, cols: nat): seq<(int, int)>
  {
    if rows == 0 then []
    else BlockCells(g, y0, x0, rows - 1, cols) + RowCells(g, y0 + rows - 1, x0, cols)
  }

  /** A row segment lists exactly its valid cells, left to right. */
  lemma {:induction false} RowCellsOrdered(g: Grid, y: int, x0: int, n: nat)
    ensures forall c :: c in RowCells(g, y, x0, n) <==> c.0 == y && x0 <= c.1 < x0 + n && At(g, c.0, c.1).Val?
    ensures RowMajor(RowCells(g, y, x0, n))
    decreases n
  {
    if n > 0 {
      RowCellsOrdered(g, y, x0, n - 1);
    }
  }

  /** A block lists exactly its valid cells, in row-major order. */
  lemma {:induction false} BlockCellsOrdered(g: Grid, y0: int, x0: int, rows: nat, cols: nat)
    ensures forall c :: c in BlockCells(g, y0, x0, rows, cols) <==>
      y0 <= c.0 < y0 + rows && x0 <= c.1 < x0 + cols && At(g, c.0, c.1).Val?
    ensures RowMajor(BlockCells(g, y0, x0, rows, cols))
    decreases rows
  {
    if rows > 0 {
      var above := BlockCells(g, y0, x0, rows - 1, cols);
      var row := RowCells(g, y0 + rows - 1, x0, cols);
      BlockCellsOrdered(g, y0, x0, rows - 1, cols);
      RowCellsOrdered(g, y0 + rows - 1, x0, cols);
      RowMajorJoin(above, row, y0 + rows - 1);
    }
  }

  /** Cells of rows above row k, then cells of row k, each in row-major
      order, are in row-major order together. */
  lemma RowMajorJoin(a: seq<(int, int)>, b: seq<(int, int)>, k: int)
    requires RowMajor(a) && RowMajor(b)
    requires forall c :: c in a ==> c.0 < k
    requires forall c :: c in b ==> c.0 == k
    ensures RowMajor(a + b)
  {
    var r := a + b;
    forall i, j | 0 <= i < j < |r|
      ensures Before(r[i], r[j])
    {
      if j < |a| {
        assert r[i] == a[i] && r[j] == a[j];
      } else if i >= |a| {
        assert r[i] == b[i - |a|] && r[j] == b[j - |a|];
      } else {
        assert r[i] == a[i] && a[i] in a;
        assert r[j] == b[j - |a|] && b[j - |a|] in b;
      }
    }
  }

  /** A row segment has one value per valid cell. */
  lemma {:induction false} RowLength(g: Grid, y: int, x0: int, n: nat)
    ensures |RowValues(g, y, x0, n)| == |RowCells(g, y, x0, n)|
    decreases n
  {
    if n > 0 {
      RowLength(g, y, x0, n - 1);
    }
  }

  /** A block has one value per valid cell. */
  lemma {:induction false} BlockLength(g: Grid, y0: int, x0: int, rows: nat, cols: nat)
    ensures |BlockValues(g, y0, x0, rows, cols)| == |BlockCells(g, y0, x0, rows, cols)|
    decreases rows
  {
    if rows > 0 {
      BlockLength(g, y0, x0, rows - 1, cols);
      RowLength(g, y0 + rows - 1, x0, cols);
    }
  }

  /** The cells a list holds. */
  function Members(r: seq<(int, int)>): set<(int, int)>
  {
    set c | c in r
  }

  /** A list without repeats has as many members as elements. */
  lemma {:induction false} RowMajorSize(r: seq<(int, int)>)
    requires RowMajor(r)
    ensures |Members(r)| == |r|
  {
    if |r| > 0 {
      var p, last := r[..|r| - 1], r[|r| - 1];
      assert r == p + [last];
      RowMajorSize(p);
      forall i | 0 <= i < |p|
        ensures p[i] != last
      {
        assert Before(r[i], r[|r| - 1]);
      }
      assert Members(r) == Members(p) + {last};
    }
  }

  /** The window lists every valid cell within distance h exactly once, so it
      holds as many values as there are such cells. */
  lemma WindowCount(g: Grid, y: int, x: int, h: nat)
    ensures |WindowValues(g, y, x, h)| == |WindowCells(g, y, x, h)|
  {
    WindowLength(g, y, x, h);
    WindowCellsCount(g, y, x, h);
  }

  /** The window has one value per cell of its list. */
  lemma WindowLength(g: Grid, y: int, x: int, h: nat)
    ensures |WindowValues(g, y, x, h)| == |BlockCells(g, y - h, x - h, 2 * h + 1, 2 * h + 1)|
  {
    BlockLength(g, y - h, x - h, 2 * h + 1, 2 * h + 1);
  }

  /** The window's list holds each valid cell within distance h once. */
  lemma WindowCellsCount(g: Grid, y: int, x: int, h: nat)
    ensures |WindowCells(g, y, x, h)| == |BlockCells(g, y - h, x - h, 2 * h + 1, 2 * h + 1)|
  {
    BlockCellsCount(g, y - h, x - h, 2 * h + 1, 2 * h + 1);
    WindowIsBlock(g, y, x, h);
  }

  /** A block lists each of its valid cells once. */
  lemma BlockCellsCount(g: Grid, y0: int, x0: int, rows: nat, cols: nat)
    ensures |Members(BlockCells(g, y0, x0, rows, cols))| == |BlockCells(g, y0, x0, rows, cols)|
  {
    BlockCellsOrdered(g, y0, x0, rows, cols);
    RowMajorSize(BlockCells(g, y0, x0, rows, cols));
  }

  /** The valid cells within distance h are the members of the window's list. */
  lemma WindowIsBlock(g: Grid, y: int, x: int, h: nat)
    ensures WindowCells(g, y, x, h) == Members(BlockCells(g, y - h, x - h, 2 * h + 1, 2 * h + 1))
  {
    var cells := BlockCells(g, y - h, x - h, 2 * h + 1, 2 * h + 1);
    BlockCellsOrdered(g, y - h, x - h, 2 * h + 1, 2 * h + 1);
    forall c | c in WindowCells(g, y, x, h)
      ensures c in cells
    {
      var yy, xx :| y - h <= yy <= y + h && x - h <= xx <= x + h && At(g, yy, xx).Val? && c == (yy, xx);
    }
  }

  /** The convolution count is the number of valid cells within distance h
      other than the centre, each counted once. */
  lemma NeighbourCountIs(g: Grid, y: int, x: int, h: nat)
    ensures NeighbourCount(g, y, x, h) == |WindowCells(g, y, x, h) - {(y, x)}|
  {
    WindowCount(g, y, x, h);
    if At(g, y, x).Val? {
      assert (y, x) in WindowCells(g, y, x, h);
    } else {
      assert WindowCells(g, y, x, h) - {(y, x)} == WindowCells(g, y, x, h);
    }
  }

  /** Every value of a row segment comes from a valid cell of it. */
  lemma {:induction false} RowToCell(g: Grid, y: int, x0: int, n: nat, v: real) returns (x: int)
    requires v in RowValues(g, y, x0, n)
    ensures x0 <= x < x0 + n && At(g, y, x) == Val(v)
  {
    var before := RowValues(g, y, x0, n - 1);
    var c := At(g, y, x0 + n - 1);
    assert RowValues(g, y, x0, n) == before + (match c case Val(w) => [w] case NaN => []);
    if v in before {
      x := RowToCell(g, y, x0, n - 1, v);
    } else {
      x := x0 + n - 1;
    }
  }

  /** Every valid cell of a row segment contributes its value. */
  lemma {:induction false} CellToRow(g: Grid, y: int, x0: int, n: nat, x: int)
    requires x0 <= x < x0 + n && At(g, y, x).Val?
    ensures At(g, y, x).v in RowValues(g, y, x0, n)
  {
    var v := At(g, y, x).v;
    var before := RowValues(g, y, x0, n - 1);
    var c := At(g, y, x0 + n - 1);
    assert RowValues(g, y, x0, n) == before + (match c case Val(w) => [w] case NaN => []);
    if x < x0 + n - 1 {
      assert v in before by {
        CellToRow(g, y, x0, n - 1, x);
      }
    }
  }

  /** A value of a block lies in its rows above the last one or in the last row. */
  lemma BlockSplit(g: Grid, y0: int, x0: int, r: nat, cols: nat, v: real)
    requires v in BlockValues(g, y0, x0, r + 1, cols)
    ensures v in BlockValues(g, y0, x0, r, cols) || v in RowValues(g, y0 + r, x0, cols)
  {
  }

  /** A value of the rows above the last one, or of the last row, is a value
      of the block. */
  lemma BlockJoin(g: Grid, y0: int, x0: int, r: nat, cols: nat, v: real)
    requires v in BlockValues(g, y0, x0, r, cols) || v in RowValues(g, y0 + r, x0, cols)
    ensures v in BlockValues(g, y0, x0, r + 1, cols)
  {
  }

  /** Every value of a block comes from a valid cell of it. */
  lemma {:induction false} BlockToCell(g: Grid, y0: int, x0: int, rows: nat, cols: nat, v: real)
    returns (yy: int, xx: int)
    requires v in BlockValues(g, y0, x0, rows, cols)
    ensures InBlock(y0, x0, rows, cols, yy, xx) && At(g, yy, xx) == Val(v)
  {
    var r: nat := rows - 1;
    assert BlockValues(g, y0, x0, rows, cols) == BlockValues(g, y0, x0, r + 1, cols);
    BlockSplit(g, y0, x0, r, cols, v);
    if v in BlockValues(g, y0, x0, r, cols) {
      yy, xx := BlockToCell(g, y0, x0, r, cols, v);
    } else {
      assert v in RowValues(g, y0 + r, x0, cols);
      xx := RowToCell(g, y0 + r, x0, cols, v);
      yy := y0 + r;
    }
  }

  /** Every valid cell of a block contributes its value. */
  lemma {:induction false} CellToBlock(g: Grid, y0: int, x0: int, rows: nat, cols: nat, yy: int, xx: int)
    requires InBlock(y0, x0, rows, cols, yy, xx) && At(g, yy, xx).Val?
    ensures At(g, yy, xx).v in BlockValues(g, y0, x0, rows, cols)
  {
    var r: nat := rows - 1;
    var v := At(g, yy, xx).v;
    assert BlockValues(g, y0, x0, rows, cols) == BlockValues(g, y0, x0, r + 1, cols);
    if yy < y0 + r {
      CellToBlock(g, y0, x0, r, cols, yy, xx);
      BlockJoin(g, y0, x0, r, cols, v);
    } else {
      assert yy == y0 + r;
      CellToRow(g, y0 + r, x0, cols, xx);
      BlockJoin(g, y0, x0, r, cols, v);
    }
  }

  /** The window's values are exactly the values of the valid cells within
      Chebyshev distance h of the centre, the centre included. */
  lemma WindowMembers(g: Grid, y: int, x: int, h: nat)
    ensures forall v :: v in WindowValues(g, y, x, h) <==>
      exists yy, xx :: Near(y, x, yy, xx, h) && At(g, yy, xx) == Val(v)
  {
    var y0, x0, n := y - h, x - h, 2 * h + 1;
    var w := WindowValues(g, y, x, h);
    assert w == BlockValues(g, y0, x0, n, n);
    forall v | v in w
      ensures exists yy, xx :: Near(y, x, yy, xx, h) && At(g, yy, xx) == Val(v)
    {
      var yy, xx := BlockToCell(g, y0, x0, n, n, v);
      assert Near(y, x, yy, xx, h) && At(g, yy, xx) == Val(v);
    }
    forall v, yy, xx | Near(y, x, yy, xx, h) && At(g, yy, xx) == Val(v)
      ensures v in w
    {
      assert InBlock(y0, x0, n, n, yy, xx);
      CellToBlock(g, y0, x0, n, n, yy, xx);
    }
  }

  /** A window holds a valid value exactly when some cell within it is valid. */
  lemma WindowNonEmpty(g: Grid, y: int, x: int, h: nat)
    ensures |WindowValues(g, y, x, h)| > 0 <==>
      exists yy, xx :: Near(y, x, yy, xx, h) && At(g, yy, xx).Val?
  {
    WindowMembers(g, y, x, h);
    var w := WindowValues(g, y, x, h);
    if |w| > 0 {
      assert w[0] in w;
      var yy, xx :| Near(y, x, yy, xx, h) && At(g, yy, xx) == Val(w[0]);
      assert At(g, yy, xx).Val?;
    }
  }

  /** A larger window holds a valid value when a smaller one does. */
  lemma WindowWidens(g: Grid, y: int, x: int, h: nat, h': nat)
    requires h <= h' && |WindowValues(g, y, x, h)| > 0
    ensures |WindowValues(g, y, x, h')| > 0
  {
    WindowNonEmpty(g, y, x, h);
    WindowNonEmpty(g, y, x, h');
    var yy, xx :| Near(y, x, yy, xx, h) && At(g, yy, xx).Val?;
    assert Near(y, x, yy, xx, h');
  }

  /** Every value of the window lies between the bounds of the window's valid
      cells. */
  lemma WindowWithin(g: Grid, y: int, x: int, h: nat, lo: real, hi: real)
    requires forall yy, xx :: Near(y, x, yy, xx, h) && At(g, yy, xx).Val? ==> lo <= At(g, yy, xx).v <= hi
    ensures Within(WindowValues(g, y, x, h), lo, hi)
  {
    WindowMembers(g, y, x, h);
    var w := WindowValues(g, y, x, h);
    forall k | 0 <= k < |w|
      ensures lo <= w[k] <= hi
    {
      assert w[k] in w;
    }
  }

  /** The number of valid cells in the window other than the centre: what the
      convolution with an all-ones kernel whose centre is zero computes. It is
      never negative: a valid centre is itself in its window. */
  function NeighbourCount(g: Grid, y: int, x: int, h: nat): (n: int)
    ensures n >= 0
  {
    WindowNonEmpty(g, y, x, h);
    assert Near(y, x, y, x, h);
    |WindowValues(g, y, x, h)| - (if At(g, y, x).Val? then 1 else 0)
  }

  /** A missing cell with at least one valid cell within distance h. */
  predicate IsFrontier(g: Grid, y: int, x: int, h: nat)
    ensures IsFrontier(g, y, x, h) ==> |WindowValues(g, y, x, h)| > 0
  {
    At(g, y, x).NaN? && NeighbourCount(g, y, x, h) > 0
  }

  /** A cell is on the frontier exactly when it is missing and some OTHER cell
      within Chebyshev distance h is valid (off-grid cells count as missing). */
  lemma FrontierIff(g: Grid, y: int, x: int, h: nat)
    ensures IsFrontier(g, y, x, h) <==>
      At(g, y, x).NaN? && exists yy, xx :: Near(y, x, yy, xx, h) && (yy, xx) != (y, x) && At(g, yy, xx).Val?
  {
    WindowNonEmpty(g, y, x, h);
  }

  predicate Before(a: (int, int), b: (int, int))
  {
    a.0 < b.0 || (a.0 == b.0 && a.1 < b.1)
  }

  /** Strictly increasing in row-major order; in particular without repeats. */
  predicate RowMajor(r: seq<(int, int)>)
  {
    forall i, j :: 0 <= i < j < |r| ==> Before(r[i], r[j])
  }

  /** The first cell of a row-major list comes before every other cell of it. */
  lemma RowMajorHead(a: seq<(int, int)>, c: (int, int))
    requires RowMajor(a) && |a| > 0 && c in a && c != a[0]
    ensures Before(a[0], c)
  {
    var i :| 0 <= i < |a| && a[i] == c;
  }

  /** Lists with the same members are both empty or both non-empty. */
  lemma MembersNonEmpty(a: seq<(int, int)>, b: seq<(int, int)>)
    requires forall c :: c in a <==> c in b
    ensures |a| > 0 ==> |b| > 0
  {
    if |a| > 0 {
      assert a[0] in a;
    }
  }

  /** Row-major lists with the same members start with the same cell. */
  lemma RowMajorSameHead(a: seq<(int, int)>, b: seq<(int, int)>)
    requires RowMajor(a) && RowMajor(b) && |a| > 0 && |b| > 0
    requires forall c :: c in a <==> c in b
    ensures a[0] == b[0]
  {
    if a[0] != b[0] {
      RowMajorHead(a, b[0]);
      RowMajorHead(b, a[0]);
    }
  }

  /** A row-major list is determined by its cells: two such lists with the
      same members are equal, element by element. */
  lemma {:induction false} RowMajorUnique(a: seq<(int, int)>, b: seq<(int, int)>)
    requires RowMajor(a) && RowMajor(b)
    requires forall c :: c in a <==> c in b
    ensures a == b
    decreases |a|
  {
    MembersNonEmpty(a, b);
    MembersNonEmpty(b, a);
    if |a| > 0 {
      RowMajorSameHead(a, b);
      var ta, tb := a[1..], b[1..];
      forall c
        ensures c in ta <==> c in tb
      {
        if c in ta {
          RowMajorHead(a, c);
          var i :| 0 <= i < |ta| && ta[i] == c;
          assert Before(a[0], a[i + 1]);
          assert c in b && c != b[0];
        }
        if c in tb {
          var j :| 0 <= j < |tb| && tb[j] == c;
          assert Before(b[0], b[j + 1]);
          assert c in a && c != a[0];
        }
      }
      RowMajorUnique(ta, tb);
      assert a == [a[0]] + ta && b == [b[0]] + tb;
    }
  }

  /** The cells (y, x) with x < n that satisfy p, left to right. */
  function RowWhere(y: int, n: nat, p: (int, int) -> bool): (r: seq<(int, int)>)
    ensures forall c :: c in r <==> c.0 == y && 0 <= c.1 < n && p(c.0, c.1)
    ensures RowMajor(r)
  {
    if n == 0 then []
    else RowWhere(y, n - 1, p) + (if p(y, n - 1) then [(y, n - 1)] else [])
  }

  /** The cells of a rows-by-cols grid that satisfy p, in row-major order, as
      numpy's argwhere and `column_stack(where(...))` list them. */
  function CellsWhere(rows: nat, cols: nat, p: (int, int) -> bool): (r: seq<(int, int)>)
    ensures forall c :: c in r <==> 0 <= c.0 < rows && 0 <= c.1 < cols && p(c.0, c.1)
    ensures RowMajor(r)
  {
    if rows == 0 then []
    else
      var above := CellsWhere(rows - 1, cols, p);
      var row := RowWhere(rows - 1, cols, p);
      assert forall i :: 0 <= i < |above| ==> above[i] in above;
      assert forall j :: 0 <= j < |row| ==> row[j] in row;
      above + row
  }

  /** Extending a prefix of a list of cells by one element adds exactly that
      element: the step of every loop that walks such a list. */
  lemma PrefixGrows(s: seq<(int, int)>, k: int)
    requires 0 <= k < |s|
    ensures forall c :: c in s[..k + 1] <==> c in s[..k] || c == s[k]
  {
    assert s[..k + 1] == s[..k] + [s[k]];
  }

  /** In a sequence of flags that takes both values between i and j, two
      consecutive flags differ somewhere between them. */
  lemma {:induction false} Crossing(s: seq<bool>, i: nat, j: nat) returns (k: nat)
    requires i < j < |s| && s[i] != s[j]
    ensures i <= k < j && s[k] != s[k + 1]
    decreases j - i
  {
    if s[i] != s[i + 1] {
      k := i;
    } else {
      k := Crossing(s, i + 1, j);
    }
  }

  lemma CrossingEither(s: seq<bool>, i: nat, j: nat) returns (k: nat)
    requires i < |s| && j < |s| && s[i] != s[j]
    ensures k + 1 < |s| && s[k] != s[k + 1]
  {
    if i < j {
      k := Crossing(s, i, j);
    } else {
      k := Crossing(s, j, i);
    }
  }

  /** Two horizontally or vertically adjacent cells, one missing and one valid,
      make the missing one a frontier cell at distance 1. */
  lemma AdjacentPair(g: Grid, y: int, x: int, yy: int, xx: int)
    requires InBounds(g, y, x) && InBounds(g, yy, xx)
    requires Near(y, x, yy, xx, 1)
    requires g[y][x].NaN? != g[yy][xx].NaN?
    ensures g[y][x].NaN? ==> IsFrontier(g, y, x, 1)
    ensures g[yy][xx].NaN? ==> IsFrontier(g, yy, xx, 1)
  {
    FrontierIff(g, y, x, 1);
    FrontierIff(g, yy, xx, 1);
    assert Near(yy, xx, y, x, 1);
  }

  /** A row holding a missing and a valid cell has a frontier cell. */
  lemma RowFrontier(g: Grid, y: int, x1: int, x2: int) returns (x: int)
    requires 0 <= y < |g| && 0 <= x1 < |g[y]| && 0 <= x2 < |g[y]|
    requires g[y][x1].NaN? && g[y][x2].Val?
    ensures InBounds(g, y, x) && IsFrontier(g, y, x, 1)
  {
    var row := seq(|g[y]|, c requires 0 <= c < |g[y]| => g[y][c].NaN?);
    var k := CrossingEither(row, x1, x2);
    AdjacentPair(g, y, k, y, k + 1);
    x := if g[y][k].NaN? then k else k + 1;
  }

  /** A column holding a missing and a valid cell has a frontier cell. */
  lemma ColumnFrontier(g: Grid, x: int, y1: int, y2: int) returns (y: int)
    requires Rect(g) && 0 <= y1 < |g| && 0 <= y2 < |g| && 0 <= x < Width(g)
    requires g[y1][x].NaN? && g[y2][x].Val?
    ensures InBounds(g, y, x) && IsFrontier(g, y, x, 1)
  {
    var col := seq(|g|, r requires 0 <= r < |g| => g[r][x].NaN?);
    var k := CrossingEither(col, y1, y2);
    AdjacentPair(g, k, x, k + 1, x);
    y := if g[k][x].NaN? then k else k + 1;
  }

  /** A grid holding a missing cell and a valid cell has a missing cell with a
      valid neighbour. Walk along the row of the missing cell to the column of
      the valid one, then along that column: the flags change somewhere. */
  lemma FrontierCell(g: Grid) returns (y: int, x: int)
    requires Rect(g) && HasNaN(g) && HasValue(g)
    ensures InBounds(g, y, x) && IsFrontier(g, y, x, 1)
  {
    var y1, x1 :| 0 <= y1 < |g| && 0 <= x1 < |g[y1]| && g[y1][x1].NaN?;
    var y2, x2 :| 0 <= y2 < |g| && 0 <= x2 < |g[y2]| && g[y2][x2].Val?;
    assert |g[y1]| == Width(g) == |g[y2]|;
    if g[y1][x2].Val? {
      y := y1;
      x := RowFrontier(g, y1, x1, x2);
    } else {
      x := x2;
      y := ColumnFrontier(g, x2, y1, y2);
    }
  }

  function Max(a: int, b: int): int
  {
    if a < b then b else a
  }

  /** Some valid cell lies within Chebyshev distance d of (y, x). */
  ghost predicate ValidNear(g: Grid, y: int, x: int, d: nat)
  {
    exists yy, xx :: InBounds(g, yy, xx) && g[yy][xx].Val? && Near(y, x, yy, xx, d)
  }

  /** Every cell of the grid lies within Chebyshev distance d of a valid cell. */
  ghost predicate Reach(g: Grid, d: nat)
  {
    forall y, x {:trigger ValidNear(g, y, x, d)} :: InBounds(g, y, x) ==> ValidNear(g, y, x, d)
  }

  /** In a grid with a valid cell every cell is within max(H, W) - 1 of it. */
  lemma ReachAll(g: Grid)
    requires Rect(g) && HasValue(g)
    ensures |g| > 0 && Reach(g, Max(|g|, Width(g)) - 1)
  {
    var vy, vx :| 0 <= vy < |g| && 0 <= vx < |g[vy]| && g[vy][vx].Val?;
    var d: nat := Max(|g|, Width(g)) - 1;
    forall y, x | InBounds(g, y, x)
      ensures ValidNear(g, y, x, d)
    {
      assert InBounds(g, vy, vx) && Near(y, x, vy, vx, d);
    }
  }

  /** Reach 0 means every cell is valid. */
  lemma ReachZero(g: Grid)
    requires Reach(g, 0)
    ensures !HasNaN(g)
  {
    forall y, x | InBounds(g, y, x)
      ensures g[y][x].Val?
    {
      assert ValidNear(g, y, x, 0);
      var yy, xx :| InBounds(g, yy, xx) && g[yy][xx].Val? && Near(y, x, yy, xx, 0);
      assert yy == y && xx == x;
    }
  }

  /** A grid with a missing cell is out of reach 0. */
  lemma ReachPositive(g: Grid, d: nat)
    requires Reach(g, d) && HasNaN(g)
    ensures d >= 1
  {
    var y, x :| 0 <= y < |g| && 0 <= x < |g[y]| && g[y][x].NaN?;
    assert InBounds(g, y, x) && ValidNear(g, y, x, d);
    var yy, xx :| InBounds(g, yy, xx) && g[yy][xx].Val? && Near(y, x, yy, xx, d);
    assert (yy, xx) != (y, x);
  }

  /** One layer of filling brings every cell one step closer to a valid cell:
      if s keeps the valid cells of g valid and fills every missing cell of g
      that has a valid 8-neighbour, reach d in g gives reach d - 1 in s. */
  lemma ReachShrinks(g: Grid, s: Grid, d: nat)
    requires Rect(g) && SameShape(s, g) && d >= 1 && Reach(g, d)
    requires forall y, x :: InBounds(g, y, x) && g[y][x].Val? ==> s[y][x].Val?
    requires forall y, x :: InBounds(g, y, x) && IsFrontier(g, y, x, 1) ==> s[y][x].Val?
    ensures Reach(s, d - 1)
  {
    forall y, x | InBounds(s, y, x)
      ensures ValidNear(s, y, x, d - 1)
    {
      assert InBounds(g, y, x) && ValidNear(g, y, x, d);
      var vy, vx :| InBounds(g, vy, vx) && g[vy][vx].Val? && Near(y, x, vy, vx, d);
      var ny := if vy < y then vy + 1 else if vy > y then vy - 1 else vy;
      var nx := if vx < x then vx + 1 else if vx > x then vx - 1 else vx;
      assert InBounds(g, ny, nx) && Near(y, x, ny, nx, d - 1);
      if g[ny][nx].NaN? {
        FrontierIff(g, ny, nx, 1);
        assert Near(ny, nx, vy, vx, 1) && (vy, vx) != (ny, nx) && At(g, vy, vx).Val?;
      }
      assert InBounds(s, ny, nx) && s[ny][nx].Val?;
    }
  }

  /** The grid an array holds. */
  function Contents(a: array2<Cell>): (g: Grid)
    reads a
    ensures |g| == a.Length0 && Rect(g)
    ensures forall y :: 0 <= y < |g| ==> |g[y]| == a.Length1
    ensures forall y, x :: 0 <= y < a.Length0 && 0 <= x < a.Length1 ==> g[y][x] == a[y, x]
  {
    seq(a.Length0, y requires 0 <= y < a.Length0 reads a =>
      seq(a.Length1, x requires 0 <= x < a.Length1 reads a => a[y, x]))
  }

  /** A fresh array holding a copy of the grid (`np.copy`). */
  method FromGrid(g: Grid) returns (a: array2<Cell>)
    requires Rect(g)
    ensures fresh(a)
    ensures a.Length0 == |g| && a.Length1 == Width(g) && Contents(a) == g
  {
    a := new Cell[|g|, Width(g)]((y, x) requires 0 <= y < |g| && 0 <= x < Width(g) => g[y][x]);
    var c := Contents(a);
    forall y | 0 <= y < |g|
      ensures c[y] == g[y]
    {
    }
  }
}
