/** The package implementation of maskfill (maskfill/maskfill.py): a boundary
    finder, a windowed reducer that writes into the caller's buffer while
    reading from a snapshot, and the driver that fills layer by layer until no
    missing pixel is left and then optionally smooths the filled pixels. */
module MaskFill {
  import opened Pixels
  import opened Grids

  datatype Option<T> = None | Some(value: T)

  datatype Result<T> = Success(value: T) | Failure(error: string)

  /** The operator names the driver accepts; anything else is a ValueError. */
  function ParseOperator(operator: string): (r: Result<Op>)
    ensures r == Success(Median) <==> operator == "median"
    ensures r == Success(Mean) <==> operator == "mean"
    ensures r.Failure? <==> operator != "median" && operator != "mean"
  {
    if operator == "median" then Success(Median)
    else if operator == "mean" then Success(Mean)
    else Failure("Operator must be mean or median.")
  }

  /** The coordinates of the true cells, in row-major order
      (`np.column_stack(np.where(mask))`). */
  function MaskIndices(mask: Mask): (r: seq<(int, int)>)
    requires Rect(mask)
    ensures forall c :: c in r <==> InBounds(mask, c.0, c.1) && mask[c.0][c.1]
    ensures RowMajor(r)
  {
    CellsWhere(|mask|, Width(mask), (y, x) => InBounds(mask, y, x) && mask[y][x])
  }

  lemma MaskAt(mask: Mask, y: int, x: int)
    requires Rect(mask) && InBounds(mask, y, x)
    ensures (y, x) in MaskIndices(mask) <==> mask[y][x]
  {
    var c := (y, x);
    assert c in MaskIndices(mask) <==> InBounds(mask, c.0, c.1) && mask[c.0][c.1];
  }

  /** The missing cells with at least one valid cell within distance
      windowSize / 2 other than themselves (see FrontierIff), in row-major
      order. */
  function FindNanIndices(g: Grid, windowSize: int): (r: seq<(int, int)>)
    requires Rect(g) && windowSize >= 1 && windowSize % 2 == 1
    ensures forall c :: c in r <==> InBounds(g, c.0, c.1) && IsFrontier(g, c.0, c.1, windowSize / 2)
    ensures RowMajor(r)
  {
    CellsWhere(|g|, Width(g), (y, x) => IsFrontier(g, y, x, windowSize / 2))
  }

  lemma FoundAt(g: Grid, windowSize: int, y: int, x: int)
    requires Rect(g) && windowSize >= 1 && windowSize % 2 == 1
    requires InBounds(g, y, x) && IsFrontier(g, y, x, windowSize / 2)
    ensures (y, x) in FindNanIndices(g, windowSize)
  {
    var c := (y, x);
    assert InBounds(g, c.0, c.1) && IsFrontier(g, c.0, c.1, windowSize / 2);
  }

  lemma NotFoundAt(g: Grid, windowSize: int, y: int, x: int)
    requires Rect(g) && windowSize >= 1 && windowSize % 2 == 1
    requires !IsFrontier(g, y, x, windowSize / 2)
    ensures (y, x) !in FindNanIndices(g, windowSize)
  {
    var c := (y, x);
    assert !IsFrontier(g, c.0, c.1, windowSize / 2);
  }

  /** A 3 by 3 grid whose only valid pixel, of any value v, is its top-left
      corner. */
  function CornerGrid(v: real): (g: Grid)
    ensures Rect(g) && |g| == 3 && Width(g) == 3
  {
    [[Val(v), NaN, NaN], [NaN, NaN, NaN], [NaN, NaN, NaN]]
  }

  lemma CornerOnlyValid(v: real, yy: int, xx: int)
    ensures At(CornerGrid(v), yy, xx).Val? <==> yy == 0 && xx == 0
  {
    var g := CornerGrid(v);
    if InBounds(g, yy, xx) {
      assert yy == 0 || yy == 1 || yy == 2;
    }
  }

  /** With the default window exactly the three missing neighbours of the
      valid corner are found, in row-major order. */
  lemma CornerExample(v: real)
    ensures FindNanIndices(CornerGrid(v), 3) == [(0, 1), (1, 0), (1, 1)]
  {
    CornerNarrowMembers(v);
    RowMajorUnique(FindNanIndices(CornerGrid(v), 3), [(0, 1), (1, 0), (1, 1)]);
  }

  lemma CornerNarrowMembers(v: real)
    ensures RowMajor([(0, 1), (1, 0), (1, 1)])
    ensures forall c :: c in FindNanIndices(CornerGrid(v), 3) <==> c in [(0, 1), (1, 0), (1, 1)]
  {
    forall c
      ensures c in FindNanIndices(CornerGrid(v), 3) <==> c in [(0, 1), (1, 0), (1, 1)]
    {
      CornerNarrowAt(v, c.0, c.1);
    }
  }

  /** A cell is found with the default window exactly when it is one of the
      three missing neighbours of the corner. */
  lemma CornerNarrowAt(v: real, y: int, x: int)
    ensures (y, x) in FindNanIndices(CornerGrid(v), 3) <==> (y, x) in [(0, 1), (1, 0), (1, 1)]
  {
    CornerNarrowList(y, x);
    if y == 2 || x == 2 {
      CornerFar(v, y, x);
    } else if 0 <= y < 2 && 0 <= x < 2 && (y, x) != (0, 0) {
      CornerNear(v, y, x);
    } else {
      CornerNotFound(v, y, x, 3);
    }
  }

  lemma CornerNarrowList(y: int, x: int)
    ensures (y, x) in [(0, 1), (1, 0), (1, 1)] <==> 0 <= y < 2 && 0 <= x < 2 && (y, x) != (0, 0)
  {
    var cells := [(0, 1), (1, 0), (1, 1)];
    if (y, x) in cells {
      var i :| 0 <= i < 3 && cells[i] == (y, x);
    }
    if 0 <= y < 2 && 0 <= x < 2 && (y, x) != (0, 0) {
      var i := 2 * y + x - 1;
      assert cells[i] == (y, x);
    }
  }

  /** The valid corner, and every cell off the grid, is never found. */
  lemma CornerNotFound(v: real, y: int, x: int, windowSize: int)
    requires windowSize >= 1 && windowSize % 2 == 1
    requires !(0 <= y < 3 && 0 <= x < 3) || (y, x) == (0, 0)
    ensures (y, x) !in FindNanIndices(CornerGrid(v), windowSize)
  {
    var g := CornerGrid(v);
    if (y, x) == (0, 0) {
      CornerOnlyValid(v, 0, 0);
      NotFoundAt(g, windowSize, 0, 0);
    } else {
      var c := (y, x);
      assert !InBounds(g, c.0, c.1);
    }
  }

  /** A missing neighbour of the corner is found with the default window. */
  lemma CornerNear(v: real, y: int, x: int)
    requires 0 <= y < 2 && 0 <= x < 2 && (y, x) != (0, 0)
    ensures (y, x) in FindNanIndices(CornerGrid(v), 3)
  {
    var g := CornerGrid(v);
    CornerOnlyValid(v, 0, 0);
    CornerOnlyValid(v, y, x);
    assert Near(y, x, 0, 0, 1);
    FrontierIff(g, y, x, 1);
    CornerBounds(v, y, x);
    FoundAt(g, 3, y, x);
  }

  /** A pixel in the last row or column has no valid pixel within distance 1,
      so the default window does not find it. */
  lemma CornerFar(v: real, y: int, x: int)
    requires y == 2 || x == 2
    ensures (y, x) !in FindNanIndices(CornerGrid(v), 3)
  {
    var g := CornerGrid(v);
    FrontierIff(g, y, x, 1);
    forall yy, xx | Near(y, x, yy, xx, 1)
      ensures At(g, yy, xx).NaN?
    {
      CornerOnlyValid(v, yy, xx);
    }
    NotFoundAt(g, 3, y, x);
  }

  /** Every missing pixel of the corner grid lies within distance 2 of the
      valid corner. */
  lemma CornerFrontier(v: real, y: int, x: int, h: nat)
    requires 0 <= y < 3 && 0 <= x < 3 && (y, x) != (0, 0) && h >= 2
    ensures IsFrontier(CornerGrid(v), y, x, h)
  {
    CornerOnlyValid(v, 0, 0);
    CornerOnlyValid(v, y, x);
    assert Near(y, x, 0, 0, h);
    FrontierIff(CornerGrid(v), y, x, h);
  }

  lemma CornerBounds(v: real, y: int, x: int)
    requires 0 <= y < 3 && 0 <= x < 3
    ensures InBounds(CornerGrid(v), y, x)
  {
  }

  /** With window 5, or any larger odd window, every missing pixel of the same
      grid is found, in row-major order. */
  lemma CornerWideExample(v: real, windowSize: int)
    requires windowSize >= 5 && windowSize % 2 == 1
    ensures FindNanIndices(CornerGrid(v), windowSize) ==
      [(0, 1), (0, 2), (1, 0), (1, 1), (1, 2), (2, 0), (2, 1), (2, 2)]
  {
    CornerWideMembers(v, windowSize);
    RowMajorUnique(FindNanIndices(CornerGrid(v), windowSize),
      [(0, 1), (0, 2), (1, 0), (1, 1), (1, 2), (2, 0), (2, 1), (2, 2)]);
  }

  lemma CornerWideMembers(v: real, windowSize: int)
    requires windowSize >= 5 && windowSize % 2 == 1
    ensures RowMajor([(0, 1), (0, 2), (1, 0), (1, 1), (1, 2), (2, 0), (2, 1), (2, 2)])
    ensures forall c :: c in FindNanIndices(CornerGrid(v), windowSize) <==>
      c in [(0, 1), (0, 2), (1, 0), (1, 1), (1, 2), (2, 0), (2, 1), (2, 2)]
  {
    forall c
      ensures c in FindNanIndices(CornerGrid(v), windowSize) <==>
        c in [(0, 1), (0, 2), (1, 0), (1, 1), (1, 2), (2, 0), (2, 1), (2, 2)]
    {
      CornerWideAt(v, c.0, c.1, windowSize);
    }
  }

  /** With a window of 5 or more a cell is found exactly when it is a missing
      pixel of the grid. */
  lemma CornerWideAt(v: real, y: int, x: int, windowSize: int)
    requires windowSize >= 5 && windowSize % 2 == 1
    ensures (y, x) in FindNanIndices(CornerGrid(v), windowSize) <==>
      (y, x) in [(0, 1), (0, 2), (1, 0), (1, 1), (1, 2), (2, 0), (2, 1), (2, 2)]
  {
    CornerWideList(y, x);
    if 0 <= y < 3 && 0 <= x < 3 && (y, x) != (0, 0) {
      CornerBounds(v, y, x);
      CornerFrontier(v, y, x, windowSize / 2);
      FoundAt(CornerGrid(v), windowSize, y, x);
    } else {
      CornerNotFound(v, y, x, windowSize);
    }
  }

  /** The eight-cell list holds exactly the missing pixels of the corner grid. */
  lemma CornerWideList(y: int, x: int)
    ensures (y, x) in [(0, 1), (0, 2), (1, 0), (1, 1), (1, 2), (2, 0), (2, 1), (2, 2)] <==>
      0 <= y < 3 && 0 <= x < 3 && (y, x) != (0, 0)
  {
    var cells := [(0, 1), (0, 2), (1, 0), (1, 1), (1, 2), (2, 0), (2, 1), (2, 2)];
    if (y, x) in cells {
      var i :| 0 <= i < 8 && cells[i] == (y, x);
    }
    if 0 <= y < 3 && 0 <= x < 3 && (y, x) != (0, 0) {
      var i := 3 * y + x - 1;
      assert cells[i] == (y, x);
    }
  }

  /** The cells process_masked_pixels visits: the true cells of the mask when
      one is given, otherwise the boundary cells at window 3, whatever the
      padding width. */
  function Targets(g: Grid, mask: Option<Mask>): (r: seq<(int, int)>)
    requires Rect(g)
    requires mask.Some? ==> SameShape(mask.value, g)
    ensures forall c :: c in r ==> InBounds(g, c.0, c.1)
  {
    match mask
    case Some(m) => ShapeRect(m, g); MaskIndices(m)
    case None => FindNanIndices(g, 3)
  }

  /** The grid after every target has been replaced by the operator over the
      valid values of its window in g: every window is read from g itself, so
      no target sees another target's new value. */
  function Processed(g: Grid, h: nat, ts: seq<(int, int)>, op: Op): (r: Grid)
    ensures SameShape(r, g) && (Rect(g) ==> Rect(r))
  {
    seq(|g|, y requires 0 <= y < |g| =>
      seq(|g[y]|, x requires 0 <= x < |g[y]| =>
        if (y, x) in ts then Reduce(op, WindowValues(g, y, x, h)) else g[y][x]))
  }

  lemma ProcessedAt(g: Grid, h: nat, ts: seq<(int, int)>, op: Op, y: int, x: int)
    requires InBounds(g, y, x)
    ensures Processed(g, h, ts, op)[y][x] == if (y, x) in ts then Reduce(op, WindowValues(g, y, x, h)) else g[y][x]
  {
  }

  /** The loop of process_masked_pixels: each target of the buffer receives
      the operator over its window in the snapshot. */
  method WriteTargets(img: array2<Cell>, padded: Grid, targets: seq<(int, int)>, padWidth: nat, op: Op)
    requires forall c :: c in targets ==> 0 <= c.0 < img.Length0 && 0 <= c.1 < img.Length1
    modifies img
    ensures forall y, x :: 0 <= y < img.Length0 && 0 <= x < img.Length1 ==>
      img[y, x] == if (y, x) in targets then Reduce(op, WindowValues(padded, y, x, padWidth)) else old(img[y, x])
  {
    for k := 0 to |targets|
      invariant forall y, x :: 0 <= y < img.Length0 && 0 <= x < img.Length1 ==>
        img[y, x] == if (y, x) in targets[..k] then Reduce(op, WindowValues(padded, y, x, padWidth)) else old(img[y, x])
    {
      var (y, x) := targets[k];
      assert targets[k] in targets;
      label prev:
      img[y, x] := Reduce(op, WindowValues(padded, y, x, padWidth));
      forall yy, xx | 0 <= yy < img.Length0 && 0 <= xx < img.Length1
        ensures img[yy, xx] ==
          if (yy, xx) in targets[..k + 1] then Reduce(op, WindowValues(padded, yy, xx, padWidth)) else old(img[yy, xx])
      {
        PrefixGrows(targets, k);
        if (yy, xx) != (y, x) {
          assert img[yy, xx] == old@prev(img[yy, xx]);
        }
      }
    }
    assert targets[..|targets|] == targets;
  }

  /** process_masked_pixels: takes a NaN-padded snapshot of the buffer, then
      writes the operator's value at each target in the buffer itself. */
  method ProcessMaskedPixels(img: array2<Cell>, padWidth: nat, mask: Option<Mask>, op: Op)
    requires mask.Some? ==> SameShape(mask.value, Contents(img))
    modifies img
    ensures Contents(img) == Processed(old(Contents(img)), padWidth, Targets(old(Contents(img)), mask), op)
  {
    var padded := Contents(img);
    var targets := Targets(padded, mask);
    WriteTargets(img, padded, targets, padWidth, op);
    var after, spec := Contents(img), Processed(padded, padWidth, targets, op);
    forall y, x | InBounds(after, y, x)
      ensures after[y][x] == spec[y][x]
    {
      ProcessedAt(padded, padWidth, targets, op, y, x);
    }
    SameCells(after, spec);
  }

  /** One pass of the fill loop: process_masked_pixels without a mask. */
  function Step(g: Grid, h: nat, op: Op): (r: Grid)
    requires Rect(g)
    ensures SameShape(r, g) && Rect(r)
  {
    Processed(g, h, FindNanIndices(g, 3), op)
  }

  /** One pass keeps every valid cell, fills every missing cell that has a
      valid 8-neighbour, and leaves every other missing cell missing: the fill
      advances by exactly one layer. */
  lemma StepEffect(g: Grid, h: nat, op: Op)
    requires Rect(g) && h >= 1
    ensures SameShape(Step(g, h, op), g) && Rect(Step(g, h, op))
    ensures forall y, x :: InBounds(g, y, x) && g[y][x].Val? ==> Step(g, h, op)[y][x] == g[y][x]
    ensures forall y, x :: InBounds(g, y, x) && IsFrontier(g, y, x, 1) ==> Step(g, h, op)[y][x].Val?
    ensures forall y, x :: InBounds(g, y, x) && g[y][x].NaN? && !IsFrontier(g, y, x, 1) ==> Step(g, h, op)[y][x].NaN?
  {
    var ts := FindNanIndices(g, 3);
    var s: Grid := Processed(g, h, ts, op);
    forall y, x | InBounds(g, y, x)
      ensures g[y][x].Val? ==> s[y][x] == g[y][x]
      ensures IsFrontier(g, y, x, 1) ==> s[y][x].Val?
      ensures g[y][x].NaN? && !IsFrontier(g, y, x, 1) ==> s[y][x].NaN?
    {
      ProcessedAt(g, h, ts, op, y, x);
      if IsFrontier(g, y, x, 1) {
        WindowWidens(g, y, x, 1, h);
      }
    }
  }

  /** While a missing cell and a valid cell both exist, a pass strictly
      reduces the number of missing cells and keeps a valid cell. */
  lemma StepProgress(g: Grid, h: nat, op: Op)
    requires Rect(g) && h >= 1 && HasNaN(g) && HasValue(g)
    ensures Rect(Step(g, h, op)) && HasValue(Step(g, h, op))
    ensures |NaNSet(Step(g, h, op))| < |NaNSet(g)|
  {
    StepEffect(g, h, op);
    var y, x := FrontierCell(g);
    FewerNaNs(g, Step(g, h, op), y, x);
  }

  /** The fill loop: passes until no missing cell is left. */
  function Fill(g: Grid, h: nat, op: Op): (r: Grid)
    requires Rect(g) && h >= 1 && Seeded(g)
    ensures !HasNaN(r)
    decreases |NaNSet(g)|
  {
    if !HasNaN(g) then g
    else
      StepProgress(g, h, op);
      Fill(Step(g, h, op), h, op)
  }

  /** The filled grid has the input's shape, no missing cell, and the input's
      value in every cell that was valid. */
  lemma {:induction false} FillComplete(g: Grid, h: nat, op: Op)
    requires Rect(g) && h >= 1 && Seeded(g)
    ensures SameShape(Fill(g, h, op), g) && Rect(Fill(g, h, op))
    ensures !HasNaN(Fill(g, h, op))
    ensures forall y, x :: InBounds(g, y, x) && g[y][x].Val? ==> Fill(g, h, op)[y][x] == g[y][x]
    decreases |NaNSet(g)|
  {
    if HasNaN(g) {
      var s := Step(g, h, op);
      StepProgress(g, h, op);
      StepEffect(g, h, op);
      FillComplete(s, h, op);
      var r := Fill(g, h, op);
      assert r == Fill(s, h, op);
      forall y, x | InBounds(g, y, x) && g[y][x].Val?
        ensures r[y][x] == g[y][x]
      {
        assert InBounds(s, y, x) && s[y][x] == g[y][x];
      }
    }
  }

  /** The number of passes the fill loop makes: none exactly when nothing is
      missing. */
  function Passes(g: Grid, h: nat, op: Op): (n: nat)
    requires Rect(g) && h >= 1 && Seeded(g)
    ensures n == 0 <==> !HasNaN(g)
    decreases |NaNSet(g)|
  {
    if !HasNaN(g) then 0
    else
      StepProgress(g, h, op);
      1 + Passes(Step(g, h, op), h, op)
  }

  /** t lists grids that follow one another by one pass each. */
  ghost predicate Passed(t: seq<Grid>, h: nat, op: Op)
  {
    && (forall i :: 0 <= i < |t| ==> Rect(t[i]))
    && (forall i :: 0 <= i < |t| - 1 ==> t[i + 1] == Step(t[i], h, op))
  }

  /** When every cell is within distance d of a valid cell, the passes from g
      reach a grid without NaN within d passes: each pass fills one more layer
      around the valid cells. */
  lemma {:induction false} PassesClear(g: Grid, h: nat, op: Op, d: nat) returns (t: seq<Grid>)
    requires Rect(g) && h >= 1 && Reach(g, d)
    ensures 1 <= |t| <= d + 1 && t[0] == g && Passed(t, h, op) && !HasNaN(t[|t| - 1])
    decreases d
  {
    if HasNaN(g) {
      var s := PassCloser(g, h, op, d);
      var rest := PassesClear(s, h, op, d - 1);
      PassedCons(g, s, rest, h, op);
      t := [g] + rest;
    } else {
      t := [g];
    }
  }

  /** The pass after a grid that still has a NaN brings every cell one step
      closer to a valid cell. */
  lemma PassCloser(g: Grid, h: nat, op: Op, d: nat) returns (s: Grid)
    requires Rect(g) && h >= 1 && Reach(g, d) && HasNaN(g)
    ensures d >= 1 && Rect(s) && Reach(s, d - 1) && Passed([g, s], h, op)
  {
    ReachPositive(g, d);
    StepReach(g, h, op, d);
    s := Step(g, h, op);
    PassedPair(g, h, op);
  }

  lemma PassedPair(g: Grid, h: nat, op: Op)
    requires Rect(g)
    ensures Passed([g, Step(g, h, op)], h, op)
  {
    var t := [g, Step(g, h, op)];
    assert t[0] == g && t[1] == Step(g, h, op);
  }

  lemma PassedCons(g: Grid, s: Grid, rest: seq<Grid>, h: nat, op: Op)
    requires Passed([g, s], h, op) && |rest| >= 1 && Passed(rest, h, op) && rest[0] == s
    ensures Passed([g] + rest, h, op)
  {
    var t := [g] + rest;
    assert [g, s][0] == g && [g, s][1] == s;
    forall i | 0 <= i < |t| - 1
      ensures t[i + 1] == Step(t[i], h, op)
    {
      if i > 0 {
        assert t[i] == rest[i - 1];
      }
    }
  }

  /** Along passes that end without NaN, the loop started at the i-th grid
      stops by the last one. */
  lemma {:induction false} PassesAlong(t: seq<Grid>, h: nat, op: Op, i: nat)
    requires h >= 1 && Passed(t, h, op) && i < |t| && Seeded(t[i]) && !HasNaN(t[|t| - 1])
    ensures Passes(t[i], h, op) <= |t| - 1 - i
    decreases |t| - i
  {
    if HasNaN(t[i]) {
      StepProgress(t[i], h, op);
      PassesAlong(t, h, op, i + 1);
    }
  }

  /** A pass brings every cell one step closer to a valid cell. */
  lemma StepReach(g: Grid, h: nat, op: Op, d: nat)
    requires Rect(g) && h >= 1 && d >= 1 && Reach(g, d)
    ensures Reach(Step(g, h, op), d - 1)
  {
    StepEffect(g, h, op);
    ReachShrinks(g, Step(g, h, op), d);
  }

  /** The fill loop ends within max(W, H) passes, and within max(W, H) - 1
      when there is anything to fill (a single valid pixel at one end of a
      line needs that many). */
  lemma PassesBound(g: Grid, h: nat, op: Op)
    requires Rect(g) && h >= 1 && Seeded(g)
    ensures Passes(g, h, op) <= Max(|g|, Width(g))
    ensures HasNaN(g) ==> Passes(g, h, op) < Max(|g|, Width(g))
  {
    if HasNaN(g) {
      ReachAll(g);
      var t := PassesClear(g, h, op, Max(|g|, Width(g)) - 1);
      PassesAlong(t, h, op, 0);
    }
  }

  /** A pass only writes values between the bounds of the values present. */
  lemma StepWithin(g: Grid, h: nat, op: Op, lo: real, hi: real)
    requires Rect(g) && ValuesWithin(g, lo, hi)
    ensures ValuesWithin(Step(g, h, op), lo, hi)
  {
    var ts := FindNanIndices(g, 3);
    var s: Grid := Processed(g, h, ts, op);
    assert s == Step(g, h, op);
    forall y, x | InBounds(s, y, x) && s[y][x].Val?
      ensures lo <= s[y][x].v <= hi
    {
      ProcessedAt(g, h, ts, op, y, x);
      if (y, x) in ts {
        var w := WindowValues(g, y, x, h);
        assert |w| > 0 by {
          assert Reduce(op, w).Val?;
        }
        WindowWithin(g, y, x, h, lo, hi);
        ReduceWithin(op, w, lo, hi);
      }
    }
  }

  /** Neither operator can leave the range of the seed pixels: every filled
      value lies between the smallest and the largest valid input value. */
  lemma {:induction false} FillWithin(g: Grid, h: nat, op: Op, lo: real, hi: real)
    requires Rect(g) && h >= 1 && Seeded(g) && ValuesWithin(g, lo, hi)
    ensures ValuesWithin(Fill(g, h, op), lo, hi)
    decreases |NaNSet(g)|
  {
    if HasNaN(g) {
      StepProgress(g, h, op);
      StepWithin(g, h, op, lo, hi);
      FillWithin(Step(g, h, op), h, op, lo, hi);
    }
  }

  /** The smoothing pass over a fully filled grid: every true cell of the mask
      becomes the mean of its window, every other cell keeps its value, and no
      missing cell appears. */
  lemma SmoothEffect(g: Grid, mask: Mask, h: nat)
    requires Rect(g) && SameShape(mask, g) && !HasNaN(g)
    ensures !HasNaN(Processed(g, h, Targets(g, Some(mask)), Mean))
    ensures forall y, x :: InBounds(g, y, x) && !mask[y][x] ==>
      Processed(g, h, Targets(g, Some(mask)), Mean)[y][x] == g[y][x]
    ensures forall y, x :: InBounds(g, y, x) && mask[y][x] ==>
      |WindowValues(g, y, x, h)| > 0 &&
      Processed(g, h, Targets(g, Some(mask)), Mean)[y][x] == Val(MeanOf(WindowValues(g, y, x, h)))
  {
    ShapeRect(mask, g);
    var ts := Targets(g, Some(mask));
    assert ts == MaskIndices(mask);
    var s := Processed(g, h, ts, Mean);
    forall y, x | InBounds(g, y, x)
      ensures |WindowValues(g, y, x, h)| > 0
      ensures s[y][x] == if mask[y][x] then Val(MeanOf(WindowValues(g, y, x, h))) else g[y][x]
    {
      WindowNonEmpty(g, y, x, h);
      assert Near(y, x, y, x, h) && At(g, y, x).Val?;
      ProcessedAt(g, h, ts, Mean, y, x);
      MaskAt(mask, y, x);
    }
  }

  /** `output[mask] = np.nan`, in place. */
  method BlankMasked(output: array2<Cell>, mask: Mask)
    requires SameShape(mask, Contents(output))
    modifies output
    ensures Contents(output) == Masked(old(Contents(output)), mask)
  {
    ghost var before := Contents(output);
    ShapeRect(mask, before);
    var masked := MaskIndices(mask);
    for k := 0 to |masked|
      invariant forall y, x :: 0 <= y < output.Length0 && 0 <= x < output.Length1 ==>
        output[y, x] == if (y, x) in masked[..k] then NaN else before[y][x]
    {
      var (y, x) := masked[k];
      assert masked[k] in masked;
      label prev:
      output[y, x] := NaN;
      forall yy, xx | 0 <= yy < output.Length0 && 0 <= xx < output.Length1
        ensures output[yy, xx] == if (yy, xx) in masked[..k + 1] then NaN else before[yy][xx]
      {
        PrefixGrows(masked, k);
        if (yy, xx) != (y, x) {
          assert output[yy, xx] == old@prev(output[yy, xx]);
        }
      }
    }
    assert masked[..|masked|] == masked;
    var after, spec := Contents(output), Masked(before, mask);
    forall y, x | InBounds(after, y, x)
      ensures after[y][x] == spec[y][x]
    {
      MaskAt(mask, y, x);
    }
    SameCells(after, spec);
  }

  /** The filled image has no missing pixel and keeps every valid unmasked
      pixel of the input. */
  lemma FilledOutcome(im: Grid, mask: Mask, h: nat, op: Op)
    requires Rect(im) && SameShape(mask, im) && h >= 1 && Seeded(Masked(im, mask))
    ensures SameShape(Fill(Masked(im, mask), h, op), im) && !HasNaN(Fill(Masked(im, mask), h, op))
    ensures forall y, x :: InBounds(im, y, x) && !mask[y][x] && im[y][x].Val? ==>
      Fill(Masked(im, mask), h, op)[y][x] == im[y][x]
  {
    var start := Masked(im, mask);
    FillComplete(start, h, op);
    forall y, x | InBounds(im, y, x) && !mask[y][x] && im[y][x].Val?
      ensures Fill(start, h, op)[y][x] == im[y][x]
    {
      assert start[y][x] == im[y][x];
    }
  }

  /** Smoothing a filled image changes masked pixels only and leaves no
      missing pixel. */
  lemma SmoothedOutcome(filled: Grid, mask: Mask, h: nat)
    requires Rect(filled) && SameShape(mask, filled) && !HasNaN(filled)
    ensures Rect(mask)
    ensures SameShape(Processed(filled, h, MaskIndices(mask), Mean), filled)
    ensures !HasNaN(Processed(filled, h, MaskIndices(mask), Mean))
    ensures forall y, x :: InBounds(filled, y, x) && !mask[y][x] ==>
      Processed(filled, h, MaskIndices(mask), Mean)[y][x] == filled[y][x]
  {
    ShapeRect(mask, filled);
    SmoothEffect(filled, mask, h);
  }

  /** The while loop of maskfill: passes of process_masked_pixels without a
      mask until the buffer holds no missing pixel. */
  method FillLoop(output: array2<Cell>, padWidth: nat, op: Op)
    requires padWidth >= 1 && Seeded(Contents(output))
    modifies output
    ensures Contents(output) == Fill(old(Contents(output)), padWidth, op)
  {
    ghost var start := Contents(output);
    while HasNaN(Contents(output))
      invariant Seeded(Contents(output))
      invariant Fill(Contents(output), padWidth, op) == Fill(start, padWidth, op)
      decreases |NaNSet(Contents(output))|
    {
      ghost var before := Contents(output);
      StepProgress(before, padWidth, op);
      ProcessMaskedPixels(output, padWidth, None, op);
      assert Contents(output) == Step(before, padWidth, op);
    }
  }

  /** The pair maskfill returns once the operator is known: the masked pixels
      blanked, filled until nothing is missing, then with smoothing
      (smoothed, unsmoothed) and without it (unsmoothed, None). */
  function FillResult(im: Grid, mask: Mask, size: int, op: Op, smooth: bool): (r: (Grid, Option<Grid>))
    requires Rect(im) && SameShape(mask, im) && size >= 2 && Seeded(Masked(im, mask))
    ensures SameShape(r.0, im)
    ensures r.1.Some? <==> smooth
    ensures r.1.Some? ==> SameShape(r.1.value, im)
  {
    ShapeRect(mask, im);
    FillComplete(Masked(im, mask), size / 2, op);
    var filled := Fill(Masked(im, mask), size / 2, op);
    if smooth then (Processed(filled, size / 2, MaskIndices(mask), Mean), Some(filled))
    else (filled, None)
  }

  /** The first grid of the pair has the image's shape, no missing pixel and
      the input's value at every valid unmasked pixel; with smoothing the two
      grids agree outside the mask. */
  lemma FillResultOutcome(im: Grid, mask: Mask, size: int, op: Op, smooth: bool)
    requires Rect(im) && SameShape(mask, im) && size >= 2 && Seeded(Masked(im, mask))
    ensures var out := FillResult(im, mask, size, op, smooth);
      && SameShape(out.0, im) && !HasNaN(out.0)
      && (forall y, x :: InBounds(im, y, x) && !mask[y][x] && im[y][x].Val? ==> out.0[y][x] == im[y][x])
      && (smooth ==> forall y, x :: InBounds(im, y, x) && !mask[y][x] ==> out.0[y][x] == out.1.value[y][x])
  {
    ShapeRect(mask, im);
    var h := size / 2;
    var filled := Fill(Masked(im, mask), h, op);
    FilledOutcome(im, mask, h, op);
    if smooth {
      SmoothingKeeps(im, mask, filled, h);
    }
  }

  /** Smoothing a filled grid that keeps the image's unmasked valid pixels
      keeps them too, and changes nothing outside the mask. */
  lemma SmoothingKeeps(im: Grid, mask: Mask, filled: Grid, h: nat)
    requires Rect(im) && SameShape(mask, im) && SameShape(filled, im) && !HasNaN(filled)
    requires forall y, x :: InBounds(im, y, x) && !mask[y][x] && im[y][x].Val? ==> filled[y][x] == im[y][x]
    ensures Rect(mask)
    ensures var smoothed := Processed(filled, h, MaskIndices(mask), Mean);
      && SameShape(smoothed, im) && !HasNaN(smoothed)
      && (forall y, x :: InBounds(im, y, x) && !mask[y][x] && im[y][x].Val? ==> smoothed[y][x] == im[y][x])
      && (forall y, x :: InBounds(im, y, x) && !mask[y][x] ==> smoothed[y][x] == filled[y][x])
  {
    ShapeRect(filled, im);
    SmoothedOutcome(filled, mask, h);
  }

  /** The first half of maskfill on a fresh buffer: copy the image, blank the
      masked pixels, fill until nothing is missing. */
  method FilledBuffer(im: Grid, mask: Mask, padWidth: nat, op: Op) returns (output: array2<Cell>)
    requires Rect(im) && SameShape(mask, im) && padWidth >= 1 && Seeded(Masked(im, mask))
    ensures fresh(output) && output.Length0 == |im| && output.Length1 == Width(im)
    ensures Contents(output) == Fill(Masked(im, mask), padWidth, op)
  {
    output := FromGrid(im);
    BlankMasked(output, mask);
    FillLoop(output, padWidth, op);
  }

  /** maskfill once the operator is known: fill a copy of the image, then
      optionally smooth its masked pixels with the mean in place. */
  method FillAndSmooth(im: Grid, mask: Mask, size: int, op: Op, smooth: bool)
    returns (out: (Grid, Option<Grid>))
    requires Rect(im) && SameShape(mask, im) && size >= 2 && Seeded(Masked(im, mask))
    ensures out == FillResult(im, mask, size, op, smooth)
  {
    var padWidth := size / 2;
    var output := FilledBuffer(im, mask, padWidth, op);
    var filled := Contents(output);
    if smooth {
      ShapeRect(mask, im);
      ProcessMaskedPixels(output, padWidth, Some(mask), Mean);
      assert Targets(filled, Some(mask)) == MaskIndices(mask);
      return (Contents(output), Some(filled));
    }
    return (filled, None);
  }

  /** maskfill without its file handling: an unknown operator is rejected
      before anything else happens. */
  method MaskFill(im: Grid, mask: Mask, size: int, operator: string, smooth: bool)
    returns (res: Result<(Grid, Option<Grid>)>)
    requires Rect(im) && SameShape(mask, im)
    requires ParseOperator(operator).Success? ==> size >= 2 && Seeded(Masked(im, mask))
    ensures res.Failure? <==> ParseOperator(operator).Failure?
    ensures res.Success? ==> res.value == FillResult(im, mask, size, ParseOperator(operator).value, smooth)
    ensures res.Success? ==> SameShape(res.value.0, im) && !HasNaN(res.value.0)
    ensures res.Success? ==> forall y, x :: InBounds(im, y, x) && !mask[y][x] && im[y][x].Val? ==>
      res.value.0[y][x] == im[y][x]
    ensures res.Success? && smooth ==> forall y, x :: InBounds(im, y, x) && !mask[y][x] ==>
      res.value.0[y][x] == res.value.1.value[y][x]
  {
    var parsed := ParseOperator(operator);
    if parsed.Failure? {
      return Failure(parsed.error);
    }
    var out := FillAndSmooth(im, mask, size, parsed.value, smooth);
    FillResultOutcome(im, mask, size, parsed.value, smooth);
    return Success(out);
  }
}
