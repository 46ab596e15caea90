/** The original script (maskfill.py at the repository root): nan_filter scans
    the whole grid into a fresh copy, and main repeats it until nothing is
    missing, then pastes the result into the masked pixels of the original
    image, optionally after one smoothing scan with the mean. Unlike the package
    version, every pass also re-filters the pixels that were never masked; only
    the pixels that were masked and have been filled are left alone. */
module LegacyScript {
  import opened Pixels
  import opened Grids

  /** The script's operator choice: the mean for "mean", the median for any
      other string. */
  function OperatorOf(operator: string): (op: Op)
    ensures op == Mean <==> operator == "mean"
  {
    if operator == "mean" then Mean else Median
  }

  /** The value nan_filter gives the cell (y, x): the operator over the valid
      values of its window in image, when there is at least one and the cell is
      missing now or was valid in orgimage; otherwise the cell is kept. */
  function FilteredCell(image: Grid, h: nat, orgimage: Grid, operator: string, y: int, x: int): (c: Cell)
    requires InBounds(image, y, x) && InBounds(orgimage, y, x)
    ensures image[y][x].Val? ==> c.Val?
  {
    WindowNonEmpty(image, y, x, h);
    assert Near(y, x, y, x, h) && At(image, y, x) == image[y][x];
    var vals := WindowValues(image, y, x, h);
    if |vals| > 0 && (image[y][x].NaN? || orgimage[y][x].Val?) then Reduce(OperatorOf(operator), vals)
    else image[y][x]
  }

  /** The grid nan_filter returns, with window width 2 * (size / 2) + 1. */
  function Filtered(image: Grid, size: nat, orgimage: Grid, operator: string): (r: Grid)
    requires SameShape(orgimage, image)
    ensures SameShape(r, image) && (Rect(image) ==> Rect(r))
  {
    seq(|image|, y requires 0 <= y < |image| =>
      seq(|image[y]|, x requires 0 <= x < |image[y]| => FilteredCell(image, size / 2, orgimage, operator, y, x)))
  }

  lemma FilteredAt(image: Grid, size: nat, orgimage: Grid, operator: string, y: int, x: int)
    requires SameShape(orgimage, image) && InBounds(image, y, x)
    ensures Filtered(image, size, orgimage, operator)[y][x] == FilteredCell(image, size / 2, orgimage, operator, y, x)
  {
  }

  /** An even size filters exactly as the next odd size. */
  lemma EvenSizeAsOdd(image: Grid, k: nat, orgimage: Grid, operator: string)
    requires SameShape(orgimage, image)
    ensures Filtered(image, 2 * k, orgimage, operator) == Filtered(image, 2 * k + 1, orgimage, operator)
  {
    assert (2 * k) / 2 == (2 * k + 1) / 2 == k;
  }

  /** The inner loop of nan_filter over row i: each cell of the row is
      rewritten from the snapshot, the other rows are untouched. */
  method FilterRow(filtered: array2<Cell>, padded: Grid, org: Grid, h: nat, operator: string, i: int)
    requires |padded| == filtered.Length0 && forall y :: 0 <= y < |padded| ==> |padded[y]| == filtered.Length1
    requires SameShape(org, padded) && 0 <= i < filtered.Length0
    modifies filtered
    ensures forall y, x :: 0 <= y < filtered.Length0 && 0 <= x < filtered.Length1 ==>
      filtered[y, x] == if y == i then FilteredCell(padded, h, org, operator, y, x) else old(filtered[y, x])
  {
    for j := 0 to filtered.Length1
      invariant forall y, x :: 0 <= y < filtered.Length0 && 0 <= x < filtered.Length1 ==>
        filtered[y, x] == if y == i && x < j then FilteredCell(padded, h, org, operator, y, x) else old(filtered[y, x])
    {
      label prev:
      filtered[i, j] := FilteredCell(padded, h, org, operator, i, j);
      forall y, x | 0 <= y < filtered.Length0 && 0 <= x < filtered.Length1
        ensures filtered[y, x] ==
          if y == i && x < j + 1 then FilteredCell(padded, h, org, operator, y, x) else old(filtered[y, x])
      {
        if (y, x) != (i, j) {
          assert filtered[y, x] == old@prev(filtered[y, x]);
        }
      }
    }
  }

  /** nan_filter: copies the image, then rewrites cells of the copy, reading
      every window from a NaN-padded snapshot of the input, never from the copy
      being written. The input arrays are not modified. */
  method NanFilter(image: array2<Cell>, size: nat, orgimage: array2<Cell>, operator: string)
    returns (filtered: array2<Cell>)
    requires orgimage.Length0 == image.Length0 && orgimage.Length1 == image.Length1
    ensures fresh(filtered)
    ensures Contents(filtered) == Filtered(Contents(image), size, Contents(orgimage), operator)
  {
    var padded := Contents(image);
    var org := Contents(orgimage);
    filtered := new Cell[image.Length0, image.Length1]((y, x) reads image
      requires 0 <= y < image.Length0 && 0 <= x < image.Length1 => image[y, x]);
    var h := size / 2;
    for i := 0 to image.Length0
      invariant filtered.Length0 == image.Length0 && filtered.Length1 == image.Length1
      invariant forall y, x :: 0 <= y < image.Length0 && 0 <= x < image.Length1 ==>
        filtered[y, x] == if y < i then FilteredCell(padded, h, org, operator, y, x) else padded[y][x]
    {
      FilterRow(filtered, padded, org, h, operator, i);
    }
    var after, spec := Contents(filtered), Filtered(padded, size, org, operator);
    forall y | 0 <= y < |after|
      ensures after[y] == spec[y]
    {
      forall x | 0 <= x < |after[y]|
        ensures after[y][x] == spec[y][x]
      {
        FilteredAt(padded, size, org, operator, y, x);
      }
    }
  }

  /** One scan keeps every valid cell valid, fills every missing cell with a
      valid 8-neighbour, and never changes a cell that was missing in orgimage
      and has been filled since. */
  lemma FilterEffect(image: Grid, size: nat, orgimage: Grid, operator: string)
    requires Rect(image) && SameShape(orgimage, image) && size >= 2
    ensures SameShape(Filtered(image, size, orgimage, operator), image)
    ensures Rect(Filtered(image, size, orgimage, operator))
    ensures forall y, x :: InBounds(image, y, x) && image[y][x].Val? ==>
      Filtered(image, size, orgimage, operator)[y][x].Val?
    ensures forall y, x :: InBounds(image, y, x) && IsFrontier(image, y, x, 1) ==>
      Filtered(image, size, orgimage, operator)[y][x].Val?
    ensures forall y, x :: InBounds(image, y, x) && orgimage[y][x].NaN? && image[y][x].Val? ==>
      Filtered(image, size, orgimage, operator)[y][x] == image[y][x]
  {
    var f: Grid := Filtered(image, size, orgimage, operator);
    forall y, x | InBounds(image, y, x)
      ensures image[y][x].Val? ==> f[y][x].Val?
      ensures IsFrontier(image, y, x, 1) ==> f[y][x].Val?
      ensures orgimage[y][x].NaN? && image[y][x].Val? ==> f[y][x] == image[y][x]
    {
      FilteredAt(image, size, orgimage, operator, y, x);
      if IsFrontier(image, y, x, 1) {
        WindowWidens(image, y, x, 1, size / 2);
      }
    }
  }

  /** While a missing cell and a valid cell both exist, a scan strictly
      reduces the number of missing cells and keeps a valid cell. */
  lemma FilterProgress(image: Grid, size: nat, orgimage: Grid, operator: string)
    requires Rect(image) && SameShape(orgimage, image) && size >= 2 && HasNaN(image) && HasValue(image)
    ensures Rect(Filtered(image, size, orgimage, operator))
    ensures SameShape(orgimage, Filtered(image, size, orgimage, operator))
    ensures HasValue(Filtered(image, size, orgimage, operator))
    ensures |NaNSet(Filtered(image, size, orgimage, operator))| < |NaNSet(image)|
  {
    FilterEffect(image, size, orgimage, operator);
    var y, x := FrontierCell(image);
    FewerNaNs(image, Filtered(image, size, orgimage, operator), y, x);
  }

  /** The while loop of main: scans until nothing is missing, so the result
      has the input's shape and no missing cell. */
  function LegacyLoop(g: Grid, orgimage: Grid, size: nat, operator: string): (r: Grid)
    requires Rect(g) && SameShape(orgimage, g) && size >= 2 && Seeded(g)
    ensures SameShape(r, g) && !HasNaN(r)
    decreases |NaNSet(g)|
  {
    if !HasNaN(g) then g
    else
      FilterProgress(g, size, orgimage, operator);
      LegacyLoop(Filtered(g, size, orgimage, operator), orgimage, size, operator)
  }

  /** The number of scans main's loop makes: none exactly when nothing is
      missing. */
  function Scans(g: Grid, orgimage: Grid, size: nat, operator: string): (n: nat)
    requires Rect(g) && SameShape(orgimage, g) && size >= 2 && Seeded(g)
    ensures n == 0 <==> !HasNaN(g)
    decreases |NaNSet(g)|
  {
    if !HasNaN(g) then 0
    else
      FilterProgress(g, size, orgimage, operator);
      1 + Scans(Filtered(g, size, orgimage, operator), orgimage, size, operator)
  }

  /** t lists grids that follow one another by one scan each. */
  ghost predicate Scanned(t: seq<Grid>, orgimage: Grid, size: nat, operator: string)
  {
    && (forall i :: 0 <= i < |t| ==> Rect(t[i]) && SameShape(orgimage, t[i]))
    && (forall i :: 0 <= i < |t| - 1 ==> t[i + 1] == Filtered(t[i], size, orgimage, operator))
  }

  /** When every cell is within distance d of a valid cell, the scans from g
      reach a grid without NaN within d scans. */
  lemma {:induction false} ScansClear(g: Grid, orgimage: Grid, size: nat, operator: string, d: nat)
    returns (t: seq<Grid>)
    requires Rect(g) && SameShape(orgimage, g) && size >= 2 && Reach(g, d)
    ensures 1 <= |t| <= d + 1 && t[0] == g && Scanned(t, orgimage, size, operator) && !HasNaN(t[|t| - 1])
    decreases d
  {
    if HasNaN(g) {
      var s := ScanCloser(g, orgimage, size, operator, d);
      var rest := ScansClear(s, orgimage, size, operator, d - 1);
      ScannedCons(g, s, rest, orgimage, size, operator);
      t := [g] + rest;
    } else {
      t := [g];
    }
  }

  /** The scan after a grid that still has a NaN brings every cell one step
      closer to a valid cell. */
  lemma ScanCloser(g: Grid, orgimage: Grid, size: nat, operator: string, d: nat) returns (s: Grid)
    requires Rect(g) && SameShape(orgimage, g) && size >= 2 && Reach(g, d) && HasNaN(g)
    ensures d >= 1 && Rect(s) && SameShape(orgimage, s) && Reach(s, d - 1)
    ensures Scanned([g, s], orgimage, size, operator)
  {
    ReachPositive(g, d);
    FilterReach(g, size, orgimage, operator, d);
    s := Filtered(g, size, orgimage, operator);
    ScannedPair(g, orgimage, size, operator);
  }

  lemma ScannedPair(g: Grid, orgimage: Grid, size: nat, operator: string)
    requires Rect(g) && SameShape(orgimage, g)
    ensures Scanned([g, Filtered(g, size, orgimage, operator)], orgimage, size, operator)
  {
    var t := [g, Filtered(g, size, orgimage, operator)];
    assert t[0] == g && t[1] == Filtered(g, size, orgimage, operator);
  }

  lemma ScannedCons(g: Grid, s: Grid, rest: seq<Grid>, orgimage: Grid, size: nat, operator: string)
    requires Scanned([g, s], orgimage, size, operator) && |rest| >= 1 && Scanned(rest, orgimage, size, operator)
    requires rest[0] == s
    ensures Scanned([g] + rest, orgimage, size, operator)
  {
    var t := [g] + rest;
    assert [g, s][0] == g && [g, s][1] == s;
    forall i | 0 <= i < |t|
      ensures Rect(t[i]) && SameShape(orgimage, t[i])
    {
      if i > 0 {
        assert t[i] == rest[i - 1];
      }
    }
    forall i | 0 <= i < |t| - 1
      ensures t[i + 1] == Filtered(t[i], size, orgimage, operator)
    {
      if i > 0 {
        assert t[i] == rest[i - 1];
      }
    }
  }

  /** Along scans that end without NaN, the loop started at the i-th grid
      stops by the last one. */
  lemma {:induction false} ScansAlong(t: seq<Grid>, orgimage: Grid, size: nat, operator: string, i: nat)
    requires size >= 2 && Scanned(t, orgimage, size, operator) && i < |t| && Seeded(t[i]) && !HasNaN(t[|t| - 1])
    ensures Scans(t[i], orgimage, size, operator) <= |t| - 1 - i
    decreases |t| - i
  {
    if HasNaN(t[i]) {
      FilterProgress(t[i], size, orgimage, operator);
      ScansAlong(t, orgimage, size, operator, i + 1);
    }
  }

  /** A scan brings every cell one step closer to a valid cell. */
  lemma FilterReach(g: Grid, size: nat, orgimage: Grid, operator: string, d: nat)
    requires Rect(g) && SameShape(orgimage, g) && size >= 2 && d >= 1 && Reach(g, d)
    ensures Reach(Filtered(g, size, orgimage, operator), d - 1)
  {
    FilterEffect(g, size, orgimage, operator);
    ReachShrinks(g, Filtered(g, size, orgimage, operator), d);
  }

  /** main's loop ends within max(W, H) scans, and within max(W, H) - 1 when
      there is anything to fill. */
  lemma ScansBound(g: Grid, orgimage: Grid, size: nat, operator: string)
    requires Rect(g) && SameShape(orgimage, g) && size >= 2 && Seeded(g)
    ensures Scans(g, orgimage, size, operator) <= Max(|g|, Width(g))
    ensures HasNaN(g) ==> Scans(g, orgimage, size, operator) < Max(|g|, Width(g))
  {
    if HasNaN(g) {
      ReachAll(g);
      var t := ScansClear(g, orgimage, size, operator, Max(|g|, Width(g)) - 1);
      ScansAlong(t, orgimage, size, operator, 0);
    }
  }

  /** A cell that was missing in orgimage keeps the first value it was filled
      with. */
  lemma {:induction false} LegacyLoopComplete(g: Grid, orgimage: Grid, size: nat, operator: string)
    requires Rect(g) && SameShape(orgimage, g) && size >= 2 && Seeded(g)
    ensures forall y, x :: InBounds(g, y, x) && orgimage[y][x].NaN? && g[y][x].Val? ==>
      LegacyLoop(g, orgimage, size, operator)[y][x] == g[y][x]
    decreases |NaNSet(g)|
  {
    if HasNaN(g) {
      FilterProgress(g, size, orgimage, operator);
      FilterEffect(g, size, orgimage, operator);
      LegacyLoopComplete(Filtered(g, size, orgimage, operator), orgimage, size, operator);
    }
  }

  /** A scan only writes values between the bounds of the values present. */
  lemma FilterWithin(image: Grid, size: nat, orgimage: Grid, operator: string, lo: real, hi: real)
    requires Rect(image) && SameShape(orgimage, image) && ValuesWithin(image, lo, hi)
    ensures ValuesWithin(Filtered(image, size, orgimage, operator), lo, hi)
  {
    var f: Grid := Filtered(image, size, orgimage, operator);
    forall y, x | InBounds(f, y, x) && f[y][x].Val?
      ensures lo <= f[y][x].v <= hi
    {
      FilteredAt(image, size, orgimage, operator, y, x);
      if f[y][x] != image[y][x] {
        WindowWithin(image, y, x, size / 2, lo, hi);
        ReduceWithin(OperatorOf(operator), WindowValues(image, y, x, size / 2), lo, hi);
      }
    }
  }

  /** Every value the loop produces lies between the smallest and the largest
      valid input value. */
  lemma {:induction false} LegacyLoopWithin(g: Grid, orgimage: Grid, size: nat, operator: string, lo: real, hi: real)
    requires Rect(g) && SameShape(orgimage, g) && size >= 2 && Seeded(g) && ValuesWithin(g, lo, hi)
    ensures ValuesWithin(LegacyLoop(g, orgimage, size, operator), lo, hi)
    decreases |NaNSet(g)|
  {
    if HasNaN(g) {
      FilterProgress(g, size, orgimage, operator);
      FilterWithin(g, size, orgimage, operator, lo, hi);
      LegacyLoopWithin(Filtered(g, size, orgimage, operator), orgimage, size, operator, lo, hi);
    }
  }

  /** The smoothing call, where the image is its own orgimage: every cell
      whose window holds a valid value becomes the mean of that window, and a
      valid cell's window always holds at least the cell itself. */
  lemma SmoothingScan(g: Grid, size: nat)
    requires Rect(g)
    ensures SameShape(Filtered(g, size, g, "mean"), g)
    ensures forall y, x :: InBounds(g, y, x) && g[y][x].Val? ==> |WindowValues(g, y, x, size / 2)| > 0
    ensures forall y, x :: InBounds(g, y, x) && |WindowValues(g, y, x, size / 2)| > 0 ==>
      Filtered(g, size, g, "mean")[y][x] == Val(MeanOf(WindowValues(g, y, x, size / 2)))
  {
    var f: Grid := Filtered(g, size, g, "mean");
    forall y, x | InBounds(g, y, x)
      ensures g[y][x].Val? ==> |WindowValues(g, y, x, size / 2)| > 0
      ensures |WindowValues(g, y, x, size / 2)| > 0 ==> f[y][x] == Val(MeanOf(WindowValues(g, y, x, size / 2)))
    {
      WindowNonEmpty(g, y, x, size / 2);
      assert Near(y, x, y, x, size / 2);
      FilteredAt(g, size, g, "mean", y, x);
    }
  }

  /** Paste into the original image: the filled cell under the mask, the
      original cell elsewhere. This is the select the arithmetic blend of main
      is meant to compute (see ArithmeticBlend); its second ensures is the
      definition, cell by cell. */
  function Blend(mask: Mask, g: Grid, im: Grid): (r: Grid)
    requires SameShape(mask, im) && SameShape(g, im)
    ensures SameShape(r, im) && (Rect(im) ==> Rect(r))
    ensures forall y, x :: InBounds(im, y, x) ==> r[y][x] == if mask[y][x] then g[y][x] else im[y][x]
  {
    seq(|im|, y requires 0 <= y < |im| =>
      seq(|im[y]|, x requires 0 <= x < |im[y]| => if mask[y][x] then g[y][x] else im[y][x]))
  }

  /** Floating-point product and sum, where a NaN operand gives NaN. */
  function Times(a: Cell, b: Cell): (c: Cell)
    ensures c.Val? <==> a.Val? && b.Val?
  {
    if a.Val? && b.Val? then Val(a.v * b.v) else NaN
  }

  function Plus(a: Cell, b: Cell): (c: Cell)
    ensures c.Val? <==> a.Val? && b.Val?
  {
    if a.Val? && b.Val? then Val(a.v + b.v) else NaN
  }

  /** `im_masked * mask + (1 - mask) * im` as written, with the mask read as
      1 for a bad pixel and 0 for a good one. */
  function ArithmeticBlend(mask: Mask, g: Grid, im: Grid): (r: Grid)
    requires SameShape(mask, im) && SameShape(g, im)
    ensures SameShape(r, im)
  {
    seq(|im|, y requires 0 <= y < |im| =>
      seq(|im[y]|, x requires 0 <= x < |im[y]| =>
        var m := if mask[y][x] then 1.0 else 0.0;
        Plus(Times(g[y][x], Val(m)), Times(Val(1.0 - m), im[y][x]))))
  }

  /** Where both the filled and the original cell are valid, the arithmetic
      blend is the select. */
  lemma ArithmeticBlendAgrees(mask: Mask, g: Grid, im: Grid, y: int, x: int)
    requires SameShape(mask, im) && SameShape(g, im) && InBounds(im, y, x)
    requires g[y][x].Val? && im[y][x].Val?
    ensures ArithmeticBlend(mask, g, im)[y][x] == Blend(mask, g, im)[y][x]
  {
  }

  /** At a masked pixel whose original value is NaN the arithmetic blend
      multiplies that NaN by 0 and writes NaN, whatever the filled value, while
      the select takes the filled value. */
  lemma ArithmeticBlendLosesFill(mask: Mask, g: Grid, im: Grid, y: int, x: int)
    requires SameShape(mask, im) && SameShape(g, im)
    requires InBounds(im, y, x) && mask[y][x] && im[y][x].NaN?
    ensures ArithmeticBlend(mask, g, im)[y][x] == NaN
    ensures Blend(mask, g, im)[y][x] == g[y][x]
  {
  }

  /** An input main can reach that shows the loss: the left pixel is missing
      and masked, the right one is valid and unmasked. The loop fills the left
      pixel from its neighbour, yet the arithmetic paste writes NaN back there,
      where the select keeps the filled value. */
  lemma ArithmeticPasteLosesFill(v: real, size: nat, operator: string)
    requires size >= 2
    ensures var im, mask := [[NaN, Val(v)]], [[true, false]];
      var start := Masked(im, mask);
      && Rect(im) && Seeded(start)
      && ArithmeticBlend(mask, LegacyLoop(start, start, size, operator), im)[0][0] == NaN
      && Unsmoothed(im, mask, size, operator)[0][0].Val?
  {
    var im: Grid, mask: Mask := [[NaN, Val(v)]], [[true, false]];
    assert Rect(im);
    var start: Grid := Masked(im, mask);
    assert start[0][1].Val?;
    assert Seeded(start);
    UnsmoothedOutcome(im, mask, size, operator);
    var loop: Grid := LegacyLoop(start, start, size, operator);
    assert InBounds(loop, 0, 0);
  }

  /** The image main writes without smoothing: the loop's result pasted into
      the masked pixels of the original image. */
  function Unsmoothed(im: Grid, mask: Mask, size: nat, operator: string): (r: Grid)
    requires Rect(im) && SameShape(mask, im) && size >= 2 && Seeded(Masked(im, mask))
    ensures SameShape(r, im) && Rect(r)
  {
    var start := Masked(im, mask);
    Blend(mask, LegacyLoop(start, start, size, operator), im)
  }

  /** The image main writes with smoothing: one mean scan over the unsmoothed
      image, pasted into the masked pixels of the original image. */
  function Smoothed(im: Grid, mask: Mask, size: nat, operator: string): (r: Grid)
    requires Rect(im) && SameShape(mask, im) && size >= 2 && Seeded(Masked(im, mask))
    ensures SameShape(r, im) && Rect(r)
  {
    var unsmoothed := Unsmoothed(im, mask, size, operator);
    Blend(mask, Filtered(unsmoothed, size, unsmoothed, "mean"), im)
  }

  /** Without smoothing, pixels outside the mask keep their original value and
      every masked pixel holds the valid value the loop settled on. */
  lemma UnsmoothedOutcome(im: Grid, mask: Mask, size: nat, operator: string)
    requires Rect(im) && SameShape(mask, im) && size >= 2 && Seeded(Masked(im, mask))
    ensures SameShape(Unsmoothed(im, mask, size, operator), im) && Rect(Unsmoothed(im, mask, size, operator))
    ensures forall y, x :: InBounds(im, y, x) && !mask[y][x] ==>
      Unsmoothed(im, mask, size, operator)[y][x] == im[y][x]
    ensures forall y, x :: InBounds(im, y, x) && mask[y][x] ==>
      Unsmoothed(im, mask, size, operator)[y][x].Val? &&
      Unsmoothed(im, mask, size, operator)[y][x] == LegacyLoop(Masked(im, mask), Masked(im, mask), size, operator)[y][x]
  {
    var start := Masked(im, mask);
    var loop: Grid := LegacyLoop(start, start, size, operator);
    forall y, x | InBounds(im, y, x) && mask[y][x]
      ensures loop[y][x].Val?
    {
      assert InBounds(loop, y, x);
    }
  }

  /** With smoothing, pixels outside the mask still keep their original value,
      and every masked pixel is the mean of its window in the unsmoothed image. */
  lemma SmoothedOutcome(im: Grid, mask: Mask, size: nat, operator: string)
    requires Rect(im) && SameShape(mask, im) && size >= 2 && Seeded(Masked(im, mask))
    ensures SameShape(Smoothed(im, mask, size, operator), im)
    ensures forall y, x :: InBounds(im, y, x) && !mask[y][x] ==>
      Smoothed(im, mask, size, operator)[y][x] == im[y][x]
    ensures forall y, x :: InBounds(im, y, x) && mask[y][x] ==>
      var unsmoothed := Unsmoothed(im, mask, size, operator);
      |WindowValues(unsmoothed, y, x, size / 2)| > 0 &&
      Smoothed(im, mask, size, operator)[y][x] == Val(MeanOf(WindowValues(unsmoothed, y, x, size / 2)))
  {
    UnsmoothedOutcome(im, mask, size, operator);
    SmoothingScan(Unsmoothed(im, mask, size, operator), size);
  }

  /** The while loop of main: nan_filter against the initial image until no
      pixel is missing. */
  method FilterLoop(imMasked: array2<Cell>, initial: array2<Cell>, size: nat, operator: string)
    returns (result: array2<Cell>)
    requires initial.Length0 == imMasked.Length0 && initial.Length1 == imMasked.Length1
    requires size >= 2 && Seeded(Contents(imMasked))
    ensures Contents(result) == LegacyLoop(Contents(imMasked), Contents(initial), size, operator)
  {
    var org := Contents(initial);
    result := imMasked;
    while HasNaN(Contents(result))
      invariant result.Length0 == initial.Length0 && result.Length1 == initial.Length1
      invariant Contents(initial) == org && Seeded(Contents(result))
      invariant LegacyLoop(Contents(result), org, size, operator) ==
        LegacyLoop(Contents(imMasked), org, size, operator)
      decreases |NaNSet(Contents(result))|
    {
      ghost var before := Contents(result);
      FilterProgress(before, size, org, operator);
      result := NanFilter(result, size, initial, operator);
    }
  }

  /** The fill part of main: the loop over nan_filter, the paste into the
      original image, and the optional smoothing scan pasted in the same way
      (with the paste as the select it is meant to be). The loop only ends when
      the masked image has a valid pixel or no NaN at all. */
  method LegacyFill(im: Grid, mask: Mask, size: nat, operator: string, boxcar: bool)
    returns (filled: Grid)
    requires Rect(im) && SameShape(mask, im) && size >= 2 && Seeded(Masked(im, mask))
    ensures filled == if boxcar then Smoothed(im, mask, size, operator) else Unsmoothed(im, mask, size, operator)
    ensures SameShape(filled, im)
    ensures forall y, x :: InBounds(im, y, x) && !mask[y][x] ==> filled[y][x] == im[y][x]
    ensures forall y, x :: InBounds(im, y, x) && mask[y][x] ==> filled[y][x].Val?
  {
    var start := Masked(im, mask);
    var initial := FromGrid(start);
    var imMasked := FromGrid(start);
    var loop := FilterLoop(imMasked, initial, size, operator);
    filled := Blend(mask, Contents(loop), im);
    UnsmoothedOutcome(im, mask, size, operator);
    if boxcar {
      var unsmoothed := FromGrid(filled);
      var smoothed := NanFilter(unsmoothed, size, unsmoothed, "mean");
      filled := Blend(mask, Contents(smoothed), im);
      SmoothedOutcome(im, mask, size, operator);
    }
  }
}
