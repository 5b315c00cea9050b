/**
 * `findPinhole` as the program runs it: the hot pixels are patched in the
 * image array itself, the cutout is copied out of it, and the outliers of the
 * copy are clamped by masked assignment. Each step is proved against the
 * grid functions of `PinholeSearch`, and the whole call against
 * `FindPinholeSpec`.
 */
module PinholeLocator {
  import opened Common
  import opened Numerics
  import opened PinholeDb
  import opened PinholeSearch

  /** The pixels of a 2-D array, row by row. */
  function Contents(a: array2<real>): (g: Grid)
    reads a
    ensures |g| == a.Length0 && IsMatrix(g)
    ensures forall i :: 0 <= i < |g| ==> |g[i]| == a.Length1
  {
    seq(a.Length0, i requires 0 <= i < a.Length0 reads a =>
      seq(a.Length1, j requires 0 <= j < a.Length1 reads a => a[i, j]))
  }

  /** `data[row, col] = 1/2. * (data[row, col + 1] + data[row, col - 1])` on
      the image array; `failed` is the `IndexError` raised when the pixel or
      its right neighbour is off the image, which leaves the array as it was. */
  method PatchInPlace(data: array2<real>, row: nat, col: nat, integerPixels: bool) returns (failed: bool)
    requires col >= 1
    modifies data
    ensures PatchAt(old(Contents(data)), row, col, integerPixels) == Patching(Contents(data), failed)
  {
    ghost var before := Contents(data);
    failed := !(row < data.Length0 && col + 1 < data.Length1);
    if !failed {
      var v := (data[row, col + 1] + data[row, col - 1]) / 2.0;
      data[row, col] := if integerPixels then Trunc(v) as real else v;
      ghost var after := before[row := before[row][col := if integerPixels then Trunc(v) as real else v]];
      assert forall i, j :: 0 <= i < data.Length0 && 0 <= j < data.Length1 ==> Contents(data)[i][j] == after[i][j];
      assert forall i :: 0 <= i < data.Length0 ==> Contents(data)[i] == after[i];
    } else {
      assert Contents(data) == before;
    }
  }

  /** A fresh array holding `g[r0:r1, c0:c1]` under numpy's slice rules:
      `.astype(float)` copies, so the clamp below never touches the image. */
  method CopyWindow(data: array2<real>, r0: int, r1: int, c0: int, c1: int) returns (w: array2<real>)
    ensures fresh(w)
    ensures Contents(w) == Crop(Contents(data), r0, r1, c0, c1)
  {
    var rs, re := SliceBound(r0, data.Length0), SliceBound(r1, data.Length0);
    var cs, ce := SliceBound(c0, data.Length1), SliceBound(c1, data.Length1);
    var rows := if rs < re then re - rs else 0;
    var cols := if cs < ce then ce - cs else 0;
    w := new real[rows, cols];
    var i := 0;
    while i < rows
      invariant 0 <= i <= rows
      invariant forall k, l :: 0 <= k < i && 0 <= l < cols ==> w[k, l] == data[rs + k, cs + l]
    {
      var j := 0;
      while j < cols
        invariant 0 <= j <= cols
        invariant forall k, l :: 0 <= k < i && 0 <= l < cols ==> w[k, l] == data[rs + k, cs + l]
        invariant forall l :: 0 <= l < j ==> w[i, l] == data[rs + i, cs + l]
      {
        w[i, j] := data[rs + i, cs + j];
        j := j + 1;
      }
      i := i + 1;
    }
    CopyIsCrop(Contents(data), Contents(w), r0, r1, c0, c1, data.Length1);
  }

  /** A grid whose cells are read from the normalised slice bounds of a matrix
      is the crop of that matrix. */
  lemma CopyIsCrop(g: Grid, w: Grid, r0: int, r1: int, c0: int, c1: int, width: nat)
    requires forall i :: 0 <= i < |g| ==> |g[i]| == width
    requires |w| == SliceLength(r0, r1, |g|)
    requires forall i :: 0 <= i < |w| ==> |w[i]| == SliceLength(c0, c1, width)
    requires forall i, j :: 0 <= i < |w| && 0 <= j < |w[i]| ==>
      SliceBound(r0, |g|) + i < |g| && SliceBound(c0, width) + j < width &&
      w[i][j] == g[SliceBound(r0, |g|) + i][SliceBound(c0, width) + j]
    ensures w == Crop(g, r0, r1, c0, c1)
  {
    var crop := Crop(g, r0, r1, c0, c1);
    forall i | 0 <= i < |w| ensures w[i] == crop[i] {
      SliceAt(g, r0, r1, i);
      var row := g[SliceBound(r0, |g|) + i];
      forall j | 0 <= j < |w[i]| ensures w[i][j] == crop[i][j] {
        SliceAt(row, c0, c1, j);
      }
      if |w[i]| > 0 {
        SliceAt(row, c0, c1, 0);
      }
    }
  }

  /** The masked assignment `a[a > limit] = value` on the cutout array. */
  method ReplaceAboveInPlace(a: array2<real>, limit: real, value: real)
    modifies a
    ensures Contents(a) == ReplaceAbove(old(Contents(a)), limit, value)
  {
    ghost var before := Contents(a);
    var i := 0;
    while i < a.Length0
      invariant 0 <= i <= a.Length0
      invariant forall k, l :: 0 <= k < a.Length0 && 0 <= l < a.Length1 ==>
        a[k, l] == if k < i && before[k][l] > limit then value else before[k][l]
    {
      var j := 0;
      while j < a.Length1
        invariant 0 <= j <= a.Length1
        invariant forall k, l :: 0 <= k < a.Length0 && 0 <= l < a.Length1 ==>
          a[k, l] == if (k < i || (k == i && l < j)) && before[k][l] > limit then value else before[k][l]
      {
        if a[i, j] > limit {
          a[i, j] := value;
        }
        j := j + 1;
      }
      i := i + 1;
    }
    ghost var after := ReplaceAbove(before, limit, value);
    assert forall k :: 0 <= k < a.Length0 ==> Contents(a)[k] == after[k];
  }

  /** `np.min` of a non-empty array: the smallest pixel. */
  method MinOf(a: array2<real>) returns (m: real)
    requires a.Length0 > 0 && a.Length1 > 0
    ensures m == Min(Flatten(Contents(a)))
  {
    m := a[0, 0];
    var i := 0;
    while i < a.Length0
      invariant 0 <= i <= a.Length0
      invariant exists k, l :: 0 <= k < a.Length0 && 0 <= l < a.Length1 && a[k, l] == m
      invariant forall k, l :: 0 <= k < i && 0 <= l < a.Length1 ==> m <= a[k, l]
    {
      var j := 0;
      while j < a.Length1
        invariant 0 <= j <= a.Length1
        invariant exists k, l :: 0 <= k < a.Length0 && 0 <= l < a.Length1 && a[k, l] == m
        invariant forall k, l :: 0 <= k < i && 0 <= l < a.Length1 ==> m <= a[k, l]
        invariant forall l :: 0 <= l < j ==> m <= a[i, l]
      {
        if a[i, j] < m {
          m := a[i, j];
        }
        j := j + 1;
      }
      i := i + 1;
    }
    var k, l :| 0 <= k < a.Length0 && 0 <= l < a.Length1 && a[k, l] == m;
    MinIsSmallestCell(Contents(a), m, k, l);
  }

  /** The smallest cell of a grid is the minimum of its flattening. */
  lemma MinIsSmallestCell(g: Grid, m: real, k: nat, l: nat)
    requires k < |g| && l < |g[k]| && g[k][l] == m
    requires forall i, j :: 0 <= i < |g| && 0 <= j < |g[i]| ==> m <= g[i][j]
    ensures |Flatten(g)| > 0 && m == Min(Flatten(g))
  {
    FlattenMembers(g);
    assert m in Flatten(g);
    var f := Flatten(g);
    var p :| 0 <= p < |f| && Min(f) == f[p];
    assert f[p] in f;
    var i, j :| 0 <= i < |g| && 0 <= j < |g[i]| && g[i][j] == f[p];
    var q :| 0 <= q < |f| && f[q] == m;
  }

  /** The clamp of the cutout array, in place: outliers above median + 5 std
      become the median, then pixels above the ceiling become the ceiling. */
  method ClampInPlace(cut: array2<real>, np: NumPy) returns (lo: real, hi: real)
    requires Sound(np) && cut.Length0 > 0 && cut.Length1 > 0
    modifies cut
    ensures Size(old(Contents(cut))) > 0
    ensures Clamp(Contents(cut), lo, hi) == ClampWindow(old(Contents(cut)), np)
  {
    ghost var g := Contents(cut);
    var med, sd := ReplaceOutliers(cut, np);
    ghost var first := Contents(cut);
    lo := MinOf(cut);
    var ceilingMedian := CeilingMedian(cut, np);
    hi := ceilingMedian + 3.0 * sd;
    ReplaceAboveInPlace(cut, hi, hi);
    ClampSteps(g, np, med, sd, first, lo, ceilingMedian, Contents(cut));
  }

  /** `extractdata[extractdata > median + 5 * std] = median`, returning the
      median and standard deviation of the cutout before the assignment. */
  method ReplaceOutliers(cut: array2<real>, np: NumPy) returns (med: real, sd: real)
    requires Sound(np) && cut.Length0 > 0 && cut.Length1 > 0
    modifies cut
    ensures Size(old(Contents(cut))) > 0
    ensures Median(np, Flatten(old(Contents(cut)))) == Finite(med) && Std(np, Flatten(old(Contents(cut)))) == sd
    ensures Contents(cut) == ReplaceAbove(old(Contents(cut)), med + 5.0 * sd, med)
  {
    ghost var g := Contents(cut);
    SizeOfMatrix(g);
    MedianBounds(np, Flatten(g));
    med := Median(np, Flatten(Contents(cut))).v;
    sd := Std(np, Flatten(Contents(cut)));
    ReplaceAboveInPlace(cut, med + 5.0 * sd, med);
  }

  /** `np.median(extractdata)` of the non-empty cutout after the outlier step. */
  method CeilingMedian(cut: array2<real>, np: NumPy) returns (m: real)
    requires Sound(np) && cut.Length0 > 0 && cut.Length1 > 0
    ensures |Flatten(Contents(cut))| > 0 && Median(np, Flatten(Contents(cut))) == Finite(m)
  {
    SizeOfMatrix(Contents(cut));
    MedianBounds(np, Flatten(Contents(cut)));
    m := Median(np, Flatten(Contents(cut))).v;
  }

  /** The three clamp steps, each done by one masked assignment or reduction,
      compose to `ClampWindow`. */
  lemma ClampSteps(g: Grid, np: NumPy, med: real, sd: real, first: Grid, lo: real, ceilingMedian: real, last: Grid)
    requires Sound(np) && Size(g) > 0
    requires Median(np, Flatten(g)) == Finite(med) && Std(np, Flatten(g)) == sd
    requires first == ReplaceAbove(g, med + 5.0 * sd, med)
    requires |Flatten(first)| > 0 && lo == Min(Flatten(first))
    requires Median(np, Flatten(first)) == Finite(ceilingMedian)
    requires last == ReplaceAbove(first, ceilingMedian + 3.0 * sd, ceilingMedian + 3.0 * sd)
    ensures Clamp(last, lo, ceilingMedian + 3.0 * sd) == ClampWindow(g, np)
  {
    assert Outliers(g, np) == first;
    assert Ceiling(g, np) == ceilingMedian + 3.0 * sd;
  }

  /** `findPinhole` on the image array `data`: the outcome is the one
      `FindPinholeSpec` gives for the pixels as they were, and afterwards the
      array holds the patched image (or is untouched when the pointing is
      unknown). */
  method FindPinhole(imagename: string, h: Header, data: array2<real>, integerPixels: bool, np: NumPy,
                     schema: set<string>) returns (o: Outcome)
    requires Sound(np)
    modifies data
    ensures o == FindPinholeSpec(imagename, h, old(Contents(data)), integerPixels, np, schema)
    ensures PointingUnknown(h) ==> Contents(data) == old(Contents(data))
    ensures !PointingUnknown(h) ==>
      Contents(data) == PatchHotPixels(old(Contents(data)), h.instrument, integerPixels).image
  {
    if PointingUnknown(h) {
      return Returned(None);
    }
    var failed := PatchHotPixelsInPlace(data, h.instrument, integerPixels);
    if failed {
      return Raised;
    }
    o := MeasureImage(imagename, h, data, np, schema);
  }

  /** Both hot-pixel patches on the image array; `failed` is the `IndexError`. */
  method PatchHotPixelsInPlace(data: array2<real>, instrument: string, integerPixels: bool) returns (failed: bool)
    modifies data
    ensures PatchHotPixels(old(Contents(data)), instrument, integerPixels) == Patching(Contents(data), failed)
  {
    failed := false;
    if Contains(instrument, "ak05") {
      failed := PatchInPlace(data, Ak05Row, Ak05Col, integerPixels);
    }
    if !failed && Contains(instrument, "ak16") {
      failed := PatchInPlace(data, Ak16Row, Ak16Col, integerPixels);
    }
  }

  /** The steps after the patch: copy the cutout out of the image, check it
      for contamination, clamp the copy in place and locate the pinhole. */
  method MeasureImage(imagename: string, h: Header, data: array2<real>, np: NumPy, schema: set<string>)
    returns (o: Outcome)
    requires Sound(np)
    ensures o == Measure(imagename, h, Contents(data), np, schema)
  {
    var cut := CopyCutout(data, h);
    if Contaminated(Contents(cut), Background(Contents(data), np)) {
      return Returned(None);
    }
    SizeOfMatrix(Contents(cut));
    if cut.Length0 == 0 || cut.Length1 == 0 {
      return Raised;
    }
    var pos := LocateInPlace(cut, h, np);
    if Construct(schema, SuppliedKeywords).TypeError? {
      return Raised;
    }
    o := Returned(Some(BuildRecord(imagename, h, pos)));
  }

  /** `data[CRPIX2 - 60 : CRPIX2 + 59, CRPIX1 - 60 : CRPIX1 + 59].astype(float)`. */
  method CopyCutout(data: array2<real>, h: Header) returns (cut: array2<real>)
    ensures fresh(cut)
    ensures Contents(cut) == Cutout(Contents(data), h)
  {
    var r, c := Trunc(h.crpix2), Trunc(h.crpix1);
    cut := CopyWindow(data, r - ExtractFrameSize, r + (ExtractFrameSize - 1),
                      c - ExtractFrameSize, c + (ExtractFrameSize - 1));
  }

  /** Clamp the cutout array in place, rescale it and locate the pinhole. */
  method LocateInPlace(cut: array2<real>, h: Header, np: NumPy) returns (pos: (Float, Float))
    requires Sound(np) && cut.Length0 > 0 && cut.Length1 > 0
    modifies cut
    ensures IsMatrix(old(Contents(cut))) && Size(old(Contents(cut))) > 0
    ensures pos == Locate(old(Contents(cut)), h, np)
  {
    ghost var g := Contents(cut);
    var lo, hi := ClampInPlace(cut, np);
    LocateOfClamp(g, h, np, Contents(cut), lo, hi);
    if lo == hi {
      return (NonFinite, NonFinite);
    }
    pos := Position(Affine(Contents(cut), lo, 0.5 * (hi - lo), -1.0), h, np);
  }

  /** What `Locate` does once the clamp has produced `window` with bounds
      `lo` and `hi`. */
  lemma LocateOfClamp(g: Grid, h: Header, np: NumPy, window: Grid, lo: real, hi: real)
    requires Sound(np) && IsMatrix(g) && Size(g) > 0
    requires Clamp(window, lo, hi) == ClampWindow(g, np)
    ensures lo == hi ==> Locate(g, h, np) == (NonFinite, NonFinite)
    ensures lo != hi ==>
      (IsMatrix(Affine(window, lo, 0.5 * (hi - lo), -1.0)) &&
       Size(Affine(window, lo, 0.5 * (hi - lo), -1.0)) > 0 &&
       Locate(g, h, np) == Position(Affine(window, lo, 0.5 * (hi - lo), -1.0), h, np))
  {
    var c := ClampWindow(g, np);
    assert c.window == window && c.lo == lo && c.hi == hi;
    if lo != hi {
      ScaledShape(g, c);
      ghost var scaled := Affine(window, lo, 0.5 * (hi - lo), -1.0);
      assert Affine(c.window, c.lo, 0.5 * (c.hi - c.lo), -1.0) == scaled;
      assert Locate(g, h, np) == Position(scaled, h, np);
    }
  }
}
