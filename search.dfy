/**
 * The per-image pinhole locator (`findPinhole`) of the current search, as a
 * specification over pixel grids: the pointing check, the hot-pixel patch,
 * the cutout around the reference pixel, the star-contamination guard, the
 * clamp and rescale to [-1, 1], the correlation peak and its refinement, and
 * the record with 1-based FITS pixel coordinates.
 */
module PinholeSearch {
  import opened Common
  import opened Numerics
  import opened PinholeTemplate
  import opened PinholeDb

  /** Half the side of the cutout around the reference pixel (`EXTRACT_FRAMESIZE`). */
  const ExtractFrameSize: int := 60
  /** Half the side of the window around the correlation peak (3 * `TEMPLATE_RADIUS`). */
  const RefineHalf: int := 3 * TemplateRadius
  /** How far the cutout mean may rise above the image background before the
      frame counts as lit by a star. */
  const ContaminationMargin: real := 50.0

  /** The header keywords `findPinhole` reads from the image extension. */
  datatype Header = Header(
    crpix1: real,
    crpix2: real,
    azimuth: HeaderValue,
    altitude: HeaderValue,
    dateObs: string,
    instrument: string,
    focTemp: real,
    siteId: string,
    encId: string,
    telId: string)

  /** What a call of `findPinhole` ends in: a return value (a record, or None),
      or an exception raised out of it. */
  datatype Outcome = Returned(record: Option<Measurement>) | Raised

  /** `part` occurs in `s` starting at index `i`. */
  predicate OccursAt(s: string, part: string, i: int) {
    0 <= i && i + |part| <= |s| && s[i..i + |part|] == part
  }

  /** Python's `part in s` on strings. */
  function Contains(s: string, part: string): (b: bool)
    ensures b <==> exists i :: OccursAt(s, part, i)
    decreases |s|
  {
    if |part| > |s| then false
    else if s[..|part|] == part then
      assert OccursAt(s, part, 0);
      true
    else
      var b := Contains(s[1..], part);
      assert forall i :: OccursAt(s[1..], part, i) <==> OccursAt(s, part, i + 1);
      assert !OccursAt(s, part, 0);
      assert forall i :: OccursAt(s, part, i) ==> i == 0 || OccursAt(s[1..], part, i - 1);
      b
  }

  // ---------------------------------------------------------------------------
  // Pointing check

  /** The header marks the pointing as unknown. The azimuth sentinel carries a
      leading space; the altitude sentinel does not. */
  predicate PointingUnknown(h: Header) {
    h.altitude == Text("UNKNOWN") || h.azimuth == Text(" UNKNOWN")
  }

  // ---------------------------------------------------------------------------
  // Hot-pixel patch

  /** The image after a patch attempt, and whether the attempt raised
      `IndexError` (leaving the image as it was). */
  datatype Patching = Patching(image: Grid, failed: bool)

  /** `data[row, col] = 1/2. * (data[row, col + 1] + data[row, col - 1])`.
      An image with integer pixels stores the average truncated toward zero. */
  function PatchAt(g: Grid, row: nat, col: nat, integerPixels: bool): (p: Patching)
    requires col >= 1
  {
    if PatchFits(g, row, col) then
      var v := (g[row][col + 1] + g[row][col - 1]) / 2.0;
      Patching(g[row := g[row][col := if integerPixels then Trunc(v) as real else v]], false)
    else
      Patching(g, true)
  }

  /** The pixel and its right-hand neighbour are on the image (the left-hand
      neighbour is, as the column is at least 1). */
  predicate PatchFits(g: Grid, row: nat, col: nat) {
    row < |g| && col + 1 < |g[row]|
  }

  /** A patch fails exactly when the pixel or its right neighbour is off the
      image; otherwise it keeps the shape, changes no other pixel, and sets the
      hot pixel to the mean of its two row neighbours (truncated toward zero
      for integer pixels). */
  lemma PatchAtEffect(g: Grid, row: nat, col: nat, integerPixels: bool)
    requires col >= 1
    ensures var p := PatchAt(g, row, col, integerPixels);
      (p.failed <==> !PatchFits(g, row, col)) &&
      |p.image| == |g| && (forall i :: 0 <= i < |g| ==> |p.image[i]| == |g[i]|) &&
      (forall i, j :: 0 <= i < |g| && 0 <= j < |g[i]| && (i != row || j != col) ==> p.image[i][j] == g[i][j]) &&
      (!p.failed ==>
        var mean := (g[row][col - 1] + g[row][col + 1]) / 2.0;
        p.image[row][col] == if integerPixels then Trunc(mean) as real else mean)
  {
  }

  /** The known hot pixels, 0-based: ak05 at ds9 (716, 590), ak16 at ds9 (609, 548). */
  const Ak05Row: nat := 590 - 1
  const Ak05Col: nat := 716 - 1
  const Ak16Row: nat := 548 - 1
  const Ak16Col: nat := 609 - 1

  /** Both patches, each applied when the instrument name contains its camera;
      an `IndexError` in the first ends the call before the second. */
  function PatchHotPixels(g: Grid, instrument: string, integerPixels: bool): (p: Patching)
  {
    var first := if Contains(instrument, "ak05") then PatchAt(g, Ak05Row, Ak05Col, integerPixels) else Patching(g, false);
    if first.failed || !Contains(instrument, "ak16") then first
    else PatchAt(first.image, Ak16Row, Ak16Col, integerPixels)
  }

  // ---------------------------------------------------------------------------
  // Cutout and contamination guard

  /** `data[CRPIX2 - 60 : CRPIX2 + 59, CRPIX1 - 60 : CRPIX1 + 59]` with the
      reference pixel truncated by `int()`. */
  function Cutout(g: Grid, h: Header): Grid {
    var r, c := Trunc(h.crpix2), Trunc(h.crpix1);
    Crop(g, r - ExtractFrameSize, r + (ExtractFrameSize - 1), c - ExtractFrameSize, c + (ExtractFrameSize - 1))
  }

  /** The median of the image interior `data[350:-350, 350:-350]`. */
  function Background(g: Grid, np: NumPy): Float {
    Median(np, Flatten(Crop(g, 350, -350, 350, -350)))
  }

  /** `np.mean(cutout) > background + 50`; a NaN on either side compares false. */
  predicate Contaminated(cut: Grid, background: Float) {
    var m := Mean(Flatten(cut));
    m.Finite? && background.Finite? && m.v > background.v + ContaminationMargin
  }

  // ---------------------------------------------------------------------------
  // Clamp and rescale

  /** The masked assignment `a[a > limit] = value`. */
  function ReplaceAbove(g: Grid, limit: real, value: real): (r: Grid)
    ensures |r| == |g|
    ensures forall i :: 0 <= i < |g| ==> |r[i]| == |g[i]|
  {
    seq(|g|, i requires 0 <= i < |g| =>
      seq(|g[i]|, j requires 0 <= j < |g[i]| => if g[i][j] > limit then value else g[i][j]))
  }

  /** The clamped cutout and the two values the rescale maps to -1 and +1. */
  datatype Clamp = Clamp(window: Grid, lo: real, hi: real)

  /** `extractdata[extractdata > median + 5 * std] = median`. */
  function Outliers(cut: Grid, np: NumPy): (first: Grid)
    requires Sound(np) && Size(cut) > 0
    ensures |Flatten(first)| > 0
  {
    var f := Flatten(cut);
    MedianBounds(np, f);
    var med := Median(np, f).v;
    var first := ReplaceAbove(cut, med + 5.0 * Std(np, f), med);
    SameSizeSameFlatLength(cut, first);
    first
  }

  /** The new median plus 3 std, the standard deviation not recomputed; it
      lies at or above the minimum after the outlier step. */
  function Ceiling(cut: Grid, np: NumPy): (hi: real)
    requires Sound(np) && Size(cut) > 0
    ensures Min(Flatten(Outliers(cut, np))) <= hi
  {
    var first := Outliers(cut, np);
    MedianBounds(np, Flatten(first));
    MedianBounds(np, Flatten(cut));
    Median(np, Flatten(first)).v + 3.0 * Std(np, Flatten(cut))
  }

  /** Outliers above median + 5 std become the median; then `lo` is the
      minimum, `hi` the new median + 3 std (std not recomputed), and every
      pixel above `hi` becomes `hi`. */
  function ClampWindow(cut: Grid, np: NumPy): (c: Clamp)
    requires Sound(np) && Size(cut) > 0
    ensures |c.window| == |cut|
    ensures forall i :: 0 <= i < |cut| ==> |c.window[i]| == |cut[i]|
    ensures c.lo <= c.hi
    ensures forall i, j :: 0 <= i < |cut| && 0 <= j < |cut[i]| ==> c.lo <= c.window[i][j] <= c.hi
    ensures exists i, j :: 0 <= i < |cut| && 0 <= j < |cut[i]| && c.window[i][j] == c.lo
  {
    var first := Outliers(cut, np);
    var lo := Min(Flatten(first));
    var hi := Ceiling(cut, np);
    ClampFacts(first, lo, hi);
    Clamp(ReplaceAbove(first, hi, hi), lo, hi)
  }

  /** Clamping at `hi` above the minimum `lo` keeps every pixel in [lo, hi]
      and keeps the pixel that held the minimum. */
  lemma ClampFacts(g: Grid, lo: real, hi: real)
    requires |Flatten(g)| > 0 && lo == Min(Flatten(g)) && lo <= hi
    ensures forall i, j :: 0 <= i < |g| && 0 <= j < |g[i]| ==> lo <= ReplaceAbove(g, hi, hi)[i][j] <= hi
    ensures exists i, j :: 0 <= i < |g| && 0 <= j < |g[i]| && ReplaceAbove(g, hi, hi)[i][j] == lo
  {
    FlattenMembers(g);
    var k :| 0 <= k < |Flatten(g)| && Flatten(g)[k] == lo;
    assert lo in Flatten(g);
    var i0, j0 :| 0 <= i0 < |g| && 0 <= j0 < |g[i0]| && g[i0][j0] == lo;
    assert ReplaceAbove(g, hi, hi)[i0][j0] == lo;
  }

  /** Grids with the same row lengths flatten to sequences of the same length. */
  lemma {:induction false} SameSizeSameFlatLength(a: Grid, b: Grid)
    requires |a| == |b| && forall i :: 0 <= i < |a| ==> |a[i]| == |b[i]|
    ensures |Flatten(a)| == |Flatten(b)|
    decreases |a|
  {
    if |a| > 0 {
      SameSizeSameFlatLength(a[1..], b[1..]);
    }
  }

  /** `(x - lo) / (0.5 * (hi - lo)) - 1`; with `hi == lo` every pixel becomes
      0/0, NaN, and there is no usable grid. */
  function Rescale(c: Clamp): (r: Option<Grid>)
    ensures r.Some? <==> c.lo != c.hi
    ensures r.Some? ==> |r.value| == |c.window|
  {
    if c.hi == c.lo then None else Some(Affine(c.window, c.lo, 0.5 * (c.hi - c.lo), -1.0))
  }

  // ---------------------------------------------------------------------------
  // Correlation peak and coordinates

  /** A cell of the correlation surface, as `np.unravel_index` returns it. */
  datatype Peak = Peak(row: nat, col: nat)

  /** `np.unravel_index(np.argmax(cor), cor.shape)`: the first largest cell in
      row-major order. */
  function PeakOf(cor: Grid): (p: Peak)
    requires IsMatrix(cor) && Size(cor) > 0
    ensures p.row < |cor| && p.col < Width(cor)
    ensures forall r, c :: 0 <= r < |cor| && 0 <= c < Width(cor) ==> cor[r][c] <= cor[p.row][p.col]
    ensures forall r, c :: 0 <= r < |cor| && 0 <= c < Width(cor) && (r < p.row || (r == p.row && c < p.col)) ==>
              cor[r][c] < cor[p.row][p.col]
  {
    SizeOfMatrix(cor);
    var w := Width(cor);
    var k := ArgMax(Flatten(cor));
    Unravel(k, w, |cor|);
    var p := Peak(k / w, k % w);
    RowMajor(cor, p.row, p.col);
    forall r, c | 0 <= r < |cor| && 0 <= c < w
      ensures cor[r][c] <= cor[p.row][p.col]
      ensures (r < p.row || (r == p.row && c < p.col)) ==> cor[r][c] < cor[p.row][p.col]
    {
      RowMajor(cor, r, c);
      if r < p.row {
        RowMajorBefore(w, r, c, p.row, p.col);
      }
    }
    p
  }

  lemma Unravel(k: nat, w: nat, h: nat)
    requires w > 0 && k < h * w
    ensures k / w < h && k % w < w && (k / w) * w + k % w == k
  {
  }

  lemma RowMajor(g: Grid, r: nat, c: nat)
    requires IsMatrix(g) && r < |g| && c < Width(g)
    ensures r * Width(g) + c < |Flatten(g)|
    ensures Flatten(g)[r * Width(g) + c] == g[r][c]
  {
    FlattenAt(g, r, c);
  }

  lemma RowMajorBefore(w: nat, r: nat, c: nat, r2: nat, c2: nat)
    requires r < r2 && c < w
    ensures r * w + c < r2 * w + c2
  {
    assert (r + 1) * w <= r2 * w;
  }

  /** `cor[py - 18 : py + 18, px - 18 : px + 18]`. */
  function RefineWindow(cor: Grid, p: Peak): Grid {
    Crop(cor, p.row - RefineHalf, p.row + RefineHalf, p.col - RefineHalf, p.col + RefineHalf)
  }

  /** The correlation surface of the rescaled cutout with the pinhole template. */
  function Correlation(scaled: Grid, np: NumPy): (cor: Grid)
    requires Sound(np) && IsMatrix(scaled) && Size(scaled) > 0
    ensures SameShape(cor, scaled) && Size(cor) > 0
  {
    var cor := Correlate(np, scaled, CurrentTemplate());
    CorrelateKeepsShape(np, scaled, CurrentTemplate());
    SizeOfMatrix(scaled);
    SizeOfMatrix(cor);
    cor
  }

  /** The refined peak in image pixels (x, y): the window centroid shifted by
      the window origin plus one, then by the cutout origin plus one. */
  function Position(scaled: Grid, h: Header, np: NumPy): (pos: (Float, Float))
    requires Sound(np) && IsMatrix(scaled) && Size(scaled) > 0
  {
    var cor := Correlation(scaled, np);
    var p := PeakOf(cor);
    var centre := CenterOfMass(np, RefineWindow(cor, p));
    var xo := Plus(centre.1, (p.col - RefineHalf + 1) as real);
    var yo := Plus(centre.0, (p.row - RefineHalf + 1) as real);
    (Plus(xo, (Trunc(h.crpix1) - ExtractFrameSize + 1) as real),
     Plus(yo, (Trunc(h.crpix2) - ExtractFrameSize + 1) as real))
  }

  /** Both shifts together: x is the centroid column plus the peak column plus
      the truncated CRPIX1 less 76, and y likewise with rows and CRPIX2; a NaN
      centroid coordinate stays NaN. */
  lemma PositionClosedForm(scaled: Grid, h: Header, np: NumPy)
    requires Sound(np) && IsMatrix(scaled) && Size(scaled) > 0
    ensures var cor := Correlation(scaled, np);
      var p := PeakOf(cor);
      var centre := CenterOfMass(np, RefineWindow(cor, p));
      var pos := Position(scaled, h, np);
      (pos.0.Finite? <==> centre.1.Finite?) && (pos.1.Finite? <==> centre.0.Finite?) &&
      (pos.0.Finite? ==> pos.0.v == centre.1.v + (p.col + Trunc(h.crpix1) - 76) as real) &&
      (pos.1.Finite? ==> pos.1.v == centre.0.v + (p.row + Trunc(h.crpix2) - 76) as real)
  {
  }

  /** A correlation peak closer than 18 cells to the top or left edge of a
      surface at least 36 cells across: the negative slice start counts from
      the far edge, the refinement window is empty, and no coordinate is found. */
  lemma NearEdgePeakHasNoCentre(scaled: Grid, h: Header, np: NumPy)
    requires Sound(np) && IsMatrix(scaled) && Size(scaled) > 0
    requires var p := PeakOf(Correlation(scaled, np));
      (p.row < RefineHalf && |scaled| >= 2 * RefineHalf) || (p.col < RefineHalf && Width(scaled) >= 2 * RefineHalf)
    ensures Position(scaled, h, np) == (NonFinite, NonFinite)
  {
    var cor := Correlation(scaled, np);
    var p := PeakOf(cor);
    EdgeWindowEmpty(cor, p);
    CentroidOfEmpty(np, RefineWindow(cor, p));
    PositionClosedForm(scaled, h, np);
  }

  lemma EdgeWindowEmpty(cor: Grid, p: Peak)
    requires IsMatrix(cor)
    requires (p.row < RefineHalf && |cor| >= 2 * RefineHalf) || (p.col < RefineHalf && Width(cor) >= 2 * RefineHalf)
    ensures Size(RefineWindow(cor, p)) == 0
  {
    var r0, r1, c0, c1 := p.row - RefineHalf, p.row + RefineHalf, p.col - RefineHalf, p.col + RefineHalf;
    var w := RefineWindow(cor, p);
    CropMatrix(cor, r0, r1, c0, c1);
    SizeOfMatrix(w);
    if p.row < RefineHalf && |cor| >= 2 * RefineHalf {
      assert |w| == 0;
    } else {
      assert |w| > 0 ==> Width(w) == 0;
    }
  }

  /** The pinhole position found in a non-empty cutout. */
  function Locate(cut: Grid, h: Header, np: NumPy): (pos: (Float, Float))
    requires Sound(np) && IsMatrix(cut) && Size(cut) > 0
  {
    var c := ClampWindow(cut, np);
    if c.lo == c.hi then (NonFinite, NonFinite)
    else
      ScaledShape(cut, c);
      Position(Affine(c.window, c.lo, 0.5 * (c.hi - c.lo), -1.0), h, np)
  }

  /** Rescaling a window of the cutout's shape gives a non-empty matrix. */
  lemma ScaledShape(cut: Grid, c: Clamp)
    requires IsMatrix(cut) && Size(cut) > 0 && c.lo != c.hi
    requires |c.window| == |cut| && forall i :: 0 <= i < |cut| ==> |c.window[i]| == |cut[i]|
    ensures IsMatrix(Affine(c.window, c.lo, 0.5 * (c.hi - c.lo), -1.0))
    ensures Size(Affine(c.window, c.lo, 0.5 * (c.hi - c.lo), -1.0)) > 0
  {
    SizeOfMatrix(cut);
    var scaled := Affine(c.window, c.lo, 0.5 * (c.hi - c.lo), -1.0);
    AffineMatrix(c.window, c.lo, 0.5 * (c.hi - c.lo), -1.0, |cut[0]|);
    SizeOfMatrix(scaled);
  }

  lemma AffineMatrix(g: Grid, shift: real, scale: real, offset: real, w: nat)
    requires scale != 0.0 && forall i :: 0 <= i < |g| ==> |g[i]| == w
    ensures IsMatrix(Affine(g, shift, scale, offset))
    ensures |g| > 0 ==> Width(Affine(g, shift, scale, offset)) == w
  {
  }

  // ---------------------------------------------------------------------------
  // The record and the whole call

  /** `v if math.isfinite(v) else None`. */
  function NullIfNonFinite(f: Float): (o: Option<real>)
    ensures o.Some? <==> f.Finite?
    ensures o.Some? ==> o.value == f.v
  {
    if f.Finite? then Some(f.v) else None
  }

  /** The record `findPinhole` builds for a frame. */
  function BuildRecord(imagename: string, h: Header, pos: (Float, Float)): Measurement {
    Measurement(imagename, h.instrument, h.altitude, h.azimuth,
                NullIfNonFinite(pos.0), NullIfNonFinite(pos.1), h.dateObs, h.focTemp,
                h.siteId + "-" + h.encId + "-" + h.telId, Trunc(h.crpix1), Trunc(h.crpix2))
  }

  /** `findPinhole(imagename, ...)` on a frame with header `h` and pixels
      `data`, the record built against the mapped columns `schema`. */
  function FindPinholeSpec(imagename: string, h: Header, data: Grid, integerPixels: bool, np: NumPy,
                           schema: set<string>): (o: Outcome)
    requires Sound(np) && IsMatrix(data)
  {
    if PointingUnknown(h) then Returned(None)
    else
      var patched := PatchHotPixels(data, h.instrument, integerPixels);
      if patched.failed then Raised
      else
        PatchedIsMatrix(data, h.instrument, integerPixels);
        Measure(imagename, h, patched.image, np, schema)
  }

  /** The steps after the patch, on the patched image: the cutout, the
      contamination guard, the location and the record. */
  function Measure(imagename: string, h: Header, image: Grid, np: NumPy, schema: set<string>): (o: Outcome)
    requires Sound(np) && IsMatrix(image)
  {
    var cut := Cutout(image, h);
    if Contaminated(cut, Background(image, np)) then Returned(None)
    else if Size(cut) == 0 then Raised
    else if Construct(schema, SuppliedKeywords).TypeError? then Raised
    else
      CutoutIsMatrix(image, h);
      Returned(Some(BuildRecord(imagename, h, Locate(cut, h, np))))
  }

  lemma CutoutIsMatrix(g: Grid, h: Header)
    requires IsMatrix(g)
    ensures IsMatrix(Cutout(g, h))
  {
    var r, c := Trunc(h.crpix2), Trunc(h.crpix1);
    CropMatrix(g, r - ExtractFrameSize, r + (ExtractFrameSize - 1), c - ExtractFrameSize, c + (ExtractFrameSize - 1));
  }

  lemma PatchedIsMatrix(g: Grid, instrument: string, integerPixels: bool)
    requires IsMatrix(g)
    ensures IsMatrix(PatchHotPixels(g, instrument, integerPixels).image)
    ensures |PatchHotPixels(g, instrument, integerPixels).image| == |g|
    ensures Width(PatchHotPixels(g, instrument, integerPixels).image) == Width(g)
  {
    PatchAtEffect(g, Ak05Row, Ak05Col, integerPixels);
    PatchAtEffect(g, Ak16Row, Ak16Col, integerPixels);
    var first := if Contains(instrument, "ak05") then PatchAt(g, Ak05Row, Ak05Col, integerPixels) else Patching(g, false);
    PatchAtEffect(first.image, Ak16Row, Ak16Col, integerPixels);
  }

  // ---------------------------------------------------------------------------
  // Properties of the whole call

  /** The call returns None exactly when the pointing is unknown or, the patch
      having gone through, the cutout is lit by a star. */
  lemma NoRecordIff(imagename: string, h: Header, data: Grid, integerPixels: bool, np: NumPy, schema: set<string>)
    requires Sound(np) && IsMatrix(data)
    ensures var patched := PatchHotPixels(data, h.instrument, integerPixels);
      FindPinholeSpec(imagename, h, data, integerPixels, np, schema) == Returned(None) <==>
        PointingUnknown(h) ||
        (!patched.failed && Contaminated(Cutout(patched.image, h), Background(patched.image, np)))
  {
  }

  /** The call raises exactly when, the pointing being known, a hot-pixel
      index is off the image, or the guard lets through an empty cutout, or the
      mapped class refuses a keyword. */
  lemma RaisedIff(imagename: string, h: Header, data: Grid, integerPixels: bool, np: NumPy, schema: set<string>)
    requires Sound(np) && IsMatrix(data)
    ensures var patched := PatchHotPixels(data, h.instrument, integerPixels);
      var cut := Cutout(patched.image, h);
      FindPinholeSpec(imagename, h, data, integerPixels, np, schema) == Raised <==>
        !PointingUnknown(h) &&
        (patched.failed ||
         (!Contaminated(cut, Background(patched.image, np)) &&
          (Size(cut) == 0 || Construct(schema, SuppliedKeywords).TypeError?)))
  {
  }

  /** A record is returned exactly when no earlier exit is taken. */
  lemma RecordWhen(imagename: string, h: Header, data: Grid, integerPixels: bool, np: NumPy, schema: set<string>)
    requires Sound(np) && IsMatrix(data)
    ensures var patched := PatchHotPixels(data, h.instrument, integerPixels);
      var cut := Cutout(patched.image, h);
      var o := FindPinholeSpec(imagename, h, data, integerPixels, np, schema);
      o.Returned? && o.record.Some? <==>
        !PointingUnknown(h) && !patched.failed && !Contaminated(cut, Background(patched.image, np)) &&
        Size(cut) > 0 && Construct(schema, SuppliedKeywords).Built?
  {
    NoRecordIff(imagename, h, data, integerPixels, np, schema);
    RaisedIff(imagename, h, data, integerPixels, np, schema);
  }

  /** A returned record is filed under the image name and carries the header's
      pointing, identifiers and the reference pixel truncated by `int()`. */
  lemma RecordFields(imagename: string, h: Header, data: Grid, integerPixels: bool, np: NumPy, schema: set<string>,
                     m: Measurement)
    requires Sound(np) && IsMatrix(data)
    requires FindPinholeSpec(imagename, h, data, integerPixels, np, schema) == Returned(Some(m))
    ensures m.imagename == imagename && m.instrument == h.instrument
    ensures m.altitude == h.altitude && m.azimut == h.azimuth
    ensures m.dateobs == h.dateObs && m.foctemp == h.focTemp
    ensures m.telescopeidentifier == h.siteId + "-" + h.encId + "-" + h.telId
    ensures m.crpix1 == Trunc(h.crpix1) && m.crpix2 == Trunc(h.crpix2)
  {
    var patched := PatchHotPixels(data, h.instrument, integerPixels);
    var cut := Cutout(patched.image, h);
    PatchedIsMatrix(data, h.instrument, integerPixels);
    CutoutIsMatrix(patched.image, h);
    assert m == BuildRecord(imagename, h, Locate(cut, h, np));
  }

  /** The two hot pixels lie on different rows and neither patch reads the
      other's pixel, so applying them in either order gives the same image. */
  lemma PatchesCommute(g: Grid, integerPixels: bool)
    requires PatchFits(g, Ak05Row, Ak05Col) && PatchFits(g, Ak16Row, Ak16Col)
    ensures var a := PatchAt(g, Ak05Row, Ak05Col, integerPixels).image;
      var b := PatchAt(g, Ak16Row, Ak16Col, integerPixels).image;
      PatchAt(a, Ak16Row, Ak16Col, integerPixels) == PatchAt(b, Ak05Row, Ak05Col, integerPixels)
  {
  }

  /** The patch step as a whole: it fails exactly when a camera named in the
      instrument has its hot pixel off the image, and when it succeeds every
      pixel other than the named cameras' hot pixels is left as it was. */
  lemma PatchHotPixelsEffect(g: Grid, instrument: string, integerPixels: bool)
    ensures var p := PatchHotPixels(g, instrument, integerPixels);
      var ak05, ak16 := Contains(instrument, "ak05"), Contains(instrument, "ak16");
      (p.failed <==> (ak05 && !PatchFits(g, Ak05Row, Ak05Col)) || (ak16 && !PatchFits(g, Ak16Row, Ak16Col))) &&
      (!p.failed ==>
        |p.image| == |g| &&
        forall i, j | 0 <= i < |g| && 0 <= j < |g[i]| ::
          (!(ak05 && i == Ak05Row && j == Ak05Col) && !(ak16 && i == Ak16Row && j == Ak16Col)) ==>
            |p.image[i]| == |g[i]| && p.image[i][j] == g[i][j])
  {
    PatchAtEffect(g, Ak05Row, Ak05Col, integerPixels);
    var first := if Contains(instrument, "ak05") then PatchAt(g, Ak05Row, Ak05Col, integerPixels) else Patching(g, false);
    PatchAtEffect(first.image, Ak16Row, Ak16Col, integerPixels);
    assert PatchFits(first.image, Ak16Row, Ak16Col) <==> PatchFits(g, Ak16Row, Ak16Col);
  }

  /** An instrument naming neither camera leaves the image untouched. */
  lemma NoCameraNoPatch(g: Grid, instrument: string, integerPixels: bool)
    requires !Contains(instrument, "ak05") && !Contains(instrument, "ak16")
    ensures PatchHotPixels(g, instrument, integerPixels) == Patching(g, false)
  {
  }

  // ---------------------------------------------------------------------------
  // Cutout, rescale and the schema

  /** With the reference pixel at least 60 pixels from the top and left edges
      and 59 from the bottom and right ones, the cutout is the 119 x 119 block
      starting 60 pixels above and left of it. */
  lemma CutoutInBounds(g: Grid, h: Header)
    requires IsMatrix(g)
    requires var r, c := Trunc(h.crpix2), Trunc(h.crpix1);
      ExtractFrameSize <= r && r + (ExtractFrameSize - 1) <= |g| &&
      ExtractFrameSize <= c && c + (ExtractFrameSize - 1) <= Width(g)
    ensures var r, c := Trunc(h.crpix2), Trunc(h.crpix1);
      var cut := Cutout(g, h);
      |cut| == 2 * ExtractFrameSize - 1 &&
      forall i, j :: 0 <= i < 2 * ExtractFrameSize - 1 && 0 <= j < 2 * ExtractFrameSize - 1 ==>
        |cut[i]| == 2 * ExtractFrameSize - 1 && cut[i][j] == g[r - ExtractFrameSize + i][c - ExtractFrameSize + j]
  {
    var r, c := Trunc(h.crpix2), Trunc(h.crpix1);
    var r0, r1, c0, c1 := r - ExtractFrameSize, r + (ExtractFrameSize - 1), c - ExtractFrameSize, c + (ExtractFrameSize - 1);
    var cut := Crop(g, r0, r1, c0, c1);
    assert Cutout(g, h) == cut;
    CropBlock(g, r0, r1, c0, c1);
  }

  /** A reference pixel in the first 60 rows of an image at least 119 rows
      tall: the negative start counts from the bottom edge, past the stop, so
      the cutout has no pixels. */
  lemma CutoutEmptyNearTopEdge(g: Grid, h: Header)
    requires 0 <= Trunc(h.crpix2) < ExtractFrameSize && |g| >= 2 * ExtractFrameSize - 1
    ensures Cutout(g, h) == []
  {
  }

  /** Such a frame is not rejected as lit by a star (the mean of nothing is
      NaN) and the minimum of the empty cutout raises. */
  lemma NearTopEdgeRaises(imagename: string, h: Header, data: Grid, integerPixels: bool, np: NumPy,
                          schema: set<string>)
    requires Sound(np) && IsMatrix(data)
    requires !PointingUnknown(h) && !PatchHotPixels(data, h.instrument, integerPixels).failed
    requires 0 <= Trunc(h.crpix2) < ExtractFrameSize && |data| >= 2 * ExtractFrameSize - 1
    ensures FindPinholeSpec(imagename, h, data, integerPixels, np, schema) == Raised
  {
    var patched := PatchHotPixels(data, h.instrument, integerPixels);
    PatchHotPixelsEffect(data, h.instrument, integerPixels);
    CutoutEmptyNearTopEdge(patched.image, h);
    RaisedIff(imagename, h, data, integerPixels, np, schema);
  }

  /** Each pixel of the rescaled window: [lo, hi] maps onto [-1, 1], lo to -1
      and hi to +1. */
  lemma RescalePixel(x: real, lo: real, hi: real)
    requires lo <= x <= hi && lo < hi
    ensures -1.0 <= (x - lo) / (0.5 * (hi - lo)) + -1.0 <= 1.0
    ensures x == lo ==> (x - lo) / (0.5 * (hi - lo)) + -1.0 == -1.0
    ensures x == hi ==> (x - lo) / (0.5 * (hi - lo)) + -1.0 == 1.0
  {
    var d := 0.5 * (hi - lo);
    var q := (x - lo) / d;
    assert q * d == x - lo;
    assert 0.0 <= q <= 2.0;
    if x == hi {
      assert x - lo == 2.0 * d;
      assert q == 2.0;
    }
  }

  /** The rescaled cutout lies in [-1, 1], reaches -1 at the pixel that held
      the minimum, and is +1 wherever the clamp ceiling was reached. */
  lemma RescaleWithinUnit(cut: Grid, np: NumPy)
    requires Sound(np) && Size(cut) > 0
    requires var c := ClampWindow(cut, np); c.lo != c.hi
    ensures var scaled := Rescale(ClampWindow(cut, np)).value;
      |scaled| == |cut| &&
      (forall i, j :: 0 <= i < |cut| && 0 <= j < |cut[i]| ==> |scaled[i]| == |cut[i]| && -1.0 <= scaled[i][j] <= 1.0) &&
      (exists i, j :: 0 <= i < |cut| && 0 <= j < |cut[i]| && scaled[i][j] == -1.0) &&
      (forall i, j :: 0 <= i < |cut| && 0 <= j < |cut[i]| && ClampWindow(cut, np).window[i][j] == ClampWindow(cut, np).hi ==>
        scaled[i][j] == 1.0)
  {
    RescaleRange(ClampWindow(cut, np), cut);
  }

  lemma RescaleRange(c: Clamp, cut: Grid)
    requires c.lo < c.hi && |c.window| == |cut|
    requires forall i :: 0 <= i < |cut| ==> |c.window[i]| == |cut[i]|
    requires forall i, j :: 0 <= i < |cut| && 0 <= j < |cut[i]| ==> c.lo <= c.window[i][j] <= c.hi
    requires exists i, j :: 0 <= i < |cut| && 0 <= j < |cut[i]| && c.window[i][j] == c.lo
    ensures var scaled := Rescale(c).value;
      |scaled| == |cut| &&
      (forall i, j :: 0 <= i < |cut| && 0 <= j < |cut[i]| ==> |scaled[i]| == |cut[i]| && -1.0 <= scaled[i][j] <= 1.0) &&
      (exists i, j :: 0 <= i < |cut| && 0 <= j < |cut[i]| && scaled[i][j] == -1.0) &&
      (forall i, j :: 0 <= i < |cut| && 0 <= j < |cut[i]| && c.window[i][j] == c.hi ==> scaled[i][j] == 1.0)
  {
    var scaled := Rescale(c).value;
    forall i, j | 0 <= i < |cut| && 0 <= j < |cut[i]|
      ensures |scaled[i]| == |cut[i]| && -1.0 <= scaled[i][j] <= 1.0
      ensures c.window[i][j] == c.hi ==> scaled[i][j] == 1.0
    {
      RescalePixel(c.window[i][j], c.lo, c.hi);
    }
    var i, j :| 0 <= i < |cut| && 0 <= j < |cut[i]| && c.window[i][j] == c.lo;
    RescalePixel(c.window[i][j], c.lo, c.hi);
    assert scaled[i][j] == -1.0;
  }

  /** The record's centre is the located position, each coordinate kept only
      when it is finite. */
  lemma RecordCentres(imagename: string, h: Header, data: Grid, integerPixels: bool, np: NumPy,
                      schema: set<string>, m: Measurement)
    requires Sound(np) && IsMatrix(data)
    requires FindPinholeSpec(imagename, h, data, integerPixels, np, schema) == Returned(Some(m))
    ensures var cut := Cutout(PatchHotPixels(data, h.instrument, integerPixels).image, h);
      IsMatrix(cut) && Size(cut) > 0 &&
      var pos := Locate(cut, h, np);
      (m.xcenter.Some? <==> pos.0.Finite?) && (m.xcenter.Some? ==> m.xcenter.value == pos.0.v) &&
      (m.ycenter.Some? <==> pos.1.Finite?) && (m.ycenter.Some? ==> m.ycenter.value == pos.1.v)
  {
    var patched := PatchHotPixels(data, h.instrument, integerPixels);
    var cut := Cutout(patched.image, h);
    PatchedIsMatrix(data, h.instrument, integerPixels);
    CutoutIsMatrix(patched.image, h);
    assert m == BuildRecord(imagename, h, Locate(cut, h, np));
  }

  /** A cutout whose clamp range collapses (every clamped pixel equal) divides
      zero by zero: both coordinates are NaN, and a record stores neither. */
  lemma FlatCutoutHasNoCentre(imagename: string, h: Header, data: Grid, integerPixels: bool, np: NumPy,
                              schema: set<string>, m: Measurement)
    requires Sound(np) && IsMatrix(data)
    requires FindPinholeSpec(imagename, h, data, integerPixels, np, schema) == Returned(Some(m))
    requires var cut := Cutout(PatchHotPixels(data, h.instrument, integerPixels).image, h);
      Size(cut) > 0 && ClampWindow(cut, np).lo == ClampWindow(cut, np).hi
    ensures m.xcenter == None && m.ycenter == None
  {
    RecordCentres(imagename, h, data, integerPixels, np, schema, m);
  }

  /** As declared, the mapped class refuses the `telescopeidentifier` keyword,
      so no call ever returns a record. */
  lemma AsWrittenNeverRecords(imagename: string, h: Header, data: Grid, integerPixels: bool, np: NumPy)
    requires Sound(np) && IsMatrix(data)
    ensures var o := FindPinholeSpec(imagename, h, data, integerPixels, np, DeclaredColumns);
      !(o.Returned? && o.record.Some?)
  {
    DeclaredSchemaRejectsRecord();
    RecordWhen(imagename, h, data, integerPixels, np, DeclaredColumns);
  }

  /** With the three extra columns mapped, a record is returned exactly when
      the frame passes the pointing, patch, contamination and cutout checks. */
  lemma ExtendedSchemaRecords(imagename: string, h: Header, data: Grid, integerPixels: bool, np: NumPy)
    requires Sound(np) && IsMatrix(data)
    ensures var patched := PatchHotPixels(data, h.instrument, integerPixels);
      var cut := Cutout(patched.image, h);
      var o := FindPinholeSpec(imagename, h, data, integerPixels, np, ExtendedColumns);
      o.Returned? && o.record.Some? <==>
        !PointingUnknown(h) && !patched.failed && !Contaminated(cut, Background(patched.image, np)) && Size(cut) > 0
  {
    ExtendedSchemaAcceptsRecord();
    RecordWhen(imagename, h, data, integerPixels, np, ExtendedColumns);
  }
}
