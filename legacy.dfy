/**
 * The older pinhole search under `src/`: the same correlation with a
 * radius-7.5 template, but a fixed cutout, a median-based star guard with a
 * margin of 200, a min/median normalisation, a ±15 refinement window whose
 * centroid axes are paired crosswise, and a batch that returns columns in
 * listing order with the azimuths wrapped into (-180, 180].
 */
module LegacySearch {
  import opened Common
  import opened Numerics
  import opened PinholeTemplate
  import opened PinholeDb
  import opened PinholeSearch

  /** How far the cutout median may rise above the image background. */
  const LegacyMargin: real := 200.0
  /** Half the side of the refinement window around the correlation peak. */
  const LegacyHalf: int := 15

  /** The header keywords the older search reads. */
  datatype LegacyHeader = LegacyHeader(azimuth: HeaderValue, altitude: HeaderValue, dateObs: string)

  /** The tuple `(imagename, alt, az, x, y, do)` the older `findPinhole`
      returns; the observation date is a header value so that the rejection
      tuple can hold its 0 there. */
  datatype LegacyRow = LegacyRow(imagename: string, alt: HeaderValue, az: HeaderValue, x: Float, y: Float,
                                 dateObs: HeaderValue)

  /** A call returns a row or raises. */
  datatype LegacyOutcome = Done(row: LegacyRow) | Failed

  /** The row returned for a frame lit by a star: the name and five zeros. */
  function RejectedRow(imagename: string): LegacyRow {
    LegacyRow(imagename, Num(0.0), Num(0.0), Finite(0.0), Finite(0.0), Num(0.0))
  }

  /** `data[520:640, 620:740]`, whatever the header says. */
  function LegacyCutout(g: Grid): (cut: Grid)
    requires IsMatrix(g)
    ensures IsMatrix(cut)
  {
    CropMatrix(g, 520, 640, 620, 740);
    Crop(g, 520, 640, 620, 740)
  }

  /** `np.median(cutout) > background + 200`; NaN on either side compares false. */
  predicate StarLit(centre: Float, background: Float) {
    centre.Finite? && background.Finite? && centre.v > background.v + LegacyMargin
  }

  /** Subtract the minimum, divide by the median of the result, subtract the
      mean. With a zero median the division gives NaN and infinities
      throughout, so there is no normalised grid. */
  function Normalise(cut: Grid, np: NumPy): (r: Option<Grid>)
    requires Sound(np) && IsMatrix(cut) && Size(cut) > 0
    ensures r.None? <==> Median(np, Flatten(Offset(cut, Min(Flatten(cut))))) == Finite(0.0)
    ensures r.Some? ==> SameShape(r.value, cut) && Size(r.value) > 0 && Sum(Flatten(r.value)) == 0.0
  {
    SizeOfMatrix(cut);
    var lo := Min(Flatten(cut));
    var shifted := Offset(cut, lo);
    OffsetShape(cut, lo);
    MedianBounds(np, Flatten(shifted));
    var m := Median(np, Flatten(shifted));
    if m.v == 0.0 then None
    else
      var scaled := Affine(cut, lo, m.v, 0.0);
      AffineMatrix(cut, lo, m.v, 0.0, Width(cut));
      SizeOfMatrix(scaled);
      var centred := Offset(scaled, Mean(Flatten(scaled)).v);
      CentredGridSumsToZero(scaled);
      OffsetShape(scaled, Mean(Flatten(scaled)).v);
      Some(centred)
  }

  lemma OffsetShape(g: Grid, c: real)
    requires IsMatrix(g) && Size(g) > 0
    ensures SameShape(Offset(g, c), g) && Size(Offset(g, c)) > 0 && |Flatten(Offset(g, c))| > 0
  {
    SizeOfMatrix(g);
    SizeOfMatrix(Offset(g, c));
    FlattenNonEmpty(Offset(g, c));
  }

  /** `cor[y-15:y+15, x-15:x+15]` around the peak. */
  function LegacyWindow(cor: Grid, p: Peak): Grid {
    Crop(cor, p.row - LegacyHalf, p.row + LegacyHalf, p.col - LegacyHalf, p.col + LegacyHalf)
  }

  /** The refined peak: the window centroid plus the peak, less 15, with the
      centroid's first (row) coordinate added to the peak column and its
      second to the peak row, as the code pairs them. */
  function LegacyPosition(norm: Grid, np: NumPy): (pos: (Float, Float))
    requires Sound(np) && IsMatrix(norm) && Size(norm) > 0
  {
    var cor := LegacyCorrelation(norm, np);
    var p := PeakOf(cor);
    var centre := CenterOfMass(np, LegacyWindow(cor, p));
    (Plus(centre.0, (p.col - LegacyHalf) as real), Plus(centre.1, (p.row - LegacyHalf) as real))
  }

  /** The correlation surface of the normalised cutout with the legacy template. */
  function LegacyCorrelation(norm: Grid, np: NumPy): (cor: Grid)
    requires Sound(np) && IsMatrix(norm) && Size(norm) > 0
    ensures SameShape(cor, norm) && Size(cor) > 0
  {
    var cor := Correlate(np, norm, LegacyTemplate());
    CorrelateKeepsShape(np, norm, LegacyTemplate());
    SizeOfMatrix(norm);
    SizeOfMatrix(cor);
    cor
  }

  /** The older `findPinhole(imagename)` on a frame with header `h` and
      pixels `data`. */
  function LegacyFindPinholeSpec(imagename: string, h: LegacyHeader, data: Grid, np: NumPy): LegacyOutcome
    requires Sound(np) && IsMatrix(data)
  {
    var cut := LegacyCutout(data);
    if StarLit(Median(np, Flatten(cut)), Background(data, np)) then Done(RejectedRow(imagename))
    else if Size(cut) == 0 then Failed
    else
      var pos := LegacyLocate(cut, np);
      Done(LegacyRow(imagename, h.altitude, h.azimuth, pos.0, pos.1, Text(h.dateObs)))
  }

  /** The position found in a non-empty cutout: none when the normalisation
      divides by a zero median. */
  function LegacyLocate(cut: Grid, np: NumPy): (Float, Float)
    requires Sound(np) && IsMatrix(cut) && Size(cut) > 0
  {
    var norm := Normalise(cut, np);
    if norm.None? then (NonFinite, NonFinite) else LegacyPosition(norm.value, np)
  }

  // ---------------------------------------------------------------------------
  // Properties of the older call

  /** On a frame at least 640 rows by 740 columns the cutout is the 120 x 120
      block at row 520, column 620; no header value enters it. */
  lemma LegacyCutoutFixed(g: Grid)
    requires IsMatrix(g) && |g| >= 640 && Width(g) >= 740
    ensures var cut := LegacyCutout(g);
      |cut| == 120 &&
      forall i, j :: 0 <= i < 120 && 0 <= j < 120 ==> |cut[i]| == 120 && cut[i][j] == g[520 + i][620 + j]
  {
    CropBlock(g, 520, 640, 620, 740);
  }

  /** The call returns the rejection tuple exactly when the cutout median
      exceeds the background by more than 200. */
  lemma LegacyRejectIff(imagename: string, h: LegacyHeader, data: Grid, np: NumPy)
    requires Sound(np) && IsMatrix(data)
    ensures var cut := LegacyCutout(data);
      LegacyFindPinholeSpec(imagename, h, data, np) == Done(RejectedRow(imagename)) <==>
        StarLit(Median(np, Flatten(cut)), Background(data, np))
  {
  }

  /** The call raises exactly when the guard passes an empty cutout, whose
      minimum numpy refuses. */
  lemma LegacyRaisesIff(imagename: string, h: LegacyHeader, data: Grid, np: NumPy)
    requires Sound(np) && IsMatrix(data)
    ensures var cut := LegacyCutout(data);
      LegacyFindPinholeSpec(imagename, h, data, np) == Failed <==>
        !StarLit(Median(np, Flatten(cut)), Background(data, np)) && Size(cut) == 0
  {
  }

  /** A measured row carries the image name, the header's pointing and date,
      and the located position. */
  lemma LegacyRowFields(imagename: string, h: LegacyHeader, data: Grid, np: NumPy)
    requires Sound(np) && IsMatrix(data)
    requires var cut := LegacyCutout(data);
      !StarLit(Median(np, Flatten(cut)), Background(data, np)) && Size(cut) > 0
    ensures var cut := LegacyCutout(data);
      var pos := LegacyLocate(cut, np);
      LegacyFindPinholeSpec(imagename, h, data, np) ==
        Done(LegacyRow(imagename, h.altitude, h.azimuth, pos.0, pos.1, Text(h.dateObs)))
  {
  }

  /** The position pairs the centroid's row coordinate with the peak column
      and its column coordinate with the peak row, each less 15. */
  lemma LegacyPositionClosedForm(norm: Grid, np: NumPy)
    requires Sound(np) && IsMatrix(norm) && Size(norm) > 0
    ensures var cor := LegacyCorrelation(norm, np);
      var p := PeakOf(cor);
      var centre := CenterOfMass(np, LegacyWindow(cor, p));
      var pos := LegacyPosition(norm, np);
      (pos.0.Finite? <==> centre.0.Finite?) && (pos.1.Finite? <==> centre.1.Finite?) &&
      (pos.0.Finite? ==> pos.0.v == centre.0.v + (p.col - LegacyHalf) as real) &&
      (pos.1.Finite? ==> pos.1.v == centre.1.v + (p.row - LegacyHalf) as real)
  {
  }

  /** When the shifted cutout has a zero median (at least half its pixels sit
      at the minimum), the division fills it with NaN and infinities and no
      position is found. */
  lemma ZeroMedianHasNoPosition(cut: Grid, np: NumPy)
    requires Sound(np) && IsMatrix(cut) && Size(cut) > 0
    requires Median(np, Flatten(Offset(cut, Min(Flatten(cut))))) == Finite(0.0)
    ensures LegacyLocate(cut, np) == (NonFinite, NonFinite)
  {
  }

  // ---------------------------------------------------------------------------
  // The older batch

  /** A listed image: its path and its frame. */
  datatype LegacyImage = LegacyImage(filename: string, header: LegacyHeader, data: Grid)

  ghost predicate Frames(images: seq<LegacyImage>) {
    forall i :: 0 <= i < |images| ==> IsMatrix(images[i].data)
  }

  /** The outcome of one worker of `pool.map`. */
  function LegacyWork(image: LegacyImage, np: NumPy): LegacyOutcome
    requires Sound(np) && IsMatrix(image.data)
  {
    LegacyFindPinholeSpec(image.filename, image.header, image.data, np)
  }

  /** `findPinhole` as the function handed to the pool. */
  function Worker(np: NumPy): (f: LegacyImage --> LegacyOutcome)
    requires Sound(np)
    ensures forall image: LegacyImage :: IsMatrix(image.data) ==> f.requires(image)
  {
    (image: LegacyImage) requires IsMatrix(image.data) => LegacyWork(image, np)
  }

  /** The worker applied to each element in turn, results in input order. */
  function Map<A, B>(xs: seq<A>, f: A --> B): (r: seq<B>)
    requires forall i :: 0 <= i < |xs| ==> f.requires(xs[i])
    ensures |r| == |xs|
    decreases |xs|
  {
    if |xs| == 0 then []
    else Map(xs[..|xs| - 1], f) + [f(xs[|xs| - 1])]
  }

  /** Result `k` is the worker's result on element `k`. */
  lemma {:induction false} MapAt<A, B>(xs: seq<A>, f: A --> B, k: nat)
    requires forall i :: 0 <= i < |xs| ==> f.requires(xs[i])
    requires k < |xs|
    ensures Map(xs, f)[k] == f(xs[k])
    decreases |xs|
  {
    var n := |xs| - 1;
    if k < n {
      MapAt(xs[..n], f, k);
      assert xs[..n][k] == xs[k];
    }
  }

  /** The outcomes of the workers `pool.map` runs, one per listed image. */
  function Outcomes(images: seq<LegacyImage>, np: NumPy): (r: seq<LegacyOutcome>)
    requires Sound(np) && Frames(images)
    ensures |r| == |images|
  {
    Map(images, Worker(np))
  }

  /** Outcome `k` is the worker's outcome for image `k`. */
  lemma OutcomesAt(images: seq<LegacyImage>, np: NumPy, k: nat)
    requires Sound(np) && Frames(images) && k < |images|
    ensures Outcomes(images, np)[k] == LegacyWork(images[k], np)
  {
    MapAt(images, Worker(np), k);
  }

  /** `pool.map` hands back the workers' rows in listing order, or re-raises
      the exception of a worker that raised. */
  function Gather(outcomes: seq<LegacyOutcome>): (r: Option<seq<LegacyRow>>)
    ensures r.Some? <==> forall i :: 0 <= i < |outcomes| ==> outcomes[i].Done?
    ensures r.Some? ==> |r.value| == |outcomes|
    ensures r.Some? ==> forall i :: 0 <= i < |outcomes| ==> r.value[i] == outcomes[i].row
    decreases |outcomes|
  {
    if |outcomes| == 0 then Some([])
    else
      var n := |outcomes| - 1;
      var prev := Gather(outcomes[..n]);
      if prev.None? || outcomes[n].Failed? then
        assert prev.None? ==> exists i :: 0 <= i < n && !outcomes[..n][i].Done?;
        None
      else Some(prev.value + [outcomes[n].row])
  }

  /** `pool.map(findPinhole, imagelist)`. */
  function PoolMap(images: seq<LegacyImage>, np: NumPy): Option<seq<LegacyRow>>
    requires Sound(np) && Frames(images)
  {
    Gather(Outcomes(images, np))
  }

  /** The six columns the batch returns, before the azimuth wrap. */
  datatype Columns = Columns(images: seq<string>, alts: seq<HeaderValue>, azs: seq<HeaderValue>,
                             xs: seq<Float>, ys: seq<Float>, dos: seq<HeaderValue>)

  /** The rows unpacked into columns. */
  function ColumnsOf(rows: seq<LegacyRow>): (c: Columns)
    ensures |c.images| == |c.alts| == |c.azs| == |c.xs| == |c.ys| == |c.dos| == |rows|
    decreases |rows|
  {
    if |rows| == 0 then Columns([], [], [], [], [], [])
    else
      var c := ColumnsOf(rows[..|rows| - 1]);
      var r := rows[|rows| - 1];
      Columns(c.images + [r.imagename], c.alts + [r.alt], c.azs + [r.az], c.xs + [r.x], c.ys + [r.y],
              c.dos + [r.dateObs])
  }

  /** Column `k` of each list comes from row `k`. */
  lemma {:induction false} ColumnsAt(rows: seq<LegacyRow>, k: nat)
    requires k < |rows|
    ensures var c := ColumnsOf(rows);
      c.images[k] == rows[k].imagename && c.alts[k] == rows[k].alt && c.azs[k] == rows[k].az &&
      c.xs[k] == rows[k].x && c.ys[k] == rows[k].y && c.dos[k] == rows[k].dateObs
    decreases |rows|
  {
    if k < |rows| - 1 {
      ColumnsAt(rows[..|rows| - 1], k);
    }
  }

  /** `az[az > 180] = az[az > 180] - 360`. */
  function Wrapped(s: seq<real>): (r: seq<real>)
    ensures |r| == |s|
  {
    seq(|s|, i requires 0 <= i < |s| => if s[i] > 180.0 then s[i] - 360.0 else s[i])
  }

  /** The wrap moves an azimuth in [0, 360) into (-180, 180] and keeps its
      direction: it is unchanged up to 180 and 360 less above. */
  lemma WrappedRange(s: seq<real>, i: nat)
    requires i < |s|
    ensures s[i] <= 180.0 ==> Wrapped(s)[i] == s[i]
    ensures s[i] > 180.0 ==> Wrapped(s)[i] == s[i] - 360.0
    ensures 0.0 <= s[i] < 360.0 ==> -180.0 < Wrapped(s)[i] <= 180.0
  {
  }

  /** Wrapping azimuths that already lie in [0, 360) a second time changes
      nothing. */
  lemma WrapIdempotent(s: seq<real>)
    requires forall i :: 0 <= i < |s| ==> 0.0 <= s[i] < 360.0
    ensures Wrapped(Wrapped(s)) == Wrapped(s)
  {
  }

  /** The masked update of the azimuth array, in place. */
  method WrapAzimuths(a: array<real>)
    modifies a
    ensures a[..] == Wrapped(old(a[..]))
  {
    var i := 0;
    while i < a.Length
      invariant 0 <= i <= a.Length
      invariant forall k :: 0 <= k < i ==> a[k] == Wrapped(old(a[..]))[k]
      invariant forall k :: i <= k < a.Length ==> a[k] == old(a[k])
    {
      if a[i] > 180.0 {
        a[i] := a[i] - 360.0;
      }
      i := i + 1;
    }
  }

  /** The loop that appends each row's six fields to the six lists. */
  method Unpack(rows: seq<LegacyRow>) returns (columns: Columns)
    ensures columns == ColumnsOf(rows)
  {
    columns := Columns([], [], [], [], [], []);
    var i := 0;
    while i < |rows|
      invariant 0 <= i <= |rows|
      invariant columns == ColumnsOf(rows[..i])
    {
      var r := rows[i];
      assert rows[..i + 1][..i] == rows[..i];
      columns := Columns(columns.images + [r.imagename], columns.alts + [r.alt], columns.azs + [r.az],
                         columns.xs + [r.x], columns.ys + [r.y], columns.dos + [r.dateObs]);
      i := i + 1;
    }
    assert rows[..i] == rows;
  }

  /** Every azimuth in the column is a number. */
  predicate Numeric(azs: seq<HeaderValue>) {
    forall i :: 0 <= i < |azs| ==> azs[i].Num?
  }

  /** The azimuth column as numbers. */
  function AzimuthValues(azs: seq<HeaderValue>): (r: seq<real>)
    requires Numeric(azs)
    ensures |r| == |azs| && forall i :: 0 <= i < |azs| ==> azs[i] == Num(r[i])
  {
    seq(|azs|, i requires 0 <= i < |azs| => azs[i].x)
  }

  /** How the older batch ends: it returns its arrays, or raises. */
  datatype LegacyEnd = Finished | Aborted

  /**
   * The older `findPinHoleInImages(imagepath)` over the listing the glob
   * returns: map the workers, unpack the rows into six lists, turn them into
   * arrays and wrap the azimuths in place. A worker exception, or a text
   * azimuth (a string array cannot be compared with 180), raises.
   */
  method LegacyFindPinHoleInImages(images: seq<LegacyImage>, np: NumPy)
    returns (end: LegacyEnd, columns: Columns, az: array<real>)
    requires Sound(np) && Frames(images)
    ensures fresh(az)
    ensures var rows := PoolMap(images, np);
      end == Finished <==> rows.Some? && Numeric(ColumnsOf(rows.value).azs)
    ensures end == Finished ==>
      var rows := PoolMap(images, np).value;
      columns == ColumnsOf(rows) && az[..] == Wrapped(AzimuthValues(columns.azs))
  {
    var outcomes := Outcomes(images, np);
    var results := Gather(outcomes);
    if results.None? {
      return Aborted, Columns([], [], [], [], [], []), new real[0];
    }
    columns := Unpack(results.value);
    if !Numeric(columns.azs) {
      return Aborted, columns, new real[0];
    }
    var values := AzimuthValues(columns.azs);
    az := new real[|values|](k requires 0 <= k < |values| => values[k]);
    assert az[..] == values;
    WrapAzimuths(az);
    end := Finished;
  }

  /** The columns follow the listing: entry `k` of every list comes from the
      `k`-th listed image, whose path is the name column's entry. */
  lemma LegacyBatchOrder(images: seq<LegacyImage>, np: NumPy, k: nat)
    requires Sound(np) && Frames(images) && k < |images|
    requires PoolMap(images, np).Some?
    ensures LegacyWork(images[k], np).Done?
    ensures var c := ColumnsOf(PoolMap(images, np).value);
      |c.images| == |images| && c.images[k] == images[k].filename &&
      c.azs[k] == LegacyWork(images[k], np).row.az
  {
    var rows := PoolMap(images, np).value;
    OutcomesAt(images, np, k);
    ColumnsAt(rows, k);
    LegacyRowName(images[k], np);
  }

  /** Every row a worker returns carries the path it was given. */
  lemma LegacyRowName(image: LegacyImage, np: NumPy)
    requires Sound(np) && IsMatrix(image.data) && LegacyWork(image, np).Done?
    ensures LegacyWork(image, np).row.imagename == image.filename
  {
  }
}
