# Pinhole search of the AGU flexure analysis, modelled in Dafny

The AGU flexure analysis finds a fixed pinhole in acquisition/guide camera
(AGU) images. It cross-correlates a window around the header's reference
pixel with a disk template and refines the correlation peak by a centre of
mass. Each result is stored in a table keyed by image name. This project
models the two core pieces of the current package and the older variant of
the same search:

- `findPinhole` (`lcogt_nres_aguanalysis/agupinholesearch.py`):
  - the 100x100 radius-6 template;
  - the `UNKNOWN` pointing sentinels;
  - the ak05/ak16 hot-pixel patch, done in place;
  - the 119x119 cutout at the truncated `CRPIX`, under Python slice rules;
  - the star-contamination guard;
  - the outlier clamp and the rescale to [-1, 1];
  - the first-argmax peak, its ±18 refinement window and the 1-based FITS
    coordinates;
  - the record, with a NaN centre stored as null.
- `findPinHoleInImages` and the camera/date loop of `main`:
  - skip an image whose base name is already committed, unless reprocessing;
  - run the worker for every other image (the worker is a parameter of the
    batch; `FindPinholeWorker` is `findPinhole` on the image's base name, and
    the batch's properties need only that records are filed under that name);
  - collect results in completion order, dropping worker exceptions;
  - merge each record by primary key, swallowing merge errors;
  - commit once, with the commit unguarded.
- The older `src/agupinholesearch.py`:
  - a radius-7.5 template and a fixed `520:640, 620:740` cutout;
  - a median guard with margin 200 that returns `(name, 0, 0, 0, 0, 0)`;
  - min/median/mean normalisation;
  - a ±15 refinement window whose axes are paired crosswise;
  - `pool.map` in listing order and the in-place azimuth wrap.

Files and modules:

| file | module | what it holds |
|---|---|---|
| `common.dfy` | `Common` | `Option`, finite-or-NaN `Float`, Python `int()` (`Trunc`), slice normalisation, grids, mean/min/max/first argmax |
| `numerics.dfy` | `Numerics` | `np.median`, `np.std`, `correlate2d` and `center_of_mass` as function-valued parameters, with the predicate `Sound` giving their minimal contracts |
| `template.dfy` | `PinholeTemplate` | the disk template builder and the cell counts for both radii |
| `store.dfy` | `PinholeDb` | `Measurement`, the table keyed by image name, the session as a class (`Store`), the mapped class's keyword check |
| `search.dfy` | `PinholeSearch` | `findPinhole` as a function on pixel grids (`FindPinholeSpec`) and its properties |
| `locator.dfy` | `PinholeLocator` | `findPinhole` on a mutable `array2`: in-place patch, copied cutout, in-place masked clamp, each proved against `PinholeSearch` |
| `batch.dfy` | `PinholeBatch` | the orchestrator, its loops as methods, and the camera/date crawl |
| `legacy.dfy` | `LegacySearch` | the older search and its batch |

Pixel values are exact `real`s. A double that may be NaN or infinite is the
datatype `Float`. The numeric library calls are parameters: a `NumPy` value
bundles one implementation of each, and `Sound(np)` says only this:

- the median of a non-empty array lies between its minimum and maximum, and is
  NaN on an empty one;
- the standard deviation is never negative;
- a 'same'-mode correlation keeps the shape of its data;
- the centre of mass of an empty window is NaN.

Behaviour of the code worth noting:

- An out-of-range cutout follows Python slice normalisation rather than
  raising an out-of-bounds error. A reference pixel in the first 60 rows
  gives a negative start that counts from the far edge, so the cutout is
  empty. The guard then compares NaN (false), and `np.min` raises in the
  worker (`NearTopEdgeRaises`).
- The reference pixel is truncated toward zero by `int()`. The cutout is
  119x119 pixels: rows and columns [C - 60, C + 59).
- The coordinate shift adds 1 twice:
  x = cx + px + int(CRPIX1) - 76, and likewise y.
- `findPinHoleInImages` returns `None`.

## Model

| member | source | states |
|---|---|---|
| `Common.Trunc` | lcogt_nres_aguanalysis/agupinholesearch.py:51-52 | `int()` of the header value truncates toward zero: the result is within one of it, on the side of zero |
| `Common.Slice` | lcogt_nres_aguanalysis/agupinholesearch.py:78-79 | a slice never fails: it is the block between the normalised bounds, or empty when the start is not before the stop |
| `Common.SliceBound` | lcogt_nres_aguanalysis/agupinholesearch.py:78-79 | a slice bound is taken as is inside [0, len]; a negative one counts from the end; both are clamped to [0, len] |
| `Common.Mean` | lcogt_nres_aguanalysis/agupinholesearch.py:85 | `np.mean` is finite exactly on a non-empty array, and then times the length it is the sum |
| `Common.Min` | lcogt_nres_aguanalysis/agupinholesearch.py:95 | `np.min` of a non-empty array is an element at or below every element |
| `Common.ArgMax` | lcogt_nres_aguanalysis/agupinholesearch.py:104 | `np.argmax` is an index holding the largest value, with every earlier element strictly smaller |
| `Common.CentredGridSumsToZero` | lcogt_nres_aguanalysis/agupinholesearch.py:42 | a grid minus its own mean sums to zero |
| `PinholeTemplate.MaskTemplate` | lcogt_nres_aguanalysis/agupinholesearch.py:38-42 | the template is a 2·half square, each cell the inside/outside level of the mask at offset (r-half, c-half) minus the grid mean, and all cells sum to zero |
| `PinholeTemplate.CurrentTemplateCells` | lcogt_nres_aguanalysis/agupinholesearch.py:38-42 | the current template is 100x100 with 113 disk cells ((r-50)²+(c-50)² ≤ 36); disk cells hold -1.9774, the rest 0.0226, and the sum is zero |
| `PinholeTemplate.CurrentTemplateMean` | lcogt_nres_aguanalysis/agupinholesearch.py:42 | the mean subtracted from the current template is 0.9774 |
| `PinholeTemplate.DiskCellsRadius6` | lcogt_nres_aguanalysis/agupinholesearch.py:39 | for any half-width above 6, exactly 113 integer offsets satisfy x*x + y*y <= 36 |
| `PinholeTemplate.LegacyTemplateCells` | src/agupinholesearch.py:14-19 | the older template is 100x100 with 177 disk cells ((r-50)²+(c-50)² ≤ 56.25); disk cells hold -0.9823, the rest 0.0177, and the sum is zero |
| `PinholeTemplate.LegacyTemplateMean` | src/agupinholesearch.py:19 | the mean subtracted from the older template is 0.9823 |
| `PinholeTemplate.DiskCellsRadius7_5` | src/agupinholesearch.py:16 | for any half-width above 7, exactly 177 integer offsets satisfy x*x + y*y <= 7.5*7.5 |
| `PinholeDb.Upsert` | lcogt_nres_aguanalysis/agupinholedb.py:14 | a merge by primary key files the record under its image name, adds only that key, and leaves every other row as it was |
| `PinholeDb.UpsertKeepsKeyed` | lcogt_nres_aguanalysis/agupinholedb.py:14 | merging keeps every row filed under its own image name |
| `PinholeDb.Store.RecordExists` | lcogt_nres_aguanalysis/agupinholedb.py:30-34 | the existence query is true exactly when a committed row has that image name |
| `PinholeDb.Store.Merge` | lcogt_nres_aguanalysis/agupinholesearch.py:174 | a merge stages the record by image name, or changes nothing when the session raises; committed rows are untouched (a second merge of a name that is not yet committed: see Left out) |
| `PinholeDb.Store.Commit` | lcogt_nres_aguanalysis/agupinholesearch.py:178 | a commit adds the staged rows over the committed ones and empties the stage, or on failure changes nothing and reports it |
| `PinholeDb.Construct` | lcogt_nres_aguanalysis/agupinholedb.py:11-21 | the mapped class is built exactly when every keyword is a column; otherwise the error names a keyword that is not one |
| `PinholeDb.ConstructReportsFirst` | lcogt_nres_aguanalysis/agupinholedb.py:11-21 | the keyword reported is the first unmapped one |
| `PinholeDb.DeclaredSchemaRejectsRecord` | lcogt_nres_aguanalysis/agupinholesearch.py:137-139 | against the declared columns, the record build raises on `telescopeidentifier` |
| `PinholeDb.ExtendedSchemaAcceptsRecord` | lcogt_nres_aguanalysis/agupinholesearch.py:137-139 | with `telescopeidentifier`, `crpix1` and `crpix2` mapped, the record is built |
| `PinholeSearch.Contains` | lcogt_nres_aguanalysis/agupinholesearch.py:65 | `part in s` holds exactly when `part` occurs in `s` at some index |
| `PinholeSearch.PatchAtEffect` | lcogt_nres_aguanalysis/agupinholesearch.py:68-70 | a patch raises exactly when the pixel or its right neighbour is off the image; otherwise only that pixel changes, to the mean of its two row neighbours (truncated for integer pixels) |
| `PinholeSearch.PatchHotPixelsEffect` | lcogt_nres_aguanalysis/agupinholesearch.py:65-76 | the two patches, each applied when the instrument contains ak05 / ak16, fail exactly when a named camera's pixel is off the image; otherwise no pixel other than the named cameras' hot pixels changes |
| `PinholeSearch.PatchesCommute` | lcogt_nres_aguanalysis/agupinholesearch.py:65-76 | the ak05 and ak16 patches are independent: either order gives the same image |
| `PinholeSearch.NoCameraNoPatch` | lcogt_nres_aguanalysis/agupinholesearch.py:65-71 | an instrument naming neither camera leaves the image untouched |
| `PinholeSearch.CutoutInBounds` | lcogt_nres_aguanalysis/agupinholesearch.py:78-79 | with the truncated reference pixel far enough from the edges, the cutout is the 119x119 block starting 60 rows and columns before it |
| `PinholeSearch.CutoutEmptyNearTopEdge` | lcogt_nres_aguanalysis/agupinholesearch.py:78-79 | a truncated CRPIX2 in [0, 60) on an image at least 119 rows tall gives an empty cutout |
| `PinholeSearch.NearTopEdgeRaises` | lcogt_nres_aguanalysis/agupinholesearch.py:85-95 | such a frame passes the guard (the mean of nothing is NaN) and the call raises at `np.min` |
| `PinholeSearch.ClampWindow` | lcogt_nres_aguanalysis/agupinholesearch.py:92-97 | the clamp keeps the cutout's shape; min ≤ max (new median + 3·std, std not recomputed); every pixel ends in [min, max] and some pixel equals min |
| `PinholeSearch.Ceiling` | lcogt_nres_aguanalysis/agupinholesearch.py:96 | the ceiling lies at or above the minimum taken after the outlier step |
| `PinholeSearch.Rescale` | lcogt_nres_aguanalysis/agupinholesearch.py:99-100 | the rescale is defined exactly when max ≠ min (otherwise every cell is 0/0), and then has the clamp window's height |
| `PinholeSearch.RescalePixel` | lcogt_nres_aguanalysis/agupinholesearch.py:99-100 | the affine map sends [min, max] into [-1, 1], min to -1 and max to +1 |
| `PinholeSearch.RescaleWithinUnit` | lcogt_nres_aguanalysis/agupinholesearch.py:92-100 | the rescaled cutout has the cutout's shape, lies in [-1, 1], reaches -1, and is +1 wherever the clamp ceiling was reached |
| `PinholeSearch.PeakOf` | lcogt_nres_aguanalysis/agupinholesearch.py:104 | the peak is a cell of the correlation surface holding its largest value, with every earlier cell in row-major order strictly smaller |
| `PinholeSearch.Correlation` | lcogt_nres_aguanalysis/agupinholesearch.py:103 | the correlation surface has the shape of the rescaled cutout and is non-empty |
| `PinholeSearch.PositionClosedForm` | lcogt_nres_aguanalysis/agupinholesearch.py:105-114 | x = centroid column + peak column + int(CRPIX1) - 76 and y = centroid row + peak row + int(CRPIX2) - 76; each is NaN exactly when its centroid coordinate is |
| `PinholeSearch.NearEdgePeakHasNoCentre` | lcogt_nres_aguanalysis/agupinholesearch.py:105 | a peak closer than 18 cells to the top or left edge of a surface at least 36 across gives an empty refinement window and no coordinates |
| `PinholeSearch.NullIfNonFinite` | lcogt_nres_aguanalysis/agupinholesearch.py:138 | a coordinate is stored exactly when it is finite, and then unchanged |
| `PinholeSearch.NoRecordIff` | lcogt_nres_aguanalysis/agupinholesearch.py:62-89 | the call returns None exactly when ALTITUDE is 'UNKNOWN' or AZIMUTH is ' UNKNOWN', or (patch done) the unscaled cutout's mean exceeds the patched image's interior median by more than 50 |
| `PinholeSearch.RaisedIff` | lcogt_nres_aguanalysis/agupinholesearch.py:62-139 | with the pointing known, the call raises exactly when a hot-pixel index is off the image, or the guard passes an empty cutout, or the mapped class refuses a keyword |
| `PinholeSearch.RecordWhen` | lcogt_nres_aguanalysis/agupinholesearch.py:62-141 | a record is returned exactly when the pointing is known, the hot-pixel patch fits, the cutout is uncontaminated and non-empty, and the mapped class accepts every keyword |
| `PinholeSearch.RecordFields` | lcogt_nres_aguanalysis/agupinholesearch.py:137-139 | a returned record carries the image name, instrument, pointing, date, focus temperature, `site-enclosure-telescope` and the truncated reference pixel |
| `PinholeSearch.RecordCentres` | lcogt_nres_aguanalysis/agupinholesearch.py:104-138 | the record's x and y centres are the located position, each kept only when finite, independently |
| `PinholeSearch.FlatCutoutHasNoCentre` | lcogt_nres_aguanalysis/agupinholesearch.py:99-100 | a cutout whose clamp range collapses gives a record with both centres null |
| `PinholeSearch.AsWrittenNeverRecords` | lcogt_nres_aguanalysis/agupinholesearch.py:137-139 | against the declared columns, no call returns a record |
| `PinholeSearch.ExtendedSchemaRecords` | lcogt_nres_aguanalysis/agupinholesearch.py:137-139 | with the three extra columns, a record is returned exactly when the frame passes the pointing, patch, contamination and cutout checks |
| `PinholeLocator.FindPinhole` | lcogt_nres_aguanalysis/agupinholesearch.py:29-141 | the method on the image array gives the outcome `FindPinholeSpec` gives for the original pixels, and leaves the array patched (untouched when the pointing is unknown) |
| `PinholeLocator.PatchInPlace` | lcogt_nres_aguanalysis/agupinholesearch.py:68-70 | the in-place assignment leaves the array as the pure patch describes, and reports the `IndexError` |
| `PinholeLocator.PatchHotPixelsInPlace` | lcogt_nres_aguanalysis/agupinholesearch.py:65-76 | both in-place patches together leave the array as `PatchHotPixels` describes |
| `PinholeLocator.CopyWindow` | lcogt_nres_aguanalysis/agupinholesearch.py:78-79 | the copied window is a fresh array holding the slice of the image under numpy's slice rules |
| `PinholeLocator.CopyCutout` | lcogt_nres_aguanalysis/agupinholesearch.py:78-79 | the cutout copy holds rows [int(CRPIX2)-60, int(CRPIX2)+59) by columns [int(CRPIX1)-60, int(CRPIX1)+59) of the image |
| `PinholeLocator.ReplaceAboveInPlace` | lcogt_nres_aguanalysis/agupinholesearch.py:94 | the masked assignment sets exactly the cells above the limit to the value |
| `PinholeLocator.MinOf` | lcogt_nres_aguanalysis/agupinholesearch.py:95 | the scan returns the minimum of the array's pixels |
| `PinholeLocator.MinIsSmallestCell` | lcogt_nres_aguanalysis/agupinholesearch.py:95 | a cell at or below every cell is the minimum of the flattened grid |
| `PinholeLocator.ReplaceOutliers` | lcogt_nres_aguanalysis/agupinholesearch.py:92-94 | the median and std are taken before the assignment, and cells above median + 5·std become the median |
| `PinholeLocator.ClampInPlace` | lcogt_nres_aguanalysis/agupinholesearch.py:92-97 | the in-place clamp yields the window, min and max of `ClampWindow` on the original cutout |
| `PinholeLocator.MeasureImage` | lcogt_nres_aguanalysis/agupinholesearch.py:78-139 | copying, guarding, clamping and locating on arrays gives `Measure` of the patched image |
| `PinholeLocator.LocateInPlace` | lcogt_nres_aguanalysis/agupinholesearch.py:92-114 | clamping the array in place and rescaling gives the position `Locate` gives for the original cutout |
| `PinholeBatch.Basename` | lcogt_nres_aguanalysis/agupinholesearch.py:151 | the base name has no '/', is a suffix of the path, and is preceded by '/' when shorter than it |
| `PinholeBatch.BasenameOfPath` | lcogt_nres_aguanalysis/agupinholesearch.py:151 | the base name of `dir/name` is `name` |
| `PinholeBatch.WorkRecordKey` | lcogt_nres_aguanalysis/agupinholesearch.py:137 | a worker's record is filed under the base name the existence check asks about |
| `PinholeBatch.FindPinholeWorker` | lcogt_nres_aguanalysis/agupinholesearch.py:151-160 | the job submitted for an image is `findPinhole` on its base name: on every entry whose frame is a rectangular array the worker's outcome is `Work` |
| `PinholeBatch.FindPinholeWorkerKeys` | lcogt_nres_aguanalysis/agupinholesearch.py:137-160 | every record the `findPinhole` worker returns is filed under the base name of the image it was given |
| `PinholeBatch.BasenameIdempotent` | lcogt_nres_aguanalysis/agupinholesearch.py:151 | a base name is its own base name |
| `PinholeBatch.SubmittedMembers` | lcogt_nres_aguanalysis/agupinholesearch.py:154-160 | an image is submitted exactly when it is listed and not (reprocess off, session open, base name committed) |
| `PinholeBatch.ReprocessSubmitsAll` | lcogt_nres_aguanalysis/agupinholesearch.py:154 | with reprocessing on, every image is submitted, in listing order |
| `PinholeBatch.KnownImagesNotSubmitted` | lcogt_nres_aguanalysis/agupinholesearch.py:154-158 | without reprocessing, a listing whose every base name is committed submits nothing |
| `PinholeBatch.SecondRunIsNoOp` | lcogt_nres_aguanalysis/agupinholesearch.py:154-178 | such a run leaves the committed table as it was |
| `PinholeBatch.FuturesAt` | lcogt_nres_aguanalysis/agupinholesearch.py:160 | future i holds the worker's outcome on the i-th submitted image |
| `PinholeBatch.CollectedHolds` | lcogt_nres_aguanalysis/agupinholesearch.py:164-166 | every future that returned contributes its value to the collected results |
| `PinholeBatch.CollectedFrom` | lcogt_nres_aguanalysis/agupinholesearch.py:164-168 | every collected result is the return value of some future; raised ones add nothing |
| `PinholeBatch.MergeAllKeys` | lcogt_nres_aguanalysis/agupinholesearch.py:170-176 | after the merge loop the table holds its old keys plus the names of the non-None results whose merge went through |
| `PinholeBatch.MergeAllKeepsOthers` | lcogt_nres_aguanalysis/agupinholesearch.py:170-176 | a name no merged result carries keeps its old row, or stays absent |
| `PinholeBatch.MergeAllLastWins` | lcogt_nres_aguanalysis/agupinholesearch.py:170-176 | the last merged record with a name is the one the table holds; the session behaves so for a name already committed, which `merge` loads and updates |
| `PinholeBatch.MergeAllKeyed` | lcogt_nres_aguanalysis/agupinholedb.py:14 | the merge loop keeps every row filed under its own image name |
| `PinholeBatch.CollectedMergeAt` | lcogt_nres_aguanalysis/agupinholesearch.py:164-176 | when no two futures return records with one name, a record a future returns and whose merge goes through is the row the merged table holds under its name, in any completion order |
| `PinholeBatch.CompletionOrderIrrelevant` | lcogt_nres_aguanalysis/agupinholesearch.py:164-176 | when no two futures return records with one name, any two completion orders give the same merged table |
| `PinholeBatch.SubmittedDistinct` | lcogt_nres_aguanalysis/agupinholesearch.py:150-160 | skipping keeps base names distinct |
| `PinholeBatch.DistinctBasenamesDistinctRecords` | lcogt_nres_aguanalysis/agupinholesearch.py:151-160 | for a worker that files records under the base name, images with distinct base names yield records with distinct names |
| `PinholeBatch.BatchStoresYields` | lcogt_nres_aguanalysis/agupinholesearch.py:150-178 | after a batch's merges, every listed image whose worker returns a record that merges has a row under its base name |
| `PinholeBatch.BatchStoresListing` | lcogt_nres_aguanalysis/agupinholesearch.py:144-179 | after a batch, every image of its listing whose worker returns a record that merges has a row under its base name |
| `PinholeBatch.Submitted` | lcogt_nres_aguanalysis/agupinholesearch.py:150-160 | the queued images are at most the listed ones |
| `PinholeBatch.RecordedImageNotResubmitted` | lcogt_nres_aguanalysis/agupinholesearch.py:151-160 | an image that produced a stored record is skipped by the next run without reprocessing |
| `PinholeBatch.BatchReplacesRecord` | lcogt_nres_aguanalysis/agupinholesearch.py:160-178 | a submitted image's merged record replaces whatever row its name had |
| `PinholeBatch.Submit` | lcogt_nres_aguanalysis/agupinholesearch.py:150-160 | the submission loop queues exactly the non-skipped images, in listing order, checking the rows committed before the batch |
| `PinholeBatch.SubmitStep` | lcogt_nres_aguanalysis/agupinholesearch.py:154-160 | one more listed image is queued after the earlier ones unless it is skipped |
| `PinholeBatch.RunPool` | lcogt_nres_aguanalysis/agupinholesearch.py:160-162 | after `shutdown(wait=True)` future k holds the worker's outcome on queued image k |
| `PinholeBatch.FuturesOfWork` | lcogt_nres_aguanalysis/agupinholesearch.py:160-162 | futures holding, one by one, the worker's outcomes on the queued images are the batch's futures |
| `PinholeBatch.AsCompleted` | lcogt_nres_aguanalysis/agupinholesearch.py:164-168 | the collection loop returns the futures' values in completion order, dropping those that raised |
| `PinholeBatch.MergeResults` | lcogt_nres_aguanalysis/agupinholesearch.py:170-176 | the merge loop stages every non-None result whose merge does not raise and never touches the committed rows |
| `PinholeBatch.FindPinHoleInImages` | lcogt_nres_aguanalysis/agupinholesearch.py:144-179 | the batch merges, in completion order, the results of the worker on the images not skipped against the rows committed before it; it commits them over those rows, or raises from the commit (always so without a session), keeping the staged rows and the old committed ones when the commit fails |
| `PinholeBatch.ListedMembers` | lcogt_nres_aguanalysis/agupinholesearch.py:232-241 | the crawl runs a batch for exactly the (camera, date) pairs whose listing exists and is non-empty |
| `PinholeBatch.ListedDatesMembers` | lcogt_nres_aguanalysis/agupinholesearch.py:234-241 | one camera's batches are exactly its dates whose listing exists and is non-empty |
| `PinholeBatch.CameraStep` | lcogt_nres_aguanalysis/agupinholesearch.py:232-234 | crawling one more camera appends that camera's pairs, and what has been crawled stays a prefix of all pairs |
| `PinholeBatch.DateStep` | lcogt_nres_aguanalysis/agupinholesearch.py:234-241 | one more date appends its pair exactly when its listing holds images, and stays a prefix of the camera's pairs |
| `PinholeBatch.CrawlStep` | lcogt_nres_aguanalysis/agupinholesearch.py:232-241 | one more batch acts on the rows the earlier batches left |
| `PinholeBatch.CrawlAppend` | lcogt_nres_aguanalysis/agupinholesearch.py:232-241 | crawling one list of pairs and then another is crawling the two joined |
| `PinholeBatch.BatchStepIsBatchStep` | lcogt_nres_aguanalysis/agupinholesearch.py:240-241 | the step the crawl methods are proved against exists: a batch run on a pair's listing from given rows |
| `PinholeBatch.CrawlStoredGrows` | lcogt_nres_aguanalysis/agupinholesearch.py:178 | committed rows are never removed, so an image once stored stays stored |
| `PinholeBatch.BatchStepStored` | lcogt_nres_aguanalysis/agupinholesearch.py:240-241 | a batch on a pair with images keeps every committed row and stores every image of its listing whose record merges, without losing earlier pairs' |
| `PinholeBatch.CrawlRowsStored` | lcogt_nres_aguanalysis/agupinholesearch.py:232-241 | batches run in sequence over pairs with images keep every row committed before them and store every image of every listing whose record merges |
| `PinholeBatch.CrawlStoresListing` | lcogt_nres_aguanalysis/agupinholesearch.py:232-241 | after a completed crawl, every image of every listed (camera, date) pair whose record merges has a row, and every row committed before the crawl is still there |
| `PinholeBatch.CrawlCameras` | lcogt_nres_aguanalysis/agupinholesearch.py:232-241 | the crawl runs batches on a prefix of the listed (camera, date) pairs in camera-then-date order; on completion it has run all of them and the rows are those the batches commit one after another; a raised end comes from the last batch's commit, and the rows are those of the batches before it |
| `PinholeBatch.CrawlCamera` | lcogt_nres_aguanalysis/agupinholesearch.py:232-241 | one camera's dates extend the batches run so far by that camera's pairs, with the rows those batches commit, or stop at a raised commit |
| `PinholeBatch.CrawlDates` | lcogt_nres_aguanalysis/agupinholesearch.py:234-241 | the date loop of one camera runs a prefix of that camera's non-empty dates, all of them on completion, with the rows the batches commit one after another; a raised end comes from the last batch's commit |
| `PinholeBatch.CrawlDate` | lcogt_nres_aguanalysis/agupinholesearch.py:235-241 | the crawled pairs extend to this date, its pair appended exactly when its listing holds images, with the rows the batches commit one after another; a raised end comes from that date's commit |
| `PinholeBatch.RunBatch` | lcogt_nres_aguanalysis/agupinholesearch.py:240-241 | one batch of the crawl raises exactly when its commit fails; on completion the rows are those the batch on that pair's listing commits, and on a raised commit they are unchanged |
| `LegacySearch.LegacyCutout` | src/agupinholesearch.py:25 | the fixed cutout of a rectangular image is rectangular |
| `LegacySearch.LegacyCutoutFixed` | src/agupinholesearch.py:25 | on a frame of at least 640x740 the cutout is the 120x120 block at row 520, column 620, whatever the header says |
| `LegacySearch.LegacyRejectIff` | src/agupinholesearch.py:27-32 | the call returns `(name, 0, 0, 0, 0, 0)` exactly when the cutout median exceeds the background by more than 200 |
| `LegacySearch.LegacyRaisesIff` | src/agupinholesearch.py:25-34 | the call raises exactly when the guard passes an empty cutout |
| `LegacySearch.Normalise` | src/agupinholesearch.py:34-36 | the normalised cutout is missing exactly when the shifted median is zero; otherwise it keeps the shape and sums to zero |
| `LegacySearch.ZeroMedianHasNoPosition` | src/agupinholesearch.py:34-35 | a zero shifted median gives no position |
| `LegacySearch.LegacyCorrelation` | src/agupinholesearch.py:43 | the older correlation surface has the shape of the normalised cutout |
| `LegacySearch.LegacyPositionClosedForm` | src/agupinholesearch.py:44-47 | x = centroid row coordinate + peak column - 15 and y = centroid column coordinate + peak row - 15, paired crosswise as written |
| `LegacySearch.LegacyRowFields` | src/agupinholesearch.py:37-58 | a measured row carries the image name, the header's altitude, azimuth and date, and the located position |
| `LegacySearch.LegacyRowName` | src/agupinholesearch.py:58 | every row a worker returns carries its path |
| `LegacySearch.Map` | src/agupinholesearch.py:71 | the pool's map gives one result per listed image |
| `LegacySearch.MapAt` | src/agupinholesearch.py:71 | result k is the worker's result on image k |
| `LegacySearch.Gather` | src/agupinholesearch.py:71 | `pool.map` returns rows in listing order exactly when no worker raised |
| `LegacySearch.ColumnsOf` | src/agupinholesearch.py:73-80 | the six columns each have one entry per row |
| `LegacySearch.ColumnsAt` | src/agupinholesearch.py:73-80 | entry k of each column comes from row k |
| `LegacySearch.Unpack` | src/agupinholesearch.py:73-80 | the appending loop produces the columns of the rows |
| `LegacySearch.AzimuthValues` | src/agupinholesearch.py:83 | a numeric azimuth column converts entry by entry to numbers |
| `LegacySearch.WrappedRange` | src/agupinholesearch.py:89-90 | an azimuth above 180 loses 360 and the others are unchanged, so [0, 360) maps into (-180, 180] |
| `LegacySearch.WrapIdempotent` | src/agupinholesearch.py:89-90 | wrapping azimuths in [0, 360) twice changes nothing more |
| `LegacySearch.WrapAzimuths` | src/agupinholesearch.py:89-90 | the in-place masked update leaves the array wrapped |
| `LegacySearch.LegacyFindPinHoleInImages` | src/agupinholesearch.py:61-91 | the older batch finishes exactly when no worker raised and every azimuth is a number; then it returns the columns in listing order with the azimuths wrapped in place |
| `LegacySearch.LegacyBatchOrder` | src/agupinholesearch.py:69-91 | entry k of the returned columns comes from the k-th listed image |

## Findings

| source | as written | input that shows it | evidently intended | confidence | as-written member | corrected member |
|---|---|---|---|---|---|---|
| lcogt_nres_aguanalysis/agupinholesearch.py:137-139 | the record passes `telescopeidentifier`, `crpix1` and `crpix2` to `PinholeMeasurement`, whose columns (lcogt_nres_aguanalysis/agupinholedb.py:11-21) lack them; the declarative constructor raises `TypeError` on an unmapped keyword, in the worker, where the orchestrator logs and drops it | any frame with known pointing, in-range hot pixels, an uncontaminated and non-empty cutout | the three columns are mapped (spie2020/spie2020.py:19 reads `crpix1` and `crpix2` back), so the record is built and stored | medium, not executed | `PinholeSearch.AsWrittenNeverRecords` | `PinholeSearch.ExtendedSchemaRecords` |

`FindPinholeSpec` takes the mapped columns as a parameter. `DeclaredColumns`
is the schema as written. `ExtendedColumns` is the corrected one.

## Left out

- FITS and archive I/O: opening files, downloading frames, the archive crawler and its listings. A frame is a header record plus a pixel grid; an image whose frame cannot be obtained is a worker that raises. The camera list, the date list and the per-(camera, date) listing are inputs.
- Header parsing: `Time(DATE-OBS)`, `float(WMSTEMP)` and `int()` of a non-numeric CRPIX can raise. The model takes the date as the header string and the other values already parsed. ALTITUDE and AZIMUTH keep their number-or-string form, for the sentinel test.
- Floating point: pixels and statistics are exact reals. Rounding, and the float32/int16 storage of FITS data, are not modelled, except that an integer pixel array truncates the patched average toward zero (the `integerPixels` flag).
- The numeric library: median, std, `correlate2d` (symmetric boundary, same mode) and `center_of_mass`. They are parameters constrained only by `Sound`. The model proves nothing about the accuracy of the centroid (the 2-pixel acceptance test, the 0.5-pixel synthetic case).
- Numerics.Sound: the median of an array holding NaN and the argmax of a surface holding NaN follow numpy's NaN rules, which are not modelled. The degenerate rescale (max = min, every cell 0/0) is modelled directly as both centres NaN.
- Process pools: `ProcessPoolExecutor`, `as_completed` and `mp.Pool` are a sequential run of the workers. The completion order is a parameter (any permutation). Timeouts and killed runs are not modelled.
- PinholeBatch.FindPinHoleInImages: `dbsession.merge` errors are a parameter predicate on the record. The database state that would cause them is not modelled.
- PinholeBatch.FindPinholeWorker: an entry whose frame is not a rectangular pixel array, which numpy cannot produce, is given a raising worker.
- PinholeBatch.FindPinholeWorker: the worker is handed only the base name (lcogt_nres_aguanalysis/agupinholesearch.py:151,160), and without `useaws` it opens that bare name relative to the working directory (lines 45-46), not the path the crawler listed. The model takes the frame from the listing entry, so it does not capture that a run started outside the data directory gets a raising worker for every image, all of which lines 164-168 drop.
- PinholeDb.Store.Merge: last-wins staging holds only for a name already committed. The session is built with `autoflush=False` (lcogt_nres_aguanalysis/agupinholedb.py:50), and a pending object is not in the identity map, so `merge` does not find an earlier merge of a name not yet committed. Two such merges in one batch stage two INSERTs with one primary key, and the commit at lcogt_nres_aguanalysis/agupinholesearch.py:178 then always raises. The model stages the later record and leaves that failure to the free `commitFails` parameter, so it does not promise the raise. Such a batch needs two listed paths with one base name; with distinct base names (`SubmittedDistinct`, `DistinctBasenamesDistinctRecords`) no name is merged twice.
- SQLAlchemy sessions: `create_db`, `get_session`, `close` and `sys.exit` are not modelled. The session is the `Store` class: committed rows plus staged merges. Autoflush is off, so the existence query sees committed rows only.
- Debug PNG output, CLI parsing, logging, `faulthandler` and `warnings` are not modelled.
- The trend plots and reports (`aguanalysis.py` in both trees, `spie2020.py`) are display code outside the search.
- `migrationtools/copydatabase.py`, `src/agupinholedb.py` and `src/agupionholedb.py` are schema and copy tooling, not part of this model.
- `setup.py` (packaging) is not part of this model.
- `testing/test_pinholecentering.py` checks accuracy on real FITS images, which a model over abstract numerics cannot state.
- LegacySearch.LegacyFindPinHoleInImages: `glob.glob` is the listing parameter. The returned name, altitude, x, y and date arrays are the columns as sequences; only the azimuth array is a Dafny `array`. A text azimuth makes the whole batch raise; numpy's mixed-type array conversion is not modelled beyond that.
