/**
 * The disk template both versions of the pinhole search correlate against
 * (`np.ogrid`, a radius mask, then minus the mean), and the number of cells
 * the disk covers for the two radii the source uses.
 */
module PinholeTemplate {
  import opened Common

  /** The source's mask test `x*x + y*y <= radius*radius` for the cell at offset
      (dy, dx) from the grid centre: the integer square distance is compared
      against the (possibly fractional) squared radius. */
  predicate InDisk(dy: int, dx: int, radius: real) {
    ((dx * dx + dy * dy) as real) <= radius * radius
  }

  /** A boolean mask over offsets (dy, dx) from the grid centre. */
  type Mask = (int, int) -> bool

  function Disk(radius: real): Mask {
    (dy: int, dx: int) => InDisk(dy, dx, radius)
  }

  /** Value of a cell before centring: `inside` under the mask, `outside` elsewhere. */
  function Level(dy: int, dx: int, mask: Mask, inside: real, outside: real): real {
    if mask(dy, dx) then inside else outside
  }

  /** One template row at offset dy before centring, for offsets dx in [lo, hi). */
  function RawRow(dy: int, lo: int, hi: int, mask: Mask, inside: real, outside: real): seq<real>
    decreases hi - lo
  {
    if lo >= hi then [] else [Level(dy, lo, mask, inside, outside)] + RawRow(dy, lo + 1, hi, mask, inside, outside)
  }

  /** The rows at offsets dy in [lo, hi) of the `np.ogrid[-half:half, -half:half]` grid. */
  function RawRows(lo: int, hi: int, half: int, mask: Mask, inside: real, outside: real): Grid
    decreases hi - lo
  {
    if lo >= hi then [] else [RawRow(lo, -half, half, mask, inside, outside)] + RawRows(lo + 1, hi, half, mask, inside, outside)
  }

  /** Cells of row dy with offsets in [lo, hi) under the mask. */
  function RowCount(dy: int, lo: int, hi: int, mask: Mask): nat
    decreases hi - lo
  {
    if lo >= hi then 0 else (if mask(dy, lo) then 1 else 0) + RowCount(dy, lo + 1, hi, mask)
  }

  /** Cells of rows dy in [lo, hi), offsets dx in [-half, half), under the mask. */
  function MaskCount(lo: int, hi: int, half: int, mask: Mask): nat
    decreases hi - lo
  {
    if lo >= hi then 0 else RowCount(lo, -half, half, mask) + MaskCount(lo + 1, hi, half, mask)
  }

  /** Half the side of the template grid (`TEMPLATE_FRAMESIZE`). */
  const TemplateFrameSize: int := 50
  /** Radius of the pinhole disk in the current template (`TEMPLATE_RADIUS`). */
  const TemplateRadius: int := 6

  /** The template the current search correlates against: 100x100, -1 on the
      disk of radius 6, +1 elsewhere, then minus its mean. */
  function CurrentTemplate(): (t: Grid)
  {
    MaskTemplate(TemplateFrameSize, Disk(TemplateRadius as real), -1.0, 1.0)
  }

  /** The template of the older search: 100x100, 0 on the disk of radius 7.5,
      1 elsewhere, then minus its mean. */
  function LegacyTemplate(): (t: Grid)
  {
    MaskTemplate(50, Disk(7.5), 0.0, 1.0)
  }

  /** The current template: 113 of its 10000 cells are on the disk, so its mean
      is 0.9774; disk cells hold -1.9774, the others 0.0226, and all sum to 0. */
  lemma CurrentTemplateCells()
    ensures var t := CurrentTemplate();
      IsMatrix(t) && |t| == 100 && Width(t) == 100 && Sum(Flatten(t)) == 0.0
      && MaskCount(-TemplateFrameSize, TemplateFrameSize, TemplateFrameSize, Disk(6.0)) == 113
      && forall r, c :: 0 <= r < 100 && 0 <= c < 100 ==>
           t[r][c] == (if InDisk(r - 50, c - 50, 6.0) then -1.9774 else 0.0226)
  {
    CurrentTemplateMean();
  }

  lemma CurrentTemplateMean()
    ensures MaskCount(-TemplateFrameSize, TemplateFrameSize, TemplateFrameSize, Disk(6.0)) == 113
    ensures TemplateMean(TemplateFrameSize, Disk(6.0), -1.0, 1.0) == 0.9774
  {
    DiskCellsRadius6(TemplateFrameSize);
    var cells := (2 * TemplateFrameSize) * (2 * TemplateFrameSize);
    assert cells == 10000;
  }

  /** The legacy template: 177 of its 10000 cells are on the disk, so its mean
      is 0.9823; disk cells hold -0.9823, the others 0.0177, and all sum to 0. */
  lemma LegacyTemplateCells()
    ensures var t := LegacyTemplate();
      IsMatrix(t) && |t| == 100 && Width(t) == 100 && Sum(Flatten(t)) == 0.0
      && MaskCount(-TemplateFrameSize, TemplateFrameSize, TemplateFrameSize, Disk(7.5)) == 177
      && forall r, c :: 0 <= r < 100 && 0 <= c < 100 ==>
           t[r][c] == (if InDisk(r - 50, c - 50, 7.5) then -0.9823 else 0.0177)
  {
    LegacyTemplateMean();
  }

  lemma LegacyTemplateMean()
    ensures MaskCount(-TemplateFrameSize, TemplateFrameSize, TemplateFrameSize, Disk(7.5)) == 177
    ensures TemplateMean(TemplateFrameSize, Disk(7.5), 0.0, 1.0) == 0.9823
  {
    DiskCellsRadius7_5(TemplateFrameSize);
    var cells := (2 * TemplateFrameSize) * (2 * TemplateFrameSize);
    assert cells == 10000;
  }

  /** Template builder: a square of side 2*half holding `inside` under the mask
      and `outside` elsewhere, minus its mean, so that its pixels sum to zero. */
  function MaskTemplate(half: int, mask: Mask, inside: real, outside: real): (t: Grid)
    requires half > 0
    ensures IsMatrix(t) && |t| == 2 * half && Width(t) == 2 * half
    ensures Sum(Flatten(t)) == 0.0
    ensures forall r, c :: 0 <= r < 2 * half && 0 <= c < 2 * half ==>
              t[r][c] == Level(r - half, c - half, mask, inside, outside) - TemplateMean(half, mask, inside, outside)
  {
    var raw := RawRows(-half, half, half, mask, inside, outside);
    RawGrid(half, mask, inside, outside);
    CentredGridSumsToZero(raw);
    Offset(raw, TemplateMean(half, mask, inside, outside))
  }

  /** The mean `np.mean(array)` the template builder subtracts: the share of
      cells under the mask decides it. */
  function TemplateMean(half: int, mask: Mask, inside: real, outside: real): real
    requires half > 0
  {
    var cells := (2 * half) * (2 * half);
    (outside * cells as real + (inside - outside) * MaskCount(-half, half, half, mask) as real) / cells as real
  }

  lemma RawGrid(half: int, mask: Mask, inside: real, outside: real)
    requires half > 0
    ensures var raw := RawRows(-half, half, half, mask, inside, outside);
      IsMatrix(raw) && |raw| == 2 * half && Width(raw) == 2 * half && Size(raw) > 0
      && Mean(Flatten(raw)) == Finite(TemplateMean(half, mask, inside, outside))
      && forall r, c :: 0 <= r < 2 * half && 0 <= c < 2 * half ==>
           |raw[r]| == 2 * half && raw[r][c] == Level(r - half, c - half, mask, inside, outside)
  {
    var raw := RawRows(-half, half, half, mask, inside, outside);
    RawRowsFacts(-half, half, half, mask, inside, outside);
    FlattenMatrix(raw);
    RawMean(half, mask, inside, outside, |Flatten(raw)|);
    RawGridCells(half, mask, inside, outside, raw);
  }

  lemma RawGridCells(half: int, mask: Mask, inside: real, outside: real, raw: Grid)
    requires half > 0 && raw == RawRows(-half, half, half, mask, inside, outside)
    ensures |raw| == 2 * half
    ensures forall r :: 0 <= r < 2 * half ==> |raw[r]| == 2 * half
    ensures forall r, c :: 0 <= r < 2 * half && 0 <= c < 2 * half ==>
      raw[r][c] == Level(r - half, c - half, mask, inside, outside)
  {
    RawRowsLength(-half, half, half, mask, inside, outside);
    forall r: int | 0 <= r < 2 * half ensures |raw[r]| == 2 * half {
      RawGridCell(half, mask, inside, outside, raw, r, 0);
    }
    forall r: int, c: int | 0 <= r < 2 * half && 0 <= c < 2 * half
      ensures raw[r][c] == Level(r - half, c - half, mask, inside, outside)
    {
      RawGridCell(half, mask, inside, outside, raw, r, c);
    }
  }

  lemma RawGridCell(half: int, mask: Mask, inside: real, outside: real, raw: Grid, r: nat, c: nat)
    requires half > 0 && raw == RawRows(-half, half, half, mask, inside, outside)
    requires r < 2 * half && c < 2 * half
    ensures r < |raw| && |raw[r]| == 2 * half && raw[r][c] == Level(r - half, c - half, mask, inside, outside)
  {
    RawRowsAt(-half, half, half, mask, inside, outside, r);
    RawRowLength(-half + r, -half, half, mask, inside, outside);
    RawRowAt(-half + r, -half, half, mask, inside, outside, c);
  }

  lemma {:induction false} RawRowLength(dy: int, lo: int, hi: int, mask: Mask, inside: real, outside: real)
    requires lo <= hi
    ensures |RawRow(dy, lo, hi, mask, inside, outside)| == hi - lo
    decreases hi - lo
  {
    if lo < hi {
      RawRowLength(dy, lo + 1, hi, mask, inside, outside);
    }
  }

  lemma {:induction false} RawRowAt(dy: int, lo: int, hi: int, mask: Mask, inside: real, outside: real, k: nat)
    requires k < hi - lo
    ensures |RawRow(dy, lo, hi, mask, inside, outside)| > k
    ensures RawRow(dy, lo, hi, mask, inside, outside)[k] == Level(dy, lo + k, mask, inside, outside)
    decreases k
  {
    var tail := RawRow(dy, lo + 1, hi, mask, inside, outside);
    assert RawRow(dy, lo, hi, mask, inside, outside) == [Level(dy, lo, mask, inside, outside)] + tail;
    if k > 0 {
      RawRowAt(dy, lo + 1, hi, mask, inside, outside, k - 1);
    }
  }

  lemma RawMean(half: int, mask: Mask, inside: real, outside: real, cells: nat)
    requires half > 0 && cells == (2 * half) * (2 * half)
    requires |Flatten(RawRows(-half, half, half, mask, inside, outside))| == cells
    ensures Mean(Flatten(RawRows(-half, half, half, mask, inside, outside))) == Finite(TemplateMean(half, mask, inside, outside))
  {
    var count := MaskCount(-half, half, half, mask);
    RawRowsSum(-half, half, half, mask, inside, outside);
    RepeatIsProduct(outside, cells);
    RepeatIsProduct(inside - outside, count);
  }

  // ---------------------------------------------------------------------------
  // Shape, contents and sum of the raw grid

  lemma {:induction false} RawRowFacts(dy: int, lo: int, hi: int, mask: Mask, inside: real, outside: real)
    requires lo <= hi
    ensures |RawRow(dy, lo, hi, mask, inside, outside)| == hi - lo
    ensures forall k :: 0 <= k < hi - lo ==>
              RawRow(dy, lo, hi, mask, inside, outside)[k] == Level(dy, lo + k, mask, inside, outside)
    decreases hi - lo
  {
    if lo < hi {
      RawRowFacts(dy, lo + 1, hi, mask, inside, outside);
    }
  }

  /** `n` copies of `a` added up: `a * n` kept linear for the solver. */
  function Repeat(a: real, n: nat): real
    decreases n
  {
    if n == 0 then 0.0 else a + Repeat(a, n - 1)
  }

  lemma {:induction false} RepeatAdd(a: real, m: nat, n: nat)
    ensures Repeat(a, m + n) == Repeat(a, m) + Repeat(a, n)
    decreases m
  {
    if m > 0 {
      RepeatAdd(a, m - 1, n);
    }
  }

  lemma {:induction false} RepeatIsProduct(a: real, n: nat)
    ensures Repeat(a, n) == a * n as real
    decreases n
  {
    if n > 0 {
      RepeatIsProduct(a, n - 1);
      assert a * n as real == a + a * (n - 1) as real;
    }
  }

  lemma {:induction false} RawRowSum(dy: int, lo: int, hi: int, mask: Mask, inside: real, outside: real)
    ensures Sum(RawRow(dy, lo, hi, mask, inside, outside))
            == Repeat(outside, |RawRow(dy, lo, hi, mask, inside, outside)|) + Repeat(inside - outside, RowCount(dy, lo, hi, mask))
    decreases hi - lo
  {
    if lo < hi {
      var r := RawRow(dy, lo, hi, mask, inside, outside);
      RawRowSum(dy, lo + 1, hi, mask, inside, outside);
      assert r[1..] == RawRow(dy, lo + 1, hi, mask, inside, outside);
    }
  }

  lemma {:induction false} RawRowsLength(lo: int, hi: int, half: int, mask: Mask, inside: real, outside: real)
    requires lo <= hi
    ensures |RawRows(lo, hi, half, mask, inside, outside)| == hi - lo
    decreases hi - lo
  {
    if lo < hi {
      RawRowsLength(lo + 1, hi, half, mask, inside, outside);
    }
  }

  lemma {:induction false} RawRowsAt(lo: int, hi: int, half: int, mask: Mask, inside: real, outside: real, k: nat)
    requires k < hi - lo
    ensures |RawRows(lo, hi, half, mask, inside, outside)| > k
    ensures RawRows(lo, hi, half, mask, inside, outside)[k] == RawRow(lo + k, -half, half, mask, inside, outside)
    decreases k
  {
    var tail := RawRows(lo + 1, hi, half, mask, inside, outside);
    assert RawRows(lo, hi, half, mask, inside, outside) == [RawRow(lo, -half, half, mask, inside, outside)] + tail;
    if k > 0 {
      RawRowsAt(lo + 1, hi, half, mask, inside, outside, k - 1);
    }
  }

  lemma RawRowsFacts(lo: int, hi: int, half: int, mask: Mask, inside: real, outside: real)
    requires lo <= hi && half >= 0
    ensures |RawRows(lo, hi, half, mask, inside, outside)| == hi - lo
    ensures forall k :: 0 <= k < hi - lo ==>
              RawRows(lo, hi, half, mask, inside, outside)[k] == RawRow(lo + k, -half, half, mask, inside, outside)
    ensures IsMatrix(RawRows(lo, hi, half, mask, inside, outside))
    ensures lo < hi ==> Width(RawRows(lo, hi, half, mask, inside, outside)) == 2 * half
  {
    var g := RawRows(lo, hi, half, mask, inside, outside);
    RawRowsLength(lo, hi, half, mask, inside, outside);
    forall k | 0 <= k < hi - lo
      ensures g[k] == RawRow(lo + k, -half, half, mask, inside, outside) && |g[k]| == 2 * half
    {
      RawRowsAt(lo, hi, half, mask, inside, outside, k);
      RawRowFacts(lo + k, -half, half, mask, inside, outside);
    }
  }

  lemma {:induction false} RawRowsSum(lo: int, hi: int, half: int, mask: Mask, inside: real, outside: real)
    ensures Sum(Flatten(RawRows(lo, hi, half, mask, inside, outside)))
            == Repeat(outside, |Flatten(RawRows(lo, hi, half, mask, inside, outside))|)
               + Repeat(inside - outside, MaskCount(lo, hi, half, mask))
    decreases hi - lo
  {
    var g := RawRows(lo, hi, half, mask, inside, outside);
    if lo < hi {
      var row, tail := RawRow(lo, -half, half, mask, inside, outside), RawRows(lo + 1, hi, half, mask, inside, outside);
      RawRowsSum(lo + 1, hi, half, mask, inside, outside);
      RawRowSum(lo, -half, half, mask, inside, outside);
      assert g[0] == row && g[1..] == tail;
      assert Flatten(g) == row + Flatten(tail);
      SumAppend(row, Flatten(tail));
      RepeatAdd(outside, |row|, |Flatten(tail)|);
      RepeatAdd(inside - outside, RowCount(lo, -half, half, mask), MaskCount(lo + 1, hi, half, mask));
    }
  }

  // ---------------------------------------------------------------------------
  // Counting the disk cells

  lemma {:induction false} RowCountSplit(dy: int, lo: int, mid: int, hi: int, mask: Mask)
    requires lo <= mid <= hi
    ensures RowCount(dy, lo, hi, mask) == RowCount(dy, lo, mid, mask) + RowCount(dy, mid, hi, mask)
    decreases mid - lo
  {
    if lo < mid {
      RowCountSplit(dy, lo + 1, mid, hi, mask);
    }
  }

  /** A stretch of cells that all lie outside the mask counts nothing. */
  lemma {:induction false} RowCountOutside(dy: int, lo: int, hi: int, mask: Mask)
    requires forall dx :: lo <= dx < hi ==> !mask(dy, dx)
    ensures RowCount(dy, lo, hi, mask) == 0
    decreases hi - lo
  {
    if lo < hi {
      RowCountOutside(dy, lo + 1, hi, mask);
    }
  }

  lemma {:induction false} MaskCountSplit(lo: int, mid: int, hi: int, half: int, mask: Mask)
    requires lo <= mid <= hi
    ensures MaskCount(lo, hi, half, mask) == MaskCount(lo, mid, half, mask) + MaskCount(mid, hi, half, mask)
    decreases mid - lo
  {
    if lo < mid {
      MaskCountSplit(lo + 1, mid, hi, half, mask);
    }
  }

  lemma SquareAtLeast(a: int, m: int)
    requires m >= 0 && (a >= m || a <= -m)
    ensures a * a >= m * m
  {
    var n := if a >= 0 then a else -a;
    assert a * a == n * n by {
      if a < 0 {
        assert n * n == (-a) * (-a);
      }
    }
    var d := n - m;
    assert d >= 0;
    assert n * n == m * m + d * (2 * m + d);
    assert d * (2 * m + d) >= 0;
  }

  /** Offsets at least b+1 away on either axis lie outside a disk whose squared
      radius is below (b+1)^2. */
  lemma FarOutside(dy: int, dx: int, b: int, radius: real)
    requires b >= 0
    requires radius * radius < ((b + 1) * (b + 1)) as real
    requires dx > b || dx < -b || dy > b || dy < -b
    ensures !Disk(radius)(dy, dx)
  {
    if dx > b || dx < -b {
      SquareAtLeast(dx, b + 1);
      SquareAtLeast(dy, 0);
    } else {
      SquareAtLeast(dy, b + 1);
      SquareAtLeast(dx, 0);
    }
  }

  /** Rows further than b from the centre miss the disk entirely. */
  lemma {:induction false} FarRowsOutside(lo: int, hi: int, half: int, b: int, radius: real)
    requires b >= 0 && radius * radius < ((b + 1) * (b + 1)) as real
    requires lo > b || hi <= -b
    ensures MaskCount(lo, hi, half, Disk(radius)) == 0
    decreases hi - lo
  {
    if lo < hi {
      forall dx | -half <= dx < half ensures !Disk(radius)(lo, dx) { FarOutside(lo, dx, b, radius); }
      RowCountOutside(lo, -half, half, Disk(radius));
      FarRowsOutside(lo + 1, hi, half, b, radius);
    }
  }

  /** A stretch of cells that all lie under the mask counts every one of them. */
  lemma {:induction false} RowCountInside(dy: int, lo: int, hi: int, mask: Mask)
    requires lo <= hi
    requires forall dx :: lo <= dx < hi ==> mask(dy, dx)
    ensures RowCount(dy, lo, hi, mask) == hi - lo
    decreases hi - lo
  {
    if lo < hi {
      RowCountInside(dy, lo + 1, hi, mask);
    }
  }

  lemma SquareAtMost(a: int, m: int)
    requires -m <= a <= m
    ensures a * a <= m * m
  {
    var n := if a >= 0 then a else -a;
    assert 0 <= n <= m && a * a == n * n;
    assert m * m - n * n == (m - n) * (m + n);
  }

  /** Row dy meets the disk in the 2w+1 central cells exactly when w is the
      largest offset with w^2 + dy^2 within the squared radius. */
  lemma DiskRow(dy: int, w: int, half: int, radius: real)
    requires 0 <= w < half
    requires ((w * w + dy * dy) as real) <= radius * radius
    requires radius * radius < (((w + 1) * (w + 1) + dy * dy) as real)
    ensures RowCount(dy, -half, half, Disk(radius)) == 2 * w + 1
  {
    var mask := Disk(radius);
    RowCountSplit(dy, -half, -w, half, mask);
    RowCountSplit(dy, -w, w + 1, half, mask);
    forall dx | -half <= dx < -w ensures !mask(dy, dx) { SquareAtLeast(dx, w + 1); }
    forall dx | w + 1 <= dx < half ensures !mask(dy, dx) { SquareAtLeast(dx, w + 1); }
    forall dx | -w <= dx < w + 1 ensures mask(dy, dx) { SquareAtMost(dx, w); }
    RowCountOutside(dy, -half, -w, mask);
    RowCountOutside(dy, w + 1, half, mask);
    RowCountInside(dy, -w, w + 1, mask);
  }

  /** A disk whose squared radius is below (b+1)^2 lies within the rows [-b, b]. */
  lemma DiskCountWithin(half: int, b: int, radius: real)
    requires 0 <= b < half
    requires radius * radius < ((b + 1) * (b + 1)) as real
    ensures MaskCount(-half, half, half, Disk(radius)) == MaskCount(-b, b + 1, half, Disk(radius))
  {
    MaskCountSplit(-half, -b, half, half, Disk(radius));
    MaskCountSplit(-b, b + 1, half, half, Disk(radius));
    FarRowsOutside(-half, -b, half, b, radius);
    FarRowsOutside(b + 1, half, half, b, radius);
  }

  /** The current template's disk (radius 6) covers 113 cells of any grid wider than 13. */
  lemma DiskCellsRadius6(half: int)
    requires half > 6
    ensures MaskCount(-half, half, half, Disk(6.0)) == 113
  {
    DiskCountWithin(half, 6, 6.0);
    MaskCountSplit(-6, 0, 7, half, Disk(6.0));
    LowerRowsRadius6(half);
    UpperRowsRadius6(half);
  }

  lemma LowerRowsRadius6(half: int)
    requires half > 6
    ensures MaskCount(-6, 0, half, Disk(6.0)) == 50
  {
    DiskRow(-1, 5, half, 6.0);
    assert MaskCount(-1, 0, half, Disk(6.0)) == 11;
    DiskRow(-2, 5, half, 6.0);
    assert MaskCount(-2, 0, half, Disk(6.0)) == 22;
    DiskRow(-3, 5, half, 6.0);
    assert MaskCount(-3, 0, half, Disk(6.0)) == 33;
    DiskRow(-4, 4, half, 6.0);
    assert MaskCount(-4, 0, half, Disk(6.0)) == 42;
    DiskRow(-5, 3, half, 6.0);
    assert MaskCount(-5, 0, half, Disk(6.0)) == 49;
    DiskRow(-6, 0, half, 6.0);
    assert MaskCount(-6, 0, half, Disk(6.0)) == 50;
  }

  lemma UpperRowsRadius6(half: int)
    requires half > 6
    ensures MaskCount(0, 7, half, Disk(6.0)) == 63
  {
    DiskRow(6, 0, half, 6.0);
    assert MaskCount(6, 7, half, Disk(6.0)) == 1;
    DiskRow(5, 3, half, 6.0);
    assert MaskCount(5, 7, half, Disk(6.0)) == 8;
    DiskRow(4, 4, half, 6.0);
    assert MaskCount(4, 7, half, Disk(6.0)) == 17;
    DiskRow(3, 5, half, 6.0);
    assert MaskCount(3, 7, half, Disk(6.0)) == 28;
    DiskRow(2, 5, half, 6.0);
    assert MaskCount(2, 7, half, Disk(6.0)) == 39;
    DiskRow(1, 5, half, 6.0);
    assert MaskCount(1, 7, half, Disk(6.0)) == 50;
    DiskRow(0, 6, half, 6.0);
    assert MaskCount(0, 7, half, Disk(6.0)) == 63;
  }

  /** The legacy template's disk (radius 7.5) covers 177 cells of any grid wider than 15. */
  lemma DiskCellsRadius7_5(half: int)
    requires half > 7
    ensures MaskCount(-half, half, half, Disk(7.5)) == 177
  {
    DiskCountWithin(half, 7, 7.5);
    MaskCountSplit(-7, 0, 8, half, Disk(7.5));
    LowerRowsRadius7_5(half);
    UpperRowsRadius7_5(half);
  }

  lemma LowerRowsRadius7_5(half: int)
    requires half > 7
    ensures MaskCount(-7, 0, half, Disk(7.5)) == 81
  {
    DiskRow(-1, 7, half, 7.5);
    assert MaskCount(-1, 0, half, Disk(7.5)) == 15;
    DiskRow(-2, 7, half, 7.5);
    assert MaskCount(-2, 0, half, Disk(7.5)) == 30;
    DiskRow(-3, 6, half, 7.5);
    assert MaskCount(-3, 0, half, Disk(7.5)) == 43;
    DiskRow(-4, 6, half, 7.5);
    assert MaskCount(-4, 0, half, Disk(7.5)) == 56;
    DiskRow(-5, 5, half, 7.5);
    assert MaskCount(-5, 0, half, Disk(7.5)) == 67;
    DiskRow(-6, 4, half, 7.5);
    assert MaskCount(-6, 0, half, Disk(7.5)) == 76;
    DiskRow(-7, 2, half, 7.5);
    assert MaskCount(-7, 0, half, Disk(7.5)) == 81;
  }

  lemma UpperRowsRadius7_5(half: int)
    requires half > 7
    ensures MaskCount(0, 8, half, Disk(7.5)) == 96
  {
    DiskRow(7, 2, half, 7.5);
    assert MaskCount(7, 8, half, Disk(7.5)) == 5;
    DiskRow(6, 4, half, 7.5);
    assert MaskCount(6, 8, half, Disk(7.5)) == 14;
    DiskRow(5, 5, half, 7.5);
    assert MaskCount(5, 8, half, Disk(7.5)) == 25;
    DiskRow(4, 6, half, 7.5);
    assert MaskCount(4, 8, half, Disk(7.5)) == 38;
    DiskRow(3, 6, half, 7.5);
    assert MaskCount(3, 8, half, Disk(7.5)) == 51;
    DiskRow(2, 7, half, 7.5);
    assert MaskCount(2, 8, half, Disk(7.5)) == 66;
    DiskRow(1, 7, half, 7.5);
    assert MaskCount(1, 8, half, Disk(7.5)) == 81;
    DiskRow(0, 7, half, 7.5);
    assert MaskCount(0, 8, half, Disk(7.5)) == 96;
  }
}
