/**
 * Shared vocabulary of the pinhole search model: optional values, the
 * finite-or-NaN doubles the numeric code produces, Python's `int()` on a float,
 * Python slice normalisation, and row-major pixel grids.
 */
module Common {

  datatype Option<+T> = None | Some(value: T)

  /** A double as the source sees it: a finite number, or NaN/infinity. */
  datatype Float = Finite(v: real) | NonFinite

  /** `a + b` on doubles where `b` is finite: NaN and infinities propagate. */
  function Plus(a: Float, b: real): (r: Float)
    ensures r.Finite? <==> a.Finite?
    ensures r.Finite? ==> r.v - b == a.v
  {
    match a
    case Finite(x) => Finite(x + b)
    case NonFinite => NonFinite
  }

  /** Python's `int()` applied to a float: truncation toward zero, not rounding. */
  function Trunc(x: real): (n: int)
    ensures 0.0 <= x ==> 0 <= n && n as real <= x < n as real + 1.0
    ensures x < 0.0 ==> n <= 0 && n as real - 1.0 < x <= n as real
  {
    if x >= 0.0 then x.Floor else -((-x).Floor)
  }

  // ---------------------------------------------------------------------------
  // Python slices with step 1

  /** Where a slice bound `i` lands in a sequence of length `len`: a negative
      bound counts from the end, and the result is clamped to [0, len]. */
  function SliceBound(i: int, len: nat): (k: nat)
    ensures k <= len
    ensures 0 <= i <= len ==> k == i
    ensures i > len ==> k == len
    ensures i < 0 && 0 <= i + len ==> k == i + len
    ensures i + len < 0 ==> k == 0
  {
    if i < 0 then (if i + len < 0 then 0 else i + len)
    else if i > len then len
    else i
  }

  /** `s[start:stop]`: never fails; a start at or after the stop gives []. */
  function Slice<T>(s: seq<T>, start: int, stop: int): (r: seq<T>)
    ensures SliceBound(start, |s|) < SliceBound(stop, |s|) ==>
              r == s[SliceBound(start, |s|)..SliceBound(stop, |s|)]
    ensures SliceBound(start, |s|) >= SliceBound(stop, |s|) ==> r == []
  {
    var lo, hi := SliceBound(start, |s|), SliceBound(stop, |s|);
    if lo < hi then s[lo..hi] else []
  }

  /** Number of elements `s[start:stop]` has in a sequence of length `len`. */
  function SliceLength(start: int, stop: int, len: nat): (n: nat)
    ensures n <= len
  {
    var lo, hi := SliceBound(start, len), SliceBound(stop, len);
    if lo < hi then hi - lo else 0
  }

  lemma SliceAt<T>(s: seq<T>, start: int, stop: int, k: nat)
    requires k < SliceLength(start, stop, |s|)
    ensures |Slice(s, start, stop)| == SliceLength(start, stop, |s|)
    ensures SliceBound(start, |s|) + k < |s|
    ensures Slice(s, start, stop)[k] == s[SliceBound(start, |s|) + k]
  {
  }

  // ---------------------------------------------------------------------------
  // Pixel grids, row-major: g[row][col]

  type Grid = seq<seq<real>>

  /** Every row has the same length, as in a 2-D numpy array. */
  ghost predicate IsMatrix(g: Grid) {
    forall i :: 0 <= i < |g| ==> |g[i]| == Width(g)
  }

  function Width(g: Grid): nat {
    if |g| == 0 then 0 else |g[0]|
  }

  ghost predicate SameShape(a: Grid, b: Grid) {
    IsMatrix(a) && IsMatrix(b) && |a| == |b| && Width(a) == Width(b)
  }

  /** `g[r0:r1, c0:c1]` with numpy's slice semantics on both axes. */
  function Crop(g: Grid, r0: int, r1: int, c0: int, c1: int): (w: Grid)
    ensures |w| == SliceLength(r0, r1, |g|)
  {
    var rows := Slice(g, r0, r1);
    seq(|rows|, i requires 0 <= i < |rows| => Slice(rows[i], c0, c1))
  }

  /** The row-major flattening numpy reductions (median, mean, argmax) work on. */
  function Flatten(g: Grid): (s: seq<real>)
    decreases |g|
  {
    if |g| == 0 then [] else g[0] + Flatten(g[1..])
  }

  /** Number of pixels in a grid. */
  function Size(g: Grid): nat {
    |Flatten(g)|
  }

  /** `g` with every pixel mapped through `x => (x - shift) / scale + offset`. */
  function Affine(g: Grid, shift: real, scale: real, offset: real): (r: Grid)
    requires scale != 0.0
    ensures |r| == |g|
    ensures forall i :: 0 <= i < |g| ==> |r[i]| == |g[i]|
  {
    seq(|g|, i requires 0 <= i < |g| =>
      seq(|g[i]|, j requires 0 <= j < |g[i]| => (g[i][j] - shift) / scale + offset))
  }

  /** `g - c`: every pixel lowered by the same constant. */
  function Offset(g: Grid, c: real): (r: Grid)
    ensures |r| == |g|
    ensures forall i :: 0 <= i < |g| ==> |r[i]| == |g[i]|
  {
    seq(|g|, i requires 0 <= i < |g| => seq(|g[i]|, j requires 0 <= j < |g[i]| => g[i][j] - c))
  }

  // ---------------------------------------------------------------------------
  // Reductions on flattened data

  function Sum(s: seq<real>): real
    decreases |s|
  {
    if |s| == 0 then 0.0 else s[0] + Sum(s[1..])
  }

  /** `np.mean`: NaN on an empty array. */
  function Mean(s: seq<real>): (m: Float)
    ensures m.Finite? <==> |s| > 0
    ensures m.Finite? ==> m.v * |s| as real == Sum(s)
  {
    if |s| == 0 then NonFinite else Finite(Sum(s) / |s| as real)
  }

  /** `np.min` on a non-empty array (numpy raises on an empty one). */
  function Min(s: seq<real>): (m: real)
    requires |s| > 0
    ensures forall k :: 0 <= k < |s| ==> m <= s[k]
    ensures exists k :: 0 <= k < |s| && m == s[k]
    decreases |s|
  {
    if |s| == 1 then s[0]
    else
      var rest := Min(s[1..]);
      assert forall k :: 1 <= k < |s| ==> s[k] == s[1..][k - 1];
      if s[0] <= rest then s[0] else rest
  }

  /** `np.max` on a non-empty array. */
  function Max(s: seq<real>): (m: real)
    requires |s| > 0
    ensures forall k :: 0 <= k < |s| ==> s[k] <= m
    ensures exists k :: 0 <= k < |s| && m == s[k]
    decreases |s|
  {
    if |s| == 1 then s[0]
    else
      var rest := Max(s[1..]);
      assert forall k :: 1 <= k < |s| ==> s[k] == s[1..][k - 1];
      if s[0] >= rest then s[0] else rest
  }

  /** `np.argmax`: the FIRST index holding the largest value. */
  function ArgMax(s: seq<real>): (k: nat)
    requires |s| > 0
    ensures k < |s|
    ensures forall j :: 0 <= j < |s| ==> s[j] <= s[k]
    ensures forall j :: 0 <= j < k ==> s[j] < s[k]
    decreases |s|
  {
    if |s| == 1 then 0
    else
      var k := ArgMax(s[..|s| - 1]);
      assert forall j :: 0 <= j < |s| - 1 ==> s[j] == s[..|s| - 1][j];
      if s[|s| - 1] > s[k] then |s| - 1 else k
  }

  // ---------------------------------------------------------------------------
  // Lemmas about the reductions

  lemma {:induction false} SumAppend(a: seq<real>, b: seq<real>)
    ensures Sum(a + b) == Sum(a) + Sum(b)
    decreases |a|
  {
    if |a| == 0 {
      assert a + b == b;
    } else {
      assert (a + b)[1..] == a[1..] + b;
      SumAppend(a[1..], b);
    }
  }

  /** Subtracting a constant from every element lowers the sum by |s| times it. */
  lemma {:induction false} SumShift(s: seq<real>, c: real)
    ensures Sum(seq(|s|, i requires 0 <= i < |s| => s[i] - c)) == Sum(s) - |s| as real * c
    decreases |s|
  {
    var t := seq(|s|, i requires 0 <= i < |s| => s[i] - c);
    if |s| > 0 {
      var u := seq(|s| - 1, i requires 0 <= i < |s| - 1 => s[1..][i] - c);
      assert t[1..] == u;
      SumShift(s[1..], c);
    }
  }

  /** Subtracting its own mean leaves a sequence summing to zero. */
  lemma SumCentred(s: seq<real>)
    requires |s| > 0
    ensures Sum(seq(|s|, i requires 0 <= i < |s| => s[i] - Mean(s).v)) == 0.0
  {
    SumShift(s, Mean(s).v);
  }

  lemma {:induction false} FlattenMatrix(g: Grid)
    requires IsMatrix(g)
    ensures |Flatten(g)| == |g| * Width(g)
    decreases |g|
  {
    if |g| > 0 {
      assert IsMatrix(g[1..]) && (|g| > 1 ==> Width(g[1..]) == Width(g)) by {
        assert forall i :: 0 <= i < |g| - 1 ==> g[1..][i] == g[i + 1];
      }
      FlattenMatrix(g[1..]);
    }
  }

  /** Pixel (i, j) of a matrix sits at index i * Width + j of its flattening. */
  lemma {:induction false} FlattenAt(g: Grid, i: nat, j: nat)
    requires IsMatrix(g) && i < |g| && j < Width(g)
    ensures |Flatten(g)| == |g| * Width(g)
    ensures i * Width(g) + j < |Flatten(g)|
    ensures Flatten(g)[i * Width(g) + j] == g[i][j]
    decreases i
  {
    FlattenMatrix(g);
    var w := Width(g);
    assert i * w + j < |g| * w by {
      assert i * w + j < (i + 1) * w;
      assert (i + 1) * w <= |g| * w;
    }
    if i > 0 {
      assert IsMatrix(g[1..]) && Width(g[1..]) == w by {
        assert forall k :: 0 <= k < |g| - 1 ==> g[1..][k] == g[k + 1];
      }
      FlattenAt(g[1..], i - 1, j);
      assert (i - 1) * w + j + w == i * w + j;
    }
  }

  /** The flattening of a non-empty matrix with non-empty rows is non-empty. */
  lemma FlattenNonEmpty(g: Grid)
    requires IsMatrix(g) && |g| > 0 && Width(g) > 0
    ensures |Flatten(g)| > 0
  {
    FlattenAt(g, 0, 0);
  }

  /** Flattening commutes with lowering every pixel by a constant. */
  lemma {:induction false} FlattenOffset(g: Grid, c: real)
    ensures Flatten(Offset(g, c)) == seq(|Flatten(g)|, k requires 0 <= k < |Flatten(g)| => Flatten(g)[k] - c)
    decreases |g|
  {
    var f := Flatten(g);
    if |g| > 0 {
      var o := Offset(g, c);
      assert o[1..] == Offset(g[1..], c);
      FlattenOffset(g[1..], c);
      var rest := Flatten(g[1..]);
      assert f == g[0] + rest;
      assert Flatten(o) == o[0] + Flatten(o[1..]);
      assert forall k :: 0 <= k < |g[0]| ==> f[k] == g[0][k];
      assert forall k :: |g[0]| <= k < |f| ==> f[k] == rest[k - |g[0]|];
    }
  }

  /** A grid minus its own mean sums to zero. */
  lemma CentredGridSumsToZero(g: Grid)
    requires Size(g) > 0
    ensures Sum(Flatten(Offset(g, Mean(Flatten(g)).v))) == 0.0
  {
    var f, m := Flatten(g), Mean(Flatten(g)).v;
    FlattenOffset(g, m);
    SumCentred(f);
    var centred := seq(|f|, i requires 0 <= i < |f| => f[i] - m);
    assert Flatten(Offset(g, m)) == centred;
  }

  /** A matrix has pixels exactly when it has rows and columns. */
  lemma SizeOfMatrix(g: Grid)
    requires IsMatrix(g)
    ensures Size(g) == |g| * Width(g)
    ensures Size(g) > 0 <==> |g| > 0 && Width(g) > 0
  {
    FlattenMatrix(g);
    if |g| > 0 && Width(g) > 0 {
      FlattenAt(g, 0, 0);
    }
  }

  /** Every pixel appears in the flattening, and nothing else does. */
  lemma {:induction false} FlattenMembers(g: Grid)
    ensures forall i, j :: 0 <= i < |g| && 0 <= j < |g[i]| ==> g[i][j] in Flatten(g)
    ensures forall x :: x in Flatten(g) ==> exists i, j :: 0 <= i < |g| && 0 <= j < |g[i]| && g[i][j] == x
    decreases |g|
  {
    if |g| > 0 {
      FlattenMembers(g[1..]);
      assert Flatten(g) == g[0] + Flatten(g[1..]);
      forall x | x in Flatten(g)
        ensures exists i, j :: 0 <= i < |g| && 0 <= j < |g[i]| && g[i][j] == x
      {
        if x in g[0] {
          var j :| 0 <= j < |g[0]| && g[0][j] == x;
        } else {
          var i, j :| 0 <= i < |g[1..]| && 0 <= j < |g[1..][i]| && g[1..][i][j] == x;
          assert g[i + 1][j] == x;
        }
      }
    }
  }

  /** Cropping a matrix gives a matrix. */
  lemma CropMatrix(g: Grid, r0: int, r1: int, c0: int, c1: int)
    requires IsMatrix(g)
    ensures IsMatrix(Crop(g, r0, r1, c0, c1))
    ensures |Crop(g, r0, r1, c0, c1)| > 0 ==> Width(Crop(g, r0, r1, c0, c1)) == SliceLength(c0, c1, Width(g))
  {
    var w := Crop(g, r0, r1, c0, c1);
    forall i | 0 <= i < |w| ensures |w[i]| == SliceLength(c0, c1, Width(g)) {
      SliceAt(g, r0, r1, i);
    }
  }

  /** Inside the grid, pixel (i, j) of a crop is pixel (r0 + i, c0 + j). */
  lemma CropAt(g: Grid, r0: int, r1: int, c0: int, c1: int, i: nat, j: nat)
    requires IsMatrix(g)
    requires 0 <= r0 <= r1 <= |g| && 0 <= c0 <= c1 <= Width(g)
    requires i < r1 - r0 && j < c1 - c0
    ensures |Crop(g, r0, r1, c0, c1)| == r1 - r0
    ensures |Crop(g, r0, r1, c0, c1)[i]| == c1 - c0
    ensures Crop(g, r0, r1, c0, c1)[i][j] == g[r0 + i][c0 + j]
  {
    SliceAt(g, r0, r1, i);
    SliceAt(g[r0 + i], c0, c1, j);
  }

  /** A crop that lies inside the grid is the block it names, cell by cell. */
  lemma CropBlock(g: Grid, r0: int, r1: int, c0: int, c1: int)
    requires IsMatrix(g)
    requires 0 <= r0 <= r1 <= |g| && 0 <= c0 <= c1 <= Width(g)
    ensures |Crop(g, r0, r1, c0, c1)| == r1 - r0
    ensures forall i, j :: 0 <= i < r1 - r0 && 0 <= j < c1 - c0 ==>
      |Crop(g, r0, r1, c0, c1)[i]| == c1 - c0 && Crop(g, r0, r1, c0, c1)[i][j] == g[r0 + i][c0 + j]
  {
    var cut := Crop(g, r0, r1, c0, c1);
    forall i, j | 0 <= i < r1 - r0 && 0 <= j < c1 - c0
      ensures |cut[i]| == c1 - c0 && cut[i][j] == g[r0 + i][c0 + j]
    {
      CropAt(g, r0, r1, c0, c1, i, j);
    }
  }
}
