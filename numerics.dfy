/**
 * The numeric library calls the pinhole search makes (`np.median`, `np.std`,
 * `scipy.signal.correlate2d` and `ndimage.center_of_mass`), kept abstract:
 * a `NumPy` value bundles one implementation of each, and `Sound` states the
 * few facts about them the search relies on.
 */
module Numerics {
  import opened Common

  datatype NumPy = NumPy(
    /** `np.median` of a flattened array; NaN on an empty one. */
    median: seq<real> -> Float,
    /** `np.std` (population standard deviation) of a non-empty array. */
    std: seq<real> -> real,
    /** `correlate2d(data, template, boundary='symm', mode='same')`. */
    correlate: (Grid, Grid) -> Grid,
    /** `center_of_mass` of a window: the (row, column) centroid. */
    centerOfMass: Grid -> (Float, Float))

  /** The library calls, one function each, so that every use of a call is
      the same term. */
  function Median(np: NumPy, s: seq<real>): Float { np.median(s) }
  function Std(np: NumPy, s: seq<real>): real { np.std(s) }
  function Correlate(np: NumPy, g: Grid, t: Grid): Grid { np.correlate(g, t) }
  function CenterOfMass(np: NumPy, w: Grid): (Float, Float) { np.centerOfMass(w) }

  /** Marks a value the search applies the library to. The clauses of `Sound`
      fire only at marked values, which the lemmas below mark one at a time;
      left to fire at every median term, they send the solver unfolding
      `Min` and `Max` of every flattened grid in sight. */
  ghost predicate Asked<T>(x: T) {
    true
  }

  /** What the search may assume of the library: the median of a non-empty
      array lies between its extremes and is NaN on an empty one, the standard
      deviation is never negative, a 'same'-mode correlation has the shape of
      its data, and the centroid of an empty window is NaN on both axes. */
  ghost predicate Sound(np: NumPy) {
    (forall s {:trigger Asked(s)} :: |s| > 0 ==> Median(np, s).Finite? && Min(s) <= Median(np, s).v <= Max(s))
    && (forall s: seq<real> {:trigger Asked(s)} :: |s| == 0 ==> Median(np, s) == NonFinite)
    && (forall s: seq<real> {:trigger Asked(s)} :: Std(np, s) >= 0.0)
    && (forall g: Grid, t: Grid {:trigger Asked((g, t))} :: IsMatrix(g) ==> SameShape(Correlate(np, g, t), g))
    && (forall w: Grid {:trigger Asked(w)} :: Size(w) == 0 ==> CenterOfMass(np, w) == (NonFinite, NonFinite))
  }

  /** A stand-in median (the smallest element), used only to show that `Sound`
      can be met. */
  function MinimumAsMedian(s: seq<real>): Float {
    if |s| == 0 then NonFinite else Finite(Min(s))
  }

  /** `Sound` is satisfiable: a library whose median is the minimum, whose
      deviation is zero, whose correlation returns its data and whose centroid
      is always NaN meets every clause. */
  lemma SoundIsSatisfiable()
    ensures Sound(NumPy(MinimumAsMedian, s => 0.0, (g, t) => g, w => (NonFinite, NonFinite)))
  {
    var np := NumPy(MinimumAsMedian, s => 0.0, (g, t) => g, w => (NonFinite, NonFinite));
    forall s | |s| > 0 ensures Median(np, s).Finite? && Min(s) <= Median(np, s).v <= Max(s) {
      var k :| 0 <= k < |s| && Min(s) == s[k];
    }
    forall s: seq<real> | |s| == 0 ensures Median(np, s) == NonFinite {
    }
    forall s: seq<real> ensures Std(np, s) >= 0.0 {
    }
    forall g: Grid, t: Grid | IsMatrix(g) ensures SameShape(Correlate(np, g, t), g) {
    }
    forall w: Grid | Size(w) == 0 ensures CenterOfMass(np, w) == (NonFinite, NonFinite) {
    }
  }

  lemma CorrelateKeepsShape(np: NumPy, g: Grid, t: Grid)
    requires Sound(np) && IsMatrix(g)
    ensures SameShape(Correlate(np, g, t), g)
  {
    assert Asked((g, t));
  }

  lemma MedianBounds(np: NumPy, s: seq<real>)
    requires Sound(np) && |s| > 0
    ensures Median(np, s).Finite? && Min(s) <= Median(np, s).v <= Max(s)
    ensures Std(np, s) >= 0.0
  {
    assert Asked(s);
  }

  lemma CentroidOfEmpty(np: NumPy, w: Grid)
    requires Sound(np) && Size(w) == 0
    ensures CenterOfMass(np, w) == (NonFinite, NonFinite)
  {
    assert Asked(w);
  }
}
