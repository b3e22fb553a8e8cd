// Hits handed to the vertex estimate, and the "v-shaped window" test that decides
// whether a hit's cluster width is compatible with a candidate vertex position.

module PixelHits {

  /** One barrel pixel hit: global z, transverse radius r and cluster length w along z. */
  datatype Hit = Hit(z: real, r: real, w: real)

  /** Half-width of the compatibility window around the predicted cluster width. */
  const Window: real := 1.0

  function Abs(x: real): (a: real)
    ensures a >= 0.0
    ensures a == x || a == -x
  {
    if x < 0.0 then -x else x
  }

  /** Every hit has a positive radius, so the predicted width is defined. */
  predicate RadiiPositive(hits: seq<Hit>) {
    forall i :: 0 <= i < |hits| ==> hits[i].r > 0.0
  }

  /** Cluster width expected for a track from z0 through hit h: it grows with |z - z0| / r. */
  function Predicted(h: Hit, z0: real): (p: real)
    requires h.r > 0.0
    ensures p >= 0.5
    ensures z0 == h.z ==> p == 0.5
  {
    2.0 * Abs(h.z - z0) / h.r + 0.5
  }

  /** Distance between the observed and the predicted cluster width. */
  function Deviation(h: Hit, z0: real): real
    requires h.r > 0.0
  {
    Abs(Predicted(h, z0) - h.w)
  }

  predicate Contained(h: Hit, z0: real)
    requires h.r > 0.0
  {
    Deviation(h, z0) <= Window
  }

  /** Number of hits inside the window of z0 (specification of getContainedHits' result). */
  function ContainedCount(hits: seq<Hit>, z0: real): nat
    requires RadiiPositive(hits)
  {
    if |hits| == 0 then 0
    else
      var last := hits[|hits| - 1];
      ContainedCount(hits[..|hits| - 1], z0) + (if Contained(last, z0) then 1 else 0)
  }

  /** Sum of the deviations of the contained hits only (specification of the chi output). */
  function ResidualSum(hits: seq<Hit>, z0: real): real
    requires RadiiPositive(hits)
  {
    if |hits| == 0 then 0.0
    else
      var last := hits[|hits| - 1];
      ResidualSum(hits[..|hits| - 1], z0) + (if Contained(last, z0) then Deviation(last, z0) else 0.0)
  }

  /** Indices of the contained hits: an independent, non-recursive view of the count. */
  ghost function ContainedIndices(hits: seq<Hit>, z0: real): set<int>
    requires RadiiPositive(hits)
  {
    set i | 0 <= i < |hits| && Contained(hits[i], z0)
  }

  lemma {:induction false} ContainedCountBounded(hits: seq<Hit>, z0: real)
    requires RadiiPositive(hits)
    ensures ContainedCount(hits, z0) <= |hits|
  {
    if |hits| > 0 {
      ContainedCountBounded(hits[..|hits| - 1], z0);
    }
  }

  /** The count is exactly the number of hits whose width lies within the window. */
  lemma {:induction false} ContainedCountIsCardinality(hits: seq<Hit>, z0: real)
    requires RadiiPositive(hits)
    ensures ContainedCount(hits, z0) == |ContainedIndices(hits, z0)|
  {
    if |hits| > 0 {
      var n := |hits| - 1;
      var front := hits[..n];
      ContainedCountIsCardinality(front, z0);
      assert forall i :: 0 <= i < n ==> front[i] == hits[i];
      if Contained(hits[n], z0) {
        assert ContainedIndices(hits, z0) == ContainedIndices(front, z0) + {n};
      } else {
        assert ContainedIndices(hits, z0) == ContainedIndices(front, z0);
      }
    }
  }

  /** Each contained hit contributes at most the window half-width, so 0 <= chi <= n. */
  lemma {:induction false} ResidualSumBounds(hits: seq<Hit>, z0: real)
    requires RadiiPositive(hits)
    ensures 0.0 <= ResidualSum(hits, z0) <= ContainedCount(hits, z0) as real
  {
    if |hits| > 0 {
      ResidualSumBounds(hits[..|hits| - 1], z0);
    }
  }

  /**
   * getContainedHits: counts the hits inside the window of z0 and returns the residual sum
   * chi of those hits. chi is an output only: it is zeroed before the loop, so the value the
   * caller's variable held before the call plays no part in it.
   */
  method GetContainedHits(hits: seq<Hit>, z0: real) returns (n: int, chi: real)
    requires RadiiPositive(hits)
    ensures n == ContainedCount(hits, z0)
    ensures chi == ResidualSum(hits, z0)
    ensures 0 <= n <= |hits|
    ensures 0.0 <= chi <= n as real
  {
    n := 0;
    chi := 0.0;
    for i := 0 to |hits|
      invariant n == ContainedCount(hits[..i], z0)
      invariant chi == ResidualSum(hits[..i], z0)
    {
      assert hits[..i + 1][..i] == hits[..i];
      var p := 2.0 * Abs(hits[i].z - z0) / hits[i].r + 0.5;
      if Abs(p - hits[i].w) <= 1.0 {
        chi := chi + Abs(p - hits[i].w);
        n := n + 1;
      }
    }
    assert hits[..|hits|] == hits;
    ContainedCountBounded(hits, z0);
    ResidualSumBounds(hits, z0);
  }
}
