// Cluster-vertex quality: support for the estimated vertex compared with the support at two
// control positions 10 length units below and above it.

module VertexQuality {
  import opened PixelHits

  /** Distance from the estimate to each of the two control positions. */
  const ControlOffset: real := 10.0

  /** Ratio reported when only the estimate itself has support (A/0). */
  const Sentinel: real := 1000.0

  /**
   * clusVtxQual: twice the count at the estimate over the summed control counts, the
   * sentinel when only the estimate has hits, and 0 when nothing is contained anywhere.
   */
  function QualityRatio(nbest: nat, nminus: nat, nplus: nat): (q: real)
    ensures q >= 0.0
    ensures q == 0.0 <==> nbest == 0
    ensures nminus + nplus > 0 ==> q * ((nminus + nplus) as real) == 2.0 * (nbest as real)
    ensures nminus + nplus == 0 && nbest > 0 ==> q == Sentinel
  {
    if nminus + nplus > 0 then (2.0 * (nbest as real)) / ((nminus + nplus) as real)
    else if nbest > 0 then Sentinel
    else 0.0
  }

  /** Dividing by a positive denominator: the quotient reaches 1 exactly when b reaches d. */
  lemma QuotientAtLeastOne(b: real, d: real)
    requires d > 0.0
    ensures b / d >= 1.0 <==> b >= d
  {
    var q := b / d;
    assert q * d == b;
    if q >= 1.0 {
      var e := q - 1.0;
      assert e * d >= 0.0;
      assert b == d + e * d;
    } else {
      var e := 1.0 - q;
      assert e * d > 0.0;
      assert b == d - e * d;
    }
  }

  /** The ratio is at least 1 exactly when the estimate has at least the mean control support. */
  lemma QualityAtLeastOne(nbest: nat, nminus: nat, nplus: nat)
    requires nminus + nplus > 0
    ensures QualityRatio(nbest, nminus, nplus) >= 1.0 <==> 2 * nbest >= nminus + nplus
  {
    QuotientAtLeastOne(2.0 * (nbest as real), (nminus + nplus) as real);
  }

  /** The quality-ratio step of analyze: the three window counts around zest and the ratio formed from them. */
  method ClusterVertexQuality(hits: seq<Hit>, zest: real) returns (clusVtxQual: real)
    requires RadiiPositive(hits)
    ensures clusVtxQual == QualityRatio(ContainedCount(hits, zest),
                                        ContainedCount(hits, zest - ControlOffset),
                                        ContainedCount(hits, zest + ControlOffset))
  {
    var chi := 0.0;
    var nbest, nminus, nplus := 0, 0, 0;
    nbest, chi := GetContainedHits(hits, zest);
    nminus, chi := GetContainedHits(hits, zest - 10.0);
    nplus, chi := GetContainedHits(hits, zest + 10.0);

    clusVtxQual := 0.0;
    if nminus + nplus > 0 {
      clusVtxQual := (2.0 * (nbest as real)) / ((nminus + nplus) as real);
    } else if nbest > 0 {
      clusVtxQual := 1000.0;
    } else {
      clusVtxQual := 0.0;
    }
  }
}
