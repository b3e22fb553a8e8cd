// The analyzer object: configuration read once, and per event the two recorded outputs
// (the accept flag and the pixel-hit multiplicity) computed from the event's pixel rechits.

module ClusterShapeAnalyzer {
  import opened PixelHits
  import opened VertexScan
  import opened VertexQuality
  import opened AcceptanceCut

  /**
   * One pixel rechit with the detector lookups already resolved: whether it is valid, whether
   * it sits in the barrel, whether any of its pixels is an edge pixel, and its global position
   * and cluster length.
   */
  datatype RawHit = RawHit(valid: bool, inBarrel: bool, onEdge: bool, pos: Hit)

  /** The rechit collection of an event, or its absence (an invalid handle). */
  datatype RecHits = Missing | Present(hits: seq<RawHit>)

  /** A rechit that reaches the vertex estimate: valid, in the barrel, no edge pixel. */
  predicate UsedForVertex(h: RawHit) {
    h.valid && h.inBarrel && !h.onEdge
  }

  /** nPxlHits: every valid rechit, counted before the barrel and edge filters. */
  function ValidCount(raw: seq<RawHit>): nat {
    if |raw| == 0 then 0
    else ValidCount(raw[..|raw| - 1]) + (if raw[|raw| - 1].valid then 1 else 0)
  }

  /** vhits: the positions of the rechits used for the vertex, in collection order. */
  function VertexHits(raw: seq<RawHit>): seq<Hit> {
    if |raw| == 0 then []
    else VertexHits(raw[..|raw| - 1]) + (if UsedForVertex(raw[|raw| - 1]) then [raw[|raw| - 1].pos] else [])
  }

  /** Every rechit that reaches the vertex estimate has a positive radius. */
  predicate RadiiResolved(raw: seq<RawHit>) {
    forall i :: 0 <= i < |raw| && UsedForVertex(raw[i]) ==> raw[i].pos.r > 0.0
  }

  /** A hit is handed to the scan exactly when some used rechit has that position. */
  lemma {:induction false} VertexHitsMembership(raw: seq<RawHit>, h: Hit)
    ensures h in VertexHits(raw) <==> exists i :: 0 <= i < |raw| && UsedForVertex(raw[i]) && raw[i].pos == h
  {
    if |raw| > 0 {
      var n := |raw| - 1;
      VertexHitsMembership(raw[..n], h);
      assert forall i :: 0 <= i < n ==> raw[..n][i] == raw[i];
      if exists i :: 0 <= i < |raw| && UsedForVertex(raw[i]) && raw[i].pos == h {
        var i :| 0 <= i < |raw| && UsedForVertex(raw[i]) && raw[i].pos == h;
        if i < n {
          assert raw[..n][i] == raw[i];
        }
      }
    }
  }

  lemma {:induction false} VertexHitsRadii(raw: seq<RawHit>)
    requires RadiiResolved(raw)
    ensures RadiiPositive(VertexHits(raw))
  {
    forall i | 0 <= i < |VertexHits(raw)|
      ensures VertexHits(raw)[i].r > 0.0
    {
      var h := VertexHits(raw)[i];
      VertexHitsMembership(raw, h);
    }
  }

  /** nPxlHits is at least the number of hits handed to the scan. */
  lemma {:induction false} VertexHitsAtMostValid(raw: seq<RawHit>)
    ensures |VertexHits(raw)| <= ValidCount(raw)
  {
    if |raw| > 0 {
      VertexHitsAtMostValid(raw[..|raw| - 1]);
    }
  }

  /**
   * The decision for an event with vertex hits `hits` and multiplicity nPxl: some position
   * the scan may return gives a quality ratio, and accept says it is not below the cut.
   */
  ghost predicate EventDecision(hits: seq<Hit>, nPxl: int, minZ: real, maxZ: real, zStep: real,
                                pars: seq<real>, nhitsTrunc: int, clusterTrunc: real, accept: bool)
    requires RadiiPositive(hits) && zStep > 0.0
  {
    exists zest :: ScanSelects(hits, minZ, maxZ, zStep, zest) &&
      accept == Accept(QualityRatio(ContainedCount(hits, zest),
                                    ContainedCount(hits, zest - ControlOffset),
                                    ContainedCount(hits, zest + ControlOffset)),
                       Cut(pars, nPxl, nhitsTrunc, clusterTrunc))
  }

  /** Below nhitsTrunc the cut is 0 and the ratio is never negative: every event passes. */
  lemma BelowTruncAccepted(hits: seq<Hit>, nPxl: int, minZ: real, maxZ: real, zStep: real,
                           pars: seq<real>, nhitsTrunc: int, clusterTrunc: real, accept: bool)
    requires RadiiPositive(hits) && zStep > 0.0
    requires nPxl < nhitsTrunc
    requires EventDecision(hits, nPxl, minZ, maxZ, zStep, pars, nhitsTrunc, clusterTrunc, accept)
    ensures accept
  {
    var zest :| ScanSelects(hits, minZ, maxZ, zStep, zest) &&
      accept == Accept(QualityRatio(ContainedCount(hits, zest),
                                    ContainedCount(hits, zest - ControlOffset),
                                    ContainedCount(hits, zest + ControlOffset)),
                       Cut(pars, nPxl, nhitsTrunc, clusterTrunc));
  }

  class UPCPixelClusterShapeAnalyzer {
    const minZ: real
    const maxZ: real
    const zStep: real
    const clusterPars: seq<real>
    const nhitsTrunc: int
    const clusterTrunc: real

    /** Recorded per event: the number of valid pixel rechits. */
    var nPxlHits: int
    /** Recorded per event: the filter decision. */
    var accept: bool

    constructor (minZ: real, maxZ: real, zStep: real, clusterPars: seq<real>,
                 nhitsTrunc: int, clusterTrunc: real)
      ensures this.minZ == minZ && this.maxZ == maxZ && this.zStep == zStep
      ensures this.clusterPars == clusterPars
      ensures this.nhitsTrunc == nhitsTrunc && this.clusterTrunc == clusterTrunc
    {
      this.minZ := minZ;
      this.maxZ := maxZ;
      this.zStep := zStep;
      this.clusterPars := clusterPars;
      this.nhitsTrunc := nhitsTrunc;
      this.clusterTrunc := clusterTrunc;
    }

    /**
     * analyze: without a rechit collection the event is accepted and nPxlHits keeps its
     * previous value; otherwise nPxlHits counts the valid rechits and accept is the decision
     * on the filtered hits.
     */
    method Analyze(event: RecHits)
      requires zStep > 0.0
      requires event.Present? ==> RadiiResolved(event.hits)
      modifies this
      ensures event.Missing? ==> accept && nPxlHits == old(nPxlHits)
      ensures event.Present? ==> nPxlHits == ValidCount(event.hits)
      ensures event.Present? ==> |VertexHits(event.hits)| <= nPxlHits
      ensures event.Present? ==>
        RadiiPositive(VertexHits(event.hits)) &&
        EventDecision(VertexHits(event.hits), nPxlHits, minZ, maxZ, zStep,
                      clusterPars, nhitsTrunc, clusterTrunc, accept)
    {
      accept := true;
      if event.Present? {
        var raw := event.hits;
        nPxlHits := 0;
        var vhits: seq<Hit> := [];
        for i := 0 to |raw|
          invariant nPxlHits == ValidCount(raw[..i])
          invariant vhits == VertexHits(raw[..i])
          invariant accept
        {
          assert raw[..i + 1][..i] == raw[..i];
          if !raw[i].valid {
            continue;
          }
          nPxlHits := nPxlHits + 1;
          if !raw[i].inBarrel {
            continue;
          }
          if raw[i].onEdge {
            continue;
          }
          vhits := vhits + [raw[i].pos];
        }
        assert raw[..|raw|] == raw;
        VertexHitsRadii(raw);
        VertexHitsAtMostValid(raw);

        var zest := EstimateZ(vhits, minZ, maxZ, zStep);
        var clusVtxQual := ClusterVertexQuality(vhits, zest);
        var polyCut := PolyCut(clusterPars, nPxlHits, nhitsTrunc, clusterTrunc);
        if clusVtxQual < polyCut {
          accept := false;
        }
        assert accept == Accept(clusVtxQual, polyCut);
        assert ScanSelects(vhits, minZ, maxZ, zStep, zest);
      }
    }
  }
}
