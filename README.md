# UPC pixel-cluster shape filter, modelled in Dafny

This project models the decision logic of `UPCPixelClusterShapeAnalyzer`, a CMSSW analyzer
that decides whether an event's barrel pixel hits look as if they came from one
interaction vertex on the beam axis. Each hit has a global `z`, a radius `r` and a
cluster length `w` along z. A track from a vertex at `z0` crossing a barrel layer at
`(z, r)` leaves a cluster of length about `2|z - z0|/r + 0.5`.

- `PixelHits`: the `Hit` record and `getContainedHits`. A hit is contained when its
  observed `w` lies within 1 of the predicted length. The method returns the count `n`
  and the residual sum `chi` over the contained hits.
- `VertexScan`: the z-scan. It visits `minZ + k*zStep` for every `k` whose position
  does not exceed `maxZ`. It keeps the position with the most contained hits. Among
  equal counts it keeps the smaller `chi`, and the earlier position wins a full tie.
  The estimate starts at 0.0.
- `VertexQuality`: `clusVtxQual` compares the count at the estimate with the counts
  10 units below and above it. It uses 1000 when only the estimate has hits and 0
  when no position has any.
- `AcceptanceCut`: the polynomial cut in the multiplicity `nPxlHits`. The cut is forced
  to 0 below `nhitsTrunc` and capped at `clusterTrunc` when that value is positive.
  The decision is `accept = !(clusVtxQual < polyCut)`.
- `ClusterShapeAnalyzer`: the analyzer object. It holds the configuration and the two
  recorded fields `accept` and `nPxlHits`. Its `Analyze` method counts valid rechits,
  filters them to the hits used for the vertex, and runs the three steps above.

The source runs the last three steps inline in `analyze`. Here each is a separate
method, and `Analyze` calls them in the source's order.

Behaviour of the code worth noting:

- The estimate starts at `0.0`, not at `minZ`. If no scanned position contains a
  hit, the estimate can lie outside `[minZ, maxZ]` (`VertexScan.ScanDefaultOutsideRange`).
- The multiplicity in the cut is `nPxlHits`, the number of valid rechits counted
  before the barrel and edge filters. It is not the length of the filtered hit list.
- A hit with `r == 0` is not excluded. The code divides by `r` without a guard, so the
  model requires `r > 0` for every hit handed to the scan.
- `chi_max` is reset to the finite value `1e9`, not to infinity. A new count record
  therefore always wins only while every residual sum stays below `1e9`. Because
  `chi <= n`, that holds whenever there are fewer than `10^9` hits.

## Model

| member | source | states |
|---|---|---|
| `PixelHits.Predicted` | Analyzers/UPCTriggerAnalyzer/src/UPCPixelClusterShapeAnalyzer.cc:211 | the predicted cluster length is at least 0.5, and exactly 0.5 when the hit's z equals z0 |
| `PixelHits.GetContainedHits` | Analyzers/UPCTriggerAnalyzer/src/UPCPixelClusterShapeAnalyzer.cc:204-218 | n is the number of hits within the window of z0 and chi is the sum of their deviations; chi is an output computed only from the hits and z0; 0 <= n <= number of hits and 0 <= chi <= n |
| `PixelHits.ContainedCountBounded` | Analyzers/UPCTriggerAnalyzer/src/UPCPixelClusterShapeAnalyzer.cc:207-217 | the contained count never exceeds the number of hits |
| `PixelHits.ContainedCountIsCardinality` | Analyzers/UPCTriggerAnalyzer/src/UPCPixelClusterShapeAnalyzer.cc:210-216 | the count equals the size of the set of hit indices whose width lies within 1 of the prediction |
| `PixelHits.ResidualSumBounds` | Analyzers/UPCTriggerAnalyzer/src/UPCPixelClusterShapeAnalyzer.cc:208-215 | chi sums only contained hits, each contributing at most 1, so 0 <= chi <= n |
| `VertexScan.CandidateInRange` | Analyzers/UPCTriggerAnalyzer/src/UPCPixelClusterShapeAnalyzer.cc:159 | the position minZ + k*zStep passes the loop test z0 <= maxZ exactly when k is below the number of scanned positions, and it is never below minZ |
| `VertexScan.EstimateZ` | Analyzers/UPCTriggerAnalyzer/src/UPCPixelClusterShapeAnalyzer.cc:155-171 | the estimate is 0.0 when no scanned position contains a hit; otherwise, with fewer than 1e9 hits, it is the earliest position whose count is maximal and whose chi is minimal among the maximal-count positions; in every case it is 0.0 or a scanned position |
| `VertexScan.ScanSelectsUnique` | Analyzers/UPCTriggerAnalyzer/src/UPCPixelClusterShapeAnalyzer.cc:159-171 | the selection rule (maximum count, then strictly smaller chi, then earliest) determines the estimate uniquely, so repeated runs on the same input agree |
| `VertexScan.ScanEstimateInRange` | Analyzers/UPCTriggerAnalyzer/src/UPCPixelClusterShapeAnalyzer.cc:159-171 | when some scanned position contains a hit, the estimate lies in [minZ, maxZ] |
| `VertexScan.ScanDefaultOutsideRange` | Analyzers/UPCTriggerAnalyzer/src/UPCPixelClusterShapeAnalyzer.cc:156-162 | for a single hit that no position in [5, 10] contains, the estimate stays 0.0, below minZ |
| `VertexQuality.QualityRatio` | Analyzers/UPCTriggerAnalyzer/src/UPCPixelClusterShapeAnalyzer.cc:179-185 | the ratio is never negative and is 0 exactly when the estimate has no hits; with control hits it times the control sum equals 2*nbest; with none it is exactly 1000 when nbest > 0 |
| `VertexQuality.QualityAtLeastOne` | Analyzers/UPCTriggerAnalyzer/src/UPCPixelClusterShapeAnalyzer.cc:180-181 | with control hits, the ratio is at least 1 exactly when 2*nbest >= nminus + nplus |
| `VertexQuality.ClusterVertexQuality` | Analyzers/UPCTriggerAnalyzer/src/UPCPixelClusterShapeAnalyzer.cc:173-185 | the quality is the ratio of the contained counts at zest, zest - 10 and zest + 10 |
| `AcceptanceCut.PolyPeel` | Analyzers/UPCTriggerAnalyzer/src/UPCPixelClusterShapeAnalyzer.cc:188-191 | the term-by-term sum factors as c0 + x * (the sum of the remaining coefficients) |
| `AcceptanceCut.PolyIsHorner` | Analyzers/UPCTriggerAnalyzer/src/UPCPixelClusterShapeAnalyzer.cc:188-191 | the sum of clusterPars[i]*x^i accumulated in index order equals Horner's evaluation of the same polynomial |
| `AcceptanceCut.Cut` | Analyzers/UPCTriggerAnalyzer/src/UPCPixelClusterShapeAnalyzer.cc:188-195 | the cut is 0 below nhitsTrunc, never exceeds a positive clusterTrunc, is the polynomial itself when clusterTrunc <= 0, and is the smaller of the polynomial and clusterTrunc otherwise |
| `AcceptanceCut.PolyCut` | Analyzers/UPCTriggerAnalyzer/src/UPCPixelClusterShapeAnalyzer.cc:187-195 | the loop's accumulated value, after the floor and the cap, is the specified cut |
| `AcceptanceCut.CutCanBeNegative` | Analyzers/UPCTriggerAnalyzer/src/UPCPixelClusterShapeAnalyzer.cc:188-195 | the floor and the cap do not lift a negative polynomial: coefficients [-1] give the cut -1 |
| `AcceptanceCut.Accept` | Analyzers/UPCTriggerAnalyzer/src/UPCPixelClusterShapeAnalyzer.cc:197 | the event is accepted exactly when the quality is at least the cut, so equality accepts |
| `ClusterShapeAnalyzer.VertexHitsMembership` | Analyzers/UPCTriggerAnalyzer/src/UPCPixelClusterShapeAnalyzer.cc:118-153 | a hit reaches the scan exactly when some valid, barrel, edge-free rechit has that position |
| `ClusterShapeAnalyzer.VertexHitsRadii` | Analyzers/UPCTriggerAnalyzer/src/UPCPixelClusterShapeAnalyzer.cc:144-152 | if every used rechit has a positive radius, so does every hit handed to the scan |
| `ClusterShapeAnalyzer.VertexHitsAtMostValid` | Analyzers/UPCTriggerAnalyzer/src/UPCPixelClusterShapeAnalyzer.cc:116-152 | nPxlHits, counted before the barrel and edge filters, is at least the number of hits handed to the scan |
| `ClusterShapeAnalyzer.BelowTruncAccepted` | Analyzers/UPCTriggerAnalyzer/src/UPCPixelClusterShapeAnalyzer.cc:192-197 | below nhitsTrunc valid rechits every event is accepted, whatever the coefficients |
| `ClusterShapeAnalyzer.UPCPixelClusterShapeAnalyzer.constructor` | Analyzers/UPCTriggerAnalyzer/src/UPCPixelClusterShapeAnalyzer.cc:66-76 | the configuration fields hold the given parameters |
| `ClusterShapeAnalyzer.UPCPixelClusterShapeAnalyzer.Analyze` | Analyzers/UPCTriggerAnalyzer/src/UPCPixelClusterShapeAnalyzer.cc:95-202 | without a rechit collection accept is true and nPxlHits keeps its old value; otherwise nPxlHits counts the valid rechits, is at least the number of vertex hits, and accept is the decision for the scan's estimate on the filtered hits |

## Left out

- Framework plumbing is not modelled: the EDAnalyzer base class, `getByLabel`, the
  geometry record, `LogDebug` and the module macro. These are foreign calls with no
  bodies to model.
- Geometry lookups are inputs. The results of `idToDet`, `toGlobal`, `perp()`,
  `isItEdgePixelInX/Y` and `sizeY()` arrive as the fields of `RawHit`.
- ROOT output is I/O and is not modelled: the file service, the tree branches and
  `Fill()`. The recorded values are the fields `accept` and `nPxlHits`.
- The model computes over exact reals, not IEEE doubles and floats. It leaves out
  the rounding drift of `z0 += zStep_`, the float truncation of the hit fields and the
  accuracy of `std::pow`. The scanned positions are exactly `minZ + k*zStep`.
- A hit with `r == 0` gives a non-finite prediction in the source. The model requires
  `r > 0` for every hit that reaches the scan instead.
- `zStep_ <= 0` makes the source's scan loop run forever when `minZ_ <= maxZ_`. The
  model requires `zStep > 0`.
- The 32-bit `int` counters are unbounded integers in the model. They cannot overflow
  for any realistic number of hits.
- EstimateZ: the best-candidate guarantee is stated only for fewer than 10^9 hits. With
  more hits a residual sum can reach the finite reset value `1e9`. The estimate is then
  only known to be 0.0 or a scanned position.
- Analyze: the accept decision is pinned down only for fewer than 10^9 vertex hits. With
  more hits the scan's estimate is not determined, as for EstimateZ, so accept is then
  unconstrained once some scanned position contains a hit.
