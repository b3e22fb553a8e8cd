// The z-scan of the analyzer: step a candidate vertex z0 from minZ to maxZ and keep the
// candidate with the most contained hits, ties broken by the smaller residual sum.

module VertexScan {
  import opened PixelHits

  /** Value chi_max is reset to whenever a candidate sets a new hit-count record. */
  const ChiReset: real := 1000000000.0

  /** The k-th scanned position, k = 0, 1, ... (exact arithmetic, no accumulated rounding). */
  function Candidate(minZ: real, zStep: real, k: int): real {
    minZ + (k as real) * zStep
  }

  /** How many positions the scan visits: those minZ + k * zStep that do not exceed maxZ. */
  function CandidateCount(minZ: real, maxZ: real, zStep: real): nat
    requires zStep > 0.0
  {
    if maxZ < minZ then 0 else ((maxZ - minZ) / zStep).Floor + 1
  }

  /** Candidate k lies at or below maxZ exactly when k is one of the scanned indices. */
  lemma CandidateInRange(minZ: real, maxZ: real, zStep: real, k: int)
    requires zStep > 0.0
    requires 0 <= k
    ensures Candidate(minZ, zStep, k) <= maxZ <==> k < CandidateCount(minZ, maxZ, zStep)
    ensures minZ <= Candidate(minZ, zStep, k)
  {
    var d := (maxZ - minZ) / zStep;
    assert maxZ - minZ == d * zStep;
    assert Candidate(minZ, zStep, k) - maxZ == (k as real - d) * zStep;
    assert (k as real) * zStep >= 0.0;
    if maxZ >= minZ {
      assert k <= d.Floor <==> k as real <= d;
    }
  }

  function CountAt(hits: seq<Hit>, minZ: real, zStep: real, k: int): nat
    requires RadiiPositive(hits)
  {
    ContainedCount(hits, Candidate(minZ, zStep, k))
  }

  function ResidualAt(hits: seq<Hit>, minZ: real, zStep: real, k: int): real
    requires RadiiPositive(hits)
  {
    ResidualSum(hits, Candidate(minZ, zStep, k))
  }

  /** No scanned position contains any hit. */
  ghost predicate NoneContained(hits: seq<Hit>, minZ: real, maxZ: real, zStep: real)
    requires RadiiPositive(hits) && zStep > 0.0
  {
    forall k :: 0 <= k < CandidateCount(minZ, maxZ, zStep) ==> CountAt(hits, minZ, zStep, k) == 0
  }

  /**
   * Candidate j is the one the scan should pick: its count is the largest of all scanned
   * positions, its residual sum is the smallest among the positions with that count, and no
   * earlier position with that count has the same residual sum.
   */
  ghost predicate IsBestCandidate(hits: seq<Hit>, minZ: real, maxZ: real, zStep: real, j: int)
    requires RadiiPositive(hits) && zStep > 0.0
  {
    var n := CandidateCount(minZ, maxZ, zStep);
    0 <= j < n &&
    (forall k :: 0 <= k < n ==> CountAt(hits, minZ, zStep, k) <= CountAt(hits, minZ, zStep, j)) &&
    (forall k :: 0 <= k < n && CountAt(hits, minZ, zStep, k) == CountAt(hits, minZ, zStep, j) ==>
       ResidualAt(hits, minZ, zStep, j) <= ResidualAt(hits, minZ, zStep, k)) &&
    (forall k :: 0 <= k < j && CountAt(hits, minZ, zStep, k) == CountAt(hits, minZ, zStep, j) ==>
       ResidualAt(hits, minZ, zStep, j) < ResidualAt(hits, minZ, zStep, k))
  }

  /**
   * What the scan leaves in zest: the initial 0.0 when no position contains a hit, and
   * otherwise the best candidate, provided there are fewer hits than ChiReset (so that every
   * residual sum, being at most the count, is below the reset value).
   */
  ghost predicate ScanSelects(hits: seq<Hit>, minZ: real, maxZ: real, zStep: real, zest: real)
    requires RadiiPositive(hits) && zStep > 0.0
  {
    (NoneContained(hits, minZ, maxZ, zStep) ==> zest == 0.0) &&
    ((|hits| as real) < ChiReset && !NoneContained(hits, minZ, maxZ, zStep) ==>
       exists j :: IsBestCandidate(hits, minZ, maxZ, zStep, j) && zest == Candidate(minZ, zStep, j))
  }

  /** The z-scan (the first loop of the estimate): returns the estimated vertex position. */
  method EstimateZ(hits: seq<Hit>, minZ: real, maxZ: real, zStep: real) returns (zest: real)
    requires RadiiPositive(hits)
    requires zStep > 0.0
    ensures ScanSelects(hits, minZ, maxZ, zStep, zest)
    ensures zest == 0.0 ||
            exists k :: 0 <= k < CandidateCount(minZ, maxZ, zStep) && zest == Candidate(minZ, zStep, k)
  {
    var total := CandidateCount(minZ, maxZ, zStep);
    ghost var small := (|hits| as real) < ChiReset;
    zest := 0.0;
    var nhits, nhitsMax := 0, 0;
    var chi, chiMax := 0.0, ChiReset;
    ghost var k: int, best: int, record: int := 0, -1, -1;
    var z0 := minZ;
    while z0 <= maxZ
      invariant 0 <= k <= total
      invariant z0 == Candidate(minZ, zStep, k)
      invariant forall i :: 0 <= i < k ==> CountAt(hits, minZ, zStep, i) <= nhitsMax
      invariant nhitsMax == 0 || (0 <= record < k && CountAt(hits, minZ, zStep, record) == nhitsMax)
      invariant nhitsMax == 0 ==> best == -1
      invariant best == -1 ==> zest == 0.0
      invariant best != -1 ==> 0 <= best < k && zest == Candidate(minZ, zStep, best)
      invariant small && nhitsMax > 0 ==>
        best != -1 && CountAt(hits, minZ, zStep, best) == nhitsMax &&
        ResidualAt(hits, minZ, zStep, best) == chiMax &&
        (forall i :: 0 <= i < k && CountAt(hits, minZ, zStep, i) == nhitsMax ==>
           chiMax <= ResidualAt(hits, minZ, zStep, i)) &&
        (forall i :: 0 <= i < best && CountAt(hits, minZ, zStep, i) == nhitsMax ==>
           chiMax < ResidualAt(hits, minZ, zStep, i))
      decreases total - k
    {
      CandidateInRange(minZ, maxZ, zStep, k);
      nhits, chi := GetContainedHits(hits, z0);
      if nhits != 0 {
        if nhits > nhitsMax {
          chiMax := ChiReset;
          nhitsMax := nhits;
          record := k;
        }
        if nhits >= nhitsMax && chi < chiMax {
          chiMax := chi;
          zest := z0;
          best := k;
        }
      }
      z0 := z0 + zStep;
      k := k + 1;
    }
    CandidateInRange(minZ, maxZ, zStep, k);
    if small && !NoneContained(hits, minZ, maxZ, zStep) {
      var i :| 0 <= i < total && CountAt(hits, minZ, zStep, i) != 0;
      assert IsBestCandidate(hits, minZ, maxZ, zStep, best);
    }
  }

  /** The scan result is determined by its specification: running it twice agrees. */
  lemma ScanSelectsUnique(hits: seq<Hit>, minZ: real, maxZ: real, zStep: real, z1: real, z2: real)
    requires RadiiPositive(hits) && zStep > 0.0
    requires (|hits| as real) < ChiReset
    requires ScanSelects(hits, minZ, maxZ, zStep, z1)
    requires ScanSelects(hits, minZ, maxZ, zStep, z2)
    ensures z1 == z2
  {
    // Two best candidates have the same maximal count, hence the same minimal residual sum,
    // and the earliest-index clause then rules out two different indices.
  }

  /** When some scanned position contains a hit, the estimate lies within [minZ, maxZ]. */
  lemma ScanEstimateInRange(hits: seq<Hit>, minZ: real, maxZ: real, zStep: real, zest: real)
    requires RadiiPositive(hits) && zStep > 0.0
    requires (|hits| as real) < ChiReset
    requires ScanSelects(hits, minZ, maxZ, zStep, zest)
    requires !NoneContained(hits, minZ, maxZ, zStep)
    ensures minZ <= zest <= maxZ
  {
    var j :| IsBestCandidate(hits, minZ, maxZ, zStep, j) && zest == Candidate(minZ, zStep, j);
    CandidateInRange(minZ, maxZ, zStep, j);
  }

  /**
   * A non-empty hit list whose only hit is far outside every window of the range [5, 10]:
   * the estimate stays at its initial 0.0, which lies below minZ.
   */
  lemma ScanDefaultOutsideRange(zest: real)
    requires ScanSelects([Hit(0.0, 1.0, 100.0)], 5.0, 10.0, 1.0, zest)
    ensures zest == 0.0 && zest < 5.0
  {
    // Every scanned z0 lies in [5, 10], so the predicted width is at most 20.5, far from 100.
    var hits := [Hit(0.0, 1.0, 100.0)];
    forall k | 0 <= k < CandidateCount(5.0, 10.0, 1.0)
      ensures CountAt(hits, 5.0, 1.0, k) == 0
    {
      CandidateInRange(5.0, 10.0, 1.0, k);
      var z0 := Candidate(5.0, 1.0, k);
      assert 5.0 <= z0 <= 10.0;
      assert Abs(hits[0].z - z0) == z0;
      assert Predicted(hits[0], z0) == 2.0 * z0 + 0.5;
      assert !Contained(hits[0], z0);
      assert hits[..0] == [];
      assert ContainedCount(hits, z0) == ContainedCount(hits[..0], z0);
    }
  }
}
