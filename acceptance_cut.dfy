// The multiplicity-dependent cut on the cluster-vertex quality and the accept decision.

module AcceptanceCut {

  /** x raised to a natural power; x^0 is 1 also for x == 0, as std::pow gives. */
  function Power(x: real, i: nat): real {
    if i == 0 then 1.0 else x * Power(x, i - 1)
  }

  /** Sum of pars[i] * x^i, accumulated in index order like the polyCut loop. */
  function Poly(pars: seq<real>, x: real): real {
    if |pars| == 0 then 0.0
    else Poly(pars[..|pars| - 1], x) + pars[|pars| - 1] * Power(x, |pars| - 1)
  }

  /** Horner's rule: an independent evaluation of the same polynomial. */
  function Horner(pars: seq<real>, x: real): real {
    if |pars| == 0 then 0.0 else pars[0] + x * Horner(pars[1..], x)
  }

  /** Peeling the constant coefficient: p(x) = c0 + x * (c1 + c2 x + ...). */
  lemma {:induction false} PolyPeel(pars: seq<real>, x: real)
    requires |pars| > 0
    ensures Poly(pars, x) == pars[0] + x * Poly(pars[1..], x)
  {
    var n := |pars| - 1;
    if n > 0 {
      PolyPeel(pars[..n], x);
      assert pars[..n][1..] == pars[1..][..n - 1];
      assert pars[..n][0] == pars[0];
      calc {
        Poly(pars, x);
        Poly(pars[..n], x) + pars[n] * Power(x, n);
        pars[0] + x * Poly(pars[1..][..n - 1], x) + pars[n] * (x * Power(x, n - 1));
        pars[0] + x * (Poly(pars[1..][..n - 1], x) + pars[1..][n - 1] * Power(x, n - 1));
        pars[0] + x * Poly(pars[1..], x);
      }
    } else {
      assert pars[..0] == [] && pars[1..] == [];
    }
  }

  /** The index-order sum and Horner's rule agree on every coefficient list. */
  lemma {:induction false} PolyIsHorner(pars: seq<real>, x: real)
    ensures Poly(pars, x) == Horner(pars, x)
  {
    if |pars| > 0 {
      PolyPeel(pars, x);
      PolyIsHorner(pars[1..], x);
    }
  }

  /**
   * The final cut: the polynomial in nPxlHits, forced to 0 below nhitsTrunc, then capped at
   * clusterTrunc when clusterTrunc is positive.
   */
  function Cut(pars: seq<real>, nPxlHits: int, nhitsTrunc: int, clusterTrunc: real): (c: real)
    ensures nPxlHits < nhitsTrunc ==> c == 0.0
    ensures clusterTrunc > 0.0 ==> c <= clusterTrunc
    ensures nPxlHits >= nhitsTrunc && clusterTrunc <= 0.0 ==> c == Poly(pars, nPxlHits as real)
    ensures nPxlHits >= nhitsTrunc && clusterTrunc > 0.0 ==>
              c == (if Poly(pars, nPxlHits as real) <= clusterTrunc then Poly(pars, nPxlHits as real)
                    else clusterTrunc)
  {
    var raw := Poly(pars, nPxlHits as real);
    var floored := if nPxlHits < nhitsTrunc then 0.0 else raw;
    if floored > clusterTrunc && clusterTrunc > 0.0 then clusterTrunc else floored
  }

  /** The cut step of analyze: accumulate the polynomial term by term, then apply the floor and the cap. */
  method PolyCut(clusterPars: seq<real>, nPxlHits: int, nhitsTrunc: int, clusterTrunc: real)
    returns (polyCut: real)
    ensures polyCut == Cut(clusterPars, nPxlHits, nhitsTrunc, clusterTrunc)
  {
    polyCut := 0.0;
    for i := 0 to |clusterPars|
      invariant polyCut == Poly(clusterPars[..i], nPxlHits as real)
    {
      assert clusterPars[..i + 1][..i] == clusterPars[..i];
      polyCut := polyCut + clusterPars[i] * Power(nPxlHits as real, i);
    }
    assert clusterPars[..|clusterPars|] == clusterPars;
    if nPxlHits < nhitsTrunc {
      polyCut := 0.0;
    }
    if polyCut > clusterTrunc && clusterTrunc > 0.0 {
      polyCut := clusterTrunc;
    }
  }

  /** The floor and the cap only act upwards: negative coefficients still give a negative cut. */
  lemma CutCanBeNegative()
    ensures Cut([-1.0], 5, 0, 2.0) == -1.0
  {
    assert [-1.0][..0] == [];
    assert Power(5.0, 0) == 1.0;
    assert Poly([-1.0], 5.0) == -1.0;
  }

  /** The event passes unless its quality falls strictly below the cut: equality accepts. */
  function Accept(clusVtxQual: real, polyCut: real): (accept: bool)
    ensures accept <==> clusVtxQual >= polyCut
  {
    !(clusVtxQual < polyCut)
  }
}
