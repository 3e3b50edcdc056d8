/** The quantities the collective variable reports at each step: the replica
    average of the model overlaps, the Bayesian score with the replicas' summed
    inverse variances, and the score's derivatives with respect to the atoms,
    assembled by the chain rule over the neighbour list. */
module Bayes {
  import opened Numerics
  import opened Linalg
  import opened Metropolis

  /** Entry i of every peer replica's overlap vector. */
  function Column(rows: seq<seq<real>>, i: nat): (r: seq<real>)
    requires forall k :: 0 <= k < |rows| ==> i < |rows[k]|
    ensures |r| == |rows| && forall k :: 0 <= k < |rows| ==> r[k] == rows[k][i]
  {
    seq(|rows|, k requires 0 <= k < |rows| => rows[k][i])
  }

  /** The replica average of the overlaps: each entry summed over this replica and
      its peers, then multiplied by escale = 1 / nrep. */
  function EnsembleAverage(m: Libm, own: seq<real>, peers: seq<seq<real>>, nrep: nat): (r: seq<real>)
    requires forall k :: 0 <= k < |peers| ==> |peers[k]| == |own|
    ensures |r| == |own|
  {
    var escale := Div(m, 1.0, nrep as real);
    seq(|own|, i requires 0 <= i < |own| => (own[i] + Sum(Column(peers, i))) * escale)
  }

  /** A single replica keeps its own overlaps. */
  lemma EnsembleSingleReplica(m: Libm, own: seq<real>)
    ensures EnsembleAverage(m, own, [], 1) == own
  {
    forall i | 0 <= i < |own| ensures EnsembleAverage(m, own, [], 1)[i] == own[i] {
      assert Column([], i) == [];
    }
  }

  /** Replicas that all hold the same overlaps average to those overlaps. */
  lemma EnsembleOfIdentical(m: Libm, own: seq<real>, peers: seq<seq<real>>, nrep: nat)
    requires forall k :: 0 <= k < |peers| ==> peers[k] == own
    requires nrep == |peers| + 1
    ensures EnsembleAverage(m, own, peers, nrep) == own
  {
    var n := |peers| as real;
    var escale := Div(m, 1.0, nrep as real);
    assert escale * (n + 1.0) == 1.0;
    forall i | 0 <= i < |own| ensures EnsembleAverage(m, own, peers, nrep)[i] == own[i] {
      var col := Column(peers, i);
      SumConstant(col, own[i]);
      MeanOfEqualTerms(own[i], n, escale);
    }
  }

  lemma {:induction false} SumConstant(s: seq<real>, x: real)
    requires forall k :: 0 <= k < |s| ==> s[k] == x
    ensures Sum(s) == (|s| as real) * x
  {
    if |s| > 0 {
      SumConstant(s[..|s| - 1], x);
    }
  }

  lemma MeanOfEqualTerms(x: real, n: real, escale: real)
    requires escale * (n + 1.0) == 1.0
    ensures (x + n * x) * escale == x
  {
    calc {
      (x + n * x) * escale;
      x * ((n + 1.0) * escale);
      x * 1.0;
    }
  }

  /** The summed inverse variance: 1/ss2 of this replica plus the peers' values. */
  function InvVariance(m: Libm, ss2: real, peerInvS2: seq<real>): real
  {
    Div(m, 1.0, ss2) + Sum(peerInvS2)
  }

  /** The score: the Gaussian restraint with prefactor kbt/2 * invS2, plus the
      normalisation and Jeffreys' prior of this replica's variance ss2. */
  function ScoreValue(m: Libm, kbt: real, invS2: real, ss2: real, ovmd: seq<real>, ovdd: seq<real>): real
    requires |ovmd| == |ovdd|
  {
    Restraint(m, kbt, ScoreFactor(kbt, invS2), Rss(ovmd, ovdd), |ovmd|, ss2)
  }

  /** The prefactor of the restraint in the score: kbt/2 times the summed inverse
      variance. */
  function ScoreFactor(kbt: real, invS2: real): real
  {
    kbt * 0.5 * invS2
  }

  /** With a single replica the score is the energy the Monte Carlo samples. */
  lemma ScoreIsEnergyForOneReplica(m: Libm, kbt: real, sigmaMean: real, ovmd: seq<real>, ovdd: seq<real>, sigma: real)
    requires |ovmd| == |ovdd| && Variance(sigmaMean, sigma) != 0.0
    ensures var ss2 := Variance(sigmaMean, sigma);
            ScoreValue(m, kbt, InvVariance(m, ss2, []), ss2, ovmd, ovdd) == Energy(m, kbt, sigmaMean, ovmd, ovdd, sigma)
  {
    var ss2 := Variance(sigmaMean, sigma);
    var inv := Div(m, 1.0, ss2);
    assert inv * ss2 == 1.0;
    var fact := Div(m, kbt * 0.5, ss2);
    assert fact * ss2 == kbt * 0.5;
    assert kbt * 0.5 * inv == fact by {
      ProductOfInverse(kbt * 0.5, inv, fact, ss2);
    }
  }

  lemma ProductOfInverse(a: real, inv: real, q: real, s: real)
    requires s != 0.0 && inv * s == 1.0 && q * s == a
    ensures a * inv == q
  {
    calc {
      a * inv;
      (q * s) * inv;
      q * (inv * s);
    }
  }

  // ---------------------------------------------------------------------------
  // Derivatives

  /** The chain-rule contribution of one neighbour-list entry: der * ovmd_der * escale
      with der = fact * 2 * (ovmd[id] - ovdd[id]). */
  function DerivativeTerm(fact: real, escale: real, residual: real, ovDer: Vec3): Vec3
  {
    Scale(escale, Scale(fact * 2.0 * residual, ovDer))
  }

  /** The per-atom sums: entry e adds `terms[e]` to atom `ims[e]`. */
  function AccumulateVec(n: nat, ims: seq<nat>, terms: seq<Vec3>): (r: seq<Vec3>)
    requires |ims| == |terms| && forall e :: 0 <= e < |ims| ==> ims[e] < n
    ensures |r| == n
  {
    if |ims| == 0 then seq(n, _ => Origin)
    else
      var k := |ims| - 1;
      var prev := AccumulateVec(n, ims[..k], terms[..k]);
      prev[ims[k] := AddVec(prev[ims[k]], terms[k])]
  }

  /** An atom that no entry names gets no derivative. */
  lemma {:induction false} AccumulateVecUntouched(n: nat, ims: seq<nat>, terms: seq<Vec3>, a: nat)
    requires |ims| == |terms| && forall e :: 0 <= e < |ims| ==> ims[e] < n
    requires a < n && forall e :: 0 <= e < |ims| ==> ims[e] != a
    ensures AccumulateVec(n, ims, terms)[a] == Origin
  {
    if |ims| > 0 {
      var k := |ims| - 1;
      AccumulateVecUntouched(n, ims[..k], terms[..k], a);
    }
  }

  /** Entries that all contribute nothing leave every atom without derivative. */
  lemma {:induction false} AccumulateVecOfOrigins(n: nat, ims: seq<nat>, terms: seq<Vec3>)
    requires |ims| == |terms| && forall e :: 0 <= e < |ims| ==> ims[e] < n
    requires forall e :: 0 <= e < |terms| ==> terms[e] == Origin
    ensures forall a :: 0 <= a < n ==> AccumulateVec(n, ims, terms)[a] == Origin
  {
    if |ims| > 0 {
      var k := |ims| - 1;
      AccumulateVecOfOrigins(n, ims[..k], terms[..k]);
    }
  }

  /** The chain-rule terms of the neighbour-list entries, entry e belonging to data
      component ids[e]. */
  function DerivativeTerms(fact: real, escale: real, ids: seq<nat>, ovmd: seq<real>, ovdd: seq<real>, ovmdDer: seq<Vec3>): (r: seq<Vec3>)
    requires |ids| == |ovmdDer| && |ovmd| == |ovdd|
    requires forall e :: 0 <= e < |ids| ==> ids[e] < |ovmd|
    ensures |r| == |ids|
  {
    seq(|ids|, e requires 0 <= e < |ids| =>
      DerivativeTerm(fact, escale, ovmd[ids[e]] - ovdd[ids[e]], ovmdDer[e]))
  }

  /** When the averaged model overlaps match the data self-overlaps, the restraint
      exerts no force: every atom's derivative is zero. */
  lemma DerivativesVanishAtFit(n: nat, fact: real, escale: real, ids: seq<nat>, ims: seq<nat>, ovmd: seq<real>, ovdd: seq<real>, ovmdDer: seq<Vec3>)
    requires |ids| == |ims| == |ovmdDer| && |ovmd| == |ovdd|
    requires forall e :: 0 <= e < |ids| ==> ids[e] < |ovmd| && ims[e] < n
    requires ovmd == ovdd
    ensures forall a :: 0 <= a < n ==>
              AccumulateVec(n, ims, DerivativeTerms(fact, escale, ids, ovmd, ovdd, ovmdDer))[a] == Origin
  {
    var terms := DerivativeTerms(fact, escale, ids, ovmd, ovdd, ovmdDer);
    forall e | 0 <= e < |terms| ensures terms[e] == Origin {
      assert ovmd[ids[e]] - ovdd[ids[e]] == 0.0;
    }
    AccumulateVecOfOrigins(n, ims, terms);
  }
}
