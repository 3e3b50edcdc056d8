/** The overlap of two Gaussian components and the constants precomputed for it:
    the prefactor/inverse of a pair of covariances, the auxiliary table indexed by
    (atom type, data component), the per-component inclusion threshold derived
    from the data-data self overlaps, and the global cutoff on the quadratic form. */
module Overlap {
  import opened Numerics
  import opened Linalg
  import opened Layout

  /** The out-parameters and result of the prefactor/inverse helper. */
  datatype PairTerms = PairTerms(pre: real, sum: Sym6, inv: Sym6)

  /** Prefactor w0*w1/((2 pi)^1.5 sqrt(det)) of the product of two Gaussians, with the
      sum of their covariances and its inverse; `cfact` is 1/(2 pi)^1.5. */
  function PrefactorInverse(m: Libm, cfact: real, cov0: Sym6, cov1: Sym6, w0: real, w1: real): (r: PairTerms)
    ensures r.sum == AddSym(cov0, cov1)
  {
    var sum := AddSym(cov0, cov1);
    var det := Det(sum);
    var preFact := Div(m, cfact, m.sqrt(det)) * w0 * w1;
    PairTerms(preFact, sum, Inverse(m, sum))
  }

  /** The prefactor is cfact*w0*w1 over the square root of the determinant, and for
      a nonsingular sum the returned inverse is its two-sided inverse. */
  lemma PrefactorInverseSpec(m: Libm, cfact: real, cov0: Sym6, cov1: Sym6, w0: real, w1: real)
    ensures var r := PrefactorInverse(m, cfact, cov0, cov1, w0, w1);
            (Det(r.sum) != 0.0 ==>
               MatMul(Unpack(r.sum), Unpack(r.inv)) == Identity &&
               MatMul(Unpack(r.inv), Unpack(r.sum)) == Identity) &&
            (m.sqrt(Det(r.sum)) != 0.0 ==> r.pre * m.sqrt(Det(r.sum)) == cfact * w0 * w1)
  {
    var sum := AddSym(cov0, cov1);
    if Det(sum) != 0.0 {
      InverseIsInverse(m, sum);
    }
  }

  /** Swapping the two components leaves the prefactor and the inverse unchanged. */
  lemma PrefactorInverseSymmetric(m: Libm, cfact: real, cov0: Sym6, cov1: Sym6, w0: real, w1: real)
    ensures PrefactorInverse(m, cfact, cov0, cov1, w0, w1) == PrefactorInverse(m, cfact, cov1, cov0, w1, w0)
  {
    assert AddSym(cov0, cov1) == AddSym(cov1, cov0);
    var d := Div(m, cfact, m.sqrt(Det(AddSym(cov0, cov1))));
    assert d * w0 * w1 == d * w1 * w0;
  }

  /** The overlap and its gradient with respect to the second mean. */
  datatype OverlapTerm = OverlapTerm(ov: real, der: Vec3)

  /** The overlap of the Gaussians at means `a` and `b`:
      pre * exp(-Q/2) with Q = (a-b)' inv (a-b), and the gradient ov * inv (a-b). */
  function Overlap(m: Libm, a: Vec3, b: Vec3, pre: real, inv: Sym6): OverlapTerm
  {
    var md := Sub(a, b);
    var ov := pre * m.exp(-0.5 * QuadForm(md, inv));
    OverlapTerm(ov, Scale(ov, SymVec(inv, md)))
  }

  /** The gradient is the overlap times inv (a - b), the derivative of -Q/2 with
      respect to the second mean. */
  lemma OverlapGradient(m: Libm, a: Vec3, b: Vec3, pre: real, inv: Sym6)
    ensures var r := Overlap(m, a, b, pre, inv);
            r.der == Scale(r.ov, MatVec(Unpack(inv), Sub(a, b)))
  {
    SymVecIsMatVec(inv, Sub(a, b));
  }

  /** The derivative-free overlap of the neighbour-list build: zero, without
      evaluating the exponential, when the quadratic form exceeds the cutoff. */
  function FastOverlap(m: Libm, ovCut: real, a: Vec3, b: Vec3, pre: real, inv: Sym6): real
  {
    var q := QuadForm(Sub(a, b), inv);
    if q > ovCut then 0.0 else pre * m.exp(-0.5 * q)
  }

  /** The fast overlap is zero beyond the cutoff and the full overlap within it. */
  lemma FastOverlapAgrees(m: Libm, ovCut: real, a: Vec3, b: Vec3, pre: real, inv: Sym6)
    ensures QuadForm(Sub(a, b), inv) > ovCut ==> FastOverlap(m, ovCut, a, b, pre, inv) == 0.0
    ensures QuadForm(Sub(a, b), inv) <= ovCut ==> FastOverlap(m, ovCut, a, b, pre, inv) == Overlap(m, a, b, pre, inv).ov
  {
  }

  /** With a positive exponential and a nonzero prefactor, the fast overlap is zero
      exactly when the quadratic form is above the cutoff. */
  lemma FastOverlapZeroIff(m: Libm, ovCut: real, a: Vec3, b: Vec3, pre: real, inv: Sym6)
    requires ExpPositive(m) && pre != 0.0
    ensures FastOverlap(m, ovCut, a, b, pre, inv) == 0.0 <==> QuadForm(Sub(a, b), inv) > ovCut
  {
    var e := m.exp(-0.5 * QuadForm(Sub(a, b), inv));
    assert e > 0.0;
    NonzeroProduct(pre, e);
  }

  /** The overlap does not depend on the order of the two means. */
  lemma OverlapSymmetric(m: Libm, a: Vec3, b: Vec3, pre: real, inv: Sym6)
    ensures Overlap(m, a, b, pre, inv).ov == Overlap(m, b, a, pre, inv).ov
  {
    QuadFormOfDifferenceIsSymmetric(a, b, inv);
  }

  /** A nonnegative prefactor gives a nonnegative overlap. */
  lemma OverlapNonNegative(m: Libm, a: Vec3, b: Vec3, pre: real, inv: Sym6)
    requires ExpPositive(m) && pre >= 0.0
    ensures Overlap(m, a, b, pre, inv).ov >= 0.0
  {
    var e := m.exp(-0.5 * QuadForm(Sub(a, b), inv));
    assert e > 0.0;
  }

  // ---------------------------------------------------------------------------
  // Auxiliary table

  /** The spherical covariance of an atom type with scattering coefficient B:
      s = sqrt(B/2)/pi * 0.1 and covariance s^2 I. */
  function SphericalCov(m: Libm, b: real): (r: Sym6)
    ensures r.c00 == r.c11 == r.c22 >= 0.0
    ensures r.c01 == r.c02 == r.c12 == 0.0
  {
    var s := Div(m, m.sqrt(0.5 * b), m.pi) * 0.1;
    Sym6(s * s, 0.0, 0.0, s * s, 0.0, s * s)
  }

  /** The constant prefactor (without weights) and the inverse covariance sum. */
  datatype AuxTerms = AuxTerms(pre: real, inv: Sym6)

  /** One auxiliary entry: the prefactor/inverse of the type's spherical covariance
      and a data covariance, with both weights left out (taken as 1). */
  function AuxEntry(m: Libm, cfact: real, b: real, dcov: Sym6): (r: AuxTerms)
    ensures r.pre == PrefactorInverse(m, cfact, SphericalCov(m, b), dcov, 1.0, 1.0).pre
    ensures r.inv == PrefactorInverse(m, cfact, SphericalCov(m, b), dcov, 1.0, 1.0).inv
  {
    var sum := AddSym(SphericalCov(m, b), dcov);
    var det := Det(sum);
    AuxTerms(Div(m, cfact, m.sqrt(det)), Inverse(m, sum))
  }

  /** The entries for one atom type, one per data component. */
  function AuxRow(m: Libm, cfact: real, b: real, dcovs: seq<Sym6>): (r: seq<AuxTerms>)
    ensures |r| == |dcovs|
  {
    seq(|dcovs|, d requires 0 <= d < |dcovs| => AuxEntry(m, cfact, b, dcovs[d]))
  }

  /** The auxiliary table: the rows of the types in order. */
  function AuxTable(m: Libm, cfact: real, bs: seq<real>, dcovs: seq<Sym6>): seq<AuxTerms>
  {
    if |bs| == 0 then [] else AuxTable(m, cfact, bs[..|bs| - 1], dcovs) + AuxRow(m, cfact, bs[|bs| - 1], dcovs)
  }

  /** The table has one entry per (type, data component), and the entry of type t
      and data component d is at t*D + d. */
  lemma {:induction false} AuxTableLayout(m: Libm, cfact: real, bs: seq<real>, dcovs: seq<Sym6>)
    ensures |AuxTable(m, cfact, bs, dcovs)| == |bs| * |dcovs|
    ensures forall t, d :: 0 <= t < |bs| && 0 <= d < |dcovs| ==>
              RowMajor(t, d, |dcovs|) < |bs| * |dcovs| &&
              AuxTable(m, cfact, bs, dcovs)[RowMajor(t, d, |dcovs|)] == AuxEntry(m, cfact, bs[t], dcovs[d])
  {
    var n, w := |bs|, |dcovs|;
    if n > 0 {
      var prefix := bs[..n - 1];
      AuxTableLayout(m, cfact, prefix, dcovs);
      var table := AuxTable(m, cfact, bs, dcovs);
      assert |table| == (n - 1) * w + w == n * w;
      forall t, d | 0 <= t < n && 0 <= d < w
        ensures RowMajor(t, d, w) < n * w
        ensures table[RowMajor(t, d, w)] == AuxEntry(m, cfact, bs[t], dcovs[d])
      {
        RowMajorInRange(t, d, n, w);
        if t < n - 1 {
          RowMajorInRange(t, d, n - 1, w);
          assert prefix[t] == bs[t];
        } else {
          assert RowMajor(t, d, w) == (n - 1) * w + d;
        }
      }
    }
  }

  // ---------------------------------------------------------------------------
  // Self overlap and inclusion threshold

  /** The overlaps of data component `id` with every data component, in order. */
  function PairwiseOverlaps(m: Libm, cfact: real, means: seq<Vec3>, covs: seq<Sym6>, ws: seq<real>, id: nat): (r: seq<real>)
    requires |covs| == |means| == |ws| && id < |means|
    ensures |r| == |means|
  {
    seq(|means|, i requires 0 <= i < |means| =>
      PairOverlap(m, cfact, means, covs, ws, id, i))
  }

  function PairOverlap(m: Libm, cfact: real, means: seq<Vec3>, covs: seq<Sym6>, ws: seq<real>, a: nat, b: nat): real
    requires |covs| == |means| == |ws| && a < |means| && b < |means|
  {
    var t := PrefactorInverse(m, cfact, covs[a], covs[b], ws[a], ws[b]);
    Overlap(m, means[a], means[b], t.pre, t.inv).ov
  }

  /** The overlap of a with b is the overlap of b with a. */
  lemma PairOverlapSymmetric(m: Libm, cfact: real, means: seq<Vec3>, covs: seq<Sym6>, ws: seq<real>, a: nat, b: nat)
    requires |covs| == |means| == |ws| && a < |means| && b < |means|
    ensures PairwiseOverlaps(m, cfact, means, covs, ws, a)[b] == PairwiseOverlaps(m, cfact, means, covs, ws, b)[a]
  {
    PrefactorInverseSymmetric(m, cfact, covs[a], covs[b], ws[a], ws[b]);
    var t := PrefactorInverse(m, cfact, covs[a], covs[b], ws[a], ws[b]);
    OverlapSymmetric(m, means[a], means[b], t.pre, t.inv);
  }

  /** A self overlap is at least every pairwise term that contributes to it,
      when the prefactors of its row are non-negative. */
  lemma SelfOverlapDominates(m: Libm, cfact: real, means: seq<Vec3>, covs: seq<Sym6>, ws: seq<real>, i: nat, j: nat)
    requires |covs| == |means| == |ws| && i < |means| && j < |means|
    requires ExpPositive(m)
    requires forall k :: 0 <= k < |means| ==> PrefactorInverse(m, cfact, covs[i], covs[k], ws[i], ws[k]).pre >= 0.0
    ensures Sum(PairwiseOverlaps(m, cfact, means, covs, ws, i)) >= PairwiseOverlaps(m, cfact, means, covs, ws, i)[j]
  {
    var ov := PairwiseOverlaps(m, cfact, means, covs, ws, i);
    forall k | 0 <= k < |ov| ensures ov[k] >= 0.0 {
      var t := PrefactorInverse(m, cfact, covs[i], covs[k], ws[i], ws[k]);
      OverlapNonNegative(m, means[i], means[k], t.pre, t.inv);
    }
    SumDominatesTerms(ov, j);
  }

  /** The scan of the sorted overlaps from index `i`, `acc` holding the tail sum of
      indices 1..i-1: the first crossing of `target` yields the previous value. */
  function Scan(s: seq<real>, i: nat, acc: real, target: real): real
    requires 1 <= i
    decreases |s| - i
  {
    if i >= |s| then target
    else if acc + s[i] >= target then s[i - 1]
    else Scan(s, i + 1, acc + s[i], target)
  }

  /** The inclusion threshold of a data component, from its sorted pairwise overlaps
      and the target fraction of their total. */
  function Threshold(sorted: seq<real>, target: real): real
  {
    Scan(sorted, 1, 0.0, target)
  }

  /** Index i is a crossing when the sum of entries 1..i reaches the target. */
  ghost predicate Crosses(s: seq<real>, target: real, i: nat)
  {
    1 <= i < |s| && Sum(s[1..i + 1]) >= target
  }

  lemma {:induction false} ScanFirstCrossing(s: seq<real>, i: nat, acc: real, target: real, c: nat)
    requires Crosses(s, target, c)
    requires 1 <= i <= c && acc == Sum(s[1..i])
    requires forall j :: i <= j < c ==> !Crosses(s, target, j)
    ensures Scan(s, i, acc, target) == s[c - 1]
    decreases c - i
  {
    assert s[1..i + 1][..i - 1] == s[1..i];
    if i < c {
      assert !Crosses(s, target, i);
      ScanFirstCrossing(s, i + 1, acc + s[i], target, c);
    }
  }

  lemma {:induction false} ScanNoCrossing(s: seq<real>, i: nat, acc: real, target: real)
    requires 1 <= i <= |s| && acc == Sum(s[1..i])
    requires forall j :: i <= j < |s| ==> !Crosses(s, target, j)
    ensures Scan(s, i, acc, target) == target
    decreases |s| - i
  {
    if i < |s| {
      assert s[1..i + 1][..i - 1] == s[1..i];
      assert !Crosses(s, target, i);
      ScanNoCrossing(s, i + 1, acc + s[i], target);
    }
  }

  /** The threshold is the entry just before the first crossing. Sums start at
      index 1, so the smallest entry never counts towards the tail sum. */
  lemma ThresholdAtFirstCrossing(s: seq<real>, target: real, c: nat)
    requires Crosses(s, target, c)
    requires forall j :: 1 <= j < c ==> !Crosses(s, target, j)
    ensures Threshold(s, target) == s[c - 1]
  {
    assert Sum(s[1..1]) == 0.0;
    ScanFirstCrossing(s, 1, 0.0, target, c);
  }

  /** Without a crossing the threshold is the target itself. */
  lemma ThresholdWithoutCrossing(s: seq<real>, target: real)
    requires forall j :: 1 <= j < |s| ==> !Crosses(s, target, j)
    ensures Threshold(s, target) == target
  {
    if |s| > 0 {
      assert Sum(s[1..1]) == 0.0;
      ScanNoCrossing(s, 1, 0.0, target);
    }
  }

  /** The threshold stored for a data component, from its overlaps with every data
      component: the scan of the sorted overlaps for NL_CUTOFF times their total. */
  function SelfThreshold(ov: seq<real>, nlCutoff: real): real
  {
    Threshold(Sort(ov), Fraction(Sum(ov), nlCutoff))
  }

  /** The part NL_CUTOFF of the total self overlap that the tail sum must reach. */
  function Fraction(total: real, nlCutoff: real): real
  {
    total * nlCutoff
  }

  // ---------------------------------------------------------------------------
  // Global cutoff

  /** The seed of the running minimum, literally `1.0+9` (ten). */
  const CutoffSeed: real := 1.0 + 9.0

  /** The running minimum of `xs` started at `seed`. */
  function MinOf(seed: real, xs: seq<real>): real
  {
    if |xs| == 0 then seed
    else
      var cur := MinOf(seed, xs[..|xs| - 1]);
      if xs[|xs| - 1] < cur then xs[|xs| - 1] else cur
  }

  /** The running minimum over rows visited in order. */
  function MinOfRows(seed: real, rows: seq<seq<real>>): real
  {
    if |rows| == 0 then seed else MinOf(MinOfRows(seed, rows[..|rows| - 1]), rows[|rows| - 1])
  }

  lemma {:induction false} MinOfIsMinimum(seed: real, xs: seq<real>)
    ensures MinOf(seed, xs) <= seed
    ensures forall i :: 0 <= i < |xs| ==> MinOf(seed, xs) <= xs[i]
    ensures MinOf(seed, xs) == seed || exists i :: 0 <= i < |xs| && MinOf(seed, xs) == xs[i]
  {
    if |xs| > 0 {
      MinOfIsMinimum(seed, xs[..|xs| - 1]);
      assert forall i :: 0 <= i < |xs| - 1 ==> xs[..|xs| - 1][i] == xs[i];
    }
  }

  /** The running minimum is at most the seed and at most every entry, and it is
      the seed or one of the entries. */
  lemma {:induction false} MinOfRowsIsMinimum(seed: real, rows: seq<seq<real>>)
    ensures MinOfRows(seed, rows) <= seed
    ensures forall i, j :: 0 <= i < |rows| && 0 <= j < |rows[i]| ==> MinOfRows(seed, rows) <= rows[i][j]
    ensures MinOfRows(seed, rows) == seed ||
            exists i, j :: 0 <= i < |rows| && 0 <= j < |rows[i]| && MinOfRows(seed, rows) == rows[i][j]
  {
    if |rows| > 0 {
      var n := |rows| - 1;
      var prefix := rows[..n];
      MinOfRowsIsMinimum(seed, prefix);
      MinOfIsMinimum(MinOfRows(seed, prefix), rows[n]);
      assert forall i :: 0 <= i < n ==> prefix[i] == rows[i];
      var r := MinOfRows(seed, rows);
      if r != seed {
        if r == MinOfRows(seed, prefix) {
          var i, j :| 0 <= i < n && 0 <= j < |prefix[i]| && r == prefix[i][j];
          assert r == rows[i][j];
        } else {
          var j :| 0 <= j < |rows[n]| && r == rows[n][j];
        }
      }
    }
  }

  /** The ratio of data component i's threshold to the full prefactor of its pair
      with atom j, for each data component (rows) and atom (columns). */
  function CutoffRatios(m: Libm, aux: seq<AuxTerms>, dw: seq<real>, mw: seq<real>, mtypes: seq<nat>, ddCut: seq<real>): (r: seq<seq<real>>)
    requires |ddCut| == |dw| && |mtypes| == |mw|
    requires |aux| == 4 * |dw| && forall j :: 0 <= j < |mtypes| ==> mtypes[j] < 4
    ensures |r| == |dw| && forall i :: 0 <= i < |r| ==> |r[i]| == |mw|
  {
    seq(|dw|, i requires 0 <= i < |dw| =>
      seq(|mw|, j requires 0 <= j < |mw| =>
        CutoffRatio(m, aux, dw, mw, mtypes, ddCut, i, j)))
  }

  function CutoffRatio(m: Libm, aux: seq<AuxTerms>, dw: seq<real>, mw: seq<real>, mtypes: seq<nat>, ddCut: seq<real>, i: nat, j: nat): real
    requires |ddCut| == |dw| && |mtypes| == |mw| && i < |dw| && j < |mw|
    requires |aux| == 4 * |dw| && forall j :: 0 <= j < |mtypes| ==> mtypes[j] < 4
  {
    Div(m, ddCut[i], TablePrefactor(aux, dw, mw, mtypes, i, j))
  }

  /** The prefactor of data component i with atom j: the tabulated constant of
      (type of j, i) times both weights. */
  function TablePrefactor(aux: seq<AuxTerms>, dw: seq<real>, mw: seq<real>, mtypes: seq<nat>, i: nat, j: nat): real
    requires |mtypes| == |mw| && i < |dw| && j < |mw|
    requires |aux| == 4 * |dw| && forall j :: 0 <= j < |mtypes| ==> mtypes[j] < 4
  {
    RowMajorInRange(mtypes[j], i, 4, |dw|);
    WeightedPrefactor(aux[RowMajor(mtypes[j], i, |dw|)].pre, dw[i], mw[j])
  }

  /** The prefactor of a (data component, atom) pair: the tabulated constant times
      both weights. */
  function WeightedPrefactor(pre: real, wd: real, wm: real): real
  {
    pre * wd * wm
  }

  /** The global cutoff on the quadratic form: -2 log of the smallest ratio. */
  function GlobalCutoff(m: Libm, aux: seq<AuxTerms>, dw: seq<real>, mw: seq<real>, mtypes: seq<nat>, ddCut: seq<real>): real
    requires |ddCut| == |dw| && |mtypes| == |mw|
    requires |aux| == 4 * |dw| && forall j :: 0 <= j < |mtypes| ==> mtypes[j] < 4
  {
    -2.0 * m.log(MinOfRows(CutoffSeed, CutoffRatios(m, aux, dw, mw, mtypes, ddCut)))
  }

  /** The global cutoff only drops pairs the full test would drop too: when the
      smallest ratio is positive and the pair's prefactor is positive, a quadratic
      form beyond the cutoff gives an overlap below the component's threshold, so
      the fast test keeps the pair exactly when the full overlap reaches it. */
  lemma CutoffDropsOnlyNegligible(m: Libm, aux: seq<AuxTerms>, dw: seq<real>, mw: seq<real>, mtypes: seq<nat>,
                                  ddCut: seq<real>, i: nat, j: nat, a: Vec3, b: Vec3, inv: Sym6)
    requires |ddCut| == |dw| && |mtypes| == |mw| && i < |dw| && j < |mw|
    requires |aux| == 4 * |dw| && forall j :: 0 <= j < |mtypes| ==> mtypes[j] < 4
    requires ExpIncreasing(m) && ExpInvertsLog(m)
    requires TablePrefactor(aux, dw, mw, mtypes, i, j) > 0.0
    requires MinOfRows(CutoffSeed, CutoffRatios(m, aux, dw, mw, mtypes, ddCut)) > 0.0
    ensures var pre := TablePrefactor(aux, dw, mw, mtypes, i, j);
            QuadForm(Sub(a, b), inv) > GlobalCutoff(m, aux, dw, mw, mtypes, ddCut) ==>
              Overlap(m, a, b, pre, inv).ov < ddCut[i]
    ensures var pre := TablePrefactor(aux, dw, mw, mtypes, i, j);
            FastOverlap(m, GlobalCutoff(m, aux, dw, mw, mtypes, ddCut), a, b, pre, inv) >= ddCut[i] <==>
              Overlap(m, a, b, pre, inv).ov >= ddCut[i]
  {
    var pre := TablePrefactor(aux, dw, mw, mtypes, i, j);
    var least := MinOfRows(CutoffSeed, CutoffRatios(m, aux, dw, mw, mtypes, ddCut));
    var ratio := CutoffRatio(m, aux, dw, mw, mtypes, ddCut, i, j);
    LeastRatio(m, aux, dw, mw, mtypes, ddCut, i, j);
    assert ratio == Div(m, ddCut[i], pre);
    CutoffSound(m, least, ratio, pre, ddCut[i], a, b, inv);
  }

  /** The same for one pair, with the cutoff -2 log(least) and least at most the
      pair's ratio thr / pre. */
  lemma CutoffSound(m: Libm, least: real, ratio: real, pre: real, thr: real, a: Vec3, b: Vec3, inv: Sym6)
    requires ExpIncreasing(m) && ExpInvertsLog(m)
    requires pre > 0.0 && least > 0.0 && least <= ratio && ratio * pre == thr
    ensures QuadForm(Sub(a, b), inv) > -2.0 * m.log(least) ==> Overlap(m, a, b, pre, inv).ov < thr
    ensures FastOverlap(m, -2.0 * m.log(least), a, b, pre, inv) >= thr <==> Overlap(m, a, b, pre, inv).ov >= thr
  {
    var q := QuadForm(Sub(a, b), inv);
    FastOverlapAgrees(m, -2.0 * m.log(least), a, b, pre, inv);
    if q > -2.0 * m.log(least) {
      GaussianBelowThreshold(m, pre, thr, least, ratio, q);
      assert Overlap(m, a, b, pre, inv).ov == pre * m.exp(-0.5 * q);
    }
  }

  /** The smallest ratio is at most the ratio of pair (i, j). */
  lemma LeastRatio(m: Libm, aux: seq<AuxTerms>, dw: seq<real>, mw: seq<real>, mtypes: seq<nat>,
                   ddCut: seq<real>, i: nat, j: nat)
    requires |ddCut| == |dw| && |mtypes| == |mw| && i < |dw| && j < |mw|
    requires |aux| == 4 * |dw| && forall j :: 0 <= j < |mtypes| ==> mtypes[j] < 4
    ensures MinOfRows(CutoffSeed, CutoffRatios(m, aux, dw, mw, mtypes, ddCut)) <= CutoffRatio(m, aux, dw, mw, mtypes, ddCut, i, j)
  {
    var ratios := CutoffRatios(m, aux, dw, mw, mtypes, ddCut);
    MinOfRowsIsMinimum(CutoffSeed, ratios);
    assert ratios[i][j] == CutoffRatio(m, aux, dw, mw, mtypes, ddCut, i, j);
  }

  /** With least <= thr / pre, a quadratic form beyond -2 log(least) makes
      pre * exp(-q/2) fall below thr, and thr is positive. */
  lemma GaussianBelowThreshold(m: Libm, pre: real, thr: real, least: real, ratio: real, q: real)
    requires ExpIncreasing(m) && ExpInvertsLog(m)
    requires pre > 0.0 && least > 0.0 && least <= ratio && ratio * pre == thr
    requires q > -2.0 * m.log(least)
    ensures pre * m.exp(-0.5 * q) < thr && thr > 0.0
  {
    assert -0.5 * q < m.log(least);
    var e := m.exp(-0.5 * q);
    assert e < least;
    ScaledBelow(least, ratio, pre, thr);
    ScaledStrictlyBelow(e, least, pre, thr);
  }

  /** A value at most a ratio r = thr / pre, scaled by pre > 0, is at most thr;
      a positive one makes thr positive. */
  lemma ScaledBelow(x: real, r: real, pre: real, thr: real)
    requires pre > 0.0 && x <= r && r * pre == thr
    ensures x * pre <= thr
    ensures x > 0.0 ==> thr > 0.0
  {
  }

  /** A value strictly below x with x * pre <= thr, scaled by pre > 0, is strictly
      below thr. */
  lemma ScaledStrictlyBelow(y: real, x: real, pre: real, thr: real)
    requires pre > 0.0 && y < x && x * pre <= thr
    ensures pre * y < thr
  {
  }

  // ---------------------------------------------------------------------------
  // Accumulation per data component

  /** The overlap sums per data component: entry e adds `ovs[e]` to component `ids[e]`. */
  function Accumulate(n: nat, ids: seq<nat>, ovs: seq<real>): (r: seq<real>)
    requires |ids| == |ovs| && forall e :: 0 <= e < |ids| ==> ids[e] < n
    ensures |r| == n
  {
    if |ids| == 0 then Zeros(n)
    else
      var k := |ids| - 1;
      var prev := Accumulate(n, ids[..k], ovs[..k]);
      prev[ids[k] := prev[ids[k]] + ovs[k]]
  }

  /** The overlap of the entries that name data component d, summed in entry
      order. */
  function SumFor(ids: seq<nat>, ovs: seq<real>, d: nat): real
    requires |ids| == |ovs|
  {
    if |ids| == 0 then 0.0
    else
      var k := |ids| - 1;
      SumFor(ids[..k], ovs[..k], d) + (if ids[k] == d then ovs[k] else 0.0)
  }

  /** Each accumulated component is the sum of the overlaps of exactly the entries
      that name it. */
  lemma {:induction false} AccumulateComponent(n: nat, ids: seq<nat>, ovs: seq<real>, d: nat)
    requires |ids| == |ovs| && forall e :: 0 <= e < |ids| ==> ids[e] < n
    requires d < n
    ensures Accumulate(n, ids, ovs)[d] == SumFor(ids, ovs, d)
  {
    if |ids| > 0 {
      var k := |ids| - 1;
      AccumulateComponent(n, ids[..k], ovs[..k], d);
    }
  }

  /** One more entry adds its overlap to its own component. */
  lemma AccumulateStep(n: nat, ids: seq<nat>, ovs: seq<real>, e: nat)
    requires |ids| == |ovs| && forall q :: 0 <= q < |ids| ==> ids[q] < n
    requires e < |ids|
    ensures var prev := Accumulate(n, ids[..e], ovs[..e]);
            Accumulate(n, ids[..e + 1], ovs[..e + 1]) == prev[ids[e] := prev[ids[e]] + ovs[e]]
  {
    assert ids[..e + 1][..e] == ids[..e] && ovs[..e + 1][..e] == ovs[..e];
  }

  /** Accumulation moves every overlap into some component and loses none: the
      component sums add up to the sum of all entries. */
  lemma {:induction false} AccumulatePreservesTotal(n: nat, ids: seq<nat>, ovs: seq<real>)
    requires |ids| == |ovs| && forall e :: 0 <= e < |ids| ==> ids[e] < n
    ensures Sum(Accumulate(n, ids, ovs)) == Sum(ovs)
  {
    if |ids| == 0 {
      SumZeros(n);
    } else {
      var k := |ids| - 1;
      var prev := Accumulate(n, ids[..k], ovs[..k]);
      AccumulatePreservesTotal(n, ids[..k], ovs[..k]);
      SumUpdate(prev, ids[k], ovs[k]);
    }
  }

  /** A component that no entry names keeps a zero sum. */
  lemma {:induction false} AccumulateUntouched(n: nat, ids: seq<nat>, ovs: seq<real>, d: nat)
    requires |ids| == |ovs| && forall e :: 0 <= e < |ids| ==> ids[e] < n
    requires d < n && forall e :: 0 <= e < |ids| ==> ids[e] != d
    ensures Accumulate(n, ids, ovs)[d] == 0.0
  {
    if |ids| > 0 {
      var k := |ids| - 1;
      AccumulateUntouched(n, ids[..k], ovs[..k], d);
    }
  }

  lemma {:induction false} SumZeros(n: nat)
    ensures Sum(Zeros(n)) == 0.0
  {
    if n > 0 {
      assert Zeros(n)[..n - 1] == Zeros(n - 1);
      SumZeros(n - 1);
    }
  }

  /** Adding x to one entry adds x to the sum. */
  lemma {:induction false} SumUpdate(s: seq<real>, i: nat, x: real)
    requires i < |s|
    ensures Sum(s[i := s[i] + x]) == Sum(s) + x
  {
    var t := s[i := s[i] + x];
    var k := |s| - 1;
    if i == k {
      assert t[..k] == s[..k];
    } else {
      assert t[..k] == s[..k][i := s[..k][i] + x];
      SumUpdate(s[..k], i, x);
    }
  }
}
