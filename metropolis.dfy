/** The Bayesian energy of the uncertainty parameter sigma and the Metropolis
    Monte Carlo that samples sigma: proposals uniform in [-DSIGMA, DSIGMA], reflected
    at SIGMA_MAX then at SIGMA_MIN, accepted with probability min(1, exp(-delta)). */
module Metropolis {
  import opened Numerics

  /** The residual sum of squares sum_i (a_i - b_i)^2, accumulated left to right. */
  function Rss(a: seq<real>, b: seq<real>): real
    requires |a| == |b|
  {
    if |a| == 0 then 0.0
    else
      var n := |a| - 1;
      Rss(a[..n], b[..n]) + (a[n] - b[n]) * (a[n] - b[n])
  }

  /** The effective variance `ss2` of the data at uncertainty sigma. */
  function Variance(sigmaMean: real, sigma: real): real
  {
    sigmaMean * sigmaMean + sigma * sigma
  }

  /** The energy at uncertainty `sigma`: the Gaussian likelihood of the model
      overlaps given the data self-overlaps, with variance sigmaMean^2 + sigma^2, its
      normalisation and Jeffreys' prior, in units of kbt. */
  function Energy(m: Libm, kbt: real, sigmaMean: real, ovmd: seq<real>, ovdd: seq<real>, sigma: real): real
    requires |ovmd| == |ovdd|
  {
    var ss2 := Variance(sigmaMean, sigma);
    Restraint(m, kbt, Div(m, kbt * 0.5, ss2), Rss(ovmd, ovdd), |ovmd|, ss2)
  }

  /** The Gaussian restraint on `n` overlaps with residual sum `rss` and prefactor
      `fact`, plus the normalisation term of the `n` data points and Jeffreys' prior
      on the variance ss2, both in units of kbt. */
  function Restraint(m: Libm, kbt: real, fact: real, rss: real, n: nat, ss2: real): real
  {
    fact * rss + kbt * ((n as real) * 0.5 * m.log(ss2) + 0.5 * m.log(ss2))
  }

  /** The residual sum is never negative, and it is zero exactly when the two
      sequences agree. */
  lemma {:induction false} RssZeroIff(a: seq<real>, b: seq<real>)
    requires |a| == |b|
    ensures Rss(a, b) >= 0.0
    ensures Rss(a, b) == 0.0 <==> a == b
  {
    if |a| > 0 {
      var n := |a| - 1;
      RssZeroIff(a[..n], b[..n]);
      var d := a[n] - b[n];
      assert d * d >= 0.0;
      assert a == a[..n] + [a[n]] && b == b[..n] + [b[n]];
      if Rss(a, b) == 0.0 {
        ZeroProduct(d, d);
        assert a[..n] + [a[n]] == b[..n] + [b[n]];
      }
    }
  }

  lemma MulPositive(a: real, b: real)
    requires a > 0.0 && b > 0.0
    ensures a * b > 0.0
  {
  }

  /** A product of reals is zero only when a factor is. */
  lemma ZeroProduct(a: real, b: real)
    requires a * b == 0.0
    ensures a == 0.0 || b == 0.0
  {
    if a != 0.0 && b != 0.0 {
      if a > 0.0 && b > 0.0 {
        MulPositive(a, b);
      } else if a < 0.0 && b < 0.0 {
        MulPositive(-a, -b);
      } else if a > 0.0 {
        MulPositive(a, -b);
      } else {
        MulPositive(-a, b);
      }
    }
  }

  /** With a positive variance and temperature, the energy is bounded below by its
      normalisation term and reaches that bound exactly when the model overlaps
      equal the data self-overlaps. */
  lemma EnergyLowerBound(m: Libm, kbt: real, sigmaMean: real, ovmd: seq<real>, ovdd: seq<real>, sigma: real)
    requires |ovmd| == |ovdd|
    requires kbt > 0.0 && Variance(sigmaMean, sigma) > 0.0
    ensures var ss2 := Variance(sigmaMean, sigma);
            var floor := kbt * ((|ovmd| as real) * 0.5 * m.log(ss2) + 0.5 * m.log(ss2));
            Energy(m, kbt, sigmaMean, ovmd, ovdd, sigma) >= floor &&
            (Energy(m, kbt, sigmaMean, ovmd, ovdd, sigma) == floor <==> ovmd == ovdd)
  {
    var ss2 := Variance(sigmaMean, sigma);
    var fact := Div(m, kbt * 0.5, ss2);
    assert fact == (kbt * 0.5) / ss2;
    PositiveQuotient(kbt * 0.5, ss2);
    RssZeroIff(ovmd, ovdd);
    var rss := Rss(ovmd, ovdd);
    assert fact * rss >= 0.0;
    if rss != 0.0 {
      assert fact * rss > 0.0;
    }
  }

  lemma PositiveQuotient(a: real, b: real)
    requires a > 0.0 && b > 0.0
    ensures a / b > 0.0
  {
  }

  /** The energy depends on sigma only through sigma^2. */
  lemma EnergyEven(m: Libm, kbt: real, sigmaMean: real, ovmd: seq<real>, ovdd: seq<real>, sigma: real)
    requires |ovmd| == |ovdd|
    ensures Energy(m, kbt, sigmaMean, ovmd, ovdd, -sigma) == Energy(m, kbt, sigmaMean, ovmd, ovdd, sigma)
  {
    assert (-sigma) * (-sigma) == sigma * sigma;
  }

  // ---------------------------------------------------------------------------
  // Proposal

  /** The boundary treatment of a proposal: first reflected at `hi`, then the result
      reflected at `lo`. */
  function Reflect(p: real, lo: real, hi: real): real
  {
    var q := if p > hi then 2.0 * hi - p else p;
    if q < lo then 2.0 * lo - q else q
  }

  /** A proposal inside the bounds is left as it is. */
  lemma ReflectInside(p: real, lo: real, hi: real)
    requires lo <= p <= hi
    ensures Reflect(p, lo, hi) == p
  {
  }

  /** A move from a value inside [lo, hi] by at most hi - lo lands inside [lo, hi]
      after reflection, mirrored at the bound it crossed. */
  lemma ReflectInBounds(s: real, p: real, d: real, lo: real, hi: real)
    requires lo <= s <= hi && 0.0 <= d <= hi - lo && s - d <= p <= s + d
    ensures lo <= Reflect(p, lo, hi) <= hi
    ensures p > hi ==> Reflect(p, lo, hi) == 2.0 * hi - p
    ensures p < lo ==> Reflect(p, lo, hi) == 2.0 * lo - p
  {
  }

  /** The proposed sigma for a uniform draw `u`: sigma + (-d + u * 2 * d), reflected. */
  function Propose(sigma: real, d: real, u: real, lo: real, hi: real): real
  {
    Reflect(sigma + (-d + u * 2.0 * d), lo, hi)
  }

  /** A draw in [0, 1] moves sigma by at most d before reflection. */
  lemma MoveWithinStep(d: real, u: real)
    requires d >= 0.0 && 0.0 <= u <= 1.0
    ensures -d <= -d + u * 2.0 * d <= d
  {
    assert u * (2.0 * d) <= 1.0 * (2.0 * d);
    assert u * (2.0 * d) >= 0.0;
  }

  /** A proposal from inside [lo, hi] with a step no wider than the interval and a
      draw in [0, 1] stays inside. */
  lemma ProposeInBounds(sigma: real, d: real, u: real, lo: real, hi: real)
    requires lo <= sigma <= hi && 0.0 <= d <= hi - lo && 0.0 <= u <= 1.0
    ensures lo <= Propose(sigma, d, u, lo, hi) <= hi
  {
    MoveWithinStep(d, u);
    var move := -d + u * 2.0 * d;
    ReflectInBounds(sigma, sigma + move, d, lo, hi);
  }

  // ---------------------------------------------------------------------------
  // The chain

  /** The fixed inputs of a Monte Carlo sweep. */
  datatype McSetup = McSetup(
    kbt: real, sigmaMean: real,
    sigmaMin: real, sigmaMax: real, dSigma: real,
    ovmd: seq<real>, ovdd: seq<real>)

  predicate WellFormed(p: McSetup) { |p.ovmd| == |p.ovdd| }

  function EnergyAt(m: Libm, p: McSetup, sigma: real): real
    requires WellFormed(p)
  {
    Energy(m, p.kbt, p.sigmaMean, p.ovmd, p.ovdd, sigma)
  }

  /** The state a sweep carries: the current sigma, its stored energy, the acceptance
      counter, and how many uniform draws (`rand()/RAND_MAX`) have been used. */
  datatype Chain = Chain(sigma: real, energy: real, accepted: nat, used: nat)

  /** The reduced energy difference of a proposal. */
  function Delta(m: Libm, p: McSetup, c: Chain, sigma: real): real
    requires WellFormed(p)
  {
    Div(m, EnergyAt(m, p, sigma) - c.energy, p.kbt)
  }

  /** One trial: draw a proposal; a downhill move (delta <= 0) is accepted without a
      second draw, an uphill one when a second draw is below exp(-delta). */
  function Step(m: Libm, p: McSetup, c: Chain, draws: seq<real>): (r: Chain)
    requires WellFormed(p) && c.used + 2 <= |draws|
    ensures r.used == c.used + 1 || r.used == c.used + 2
    ensures r.accepted == c.accepted || r.accepted == c.accepted + 1
    ensures r.sigma == c.sigma || r.sigma == Propose(c.sigma, p.dSigma, draws[c.used], p.sigmaMin, p.sigmaMax)
  {
    var newSigma := Propose(c.sigma, p.dSigma, draws[c.used], p.sigmaMin, p.sigmaMax);
    var newEnergy := EnergyAt(m, p, newSigma);
    var delta := Div(m, newEnergy - c.energy, p.kbt);
    if delta <= 0.0 then Chain(newSigma, newEnergy, c.accepted + 1, c.used + 1)
    else if draws[c.used + 1] < m.exp(-delta) then Chain(newSigma, newEnergy, c.accepted + 1, c.used + 2)
    else Chain(c.sigma, c.energy, c.accepted, c.used + 2)
  }

  /** A trial is accepted exactly when it is downhill or its second draw falls below
      exp(-delta); an accepted trial moves to the proposal and its energy, a rejected
      one keeps sigma and the stored energy, and the counter counts acceptances. */
  lemma StepAcceptance(m: Libm, p: McSetup, c: Chain, draws: seq<real>)
    requires WellFormed(p) && c.used + 2 <= |draws|
    ensures var newSigma := Propose(c.sigma, p.dSigma, draws[c.used], p.sigmaMin, p.sigmaMax);
            var delta := Delta(m, p, c, newSigma);
            var r := Step(m, p, c, draws);
            (r.accepted == c.accepted + 1 <==> delta <= 0.0 || draws[c.used + 1] < m.exp(-delta)) &&
            (r.accepted == c.accepted + 1 ==> r.sigma == newSigma && r.energy == EnergyAt(m, p, newSigma)) &&
            (r.accepted == c.accepted ==> r.sigma == c.sigma && r.energy == c.energy) &&
            (r.used == c.used + 1 <==> delta <= 0.0)
  {
  }

  /** `k` trials in a row. */
  function Run(m: Libm, p: McSetup, c: Chain, draws: seq<real>, k: nat): (r: Chain)
    requires WellFormed(p) && c.used + 2 * k <= |draws|
    ensures c.used + k <= r.used <= c.used + 2 * k
    ensures c.accepted <= r.accepted <= c.accepted + k
  {
    if k == 0 then c else Step(m, p, Run(m, p, c, draws, k - 1), draws)
  }

  /** The stored energy stays the energy of the current sigma along the chain. */
  lemma {:induction false} RunTracksEnergy(m: Libm, p: McSetup, c: Chain, draws: seq<real>, k: nat)
    requires WellFormed(p) && c.used + 2 * k <= |draws|
    requires c.energy == EnergyAt(m, p, c.sigma)
    ensures Run(m, p, c, draws, k).energy == EnergyAt(m, p, Run(m, p, c, draws, k).sigma)
  {
    if k > 0 {
      RunTracksEnergy(m, p, c, draws, k - 1);
      StepAcceptance(m, p, Run(m, p, c, draws, k - 1), draws);
    }
  }

  /** One trial from a sigma inside [SIGMA_MIN, SIGMA_MAX] stays inside. */
  lemma StepStaysInBounds(m: Libm, p: McSetup, c: Chain, draws: seq<real>)
    requires WellFormed(p) && c.used + 2 <= |draws|
    requires 0.0 <= draws[c.used] <= 1.0
    requires 0.0 <= p.dSigma <= p.sigmaMax - p.sigmaMin
    requires p.sigmaMin <= c.sigma <= p.sigmaMax
    ensures p.sigmaMin <= Step(m, p, c, draws).sigma <= p.sigmaMax
  {
    ProposeInBounds(c.sigma, p.dSigma, draws[c.used], p.sigmaMin, p.sigmaMax);
  }

  /** With a step no wider than the interval and draws in [0, 1], sigma never leaves
      [SIGMA_MIN, SIGMA_MAX] once inside. */
  lemma {:induction false} RunStaysInBounds(m: Libm, p: McSetup, c: Chain, draws: seq<real>, k: nat)
    requires WellFormed(p) && c.used + 2 * k <= |draws|
    requires forall i :: 0 <= i < |draws| ==> 0.0 <= draws[i] <= 1.0
    requires 0.0 <= p.dSigma <= p.sigmaMax - p.sigmaMin
    requires p.sigmaMin <= c.sigma <= p.sigmaMax
    ensures p.sigmaMin <= Run(m, p, c, draws, k).sigma <= p.sigmaMax
  {
    if k > 0 {
      var prev := Run(m, p, c, draws, k - 1);
      RunStaysInBounds(m, p, c, draws, k - 1);
      StepStaysInBounds(m, p, prev, draws);
    }
  }

  // ---------------------------------------------------------------------------
  // Acceptance ratio

  /** The number of Monte Carlo sweeps since the first step: floor((step - first) /
      stride) + 1. Integer division by a positive divisor rounds down, as floor does. */
  function Sweeps(step: int, first: int, stride: nat): real
    requires stride > 0
  {
    ((step - first) / stride) as real + 1.0
  }

  /** The reported acceptance: accepted / MC_STEPS / sweeps. */
  function AcceptRatio(m: Libm, accepted: nat, steps: nat, step: int, first: int, stride: nat): real
    requires stride > 0
  {
    Div(m, Div(m, accepted as real, steps as real), Sweeps(step, first, stride))
  }

  /** The acceptance is a fraction in [0, 1] whenever the counter does not exceed
      the number of trials of the sweeps so far, and it is zero when nothing was
      accepted. */
  lemma AcceptRatioBounds(m: Libm, accepted: nat, steps: nat, step: int, first: int, stride: nat)
    requires stride > 0 && steps > 0 && step >= first
    requires accepted <= steps * ((step - first) / stride + 1)
    ensures 0.0 <= AcceptRatio(m, accepted, steps, step, first, stride) <= 1.0
    ensures accepted == 0 ==> AcceptRatio(m, accepted, steps, step, first, stride) == 0.0
  {
    var sweeps := (step - first) / stride + 1;
    assert Sweeps(step, first, stride) == sweeps as real;
    var a, s, t := accepted as real, steps as real, sweeps as real;
    assert a <= s * t;
    var perStep := a / s;
    assert perStep * s == a;
    assert perStep <= t;
    assert perStep >= 0.0;
    FractionAtMostOne(perStep, t);
  }

  /** The reported acceptance stays in [0, 1] while the counter does not exceed
      the trials run, and those do not exceed MC_STEPS times the sweeps the step
      numbers account for. */
  lemma AcceptRatioWithinTrials(m: Libm, accepted: nat, trials: nat, steps: nat, step: int, first: int, stride: nat)
    requires stride > 0 && accepted <= trials
    ensures steps > 0 && step >= first && trials <= steps * ((step - first) / stride + 1) ==>
              0.0 <= AcceptRatio(m, accepted, steps, step, first, stride) <= 1.0
  {
    if steps > 0 && step >= first && trials <= steps * ((step - first) / stride + 1) {
      AcceptRatioBounds(m, accepted, steps, step, first, stride);
    }
  }

  lemma FractionAtMostOne(x: real, t: real)
    requires 0.0 <= x <= t && t > 0.0
    ensures 0.0 <= x / t <= 1.0
  {
    var q := x / t;
    assert q * t == x;
  }
}
