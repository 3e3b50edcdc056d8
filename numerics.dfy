/** Stand-ins for what the collective variable takes from <cmath> and <algorithm>:
    the transcendental functions, IEEE division, std::accumulate and std::sort. */
module Numerics {

  /** The functions of <cmath> and the constant pi, left uninterpreted: the model
      never relies on their values, only on hypotheses a lemma states about them.
      `divByZero` stands for what an IEEE division by zero yields (an infinity or
      a NaN), which the model leaves unspecified. */
  datatype Libm = Libm(
    exp: real -> real,
    log: real -> real,
    sqrt: real -> real,
    pow: (real, real) -> real,
    pi: real,
    divByZero: real -> real)

  /** The one property of exp some lemmas assume. */
  ghost predicate ExpPositive(m: Libm) {
    forall x :: m.exp(x) > 0.0
  }

  /** exp is strictly increasing. */
  ghost predicate ExpIncreasing(m: Libm) {
    forall x, y :: x < y ==> m.exp(x) < m.exp(y)
  }

  /** exp undoes log on the positive reals. */
  ghost predicate ExpInvertsLog(m: Libm) {
    forall x :: x > 0.0 ==> m.exp(m.log(x)) == x
  }

  /** Floating-point division `a / b`: the exact quotient whenever `b` is nonzero. */
  function Div(m: Libm, a: real, b: real): (r: real)
    ensures b != 0.0 ==> r * b == a
  {
    if b != 0.0 then a / b else m.divByZero(a)
  }

  lemma NonzeroProduct(a: real, b: real)
    requires a != 0.0 && b != 0.0
    ensures a * b != 0.0
  {
  }

  /** std::accumulate(s.begin(), s.end(), 0.0): the left-to-right sum. */
  function Sum(s: seq<real>): real
  {
    if |s| == 0 then 0.0 else Sum(s[..|s| - 1]) + s[|s| - 1]
  }

  /** The same sum over naturals (per-worker counts). */
  function SumNat(s: seq<nat>): nat
  {
    if |s| == 0 then 0 else SumNat(s[..|s| - 1]) + s[|s| - 1]
  }

  function Zeros(n: nat): (r: seq<real>)
    ensures |r| == n && forall i :: 0 <= i < n ==> r[i] == 0.0
  {
    seq(n, _ => 0.0)
  }

  lemma {:induction false} SumAppend(a: seq<real>, b: seq<real>)
    ensures Sum(a + b) == Sum(a) + Sum(b)
  {
    if |b| > 0 {
      assert (a + b)[..|a + b| - 1] == a + b[..|b| - 1];
      SumAppend(a, b[..|b| - 1]);
    } else {
      assert a + b == a;
    }
  }

  lemma {:induction false} SumNatAppend(a: seq<nat>, b: seq<nat>)
    ensures SumNat(a + b) == SumNat(a) + SumNat(b)
  {
    if |b| > 0 {
      assert (a + b)[..|a + b| - 1] == a + b[..|b| - 1];
      SumNatAppend(a, b[..|b| - 1]);
    } else {
      assert a + b == a;
    }
  }

  /** A sum of nonnegative terms is at least each of its terms. */
  lemma {:induction false} SumDominatesTerms(s: seq<real>, i: nat)
    requires i < |s|
    requires forall k :: 0 <= k < |s| ==> s[k] >= 0.0
    ensures Sum(s) >= s[i]
  {
    var n := |s| - 1;
    if i == n {
      SumNonNegative(s[..n]);
    } else {
      SumDominatesTerms(s[..n], i);
    }
  }

  lemma {:induction false} SumNonNegative(s: seq<real>)
    requires forall k :: 0 <= k < |s| ==> s[k] >= 0.0
    ensures Sum(s) >= 0.0
  {
    if |s| > 0 {
      SumNonNegative(s[..|s| - 1]);
    }
  }

  /** Multiplying every term by `c` multiplies the sum by `c`. */
  lemma {:induction false} SumScale(s: seq<real>, t: seq<real>, c: real)
    requires |t| == |s|
    requires forall k :: 0 <= k < |s| ==> t[k] == c * s[k]
    ensures Sum(t) == c * Sum(s)
  {
    if |s| > 0 {
      SumScale(s[..|s| - 1], t[..|t| - 1], c);
    }
  }

  predicate Sorted(s: seq<real>)
  {
    forall i, j :: 0 <= i < j < |s| ==> s[i] <= s[j]
  }

  /** Insertion of `x` into an ascending sequence. */
  function Insert(x: real, s: seq<real>): (r: seq<real>)
    requires Sorted(s)
    ensures Sorted(r)
    ensures multiset(r) == multiset(s) + multiset{x}
    ensures |r| == |s| + 1
  {
    if |s| == 0 || x <= s[0] then
      [x] + s
    else
      var rest := Insert(x, s[1..]);
      assert s == [s[0]] + s[1..];
      LowerBoundOfPermutation(rest, s[1..], x, s[0]);
      [s[0]] + rest
  }

  /** A bound below every element of `t` and below `x` bounds every element of a
      rearrangement of `t` with `x` added. */
  lemma LowerBoundOfPermutation(r: seq<real>, t: seq<real>, x: real, lo: real)
    requires multiset(r) == multiset(t) + multiset{x}
    requires lo <= x && forall k :: 0 <= k < |t| ==> lo <= t[k]
    ensures forall k :: 0 <= k < |r| ==> lo <= r[k]
  {
    forall k | 0 <= k < |r| ensures lo <= r[k] {
      assert r[k] in multiset(r);
      if r[k] != x {
        assert r[k] in multiset(t);
        var j :| 0 <= j < |t| && t[j] == r[k];
      }
    }
  }

  /** std::sort(s.begin(), s.end()) on doubles: the ascending rearrangement of `s`
      (unique, so any sorting algorithm yields it). */
  function Sort(s: seq<real>): (r: seq<real>)
    ensures Sorted(r)
    ensures multiset(r) == multiset(s)
    ensures |r| == |s|
  {
    if |s| == 0 then
      []
    else
      assert s == [s[0]] + s[1..];
      Insert(s[0], Sort(s[1..]))
  }
}
