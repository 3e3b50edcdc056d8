/** Construction of the two Gaussian mixtures: the model mixture derived from the
    atoms' element types, the data mixture read as records and checked one by one,
    and the normalisation of the weights of either. */
module Gmm {
  import opened Numerics
  import opened Linalg

  /** The fatal errors the collective variable raises at construction. */
  datatype Error =
    | MolinfoNotFound
    | AtomNameTooShort(name: string)
    | WrongAtomType(typeChar: char, name: string)
    | GmmFileNotFound
    | CovarianceNotPositiveDefinite
    | NegativeWeight
    | NlCutoffNotPositive
    | NlStrideNotPositive

  datatype Outcome = Pass | Fail(error: Error)

  datatype Result<T> = Ok(value: T) | Err(error: Error)

  /** The four supported element types, in type-index order. */
  const TypeChars: seq<char> := ['C', 'O', 'N', 'S']
  /** Their weights (the A coefficients of the scattering factor). */
  const TypeWeights: seq<real> := [2.49982, 1.97692, 2.20402, 5.14099]
  /** Their B coefficients, the list `s_map_` from which the spherical
      covariances are derived. */
  const TypeB: seq<real> := [15.146, 8.59722, 11.1116, 15.8952]

  const NumTypes: nat := 4

  predicate IsDigit(c: char) { '0' <= c <= '9' }

  /** The type index of an element letter, if it is one of C, O, N, S. */
  function TypeIndex(c: char): (r: Option<nat>)
    ensures r.Some? <==> c in TypeChars
    ensures r.Some? ==> r.value < NumTypes && TypeChars[r.value] == c
  {
    if c == 'C' then Some(0)
    else if c == 'O' then Some(1)
    else if c == 'N' then Some(2)
    else if c == 'S' then Some(3)
    else None
  }

  datatype Option<T> = None | Some(value: T)

  /** The character that gives an atom's element: the first of its name, or the
      second when the first is a digit. `std::string::at` throws on a name too short
      to hold it; that is an error here too. */
  function TypeCharOf(name: string): (r: Result<char>)
    ensures r.Ok? <==> |name| > 0 && (IsDigit(name[0]) ==> |name| > 1)
    ensures r.Ok? && !IsDigit(name[0]) ==> r.value == name[0]
    ensures r.Ok? && IsDigit(name[0]) ==> r.value == name[1]
    ensures r.Err? ==> r.error == AtomNameTooShort(name)
  {
    if |name| == 0 then Err(AtomNameTooShort(name))
    else if !IsDigit(name[0]) then Ok(name[0])
    else if |name| > 1 then Ok(name[1])
    else Err(AtomNameTooShort(name))
  }

  /** The type index of one atom from its name. */
  function ClassifyAtom(name: string): (r: Result<nat>)
    ensures r.Ok? <==> TypeCharOf(name).Ok? && TypeCharOf(name).value in TypeChars
    ensures r.Ok? ==> r.value < NumTypes && TypeChars[r.value] == TypeCharOf(name).value
    ensures r.Err? && TypeCharOf(name).Ok? ==>
              r.error == WrongAtomType(TypeCharOf(name).value, name)
  {
    match TypeCharOf(name)
    case Err(e) => Err(e)
    case Ok(c) =>
      match TypeIndex(c)
      case None => Err(WrongAtomType(c, name))
      case Some(t) => Ok(t)
  }

  /** The types of all atoms, in order, or the error of the first atom that has none. */
  function ClassifyAll(names: seq<string>): Result<seq<nat>>
  {
    if |names| == 0 then Ok([])
    else
      match ClassifyAll(names[..|names| - 1])
      case Err(e) => Err(e)
      case Ok(ts) =>
        match ClassifyAtom(names[|names| - 1])
        case Err(e) => Err(e)
        case Ok(t) => Ok(ts + [t])
  }

  /** What the model-mixture builder computes: MOLINFO must be present exactly
      once, and every atom must have a supported type. */
  function BuildModelTypes(molinfoCount: nat, names: seq<string>): Result<seq<nat>>
  {
    if molinfoCount != 1 then Err(MolinfoNotFound) else ClassifyAll(names)
  }

  function WeightsOf(types: seq<nat>): (r: seq<real>)
    requires forall i :: 0 <= i < |types| ==> types[i] < NumTypes
    ensures |r| == |types|
    ensures forall i :: 0 <= i < |types| ==> r[i] == TypeWeights[types[i]] && r[i] > 0.0
  {
    seq(|types|, i requires 0 <= i < |types| => TypeWeights[types[i]])
  }

  /** ClassifyAll succeeds exactly when every atom classifies, and then lists their
      types in order; otherwise it reports the first atom that fails. */
  lemma {:induction false} ClassifyAllSpec(names: seq<string>)
    ensures ClassifyAll(names).Ok? <==> forall i :: 0 <= i < |names| ==> ClassifyAtom(names[i]).Ok?
    ensures ClassifyAll(names).Ok? ==>
              |ClassifyAll(names).value| == |names| &&
              forall i :: 0 <= i < |names| ==> ClassifyAll(names).value[i] == ClassifyAtom(names[i]).value
    ensures ClassifyAll(names).Err? ==>
              exists i :: 0 <= i < |names| && ClassifyAtom(names[i]).Err? &&
                ClassifyAll(names).error == ClassifyAtom(names[i]).error &&
                forall j :: 0 <= j < i ==> ClassifyAtom(names[j]).Ok?
  {
    if |names| > 0 {
      var n := |names| - 1;
      var prefix := names[..n];
      ClassifyAllSpec(prefix);
      assert forall i :: 0 <= i < n ==> prefix[i] == names[i];
      match ClassifyAll(prefix)
      case Err(e) =>
        var i :| 0 <= i < |prefix| && ClassifyAtom(prefix[i]).Err? &&
                 e == ClassifyAtom(prefix[i]).error &&
                 forall j :: 0 <= j < i ==> ClassifyAtom(prefix[j]).Ok?;
        assert ClassifyAtom(names[i]).Err?;
      case Ok(ts) =>
        if ClassifyAtom(names[n]).Err? {
          assert forall j :: 0 <= j < n ==> ClassifyAtom(names[j]).Ok?;
        }
    }
  }

  /** Once a prefix of the atoms fails, the whole list fails with the same error. */
  lemma {:induction false} ClassifyAllStopsAt(names: seq<string>, i: nat)
    requires i <= |names| && ClassifyAll(names[..i]).Err?
    ensures ClassifyAll(names) == ClassifyAll(names[..i])
    decreases |names| - i
  {
    if i < |names| {
      var n := |names| - 1;
      assert names[..n][..i] == names[..i];
      ClassifyAllStopsAt(names[..n], i);
    } else {
      assert names[..i] == names;
    }
  }

  /** One record of the data file: Id, Weight, Mean_0..2, Cov_00, Cov_01, Cov_02,
      Cov_11, Cov_12, Cov_22. */
  datatype Record = Record(id: int, w: real, mean: Vec3, cov: Sym6)

  /** The check of one data component: Sylvester's criterion on its covariance,
      then the sign of its weight (a zero weight passes). */
  function CheckComponent(cov: Sym6, w: real): (r: Outcome)
    ensures r.Pass? <==> PositiveDefinite(cov) && w >= 0.0
    ensures r.Fail? ==> r.error == (if PositiveDefinite(cov) then NegativeWeight else CovarianceNotPositiveDefinite)
  {
    var pm1 := Minor1(cov);
    var pm2 := Minor2(cov);
    var pm3 := Minor3(cov);
    if pm1 <= 0.0 || pm2 <= 0.0 || pm3 <= 0.0 then Fail(CovarianceNotPositiveDefinite)
    else if w < 0.0 then Fail(NegativeWeight)
    else Pass
  }

  /** The outcome of checking the records in file order: the first failure, if any. */
  function CheckAll(records: seq<Record>): Outcome
  {
    if |records| == 0 then Pass
    else
      match CheckAll(records[..|records| - 1])
      case Fail(e) => Fail(e)
      case Pass => CheckComponent(records[|records| - 1].cov, records[|records| - 1].w)
  }

  /** Once a prefix of the records fails, the whole file fails with the same error. */
  lemma {:induction false} CheckAllStopsAt(records: seq<Record>, i: nat)
    requires i <= |records| && CheckAll(records[..i]).Fail?
    ensures CheckAll(records) == CheckAll(records[..i])
    decreases |records| - i
  {
    if i < |records| {
      var n := |records| - 1;
      assert records[..n][..i] == records[..i];
      CheckAllStopsAt(records[..n], i);
    } else {
      assert records[..i] == records;
    }
  }

  function Means(records: seq<Record>): (r: seq<Vec3>)
    ensures |r| == |records| && forall i :: 0 <= i < |records| ==> r[i] == records[i].mean
  {
    seq(|records|, i requires 0 <= i < |records| => records[i].mean)
  }

  function Covariances(records: seq<Record>): (r: seq<Sym6>)
    ensures |r| == |records| && forall i :: 0 <= i < |records| ==> r[i] == records[i].cov
  {
    seq(|records|, i requires 0 <= i < |records| => records[i].cov)
  }

  function Weights(records: seq<Record>): (r: seq<real>)
    ensures |r| == |records| && forall i :: 0 <= i < |records| ==> r[i] == records[i].w
  {
    seq(|records|, i requires 0 <= i < |records| => records[i].w)
  }

  /** What the data-mixture loader computes: a missing file is an error, and so is
      the first record that fails its check. */
  function LoadData(file: Option<seq<Record>>): Outcome
  {
    match file
    case None => Fail(GmmFileNotFound)
    case Some(records) => CheckAll(records)
  }

  /** The loader accepts a file exactly when every record's covariance is positive
      definite and every weight is nonnegative. */
  lemma {:induction false} CheckAllSpec(records: seq<Record>)
    ensures CheckAll(records).Pass? <==>
              forall i :: 0 <= i < |records| ==> PositiveDefinite(records[i].cov) && records[i].w >= 0.0
  {
    if |records| > 0 {
      var n := |records| - 1;
      CheckAllSpec(records[..n]);
      assert forall i :: 0 <= i < n ==> records[..n][i] == records[i];
    }
  }

  /** A spherical covariance with a positive variance passes the check. */
  lemma SphericalIsPositiveDefinite(v: real)
    requires v > 0.0
    ensures PositiveDefinite(Sym6(v, 0.0, 0.0, v, 0.0, v))
  {
    assert v * v > 0.0;
    assert v * (v * v) > 0.0;
  }

  /** Each weight divided by the sum of all weights. */
  function Normalized(m: Libm, w: seq<real>): (r: seq<real>)
    ensures |r| == |w|
  {
    var norm := Sum(w);
    seq(|w|, i requires 0 <= i < |w| => Div(m, w[i], norm))
  }

  /** The in-place normalisation loop; the vector passed by reference is returned. */
  method Normalize(m: Libm, w: seq<real>) returns (r: seq<real>)
    ensures r == Normalized(m, w)
  {
    var norm := Sum(w);
    r := w;
    var i := 0;
    while i < |r|
      invariant 0 <= i <= |r| == |w|
      invariant forall k :: 0 <= k < i ==> r[k] == Div(m, w[k], norm)
      invariant forall k :: i <= k < |r| ==> r[k] == w[k]
    {
      r := r[i := Div(m, r[i], norm)];
      i := i + 1;
    }
  }

  /** After normalisation the weights sum to one (when they did not sum to zero). */
  lemma NormalizedSumsToOne(m: Libm, w: seq<real>)
    requires Sum(w) != 0.0
    ensures Sum(Normalized(m, w)) == 1.0
  {
    var norm := Sum(w);
    var r := Normalized(m, w);
    forall k | 0 <= k < |w| ensures r[k] == (1.0 / norm) * w[k] {
      assert r[k] == w[k] / norm;
    }
    SumScale(w, r, 1.0 / norm);
  }

  /** Normalisation ignores a uniform rescaling of its input. */
  lemma NormalizedIgnoresScale(m: Libm, w: seq<real>, v: seq<real>, c: real)
    requires c != 0.0 && Sum(w) != 0.0
    requires |v| == |w| && forall k :: 0 <= k < |w| ==> v[k] == c * w[k]
    ensures Normalized(m, v) == Normalized(m, w)
  {
    var sv, sw := Sum(v), Sum(w);
    SumScale(w, v, c);
    forall k | 0 <= k < |w| ensures Normalized(m, v)[k] == Normalized(m, w)[k] {
      ScaledQuotient(m, v[k], w[k], sv, sw, c);
    }
  }

  lemma ScaledQuotient(m: Libm, x': real, x: real, s': real, s: real, c: real)
    requires c != 0.0 && s != 0.0 && x' == c * x && s' == c * s
    ensures Div(m, x', s') == Div(m, x, s)
  {
    RatioOfScaled(x', x, s', s, c);
  }

  lemma RatioOfScaled(x': real, x: real, s': real, s: real, c: real)
    requires c != 0.0 && s != 0.0 && x' == c * x && s' == c * s
    ensures s' != 0.0 && x' / s' == x / s
  {
    NonzeroProduct(c, s);
    CancelCommonFactor(x, s, c);
  }

  lemma CancelCommonFactor(x: real, s: real, c: real)
    requires c != 0.0 && s != 0.0
    ensures (c * x) / (c * s) == x / s
  {
    var q := x / s;
    assert q * s == x;
    assert q * (c * s) == c * x;
  }

  /** The model weights are positive, so their sum is positive whenever there is
      at least one atom and normalising them never divides by zero. */
  lemma ModelWeightsSumPositive(types: seq<nat>)
    requires |types| > 0
    requires forall i :: 0 <= i < |types| ==> types[i] < NumTypes
    ensures Sum(WeightsOf(types)) > 0.0
  {
    var w := WeightsOf(types);
    SumDominatesTerms(w, 0);
  }
}
