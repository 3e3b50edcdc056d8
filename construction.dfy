/** The steps of constructing the collective variable, as loops over the atoms,
    the data records and the components, each proved to compute the value the
    corresponding specification function describes. */
module Construction {
  import opened Numerics
  import opened Linalg
  import opened Layout
  import opened Gmm
  import opened Overlap

  /** The model mixture from the atom names: MOLINFO must be present once; each
      atom's type is looked up in order and the first atom without a supported type
      aborts construction. */
  method GetGmmM(molinfoCount: nat, names: seq<string>) returns (r: Result<seq<nat>>, weights: seq<real>)
    ensures r == BuildModelTypes(molinfoCount, names)
    ensures r.Ok? ==> (forall j :: 0 <= j < |r.value| ==> r.value[j] < NumTypes) && weights == WeightsOf(r.value)
  {
    weights := [];
    if molinfoCount != 1 {
      return Err(MolinfoNotFound), weights;
    }
    var types: seq<nat> := [];
    var i := 0;
    while i < |names|
      invariant 0 <= i <= |names|
      invariant ClassifyAll(names[..i]) == Ok(types)
      invariant forall j :: 0 <= j < |types| ==> types[j] < NumTypes
      invariant weights == WeightsOf(types)
    {
      assert names[..i + 1][..i] == names[..i];
      var typeChar := TypeCharOf(names[i]);
      if typeChar.Err? {
        ClassifyAllStopsAt(names, i + 1);
        return Err(typeChar.error), weights;
      }
      var t := TypeIndex(typeChar.value);
      if t.None? {
        ClassifyAllStopsAt(names, i + 1);
        return Err(WrongAtomType(typeChar.value, names[i])), weights;
      }
      types := types + [t.value];
      weights := weights + [TypeWeights[t.value]];
      i := i + 1;
    }
    assert names[..i] == names;
    r := Ok(types);
  }

  /** The data mixture from the records of the file, each checked before it is
      stored; a missing file or the first failing record aborts construction. */
  method GetGmmD(file: Option<seq<Record>>) returns (r: Outcome, means: seq<Vec3>, covs: seq<Sym6>, ws: seq<real>)
    ensures r == LoadData(file)
    ensures r.Pass? ==> means == Means(file.value) && covs == Covariances(file.value) && ws == Weights(file.value)
  {
    means, covs, ws := [], [], [];
    if file.None? {
      return Fail(GmmFileNotFound), means, covs, ws;
    }
    var records := file.value;
    var i := 0;
    while i < |records|
      invariant 0 <= i <= |records|
      invariant CheckAll(records[..i]) == Pass
      invariant means == Means(records[..i]) && covs == Covariances(records[..i]) && ws == Weights(records[..i])
    {
      assert records[..i + 1][..i] == records[..i];
      var check := CheckComponent(records[i].cov, records[i].w);
      if check.Fail? {
        CheckAllStopsAt(records, i + 1);
        return check, means, covs, ws;
      }
      means := means + [records[i].mean];
      covs := covs + [records[i].cov];
      ws := ws + [records[i].w];
      i := i + 1;
    }
    assert records[..i] == records;
    r := Pass;
  }

  /** The self overlap of data component `id` (the sum of its overlaps with every
      data component) and its inclusion threshold: the overlaps are sorted, and the
      tail sum from the second smallest on is scanned until it reaches NL_CUTOFF
      times the total; the entry before the crossing is the threshold. */
  method GetSelfOverlap(m: Libm, cfact: real, nlCutoff: real, means: seq<Vec3>, covs: seq<Sym6>, ws: seq<real>, id: nat)
    returns (ovTot: real, ovCut: real)
    requires |covs| == |means| == |ws| && id < |means|
    ensures ovTot == Sum(PairwiseOverlaps(m, cfact, means, covs, ws, id))
    ensures ovCut == SelfThreshold(PairwiseOverlaps(m, cfact, means, covs, ws, id), nlCutoff)
  {
    ghost var all := PairwiseOverlaps(m, cfact, means, covs, ws, id);
    var ov: seq<real> := [];
    var i := 0;
    while i < |ws|
      invariant 0 <= i <= |ws|
      invariant ov == all[..i]
    {
      ov := ov + [PairOverlap(m, cfact, means, covs, ws, id, i)];
      i := i + 1;
    }
    assert ov == all;
    ovTot := Sum(ov);
    var sorted := Sort(ov);
    ovCut := ScanThreshold(sorted, Fraction(ovTot, nlCutoff));
  }

  /** The scan of the sorted overlaps: the running sum starts at the second entry,
      and the entry before the one at which it reaches `ovCut` replaces `ovCut`. */
  method ScanThreshold(sorted: seq<real>, target: real) returns (ovCut: real)
    ensures ovCut == Threshold(sorted, target)
  {
    ovCut := target;
    var ovSum := 0.0;
    var i := 1;
    while i < |sorted|
      invariant 1 <= i
      invariant ovCut == target
      invariant Scan(sorted, i, ovSum, target) == Threshold(sorted, target)
    {
      ovSum := ovSum + sorted[i];
      if ovSum >= ovCut {
        ovCut := sorted[i - 1];
        break;
      }
      i := i + 1;
    }
  }

  /** The loop of the constructor over the data components: entry i holds the self
      overlap and the threshold of data component i. */
  method GetSelfOverlaps(m: Libm, cfact: real, nlCutoff: real, means: seq<Vec3>, covs: seq<Sym6>, ws: seq<real>)
    returns (ovdd: seq<real>, ovddCut: seq<real>)
    requires |covs| == |means| == |ws|
    ensures |ovdd| == |ovddCut| == |means|
    ensures forall i :: 0 <= i < |means| ==>
              ovdd[i] == Sum(PairwiseOverlaps(m, cfact, means, covs, ws, i)) &&
              ovddCut[i] == SelfThreshold(PairwiseOverlaps(m, cfact, means, covs, ws, i), nlCutoff)
  {
    ovdd, ovddCut := [], [];
    var i := 0;
    while i < |ws|
      invariant 0 <= i <= |ws|
      invariant |ovdd| == |ovddCut| == i
      invariant forall k :: 0 <= k < i ==>
                  ovdd[k] == Sum(PairwiseOverlaps(m, cfact, means, covs, ws, k)) &&
                  ovddCut[k] == SelfThreshold(PairwiseOverlaps(m, cfact, means, covs, ws, k), nlCutoff)
    {
      var ov, cut := GetSelfOverlap(m, cfact, nlCutoff, means, covs, ws, i);
      ovdd := ovdd + [ov];
      ovddCut := ovddCut + [cut];
      i := i + 1;
    }
  }

  /** The auxiliary table, built type by type and, within a type, data component
      by data component. */
  method GetAuxiliaryStuff(m: Libm, cfact: real, sMap: seq<real>, covs: seq<Sym6>) returns (aux: seq<AuxTerms>)
    requires |sMap| == NumTypes
    ensures aux == AuxTable(m, cfact, sMap, covs)
    ensures |aux| == NumTypes * |covs|
  {
    aux := [];
    var t := 0;
    while t < NumTypes
      invariant 0 <= t <= NumTypes
      invariant aux == AuxTable(m, cfact, sMap[..t], covs)
      invariant |aux| == t * |covs|
    {
      var cov := SphericalCov(m, sMap[t]);
      ghost var row := AuxRow(m, cfact, sMap[t], covs);
      var j := 0;
      while j < |covs|
        invariant 0 <= j <= |covs|
        invariant aux == AuxTable(m, cfact, sMap[..t], covs) + row[..j]
        invariant |aux| == t * |covs| + j
      {
        var sum := AddSym(cov, covs[j]);
        var det := Det(sum);
        var preFact := Div(m, cfact, m.sqrt(det));
        aux := aux + [AuxTerms(preFact, Inverse(m, sum))];
        j := j + 1;
      }
      assert sMap[..t + 1][..t] == sMap[..t];
      assert row[..j] == row;
      t := t + 1;
    }
    assert sMap[..t] == sMap;
  }

  /** The global cutoff: the running minimum, seeded with `1.0+9`, of each data
      component's threshold over the full prefactor of its pair with each atom,
      turned into a bound on the quadratic form by -2 log. */
  method GetCutoffOv(m: Libm, aux: seq<AuxTerms>, dw: seq<real>, mw: seq<real>, mtypes: seq<nat>, ddCut: seq<real>)
    returns (ovCut: real)
    requires |ddCut| == |dw| && |mtypes| == |mw|
    requires |aux| == 4 * |dw| && forall j :: 0 <= j < |mtypes| ==> mtypes[j] < 4
    ensures ovCut == GlobalCutoff(m, aux, dw, mw, mtypes, ddCut)
  {
    ghost var ratios := CutoffRatios(m, aux, dw, mw, mtypes, ddCut);
    ovCut := CutoffSeed;
    var i := 0;
    while i < |dw|
      invariant 0 <= i <= |dw|
      invariant ovCut == MinOfRows(CutoffSeed, ratios[..i])
    {
      ghost var before := ovCut;
      var j := 0;
      while j < |mw|
        invariant 0 <= j <= |mw|
        invariant ovCut == MinOf(before, ratios[i][..j])
      {
        var jtype := mtypes[j];
        RowMajorInRange(jtype, i, 4, |dw|);
        var kaux := RowMajor(jtype, i, |dw|);
        var preFact := WeightedPrefactor(aux[kaux].pre, dw[i], mw[j]);
        var ov := Div(m, ddCut[i], preFact);
        assert ratios[i][..j + 1][..j] == ratios[i][..j];
        if ov < ovCut {
          ovCut := ov;
        }
        j := j + 1;
      }
      assert ratios[i][..j] == ratios[i];
      assert ratios[..i + 1][..i] == ratios[..i];
      i := i + 1;
    }
    assert ratios[..i] == ratios;
    ovCut := -2.0 * m.log(ovCut);
  }
}
