/** The EM3DSMAP collective variable: a Bayesian score of how well the Gaussian
    mixture of the atoms (one spherical Gaussian per atom, typed by element) overlaps
    the Gaussian mixture fitted to a cryo-EM map, with an uncertainty parameter
    sigma sampled by Monte Carlo. The constants are computed once at construction;
    each step rebuilds the neighbour list when due, recomputes the model-data
    overlaps, averages them over the replicas, samples sigma and returns the score
    with its derivatives. */
module Em3dsMap {
  import opened Numerics
  import opened Linalg
  import opened Layout
  import opened Gmm
  import opened Overlap
  import opened NeighborList
  import opened Metropolis
  import opened Bayes
  import opened Construction

  /** The keywords of the action. */
  datatype Options = Options(
    temp: real,
    sigma0: real, sigmaMin: real, sigmaMax: real, dSigma: real, sigmaMean: real,
    mcSteps: nat, mcStride: nat,
    nlCutoff: real, nlStride: nat,
    serial: bool)

  /** What the action takes from the engine: Boltzmann's constant, the engine's own
      kBT, the size of the intra-replica communicator and the number of replicas. */
  datatype Engine = Engine(kBoltzmann: real, kbt: real, commSize: nat, nrep: nat)

  /** The keyword checks, in order: NL_CUTOFF must be positive, NL_STRIDE nonzero. */
  function CheckOptions(o: Options): (r: Outcome)
    ensures r.Pass? <==> o.nlCutoff > 0.0 && o.nlStride > 0
    ensures o.nlCutoff <= 0.0 ==> r == Fail(NlCutoffNotPositive)
    ensures o.nlCutoff > 0.0 && o.nlStride == 0 ==> r == Fail(NlStrideNotPositive)
  {
    if o.nlCutoff <= 0.0 then Fail(NlCutoffNotPositive)
    else if o.nlStride == 0 then Fail(NlStrideNotPositive)
    else Pass
  }

  /** kBT: Boltzmann's constant times TEMP when TEMP is positive, else the engine's. */
  function Kbt(o: Options, env: Engine): real
  {
    if o.temp > 0.0 then env.kBoltzmann * o.temp else env.kbt
  }

  /** The first error construction raises, if any: the keyword checks, then the
      model mixture, then the data mixture. */
  function SetupError(o: Options, molinfoCount: nat, names: seq<string>, file: Option<seq<Record>>): Option<Error>
  {
    if CheckOptions(o).Fail? then Some(CheckOptions(o).error)
    else if BuildModelTypes(molinfoCount, names).Err? then Some(BuildModelTypes(molinfoCount, names).error)
    else if LoadData(file).Fail? then Some(LoadData(file).error)
    else None
  }

  /** vector::resize: the first `n` entries kept, new entries zero vectors. */
  function Resize(v: seq<Vec3>, n: nat): (r: seq<Vec3>)
    ensures |r| == n
    ensures forall i :: 0 <= i < n && i < |v| ==> r[i] == v[i]
    ensures forall i :: |v| <= i < n ==> r[i] == Origin
  {
    if n <= |v| then v[..n] else v + seq(n - |v|, _ => Origin)
  }

  class EM3DSmap {
    // Constants fixed at construction.
    const libm: Libm
    const cfact: real
    const kbt: real
    const sigmaMin: real
    const sigmaMax: real
    const dSigma: real
    /** SIGMA_MEAN divided by the square root of the number of replicas. */
    const sigmaMean: real
    const mcSteps: nat
    const mcStride: nat
    const nrep: nat
    const nlCutoff: real
    const nlStride: nat
    const serial: bool
    /** The number of workers sharing the loops: 1 when SERIAL, else the size of
        the intra-replica communicator. */
    const size: nat
    /** The B coefficients of the atom types. */
    const sMap: seq<real>
    /** The model mixture: normalised weight and type of each atom. */
    const gmmMW: seq<real>
    const gmmMType: seq<nat>
    /** The data mixture: means and normalised weights. */
    const gmmDM: seq<Vec3>
    const gmmDW: seq<real>
    /** The self overlaps of the data components and their inclusion thresholds. */
    const ovdd: seq<real>
    const ovddCut: seq<real>
    /** The auxiliary table (prefactor, inverse) of each (type, data component). */
    const aux: seq<AuxTerms>
    /** The cutoff on the quadratic form used by the neighbour-list build. */
    const ovCut: real

    // State updated step by step.
    var ovmd: seq<real>
    var ovmdDer: seq<Vec3>
    var atomDer: seq<Vec3>
    var nl: seq<nat>
    var firstTime: bool
    var sigma: real
    var mcAccept: nat
    var mcFirst: int
    /** The number of Monte Carlo trials run so far: MC_STEPS per sweep. */
    ghost var mcTrials: nat

    /** The shape of the constants. */
    ghost predicate Shaped()
    {
      size > 0 && mcStride > 0 && nlStride > 0 &&
      |gmmMType| == |gmmMW| && (forall j :: 0 <= j < |gmmMType| ==> gmmMType[j] < NumTypes) &&
      |gmmDM| == |gmmDW| && |ovdd| == |gmmDW| && |ovddCut| == |gmmDW| &&
      |aux| == NumTypes * |gmmDW|
    }

    /** The shape of the state: one overlap per data component, one derivative per
        atom, one overlap derivative per neighbour-list entry, every entry a pair
        code below D*M, and no more acceptances than Monte Carlo trials run. */
    ghost predicate Valid()
      reads this
    {
      Shaped() &&
      |ovmd| == |gmmDW| && |atomDer| == |gmmMW| && |ovmdDer| == |nl| && InRange(nl) &&
      mcAccept <= mcTrials
    }

    predicate InRange(list: seq<nat>)
    {
      forall e :: 0 <= e < |list| ==> list[e] < Pairs()
    }

    // -------------------------------------------------------------------------
    // Pair codes

    /** The number of pair codes, D*M. */
    function Pairs(): nat
    {
      |gmmDW| * |gmmMW|
    }

    /** The data component of pair code k = id*M + im. */
    function DataOf(k: nat): (id: nat)
      requires Shaped() && k < Pairs()
      ensures id < |gmmDW|
    {
      DecodeInRange(k, |gmmDW|, |gmmMW|);
      k / |gmmMW|
    }

    /** The atom of pair code k = id*M + im. */
    function AtomOf(k: nat): (im: nat)
      requires Shaped() && k < Pairs()
      ensures im < |gmmMW|
    {
      DecodeInRange(k, |gmmDW|, |gmmMW|);
      k % |gmmMW|
    }

    /** The index in the auxiliary table of the pair: type(im)*D + id. */
    function AuxIndex(k: nat): (kaux: nat)
      requires Shaped() && k < Pairs()
      ensures kaux < |aux|
    {
      RowMajorInRange(gmmMType[AtomOf(k)], DataOf(k), NumTypes, |gmmDW|);
      RowMajor(gmmMType[AtomOf(k)], DataOf(k), |gmmDW|)
    }

    /** The prefactor of the pair: the tabulated constant times both weights. */
    function PairPrefactor(k: nat): real
      requires Shaped() && k < Pairs()
    {
      WeightedPrefactor(aux[AuxIndex(k)].pre, gmmDW[DataOf(k)], gmmMW[AtomOf(k)])
    }

    /** Whether the pair enters the neighbour list: its fast overlap reaches the
        threshold of its data component. */
    predicate Kept(pos: seq<Vec3>, k: nat)
      requires Shaped() && |pos| == |gmmMW| && k < Pairs()
    {
      FastOverlap(libm, ovCut, gmmDM[DataOf(k)], pos[AtomOf(k)], PairPrefactor(k), aux[AuxIndex(k)].inv) >= ovddCut[DataOf(k)]
    }

    function KeepFlags(pos: seq<Vec3>): (r: seq<bool>)
      requires Shaped() && |pos| == |gmmMW|
      ensures |r| == Pairs()
    {
      seq(Pairs(), k requires 0 <= k < Pairs() => Kept(pos, k))
    }

    /** The overlap and gradient of the pair with the current atom positions. */
    function PairOverlapTerm(pos: seq<Vec3>, k: nat): OverlapTerm
      requires Shaped() && |pos| == |gmmMW| && k < Pairs()
    {
      Overlap.Overlap(libm, gmmDM[DataOf(k)], pos[AtomOf(k)], PairPrefactor(k), aux[AuxIndex(k)].inv)
    }

    /** The data component of each entry of a list of pair codes. */
    function DataIds(list: seq<nat>): (r: seq<nat>)
      requires Shaped() && InRange(list)
      ensures |r| == |list|
      ensures forall e :: 0 <= e < |list| ==> r[e] < |gmmDW|
    {
      seq(|list|, e requires 0 <= e < |list| => DataOf(list[e]))
    }

    /** The atom of each entry. */
    function AtomIds(list: seq<nat>): (r: seq<nat>)
      requires Shaped() && InRange(list)
      ensures |r| == |list|
      ensures forall e :: 0 <= e < |list| ==> r[e] < |gmmMW|
    {
      seq(|list|, e requires 0 <= e < |list| => AtomOf(list[e]))
    }

    function Overlaps(pos: seq<Vec3>, list: seq<nat>): (r: seq<real>)
      requires Shaped() && |pos| == |gmmMW| && InRange(list)
      ensures |r| == |list|
    {
      seq(|list|, e requires 0 <= e < |list| => PairOverlapTerm(pos, list[e]).ov)
    }

    function Derivatives(pos: seq<Vec3>, list: seq<nat>): (r: seq<Vec3>)
      requires Shaped() && |pos| == |gmmMW| && InRange(list)
      ensures |r| == |list|
    {
      seq(|list|, e requires 0 <= e < |list| => PairOverlapTerm(pos, list[e]).der)
    }

    /** The inputs of a Monte Carlo sweep in the current state. */
    function Setup(): (p: McSetup)
      reads this`ovmd
      requires |ovmd| == |ovdd|
      ensures WellFormed(p)
    {
      McSetup(kbt, sigmaMean, sigmaMin, sigmaMax, dSigma, ovmd, ovdd)
    }

    // -------------------------------------------------------------------------
    // Construction

    /** The constructor once the keywords, the atom types and the data records have
        been read and checked: weights normalised, self overlaps and thresholds,
        auxiliary table and global cutoff computed, temporaries sized. */
    constructor (m: Libm, o: Options, env: Engine, types: seq<nat>, modelW: seq<real>,
                 means: seq<Vec3>, covs: seq<Sym6>, dataW: seq<real>)
      requires CheckOptions(o).Pass? && o.mcStride > 0 && env.commSize > 0 && (!o.serial || env.commSize == 1)
      requires |modelW| == |types| && forall j :: 0 <= j < |types| ==> types[j] < NumTypes
      requires |covs| == |means| == |dataW|
      ensures Valid()
      ensures libm == m && cfact == Div(m, 1.0, m.pow(2.0 * m.pi, 1.5)) && kbt == Kbt(o, env)
      ensures sigma == o.sigma0 && sigmaMin == o.sigmaMin && sigmaMax == o.sigmaMax && dSigma == o.dSigma
      ensures sigmaMean == Div(m, o.sigmaMean, m.sqrt(env.nrep as real)) && nrep == env.nrep
      ensures mcSteps == o.mcSteps && mcStride == o.mcStride && nlCutoff == o.nlCutoff && nlStride == o.nlStride
      ensures serial == o.serial && size == (if o.serial then 1 else env.commSize)
      ensures sMap == TypeB && gmmMType == types && gmmMW == Normalized(m, modelW)
      ensures gmmDM == means && gmmDW == Normalized(m, dataW)
      ensures forall i :: 0 <= i < |means| ==>
                ovdd[i] == Sum(PairwiseOverlaps(m, cfact, means, covs, gmmDW, i)) &&
                ovddCut[i] == SelfThreshold(PairwiseOverlaps(m, cfact, means, covs, gmmDW, i), o.nlCutoff)
      ensures aux == AuxTable(m, cfact, TypeB, covs)
      ensures ovCut == GlobalCutoff(m, aux, gmmDW, gmmMW, types, ovddCut)
      ensures ovmd == Zeros(|means|) && atomDer == seq(|types|, _ => Origin)
      ensures nl == [] && ovmdDer == [] && firstTime && mcAccept == 0 && mcFirst == -1 && mcTrials == 0
    {
      var c := Div(m, 1.0, m.pow(2.0 * m.pi, 1.5));
      libm := m;
      cfact := c;
      kbt := Kbt(o, env);
      sigmaMin, sigmaMax, dSigma := o.sigmaMin, o.sigmaMax, o.dSigma;
      sigmaMean := Div(m, o.sigmaMean, m.sqrt(env.nrep as real));
      mcSteps, mcStride := o.mcSteps, o.mcStride;
      nrep := env.nrep;
      nlCutoff, nlStride := o.nlCutoff, o.nlStride;
      serial := o.serial;
      size := if o.serial then 1 else env.commSize;
      sMap := TypeB;
      gmmMType := types;
      var mw, dw, ov, cut, a, cutoff := Precompute(m, c, o.nlCutoff, types, modelW, means, covs, dataW);
      gmmMW, gmmDM, gmmDW := mw, means, dw;
      ovdd, ovddCut := ov, cut;
      aux := a;
      ovCut := cutoff;
      ovmd := Zeros(|means|);
      atomDer := seq(|types|, _ => Origin);
      nl := [];
      ovmdDer := [];
      firstTime := true;
      sigma := o.sigma0;
      mcAccept := 0;
      mcFirst := -1;
      mcTrials := 0;
    }

    /** The constants of the constructor, in its order: both weight vectors
        normalised, the data self overlaps with their thresholds, the auxiliary
        table and the global cutoff. */
    static method Precompute(m: Libm, c: real, nlCutoff: real, types: seq<nat>, modelW: seq<real>,
                             means: seq<Vec3>, covs: seq<Sym6>, dataW: seq<real>)
      returns (mw: seq<real>, dw: seq<real>, ov: seq<real>, cut: seq<real>, a: seq<AuxTerms>, cutoff: real)
      requires |modelW| == |types| && forall j :: 0 <= j < |types| ==> types[j] < NumTypes
      requires |covs| == |means| == |dataW|
      ensures mw == Normalized(m, modelW) && dw == Normalized(m, dataW)
      ensures |ov| == |cut| == |means|
      ensures forall i :: 0 <= i < |means| ==>
                ov[i] == Sum(PairwiseOverlaps(m, c, means, covs, dw, i)) &&
                cut[i] == SelfThreshold(PairwiseOverlaps(m, c, means, covs, dw, i), nlCutoff)
      ensures a == AuxTable(m, c, TypeB, covs) && |a| == NumTypes * |means|
      ensures cutoff == GlobalCutoff(m, a, dw, mw, types, cut)
    {
      mw := Normalize(m, modelW);
      dw := Normalize(m, dataW);
      ov, cut := GetSelfOverlaps(m, c, nlCutoff, means, covs, dw);
      a := GetAuxiliaryStuff(m, c, TypeB, covs);
      cutoff := GetCutoffOv(m, a, dw, mw, types, cut);
    }

    /** Construction from the keywords, the MOLINFO atom names and the records of
        GMM_FILE: the first error aborts it; otherwise the object is built from the
        model and data mixtures read. */
    static method Create(m: Libm, o: Options, env: Engine, molinfoCount: nat, names: seq<string>, file: Option<seq<Record>>)
      returns (r: Result<EM3DSmap>)
      requires o.mcStride > 0 && env.commSize > 0 && (!o.serial || env.commSize == 1)
      ensures r.Err? <==> SetupError(o, molinfoCount, names, file).Some?
      ensures r.Err? ==> r.error == SetupError(o, molinfoCount, names, file).value
      ensures r.Ok? ==> fresh(r.value) && r.value.Valid() &&
                        r.value.gmmMType == BuildModelTypes(molinfoCount, names).value &&
                        r.value.gmmDM == Means(file.value) &&
                        r.value.gmmMW == Normalized(m, WeightsOf(r.value.gmmMType)) &&
                        r.value.gmmDW == Normalized(m, Weights(file.value))
      ensures r.Ok? ==>
                var cv, covs := r.value, Covariances(file.value);
                cv.libm == m && cv.cfact == Div(m, 1.0, m.pow(2.0 * m.pi, 1.5)) && cv.kbt == Kbt(o, env) &&
                cv.sigmaMin == o.sigmaMin && cv.sigmaMax == o.sigmaMax && cv.dSigma == o.dSigma &&
                cv.sigmaMean == Div(m, o.sigmaMean, m.sqrt(env.nrep as real)) && cv.nrep == env.nrep &&
                cv.mcSteps == o.mcSteps && cv.mcStride == o.mcStride &&
                cv.nlCutoff == o.nlCutoff && cv.nlStride == o.nlStride &&
                cv.serial == o.serial && cv.size == (if o.serial then 1 else env.commSize) && cv.sMap == TypeB &&
                (forall i :: 0 <= i < |covs| ==>
                   cv.ovdd[i] == Sum(PairwiseOverlaps(m, cv.cfact, cv.gmmDM, covs, cv.gmmDW, i)) &&
                   cv.ovddCut[i] == SelfThreshold(PairwiseOverlaps(m, cv.cfact, cv.gmmDM, covs, cv.gmmDW, i), o.nlCutoff)) &&
                cv.aux == AuxTable(m, cv.cfact, TypeB, covs) &&
                cv.ovCut == GlobalCutoff(m, cv.aux, cv.gmmDW, cv.gmmMW, cv.gmmMType, cv.ovddCut)
      ensures r.Ok? ==>
                var cv := r.value;
                cv.sigma == o.sigma0 && cv.ovmd == Zeros(|cv.gmmDW|) && cv.atomDer == seq(|cv.gmmMW|, _ => Origin) &&
                cv.nl == [] && cv.ovmdDer == [] && cv.firstTime &&
                cv.mcAccept == 0 && cv.mcFirst == -1 && cv.mcTrials == 0
    {
      var check := CheckOptions(o);
      if check.Fail? {
        return Err(check.error);
      }
      var types, modelW := GetGmmM(molinfoCount, names);
      if types.Err? {
        return Err(types.error);
      }
      var loaded, means, covs, dataW := GetGmmD(file);
      if loaded.Fail? {
        return Err(loaded.error);
      }
      var cv := new EM3DSmap(m, o, env, types.value, modelW, means, covs, dataW);
      r := Ok(cv);
    }

    // -------------------------------------------------------------------------
    // Neighbour list

    /** The local list of worker `rank`: the codes rank, rank + size, ... below D*M
        whose pair is kept, in visiting order. */
    method LocalList(pos: seq<Vec3>, rank: nat) returns (nlL: seq<nat>)
      requires Shaped() && |pos| == |gmmMW|
      ensures nlL == Local(KeepFlags(pos), rank, size)
    {
      ghost var keep := KeepFlags(pos);
      ghost var whole := Local(keep, rank, size);
      var nover := Pairs();
      nlL := [];
      var k := rank;
      while k < nover
        invariant nlL + Local(keep, k, size) == whole
        decreases nover - k
      {
        ghost var before := nlL;
        var kept := KeepPair(pos, k);
        if kept {
          nlL := nlL + [k];
        }
        LocalStep(keep, k, size, before, nlL, whole);
        k := k + size;
      }
    }

    /** The test of one pair: its fast overlap against the threshold of its data
        component. A pair whose quadratic form is within the global cutoff is kept
        iff its full overlap reaches the threshold; a pair beyond the cutoff counts
        as overlap 0 and is kept only when the threshold is not positive. */
    method KeepPair(pos: seq<Vec3>, k: nat) returns (kept: bool)
      requires Shaped() && |pos| == |gmmMW| && k < Pairs()
      ensures var q := QuadForm(Sub(gmmDM[DataOf(k)], pos[AtomOf(k)]), aux[AuxIndex(k)].inv);
              kept <==> if q > ovCut then ovddCut[DataOf(k)] <= 0.0
                        else PairOverlapTerm(pos, k).ov >= ovddCut[DataOf(k)]
      ensures kept == KeepFlags(pos)[k]
    {
      FastOverlapAgrees(libm, ovCut, gmmDM[DataOf(k)], pos[AtomOf(k)], PairPrefactor(k), aux[AuxIndex(k)].inv);
      kept := Kept(pos, k);
    }

    /** With the cutoff computed at construction, a positive pair prefactor and a
        positive smallest ratio, the fast test keeps a pair exactly when its full
        overlap reaches the threshold of its data component: the cutoff never drops
        a pair that matters. */
    lemma KeepIffNeeded(pos: seq<Vec3>, k: nat)
      requires Shaped() && |pos| == |gmmMW| && k < Pairs()
      requires ovCut == GlobalCutoff(libm, aux, gmmDW, gmmMW, gmmMType, ovddCut)
      requires ExpIncreasing(libm) && ExpInvertsLog(libm)
      requires PairPrefactor(k) > 0.0
      requires MinOfRows(CutoffSeed, CutoffRatios(libm, aux, gmmDW, gmmMW, gmmMType, ovddCut)) > 0.0
      ensures KeepFlags(pos)[k] <==> PairOverlapTerm(pos, k).ov >= ovddCut[DataOf(k)]
    {
      assert PairPrefactor(k) == TablePrefactor(aux, gmmDW, gmmMW, gmmMType, DataOf(k), AtomOf(k));
      CutoffDropsOnlyNegligible(libm, aux, gmmDW, gmmMW, gmmMType, ovddCut, DataOf(k), AtomOf(k),
                                gmmDM[DataOf(k)], pos[AtomOf(k)], aux[AuxIndex(k)].inv);
    }

    /** The neighbour-list update: every worker builds its local list, the counts
        are summed, the displacements are their exclusive prefix sums, and the
        local lists are gathered in rank order at those displacements. The list
        holds exactly the kept pairs, each once, and is a permutation of the
        single-worker list, which is in increasing order; the derivative buffer is resized to its length. */
    method UpdateNeighborList(pos: seq<Vec3>)
      requires Valid() && |pos| == |gmmMW|
      modifies this`nl, this`ovmdDer
      ensures Valid()
      ensures nl == Concat(LocalLists(KeepFlags(pos), size))
      ensures forall k: nat :: k in nl <==> k < Pairs() && Kept(pos, k)
      ensures size == 1 ==> StrictlyIncreasing(nl)
      ensures Distinct(nl) && multiset(nl) == multiset(Concat(LocalLists(KeepFlags(pos), 1)))
      ensures ovmdDer == Resize(old(ovmdDer), |nl|)
    {
      ghost var keep := KeepFlags(pos);
      var lists, recvcounts := BuildLocalLists(pos);
      var totSize := SumNat(recvcounts);
      GatherLength(lists);
      var disp := Displacements(recvcounts);
      var gathered := AllGather(lists, recvcounts, disp);
      nl := gathered;
      ovmdDer := Resize(ovmdDer, totSize);
      forall e | 0 <= e < |nl| ensures nl[e] < Pairs() {
        GatheredIsKeptSet(keep, size, nl[e]);
      }
      forall k: nat ensures k in nl <==> k < Pairs() && Kept(pos, k) {
        GatheredIsKeptSet(keep, size, k);
      }
      if size == 1 {
        SingleWorkerIncreasing(keep);
      }
      GatheredIndependentOfWorkers(keep, size);
    }

    /** The local lists of the workers 0 .. size-1 and their counts. */
    method BuildLocalLists(pos: seq<Vec3>) returns (lists: seq<seq<nat>>, recvcounts: seq<nat>)
      requires Shaped() && |pos| == |gmmMW|
      ensures lists == LocalLists(KeepFlags(pos), size)
      ensures recvcounts == Lengths(lists)
    {
      ghost var expected := LocalLists(KeepFlags(pos), size);
      lists, recvcounts := [], [];
      var rank := 0;
      while rank < size
        invariant 0 <= rank <= size
        invariant lists == expected[..rank]
        invariant recvcounts == Lengths(lists)
      {
        var nlL := LocalList(pos, rank);
        lists := lists + [nlL];
        recvcounts := recvcounts + [|nlL|];
        rank := rank + 1;
      }
      assert lists == expected;
    }

    /** Called before each step: an exchange step forces a neighbour-list rebuild. */
    method Prepare(exchange: bool)
      modifies this`firstTime
      ensures firstTime == (old(firstTime) || exchange)
    {
      if exchange {
        firstTime := true;
      }
    }

    /** The overlap of every data component with the model: the neighbour list is
        rebuilt on the first step, on exchange steps and every NL_STRIDE steps;
        then each entry adds its overlap to its data component and stores its
        gradient. */
    method CalculateOverlap(step: nat, exchange: bool, pos: seq<Vec3>)
      requires Valid() && |pos| == |gmmMW|
      modifies this`nl, this`ovmdDer, this`ovmd, this`firstTime
      ensures Valid() && !firstTime
      ensures nl == if old(firstTime) || exchange || step % nlStride == 0
                    then Concat(LocalLists(KeepFlags(pos), size)) else old(nl)
      ensures ovmd == Accumulate(|gmmDW|, DataIds(nl), Overlaps(pos, nl))
      ensures ovmdDer == Derivatives(pos, nl)
    {
      RefreshNeighborList(step, exchange, pos);
      ovmd, ovmdDer := OverlapsOf(pos, nl);
    }

    /** The rebuild decision of a step: the list is rebuilt on the first step, on
        exchange steps and every NL_STRIDE steps, and kept otherwise. */
    method RefreshNeighborList(step: nat, exchange: bool, pos: seq<Vec3>)
      requires Valid() && |pos| == |gmmMW|
      modifies this`nl, this`ovmdDer, this`firstTime
      ensures Valid() && !firstTime
      ensures nl == if old(firstTime) || exchange || step % nlStride == 0
                    then Concat(LocalLists(KeepFlags(pos), size)) else old(nl)
      ensures ovmdDer == if old(firstTime) || exchange || step % nlStride == 0
                         then Resize(old(ovmdDer), |nl|) else old(ovmdDer)
    {
      if firstTime || exchange || step % nlStride == 0 {
        UpdateNeighborList(pos);
        firstTime := false;
      }
    }

    /** The loop over the neighbour-list entries: each adds its overlap to its data
        component, and its gradient is stored at the entry's position. */
    method OverlapsOf(pos: seq<Vec3>, list: seq<nat>) returns (acc: seq<real>, ders: seq<Vec3>)
      requires Shaped() && |pos| == |gmmMW| && InRange(list)
      ensures acc == Accumulate(|gmmDW|, DataIds(list), Overlaps(pos, list))
      ensures ders == Derivatives(pos, list)
    {
      acc := Zeros(|gmmDW|);
      ders := seq(|list|, _ => Origin);
      ghost var ids := DataIds(list);
      ghost var ovs := Overlaps(pos, list);
      ghost var expected := Derivatives(pos, list);
      var e := 0;
      while e < |list|
        invariant 0 <= e <= |list|
        invariant acc == Accumulate(|gmmDW|, ids[..e], ovs[..e])
        invariant |ders| == |list|
        invariant forall q :: 0 <= q < e ==> ders[q] == expected[q]
        invariant forall q :: e <= q < |list| ==> ders[q] == Origin
      {
        var id := DataOf(list[e]);
        var term := PairOverlapTerm(pos, list[e]);
        AccumulateStep(|gmmDW|, ids, ovs, e);
        acc := acc[id := acc[id] + term.ov];
        ders := ders[e := term.der];
        e := e + 1;
      }
      assert ids[..e] == ids && ovs[..e] == ovs;
    }

    // -------------------------------------------------------------------------
    // Energy and Monte Carlo

    /** The residual sum of squares of the model overlaps against the data self
        overlaps. */
    method ResidualSum() returns (ene: real)
      requires |ovmd| == |ovdd|
      ensures ene == Rss(ovmd, ovdd)
    {
      ene := 0.0;
      var i := 0;
      while i < |ovmd|
        invariant 0 <= i <= |ovmd|
        invariant ene == Rss(ovmd[..i], ovdd[..i])
      {
        assert ovmd[..i + 1][..i] == ovmd[..i] && ovdd[..i + 1][..i] == ovdd[..i];
        ene := ene + (ovmd[i] - ovdd[i]) * (ovmd[i] - ovdd[i]);
        i := i + 1;
      }
      assert ovmd[..i] == ovmd && ovdd[..i] == ovdd;
    }

    /** The energy of uncertainty `s` in the current state; nothing changes. */
    method GetEnergy(s: real) returns (e: real)
      requires |ovmd| == |ovdd|
      ensures e == Energy(libm, kbt, sigmaMean, ovmd, ovdd, s)
    {
      var ss2 := Variance(sigmaMean, s);
      var ene := ResidualSum();
      var fact := Div(libm, kbt * 0.5, ss2);
      e := Restraint(libm, kbt, fact, ene, |ovmd|, ss2);
    }

    /** MC_STEPS Metropolis trials on sigma, drawing uniform numbers in order from
        `draws`: the new sigma and the acceptance counter are those of the chain. */
    method DoMonteCarlo(draws: seq<real>)
      requires |ovmd| == |ovdd| && 2 * mcSteps <= |draws|
      modifies this`sigma, this`mcAccept
      ensures var start := Chain(old(sigma), EnergyAt(libm, Setup(), old(sigma)), old(mcAccept), 0);
              var r := Run(libm, Setup(), start, draws, mcSteps);
              sigma == r.sigma && mcAccept == r.accepted
    {
      sigma, mcAccept := Sweep(draws);
    }

    /** The trials of a sweep from the current sigma and counter, on locals. */
    method Sweep(draws: seq<real>) returns (s: real, accepted: nat)
      requires |ovmd| == |ovdd| && 2 * mcSteps <= |draws|
      ensures var start := Chain(sigma, EnergyAt(libm, Setup(), sigma), mcAccept, 0);
              var r := Run(libm, Setup(), start, draws, mcSteps);
              s == r.sigma && accepted == r.accepted
    {
      var oldEnergy := GetEnergy(sigma);
      var c := Chain(sigma, oldEnergy, mcAccept, 0);
      ghost var start := c;
      var i := 0;
      while i < mcSteps
        invariant 0 <= i <= mcSteps
        invariant c == Run(libm, Setup(), start, draws, i)
      {
        c := Trial(c, draws);
        i := i + 1;
      }
      s, accepted := c.sigma, c.accepted;
    }

    /** One Metropolis trial: a proposal from the first draw, reflected into
        [SIGMA_MIN, SIGMA_MAX]; accepted when downhill, or else when the second draw
        falls below exp(-delta). */
    method Trial(c: Chain, draws: seq<real>) returns (r: Chain)
      requires |ovmd| == |ovdd| && c.used + 2 <= |draws|
      ensures r == Step(libm, Setup(), c, draws)
    {
      var r2 := draws[c.used];
      var newSigma := Propose(c.sigma, dSigma, r2, sigmaMin, sigmaMax);
      var newEnergy := GetEnergy(newSigma);
      var delta := Div(libm, newEnergy - c.energy, kbt);
      if delta <= 0.0 {
        r := Chain(newSigma, newEnergy, c.accepted + 1, c.used + 1);
      } else {
        var u := draws[c.used + 1];
        if u < libm.exp(-delta) {
          r := Chain(newSigma, newEnergy, c.accepted + 1, c.used + 2);
        } else {
          r := Chain(c.sigma, c.energy, c.accepted, c.used + 2);
        }
      }
    }

    // -------------------------------------------------------------------------
    // The step

    /** The replica average of the overlaps, entry by entry. */
    method AverageOverReplicas(peers: seq<seq<real>>)
      requires forall k :: 0 <= k < |peers| ==> |peers[k]| == |ovmd|
      modifies this`ovmd
      ensures ovmd == EnsembleAverage(libm, old(ovmd), peers, nrep)
    {
      ovmd := Averaged(ovmd, peers);
    }

    /** The loop of the average: entry i summed over the replicas, times 1/nrep. */
    method Averaged(own: seq<real>, peers: seq<seq<real>>) returns (avg: seq<real>)
      requires forall k :: 0 <= k < |peers| ==> |peers[k]| == |own|
      ensures avg == EnsembleAverage(libm, own, peers, nrep)
    {
      ghost var expected := EnsembleAverage(libm, own, peers, nrep);
      var escale := Div(libm, 1.0, nrep as real);
      avg := own;
      var i := 0;
      while i < |own|
        invariant 0 <= i <= |own| == |avg|
        invariant forall q :: 0 <= q < i ==> avg[q] == expected[q]
        invariant forall q :: i <= q < |own| ==> avg[q] == own[q]
      {
        avg := avg[i := (avg[i] + Sum(Column(peers, i))) * escale];
        i := i + 1;
      }
    }

    /** The score and its derivatives: the restraint with the summed inverse
        variance of all replicas, and each neighbour-list entry's chain-rule term
        added to its atom. */
    method ScoreAndDerivatives(peerInvS2: seq<real>) returns (score: real)
      requires Valid()
      modifies this`atomDer
      ensures Valid()
      ensures var ss2 := Variance(sigmaMean, sigma);
              score == ScoreValue(libm, kbt, InvVariance(libm, ss2, peerInvS2), ss2, ovmd, ovdd)
      ensures var fact := ScoreFactor(kbt, InvVariance(libm, Variance(sigmaMean, sigma), peerInvS2));
              atomDer == AccumulateVec(|gmmMW|, AtomIds(nl),
                           DerivativeTerms(fact, Div(libm, 1.0, nrep as real), DataIds(nl), ovmd, ovdd, ovmdDer))
    {
      var escale := Div(libm, 1.0, nrep as real);
      var ss2 := Variance(sigmaMean, sigma);
      var invS2 := InvVariance(libm, ss2, peerInvS2);
      var ene := ResidualSum();
      var fact := ScoreFactor(kbt, invS2);
      atomDer := AtomDerivatives(fact, escale);
      score := Restraint(libm, kbt, fact, ene, |ovmd|, ss2);
    }

    /** The chain rule over the neighbour list: each entry adds
        der * ovmd_der * escale to the derivative of its atom, der being
        fact * 2 * (ovmd - ovdd) of its data component. */
    method AtomDerivatives(fact: real, escale: real) returns (der: seq<Vec3>)
      requires Valid()
      ensures der == AccumulateVec(|gmmMW|, AtomIds(nl), DerivativeTerms(fact, escale, DataIds(nl), ovmd, ovdd, ovmdDer))
    {
      ghost var ims := AtomIds(nl);
      ghost var terms := DerivativeTerms(fact, escale, DataIds(nl), ovmd, ovdd, ovmdDer);
      der := seq(|gmmMW|, _ => Origin);
      var e := 0;
      while e < |nl|
        invariant 0 <= e <= |nl|
        invariant der == AccumulateVec(|gmmMW|, ims[..e], terms[..e])
      {
        var id := DataOf(nl[e]);
        var im := AtomOf(nl[e]);
        assert ims[..e + 1][..e] == ims[..e] && terms[..e + 1][..e] == terms[..e];
        der := der[im := AddVec(der[im], DerivativeTerm(fact, escale, ovmd[id] - ovdd[id], ovmdDer[e]))];
        e := e + 1;
      }
      assert ims[..e] == ims && terms[..e] == terms;
    }

    /** One step: the overlaps, their replica average, a Monte Carlo sweep when the
        step is a multiple of MC_STRIDE and not an exchange step, the acceptance
        since the first step, and the score with its derivatives. */
    method Calculate(step: nat, exchange: bool, pos: seq<Vec3>, peerOvmd: seq<seq<real>>, peerInvS2: seq<real>,
                     draws: seq<real>)
      returns (sigmaOut: real, accept: real, score: real)
      requires Valid() && |pos| == |gmmMW| && 2 * mcSteps <= |draws|
      requires forall k :: 0 <= k < |peerOvmd| ==> |peerOvmd[k]| == |gmmDW|
      modifies this`nl, this`ovmdDer, this`ovmd, this`firstTime, this`sigma, this`mcAccept, this`mcFirst, this`mcTrials, this`atomDer
      ensures Valid() && !firstTime
      ensures nl == if old(firstTime) || exchange || step % nlStride == 0
                    then Concat(LocalLists(KeepFlags(pos), size)) else old(nl)
      ensures ovmdDer == Derivatives(pos, nl)
      ensures ovmd == EnsembleAverage(libm, Accumulate(|gmmDW|, DataIds(nl), Overlaps(pos, nl)), peerOvmd, nrep)
      ensures var start := Chain(old(sigma), EnergyAt(libm, Setup(), old(sigma)), old(mcAccept), 0);
              var r := Run(libm, Setup(), start, draws, mcSteps);
              if step % mcStride == 0 && !exchange
              then sigma == r.sigma && mcAccept == r.accepted
              else sigma == old(sigma) && mcAccept == old(mcAccept)
      ensures mcFirst == if old(mcFirst) == -1 then step else old(mcFirst)
      ensures mcTrials == if step % mcStride == 0 && !exchange then old(mcTrials) + mcSteps else old(mcTrials)
      ensures sigmaOut == sigma
      ensures accept == AcceptRatio(libm, mcAccept, mcSteps, step, mcFirst, mcStride)
      ensures var ss2 := Variance(sigmaMean, sigma);
              score == ScoreValue(libm, kbt, InvVariance(libm, ss2, peerInvS2), ss2, ovmd, ovdd)
      ensures var fact := ScoreFactor(kbt, InvVariance(libm, Variance(sigmaMean, sigma), peerInvS2));
              atomDer == AccumulateVec(|gmmMW|, AtomIds(nl),
                           DerivativeTerms(fact, Div(libm, 1.0, nrep as real), DataIds(nl), ovmd, ovdd, ovmdDer))
    {
      ModelOverlaps(step, exchange, pos, peerOvmd);
      sigmaOut, accept, score := SampleAndScore(step, exchange, draws, peerInvS2);
    }

    /** The rest of a step once the averaged overlaps are known: the sampling of
        sigma, then the score and its derivatives with the new sigma. */
    method SampleAndScore(step: nat, exchange: bool, draws: seq<real>, peerInvS2: seq<real>)
      returns (sigmaOut: real, accept: real, score: real)
      requires Valid() && 2 * mcSteps <= |draws|
      modifies this`sigma, this`mcAccept, this`mcFirst, this`mcTrials, this`atomDer
      ensures Valid()
      ensures var start := Chain(old(sigma), EnergyAt(libm, Setup(), old(sigma)), old(mcAccept), 0);
              var r := Run(libm, Setup(), start, draws, mcSteps);
              if step % mcStride == 0 && !exchange
              then sigma == r.sigma && mcAccept == r.accepted
              else sigma == old(sigma) && mcAccept == old(mcAccept)
      ensures mcFirst == if old(mcFirst) == -1 then step else old(mcFirst)
      ensures mcTrials == if step % mcStride == 0 && !exchange then old(mcTrials) + mcSteps else old(mcTrials)
      ensures sigmaOut == sigma
      ensures accept == AcceptRatio(libm, mcAccept, mcSteps, step, mcFirst, mcStride)
      ensures var ss2 := Variance(sigmaMean, sigma);
              score == ScoreValue(libm, kbt, InvVariance(libm, ss2, peerInvS2), ss2, ovmd, ovdd)
      ensures var fact := ScoreFactor(kbt, InvVariance(libm, Variance(sigmaMean, sigma), peerInvS2));
              atomDer == AccumulateVec(|gmmMW|, AtomIds(nl),
                           DerivativeTerms(fact, Div(libm, 1.0, nrep as real), DataIds(nl), ovmd, ovdd, ovmdDer))
    {
      accept := Sample(step, exchange, draws);
      score := ScoreAndDerivatives(peerInvS2);
      sigmaOut := sigma;
    }

    /** The first part of a step: the overlaps with the model and their replica
        average. */
    method ModelOverlaps(step: nat, exchange: bool, pos: seq<Vec3>, peerOvmd: seq<seq<real>>)
      requires Valid() && |pos| == |gmmMW|
      requires forall k :: 0 <= k < |peerOvmd| ==> |peerOvmd[k]| == |gmmDW|
      modifies this`nl, this`ovmdDer, this`ovmd, this`firstTime
      ensures Valid() && !firstTime
      ensures nl == if old(firstTime) || exchange || step % nlStride == 0
                    then Concat(LocalLists(KeepFlags(pos), size)) else old(nl)
      ensures ovmdDer == Derivatives(pos, nl)
      ensures ovmd == EnsembleAverage(libm, Accumulate(|gmmDW|, DataIds(nl), Overlaps(pos, nl)), peerOvmd, nrep)
    {
      CalculateOverlap(step, exchange, pos);
      AverageOverReplicas(peerOvmd);
    }

    /** The sampling part of a step: a Monte Carlo sweep when the step is a multiple
        of MC_STRIDE and not an exchange step, the first step recorded, and the
        acceptance ratio since then. */
    method Sample(step: nat, exchange: bool, draws: seq<real>) returns (accept: real)
      requires Valid() && 2 * mcSteps <= |draws|
      modifies this`sigma, this`mcAccept, this`mcFirst, this`mcTrials
      ensures Valid()
      ensures var start := Chain(old(sigma), EnergyAt(libm, Setup(), old(sigma)), old(mcAccept), 0);
              var r := Run(libm, Setup(), start, draws, mcSteps);
              if step % mcStride == 0 && !exchange
              then sigma == r.sigma && mcAccept == r.accepted
              else sigma == old(sigma) && mcAccept == old(mcAccept)
      ensures mcFirst == if old(mcFirst) == -1 then step else old(mcFirst)
      ensures mcTrials == if step % mcStride == 0 && !exchange then old(mcTrials) + mcSteps else old(mcTrials)
      ensures accept == AcceptRatio(libm, mcAccept, mcSteps, step, mcFirst, mcStride)
      ensures mcSteps > 0 && step >= mcFirst && mcTrials <= mcSteps * ((step - mcFirst) / mcStride + 1) ==>
                0.0 <= accept <= 1.0
    {
      SweepIfDue(step, exchange, draws);
      if mcFirst == -1 {
        mcFirst := step;
      }
      accept := AcceptRatio(libm, mcAccept, mcSteps, step, mcFirst, mcStride);
      AcceptRatioWithinTrials(libm, mcAccept, mcTrials, mcSteps, step, mcFirst, mcStride);
    }

    /** The Monte Carlo sweep of a step, run when the step is a multiple of
        MC_STRIDE and not an exchange step; the trials run are counted. */
    method SweepIfDue(step: nat, exchange: bool, draws: seq<real>)
      requires Valid() && 2 * mcSteps <= |draws|
      modifies this`sigma, this`mcAccept, this`mcTrials
      ensures Valid()
      ensures var start := Chain(old(sigma), EnergyAt(libm, Setup(), old(sigma)), old(mcAccept), 0);
              var r := Run(libm, Setup(), start, draws, mcSteps);
              if step % mcStride == 0 && !exchange
              then sigma == r.sigma && mcAccept == r.accepted
              else sigma == old(sigma) && mcAccept == old(mcAccept)
      ensures mcTrials == if step % mcStride == 0 && !exchange then old(mcTrials) + mcSteps else old(mcTrials)
    {
      if step % mcStride == 0 && !exchange {
        DoMonteCarlo(draws);
        mcTrials := mcTrials + mcSteps;
      }
    }
  }
}
