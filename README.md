# EM3DSMAP in Dafny

This project models PLUMED's `EM3DSMAP` collective variable (`src/colvar/EM3DSmap.cpp`)
and proves properties of the model.

The variable scores how well a structure fits a cryo-EM map. Both sides are Gaussian
mixture models (GMMs):

- the model GMM has one spherical Gaussian per atom, whose width and weight depend on
  the atom's element (C, O, N or S);
- the data GMM is read from a file of components, each with a weight, a mean and a
  packed symmetric covariance matrix.

Once, at construction, the action:

- checks the keywords, types the atoms and checks every data component (Sylvester's
  criterion and a non-negative weight);
- normalises both weight vectors;
- computes each data component's self overlap and its neighbour-list threshold
  (sorted overlaps, tail sum from index 1);
- precomputes, for each (atom type, data component), the prefactor and the inverse of
  the summed covariance;
- derives a global cutoff on the quadratic form, seeded with `1.0+9` (that is, 10).

At every step the action:

- rebuilds the neighbour list when it is due;
- accumulates the model-data overlaps and their gradients;
- averages the overlaps over the replicas;
- samples the uncertainty sigma by Metropolis Monte Carlo;
- returns the Bayesian score and its derivatives with respect to the atoms.

Modules, in dependency order:

- `Numerics`: the floating-point stand-ins (`Libm`, `Div`), sums and sorting.
- `Linalg`: vectors, packed symmetric matrices, determinant, adjugate and inverse.
- `Layout`: the row-major index arithmetic `t*D+d` and `k=i*M+j`.
- `Gmm`: atom typing, data checks and normalisation.
- `Overlap`: overlaps, the auxiliary table, self-overlap thresholds and the global cutoff.
- `NeighborList`: the round-robin partition, displacements and the all-gather.
- `Metropolis`: the energy and the Monte Carlo chain.
- `Bayes`: the replica average, the score and the chain-rule derivatives.
- `Construction`: the constructor's loops.
- `Em3dsMap`: the class `EM3DSmap`, whose fields are the object's state and whose
  methods change that state.

Every loop method is proved equal to a specification function, and the lemmas state
properties of those functions.

Two conventions run through the model:

- **Floating point.** Doubles are modelled as exact reals. `exp`, `log`, `sqrt`, `pow`
  and `pi` are fields of a `Libm` value, which the model treats as unknown functions.
  `Div(m, a, b)` is `a / b` when `b != 0` and `m.divByZero(a)` otherwise, so every
  operation is total.
- **Communication and randomness.** The workers of the intra-replica communicator are
  simulated. The other replicas' overlaps and inverse variances are inputs. The numbers
  `rand()` draws arrive as a sequence `draws`, one per downhill trial and two per
  uphill trial.

## Model

| member | source | states |
|---|---|---|
| Gmm.TypeIndex | src/colvar/EM3DSmap.cpp:311-320 | a type character has an index iff it is C, O, N or S, and the index is its position in that order |
| Gmm.TypeCharOf | src/colvar/EM3DSmap.cpp:335-342 | the type is the first letter of the name, or the second when the first is a digit; a name too short for that is an error |
| Gmm.ClassifyAtom | src/colvar/EM3DSmap.cpp:343-352 | an atom is typed iff its type character is a known element, with that element's index; otherwise the error names the character and the atom |
| Gmm.WeightsOf | src/colvar/EM3DSmap.cpp:345-349 | each atom's weight is the positive weight of its type |
| Gmm.ClassifyAllSpec | src/colvar/EM3DSmap.cpp:330-353 | typing all atoms succeeds iff every atom is typed, giving their types in order; on failure the error is that of the first atom that fails |
| Gmm.ClassifyAllStopsAt | src/colvar/EM3DSmap.cpp:350-352 | once a prefix of the atoms fails, the whole typing fails with the same error |
| Gmm.ModelWeightsSumPositive | src/colvar/EM3DSmap.cpp:311-314 | the model weights of a non-empty atom list have a positive sum, so their normalisation divides by a nonzero value |
| Construction.GetGmmM | src/colvar/EM3DSmap.cpp:303-357 | without exactly one MOLINFO the result is that error; otherwise the loop gives the typing of all atoms, and on success their types (all < 4) and type weights |
| Gmm.CheckComponent | src/colvar/EM3DSmap.cpp:360-373 | a component passes iff all three leading minors are positive and the weight is >= 0 (zero accepted); a failing minor is reported before the weight |
| Linalg.DetIsThirdMinor | src/colvar/EM3DSmap.cpp:474-476 | the determinant accumulated in three steps is Sylvester's third minor |
| Gmm.SphericalIsPositiveDefinite | src/colvar/EM3DSmap.cpp:435-437 | a spherical covariance with positive variance passes Sylvester's check |
| Gmm.CheckAllSpec | src/colvar/EM3DSmap.cpp:387-399 | the records pass iff each has a positive definite covariance and a non-negative weight |
| Gmm.CheckAllStopsAt | src/colvar/EM3DSmap.cpp:399 | the first failing record decides the outcome of the whole file |
| Construction.GetGmmD | src/colvar/EM3DSmap.cpp:377-415 | a missing file is an error; otherwise the outcome is that of checking the records, and on success the means, covariances and weights are the records' in file order |
| Gmm.Normalize | src/colvar/EM3DSmap.cpp:420-424 | the in-place loop leaves each weight divided by the original sum |
| Gmm.NormalizedSumsToOne | src/colvar/EM3DSmap.cpp:420-424 | weights with a nonzero sum sum to one after normalisation |
| Gmm.NormalizedIgnoresScale | src/colvar/EM3DSmap.cpp:420-424 | normalisation is invariant under multiplying all weights by one nonzero factor |
| Numerics.Sort | src/colvar/EM3DSmap.cpp:511 | the sorted overlaps are ascending and a permutation of the input |
| Linalg.AdjugateProduct | src/colvar/EM3DSmap.cpp:482-487 | S times the packed cofactor matrix is det(S) times the identity, on either side |
| Linalg.InverseIsScaledAdjugate | src/colvar/EM3DSmap.cpp:482-487 | with a nonzero determinant, `inv_sum` is the adjugate scaled by 1/det |
| Linalg.InverseIsInverse | src/colvar/EM3DSmap.cpp:482-487 | with a nonzero determinant, `inv_sum` is a two-sided inverse of `sum` |
| Overlap.PrefactorInverseSpec | src/colvar/EM3DSmap.cpp:465-491 | `sum` is the sum of the covariances, `inv_sum` is its inverse when det != 0, and the prefactor times sqrt(det) is cfact*w0*w1 |
| Overlap.PrefactorInverseSymmetric | src/colvar/EM3DSmap.cpp:471-487 | the prefactor and inverse do not depend on the order of the two components |
| Linalg.SymVecIsMatVec | src/colvar/EM3DSmap.cpp:565-567 | the packed product `p_x, p_y, p_z` is the product with the full symmetric matrix |
| Linalg.QuadFormOfDifferenceIsSymmetric | src/colvar/EM3DSmap.cpp:561-569 | the quadratic form of `m_m - d_m` equals that of `d_m - m_m` |
| Overlap.OverlapGradient | src/colvar/EM3DSmap.cpp:573-576 | the derivative is the overlap times the inverse covariance applied to the mean difference |
| Overlap.OverlapSymmetric | src/colvar/EM3DSmap.cpp:557-571 | the overlap of two Gaussians does not depend on which mean is subtracted |
| Overlap.OverlapNonNegative | src/colvar/EM3DSmap.cpp:571 | with a non-negative prefactor (and a positive exp) the overlap is non-negative |
| Overlap.FastOverlapAgrees | src/colvar/EM3DSmap.cpp:581-602 | the fast overlap is 0 when the quadratic form exceeds the cutoff and the full overlap otherwise |
| Overlap.FastOverlapZeroIff | src/colvar/EM3DSmap.cpp:596-600 | with a nonzero prefactor the fast overlap is zero exactly when the quadratic form is above the cutoff |
| Overlap.SphericalCov | src/colvar/EM3DSmap.cpp:433-437 | an atom type's covariance is diagonal with equal, non-negative variances |
| Overlap.AuxEntry | src/colvar/EM3DSmap.cpp:441-458 | an auxiliary entry is the prefactor and inverse of the atom type's spherical covariance paired with the data covariance, with unit weights |
| Overlap.AuxTableLayout | src/colvar/EM3DSmap.cpp:430-460 | the table has 4*D entries, and the entry of (type t, data d) sits at t*D+d |
| Construction.GetAuxiliaryStuff | src/colvar/EM3DSmap.cpp:426-462 | the nested loops produce the auxiliary table type by type, with 4*D entries |
| Overlap.PairOverlapSymmetric | src/colvar/EM3DSmap.cpp:499-507 | the overlap of data components a and b equals that of b and a |
| Overlap.ScanFirstCrossing | src/colvar/EM3DSmap.cpp:515-522 | a scan resumed at index i with the tail sum of entries 1 .. i-1, and no crossing before c, returns entry c-1 |
| Overlap.ThresholdAtFirstCrossing | src/colvar/EM3DSmap.cpp:515-522 | the threshold is the entry before the first index (from 1) at which the tail sum reaches the target |
| Overlap.ThresholdWithoutCrossing | src/colvar/EM3DSmap.cpp:513-522 | when the tail sum never reaches the target, the threshold stays NL_CUTOFF times the total |
| Construction.ScanThreshold | src/colvar/EM3DSmap.cpp:515-522 | the loop with its break computes the threshold function |
| Overlap.SelfOverlapDominates | src/colvar/EM3DSmap.cpp:498-509 | with a positive exp and non-negative prefactors in its row, a self overlap is at least every pairwise term summed into it |
| Construction.GetSelfOverlap | src/colvar/EM3DSmap.cpp:493-527 | the return value is the sum of the overlaps with all data components, and the cut is the threshold of their sorted values |
| Construction.GetSelfOverlaps | src/colvar/EM3DSmap.cpp:280-283 | entry i holds component i's self overlap and threshold |
| Overlap.MinOfIsMinimum | src/colvar/EM3DSmap.cpp:539-550 | a running minimum is at most its seed and every entry, and equals one of them |
| Overlap.MinOfRowsIsMinimum | src/colvar/EM3DSmap.cpp:536-551 | over both loops the minimum is at most the seed and every ratio, and equals one of them |
| Construction.GetCutoffOv | src/colvar/EM3DSmap.cpp:531-554 | the cutoff is -2 log of the minimum, seeded with 10, of each threshold over its full pair prefactor |
| Overlap.LeastRatio | src/colvar/EM3DSmap.cpp:536-550 | the running minimum is at most the ratio of every (data component, atom) pair |
| Overlap.CutoffSound | src/colvar/EM3DSmap.cpp:596-600 | with a positive prefactor and a positive least ratio at most thr/pre, a quadratic form beyond -2 log(least) gives an overlap below thr, so the fast overlap reaches thr iff the full overlap does |
| Overlap.CutoffDropsOnlyNegligible | src/colvar/EM3DSmap.cpp:531-554 | with exp increasing and inverting log, a positive pair prefactor and a positive smallest ratio, a pair beyond the global cutoff has an overlap below its component's threshold, and the fast test agrees with the full test |
| Layout.DivModOfRowMajor | src/colvar/EM3DSmap.cpp:614-618 | the code k = i*M+j decodes back to i = k/M and j = k%M |
| Layout.DecodeInRange | src/colvar/EM3DSmap.cpp:614-622 | every code below D*M decodes to a data index < D and an atom index < M that encode back to it |
| Layout.RowMajorInRange | src/colvar/EM3DSmap.cpp:622 | the auxiliary index t*D+d of a valid type and component is below 4*D |
| NeighborList.StrideMembers | src/colvar/EM3DSmap.cpp:615 | worker `rank` visits exactly the codes below n that are congruent to rank modulo size |
| NeighborList.RoundRobinVisitsOnce | src/colvar/EM3DSmap.cpp:615 | each code is visited by worker k % size, by no other worker, and only once |
| NeighborList.StrideIncreasing | src/colvar/EM3DSmap.cpp:615 | a worker visits its codes in strictly increasing order |
| NeighborList.LocalMembers | src/colvar/EM3DSmap.cpp:615-629 | a code is in a worker's local list iff it is below D*M, visited by that worker and kept |
| NeighborList.LocalIncreasing | src/colvar/EM3DSmap.cpp:615-629 | a local list is strictly increasing and holds no code below the worker's rank |
| NeighborList.ConcatMembers | src/colvar/EM3DSmap.cpp:646 | a code is in the gathered list iff it is in some worker's list |
| NeighborList.GatheredIsKeptSet | src/colvar/EM3DSmap.cpp:613-646 | the gathered list holds exactly the kept codes, whatever the number of workers |
| NeighborList.SingleWorkerIncreasing | src/colvar/EM3DSmap.cpp:615-646 | with one worker the list is strictly increasing |
| NeighborList.ConcatDistinct | src/colvar/EM3DSmap.cpp:646 | lists that each hold no code twice and share no code gather into a list that holds no code twice |
| NeighborList.GatheredDistinct | src/colvar/EM3DSmap.cpp:615-646 | for any number of workers the gathered list holds no pair code twice |
| NeighborList.GatheredIndependentOfWorkers | src/colvar/EM3DSmap.cpp:615-646 | for any number of workers the gathered list has no repeats and is a permutation of the single-worker list |
| NeighborList.GatherLength | src/colvar/EM3DSmap.cpp:631-636 | the gathered length is the sum of the receive counts |
| NeighborList.GatherLayout | src/colvar/EM3DSmap.cpp:646 | entry t of worker r's list lands at the prefix sum of the earlier counts plus t |
| NeighborList.Displacements | src/colvar/EM3DSmap.cpp:638-644 | disp[i] is the sum of the counts of workers 0 .. i-1 |
| NeighborList.AllGather | src/colvar/EM3DSmap.cpp:646 | writing each list at its displacement gives the concatenation of the lists in rank order |
| Em3dsMap.EM3DSmap.DataOf | src/colvar/EM3DSmap.cpp:617 | the data index of a pair code is below D |
| Em3dsMap.EM3DSmap.AtomOf | src/colvar/EM3DSmap.cpp:618 | the atom index of a pair code is below M |
| Em3dsMap.EM3DSmap.AuxIndex | src/colvar/EM3DSmap.cpp:620-622 | the auxiliary index of a pair is below 4*D |
| Em3dsMap.EM3DSmap.KeepPair | src/colvar/EM3DSmap.cpp:617-628 | a pair within the global cutoff is kept iff its full overlap reaches `ovdd_cut` of its data component; a pair beyond the cutoff counts as overlap 0 and is kept iff that threshold is not positive; the decision is entry k of the keep vector |
| Em3dsMap.EM3DSmap.KeepIffNeeded | src/colvar/EM3DSmap.cpp:617-628 | with the cutoff the constructor computes, exp increasing and inverting log, a positive pair prefactor and a positive smallest ratio, a pair is kept iff its full overlap reaches the threshold of its data component |
| Em3dsMap.EM3DSmap.LocalList | src/colvar/EM3DSmap.cpp:610-629 | worker `rank`'s loop yields its local list of kept codes |
| Em3dsMap.EM3DSmap.BuildLocalLists | src/colvar/EM3DSmap.cpp:610-633 | the local lists of workers 0 .. size-1 and their counts |
| Em3dsMap.EM3DSmap.UpdateNeighborList | src/colvar/EM3DSmap.cpp:604-649 | nl is the gathered list; k is in nl iff k < D*M and the pair is kept; no code appears twice and nl is a permutation of the single-worker list, which is increasing; the derivative buffer is resized to its length |
| Em3dsMap.Resize | src/colvar/EM3DSmap.cpp:648 | resizing keeps the first entries and adds zero vectors |
| Em3dsMap.EM3DSmap.Prepare | src/colvar/EM3DSmap.cpp:651-654 | an exchange step sets first_time, and nothing else changes |
| Em3dsMap.EM3DSmap.OverlapsOf | src/colvar/EM3DSmap.cpp:667-686 | each entry adds its overlap to its data component, and its gradient is stored at the entry's position |
| Overlap.AccumulatePreservesTotal | src/colvar/EM3DSmap.cpp:684-685 | the accumulated overlaps sum to the total of all entries' overlaps |
| Overlap.AccumulateUntouched | src/colvar/EM3DSmap.cpp:667-686 | a data component that no entry names keeps overlap 0 |
| Overlap.AccumulateComponent | src/colvar/EM3DSmap.cpp:667-686 | component d of the accumulated overlaps is the sum of the overlaps of exactly the entries that name d |
| Em3dsMap.EM3DSmap.CalculateOverlap | src/colvar/EM3DSmap.cpp:658-692 | the list is rebuilt iff it is the first step, an exchange step or a multiple of NL_STRIDE; then ovmd and ovmd_der are the accumulated overlaps and gradients of the list, and first_time is cleared |
| Em3dsMap.EM3DSmap.RefreshNeighborList | src/colvar/EM3DSmap.cpp:661-664 | the list (and the derivative buffer) is rebuilt iff it is the first step, an exchange step or a multiple of NL_STRIDE, otherwise both are kept; first_time ends cleared |
| Metropolis.RssZeroIff | src/colvar/EM3DSmap.cpp:699-703 | the residual sum is non-negative, and zero iff the model overlaps equal the data overlaps |
| Em3dsMap.EM3DSmap.ResidualSum | src/colvar/EM3DSmap.cpp:699-703 | the loop computes the residual sum of squares |
| Em3dsMap.EM3DSmap.GetEnergy | src/colvar/EM3DSmap.cpp:694-710 | the energy of a sigma is the restraint plus the normalisation and prior, and no state changes |
| Metropolis.EnergyLowerBound | src/colvar/EM3DSmap.cpp:705-707 | with kbt > 0 the energy is at least its log terms, with equality iff the overlaps match |
| Metropolis.EnergyEven | src/colvar/EM3DSmap.cpp:697 | the energy depends on sigma only through sigma squared |
| Metropolis.ReflectInside | src/colvar/EM3DSmap.cpp:726-727 | a proposal inside [SIGMA_MIN, SIGMA_MAX] is unchanged |
| Metropolis.ReflectInBounds | src/colvar/EM3DSmap.cpp:726-727 | a proposal past a bound is mirrored at that bound and lands inside, when DSIGMA is at most the range |
| Metropolis.MoveWithinStep | src/colvar/EM3DSmap.cpp:722-723 | a draw in [0,1] gives a move in [-DSIGMA, DSIGMA] |
| Metropolis.ProposeInBounds | src/colvar/EM3DSmap.cpp:722-727 | a proposal from sigma in range stays in range |
| Metropolis.Step | src/colvar/EM3DSmap.cpp:729-747 | a trial uses one or two draws, adds at most one acceptance, and keeps sigma or moves it to the proposal |
| Metropolis.StepAcceptance | src/colvar/EM3DSmap.cpp:733-747 | a trial is accepted iff delta <= 0 or the second draw is below exp(-delta); only uphill trials use a second draw; acceptance moves sigma and the energy, rejection keeps both |
| Metropolis.Run | src/colvar/EM3DSmap.cpp:719-748 | k trials use between k and 2k draws and add at most k acceptances |
| Metropolis.RunTracksEnergy | src/colvar/EM3DSmap.cpp:716-748 | the stored old energy stays the energy of the current sigma |
| Metropolis.RunStaysInBounds | src/colvar/EM3DSmap.cpp:719-748 | with draws in [0,1], sigma stays in [SIGMA_MIN, SIGMA_MAX] |
| Em3dsMap.EM3DSmap.Trial | src/colvar/EM3DSmap.cpp:720-747 | one iteration of the loop is one step of the chain |
| Em3dsMap.EM3DSmap.Sweep | src/colvar/EM3DSmap.cpp:716-748 | the loop runs MC_STEPS trials from the current sigma and its energy |
| Em3dsMap.EM3DSmap.DoMonteCarlo | src/colvar/EM3DSmap.cpp:713-751 | sigma and MCaccept become those of the chain after MC_STEPS trials |
| Metropolis.AcceptRatioBounds | src/colvar/EM3DSmap.cpp:775-777 | when MCaccept is at most MC_STEPS per sweep so far, the acceptance is in [0,1], and 0 with no acceptance |
| Metropolis.AcceptRatioWithinTrials | src/colvar/EM3DSmap.cpp:775-777 | an acceptance counter within the trials run, with those trials within MC_STEPS per counted sweep, gives a ratio in [0, 1] |
| Bayes.EnsembleSingleReplica | src/colvar/EM3DSmap.cpp:759-768 | with a single replica the average is the replica's own overlaps |
| Bayes.EnsembleOfIdentical | src/colvar/EM3DSmap.cpp:759-768 | replicas holding equal overlaps average to those overlaps |
| Em3dsMap.EM3DSmap.Averaged | src/colvar/EM3DSmap.cpp:762-767 | the loop computes the sum over replicas times escale for every entry |
| Em3dsMap.EM3DSmap.AverageOverReplicas | src/colvar/EM3DSmap.cpp:759-768 | ovmd becomes the replica average, and nothing else changes |
| Bayes.ScoreIsEnergyForOneReplica | src/colvar/EM3DSmap.cpp:780-819 | with one replica the score equals the energy the Monte Carlo samples |
| Bayes.AccumulateVecUntouched | src/colvar/EM3DSmap.cpp:801-811 | an atom that no neighbour-list entry names gets a zero derivative |
| Bayes.DerivativesVanishAtFit | src/colvar/EM3DSmap.cpp:804-811 | when the averaged overlaps equal the data self overlaps, every atom's derivative is zero |
| Em3dsMap.EM3DSmap.AtomDerivatives | src/colvar/EM3DSmap.cpp:801-811 | the loop adds each entry's chain-rule term to its atom |
| Em3dsMap.EM3DSmap.ScoreAndDerivatives | src/colvar/EM3DSmap.cpp:780-822 | the score uses the inverse variance summed over replicas, and atom_der holds the chain-rule sums |
| Em3dsMap.EM3DSmap.ModelOverlaps | src/colvar/EM3DSmap.cpp:756-768 | the neighbour list and overlaps are updated, and ovmd becomes their replica average |
| Em3dsMap.EM3DSmap.Sample | src/colvar/EM3DSmap.cpp:772-777 | the Monte Carlo runs iff the step is a multiple of MC_STRIDE and not an exchange step; MCfirst is set once; the acceptance ratio is computed, and it lies in [0, 1] whenever the trials run do not exceed MC_STEPS times the sweeps counted from the step numbers |
| Em3dsMap.EM3DSmap.SweepIfDue | src/colvar/EM3DSmap.cpp:773 | a due step runs MC_STEPS trials of the chain and counts them; any other step changes nothing |
| Em3dsMap.EM3DSmap.SampleAndScore | src/colvar/EM3DSmap.cpp:772-822 | sampling, then the score and derivatives with the new sigma |
| Em3dsMap.EM3DSmap.Calculate | src/colvar/EM3DSmap.cpp:753-823 | a whole step: the list, the averaged overlaps, the sampled sigma, the acceptance, and the score with its derivatives, each as defined above |
| Em3dsMap.CheckOptions | src/colvar/EM3DSmap.cpp:202-205 | the keywords pass iff NL_CUTOFF > 0 and NL_STRIDE > 0, with the NL_CUTOFF error first |
| Em3dsMap.EM3DSmap.Precompute | src/colvar/EM3DSmap.cpp:276-289 | the weights are normalised, the self overlaps, thresholds, auxiliary table and global cutoff computed from them in constructor order |
| Em3dsMap.EM3DSmap.constructor | src/colvar/EM3DSmap.cpp:171-301 | every constant and initial value of the object, in terms of the options, the engine and the mixtures; one worker under SERIAL |
| Em3dsMap.EM3DSmap.Create | src/colvar/EM3DSmap.cpp:171-301 | construction fails iff a keyword, atom-typing or data check fails, with the first such error; otherwise the object holds the typed atoms and the records' means and normalised weights, the self overlaps and thresholds, the auxiliary table and the global cutoff computed from the records' covariances, every option and engine constant, sigma at SIGMA0, an empty neighbour list, `first_time` set and zero acceptances |

## Left out

- File input is not modelled. GMM_FILE arrives as `Option<seq<Record>>`, where `None`
  means the file does not exist. MOLINFO arrives as the number of MOLINFO actions and
  the atom names.
- MPI is simulated, not performed.
  - The neighbour-list build runs every worker's round-robin loop and gathers the lists
    in rank order.
  - The per-rank loops of `calculate_overlap` and of the derivatives run as one pass
    over all entries, in entry order. With exact reals this equals the per-rank sums
    followed by `comm.Sum`.
  - The other replicas' overlaps (`multi_sim_comm.Sum`) and inverse variances are inputs.
  - `rank_` and `replica_` are not modelled.
- `rand()` is not modelled. Its values are the `draws` input, and `RAND_MAX` scaling is
  assumed done. The seed taken from `time(NULL)` is not modelled.
- Floating point is not modelled.
  - Reals are exact, so rounding and the order of summation do not matter.
  - `exp`, `log`, `sqrt`, `pow` and `pi` are uninterpreted. `exp > 0` is a hypothesis
    of the lemmas that need it.
  - IEEE infinities and NaNs from a zero divisor are replaced by `divByZero`.
- Unsigned and `int` widths are unbounded; the model does not capture a wrap-around of
  `nover = D*M` or of the counts.
- A name of length one that starts with a digit makes `name.at(1)` throw. The model
  reports that case as the error `AtomNameTooShort`, and the empty name too.
- Em3dsMap.EM3DSmap.Create and the constructor require MC_STRIDE > 0, which the source
  does not check: `step % 0` is undefined behaviour there. They also require a
  non-empty communicator.
- Em3dsMap.EM3DSmap.UpdateNeighborList is modelled only for SERIAL on a single process;
  Create and the constructor require `!SERIAL || commSize == 1`. Under SERIAL the source
  sets `size_ = 1` and `rank_ = 0` (lines 209-210), but `comm.Sum` (line 633) and
  `comm.Allgatherv` (line 646) still run over the whole communicator. On several
  processes every rank builds the full list, the count is summed to a multiple of it,
  and `Allgatherv` reads one-element count and displacement arrays as if they had one
  entry per process, which is undefined behaviour.
- Overlap.CutoffDropsOnlyNegligible and Em3dsMap.EM3DSmap.KeepIffNeeded require the
  smallest ratio to be positive. When it is zero or negative, `std::log` gives -infinity
  or NaN, the cutoff is +infinity or NaN and no pair is dropped; the model's `log` is
  uninterpreted there, so that case is not stated. They also assume exp increasing and
  `exp(log x) == x` for x > 0.
- `registerKeywords`, keyword parsing, logging, the citation, component registration,
  `requestAtoms`, `valueSigma->set`, `valueAccept->set`, `valueScore->set` and
  `setAtomsDerivatives` are left out. `calculate` returns sigma, the acceptance and the
  score instead, and leaves the derivatives in `atomDer`.
- `GMM_d_cov_.clear()` is not modelled. The covariances are constructor parameters that
  the object does not keep.
- Em3dsMap.EM3DSmap.CalculateOverlap: the neighbour list from any number of workers is
  proved a permutation of the single-worker list, and each overlap component is proved to
  be the sum over its entries. No lemma proves that this sum does not depend on the order
  of the entries, so `ovmd` is not proved independent of the number of workers.
- Em3dsMap.EM3DSmap.Sample: the acceptance ratio is proved to lie in [0, 1] only when the
  trials counted so far (the ghost field `mcTrials`) do not exceed MC_STEPS times the
  sweeps computed from the step numbers. That holds when the engine calls the action at
  consecutive steps from MCfirst on, and the model does not capture that calling pattern.
- Bayes.DerivativesVanishAtFit and Em3dsMap.EM3DSmap.AtomDerivatives state the chain
  rule as the source writes it. No lemma proves that `atomDer` is the analytic gradient
  of the score, because that would need derivatives of `exp` and `log`, which are
  uninterpreted here.
- Metropolis.ReflectInBounds states that sigma stays in range only when DSIGMA is at
  most SIGMA_MAX - SIGMA_MIN. The source reflects once, so a larger step can leave the
  range.
