/** The neighbour-list build: every worker visits the pair codes k = rank,
    rank + size, ... below D*M, keeps those whose fast overlap reaches their data
    component's threshold, and the per-worker lists are gathered in rank order,
    each at the displacement given by the exclusive prefix sum of their lengths. */
module NeighborList {
  import opened Numerics
  import opened Layout

  /** The codes a worker starting at `k` visits in steps of `size` below `n`. */
  function Stride(k: nat, size: nat, n: nat): seq<nat>
    requires size > 0
    decreases n - k
  {
    if k >= n then [] else [k] + Stride(k + size, size, n)
  }

  /** The local list of the worker starting at `k`: the visited codes that are kept. */
  function Local(keep: seq<bool>, k: nat, size: nat): seq<nat>
    requires size > 0
    decreases |keep| - k
  {
    if k >= |keep| then []
    else (if keep[k] then [k] else []) + Local(keep, k + size, size)
  }

  /** One visit of the worker loop: the code is appended when it is kept, and the
      rest of the walk continues size codes further on. */
  lemma LocalStep(keep: seq<bool>, k: nat, size: nat, before: seq<nat>, after: seq<nat>, whole: seq<nat>)
    requires size > 0 && k < |keep|
    requires before + Local(keep, k, size) == whole
    requires after == if keep[k] then before + [k] else before
    ensures after + Local(keep, k + size, size) == whole
  {
    var head: seq<nat> := if keep[k] then [k] else [];
    var tail := Local(keep, k + size, size);
    assert Local(keep, k, size) == head + tail;
    assert after == before + head;
    AppendAssoc(before, head, tail);
  }

  lemma AppendAssoc(a: seq<nat>, b: seq<nat>, c: seq<nat>)
    ensures (a + b) + c == a + (b + c)
  {
  }

  /** The local lists of ranks 0 .. size-1. */
  function LocalLists(keep: seq<bool>, size: nat): (r: seq<seq<nat>>)
    requires size > 0
    ensures |r| == size
  {
    seq(size, rank requires 0 <= rank < size => Local(keep, rank, size))
  }

  /** The gathered list: the local lists one after the other, in rank order. */
  function Concat(ls: seq<seq<nat>>): seq<nat>
  {
    if |ls| == 0 then [] else Concat(ls[..|ls| - 1]) + ls[|ls| - 1]
  }

  /** The per-worker counts (`recvcounts`). */
  function Lengths(ls: seq<seq<nat>>): (r: seq<nat>)
    ensures |r| == |ls| && forall i :: 0 <= i < |ls| ==> r[i] == |ls[i]|
  {
    seq(|ls|, i requires 0 <= i < |ls| => |ls[i]|)
  }

  predicate StrictlyIncreasing(s: seq<nat>)
  {
    forall i, j :: 0 <= i < j < |s| ==> s[i] < s[j]
  }

  /** A worker visits exactly the codes from k below n that are congruent to k. */
  lemma {:induction false} StrideMembers(k: nat, size: nat, n: nat, x: nat)
    requires size > 0
    ensures x in Stride(k, size, n) <==> k <= x < n && (x - k) % size == 0
    decreases n - k
  {
    if k < n {
      StrideMembers(k + size, size, n, x);
      if x >= k + size {
        assert (x - k) % size == (x - (k + size)) % size by {
          ModShift(x - (k + size), size);
        }
      } else if k < x {
        assert (x - k) % size == x - k;
      }
    }
  }

  lemma ModShift(a: nat, size: nat)
    requires size > 0
    ensures (a + size) % size == a % size
  {
    DivModOfRowMajor(a / size + 1, a % size, size);
  }

  /** The codes of one worker come in increasing order. */
  lemma {:induction false} StrideIncreasing(k: nat, size: nat, n: nat)
    requires size > 0
    ensures StrictlyIncreasing(Stride(k, size, n))
    ensures forall i :: 0 <= i < |Stride(k, size, n)| ==> Stride(k, size, n)[i] >= k
    decreases n - k
  {
    if k < n {
      StrideIncreasing(k + size, size, n);
    }
  }

  /** Round-robin partition: each code below n is visited by exactly one rank among
      0 .. size-1 (rank k % size), and that rank visits it once. */
  lemma RoundRobinVisitsOnce(size: nat, n: nat, x: nat)
    requires size > 0 && x < n
    ensures x in Stride(x % size, size, n)
    ensures forall rank :: 0 <= rank < size && x in Stride(rank, size, n) ==> rank == x % size
    ensures forall i, j :: 0 <= i < j < |Stride(x % size, size, n)| ==>
              Stride(x % size, size, n)[i] != Stride(x % size, size, n)[j]
  {
    StrideMembers(x % size, size, n, x);
    assert (x - x % size) % size == 0 by {
      assert x - x % size == (x / size) * size;
      MulMod(x / size, size);
    }
    forall rank | 0 <= rank < size && x in Stride(rank, size, n) ensures rank == x % size {
      StrideMembers(rank, size, n, x);
      var q := (x - rank) / size;
      assert x - rank == q * size;
      assert x == q * size + rank;
      DivModOfRowMajor(q, rank, size);
    }
    StrideIncreasing(x % size, size, n);
  }

  lemma MulMod(q: nat, size: nat)
    requires size > 0
    ensures (q * size) % size == 0
  {
    DivModOfRowMajor(q, 0, size);
  }

  /** The local list holds exactly the visited codes that are kept. */
  lemma {:induction false} LocalMembers(keep: seq<bool>, k: nat, size: nat, x: nat)
    requires size > 0
    ensures x in Local(keep, k, size) <==> x < |keep| && x in Stride(k, size, |keep|) && keep[x]
    decreases |keep| - k
  {
    if k < |keep| {
      LocalMembers(keep, k + size, size, x);
      var head: seq<nat> := if keep[k] then [k] else [];
      var tail := Local(keep, k + size, size);
      assert Local(keep, k, size) == head + tail;
      assert Stride(k, size, |keep|) == [k] + Stride(k + size, size, |keep|);
      assert x in head + tail <==> x in head || x in tail;
    }
  }

  /** The local list is in increasing order, from the worker's first code on. */
  lemma {:induction false} LocalIncreasing(keep: seq<bool>, k: nat, size: nat)
    requires size > 0
    ensures StrictlyIncreasing(Local(keep, k, size))
    ensures forall i :: 0 <= i < |Local(keep, k, size)| ==> Local(keep, k, size)[i] >= k
    decreases |keep| - k
  {
    if k < |keep| {
      LocalIncreasing(keep, k + size, size);
      var head: seq<nat> := if keep[k] then [k] else [];
      var tail := Local(keep, k + size, size);
      assert Local(keep, k, size) == head + tail;
      forall i, j | 0 <= i < j < |head + tail| ensures (head + tail)[i] < (head + tail)[j] {
        if i >= |head| {
          assert (head + tail)[i] == tail[i - |head|];
        }
      }
    }
  }

  lemma {:induction false} ConcatMembers(ls: seq<seq<nat>>, x: nat)
    ensures x in Concat(ls) <==> exists r :: 0 <= r < |ls| && x in ls[r]
  {
    if |ls| > 0 {
      var n := |ls| - 1;
      ConcatMembers(ls[..n], x);
      if x in Concat(ls[..n]) {
        var r :| 0 <= r < n && x in ls[..n][r];
        assert x in ls[r];
      }
      if exists r :: 0 <= r < |ls| && x in ls[r] {
        var r :| 0 <= r < |ls| && x in ls[r];
        if r < n {
          assert x in ls[..n][r];
        }
      }
    }
  }

  /** Worker-count invariance: whatever the number of workers, the gathered list
      holds exactly the kept codes below D*M. */
  lemma GatheredIsKeptSet(keep: seq<bool>, size: nat, x: nat)
    requires size > 0
    ensures x in Concat(LocalLists(keep, size)) <==> x < |keep| && keep[x]
  {
    var ls := LocalLists(keep, size);
    ConcatMembers(ls, x);
    if x < |keep| && keep[x] {
      RoundRobinVisitsOnce(size, |keep|, x);
      LocalMembers(keep, x % size, size, x);
      assert x in ls[x % size];
    }
    if x in Concat(ls) {
      var r :| 0 <= r < size && x in ls[r];
      LocalMembers(keep, r, size, x);
      StrideMembers(r, size, |keep|, x);
    }
  }

  /** With a single worker the gathered list is strictly increasing. */
  lemma SingleWorkerIncreasing(keep: seq<bool>)
    ensures StrictlyIncreasing(Concat(LocalLists(keep, 1)))
  {
    var ls := LocalLists(keep, 1);
    assert ls[..0] == [];
    assert Concat(ls) == ls[0];
    LocalIncreasing(keep, 0, 1);
  }

  /** No code appears twice. */
  predicate Distinct(s: seq<nat>)
  {
    forall i, j :: 0 <= i < j < |s| ==> s[i] != s[j]
  }

  /** Lists that each hold no code twice and share no code with one another gather
      into a list that holds no code twice. */
  lemma {:induction false} ConcatDistinct(ls: seq<seq<nat>>)
    requires forall r :: 0 <= r < |ls| ==> Distinct(ls[r])
    requires forall r, q, x :: 0 <= r < q < |ls| && x in ls[r] ==> x !in ls[q]
    ensures Distinct(Concat(ls))
  {
    if |ls| > 0 {
      var n := |ls| - 1;
      var prefix := ls[..n];
      var front := Concat(prefix);
      var last := ls[n];
      ConcatDistinct(prefix);
      forall i, j | 0 <= i < j < |front + last| ensures (front + last)[i] != (front + last)[j] {
        if j < |front| {
          assert (front + last)[i] == front[i] && (front + last)[j] == front[j];
        } else if i >= |front| {
          assert (front + last)[i] == last[i - |front|] && (front + last)[j] == last[j - |front|];
        } else {
          var x := front[i];
          ConcatMembers(prefix, x);
          var r :| 0 <= r < n && x in prefix[r];
          assert x in ls[r];
          assert (front + last)[j] == last[j - |front|];
        }
      }
    }
  }

  /** Whatever the number of workers, the gathered list holds no code twice: each
      local list is strictly increasing, and a code is visited by one worker only. */
  lemma GatheredDistinct(keep: seq<bool>, size: nat)
    requires size > 0
    ensures Distinct(Concat(LocalLists(keep, size)))
  {
    var ls := LocalLists(keep, size);
    forall r | 0 <= r < |ls| ensures Distinct(ls[r]) {
      LocalIncreasing(keep, r, size);
    }
    forall r, q, x | 0 <= r < q < |ls| && x in ls[r] ensures x !in ls[q] {
      LocalMembers(keep, r, size, x);
      LocalMembers(keep, q, size, x);
      if x in ls[q] {
        RoundRobinVisitsOnce(size, |keep|, x);
      }
    }
    ConcatDistinct(ls);
  }

  /** A list without repeats holds each of its codes once. */
  lemma {:induction false} DistinctCounts(s: seq<nat>, x: nat)
    requires Distinct(s)
    ensures multiset(s)[x] == if x in s then 1 else 0
  {
    if |s| > 0 {
      var n := |s| - 1;
      var front := s[..n];
      assert s == front + [s[n]];
      assert Distinct(front);
      DistinctCounts(front, x);
    }
  }

  /** Worker-count independence of the content: the list gathered from any number
      of workers holds no code twice and the same codes as the single-worker list,
      so it is a permutation of it. */
  lemma GatheredIndependentOfWorkers(keep: seq<bool>, size: nat)
    requires size > 0
    ensures Distinct(Concat(LocalLists(keep, size)))
    ensures multiset(Concat(LocalLists(keep, size))) == multiset(Concat(LocalLists(keep, 1)))
  {
    var many := Concat(LocalLists(keep, size));
    var one := Concat(LocalLists(keep, 1));
    GatheredDistinct(keep, size);
    GatheredDistinct(keep, 1);
    var mMany: multiset<nat> := multiset(many);
    var mOne: multiset<nat> := multiset(one);
    forall x: nat ensures mMany[x] == mOne[x] {
      GatheredIsKeptSet(keep, size, x);
      GatheredIsKeptSet(keep, 1, x);
      DistinctCounts(many, x);
      DistinctCounts(one, x);
    }
    assert mMany == mOne;
  }

  /** The gathered list is as long as the sum of the counts. */
  lemma {:induction false} GatherLength(ls: seq<seq<nat>>)
    ensures |Concat(ls)| == SumNat(Lengths(ls))
  {
    if |ls| > 0 {
      var n := |ls| - 1;
      GatherLength(ls[..n]);
      assert Lengths(ls)[..n] == Lengths(ls[..n]);
    }
  }

  /** Gathered layout: entry t of rank r's list sits at displacement
      SumNat(counts of ranks before r) + t of the gathered list. */
  lemma {:induction false} GatherLayout(ls: seq<seq<nat>>, r: nat, t: nat)
    requires r < |ls| && t < |ls[r]|
    ensures SumNat(Lengths(ls)[..r]) + t < |Concat(ls)|
    ensures Concat(ls)[SumNat(Lengths(ls)[..r]) + t] == ls[r][t]
  {
    var n := |ls| - 1;
    var prefix := ls[..n];
    assert Concat(ls) == Concat(prefix) + ls[n];
    if r < n {
      GatherLayout(prefix, r, t);
      assert Lengths(ls)[..r] == Lengths(prefix)[..r];
    } else {
      GatherLength(prefix);
      assert Lengths(ls)[..r] == Lengths(prefix);
    }
  }

  /** The displacements of the gather: disp[0] = 0 and disp[i+1] = disp[i] +
      recvcounts[i], that is the exclusive prefix sum of the counts. */
  method Displacements(recvcounts: seq<nat>) returns (disp: seq<nat>)
    requires |recvcounts| > 0
    ensures |disp| == |recvcounts|
    ensures forall i :: 0 <= i < |disp| ==> disp[i] == SumNat(recvcounts[..i])
  {
    disp := [0];
    var rankSize := 0;
    var i := 0;
    while i < |recvcounts| - 1
      invariant 0 <= i <= |recvcounts| - 1
      invariant |disp| == i + 1
      invariant rankSize == SumNat(recvcounts[..i])
      invariant forall j :: 0 <= j < |disp| ==> disp[j] == SumNat(recvcounts[..j])
    {
      assert recvcounts[..i + 1][..i] == recvcounts[..i];
      rankSize := rankSize + recvcounts[i];
      disp := disp + [rankSize];
      i := i + 1;
    }
  }

  /** The gather of the local lists (MPI Allgatherv): every list is written into a
      buffer of the total length at its displacement, which leaves the lists one
      after the other in rank order. */
  method AllGather(lists: seq<seq<nat>>, recvcounts: seq<nat>, disp: seq<nat>) returns (gathered: seq<nat>)
    requires recvcounts == Lengths(lists) && |disp| == |lists|
    requires forall i :: 0 <= i < |disp| ==> disp[i] == SumNat(recvcounts[..i])
    ensures gathered == Concat(lists)
  {
    var totSize := SumNat(recvcounts);
    GatherLength(lists);
    gathered := seq(totSize, _ => 0);
    var rank := 0;
    while rank < |lists|
      invariant 0 <= rank <= |lists|
      invariant |gathered| == totSize
      invariant SumNat(recvcounts[..rank]) <= totSize
      invariant gathered[..SumNat(recvcounts[..rank])] == Concat(lists[..rank])
    {
      var base := disp[rank];
      GatherBound(lists, recvcounts, rank);
      ghost var before := gathered;
      gathered := WriteAt(gathered, base, lists[rank]);
      GatherStep(lists, recvcounts, rank, before, gathered);
      rank := rank + 1;
    }
    assert recvcounts[..rank] == recvcounts;
    assert lists[..rank] == lists;
  }

  /** Rank r's list fits in the buffer after the lists of the ranks before it. */
  lemma GatherBound(lists: seq<seq<nat>>, recvcounts: seq<nat>, r: nat)
    requires recvcounts == Lengths(lists) && r < |lists|
    ensures SumNat(recvcounts[..r]) + |lists[r]| == SumNat(recvcounts[..r + 1]) <= SumNat(recvcounts)
  {
    GatherPrefix(recvcounts, r + 1);
    assert recvcounts[..r + 1] + recvcounts[r + 1..] == recvcounts;
    SumNatAppend(recvcounts[..r + 1], recvcounts[r + 1..]);
  }

  /** Writing rank r's list after the prefix of the ranks before it extends the
      gathered prefix by that list. */
  lemma GatherStep(lists: seq<seq<nat>>, recvcounts: seq<nat>, r: nat, before: seq<nat>, after: seq<nat>)
    requires recvcounts == Lengths(lists) && r < |lists|
    requires SumNat(recvcounts[..r]) + |lists[r]| <= |before| == |after|
    requires before[..SumNat(recvcounts[..r])] == Concat(lists[..r])
    requires after[..SumNat(recvcounts[..r])] == before[..SumNat(recvcounts[..r])]
    requires after[SumNat(recvcounts[..r])..SumNat(recvcounts[..r]) + |lists[r]|] == lists[r]
    ensures SumNat(recvcounts[..r + 1]) <= |after|
    ensures after[..SumNat(recvcounts[..r + 1])] == Concat(lists[..r + 1])
  {
    var base := SumNat(recvcounts[..r]);
    GatherPrefix(recvcounts, r + 1);
    assert lists[..r + 1][..r] == lists[..r];
    assert Concat(lists[..r + 1]) == Concat(lists[..r]) + lists[r];
    assert after[..base + |lists[r]|] == after[..base] + after[base..base + |lists[r]|];
  }

  /** The receive step of one rank: its list copied into the buffer from `base`
      on, everything before `base` left as it was. */
  method WriteAt(buf: seq<nat>, base: nat, list: seq<nat>) returns (r: seq<nat>)
    requires base + |list| <= |buf|
    ensures |r| == |buf|
    ensures r[..base] == buf[..base]
    ensures r[base..base + |list|] == list
  {
    r := buf;
    var t := 0;
    while t < |list|
      invariant 0 <= t <= |list|
      invariant |r| == |buf|
      invariant forall q :: 0 <= q < base ==> r[q] == buf[q]
      invariant forall q :: 0 <= q < t ==> r[base + q] == list[q]
    {
      r := r[base + t := list[t]];
      t := t + 1;
    }
    assert r[base..base + |list|] == list;
  }

  /** The gathered prefix of the first `r` ranks ends where rank r's list starts. */
  lemma GatherPrefix(recvcounts: seq<nat>, r: nat)
    requires 0 < r <= |recvcounts|
    ensures SumNat(recvcounts[..r]) == SumNat(recvcounts[..r - 1]) + recvcounts[r - 1]
  {
    assert recvcounts[..r][..r - 1] == recvcounts[..r - 1];
  }
}
