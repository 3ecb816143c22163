/**
The simulator's chunk scheduler: chunks longest first, each to the worker with the least load
so far; a chunk whose worker crashes costs it the recovery and the time once more.  Times are
reals.
*/
module Scheduler {
  import opened Wrappers
  import Permutations

  function Sum(p: seq<real>): real {
    if p == [] then 0.0 else Sum(p[..|p| - 1]) + p[|p| - 1]
  }

  /** The total time of the chunks that assignment a gives to worker q. */
  function Load(p: seq<real>, a: seq<nat>, q: nat): real
    requires |a| == |p|
  {
    if p == [] then 0.0
    else Load(p[..|p| - 1], a[..|p| - 1], q) + if a[|p| - 1] == q then p[|p| - 1] else 0.0
  }

  ghost predicate IsAssignment(a: seq<nat>, n: nat, m: nat) {
    |a| == n && forall i :: 0 <= i < n ==> a[i] < m
  }

  function LoadVector(p: seq<real>, a: seq<nat>, m: nat): (v: seq<real>)
    requires |a| == |p|
    ensures |v| == m
  {
    seq(m, q requires 0 <= q < m => Load(p, a, q))
  }

  /** The first worker of least load. */
  function LeastLoaded(load: seq<real>): (w: nat)
    requires load != []
    ensures w < |load|
    ensures forall q :: 0 <= q < |load| ==> load[w] <= load[q]
    ensures forall q :: 0 <= q < w ==> load[w] < load[q]
  {
    if |load| == 1 then 0
    else
      var w := LeastLoaded(load[..|load| - 1]);
      if load[|load| - 1] < load[w] then |load| - 1 else w
  }

  /** Where the greedy rule puts the chunks p, taken in order. */
  function Choices(p: seq<real>, m: nat): (a: seq<nat>)
    requires m > 0
    ensures |a| == |p| && forall i :: 0 <= i < |a| ==> a[i] < m
  {
    if p == [] then []
    else
      var before := Choices(p[..|p| - 1], m);
      before + [LeastLoaded(LoadVector(p[..|p| - 1], before, m))]
  }

  // ---------------------------------------------------------- double counting

  function TotalLoad(p: seq<real>, a: seq<nat>, m: nat): real
    requires |a| == |p|
  {
    if m == 0 then 0.0 else TotalLoad(p, a, m - 1) + Load(p, a, m - 1)
  }

  lemma {:induction false} TotalLoadStep(p: seq<real>, a: seq<nat>, m: nat)
    requires |a| == |p| > 0
    ensures TotalLoad(p, a, m)
         == TotalLoad(p[..|p| - 1], a[..|p| - 1], m) + if a[|p| - 1] < m then p[|p| - 1] else 0.0
  {
    if m > 0 { TotalLoadStep(p, a, m - 1); }
  }

  /** Whatever the assignment, the workers' loads sum to the total chunk time. */
  lemma {:induction false} LoadsSumToTotal(p: seq<real>, a: seq<nat>, m: nat)
    requires IsAssignment(a, |p|, m)
    ensures TotalLoad(p, a, m) == Sum(p)
  {
    if p == [] {
      EmptyTotal(p, a, m);
    } else {
      TotalLoadStep(p, a, m);
      LoadsSumToTotal(p[..|p| - 1], a[..|p| - 1], m);
    }
  }

  lemma {:induction false} EmptyTotal(p: seq<real>, a: seq<nat>, m: nat)
    requires p == [] && a == []
    ensures TotalLoad(p, a, m) == 0.0
  {
    if m > 0 { EmptyTotal(p, a, m - 1); }
  }

  lemma {:induction false} TotalAtLeast(p: seq<real>, a: seq<nat>, m: nat, bound: real)
    requires |a| == |p|
    requires forall q: nat :: q < m ==> Load(p, a, q) >= bound
    ensures TotalLoad(p, a, m) >= Times(m, bound)
  {
    if m > 0 {
      TotalAtLeast(p, a, m - 1, bound);
      assert Times(m, bound) == Times(m - 1, bound) + bound;
    }
  }

  lemma {:induction false} TotalAtMost(p: seq<real>, a: seq<nat>, m: nat, bound: real)
    requires |a| == |p|
    requires forall q: nat :: q < m ==> Load(p, a, q) <= bound
    ensures TotalLoad(p, a, m) <= Times(m, bound)
  {
    if m > 0 {
      TotalAtMost(p, a, m - 1, bound);
      assert Times(m, bound) == Times(m - 1, bound) + bound;
    }
  }

  // ---------------------------------------------------- the bounds, cleared of fractions

  /** load <= total / m + (1 - 1/m) longest */
  ghost predicate WithinAverage(load: real, m: nat, total: real, longest: real) {
    m as real * load <= total + (m as real - 1.0) * longest
  }

  /** load <= (2 - 1/m) C */
  ghost predicate WithinTwice(load: real, m: nat, C: real) {
    m as real * load <= (2.0 * m as real - 1.0) * C
  }

  /** load <= (4/3 - 1/(3m)) C */
  ghost predicate WithinFourThirds(load: real, m: nat, C: real) {
    3.0 * (m as real * load) <= (4.0 * m as real - 1.0) * C
  }

  /** The product of a worker count and a time, kept by name. */
  function Times(m: nat, x: real): real {
    m as real * x
  }

  lemma AverageArithmetic(m: nat, load: real, total: real, longest: real)
    requires m > 0 && total >= Times(m - 1, load - longest) + load
    ensures WithinAverage(load, m, total, longest)
  {
    var M := m as real;
    assert (m - 1) as real == M - 1.0;
    assert (M - 1.0) * (load - longest) == (M - 1.0) * load - (M - 1.0) * longest;
    assert (M - 1.0) * load == M * load - load;
  }

  lemma TwiceArithmetic(m: nat, load: real, total: real, C: real)
    requires WithinAverage(load, m, total, C) && total <= Times(m, C)
    ensures WithinTwice(load, m, C)
  {
  }

  lemma FitsArithmetic(m: nat, load: real, C: real)
    requires m > 0 && C >= 0.0 && load <= C
    ensures WithinFourThirds(load, m, C)
  {
    var M := m as real;
    assert M >= 1.0;
    Scale(M, load, C);
    Scale(M - 1.0, 0.0, C);
  }

  lemma Scale(k: real, a: real, b: real)
    requires k >= 0.0 && a <= b
    ensures k * a <= k * b
  {
  }

  lemma ShortChunkArithmetic(m: nat, least: real, x: real, before: real, C: real)
    requires m > 0 && 3.0 * x <= C && Times(m, least) <= before && before + x <= Times(m, C)
    ensures WithinFourThirds(least + x, m, C)
  {
    var M := m as real;
    assert M >= 1.0;
    Scale(M - 1.0, 3.0 * x, C);
    assert M * (least + x) == M * least + x + (M - 1.0) * x;
  }

  // ------------------------------------------------------- the balance of loads

  ghost predicate NonNegative(p: seq<real>) {
    forall i :: 0 <= i < |p| ==> p[i] >= 0.0
  }

  /** No two workers ever differ by more than the longest chunk. */
  lemma {:induction false} GreedyBalance(p: seq<real>, m: nat, longest: real)
    requires m > 0 && NonNegative(p) && longest >= 0.0
    requires forall i :: 0 <= i < |p| ==> p[i] <= longest
    ensures forall q, r :: 0 <= q < m && 0 <= r < m ==> Load(p, Choices(p, m), q) - Load(p, Choices(p, m), r) <= longest
  {
    if p != [] {
      var front := p[..|p| - 1];
      GreedyBalance(front, m, longest);
      GreedyStep(p, m);
      forall q, r | 0 <= q < m && 0 <= r < m
        ensures Load(p, Choices(p, m), q) - Load(p, Choices(p, m), r) <= longest
      {
        assert Load(front, Choices(front, m), q) - Load(front, Choices(front, m), r) <= longest;
      }
    }
  }

  // The last chunk goes to a least loaded worker and changes no other load.
  lemma GreedyStep(p: seq<real>, m: nat)
    requires m > 0 && p != []
    ensures var front := p[..|p| - 1];
            var w := Choices(p, m)[|p| - 1];
            && (forall q :: 0 <= q < m ==> Load(front, Choices(front, m), w) <= Load(front, Choices(front, m), q))
            && (forall q :: 0 <= q < m ==>
                  (Load(p, Choices(p, m), q) == Load(front, Choices(front, m), q) + if q == w then p[|p| - 1] else 0.0))
  {
    var front := p[..|p| - 1];
    var before := Choices(front, m);
    var v := LoadVector(front, before, m);
    assert Choices(p, m)[..|p| - 1] == before;
    forall q | 0 <= q < m
      ensures Load(front, before, Choices(p, m)[|p| - 1]) <= Load(front, before, q)
    {
      assert v[LeastLoaded(v)] <= v[q];
    }
  }

  /** No load exceeds total / m + (1 - 1/m) longest. */
  lemma GreedyAverageBound(p: seq<real>, m: nat, longest: real, q: nat)
    requires m > 0 && NonNegative(p) && longest >= 0.0 && q < m
    requires forall i :: 0 <= i < |p| ==> p[i] <= longest
    ensures WithinAverage(Load(p, Choices(p, m), q), m, Sum(p), longest)
  {
    var a := Choices(p, m);
    var top := Load(p, a, q);
    GreedyBalance(p, m, longest);
    LoadsSumToTotal(p, a, m);
    TotalAtLeastExcept(p, a, m, q, top - longest);
    AverageArithmetic(m, top, Sum(p), longest);
  }

  lemma {:induction false} TotalAtLeastExcept(p: seq<real>, a: seq<nat>, m: nat, q: nat, bound: real)
    requires |a| == |p| && q < m
    requires forall r: nat :: r < m ==> Load(p, a, r) >= bound
    ensures TotalLoad(p, a, m) >= Times(m - 1, bound) + Load(p, a, q)
  {
    if q == m - 1 {
      TotalAtLeast(p, a, m - 1, bound);
    } else {
      TotalAtLeastExcept(p, a, m - 1, q, bound);
      assert Times(m - 1, bound) == Times(m - 2, bound) + bound;
    }
  }

  // ----------------------------------------------------------- any order: 2 - 1/m

  lemma {:induction false} LoadNonNegative(p: seq<real>, a: seq<nat>, q: nat)
    requires |a| == |p| && NonNegative(p)
    ensures Load(p, a, q) >= 0.0
  {
    if p != [] { LoadNonNegative(p[..|p| - 1], a[..|p| - 1], q); }
  }

  lemma {:induction false} ChunkWithinLoad(p: seq<real>, a: seq<nat>, i: nat)
    requires |a| == |p| && NonNegative(p) && i < |p|
    ensures p[i] <= Load(p, a, a[i])
  {
    var k := |p| - 1;
    if i == k {
      LoadNonNegative(p[..k], a[..k], a[i]);
    } else {
      assert a[..k][i] == a[i] && p[..k][i] == p[i];
      ChunkWithinLoad(p[..k], a[..k], i);
    }
  }

  /** No worker's greedy load exceeds (2 - 1/m) times the makespan C of any assignment. */
  lemma GreedyWithinTwice(p: seq<real>, m: nat, q: nat, other: seq<nat>, C: real)
    requires m > 0 && NonNegative(p) && q < m
    requires IsAssignment(other, |p|, m)
    requires forall r: nat :: r < m ==> Load(p, other, r) <= C
    ensures WithinTwice(Load(p, Choices(p, m), q), m, C)
  {
    MakespanNonNegative(p, other, m, C);
    forall i | 0 <= i < |p| ensures p[i] <= C {
      ChunkWithinLoad(p, other, i);
    }
    GreedyAverageBound(p, m, C, q);
    LoadsSumToTotal(p, other, m);
    TotalAtMost(p, other, m, C);
    TwiceArithmetic(m, Load(p, Choices(p, m), q), Sum(p), C);
  }

  // ------------------------------------------------- longest first: 4/3 - 1/(3m)

  /** A chunk longer than d counts twice. */
  function Weights(p: seq<real>, d: real): (w: seq<real>)
    ensures |w| == |p|
  {
    seq(|p|, i requires 0 <= i < |p| => if p[i] > d then 2.0 else 1.0)
  }

  lemma WeightsFront(p: seq<real>, d: real)
    requires p != []
    ensures Weights(p, d)[..|p| - 1] == Weights(p[..|p| - 1], d)
  {
  }

  // When every chunk takes at least x and d < 2x, the weight a worker carries tells its load:
  // weight 1 is at least x, weight 2 is more than d, weight 3 or more is more than d + x.
  lemma {:induction false} LoadFromWeight(p: seq<real>, a: seq<nat>, q: nat, d: real, x: real)
    requires |a| == |p| && x >= 0.0 && d < 2.0 * x
    requires forall i :: 0 <= i < |p| ==> p[i] >= x
    ensures var w, s := Load(Weights(p, d), a, q), Load(p, a, q);
            (w == 0.0 && s == 0.0) || (w == 1.0 && s >= x) || (w == 2.0 && s > d) || (w >= 3.0 && s > d + x)
  {
    if p != [] {
      WeightsFront(p, d);
      LoadFromWeight(p[..|p| - 1], a[..|p| - 1], q, d, x);
    }
  }

  // A worker whose load exceeds d carries weight 2 at least.
  lemma {:induction false} WeightFromLoad(p: seq<real>, a: seq<nat>, q: nat, d: real)
    requires |a| == |p| && d >= 0.0
    ensures var w, s := Load(Weights(p, d), a, q), Load(p, a, q);
            (w == 0.0 && s == 0.0) || (w == 1.0 && s <= d) || w >= 2.0
  {
    if p != [] {
      WeightsFront(p, d);
      WeightFromLoad(p[..|p| - 1], a[..|p| - 1], q, d);
    }
  }

  lemma {:induction false} PrefixLoad(p: seq<real>, a: seq<nat>, q: nat, k: nat)
    requires |a| == |p| && NonNegative(p) && k <= |p|
    ensures Load(p[..k], a[..k], q) <= Load(p, a, q)
  {
    if k < |p| {
      PrefixLoad(p[..|p| - 1], a[..|p| - 1], q, k);
      assert p[..|p| - 1][..k] == p[..k] && a[..|p| - 1][..k] == a[..k];
    } else {
      assert p[..k] == p && a[..k] == a;
    }
  }

  // The counting argument.  Were every worker loaded beyond C - x when a last chunk of length
  // x > C/3 arrives, the earlier chunks would weigh 2m or more; but the assignment within C
  // holds all of them and the last one, in weight at most 2 a worker.
  lemma SomeWorkerHasRoom(p: seq<real>, a: seq<nat>, other: seq<nat>, m: nat, C: real)
    requires m > 0 && p != [] && IsAssignment(a, |p| - 1, m) && IsAssignment(other, |p|, m)
    requires forall i :: 0 <= i < |p| ==> p[i] >= p[|p| - 1]
    requires forall r: nat :: r < m ==> Load(p, other, r) <= C
    requires 0.0 <= C < 3.0 * p[|p| - 1]
    ensures var front := p[..|p| - 1]; exists r: nat :: r < m && Load(front, a, r) <= C - p[|p| - 1]
  {
    var x := p[|p| - 1];
    var d := C - x;
    var front := p[..|p| - 1];
    if forall r: nat :: r < m ==> Load(front, a, r) > d {
      ChunkWithinLoad(p, other, |p| - 1);
      forall r: nat | r < m ensures Load(Weights(front, d), a, r) >= 2.0 {
        WeightFromLoad(front, a, r, d);
        assert Load(front, a, r) > d;
      }
      TotalAtLeast(Weights(front, d), a, m, 2.0);
      LoadsSumToTotal(Weights(front, d), a, m);
      forall r: nat | r < m ensures Load(Weights(p, d), other, r) <= 2.0 {
        LoadFromWeight(p, other, r, d, x);
        assert Load(p, other, r) <= C;
      }
      TotalAtMost(Weights(p, d), other, m, 2.0);
      LoadsSumToTotal(Weights(p, d), other, m);
      WeightsFront(p, d);
      assert false;
    }
  }

  // Placing the last chunk keeps its worker within (4/3 - 1/(3m)) C.
  lemma LastPlacement(p: seq<real>, m: nat, other: seq<nat>, C: real)
    requires m > 0 && p != [] && NonNegative(p) && IsAssignment(other, |p|, m)
    requires forall i :: 0 <= i < |p| ==> p[i] >= p[|p| - 1]
    requires forall r: nat :: r < m ==> Load(p, other, r) <= C
    ensures var front := p[..|p| - 1];
            var least := Load(front, Choices(front, m), Choices(p, m)[|p| - 1]);
            WithinFourThirds(least + p[|p| - 1], m, C)
  {
    var front := p[..|p| - 1];
    var a := Choices(front, m);
    var least := Load(front, a, Choices(p, m)[|p| - 1]);
    GreedyStep(p, m);
    MakespanNonNegative(p, other, m, C);
    if C < 3.0 * p[|p| - 1] {
      LongChunkPlacement(p, a, other, m, least, C);
    } else {
      ShortChunkPlacement(p, a, other, m, least, C);
    }
  }

  lemma LongChunkPlacement(p: seq<real>, a: seq<nat>, other: seq<nat>, m: nat, least: real, C: real)
    requires m > 0 && p != [] && IsAssignment(a, |p| - 1, m) && IsAssignment(other, |p|, m)
    requires forall i :: 0 <= i < |p| ==> p[i] >= p[|p| - 1]
    requires var front := p[..|p| - 1]; forall r: nat :: r < m ==> Load(front, a, r) >= least
    requires forall r: nat :: r < m ==> Load(p, other, r) <= C
    requires 0.0 <= C < 3.0 * p[|p| - 1]
    ensures WithinFourThirds(least + p[|p| - 1], m, C)
  {
    SomeWorkerHasRoom(p, a, other, m, C);
    var r: nat :| r < m && Load(p[..|p| - 1], a, r) <= C - p[|p| - 1];
    FitsArithmetic(m, least + p[|p| - 1], C);
  }

  lemma ShortChunkPlacement(p: seq<real>, a: seq<nat>, other: seq<nat>, m: nat, least: real, C: real)
    requires m > 0 && p != [] && IsAssignment(a, |p| - 1, m) && IsAssignment(other, |p|, m)
    requires var front := p[..|p| - 1]; forall r: nat :: r < m ==> Load(front, a, r) >= least
    requires forall r: nat :: r < m ==> Load(p, other, r) <= C
    requires 3.0 * p[|p| - 1] <= C
    ensures WithinFourThirds(least + p[|p| - 1], m, C)
  {
    AverageRoom(p, a, other, m, least, C);
    ShortChunkArithmetic(m, least, p[|p| - 1], Sum(p[..|p| - 1]), C);
  }

  lemma AverageRoom(p: seq<real>, a: seq<nat>, other: seq<nat>, m: nat, least: real, C: real)
    requires m > 0 && p != [] && IsAssignment(a, |p| - 1, m) && IsAssignment(other, |p|, m)
    requires var front := p[..|p| - 1]; forall r: nat :: r < m ==> Load(front, a, r) >= least
    requires forall r: nat :: r < m ==> Load(p, other, r) <= C
    ensures Times(m, least) <= Sum(p[..|p| - 1]) && Sum(p[..|p| - 1]) + p[|p| - 1] <= Times(m, C)
  {
    LoadsSumToTotal(p[..|p| - 1], a, m);
    TotalAtLeast(p[..|p| - 1], a, m, least);
    LoadsSumToTotal(p, other, m);
    TotalAtMost(p, other, m, C);
  }

  lemma MakespanNonNegative(p: seq<real>, a: seq<nat>, m: nat, C: real)
    requires m > 0 && NonNegative(p) && |a| == |p|
    requires forall r: nat :: r < m ==> Load(p, a, r) <= C
    ensures C >= 0.0
  {
    LoadNonNegative(p, a, 0);
    assert Load(p, a, 0) <= C;
  }

  ghost predicate Descending(p: seq<real>) {
    forall i, j :: 0 <= i < j < |p| ==> p[i] >= p[j]
  }

  /**
  Longest chunk first: no worker's load exceeds (4/3 - 1/(3m)) times the makespan C of any
  assignment of the same chunks.
  */
  lemma {:induction false} LongestFirstWithinFourThirds(p: seq<real>, m: nat, q: nat, other: seq<nat>, C: real)
    requires m > 0 && NonNegative(p) && Descending(p) && q < m
    requires IsAssignment(other, |p|, m)
    requires forall r: nat :: r < m ==> Load(p, other, r) <= C
    ensures WithinFourThirds(Load(p, Choices(p, m), q), m, C)
  {
    if p == [] {
      MakespanNonNegative(p, other, m, C);
      FitsArithmetic(m, 0.0, C);
    } else {
      var k := |p| - 1;
      GreedyStep(p, m);
      if q == Choices(p, m)[k] {
        LastPlacement(p, m, other, C);
      } else {
        forall r: nat | r < m ensures Load(p[..k], other[..k], r) <= C {
          PrefixLoad(p, other, r, k);
          assert Load(p, other, r) <= C;
        }
        LongestFirstWithinFourThirds(p[..k], m, q, other[..k], C);
        assert Load(p, Choices(p, m), q) == Load(p[..k], Choices(p[..k], m), q);
      }
    }
  }

  // ------------------------------------------------------ the simulator's loops

  /** What sort.Slice may leave in sortedChunkIdx: any permutation, longest chunk first. */
  ghost predicate LongestFirst(order: seq<nat>, times: seq<real>) {
    && multiset(order) == multiset(seq(|times|, i => i))
    && (forall k :: 0 <= k < |order| ==> order[k] < |times|)
    && (forall i, j :: 0 <= i < j < |order| ==> times[order[i]] >= times[order[j]])
  }

  function Reorder<A>(order: seq<nat>, items: seq<A>): (s: seq<A>)
    requires forall k :: 0 <= k < |order| ==> order[k] < |items|
    ensures |s| == |order|
  {
    seq(|order|, k requires 0 <= k < |order| => items[order[k]])
  }

  /** What a chunk costs its worker: with a crash, the recovery and a retry on top. */
  function Cost(time: real, crash: Option<real>): real {
    match crash
    case None => time
    case Some(recovery) => time + recovery + time
  }

  function Costs(order: seq<nat>, times: seq<real>, crashes: seq<Option<real>>): (p: seq<real>)
    requires |crashes| == |order| && forall k :: 0 <= k < |order| ==> order[k] < |times|
    ensures |p| == |order|
  {
    seq(|order|, k requires 0 <= k < |order| => Cost(times[order[k]], crashes[k]))
  }

  lemma CostsStep(order: seq<nat>, times: seq<real>, crashes: seq<Option<real>>, k: nat)
    requires |crashes| == |order| && forall j :: 0 <= j < |order| ==> order[j] < |times|
    requires k < |order|
    ensures Costs(order, times, crashes)[..k + 1]
         == Costs(order, times, crashes)[..k] + [Cost(times[order[k]], crashes[k])]
  {
  }

  lemma NoCrashes(order: seq<nat>, times: seq<real>, crashes: seq<Option<real>>)
    requires |crashes| == |order| && forall k :: 0 <= k < |order| ==> order[k] < |times| && crashes[k].None?
    ensures Costs(order, times, crashes) == Reorder(order, times)
  {
  }

  /** What the crashes add, chunk by chunk: the recovery and the chunk's time once more. */
  function CrashCosts(order: seq<nat>, times: seq<real>, crashes: seq<Option<real>>): (x: seq<real>)
    requires |crashes| == |order| && forall k :: 0 <= k < |order| ==> order[k] < |times|
    ensures |x| == |order|
  {
    seq(|order|, k requires 0 <= k < |order| =>
      if crashes[k].Some? then crashes[k].value + times[order[k]] else 0.0)
  }

  lemma {:induction false} LoadAdds(p: seq<real>, t: seq<real>, x: seq<real>, a: seq<nat>, q: nat)
    requires |p| == |t| == |x| == |a| && forall k :: 0 <= k < |p| ==> p[k] == t[k] + x[k]
    ensures Load(p, a, q) == Load(t, a, q) + Load(x, a, q)
  {
    if p != [] {
      var n := |p| - 1;
      assert forall k :: 0 <= k < n ==> p[..n][k] == t[..n][k] + x[..n][k];
      LoadAdds(p[..n], t[..n], x[..n], a[..n], q);
    }
  }

  /** Whatever the assignment, a worker's load is the time of its chunks and what their crashes add. */
  lemma CrashesAddUp(order: seq<nat>, times: seq<real>, crashes: seq<Option<real>>, a: seq<nat>, q: nat)
    requires |crashes| == |order| == |a| && forall k :: 0 <= k < |order| ==> order[k] < |times|
    ensures Load(Costs(order, times, crashes), a, q)
         == Load(Reorder(order, times), a, q) + Load(CrashCosts(order, times, crashes), a, q)
  {
    LoadAdds(Costs(order, times, crashes), Reorder(order, times), CrashCosts(order, times, crashes), a, q);
  }

  ghost predicate Completed(tasks: seq<nat>, p: seq<real>, m: nat)
    requires m > 0
  {
    |tasks| == m && forall q: nat :: q < m ==> tasks[q] == multiset(Choices(p, m))[q]
  }

  /** The assignment loop and the duration of the map phase; `crashes` says which chunks crash. */
  method SimulateMapPhase(times: seq<real>, numWorkers: nat, order: seq<nat>, crashes: seq<Option<real>>)
    returns (workerLoad: array<real>, tasksCompleted: array<nat>, mapDuration: real)
    requires numWorkers > 0 && LongestFirst(order, times) && |crashes| == |order|
    ensures fresh(workerLoad) && fresh(tasksCompleted)
    ensures var p := Costs(order, times, crashes);
            workerLoad[..] == LoadVector(p, Choices(p, numWorkers), numWorkers)
                && Completed(tasksCompleted[..], p, numWorkers)
    ensures mapDuration >= 0.0 && forall q :: 0 <= q < workerLoad.Length ==> workerLoad[q] <= mapDuration
    ensures mapDuration == 0.0 || exists q :: 0 <= q < workerLoad.Length && workerLoad[q] == mapDuration
  {
    workerLoad := new real[numWorkers](_ => 0.0);
    tasksCompleted := new nat[numWorkers](_ => 0);
    AssignChunks(workerLoad, tasksCompleted, times, order, crashes);
    AssignedLoads(workerLoad[..], tasksCompleted[..], Costs(order, times, crashes), numWorkers);
    mapDuration := LongestLoad(workerLoad);
  }

  /** The greedy rule has placed the chunks of costs p. */
  ghost predicate Assigned(load: seq<real>, tasks: seq<nat>, p: seq<real>, m: nat)
    requires m > 0
  {
    IsLoadVector(load, p, m) && Completed(tasks, p, m)
  }

  lemma NothingAssigned(load: seq<real>, tasks: seq<nat>, m: nat)
    requires m > 0 && |load| == |tasks| == m && forall q :: 0 <= q < m ==> load[q] == 0.0 && tasks[q] == 0
    ensures Assigned(load, tasks, [], m)
  {
  }

  lemma AssignedLoads(load: seq<real>, tasks: seq<nat>, p: seq<real>, m: nat)
    requires m > 0 && Assigned(load, tasks, p, m)
    ensures load == LoadVector(p, Choices(p, m), m) && Completed(tasks, p, m)
  {
  }

  // The assignment loop.
  method AssignChunks(workerLoad: array<real>, tasksCompleted: array<nat>,
      times: seq<real>, order: seq<nat>, crashes: seq<Option<real>>)
    requires 0 < workerLoad.Length == tasksCompleted.Length && |crashes| == |order|
    requires forall k :: 0 <= k < |order| ==> order[k] < |times|
    requires forall q :: 0 <= q < workerLoad.Length ==> workerLoad[q] == 0.0 && tasksCompleted[q] == 0
    modifies workerLoad, tasksCompleted
    ensures Assigned(workerLoad[..], tasksCompleted[..], Costs(order, times, crashes), workerLoad.Length)
  {
    ghost var p := Costs(order, times, crashes);
    NothingAssigned(workerLoad[..], tasksCompleted[..], workerLoad.Length);
    assert p[..0] == [];
    for k := 0 to |order|
      invariant Assigned(workerLoad[..], tasksCompleted[..], p[..k], workerLoad.Length)
    {
      CostsStep(order, times, crashes, k);
      AssignChunk(workerLoad, tasksCompleted, times[order[k]], crashes[k], p[..k]);
    }
    assert p[..|order|] == p;
  }

  // One turn of the assignment loop, after chunks of costs p.
  method AssignChunk(workerLoad: array<real>, tasksCompleted: array<nat>, time: real, crash: Option<real>,
      ghost p: seq<real>)
    requires workerLoad.Length > 0 && Assigned(workerLoad[..], tasksCompleted[..], p, workerLoad.Length)
    modifies workerLoad, tasksCompleted
    ensures Assigned(workerLoad[..], tasksCompleted[..], p + [Cost(time, crash)], workerLoad.Length)
  {
    var minW := FindLeastLoaded(workerLoad);
    PlaceNext(workerLoad[..], p, Cost(time, crash), workerLoad.Length, minW);
    CompleteNext(tasksCompleted[..], p, Cost(time, crash), workerLoad.Length, minW);
    AddCost(workerLoad, minW, time, crash);
    tasksCompleted[minW] := tasksCompleted[minW] + 1;
  }

  method AddCost(workerLoad: array<real>, w: nat, time: real, crash: Option<real>)
    requires w < workerLoad.Length
    modifies workerLoad
    ensures workerLoad[..] == old(workerLoad[..])[w := old(workerLoad[w]) + Cost(time, crash)]
    ensures crash.None? ==> workerLoad[w] == old(workerLoad[w]) + time
    ensures crash.Some? ==> workerLoad[w] == old(workerLoad[w]) + crash.value + 2.0 * time
  {
    workerLoad[w] := workerLoad[w] + time;
    if crash.Some? {
      workerLoad[w] := workerLoad[w] + crash.value;
      workerLoad[w] := workerLoad[w] + time;
    }
  }

  lemma CompleteNext(tasks: seq<nat>, p: seq<real>, x: real, m: nat, w: nat)
    requires m > 0 && w < m && Completed(tasks, p, m) && Choices(p + [x], m) == Choices(p, m) + [w]
    ensures Completed(tasks[w := tasks[w] + 1], p + [x], m)
  {
    forall q: nat | q < m ensures tasks[w := tasks[w] + 1][q] == multiset(Choices(p + [x], m))[q] {
      Permutations.CountAppend(Choices(p, m), w, q);
    }
  }

  method FindLeastLoaded(workerLoad: array<real>) returns (minW: nat)
    requires workerLoad.Length > 0
    ensures minW < workerLoad.Length
    ensures forall q :: 0 <= q < workerLoad.Length ==> workerLoad[minW] <= workerLoad[q]
    ensures forall q :: 0 <= q < minW ==> workerLoad[minW] < workerLoad[q]
  {
    minW := 0;
    for w := 1 to workerLoad.Length
      invariant 0 <= minW < w
      invariant forall q :: 0 <= q < w ==> workerLoad[minW] <= workerLoad[q]
      invariant forall q :: 0 <= q < minW ==> workerLoad[minW] < workerLoad[q]
    {
      if workerLoad[w] < workerLoad[minW] {
        minW := w;
      }
    }
  }

  method LongestLoad(workerLoad: array<real>) returns (mapDuration: real)
    ensures mapDuration >= 0.0 && forall q :: 0 <= q < workerLoad.Length ==> workerLoad[q] <= mapDuration
    ensures mapDuration == 0.0 || exists q :: 0 <= q < workerLoad.Length && workerLoad[q] == mapDuration
  {
    mapDuration := 0.0;
    for q := 0 to workerLoad.Length
      invariant mapDuration >= 0.0 && forall r :: 0 <= r < q ==> workerLoad[r] <= mapDuration
      invariant mapDuration == 0.0 || exists r :: 0 <= r < q && workerLoad[r] == mapDuration
    {
      if workerLoad[q] > mapDuration {
        mapDuration := workerLoad[q];
      }
    }
  }

  ghost predicate IsLoadVector(load: seq<real>, p: seq<real>, m: nat)
    requires m > 0
  {
    |load| == m && forall q :: 0 <= q < m ==> load[q] == Load(p, Choices(p, m), q)
  }

  lemma PlaceNext(load: seq<real>, p: seq<real>, x: real, m: nat, w: nat)
    requires m > 0 && w < m && IsLoadVector(load, p, m)
    requires forall q :: 0 <= q < m ==> load[w] <= load[q]
    requires forall q :: 0 <= q < w ==> load[w] < load[q]
    ensures IsLoadVector(load[w := load[w] + x], p + [x], m)
    ensures Choices(p + [x], m) == Choices(p, m) + [w]
  {
    var p' := p + [x];
    assert p'[..|p|] == p;
    GreedyStep(p', m);
    assert load == LoadVector(p, Choices(p, m), m);
    SameLeast(load, w);
  }

  lemma SameLeast(load: seq<real>, w: nat)
    requires w < |load|
    requires forall q :: 0 <= q < |load| ==> load[w] <= load[q]
    requires forall q :: 0 <= q < w ==> load[w] < load[q]
    ensures w == LeastLoaded(load)
  {
  }

  // -------------------------- assignments of the chunks in their original order

  function SumOver(order: seq<nat>, times: seq<real>, b: seq<nat>, q: nat): real
    requires |b| == |times| && forall k :: 0 <= k < |order| ==> order[k] < |times|
  {
    if order == [] then 0.0
    else
      var j := order[|order| - 1];
      SumOver(order[..|order| - 1], times, b, q) + if b[j] == q then times[j] else 0.0
  }

  lemma SumOverLast(order: seq<nat>, times: seq<real>, b: seq<nat>, q: nat)
    requires |b| == |times| && order != [] && forall i :: 0 <= i < |order| ==> order[i] < |times|
    ensures var j := order[|order| - 1];
            SumOver(order, times, b, q)
            == SumOver(order[..|order| - 1], times, b, q) + if b[j] == q then times[j] else 0.0
  {
  }

  lemma {:induction false} SumOverRemove(order: seq<nat>, times: seq<real>, b: seq<nat>, q: nat, k: nat)
    requires |b| == |times| && k < |order|
    requires forall i :: 0 <= i < |order| ==> order[i] < |times|
    ensures SumOver(order, times, b, q)
         == SumOver(order[..k] + order[k + 1..], times, b, q) + if b[order[k]] == q then times[order[k]] else 0.0
  {
    var last := |order| - 1;
    if k == last {
      assert order[..k] + order[k + 1..] == order[..last];
    } else {
      var front := order[..last];
      assert front[k] == order[k];
      SumOverRemove(front, times, b, q, k);
      var rest := order[..k] + order[k + 1..];
      assert rest[..|rest| - 1] == front[..k] + front[k + 1..];
      assert rest[|rest| - 1] == order[last];
      SumOverLast(order, times, b, q);
      SumOverLast(rest, times, b, q);
    }
  }

  lemma {:induction false} SumOverPermutation(s: seq<nat>, t: seq<nat>, times: seq<real>, b: seq<nat>, q: nat)
    requires |b| == |times| && multiset(s) == multiset(t)
    requires forall i :: 0 <= i < |s| ==> s[i] < |times|
    requires forall i :: 0 <= i < |t| ==> t[i] < |times|
    ensures SumOver(s, times, b, q) == SumOver(t, times, b, q)
    decreases |s|
  {
    Permutations.SameLength(s, t);
    if s != [] {
      var k := Permutations.DropLast(s, t);
      SumOverPermutation(s[..|s| - 1], t[..k] + t[k + 1..], times, b, q);
      SumOverRemove(t, times, b, q, k);
    }
  }

  lemma {:induction false} LoadIsSumOver(order: seq<nat>, times: seq<real>, b: seq<nat>, q: nat)
    requires |b| == |times| && forall k :: 0 <= k < |order| ==> order[k] < |times|
    ensures Load(Reorder(order, times), Reorder(order, b), q) == SumOver(order, times, b, q)
  {
    if order != [] {
      var front := order[..|order| - 1];
      LoadIsSumOver(front, times, b, q);
      assert Reorder(order, times)[..|order| - 1] == Reorder(front, times);
      assert Reorder(order, b)[..|order| - 1] == Reorder(front, b);
    }
  }

  /** Reordering the chunks changes no worker's load. */
  lemma ReorderKeepsLoads(order: seq<nat>, times: seq<real>, b: seq<nat>, q: nat)
    requires |b| == |times| && LongestFirst(order, times)
    ensures Load(Reorder(order, times), Reorder(order, b), q) == Load(times, b, q)
  {
    var identity := seq(|times|, i => i);
    LoadIsSumOver(order, times, b, q);
    LoadIsSumOver(identity, times, b, q);
    SumOverPermutation(order, identity, times, b, q);
    assert Reorder(identity, times) == times && Reorder(identity, b) == b;
  }

  /**
  Without crashes, for any assignment b of the chunks to the workers, with makespan at most C,
  the duration the simulator reports is at most (4/3 - 1/(3m)) C.
  */
  lemma DurationWithinFourThirds(
      times: seq<real>, m: nat, order: seq<nat>, crashes: seq<Option<real>>, duration: real, b: seq<nat>, C: real)
    requires m > 0 && NonNegative(times) && LongestFirst(order, times)
    requires |crashes| == |order| && forall k :: 0 <= k < |order| ==> crashes[k].None?
    requires var p := Costs(order, times, crashes);
             duration == 0.0 || exists q: nat :: q < m && duration == Load(p, Choices(p, m), q)
    requires IsAssignment(b, |times|, m) && forall r: nat :: r < m ==> Load(times, b, r) <= C
    ensures WithinFourThirds(duration, m, C)
  {
    NoCrashes(order, times, crashes);
    var p, other := Reorder(order, times), Reorder(order, b);
    Permutations.SameLength(order, seq(|times|, i => i));
    forall r: nat | r < m ensures Load(p, other, r) <= C {
      ReorderKeepsLoads(order, times, b, r);
      assert Load(times, b, r) <= C;
    }
    if duration == 0.0 {
      MakespanNonNegative(times, b, m, C);
      FitsArithmetic(m, duration, C);
    } else {
      var q: nat :| q < m && duration == Load(p, Choices(p, m), q);
      LongestFirstWithinFourThirds(p, m, q, other, C);
    }
  }

  /** With crashes, the duration is at most (2 - 1/m) times the makespan of any assignment of the same costs. */
  lemma DurationWithinTwice(p: seq<real>, m: nat, duration: real, other: seq<nat>, C: real)
    requires m > 0 && NonNegative(p)
    requires duration == 0.0 || exists q: nat :: q < m && duration == Load(p, Choices(p, m), q)
    requires IsAssignment(other, |p|, m) && forall r: nat :: r < m ==> Load(p, other, r) <= C
    ensures WithinTwice(duration, m, C)
  {
    if q: nat :| q < m && duration == Load(p, Choices(p, m), q) {
      GreedyWithinTwice(p, m, q, other, C);
    } else {
      MakespanNonNegative(p, other, m, C);
      FitsTwice(m, C);
    }
  }

  lemma FitsTwice(m: nat, C: real)
    requires m > 0 && C >= 0.0
    ensures WithinTwice(0.0, m, C)
  {
    Scale(m as real, 0.0, C);
    Scale(m as real - 1.0, 0.0, C);
  }
}
