/** Reconstructing the parallelism of a build from its log: which worker ran which target. */
module NinjaWorkers {

  /** A target is alive from its start to just before its end. */
  datatype Target = Target(start: int, end: int)

  predicate Alive(t: Target, instant: int) {
    t.start <= instant < t.end
  }

  function AliveAt(targets: seq<Target>, instant: int): set<nat> {
    set i: nat | i < |targets| && Alive(targets[i], instant)
  }

  predicate Disjoint(s: Target, t: Target) {
    s.end <= t.start || t.end <= s.start
  }

  // ----- Counting.

  ghost predicate Distinct(s: seq<nat>) {
    forall i, j :: 0 <= i < j < |s| ==> s[i] != s[j]
  }

  /** A set is at least as large as a list of different elements of it. */
  lemma {:induction false} DistinctInSet(s: seq<nat>, a: set<nat>)
    requires Distinct(s) && forall i :: 0 <= i < |s| ==> s[i] in a
    ensures |s| <= |a|
  {
    if s != [] {
      var n := |s| - 1;
      DistinctInSet(s[..n], a - {s[n]});
    }
  }

  /** Elements with different numbers below n are at most n. */
  lemma {:induction false} FewNumbers(a: set<nat>, number: seq<nat>, n: nat)
    requires forall i :: i in a ==> i < |number| && number[i] < n
    requires forall i, j :: i in a && j in a && i != j ==> number[i] != number[j]
    ensures |a| <= n
  {
    if n == 0 {
      assert a == {};
    } else if i :| i in a && number[i] == n - 1 {
      FewNumbers(a - {i}, number, n - 1);
    } else {
      FewNumbers(a, number, n - 1);
    }
  }

  // ----- The allocator.

  class Threads {
    /** The start of the last target of each worker. */
    var workers: seq<int>

    /** The targets so far, the worker of each, and the last target of each worker. */
    ghost var targets: seq<Target>
    ghost var placed: seq<nat>
    ghost var last: seq<nat>

    /** As many targets as there are workers, any two of which need different ones, and an instant. */
    ghost var crowd: seq<nat>
    ghost var peak: int

    ghost predicate Valid()
      reads this
    {
      && |placed| == |targets| && |last| == |workers| == |crowd| && Listed(targets)
      && (forall i :: 0 <= i < |targets| ==> placed[i] < |workers|)
      && Lasts(targets, placed, last, workers)
      && NoOverlap(targets, placed) && LastComesFirst(targets, placed, workers)
      && Crowded(targets, crowd, peak)
    }

    constructor ()
      ensures Valid() && workers == [] && targets == []
    {
      workers, targets, placed, last, peak, crowd := [], [], [], [], 0, [];
    }

    /** Place a target with a worker that is free until its end, or with a new one. */
    method Alloc(target: Target) returns (worker: nat)
      requires Valid() && Listed(targets + [target])
      modifies this
      ensures Valid() && targets == old(targets) + [target] && placed == old(placed) + [worker]
      ensures worker < |workers| && |old(workers)| <= |workers| <= |old(workers)| + 1
      ensures |workers| > |old(workers)| <==> forall w :: 0 <= w < |old(workers)| ==> old(workers)[w] < target.end
      ensures forall w :: 0 <= w < worker ==> old(workers)[w] < target.end
      ensures worker < |old(workers)| ==> workers == old(workers)[worker := target.start]
      ensures worker >= |old(workers)| ==> workers == old(workers) + [target.start]
    {
      worker := 0;
      while worker < |workers|
        invariant 0 <= worker <= |workers|
        invariant forall w :: 0 <= w < worker ==> workers[w] < target.end
      {
        if workers[worker] >= target.end {
          Take(worker, target);
          return;
        }
        worker := worker + 1;
      }
      Hire(target);
    }

    /** A worker takes a target that ends before all its others start. */
    method Take(worker: nat, target: Target)
      requires Valid() && Listed(targets + [target]) && worker < |workers| && workers[worker] >= target.end
      modifies this
      ensures Valid() && targets == old(targets) + [target] && placed == old(placed) + [worker]
      ensures workers == old(workers)[worker := target.start]
    {
      ListedLast(targets, target);
      CrowdStays(targets, target, crowd, peak);
      PlacedNext(targets, target, placed, worker, workers, workers[worker := target.start]);
      LastsNext(targets, target, placed, worker, last, workers);
      workers := workers[worker := target.start];
      last := last[worker := |targets|];
      targets, placed := targets + [target], placed + [worker];
    }

    /** If no worker is free there is a new one. */
    method Hire(target: Target)
      requires Valid() && Listed(targets + [target])
      requires forall w :: 0 <= w < |workers| ==> workers[w] < target.end
      modifies this
      ensures Valid() && targets == old(targets) + [target] && placed == old(placed) + [|old(workers)|]
      ensures workers == old(workers) + [target.start]
    {
      ListedLast(targets, target);
      NewCrowd(targets, target, placed, last, workers);
      PlacedNext(targets, target, placed, |workers|, workers, workers + [target.start]);
      LastsNext(targets, target, placed, |workers|, last, workers);
      last, placed := last + [|targets|], placed + [|workers|];
      workers, targets := workers + [target.start], targets + [target];
      crowd, peak := last, target.end - 1;
    }

    /** No two targets of one worker are alive at the same time. */
    lemma NeverTwoAtOnce(i: nat, j: nat)
      requires Valid() && i < |targets| && j < |targets| && i != j && placed[i] == placed[j]
      ensures Disjoint(targets[i], targets[j])
    {
      if i < j {
        assert Follows(targets, placed, i, j);
      } else {
        assert Follows(targets, placed, j, i);
      }
    }

    lemma EnoughAt(instant: int)
      requires Valid()
      ensures |AliveAt(targets, instant)| <= |workers|
    {
      var a := AliveAt(targets, instant);
      forall i, j | i in a && j in a && i != j
        ensures placed[i] != placed[j]
      {
        if placed[i] == placed[j] {
          NeverTwoAtOnce(i, j);
        }
      }
      FewNumbers(a, placed, |workers|);
    }

    /** Never more targets are alive than there are workers, and once as many if no target is empty. */
    lemma AsFewAsPossible()
      requires Valid()
      ensures forall instant :: |AliveAt(targets, instant)| <= |workers|
      ensures (forall i :: 0 <= i < |targets| ==> targets[i].start < targets[i].end) ==>
                |AliveAt(targets, peak)| == |workers|
    {
      forall instant
        ensures |AliveAt(targets, instant)| <= |workers|
      {
        EnoughAt(instant);
      }
      if forall i :: 0 <= i < |targets| ==> targets[i].start < targets[i].end {
        forall k | 0 <= k < |crowd|
          ensures crowd[k] in AliveAt(targets, peak)
        {
          assert InCrowd(targets, crowd, peak, k);
        }
        DistinctInSet(crowd, AliveAt(targets, peak));
      }
    }
  }

  /** Targets are listed from the last end to the first, and none ends before it starts. */
  ghost predicate Listed(targets: seq<Target>) {
    && (forall i :: 0 <= i < |targets| ==> targets[i].start <= targets[i].end)
    && (forall i, j :: 0 <= i < j < |targets| ==> targets[j].end <= targets[i].end)
  }

  lemma ListedLast(targets: seq<Target>, target: Target)
    requires Listed(targets + [target])
    ensures target.start <= target.end && forall i :: 0 <= i < |targets| ==> target.end <= targets[i].end
  {
    var all := targets + [target];
    assert all[|targets|] == target;
    forall i | 0 <= i < |targets|
      ensures target.end <= targets[i].end
    {
      assert all[i] == targets[i];
    }
  }

  // ----- No placement is better.

  /** No other way to place the targets, each one before those of its worker, needs fewer workers. */
  lemma NoneBetter(t: Threads, other: seq<nat>, n: nat)
    requires t.Valid() && |other| == |t.targets| && NoOverlap(t.targets, other)
    requires forall i :: 0 <= i < |other| ==> other[i] < n
    ensures |t.workers| <= n
  {
    var a := set k | 0 <= k < |t.crowd| :: t.crowd[k];
    forall i | i in a
      ensures i < |other|
    {
      var k :| 0 <= k < |t.crowd| && t.crowd[k] == i;
      assert InCrowd(t.targets, t.crowd, t.peak, k);
    }
    forall i, j | i in a && j in a && i != j
      ensures other[i] != other[j]
    {
      CrowdApart(t.targets, t.crowd, t.peak, other, i, j);
    }
    DistinctInSet(t.crowd, a);
    FewNumbers(a, other, n);
  }

  lemma CrowdApart(targets: seq<Target>, crowd: seq<nat>, peak: int, other: seq<nat>, i: nat, j: nat)
    requires Crowded(targets, crowd, peak) && |other| == |targets| && NoOverlap(targets, other)
    requires i in crowd && j in crowd && i != j
    ensures i < |targets| && j < |targets| && other[i] != other[j]
  {
    var k :| 0 <= k < |crowd| && crowd[k] == i;
    var l :| 0 <= l < |crowd| && crowd[l] == j;
    assert InCrowd(targets, crowd, peak, k) && InCrowd(targets, crowd, peak, l);
    if k < l {
      assert Clash(targets, crowd[k], crowd[l]);
    } else {
      assert Clash(targets, crowd[l], crowd[k]);
    }
    assert Follows(targets, other, if i < j then i else j, if i < j then j else i);
  }

  /** An empty target comes before those that are not and end with it. */
  ghost predicate EmptyFirst(targets: seq<Target>) {
    forall i, j :: 0 <= i < j < |targets| && targets[j].start == targets[i].end ==> targets[i].start == targets[i].end
  }

  lemma DisjointFollows(targets: seq<Target>, other: seq<nat>)
    requires Listed(targets) && EmptyFirst(targets) && |other| == |targets|
    requires forall i, j :: 0 <= i < j < |other| && other[i] == other[j] ==> Disjoint(targets[i], targets[j])
    ensures NoOverlap(targets, other)
  {
    forall i, j | 0 <= i < j < |targets|
      ensures Follows(targets, other, i, j)
    {
    }
  }

  /** If no empty target ends together with an earlier one, no way to keep the targets apart needs fewer workers. */
  lemma NoneApart(t: Threads, other: seq<nat>, n: nat)
    requires t.Valid() && EmptyFirst(t.targets) && |other| == |t.targets|
    requires forall i :: 0 <= i < |other| ==> other[i] < n
    requires forall i, j :: 0 <= i < j < |other| && other[i] == other[j] ==> Disjoint(t.targets[i], t.targets[j])
    ensures |t.workers| <= n
  {
    DisjointFollows(t.targets, other);
    NoneBetter(t, other, n);
  }

  /** An empty target inside another one takes a worker although it is never alive. */
  method EmptyInside() returns (workers: nat)
    ensures workers == 2 && forall instant :: |AliveAt([Target(3, 6), Target(5, 5)], instant)| <= 1
  {
    var t := new Threads();
    var first := t.Alloc(Target(3, 6));
    var second := t.Alloc(Target(5, 5));
    workers := |t.workers|;
    AtMostFirst([Target(3, 6), Target(5, 5)]);
  }

  lemma AtMostFirst(targets: seq<Target>)
    requires |targets| == 2 && targets[1].start == targets[1].end
    ensures forall instant :: |AliveAt(targets, instant)| <= 1
  {
    forall instant
      ensures |AliveAt(targets, instant)| <= 1
    {
      FewNumbers(AliveAt(targets, instant), [0, 1], 1);
    }
  }

  /** An empty target at the end of another one takes a second worker although the two are apart. */
  method EmptyLast() returns (workers: nat)
    ensures workers == 2 && Disjoint(Target(3, 5), Target(5, 5))
  {
    var t := new Threads();
    var first := t.Alloc(Target(3, 5));
    var second := t.Alloc(Target(5, 5));
    workers := |t.workers|;
  }

  /** Of two targets of one worker the later one placed ends before the other starts. */
  predicate Follows(targets: seq<Target>, placed: seq<nat>, i: nat, j: nat)
    requires i < |targets| == |placed| && j < |targets|
  {
    placed[i] == placed[j] ==> targets[j].end <= targets[i].start
  }

  ghost predicate NoOverlap(targets: seq<Target>, placed: seq<nat>)
    requires |targets| == |placed|
  {
    forall i, j :: 0 <= i < j < |targets| ==> Follows(targets, placed, i, j)
  }

  /** The last target of each worker. */
  ghost predicate Lasts(targets: seq<Target>, placed: seq<nat>, last: seq<nat>, workers: seq<int>)
    requires |targets| == |placed|
  {
    && |last| == |workers|
    && forall w {:trigger last[w]} :: 0 <= w < |last| ==>
         last[w] < |targets| && placed[last[w]] == w && workers[w] == targets[last[w]].start
  }

  lemma LastsNext(targets: seq<Target>, target: Target, placed: seq<nat>, worker: nat, last: seq<nat>, workers: seq<int>)
    requires |targets| == |placed| && Lasts(targets, placed, last, workers) && worker <= |workers|
    ensures worker < |workers| ==>
      Lasts(targets + [target], placed + [worker], last[worker := |targets|], workers[worker := target.start])
    ensures worker == |workers| ==>
      Lasts(targets + [target], placed + [worker], last + [|targets|], workers + [target.start])
  {
  }

  /** No target of a worker starts before the last one. */
  ghost predicate LastComesFirst(targets: seq<Target>, placed: seq<nat>, workers: seq<int>)
    requires |targets| == |placed| && forall i :: 0 <= i < |targets| ==> placed[i] < |workers|
  {
    forall i :: 0 <= i < |targets| ==> workers[placed[i]] <= targets[i].start
  }

  /** A worker takes a target that ends before all its others start, or its first one. */
  lemma PlacedNext(targets: seq<Target>, target: Target, placed: seq<nat>, worker: nat, workers: seq<int>,
                   after: seq<int>)
    requires |targets| == |placed| && forall i :: 0 <= i < |targets| ==> placed[i] < |workers|
    requires NoOverlap(targets, placed) && LastComesFirst(targets, placed, workers) && target.start <= target.end
    requires if worker < |workers| then workers[worker] >= target.end && after == workers[worker := target.start]
             else worker == |workers| && after == workers + [target.start]
    ensures forall i :: 0 <= i <= |targets| ==> (placed + [worker])[i] < |after|
    ensures NoOverlap(targets + [target], placed + [worker])
    ensures LastComesFirst(targets + [target], placed + [worker], after)
  {
    var (ts, ps) := (targets + [target], placed + [worker]);
    forall i, j | 0 <= i < j < |ts|
      ensures Follows(ts, ps, i, j)
    {
      if j < |targets| {
        assert Follows(targets, placed, i, j);
      }
    }
  }

  /** Placed one after the other, the two targets need different workers. */
  predicate Clash(targets: seq<Target>, i: nat, j: nat) {
    && i < |targets| && j < |targets|
    && if i < j then targets[i].start < targets[j].end else targets[j].start < targets[i].end
  }

  predicate InCrowd(targets: seq<Target>, crowd: seq<nat>, peak: int, k: nat)
    requires k < |crowd|
  {
    crowd[k] < |targets| && (targets[crowd[k]].start < targets[crowd[k]].end ==> Alive(targets[crowd[k]], peak))
  }

  ghost predicate Crowded(targets: seq<Target>, crowd: seq<nat>, peak: int) {
    && Distinct(crowd) && (forall k :: 0 <= k < |crowd| ==> InCrowd(targets, crowd, peak, k))
    && (forall k, l :: 0 <= k < l < |crowd| ==> Clash(targets, crowd[k], crowd[l]))
  }

  lemma CrowdStays(targets: seq<Target>, target: Target, crowd: seq<nat>, peak: int)
    requires Crowded(targets, crowd, peak)
    ensures Crowded(targets + [target], crowd, peak)
  {
    forall k | 0 <= k < |crowd|
      ensures InCrowd(targets + [target], crowd, peak, k)
    {
      assert InCrowd(targets, crowd, peak, k);
    }
    forall k, l | 0 <= k < l < |crowd|
      ensures Clash(targets + [target], crowd[k], crowd[l])
    {
      assert InCrowd(targets, crowd, peak, k) && InCrowd(targets, crowd, peak, l);
      assert Clash(targets, crowd[k], crowd[l]);
    }
  }

  /** If no worker is free, the last targets of all of them are alive just before the end of the new one. */
  lemma NewCrowd(targets: seq<Target>, target: Target, placed: seq<nat>, last: seq<nat>, workers: seq<int>)
    requires |placed| == |targets| && forall i :: 0 <= i < |targets| ==> target.end <= targets[i].end
    requires Lasts(targets, placed, last, workers) && forall w :: 0 <= w < |workers| ==> workers[w] < target.end
    ensures Crowded(targets + [target], last + [|targets|], target.end - 1)
  {
    var (ts, crowd, peak) := (targets + [target], last + [|targets|], target.end - 1);
    forall k | 0 <= k < |crowd|
      ensures InCrowd(ts, crowd, peak, k)
    {
      if k < |last| {
        assert ts[last[k]] == targets[last[k]];
      }
    }
    forall k, l | 0 <= k < l < |crowd|
      ensures crowd[k] != crowd[l] && Clash(ts, crowd[k], crowd[l])
    {
      if l < |last| {
        assert placed[last[k]] == k && placed[last[l]] == l;
      }
      NewClash(targets, target, placed, last, workers, k, l);
    }
  }

  lemma NewClash(targets: seq<Target>, target: Target, placed: seq<nat>, last: seq<nat>, workers: seq<int>, k: nat,
                 l: nat)
    requires |placed| == |targets| && forall i :: 0 <= i < |targets| ==> target.end <= targets[i].end
    requires Lasts(targets, placed, last, workers) && forall w :: 0 <= w < |workers| ==> workers[w] < target.end
    requires k < |last| && k < l <= |last|
    ensures Clash(targets + [target], last[k], (last + [|targets|])[l])
  {
    assert workers[k] == targets[last[k]].start;
    if l < |last| {
      assert workers[l] == targets[last[l]].start;
    }
  }
}
