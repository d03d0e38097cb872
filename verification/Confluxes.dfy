/**
  The allocation of confluxes to workers: connected confluxes go to the same worker as long as
  its quota lasts, and what is left over is dealt out round robin.
*/
module Confluxes {
  import opened Arith
  import opened Modular

  class Conflux {
    var parentAssigned: bool
    var connected: set<Conflux>

    constructor ()
      ensures !parentAssigned && connected == {}
    {
      parentAssigned, connected := false, {};
    }
  }

  ghost function Flatten(lists: seq<seq<Conflux>>): seq<Conflux> {
    if lists == [] then [] else lists[0] + Flatten(lists[1..])
  }

  /** One more entity in one list is one more entity in all. */
  lemma {:induction false} FlattenAppend(lists: seq<seq<Conflux>>, i: nat, c: Conflux)
    requires i < |lists|
    ensures multiset(Flatten(lists[i := lists[i] + [c]])) == multiset(Flatten(lists)) + multiset{c}
  {
    var lists' := lists[i := lists[i] + [c]];
    if i == 0 {
      assert lists'[1..] == lists[1..];
    } else {
      assert lists'[1..] == lists[1..][i - 1 := lists[1..][i - 1] + [c]];
      FlattenAppend(lists[1..], i - 1, c);
    }
  }

  lemma {:induction false} FlattenEmpty(lists: seq<seq<Conflux>>)
    requires forall i :: 0 <= i < |lists| ==> lists[i] == []
    ensures Flatten(lists) == []
  {
    if lists != [] { FlattenEmpty(lists[1..]); }
  }

  lemma {:induction false} OneMore(all: set<Conflux>, left: set<Conflux>, c: Conflux)
    requires c in left && left <= all
    ensures multiset(all - (left - {c})) == multiset(all - left) + multiset{c}
  {
    assert all - (left - {c}) == (all - left) + {c};
  }

  // ----- clusters -----

  /** The confluxes that each conflux is connected to. */
  type Graph = map<Conflux, set<Conflux>>

  ghost function Connections(all: set<Conflux>): Graph
    reads all
  {
    map c | c in all :: c.connected
  }

  ghost function Members(list: seq<Conflux>): set<Conflux> {
    set c | c in list
  }

  /** The members of the list from position 1 on are in the set. */
  ghost predicate RestIn(list: seq<Conflux>, s: set<Conflux>) {
    forall i :: 1 <= i < |list| ==> list[i] in s
  }

  /**
    The first k confluxes of a list are one without worker and some connected to it; if the list
    goes on, all that are connected to it have workers by then. Without worker before were left.
  */
  ghost predicate FirstCluster(graph: Graph, list: seq<Conflux>, left: set<Conflux>, k: int) {
    && 0 < k <= |list| && list[0] in left && list[0] in graph && Members(list[..k]) <= left
    && RestIn(list[..k], graph[list[0]])
    && (k < |list| ==> (left - Members(list[..k])) * graph[list[0]] == {})
  }

  /** The list is made of such clusters, one after the other. */
  ghost predicate InClusters(graph: Graph, list: seq<Conflux>, left: set<Conflux>)
    decreases |list|
  {
    list == [] ||
    exists k :: FirstCluster(graph, list, left, k) && InClusters(graph, list[k..], left - Members(list[..k]))
  }

  lemma {:induction false} MembersAppend(s: seq<Conflux>, t: seq<Conflux>)
    ensures Members(s + t) == Members(s) + Members(t)
  {}

  lemma {:induction false} OneCluster(graph: Graph, c: Conflux, rest: seq<Conflux>, left: set<Conflux>)
    requires c in left && c in graph && Members(rest) <= left && Members(rest) <= graph[c]
    ensures FirstCluster(graph, [c] + rest, left, 1 + |rest|)
  {
    var list := [c] + rest;
    MembersAppend([c], rest);
    assert list[..1 + |rest|] == list;
    forall i | 1 <= i < |list| ensures list[i] in graph[c] {
      assert list[i] == rest[i - 1] && rest[i - 1] in Members(rest);
    }
  }

  /** A cluster that used up what was connected to it, and further clusters. */
  lemma {:induction false} ClusterThenMore(graph: Graph, first: seq<Conflux>, more: seq<Conflux>, left: set<Conflux>)
    requires FirstCluster(graph, first, left, |first|) && InClusters(graph, more, left - Members(first))
    requires more != [] ==> (left - Members(first)) * graph[first[0]] == {}
    ensures InClusters(graph, first + more, left)
  {
    var (list, k) := (first + more, |first|);
    assert list[..k] == first && list[k..] == more;
    assert FirstCluster(graph, list, left, k);
  }

  /**
    The first conflux of a list takes all confluxes that are connected to it and have no worker
    yet into the list, or else the list has nothing but such confluxes.
  */
  lemma {:induction false} KeptTogether(graph: Graph, list: seq<Conflux>, left: set<Conflux>)
    requires list != [] && InClusters(graph, list, left)
    ensures list[0] in graph
    ensures left * graph[list[0]] <= Members(list) || RestIn(list, graph[list[0]])
  {
    var k :| FirstCluster(graph, list, left, k) && InClusters(graph, list[k..], left - Members(list[..k]));
    if k == |list| {
      assert list[..k] == list;
    } else {
      forall c | c in left * graph[list[0]] ensures c in Members(list) {
        assert c !in (left - Members(list[..k])) * graph[list[0]];
        assert c in list[..k];
      }
    }
  }

  /** The first confluxes of a list, up to the quota. */
  ghost function Quota(list: seq<Conflux>, quota: nat): seq<Conflux> {
    if |list| <= quota then list else list[..quota]
  }

  /** The confluxes that have no worker when it is the turn of worker w. */
  ghost function LeftFor(all: set<Conflux>, workers: seq<seq<Conflux>>, quota: nat, w: nat): set<Conflux>
    requires w <= |workers|
  {
    if w == 0 then all else LeftFor(all, workers, quota, w - 1) - Members(Quota(workers[w - 1], quota))
  }

  /** The first confluxes of the worker, up to its quota, are in clusters. */
  ghost predicate Clustered(graph: Graph, workers: seq<seq<Conflux>>, quota: nat, w: nat)
    requires w < |workers|
  {
    InClusters(graph, Quota(workers[w], quota), LeftFor(graph.Keys, workers, quota, w))
  }

  /** What later workers get, and what comes after the quota, makes no difference. */
  lemma {:induction false} SameLeft(all: set<Conflux>, was: seq<seq<Conflux>>, workers: seq<seq<Conflux>>, quota: nat, w: nat)
    requires w <= |was| == |workers| && forall v :: 0 <= v < w ==> Quota(was[v], quota) == Quota(workers[v], quota)
    ensures LeftFor(all, was, quota, w) == LeftFor(all, workers, quota, w)
  {
    if w > 0 { SameLeft(all, was, workers, quota, w - 1); }
  }

  /** The first n workers. */
  ghost predicate AllClustered(graph: Graph, workers: seq<seq<Conflux>>, quota: nat, n: nat)
    requires n <= |workers|
  {
    n == 0 || (AllClustered(graph, workers, quota, n - 1) && Clustered(graph, workers, quota, n - 1))
  }

  lemma {:induction false} StillClustered(graph: Graph, was: seq<seq<Conflux>>, workers: seq<seq<Conflux>>, quota: nat, n: nat)
    requires n <= |was| == |workers| && forall v :: 0 <= v < n ==> Quota(was[v], quota) == Quota(workers[v], quota)
    requires AllClustered(graph, was, quota, n)
    ensures AllClustered(graph, workers, quota, n)
  {
    if n > 0 {
      StillClustered(graph, was, workers, quota, n - 1);
      SameClusters(graph, was, workers, quota, n - 1);
    }
  }

  lemma {:induction false} SameClusters(graph: Graph, was: seq<seq<Conflux>>, workers: seq<seq<Conflux>>, quota: nat, w: nat)
    requires w < |was| == |workers| && forall v :: 0 <= v <= w ==> Quota(was[v], quota) == Quota(workers[v], quota)
    requires Clustered(graph, was, quota, w)
    ensures Clustered(graph, workers, quota, w)
  {
    SameLeft(graph.Keys, was, workers, quota, w);
    assert Quota(was[w], quota) == Quota(workers[w], quota);
  }

  lemma {:induction false} ClusteredAt(graph: Graph, workers: seq<seq<Conflux>>, quota: nat, n: nat, w: nat)
    requires w < n <= |workers| && AllClustered(graph, workers, quota, n)
    ensures Clustered(graph, workers, quota, w)
  {
    if w < n - 1 { ClusteredAt(graph, workers, quota, n - 1, w); }
  }

  /** One list gets more, and nothing but confluxes that had no worker. */
  ghost predicate Extended(was: seq<seq<Conflux>>, workers: seq<seq<Conflux>>, left0: set<Conflux>, left: set<Conflux>,
                           idx: nat, added: seq<Conflux>)
    requires idx < |was|
  {
    && workers == was[idx := was[idx] + added]
    && Members(added) <= left0 && left == left0 - Members(added) && |added| == |left0| - |left|
  }

  lemma {:induction false} NoneAdded(was: seq<seq<Conflux>>, left: set<Conflux>, idx: nat)
    requires idx < |was|
    ensures Extended(was, was, left, left, idx, [])
  {
    assert was[idx] + [] == was[idx];
    assert Members([]) == {};
  }

  lemma {:induction false} MoreAdded(was: seq<seq<Conflux>>, mid: seq<seq<Conflux>>, workers: seq<seq<Conflux>>,
                                     left0: set<Conflux>, left1: set<Conflux>, left: set<Conflux>,
                                     idx: nat, added: seq<Conflux>, more: seq<Conflux>)
    requires idx < |was| && Extended(was, mid, left0, left1, idx, added)
    requires |mid| == |was| && Extended(mid, workers, left1, left, idx, more)
    ensures Extended(was, workers, left0, left, idx, added + more)
  {
    MembersAppend(added, more);
    assert (was[idx] + added) + more == was[idx] + (added + more);
    assert workers == was[idx := was[idx] + (added + more)];
  }

  lemma {:induction false} OneAdded(was: seq<seq<Conflux>>, left: set<Conflux>, idx: nat, c: Conflux)
    requires idx < |was| && c in left
    ensures Extended(was, was[idx := was[idx] + [c]], left, left - {c}, idx, [c])
  {
    assert Members([c]) == {c};
  }

  lemma {:induction false} OneIsEnough(graph: Graph, first: seq<Conflux>, left: set<Conflux>)
    requires FirstCluster(graph, first, left, |first|)
    ensures InClusters(graph, first, left)
  {
    assert first + [] == first;
    ClusterThenMore(graph, first, [], left);
  }

  /** A first cluster and what the recursion adds to it. */
  lemma {:induction false} MoreClusters(graph: Graph, was: seq<seq<Conflux>>, mid: seq<seq<Conflux>>, workers: seq<seq<Conflux>>,
                                        left0: set<Conflux>, left1: set<Conflux>, left: set<Conflux>, idx: nat,
                                        added: seq<Conflux>, more: seq<Conflux>)
    requires idx < |was| == |mid| && Extended(was, mid, left0, left1, idx, added)
    requires Extended(mid, workers, left1, left, idx, more)
    requires FirstCluster(graph, added, left0, |added|) && InClusters(graph, more, left1)
    requires left1 * graph[added[0]] == {}
    ensures Extended(was, workers, left0, left, idx, added + more)
    ensures InClusters(graph, added + more, left0) && (added + more)[0] == added[0]
    ensures |left1| == |left0| - |added|
  {
    MoreAdded(was, mid, workers, left0, left1, left, idx, added, more);
    ClusterThenMore(graph, added, more, left0);
  }

  class WorkGroup {
    /** The confluxes that have no worker yet. */
    var confluxes: set<Conflux>
    /** The confluxes each worker manages, in the order in which they were assigned. */
    var workers: seq<seq<Conflux>>
    /** The number of conflux loaders each worker manages. */
    var loaders: seq<nat>

    /**
      The graph has all confluxes with their connections; those outside of this.confluxes have
      exactly one worker and are marked.
    */
    ghost predicate Valid(graph: Graph)
      reads this, graph.Keys
    {
      && confluxes <= graph.Keys && |loaders| == |workers|
      && (forall c :: c in graph ==> c.connected == graph[c] <= graph.Keys && (c.parentAssigned <==> c !in confluxes))
      && multiset(Flatten(workers)) == multiset(graph.Keys - confluxes)
    }

    constructor (confluxes: set<Conflux>, size: nat)
      requires forall c :: c in confluxes ==> c.connected <= confluxes && !c.parentAssigned
      ensures Valid(Connections(confluxes)) && this.confluxes == confluxes && |workers| == size
      ensures forall w :: 0 <= w < size ==> workers[w] == [] && loaders[w] == 0
    {
      this.confluxes := confluxes;
      workers := seq(size, _ => []);
      loaders := seq(size, _ => 0);
      new;
      FlattenEmpty(workers);
      assert confluxes - confluxes == {};
    }

    /** assignWorker, which is taken to succeed, with the two updates that follow it. */
    method Assign(c: Conflux, idx: nat, ghost graph: Graph)
      requires Valid(graph) && idx < |workers| && c in confluxes
      modifies this`confluxes, this`workers, c`parentAssigned
      ensures Valid(graph) && confluxes == old(confluxes) - {c}
      ensures workers == old(workers)[idx := old(workers)[idx] + [c]]
      ensures Extended(old(workers), workers, old(confluxes), confluxes, idx, [c])
    {
      OneAdded(workers, confluxes, idx, c);
      FlattenAppend(workers, idx, c);
      OneMore(graph.Keys, confluxes, c);
      workers := workers[idx := workers[idx] + [c]];
      confluxes := confluxes - {c};
      c.parentAssigned := true;
    }

    /** The confluxes connected to one go to the same worker, as long as the quota lasts. */
    method AssignConnected(conflux: Conflux, idx: nat, n0: nat, ghost graph: Graph)
      returns (n: nat, ghost added: seq<Conflux>)
      requires Valid(graph) && idx < |workers| && conflux in graph
      modifies this`confluxes, this`workers, confluxes`parentAssigned
      ensures Valid(graph) && n == n0 - |added| && Members(added) <= graph[conflux]
      ensures Extended(old(workers), workers, old(confluxes), confluxes, idx, added)
      ensures n == 0 || confluxes * graph[conflux] == {}
    {
      n := n0;
      added := [];
      NoneAdded(workers, confluxes, idx);
      var todo := conflux.connected;
      while todo != {} && n > 0 && confluxes != {}
        invariant Valid(graph) && |workers| == |old(workers)| && confluxes <= old(confluxes)
        invariant Extended(old(workers), workers, old(confluxes), confluxes, idx, added)
        invariant n == n0 - |added| && Members(added) <= graph[conflux]
        invariant confluxes * graph[conflux] <= todo <= graph[conflux]
        decreases |todo|
      {
        var c :| c in todo;
        todo := todo - {c};
        if !c.parentAssigned {
          ghost var (mid, left) := (workers, confluxes);
          Assign(c, idx, graph);
          MoreAdded(old(workers), mid, workers, old(confluxes), left, confluxes, idx, added, [c]);
          MembersAppend(added, [c]);
          n, added := n - 1, added + [c];
        }
      }
    }

    /** A conflux, and as many of those connected to it as the quota allows. */
    method AssignCluster(conflux: Conflux, idx: nat, n0: nat, ghost graph: Graph)
      returns (n: nat, ghost added: seq<Conflux>)
      requires Valid(graph) && idx < |workers| && conflux in confluxes && n0 > 0
      modifies this`confluxes, this`workers, confluxes`parentAssigned
      ensures Valid(graph) && n == n0 - |added| && added != [] && added[0] == conflux
      ensures Extended(old(workers), workers, old(confluxes), confluxes, idx, added)
      ensures FirstCluster(graph, added, old(confluxes), |added|)
      ensures n == 0 || confluxes * graph[conflux] == {}
    {
      Assign(conflux, idx, graph);
      ghost var (mid, left) := (workers, confluxes);
      n, added := AssignConnected(conflux, idx, n0 - 1, graph);
      MoreAdded(old(workers), mid, workers, old(confluxes), left, confluxes, idx, [conflux], added);
      OneCluster(graph, conflux, added, old(confluxes));
      added := [conflux] + added;
    }

    /**
      Adds n confluxes to the worker, or all that are left if they are fewer, in clusters: a new
      one starts only when all that is connected to the first conflux of the last one has workers.
    */
    method AssignRecursive(conflux: Conflux, idx: nat, n0: int, ghost graph: Graph)
      returns (filled: bool, ghost added: seq<Conflux>)
      requires Valid(graph) && idx < |workers| && conflux in confluxes
      modifies this`confluxes, this`workers, confluxes`parentAssigned
      ensures Valid(graph) && (filled <==> n0 > 0)
      ensures Extended(old(workers), workers, old(confluxes), confluxes, idx, added)
      ensures |added| == if n0 <= 0 then 0 else if n0 <= |old(confluxes)| then n0 else |old(confluxes)|
      ensures InClusters(graph, added, old(confluxes)) && (n0 > 0 ==> added[0] == conflux)
      decreases n0
    {
      var n := n0;
      if n <= 0 {
        NoneAdded(workers, confluxes, idx);
        return false, [];
      }
      n, added := AssignCluster(conflux, idx, n, graph);
      ghost var (mid, left) := (workers, confluxes);
      if n > 0 && confluxes != {} {
        var next :| next in confluxes;
        ghost var more;
        filled, more := AssignRecursive(next, idx, n, graph);
        MoreClusters(graph, old(workers), mid, workers, old(confluxes), left, confluxes, idx, added, more);
        added := added + more;
      } else {
        OneIsEnough(graph, added, old(confluxes));
        filled := true;
      }
    }

    /** assignConfluxLoaderToWorker: one loader for the worker. */
    method AssignLoader(idx: nat, ghost graph: Graph)
      requires Valid(graph) && idx < |workers|
      modifies this`loaders
      ensures Valid(graph) && loaders == old(loaders)[idx := old(loaders)[idx] + 1]
    {
      loaders := loaders[idx := loaders[idx] + 1];
    }

    /**
      Every conflux gets exactly one worker (Valid, with no conflux left), every worker one loader,
      and the loads of any two workers differ by at most one. Up to the quota, connected confluxes
      are kept together.
    */
    method AssignConfluxes(ghost graph: Graph)
      requires Valid(graph) && confluxes == graph.Keys && |workers| >= 1
      requires forall w :: 0 <= w < |workers| ==> workers[w] == [] && loaders[w] == 0
      modifies this`confluxes, this`workers, this`loaders, confluxes`parentAssigned
      ensures |workers| == |old(workers)| >= 1
      ensures Valid(graph) && confluxes == {}
      ensures multiset(Flatten(workers)) == multiset(graph.Keys) && forall c :: c in graph ==> c.parentAssigned
      ensures forall w :: 0 <= w < |workers| ==> loaders[w] == 1 && |workers[w]| == Load(|graph|, |workers|, w)
      ensures forall v, w :: 0 <= v < |workers| && 0 <= w < |workers| ==> |workers[v]| - |workers[w]| <= 1
      ensures forall w :: 0 <= w < |workers| ==> Clustered(graph, workers, Share(|graph|, |workers|), w)
    {
      assert |graph| == |graph.Keys|;
      QuotaIs(|graph|, |workers|);
      var quota := |confluxes| / |workers|;
      Deal(quota, graph);
      assert graph.Keys - {} == graph.Keys;
    }

    /** The loop over the workers, and the round robin over what is left then. */
    method Deal(quota: nat, ghost graph: Graph)
      requires Valid(graph) && confluxes == graph.Keys && |workers| >= 1 && quota == Share(|graph|, |workers|)
      requires |graph| % |workers| < |workers|
      requires forall w :: 0 <= w < |workers| ==> workers[w] == [] && loaders[w] == 0
      modifies this`confluxes, this`workers, this`loaders, confluxes`parentAssigned
      ensures |workers| == |old(workers)| && Valid(graph) && confluxes == {}
      ensures forall w :: 0 <= w < |workers| ==> loaders[w] == 1 && |workers[w]| == Load(|graph|, |workers|, w)
      ensures forall w :: 0 <= w < |workers| ==> Clustered(graph, workers, quota, w)
    {
      DealAll(quota, graph);
      ghost var was := workers;
      DealRest(quota, graph);
      StillDealt(graph, was, workers, quota);
    }

    /** Every worker gets its quota, the first worker first. */
    method DealAll(quota: nat, ghost graph: Graph)
      requires Valid(graph) && confluxes == graph.Keys && |workers| >= 1 && quota == Share(|graph|, |workers|)
      requires forall w :: 0 <= w < |workers| ==> workers[w] == [] && loaders[w] == 0
      modifies this`confluxes, this`workers, this`loaders, confluxes`parentAssigned
      ensures Valid(graph) && |workers| == |old(workers)| && |confluxes| == |graph| % |workers|
      ensures forall w :: 0 <= w < |workers| ==> |workers[w]| == quota && loaders[w] == 1
      ensures AllClustered(graph, workers, quota, |workers|)
    {
      ghost var W := |workers|;
      for idx := 0 to |workers|
        invariant Valid(graph) && |workers| == W && |confluxes| == |graph| - Times(idx, quota)
        invariant confluxes <= graph.Keys && Loaded(workers, loaders, quota, idx)
        invariant SharedOut(graph, workers, confluxes, quota, idx)
      {
        QuotaLeft(|graph|, W, idx);
        DealOne(idx, quota, graph);
      }
      QuotaLeft(|graph|, W, W);
    }

    method DealOne(idx: nat, quota: nat, ghost graph: Graph)
      requires Valid(graph) && idx < |workers| && quota <= |confluxes|
      requires Loaded(workers, loaders, quota, idx) && SharedOut(graph, workers, confluxes, quota, idx)
      modifies this`confluxes, this`workers, this`loaders, confluxes`parentAssigned
      ensures Valid(graph) && |workers| == |old(workers)| && |confluxes| == |old(confluxes)| - quota
      ensures confluxes <= old(confluxes) && Loaded(workers, loaders, quota, idx + 1)
      ensures SharedOut(graph, workers, confluxes, quota, idx + 1)
    {
      ghost var (was, left) := (workers, confluxes);
      ghost var added := Fill(idx, quota, graph);
      NextLoaded(was, loaders, quota, idx, added);
      NextShared(graph, was, left, quota, idx, added);
      AssignLoader(idx, graph);
    }

    /** The quota of one worker. */
    method Fill(idx: nat, quota: nat, ghost graph: Graph) returns (ghost added: seq<Conflux>)
      requires Valid(graph) && idx < |workers| && workers[idx] == [] && quota <= |confluxes|
      modifies this`confluxes, this`workers, confluxes`parentAssigned
      ensures Valid(graph) && |added| == quota && InClusters(graph, added, old(confluxes))
      ensures workers == old(workers)[idx := added] && confluxes == old(confluxes) - Members(added)
      ensures |confluxes| == |old(confluxes)| - quota
    {
      added := [];
      if quota > 0 {
        var c :| c in confluxes;
        var _, list := AssignRecursive(c, idx, quota, graph);
        added := list;
      } else {
        NoneAdded(workers, confluxes, idx);
      }
      assert [] + added == added;
    }

    /**
      There are fewer confluxes left than workers, so that the round robin never comes round. The
      source empties the set after its loop; here a conflux leaves it when it is assigned.
    */
    method DealRest(quota: nat, ghost graph: Graph)
      requires Valid(graph) && |confluxes| < |workers|
      requires forall w :: 0 <= w < |workers| ==> |workers[w]| == quota
      modifies this`confluxes, this`workers, confluxes`parentAssigned
      ensures Valid(graph) && confluxes == {} && |workers| == |old(workers)|
      ensures forall w :: 0 <= w < |workers| ==> old(workers)[w] <= workers[w]
      ensures forall w :: 0 <= w < |workers| ==> |workers[w]| == quota + (if w < |old(confluxes)| then 1 else 0)
    {
      var idx := 0;
      ghost var (rest, W) := (|confluxes|, |workers|);
      while confluxes != {}
        invariant Valid(graph) && confluxes <= old(confluxes) && |workers| == W && idx == rest - |confluxes|
        invariant forall w :: 0 <= w < idx ==> |workers[w]| == quota + 1 && old(workers)[w] <= workers[w]
        invariant forall w :: idx <= w < W ==> workers[w] == old(workers)[w]
        decreases |confluxes|
      {
        var c :| c in confluxes;
        Assign(c, idx, graph);
        idx := NextWorker(idx, |workers|);
      }
    }
  }

  /** The workers before position idx have their quota and one loader each; the others have nothing. */
  ghost predicate Loaded(workers: seq<seq<Conflux>>, loaders: seq<nat>, quota: nat, idx: nat) {
    && idx <= |workers| == |loaders|
    && (forall w :: 0 <= w < idx ==> |workers[w]| == quota && loaders[w] == 1)
    && forall w :: idx <= w < |workers| ==> workers[w] == [] && loaders[w] == 0
  }

  /** What they have is in clusters. */
  ghost predicate SharedOut(graph: Graph, workers: seq<seq<Conflux>>, left: set<Conflux>, quota: nat, idx: nat)
    requires idx <= |workers|
  {
    && left == LeftFor(graph.Keys, workers, quota, idx) && AllClustered(graph, workers, quota, idx)
  }

  lemma {:induction false} NextLoaded(was: seq<seq<Conflux>>, loaded: seq<nat>, quota: nat, idx: nat, added: seq<Conflux>)
    requires Loaded(was, loaded, quota, idx) && idx < |was| && |added| == quota
    ensures Loaded(was[idx := added], loaded[idx := loaded[idx] + 1], quota, idx + 1)
  {}

  lemma {:induction false} SamePrefix(was: seq<seq<Conflux>>, quota: nat, idx: nat, added: seq<Conflux>)
    requires idx < |was|
    ensures forall v :: 0 <= v < idx ==> Quota(was[v], quota) == Quota(was[idx := added][v], quota)
  {}

  lemma {:induction false} NextShared(graph: Graph, was: seq<seq<Conflux>>, left: set<Conflux>, quota: nat, idx: nat,
                                      added: seq<Conflux>)
    requires idx < |was| && SharedOut(graph, was, left, quota, idx) && |added| == quota && InClusters(graph, added, left)
    ensures SharedOut(graph, was[idx := added], left - Members(added), quota, idx + 1)
  {
    var workers := was[idx := added];
    SamePrefix(was, quota, idx, added);
    StillClustered(graph, was, workers, quota, idx);
    SameLeft(graph.Keys, was, workers, quota, idx);
    NextClustered(graph, workers, quota, idx);
  }

  lemma {:induction false} NextClustered(graph: Graph, workers: seq<seq<Conflux>>, quota: nat, idx: nat)
    requires idx < |workers| && |workers[idx]| == quota && AllClustered(graph, workers, quota, idx)
    requires InClusters(graph, workers[idx], LeftFor(graph.Keys, workers, quota, idx))
    ensures AllClustered(graph, workers, quota, idx + 1)
    ensures LeftFor(graph.Keys, workers, quota, idx + 1) == LeftFor(graph.Keys, workers, quota, idx) - Members(workers[idx])
  {}

  /** The round robin leaves what was dealt before as it is. */
  lemma {:induction false} StillDealt(graph: Graph, was: seq<seq<Conflux>>, workers: seq<seq<Conflux>>, quota: nat)
    requires |was| == |workers| && forall w :: 0 <= w < |was| ==> |was[w]| == quota && was[w] <= workers[w]
    requires AllClustered(graph, was, quota, |was|)
    ensures forall w :: 0 <= w < |workers| ==> Clustered(graph, workers, quota, w)
  {
    forall w | 0 <= w < |was| ensures Quota(was[w], quota) == Quota(workers[w], quota) {
      assert workers[w][..quota] == was[w];
    }
    StillClustered(graph, was, workers, quota, |was|);
    forall w | 0 <= w < |workers| ensures Clustered(graph, workers, quota, w) {
      ClusteredAt(graph, workers, quota, |workers|, w);
    }
  }

  /** The worker whose turn is next. */
  function NextWorker(idx: nat, numWorkers: nat): (next: nat)
    requires idx < numWorkers
    ensures next == if idx + 1 < numWorkers then idx + 1 else 0
  {
    (idx + 1) % numWorkers
  }

  /** The quota of every worker. */
  function Share(N: nat, W: nat): nat
    requires W >= 1
  {
    N / W
  }

  /** The load of worker w when N confluxes are shared out among W workers. */
  function Load(N: nat, W: nat, w: nat): nat
    requires W >= 1
  {
    N / W + if w < N % W then 1 else 0
  }

  lemma {:induction false} QuotaIs(N: nat, W: nat)
    requires W >= 1
    ensures N - W * (N / W) == N % W < W
  {}

  lemma {:induction false} QuotaLeft(N: nat, W: nat, idx: nat)
    requires W >= 1 && idx <= W
    ensures idx < W ==> Times(idx, N / W) + N / W <= N
    ensures Times(W, N / W) == N - N % W
  {
    QuotaIs(N, W);
    TimesIsProduct(idx, N / W);
    TimesIsProduct(W, N / W);
    Dealt(N, W, N / W, N % W, idx);
  }

  lemma {:induction false} Dealt(N: int, W: int, q: int, rest: int, idx: int)
    requires N == W * q + rest && rest >= 0 && q >= 0
    ensures idx < W ==> idx * q + q <= N
  {
    if idx < W {
      MulMono(q, idx + 1, W);
      Distrib(q, idx, 1);
    }
  }

  ghost function TotalLoad(N: nat, W: nat, k: nat): nat
    requires W >= 1
  {
    if k == 0 then 0 else TotalLoad(N, W, k - 1) + Load(N, W, k - 1)
  }

  /** The loads add up to N. */
  lemma {:induction false} LoadsAddUp(N: nat, W: nat, k: nat)
    requires W >= 1 && k <= W
    ensures TotalLoad(N, W, k) == k * (N / W) + (if k <= N % W then k else N % W)
    ensures k == W ==> TotalLoad(N, W, k) == N
  {
    if k > 0 {
      LoadsAddUp(N, W, k - 1);
      assert k * (N / W) == (k - 1) * (N / W) + N / W;
    }
    QuotaIs(N, W);
  }

  // ----- two connected pairs -----

  /** A worker with room for two that begins with one half of a pair gets the other half as well. */
  lemma {:induction false} PairInOneList(graph: Graph, list: seq<Conflux>, left: set<Conflux>, c: Conflux, d: Conflux)
    requires |list| == 2 && list[0] == c && InClusters(graph, list, left)
    requires c in graph && graph[c] == {d} && c != d && d in left
    ensures Members(list) == {c, d}
  {
    var k :| FirstCluster(graph, list, left, k) && InClusters(graph, list[k..], left - Members(list[..k]));
    assert list[..1] == [c];
    assert d in (left - Members(list[..1])) * graph[c];
    assert k == 2 && list[..k] == list;
    assert list[1] == d;
  }

  ghost predicate IsPair(graph: Graph, c: Conflux, d: Conflux) {
    c in graph && d in graph && c != d && graph[c] == {d} && graph[d] == {c}
  }

  ghost predicate IsTwoPairs(graph: Graph, a: Conflux, b: Conflux, c: Conflux, d: Conflux) {
    graph.Keys == {a, b, c, d} && {a, b} !! {c, d} && IsPair(graph, a, b) && IsPair(graph, c, d)
  }

  lemma {:induction false} PairsKept(graph: Graph, workers: seq<seq<Conflux>>, a: Conflux, b: Conflux, c: Conflux, d: Conflux)
    requires IsTwoPairs(graph, a, b, c, d)
    requires |workers| == 2 && |workers[0]| == |workers[1]| == 2
    requires Clustered(graph, workers, 2, 0) && Clustered(graph, workers, 2, 1)
    ensures (Members(workers[0]) == {a, b} && Members(workers[1]) == {c, d}) ||
            (Members(workers[0]) == {c, d} && Members(workers[1]) == {a, b})
  {
    var (first, second) := (workers[0], workers[1]);
    var x := first[0];
    assert LeftFor(graph.Keys, workers, 2, 0) == graph.Keys;
    InFirst(graph, first, graph.Keys);
    var p := if x == a then b else if x == b then a else if x == c then d else c;
    PairInOneList(graph, first, graph.Keys, x, p);
    var left := graph.Keys - {x, p};
    assert LeftFor(graph.Keys, workers, 2, 1) == left;
    InFirst(graph, second, left);
    var y := second[0];
    var q := if y == a then b else if y == b then a else if y == c then d else c;
    PairInOneList(graph, second, left, y, q);
  }

  lemma {:induction false} InFirst(graph: Graph, list: seq<Conflux>, left: set<Conflux>)
    requires list != [] && InClusters(graph, list, left)
    ensures list[0] in left
  {}

  method MakePairs() returns (a: Conflux, b: Conflux, c: Conflux, d: Conflux)
    ensures fresh(a) && fresh(b) && fresh(c) && fresh(d)
    ensures !a.parentAssigned && !b.parentAssigned && !c.parentAssigned && !d.parentAssigned
    ensures a.connected == {b} && b.connected == {a} && c.connected == {d} && d.connected == {c}
    ensures IsTwoPairs(Connections({a, b, c, d}), a, b, c, d)
  {
    a := new Conflux();
    b := new Conflux();
    c := new Conflux();
    d := new Conflux();
    a.connected, b.connected, c.connected, d.connected := {b}, {a}, {d}, {c};
  }

  lemma {:induction false} FourConfluxes(graph: Graph, a: Conflux, b: Conflux, c: Conflux, d: Conflux)
    requires IsTwoPairs(graph, a, b, c, d)
    ensures |graph| == 4 && Share(|graph|, 2) == 2 && Load(|graph|, 2, 0) == Load(|graph|, 2, 1) == 2
  {
    assert |graph| == |graph.Keys|;
  }

  /** Two connected pairs and two workers: no pair is split. */
  method TwoPairs() returns (group: WorkGroup, a: Conflux, b: Conflux, c: Conflux, d: Conflux)
    ensures a != b && {a, b} !! {c, d} && c != d && |group.workers| == 2
    ensures a.connected == {b} && b.connected == {a} && c.connected == {d} && d.connected == {c}
    ensures (Members(group.workers[0]) == {a, b} && Members(group.workers[1]) == {c, d}) ||
            (Members(group.workers[0]) == {c, d} && Members(group.workers[1]) == {a, b})
  {
    a, b, c, d := MakePairs();
    ghost var graph := Connections({a, b, c, d});
    group := new WorkGroup({a, b, c, d}, 2);
    group.AssignConfluxes(graph);
    FourConfluxes(graph, a, b, c, d);
    PairsKept(graph, group.workers, a, b, c, d);
  }
}
