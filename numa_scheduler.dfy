/** The NUMA-aware scheduler (src/async/tbb_numa_scheduler.hpp): one arena
    per NUMA node, a map from node to arena index in which the first arena of
    a node wins, a round-robin counter for tasks without a preferred node, and
    one count of scheduled tasks per arena.

    An arena is its NUMA node; the TBB scheduler inside it is opaque, so
    handing a task to it is recorded in `dispatched`.  The round-robin counter
    is a `std::size_t`, so it wraps at 2^64. */
module NumaScheduler {
  import opened Wrappers
  import opened AsyncTaskPromise

  /** 2^64: `std::size_t` arithmetic is modulo this. */
  const SizeMod: nat := 0x1_0000_0000_0000_0000

  // ---------------------------------------------------------------------------
  // The node-to-index map

  /** `node_to_index_` after `emplace(node, i)` for each arena `i` in order:
      `emplace` leaves an existing key alone, so the first arena of a node
      keeps it. */
  function IndexMap(s: seq<int>): map<int, nat>
  {
    if s == [] then map[]
    else
      var m := IndexMap(s[..|s| - 1]);
      if s[|s| - 1] in m then m else m[s[|s| - 1] := |s| - 1]
  }

  /** The map knows exactly the nodes of `s`, and sends each to the first
      index holding it. */
  lemma {:induction false} IndexMapSpec(s: seq<int>)
    ensures forall n :: n in IndexMap(s) <==> n in s
    ensures forall n :: n in IndexMap(s) ==>
              IndexMap(s)[n] < |s| && s[IndexMap(s)[n]] == n &&
              forall j :: 0 <= j < IndexMap(s)[n] ==> s[j] != n
  {
    if s != [] {
      var init := s[..|s| - 1];
      IndexMapSpec(init);
      forall n ensures n in s <==> n in init || n == s[|s| - 1] {
        if n in s {
          var j :| 0 <= j < |s| && s[j] == n;
          if j < |s| - 1 { assert init[j] == n; }
        }
      }
    }
  }

  /** `index_for_node` on the arenas `s`: the node's first arena, or 0 for
      a node without one. */
  function Resolve(s: seq<int>, node: int): (r: nat)
    ensures |s| > 0 ==> r < |s|
  {
    IndexMapSpec(s);
    if node in IndexMap(s) then IndexMap(s)[node] else 0
  }

  /** A node resolves to its first arena; a node with no arena to arena 0. */
  lemma ResolveSpec(s: seq<int>, node: int)
    requires |s| > 0
    ensures Resolve(s, node) < |s|
    ensures node in s ==>
              s[Resolve(s, node)] == node && forall j :: 0 <= j < Resolve(s, node) ==> s[j] != node
    ensures node !in s ==> Resolve(s, node) == 0
  {
    IndexMapSpec(s);
  }

  /** No node occurs twice. */
  predicate DistinctNodes(s: seq<int>)
  {
    forall i, j :: 0 <= i < j < |s| ==> s[i] != s[j]
  }

  /** With distinct nodes, the node of arena `j` resolves back to `j`. */
  lemma ResolveDistinct(s: seq<int>, j: nat)
    requires DistinctNodes(s) && j < |s|
    ensures Resolve(s, s[j]) == j
  {
    ResolveSpec(s, s[j]);
  }

  // ---------------------------------------------------------------------------
  // Round robin

  /** The arena that the round robin resolves to after `t` selections from
      counter value `c`: the counter, wrapped as a `size_t`, modulo the
      number of arenas, gives an arena whose node is then resolved. */
  function RoundRobinArena(s: seq<int>, c: nat, t: nat): nat
    requires |s| > 0
  {
    Resolve(s, s[((c + t) % SizeMod) % |s|])
  }

  /** How many of `k` tasks without a preferred node, scheduled from counter
      value `c`, land on arena `i`. */
  function Dispatches(s: seq<int>, c: nat, k: nat, i: nat): nat
    requires |s| > 0
  {
    if k == 0 then 0
    else Dispatches(s, c, k - 1, i) + if RoundRobinArena(s, c, k - 1) == i then 1 else 0
  }

  /** The values `t < x` with `t % n == i`. */
  function Residues(x: nat, n: nat, i: nat): nat
    requires n > 0
  {
    if x == 0 then 0 else Residues(x - 1, n, i) + if (x - 1) % n == i then 1 else 0
  }

  /** Of the values `c .. c + k - 1`, those with `t % n == i`. */
  function Hits(c: nat, k: nat, n: nat, i: nat): nat
    requires n > 0
  {
    if k == 0 then 0 else Hits(c, k - 1, n, i) + if (c + k - 1) % n == i then 1 else 0
  }

  /** Euclidean division is determined by quotient and remainder. */
  lemma DivModUnique(x: int, n: int, q: int, r: int)
    requires n > 0 && 0 <= r < n && x == n * q + r
    ensures x / n == q && x % n == r
  {
    var q' := x / n;
    var r' := x % n;
    assert n * q' + r' == n * q + r;
    assert n * (q' - q) == r - r' by {
      assert n * (q' - q) == n * q' - n * q;
    }
    if q' > q {
      MulAtLeast(n, q' - q);
    } else if q' < q {
      MulAtLeast(n, q - q');
    }
  }

  /** A positive multiple of `n` is at least `n`. */
  lemma {:induction false} MulAtLeast(n: int, d: int)
    requires n > 0 && d >= 1
    ensures n * d >= n
  {
    if d > 1 {
      MulAtLeast(n, d - 1);
      assert n * d == n * (d - 1) + n;
    }
  }

  /** One step of `x / n` and `x % n`. */
  lemma DivModStep(x: nat, n: nat)
    requires n > 0
    ensures x % n == n - 1 ==> (x + 1) / n == x / n + 1 && (x + 1) % n == 0
    ensures x % n != n - 1 ==> (x + 1) / n == x / n && (x + 1) % n == x % n + 1
  {
    if x % n == n - 1 {
      DivModUnique(x + 1, n, x / n + 1, 0);
    } else {
      DivModUnique(x + 1, n, x / n, x % n + 1);
    }
  }

  /** Among `0 .. x - 1`, residue `i` occurs `x / n` times, once more when
      it is below `x % n`. */
  lemma {:induction false} ResiduesClosedForm(x: nat, n: nat, i: nat)
    requires n > 0 && i < n
    ensures Residues(x, n, i) == x / n + if i < x % n then 1 else 0
  {
    if x > 0 {
      ResiduesClosedForm(x - 1, n, i);
      DivModStep(x - 1, n);
    }
  }

  /** The window `c .. c + k - 1` holds the residues below `c + k` that are
      not below `c`. */
  lemma {:induction false} HitsResidues(c: nat, k: nat, n: nat, i: nat)
    requires n > 0
    ensures Hits(c, k, n, i) == Residues(c + k, n, i) - Residues(c, n, i)
    ensures Residues(c, n, i) <= Residues(c + k, n, i)
  {
    if k > 0 {
      HitsResidues(c, k - 1, n, i);
    }
  }

  /** Any window of consecutive values hits every residue equally often, up
      to one. */
  lemma Balanced(c: nat, k: nat, n: nat, i: nat, j: nat)
    requires n > 0 && i < n && j < n
    ensures Hits(c, k, n, i) <= Hits(c, k, n, j) + 1
  {
    HitsResidues(c, k, n, i);
    HitsResidues(c, k, n, j);
    ResiduesClosedForm(c + k, n, i);
    ResiduesClosedForm(c + k, n, j);
    ResiduesClosedForm(c, n, i);
    ResiduesClosedForm(c, n, j);
  }

  /** A window of `m * n` consecutive values hits every residue `m` times. */
  lemma Even(c: nat, m: nat, n: nat, i: nat)
    requires n > 0 && i < n
    ensures Hits(c, m * n, n, i) == m
  {
    HitsResidues(c, m * n, n, i);
    ResiduesClosedForm(c + m * n, n, i);
    ResiduesClosedForm(c, n, i);
    AddMultiple(c, m, n);
  }

  /** Adding `m` multiples of `n` adds `m` to the quotient and keeps the
      remainder. */
  lemma AddMultiple(c: nat, m: nat, n: nat)
    requires n > 0
    ensures (c + m * n) / n == c / n + m && (c + m * n) % n == c % n
  {
    var q := c / n;
    var r := c % n;
    assert c == n * q + r;
    assert m * n + n * q == n * (q + m);
    DivModUnique(c + m * n, n, q + m, r);
  }

  /** Without wrap-around and with distinct nodes, the round robin visits the
      arenas in turn: arena `i` gets the tasks whose counter value is `i`
      modulo the number of arenas. */
  lemma {:induction false} DispatchesDistinct(s: seq<int>, c: nat, k: nat, i: nat)
    requires |s| > 0 && DistinctNodes(s) && c + k <= SizeMod
    ensures Dispatches(s, c, k, i) == Hits(c, k, |s|, i)
  {
    if k > 0 {
      DispatchesDistinct(s, c, k - 1, i);
      assert (c + k - 1) % SizeMod == c + k - 1;
      ResolveDistinct(s, (c + k - 1) % |s|);
    }
  }

  /** From any counter value, as long as the counter does not wrap, `k`
      tasks without a preferred node spread over distinct nodes so that no
      arena gets more than one task more than another. */
  lemma BalancedDispatches(s: seq<int>, c: nat, k: nat, i: nat, j: nat)
    requires |s| > 0 && DistinctNodes(s) && c + k <= SizeMod && i < |s| && j < |s|
    ensures Dispatches(s, c, k, i) <= Dispatches(s, c, k, j) + 1
  {
    DispatchesDistinct(s, c, k, i);
    DispatchesDistinct(s, c, k, j);
    Balanced(c, k, |s|, i, j);
  }

  /** With a node listed twice, its second arena is never chosen by the
      round robin, however many tasks are scheduled. */
  lemma DuplicateNodeStarves(c: nat, k: nat)
    ensures Dispatches([0, 0], c, k, 1) == 0
  {
    if k > 0 {
      DuplicateNodeStarves(c, k - 1);
      ResolveSpec([0, 0], 0);
      assert [0, 0][((c + k - 1) % SizeMod) % 2] == 0;
    }
  }

  // ---------------------------------------------------------------------------
  // The scheduler

  /** A task handed to the TBB scheduler of an arena. */
  datatype Dispatch = Dispatch(arena: nat, task: Promise)

  /** The nodes a scheduler is built for: an empty list becomes `{-1}`. */
  function EffectiveNodes(nodes: seq<int>): (r: seq<int>)
    ensures |r| > 0
    ensures nodes != [] ==> r == nodes
  {
    if nodes == [] then [-1] else nodes
  }

  /** `TbbNumaScheduler`. */
  class Scheduler {
    var numaNodes: seq<int>
    /** The NUMA node of each arena. */
    var arenas: seq<int>
    var nodeToIndex: map<int, nat>
    var scheduledCounts: seq<nat>
    var nextIndex: nat
    var dispatched: seq<Dispatch>

    /** One arena and one counter per node, at least one; the map resolves
        each node to its first arena; the counter is a `size_t`; the nodes
        are C++ `int`s. */
    predicate Valid()
      reads this
    {
      |arenas| > 0 && arenas == numaNodes && |scheduledCounts| == |arenas| &&
      nodeToIndex == IndexMap(arenas) && nextIndex < SizeMod &&
      forall i :: 0 <= i < |arenas| ==> IsInt32(arenas[i])
    }

    /** The constructor from a list of nodes: an empty list becomes `{-1}`;
        then one arena per node, in order, each node mapped to its first
        arena, and every count zero. */
    constructor (nodes: seq<int>)
      requires forall i :: 0 <= i < |nodes| ==> IsInt32(nodes[i])
      ensures Valid()
      ensures numaNodes == EffectiveNodes(nodes) && arenas == numaNodes
      ensures |scheduledCounts| == |arenas| && forall i :: 0 <= i < |scheduledCounts| ==> scheduledCounts[i] == 0
      ensures nextIndex == 0 && dispatched == []
    {
      var ns := if nodes == [] then [-1] else nodes;
      var made: seq<int> := [];
      var m: map<int, nat> := map[];
      var i := 0;
      while i < |ns|
        invariant 0 <= i <= |ns|
        invariant made == ns[..i] && m == IndexMap(made)
      {
        var node := ns[i];
        if node !in m {
          m := m[node := |made|];
        }
        assert (made + [node])[..|made|] == made;
        made := made + [node];
        i := i + 1;
      }
      assert made == ns;
      numaNodes := ns;
      arenas := made;
      nodeToIndex := m;
      scheduledCounts := seq(|ns|, _ => 0);
      nextIndex := 0;
      dispatched := [];
    }

    /** `index_for_node`: the node's first arena, or arena 0 for a node
        that has none. */
    function IndexForNode(node: int): (r: nat)
      reads this
      requires Valid()
      ensures r < |arenas| && r == Resolve(arenas, node)
      ensures node in arenas ==> arenas[r] == node && forall j :: 0 <= j < r ==> arenas[j] != node
      ensures node !in arenas ==> r == 0
    {
      ResolveSpec(arenas, node);
      if node in nodeToIndex then nodeToIndex[node] else 0
    }

    /** `scheduled_count_for`: the count of the node's first arena, or of
        arena 0 for a node that has none. */
    function ScheduledCountFor(node: int): (r: nat)
      reads this
      requires Valid()
      ensures node in arenas ==>
                exists j :: 0 <= j < |arenas| && arenas[j] == node && r == scheduledCounts[j] &&
                            forall j' :: 0 <= j' < j ==> arenas[j'] != node
      ensures node !in arenas ==> r == scheduledCounts[0]
    {
      scheduledCounts[IndexForNode(node)]
    }

    /** `select_next_numa_node`: the node of the arena the counter points
        at, the counter moving on by one (modulo 2^64). */
    method SelectNextNumaNode() returns (node: int)
      requires Valid()
      modifies this
      ensures Valid()
      ensures node == arenas[old(nextIndex) % |arenas|] && nextIndex == (old(nextIndex) + 1) % SizeMod
      ensures arenas == old(arenas) && numaNodes == old(numaNodes) && nodeToIndex == old(nodeToIndex)
      ensures scheduledCounts == old(scheduledCounts) && dispatched == old(dispatched)
    {
      var count := |arenas|;
      var index := nextIndex;
      nextIndex := (nextIndex + 1) % SizeMod;
      node := arenas[index % count];
    }

    /** `schedule_on_node`: a task goes to the node's arena (arena 0 for
        an unknown node), takes that arena's node as its preferred node, and
        that arena's count, and no other, goes up by one. */
    method ScheduleOnNode(task: Promise, node: int)
      requires Valid() && task.Valid()
      modifies this, task
      ensures Valid() && task.Valid()
      ensures arenas == old(arenas) && numaNodes == old(numaNodes) && nodeToIndex == old(nodeToIndex)
      ensures var index := old(IndexForNode(node));
              scheduledCounts == old(scheduledCounts)[index := old(scheduledCounts[index]) + 1] &&
              task.PreferredNumaNode() == DecodeNumaNode(arenas[index]) &&
              dispatched == old(dispatched) + [Dispatch(index, task)]
      ensures nextIndex == old(nextIndex)
      ensures task.sinks == old(task.sinks) && task.awaiterCount == old(task.awaiterCount)
      ensures task.GetException() == old(task.GetException()) && task.destroyed == old(task.destroyed)
    {
      var index := IndexForNode(node);
      var actualNode := arenas[index];
      task.SetPreferredNumaNode(Some(actualNode));
      scheduledCounts := scheduledCounts[index := scheduledCounts[index] + 1];
      dispatched := dispatched + [Dispatch(index, task)];
    }

    /** `schedule(task)`: the preferred node of a task, if it has one,
        else the next round-robin node.  The round robin is consulted
        before the preference is looked at, so the counter moves on either
        way. */
    method Schedule(task: Promise)
      requires Valid() && task.Valid()
      modifies this, task
      ensures Valid() && task.Valid()
      ensures arenas == old(arenas) && numaNodes == old(numaNodes) && nodeToIndex == old(nodeToIndex)
      ensures nextIndex == (old(nextIndex) + 1) % SizeMod
      ensures var target := old(task.PreferredNumaNode()).GetOr(old(arenas[nextIndex % |arenas|]));
              var index := Resolve(arenas, target);
              scheduledCounts == old(scheduledCounts)[index := old(scheduledCounts)[index] + 1] &&
              task.PreferredNumaNode() == DecodeNumaNode(arenas[index]) &&
              dispatched == old(dispatched) + [Dispatch(index, task)]
      ensures task.sinks == old(task.sinks) && task.awaiterCount == old(task.awaiterCount)
    {
      var selected := SelectNextNumaNode();
      var target := task.PreferredNumaNode().GetOr(selected);
      ScheduleOnNode(task, target);
    }

    /** `schedule(task, numa_node)`. */
    method ScheduleOn(task: Promise, node: int)
      requires Valid() && task.Valid()
      modifies this, task
      ensures Valid() && task.Valid() && nextIndex == old(nextIndex)
      ensures arenas == old(arenas) && numaNodes == old(numaNodes) && nodeToIndex == old(nodeToIndex)
      ensures var index := Resolve(arenas, node);
              scheduledCounts == old(scheduledCounts)[index := old(scheduledCounts)[index] + 1] &&
              task.PreferredNumaNode() == DecodeNumaNode(arenas[index]) &&
              dispatched == old(dispatched) + [Dispatch(index, task)]
    {
      ScheduleOnNode(task, node);
    }

    /** `reschedule`: the preferred node of a task if it has one, and only
        otherwise the next round-robin node, so the counter moves on only
        for a task without a preference. */
    method Reschedule(task: Promise)
      requires Valid() && task.Valid()
      modifies this, task
      ensures Valid() && task.Valid()
      ensures arenas == old(arenas) && numaNodes == old(numaNodes) && nodeToIndex == old(nodeToIndex)
      ensures nextIndex == if old(task.PreferredNumaNode()).Some? then old(nextIndex) else (old(nextIndex) + 1) % SizeMod
      ensures var target := old(task.PreferredNumaNode()).GetOr(old(arenas[nextIndex % |arenas|]));
              var index := Resolve(arenas, target);
              scheduledCounts == old(scheduledCounts)[index := old(scheduledCounts)[index] + 1] &&
              task.PreferredNumaNode() == DecodeNumaNode(arenas[index]) &&
              dispatched == old(dispatched) + [Dispatch(index, task)]
    {
      var preferred := task.PreferredNumaNode();
      if preferred.Some? {
        ScheduleOnNode(task, preferred.value);
      } else {
        var selected := SelectNextNumaNode();
        ScheduleOnNode(task, selected);
      }
    }

    /** `k` new tasks, none with a preferred node, scheduled one after the
        other: arena `i` gets `Dispatches` of them. */
    method ScheduleFresh(k: nat)
      requires Valid()
      modifies this
      ensures Valid() && arenas == old(arenas) && numaNodes == old(numaNodes)
      ensures nextIndex == (old(nextIndex) + k) % SizeMod
      ensures |scheduledCounts| == |old(scheduledCounts)|
      ensures forall i :: 0 <= i < |scheduledCounts| ==>
                scheduledCounts[i] == old(scheduledCounts)[i] + Dispatches(arenas, old(nextIndex), k, i)
    {
      ghost var c := nextIndex;
      ghost var counts := scheduledCounts;
      var t := 0;
      while t < k
        invariant 0 <= t <= k && Valid()
        invariant arenas == old(arenas) && numaNodes == old(numaNodes)
        invariant nextIndex == (c + t) % SizeMod && |scheduledCounts| == |counts|
        invariant forall i :: 0 <= i < |scheduledCounts| ==>
                    scheduledCounts[i] == counts[i] + Dispatches(arenas, c, t, i)
      {
        var task := new Promise();
        assert (((c + t) % SizeMod) + 1) % SizeMod == (c + t + 1) % SizeMod;
        Schedule(task);
        t := t + 1;
      }
    }
  }

  /** The round-robin test: a scheduler over distinct nodes, `rounds` times
      as many tasks as nodes, no preferred node; every node ends with
      `rounds` tasks, so no two counts differ by more than one. */
  method RoundRobinScheduling(nodes: seq<int>, rounds: nat) returns (counts: seq<nat>)
    requires DistinctNodes(nodes) && forall i :: 0 <= i < |nodes| ==> IsInt32(nodes[i])
    requires |EffectiveNodes(nodes)| * rounds <= SizeMod
    ensures |counts| == |EffectiveNodes(nodes)|
    ensures forall i :: 0 <= i < |counts| ==> counts[i] == rounds
    ensures forall i, j :: 0 <= i < |counts| && 0 <= j < |counts| ==> counts[i] <= counts[j] + 1
  {
    var scheduler := new Scheduler(nodes);
    var n := |scheduler.numaNodes|;
    assert DistinctNodes(scheduler.arenas);
    scheduler.ScheduleFresh(n * rounds);
    counts := [];
    var i := 0;
    while i < n
      modifies {}
      invariant 0 <= i <= n && |counts| == i
      invariant forall j :: 0 <= j < i ==> counts[j] == rounds
    {
      var node := scheduler.numaNodes[i];
      ResolveDistinct(scheduler.arenas, i);
      DispatchesDistinct(scheduler.arenas, 0, n * rounds, i);
      assert rounds * n == n * rounds;
      Even(0, rounds, n, i);
      counts := counts + [scheduler.ScheduledCountFor(node)];
      i := i + 1;
    }
  }

  /** The preferred-node test: a task whose preferred node is the first
      node goes to the first arena; every other node's count stays zero. */
  method HonorsPreferredNumaNode(nodes: seq<int>) returns (preferredCount: nat, others: seq<nat>)
    requires forall i :: 0 <= i < |nodes| ==> IsInt32(nodes[i])
    ensures preferredCount == 1
    ensures forall i :: 0 <= i < |others| ==> others[i] == 0
    ensures |others| <= |EffectiveNodes(nodes)| - 1
  {
    var scheduler := new Scheduler(nodes);
    var preferred := scheduler.numaNodes[0];
    var task := new Promise();
    task.SetPreferredNumaNode(Some(preferred));
    NumaNodeRoundTrip(Some(preferred), 0);
    scheduler.Schedule(task);
    ghost var s := scheduler.arenas;
    ResolveSpec(s, preferred);
    preferredCount := scheduler.ScheduledCountFor(preferred);
    others := [];
    var i := 1;
    while i < |scheduler.numaNodes|
      modifies {}
      invariant 1 <= i <= |scheduler.numaNodes| && |others| <= i - 1
      invariant forall j :: 0 <= j < |others| ==> others[j] == 0
    {
      var node := scheduler.numaNodes[i];
      if node != preferred {
        ResolveSpec(s, node);
        others := others + [scheduler.ScheduledCountFor(node)];
      }
      i := i + 1;
    }
  }
}
