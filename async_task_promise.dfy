/** The bookkeeping of a coroutine's promise (src/async/async_task_promise.hpp):
    the count of `AsyncTask` owners, the first-exception-wins slot, the
    cancel-on-resume and started flags, the preferred NUMA node with its
    `INT_MIN` sentinel, the intrusive list of exception sinks, and the
    `AsyncTaskFactory` that hands out shared ownership.

    A coroutine handle is the promise object itself; an `AsyncTask` is a
    reference to it.  An `std::exception_ptr` is `Option<nat>` (`None` for the
    null pointer) and the `std::shared_ptr<EpochContext>` of a sink is
    `Option<nat>` as well.  Destroying the coroutine sets `destroyed`.  The
    atomics are plain fields under sequential execution. */
module AsyncTaskPromise {
  import opened Wrappers

  /** The range of a C++ `int`. */
  predicate IsInt32(x: int)
  {
    -0x8000_0000 <= x < 0x8000_0000
  }

  /** `kNoPreferredNumaNode`, `std::numeric_limits<int>::min()`. */
  const NoPreferredNumaNode: int := -0x8000_0000

  /** What `set_preferred_numa_node` stores for an optional node. */
  function EncodeNumaNode(node: Option<int>): int
  {
    if node.Some? then node.value else NoPreferredNumaNode
  }

  /** What `preferred_numa_node` reads back from the stored value. */
  function DecodeNumaNode(stored: int): Option<int>
  {
    if stored == NoPreferredNumaNode then None else Some(stored)
  }

  /** Setting a node and reading it back gives the same optional, for every
      node but the sentinel itself, which reads back as "no preference";
      and every stored value is written back unchanged. */
  lemma NumaNodeRoundTrip(node: Option<int>, stored: int)
    ensures DecodeNumaNode(EncodeNumaNode(node)) == node <==> node != Some(NoPreferredNumaNode)
    ensures EncodeNumaNode(DecodeNumaNode(stored)) == stored
  {
  }

  /** How a coroutine body ended with an exception: `task_cancelled`, or any
      other exception. */
  datatype Thrown = Cancelled | Other(eptr: nat)

  /** `ExceptionSinkNode`: one buffer's link in a promise's list of sinks. */
  class SinkNode {
    var owner: Promise?
    var prev: SinkNode?
    var next: SinkNode?
    var epoch: Option<nat>
    var explicitSink: bool

    /** A node is constructed unlinked. */
    constructor ()
      ensures Unlinked()
    {
      owner := null;
      prev := null;
      next := null;
      epoch := None;
      explicitSink := false;
    }

    /** Every field is cleared. */
    predicate Unlinked()
      reads this
    {
      owner == null && prev == null && next == null && epoch == None && !explicitSink
    }
  }

  /** `s` without `x`. */
  ghost function Without(s: seq<SinkNode>, x: SinkNode): seq<SinkNode>
  {
    if s == [] then []
    else if s[0] == x then s[1..]
    else [s[0]] + Without(s[1..], x)
  }

  /** No node occurs twice. */
  ghost predicate Distinct(s: seq<SinkNode>)
  {
    forall i, j :: 0 <= i < j < |s| ==> s[i] != s[j]
  }

  /** Removing the node at `k`, which does not occur before `k`, closes the
      gap and keeps the order of the others. */
  lemma {:induction false} WithoutAt(s: seq<SinkNode>, k: nat)
    requires k < |s| && forall i :: 0 <= i < k ==> s[i] != s[k]
    ensures Without(s, s[k]) == s[..k] + s[k + 1..]
  {
    if k > 0 {
      var t := s[1..];
      assert t[k - 1] == s[k] && s[0] != s[k];
      forall i | 0 <= i < k - 1 ensures t[i] != t[k - 1] {
        assert t[i] == s[i + 1];
      }
      WithoutAt(t, k - 1);
      assert s[..k] == [s[0]] + t[..k - 1];
      assert s[k + 1..] == t[k..];
    }
  }

  /** A node that does not occur is not removed from anything. */
  lemma {:induction false} WithoutAbsent(s: seq<SinkNode>, x: SinkNode)
    requires x !in s
    ensures Without(s, x) == s
  {
    if s != [] {
      assert s[0] != x;
      assert x !in s[1..];
      WithoutAbsent(s[1..], x);
      assert [s[0]] + s[1..] == s;
    }
  }

  /** The epochs of the sinks, in list order. */
  function EpochsOf(s: seq<SinkNode>): seq<Option<nat>>
    reads s
  {
    if s == [] then [] else EpochsOf(s[..|s| - 1]) + [s[|s| - 1].epoch]
  }

  /** `s` is a doubly-linked list starting at `head`, of distinct nodes, each
      owned by `owner` and carrying an epoch. */
  ghost predicate Linked(owner: Promise, s: seq<SinkNode>, head: SinkNode?)
    reads s
  {
    (s == [] ==> head == null) &&
    (s != [] ==> head == s[0]) &&
    Distinct(s) &&
    (forall i :: 0 <= i < |s| ==> s[i].owner == owner && s[i].epoch.Some?) &&
    (forall i :: 0 <= i < |s| ==> s[i].prev == if i == 0 then null else s[i - 1]) &&
    (forall i :: 0 <= i < |s| ==> s[i].next == if i + 1 == |s| then null else s[i + 1])
  }

  /** `BasicAsyncTaskPromise`. */
  class Promise {
    var awaiterCount: int
    var exceptionFlag: bool
    var eptr: Option<nat>
    var cancelOnResume: bool
    var preferredNumaNode: int
    var started: bool
    var destroyed: bool
    var head: SinkNode?
    /** The nodes of the sink list, from `exception_sinks_head_` along `next`. */
    ghost var sinks: seq<SinkNode>

    /** The sink list is well formed and the stored NUMA node is an `int`. */
    ghost predicate Valid()
      reads this, sinks
    {
      IsInt32(preferredNumaNode) && Linked(this, sinks, head)
    }

    /** The default constructor: unowned, no exception, no preference, no sinks. */
    constructor ()
      ensures Valid() && sinks == [] && awaiterCount == 0
      ensures !exceptionFlag && eptr == None && !cancelOnResume && !started && !destroyed
      ensures PreferredNumaNode() == None
    {
      awaiterCount := 0;
      exceptionFlag := false;
      eptr := None;
      cancelOnResume := false;
      preferredNumaNode := NoPreferredNumaNode;
      started := false;
      destroyed := false;
      head := null;
      sinks := [];
    }

    // -------------------------------------------------------------------------
    // The awaiter count

    /** `release_awaiter(count)` (and `release_awaiter()`, with 1): true exactly
        when the count was `count` before, that is when it reaches zero. */
    method ReleaseAwaiter(count: int) returns (last: bool)
      modifies this
      ensures awaiterCount == old(awaiterCount) - count
      ensures last <==> old(awaiterCount) == count
      ensures last <==> awaiterCount == 0
      ensures unchanged(this) || awaiterCount != old(awaiterCount) || count == 0
      ensures sinks == old(sinks) && head == old(head) && preferredNumaNode == old(preferredNumaNode)
      ensures exceptionFlag == old(exceptionFlag) && eptr == old(eptr) && destroyed == old(destroyed)
    {
      var prior := awaiterCount;
      awaiterCount := awaiterCount - count;
      last := prior == count;
    }

    /** `add_awaiter(count)` (and `add_awaiter()`, with 1): the count before. */
    method AddAwaiter(count: int) returns (prior: int)
      modifies this
      ensures prior == old(awaiterCount) && awaiterCount == prior + count
      ensures sinks == old(sinks) && head == old(head) && preferredNumaNode == old(preferredNumaNode)
      ensures exceptionFlag == old(exceptionFlag) && eptr == old(eptr) && destroyed == old(destroyed)
    {
      prior := awaiterCount;
      awaiterCount := awaiterCount + count;
    }

    /** `take_ownership`: an unowned coroutine (a debug check) gets its one
        owning task. */
    method TakeOwnership() returns (task: Promise)
      requires awaiterCount == 0
      modifies this
      ensures task == this && awaiterCount == 1
      ensures sinks == old(sinks) && head == old(head) && preferredNumaNode == old(preferredNumaNode)
      ensures destroyed == old(destroyed)
    {
      var prior := AddAwaiter(1);
      task := this;
    }

    /** `release_ownership`: gives up one owner and hands back the coroutine
        exactly when that owner was the only one. */
    method ReleaseOwnership() returns (h: Promise?)
      modifies this
      ensures awaiterCount == old(awaiterCount) - 1
      ensures h == (if old(awaiterCount) == 1 then this else null)
      ensures sinks == old(sinks) && head == old(head) && preferredNumaNode == old(preferredNumaNode)
      ensures destroyed == old(destroyed)
    {
      var last := ReleaseAwaiter(1);
      h := if last then this else null;
    }

    /** `get_return_object`: the caller's task, which counts as one owner.
        (The registration with `TaskRegistry` is not part of this model.) */
    method GetReturnObject() returns (task: Promise)
      modifies this
      ensures task == this && awaiterCount == old(awaiterCount) + 1
      ensures sinks == old(sinks) && head == old(head) && preferredNumaNode == old(preferredNumaNode)
      ensures destroyed == old(destroyed)
    {
      var prior := AddAwaiter(1);
      task := this;
    }

    /** `take_shared_ownership(count)`: a factory holding `count` claims. */
    method TakeSharedOwnership(count: nat) returns (f: AsyncTaskFactory)
      requires awaiterCount == 0 && !destroyed
      modifies this
      ensures fresh(f) && f.Valid()
      ensures awaiterCount == count
      ensures count == 0 ==> destroyed && f.handle == null && f.count == 0
      ensures count > 0 ==> !destroyed && f.handle == this && f.count == count
      ensures sinks == old(sinks) && head == old(head) && preferredNumaNode == old(preferredNumaNode)
    {
      f := new AsyncTaskFactory(this, count);
    }

    /** `destroy_and_track`: the coroutine frame is destroyed.  (The removal
        from `TaskRegistry` is not part of this model.) */
    method DestroyAndTrack()
      modifies this
      ensures destroyed
      ensures awaiterCount == old(awaiterCount)
      ensures sinks == old(sinks) && head == old(head) && preferredNumaNode == old(preferredNumaNode)
    {
      destroyed := true;
    }

    // -------------------------------------------------------------------------
    // Exceptions, cancellation and the started flag

    /** `get_exception`: the stored exception once the flag is set, else null. */
    function GetException(): (r: Option<nat>)
      reads this
    {
      if exceptionFlag then eptr else None
    }

    /** `set_exception`: only the first call stores its exception; later ones
        are dropped. */
    method SetException(e: Option<nat>)
      modifies this
      ensures exceptionFlag
      ensures GetException() == if old(exceptionFlag) then old(GetException()) else e
      ensures eptr == if old(exceptionFlag) then old(eptr) else e
      ensures awaiterCount == old(awaiterCount) && cancelOnResume == old(cancelOnResume)
      ensures sinks == old(sinks) && head == old(head) && preferredNumaNode == old(preferredNumaNode)
      ensures destroyed == old(destroyed)
    {
      var was := exceptionFlag;
      exceptionFlag := true;
      if !was {
        eptr := e;
      }
    }

    /** `set_cancel_on_resume`. */
    method SetCancelOnResume()
      modifies this
      ensures cancelOnResume
      ensures awaiterCount == old(awaiterCount) && GetException() == old(GetException())
      ensures sinks == old(sinks) && head == old(head) && preferredNumaNode == old(preferredNumaNode)
      ensures destroyed == old(destroyed)
    {
      cancelOnResume := true;
    }

    /** `mark_started`; `has_started` reads the flag. */
    method MarkStarted()
      modifies this
      ensures started
      ensures awaiterCount == old(awaiterCount) && GetException() == old(GetException())
      ensures cancelOnResume == old(cancelOnResume)
      ensures sinks == old(sinks) && head == old(head) && preferredNumaNode == old(preferredNumaNode)
      ensures destroyed == old(destroyed)
    {
      started := true;
    }

    /** `unhandled_exception`: a cancellation marks the coroutine to be
        destroyed on resume; any other exception is recorded (first one wins)
        and handed to the epoch of every sink, from the head of the list
        along `next`.  The result lists those epochs in the order notified. */
    method UnhandledException(thrown: Thrown) returns (notified: seq<Option<nat>>)
      requires Valid()
      modifies this
      ensures Valid() && sinks == old(sinks)
      ensures thrown.Cancelled? ==> cancelOnResume && notified == [] && GetException() == old(GetException())
      ensures thrown.Other? ==>
                cancelOnResume == old(cancelOnResume) && notified == EpochsOf(sinks) &&
                GetException() == if old(exceptionFlag) then old(GetException()) else Some(thrown.eptr)
      ensures awaiterCount == old(awaiterCount) && destroyed == old(destroyed)
    {
      if thrown.Cancelled? {
        SetCancelOnResume();
        notified := [];
      } else {
        SetException(Some(thrown.eptr));
        notified := NotifySinks();
      }
    }

    /** The walk of `unhandled_exception` over the sink list. */
    method NotifySinks() returns (notified: seq<Option<nat>>)
      requires Valid()
      ensures notified == EpochsOf(sinks)
      ensures |notified| == |sinks| && forall k :: 0 <= k < |notified| ==> notified[k].Some?
    {
      notified := [];
      var node := head;
      ghost var i := 0;
      while node != null
        invariant 0 <= i <= |sinks|
        invariant node == if i < |sinks| then sinks[i] else null
        invariant notified == EpochsOf(sinks[..i])
        invariant |notified| == i && forall k :: 0 <= k < i ==> notified[k] == sinks[k].epoch
        decreases |sinks| - i
      {
        assert sinks[..i + 1][..i] == sinks[..i];
        assert node.next == if i + 1 == |sinks| then null else sinks[i + 1];
        notified := notified + [node.epoch];
        node := node.next;
        i := i + 1;
      }
      assert sinks[..i] == sinks;
    }

    // -------------------------------------------------------------------------
    // The preferred NUMA node

    /** `preferred_numa_node`. */
    function PreferredNumaNode(): (r: Option<int>)
      reads this
    {
      DecodeNumaNode(preferredNumaNode)
    }

    /** `set_preferred_numa_node`: a node is stored as is, no node as the
        sentinel; so the node reads back, unless it is the sentinel itself. */
    method SetPreferredNumaNode(node: Option<int>)
      requires Valid()
      requires node.Some? ==> IsInt32(node.value)
      modifies this
      ensures Valid()
      ensures preferredNumaNode == EncodeNumaNode(node)
      ensures node != Some(NoPreferredNumaNode) ==> PreferredNumaNode() == node
      ensures node == Some(NoPreferredNumaNode) ==> PreferredNumaNode() == None
      ensures awaiterCount == old(awaiterCount) && GetException() == old(GetException())
      ensures sinks == old(sinks) && head == old(head) && destroyed == old(destroyed)
    {
      preferredNumaNode := if node.Some? then node.value else NoPreferredNumaNode;
      NumaNodeRoundTrip(node, 0);
    }

    // -------------------------------------------------------------------------
    // The exception sinks

    /** `unregister_exception_sink`: nothing happens for a node owned by
        another promise (or by none); otherwise the neighbours (or the head)
        are relinked around the node and every field of the node is cleared.
        The debug check against destruction during unwinding is not part of
        this model. */
    method UnregisterExceptionSink(node: SinkNode)
      requires Valid()
      requires node.owner == this ==> node in sinks
      modifies this, sinks
      ensures Valid()
      ensures old(node.owner) != this ==> sinks == old(sinks) && unchanged(node) && head == old(head)
      ensures old(node.owner) == this ==> sinks == Without(old(sinks), node) && node.Unlinked()
      ensures node !in sinks && forall n :: n in sinks ==> n in old(sinks)
      ensures awaiterCount == old(awaiterCount) && preferredNumaNode == old(preferredNumaNode)
      ensures GetException() == old(GetException()) && destroyed == old(destroyed)
    {
      if node.owner != this {
        assert forall i :: 0 <= i < |sinks| ==> sinks[i] != node;
        return;
      }
      Unlink(node);
    }

    /** The relinking of `unregister_exception_sink` for a node of this list. */
    method Unlink(node: SinkNode)
      requires Valid() && node in sinks
      modifies this, sinks
      ensures Valid() && sinks == Without(old(sinks), node) && node.Unlinked()
      ensures node !in sinks && forall n :: n in sinks ==> n in old(sinks)
      ensures awaiterCount == old(awaiterCount) && preferredNumaNode == old(preferredNumaNode)
      ensures exceptionFlag == old(exceptionFlag) && eptr == old(eptr) && destroyed == old(destroyed)
    {
      ghost var s := sinks;
      ghost var k :| 0 <= k < |s| && s[k] == node;
      ghost var links := LinksOf(s);
      LinkedLinks(this, s, head, links);
      assert node.prev == links[k].prev && node.next == links[k].next;
      assert links[k].prev != null ==> links[k].prev == s[k - 1] && s[k - 1] != node;
      assert links[k].next != null ==> links[k].next == s[k + 1] && s[k + 1] != node;
      var newHead := Bypass(head, node, s, k, links);
      Relink(newHead, s, k, links);
      RemovedDistinct(s, k);
      WithoutAt(s, k);
    }

    /** The last writes of `unregister_exception_sink`: the head moves on
        when node `k` was the first, and the list is `s` without node `k`. */
    method Relink(newHead: SinkNode?, ghost s: seq<SinkNode>, ghost k: nat, ghost links: seq<Link>)
      requires IsInt32(preferredNumaNode)
      requires k < |s| && Distinct(s) && |links| == |s|
      requires forall i :: 0 <= i < |s| ==>
                 links[i].owner == this && links[i].epoch.Some? &&
                 links[i].prev == (if i == 0 then null else s[i - 1]) &&
                 links[i].next == (if i + 1 == |s| then null else s[i + 1])
      requires forall i :: 0 <= i < |s| && s[i] != s[k] ==> s[i].owner == links[i].owner && s[i].epoch == links[i].epoch
      requires forall i :: 0 <= i < |s| && s[i] != s[k] && s[i] != links[k].prev ==> s[i].next == links[i].next
      requires forall i :: 0 <= i < |s| && s[i] != s[k] && s[i] != links[k].next ==> s[i].prev == links[i].prev
      requires links[k].prev != null ==> links[k].prev.next == links[k].next && newHead == s[0]
      requires links[k].prev == null ==> newHead == links[k].next
      requires links[k].next != null ==> links[k].next.prev == links[k].prev
      requires s[k].Unlinked()
      modifies this
      ensures Valid() && head == newHead && sinks == s[..k] + s[k + 1..] && s[k].Unlinked()
      ensures awaiterCount == old(awaiterCount) && preferredNumaNode == old(preferredNumaNode)
      ensures exceptionFlag == old(exceptionFlag) && eptr == old(eptr) && destroyed == old(destroyed)
    {
      UnlinkedLinked(this, s, k, newHead, links);
      head := newHead;
      sinks := s[..k] + s[k + 1..];
    }

    /** The writes of `unregister_exception_sink` on node `k` of `s`: its
        neighbours bypass it (or, for the first node, `newHead` is the next
        one), and its fields are cleared; no other field of a node of `s`
        changes from the snapshot `links`. */
    method Bypass(head: SinkNode?, node: SinkNode, ghost s: seq<SinkNode>, ghost k: nat, ghost links: seq<Link>)
      returns (newHead: SinkNode?)
      requires k < |s| && s[k] == node && links == LinksOf(s) && head == s[0]
      requires node.prev != node && node.next != node
      modifies node, node.prev, node.next
      ensures links[k].prev != null ==> links[k].prev.next == links[k].next && newHead == s[0]
      ensures links[k].prev == null ==> newHead == links[k].next
      ensures links[k].next != null ==> links[k].next.prev == links[k].prev
      ensures node.Unlinked() && unchanged(this)
      ensures forall i :: 0 <= i < |s| && s[i] != s[k] ==> s[i].owner == links[i].owner && s[i].epoch == links[i].epoch
      ensures forall i :: 0 <= i < |s| && s[i] != s[k] && s[i] != links[k].prev ==> s[i].next == links[i].next
      ensures forall i :: 0 <= i < |s| && s[i] != s[k] && s[i] != links[k].next ==> s[i].prev == links[i].prev
    {
      var p := node.prev;
      var n := node.next;
      if p != null {
        p.next := n;
        newHead := head;
      } else {
        newHead := n;
      }
      if n != null {
        n.prev := p;
      }
      node.owner := null;
      node.prev := null;
      node.next := null;
      node.epoch := None;
      node.explicitSink := false;
    }

    /** Prepends an unlinked node, with its epoch and flag, to the list. */
    method Push(node: SinkNode, epoch: nat, explicitSink: bool)
      requires Valid() && node !in sinks
      modifies this, node, head
      ensures Valid() && sinks == [node] + old(sinks) && head == node
      ensures node.owner == this && node.epoch == Some(epoch) && node.explicitSink == explicitSink
      ensures awaiterCount == old(awaiterCount) && preferredNumaNode == old(preferredNumaNode)
      ensures GetException() == old(GetException()) && destroyed == old(destroyed)
    {
      ghost var rest := sinks;
      ghost var links := LinksOf(rest);
      LinkedLinks(this, rest, head, links);
      Prepend(node, epoch, explicitSink, rest, links);
      PrependedLinked(this, node, rest, links);
      sinks := [node] + rest;
    }

    /** The writes of `register_exception_sink` that link `node` in front of
        the list `rest`; no other field of a node of `rest` changes from the
        snapshot `links`. */
    method Prepend(node: SinkNode, epoch: nat, explicitSink: bool, ghost rest: seq<SinkNode>, ghost links: seq<Link>)
      requires node !in rest && Distinct(rest) && links == LinksOf(rest)
      requires head == if rest == [] then null else rest[0]
      modifies this, node, head
      ensures head == node && node.owner == this && node.epoch == Some(epoch) && node.explicitSink == explicitSink
      ensures node.prev == null && node.next == if rest == [] then null else rest[0]
      ensures forall i :: 0 <= i < |rest| ==>
                rest[i].owner == links[i].owner && rest[i].epoch == links[i].epoch && rest[i].next == links[i].next
      ensures forall i :: 0 < i < |rest| ==> rest[i].prev == links[i].prev
      ensures rest != [] ==> rest[0].prev == node
      ensures sinks == old(sinks) && awaiterCount == old(awaiterCount) && preferredNumaNode == old(preferredNumaNode)
      ensures GetException() == old(GetException()) && destroyed == old(destroyed)
    {
      var first := head;
      assert forall i :: 0 < i < |rest| ==> rest[i] != first;
      node.owner := this;
      node.epoch := Some(epoch);
      node.explicitSink := explicitSink;
      node.prev := null;
      node.next := first;
      if first != null {
        first.prev := node;
      }
      head := node;
    }

    /** `register_exception_sink`: the node first leaves the list of any
        previous owner; with a null epoch it stays unlinked; otherwise it
        becomes the head of this promise's list, owned by this promise and
        carrying the epoch and the explicit flag. */
    method RegisterExceptionSink(node: SinkNode, epoch: Option<nat>, explicitSink: bool)
      requires Valid()
      requires node.owner != null ==> node.owner.Valid() && node in node.owner.sinks
      requires node.owner == null ==> node.Unlinked()
      modifies this, sinks, node, node.owner, if node.owner == null then [] else node.owner.sinks
      ensures Valid()
      ensures old(node.owner) != null && old(node.owner) != this ==>
                old(node.owner).sinks == Without(old(node.owner.sinks), node)
      ensures epoch == None ==>
                node.Unlinked() &&
                sinks == if old(node.owner) == this then Without(old(sinks), node) else old(sinks)
      ensures epoch != None ==>
                head == node && node.owner == this && node.epoch == epoch && node.explicitSink == explicitSink &&
                sinks == [node] + if old(node.owner) == this then Without(old(sinks), node) else old(sinks)
      ensures awaiterCount == old(awaiterCount) && preferredNumaNode == old(preferredNumaNode)
      ensures GetException() == old(GetException()) && destroyed == old(destroyed)
    {
      var previous := node.owner;
      if previous == this {
        UnregisterExceptionSink(node);
      } else {
        LeaveOther(node);
      }
      if epoch == None {
        return;
      }
      Push(node, epoch.value, explicitSink);
    }

    /** The first step of `register_exception_sink` for a node that is not in
        this list: it leaves the list of its owner, if it has one. */
    method LeaveOther(node: SinkNode)
      requires Valid() && node.owner != this
      requires node.owner != null ==> node.owner.Valid() && node in node.owner.sinks
      requires node.owner == null ==> node.Unlinked()
      modifies node.owner, if node.owner == null then [] else node.owner.sinks
      ensures Valid() && sinks == old(sinks) && head == old(head) && node !in sinks
      ensures old(node.owner) != null ==>
                old(node.owner).sinks == Without(old(node.owner.sinks), node)
      ensures node.Unlinked()
      ensures sinks == Without(old(sinks), node)
      ensures awaiterCount == old(awaiterCount) && preferredNumaNode == old(preferredNumaNode)
      ensures GetException() == old(GetException()) && destroyed == old(destroyed)
    {
      assert node !in sinks;
      WithoutAbsent(sinks, node);
      var previous := node.owner;
      if previous != null {
        assert forall n :: n in sinks ==> n.owner == this;
        assert forall n :: n in previous.sinks ==> n.owner == previous;
        previous.UnregisterExceptionSink(node);
      }
    }
  }

  /** The links of one node of a well-formed list. */
  lemma LinkedAt(owner: Promise, s: seq<SinkNode>, head: SinkNode?, i: nat)
    requires Linked(owner, s, head) && i < |s|
    ensures s[i].owner == owner && s[i].epoch.Some?
    ensures s[i].prev == if i == 0 then null else s[i - 1]
    ensures s[i].next == if i + 1 == |s| then null else s[i + 1]
  {
  }

  /** The fields of a node, as read at one moment. */
  datatype Link = Link(owner: Promise?, prev: SinkNode?, next: SinkNode?, epoch: Option<nat>)

  /** The fields of the nodes of `s`. */
  ghost function LinksOf(s: seq<SinkNode>): (r: seq<Link>)
    reads s
    ensures |r| == |s|
    ensures forall i :: 0 <= i < |s| ==> r[i] == Link(s[i].owner, s[i].prev, s[i].next, s[i].epoch)
  {
    if s == [] then [] else LinksOf(s[..|s| - 1]) + [Link(s[|s| - 1].owner, s[|s| - 1].prev, s[|s| - 1].next, s[|s| - 1].epoch)]
  }

  /** A well-formed list, read through a snapshot `links` of its fields. */
  lemma LinkedLinks(owner: Promise, s: seq<SinkNode>, head: SinkNode?, links: seq<Link>)
    requires Linked(owner, s, head) && links == LinksOf(s)
    ensures |links| == |s| && Distinct(s) && head == (if s == [] then null else s[0])
    ensures forall i :: 0 <= i < |s| ==>
              links[i].owner == owner && links[i].epoch.Some? &&
              links[i].prev == (if i == 0 then null else s[i - 1]) &&
              links[i].next == (if i + 1 == |s| then null else s[i + 1])
  {
    forall i | 0 <= i < |s|
      ensures links[i].prev == (if i == 0 then null else s[i - 1])
      ensures links[i].next == (if i + 1 == |s| then null else s[i + 1])
    {
      LinkedAt(owner, s, head, i);
    }
  }

  /** Taking element `k` out of a sequence of distinct nodes removes it and
      keeps only nodes of the sequence. */
  lemma RemovedDistinct(s: seq<SinkNode>, k: nat)
    requires k < |s| && Distinct(s)
    ensures Distinct(s[..k] + s[k + 1..])
    ensures s[k] !in s[..k] + s[k + 1..]
    ensures forall n :: n in s[..k] + s[k + 1..] ==> n in s
  {
    var t := s[..k] + s[k + 1..];
    forall i, j | 0 <= i < j < |t| ensures t[i] != t[j] {
      var a := if i < k then i else i + 1;
      var b := if j < k then j else j + 1;
      assert t[i] == s[a] && t[j] == s[b];
    }
    forall i | 0 <= i < |t| ensures t[i] != s[k] && t[i] in s {
      var a := if i < k then i else i + 1;
      assert t[i] == s[a];
    }
  }

  /** With node `k` taken out, the other nodes keep their owner and epoch. */
  lemma RemovedOwners(owner: Promise, s: seq<SinkNode>, k: nat, links: seq<Link>)
    requires k < |s| && |links| == |s|
    requires forall i :: 0 <= i < |s| ==> links[i].owner == owner && links[i].epoch.Some?
    requires forall i :: 0 <= i < |s| && s[i] != s[k] ==> s[i].owner == links[i].owner && s[i].epoch == links[i].epoch
    requires Distinct(s)
    ensures var t := s[..k] + s[k + 1..];
            forall i :: 0 <= i < |t| ==> t[i].owner == owner && t[i].epoch.Some?
  {
    var t := s[..k] + s[k + 1..];
    forall i | 0 <= i < |t| ensures t[i].owner == owner && t[i].epoch.Some? {
      var a := if i < k then i else i + 1;
      assert t[i] == s[a] && s[a] != s[k];
    }
  }

  /** With node `k` taken out and its successor pointing back at its
      predecessor, every `prev` link of the shorter list is right. */
  lemma RemovedPrev(s: seq<SinkNode>, k: nat, links: seq<Link>)
    requires k < |s| && Distinct(s) && |links| == |s|
    requires forall i :: 0 <= i < |s| ==>
               links[i].prev == (if i == 0 then null else s[i - 1]) &&
               links[i].next == (if i + 1 == |s| then null else s[i + 1])
    requires forall i :: 0 <= i < |s| && s[i] != s[k] && s[i] != links[k].next ==> s[i].prev == links[i].prev
    requires links[k].next != null ==> links[k].next.prev == links[k].prev
    ensures var t := s[..k] + s[k + 1..];
            forall i :: 0 <= i < |t| ==> t[i].prev == if i == 0 then null else t[i - 1]
  {
    var t := s[..k] + s[k + 1..];
    forall i | 0 <= i < |t|
      ensures t[i].prev == if i == 0 then null else t[i - 1]
    {
      if i < k {
        assert t[i] == s[i] && s[i] != s[k];
        if k + 1 < |s| { assert s[i] != s[k + 1]; }
        if i > 0 { assert t[i - 1] == s[i - 1]; }
      } else if i == k {
        assert t[i] == s[k + 1];
        if k > 0 { assert t[i - 1] == s[k - 1]; }
      } else {
        assert t[i] == s[i + 1] && t[i - 1] == s[i];
        assert s[i + 1] != s[k] && s[i + 1] != s[k + 1];
      }
    }
  }

  /** With node `k` taken out and its predecessor pointing on to its
      successor, every `next` link of the shorter list is right. */
  lemma RemovedNext(s: seq<SinkNode>, k: nat, links: seq<Link>)
    requires k < |s| && Distinct(s) && |links| == |s|
    requires forall i :: 0 <= i < |s| ==>
               links[i].prev == (if i == 0 then null else s[i - 1]) &&
               links[i].next == (if i + 1 == |s| then null else s[i + 1])
    requires forall i :: 0 <= i < |s| && s[i] != s[k] && s[i] != links[k].prev ==> s[i].next == links[i].next
    requires links[k].prev != null ==> links[k].prev.next == links[k].next
    ensures var t := s[..k] + s[k + 1..];
            forall i :: 0 <= i < |t| ==> t[i].next == if i + 1 == |t| then null else t[i + 1]
  {
    var t := s[..k] + s[k + 1..];
    forall i | 0 <= i < |t|
      ensures t[i].next == if i + 1 == |t| then null else t[i + 1]
    {
      if i + 1 < k {
        assert t[i] == s[i] && t[i + 1] == s[i + 1];
        assert s[i] != s[k] && s[i] != s[k - 1];
      } else if i + 1 == k {
        assert t[i] == s[k - 1];
        if i + 1 < |t| { assert t[i + 1] == s[k + 1]; }
      } else {
        assert t[i] == s[i + 1] && s[i + 1] != s[k];
        if k > 0 { assert s[i + 1] != s[k - 1]; }
        if i + 1 < |t| { assert t[i + 1] == s[i + 2]; }
      }
    }
  }

  /** The list with node `k` taken out is again well formed, once the
      neighbours of `k` point at each other (or the head moves on) and no
      other link has changed since the snapshot `links`. */
  lemma UnlinkedLinked(owner: Promise, s: seq<SinkNode>, k: nat, head: SinkNode?, links: seq<Link>)
    requires k < |s| && Distinct(s) && |links| == |s|
    requires forall i :: 0 <= i < |s| ==>
               links[i].owner == owner && links[i].epoch.Some? &&
               links[i].prev == (if i == 0 then null else s[i - 1]) &&
               links[i].next == (if i + 1 == |s| then null else s[i + 1])
    requires forall i :: 0 <= i < |s| && s[i] != s[k] ==> s[i].owner == links[i].owner && s[i].epoch == links[i].epoch
    requires forall i :: 0 <= i < |s| && s[i] != s[k] && s[i] != links[k].prev ==> s[i].next == links[i].next
    requires forall i :: 0 <= i < |s| && s[i] != s[k] && s[i] != links[k].next ==> s[i].prev == links[i].prev
    requires links[k].prev != null ==> links[k].prev.next == links[k].next && head == s[0]
    requires links[k].prev == null ==> head == links[k].next
    requires links[k].next != null ==> links[k].next.prev == links[k].prev
    ensures Linked(owner, s[..k] + s[k + 1..], head)
  {
    RemovedDistinct(s, k);
    RemovedOwners(owner, s, k, links);
    RemovedPrev(s, k, links);
    RemovedNext(s, k, links);
    var t := s[..k] + s[k + 1..];
    if k == 0 {
      if |s| > 1 { assert t[0] == s[1]; }
    } else {
      assert t[0] == s[0];
    }
  }

  /** The list `rest` with `node` linked in front is well formed, once the
      old first node points back at `node` and no other link has changed
      since the snapshot `links`. */
  lemma PrependedLinked(owner: Promise, node: SinkNode, rest: seq<SinkNode>, links: seq<Link>)
    requires node !in rest && Distinct(rest) && |links| == |rest|
    requires forall i :: 0 <= i < |rest| ==>
               links[i].owner == owner && links[i].epoch.Some? &&
               links[i].prev == (if i == 0 then null else rest[i - 1]) &&
               links[i].next == (if i + 1 == |rest| then null else rest[i + 1])
    requires node.owner == owner && node.epoch.Some?
    requires node.prev == null && node.next == if rest == [] then null else rest[0]
    requires forall i :: 0 <= i < |rest| ==>
               rest[i].owner == links[i].owner && rest[i].epoch == links[i].epoch && rest[i].next == links[i].next
    requires forall i :: 0 < i < |rest| ==> rest[i].prev == links[i].prev
    requires rest != [] ==> rest[0].prev == node
    ensures Linked(owner, [node] + rest, node)
  {
    var t := [node] + rest;
    forall i | 1 <= i < |t|
      ensures t[i] == rest[i - 1]
      ensures t[i].owner == owner && t[i].epoch.Some?
      ensures t[i].prev == t[i - 1]
      ensures t[i].next == if i + 1 == |t| then null else t[i + 1]
    {
    }
    assert Distinct(t) by {
      forall i, j | 0 <= i < j < |t| ensures t[i] != t[j] {
        if i > 0 {
          assert t[i] == rest[i - 1] && t[j] == rest[j - 1];
        }
      }
    }
  }

  /** `AsyncTaskFactory`: `count` ownership claims on one coroutine, handed
      out one at a time. */
  class AsyncTaskFactory {
    var handle: Promise?
    var count: nat

    /** A factory with outstanding claims refers to a coroutine. */
    predicate Valid()
      reads this
    {
      count > 0 ==> handle != null
    }

    /** The private constructor: adds `count` awaiters to an unowned
        coroutine (a debug check) and destroys it at once when `count` is 0. */
    constructor (h: Promise, count: nat)
      requires h.awaiterCount == 0 && !h.destroyed
      modifies h
      ensures Valid()
      ensures h.awaiterCount == count
      ensures count == 0 ==> h.destroyed && handle == null && this.count == 0
      ensures count > 0 ==> !h.destroyed && handle == h && this.count == count
      ensures h.sinks == old(h.sinks) && h.head == old(h.head) && h.preferredNumaNode == old(h.preferredNumaNode)
    {
      handle := h;
      this.count := count;
      new;
      var prior := h.AddAwaiter(count);
      if count == 0 {
        h.DestroyAndTrack();
        handle := null;
      }
    }

    /** The move constructor: takes the claims, leaving `other` empty. */
    constructor Move(other: AsyncTaskFactory)
      modifies other
      ensures handle == old(other.handle) && count == old(other.count)
      ensures other.handle == null && other.count == 0
    {
      handle := other.handle;
      count := other.count;
      new;
      other.handle := null;
      other.count := 0;
    }

    /** `take_next`: one claim becomes a task (a debug precondition: some
        claim is left). */
    method TakeNext() returns (task: Promise?)
      requires Valid() && count > 0
      modifies this
      ensures Valid()
      ensures task == handle && handle == old(handle) && count == old(count) - 1
    {
      count := count - 1;
      task := handle;
    }

    /** `release_outstanding` (also the destructor): gives back the claims not
        handed out, destroying the coroutine when that leaves it unowned, and
        empties the factory. */
    method ReleaseOutstanding()
      requires Valid()
      modifies this, handle
      ensures handle == null && count == 0
      ensures old(count) > 0 ==>
                old(handle).awaiterCount == old(handle.awaiterCount) - old(count) &&
                (old(handle).destroyed <==> old(handle.destroyed) || old(handle.awaiterCount) == old(count))
      ensures old(count) > 0 ==>
                old(handle).sinks == old(handle.sinks) && old(handle).head == old(handle.head)
      ensures old(count) == 0 && old(handle) != null ==> unchanged(old(handle))
    {
      if count > 0 {
        var last := handle.ReleaseAwaiter(count);
        if last {
          handle.DestroyAndTrack();
        }
      }
      count := 0;
      handle := null;
    }

    /** Move assignment: a no-op on itself; otherwise the outstanding claims
        are released and those of `other` taken over. */
    method MoveAssign(other: AsyncTaskFactory)
      requires Valid() && other.Valid()
      modifies this, handle, other
      ensures other != this ==>
                handle == old(other.handle) && count == old(other.count) &&
                other.handle == null && other.count == 0
      ensures other != this && old(count) > 0 ==>
                old(handle).awaiterCount == old(handle.awaiterCount) - old(count) &&
                (old(handle).destroyed <==> old(handle.destroyed) || old(handle.awaiterCount) == old(count))
      ensures other == this ==> unchanged(this) && (old(handle) != null ==> unchanged(old(handle)))
      ensures Valid()
    {
      if other != this {
        var h := other.handle;
        var c := other.count;
        ReleaseOutstanding();
        handle := h;
        count := c;
        other.handle := null;
        other.count := 0;
      }
    }
  }

  /** Shared ownership end to end: a factory of `n` claims on an unowned
      coroutine hands out `k` tasks and is then dropped.  The coroutine is
      left with exactly the `k` owners, and is destroyed exactly when no
      task was handed out. */
  method ShareThenDrop(n: nat, k: nat) returns (owners: int, destroyed: bool)
    requires k <= n
    ensures owners == k
    ensures destroyed <==> k == 0
  {
    var p := new Promise();
    var f := p.TakeSharedOwnership(n);
    var i := 0;
    while i < k
      invariant 0 <= i <= k
      invariant f.count == n - i && p.awaiterCount == n
      invariant n > 0 ==> f.handle == p && !p.destroyed
      invariant n == 0 ==> p.destroyed && f.handle == null
      invariant f.Valid()
    {
      var t := f.TakeNext();
      i := i + 1;
    }
    f.ReleaseOutstanding();
    owners := p.awaiterCount;
    destroyed := p.destroyed;
  }
}
