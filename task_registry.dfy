/** The debug bookkeeping of asynchronous tasks and epoch contexts
    (src/async/task_registry_debug.cpp): the state and role names, the
    `UNI20_DEBUG_ASYNC_TASKS` dump-mode parser, the registry of live
    coroutines and epoch contexts with their identifiers and state
    transitions, and the ordering of each task's epoch associations in the
    dump.

    A coroutine handle or epoch-context pointer is its address, a `nat`, with
    0 for the null handle.  The clock is a parameter (`now`); stack traces,
    the mutex and the printed dump are not part of this model. */
module TaskRegistry {
  import Wrappers
  import StringUtil

  // ---------------------------------------------------------------------------
  // Names

  datatype TaskState = Constructed | Running | Suspended | Leaked

  datatype EpochTaskRole = Reader | Writer

  /** `to_string(TaskState)`. */
  function StateName(s: TaskState): (name: string)
  {
    match s
    case Constructed => "constructed"
    case Running => "running"
    case Suspended => "suspended"
    case Leaked => "leaked"
  }

  /** `to_string(EpochTaskRole)`. */
  function RoleName(r: EpochTaskRole): (name: string)
  {
    match r
    case Reader => "reader"
    case Writer => "writer"
  }

  /** Lower-case text: `tolower` leaves every character unchanged. */
  predicate LowerCase(s: string)
  {
    StringUtil.ToLower(s) == s
  }

  /** Each state and each role has its own name, already in lower case, so
      the names in a dump identify the state or role. */
  lemma NamesDistinct(s: TaskState, t: TaskState, r: EpochTaskRole, q: EpochTaskRole)
    ensures StateName(s) == StateName(t) <==> s == t
    ensures RoleName(r) == RoleName(q) <==> r == q
    ensures LowerCase(StateName(s)) && LowerCase(RoleName(r))
  {
    if s != t {
      assert |StateName(s)| != |StateName(t)|;
    }
    if r != q {
      assert RoleName(r)[0] != RoleName(q)[0];
    }
    var n := StateName(s);
    assert LowerCase(n) by {
      forall i | 0 <= i < |n| ensures StringUtil.ToLower(n)[i] == n[i] {
        assert 'a' <= n[i] <= 'z';
      }
    }
    var m := RoleName(r);
    assert LowerCase(m) by {
      forall i | 0 <= i < |m| ensures StringUtil.ToLower(m)[i] == m[i] {
        assert 'a' <= m[i] <= 'z';
      }
    }
  }

  // ---------------------------------------------------------------------------
  // The dump mode

  datatype DumpMode = None | Basic | Full

  /** `std::isspace` in the "C" locale. */
  predicate IsSpace(c: char)
  {
    c == ' ' || c == '\t' || c == '\n' || c == '\U{0B}' || c == '\U{0C}' || c == '\r'
  }

  /** The number of leading spaces. */
  function LeadingSpaces(s: string): (n: nat)
    ensures n <= |s| && (forall k :: 0 <= k < n ==> IsSpace(s[k]))
    ensures n < |s| ==> !IsSpace(s[n])
  {
    if s == [] || !IsSpace(s[0]) then 0
    else
      var n := 1 + LeadingSpaces(s[1..]);
      assert forall k :: 1 <= k < n ==> s[k] == s[1..][k - 1];
      n
  }

  /** The length of `s` without its trailing spaces. */
  function WithoutTrailing(s: string): (n: nat)
    ensures n <= |s| && (forall k :: n <= k < |s| ==> IsSpace(s[k]))
    ensures n > 0 ==> !IsSpace(s[n - 1])
  {
    if s == [] || !IsSpace(s[|s| - 1]) then |s|
    else
      var n := WithoutTrailing(s[..|s| - 1]);
      assert forall k :: n <= k < |s| - 1 ==> s[k] == s[..|s| - 1][k];
      n
  }

  /** The value with leading and trailing spaces erased. */
  function Strip(s: string): string
  {
    var front := s[LeadingSpaces(s)..];
    front[..WithoutTrailing(front)]
  }

  /** The value with its spaces stripped and its letters lowered. */
  function Normalize(s: string): string
  {
    StringUtil.ToLower(Strip(s))
  }

  const NoneWords: set<string> := {"0", "none", "off", "false", "no"}
  const FullWords: set<string> := {"2", "full", "all", "verbose"}

  /** The dump mode a value of `UNI20_DEBUG_ASYNC_TASKS` selects; `raw` is
      `None` when the variable is unset. */
  function DumpModeOf(raw: Wrappers.Option<string>): DumpMode
  {
    if raw.None? || raw.value == "" then Basic
    else if Normalize(raw.value) in NoneWords then None
    else if Normalize(raw.value) in FullWords then Full
    else Basic
  }

  /** Surrounding spaces never change the mode: stripping a value that
      neither starts nor ends with a space gives the value back. */
  lemma StripPadded(pre: string, core: string, post: string)
    requires forall k :: 0 <= k < |pre| ==> IsSpace(pre[k])
    requires forall k :: 0 <= k < |post| ==> IsSpace(post[k])
    requires core != [] ==> !IsSpace(core[0]) && !IsSpace(core[|core| - 1])
    ensures Strip(pre + core + post) == core
  {
    var s := pre + core + post;
    if core == [] {
      var i := LeadingSpaces(s);
      forall k | 0 <= k < |s| ensures IsSpace(s[k]) {
        if k >= |pre| { assert s[k] == post[k - |pre|]; }
      }
      assert i == |s|;
    } else {
      assert s[|pre|] == core[0];
      assert forall k :: 0 <= k < |pre| ==> IsSpace(s[k]) by {
        forall k | 0 <= k < |pre| ensures IsSpace(s[k]) { assert s[k] == pre[k]; }
      }
      var i := LeadingSpaces(s);
      assert i == |pre|;
      var front := s[i..];
      assert front == core + post;
      assert front[|core| - 1] == core[|core| - 1];
      forall k | |core| <= k < |front| ensures IsSpace(front[k]) {
        assert front[k] == post[k - |core|];
      }
      assert WithoutTrailing(front) == |core|;
      assert front[..|core|] == core;
    }
  }

  /** Spaces around a value that starts and ends with a non-space are
      ignored, and so is the case of its letters. */
  lemma NormalizePadded(raw: string, pre: string, post: string)
    requires raw != [] && !IsSpace(raw[0]) && !IsSpace(raw[|raw| - 1])
    requires forall k :: 0 <= k < |pre| ==> IsSpace(pre[k])
    requires forall k :: 0 <= k < |post| ==> IsSpace(post[k])
    ensures Normalize(pre + raw + post) == StringUtil.ToLower(raw)
    ensures Normalize(StringUtil.ToLower(raw)) == StringUtil.ToLower(raw)
  {
    StripPadded(pre, raw, post);
    var low := StringUtil.ToLower(raw);
    assert low[0] == StringUtil.ToLowerChar(raw[0]) && low[|low| - 1] == StringUtil.ToLowerChar(raw[|raw| - 1]);
    StripPadded([], low, []);
    assert [] + low + [] == low;
    StringUtil.ToLowerIdempotent(raw);
  }

  /** The classification is exhaustive and exclusive, and the case of the
      letters and the spaces around the value are ignored. */
  lemma DumpModeSpec(raw: string, pre: string, post: string)
    requires raw != [] && !IsSpace(raw[0]) && !IsSpace(raw[|raw| - 1])
    requires forall k :: 0 <= k < |pre| ==> IsSpace(pre[k])
    requires forall k :: 0 <= k < |post| ==> IsSpace(post[k])
    ensures DumpModeOf(Wrappers.Some(pre + raw + post)) == None <==> StringUtil.ToLower(raw) in NoneWords
    ensures DumpModeOf(Wrappers.Some(pre + raw + post)) == Full <==> StringUtil.ToLower(raw) in FullWords
    ensures DumpModeOf(Wrappers.Some(pre + raw + post)) == DumpModeOf(Wrappers.Some(StringUtil.ToLower(raw)))
  {
    NormalizePadded(raw, pre, post);
    WordsDisjoint();
  }

  /** No word selects both `None` and `Full`. */
  lemma WordsDisjoint()
    ensures NoneWords !! FullWords
  {
  }

  /** `parse_dump_mode`: a null or empty value is `Basic`; otherwise the
      spaces are erased from both ends, the letters lowered in place, and
      the value compared with the word lists. */
  method ParseDumpMode(raw: Wrappers.Option<string>) returns (mode: DumpMode)
    ensures mode == DumpModeOf(raw)
  {
    if raw.None? || raw.value == "" {
      return Basic;
    }
    var value := EraseSpaces(raw.value);
    value := LowerInPlace(value);
    if value in NoneWords {
      return None;
    }
    if value in FullWords {
      return Full;
    }
    return Basic;
  }

  /** The two `erase` calls: the leading spaces, then the trailing ones. */
  method EraseSpaces(s: string) returns (value: string)
    ensures value == Strip(s)
  {
    var start := 0;
    while start < |s| && IsSpace(s[start])
      invariant start <= |s| && forall k :: 0 <= k < start ==> IsSpace(s[k])
    {
      start := start + 1;
    }
    LeadingSpacesIs(s, start);
    value := s[start..];
    var end: nat := |value|;
    while end > 0 && IsSpace(value[end - 1])
      invariant end <= |value| && forall k :: end <= k < |value| ==> IsSpace(value[k])
    {
      end := end - 1;
    }
    WithoutTrailingIs(value, end);
    value := value[..end];
  }

  /** The `std::transform` through `tolower`, one character at a time. */
  method LowerInPlace(s: string) returns (value: string)
    ensures value == StringUtil.ToLower(s)
  {
    value := s;
    var i := 0;
    while i < |value|
      invariant i <= |value| && |value| == |s|
      invariant forall k :: 0 <= k < i ==> value[k] == StringUtil.ToLowerChar(s[k])
      invariant forall k :: i <= k < |s| ==> value[k] == s[k]
    {
      value := value[i := StringUtil.ToLowerChar(value[i])];
      i := i + 1;
    }
  }

  /** A count of leading spaces that stops at a non-space is `LeadingSpaces`. */
  lemma {:induction false} LeadingSpacesIs(s: string, n: nat)
    requires n <= |s| && (forall k :: 0 <= k < n ==> IsSpace(s[k])) && (n < |s| ==> !IsSpace(s[n]))
    ensures LeadingSpaces(s) == n
  {
    if n > 0 {
      LeadingSpacesIs(s[1..], n - 1);
    }
  }

  /** An end that stops after a non-space, with only spaces after it, is `WithoutTrailing`. */
  lemma {:induction false} WithoutTrailingIs(s: string, n: nat)
    requires n <= |s| && (forall k :: n <= k < |s| ==> IsSpace(s[k])) && (n > 0 ==> !IsSpace(s[n - 1]))
    ensures WithoutTrailing(s) == n
  {
    if n < |s| {
      WithoutTrailingIs(s[..|s| - 1], n);
    }
  }

  // ---------------------------------------------------------------------------
  // The registry

  type Address = nat

  const Null: Address := 0

  /** What the registry keeps about one coroutine (stack traces left out). */
  datatype TaskDebugInfo = TaskDebugInfo(
    id: nat,
    state: TaskState,
    transitionCount: nat,
    creationTimestamp: int,
    lastStateChangeTimestamp: int,
    waitingOn: string)

  /** What the registry keeps about one epoch context. */
  datatype EpochDebugInfo = EpochDebugInfo(id: nat, creationTimestamp: int)

  /** `update_state_locked`: the new state, one more transition, the new
      timestamp; the identity, creation time and wait text stay. */
  function UpdateState(info: TaskDebugInfo, state: TaskState, now: int): (r: TaskDebugInfo)
    ensures r.state == state && r.transitionCount == info.transitionCount + 1
    ensures r.lastStateChangeTimestamp == now
    ensures r.id == info.id && r.creationTimestamp == info.creationTimestamp && r.waitingOn == info.waitingOn
  {
    info.(state := state, transitionCount := info.transitionCount + 1, lastStateChangeTimestamp := now)
  }

  /** The identifiers in `ids` are distinct, at least 1 and below `next`. */
  predicate IdsBelow(ids: map<Address, nat>, next: nat)
  {
    next >= 1 &&
    (forall a :: a in ids ==> 1 <= ids[a] < next) &&
    (forall a, b :: a in ids && b in ids && a != b ==> ids[a] != ids[b])
  }

  function TaskIds(tasks: map<Address, TaskDebugInfo>): map<Address, nat>
  {
    map a | a in tasks :: tasks[a].id
  }

  function EpochIds(epochs: map<Address, EpochDebugInfo>): map<Address, nat>
  {
    map a | a in epochs :: epochs[a].id
  }

  class TaskRegistryImpl {
    var tasks: map<Address, TaskDebugInfo>
    var epochContexts: map<Address, EpochDebugInfo>
    var nextTaskId: nat
    var nextEpochId: nat

    /** Identifiers are distinct, handed out from 1 upwards, and every
        tracked task has gone through at least its construction. */
    predicate Valid()
      reads this
    {
      Null !in tasks && Null !in epochContexts &&
      IdsBelow(TaskIds(tasks), nextTaskId) &&
      IdsBelow(EpochIds(epochContexts), nextEpochId) &&
      forall a :: a in tasks ==> tasks[a].transitionCount >= 1
    }

    constructor ()
      ensures Valid()
      ensures tasks == map[] && epochContexts == map[]
      ensures nextTaskId == 1 && nextEpochId == 1
    {
      tasks := map[];
      epochContexts := map[];
      nextTaskId := 1;
      nextEpochId := 1;
    }

    /** `register_task`: a null handle and a handle already tracked change
        nothing; a new handle gets the next identifier, the creation time and
        the state `Constructed` after one transition. */
    method RegisterTask(h: Address, now: int)
      requires Valid()
      modifies this
      ensures Valid()
      ensures epochContexts == old(epochContexts) && nextEpochId == old(nextEpochId)
      ensures h == Null || h in old(tasks) ==> tasks == old(tasks) && nextTaskId == old(nextTaskId)
      ensures h != Null && h !in old(tasks) ==>
                nextTaskId == old(nextTaskId) + 1 &&
                tasks == old(tasks)[h := TaskDebugInfo(old(nextTaskId), Constructed, 1, now, now, "")] &&
                forall a :: a in old(tasks) ==> tasks[a].id < tasks[h].id
    {
      if h == Null {
        return;
      }
      if h !in tasks {
        var info := TaskDebugInfo(nextTaskId, Constructed, 0, now, now, "");
        nextTaskId := nextTaskId + 1;
        tasks := tasks[h := UpdateState(info, Constructed, now)];
        assert TaskIds(tasks) == TaskIds(old(tasks))[h := old(nextTaskId)];
        forall a | a in old(tasks) ensures tasks[a].id < tasks[h].id {
          assert TaskIds(old(tasks))[a] == old(tasks)[a].id;
        }
      }
    }

    /** `destroy_task`: forgets exactly that handle. */
    method DestroyTask(h: Address)
      requires Valid()
      modifies this
      ensures Valid()
      ensures tasks == old(tasks) - {h}
      ensures epochContexts == old(epochContexts)
      ensures nextTaskId == old(nextTaskId) && nextEpochId == old(nextEpochId)
    {
      if h == Null {
        return;
      }
      tasks := tasks - {h};
      assert TaskIds(tasks) == TaskIds(old(tasks)) - {h};
    }

    /** `set_state`: a null or untracked handle changes nothing; otherwise
        that task alone takes the new state and counts one more transition. */
    method SetState(h: Address, state: TaskState, now: int)
      requires Valid()
      modifies this
      ensures Valid()
      ensures epochContexts == old(epochContexts)
      ensures nextTaskId == old(nextTaskId) && nextEpochId == old(nextEpochId)
      ensures h !in old(tasks) ==> tasks == old(tasks)
      ensures h in old(tasks) ==> tasks == old(tasks)[h := UpdateState(old(tasks)[h], state, now)]
    {
      if h == Null {
        return;
      }
      if h in tasks {
        tasks := tasks[h := UpdateState(tasks[h], state, now)];
        assert TaskIds(tasks) == TaskIds(old(tasks));
      }
    }

    /** `leak_task`. */
    method LeakTask(h: Address, now: int)
      requires Valid()
      modifies this
      ensures Valid()
      ensures epochContexts == old(epochContexts) && nextTaskId == old(nextTaskId)
      ensures h !in old(tasks) ==> tasks == old(tasks)
      ensures h in old(tasks) ==> tasks == old(tasks)[h := UpdateState(old(tasks)[h], Leaked, now)]
    {
      SetState(h, Leaked, now);
    }

    /** `mark_running`. */
    method MarkRunning(h: Address, now: int)
      requires Valid()
      modifies this
      ensures Valid()
      ensures epochContexts == old(epochContexts) && nextTaskId == old(nextTaskId)
      ensures h !in old(tasks) ==> tasks == old(tasks)
      ensures h in old(tasks) ==> tasks == old(tasks)[h := UpdateState(old(tasks)[h], Running, now)]
    {
      SetState(h, Running, now);
    }

    /** `mark_suspended`. */
    method MarkSuspended(h: Address, now: int)
      requires Valid()
      modifies this
      ensures Valid()
      ensures epochContexts == old(epochContexts) && nextTaskId == old(nextTaskId)
      ensures h !in old(tasks) ==> tasks == old(tasks)
      ensures h in old(tasks) ==> tasks == old(tasks)[h := UpdateState(old(tasks)[h], Suspended, now)]
    {
      SetState(h, Suspended, now);
    }

    /** `register_epoch_context`: a null pointer and a tracked context change
        nothing; a new context gets the next epoch identifier. */
    method RegisterEpochContext(e: Address, now: int)
      requires Valid()
      modifies this
      ensures Valid()
      ensures tasks == old(tasks) && nextTaskId == old(nextTaskId)
      ensures e == Null || e in old(epochContexts) ==>
                epochContexts == old(epochContexts) && nextEpochId == old(nextEpochId)
      ensures e != Null && e !in old(epochContexts) ==>
                nextEpochId == old(nextEpochId) + 1 &&
                epochContexts == old(epochContexts)[e := EpochDebugInfo(old(nextEpochId), now)] &&
                forall a :: a in old(epochContexts) ==> epochContexts[a].id < epochContexts[e].id
    {
      if e == Null {
        return;
      }
      if e !in epochContexts {
        epochContexts := epochContexts[e := EpochDebugInfo(nextEpochId, now)];
        nextEpochId := nextEpochId + 1;
        assert EpochIds(epochContexts) == EpochIds(old(epochContexts))[e := old(nextEpochId)];
        forall a | a in old(epochContexts) ensures epochContexts[a].id < epochContexts[e].id {
          assert EpochIds(old(epochContexts))[a] == old(epochContexts)[a].id;
        }
      }
    }

    /** `destroy_epoch_context`: forgets exactly that context. */
    method DestroyEpochContext(e: Address)
      requires Valid()
      modifies this
      ensures Valid()
      ensures epochContexts == old(epochContexts) - {e}
      ensures tasks == old(tasks)
      ensures nextTaskId == old(nextTaskId) && nextEpochId == old(nextEpochId)
    {
      if e == Null {
        return;
      }
      epochContexts := epochContexts - {e};
      assert EpochIds(epochContexts) == EpochIds(old(epochContexts)) - {e};
    }
  }

  /** Tasks registered one after the other get identifiers in that order, and
      a state change in between keeps them. */
  method RegistrationOrder(r: TaskRegistryImpl, h1: Address, h2: Address, now: int)
    requires r.Valid() && h1 != Null && h2 != Null && h1 != h2
    requires h1 !in r.tasks && h2 !in r.tasks
    modifies r
    ensures r.Valid()
    ensures h1 in r.tasks && h2 in r.tasks
    ensures r.tasks[h1].id == old(r.nextTaskId) && r.tasks[h2].id == old(r.nextTaskId) + 1
    ensures r.tasks[h1].state == Running && r.tasks[h1].transitionCount == 2
    ensures r.tasks[h2].state == Constructed && r.tasks[h2].transitionCount == 1
  {
    r.RegisterTask(h1, now);
    r.MarkRunning(h1, now);
    r.RegisterTask(h2, now);
  }

  // ---------------------------------------------------------------------------
  // The order of a task's epoch associations in the dump

  datatype Association = Association(epochId: nat, role: EpochTaskRole)

  /** The role as the integer its enumerator converts to: `Reader` first. */
  function RoleRank(r: EpochTaskRole): nat
  {
    if r.Reader? then 0 else 1
  }

  /** The dump's comparator: by epoch identifier, then by role. */
  predicate Before(a: Association, b: Association)
  {
    a.epochId < b.epochId || (a.epochId == b.epochId && RoleRank(a.role) < RoleRank(b.role))
  }

  /** The comparator is a strict total order on associations. */
  lemma BeforeTotal(a: Association, b: Association, c: Association)
    ensures !Before(a, a)
    ensures Before(a, b) && Before(b, c) ==> Before(a, c)
    ensures a != b ==> Before(a, b) || Before(b, a)
  {
  }

  predicate Sorted(s: seq<Association>)
  {
    forall i, j :: 0 <= i < j < |s| ==> !Before(s[j], s[i])
  }

  predicate StrictlySorted(s: seq<Association>)
  {
    forall i, j :: 0 <= i < j < |s| ==> Before(s[i], s[j])
  }

  /** Insertion into a sorted list. */
  function Insert(x: Association, s: seq<Association>): (r: seq<Association>)
  {
    if s == [] || !Before(s[0], x) then [x] + s else [s[0]] + Insert(x, s[1..])
  }

  /** `std::sort` with the dump's comparator; the comparator tells apart any
      two different associations, so the sorted order is unique. */
  function Sort(s: seq<Association>): seq<Association>
  {
    if s == [] then [] else Insert(s[0], Sort(s[1..]))
  }

  /** Insertion adds `x` and keeps the rest. */
  lemma {:induction false} InsertElements(x: Association, s: seq<Association>)
    ensures multiset(Insert(x, s)) == multiset(s) + multiset{x}
  {
    if s != [] && Before(s[0], x) {
      InsertElements(x, s[1..]);
      assert s == [s[0]] + s[1..];
    }
  }

  /** Insertion into a sorted list keeps it sorted. */
  lemma {:induction false} InsertSpec(x: Association, s: seq<Association>)
    requires Sorted(s)
    ensures Sorted(Insert(x, s)) && multiset(Insert(x, s)) == multiset(s) + multiset{x}
  {
    InsertElements(x, s);
    if s != [] && Before(s[0], x) {
      InsertSpec(x, s[1..]);
      var t := Insert(x, s[1..]);
      forall j | 0 <= j < |t| ensures !Before(t[j], s[0]) {
        InsertMember(x, s[1..], t[j]);
        if t[j] != x {
          var k :| 0 <= k < |s[1..]| && s[1..][k] == t[j];
          assert s[k + 1] == t[j];
        }
      }
    } else if s != [] {
      forall j | 0 <= j < |s| ensures !Before(s[j], x) {
        if j > 0 { assert !Before(s[j], s[0]); BeforeTotal(s[j], s[0], x); }
      }
    }
  }

  /** An element of the insertion is `x` or an element of `s`. */
  lemma InsertMember(x: Association, s: seq<Association>, y: Association)
    requires y in Insert(x, s)
    ensures y == x || y in s
  {
    InsertElements(x, s);
    assert y in multiset(Insert(x, s));
  }

  /** Sorting gives a sorted permutation. */
  lemma {:induction false} SortSpec(s: seq<Association>)
    ensures Sorted(Sort(s)) && multiset(Sort(s)) == multiset(s)
  {
    if s != [] {
      SortSpec(s[1..]);
      InsertSpec(s[0], Sort(s[1..]));
      assert s == [s[0]] + s[1..];
    }
  }

  /** `std::unique` followed by `erase`: of each run of equal neighbours only
      the first stays. */
  function Unique(s: seq<Association>): seq<Association>
  {
    if s == [] then []
    else
      var u := Unique(s[..|s| - 1]);
      if u != [] && u[|u| - 1] == s[|s| - 1] then u else u + [s[|s| - 1]]
  }

  /** Removing neighbouring duplicates from a sorted list leaves a strictly
      sorted list of the same elements, ending in the same element. */
  lemma {:induction false} UniqueSpec(s: seq<Association>)
    requires Sorted(s)
    ensures StrictlySorted(Unique(s))
    ensures forall x :: x in Unique(s) <==> x in s
    ensures s != [] ==> Unique(s) != [] && Unique(s)[|Unique(s)| - 1] == s[|s| - 1]
  {
    if s != [] {
      var init := s[..|s| - 1];
      var last := s[|s| - 1];
      UniqueSpec(init);
      var u := Unique(init);
      if u != [] && u[|u| - 1] != last {
        assert !Before(last, s[|s| - 2]);
        BeforeTotal(u[|u| - 1], last, u[|u| - 1]);
        forall i | 0 <= i < |u| - 1 ensures Before(u[i], last) {
          BeforeTotal(u[i], u[|u| - 1], last);
        }
      }
      assert forall x :: x in s <==> x in init || x == last;
    }
  }

  /** Two strictly sorted lists of the same elements are the same list. */
  lemma {:induction false} StrictlySortedUnique(a: seq<Association>, b: seq<Association>)
    requires StrictlySorted(a) && StrictlySorted(b)
    requires forall x :: x in a <==> x in b
    ensures a == b
  {
    assert a != [] ==> a[0] in a;
    assert b != [] ==> b[0] in b;
    if a != [] && b != [] {
      LeastFirst(b, a[0]);
      LeastFirst(a, b[0]);
      BeforeTotal(a[0], b[0], a[0]);
      forall x ensures x in a[1..] <==> x in b[1..] {
        if x in a[1..] {
          var k :| 0 <= k < |a[1..]| && a[1..][k] == x;
          assert Before(a[0], a[k + 1]);
          assert x in b && x != b[0];
        }
        if x in b[1..] {
          var k :| 0 <= k < |b[1..]| && b[1..][k] == x;
          assert Before(b[0], b[k + 1]);
          assert x in a && x != a[0];
        }
      }
      StrictlySortedUnique(a[1..], b[1..]);
    }
  }

  /** The first element of a strictly sorted list comes before every other. */
  lemma LeastFirst(s: seq<Association>, x: Association)
    requires StrictlySorted(s) && x in s
    ensures x == s[0] || Before(s[0], x)
  {
    var k :| 0 <= k < |s| && s[k] == x;
    if k > 0 {
      assert Before(s[0], s[k]);
    }
  }

  /** The dump's sort and de-duplication of one task's associations (the
      de-duplication walks the sorted list once, keeping an element unless it
      equals the last one kept).  The result lists every association of the
      input exactly once, by epoch identifier and then reader before writer:
      it is the only strictly sorted list of those associations. */
  method SortAssociations(associations: seq<Association>) returns (result: seq<Association>)
    ensures StrictlySorted(result)
    ensures forall x :: x in result <==> x in associations
  {
    var sorted := Sort(associations);
    SortSpec(associations);
    result := [];
    var i := 0;
    while i < |sorted|
      invariant i <= |sorted|
      invariant result == Unique(sorted[..i])
    {
      assert sorted[..i + 1][..i] == sorted[..i];
      if result == [] || result[|result| - 1] != sorted[i] {
        result := result + [sorted[i]];
      }
      i := i + 1;
    }
    assert sorted[..i] == sorted;
    UniqueSpec(sorted);
    forall x ensures x in sorted <==> x in associations {
      assert x in sorted <==> x in multiset(sorted);
    }
  }

  // ---------------------------------------------------------------------------
  // Examples

  /** A value already in lower case, with no space at either end, is
      looked up as it is. */
  lemma NormalizeWord(w: string)
    requires w != [] && !IsSpace(w[0]) && !IsSpace(w[|w| - 1]) && LowerCase(w)
    ensures Normalize(w) == w
  {
    NormalizePadded(w, [], []);
    assert [] + w + [] == w;
  }

  /** "0" and "off" turn the dump off. */
  lemma DumpModeNoneExamples()
    ensures DumpModeOf(Wrappers.Some("0")) == None
    ensures DumpModeOf(Wrappers.Some("off")) == None
  {
    NormalizeWord("0");
    NormalizeWord("off");
  }

  /** "2" and "verbose" select the full dump. */
  lemma DumpModeFullExamples()
    ensures DumpModeOf(Wrappers.Some("2")) == Full
    ensures DumpModeOf(Wrappers.Some("verbose")) == Full
  {
    NormalizeWord("2");
    NormalizeWord("verbose");
  }

  /** "  YeS  " is trimmed and lowered to "yes", which is `Basic`. */
  lemma DumpModePaddedExample()
    ensures DumpModeOf(Wrappers.Some("  YeS  ")) == Basic
  {
    DumpModeSpec("YeS", "  ", "  ");
    assert "  " + "YeS" + "  " == "  YeS  ";
    YesLowered();
  }

  lemma YesLowered()
    ensures StringUtil.ToLower("YeS") == "yes"
    ensures "yes" !in NoneWords && "yes" !in FullWords
  {
  }
}
