/**
 * The non-realtime session: the timeline of states indexed by offset, the
 * transition resolver that gives every touched state its node tree, the
 * session-id counters, the engine id mapping for nodes, and the linearizer
 * that turns the timeline into timestamped request bundles.
 */
module Sessions {
  import opened Wrappers
  import opened Offsets
  import opened Entities
  import opened StateIndex
  import opened Sorting
  import opened IdMappings
  import opened BufferRequests
  import opened NodeRequests
  import opened BusRequests
  import opened OffsetCompiler
  import opened Rendering

  /** The root-level tree: the root group alone, with no children and no parent. */
  const RootTree := Tree(map[Root := None], map[Root := None])

  /** The state at the root-level offset, before any object is placed. */
  const InitialState := EmptyState.(tree := Some(RootTree))

  // ------------------------------------------------------------------ the offset list

  /** Python's `list.index`: the position of the first occurrence. */
  function IndexOf(s: seq<Offset>, x: Offset): (k: nat)
    requires x in s
    ensures k < |s| && s[k] == x
    ensures forall j :: 0 <= j < k ==> s[j] != x
  {
    if s[0] == x then 0
    else
      assert x in s[1..];
      1 + IndexOf(s[1..], x)
  }

  /** Python's `list.remove`: drops the first occurrence. */
  function Remove(s: seq<Offset>, x: Offset): (r: seq<Offset>)
    requires x in s
  {
    var k := IndexOf(s, x);
    s[..k] + s[k + 1..]
  }

  /** Removing from a strictly sorted list keeps it strictly sorted and drops exactly that offset. */
  lemma RemoveSorted(s: seq<Offset>, x: Offset)
    requires StrictlySorted(s) && x in s
    ensures StrictlySorted(Remove(s, x))
    ensures forall y :: y in Remove(s, x) <==> y in s && y != x
    ensures |Remove(s, x)| == |s| - 1
    ensures x != s[0] ==> Remove(s, x)[0] == s[0]
  {
    var k := IndexOf(s, x);
    var r := Remove(s, x);
    assert forall i :: 0 <= i < |r| ==> r[i] == if i < k then s[i] else s[i + 1];
    forall y ensures y in r <==> y in s && y != x {
      if y in s && y != x {
        var j :| 0 <= j < |s| && s[j] == y;
        assert r[if j < k then j else j - 1] == y;
      }
    }
  }

  /** `list.remove` of an offset spliced in after a run that lacks it takes out exactly that offset. */
  lemma RemoveSplice(a: seq<Offset>, x: Offset, b: seq<Offset>)
    requires x !in a
    ensures x in a + [x] + b && Remove(a + [x] + b, x) == a + b
  {
    var t := a + [x] + b;
    assert t[|a|] == x;
    var k := IndexOf(t, x);
    assert k == |a|;
    assert t[..k] == a && t[k + 1..] == b;
  }

  /** Removing an offset that was just inserted restores the list. */
  lemma RemoveInsert(s: seq<Offset>, x: Offset)
    requires StrictlySorted(s) && x !in s
    ensures Remove(Insert(s, x), x) == s
  {
    StrictlySortedIsSorted(s);
    var k := BisectLeft(s, x);
    assert Insert(s, x) == s[..k] + [x] + s[k..];
    assert x !in s[..k];
    RemoveSplice(s[..k], x, s[k..]);
    assert s[..k] + s[k..] == s;
  }

  /**
   * The offset of `_find_state_before(o)`: the last listed offset below `o`,
   * which the root-level sentinel guarantees.
   */
  function Predecessor(offsets: seq<Offset>, states: map<Offset, State>, o: Offset): (p: Offset)
    requires IndexValid(offsets, states) && o != NegInf
    ensures p in offsets && Lt(p, o)
    ensures forall y :: y in offsets && Lt(p, y) ==> !Lt(y, o)
    ensures LastBefore(offsets, states, o, false) == Some(p)
  {
    LastBeforeIsGreatest(offsets, states, o, false);
    assert offsets[0] in offsets;
    LastBefore(offsets, states, o, false).value
  }

  /** The offset of `_find_state_before(o, with_node_tree=True)`: the last resolved state below `o`. */
  function ResolvedPredecessor(offsets: seq<Offset>, states: map<Offset, State>, o: Offset): (p: Offset)
    requires IndexValid(offsets, states) && o != NegInf
    ensures p in offsets && Lt(p, o) && HasTree(states, p)
    ensures forall y :: y in offsets && Lt(p, y) && Lt(y, o) ==> !HasTree(states, y)
    ensures LastBefore(offsets, states, o, true) == Some(p)
  {
    ResolvedPredecessorExists(offsets, states, o);
    LastBeforeIsGreatest(offsets, states, o, true);
    LastBefore(offsets, states, o, true).value
  }

  /** Two distinct offsets are ordered one way or the other. */
  lemma LtTotal(a: Offset, b: Offset)
    ensures Lt(a, b) || a == b || Lt(b, a)
  {
  }

  /** Listing a new offset above the root level, with its state, keeps the index well formed. */
  lemma InsertValid(offsets: seq<Offset>, states: map<Offset, State>, o: Offset, state: State)
    requires IndexValid(offsets, states) && o != NegInf && o !in offsets
    ensures IndexValid(Insert(offsets, o), states[o := state])
  {
    var r := Insert(offsets, o);
    assert NegInf in r;
    var k :| 0 <= k < |r| && r[k] == NegInf;
    assert !Lt(r[0], r[k]);
  }

  /** Splicing right after the immediate predecessor is inserting at the sorted place. */
  lemma PredecessorSlot(offsets: seq<Offset>, states: map<Offset, State>, o: Offset)
    requires IndexValid(offsets, states) && o != NegInf && o !in offsets
    ensures var k := IndexOf(offsets, Predecessor(offsets, states, o)) + 1;
      offsets[..k] + [o] + offsets[k..] == Insert(offsets, o)
  {
    var p := Predecessor(offsets, states, o);
    var k := IndexOf(offsets, p);
    StrictlySortedIsSorted(offsets);
    forall j | k < j < |offsets| ensures Lt(o, offsets[j]) {
      assert Lt(p, offsets[j]);
      assert offsets[j] in offsets;
      LtTotal(o, offsets[j]);
    }
    BisectLeftAfter(offsets, k, o);
  }

  /** The splice of `_add_state_at`: the new offset listed right after its immediate predecessor. */
  method SpliceAfter(offsets: seq<Offset>, states: map<Offset, State>, o: Offset, p: Offset) returns (r: seq<Offset>)
    requires IndexValid(offsets, states) && o != NegInf && o !in offsets
    requires p == Predecessor(offsets, states, o)
    ensures r == Insert(offsets, o)
  {
    PredecessorSlot(offsets, states, o);
    var k := IndexOf(offsets, p) + 1;
    r := offsets[..k] + [o] + offsets[k..];
  }

  /** An offset just above entry `k` and below everything after it bisects to `k + 1`. */
  lemma BisectLeftAfter(s: seq<Offset>, k: nat, x: Offset)
    requires Sorted(s) && k < |s| && Lt(s[k], x)
    requires forall j :: k < j < |s| ==> Lt(x, s[j])
    ensures BisectLeft(s, x) == k + 1
  {
    var b := BisectLeft(s, x);
    assert !Le(x, s[k]);
    assert k + 1 < |s| ==> !Lt(s[k + 1], x);
  }

  // ------------------------------------------------------------------ finding 1: the clone splice

  /**
   * `_find_state_at(o, clone_if_missing=True)` as written: the new offset is
   * spliced right after the last state holding a node tree, which is not its
   * immediate predecessor when a sparse state lies between the two.
   */
  function CloneSpliceAsWritten(offsets: seq<Offset>, states: map<Offset, State>, o: Offset): seq<Offset>
    requires IndexValid(offsets, states) && o != NegInf
  {
    var k := IndexOf(offsets, ResolvedPredecessor(offsets, states, o)) + 1;
    offsets[..k] + [o] + offsets[k..]
  }

  /** With a sparse state at 5 after the resolved one at 0, cloning at 7 puts 7 before 5. */
  lemma CloneSpliceAsWrittenUnsorted()
    ensures var offsets := [NegInf, Fin(0.0), Fin(5.0)];
      var states := map[NegInf := InitialState, Fin(0.0) := InitialState, Fin(5.0) := EmptyState];
      && IndexValid(offsets, states)
      && Fin(7.0) !in states
      && CloneSpliceAsWritten(offsets, states, Fin(7.0)) == [NegInf, Fin(0.0), Fin(7.0), Fin(5.0)]
      && !StrictlySorted(CloneSpliceAsWritten(offsets, states, Fin(7.0)))
  {
    var offsets := [NegInf, Fin(0.0), Fin(5.0)];
    var states := map[NegInf := InitialState, Fin(0.0) := InitialState, Fin(5.0) := EmptyState];
    assert IndexValid(offsets, states);
    var p := ResolvedPredecessor(offsets, states, Fin(7.0));
    assert offsets[1] == Fin(0.0) && offsets[2] == Fin(5.0);
    assert p == Fin(0.0) by {
      if p == NegInf {
        assert Lt(p, Fin(0.0)) && Lt(Fin(0.0), Fin(7.0)) && HasTree(states, Fin(0.0));
      }
    }
    assert IndexOf(offsets, p) == 1;
    var r := CloneSpliceAsWritten(offsets, states, Fin(7.0));
    assert r == [NegInf, Fin(0.0), Fin(7.0), Fin(5.0)];
    assert !Lt(r[2], r[3]);
  }

  // ------------------------------------------------------------------ session ids

  /** The first id of a kind: nodes count from 1000, every other kind from 0. */
  function FirstId(kind: string): int {
    if kind == "node" then 1000 else 0
  }

  /** Where a kind's counter stands: its entry, or the kind's first id before the first request. */
  function StartOf(counters: map<string, int>, kind: string): int {
    if kind in counters then counters[kind] else FirstId(kind)
  }

  /** `_get_next_session_id` on the counter table: the id issued and the table after. */
  function NextId(counters: map<string, int>, kind: string): (int, map<string, int>) {
    var id := StartOf(counters, kind);
    (id, counters[kind := id + 1])
  }

  /** The ids issued for a series of requests, one kind per request, and the table after. */
  function IssueAll(counters: map<string, int>, kinds: seq<string>): (r: (seq<int>, map<string, int>))
    ensures |r.0| == |kinds|
  {
    if kinds == [] then ([], counters)
    else
      var n := |kinds| - 1;
      var earlier := IssueAll(counters, kinds[..n]);
      var next := NextId(earlier.1, kinds[n]);
      (earlier.0 + [next.0], next.1)
  }

  /** How many of the requests ask for `kind`. */
  function CountOf(kinds: seq<string>, kind: string): nat {
    if kinds == [] then 0
    else CountOf(kinds[..|kinds| - 1], kind) + (if kinds[|kinds| - 1] == kind then 1 else 0)
  }

  /** After a series of requests every kind's counter has moved by the number of requests for it, and no other. */
  lemma {:induction false} IssueAllTable(counters: map<string, int>, kinds: seq<string>)
    ensures forall k :: StartOf(IssueAll(counters, kinds).1, k) == StartOf(counters, k) + CountOf(kinds, k)
  {
    if kinds != [] {
      var n := |kinds| - 1;
      IssueAllTable(counters, kinds[..n]);
    }
  }

  /**
   * Counters are independent per kind and count up by one: the i-th request
   * gets its kind's starting id plus the number of earlier requests of that
   * kind, so a fresh table issues 1000, 1001, ... for nodes and 0, 1, ... for
   * any other kind.
   */
  lemma {:induction false} IssueAllIds(counters: map<string, int>, kinds: seq<string>)
    ensures var ids := IssueAll(counters, kinds).0;
      forall i :: 0 <= i < |kinds| ==> ids[i] == StartOf(counters, kinds[i]) + CountOf(kinds[..i], kinds[i])
  {
    if kinds != [] {
      var n := |kinds| - 1;
      var pre := kinds[..n];
      IssueAllIds(counters, pre);
      IssueAllTable(counters, pre);
      var ids := IssueAll(counters, kinds).0;
      forall i | 0 <= i < |kinds| ensures ids[i] == StartOf(counters, kinds[i]) + CountOf(kinds[..i], kinds[i]) {
        if i < n {
          assert kinds[..i] == pre[..i] && kinds[i] == pre[i];
        } else {
          assert kinds[..i] == pre;
        }
      }
    }
  }

  // ------------------------------------------------------------------ transition resolution

  /**
   * What the resolver leaves at a state given its replayed tree: the state
   * unchanged when the replay has the same child table, else the state with
   * the replayed tree.
   */
  function Resolve(s: State, result: Tree): (r: State)
    ensures r.tree.Some? && r.tree.value.children == result.children
    ensures r == s || r == s.(tree := Some(result))
  {
    if s.tree.Some? && s.tree.value.children == result.children then s else s.(tree := Some(result))
  }

  /** How far the resolver can still advance: the listed offsets above the last one it took. */
  function Remaining(offsets: seq<Offset>, previous: Option<Offset>): nat
    requires StrictlySorted(offsets)
  {
    StrictlySortedIsSorted(offsets);
    if previous.None? then |offsets| + 1 else |offsets| - BisectRight(offsets, previous.value)
  }

  /** The priority queue filled with the given offsets. */
  method Enqueue(given: seq<Offset>) returns (queue: seq<Offset>)
    ensures Sorted(queue) && multiset(queue) == multiset(given)
  {
    queue := [];
    var i := 0;
    while i < |given|
      invariant 0 <= i <= |given|
      invariant Sorted(queue) && multiset(queue) == multiset(given[..i])
    {
      assert given[..i + 1] == given[..i] + [given[i]];
      queue := Push(queue, given[i]);
      i := i + 1;
    }
    assert given[..i] == given;
  }

  /** Every offset the resolver took holds what resolving it leaves. */
  ghost predicate Settled(offsets: seq<Offset>, states: map<Offset, State>, initial: map<Offset, State>,
                          replay: (seq<Transition>, Tree, seq<Node>) -> Tree, trace: seq<Offset>)
    requires IndexValid(offsets, states)
  {
    forall o :: o in trace ==>
      o in states && o in initial && o != NegInf && states[o] == Resolve(initial[o], ReplayAt(offsets, states, o, replay))
  }

  /**
   * The resolver's queue discipline: the queue is sorted and never goes below
   * the last offset taken; the offsets resolved so far are increasing and not
   * above it; every given listed offset is resolved or still queued; without
   * `chain` nothing but the given offsets is queued.
   */
  ghost predicate QueueOk(listed: set<Offset>, queue: seq<Offset>, previous: Option<Offset>, trace: seq<Offset>,
                          given: seq<Offset>, chain: bool)
  {
    && Sorted(queue)
    && (forall q :: q in queue ==> q != NegInf)
    && (previous.Some? ==> forall j :: 0 <= j < |queue| ==> Le(previous.value, queue[j]))
    && (previous.None? ==> trace == [])
    && StrictlySorted(trace)
    && (forall t :: t in trace ==> previous.Some? && Le(t, previous.value))
    && (previous.Some? && previous.value in listed ==> previous.value in trace)
    && (forall g :: g in given && g in listed ==> g in trace || g in queue)
    && (!chain ==> forall q :: q in queue ==> q in given)
    && (!chain ==> forall t :: t in trace ==> t in given)
  }

  /** The resolver's effect so far: only the offsets resolved have changed, each to what resolving it leaves. */
  ghost predicate StatesOk(offsets: seq<Offset>, states: map<Offset, State>, initial: map<Offset, State>,
                           replay: (seq<Transition>, Tree, seq<Node>) -> Tree, trace: seq<Offset>)
  {
    && IndexValid(offsets, states)
    && states.Keys == initial.Keys
    && (forall o :: o in states && o !in trace ==> states[o] == initial[o])
    && Settled(offsets, states, initial, replay, trace)
  }

  lemma WorklistStart(queue: seq<Offset>, given: seq<Offset>, listed: set<Offset>, chain: bool)
    requires Sorted(queue) && multiset(queue) == multiset(given)
    requires forall i :: 0 <= i < |given| ==> given[i] != NegInf
    ensures QueueOk(listed, queue, None, [], given, chain)
  {
    forall g | g in queue ensures g in given {
      assert g in multiset(queue);
    }
    forall g | g in given ensures g in queue {
      assert g in multiset(given);
    }
  }

  /** What remains of the queue after taking its head: still sorted, and nothing in it below the head. */
  lemma QueueTail(queue: seq<Offset>)
    requires queue != [] && Sorted(queue)
    ensures Sorted(queue[1..])
    ensures forall q :: q in queue[1..] ==> q in queue
    ensures forall q :: q in queue && q != queue[0] ==> q in queue[1..]
    ensures forall j :: 0 <= j < |queue[1..]| ==> Le(queue[0], queue[1..][j])
  {
    forall j | 0 <= j < |queue[1..]| ensures Le(queue[0], queue[1..][j]) {
      assert queue[1..][j] == queue[j + 1];
    }
  }

  /** Taking the offset just taken again changes nothing. */
  lemma PopRepeat(listed: set<Offset>, queue: seq<Offset>, previous: Option<Offset>, trace: seq<Offset>,
                  given: seq<Offset>, chain: bool)
    requires QueueOk(listed, queue, previous, trace, given, chain)
    requires queue != [] && previous == Some(queue[0])
    ensures QueueOk(listed, queue[1..], previous, trace, given, chain)
  {
    QueueTail(queue);
  }

  /** Taking an unlisted offset changes nothing and does not move the resolver back. */
  lemma PopUnlisted(listed: set<Offset>, queue: seq<Offset>, previous: Option<Offset>, trace: seq<Offset>,
                    given: seq<Offset>, chain: bool)
    requires QueueOk(listed, queue, previous, trace, given, chain)
    requires queue != [] && previous != Some(queue[0]) && queue[0] !in listed
    ensures QueueOk(listed, queue[1..], Some(queue[0]), trace, given, chain)
    ensures previous.Some? ==> Le(previous.value, queue[0])
  {
    QueueTail(queue);
  }

  /** Taking a listed offset above the last one taken records it as resolved. */
  lemma PopListed(listed: set<Offset>, queue: seq<Offset>, previous: Option<Offset>, trace: seq<Offset>,
                  given: seq<Offset>, chain: bool)
    requires QueueOk(listed, queue, previous, trace, given, chain)
    requires queue != [] && previous != Some(queue[0]) && queue[0] in listed
    ensures var o := queue[0];
      && o != NegInf && o !in trace
      && (previous.Some? ==> Lt(previous.value, o))
      && (forall t :: t in trace ==> Lt(t, o))
      && QueueOk(listed, queue[1..], Some(o), trace + [o], given, chain)
  {
    var o := queue[0];
    assert o in queue;
    QueueTail(queue);
    assert forall t :: t in trace ==> Lt(t, o);
    var trace' := trace + [o];
    assert forall t :: t in trace' <==> t in trace || t == o;
    forall i, j | 0 <= i < j < |trace'| ensures Lt(trace'[i], trace'[j]) {
      if j == |trace| {
        assert trace'[i] == trace[i];
        assert trace[i] in trace;
      }
    }
  }

  /** The resolver moves strictly forward when it takes a listed offset above the last one. */
  lemma Advance(offsets: seq<Offset>, previous: Option<Offset>, o: Offset)
    requires StrictlySorted(offsets) && o in offsets
    requires previous.Some? ==> Le(previous.value, o)
    ensures Remaining(offsets, Some(o)) <= Remaining(offsets, previous)
    ensures previous.Some? && previous.value != o ==> Remaining(offsets, Some(o)) < Remaining(offsets, previous)
  {
    StrictlySortedIsSorted(offsets);
    if previous.Some? {
      BisectRightMonotone(offsets, previous.value, o);
      if previous.value != o {
        BisectRightGrows(offsets, previous.value, o);
      }
    }
  }

  /** Unlisted offsets can still be taken without moving the resolver back. */
  lemma AdvanceUnlisted(offsets: seq<Offset>, previous: Option<Offset>, o: Offset)
    requires StrictlySorted(offsets)
    requires previous.Some? ==> Le(previous.value, o)
    ensures Remaining(offsets, Some(o)) <= Remaining(offsets, previous)
  {
    StrictlySortedIsSorted(offsets);
    if previous.Some? {
      BisectRightMonotone(offsets, previous.value, o);
    }
  }

  /** Queuing the next resolved offset above the one just taken keeps the queue in order. */
  lemma PushNext(listed: set<Offset>, queue: seq<Offset>, o: Offset, trace: seq<Offset>, given: seq<Offset>, next: Offset)
    requires QueueOk(listed, queue, Some(o), trace, given, true)
    requires Lt(o, next)
    ensures QueueOk(listed, Push(queue, next), Some(o), trace, given, true)
  {
    var q2 := Push(queue, next);
    forall q | q in q2 ensures q in queue || q == next {
      assert q in multiset(q2);
    }
    forall q | q in queue ensures q in q2 {
      assert q in multiset(queue);
    }
    forall j | 0 <= j < |q2| ensures Le(o, q2[j]) {
      assert q2[j] in q2;
      if q2[j] != next {
        var k :| 0 <= k < |queue| && queue[k] == q2[j];
      }
    }
  }

  /**
   * The resolver's chaining discipline, against the states as they were
   * before it ran: an offset not given is queued or resolved only as the next
   * resolved state above an offset whose state was written, and only with
   * `chain`; with `chain`, every written offset's next resolved state is
   * resolved or still queued.
   */
  ghost predicate ChainOk(offsets: seq<Offset>, initial: map<Offset, State>, queue: seq<Offset>, trace: seq<Offset>,
                          given: seq<Offset>, chain: bool, written: set<Offset>)
  {
    && (forall p :: p in written ==> p in trace)
    && (forall q :: q in queue && q !in given ==>
          chain && exists p :: p in written && FirstAfter(offsets, initial, p, true) == Some(q))
    && (forall t :: t in trace && t !in given ==>
          chain && exists p :: p in written && FirstAfter(offsets, initial, p, true) == Some(t))
    && (chain ==> forall p :: p in written && FirstAfter(offsets, initial, p, true).Some? ==>
          FirstAfter(offsets, initial, p, true).value in trace || FirstAfter(offsets, initial, p, true).value in queue)
  }

  /** The written offsets are exactly the resolved ones whose state differs from before. */
  ghost predicate WrittenOk(states: map<Offset, State>, initial: map<Offset, State>, trace: seq<Offset>, written: set<Offset>)
  {
    forall p :: p in written <==> p in trace && p in states && p in initial && states[p] != initial[p]
  }

  lemma ChainStart(offsets: seq<Offset>, initial: map<Offset, State>, queue: seq<Offset>, given: seq<Offset>, chain: bool)
    requires multiset(queue) == multiset(given)
    ensures ChainOk(offsets, initial, queue, [], given, chain, {})
  {
    forall q | q in queue ensures q in given {
      assert q in multiset(queue);
    }
  }

  /** Dropping the queue's head that is already resolved, or has no state, keeps the chaining discipline. */
  lemma ChainSkip(offsets: seq<Offset>, initial: map<Offset, State>, queue: seq<Offset>, trace: seq<Offset>,
                  given: seq<Offset>, chain: bool, written: set<Offset>)
    requires ChainOk(offsets, initial, queue, trace, given, chain, written)
    requires queue != [] && (queue[0] in trace || queue[0] !in initial)
    ensures ChainOk(offsets, initial, queue[1..], trace, given, chain, written)
  {
    assert forall q :: q in queue[1..] ==> q in queue;
    assert forall q :: q in queue && q != queue[0] ==> q in queue[1..];
  }

  /** Moving the queue's head to the resolved offsets keeps the chaining discipline. */
  lemma ChainTake(offsets: seq<Offset>, initial: map<Offset, State>, queue: seq<Offset>, trace: seq<Offset>,
                  given: seq<Offset>, chain: bool, written: set<Offset>)
    requires ChainOk(offsets, initial, queue, trace, given, chain, written)
    requires queue != []
    ensures ChainOk(offsets, initial, queue[1..], trace + [queue[0]], given, chain, written)
  {
    assert queue[0] in queue;
    assert forall q :: q in queue[1..] ==> q in queue;
    assert forall q :: q in queue && q != queue[0] ==> q in queue[1..];
    assert forall t :: t in trace + [queue[0]] <==> t in trace || t == queue[0];
  }

  /** A write without `chain`, or with no resolved state above, queues nothing and keeps the discipline. */
  lemma ChainWrite(offsets: seq<Offset>, initial: map<Offset, State>, queue: seq<Offset>, trace: seq<Offset>,
                   given: seq<Offset>, chain: bool, written: set<Offset>, o: Offset)
    requires ChainOk(offsets, initial, queue, trace, given, chain, written)
    requires o in trace && (!chain || FirstAfter(offsets, initial, o, true).None?)
    ensures ChainOk(offsets, initial, queue, trace, given, chain, written + {o})
  {
  }

  /** A write with `chain` queues the next resolved state above and keeps the discipline. */
  lemma ChainPush(offsets: seq<Offset>, initial: map<Offset, State>, queue: seq<Offset>, trace: seq<Offset>,
                  given: seq<Offset>, written: set<Offset>, o: Offset)
    requires ChainOk(offsets, initial, queue, trace, given, true, written)
    requires o in trace && Sorted(queue) && FirstAfter(offsets, initial, o, true).Some?
    ensures ChainOk(offsets, initial, Push(queue, FirstAfter(offsets, initial, o, true).value), trace, given, true, written + {o})
  {
    var next := FirstAfter(offsets, initial, o, true).value;
    var q2 := Push(queue, next);
    forall q | q in q2 ensures q in queue || q == next {
      assert q in multiset(q2);
    }
    forall q | q in queue ensures q in q2 {
      assert q in multiset(queue);
    }
    assert next in multiset(q2);
  }

  /**
   * Above the last offset taken nothing has been resolved yet, so the next
   * resolved state there is the same as before the resolver ran.
   */
  lemma NextUnmoved(offsets: seq<Offset>, states: map<Offset, State>, initial: map<Offset, State>,
                    replay: (seq<Transition>, Tree, seq<Node>) -> Tree, trace: seq<Offset>, o: Offset)
    requires StatesOk(offsets, states, initial, replay, trace)
    requires forall t :: t in trace ==> Le(t, o)
    ensures FirstAfter(offsets, states, o, true) == FirstAfter(offsets, initial, o, true)
  {
    forall y | y in offsets && Lt(o, y) ensures Eligible(states, y, true) <==> Eligible(initial, y, true) {
      assert y !in trace;
    }
    FirstAfterFrame(offsets, states, initial, o, true);
  }

  /**
   * What the resolver queues beyond the given offsets: an offset resolved
   * without being given is, with `chain`, the next resolved state above an
   * offset whose state the resolver wrote; and with `chain` the next resolved
   * state above every written offset is resolved too.
   */
  ghost predicate ChainedFromWrites(offsets: seq<Offset>, states: map<Offset, State>, initial: map<Offset, State>,
                                    trace: seq<Offset>, given: seq<Offset>, chain: bool)
  {
    && (forall t :: t in trace && t !in given ==>
          chain && exists p :: p in trace && p in states && p in initial && states[p] != initial[p]
                               && FirstAfter(offsets, initial, p, true) == Some(t))
    && (chain ==> forall p ::
          (p in trace && p in states && p in initial && states[p] != initial[p] && FirstAfter(offsets, initial, p, true).Some?) ==>
          FirstAfter(offsets, initial, p, true).value in trace)
  }

  /** The resolver's loop invariant: its effect on the states, its queue discipline and its chaining discipline. */
  ghost predicate LoopOk(offsets: seq<Offset>, states: map<Offset, State>, initial: map<Offset, State>,
                         replay: (seq<Transition>, Tree, seq<Node>) -> Tree, queue: seq<Offset>, previous: Option<Offset>,
                         trace: seq<Offset>, given: seq<Offset>, chain: bool, written: set<Offset>)
  {
    && StatesOk(offsets, states, initial, replay, trace)
    && QueueOk(states.Keys, queue, previous, trace, given, chain)
    && ChainOk(offsets, initial, queue, trace, given, chain, written)
    && WrittenOk(states, initial, trace, written)
  }

  lemma LoopStart(offsets: seq<Offset>, states: map<Offset, State>, replay: (seq<Transition>, Tree, seq<Node>) -> Tree,
                  queue: seq<Offset>, given: seq<Offset>, chain: bool)
    requires IndexValid(offsets, states)
    requires Sorted(queue) && multiset(queue) == multiset(given)
    requires forall i :: 0 <= i < |given| ==> given[i] != NegInf
    ensures LoopOk(offsets, states, states, replay, queue, None, [], given, chain, {})
  {
    WorklistStart(queue, given, states.Keys, chain);
    ChainStart(offsets, states, queue, given, chain);
  }

  /** Taking the offset just taken again, or one without a state, changes nothing and does not move the resolver back. */
  lemma LoopSkip(offsets: seq<Offset>, states: map<Offset, State>, initial: map<Offset, State>,
                 replay: (seq<Transition>, Tree, seq<Node>) -> Tree, queue: seq<Offset>, previous: Option<Offset>,
                 trace: seq<Offset>, given: seq<Offset>, chain: bool, written: set<Offset>)
    requires LoopOk(offsets, states, initial, replay, queue, previous, trace, given, chain, written)
    requires queue != [] && (previous == Some(queue[0]) || queue[0] !in states)
    ensures LoopOk(offsets, states, initial, replay, queue[1..], Some(queue[0]), trace, given, chain, written)
    ensures Remaining(offsets, Some(queue[0])) <= Remaining(offsets, previous)
  {
    if previous == Some(queue[0]) {
      PopRepeat(states.Keys, queue, previous, trace, given, chain);
    } else {
      PopUnlisted(states.Keys, queue, previous, trace, given, chain);
      AdvanceUnlisted(offsets, previous, queue[0]);
    }
    ChainSkip(offsets, initial, queue, trace, given, chain, written);
  }

  /**
   * Taking a listed offset above the last one taken and resolving it keeps the
   * invariant: it joins the resolved offsets, joins the written ones when its
   * state changes, and then, with `chain`, the next resolved state above it is
   * queued.
   */
  lemma LoopTake(offsets: seq<Offset>, states: map<Offset, State>, initial: map<Offset, State>,
                 replay: (seq<Transition>, Tree, seq<Node>) -> Tree, queue: seq<Offset>, previous: Option<Offset>,
                 trace: seq<Offset>, given: seq<Offset>, chain: bool, written: set<Offset>,
                 s2: map<Offset, State>, changed: bool, q2: seq<Offset>, w2: set<Offset>)
    requires LoopOk(offsets, states, initial, replay, queue, previous, trace, given, chain, written)
    requires queue != [] && previous != Some(queue[0]) && queue[0] in states
    requires s2 == states[queue[0] := Resolve(states[queue[0]], ReplayAt(offsets, states, queue[0], replay))]
    requires changed <==> s2[queue[0]] != states[queue[0]]
    requires Sorted(queue[1..])
    requires q2 == if changed && chain && FirstAfter(offsets, s2, queue[0], true).Some?
                   then Push(queue[1..], FirstAfter(offsets, s2, queue[0], true).value) else queue[1..]
    requires w2 == if changed then written + {queue[0]} else written
    ensures Remaining(offsets, Some(queue[0])) < Remaining(offsets, previous)
    ensures LoopOk(offsets, s2, initial, replay, q2, Some(queue[0]), trace + [queue[0]], given, chain, w2)
  {
    var o := queue[0];
    PopListed(states.Keys, queue, previous, trace, given, chain);
    Advance(offsets, previous, o);
    ChainTake(offsets, initial, queue, trace, given, chain, written);
    var result := ReplayAt(offsets, states, o, replay);
    ResolveStep(offsets, states, initial, trace, o, result, replay);
    var trace2 := trace + [o];
    assert trace2[..|trace2| - 1] == trace;
    WrittenStep(states, s2, initial, trace2, written, o, changed);
    assert s2.Keys == states.Keys;
    if changed {
      var next := FirstAfter(offsets, s2, o, true);
      NextUnmoved(offsets, s2, initial, replay, trace2, o);
      if chain && next.Some? {
        PushNext(s2.Keys, queue[1..], o, trace2, given, next.value);
        ChainPush(offsets, initial, queue[1..], trace2, given, written, o);
      } else {
        ChainWrite(offsets, initial, queue[1..], trace2, given, chain, written, o);
      }
    }
  }

  /** With the queue empty, the invariant gives everything the resolver promises. */
  lemma LoopEnd(offsets: seq<Offset>, states: map<Offset, State>, initial: map<Offset, State>,
                replay: (seq<Transition>, Tree, seq<Node>) -> Tree, previous: Option<Offset>,
                trace: seq<Offset>, given: seq<Offset>, chain: bool, written: set<Offset>)
    requires LoopOk(offsets, states, initial, replay, [], previous, trace, given, chain, written)
    ensures IndexValid(offsets, states) && states.Keys == initial.Keys
    ensures StrictlySorted(trace)
    ensures forall o :: o in states && o !in trace ==> states[o] == initial[o]
    ensures Settled(offsets, states, initial, replay, trace)
    ensures forall g :: g in given && g in states ==> g in trace
    ensures !chain ==> forall t :: t in trace ==> t in given
    ensures ChainedFromWrites(offsets, states, initial, trace, given, chain)
  {
    ChainFinish(states, initial, trace, given, chain, written, offsets);
  }

  /** Resolving `o` keeps the written record: `o` joins it exactly when its state changed. */
  lemma WrittenStep(before: map<Offset, State>, after: map<Offset, State>, initial: map<Offset, State>,
                    trace: seq<Offset>, written: set<Offset>, o: Offset, changed: bool)
    requires |trace| > 0 && o == trace[|trace| - 1] && o !in trace[..|trace| - 1]
    requires WrittenOk(before, initial, trace[..|trace| - 1], written)
    requires o in before && o in initial && before[o] == initial[o]
    requires o in after && after == before[o := after[o]] && (changed <==> after[o] != before[o])
    ensures WrittenOk(after, initial, trace, if changed then written + {o} else written)
  {
    assert forall t :: t in trace <==> t in trace[..|trace| - 1] || t == o by {
      assert trace == trace[..|trace| - 1] + [o];
    }
  }

  /** With the queue empty, the chaining discipline gives the resolver's promise about chained offsets. */
  lemma ChainFinish(states: map<Offset, State>, initial: map<Offset, State>, trace: seq<Offset>, given: seq<Offset>,
                    chain: bool, written: set<Offset>, offsets: seq<Offset>)
    requires ChainOk(offsets, initial, [], trace, given, chain, written)
    requires WrittenOk(states, initial, trace, written)
    ensures ChainedFromWrites(offsets, states, initial, trace, given, chain)
  {
    forall t | t in trace && t !in given
      ensures exists p :: p in trace && p in states && p in initial && states[p] != initial[p] && FirstAfter(offsets, initial, p, true) == Some(t)
    {
      var p :| p in written && FirstAfter(offsets, initial, p, true) == Some(t);
    }
  }

  /** Writing a state above `o` does not change the replay at `o`. */
  lemma ReplayAtAbove(offsets: seq<Offset>, states: map<Offset, State>, o: Offset, y: Offset, v: State,
                      replay: (seq<Transition>, Tree, seq<Node>) -> Tree)
    requires IndexValid(offsets, states) && o in states && o != NegInf && y in states && Lt(o, y)
    ensures IndexValid(offsets, states[y := v])
    ensures ReplayAt(offsets, states[y := v], o, replay) == ReplayAt(offsets, states, o, replay)
  {
    var s2 := states[y := v];
    LastBeforeFrame(offsets, states, s2, o, true);
    ResolvedPredecessorExists(offsets, states, o);
  }

  /** Rewriting the state at `o` with the same transitions and stopping nodes does not change the replay at `o`. */
  lemma ReplayAtSelf(offsets: seq<Offset>, states: map<Offset, State>, o: Offset, v: State,
                     replay: (seq<Transition>, Tree, seq<Node>) -> Tree)
    requires IndexValid(offsets, states) && o in states && o != NegInf
    requires v.transitions == states[o].transitions && v.stopNodes == states[o].stopNodes
    ensures IndexValid(offsets, states[o := v])
    ensures ReplayAt(offsets, states[o := v], o, replay) == ReplayAt(offsets, states, o, replay)
  {
    var s2 := states[o := v];
    LastBeforeFrame(offsets, states, s2, o, true);
    ResolvedPredecessorExists(offsets, states, o);
  }

  /** Writing the state at `o` keeps every offset resolved below it settled. */
  lemma SettledAfterWrite(offsets: seq<Offset>, states: map<Offset, State>, initial: map<Offset, State>,
                          replay: (seq<Transition>, Tree, seq<Node>) -> Tree, trace: seq<Offset>, o: Offset, v: State)
    requires IndexValid(offsets, states) && Settled(offsets, states, initial, replay, trace)
    requires o in states && o != NegInf && forall t :: t in trace ==> Lt(t, o)
    ensures IndexValid(offsets, states[o := v])
    ensures Settled(offsets, states[o := v], initial, replay, trace)
  {
    forall t | t in trace ensures ReplayAt(offsets, states[o := v], t, replay) == ReplayAt(offsets, states, t, replay) {
      ReplayAtAbove(offsets, states, t, o, v, replay);
    }
  }

  // ------------------------------------------------------------------ the session

  class Session {
    /** The listed offsets, strictly increasing, starting at the root-level sentinel. */
    var offsets: seq<Offset>
    /** One state per listed offset. */
    var states: map<Offset, State>
    /** The per-kind session-id counters. */
    var sessionIds: map<string, int>
    /** Time added after the last offset when rendering; None and 0 add nothing. */
    const padding: Option<real>
    /** `State._clone(offset)`: the copy placed at a new offset. */
    const clone: (State, Offset) -> State
    /** `State._apply_transitions`: a state's transitions replayed on a resolved tree (stopping nodes removed). */
    const replay: (seq<Transition>, Tree, seq<Node>) -> Tree

    ghost predicate Valid()
      reads this
    {
      IndexValid(offsets, states)
    }

    /** `_setup_initial_states`: the root-level state holding the root alone, and a copy of it at time zero. */
    constructor(padding: Option<real>, clone: (State, Offset) -> State, replay: (seq<Transition>, Tree, seq<Node>) -> Tree)
      ensures Valid()
      ensures offsets == [NegInf, Fin(0.0)]
      ensures states == map[NegInf := InitialState, Fin(0.0) := clone(InitialState, Fin(0.0))]
      ensures states[NegInf].tree == Some(RootTree)
      ensures sessionIds == map[]
      ensures this.padding == padding && this.clone == clone && this.replay == replay
    {
      this.padding := padding;
      this.clone := clone;
      this.replay := replay;
      offsets := [NegInf, Fin(0.0)];
      states := map[NegInf := InitialState, Fin(0.0) := clone(InitialState, Fin(0.0))];
      sessionIds := map[];
    }

    /** `_find_state_at(o)` without cloning: the state exactly at `o`, if the offset is listed. */
    function FindStateAt(o: Offset): (r: Option<State>)
      requires Valid()
      reads this
      ensures r.Some? <==> o in offsets
      ensures r.Some? ==> r.value == states[o]
    {
      if o in states then Some(states[o]) else None
    }

    /** `_find_state_before`: the offset of the last (resolved, when asked) state strictly below `o`. */
    method FindStateBefore(o: Offset, withTree: bool) returns (r: Option<Offset>)
      requires Valid()
      ensures r == LastBefore(offsets, states, o, withTree)
    {
      r := StateBefore(offsets, states, o, withTree);
    }

    /** `_find_state_after`: the offset of the first (resolved, when asked) state strictly above `o`. */
    method FindStateAfter(o: Offset, withTree: bool) returns (r: Option<Offset>)
      requires Valid()
      ensures r == FirstAfter(offsets, states, o, withTree)
    {
      r := StateAfter(offsets, states, o, withTree);
    }

    /** `_add_state_at`: a copy of the immediate predecessor's state, listed right after it. */
    method AddStateAt(o: Offset) returns (state: State)
      requires Valid() && o !in states && o != NegInf
      modifies this
      ensures Valid()
      ensures offsets == Insert(old(offsets), o)
      ensures state == clone(old(states)[Predecessor(old(offsets), old(states), o)], o)
      ensures states == old(states)[o := state]
      ensures sessionIds == old(sessionIds)
    {
      var before := FindStateBefore(o, false);
      assert before == Some(Predecessor(offsets, states, o));
      state := clone(states[before.value], o);
      var spliced := SpliceAfter(offsets, states, o, before.value);
      InsertValid(offsets, states, o, state);
      states := states[o := state];
      offsets := spliced;
    }

    /**
     * `at`: the state at a non-negative offset, added as a copy of its
     * predecessor's when the offset is not yet listed.
     */
    method At(o: Offset) returns (r: Result<State>)
      requires Valid()
      modifies this
      ensures Valid() && sessionIds == old(sessionIds)
      ensures !NonNegative(o) ==> r == Err(InvalidOffset) && offsets == old(offsets) && states == old(states)
      ensures NonNegative(o) && o in old(offsets) ==>
        r == Ok(old(states)[o]) && offsets == old(offsets) && states == old(states)
      ensures NonNegative(o) && o !in old(offsets) ==>
        && offsets == Insert(old(offsets), o)
        && r == Ok(clone(old(states)[Predecessor(old(offsets), old(states), o)], o))
        && states == old(states)[o := r.value]
    {
      if !NonNegative(o) {
        return Err(InvalidOffset);
      }
      var state := FindStateAt(o);
      if state.None? {
        var added := AddStateAt(o);
        state := Some(added);
      }
      return Ok(state.value);
    }

    /**
     * `_find_state_at(o, clone_if_missing=True)`, corrected: a missing state is
     * cloned from the last resolved state below it and listed at its sorted place.
     */
    method FindOrCloneStateAt(o: Offset) returns (state: State)
      requires Valid() && o != NegInf
      modifies this
      ensures Valid() && sessionIds == old(sessionIds)
      ensures o in old(states) ==> state == old(states)[o] && offsets == old(offsets) && states == old(states)
      ensures o !in old(states) ==>
        && offsets == Insert(old(offsets), o)
        && state == clone(old(states)[ResolvedPredecessor(old(offsets), old(states), o)], o)
        && states == old(states)[o := state]
      ensures states[o] == state
    {
      if o in states {
        return states[o];
      }
      var before := FindStateBefore(o, true);
      assert before == Some(ResolvedPredecessor(offsets, states, o));
      state := clone(states[before.value], o);
      InsertValid(offsets, states, o, state);
      states := states[o := state];
      offsets := Insert(offsets, o);
    }

    /** The state one render offset is compiled against: listed, or the end state cloned in. */
    method RenderStateAt(o: Offset, d: real) returns (state: State)
      requires Valid() && o != NegInf && o in RenderStates(offsets, states, clone, d)
      modifies this
      ensures Valid() && sessionIds == old(sessionIds)
      ensures state == RenderStates(old(offsets), old(states), clone, d)[o]
      ensures o in old(states) ==> offsets == old(offsets) && states == old(states)
      ensures o !in old(states) ==>
        && o == Fin(d)
        && states == RenderStates(old(offsets), old(states), clone, d)
        && offsets == Insert(old(offsets), o)
    {
      state := FindOrCloneStateAt(o);
    }

    /** One offset of a render: its state found (or the end state cloned in), then compiled into its bundle. */
    method RenderOffset(o: Offset, d: real, inputs: RenderInputs, open: OpenStates, visited: set<SynthDef>)
      returns (here: Result<seq<Bundle>>, open': OpenStates, visited': set<SynthDef>)
      requires Valid() && RowsUnique(inputs.busSettings)
      requires o != NegInf && o in RenderStates(offsets, states, clone, d)
      modifies this
      ensures Valid() && sessionIds == old(sessionIds)
      ensures var c := CompilerOf(inputs, d)(o, RenderStates(old(offsets), old(states), clone, d)[o], open, visited);
        && (here.Ok? <==> c.Compiled?)
        && (here.Ok? ==> here.value == Emitted(o, c.reqs, d) && open' == c.open && visited' == c.visited)
      ensures o in old(states) ==> offsets == old(offsets) && states == old(states)
      ensures o !in old(states) ==>
        && o == Fin(d)
        && states == RenderStates(old(offsets), old(states), clone, d)
        && offsets == Insert(old(offsets), o)
    {
      var state := RenderStateAt(o, d);
      here, open', visited' := CompileOffset(o, state, d, inputs, open, visited);
    }

    /** `_remove_state_at`: drops a sparse state; a state holding a node tree may not be removed. */
    method RemoveStateAt(o: Offset) returns (r: Result<Option<State>>)
      requires Valid()
      modifies this
      ensures Valid() && sessionIds == old(sessionIds)
      ensures o !in old(states) ==> r == Ok(None) && offsets == old(offsets) && states == old(states)
      ensures o in old(states) && old(states)[o].tree.Some? ==>
        r == Err(NotSparse) && offsets == old(offsets) && states == old(states)
      ensures o in old(states) && old(states)[o].tree.None? ==>
        && r == Ok(Some(old(states)[o]))
        && offsets == Remove(old(offsets), o)
        && states == old(states) - {o}
    {
      var state := FindStateAt(o);
      if state.None? {
        return Ok(None);
      }
      if state.value.tree.Some? {
        return Err(NotSparse);
      }
      RemoveSorted(offsets, o);
      offsets := Remove(offsets, o);
      states := states - {o};
      return Ok(state);
    }

    /**
     * `_apply_transitions`: takes the given offsets in increasing order,
     * skipping repeats and unlisted offsets, and gives each state the tree its
     * transitions produce on the nearest resolved tree below it, writing it
     * only when the child table differs; after a write, with `chain`, the next
     * resolved state is queued too. While propagation is blocked nothing
     * happens. Given the root-level offset, which sorts first in the queue,
     * the lookup of a resolved state below it fails before anything is
     * written. `trace` is the offsets resolved, in order.
     */
    method ApplyTransitions(given: seq<Offset>, chain: bool, blocked: bool) returns (r: Result<()>, ghost trace: seq<Offset>)
      requires Valid()
      modifies this
      ensures Valid()
      ensures offsets == old(offsets) && sessionIds == old(sessionIds)
      ensures states.Keys == old(states).Keys
      ensures r == if !blocked && NegInf in given then Err(NoStateBelow) else Ok(())
      ensures r.Err? || blocked ==> states == old(states) && trace == []
      ensures StrictlySorted(trace)
      ensures forall o :: o in states && o !in trace ==> states[o] == old(states)[o]
      ensures Settled(offsets, states, old(states), replay, trace)
      ensures r.Ok? && !blocked ==> forall g :: g in given && g in states ==> g in trace
      ensures !chain ==> forall t :: t in trace ==> t in given
      ensures ChainedFromWrites(offsets, states, old(states), trace, given, chain)
    {
      trace := [];
      if blocked {
        return Ok(()), trace;
      }
      if NegInf in given {
        return Err(NoStateBelow), trace;
      }
      states, trace := ResolveQueue(offsets, states, replay, given, chain);
      r := Ok(());
    }

    /**
     * The body of `_apply_transitions` for one listed offset: replay its
     * transitions on the nearest resolved tree below it and write the result
     * when the child table differs.
     */
    method ResolveOne(o: Offset) returns (changed: bool)
      requires Valid() && o in states && o != NegInf
      modifies this
      ensures Valid() && offsets == old(offsets) && sessionIds == old(sessionIds)
      ensures states == old(states)[o := Resolve(old(states)[o], ReplayAt(old(offsets), old(states), o, replay))]
      ensures changed <==> states[o] != old(states)[o]
    {
      states, changed := ResolveAt(offsets, states, o, replay);
    }

    /** `_get_next_session_id`: the kind's next id; only that kind's counter moves. */
    method GetNextSessionId(kind: string) returns (id: int)
      modifies this
      ensures (id, sessionIds) == NextId(old(sessionIds), kind)
      ensures offsets == old(offsets) && states == old(states)
    {
      id := if kind in sessionIds then sessionIds[kind] else FirstId(kind);
      sessionIds := sessionIds[kind := id + 1];
    }

    /** `duration`: the last offset below +inf, clamped at zero, plus the padding when positive. */
    method Duration() returns (d: real)
      requires Valid()
      ensures d == DurationOf(offsets, padding)
    {
      var last := Fin(0.0);
      var i := |offsets|;
      while i > 0
        invariant 0 <= i <= |offsets|
        invariant LastFinite(offsets) == LastFinite(offsets[..i])
      {
        assert offsets[..i][..i - 1] == offsets[..i - 1];
        i := i - 1;
        last := offsets[i];
        if last != PosInf {
          break;
        }
      }
      assert offsets[..1] == [NegInf];
      assert LastFinite(offsets) == Some(last);
      match last {
        case Fin(t) => d := if t < 0.0 then 0.0 else t;
        case _ => d := 0.0;
      }
      if d > 0.0 && padding.Some? && padding.value != 0.0 {
        d := d + padding.value;
      }
    }

    /** `_build_id_mapping_for_nodes`: the root to 0, then each node started after the root-level offset to its session id. */
    method BuildNodeMapping() returns (m: map<Node, int>)
      requires Valid()
      ensures m.Keys == {Root} + StartedNodes(offsets[1..], states)
      ensures forall n :: n in m ==> m[n] == n.sessionId
      ensures m[Root] == 0
      ensures m == NodeIds(offsets[1..], states)
    {
      forall o | o in offsets[1..] ensures o in states {
        var k :| 0 <= k < |offsets[1..]| && offsets[1..][k] == o;
        assert offsets[k + 1] == o;
      }
      m := NodeMapping(offsets[1..], states);
    }

    /**
     * `_to_non_xrefd_request_bundles`: builds the id mapping, takes the
     * render end (a given nonzero duration, else the session's), compiles the
     * offsets after the root-level one with the end added, one bundle per
     * offset that has requests, `Nothing` closing the end, and stops there.
     * The end's state is cloned in when missing.
     */
    method ToRequestBundles(duration: Option<real>, buffers: seq<Buffer>, bufferGroups: BufferGroups,
                            buses: seq<Bus>, busGroupSizes: map<int, nat>, inputCount: nat, outputCount: nat,
                            schedule: BufferSchedule, nodeSettings: (Offset, State) -> NodeSettings)
      returns (r: Result<seq<Bundle>>)
      requires Valid()
      requires GroupsConsistent(buffers, bufferGroups) && GroupsSized(buses, busGroupSizes)
      modifies this
      ensures Valid() && sessionIds == old(sessionIds)
      ensures var spec := Render(old(offsets), old(states), padding, clone, duration, buffers, bufferGroups, buses,
                                 busGroupSizes, inputCount, outputCount, schedule, nodeSettings);
        (r.Ok? <==> spec.Ok?) && (r.Ok? ==> r == spec)
      ensures r.Ok? ==>
        var d := RenderEnd(duration, old(offsets), padding);
        && states == RenderStates(old(offsets), old(states), clone, d)
        && offsets == if Fin(d) in old(offsets) then old(offsets) else Insert(old(offsets), Fin(d))
    {
      var bufferIds := BuildBufferMapping(buffers, bufferGroups);
      var busIds := BuildBusMapping(buses, busGroupSizes, inputCount, outputCount);
      var nodeIds := BuildNodeMapping();
      var ids := IdMapping(nodeIds, bufferIds, busIds);
      var d: real;
      if duration.Some? && duration.value != 0.0 {
        d := duration.value;
      } else {
        d := Duration();
      }
      assert d == RenderEnd(duration, offsets, padding);
      TailStrictlySorted(offsets);
      var timeline := offsets[1..];
      if Fin(d) !in timeline {
        timeline := Insert(timeline, Fin(d));
      }
      assert timeline == Timeline(offsets, d);
      var settings := CollectBusSettings(ids.buses, buses);
      if settings.Err? {
        return Err(settings.error);
      }
      TimelineStates(offsets, states, clone, d);
      r := RenderTimeline(timeline, d, RenderInputs(schedule, settings.value, ids, nodeSettings));
    }

    /**
     * The loop of `_to_non_xrefd_request_bundles`: each offset's state
     * (cloned in at the end when missing) compiled in order, the open-file
     * record and the sent definitions carried along, a bundle per offset with
     * requests, `Nothing` closing the end, and a stop there.
     */
    method RenderTimeline(timeline: seq<Offset>, d: real, inputs: RenderInputs) returns (r: Result<seq<Bundle>>)
      requires Valid() && RowsUnique(inputs.busSettings)
      requires forall o :: o in timeline ==> o != NegInf && o in RenderStates(offsets, states, clone, d)
      requires Fin(d) in timeline
      modifies this
      ensures Valid() && sessionIds == old(sessionIds)
      ensures var spec := Bundles(timeline, RenderStates(old(offsets), old(states), clone, d), d, map[], {},
                                  CompilerOf(inputs, d));
        (r.Ok? <==> spec.Ok?) && (r.Ok? ==> r == spec)
      ensures r.Ok? ==>
        && states == RenderStates(old(offsets), old(states), clone, d)
        && offsets == if Fin(d) in old(offsets) then old(offsets) else Insert(old(offsets), Fin(d))
    {
      ghost var stateOf := RenderStates(offsets, states, clone, d);
      ghost var compile := CompilerOf(inputs, d);
      ghost var whole := Bundles(timeline, stateOf, d, map[], {}, compile);
      var open: OpenStates := map[];
      var visited: set<SynthDef> := {};
      var bundles: seq<Bundle> := [];
      var i := 0;
      assert timeline[0..] == timeline;
      PrependAssoc([], [], whole);
      while true
        invariant 0 <= i < |timeline|
        invariant Valid() && sessionIds == old(sessionIds)
        invariant offsets == old(offsets) && states == old(states)
        invariant Fin(d) in timeline[i..]
        invariant whole == PrependBundles(bundles, Bundles(timeline[i..], stateOf, d, open, visited, compile))
        decreases |timeline| - i
      {
        var o := timeline[i];
        assert o in timeline;
        BundlesAdvance(timeline, i, stateOf, d, open, visited, compile, bundles);
        var here: Result<seq<Bundle>>;
        here, open, visited := RenderOffset(o, d, inputs, open, visited);
        if here.Err? {
          return Err(here.error);
        }
        bundles := bundles + here.value;
        if o == Fin(d) {
          return Ok(bundles);
        }
        i := i + 1;
      }
    }
  }

  /** One offset of `_to_non_xrefd_request_bundles`: its requests compiled, then the bundle they make. */
  method CompileOffset(o: Offset, state: State, d: real, inputs: RenderInputs, open: OpenStates,
                       visited: set<SynthDef>)
    returns (here: Result<seq<Bundle>>, open': OpenStates, visited': set<SynthDef>)
    requires RowsUnique(inputs.busSettings)
    ensures var c := CompilerOf(inputs, d)(o, state, open, visited);
      && (here.Ok? <==> c.Compiled?)
      && (here.Ok? ==> here.value == Emitted(o, c.reqs, d) && open' == c.open && visited' == c.visited)
  {
    var reqs: Result<seq<Request>>;
    reqs, open', visited' := CollectRequestsAtOffset(state, o == Fin(d), open, inputs.schedule, inputs.busSettings, d,
                                                     inputs.ids, o, visited, inputs.nodeSettings(o, state));
    if reqs.Err? {
      return Err(reqs.error), open', visited';
    }
    var contents := reqs.value;
    if o == Fin(d) {
      contents := contents + [Nothing];
    }
    if contents == [] {
      here := Ok([]);
    } else {
      here := Ok([Bundle(TimeOf(o), contents)]);
    }
  }

  /** The loop of `_build_id_mapping_for_nodes` over the given offsets, each offset's starting nodes by session id. */
  method NodeMapping(timeline: seq<Offset>, states: map<Offset, State>) returns (m: map<Node, int>)
    requires forall o :: o in timeline ==> o in states
    ensures m.Keys == {Root} + StartedNodes(timeline, states)
    ensures forall n :: n in m ==> m[n] == n.sessionId
  {
    m := map[Root := 0];
    var i := 0;
    while i < |timeline|
      invariant 0 <= i <= |timeline|
      invariant m.Keys == {Root} + StartedNodes(timeline[..i], states)
      invariant forall n :: n in m ==> m[n] == n.sessionId
    {
      var o := timeline[i];
      m := MapOffsetNodes(m, states[o].startNodes);
      assert timeline[..i + 1] == timeline[..i] + [o];
      StartedNodesSnoc(timeline[..i], o, states);
      i := i + 1;
    }
    assert timeline[..i] == timeline;
  }

  /** The nodes starting at one offset, taken by session id, each to its session id. */
  method MapOffsetNodes(m0: map<Node, int>, startNodes: seq<Node>) returns (m: map<Node, int>)
    requires forall n :: n in m0 ==> m0[n] == n.sessionId
    ensures m.Keys == m0.Keys + set n | n in startNodes
    ensures forall n :: n in m ==> m[n] == n.sessionId
  {
    var nodes := SortBy(startNodes, (n: Node) => n.sessionId);
    forall n ensures n in nodes <==> n in startNodes {
      assert n in nodes <==> n in multiset(nodes);
      assert n in startNodes <==> n in multiset(startNodes);
    }
    m := MapStartedNodes(m0, nodes);
  }

  /** Each node of one offset to its session id, in order. */
  method MapStartedNodes(m0: map<Node, int>, nodes: seq<Node>) returns (m: map<Node, int>)
    requires forall n :: n in m0 ==> m0[n] == n.sessionId
    ensures m.Keys == m0.Keys + set n | n in nodes
    ensures forall n :: n in m ==> m[n] == n.sessionId
  {
    m := m0;
    var j := 0;
    while j < |nodes|
      invariant 0 <= j <= |nodes|
      invariant m.Keys == m0.Keys + set n | n in nodes[..j]
      invariant forall n :: n in m ==> m[n] == n.sessionId
    {
      assert nodes[..j + 1] == nodes[..j] + [nodes[j]];
      m := m[nodes[j] := nodes[j].sessionId];
      j := j + 1;
    }
    assert nodes[..j] == nodes;
  }

  /** The search of `_find_state_before`: bisect for `o`, step below it, then walk down to an eligible state. */
  /**
   * The loop of `_apply_transitions`: takes the queued offsets in increasing
   * order, skipping repeats and unlisted offsets, resolves each listed one,
   * and with `chain` queues the next resolved state above every one whose
   * state changed. `trace` is the offsets resolved, in order.
   */
  method ResolveQueue(offsets: seq<Offset>, states: map<Offset, State>,
                      replay: (seq<Transition>, Tree, seq<Node>) -> Tree, given: seq<Offset>, chain: bool)
    returns (current: map<Offset, State>, ghost trace: seq<Offset>)
    requires IndexValid(offsets, states)
    requires forall i :: 0 <= i < |given| ==> given[i] != NegInf
    ensures IndexValid(offsets, current) && current.Keys == states.Keys
    ensures StrictlySorted(trace)
    ensures forall o :: o in current && o !in trace ==> current[o] == states[o]
    ensures Settled(offsets, current, states, replay, trace)
    ensures forall g :: g in given && g in current ==> g in trace
    ensures !chain ==> forall t :: t in trace ==> t in given
    ensures ChainedFromWrites(offsets, current, states, trace, given, chain)
  {
    var queue := Enqueue(given);
    var previous: Option<Offset> := None;
    current := states;
    trace := [];
    ghost var written: set<Offset> := {};
    LoopStart(offsets, current, replay, queue, given, chain);
    while queue != []
      invariant LoopOk(offsets, current, states, replay, queue, previous, trace, given, chain, written)
      decreases Remaining(offsets, previous), |queue|
    {
      var o := queue[0];
      if previous == Some(o) || o !in current {
        LoopSkip(offsets, current, states, replay, queue, previous, trace, given, chain, written);
        queue := queue[1..];
        previous := Some(o);
        continue;
      }
      QueueTail(queue);
      var resolved, changed := ResolveAt(offsets, current, o, replay);
      var next := QueueNext(offsets, resolved, queue[1..], o, changed && chain);
      ghost var w2 := if changed then written + {o} else written;
      LoopTake(offsets, current, states, replay, queue, previous, trace, given, chain, written, resolved, changed, next, w2);
      current, queue, previous, trace, written := resolved, next, Some(o), trace + [o], w2;
    }
    LoopEnd(offsets, current, states, replay, previous, trace, given, chain, written);
  }

  /** After a write, with `chain`, the next resolved state above `o` joins the queue. */
  method QueueNext(offsets: seq<Offset>, states: map<Offset, State>, queue: seq<Offset>, o: Offset, chained: bool)
    returns (q2: seq<Offset>)
    requires IndexValid(offsets, states) && Sorted(queue)
    ensures q2 == if chained && FirstAfter(offsets, states, o, true).Some?
                  then Push(queue, FirstAfter(offsets, states, o, true).value) else queue
  {
    q2 := queue;
    if chained {
      var next := StateAfter(offsets, states, o, true);
      if next.Some? {
        q2 := Push(queue, next.value);
      }
    }
  }

  /** The body of `_find_state_after`: bisect, then scan up. */
  method StateAfter(offsets: seq<Offset>, states: map<Offset, State>, o: Offset, withTree: bool) returns (r: Option<Offset>)
    requires IndexValid(offsets, states)
    ensures r == FirstAfter(offsets, states, o, withTree)
  {
    StrictlySortedIsSorted(offsets);
    var index := BisectRight(offsets, o);
    FirstAfterAbove(offsets, states, o, withTree, index);
    if withTree {
      r := ScanUp(offsets, states, o, index);
      return;
    }
    if index < |offsets| {
      var old_offset := offsets[index];
      FirstAfterStep(offsets, states, o, withTree, index);
      if Lt(o, old_offset) {
        return Some(old_offset);
      }
    }
    return None;
  }

  /**
   * The body of `_apply_transitions` for one listed offset: replay its
   * transitions on the nearest resolved tree below it and write the result
   * when the child table differs.
   */
  method ResolveAt(offsets: seq<Offset>, states: map<Offset, State>, o: Offset,
                   replay: (seq<Transition>, Tree, seq<Node>) -> Tree) returns (s2: map<Offset, State>, changed: bool)
    requires IndexValid(offsets, states) && o in states && o != NegInf
    ensures IndexValid(offsets, s2)
    ensures s2 == states[o := Resolve(states[o], ReplayAt(offsets, states, o, replay))]
    ensures changed <==> s2[o] != states[o]
  {
    var state := states[o];
    var before := StateBefore(offsets, states, o, true);
    ResolvedPredecessorExists(offsets, states, o);
    var result := replay(state.transitions, states[before.value].tree.value, state.stopNodes);
    assert result == ReplayAt(offsets, states, o, replay);
    s2 := states;
    changed := false;
    if state.tree.None? || state.tree.value.children != result.children {
      s2 := states[o := state.(tree := Some(result))];
      changed := true;
    }
  }

  method StateBefore(offsets: seq<Offset>, states: map<Offset, State>, o: Offset, withTree: bool) returns (r: Option<Offset>)
    requires IndexValid(offsets, states)
    ensures r == LastBefore(offsets, states, o, withTree)
  {
    StrictlySortedIsSorted(offsets);
    var index: int := BisectLeft(offsets, o);
    if index == |offsets| {
      index := index - 1;
    }
    if Le(o, offsets[index]) {
      index := index - 1;
    }
    LastBeforeBelow(offsets, states, o, withTree, index + 1);
    if index < 0 {
      return None;
    }
    if withTree {
      r := ScanDown(offsets, states, o, index);
      return;
    }
    LastBeforeStep(offsets, states, o, withTree, index);
    return Some(offsets[index]);
  }

  /** The downward walk of `_find_state_before`: from `index`, the first state holding a node tree. */
  method ScanDown(offsets: seq<Offset>, states: map<Offset, State>, o: Offset, index: int) returns (r: Option<Offset>)
    requires -1 <= index < |offsets|
    requires forall j :: 0 <= j <= index ==> offsets[j] in states && Lt(offsets[j], o)
    ensures r == LastBefore(offsets[..index + 1], states, o, true)
  {
    var i := index;
    while 0 <= i
      invariant -1 <= i <= index
      invariant LastBefore(offsets[..index + 1], states, o, true) == LastBefore(offsets[..i + 1], states, o, true)
    {
      LastBeforeStep(offsets, states, o, true, i);
      if states[offsets[i]].tree.Some? {
        return Some(offsets[i]);
      }
      i := i - 1;
    }
    return None;
  }

  /** The upward walk of `_find_state_after`: from `index`, the first state holding a node tree. */
  method ScanUp(offsets: seq<Offset>, states: map<Offset, State>, o: Offset, index: nat) returns (r: Option<Offset>)
    requires index <= |offsets|
    requires forall j :: index <= j < |offsets| ==> offsets[j] in states && Lt(o, offsets[j])
    ensures r == FirstAfter(offsets[index..], states, o, true)
  {
    var i := index;
    while i < |offsets|
      invariant index <= i <= |offsets|
      invariant FirstAfter(offsets[index..], states, o, true) == FirstAfter(offsets[i..], states, o, true)
    {
      FirstAfterStep(offsets, states, o, true, i);
      if states[offsets[i]].tree.Some? {
        return Some(offsets[i]);
      }
      i := i + 1;
    }
    return None;
  }

  /** When every entry from `k` on is not below `o`, LastBefore only sees the first `k` entries. */
  lemma {:induction false} LastBeforeBelow(offsets: seq<Offset>, states: map<Offset, State>, o: Offset, withTree: bool, k: int)
    requires StrictlySorted(offsets) && 0 <= k <= |offsets|
    requires forall j :: 0 <= j < k ==> Lt(offsets[j], o)
    requires forall j :: k <= j < |offsets| ==> Le(o, offsets[j])
    ensures LastBefore(offsets, states, o, withTree) == LastBefore(offsets[..k], states, o, withTree)
  {
    if k < |offsets| {
      var n := |offsets| - 1;
      assert !Lt(offsets[n], o);
      var pre := offsets[..n];
      assert pre[..k] == offsets[..k];
      LastBeforeBelow(pre, states, o, withTree, k);
    } else {
      assert offsets[..k] == offsets;
    }
  }

  /** When every entry below `k` is not above `o`, FirstAfter only sees the entries from `k` on. */
  lemma {:induction false} FirstAfterAbove(offsets: seq<Offset>, states: map<Offset, State>, o: Offset, withTree: bool, k: int)
    requires 0 <= k <= |offsets|
    requires forall j :: 0 <= j < k ==> Le(offsets[j], o)
    ensures FirstAfter(offsets, states, o, withTree) == FirstAfter(offsets[k..], states, o, withTree)
  {
    if k > 0 {
      assert !Lt(o, offsets[0]);
      var rest := offsets[1..];
      assert rest[k - 1..] == offsets[k..];
      FirstAfterAbove(rest, states, o, withTree, k - 1);
    }
  }

  /** The last of the first `i + 1` entries, when below `o`, is LastBefore's answer if eligible. */
  lemma LastBeforeStep(offsets: seq<Offset>, states: map<Offset, State>, o: Offset, withTree: bool, i: int)
    requires 0 <= i < |offsets| && Lt(offsets[i], o)
    ensures LastBefore(offsets[..i + 1], states, o, withTree)
      == if Eligible(states, offsets[i], withTree) then Some(offsets[i]) else LastBefore(offsets[..i], states, o, withTree)
  {
    assert offsets[..i + 1][i] == offsets[i];
    assert offsets[..i + 1][..i] == offsets[..i];
  }

  /** The first of the entries from `i` on, when above `o`, is FirstAfter's answer if eligible. */
  lemma FirstAfterStep(offsets: seq<Offset>, states: map<Offset, State>, o: Offset, withTree: bool, i: int)
    requires 0 <= i < |offsets|
    ensures FirstAfter(offsets[i..], states, o, withTree)
      == if Lt(o, offsets[i]) && Eligible(states, offsets[i], withTree) then Some(offsets[i])
         else FirstAfter(offsets[i + 1..], states, o, withTree)
  {
    assert offsets[i..][0] == offsets[i];
    assert offsets[i..][1..] == offsets[i + 1..];
  }

  /**
   * One resolver step keeps the record of resolved offsets: writing the
   * replayed tree at `o`, above every offset resolved so far, leaves their
   * replays unchanged and makes `o` resolved.
   */
  lemma ResolveStep(offsets: seq<Offset>, states: map<Offset, State>, initial: map<Offset, State>, trace: seq<Offset>,
                    o: Offset, result: Tree, replay: (seq<Transition>, Tree, seq<Node>) -> Tree)
    requires StatesOk(offsets, states, initial, replay, trace)
    requires o in states && o != NegInf && o !in trace
    requires result == ReplayAt(offsets, states, o, replay)
    requires forall t :: t in trace ==> Lt(t, o)
    ensures StatesOk(offsets, states[o := Resolve(states[o], result)], initial, replay, trace + [o])
  {
    var v := Resolve(states[o], result);
    var s2 := states[o := v];
    SettledAfterWrite(offsets, states, initial, replay, trace, o, v);
    ReplayAtSelf(offsets, states, o, v, replay);
    SettledSnoc(offsets, s2, initial, replay, trace, o);
    assert s2.Keys == states.Keys;
    assert forall t :: t in s2 && t !in trace + [o] ==> t in states && t !in trace && t != o;
  }

  /** An offset holding what resolving it leaves joins the settled ones. */
  lemma SettledSnoc(offsets: seq<Offset>, states: map<Offset, State>, initial: map<Offset, State>,
                    replay: (seq<Transition>, Tree, seq<Node>) -> Tree, trace: seq<Offset>, o: Offset)
    requires IndexValid(offsets, states) && Settled(offsets, states, initial, replay, trace)
    requires o in states && o in initial && o != NegInf
    requires states[o] == Resolve(initial[o], ReplayAt(offsets, states, o, replay))
    ensures Settled(offsets, states, initial, replay, trace + [o])
  {
    assert forall t :: t in trace + [o] ==> t in trace || t == o;
  }
}
