/**
 * The per-offset request compiler: which objects start and stop at an
 * offset, and the requests of every category concatenated in the engine's
 * fixed order.
 */
module OffsetCompiler {
  import opened Wrappers
  import opened Offsets
  import opened Entities
  import opened BufferRequests
  import opened NodeRequests
  import opened BusRequests
  import opened SynthDefs

  // ------------------------------------------------------------------ durated objects

  /** Python's set union `a | b`, keeping `a`'s order and appending what only `b` has. */
  function Union<T(==,!new)>(a: seq<T>, b: seq<T>): (r: seq<T>)
    ensures forall x :: x in r <==> x in a || x in b
    ensures NoDuplicates(a) && NoDuplicates(b) ==> NoDuplicates(r)
  {
    if b == [] then a
    else
      var n := |b| - 1;
      var rest := Union(a, b[..n]);
      assert forall x :: x in b <==> x in b[..n] || x == b[n];
      assert NoDuplicates(b) ==> NoDuplicates(b[..n]) by {
        if NoDuplicates(b) {
          forall i, j | 0 <= i < j < n ensures b[..n][i] != b[..n][j] {
            assert b[..n][i] == b[i] && b[..n][j] == b[j];
          }
        }
      }
      if b[n] in rest then rest
      else
        assert forall i :: 0 <= i < |rest| ==> (rest + [b[n]])[i] == rest[i];
        rest + [b[n]]
  }

  /** The nodes that stop at the offset; at the last offset also every node still running across it. */
  function StopNodes(state: State, isLast: bool): (r: seq<Node>)
    ensures forall n :: n in r <==> n in state.stopNodes || (isLast && n in state.overlapNodes)
  {
    if isLast then Union(state.stopNodes, state.overlapNodes) else state.stopNodes
  }

  /** The buffers that stop at the offset; at the last offset also every buffer still in use across it. */
  function StopBuffers(state: State, isLast: bool): (r: seq<Buffer>)
    ensures forall b :: b in r <==> b in state.stopBuffers || (isLast && b in state.overlapBuffers)
  {
    if isLast then Union(state.stopBuffers, state.overlapBuffers) else state.stopBuffers
  }

  // ------------------------------------------------------------------ request kinds

  /** A request's kind, one number per request constructor. */
  function Tag(q: Request): nat {
    match q
    case SynthDefReceive(_) => 0
    case BufferAllocate(_, _, _) => 1
    case BufferAllocateRead(_, _, _, _) => 2
    case BufferAllocateReadChannel(_, _, _, _, _) => 3
    case BufferCommand(_) => 4
    case BufferClose(_) => 5
    case BufferFree(_) => 6
    case SynthNew(_, _, _, _, _) => 7
    case GroupNew(_, _, _) => 8
    case NodeMove(_, _, _) => 9
    case ControlBusSet(_) => 10
    case NodeSet(_, _) => 11
    case NodeMapToAudioBus(_, _) => 12
    case NodeMapToControlBus(_, _) => 13
    case NodeFree(_) => 14
    case Nothing => 15
  }

  const DefTags: set<nat> := {0}
  const AllocTags: set<nat> := {1, 2, 3}
  const CommandTags: set<nat> := {4, 5}
  const BufferFreeTags: set<nat> := {5, 6}
  const ActionTags: set<nat> := {7, 8, 9}
  /** Requests that address existing nodes or buses: bus sets, node settings and node stops. */
  const ControlTags: set<nat> := {10, 11, 12, 13, 14}

  /** Every request of `s` has a kind in `tags`. */
  predicate AllIn(s: seq<Request>, tags: set<nat>) {
    forall i :: 0 <= i < |s| ==> Tag(s[i]) in tags
  }

  lemma AllInAppend(a: seq<Request>, b: seq<Request>, tags: set<nat>)
    requires AllIn(a, tags) && AllIn(b, tags)
    ensures AllIn(a + b, tags)
  {
    assert forall i :: |a| <= i < |a + b| ==> (a + b)[i] == b[i - |a|];
  }

  /** After a buffer free only closes and frees follow. */
  predicate FreesLast(s: seq<Request>) {
    forall i, j :: 0 <= i < j < |s| && s[i].BufferFree? ==> s[j].BufferClose? || s[j].BufferFree?
  }

  lemma {:induction false} RunOpsTags(ops: seq<BufferOp>, open: OpenStates)
    ensures RunOps(ops, open).Ran? ==> AllIn(RunOps(ops, open).reqs, CommandTags)
  {
    if ops != [] {
      var n := |ops| - 1;
      RunOpsTags(ops[..n], open);
      var first := RunOps(ops[..n], open);
      if first.Ran? {
        var step := StepOp(ops[n], first.open);
        if step.Ran? {
          assert AllIn(step.reqs, CommandTags);
          AllInAppend(first.reqs, step.reqs, CommandTags);
        }
      }
    }
  }

  lemma {:induction false} ActionRequestsTags(ts: seq<Transition>, startNodes: seq<Node>, ns: NodeSettings,
                                              ids: map<Node, int>, renderEnd: real)
    ensures var a := ActionRequests(ts, startNodes, ns, ids, renderEnd);
      a.Actions? ==> AllIn(a.reqs, ActionTags)
  {
    if ts != [] {
      var t := ts[0];
      var ns1 := if t.source in startNodes && IsSynth(t.source) then Without(ns, {t.source}) else ns;
      ActionRequestsTags(ts[1..], startNodes, ns1, ids, renderEnd);
      var q := ActionRequest(t, startNodes, Lookup(ns, t.source), ids, renderEnd);
      if q.Ok? {
        var rest := ActionRequests(ts[1..], startNodes, ns1, ids, renderEnd);
        if rest.Actions? {
          AllInAppend([q.value], rest.reqs, ActionTags);
        }
      }
    }
  }

  lemma {:induction false} NodeSetTags(ids: IdMapping, ns: NodeSettings)
    ensures CollectNodeSetRequests(ids, ns).Ok? ==> AllIn(CollectNodeSetRequests(ids, ns).value, ControlTags)
  {
    if ns != [] {
      var n := |ns| - 1;
      NodeSetTags(ids, ns[..n]);
      var earlier := CollectNodeSetRequests(ids, ns[..n]);
      var more := SetRequestsFor(ns[n].0, ns[n].1, ids);
      if earlier.Ok? && more.Ok? {
        NodeSetShape(ns[n].0, ns[n].1, ids);
        assert AllIn(more.value, ControlTags);
        AllInAppend(earlier.value, more.value, ControlTags);
      }
    }
  }

  lemma {:induction false} FreeRequestsTags(bs: seq<Buffer>, ids: map<BufferKey, int>, open: OpenStates)
    requires FreeDefined(bs, ids, open)
    ensures AllIn(FreeRequests(bs, ids, open), BufferFreeTags)
  {
    if bs != [] {
      var n := |bs| - 1;
      assert FreeDefined(bs[..n], ids, open) by {
        assert forall b :: b in bs[..n] ==> b in bs;
        forall i, j | 0 <= i < j < n ensures ids[BufferObj(bs[..n][i])] != ids[BufferObj(bs[..n][j])] {
          assert bs[..n][i] == bs[i] && bs[..n][j] == bs[j];
        }
      }
      FreeRequestsTags(bs[..n], ids, open);
      var id := ids[BufferObj(bs[n])];
      assert AllIn(CloseThenFree(id, open[id]), BufferFreeTags);
      AllInAppend(FreeRequests(bs[..n], ids, open), CloseThenFree(id, open[id]), BufferFreeTags);
    }
  }

  // ------------------------------------------------------------------ the stages of one offset

  /** The scheduled buffer commands, by offset and kind. */
  type BufferSchedule = map<Offset, map<BufferOpKind, seq<BufferOp>>>

  /**
   * Buffers that start: their allocations in session-id order (each recorded
   * as closed), then the commands scheduled right after allocation.
   */
  function BufferStart(startBuffers: seq<Buffer>, open: OpenStates, schedule: BufferSchedule,
                       ids: map<BufferKey, int>, offset: Offset): Run
  {
    var started := BySessionId(startBuffers);
    if !BufferRequests.AllMapped(startBuffers, ids) then Failed
    else
      IdsOfPermutation(startBuffers, started, ids);
      var alloced := Ran(AllocateRequests(started, ids), open + Closed(IdsOf(started, ids)));
      RunAfter(alloced, OpsInOrder(PostAllocKinds, ScheduledAt(schedule, offset)))
  }

  lemma BufferStartTags(startBuffers: seq<Buffer>, open: OpenStates, schedule: BufferSchedule,
                        ids: map<BufferKey, int>, offset: Offset)
    ensures var r := BufferStart(startBuffers, open, schedule, ids, offset);
      r.Ran? ==> AllIn(r.reqs, AllocTags + CommandTags)
  {
    var r := BufferStart(startBuffers, open, schedule, ids, offset);
    if r.Ran? {
      var started := BySessionId(startBuffers);
      IdsOfPermutation(startBuffers, started, ids);
      var ops := OpsInOrder(PostAllocKinds, ScheduledAt(schedule, offset));
      RunOpsTags(ops, open + Closed(IdsOf(started, ids)));
      var alloc := AllocateRequests(started, ids);
      assert AllIn(alloc, AllocTags + CommandTags);
      AllInAppend(alloc, RunOps(ops, open + Closed(IdsOf(started, ids))).reqs, AllocTags + CommandTags);
    }
  }

  method BufferStartRequests(startBuffers: seq<Buffer>, open: OpenStates, schedule: BufferSchedule,
                             ids: map<BufferKey, int>, offset: Offset)
    returns (r: Result<seq<Request>>, open': OpenStates)
    ensures var spec := BufferStart(startBuffers, open, schedule, ids, offset);
      && (r.Ok? <==> spec.Ran?)
      && (r.Ok? ==> spec == Ran(r.value, open'))
  {
    r, open' := CollectBufferAllocateRequests(open, ids, startBuffers);
    if r.Err? {
      return;
    }
    ghost var alloced := Ran(r.value, open');
    var alloc := r.value;
    ghost var ops := OpsInOrder(PostAllocKinds, ScheduledAt(schedule, offset));
    assert BufferStart(startBuffers, open, schedule, ids, offset) == RunAfter(alloced, ops);
    r, open' := CollectBufferNonlifecycleRequests(open', schedule, offset, PostAllocKinds);
    if r.Ok? {
      r := Ok(alloc + r.value);
    }
  }

  /**
   * Requests that address nodes and buses which exist by now: the bus set,
   * the node settings left after creation, and the stops of the stopping nodes.
   */
  function NodeControl(busSettings: BusSettings, offset: Offset, ids: IdMapping, left: NodeSettings,
                       stopNodes: seq<Node>): Result<seq<Request>>
    requires RowsUnique(busSettings)
  {
    match CollectNodeSetRequests(ids, left)
    case Err(e) => Err(e)
    case Ok(sets) =>
      match CollectNodeFreeRequests(ids.nodes, stopNodes)
      case Err(e) => Err(e)
      case Ok(stops) => Ok(CollectBusSetRequests(busSettings, offset) + sets + stops)
  }

  lemma NodeControlTags(busSettings: BusSettings, offset: Offset, ids: IdMapping, left: NodeSettings,
                        stopNodes: seq<Node>)
    requires RowsUnique(busSettings)
    ensures var r := NodeControl(busSettings, offset, ids, left, stopNodes);
      r.Ok? ==> AllIn(r.value, ControlTags)
  {
    var r := NodeControl(busSettings, offset, ids, left, stopNodes);
    if r.Ok? {
      var busSet := CollectBusSetRequests(busSettings, offset);
      var sets := CollectNodeSetRequests(ids, left).value;
      var stops := CollectNodeFreeRequests(ids.nodes, stopNodes).value;
      NodeSetTags(ids, left);
      BusSetTags(busSettings, offset);
      StopTags(StopIds(stopNodes, ids.nodes, false), StopIds(stopNodes, ids.nodes, true));
      AllInAppend(busSet, sets, ControlTags);
      AllInAppend(busSet + sets, stops, ControlTags);
    }
  }

  lemma BusSetTags(busSettings: BusSettings, offset: Offset)
    requires RowsUnique(busSettings)
    ensures AllIn(CollectBusSetRequests(busSettings, offset), ControlTags)
  {
  }

  lemma StopTags(freed: seq<int>, gated: seq<int>)
    ensures AllIn(StopRequests(freed, gated), ControlTags)
  {
    var r := StopRequests(freed, gated);
    var k := if freed == [] then 0 else 1;
    forall i | 0 <= i < |r| ensures Tag(r[i]) in ControlTags {
      if i < k {
        assert r[i] == NodeFree(freed);
      } else {
        assert r[i].NodeSet?;
      }
    }
  }

  /**
   * Buffers that stop: the commands scheduled right before freeing, then in
   * session-id order each buffer closed if open and freed, its record removed.
   */
  function BufferStop(stopBuffers: seq<Buffer>, open: OpenStates, schedule: BufferSchedule,
                      ids: map<BufferKey, int>, offset: Offset): Run
  {
    match RunOps(OpsInOrder(PreFreeKinds, ScheduledAt(schedule, offset)), open)
    case Failed => Failed
    case Ran(pre, open1) =>
      var stopped := BySessionId(stopBuffers);
      if !FreeDefined(stopped, ids, open1) then Failed
      else Ran(pre + FreeRequests(stopped, ids, open1), open1 - IdsOf(stopped, ids))
  }

  lemma BufferStopTags(stopBuffers: seq<Buffer>, open: OpenStates, schedule: BufferSchedule,
                       ids: map<BufferKey, int>, offset: Offset)
    ensures var r := BufferStop(stopBuffers, open, schedule, ids, offset);
      r.Ran? ==> AllIn(r.reqs, CommandTags + BufferFreeTags) && FreesLast(r.reqs)
  {
    var r := BufferStop(stopBuffers, open, schedule, ids, offset);
    if r.Ran? {
      var ops := OpsInOrder(PreFreeKinds, ScheduledAt(schedule, offset));
      var pre := RunOps(ops, open);
      var stopped := BySessionId(stopBuffers);
      var frees := FreeRequests(stopped, ids, pre.open);
      RunOpsTags(ops, open);
      FreeRequestsTags(stopped, ids, pre.open);
      assert r.reqs == pre.reqs + frees;
      CommandsThenFrees(pre.reqs, frees);
    }
  }

  /** Buffer commands followed by closes and frees: every request is one of these, and frees come last. */
  lemma CommandsThenFrees(commands: seq<Request>, frees: seq<Request>)
    requires AllIn(commands, CommandTags) && AllIn(frees, BufferFreeTags)
    ensures AllIn(commands + frees, CommandTags + BufferFreeTags)
    ensures FreesLast(commands + frees)
  {
    var r := commands + frees;
    forall i | 0 <= i < |r| ensures Tag(r[i]) in CommandTags + BufferFreeTags {
      if i < |commands| {
        assert r[i] == commands[i];
      } else {
        assert r[i] == frees[i - |commands|];
      }
    }
    assert forall k :: 0 <= k < |commands| ==> r[k] == commands[k] && Tag(r[k]) in CommandTags;
    forall i, j | 0 <= i < j < |r| && r[i].BufferFree? ensures r[j].BufferClose? || r[j].BufferFree? {
      assert |commands| <= i;
      assert r[j] == frees[j - |commands|];
      assert Tag(r[j]) in BufferFreeTags;
    }
  }

  method BufferStopRequests(stopBuffers: seq<Buffer>, open: OpenStates, schedule: BufferSchedule,
                            ids: map<BufferKey, int>, offset: Offset)
    returns (r: Result<seq<Request>>, open': OpenStates)
    ensures var spec := BufferStop(stopBuffers, open, schedule, ids, offset);
      && (r.Ok? <==> spec.Ran?)
      && (r.Ok? ==> spec == Ran(r.value, open'))
  {
    var pre;
    r, open' := CollectBufferNonlifecycleRequests(open, schedule, offset, PreFreeKinds);
    if r.Err? {
      return;
    }
    pre := r.value;
    r, open' := CollectBufferFreeRequests(open', ids, stopBuffers);
    if r.Ok? {
      r := Ok(pre + r.value);
    }
  }

  // ------------------------------------------------------------------ the requests at one offset

  /** What compiling one offset produces: its requests and the render-wide records it updates. */
  datatype Compiled = CompileFailed | Compiled(reqs: seq<Request>, open: OpenStates, visited: set<SynthDef>)

  /**
   * The requests at one offset, category by category: definitions, buffer
   * allocations and post-allocation commands, node actions, the bus set,
   * node settings and node stops, pre-free buffer commands and buffer frees.
   * The open-file record is threaded through the buffer stages. Any object
   * without an engine id, or any file command on a buffer with no open-file
   * record, fails the whole offset.
   */
  function AtOffset(state: State, isLast: bool, open: OpenStates, schedule: BufferSchedule,
                    busSettings: BusSettings, renderEnd: real, ids: IdMapping, offset: Offset,
                    visited: set<SynthDef>, ns: NodeSettings): Compiled
    requires RowsUnique(busSettings)
  {
    var defs := SynthDefRequests(state.startNodes, visited);
    match BufferStart(state.startBuffers, open, schedule, ids.buffers, offset)
    case Failed => CompileFailed
    case Ran(start, open1) =>
      match ActionRequests(state.transitions, state.startNodes, ns, ids.nodes, renderEnd)
      case ActionsFailed => CompileFailed
      case Actions(actions, left) =>
        match NodeControl(busSettings, offset, ids, left, StopNodes(state, isLast))
        case Err(_) => CompileFailed
        case Ok(control) =>
          match BufferStop(StopBuffers(state, isLast), open1, schedule, ids.buffers, offset)
          case Failed => CompileFailed
          case Ran(stop, open2) =>
            Compiled(defs + start + actions + control + stop, open2, visited + DefsOf(state.startNodes))
  }

  /** `_collect_requests_at_offset`. */
  method CollectRequestsAtOffset(state: State, isLast: bool, open: OpenStates, schedule: BufferSchedule,
                                 busSettings: BusSettings, renderEnd: real, ids: IdMapping, offset: Offset,
                                 visited: set<SynthDef>, ns: NodeSettings)
    returns (r: Result<seq<Request>>, open': OpenStates, visited': set<SynthDef>)
    requires RowsUnique(busSettings)
    ensures var spec := AtOffset(state, isLast, open, schedule, busSettings, renderEnd, ids, offset, visited, ns);
      && (r.Ok? <==> spec.Compiled?)
      && (r.Ok? ==> spec == Compiled(r.value, open', visited'))
  {
    var defs, start, actions, left, stop;
    defs, visited' := CollectSynthDefRequests(state.startNodes, visited);
    r, open' := BufferStartRequests(state.startBuffers, open, schedule, ids.buffers, offset);
    if r.Err? {
      return;
    }
    start := r.value;
    ghost var open1 := open';
    r, left := CollectNodeActionRequests(renderEnd, ids.nodes, state.transitions, ns, state.startNodes);
    if r.Err? {
      AtOffsetStages(state, isLast, open, schedule, busSettings, renderEnd, ids, offset, visited, ns);
      return;
    }
    actions := r.value;
    var control := NodeControl(busSettings, offset, ids, left, StopNodes(state, isLast));
    if control.Err? {
      AtOffsetStages(state, isLast, open, schedule, busSettings, renderEnd, ids, offset, visited, ns);
      return Err(control.error), open', visited';
    }
    r, open' := BufferStopRequests(StopBuffers(state, isLast), open', schedule, ids.buffers, offset);
    AtOffsetStages(state, isLast, open, schedule, busSettings, renderEnd, ids, offset, visited, ns);
    if r.Err? {
      return;
    }
    stop := r.value;
    r := Ok(defs + start + actions + control.value + stop);
  }

  /** The compiled offset in terms of its stages, one stage at a time. */
  lemma AtOffsetStages(state: State, isLast: bool, open: OpenStates, schedule: BufferSchedule,
                       busSettings: BusSettings, renderEnd: real, ids: IdMapping, offset: Offset,
                       visited: set<SynthDef>, ns: NodeSettings)
    requires RowsUnique(busSettings)
    ensures var c := AtOffset(state, isLast, open, schedule, busSettings, renderEnd, ids, offset, visited, ns);
      var start := BufferStart(state.startBuffers, open, schedule, ids.buffers, offset);
      var acts := ActionRequests(state.transitions, state.startNodes, ns, ids.nodes, renderEnd);
      && (start.Failed? ==> c.CompileFailed?)
      && (start.Ran? && acts.ActionsFailed? ==> c.CompileFailed?)
      && (start.Ran? && acts.Actions? ==>
            var control := NodeControl(busSettings, offset, ids, acts.left, StopNodes(state, isLast));
            && (control.Err? ==> c.CompileFailed?)
            && (control.Ok? ==>
                  var stop := BufferStop(StopBuffers(state, isLast), start.open, schedule, ids.buffers, offset);
                  && (stop.Failed? ==> c.CompileFailed?)
                  && (stop.Ran? ==> c == Compiled(SynthDefRequests(state.startNodes, visited) + start.reqs + acts.reqs
                                                 + control.value + stop.reqs, stop.open,
                                                 visited + DefsOf(state.startNodes)))))
  {
  }

  // ------------------------------------------------------------------ the category order

  /** Every request whose kind is in `earlier` comes before every request whose kind is in `later`. */
  predicate Precedes(r: seq<Request>, earlier: set<nat>, later: set<nat>) {
    forall i, j :: (0 <= i < |r| && 0 <= j < |r| && Tag(r[i]) in earlier && Tag(r[j]) in later) ==> i < j
  }

  /** In `a + b`, when `a` has no kind of `later` and `b` no kind of `earlier`, the `earlier` requests precede the `later` ones. */
  lemma Separated(a: seq<Request>, b: seq<Request>, earlier: set<nat>, later: set<nat>)
    requires forall i :: 0 <= i < |a| ==> Tag(a[i]) !in later
    requires forall i :: 0 <= i < |b| ==> Tag(b[i]) !in earlier
    ensures Precedes(a + b, earlier, later)
  {
    assert forall k :: 0 <= k < |a| ==> (a + b)[k] == a[k];
    assert forall k :: |a| <= k < |a + b| ==> (a + b)[k] == b[k - |a|];
  }

  const OtherTags: set<nat> := {1, 2, 3, 4, 5, 6, 7, 8, 9, 10, 11, 12, 13, 14, 15}

  /**
   * The category order of a compiled offset: every definition is sent before
   * anything else; every buffer allocation precedes every node action (a
   * synth created here can read a buffer allocated here); every node action
   * precedes every bus set, node setting and node stop (they address nodes
   * that exist by then); and after a buffer is freed only closes and frees follow.
   */
  lemma {:induction false} AtOffsetOrder(state: State, isLast: bool, open: OpenStates, schedule: BufferSchedule,
                                         busSettings: BusSettings, renderEnd: real, ids: IdMapping, offset: Offset,
                                         visited: set<SynthDef>, ns: NodeSettings)
    requires RowsUnique(busSettings)
    ensures var c := AtOffset(state, isLast, open, schedule, busSettings, renderEnd, ids, offset, visited, ns);
      c.Compiled? ==>
        && Precedes(c.reqs, DefTags, OtherTags)
        && Precedes(c.reqs, AllocTags, ActionTags)
        && Precedes(c.reqs, ActionTags, ControlTags)
        && FreesLast(c.reqs)
  {
    var c := AtOffset(state, isLast, open, schedule, busSettings, renderEnd, ids, offset, visited, ns);
    if c.Compiled? {
      var defs := SynthDefRequests(state.startNodes, visited);
      SynthDefRequestsOrdered(state.startNodes, visited);
      var start := BufferStart(state.startBuffers, open, schedule, ids.buffers, offset);
      var acts := ActionRequests(state.transitions, state.startNodes, ns, ids.nodes, renderEnd);
      ActionRequestsTags(state.transitions, state.startNodes, ns, ids.nodes, renderEnd);
      BufferStartTags(state.startBuffers, open, schedule, ids.buffers, offset);
      NodeControlTags(busSettings, offset, ids, acts.left, StopNodes(state, isLast));
      var control := NodeControl(busSettings, offset, ids, acts.left, StopNodes(state, isLast));
      BufferStopTags(StopBuffers(state, isLast), start.open, schedule, ids.buffers, offset);
      var stop := BufferStop(StopBuffers(state, isLast), start.open, schedule, ids.buffers, offset);
      assert c.reqs == defs + start.reqs + acts.reqs + control.value + stop.reqs;
      assert AllIn(defs, DefTags);
      DefinitionsFirst(defs, start.reqs, acts.reqs, control.value, stop.reqs);
      AllocationsBeforeActions(defs, start.reqs, acts.reqs, control.value, stop.reqs);
      ActionsBeforeControl(defs, start.reqs, acts.reqs, control.value, stop.reqs);
      FreesLastOfStages(defs, start.reqs, acts.reqs, control.value, stop.reqs);
    }
  }

  lemma DefinitionsFirst(defs: seq<Request>, start: seq<Request>, actions: seq<Request>,
                         control: seq<Request>, stop: seq<Request>)
    requires AllIn(defs, DefTags) && AllIn(start, AllocTags + CommandTags) && AllIn(actions, ActionTags)
    requires AllIn(control, ControlTags) && AllIn(stop, CommandTags + BufferFreeTags)
    ensures Precedes(defs + start + actions + control + stop, DefTags, OtherTags)
  {
    var rest := start + actions + control + stop;
    AllInAppend(start, actions, OtherTags);
    AllInAppend(start + actions, control, OtherTags);
    AllInAppend(start + actions + control, stop, OtherTags);
    assert defs + start + actions + control + stop == defs + rest;
    Separated(defs, rest, DefTags, OtherTags);
  }

  lemma AllocationsBeforeActions(defs: seq<Request>, start: seq<Request>, actions: seq<Request>,
                                 control: seq<Request>, stop: seq<Request>)
    requires AllIn(defs, DefTags) && AllIn(start, AllocTags + CommandTags) && AllIn(actions, ActionTags)
    requires AllIn(control, ControlTags) && AllIn(stop, CommandTags + BufferFreeTags)
    ensures Precedes(defs + start + actions + control + stop, AllocTags, ActionTags)
  {
    var none := DefTags + AllocTags + CommandTags;
    var rest := OtherTags - AllocTags;
    AllInAppend(defs, start, none);
    AllInAppend(actions, control, rest);
    AllInAppend(actions + control, stop, rest);
    assert defs + start + actions + control + stop == (defs + start) + (actions + control + stop);
    Separated(defs + start, actions + control + stop, AllocTags, ActionTags);
  }

  lemma ActionsBeforeControl(defs: seq<Request>, start: seq<Request>, actions: seq<Request>,
                             control: seq<Request>, stop: seq<Request>)
    requires AllIn(defs, DefTags) && AllIn(start, AllocTags + CommandTags) && AllIn(actions, ActionTags)
    requires AllIn(control, ControlTags) && AllIn(stop, CommandTags + BufferFreeTags)
    ensures Precedes(defs + start + actions + control + stop, ActionTags, ControlTags)
  {
    var front := DefTags + AllocTags + CommandTags + ActionTags;
    var back := ControlTags + CommandTags + BufferFreeTags;
    AllInAppend(defs, start, front);
    AllInAppend(defs + start, actions, front);
    AllInAppend(control, stop, back);
    assert defs + start + actions + control + stop == (defs + start + actions) + (control + stop);
    Separated(defs + start + actions, control + stop, ActionTags, ControlTags);
  }

  lemma FreesLastOfStages(defs: seq<Request>, start: seq<Request>, actions: seq<Request>,
                          control: seq<Request>, stop: seq<Request>)
    requires AllIn(defs, DefTags) && AllIn(start, AllocTags + CommandTags) && AllIn(actions, ActionTags)
    requires AllIn(control, ControlTags) && FreesLast(stop)
    ensures FreesLast(defs + start + actions + control + stop)
  {
    var front := defs + start + actions + control;
    var noFree := DefTags + AllocTags + CommandTags + ActionTags + ControlTags;
    AllInAppend(defs, start, noFree);
    AllInAppend(defs + start, actions, noFree);
    AllInAppend(defs + start + actions, control, noFree);
    var r := front + stop;
    assert forall k :: 0 <= k < |front| ==> r[k] == front[k] && !r[k].BufferFree?;
    assert forall k :: |front| <= k < |r| ==> r[k] == stop[k - |front|];
  }
}
