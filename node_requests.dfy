/**
 * The node part of the per-offset request compiler: creation and move
 * requests for the recorded tree transitions, the settings that nodes take at
 * an offset, and the requests that stop nodes.
 */
module NodeRequests {
  import opened Wrappers
  import opened Entities
  import opened Sorting

  /** Per-node settings at one offset, in tree order (an ordered dictionary keyed by node). */
  type NodeSettings = seq<(Node, Settings)>

  /** The settings recorded for `n`, if any. */
  function Lookup(ns: NodeSettings, n: Node): Option<Settings>
  {
    if ns == [] then None
    else if ns[0].0 == n then Some(ns[0].1)
    else Lookup(ns[1..], n)
  }

  /** The settings with every entry for a node in `gone` removed (dictionary `pop`). */
  function Without(ns: NodeSettings, gone: set<Node>): NodeSettings
  {
    if ns == [] then []
    else (if ns[0].0 in gone then [] else [ns[0]]) + Without(ns[1..], gone)
  }

  // ------------------------------------------------------------------ node actions

  /**
   * The `duration` given to a starting synth: its own length, cut back to the
   * end of the render when it would outlast it (open-ended synths always are).
   */
  function InjectedDuration(n: Node, renderEnd: real): (r: real)
    ensures r <= renderEnd - n.start
    ensures n.stop.Until? ==> r <= n.stop.t - n.start
    ensures r == renderEnd - n.start || (n.stop.Until? && r == n.stop.t - n.start)
  {
    match n.stop
    case Until(t) => if renderEnd < t then renderEnd - n.start else t - n.start
    case Forever => renderEnd - n.start
  }

  /**
   * The arguments a starting synth is created with: its keyword arguments,
   * overridden by the settings recorded for it at this offset, and `duration`
   * set last whenever its definition declares one.
   */
  function CreationSettings(n: Node, recorded: Option<Settings>, renderEnd: real): (r: Settings)
    requires IsSynth(n)
    ensures Declares(n, DurationParam) ==> DurationParam in r && r[DurationParam] == Num(InjectedDuration(n, renderEnd))
    ensures forall k :: k in r && k != DurationParam ==>
      (recorded.Some? && k in recorded.value && r[k] == recorded.value[k])
      || ((recorded.None? || k !in recorded.value) && k in n.kind.synthKwargs && r[k] == n.kind.synthKwargs[k])
    ensures forall k :: k in n.kind.synthKwargs || (recorded.Some? && k in recorded.value) ==> k in r
  {
    var merged := if recorded.Some? then n.kind.synthKwargs + recorded.value else n.kind.synthKwargs;
    if Declares(n, DurationParam) then merged[DurationParam := Num(InjectedDuration(n, renderEnd))] else merged
  }

  /**
   * The request for one recorded transition. A node that starts here is
   * created (a synth with its creation settings); any other node is moved.
   * Both the node and its target must have engine ids.
   */
  function ActionRequest(t: Transition, startNodes: seq<Node>, recorded: Option<Settings>,
                         ids: map<Node, int>, renderEnd: real): (r: Result<Request>)
    ensures r.Ok? <==> t.source in ids && t.target in ids
    ensures r.Ok? ==> r.value.SynthNew? || r.value.GroupNew? || r.value.NodeMove?
    ensures r.Ok? ==> r.value.nodeId == ids[t.source] && r.value.targetId == ids[t.target] && r.value.addAction == t.action
    ensures r.Ok? ==> (r.value.SynthNew? <==> t.source in startNodes && IsSynth(t.source))
    ensures r.Ok? ==> (r.value.GroupNew? <==> t.source in startNodes && !IsSynth(t.source))
    ensures r.Ok? ==> (r.value.NodeMove? <==> t.source !in startNodes)
    ensures r.Ok? && r.value.SynthNew? ==>
      r.value.synthdef == t.source.kind.synthdef && r.value.settings == CreationSettings(t.source, recorded, renderEnd)
  {
    if t.source !in ids || t.target !in ids then Err(UnresolvedReference)
    else if t.source in startNodes then
      if IsSynth(t.source) then
        Ok(SynthNew(ids[t.source], t.source.kind.synthdef, t.action, ids[t.target],
                    CreationSettings(t.source, recorded, renderEnd)))
      else Ok(GroupNew(ids[t.source], t.action, ids[t.target]))
    else Ok(NodeMove(ids[t.source], t.action, ids[t.target]))
  }

  /** Transitions are keyed by their source node: no node has two. */
  predicate DistinctSources(ts: seq<Transition>) {
    forall i, j :: 0 <= i < j < |ts| ==> ts[i].source != ts[j].source
  }

  /** The synths among the transitions that start here: their recorded settings go into their creation. */
  function StartedSynths(ts: seq<Transition>, startNodes: seq<Node>): set<Node> {
    set t | t in ts && t.source in startNodes && IsSynth(t.source) :: t.source
  }

  /** The outcome of the node actions: their requests and the settings left for node-set requests. */
  datatype Actions = ActionsFailed | Actions(reqs: seq<Request>, left: NodeSettings)

  function Prepend(reqs: seq<Request>, a: Actions): Actions {
    if a.ActionsFailed? then ActionsFailed else Actions(reqs + a.reqs, a.left)
  }

  /**
   * The node actions, transition by transition: each starting synth takes
   * (and removes) the settings recorded for it, so a later transition no
   * longer sees them.
   */
  function ActionRequests(ts: seq<Transition>, startNodes: seq<Node>, ns: NodeSettings,
                          ids: map<Node, int>, renderEnd: real): Actions
  {
    if ts == [] then Actions([], ns)
    else
      var t := ts[0];
      match ActionRequest(t, startNodes, Lookup(ns, t.source), ids, renderEnd)
      case Err(_) => ActionsFailed
      case Ok(q) =>
        var ns1 := if t.source in startNodes && IsSynth(t.source) then Without(ns, {t.source}) else ns;
        Prepend([q], ActionRequests(ts[1..], startNodes, ns1, ids, renderEnd))
  }

  /** `_collect_node_action_requests`: one request per transition, in order. */
  method CollectNodeActionRequests(renderEnd: real, ids: map<Node, int>, ts: seq<Transition>,
                                   ns: NodeSettings, startNodes: seq<Node>)
    returns (r: Result<seq<Request>>, ns': NodeSettings)
    ensures var spec := ActionRequests(ts, startNodes, ns, ids, renderEnd);
      && (r.Ok? <==> spec.Actions?)
      && (r.Ok? ==> spec == Actions(r.value, ns'))
  {
    var reqs: seq<Request> := [];
    ns' := ns;
    var i := 0;
    while i < |ts|
      invariant 0 <= i <= |ts|
      invariant ActionRequests(ts, startNodes, ns, ids, renderEnd)
        == Prepend(reqs, ActionRequests(ts[i..], startNodes, ns', ids, renderEnd))
    {
      var t := ts[i];
      ActionStep(ts, i, startNodes, ns', ids, renderEnd);
      var step := ActionRequest(t, startNodes, Lookup(ns', t.source), ids, renderEnd);
      if step.Err? {
        return Err(UnresolvedReference), ns';
      }
      if t.source in startNodes && IsSynth(t.source) {
        ns' := Without(ns', {t.source});
      }
      PrependTwice(reqs, step.value, ActionRequests(ts[i + 1..], startNodes, ns', ids, renderEnd));
      reqs := reqs + [step.value];
      i := i + 1;
    }
    assert ts[i..] == [];
    assert reqs + [] == reqs;
    r := Ok(reqs);
  }

  /** One transition's step of the node actions. */
  lemma ActionStep(ts: seq<Transition>, i: nat, startNodes: seq<Node>, ns: NodeSettings,
                   ids: map<Node, int>, renderEnd: real)
    requires i < |ts|
    ensures var t := ts[i];
      var q := ActionRequest(t, startNodes, Lookup(ns, t.source), ids, renderEnd);
      var ns1 := if t.source in startNodes && IsSynth(t.source) then Without(ns, {t.source}) else ns;
      ActionRequests(ts[i..], startNodes, ns, ids, renderEnd)
        == if q.Err? then ActionsFailed else Prepend([q.value], ActionRequests(ts[i + 1..], startNodes, ns1, ids, renderEnd))
  {
    assert ts[i..][0] == ts[i] && ts[i..][1..] == ts[i + 1..];
  }

  lemma PrependTwice(reqs: seq<Request>, q: Request, a: Actions)
    ensures Prepend(reqs, Prepend([q], a)) == Prepend(reqs + [q], a)
  {
    if a.Actions? {
      assert reqs + ([q] + a.reqs) == (reqs + [q]) + a.reqs;
    }
  }

  /**
   * The node actions succeed exactly when every transition's node and target
   * have engine ids; then there is one request per transition.
   */
  lemma {:induction false} ActionRequestsDefined(ts: seq<Transition>, startNodes: seq<Node>, ns: NodeSettings,
                                                 ids: map<Node, int>, renderEnd: real)
    ensures var a := ActionRequests(ts, startNodes, ns, ids, renderEnd);
      && (a.Actions? <==> forall t :: t in ts ==> t.source in ids && t.target in ids)
      && (a.Actions? ==> |a.reqs| == |ts|)
  {
    if ts != [] {
      var t := ts[0];
      var ns1 := if t.source in startNodes && IsSynth(t.source) then Without(ns, {t.source}) else ns;
      ActionRequestsDefined(ts[1..], startNodes, ns1, ids, renderEnd);
      assert forall u :: u in ts <==> u == t || u in ts[1..];
    }
  }

  /**
   * With one transition per node, request i is the one for transition i made
   * with the settings recorded for its node, and the settings left over are
   * those of every node but the starting synths.
   */
  lemma {:induction false} ActionRequestsSpec(ts: seq<Transition>, startNodes: seq<Node>, ns: NodeSettings,
                                              ids: map<Node, int>, renderEnd: real)
    requires DistinctSources(ts)
    ensures var a := ActionRequests(ts, startNodes, ns, ids, renderEnd);
      a.Actions? ==>
        && |a.reqs| == |ts|
        && (forall i :: 0 <= i < |ts| ==>
              ActionRequest(ts[i], startNodes, Lookup(ns, ts[i].source), ids, renderEnd) == Ok(a.reqs[i]))
        && a.left == Without(ns, StartedSynths(ts, startNodes))
  {
    if ts == [] {
      WithoutNothing(ns);
      assert StartedSynths(ts, startNodes) == {};
    } else {
      var t := ts[0];
      var tail := ts[1..];
      var started := t.source in startNodes && IsSynth(t.source);
      var ns1 := if started then Without(ns, {t.source}) else ns;
      assert DistinctSources(tail) by {
        forall i, j | 0 <= i < j < |tail| ensures tail[i].source != tail[j].source {
          assert tail[i] == ts[i + 1] && tail[j] == ts[j + 1];
        }
      }
      ActionRequestsSpec(tail, startNodes, ns1, ids, renderEnd);
      var a := ActionRequests(ts, startNodes, ns, ids, renderEnd);
      if a.Actions? {
        var q := ActionRequest(t, startNodes, Lookup(ns, t.source), ids, renderEnd);
        var rest := ActionRequests(tail, startNodes, ns1, ids, renderEnd);
        assert q.Ok? && rest.Actions? && a.reqs == [q.value] + rest.reqs && a.left == rest.left;
        forall i | 1 <= i < |ts|
          ensures ActionRequest(ts[i], startNodes, Lookup(ns, ts[i].source), ids, renderEnd) == Ok(a.reqs[i])
        {
          assert ts[i] == tail[i - 1] && a.reqs[i] == rest.reqs[i - 1];
          assert ts[0].source != ts[i].source;
          if started {
            WithoutLookup(ns, {t.source}, ts[i].source);
          }
        }
        assert forall u :: u in ts <==> u == t || u in tail;
        if started {
          assert StartedSynths(ts, startNodes) == {t.source} + StartedSynths(tail, startNodes);
          WithoutUnion(ns, {t.source}, StartedSynths(tail, startNodes));
        } else {
          assert StartedSynths(ts, startNodes) == StartedSynths(tail, startNodes);
        }
      }
    }
  }

  /** Removing entries keeps exactly the entries of the other nodes, in order. */
  lemma {:induction false} WithoutMembers(ns: NodeSettings, gone: set<Node>)
    ensures forall p :: p in Without(ns, gone) <==> p in ns && p.0 !in gone
  {
    if ns != [] {
      WithoutMembers(ns[1..], gone);
      assert forall p :: p in ns <==> p == ns[0] || p in ns[1..];
    }
  }

  lemma {:induction false} WithoutNothing(ns: NodeSettings)
    ensures Without(ns, {}) == ns
  {
    if ns != [] {
      WithoutNothing(ns[1..]);
      assert ns == [ns[0]] + ns[1..];
    }
  }

  lemma {:induction false} WithoutLookup(ns: NodeSettings, gone: set<Node>, n: Node)
    requires n !in gone
    ensures Lookup(Without(ns, gone), n) == Lookup(ns, n)
  {
    if ns != [] {
      WithoutLookup(ns[1..], gone, n);
      var rest := Without(ns, gone);
      if ns[0].0 !in gone {
        assert rest == [ns[0]] + Without(ns[1..], gone);
        assert rest[0] == ns[0] && rest[1..] == Without(ns[1..], gone);
      } else {
        assert rest == Without(ns[1..], gone);
        assert ns[0].0 != n;
      }
    }
  }

  /** Removing in two steps removes the union. */
  lemma {:induction false} WithoutUnion(ns: NodeSettings, first: set<Node>, second: set<Node>)
    ensures Without(Without(ns, first), second) == Without(ns, first + second)
  {
    if ns != [] {
      WithoutUnion(ns[1..], first, second);
      var once := Without(ns, first);
      if ns[0].0 !in first {
        assert once == [ns[0]] + Without(ns[1..], first);
        assert once[1..] == Without(ns[1..], first);
        assert once[0] == ns[0];
      } else {
        assert once == Without(ns[1..], first);
      }
    }
  }

  // ------------------------------------------------------------------ stopping nodes

  /** Synths whose definition has a `gate` parameter are released by closing the gate. */
  predicate Gated(n: Node) {
    Declares(n, GateParam)
  }

  predicate AllMapped(nodes: seq<Node>, ids: map<Node, int>) {
    forall n :: n in nodes ==> n in ids
  }

  /** The gated nodes (`gate`) or the nodes freed outright (`!gate`). */
  predicate Selected(n: Node, gate: bool) {
    if gate then Gated(n) else Freed(n)
  }

  /** The engine ids of the selected nodes, in the order of `nodes`. */
  function IdsWhere(nodes: seq<Node>, ids: map<Node, int>, gate: bool): seq<int>
    requires AllMapped(nodes, ids)
  {
    if nodes == [] then []
    else (if Selected(nodes[0], gate) then [ids[nodes[0]]] else []) + IdsWhere(nodes[1..], ids, gate)
  }

  lemma {:induction false} IdsWhereMembers(nodes: seq<Node>, ids: map<Node, int>, gate: bool)
    requires AllMapped(nodes, ids)
    ensures forall x :: x in IdsWhere(nodes, ids, gate) <==> exists n :: n in nodes && Selected(n, gate) && ids[n] == x
  {
    if nodes != [] {
      IdsWhereMembers(nodes[1..], ids, gate);
      assert forall n :: n in nodes <==> n == nodes[0] || n in nodes[1..];
    }
  }

  /** Sorting keeps exactly the same ids. */
  lemma SortIntsMembers(s: seq<int>)
    ensures forall x :: x in SortInts(s) <==> x in s
  {
    forall x ensures x in SortInts(s) <==> x in s {
      assert x in SortInts(s) <==> x in multiset(SortInts(s));
      assert x in s <==> x in multiset(s);
    }
  }

  /** Nodes that are freed outright: not gated, and not of zero length. */
  predicate Freed(n: Node) {
    !Gated(n) && HasDuration(n)
  }

  /** The request that closes a gated synth's gate. */
  function GateOff(id: int): Request {
    NodeSet(id, map[GateParam := ArgNum(0.0)])
  }

  /**
   * The ids of the selected stopping nodes, ascending: exactly the ids of the
   * stopping nodes that are gated (`gate`) or freed outright (`!gate`).
   */
  function StopIds(stopNodes: seq<Node>, ids: map<Node, int>, gate: bool): (r: seq<int>)
    requires AllMapped(stopNodes, ids)
    ensures forall a, b :: 0 <= a < b < |r| ==> r[a] <= r[b]
    ensures forall x :: x in r <==> exists n :: n in stopNodes && Selected(n, gate) && ids[n] == x
  {
    var raw := IdsWhere(stopNodes, ids, gate);
    IdsWhereMembers(stopNodes, ids, gate);
    SortIntsMembers(raw);
    SortInts(raw)
  }

  /** One gate-closing request per id, in the given order. */
  function GateOffs(gated: seq<int>): (r: seq<Request>)
    ensures |r| == |gated|
    ensures forall i :: 0 <= i < |r| ==> r[i] == GateOff(gated[i]) && r[i].nodeId == gated[i]
  {
    seq(|gated|, i requires 0 <= i < |gated| => GateOff(gated[i]))
  }

  /** A free batch for `freed` (omitted when empty) followed by one gate closing per id of `gated`. */
  function StopRequests(freed: seq<int>, gated: seq<int>): (r: seq<Request>)
    ensures var k := if freed == [] then 0 else 1;
      && |r| == k + |gated|
      && (freed != [] ==> r[0] == NodeFree(freed))
      && (forall i :: k <= i < |r| ==> r[i] == GateOff(gated[i - k]) && r[i].NodeSet? && r[i].nodeId == gated[i - k])
  {
    var frees := if freed == [] then [] else [NodeFree(freed)];
    frees + GateOffs(gated)
  }

  /** `_collect_node_free_requests`; every stopping node must have an engine id. */
  function CollectNodeFreeRequests(ids: map<Node, int>, stopNodes: seq<Node>): (r: Result<seq<Request>>)
    ensures r.Ok? <==> AllMapped(stopNodes, ids)
  {
    if !AllMapped(stopNodes, ids) then Err(UnresolvedReference)
    else Ok(StopRequests(StopIds(stopNodes, ids, false), StopIds(stopNodes, ids, true)))
  }

  /** Some stopping node is freed outright. */
  predicate AnyFreed(stopNodes: seq<Node>) {
    exists n :: n in stopNodes && Freed(n)
  }

  /** The free batch is there exactly when some stopping node is freed outright. */
  lemma FreeBatchPresent(ids: map<Node, int>, stopNodes: seq<Node>)
    requires AllMapped(stopNodes, ids)
    ensures StopIds(stopNodes, ids, false) != [] <==> AnyFreed(stopNodes)
  {
    var freed := StopIds(stopNodes, ids, false);
    if AnyFreed(stopNodes) {
      var n :| n in stopNodes && Freed(n);
      assert Selected(n, false);
      assert ids[n] in freed;
    }
    if freed != [] {
      assert freed[0] in freed;
    }
  }

  /**
   * Stopping nodes, the free batch: exactly when some node is freed outright,
   * the first request is one free naming exactly those nodes, ids ascending.
   * Gated and zero-length nodes are not in it.
   */
  lemma NodeFreeBatch(ids: map<Node, int>, stopNodes: seq<Node>)
    requires AllMapped(stopNodes, ids)
    ensures var r := CollectNodeFreeRequests(ids, stopNodes).value;
      && (forall i :: 0 <= i < |r| && r[i].NodeFree? ==> i == 0)
      && (AnyFreed(stopNodes) <==> |r| > 0 && r[0].NodeFree?)
      && (AnyFreed(stopNodes) ==>
            && (forall a, b :: 0 <= a < b < |r[0].nodeIds| ==> r[0].nodeIds[a] <= r[0].nodeIds[b])
            && (forall x :: x in r[0].nodeIds <==> exists n :: n in stopNodes && Freed(n) && ids[n] == x))
  {
    FreeBatchPresent(ids, stopNodes);
    var freed := StopIds(stopNodes, ids, false);
    assert forall n :: Selected(n, false) == Freed(n);
  }

  /**
   * Stopping nodes, the gates: after the free batch (if any) every request
   * closes a gate, ids ascending.
   */
  lemma NodeGateOrder(ids: map<Node, int>, stopNodes: seq<Node>)
    requires AllMapped(stopNodes, ids)
    ensures var r := CollectNodeFreeRequests(ids, stopNodes).value;
      var k := if AnyFreed(stopNodes) then 1 else 0;
      && k <= |r|
      && (forall i :: k <= i < |r| ==> r[i].NodeSet? && r[i] == GateOff(r[i].nodeId))
      && (forall i, j :: k <= i < j < |r| ==> r[i].NodeSet? && r[j].NodeSet? && r[i].nodeId <= r[j].nodeId)
  {
    FreeBatchPresent(ids, stopNodes);
  }

  /** Some request from index `k` on closes the gate of node `x`. */
  predicate ClosesGate(r: seq<Request>, k: nat, x: int) {
    exists i :: k <= i < |r| && r[i].NodeSet? && r[i].nodeId == x
  }

  /** The gate closings of StopRequests name exactly the ids of `gated`. */
  lemma StopRequestsGates(freed: seq<int>, gated: seq<int>)
    ensures var r := StopRequests(freed, gated);
      var k := if freed == [] then 0 else 1;
      forall x :: x in gated <==> ClosesGate(r, k, x)
  {
    var r := StopRequests(freed, gated);
    var k := if freed == [] then 0 else 1;
    forall x | x in gated
      ensures ClosesGate(r, k, x)
    {
      var j :| 0 <= j < |gated| && gated[j] == x;
      assert r[k + j].nodeId == x;
    }
  }

  /** Stopping nodes, the gates: the gated stopping nodes are exactly the nodes whose gate is closed. */
  lemma NodeGateMembers(ids: map<Node, int>, stopNodes: seq<Node>)
    requires AllMapped(stopNodes, ids)
    ensures var r := CollectNodeFreeRequests(ids, stopNodes).value;
      var k := if AnyFreed(stopNodes) then 1 else 0;
      forall x :: ClosesGate(r, k, x) <==> exists n :: n in stopNodes && Gated(n) && ids[n] == x
  {
    FreeBatchPresent(ids, stopNodes);
    var freed := StopIds(stopNodes, ids, false);
    var gated := StopIds(stopNodes, ids, true);
    StopRequestsGates(freed, gated);
    var r := CollectNodeFreeRequests(ids, stopNodes).value;
    assert r == StopRequests(freed, gated);
    var k := if AnyFreed(stopNodes) then 1 else 0;
    forall x
      ensures ClosesGate(r, k, x) <==> exists n :: n in stopNodes && Gated(n) && ids[n] == x
    {
      assert ClosesGate(r, k, x) <==> x in gated;
      if x in gated {
        var n :| n in stopNodes && Selected(n, true) && ids[n] == x;
        assert Gated(n);
      }
      if exists n :: n in stopNodes && Gated(n) && ids[n] == x {
        var n :| n in stopNodes && Gated(n) && ids[n] == x;
        assert Selected(n, true);
      }
    }
  }

  // ------------------------------------------------------------------ node settings

  /** A setting the request compiler passes on: scalar-rate parameters are fixed at creation and skipped. */
  predicate Kept(n: Node, key: string) {
    !(n.kind.SynthKind? && key in n.kind.synthdef.parameters
      && n.kind.synthdef.parameters[key].rate == Scalar)
  }

  /** Every bus and buffer a kept setting refers to has an engine id. */
  predicate Resolvable(n: Node, s: Settings, ids: IdMapping) {
    forall k :: k in s && Kept(n, k) ==>
      match s[k]
      case BusMap(bus, _) => bus in ids.buses
      case BufferRef(b) => b in ids.buffers
      case _ => true
  }

  /**
   * Which request carries a setting: 0 the set request (numbers, and buffers
   * as their ids), 1 the audio-bus mapping, 2 the control-bus mapping (which
   * also carries an unmapping, as bus -1).
   */
  function Rank(v: SettingValue): int {
    match v
    case Num(_) => 0
    case BufferRef(_) => 0
    case BusMap(_, rate) => if rate == AudioRate then 1 else 2
    case Unmapped => 2
  }

  function RequestRank(q: Request): int {
    if q.NodeSet? then 0 else if q.NodeMapToAudioBus? then 1 else 2
  }

  /** The kept settings of a node that the request of the given rank carries. */
  function KeysOfRank(n: Node, s: Settings, rank: int): set<string> {
    set k | k in s && Kept(n, k) && Rank(s[k]) == rank
  }

  /** The keys a request carries. */
  function RequestKeys(q: Request): set<string> {
    match q
    case NodeSet(_, args) => args.Keys
    case NodeMapToAudioBus(_, buses) => buses.Keys
    case NodeMapToControlBus(_, buses) => buses.Keys
    case _ => {}
  }

  /**
   * The requests one node's settings produce: a set request, a
   * map-to-audio-bus request and a map-to-control-bus request, each only when
   * it has something to carry.
   */
  function SetRequestsFor(n: Node, s: Settings, ids: IdMapping): (r: Result<seq<Request>>)
    ensures r.Ok? <==> n in ids.nodes && Resolvable(n, s, ids)
  {
    if n !in ids.nodes || !Resolvable(n, s, ids) then Err(UnresolvedReference)
    else
      var id := ids.nodes[n];
      var values := ValueArgs(n, s, ids);
      var audio := AudioBuses(n, s, ids);
      var control := ControlBuses(n, s, ids);
      Ok(Pack3(id, values, audio, control))
  }

  /** The set, audio-mapping and control-mapping requests of one node, each only when non-empty. */
  function Pack3(id: int, values: map<string, Arg>, audio: map<string, int>, control: map<string, int>): (r: seq<Request>)
    ensures forall i :: 0 <= i < |r| ==> r[i].NodeSet? || r[i].NodeMapToAudioBus? || r[i].NodeMapToControlBus?
    ensures forall i :: 0 <= i < |r| ==> r[i].nodeId == id
    ensures forall i :: 0 <= i < |r| ==>
      RequestKeys(r[i]) == (if r[i].NodeSet? then values.Keys else if r[i].NodeMapToAudioBus? then audio.Keys else control.Keys)
    ensures forall i :: 0 <= i < |r| ==> RequestKeys(r[i]) != {}
    ensures forall i, j :: 0 <= i < j < |r| ==> RequestRank(r[i]) < RequestRank(r[j])
    ensures |values| > 0 ==> |r| > 0 && r[0].NodeSet?
    ensures |audio| > 0 ==> exists i :: 0 <= i < |r| && r[i].NodeMapToAudioBus?
    ensures |control| > 0 ==> |r| > 0 && r[|r| - 1].NodeMapToControlBus?
  {
    var a := if |values| > 0 then [NodeSet(id, values)] else [];
    var b := if |audio| > 0 then [NodeMapToAudioBus(id, audio)] else [];
    var c := if |control| > 0 then [NodeMapToControlBus(id, control)] else [];
    if |audio| > 0 then assert (a + b + c)[|a|] == b[0]; a + b + c else a + b + c
  }

  /** The set request's arguments: numbers as they are, buffers as their engine ids. */
  function ValueArgs(n: Node, s: Settings, ids: IdMapping): (r: map<string, Arg>)
    requires Resolvable(n, s, ids)
    ensures r.Keys == KeysOfRank(n, s, 0)
  {
    map k | k in KeysOfRank(n, s, 0) ::
      match s[k] case BufferRef(b) => ArgId(ids.buffers[b]) case Num(x) => ArgNum(x) case _ => ArgNum(0.0)
  }

  /** The audio buses to map to, by engine id. */
  function AudioBuses(n: Node, s: Settings, ids: IdMapping): (r: map<string, int>)
    requires Resolvable(n, s, ids)
    ensures r.Keys == KeysOfRank(n, s, 1)
  {
    map k | k in KeysOfRank(n, s, 1) :: ids.buses[s[k].bus]
  }

  /** The control buses to map to, by engine id; an unmapping maps to -1. */
  function ControlBuses(n: Node, s: Settings, ids: IdMapping): (r: map<string, int>)
    requires Resolvable(n, s, ids)
    ensures r.Keys == KeysOfRank(n, s, 2)
  {
    map k | k in KeysOfRank(n, s, 2) :: if s[k].Unmapped? then -1 else ids.buses[s[k].bus]
  }

  /**
   * The three-way split, shape: a node's requests come in the order set,
   * audio mapping, control mapping, at most one of each, all addressed to the
   * node, and each carries exactly the kept settings of its kind (so no
   * scalar-rate parameter is carried and no setting is carried twice).
   */
  lemma NodeSetShape(n: Node, s: Settings, ids: IdMapping)
    requires n in ids.nodes && Resolvable(n, s, ids)
    ensures var r := SetRequestsFor(n, s, ids).value;
      && (forall i :: 0 <= i < |r| ==> r[i].NodeSet? || r[i].NodeMapToAudioBus? || r[i].NodeMapToControlBus?)
      && (forall i :: 0 <= i < |r| ==> r[i].nodeId == ids.nodes[n])
      && (forall i :: 0 <= i < |r| ==> RequestKeys(r[i]) == KeysOfRank(n, s, RequestRank(r[i])) != {})
      && (forall i, j :: 0 <= i < j < |r| ==> RequestRank(r[i]) < RequestRank(r[j]))
  {
    var v, au, co := ValueArgs(n, s, ids), AudioBuses(n, s, ids), ControlBuses(n, s, ids);
    assert SetRequestsFor(n, s, ids).value == Pack3(ids.nodes[n], v, au, co);
  }

  /** The three-way split, coverage: every kept setting is carried by the request of its kind. */
  lemma NodeSetCoverage(n: Node, s: Settings, ids: IdMapping, k: string)
    requires n in ids.nodes && Resolvable(n, s, ids)
    requires k in s && Kept(n, k)
    ensures var r := SetRequestsFor(n, s, ids).value;
      exists i :: 0 <= i < |r| && RequestRank(r[i]) == Rank(s[k]) && k in RequestKeys(r[i])
  {
    var v, au, co := ValueArgs(n, s, ids), AudioBuses(n, s, ids), ControlBuses(n, s, ids);
    var r := Pack3(ids.nodes[n], v, au, co);
    assert SetRequestsFor(n, s, ids).value == r;
    var rank := Rank(s[k]);
    assert k in KeysOfRank(n, s, rank);
    if rank == 0 {
      assert k in v;
      assert RequestRank(r[0]) == 0 && k in RequestKeys(r[0]);
    } else if rank == 1 {
      assert k in au;
      var i :| 0 <= i < |r| && r[i].NodeMapToAudioBus?;
      assert RequestRank(r[i]) == 1 && k in RequestKeys(r[i]);
    } else {
      assert k in co;
      assert RequestRank(r[|r| - 1]) == 2 && k in RequestKeys(r[|r| - 1]);
    }
  }

  /** `_collect_node_set_requests`: each node's requests, node by node in settings order. */
  function CollectNodeSetRequests(ids: IdMapping, ns: NodeSettings): Result<seq<Request>> {
    if ns == [] then Ok([])
    else
      var n := |ns| - 1;
      match CollectNodeSetRequests(ids, ns[..n])
      case Err(e) => Err(e)
      case Ok(earlier) =>
        match SetRequestsFor(ns[n].0, ns[n].1, ids)
        case Err(e) => Err(e)
        case Ok(more) => Ok(earlier + more)
  }

  /** The node has an engine id and all its kept settings resolve. */
  predicate EntryResolves(ids: IdMapping, e: (Node, Settings)) {
    e.0 in ids.nodes && Resolvable(e.0, e.1, ids)
  }

  /** One more entry compiles exactly when the earlier ones do and it resolves. */
  lemma NodeSetStep(ids: IdMapping, ns: NodeSettings)
    requires ns != []
    ensures CollectNodeSetRequests(ids, ns).Ok?
      <==> CollectNodeSetRequests(ids, ns[..|ns| - 1]).Ok? && EntryResolves(ids, ns[|ns| - 1])
  {
    var n := |ns| - 1;
    var here := SetRequestsFor(ns[n].0, ns[n].1, ids);
    assert here.Ok? <==> EntryResolves(ids, ns[n]);
  }

  /** Every node has an engine id and all its settings resolve. */
  predicate AllResolve(ids: IdMapping, ns: NodeSettings) {
    forall i :: 0 <= i < |ns| ==> EntryResolves(ids, ns[i])
  }

  lemma AllResolveSnoc(ids: IdMapping, ns: NodeSettings)
    requires ns != []
    ensures AllResolve(ids, ns) <==> AllResolve(ids, ns[..|ns| - 1]) && EntryResolves(ids, ns[|ns| - 1])
  {
    var n := |ns| - 1;
    assert forall i :: 0 <= i < n ==> ns[..n][i] == ns[i];
  }

  /** The node settings compile exactly when every node has an engine id and all its settings resolve. */
  lemma {:induction false} NodeSetRequestsResolve(ids: IdMapping, ns: NodeSettings)
    ensures CollectNodeSetRequests(ids, ns).Ok? <==> AllResolve(ids, ns)
  {
    if ns != [] {
      NodeSetRequestsResolve(ids, ns[..|ns| - 1]);
      NodeSetStep(ids, ns);
      AllResolveSnoc(ids, ns);
    }
  }
}
