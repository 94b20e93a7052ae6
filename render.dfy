/**
 * The render's timeline and its linearization: the session's duration, the
 * offsets compiled in order up to the render end, and the bundles that
 * result, one per offset that has requests, closed by a `Nothing` request.
 */
module Rendering {
  import opened Wrappers
  import opened Offsets
  import opened Entities
  import opened StateIndex
  import opened IdMappings
  import opened BufferRequests
  import opened NodeRequests
  import opened BusRequests
  import opened OffsetCompiler

  // ------------------------------------------------------------------ duration

  /** The last listed offset below +inf, scanning from the end; None when every listed offset is +inf. */
  function LastFinite(offsets: seq<Offset>): (r: Option<Offset>)
    ensures r.Some? ==> r.value in offsets && r.value != PosInf
  {
    if offsets == [] then None
    else if offsets[|offsets| - 1] != PosInf then Some(offsets[|offsets| - 1])
    else LastFinite(offsets[..|offsets| - 1])
  }

  /**
   * The session's duration: the last offset below +inf, clamped at zero, and
   * extended by the padding when it is positive and the padding is set and nonzero.
   */
  function DurationOf(offsets: seq<Offset>, padding: Option<real>): real {
    var d := match LastFinite(offsets)
      case Some(Fin(t)) => if t < 0.0 then 0.0 else t
      case _ => 0.0;
    if d > 0.0 && padding.Some? && padding.value != 0.0 then d + padding.value else d
  }

  /** On a sorted list, no entry below +inf lies above the last such entry. */
  lemma {:induction false} LastFiniteIsGreatest(offsets: seq<Offset>)
    requires Sorted(offsets)
    ensures LastFinite(offsets).Some? ==> forall y :: y in offsets && y != PosInf ==> Le(y, LastFinite(offsets).value)
    ensures LastFinite(offsets).None? ==> forall y :: y in offsets ==> y == PosInf
  {
    if offsets != [] {
      var n := |offsets| - 1;
      assert forall y :: y in offsets <==> y in offsets[..n] || y == offsets[n];
      if offsets[n] == PosInf {
        LastFiniteIsGreatest(offsets[..n]);
      } else {
        forall y | y in offsets && y != PosInf ensures Le(y, offsets[n]) {
          if y != offsets[n] {
            var k :| 0 <= k < n && offsets[k] == y;
          }
        }
      }
    }
  }

  /**
   * With no negative padding the duration is not negative and no finite
   * offset lies beyond it; with no padding it is the last finite offset
   * itself unless that lies below zero.
   */
  lemma DurationCoversOffsets(offsets: seq<Offset>, padding: Option<real>)
    requires Sorted(offsets) && NegInf in offsets
    requires padding.Some? ==> padding.value >= 0.0
    ensures DurationOf(offsets, padding) >= 0.0
    ensures forall t :: Fin(t) in offsets ==> t <= DurationOf(offsets, padding)
    ensures padding.None? ==>
      DurationOf(offsets, padding) == 0.0 || Fin(DurationOf(offsets, padding)) in offsets
  {
    LastFiniteIsGreatest(offsets);
  }

  // ------------------------------------------------------------------ timeline

  /** The render end: a given nonzero duration, else the session's. */
  function RenderEnd(duration: Option<real>, offsets: seq<Offset>, padding: Option<real>): real {
    if duration.Some? && duration.value != 0.0 then duration.value else DurationOf(offsets, padding)
  }

  lemma TailStrictlySorted(s: seq<Offset>)
    requires StrictlySorted(s) && s != []
    ensures StrictlySorted(s[1..])
  {
    forall i, j | 0 <= i < j < |s[1..]| ensures Lt(s[1..][i], s[1..][j]) {
      assert s[1..][i] == s[i + 1] && s[1..][j] == s[j + 1];
    }
  }

  /** The render's offsets: the listed ones after the root-level sentinel, with the render end added when missing. */
  function Timeline(offsets: seq<Offset>, d: real): (r: seq<Offset>)
    requires StrictlySorted(offsets) && offsets != []
    ensures StrictlySorted(r)
    ensures forall y :: y in r <==> y in offsets[1..] || y == Fin(d)
  {
    TailStrictlySorted(offsets);
    var rest := offsets[1..];
    if Fin(d) in rest then rest else Insert(rest, Fin(d))
  }

  /** The states the render reads: a state at the render end, when missing, is cloned from the last resolved one below it. */
  function RenderStates(offsets: seq<Offset>, states: map<Offset, State>, clone: (State, Offset) -> State, d: real)
    : (r: map<Offset, State>)
    requires IndexValid(offsets, states)
    ensures r.Keys == states.Keys + {Fin(d)}
  {
    if Fin(d) in states then states
    else
      ResolvedPredecessorExists(offsets, states, Fin(d));
      states[Fin(d) := clone(states[LastBefore(offsets, states, Fin(d), true).value], Fin(d))]
  }

  // ------------------------------------------------------------------ bundles

  /** What every offset of one render is compiled against. */
  datatype RenderInputs = RenderInputs(
    schedule: BufferSchedule,
    busSettings: BusSettings,
    ids: IdMapping,
    nodeSettings: (Offset, State) -> NodeSettings)

  /** A bundle's timestamp: the offset's time. */
  function TimeOf(o: Offset): real {
    if o.Fin? then o.t else 0.0
  }

  /** The per-offset compiler of one render: the offset, its state, the open-file record and the sent definitions. */
  type Compiler = (Offset, State, OpenStates, set<SynthDef>) -> Compiled

  /** `_collect_requests_at_offset` against the render's inputs; the render end is the last offset. */
  function CompilerOf(inputs: RenderInputs, d: real): Compiler
    requires RowsUnique(inputs.busSettings)
  {
    (o: Offset, state: State, open: OpenStates, visited: set<SynthDef>) =>
      AtOffset(state, o == Fin(d), open, inputs.schedule, inputs.busSettings, d, inputs.ids, o, visited,
               inputs.nodeSettings(o, state))
  }

  /**
   * The bundles from the offsets in order: each offset's requests (with
   * `Nothing` appended at the render end) become a bundle when there are any,
   * the open-file record and the sent definitions carry over, and the render
   * stops at its end. A failing offset fails the render.
   */
  function Bundles(timeline: seq<Offset>, stateOf: map<Offset, State>, d: real, open: OpenStates,
                   visited: set<SynthDef>, compile: Compiler): Result<seq<Bundle>>
    requires forall o :: o in timeline ==> o in stateOf
    decreases |timeline|
  {
    if timeline == [] then Ok([])
    else
      var o := timeline[0];
      var isLast := o == Fin(d);
      match compile(o, stateOf[o], open, visited)
      case CompileFailed => Err(UnresolvedReference)
      case Compiled(reqs, open', visited') =>
        var here := Emitted(o, reqs, d);
        if isLast then Ok(here)
        else
          match Bundles(timeline[1..], stateOf, d, open', visited', compile)
          case Err(e) => Err(e)
          case Ok(rest) => Ok(here + rest)
  }

  /** A render result with bundles already emitted put in front. */
  function PrependBundles(bs: seq<Bundle>, r: Result<seq<Bundle>>): Result<seq<Bundle>> {
    match r
    case Ok(rest) => Ok(bs + rest)
    case Err(e) => Err(e)
  }

  lemma PrependAssoc(a: seq<Bundle>, b: seq<Bundle>, r: Result<seq<Bundle>>)
    ensures PrependBundles(a, PrependBundles(b, r)) == PrependBundles(a + b, r)
    ensures PrependBundles([], r) == r
  {
    if r.Ok? {
      assert a + (b + r.value) == (a + b) + r.value;
      assert [] + r.value == r.value;
    }
  }

  /** The bundle one offset contributes: its requests, `Nothing` appended at the end, none when empty. */
  function Emitted(o: Offset, reqs: seq<Request>, d: real): seq<Bundle> {
    var contents := if o == Fin(d) then reqs + [Nothing] else reqs;
    if contents == [] then [] else [Bundle(TimeOf(o), contents)]
  }

  /**
   * The bundles from the `i`-th offset on, one offset at a time: a failing
   * offset fails the render, the end offset finishes it, any other offset
   * adds its bundle and hands on the open-file record and the sent definitions.
   */
  lemma BundlesAdvance(timeline: seq<Offset>, i: nat, stateOf: map<Offset, State>, d: real, open: OpenStates,
                       visited: set<SynthDef>, compile: Compiler, bundles: seq<Bundle>)
    requires i < |timeline| && forall o :: o in timeline ==> o in stateOf
    ensures forall o :: o in timeline[i + 1..] ==> o in stateOf
    ensures forall o :: o in timeline[i..] ==> o in stateOf
    ensures forall o :: o in timeline[i..] <==> o == timeline[i] || o in timeline[i + 1..]
    ensures var o := timeline[i];
      var c := compile(o, stateOf[o], open, visited);
      var whole := PrependBundles(bundles, Bundles(timeline[i..], stateOf, d, open, visited, compile));
      && (c.CompileFailed? ==> whole.Err?)
      && (c.Compiled? && o == Fin(d) ==> whole == Ok(bundles + Emitted(o, c.reqs, d)))
      && (c.Compiled? && o != Fin(d) ==>
            whole == PrependBundles(bundles + Emitted(o, c.reqs, d),
                                    Bundles(timeline[i + 1..], stateOf, d, c.open, c.visited, compile)))
  {
    assert timeline[i..][0] == timeline[i] && timeline[i..][1..] == timeline[i + 1..];
    var o := timeline[i];
    var c := compile(o, stateOf[o], open, visited);
    if c.Compiled? && o != Fin(d) {
      PrependAssoc(bundles, Emitted(o, c.reqs, d), Bundles(timeline[i + 1..], stateOf, d, c.open, c.visited, compile));
    }
  }

  /** Every bundle is non-empty, stamped with a listed offset's time no later than the end, and later than the previous. */
  ghost predicate Linear(bs: seq<Bundle>, timeline: seq<Offset>, d: real) {
    && (forall i :: 0 <= i < |bs| ==> bs[i].contents != [])
    && (forall i :: 0 <= i < |bs| ==> Fin(bs[i].timestamp) in timeline && bs[i].timestamp <= d)
    && (forall i, j :: 0 <= i < j < |bs| ==> bs[i].timestamp < bs[j].timestamp)
  }

  /** The render closes with a bundle at its end whose last request is `Nothing`. */
  ghost predicate Closed(bs: seq<Bundle>, d: real) {
    bs != [] && bs[|bs| - 1].timestamp == d
    && bs[|bs| - 1].contents != [] && bs[|bs| - 1].contents[|bs[|bs| - 1].contents| - 1] == Nothing
  }

  /**
   * The linearization's shape: over a strictly increasing timeline that holds
   * the render end and no root-level sentinel, a successful render has
   * non-empty bundles in strictly increasing time order, none later than the
   * end, and closes with a `Nothing` request at the end.
   */
  lemma {:induction false} BundlesShape(timeline: seq<Offset>, stateOf: map<Offset, State>, d: real, open: OpenStates,
                                        visited: set<SynthDef>, compile: Compiler)
    requires forall o :: o in timeline ==> o in stateOf
    requires StrictlySorted(timeline) && NegInf !in timeline && Fin(d) in timeline
    ensures var r := Bundles(timeline, stateOf, d, open, visited, compile);
      r.Ok? ==> Linear(r.value, timeline, d) && Closed(r.value, d)
    decreases |timeline|
  {
    var r := Bundles(timeline, stateOf, d, open, visited, compile);
    var o := timeline[0];
    var c := compile(o, stateOf[o], open, visited);
    if r.Ok? && o != Fin(d) && c.Compiled? {
      var rest := timeline[1..];
      TailStrictlySorted(timeline);
      assert forall y :: y in timeline <==> y == o || y in rest;
      assert Fin(d) in rest;
      BundlesShape(rest, stateOf, d, c.open, c.visited, compile);
      var restBs := Bundles(rest, stateOf, d, c.open, c.visited, compile).value;
      forall y | y in rest ensures Lt(o, y) {
        var k :| 0 <= k < |rest| && rest[k] == y;
        assert timeline[k + 1] == y;
      }
      assert o.Fin? && o.t < d by {
        assert Lt(o, Fin(d));
      }
      var here := Emitted(o, c.reqs, d);
      assert r.value == here + restBs;
      ConsLinear(here, restBs, o, rest, timeline, d);
    }
  }

  lemma ConsLinear(here: seq<Bundle>, rest: seq<Bundle>, o: Offset, restTimeline: seq<Offset>, timeline: seq<Offset>, d: real)
    requires o in timeline && o.Fin? && o.t < d
    requires forall y :: y in restTimeline ==> y in timeline && Lt(o, y)
    requires here == [] || (|here| == 1 && here[0].timestamp == o.t && here[0].contents != [])
    requires Linear(rest, restTimeline, d) && Closed(rest, d)
    ensures Linear(here + rest, timeline, d) && Closed(here + rest, d)
  {
    var bs := here + rest;
    forall i | 0 <= i < |rest| ensures o.t < rest[i].timestamp {
      assert Lt(o, Fin(rest[i].timestamp));
    }
    assert forall i :: 0 <= i < |bs| ==> bs[i] == if i < |here| then here[i] else rest[i - |here|];
  }

  // ------------------------------------------------------------------ the render

  /**
   * `_to_non_xrefd_request_bundles`: the id mapping (buffers, buses, nodes),
   * the render end, the control-bus settings, then the bundles over the
   * timeline, the missing end state cloned in.
   */
  function Render(offsets: seq<Offset>, states: map<Offset, State>, padding: Option<real>,
                  clone: (State, Offset) -> State, duration: Option<real>,
                  buffers: seq<Buffer>, bufferGroups: BufferGroups, buses: seq<Bus>, busGroupSizes: map<int, nat>,
                  inputCount: nat, outputCount: nat, schedule: BufferSchedule,
                  nodeSettings: (Offset, State) -> NodeSettings): Result<seq<Bundle>>
    requires IndexValid(offsets, states) && GroupsSized(buses, busGroupSizes)
  {
    var ids := IdMapping(NodeIds(offsets[1..], states), BufferIds(buffers, bufferGroups),
                         Allocated(buses, busGroupSizes, inputCount, outputCount).ids);
    var d := RenderEnd(duration, offsets, padding);
    match BusSettingsOf(buses, ids.buses)
    case Err(e) => Err(e)
    case Ok(busSettings) =>
      TimelineStates(offsets, states, clone, d);
      Bundles(Timeline(offsets, d), RenderStates(offsets, states, clone, d), d, map[], {},
              CompilerOf(RenderInputs(schedule, busSettings, ids, nodeSettings), d))
  }

  /**
   * A consequence of the bus mapping keeping one bus per group: when two
   * control buses share a group, one of them has no engine id, so collecting
   * the control-bus settings (and with it the render) fails.
   */
  lemma GroupedControlBusesUnresolved(buses: seq<Bus>, sizes: map<int, nat>, inputCount: nat, outputCount: nat,
                                      b1: Bus, b2: Bus)
    requires GroupsSized(buses, sizes)
    requires b1 in buses && b2 in buses && b1 != b2
    requires b1.rate == ControlRate && b2.rate == ControlRate && b1.group.Some? && b1.group == b2.group
    ensures BusSettingsOf(buses, Allocated(buses, sizes, inputCount, outputCount).ids).Err?
  {
    BusMappingShape(buses, sizes, inputCount, outputCount);
  }

  /** The timeline holds the render end and no root-level sentinel, and every offset of it has a state. */
  lemma TimelineStates(offsets: seq<Offset>, states: map<Offset, State>, clone: (State, Offset) -> State, d: real)
    requires IndexValid(offsets, states)
    ensures forall o :: o in Timeline(offsets, d) ==> o in RenderStates(offsets, states, clone, d)
    ensures NegInf !in Timeline(offsets, d) && Fin(d) in Timeline(offsets, d)
  {
    forall o | o in offsets[1..] ensures o in offsets && o != NegInf {
      var k :| 0 <= k < |offsets[1..]| && offsets[1..][k] == o;
      assert offsets[k + 1] == o && Lt(offsets[0], offsets[k + 1]);
    }
  }

  /**
   * A successful render's bundles carry the timeline's times in strictly
   * increasing order, none after the render end, none empty, and the last is
   * at the render end and finishes with `Nothing`.
   */
  lemma RenderShape(offsets: seq<Offset>, states: map<Offset, State>, padding: Option<real>,
                    clone: (State, Offset) -> State, duration: Option<real>,
                    buffers: seq<Buffer>, bufferGroups: BufferGroups, buses: seq<Bus>, busGroupSizes: map<int, nat>,
                    inputCount: nat, outputCount: nat, schedule: BufferSchedule,
                    nodeSettings: (Offset, State) -> NodeSettings)
    requires IndexValid(offsets, states) && GroupsSized(buses, busGroupSizes)
    ensures var r := Render(offsets, states, padding, clone, duration, buffers, bufferGroups, buses, busGroupSizes,
                            inputCount, outputCount, schedule, nodeSettings);
      var d := RenderEnd(duration, offsets, padding);
      r.Ok? ==> Linear(r.value, Timeline(offsets, d), d) && Closed(r.value, d)
  {
    var ids := IdMapping(NodeIds(offsets[1..], states), BufferIds(buffers, bufferGroups),
                         Allocated(buses, busGroupSizes, inputCount, outputCount).ids);
    var d := RenderEnd(duration, offsets, padding);
    var settings := BusSettingsOf(buses, ids.buses);
    if settings.Ok? {
      TimelineStates(offsets, states, clone, d);
      BundlesShape(Timeline(offsets, d), RenderStates(offsets, states, clone, d), d, map[], {},
                   CompilerOf(RenderInputs(schedule, settings.value, ids, nodeSettings), d));
    }
  }
}
