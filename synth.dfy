/**
 * The automation track of a non-realtime synth (the older package layout):
 * per parameter a list of (time, value) breakpoints relative to the synth's
 * start, read with "hold the last breakpoint" semantics, and turned into the
 * timestamped requests that create, update and end the synth.
 */
module SynthTrack {
  import opened Wrappers
  import opened Entities

  /** One parameter's breakpoints: (time relative to the synth's start, value). */
  type Track = seq<(real, real)>

  /** Breakpoint times strictly increase: the list is sorted and no time occurs twice. */
  predicate TimesIncrease(track: Track) {
    forall i, j :: 0 <= i < j < |track| ==> track[i].0 < track[j].0
  }

  /** The value of the breakpoint at exactly time `t`, if there is one. */
  function ValueAt(track: Track, t: real): (r: Option<real>)
    ensures r.Some? <==> exists i :: 0 <= i < |track| && track[i].0 == t
    ensures r.Some? && TimesIncrease(track) ==> forall i :: 0 <= i < |track| && track[i].0 == t ==> track[i].1 == r.value
  {
    if track == [] then None
    else if track[0].0 == t then Some(track[0].1)
    else
      var r := ValueAt(track[1..], t);
      assert forall i :: 1 <= i < |track| ==> track[1..][i - 1] == track[i];
      r
  }

  /** The value of the latest breakpoint strictly before `t`, if there is one. */
  function HeldBefore(track: Track, t: real): (r: Option<real>)
    ensures r.Some? <==> exists i :: 0 <= i < |track| && track[i].0 < t
  {
    if track == [] then None
    else
      var n := |track| - 1;
      if track[n].0 < t then Some(track[n].1)
      else
        assert forall i :: 0 <= i < n ==> track[..n][i] == track[i];
        HeldBefore(track[..n], t)
  }

  // ------------------------------------------------------------------ lexicographic bisection

  /** Python's tuple order on (time, value) pairs. */
  predicate PairLt(a: (real, real), b: (real, real)) {
    a.0 < b.0 || (a.0 == b.0 && a.1 < b.1)
  }

  /** `bisect.bisect_left` on a list of pairs: the number of leading entries below `key` in tuple order. */
  function BisectPairs(track: Track, key: (real, real)): (i: nat)
    ensures i <= |track|
    ensures forall j :: 0 <= j < i ==> PairLt(track[j], key)
    ensures i < |track| ==> !PairLt(track[i], key)
  {
    if track == [] || !PairLt(track[0], key) then 0
    else
      var i := 1 + BisectPairs(track[1..], key);
      assert forall j :: 1 <= j < |track| ==> track[1..][j - 1] == track[j];
      i
  }

  /** On a track whose times increase, the bisection point splits the times below `key.0` from the rest, up to one entry at `key.0`. */
  lemma BisectPairsSplit(track: Track, key: (real, real))
    requires TimesIncrease(track)
    ensures var i := BisectPairs(track, key);
      && (forall j :: 0 <= j < i - 1 ==> track[j].0 < key.0)
      && (forall j :: i <= j < |track| ==> track[j].0 >= key.0)
      && (0 < i ==> track[i - 1].0 <= key.0)
  {
    var i := BisectPairs(track, key);
    if i < |track| {
      forall j | i <= j < |track| ensures track[j].0 >= key.0 {
        if j > i {
          assert track[i].0 < track[j].0;
        }
      }
    }
    forall j | 0 <= j < i - 1 ensures track[j].0 < key.0 {
      assert track[j].0 < track[i - 1].0;
    }
  }

  // ------------------------------------------------------------------ the as-written write

  /**
   * A write as the source performs it: bisect on (time, value) pairs, append
   * past the end, overwrite if the found entry has the same time, insert otherwise.
   */
  function SetAsWritten(track: Track, t: real, v: real): Track {
    if track == [] then [(t, v)]
    else
      var index := BisectPairs(track, (t, v));
      var events := if |track| <= index then track + [(t, v)] else track;
      if events[index].0 == t then events[index := (t, v)]
      else events[..index] + [(t, v)] + events[index..]
  }

  /**
   * The as-written write breaks its own invariant: writing a larger value at a
   * time that already has a breakpoint appends a second breakpoint at that time.
   */
  lemma SetAsWrittenDuplicatesTime()
    ensures SetAsWritten([(0.0, 1.0)], 0.0, 2.0) == [(0.0, 1.0), (0.0, 2.0)]
    ensures !TimesIncrease(SetAsWritten([(0.0, 1.0)], 0.0, 2.0))
    ensures forall default :: Lookup(SetAsWritten([(0.0, 1.0)], 0.0, 2.0), 0.0, default) == Num(1.0)
  {
    assert BisectPairs([(0.0, 1.0)], (0.0, 2.0)) == 1;
    var r := SetAsWritten([(0.0, 1.0)], 0.0, 2.0);
    assert r == [(0.0, 1.0), (0.0, 2.0)];
    assert r[0].0 == r[1].0;
    assert BisectPairs(r, (0.0, 0.0)) == 0;
  }

  // ------------------------------------------------------------------ the intended write

  /** The intended write: the breakpoint at `t` takes value `v`, in time order. */
  function Put(track: Track, t: real, v: real): (r: Track)
    ensures |r| == |track| || |r| == |track| + 1
  {
    if track == [] then [(t, v)]
    else if track[0].0 == t then [(t, v)] + track[1..]
    else if t < track[0].0 then [(t, v)] + track
    else [track[0]] + Put(track[1..], t, v)
  }

  /** Every breakpoint of the track lies after time `lo`. */
  predicate After(track: Track, lo: real) {
    forall i :: 0 <= i < |track| ==> lo < track[i].0
  }

  lemma {:induction false} PutAfter(track: Track, t: real, v: real, lo: real)
    requires After(track, lo) && lo < t
    ensures After(Put(track, t, v), lo)
  {
    if track != [] && track[0].0 != t && t >= track[0].0 {
      var rest := track[1..];
      assert After(rest, lo) by {
        assert forall i :: 0 <= i < |rest| ==> rest[i] == track[i + 1];
      }
      PutAfter(rest, t, v, lo);
      assert Put(track, t, v) == [track[0]] + Put(rest, t, v);
    }
  }

  /** A write keeps the breakpoint times strictly increasing. */
  lemma {:induction false} PutKeepsOrder(track: Track, t: real, v: real)
    requires TimesIncrease(track)
    ensures TimesIncrease(Put(track, t, v))
  {
    if track != [] && track[0].0 != t && t >= track[0].0 {
      var rest := track[1..];
      assert forall i :: 0 <= i < |rest| ==> rest[i] == track[i + 1];
      PutKeepsOrder(rest, t, v);
      PutAfter(rest, t, v, track[0].0);
      var r := Put(track, t, v);
      var tail := Put(rest, t, v);
      assert r == [track[0]] + tail;
      assert forall i :: 1 <= i < |r| ==> r[i] == tail[i - 1];
    }
  }

  /** A write at an existing time overwrites in place and keeps the length; a write at a new time adds one breakpoint. */
  lemma {:induction false} PutLength(track: Track, t: real, v: real)
    requires TimesIncrease(track)
    ensures |Put(track, t, v)| == if ValueAt(track, t).Some? then |track| else |track| + 1
  {
    if track != [] && track[0].0 != t {
      var rest := track[1..];
      assert forall i :: 0 <= i < |rest| ==> rest[i] == track[i + 1];
      if t < track[0].0 {
        assert forall i :: 0 <= i < |track| ==> track[i].0 != t by {
          forall i | 0 <= i < |track| ensures track[i].0 != t {
            if i > 0 {
              assert track[0].0 < track[i].0;
            }
          }
        }
      } else {
        PutLength(rest, t, v);
      }
    }
  }

  /** The write reads back: the breakpoint at `t` now holds `v`. */
  lemma {:induction false} PutReads(track: Track, t: real, v: real)
    ensures ValueAt(Put(track, t, v), t) == Some(v)
  {
    if track != [] && track[0].0 != t && t >= track[0].0 {
      PutReads(track[1..], t, v);
      assert Put(track, t, v) == [track[0]] + Put(track[1..], t, v);
      assert ([track[0]] + Put(track[1..], t, v))[1..] == Put(track[1..], t, v);
    }
  }

  /** The write leaves every other time's breakpoint as it was. */
  lemma {:induction false} PutLeavesOthers(track: Track, t: real, v: real, s: real)
    requires s != t
    ensures ValueAt(Put(track, t, v), s) == ValueAt(track, s)
  {
    if track == [] {
    } else if track[0].0 == t {
      assert Put(track, t, v)[1..] == track[1..];
    } else if t < track[0].0 {
      assert Put(track, t, v)[1..] == track;
    } else {
      PutLeavesOthers(track[1..], t, v, s);
      assert Put(track, t, v)[1..] == Put(track[1..], t, v);
    }
  }

  /** The number of leading breakpoints strictly before time `t`: a bisection on times alone. */
  function BisectTimes(track: Track, t: real): (i: nat)
    ensures i <= |track|
    ensures forall j :: 0 <= j < i ==> track[j].0 < t
  {
    if track == [] || !(track[0].0 < t) then 0
    else
      var i := 1 + BisectTimes(track[1..], t);
      assert forall j :: 1 <= j < |track| ==> track[1..][j - 1] == track[j];
      i
  }

  /** Put is the splice at the bisection point: overwrite there if the time matches, insert there otherwise. */
  lemma {:induction false} PutIsSplice(track: Track, t: real, v: real)
    ensures var i := BisectTimes(track, t);
      Put(track, t, v) == if i < |track| && track[i].0 == t then track[i := (t, v)] else track[..i] + [(t, v)] + track[i..]
  {
    if track == [] {
    } else if track[0].0 == t {
      assert BisectTimes(track, t) == 0;
      assert [(t, v)] + track[1..] == track[0 := (t, v)];
    } else if t < track[0].0 {
      assert BisectTimes(track, t) == 0;
      assert track[..0] + [(t, v)] + track[0..] == [(t, v)] + track;
    } else {
      var rest := track[1..];
      PutIsSplice(rest, t, v);
      var k := BisectTimes(rest, t);
      assert BisectTimes(track, t) == k + 1;
      assert Put(track, t, v) == [track[0]] + Put(rest, t, v);
      SpliceCons(track, k, (t, v));
    }
  }

  /** Splicing behind the head of a sequence is splicing into its tail. */
  lemma SpliceCons(s: Track, k: nat, e: (real, real))
    requires s != [] && k < |s|
    ensures k < |s[1..]| ==> s[k + 1 := e] == [s[0]] + s[1..][k := e]
    ensures s[..k + 1] + [e] + s[k + 1..] == [s[0]] + (s[1..][..k] + [e] + s[1..][k..])
  {
    assert s == [s[0]] + s[1..];
  }

  // ------------------------------------------------------------------ the read

  /**
   * A read as the source performs it: bisect on (time, 0.0), take the entry
   * found (or the last one past the end) if its time matches, else the entry
   * before the bisection point, else the default.
   */
  function Lookup(track: Track, t: real, default: SettingValue): SettingValue {
    if track == [] then default
    else
      var index := BisectPairs(track, (t, 0.0));
      var found := if |track| <= index then track[|track| - 1] else track[index];
      if found.0 == t then Num(found.1)
      else if index - 1 < 0 then default
      else Num(track[index - 1].1)
  }

  lemma {:induction false} HeldBeforeAt(track: Track, t: real, k: nat)
    requires TimesIncrease(track) && k < |track| && track[k].0 < t
    requires forall j :: k < j < |track| ==> track[j].0 >= t
    ensures HeldBefore(track, t) == Some(track[k].1)
  {
    var n := |track| - 1;
    if k < n {
      var init := track[..n];
      assert forall j :: 0 <= j < n ==> init[j] == track[j];
      HeldBeforeAt(init, t, k);
    }
  }

  /** On a track whose times increase, every entry from the bisection point on is not below the key. */
  lemma BisectPairsUpper(track: Track, key: (real, real))
    requires TimesIncrease(track)
    ensures forall j :: BisectPairs(track, key) <= j < |track| ==> !PairLt(track[j], key)
  {
    var i := BisectPairs(track, key);
    forall j | i <= j < |track| ensures !PairLt(track[j], key) {
      if j > i {
        assert track[i].0 < track[j].0;
      }
    }
  }

  /** The value a read should give: the breakpoint at exactly `t`, else the latest one before `t`, else the default. */
  function HeldValue(track: Track, t: real, default: SettingValue): SettingValue {
    if ValueAt(track, t).Some? then Num(ValueAt(track, t).value)
    else if HeldBefore(track, t).Some? then Num(HeldBefore(track, t).value)
    else default
  }

  /**
   * On a track whose times increase, a read returns the breakpoint at exactly
   * `t`, else the latest breakpoint before `t` (the value is held), else the default.
   */
  lemma LookupIsHeldValue(track: Track, t: real, default: SettingValue)
    requires TimesIncrease(track)
    ensures Lookup(track, t, default) == HeldValue(track, t, default)
  {
    if track != [] {
      if ValueAt(track, t).Some? {
        LookupExact(track, t, default);
      } else {
        LookupHeld(track, t, default);
      }
    }
  }

  lemma LookupExact(track: Track, t: real, default: SettingValue)
    requires TimesIncrease(track) && ValueAt(track, t).Some?
    ensures Lookup(track, t, default) == Num(ValueAt(track, t).value)
  {
    var i := BisectPairs(track, (t, 0.0));
    BisectPairsSplit(track, (t, 0.0));
    BisectPairsUpper(track, (t, 0.0));
    var e :| 0 <= e < |track| && track[e].0 == t;
    if track[e].1 < 0.0 {
      assert PairLt(track[e], (t, 0.0));
      assert e == i - 1;
      if i < |track| {
        assert track[e].0 < track[i].0;
      }
    } else {
      assert !PairLt(track[e], (t, 0.0));
      assert track[i].0 >= t;
      assert e == i;
    }
  }

  lemma LookupHeld(track: Track, t: real, default: SettingValue)
    requires TimesIncrease(track) && track != [] && ValueAt(track, t).None?
    ensures Lookup(track, t, default) == if HeldBefore(track, t).Some? then Num(HeldBefore(track, t).value) else default
  {
    var i := BisectPairs(track, (t, 0.0));
    BisectPairsSplit(track, (t, 0.0));
    BisectPairsUpper(track, (t, 0.0));
    assert forall j :: 0 <= j < |track| ==> track[j].0 != t;
    if i < |track| {
      if 0 < i {
        HeldBeforeAt(track, t, i - 1);
      }
    } else {
      HeldBeforeAt(track, t, i - 1);
    }
  }

  /** A read of a parameter that may have no breakpoints at all falls back to the default. */
  lemma ReadTrack(events: map<string, Track>, item: string, t: real, default: SettingValue)
    requires forall k :: k in events ==> TimesIncrease(events[k])
    ensures (if item !in events then default else Lookup(events[item], t, default))
      == HeldValue(if item in events then events[item] else [], t, default)
  {
    if item in events {
      LookupIsHeldValue(events[item], t, default);
    } else {
      assert ValueAt([], t).None? && HeldBefore([], t).None?;
    }
  }

  /** After a write at `t` on a track whose times increase, a read at `t` returns the written value. */
  lemma WriteThenRead(track: Track, t: real, v: real, default: SettingValue)
    requires TimesIncrease(track)
    ensures Lookup(Put(track, t, v), t, default) == Num(v)
  {
    PutKeepsOrder(track, t, v);
    PutReads(track, t, v);
    LookupIsHeldValue(Put(track, t, v), t, default);
  }

  // ------------------------------------------------------------------ the synth

  /** The add actions a synth accepts: none given means the head of the target; only head and tail are allowed. */
  function ResolveAddAction(a: Option<AddAction>): (r: Result<AddAction>)
    ensures a.None? ==> r == Ok(AddToHead)
    ensures a.Some? ==> (r.Ok? <==> a.value == AddToHead || a.value == AddToTail)
    ensures r.Ok? && a.Some? ==> r.value == a.value
    ensures r.Err? ==> r.error == InvalidAddAction
  {
    match a
    case None => Ok(AddToHead)
    case Some(x) => if x == AddToHead || x == AddToTail then Ok(x) else Err(InvalidAddAction)
  }

  /** The requests of the older package layout, which carry session objects rather than engine ids. */
  datatype Command =
    | StartSynth(nodeId: int, synthdef: SynthDef, addAction: AddAction, targetId: int, settings: Settings)
    | SetControls(nodeId: int, settings: Settings)
    | MapToAudioBus(nodeId: int, buses: map<string, BusKey>)
    | MapToControlBus(nodeId: int, buses: map<string, BusKey>)
    | FreeNodes(nodeIds: seq<int>)

  /** The settings that are plain values (not buses). */
  function Plain(ev: Settings): (r: Settings)
    ensures forall k :: k in r <==> k in ev && !ev[k].BusMap?
  {
    map k | k in ev && !ev[k].BusMap? :: ev[k]
  }

  /** The settings that map a parameter to a bus of the given rate. */
  function BusesOfRate(ev: Settings, rate: CalculationRate): (r: map<string, BusKey>)
    ensures forall k :: k in r <==> k in ev && ev[k].BusMap? && ev[k].rate == rate
  {
    map k | k in ev && ev[k].BusMap? && ev[k].rate == rate :: ev[k].bus
  }

  /** A setting of Python's None, which the request builder cannot classify. */
  predicate NoneFree(ev: Settings) {
    forall k :: k in ev ==> !ev[k].Unmapped?
  }

  /** The breakpoint values of every parameter at one relative time. */
  function BreakpointsAt(events: map<string, Track>, t: real): (r: Settings)
    ensures forall item :: item in r <==> item in events && ValueAt(events[item], t).Some?
    ensures forall item :: item in r ==> r[item] == Num(ValueAt(events[item], t).value)
  {
    map item | item in events && ValueAt(events[item], t).Some? :: Num(ValueAt(events[item], t).value)
  }

  /** One time's requests: the create-or-set request, then the audio-bus and the control-bus mappings when there are any. */
  function Assemble(nodeId: int, first: Command, audio: map<string, BusKey>, control: map<string, BusKey>): (r: seq<Command>)
    ensures |r| >= 1 && r[0] == first
    ensures |r| == 1 + (if |audio| > 0 then 1 else 0) + (if |control| > 0 then 1 else 0)
  {
    [first]
    + (if |audio| > 0 then [MapToAudioBus(nodeId, audio)] else [])
    + (if |control| > 0 then [MapToControlBus(nodeId, control)] else [])
  }

  /** Python's `d.setdefault(k, []).append(c)` on a dictionary of request lists. */
  function AppendAt(m: map<real, seq<Command>>, k: real, c: Command): (r: map<real, seq<Command>>)
    ensures forall j :: j in r <==> j in m || j == k
    ensures |r[k]| >= 1 && r[k][|r[k]| - 1] == c
    ensures k in m ==> r[k] == m[k] + [c]
    ensures forall j :: j in m && j != k ==> r[j] == m[j]
  {
    if k in m then m[k := m[k] + [c]] else m[k := [c]]
  }

  class Synth {
    const startOffset: real
    const stopOffset: real
    const synthdef: SynthDef
    const addAction: AddAction
    const synthKwargs: Settings
    /** Per parameter name, its breakpoints relative to the start. */
    var events: map<string, Track>

    ghost predicate Valid()
      reads this
    {
      && startOffset <= stopOffset
      && forall item :: item in events ==> TimesIncrease(events[item])
    }

    /** The synth's length. */
    function Duration(): (d: real)
      requires startOffset <= stopOffset
      ensures d >= 0.0
    {
      stopOffset - startOffset
    }

    constructor(start: real, stop: real, def: SynthDef, action: Option<AddAction>, kwargs: Settings)
      requires start <= stop
      requires ResolveAddAction(action).Ok?
      ensures Valid()
      ensures startOffset == start && stopOffset == stop && synthdef == def && synthKwargs == kwargs
      ensures addAction == ResolveAddAction(action).value
      ensures events == map[]
    {
      startOffset := start;
      stopOffset := stop;
      synthdef := def;
      addAction := ResolveAddAction(action).value;
      synthKwargs := kwargs;
      events := map[];
    }

    /** The value a parameter falls back to: the synth's keyword argument, else the definition's default. */
    function Default(item: string): SettingValue
      requires item in synthdef.parameters
    {
      if item in synthKwargs then synthKwargs[item] else Num(synthdef.parameters[item].default)
    }

    /**
     * `_get_at_timestep`: the parameter's value at an absolute time; a
     * parameter the definition does not declare fails, as its default lookup does.
     */
    function GetAtTimestep(timestep: real, item: string): Result<SettingValue>
      reads this
    {
      if item !in synthdef.parameters then Err(UnknownParameter)
      else
        var default := Default(item);
        if item !in events then Ok(default)
        else Ok(Lookup(events[item], timestep - startOffset, default))
    }

    /**
     * A read of an undeclared parameter fails; any other read returns the
     * breakpoint at exactly that time, else the latest one before it, else the
     * keyword argument, else the definition's default.
     */
    lemma GetAtTimestepHolds(timestep: real, item: string)
      requires Valid()
      ensures item !in synthdef.parameters <==> GetAtTimestep(timestep, item) == Err(UnknownParameter)
      ensures item in synthdef.parameters ==>
        GetAtTimestep(timestep, item) == Ok(HeldValue(TrackOf(item), timestep - startOffset, Default(item)))
    {
      if item !in synthdef.parameters {
        return;
      }
      var t, d := timestep - startOffset, Default(item);
      assert GetAtTimestep(timestep, item) == Ok(if item !in events then d else Lookup(events[item], t, d));
      assert TrackOf(item) == if item in events then events[item] else [];
      ReadTrack(events, item, t, d);
    }

    /** The parameter's breakpoints; none when it was never written. */
    function TrackOf(item: string): Track
      reads this
    {
      if item in events then events[item] else []
    }

    /**
     * `_set_at_timestep`, as intended: a write outside the synth's span is
     * ignored; otherwise the breakpoint at that relative time takes the value,
     * overwriting one already there or inserted in time order.
     */
    method SetAtTimestep(timestep: real, item: string, value: real)
      requires Valid()
      modifies this
      ensures Valid()
      ensures var t := timestep - startOffset;
        if t < 0.0 || Duration() < t then events == old(events)
        else events == old(events)[item := Put(old(TrackOf(item)), t, value)]
      ensures var t := timestep - startOffset;
        0.0 <= t <= Duration() && item in synthdef.parameters ==> GetAtTimestep(timestep, item) == Ok(Num(value))
    {
      var t := timestep - startOffset;
      if t < 0.0 || stopOffset - startOffset < t {
        return;
      }
      var track := TrackOf(item);
      ghost var before := track;
      var newEvent := (t, value);
      PutIsSplice(track, t, value);
      if track == [] {
        track := [newEvent];
      } else {
        var index := BisectTimes(track, t);
        if |track| <= index {
          track := track + [newEvent];
        } else if track[index].0 == t {
          track := track[index := newEvent];
        } else {
          track := track[..index] + [newEvent] + track[index..];
        }
      }
      assert track == Put(before, t, value);
      PutKeepsOrder(before, t, value);
      events := events[item := track];
      if item in synthdef.parameters {
        WriteThenRead(before, t, value, Default(item));
      }
    }

    /** The synth's fields as a value. */
    function View(): (v: Automation)
      reads this
      ensures v.events == events && v.startOffset == startOffset && v.stopOffset == stopOffset
    {
      Automation(startOffset, stopOffset, synthdef, addAction, synthKwargs, events)
    }

    /** `_collect_requests`: the synth's requests by absolute time. */
    function CollectRequests(nodeId: int): map<real, seq<Command>>
      reads this
      requires startOffset <= stopOffset && NoneFree(synthKwargs)
    {
      RequestsOf(View(), nodeId)
    }
  }

  // ------------------------------------------------------------------ the requests

  /** What request building reads from a synth. */
  datatype Automation = Automation(
    startOffset: real,
    stopOffset: real,
    synthdef: SynthDef,
    addAction: AddAction,
    synthKwargs: Settings,
    events: map<string, Track>)

  /** The settings in force at an absolute time: at the start the keyword arguments, overridden by the breakpoints at that time. */
  function EventAt(a: Automation, t: real): Settings {
    (if t == a.startOffset then a.synthKwargs else map[]) + BreakpointsAt(a.events, t - a.startOffset)
  }

  /** The absolute times that carry requests before the end request: the start and every breakpoint. */
  function Times(a: Automation): set<real> {
    {a.startOffset} + set item, i | item in a.events && 0 <= i < |a.events[item]| :: a.startOffset + a.events[item][i].0
  }

  /** The creation settings: the synth's length is added when the definition declares it and no setting supplies it. */
  function StartSettings(a: Automation, plain: Settings): (r: Settings)
    ensures forall k :: k in plain ==> k in r && r[k] == plain[k]
    ensures DurationParam in a.synthdef.parameters && DurationParam !in plain ==>
      DurationParam in r && r[DurationParam] == Num(a.stopOffset - a.startOffset)
    ensures DurationParam !in a.synthdef.parameters ==> r == plain
  {
    if DurationParam in a.synthdef.parameters && DurationParam !in plain then plain[DurationParam := Num(a.stopOffset - a.startOffset)]
    else plain
  }

  /** The request that opens one time's requests: create at the start, set elsewhere. */
  function FirstRequest(a: Automation, nodeId: int, t: real): Command {
    var plain := Plain(EventAt(a, t));
    if t == a.startOffset then StartSynth(nodeId, a.synthdef, a.addAction, 0, StartSettings(a, plain))
    else SetControls(nodeId, plain)
  }

  /** The requests at one time: create or set, then the audio-bus and control-bus mappings if any. */
  function RequestsAt(a: Automation, nodeId: int, t: real): (r: seq<Command>)
    ensures |r| >= 1 && r[0] == FirstRequest(a, nodeId, t)
  {
    var ev := EventAt(a, t);
    Assemble(nodeId, FirstRequest(a, nodeId, t), BusesOfRate(ev, AudioRate), BusesOfRate(ev, ControlRate))
  }

  /** How the synth ends: its gate closes when the definition has one; otherwise it is freed. */
  function EndRequest(a: Automation, nodeId: int): Command {
    if GateParam in a.synthdef.parameters then SetControls(nodeId, map[GateParam := Num(0.0)])
    else FreeNodes([nodeId])
  }

  /** The requests at each time that carries some, before the end request is added. */
  function ByTime(a: Automation, nodeId: int): map<real, seq<Command>> {
    map t | t in Times(a) :: RequestsAt(a, nodeId, t)
  }

  /** The requests by absolute time, with the end request last at the stop time. */
  function RequestsOf(a: Automation, nodeId: int): map<real, seq<Command>>
    requires NoneFree(a.synthKwargs)
  {
    AppendAt(ByTime(a, nodeId), a.stopOffset, EndRequest(a, nodeId))
  }

  /** Requests fall exactly at the start, the breakpoints and the stop. */
  lemma RequestsOfTimes(a: Automation, nodeId: int)
    requires NoneFree(a.synthKwargs)
    ensures forall t :: t in RequestsOf(a, nodeId) <==> t in Times(a) || t == a.stopOffset
  {
  }

  /** At a time that carries requests, the first one creates the synth (at the start) or sets its plain settings. */
  lemma FirstRequestAt(a: Automation, nodeId: int, t: real)
    requires NoneFree(a.synthKwargs) && t in ByTime(a, nodeId)
    ensures var r := RequestsOf(a, nodeId);
      t in r && |r[t]| >= 1 && r[t][0] == FirstRequest(a, nodeId, t)
  {
    var m := ByTime(a, nodeId);
    var r := AppendAt(m, a.stopOffset, EndRequest(a, nodeId));
    assert m[t] == RequestsAt(a, nodeId, t);
    if t == a.stopOffset {
      assert r[t] == m[t] + [EndRequest(a, nodeId)];
    } else {
      assert r[t] == m[t];
    }
  }

  /**
   * The synth is created at its start, with its add action, at the head or
   * tail of the root group, with every plain setting in force then; the
   * length is added only when declared and not already supplied.
   */
  lemma RequestsOfStart(a: Automation, nodeId: int)
    requires NoneFree(a.synthKwargs)
    ensures a.startOffset in RequestsOf(a, nodeId)
    ensures var q := RequestsOf(a, nodeId)[a.startOffset];
      |q| >= 1 && q[0] == StartSynth(nodeId, a.synthdef, a.addAction, 0, StartSettings(a, Plain(EventAt(a, a.startOffset))))
  {
    assert a.startOffset in Times(a);
    assert a.startOffset in ByTime(a, nodeId);
    FirstRequestAt(a, nodeId, a.startOffset);
  }

  /** The last request at the stop time ends the synth: a gate closing when declared, else a free of its node. */
  lemma RequestsOfEnd(a: Automation, nodeId: int)
    requires NoneFree(a.synthKwargs)
    ensures a.stopOffset in RequestsOf(a, nodeId)
    ensures var q := RequestsOf(a, nodeId)[a.stopOffset];
      && |q| >= 1
      && q[|q| - 1] == if GateParam in a.synthdef.parameters then SetControls(nodeId, map[GateParam := Num(0.0)]) else FreeNodes([nodeId])
  {
    var end := EndRequest(a, nodeId);
    var r := AppendAt(ByTime(a, nodeId), a.stopOffset, end);
    assert r == RequestsOf(a, nodeId);
    assert r[a.stopOffset][|r[a.stopOffset]| - 1] == end;
  }

  /**
   * Every breakpoint is emitted: at the absolute time of a breakpoint of
   * `item`, the first request creates or sets the synth with `item` at the
   * breakpoint's value.
   */
  lemma RequestsOfBreakpoints(a: Automation, nodeId: int, item: string, t: real)
    requires NoneFree(a.synthKwargs)
    requires item in a.events && ValueAt(a.events[item], t - a.startOffset).Some?
    ensures t in RequestsOf(a, nodeId)
    ensures var q := RequestsOf(a, nodeId)[t];
      && |q| >= 1
      && (q[0].StartSynth? || q[0].SetControls?)
      && item in q[0].settings
      && q[0].settings[item] == Num(ValueAt(a.events[item], t - a.startOffset).value)
  {
    BreakpointTimed(a, nodeId, item, t);
    FirstRequestAt(a, nodeId, t);
    var plain := Plain(EventAt(a, t));
    assert item in plain;
    if t == a.startOffset {
      assert FirstRequest(a, nodeId, t).settings == StartSettings(a, plain);
    }
  }

  /** A breakpoint's absolute time carries requests. */
  lemma BreakpointTimed(a: Automation, nodeId: int, item: string, t: real)
    requires item in a.events && ValueAt(a.events[item], t - a.startOffset).Some?
    ensures t in ByTime(a, nodeId)
  {
    var track := a.events[item];
    var i :| 0 <= i < |track| && track[i].0 == t - a.startOffset;
    assert t == a.startOffset + a.events[item][i].0;
    assert t in Times(a);
  }
}
