/**
 * The engine id mapping built before a render: buffers and buffer groups,
 * buses and bus groups (with the hardware buses first), and nodes.
 */
module IdMappings {
  import opened Wrappers
  import opened Offsets
  import opened Entities
  import opened Sorting

  // ------------------------------------------------------------------ buffers

  /** The members of each buffer group, in group order. */
  type BufferGroups = map<int, seq<Buffer>>

  /** Every grouped buffer's group is known and lists it, and every member names its group. */
  predicate GroupsConsistent(buffers: seq<Buffer>, groups: BufferGroups) {
    && (forall b :: b in buffers && b.group.Some? ==> b.group.value in groups && b in groups[b.group.value])
    && (forall g, c :: g in groups && c in groups[g] ==> c.group == Some(g))
  }

  /** The keys one buffer brings: itself, or its group and every member of the group. */
  function KeysOf(b: Buffer, groups: BufferGroups): set<BufferKey> {
    if b.group.None? then {BufferObj(b)}
    else
      var g := b.group.value;
      {BufferGroupObj(g)} + (if g in groups then MemberKeys(groups[g]) else {})
  }

  function MemberKeys(members: seq<Buffer>): set<BufferKey> {
    set c | c in members :: BufferObj(c)
  }

  /** The keys the buffer mapping holds for the listed buffers. */
  function BufferKeys(buffers: seq<Buffer>, groups: BufferGroups): set<BufferKey> {
    if buffers == [] then {}
    else BufferKeys(buffers[..|buffers| - 1], groups) + KeysOf(buffers[|buffers| - 1], groups)
  }

  /** The id a buffer key maps to: a buffer's own session id, a group's first member's. */
  function BufferIdOf(groups: BufferGroups, k: BufferKey): int {
    match k
    case BufferObj(b) => b.sessionId
    case BufferGroupObj(g) => if g in groups && groups[g] != [] then groups[g][0].sessionId else 0
  }

  /** The buffer mapping: every key the listed buffers bring, with its id. */
  function BufferIds(buffers: seq<Buffer>, groups: BufferGroups): map<BufferKey, int> {
    map k | k in BufferKeys(buffers, groups) :: BufferIdOf(groups, k)
  }

  /** A key is held exactly when some listed buffer brings it. */
  lemma {:induction false} BufferKeysMembership(buffers: seq<Buffer>, groups: BufferGroups, k: BufferKey)
    ensures k in BufferKeys(buffers, groups) <==> exists b :: b in buffers && k in KeysOf(b, groups)
  {
    if buffers != [] {
      var n := |buffers| - 1;
      BufferKeysMembership(buffers[..n], groups, k);
      assert forall b :: b in buffers <==> b in buffers[..n] || b == buffers[n];
    }
  }

  /** A buffer already keyed has brought all of its keys, so skipping it loses nothing. */
  lemma KeyedBufferCovered(buffers: seq<Buffer>, groups: BufferGroups, b: Buffer)
    requires forall g, c :: g in groups && c in groups[g] ==> c.group == Some(g)
    requires BufferObj(b) in BufferKeys(buffers, groups)
    ensures KeysOf(b, groups) <= BufferKeys(buffers, groups)
  {
    BufferKeysMembership(buffers, groups, BufferObj(b));
    var c :| c in buffers && BufferObj(b) in KeysOf(c, groups);
    if c.group.Some? {
      assert b in groups[c.group.value];
      assert KeysOf(b, groups) == KeysOf(c, groups);
    }
    forall k | k in KeysOf(b, groups) ensures k in BufferKeys(buffers, groups) {
      BufferKeysMembership(buffers, groups, k);
    }
  }

  /**
   * `_build_id_mapping_for_buffers`: every buffer maps to its session id; a
   * grouped buffer brings its group, mapped to the first member's id, and
   * every member of the group.
   */
  method BuildBufferMapping(buffers: seq<Buffer>, groups: BufferGroups) returns (m: map<BufferKey, int>)
    requires GroupsConsistent(buffers, groups)
    ensures m.Keys == BufferKeys(buffers, groups)
    ensures forall k :: k in m ==> m[k] == BufferIdOf(groups, k)
    ensures m == BufferIds(buffers, groups)
  {
    m := map[];
    var i := 0;
    while i < |buffers|
      invariant 0 <= i <= |buffers|
      invariant m.Keys == BufferKeys(buffers[..i], groups)
      invariant forall k :: k in m ==> m[k] == BufferIdOf(groups, k)
    {
      var b := buffers[i];
      assert buffers[..i + 1][..i] == buffers[..i];
      assert BufferKeys(buffers[..i + 1], groups) == BufferKeys(buffers[..i], groups) + KeysOf(b, groups);
      if BufferObj(b) in m {
        KeyedBufferCovered(buffers[..i], groups, b);
        i := i + 1;
        continue;
      }
      if b.group.None? {
        m := m[BufferObj(b) := b.sessionId];
      } else {
        m := MapGroup(m, groups, b.group.value);
      }
      i := i + 1;
    }
    assert buffers[..i] == buffers;
  }

  /** A buffer group mapped to its first member's id, then every member to its own. */
  method MapGroup(m0: map<BufferKey, int>, groups: BufferGroups, g: int) returns (m: map<BufferKey, int>)
    requires g in groups && groups[g] != []
    requires forall k :: k in m0 ==> m0[k] == BufferIdOf(groups, k)
    ensures m.Keys == m0.Keys + {BufferGroupObj(g)} + MemberKeys(groups[g])
    ensures forall k :: k in m ==> m[k] == BufferIdOf(groups, k)
  {
    var members := groups[g];
    m := m0[BufferGroupObj(g) := members[0].sessionId];
    var j := 0;
    while j < |members|
      invariant 0 <= j <= |members|
      invariant m.Keys == m0.Keys + {BufferGroupObj(g)} + MemberKeys(members[..j])
      invariant forall k :: k in m ==> m[k] == BufferIdOf(groups, k)
    {
      assert members[..j + 1] == members[..j] + [members[j]];
      assert MemberKeys(members[..j + 1]) == MemberKeys(members[..j]) + {BufferObj(members[j])};
      m := m[BufferObj(members[j]) := members[j].sessionId];
      j := j + 1;
    }
    assert members[..j] == members;
  }

  /** A mapped group shares its id with its first member, which is mapped too. */
  lemma GroupIdIsFirstMember(buffers: seq<Buffer>, groups: BufferGroups, m: map<BufferKey, int>, g: int)
    requires GroupsConsistent(buffers, groups)
    requires m.Keys == BufferKeys(buffers, groups)
    requires forall k :: k in m ==> m[k] == BufferIdOf(groups, k)
    requires BufferGroupObj(g) in m
    ensures g in groups && groups[g] != []
    ensures BufferObj(groups[g][0]) in m && m[BufferGroupObj(g)] == m[BufferObj(groups[g][0])]
  {
    BufferKeysMembership(buffers, groups, BufferGroupObj(g));
    var b :| b in buffers && BufferGroupObj(g) in KeysOf(b, groups);
    assert b.group == Some(g);
    BufferKeysMembership(buffers, groups, BufferObj(groups[g][0]));
    assert BufferObj(groups[g][0]) in KeysOf(b, groups);
  }

  // ------------------------------------------------------------------ buses

  /** The hardware bus keys: the output group and buses, then the input group and buses. */
  predicate HardwareKey(k: BusKey, inputCount: nat, outputCount: nat) {
    match k
    case AudioOutputGroup => outputCount > 0
    case AudioOutputBus(i) => i < outputCount
    case AudioInputGroup => inputCount > 0
    case AudioInputBus(i) => i < inputCount
    case _ => false
  }

  predicate IsHardware(k: BusKey) {
    !k.BusObj? && !k.BusGroupObj?
  }

  /** Outputs come first from 0; inputs follow them. */
  function HardwareId(k: BusKey, outputCount: nat): int {
    match k
    case AudioOutputBus(i) => i
    case AudioInputGroup => outputCount
    case AudioInputBus(i) => outputCount + i
    case _ => 0
  }

  function HardwareKeys(inputCount: nat, outputCount: nat): set<BusKey> {
    (if outputCount > 0 then {AudioOutputGroup} else {})
    + (set i | 0 <= i < outputCount :: AudioOutputBus(i))
    + (if inputCount > 0 then {AudioInputGroup} else {})
    + (set i | 0 <= i < inputCount :: AudioInputBus(i))
  }

  function HardwareIds(inputCount: nat, outputCount: nat): map<BusKey, int> {
    map k | k in HardwareKeys(inputCount, outputCount) :: HardwareId(k, outputCount)
  }

  lemma HardwareKeysExact(inputCount: nat, outputCount: nat, k: BusKey)
    ensures k in HardwareKeys(inputCount, outputCount) <==> HardwareKey(k, inputCount, outputCount)
  {
    if k.AudioOutputBus? && k.index < outputCount {
      assert k == AudioOutputBus(k.index as int);
    }
    if k.AudioInputBus? && k.index < inputCount {
      assert k == AudioInputBus(k.index as int);
    }
  }

  /** The bus mapping under construction and the two bump allocators' next free ids. */
  datatype BusAlloc = BusAlloc(ids: map<BusKey, int>, audioNext: int, controlNext: int)

  /** Every grouped bus's group size is known. */
  predicate GroupsSized(buses: seq<Bus>, sizes: map<int, nat>) {
    forall b :: b in buses && b.group.Some? ==> b.group.value in sizes
  }

  /**
   * One session bus: skipped when it or its group is mapped already; otherwise
   * a block as long as its group (one id when ungrouped) comes from its rate's
   * allocator. The group maps to the block's start, and the bus itself to the
   * block's last id.
   */
  function AllocateOne(a: BusAlloc, b: Bus, sizes: map<int, nat>): BusAlloc
    requires b.group.Some? ==> b.group.value in sizes
  {
    if BusObj(b) in a.ids || (b.group.Some? && BusGroupObj(b.group.value) in a.ids) then a
    else
      var block := if b.rate == AudioRate then a.audioNext else a.controlNext;
      var len := if b.group.None? then 1 else sizes[b.group.value];
      var ids :=
        if b.group.None? then a.ids[BusObj(b) := block]
        else
          var withGroup := a.ids[BusGroupObj(b.group.value) := block];
          if len > 0 then withGroup[BusObj(b) := block + len - 1] else withGroup;
      if b.rate == AudioRate then BusAlloc(ids, a.audioNext + len, a.controlNext)
      else BusAlloc(ids, a.audioNext, a.controlNext + len)
  }

  /** The hardware buses, then the session buses one at a time; private audio ids start after the hardware. */
  function Allocated(buses: seq<Bus>, sizes: map<int, nat>, inputCount: nat, outputCount: nat): BusAlloc
    requires GroupsSized(buses, sizes)
  {
    if buses == [] then BusAlloc(HardwareIds(inputCount, outputCount), inputCount + outputCount, 0)
    else
      var n := |buses| - 1;
      assert forall b :: b in buses[..n] ==> b in buses;
      AllocateOne(Allocated(buses[..n], sizes, inputCount, outputCount), buses[n], sizes)
  }

  /** The hardware part of the bus mapping: the output group and buses, then the input group and buses. */
  method HardwareMapping(inputCount: nat, outputCount: nat) returns (m: map<BusKey, int>)
    ensures m == HardwareIds(inputCount, outputCount)
  {
    m := MapOutputs(outputCount);
    m := MapInputs(m, inputCount, outputCount);
    forall k ensures k in m <==> k in HardwareKeys(inputCount, outputCount) {
      HardwareKeysExact(inputCount, outputCount, k);
    }
  }

  method MapOutputs(outputCount: nat) returns (m: map<BusKey, int>)
    ensures forall k :: k in m <==> HardwareKey(k, 0, outputCount)
    ensures forall k :: k in m ==> m[k] == HardwareId(k, outputCount)
  {
    m := map[];
    if outputCount > 0 {
      m := m[AudioOutputGroup := 0];
      var i := 0;
      while i < outputCount
        invariant 0 <= i <= outputCount
        invariant forall k :: k in m <==> k == AudioOutputGroup || (k.AudioOutputBus? && k.index < i)
        invariant forall k :: k in m ==> m[k] == HardwareId(k, outputCount)
      {
        m := m[AudioOutputBus(i) := i];
        i := i + 1;
      }
    }
  }

  method MapInputs(m0: map<BusKey, int>, inputCount: nat, outputCount: nat) returns (m: map<BusKey, int>)
    requires forall k :: k in m0 <==> HardwareKey(k, 0, outputCount)
    requires forall k :: k in m0 ==> m0[k] == HardwareId(k, outputCount)
    ensures forall k :: k in m <==> HardwareKey(k, inputCount, outputCount)
    ensures forall k :: k in m ==> m[k] == HardwareId(k, outputCount)
  {
    m := m0;
    if inputCount > 0 {
      m := m[AudioInputGroup := outputCount];
      var i := 0;
      while i < inputCount
        invariant 0 <= i <= inputCount
        invariant forall k :: k in m <==> HardwareKey(k, 0, outputCount) || k == AudioInputGroup || (k.AudioInputBus? && k.index < i)
        invariant forall k :: k in m ==> m[k] == HardwareId(k, outputCount)
      {
        m := m[AudioInputBus(i) := outputCount + i];
        i := i + 1;
      }
    }
  }

  lemma AllocatedStep(buses: seq<Bus>, i: nat, sizes: map<int, nat>, inputCount: nat, outputCount: nat)
    requires GroupsSized(buses, sizes) && i < |buses|
    ensures GroupsSized(buses[..i], sizes) && GroupsSized(buses[..i + 1], sizes)
    ensures Allocated(buses[..i + 1], sizes, inputCount, outputCount)
         == AllocateOne(Allocated(buses[..i], sizes, inputCount, outputCount), buses[i], sizes)
  {
    assert buses[..i + 1][..i] == buses[..i];
  }

  /** `_build_id_mapping_for_buses`, with both block allocators as bump allocators. */
  method BuildBusMapping(buses: seq<Bus>, sizes: map<int, nat>, inputCount: nat, outputCount: nat)
    returns (m: map<BusKey, int>)
    requires GroupsSized(buses, sizes)
    ensures m == Allocated(buses, sizes, inputCount, outputCount).ids
  {
    m := HardwareMapping(inputCount, outputCount);
    var audioNext := inputCount + outputCount;
    var controlNext := 0;
    var i := 0;
    while i < |buses|
      invariant 0 <= i <= |buses|
      invariant BusAlloc(m, audioNext, controlNext) == Allocated(buses[..i], sizes, inputCount, outputCount)
    {
      var b := buses[i];
      AllocatedStep(buses, i, sizes, inputCount, outputCount);
      if BusObj(b) in m || (b.group.Some? && BusGroupObj(b.group.value) in m) {
        i := i + 1;
        continue;
      }
      var block := if b.rate == AudioRate then audioNext else controlNext;
      var len := 1;
      if b.group.None? {
        m := m[BusObj(b) := block];
      } else {
        len := sizes[b.group.value];
        m := m[BusGroupObj(b.group.value) := block];
        m := MapBlock(m, b, block, len);
      }
      if b.rate == AudioRate {
        audioNext := audioNext + len;
      } else {
        controlNext := controlNext + len;
      }
      i := i + 1;
    }
    assert buses[..i] == buses;
  }

  /** Maps the bus to each id of its block in turn, so the last id is the one that stays. */
  method MapBlock(m0: map<BusKey, int>, b: Bus, block: int, len: nat) returns (m: map<BusKey, int>)
    ensures m == if len > 0 then m0[BusObj(b) := block + len - 1] else m0
  {
    m := m0;
    var busId := block;
    while busId < block + len
      invariant block <= busId <= block + len
      invariant m == if busId == block then m0 else m0[BusObj(b) := busId - 1]
    {
      m := m[BusObj(b) := busId];
      busId := busId + 1;
    }
  }

  /** The session buses never displace a hardware bus: the hardware entries are exactly the outputs and inputs. */
  lemma {:induction false} AllocatedHardware(buses: seq<Bus>, sizes: map<int, nat>, inputCount: nat, outputCount: nat, k: BusKey)
    requires GroupsSized(buses, sizes)
    requires IsHardware(k)
    ensures var ids := Allocated(buses, sizes, inputCount, outputCount).ids;
      && (k in ids <==> HardwareKey(k, inputCount, outputCount))
      && (k in ids ==> ids[k] == HardwareId(k, outputCount))
  {
    if buses == [] {
      HardwareKeysExact(inputCount, outputCount, k);
    } else {
      var n := |buses| - 1;
      assert forall b :: b in buses[..n] ==> b in buses;
      AllocatedHardware(buses[..n], sizes, inputCount, outputCount, k);
    }
  }

  /** Every session bus id comes from its rate's range, below that allocator's next id; private audio ids follow the hardware. */
  ghost predicate InRange(a: BusAlloc, inputCount: nat, outputCount: nat) {
    && inputCount + outputCount <= a.audioNext && 0 <= a.controlNext
    && (forall c :: BusObj(c) in a.ids && c.rate == AudioRate ==>
          inputCount + outputCount <= a.ids[BusObj(c)] < a.audioNext)
    && (forall c :: BusObj(c) in a.ids && c.rate == ControlRate ==> 0 <= a.ids[BusObj(c)] < a.controlNext)
  }

  /** Every ungrouped listed bus is mapped, and so is every group of a listed bus. */
  ghost predicate Covered(a: BusAlloc, buses: seq<Bus>) {
    && (forall c :: c in buses && c.group.None? ==> BusObj(c) in a.ids)
    && (forall c :: c in buses && c.group.Some? ==> BusGroupObj(c.group.value) in a.ids)
  }

  /** A mapped grouped bus sits on the last id of its group's block. */
  ghost predicate OnBlockEnd(a: BusAlloc, sizes: map<int, nat>) {
    forall c :: BusObj(c) in a.ids && c.group.Some? ==>
      && c.group.value in sizes
      && BusGroupObj(c.group.value) in a.ids
      && a.ids[BusObj(c)] == a.ids[BusGroupObj(c.group.value)] + sizes[c.group.value] - 1
  }

  /** Two mapped buses of one rate never share an id. */
  ghost predicate Injective(a: BusAlloc) {
    forall c1, c2 :: BusObj(c1) in a.ids && BusObj(c2) in a.ids && c1 != c2 && c1.rate == c2.rate ==>
      a.ids[BusObj(c1)] != a.ids[BusObj(c2)]
  }

  /** Of each group at most one bus is mapped. */
  ghost predicate OnePerGroup(a: BusAlloc) {
    forall c1, c2 :: BusObj(c1) in a.ids && BusObj(c2) in a.ids && c1.group.Some? && c1.group == c2.group ==> c1 == c2
  }

  ghost predicate AllocOk(a: BusAlloc, buses: seq<Bus>, sizes: map<int, nat>, inputCount: nat, outputCount: nat) {
    InRange(a, inputCount, outputCount) && Covered(a, buses) && OnBlockEnd(a, sizes) && Injective(a) && OnePerGroup(a)
  }

  /** Whether the bus is given a block (it and its group are unmapped). */
  predicate Fresh(a: BusAlloc, b: Bus) {
    BusObj(b) !in a.ids && !(b.group.Some? && BusGroupObj(b.group.value) in a.ids)
  }

  lemma AllocateInRange(a: BusAlloc, b: Bus, sizes: map<int, nat>, inputCount: nat, outputCount: nat)
    requires b.group.Some? ==> b.group.value in sizes
    requires InRange(a, inputCount, outputCount)
    ensures InRange(AllocateOne(a, b, sizes), inputCount, outputCount)
  {
    var a' := AllocateOne(a, b, sizes);
    if Fresh(a, b) {
      forall c | BusObj(c) in a'.ids
        ensures c.rate == AudioRate ==> inputCount + outputCount <= a'.ids[BusObj(c)] < a'.audioNext
        ensures c.rate == ControlRate ==> 0 <= a'.ids[BusObj(c)] < a'.controlNext
      {
        if c != b {
          assert BusObj(c) in a.ids && a'.ids[BusObj(c)] == a.ids[BusObj(c)];
        }
      }
    }
  }

  lemma AllocateCovered(a: BusAlloc, buses: seq<Bus>, b: Bus, sizes: map<int, nat>)
    requires b.group.Some? ==> b.group.value in sizes
    requires Covered(a, buses) && OnBlockEnd(a, sizes)
    ensures Covered(AllocateOne(a, b, sizes), buses + [b])
  {
    var a' := AllocateOne(a, b, sizes);
    assert a.ids.Keys <= a'.ids.Keys;
    assert forall c :: c in buses + [b] <==> c in buses || c == b;
  }

  lemma AllocateOnBlockEnd(a: BusAlloc, b: Bus, sizes: map<int, nat>)
    requires b.group.Some? ==> b.group.value in sizes
    requires OnBlockEnd(a, sizes)
    ensures OnBlockEnd(AllocateOne(a, b, sizes), sizes)
  {
    var a' := AllocateOne(a, b, sizes);
    if Fresh(a, b) && b.group.Some? {
      forall c | BusObj(c) in a'.ids && c.group.Some?
        ensures BusGroupObj(c.group.value) in a'.ids
        ensures a'.ids[BusObj(c)] == a'.ids[BusGroupObj(c.group.value)] + sizes[c.group.value] - 1
      {
        if c != b {
          assert BusObj(c) in a.ids;
          assert c.group != b.group;
        }
      }
    }
  }

  lemma AllocateInjective(a: BusAlloc, b: Bus, sizes: map<int, nat>, inputCount: nat, outputCount: nat)
    requires b.group.Some? ==> b.group.value in sizes
    requires InRange(a, inputCount, outputCount) && Injective(a)
    ensures Injective(AllocateOne(a, b, sizes))
  {
    var a' := AllocateOne(a, b, sizes);
    if Fresh(a, b) {
      var block := if b.rate == AudioRate then a.audioNext else a.controlNext;
      assert BusObj(b) in a'.ids ==> a'.ids[BusObj(b)] >= block;
      forall c1, c2 | BusObj(c1) in a'.ids && BusObj(c2) in a'.ids && c1 != c2 && c1.rate == c2.rate
        ensures a'.ids[BusObj(c1)] != a'.ids[BusObj(c2)]
      {
        if c1 == b {
          assert BusObj(c2) in a.ids && a'.ids[BusObj(c2)] < block;
        } else if c2 == b {
          assert BusObj(c1) in a.ids && a'.ids[BusObj(c1)] < block;
        } else {
          assert BusObj(c1) in a.ids && BusObj(c2) in a.ids;
        }
      }
    }
  }

  lemma AllocateOnePerGroup(a: BusAlloc, b: Bus, sizes: map<int, nat>)
    requires b.group.Some? ==> b.group.value in sizes
    requires OnBlockEnd(a, sizes) && OnePerGroup(a)
    ensures OnePerGroup(AllocateOne(a, b, sizes))
  {
    var a' := AllocateOne(a, b, sizes);
    if Fresh(a, b) {
      forall c1, c2 | BusObj(c1) in a'.ids && BusObj(c2) in a'.ids && c1.group.Some? && c1.group == c2.group
        ensures c1 == c2
      {
        assert c1 != b ==> BusObj(c1) in a.ids;
        assert c2 != b ==> BusObj(c2) in a.ids;
      }
    }
  }

  lemma {:induction false} AllocatedKeeps(buses: seq<Bus>, sizes: map<int, nat>, inputCount: nat, outputCount: nat)
    requires GroupsSized(buses, sizes)
    ensures AllocOk(Allocated(buses, sizes, inputCount, outputCount), buses, sizes, inputCount, outputCount)
  {
    if buses != [] {
      var n := |buses| - 1;
      assert forall b :: b in buses[..n] ==> b in buses;
      AllocatedKeeps(buses[..n], sizes, inputCount, outputCount);
      var a := Allocated(buses[..n], sizes, inputCount, outputCount);
      var b := buses[n];
      assert buses == buses[..n] + [b];
      AllocateInRange(a, b, sizes, inputCount, outputCount);
      AllocateCovered(a, buses[..n], b, sizes);
      AllocateOnBlockEnd(a, b, sizes);
      AllocateInjective(a, b, sizes, inputCount, outputCount);
      AllocateOnePerGroup(a, b, sizes);
    }
  }

  /**
   * The bus mapping's shape. Ungrouped session buses of one rate get distinct
   * ids, private audio ids lie above the hardware buses, every group of a
   * listed bus is mapped, and of each group only one bus is mapped: its
   * group's block start plus the group size minus one.
   */
  lemma BusMappingShape(buses: seq<Bus>, sizes: map<int, nat>, inputCount: nat, outputCount: nat)
    requires GroupsSized(buses, sizes)
    ensures var ids := Allocated(buses, sizes, inputCount, outputCount).ids;
      && (forall b :: b in buses && b.group.None? ==> BusObj(b) in ids)
      && (forall b :: BusObj(b) in ids && b.rate == AudioRate ==> ids[BusObj(b)] >= inputCount + outputCount)
      && (forall b :: BusObj(b) in ids && b.rate == ControlRate ==> ids[BusObj(b)] >= 0)
      && (forall b1, b2 :: BusObj(b1) in ids && BusObj(b2) in ids && b1 != b2 && b1.rate == b2.rate ==>
            ids[BusObj(b1)] != ids[BusObj(b2)])
      && (forall b :: b in buses && b.group.Some? ==> BusGroupObj(b.group.value) in ids)
      && (forall b :: BusObj(b) in ids && b.group.Some? ==>
            && b.group.value in sizes && BusGroupObj(b.group.value) in ids
            && ids[BusObj(b)] == ids[BusGroupObj(b.group.value)] + sizes[b.group.value] - 1)
      && (forall b1, b2 :: BusObj(b1) in ids && BusObj(b2) in ids && b1.group.Some? && b1.group == b2.group ==> b1 == b2)
  {
    AllocatedKeeps(buses, sizes, inputCount, outputCount);
  }

  // ------------------------------------------------------------------ nodes

  /** The nodes that start at some listed offset. */
  function StartedNodes(timeline: seq<Offset>, states: map<Offset, State>): set<Node> {
    set o, n | o in timeline && o in states && n in states[o].startNodes :: n
  }

  lemma StartedNodesSnoc(timeline: seq<Offset>, o: Offset, states: map<Offset, State>)
    requires o in states
    ensures StartedNodes(timeline + [o], states) == StartedNodes(timeline, states) + set n | n in states[o].startNodes
  {
    assert forall p :: p in timeline + [o] <==> p in timeline || p == o;
  }

  /** The node mapping: the root and every started node, each to its own session id (the root's is 0). */
  function NodeIds(timeline: seq<Offset>, states: map<Offset, State>): map<Node, int> {
    map n | n in {Root} + StartedNodes(timeline, states) :: n.sessionId
  }
}
