/**
 * The objects a non-realtime session places on its timeline, the per-offset
 * snapshot (State), and the commands the compiler emits for the synthesis engine.
 */
module Entities {
  import opened Wrappers
  import opened Offsets

  // ---------------------------------------------------------------- synth definitions

  datatype ParameterRate = Scalar | Trigger | Control | Audio

  datatype Parameter = Parameter(rate: ParameterRate, default: real)

  /**
   * A compiled synth definition, consumed as an opaque value. `digest` is the
   * content hash whose fixed-width hexadecimal spelling is the definition's
   * anonymous name, so ordering by anonymous name is ordering by digest.
   */
  datatype SynthDef = SynthDef(digest: nat, parameters: map<string, Parameter>)

  // ---------------------------------------------------------------- buses and buffers

  datatype CalculationRate = AudioRate | ControlRate

  /** A bus; `group` names its bus group, `events` its control-value automation. */
  datatype Bus = Bus(sessionId: int, rate: CalculationRate, group: Option<int>, events: seq<(Offset, real)>)

  /** The keys a bus id mapping can hold: session buses, bus groups and the hardware buses. */
  datatype BusKey =
    | BusObj(bus: Bus)
    | BusGroupObj(group: int)
    | AudioOutputGroup
    | AudioInputGroup
    | AudioOutputBus(index: nat)
    | AudioInputBus(index: nat)

  /** A buffer's channel geometry: unset, a channel count, or an explicit tuple of channel indices. */
  datatype ChannelCount = Unspecified | Count(n: int) | Indices(indices: seq<int>)

  datatype Buffer = Buffer(
    sessionId: int,
    group: Option<int>,
    channelCount: ChannelCount,
    frameCount: Option<int>,
    filePath: Option<string>,
    startingFrame: Option<int>)

  datatype BufferKey = BufferObj(buffer: Buffer) | BufferGroupObj(group: int)

  // ---------------------------------------------------------------- nodes

  /** A value a node parameter can be set to. `Unmapped` is Python's None: unmap from any bus. */
  datatype SettingValue =
    | Num(x: real)
    | BusMap(bus: BusKey, rate: CalculationRate)
    | Unmapped
    | BufferRef(buffer: BufferKey)

  type Settings = map<string, SettingValue>

  datatype AddAction = AddToHead | AddToTail | AddBefore | AddAfter | Replace

  datatype NodeKind =
    | RootKind
    | GroupKind
    | SynthKind(synthdef: SynthDef, synthKwargs: Settings)

  /** Where a node's lifetime ends: at a time, or never (an open-ended node). */
  datatype Stop = Until(t: real) | Forever

  /** A node with its lifetime; nodes start at a finite, non-negative time. */
  datatype Node = Node(sessionId: int, kind: NodeKind, start: real, stop: Stop)

  /** The session's root group; its lifetime is never consulted. */
  const Root := Node(0, RootKind, 0.0, Forever)

  predicate IsSynth(n: Node) {
    n.kind.SynthKind?
  }

  /** The node's definition declares `name` (only synths have definitions). */
  predicate Declares(n: Node, name: string) {
    n.kind.SynthKind? && name in n.kind.synthdef.parameters
  }

  /** The parameter whose closing releases a synth. */
  const GateParam: string := "gate"

  /** The parameter through which a synth learns its length. */
  const DurationParam: string := "duration"

  /** Python's truthiness of `node.duration`: zero-length nodes have none. */
  predicate HasDuration(n: Node) {
    n.stop != Until(n.start)
  }

  /** A recorded tree move: place `source` relative to `target`. */
  datatype Transition = Transition(source: Node, action: AddAction, target: Node)

  /** A resolved node-tree shape: parent to children (None for a childless node) and child to parent. */
  datatype Tree = Tree(children: map<Node, Option<seq<Node>>>, parents: map<Node, Option<Node>>)

  /**
   * The snapshot at one offset. `tree` is None while the state is sparse (not
   * yet resolved). Python sets of nodes and buffers are duplicate-free sequences;
   * every consumer sorts them.
   */
  datatype State = State(
    tree: Option<Tree>,
    transitions: seq<Transition>,
    startNodes: seq<Node>,
    stopNodes: seq<Node>,
    overlapNodes: seq<Node>,
    startBuffers: seq<Buffer>,
    stopBuffers: seq<Buffer>,
    overlapBuffers: seq<Buffer>)

  const EmptyState := State(None, [], [], [], [], [], [], [])

  // ---------------------------------------------------------------- requests

  /** The buffer commands that a buffer schedules at an offset. */
  datatype BufferOpKind =
    | ReadOp | ReadChannelOp | ZeroOp | FillOp | GenerateOp | SetOp
    | SetContiguousOp | NormalizeOp | CopyOp | WriteOp

  /** Reads and writes open the buffer's sound file; they leave it open when asked to. */
  predicate OpensFile(k: BufferOpKind) {
    k == ReadOp || k == ReadChannelOp || k == WriteOp
  }

  /** A scheduled buffer command; its other arguments are carried through unchanged and not modelled. */
  datatype BufferOp = BufferOp(kind: BufferOpKind, bufferId: int, leaveOpen: bool)

  /** An argument of a node-set request: a number, or the id a buffer was mapped to. */
  datatype Arg = ArgNum(x: real) | ArgId(id: int)

  datatype Request =
    | SynthDefReceive(synthdef: SynthDef)
    | BufferAllocate(bufferId: int, frames: int, channels: ChannelCount)
    | BufferAllocateRead(bufferId: int, frameCount: Option<int>, filePath: string, startingFrame: Option<int>)
    | BufferAllocateReadChannel(bufferId: int, frameCount: Option<int>, filePath: string,
                                startingFrame: Option<int>, channelIndices: seq<int>)
    | BufferCommand(op: BufferOp)
    | BufferClose(bufferId: int)
    | BufferFree(bufferId: int)
    | SynthNew(nodeId: int, synthdef: SynthDef, addAction: AddAction, targetId: int, settings: Settings)
    | GroupNew(nodeId: int, addAction: AddAction, targetId: int)
    | NodeMove(nodeId: int, addAction: AddAction, targetId: int)
    | ControlBusSet(pairs: seq<(int, real)>)
    | NodeSet(nodeId: int, args: map<string, Arg>)
    | NodeMapToAudioBus(nodeId: int, buses: map<string, int>)
    | NodeMapToControlBus(nodeId: int, buses: map<string, int>)
    | NodeFree(nodeIds: seq<int>)
    | Nothing

  /** One timestamped group of requests. */
  datatype Bundle = Bundle(timestamp: real, contents: seq<Request>)

  /** The session-wide translation of objects to engine ids. */
  datatype IdMapping = IdMapping(nodes: map<Node, int>, buffers: map<BufferKey, int>, buses: map<BusKey, int>)
}
