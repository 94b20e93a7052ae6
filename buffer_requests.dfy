/**
 * The buffer part of the per-offset request compiler: allocation requests for
 * the buffers that start, the scheduled buffer commands, and free requests for
 * the buffers that stop, together with the render-wide record of which
 * buffers currently hold an open sound file (engine buffer id -> open?).
 */
module BufferRequests {
  import opened Wrappers
  import opened Offsets
  import opened Entities
  import opened Sorting

  type OpenStates = map<int, bool>

  /** Python's `tuple(range(n))`. */
  function Range(n: int): (r: seq<int>)
    ensures |r| == if n <= 0 then 0 else n
    ensures forall i :: 0 <= i < |r| ==> r[i] == i
  {
    if n <= 0 then [] else Range(n - 1) + [n - 1]
  }

  /** `frame_count or 1`: an unset or zero frame count becomes one frame. */
  function FramesOrOne(frames: Option<int>): (r: int)
    ensures r != 0
    ensures frames.Some? && frames.value != 0 ==> r == frames.value
  {
    if frames.None? || frames.value == 0 then 1 else frames.value
  }

  /** `channel_count or 1`: an unset, zero or empty channel count becomes one channel. */
  function ChannelsOrOne(c: ChannelCount): (r: ChannelCount)
    ensures r != Unspecified && r != Count(0) && r != Indices([])
    ensures c != Unspecified && c != Count(0) && c != Indices([]) ==> r == c
  {
    if c == Unspecified || c == Count(0) || c == Indices([]) then Count(1) else c
  }

  /**
   * The request that allocates one buffer: a plain allocation when it has no
   * sound file; otherwise a read, restricted to channels when a channel count
   * (meaning channels 0..n-1) or explicit channel indices are given.
   */
  function AllocateRequest(b: Buffer, id: int): (r: Request)
    ensures r.BufferAllocate? || r.BufferAllocateRead? || r.BufferAllocateReadChannel?
    ensures r.bufferId == id
    ensures r.BufferAllocate? <==> b.filePath.None?
    ensures r.BufferAllocate? ==> r.frames != 0 && r.channels != Unspecified
    ensures r.BufferAllocateReadChannel? <==> b.filePath.Some? && !b.channelCount.Unspecified?
    ensures !r.BufferAllocate? ==> r.filePath == b.filePath.value && r.frameCount == b.frameCount
  {
    match b.filePath
    case Some(path) =>
      (match b.channelCount
       case Count(n) => BufferAllocateReadChannel(id, b.frameCount, path, b.startingFrame, Range(n))
       case Indices(ix) => BufferAllocateReadChannel(id, b.frameCount, path, b.startingFrame, ix)
       case Unspecified => BufferAllocateRead(id, b.frameCount, path, b.startingFrame))
    case None =>
      BufferAllocate(id, FramesOrOne(b.frameCount), ChannelsOrOne(b.channelCount))
  }

  /** One allocation per buffer, in the given order. */
  function AllocateRequests(bs: seq<Buffer>, ids: map<BufferKey, int>): (r: seq<Request>)
    requires AllMapped(bs, ids)
    ensures |r| == |bs|
    ensures forall i :: 0 <= i < |r| ==> r[i] == AllocateRequest(bs[i], ids[BufferObj(bs[i])])
  {
    seq(|bs|, i requires 0 <= i < |bs| => AllocateRequest(bs[i], ids[BufferObj(bs[i])]))
  }

  /** Buffers are handled in ascending session-id order. */
  function BySessionId(bs: seq<Buffer>): (r: seq<Buffer>)
    ensures multiset(r) == multiset(bs) && |r| == |bs|
    ensures forall i, j :: 0 <= i < j < |r| ==> r[i].sessionId <= r[j].sessionId
  {
    SortBy(bs, (b: Buffer) => b.sessionId)
  }

  predicate AllMapped(bs: seq<Buffer>, ids: map<BufferKey, int>) {
    forall b :: b in bs ==> BufferObj(b) in ids
  }

  /** The engine ids of the given buffers. */
  function IdsOf(bs: seq<Buffer>, ids: map<BufferKey, int>): set<int>
    requires AllMapped(bs, ids)
  {
    set b | b in bs :: ids[BufferObj(b)]
  }

  lemma IdsOfPermutation(a: seq<Buffer>, b: seq<Buffer>, ids: map<BufferKey, int>)
    requires multiset(a) == multiset(b) && AllMapped(a, ids)
    ensures AllMapped(b, ids) && IdsOf(a, ids) == IdsOf(b, ids)
  {
    assert forall x :: x in a <==> x in b by {
      forall x ensures x in a <==> x in b {
        assert x in a <==> x in multiset(a);
        assert x in b <==> x in multiset(b);
      }
    }
  }

  lemma IdsOfSnoc(bs: seq<Buffer>, b: Buffer, ids: map<BufferKey, int>)
    requires AllMapped(bs, ids) && BufferObj(b) in ids
    ensures AllMapped(bs + [b], ids) && IdsOf(bs + [b], ids) == IdsOf(bs, ids) + {ids[BufferObj(b)]}
  {
    assert forall x :: x in bs + [b] <==> x in bs || x == b;
  }

  /** The open states recording the given buffers as closed. */
  function Closed(bufferIds: set<int>): (r: OpenStates)
    ensures r.Keys == bufferIds && forall k :: k in r ==> !r[k]
  {
    map k | k in bufferIds :: false
  }

  lemma ClosedSnoc(open: OpenStates, closed: set<int>, id: int)
    ensures (open + Closed(closed))[id := false] == open + Closed(closed + {id})
  {
  }

  lemma AllocateRequestsSnoc(bs: seq<Buffer>, b: Buffer, ids: map<BufferKey, int>)
    requires AllMapped(bs, ids) && BufferObj(b) in ids
    ensures AllMapped(bs + [b], ids)
    ensures AllocateRequests(bs + [b], ids) == AllocateRequests(bs, ids) + [AllocateRequest(b, ids[BufferObj(b)])]
  {
    assert forall x :: x in bs + [b] <==> x in bs || x == b;
    assert forall i :: 0 <= i < |bs| ==> (bs + [b])[i] == bs[i];
  }

  /**
   * `_collect_buffer_allocate_requests`: one allocation per starting buffer in
   * session-id order, and every allocated buffer is recorded as closed. A
   * buffer without an engine id is an unresolved reference.
   */
  method CollectBufferAllocateRequests(open: OpenStates, ids: map<BufferKey, int>, startBuffers: seq<Buffer>)
    returns (r: Result<seq<Request>>, open': OpenStates)
    ensures r.Ok? <==> AllMapped(startBuffers, ids)
    ensures r.Ok? ==>
      var sorted := BySessionId(startBuffers);
      && AllMapped(sorted, ids)
      && r.value == AllocateRequests(sorted, ids)
      && open' == open + Closed(IdsOf(sorted, ids))
  {
    var sorted := BySessionId(startBuffers);
    r, open' := AllocateInOrder(open, ids, sorted);
    if r.Ok? {
      IdsOfPermutation(sorted, startBuffers, ids);
    } else {
      assert !AllMapped(sorted, ids);
      var b :| b in sorted && BufferObj(b) !in ids;
      assert b in multiset(startBuffers);
    }
  }

  /** The allocation loop over buffers already in session-id order. */
  method AllocateInOrder(open: OpenStates, ids: map<BufferKey, int>, sorted: seq<Buffer>)
    returns (r: Result<seq<Request>>, open': OpenStates)
    ensures r.Ok? <==> AllMapped(sorted, ids)
    ensures r.Ok? ==> r.value == AllocateRequests(sorted, ids) && open' == open + Closed(IdsOf(sorted, ids))
  {
    var reqs: seq<Request> := [];
    open' := open;
    var i := 0;
    while i < |sorted|
      invariant 0 <= i <= |sorted|
      invariant AllMapped(sorted[..i], ids)
      invariant reqs == AllocateRequests(sorted[..i], ids)
      invariant open' == open + Closed(IdsOf(sorted[..i], ids))
    {
      var b := sorted[i];
      if BufferObj(b) !in ids {
        return Err(UnresolvedReference), open';
      }
      var id := ids[BufferObj(b)];
      assert sorted[..i + 1] == sorted[..i] + [b];
      IdsOfSnoc(sorted[..i], b, ids);
      ClosedSnoc(open, IdsOf(sorted[..i], ids), id);
      AllocateRequestsSnoc(sorted[..i], b, ids);
      reqs := reqs + [AllocateRequest(b, id)];
      open' := open'[id := false];
      i := i + 1;
    }
    assert sorted[..i] == sorted;
    r := Ok(reqs);
  }

  // ------------------------------------------------------------------ freeing

  /** Freeing one buffer: a close request first when its file is open, then the free. */
  function CloseThenFree(id: int, isOpen: bool): (r: seq<Request>)
    ensures |r| >= 1 && r[|r| - 1] == BufferFree(id)
    ensures |r| == 2 <==> isOpen
    ensures isOpen ==> r[0] == BufferClose(id)
  {
    (if isOpen then [BufferClose(id)] else []) + [BufferFree(id)]
  }

  /**
   * Freeing is defined when every buffer has an engine id, the ids are pairwise
   * distinct (a second free of an id finds no open state) and each id has an
   * open state recorded.
   */
  predicate FreeDefined(bs: seq<Buffer>, ids: map<BufferKey, int>, open: OpenStates) {
    && AllMapped(bs, ids)
    && (forall i, j :: 0 <= i < j < |bs| ==> ids[BufferObj(bs[i])] != ids[BufferObj(bs[j])])
    && (forall b :: b in bs ==> ids[BufferObj(b)] in open)
  }

  /** The requests that free the given buffers, each consulting the open state recorded before freeing. */
  function FreeRequests(bs: seq<Buffer>, ids: map<BufferKey, int>, open: OpenStates): seq<Request>
    requires FreeDefined(bs, ids, open)
  {
    if bs == [] then []
    else
      var n := |bs| - 1;
      var id := ids[BufferObj(bs[n])];
      FreeRequests(bs[..n], ids, open) + CloseThenFree(id, open[id])
  }

  /**
   * `_collect_buffer_free_requests`: in session-id order each stopping buffer
   * is closed if its file is open and then freed, and its open state is removed.
   */
  method CollectBufferFreeRequests(open: OpenStates, ids: map<BufferKey, int>, stopBuffers: seq<Buffer>)
    returns (r: Result<seq<Request>>, open': OpenStates)
    ensures r.Ok? <==> FreeDefined(BySessionId(stopBuffers), ids, open)
    ensures r.Ok? ==>
      && r.value == FreeRequests(BySessionId(stopBuffers), ids, open)
      && open' == open - IdsOf(BySessionId(stopBuffers), ids)
  {
    r, open' := FreeInOrder(open, ids, BySessionId(stopBuffers));
  }

  /** The freeing loop over buffers already in session-id order. */
  method FreeInOrder(open: OpenStates, ids: map<BufferKey, int>, sorted: seq<Buffer>)
    returns (r: Result<seq<Request>>, open': OpenStates)
    ensures r.Ok? <==> FreeDefined(sorted, ids, open)
    ensures r.Ok? ==> r.value == FreeRequests(sorted, ids, open) && open' == open - IdsOf(sorted, ids)
  {
    var reqs: seq<Request> := [];
    open' := open;
    var i := 0;
    while i < |sorted|
      invariant 0 <= i <= |sorted|
      invariant FreeDefined(sorted[..i], ids, open)
      invariant reqs == FreeRequests(sorted[..i], ids, open)
      invariant open' == open - IdsOf(sorted[..i], ids)
    {
      var b := sorted[i];
      if BufferObj(b) !in ids {
        FreeUndefinedUnmapped(sorted, i, ids, open);
        return Err(UnresolvedReference), open';
      }
      var id := ids[BufferObj(b)];
      if id !in open' {
        FreeUndefinedAt(sorted, i, ids, open);
        return Err(UnresolvedReference), open';
      }
      FreeStep(sorted, i, ids, open);
      reqs := reqs + CloseThenFree(id, open'[id]);
      open' := open' - {id};
      i := i + 1;
    }
    assert sorted[..i] == sorted;
    r := Ok(reqs);
  }

  lemma FreeUndefinedUnmapped(bs: seq<Buffer>, i: nat, ids: map<BufferKey, int>, open: OpenStates)
    requires i < |bs| && BufferObj(bs[i]) !in ids
    ensures !FreeDefined(bs, ids, open)
  {
    assert bs[i] in bs;
  }

  /** A buffer whose id was already freed in this pass, or never had an open state, makes freeing undefined. */
  lemma FreeUndefinedAt(bs: seq<Buffer>, i: nat, ids: map<BufferKey, int>, open: OpenStates)
    requires i < |bs| && FreeDefined(bs[..i], ids, open) && BufferObj(bs[i]) in ids
    requires ids[BufferObj(bs[i])] !in open - IdsOf(bs[..i], ids)
    ensures !FreeDefined(bs, ids, open)
  {
    var id := ids[BufferObj(bs[i])];
    if id in IdsOf(bs[..i], ids) {
      var c :| c in bs[..i] && ids[BufferObj(c)] == id;
      var j :| 0 <= j < i && bs[..i][j] == c;
      assert bs[j] == c;
      assert ids[BufferObj(bs[j])] == ids[BufferObj(bs[i])];
    } else {
      assert bs[i] in bs;
    }
  }

  /** One more buffer freed: the requests and the removed ids grow by that buffer's. */
  lemma FreeStep(bs: seq<Buffer>, i: nat, ids: map<BufferKey, int>, open: OpenStates)
    requires i < |bs| && FreeDefined(bs[..i], ids, open) && BufferObj(bs[i]) in ids
    requires ids[BufferObj(bs[i])] in open - IdsOf(bs[..i], ids)
    ensures FreeDefined(bs[..i + 1], ids, open)
    ensures var id := ids[BufferObj(bs[i])];
      && FreeRequests(bs[..i + 1], ids, open) == FreeRequests(bs[..i], ids, open) + CloseThenFree(id, open[id])
      && IdsOf(bs[..i + 1], ids) == IdsOf(bs[..i], ids) + {id}
  {
    var pre, b := bs[..i], bs[i];
    assert bs[..i + 1] == pre + [b];
    FreeDefinedSnoc(pre, b, ids, open);
    assert (pre + [b])[..i] == pre;
    IdsOfSnoc(pre, b, ids);
  }

  lemma FreeDefinedSnoc(pre: seq<Buffer>, b: Buffer, ids: map<BufferKey, int>, open: OpenStates)
    requires FreeDefined(pre, ids, open) && BufferObj(b) in ids
    requires ids[BufferObj(b)] in open - IdsOf(pre, ids)
    ensures FreeDefined(pre + [b], ids, open)
  {
    var s := pre + [b];
    assert forall x :: x in s <==> x in pre || x == b;
    forall j, k | 0 <= j < k < |s| ensures ids[BufferObj(s[j])] != ids[BufferObj(s[k])] {
      if k == |pre| {
        assert s[j] in pre;
      } else {
        assert s[j] == pre[j] && s[k] == pre[k];
      }
    }
  }

  // ------------------------------------------------------------------ scheduled buffer commands

  /** The commands run right after allocation, by kind, in this order. */
  const PostAllocKinds: seq<BufferOpKind> :=
    [ReadOp, ReadChannelOp, ZeroOp, FillOp, GenerateOp, SetOp, SetContiguousOp, NormalizeOp, CopyOp]

  /** The commands run right before freeing. */
  const PreFreeKinds: seq<BufferOpKind> := [WriteOp]

  /** The commands a buffer-settings table schedules at `offset`, by kind. */
  function ScheduledAt(settings: map<Offset, map<BufferOpKind, seq<BufferOp>>>, offset: Offset): map<BufferOpKind, seq<BufferOp>> {
    if offset in settings then settings[offset] else map[]
  }

  /** The commands scheduled at one offset, kind by kind in the order of `kinds`. */
  function OpsInOrder(kinds: seq<BufferOpKind>, scheduled: map<BufferOpKind, seq<BufferOp>>): seq<BufferOp> {
    if kinds == [] then []
    else
      var n := |kinds| - 1;
      var here := if kinds[n] in scheduled then scheduled[kinds[n]] else [];
      OpsInOrder(kinds[..n], scheduled) + here
  }

  /** Every command scheduled under one of the listed kinds is run. */
  lemma {:induction false} OpsInOrderHasAll(kinds: seq<BufferOpKind>, scheduled: map<BufferOpKind, seq<BufferOp>>, k: BufferOpKind)
    requires k in kinds && k in scheduled
    ensures multiset(scheduled[k]) <= multiset(OpsInOrder(kinds, scheduled))
  {
    var n := |kinds| - 1;
    var here := if kinds[n] in scheduled then scheduled[kinds[n]] else [];
    assert OpsInOrder(kinds, scheduled) == OpsInOrder(kinds[..n], scheduled) + here;
    if kinds[n] != k {
      assert k in kinds[..n] by {
        var j :| 0 <= j < |kinds| && kinds[j] == k;
        assert kinds[..n][j] == k;
      }
      OpsInOrderHasAll(kinds[..n], scheduled, k);
    }
  }

  /** The outcome of running buffer commands: the requests emitted and the open states after them. */
  datatype Run = Failed | Ran(reqs: seq<Request>, open: OpenStates)

  /**
   * One scheduled command. A command that opens the buffer's file is preceded
   * by a close exactly when the file is already open, and afterwards the file
   * is open exactly when the command asks to leave it open. Other commands pass
   * through and change nothing. A file command on a buffer with no recorded
   * open state is an unresolved reference.
   */
  function StepOp(op: BufferOp, open: OpenStates): (r: Run)
    ensures !OpensFile(op.kind) ==> r == Ran([BufferCommand(op)], open)
    ensures OpensFile(op.kind) ==> (r.Ran? <==> op.bufferId in open)
    ensures OpensFile(op.kind) && r.Ran? ==>
      && |r.reqs| >= 1 && r.reqs[|r.reqs| - 1] == BufferCommand(op)
      && (|r.reqs| == 2 <==> open[op.bufferId])
      && (|r.reqs| == 2 ==> r.reqs[0] == BufferClose(op.bufferId))
      && r.open == open[op.bufferId := op.leaveOpen]
  {
    if !OpensFile(op.kind) then Ran([BufferCommand(op)], open)
    else if op.bufferId !in open then Failed
    else
      var close := if open[op.bufferId] then [BufferClose(op.bufferId)] else [];
      Ran(close + [BufferCommand(op)], open[op.bufferId := op.leaveOpen])
  }

  /** Runs one more command from where `first` left off. */
  function Extend(first: Run, op: BufferOp): Run {
    if first.Failed? then Failed
    else
      var step := StepOp(op, first.open);
      if step.Failed? then Failed else Ran(first.reqs + step.reqs, step.open)
  }

  /** The commands run in order, threading the open states. */
  function RunOps(ops: seq<BufferOp>, open: OpenStates): Run
  {
    if ops == [] then Ran([], open)
    else Extend(RunOps(ops[..|ops| - 1], open), ops[|ops| - 1])
  }

  /** Runs `ops` from where `first` left off. */
  function RunAfter(first: Run, ops: seq<BufferOp>): Run {
    if first.Failed? then Failed
    else
      var second := RunOps(ops, first.open);
      if second.Failed? then Failed else Ran(first.reqs + second.reqs, second.open)
  }

  /** The commands of one kind, run in order (the inner loop of the collector). */
  method RunKindOps(ops: seq<BufferOp>, open: OpenStates) returns (r: Result<seq<Request>>, open': OpenStates)
    ensures r.Ok? <==> RunOps(ops, open).Ran?
    ensures r.Ok? ==> Ran(r.value, open') == RunOps(ops, open)
  {
    var reqs: seq<Request> := [];
    open' := open;
    var j := 0;
    while j < |ops|
      invariant 0 <= j <= |ops|
      invariant RunOps(ops[..j], open) == Ran(reqs, open')
    {
      var op := ops[j];
      RunOpsSnoc(ops, j, open);
      if OpensFile(op.kind) {
        if op.bufferId !in open' {
          FailedPrefix(ops, j + 1, open);
          return Err(UnresolvedReference), open';
        }
        if open'[op.bufferId] {
          reqs := reqs + [BufferClose(op.bufferId), BufferCommand(op)];
        } else {
          reqs := reqs + [BufferCommand(op)];
        }
        open' := open'[op.bufferId := op.leaveOpen];
      } else {
        reqs := reqs + [BufferCommand(op)];
      }
      j := j + 1;
    }
    assert ops[..j] == ops;
    r := Ok(reqs);
  }

  lemma RunOpsSnoc(ops: seq<BufferOp>, j: nat, open: OpenStates)
    requires j < |ops|
    ensures RunOps(ops[..j + 1], open) == Extend(RunOps(ops[..j], open), ops[j])
  {
    assert ops[..j + 1][..j] == ops[..j];
  }

  /** A run that fails on a prefix of the commands fails on all of them. */
  lemma FailedPrefix(ops: seq<BufferOp>, j: nat, open: OpenStates)
    requires j <= |ops| && RunOps(ops[..j], open).Failed?
    ensures RunOps(ops, open).Failed?
  {
    RunOpsErrPersists(ops[..j], ops[j..], open);
    assert ops[..j] + ops[j..] == ops;
  }

  /**
   * `_collect_buffer_nonlifecycle_requests`: the commands scheduled at `offset`
   * for the given kinds, in kind order, each run as StepOp describes.
   */
  method CollectBufferNonlifecycleRequests(open: OpenStates, settings: map<Offset, map<BufferOpKind, seq<BufferOp>>>,
                                           offset: Offset, kinds: seq<BufferOpKind>)
    returns (r: Result<seq<Request>>, open': OpenStates)
    ensures var spec := RunOps(OpsInOrder(kinds, ScheduledAt(settings, offset)), open);
      && (r.Ok? <==> spec.Ran?)
      && (r.Ok? ==> Ran(r.value, open') == spec)
  {
    var scheduled := ScheduledAt(settings, offset);
    var reqs: seq<Request> := [];
    open' := open;
    var k := 0;
    while k < |kinds|
      invariant 0 <= k <= |kinds|
      invariant RunOps(OpsInOrder(kinds[..k], scheduled), open) == Ran(reqs, open')
    {
      var ops := if kinds[k] in scheduled then scheduled[kinds[k]] else [];
      KindStep(kinds, k, scheduled, open);
      var more, open2 := RunKindOps(ops, open');
      ghost var before := Ran(reqs, open');
      if more.Err? {
        KindFails(kinds, k, scheduled, open);
        return Err(UnresolvedReference), open';
      }
      assert RunAfter(before, ops) == Ran(reqs + more.value, open2);
      reqs := reqs + more.value;
      open' := open2;
      k := k + 1;
    }
    assert kinds[..k] == kinds;
    r := Ok(reqs);
  }

  /** The commands of one more kind run after those of the kinds before it. */
  lemma KindStep(kinds: seq<BufferOpKind>, k: nat, scheduled: map<BufferOpKind, seq<BufferOp>>, open: OpenStates)
    requires k < |kinds|
    ensures RunOps(OpsInOrder(kinds[..k + 1], scheduled), open)
      == RunAfter(RunOps(OpsInOrder(kinds[..k], scheduled), open), if kinds[k] in scheduled then scheduled[kinds[k]] else [])
  {
    var ops := if kinds[k] in scheduled then scheduled[kinds[k]] else [];
    assert kinds[..k + 1][..k] == kinds[..k];
    var done := OpsInOrder(kinds[..k], scheduled);
    assert OpsInOrder(kinds[..k + 1], scheduled) == done + ops;
    RunOpsAppend(done, ops, open);
  }

  /** A kind whose commands fail makes the whole run fail. */
  lemma KindFails(kinds: seq<BufferOpKind>, k: nat, scheduled: map<BufferOpKind, seq<BufferOp>>, open: OpenStates)
    requires k < |kinds|
    requires RunOps(OpsInOrder(kinds[..k + 1], scheduled), open).Failed?
    ensures RunOps(OpsInOrder(kinds, scheduled), open).Failed?
  {
    OpsInOrderPrefix(kinds, k + 1, scheduled);
    var pre := OpsInOrder(kinds[..k + 1], scheduled);
    var all := OpsInOrder(kinds, scheduled);
    RunOpsErrPersists(pre, all[|pre|..], open);
  }

  /** Running two command lists in a row is running the first, then the second from where it left off. */
  lemma {:induction false} RunOpsAppend(a: seq<BufferOp>, b: seq<BufferOp>, open: OpenStates)
    ensures RunOps(a + b, open) == RunAfter(RunOps(a, open), b)
  {
    var first := RunOps(a, open);
    if b == [] {
      assert a + b == a;
      if first.Ran? {
        assert first.reqs + [] == first.reqs;
      }
    } else {
      var n := |b| - 1;
      assert (a + b)[..|a + b| - 1] == a + b[..n];
      assert (a + b)[|a + b| - 1] == b[n];
      RunOpsAppend(a, b[..n], open);
      assert RunOps(a + b, open) == Extend(RunAfter(first, b[..n]), b[n]);
      if first.Ran? {
        var second := RunOps(b[..n], first.open);
        assert RunOps(b, first.open) == Extend(second, b[n]);
        if second.Ran? {
          var third := StepOp(b[n], second.open);
          if third.Ran? {
            assert first.reqs + second.reqs + third.reqs == first.reqs + (second.reqs + third.reqs);
          }
        }
      }
    }
  }

  /** Once a command fails, running more commands after it still fails. */
  lemma {:induction false} RunOpsErrPersists(ops: seq<BufferOp>, more: seq<BufferOp>, open: OpenStates)
    requires RunOps(ops, open).Failed?
    ensures RunOps(ops + more, open).Failed?
  {
    if more != [] {
      var n := |more| - 1;
      var all := ops + more;
      assert all[..|all| - 1] == ops + more[..n];
      RunOpsErrPersists(ops, more[..n], open);
      assert RunOps(all[..|all| - 1], open).Failed?;
    } else {
      assert ops + more == ops;
    }
  }

  /** The commands of the first `k` kinds come first. */
  lemma {:induction false} OpsInOrderPrefix(kinds: seq<BufferOpKind>, k: nat, scheduled: map<BufferOpKind, seq<BufferOp>>)
    requires k <= |kinds|
    ensures var all := OpsInOrder(kinds, scheduled);
      var pre := OpsInOrder(kinds[..k], scheduled);
      |pre| <= |all| && all == pre + all[|pre|..]
    decreases |kinds|
  {
    if k < |kinds| {
      var n := |kinds| - 1;
      assert kinds[..n][..k] == kinds[..k];
      OpsInOrderPrefix(kinds[..n], k, scheduled);
    } else {
      assert kinds[..k] == kinds;
    }
  }

  /** The open state a buffer ends with: the leave-open flag of its last file-opening command, if any. */
  function LastLeaveOpen(ops: seq<BufferOp>, id: int, before: bool): bool {
    if ops == [] then before
    else
      var n := |ops| - 1;
      if OpensFile(ops[n].kind) && ops[n].bufferId == id then ops[n].leaveOpen
      else LastLeaveOpen(ops[..n], id, before)
  }

  /**
   * After a successful run of scheduled commands the same buffers have open
   * states, and each buffer is open exactly when its last file-opening command
   * left it open (or, without such a command, as it was before).
   */
  lemma {:induction false} RunOpsFinalOpen(ops: seq<BufferOp>, open: OpenStates, id: int)
    requires RunOps(ops, open).Ran?
    ensures RunOps(ops, open).open.Keys == open.Keys
    ensures id in open ==> RunOps(ops, open).open[id] == LastLeaveOpen(ops, id, open[id])
  {
    if ops != [] {
      var n := |ops| - 1;
      RunOpsFinalOpen(ops[..n], open, id);
    }
  }
}
