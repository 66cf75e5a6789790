/** Pipes: a pool of ring buffers with an open flag for each end. */
module Pipe {
  import opened Common

  const MAX_PIPES := 16
  const PIPE_BUF_SIZE := 4096

  datatype Control = Control(readPos: nat, writePos: nat, count: nat, readOpen: bool, writeOpen: bool)

  // ----- the queue a pipe stands for

  datatype Op = Write(data: seq<Byte>) | Read(len: nat) | CloseRead | CloseWrite

  /** A pipe as a queue, with everything accepted and delivered since it was allocated. */
  datatype Fifo = Fifo(queue: seq<Byte>, readOpen: bool, writeOpen: bool, accepted: seq<Byte>, delivered: seq<Byte>)

  const EMPTY_FIFO := Fifo([], true, true, [], [])

  /** How many bytes a write of `len` bytes gets in. */
  function Room(f: Fifo, len: nat): nat {
    if f.writeOpen && |f.queue| <= PIPE_BUF_SIZE then Min(len, PIPE_BUF_SIZE - |f.queue|) else 0
  }

  /** How many bytes a read of `len` bytes gets out. */
  function Available(f: Fifo, len: nat): nat {
    if f.readOpen then Min(len, |f.queue|) else 0
  }

  function Step(f: Fifo, op: Op): Fifo {
    match op
    case Write(data) =>
      var n := Room(f, |data|);
      f.(queue := f.queue + data[..n], accepted := f.accepted + data[..n])
    case Read(len) =>
      var n := Available(f, len);
      f.(queue := f.queue[n..], delivered := f.delivered + f.queue[..n])
    case CloseRead => f.(readOpen := false)
    case CloseWrite => f.(writeOpen := false)
  }

  function Steps(f: Fifo, ops: seq<Op>): Fifo {
    if ops == [] then f else Step(Steps(f, ops[..|ops| - 1]), ops[|ops| - 1])
  }

  ghost predicate Balanced(f: Fifo) {
    f.accepted == f.delivered + f.queue && |f.queue| <= PIPE_BUF_SIZE
  }

  /** First in, first out: whatever is written, read and closed, the bytes accepted are the bytes
      delivered followed by the bytes still buffered. */
  lemma {:induction false} FifoOverRuns(f: Fifo, ops: seq<Op>)
    requires Balanced(f)
    ensures Balanced(Steps(f, ops))
    ensures f.delivered <= Steps(f, ops).delivered && f.accepted <= Steps(f, ops).accepted
    decreases |ops|
  {
    if ops != [] {
      FifoOverRuns(f, ops[..|ops| - 1]);
      StepKeepsBalance(Steps(f, ops[..|ops| - 1]), ops[|ops| - 1]);
    }
    hide Step;
  }

  lemma StepKeepsBalance(f: Fifo, op: Op)
    requires Balanced(f)
    ensures Balanced(Step(f, op)) && f.delivered <= Step(f, op).delivered && f.accepted <= Step(f, op).accepted
  {
    if op.Read? {
      var n := Available(f, op.len);
      assert f.delivered + f.queue == f.delivered + f.queue[..n] + f.queue[n..];
    }
  }

  /** Reading everything drains the pipe: a reader that keeps up sees exactly what was accepted. */
  lemma DrainedIsAccepted(f: Fifo, ops: seq<Op>)
    requires Balanced(f) && Steps(f, ops).queue == []
    ensures Steps(f, ops).delivered == Steps(f, ops).accepted
  {
    FifoOverRuns(f, ops);
  }

  // ----- the pool of pipes

  datatype Slot = Idle | Busy(fifo: Fifo)

  datatype Call =
    | AllocCall
    | FreeCall(id: int)
    | WriteCall(id: int, data: seq<Byte>)
    | ReadCall(id: int, len: nat)
    | CloseCall(id: int, end: int)

  function FirstIdle(p: seq<Slot>): (k: nat)
    ensures k <= |p| && (k < |p| ==> p[k].Idle?) && forall i :: 0 <= i < k ==> p[i].Busy?
  {
    if p == [] || p[0].Idle? then 0 else 1 + FirstIdle(p[1..])
  }

  lemma FirstIdleIs(p: seq<Slot>, k: nat)
    requires k <= |p| && (forall i :: 0 <= i < k ==> p[i].Busy?) && (k < |p| ==> p[k].Idle?)
    ensures FirstIdle(p) == k
  {}

  /** The slot after an operation; a pipe with both ends closed is idle again. */
  function After(slot: Slot, op: Op): Slot {
    if slot.Idle? then slot
    else
      var f := Step(slot.fifo, op);
      if (op.CloseRead? || op.CloseWrite?) && !f.readOpen && !f.writeOpen then Idle else Busy(f)
  }

  function Operate(p: seq<Slot>, id: int, op: Op): seq<Slot> {
    if 0 <= id < |p| then p[id := After(p[id], op)] else p
  }

  function PoolStep(p: seq<Slot>, c: Call): seq<Slot> {
    match c
    case AllocCall => if FirstIdle(p) < |p| then p[FirstIdle(p) := Busy(EMPTY_FIFO)] else p
    case FreeCall(id) => if 0 <= id < |p| then p[id := Idle] else p
    case WriteCall(id, data) => Operate(p, id, Write(data))
    case ReadCall(id, len) => Operate(p, id, Read(len))
    case CloseCall(id, end) => Operate(p, id, if end == 0 then CloseRead else CloseWrite)
  }

  function PoolSteps(p: seq<Slot>, calls: seq<Call>): (r: seq<Slot>)
    ensures |r| == |p|
    decreases |calls|
  {
    if calls == [] then p else PoolStep(PoolSteps(p, calls[..|calls| - 1]), calls[|calls| - 1])
  }

  /** What a call returns, and the bytes it hands to the caller. */
  datatype Reply = Reply(value: int, bytes: seq<Byte>)

  function InUse(p: seq<Slot>, id: int): bool { 0 <= id < |p| && p[id].Busy? }

  function Answer(p: seq<Slot>, c: Call): Reply {
    match c
    case AllocCall => Reply(if FirstIdle(p) < |p| then FirstIdle(p) else -1, [])
    case FreeCall(_) => Reply(0, [])
    case WriteCall(id, data) =>
      Reply(if InUse(p, id) && p[id].fifo.writeOpen then Room(p[id].fifo, |data|) else -1, [])
    case ReadCall(id, len) =>
      if InUse(p, id) && p[id].fifo.readOpen then
        var f := p[id].fifo;
        var n := Available(f, len);
        Reply(if n == 0 && !f.writeOpen then -1 else n, f.queue[..n])
      else Reply(-1, [])
    case CloseCall(_, _) => Reply(0, [])
  }

  /** The replies along a run. */
  function Answers(p: seq<Slot>, calls: seq<Call>): (log: seq<Reply>)
    ensures |log| == |calls|
    decreases |calls|
  {
    if calls == [] then []
    else
      var before := calls[..|calls| - 1];
      Answers(p, before) + [Answer(PoolSteps(p, before), calls[|calls| - 1])]
  }

  /** Bytes the replies say a pipe took in, and those they handed out. */
  function SentTo(id: int, calls: seq<Call>, log: seq<Reply>): seq<Byte>
    requires |log| == |calls|
    decreases |calls|
  {
    if calls == [] then []
    else
      var n := |calls| - 1;
      SentTo(id, calls[..n], log[..n]) + Sent(id, calls[n], log[n])
  }

  function Sent(id: int, c: Call, r: Reply): seq<Byte> {
    if c.WriteCall? && c.id == id && 0 <= r.value <= |c.data| then c.data[..r.value] else []
  }

  function ReceivedFrom(id: int, calls: seq<Call>, log: seq<Reply>): seq<Byte>
    requires |log| == |calls|
    decreases |calls|
  {
    if calls == [] then []
    else
      var n := |calls| - 1;
      ReceivedFrom(id, calls[..n], log[..n]) + (if calls[n].ReadCall? && calls[n].id == id then log[n].bytes else [])
  }

  /** The pipe is in use before and after each of the calls. */
  ghost predicate StaysBusy(p: seq<Slot>, calls: seq<Call>, id: int) {
    forall k :: 0 <= k <= |calls| ==> InUse(PoolSteps(p, calls[..k]), id)
  }

  /** What clients see: while a pipe is in use, the bytes its writers were told went in are the bytes its readers
      were handed followed by those still buffered, in order, whatever is called on other ids in between. */
  lemma {:induction false} ClientsSeeFifo(p: seq<Slot>, calls: seq<Call>, id: int)
    requires StaysBusy(p, calls, id) && InUse(p, id) && p[id].fifo.queue == [] && AllBalanced(p)
    ensures InUse(PoolSteps(p, calls), id)
    ensures SentTo(id, calls, Answers(p, calls))
         == ReceivedFrom(id, calls, Answers(p, calls)) + PoolSteps(p, calls)[id].fifo.queue
    decreases |calls|
  {
    hide PoolStep, Answer, Sent;
    assert calls[..|calls|] == calls;
    if calls != [] {
      var n := |calls| - 1;
      var before := calls[..n];
      BusyBefore(p, calls, id);
      ClientsSeeFifo(p, before, id);
      PoolOverRuns(p, before);
      var q, log := PoolSteps(p, before), Answers(p, calls);
      assert log[..n] == Answers(p, before) && log[n] == Answer(q, calls[n]);
      CallMoves(q, calls[n], id);
      Regroup(ReceivedFrom(id, before, log[..n]), q[id].fifo.queue, Sent(id, calls[n], log[n]));
      Regroup(ReceivedFrom(id, before, log[..n]), if calls[n].ReadCall? && calls[n].id == id then log[n].bytes else [],
              PoolSteps(p, calls)[id].fifo.queue);
    }
  }

  lemma Regroup(x: seq<Byte>, y: seq<Byte>, z: seq<Byte>)
    ensures x + y + z == x + (y + z)
  {}

  lemma BusyBefore(p: seq<Slot>, calls: seq<Call>, id: int)
    requires StaysBusy(p, calls, id) && calls != []
    ensures StaysBusy(p, calls[..|calls| - 1], id) && InUse(PoolSteps(p, calls), id)
  {
    var before := calls[..|calls| - 1];
    forall k | 0 <= k <= |before| ensures InUse(PoolSteps(p, before[..k]), id) {
      assert before[..k] == calls[..k];
    }
    assert calls[..|calls|] == calls;
  }

  /** One call appends to a pipe's queue what it took in and removes from its front what it handed out. */
  lemma CallMoves(p: seq<Slot>, c: Call, id: int)
    requires InUse(p, id) && InUse(PoolStep(p, c), id) && AllBalanced(p)
    ensures p[id].fifo.queue + Sent(id, c, Answer(p, c))
         == (if c.ReadCall? && c.id == id then Answer(p, c).bytes else []) + PoolStep(p, c)[id].fifo.queue
  {
    var f := p[id].fifo;
    if c.ReadCall? && c.id == id {
      assert f.queue == f.queue[..Available(f, c.len)] + f.queue[Available(f, c.len)..];
    }
    if c.WriteCall? && c.id == id {
      assert c.data[..0] == [];
    }
  }

  ghost predicate AllBalanced(p: seq<Slot>) { forall i :: 0 <= i < |p| && p[i].Busy? ==> Balanced(p[i].fifo) }

  /** First in, first out on every pipe at once, for any interleaving of calls on any ids. */
  lemma {:induction false} PoolOverRuns(p: seq<Slot>, calls: seq<Call>)
    requires AllBalanced(p)
    ensures AllBalanced(PoolSteps(p, calls))
    decreases |calls|
  {
    if calls != [] {
      PoolOverRuns(p, calls[..|calls| - 1]);
      PoolKeepsBalance(PoolSteps(p, calls[..|calls| - 1]), calls[|calls| - 1]);
    }
  }

  lemma PoolKeepsBalance(p: seq<Slot>, c: Call)
    requires AllBalanced(p)
    ensures AllBalanced(PoolStep(p, c))
  {
    if c.WriteCall? && 0 <= c.id < |p| && p[c.id].Busy? { StepKeepsBalance(p[c.id].fifo, Write(c.data)); }
    if c.ReadCall? && 0 <= c.id < |p| && p[c.id].Busy? { StepKeepsBalance(p[c.id].fifo, Read(c.len)); }
    hide Room, Available;
  }

  ghost predicate Concerns(c: Call, id: int) { !c.AllocCall? && c.id == id }

  /** Calls on other ids and allocations do not touch a pipe in use. */
  lemma {:induction false} OthersKeepPipe(p: seq<Slot>, calls: seq<Call>, id: nat)
    requires id < |p| && p[id].Busy? && forall c :: c in calls ==> !Concerns(c, id)
    ensures PoolSteps(p, calls)[id] == p[id]
    decreases |calls|
  {
    if calls != [] {
      OthersKeepPipe(p, calls[..|calls| - 1], id);
      assert !Concerns(calls[|calls| - 1], id);
      hide After;
    }
  }

  // ----- closing

  /** Closing with 0 shuts the read end, with anything else the write end, and leaves what is buffered; a pipe
      with both ends shut goes back to the pool. */
  lemma CloseEffect(p: seq<Slot>, id: int, end: int)
    requires InUse(p, id)
    ensures var q, f := PoolStep(p, CloseCall(id, end)), p[id].fifo;
            && q == p[id := q[id]]
            && (end == 0 ==>
                  q[id] == if f.writeOpen then Busy(Fifo(f.queue, false, true, f.accepted, f.delivered)) else Idle)
            && (end != 0 ==>
                  q[id] == if f.readOpen then Busy(Fifo(f.queue, true, false, f.accepted, f.delivered)) else Idle)
  {}

  /** Once closed, an end stays closed for as long as the pipe is in use; the other one stays open. */
  lemma {:induction false} EndsStay(p: seq<Slot>, calls: seq<Call>, id: int, k: nat)
    requires StaysBusy(p, calls, id) && InUse(p, id) && k <= |calls|
    requires p[id].fifo.readOpen != p[id].fifo.writeOpen
    ensures InUse(PoolSteps(p, calls[..k]), id)
    ensures PoolSteps(p, calls[..k])[id].fifo.readOpen == p[id].fifo.readOpen
    ensures PoolSteps(p, calls[..k])[id].fifo.writeOpen == p[id].fifo.writeOpen
  {
    if k > 0 {
      EndsStay(p, calls, id, k - 1);
      assert calls[..k][..k - 1] == calls[..k - 1];
      assert InUse(PoolSteps(p, calls[..k]), id);
      hide PoolSteps;
    }
  }

  lemma {:induction false} AnswerAt(p: seq<Slot>, calls: seq<Call>, j: nat)
    requires j < |calls|
    ensures Answers(p, calls)[j] == Answer(PoolSteps(p, calls[..j]), calls[j])
    decreases |calls|
  {
    hide PoolSteps, Answer;
    var n := |calls| - 1;
    if j < n {
      AnswerAt(p, calls[..n], j);
      assert calls[..n][..j] == calls[..j];
    }
  }

  /** After the read end is closed every read is refused, and writes go on until the buffer is full. */
  lemma AfterReadClosed(p: seq<Slot>, calls: seq<Call>, id: int, j: nat)
    requires InUse(p, id) && p[id].fifo.writeOpen && AllBalanced(p) && j < |calls|
    requires StaysBusy(PoolStep(p, CloseCall(id, 0)), calls, id)
    ensures var q := PoolStep(p, CloseCall(id, 0));
            var reply, held := Answers(q, calls)[j], PoolSteps(q, calls[..j]);
            && InUse(held, id) && |held[id].fifo.queue| <= 4096
            && (calls[j].ReadCall? && calls[j].id == id ==> reply == Reply(-1, []))
            && (calls[j].WriteCall? && calls[j].id == id ==>
                  var n, room := |calls[j].data|, 4096 - |held[id].fifo.queue|;
                  reply == Reply(if n <= room then n else room, []))
  {
    CloseEffect(p, id, 0);
    PoolKeepsBalance(p, CloseCall(id, 0));
    var q := PoolStep(p, CloseCall(id, 0));
    hide PoolStep;
    PoolOverRuns(q, calls[..j]);
    assert calls[..0] == [] && InUse(PoolSteps(q, calls[..0]), id);
    EndsStay(q, calls, id, j);
    AnswerAt(q, calls, j);
  }

  /** After the write end is closed every write is refused, and reads hand out what is buffered and then -1. */
  lemma AfterWriteClosed(p: seq<Slot>, calls: seq<Call>, id: int, end: int, j: nat)
    requires InUse(p, id) && p[id].fifo.readOpen && end != 0 && j < |calls|
    requires StaysBusy(PoolStep(p, CloseCall(id, end)), calls, id)
    ensures var q := PoolStep(p, CloseCall(id, end));
            var reply, held := Answers(q, calls)[j], PoolSteps(q, calls[..j]);
            && InUse(held, id)
            && (calls[j].WriteCall? && calls[j].id == id ==> reply == Reply(-1, []))
            && (calls[j].ReadCall? && calls[j].id == id ==>
                  var n, there := calls[j].len, |held[id].fifo.queue|;
                  reply == if n == 0 || there == 0 then Reply(-1, [])
                           else if n <= there then Reply(n, held[id].fifo.queue[..n])
                           else Reply(there, held[id].fifo.queue))
  {
    CloseEffect(p, id, end);
    var q := PoolStep(p, CloseCall(id, end));
    hide PoolStep;
    assert calls[..0] == [] && InUse(PoolSteps(q, calls[..0]), id);
    EndsStay(q, calls, id, j);
    AnswerAt(q, calls, j);
    var held := PoolSteps(q, calls[..j]);
    assert held[id].fifo.queue[..|held[id].fifo.queue|] == held[id].fifo.queue;
  }

  /** What was buffered when the write end was closed is what readers are handed from then on, in order, and what
      is left. */
  lemma {:induction false} BufferedIsRead(p: seq<Slot>, calls: seq<Call>, id: int)
    requires StaysBusy(p, calls, id) && InUse(p, id) && AllBalanced(p)
    requires p[id].fifo.readOpen && !p[id].fifo.writeOpen
    ensures InUse(PoolSteps(p, calls), id)
    ensures ReceivedFrom(id, calls, Answers(p, calls)) + PoolSteps(p, calls)[id].fifo.queue == p[id].fifo.queue
    decreases |calls|
  {
    assert calls[..|calls|] == calls;
    if calls != [] {
      var n := |calls| - 1;
      var before := calls[..n];
      BusyBefore(p, calls, id);
      BufferedIsRead(p, before, id);
      PoolOverRuns(p, before);
      EndsStay(p, calls, id, n);
      var q, log := PoolSteps(p, before), Answers(p, calls);
      assert log[..n] == Answers(p, before) && log[n] == Answer(q, calls[n]);
      CallMoves(q, calls[n], id);
      NothingSent(q, calls[n], id);
      hide PoolStep, Answer, Sent;
      Regroup(ReceivedFrom(id, before, log[..n]), if calls[n].ReadCall? && calls[n].id == id then log[n].bytes else [],
              PoolSteps(p, calls)[id].fifo.queue);
    }
  }

  lemma NothingSent(p: seq<Slot>, c: Call, id: int)
    requires InUse(p, id) && !p[id].fifo.writeOpen
    ensures Sent(id, c, Answer(p, c)) == []
  {}

  /** Calls on a pipe that is not in use are refused. */
  lemma NotInUse(p: seq<Slot>, id: int, data: seq<Byte>, len: nat)
    requires !InUse(p, id)
    ensures Answer(p, WriteCall(id, data)) == Reply(-1, []) == Answer(p, ReadCall(id, len))
    ensures PoolStep(p, WriteCall(id, data)) == p == PoolStep(p, ReadCall(id, len))
  {}

  // ----- the ring

  /** Byte k of the queue sits at position (readPos + k) mod PIPE_BUF_SIZE. */
  function At(c: Control, k: nat): nat { (c.readPos + k) % PIPE_BUF_SIZE }

  ghost predicate ControlValid(c: Control) {
    && c.readPos < PIPE_BUF_SIZE && c.count <= PIPE_BUF_SIZE
    && c.writePos == At(c, c.count)
  }

  class PipePool {
    const buffer: array2<Byte>
    const control: array<Control>
    const used: array<bool>
    /** For each pipe in use, its history since allocation. */
    ghost var fifo: seq<Fifo>

    constructor ()
      ensures Valid() && fresh(buffer) && fresh(control) && fresh(used)
      ensures forall i :: 0 <= i < MAX_PIPES ==> !used[i]
    {
      buffer := new Byte[MAX_PIPES, PIPE_BUF_SIZE]((i, j) => 0);
      control := new Control[MAX_PIPES](i => Control(0, 0, 0, false, false));
      used := new bool[MAX_PIPES](i => false);
      fifo := seq(MAX_PIPES, i => EMPTY_FIFO);
    }

    ghost predicate Shaped()
      reads this
    {
      && buffer.Length0 == MAX_PIPES && buffer.Length1 == PIPE_BUF_SIZE
      && control.Length == MAX_PIPES && used.Length == MAX_PIPES && |fifo| == MAX_PIPES
    }

    /** The ring of pipe i holds exactly the queue of its history. */
    ghost predicate Refines(i: nat)
      requires Shaped() && i < MAX_PIPES
      reads this, buffer, control
    {
      var c, f := control[i], fifo[i];
      && ControlValid(c) && Balanced(f)
      && c.count == |f.queue| && c.readOpen == f.readOpen && c.writeOpen == f.writeOpen
      && forall k: nat :: k < c.count ==> buffer[i, At(c, k)] == f.queue[k]
    }

    ghost predicate Valid()
      reads this, buffer, control, used
    {
      Shaped() && forall i: nat :: i < MAX_PIPES && used[i] ==> Refines(i)
    }

    /** Pipe `id` may have changed, no other pipe has. */
    twostate predicate OnlyPipe(id: int)
      requires old(Shaped()) && Shaped()
      reads this, used
    {
      forall i: nat :: i < MAX_PIPES && i != id ==> used[i] == old(used[i]) && fifo[i] == old(fifo[i])
    }

    method Init()
      requires Shaped()
      modifies used
      ensures Valid() && forall i :: 0 <= i < MAX_PIPES ==> !used[i]
    {
      var i := 0;
      while i < MAX_PIPES
        invariant 0 <= i <= MAX_PIPES
        invariant forall k :: 0 <= k < i ==> !used[k]
      {
        used[i] := false;
        i := i + 1;
      }
    }

    /** The lowest unused pipe, empty and open at both ends; -1 exactly when all are in use. */
    method Alloc() returns (id: int)
      requires Valid()
      modifies this`fifo, control, used
      ensures Valid()
      ensures id == -1 <==> forall i :: 0 <= i < MAX_PIPES ==> old(used[i])
      ensures id != -1 ==>
                && 0 <= id < MAX_PIPES && !old(used[id]) && (forall i :: 0 <= i < id ==> old(used[i]))
                && used[id] && fifo[id] == Fifo([], true, true, [], [])
      ensures OnlyPipe(id)
    {
      var i := 0;
      while i < MAX_PIPES
        invariant 0 <= i <= MAX_PIPES
        invariant forall k :: 0 <= k < i ==> used[k]
        invariant fifo == old(fifo) && Valid()
        invariant forall k: nat :: k < MAX_PIPES ==> used[k] == old(used[k])
      {
        if !used[i] {
          used[i] := true;
          control[i] := Control(0, 0, 0, true, true);
          fifo := fifo[i := EMPTY_FIFO];
          return i;
        }
        i := i + 1;
      }
      return -1;
    }

    method Free(id: int)
      requires Valid()
      modifies used
      ensures Valid() && fifo == old(fifo)
      ensures forall i: nat :: i < MAX_PIPES ==> used[i] == (old(used[i]) && i != id)
    {
      if id >= 0 && id < MAX_PIPES {
        used[id] := false;
      }
    }

    /** One byte into the ring of pipe `id`. */
    method Push(id: nat, b: Byte)
      requires Valid() && id < MAX_PIPES && used[id] && control[id].count < PIPE_BUF_SIZE && fifo[id].writeOpen
      modifies this`fifo, buffer, control
      ensures Valid() && OnlyPipe(id)
      ensures fifo[id] == old(fifo[id]).(queue := old(fifo[id].queue) + [b], accepted := old(fifo[id].accepted) + [b])
    {
      ghost var f := fifo[id];
      RingSlots(control[id]);
      hide At;
      var p := control[id];
      buffer[id, p.writePos] := b;
      control[id] := p.(writePos := (p.writePos + 1) % PIPE_BUF_SIZE, count := p.count + 1);
      fifo := fifo[id := f.(queue := f.queue + [b], accepted := f.accepted + [b])];
      assert f.delivered + (f.queue + [b]) == f.delivered + f.queue + [b];
    }

    /** One byte out of the ring of pipe `id`. */
    method Pop(id: nat) returns (b: Byte)
      requires Valid() && id < MAX_PIPES && used[id] && control[id].count > 0
      modifies this`fifo, control
      ensures Valid() && OnlyPipe(id)
      ensures old(fifo[id].queue) != [] && b == old(fifo[id].queue[0])
      ensures fifo[id] == old(fifo[id]).(queue := old(fifo[id].queue)[1..], delivered := old(fifo[id].delivered) + [b])
    {
      ghost var f := fifo[id];
      RingAdvance(control[id]);
      assert At(control[id], 0) == control[id].readPos;
      hide At;
      var p := control[id];
      b := buffer[id, p.readPos];
      assert b == buffer[id, At(p, 0)];
      control[id] := p.(readPos := (p.readPos + 1) % PIPE_BUF_SIZE, count := p.count - 1);
      fifo := fifo[id := f.(queue := f.queue[1..], delivered := f.delivered + [b])];
      assert f.delivered + f.queue == f.delivered + [b] + f.queue[1..];
    }

    /** Accepts as much as fits: -1 on a pipe that is not there or closed for writing. */
    method Write(id: int, data: seq<Byte>, len: nat) returns (r: int)
      requires Valid() && len <= |data|
      modifies this`fifo, buffer, control
      ensures Valid() && OnlyPipe(id)
      ensures r == -1 <==> !(0 <= id < MAX_PIPES && used[id] && old(fifo[id].writeOpen))
      ensures r == -1 ==> fifo == old(fifo)
      ensures r != -1 ==>
                var f := old(fifo[id]);
                && |f.queue| <= 4096 && r == (if len <= 4096 - |f.queue| then len else 4096 - |f.queue|)
                && fifo[id] == Fifo(f.queue + data[..r], f.readOpen, true, f.accepted + data[..r], f.delivered)
    {
      if id < 0 || id >= MAX_PIPES || !used[id] { return -1; }
      if !control[id].writeOpen { return -1; }
      var written := 0;
      ghost var f := fifo[id];
      while written < len && control[id].count < PIPE_BUF_SIZE
        invariant 0 <= written <= len && Valid() && OnlyPipe(id)
        invariant fifo[id] == f.(queue := f.queue + data[..written], accepted := f.accepted + data[..written])
      {
        Push(id, data[written]);
        assert data[..written + 1] == data[..written] + [data[written]];
        written := written + 1;
      }
      assert Refines(id);
      assert data[..len][..written] == data[..written];
      return written;
    }

    /** Delivers what is there, up to `len` bytes. -1 on a pipe that is not there or closed for reading, and
        also when nothing was delivered and no writer is left. */
    method Read(id: int, data: array<Byte>, len: nat) returns (r: int)
      requires Valid() && len <= data.Length
      modifies this`fifo, control, data
      ensures Valid() && OnlyPipe(id)
      ensures !(0 <= id < MAX_PIPES && used[id] && old(fifo[id].readOpen)) ==>
                r == -1 && fifo == old(fifo) && data[..] == old(data[..])
      ensures 0 <= id < MAX_PIPES && used[id] && old(fifo[id].readOpen) ==>
                var f := old(fifo[id]);
                var n := if len <= |f.queue| then len else |f.queue|;
                && r == (if n == 0 && !f.writeOpen then -1 else n)
                && fifo[id] == Fifo(f.queue[n..], true, f.writeOpen, f.accepted, f.delivered + f.queue[..n])
                && data[..n] == f.queue[..n] && data[n..] == old(data[..])[n..]
    {
      if id < 0 || id >= MAX_PIPES || !used[id] { return -1; }
      if !control[id].readOpen { return -1; }
      var n := 0;
      ghost var f := fifo[id];
      while n < len && control[id].count > 0
        invariant 0 <= n <= len && n <= |f.queue| && Valid() && OnlyPipe(id)
        invariant fifo[id] == f.(queue := f.queue[n..], delivered := f.delivered + f.queue[..n])
        invariant data[..n] == f.queue[..n] && data[n..] == old(data[..])[n..]
      {
        var b := Pop(id);
        ghost var d := data[..];
        data[n] := b;
        assert data[..n + 1] == d[..n] + [b] && data[n + 1..] == d[n..][1..];
        assert f.queue[..n + 1] == f.queue[..n] + [b];
        n := n + 1;
      }
      assert Refines(id);
      if n == 0 && !control[id].writeOpen { return -1; }
      return n;
    }

    method CloseEnd(id: nat, end: int)
      requires Valid() && id < MAX_PIPES && used[id]
      modifies this`fifo, control
      ensures Valid() && OnlyPipe(id)
      ensures var f := old(fifo[id]);
              fifo[id] == Fifo(f.queue, f.readOpen && end != 0, f.writeOpen && end == 0, f.accepted, f.delivered)
      ensures control[id].readOpen == fifo[id].readOpen && control[id].writeOpen == fifo[id].writeOpen
    {
      assert Refines(id);
      if end == 0 {
        control[id] := control[id].(readOpen := false);
        fifo := fifo[id := fifo[id].(readOpen := false)];
      } else {
        control[id] := control[id].(writeOpen := false);
        fifo := fifo[id := fifo[id].(writeOpen := false)];
      }
    }

    /** Closes one end (0 is the read end); the pipe goes back to the pool when both are closed. */
    method Close(id: int, end: int)
      requires Valid()
      modifies this`fifo, control, used
      ensures Valid() && OnlyPipe(id)
      ensures !(0 <= id < MAX_PIPES && old(used[id])) ==> fifo == old(fifo) && used[..] == old(used[..])
      ensures 0 <= id < MAX_PIPES && old(used[id]) ==>
                var f := old(fifo[id]);
                && fifo[id] == Fifo(f.queue, f.readOpen && end != 0, f.writeOpen && end == 0, f.accepted, f.delivered)
                && (used[id] <==> if end == 0 then f.writeOpen else f.readOpen)
    {
      if id < 0 || id >= MAX_PIPES || !used[id] { return; }
      CloseEnd(id, end);
      if !control[id].readOpen && !control[id].writeOpen {
        Free(id);
      }
    }

    // ----- runs

    /** The pool as queues. */
    ghost function View(): (p: seq<Slot>)
      requires Shaped()
      reads this, used
      ensures |p| == 16
    {
      seq(MAX_PIPES, i requires 0 <= i < MAX_PIPES && Shaped() reads this, used =>
            if used[i] then Busy(fifo[i]) else Idle)
    }

    method ServeWrite(id: int, data: seq<Byte>) returns (r: Reply)
      requires Valid()
      modifies this`fifo, buffer, control
      ensures Valid() && View() == PoolStep(old(View()), WriteCall(id, data))
      ensures r == Answer(old(View()), WriteCall(id, data))
    {
      hide Refines, Step, Room;
      ghost var p, f := View(), fifo;
      var n := Write(id, data, |data|);
      r := Reply(n, []);
      if 0 <= id < MAX_PIPES && used[id] {
        WriteStep(f[id], data);
        assert View() == p[id := Busy(fifo[id])];
      } else {
        assert View() == p;
      }
    }

    method ServeRead(id: int, len: nat) returns (r: Reply)
      requires Valid()
      modifies this`fifo, control
      ensures Valid() && View() == PoolStep(old(View()), ReadCall(id, len))
      ensures r == Answer(old(View()), ReadCall(id, len))
    {
      hide Refines, Step, Available;
      ghost var p, f := View(), fifo;
      var data := new Byte[len](i => 0);
      var n := Read(id, data, len);
      r := Reply(n, if n > 0 then data[..n] else []);
      if 0 <= id < MAX_PIPES && used[id] {
        ReadStep(f[id], len);
        assert View() == p[id := Busy(fifo[id])];
      } else {
        assert View() == p;
      }
    }

    method ServeClose(id: int, end: int)
      requires Valid()
      modifies this`fifo, control, used
      ensures Valid() && View() == PoolStep(old(View()), CloseCall(id, end))
    {
      hide Refines;
      ghost var p := View();
      Close(id, end);
      if 0 <= id < MAX_PIPES && p[id].Idle? { assert used[id] == old(used[..])[id]; }
      assert View() == PoolStep(p, CloseCall(id, end));
    }

    method ServeAlloc() returns (r: Reply)
      requires Valid()
      modifies this`fifo, control, used
      ensures Valid() && View() == PoolStep(old(View()), AllocCall)
      ensures r == Answer(old(View()), AllocCall)
    {
      hide Refines;
      ghost var p := View();
      var id := Alloc();
      r := Reply(id, []);
      FirstIdleIs(p, if id == -1 then MAX_PIPES else id);
      assert View() == PoolStep(p, AllocCall);
    }

    method ServeFree(id: int)
      requires Valid()
      modifies used
      ensures Valid() && View() == PoolStep(old(View()), FreeCall(id))
    {
      hide Refines;
      ghost var p := View();
      Free(id);
      assert View() == PoolStep(p, FreeCall(id));
    }

    method Serve(c: Call) returns (r: Reply)
      requires Valid()
      modifies this`fifo, buffer, control, used
      ensures Valid() && View() == PoolStep(old(View()), c) && r == Answer(old(View()), c)
    {
      hide PoolStep, Valid;
      match c {
        case AllocCall => r := ServeAlloc();
        case FreeCall(id) => ServeFree(id); r := Reply(0, []);
        case WriteCall(id, data) => r := ServeWrite(id, data);
        case ReadCall(id, len) => r := ServeRead(id, len);
        case CloseCall(id, end) => ServeClose(id, end); r := Reply(0, []);
      }
    }

    /** Any interleaving of calls on any ids refines the calls on the pool of queues, reply by reply. */
    method Run(calls: seq<Call>) returns (log: seq<Reply>)
      requires Valid()
      modifies this`fifo, buffer, control, used
      ensures Valid() && View() == PoolSteps(old(View()), calls) && log == Answers(old(View()), calls)
    {
      hide PoolStep, Answer, Refines;
      assert calls[..0] == [];
      log := [];
      var i := 0;
      while i < |calls|
        invariant 0 <= i <= |calls| && Valid() && View() == PoolSteps(old(View()), calls[..i])
        invariant log == Answers(old(View()), calls[..i])
      {
        assert calls[..i + 1][..i] == calls[..i];
        var r := Serve(calls[i]);
        log := log + [r];
        i := i + 1;
      }
      assert calls[..|calls|] == calls;
    }
  }

  /** A write takes what fits into 4096 bytes; on a closed end it changes nothing. */
  lemma WriteStep(f: Fifo, data: seq<Byte>)
    ensures !f.writeOpen ==> Step(f, Op.Write(data)) == f
    ensures f.writeOpen && |f.queue| <= 4096 ==>
              var n := if |data| <= 4096 - |f.queue| then |data| else 4096 - |f.queue|;
              && Room(f, |data|) == n
              && Step(f, Op.Write(data))
                 == Fifo(f.queue + data[..n], f.readOpen, true, f.accepted + data[..n], f.delivered)
  {}

  /** A read takes what is there; on a closed end it changes nothing. */
  lemma ReadStep(f: Fifo, len: nat)
    ensures !f.readOpen ==> Step(f, Op.Read(len)) == f
    ensures f.readOpen ==>
              var n := if len <= |f.queue| then len else |f.queue|;
              && Available(f, len) == n
              && Step(f, Op.Read(len))
                 == Fifo(f.queue[n..], true, f.writeOpen, f.accepted, f.delivered + f.queue[..n])
  {}

  /** Distinct queue positions sit in distinct slots, and the write position is none of them. */
  lemma RingSlots(c: Control)
    requires ControlValid(c) && c.count < PIPE_BUF_SIZE
    ensures forall k: nat :: k < c.count ==> At(c, k) != c.writePos
    ensures (c.writePos + 1) % PIPE_BUF_SIZE == At(c, c.count + 1)
  {}

  /** After one byte is read, position k is what position k + 1 was. */
  lemma RingAdvance(c: Control)
    requires ControlValid(c) && c.count > 0
    ensures var c' := c.(readPos := (c.readPos + 1) % PIPE_BUF_SIZE, count := c.count - 1);
            ControlValid(c') && forall k: nat :: k < c'.count ==> At(c', k) == At(c, k + 1)
  {}
}
