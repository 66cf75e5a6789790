/** How long a process waits for the processor, and how long the machine takes to finish its work, when
    process bodies make no calls of their own. */
module SchedLiveness {
  import opened SchedModel
  import opened SchedProofs

  // ----- bounded waiting

  /** Slot that runs at the next tick, -1 when the tick is idle. */
  ghost function Runner(s: Sched): int
    requires Inv(s)
  {
    UpdateKeeps(s);
    if s.n == 0 || !HasReady(UpdateWaiting(s)) then -1 else Dispatch(UpdateWaiting(s)).current
  }

  /** Process i is ready (or running) in a preemptive run with a process current. */
  ghost predicate Queued(s: Sched, i: int) {
    Inv(s) && SliceOk(s) && s.current >= 0 && 0 <= i < s.n && Active(s.table[i])
  }

  /** Upper bound on the ticks before slot i runs. */
  function Measure(s: Sched, i: int): int {
    Dist(s.current, i, s.n) * QUANTUM - (if NeedsPick(s) then 0 else s.slice)
  }

  /** A tick that runs slot r before i leaves i closer to its turn. */
  lemma AccountAdvances(s: Sched, i: int) returns (j: int)
    requires Queued(s, i) && !NeedsPick(s) && i != s.current
    ensures Queued(Account(s), j) && Account(s).table[j].id == s.table[i].id
    ensures Measure(Account(s), j) < Measure(s, i)
  {
    hide Inv, Finish, Preempt, CountDown, NeedsPick;
    AccountKeeps(s);
    CountedDown(s);
    QueuedReady(s, i);
    var c := CountDown(s);
    if Slot(c, c.current).remaining <= 0 {
      j := FinishAdvances(c, i);
    } else {
      j := i;
      if c.slice >= QUANTUM { PreemptAdvances(c, i); }
    }
  }

  lemma QueuedReady(s: Sched, i: int)
    requires Queued(s, i) && i != s.current
    ensures s.table[i].state.Ready? && |s.table| == MAX_PROCESSES && s.n <= MAX_PROCESSES && s.current < s.n
  {}

  lemma FinishAdvances(s: Sched, i: int) returns (j: int)
    requires Inv(s) && 0 <= s.current && 0 <= i < s.n && i != s.current && s.table[i].state.Ready?
    ensures var f := Finish(s);
            && 0 <= j < f.n && Active(f.table[j]) && f.table[j].id == s.table[i].id
            && f.slice == 0 && f.current >= 0
            && Dist(f.current, j, f.n) == Dist(s.current, i, s.n) - 1
  {
    hide Squeeze;
    SqueezeKeepsOrder(s.table, s.current, s.n);
    j := if s.current < i then i - 1 else i;
    assert Squeeze(s.table, s.current, s.n)[j] == s.table[i];
  }

  lemma PreemptAdvances(s: Sched, i: int)
    requires Inv(s) && 0 <= s.current && 0 <= i < s.n && i != s.current && s.table[i].state.Ready?
    ensures var p := Preempt(s);
            && Active(p.table[i]) && p.table[i].id == s.table[i].id && p.n == s.n
            && p.slice == 0 && 0 <= p.current < p.n && !NeedsPick(p)
            && Dist(p.current, i, p.n) <= Dist(s.current, i, s.n) - 1
  {
    var s1 := Put(s, s.current, Slot(s, s.current).(state := Ready));
    PickNearest(s1, Wrap(s1.current + 1, s1.n));
    assert Active(s1.table[i]);
  }

  /** One tick either runs process i or strictly lowers its measure, even when a finished process is
      squeezed out and i moves to another slot. */
  lemma TickAdvances(s: Sched, i: int) returns (j: int)
    requires Queued(s, i)
    ensures 0 <= Runner(s) < s.n
    ensures Runner(s) == i ||
            (var t := Tick(s, []);
             Queued(t, j) && t.table[j].id == s.table[i].id && Measure(t, j) < Measure(s, i))
  {
    var u := UpdateWaiting(s);
    UpdateKeeps(s);
    assert u.table[i] == s.table[i];
    DispatchRuns(u);
    DispatchNearest(u, i);
    var d := Dispatch(u);
    j := i;
    if d.current != i {
      j := AccountAdvances(d, i);
    }
  }

  lemma DispatchNearest(u: Sched, i: int)
    requires Queued(u, i)
    ensures HasReady(u)
    ensures var d := Dispatch(u);
            && Queued(d, i) && d.table[i].id == u.table[i].id && !NeedsPick(d)
            && Measure(d, i) <= Measure(u, i)
  {
    DispatchRuns(u);
    if NeedsPick(u) { PickNearest(u, u.current); }
  }

  /** A window of ticks and kills only. */
  ghost predicate Window(events: seq<Event>) {
    forall e :: e in events ==> e == TickEvent([]) || e.KillEvent?
  }

  function Ticks(events: seq<Event>): nat {
    if events == [] then 0 else (if events[0].TickEvent? then 1 else 0) + Ticks(events[1..])
  }

  /** Processes that run during a sequence of events. */
  ghost function Executed(s: Sched, events: seq<Event>): set<nat>
    requires Inv(s)
    decreases |events|
  {
    if events == [] then {}
    else
      ApplyKeeps(s, events[0]);
      (if events[0].TickEvent? && 0 <= Runner(s) < |s.table| then {s.table[Runner(s)].id} else {})
      + Executed(Apply(s, events[0]), events[1..])
  }

  lemma {:induction false} RunsByMeasure(s: Sched, i: int, events: seq<Event>)
    requires Queued(s, i) && Window(events)
    requires Ticks(events) > 0 && Ticks(events) > Measure(s, i)
    ensures s.table[i].id in Executed(s, events)
    decreases |events|
  {
    var e := events[0];
    assert e in events;
    ApplyKeeps(s, e);
    assert Window(events[1..]);
    if e.TickEvent? {
      var j := TickAdvances(s, i);
      if Runner(s) != i {
        NonNegativeUnlessNext(s, i);
        RunsByMeasure(Apply(s, e), j, events[1..]);
      }
    } else {
      RunsByMeasure(Apply(s, e), i, events[1..]);
    }
  }

  /** A process whose measure is not positive is the one that runs next. */
  lemma NonNegativeUnlessNext(s: Sched, i: int)
    requires Queued(s, i) && Runner(s) != i
    ensures Measure(s, i) >= 1
  {
    UpdateKeeps(s);
    assert UpdateWaiting(s).table[i] == s.table[i];
    DispatchNearest(UpdateWaiting(s), i);
  }

  /** Bounded waiting: in preemptive mode, with only ticks and kills in the window, a ready process at cyclic
      distance d runs within d * QUANTUM + 1 ticks. */
  lemma RunsWithin(s: Sched, i: int, events: seq<Event>)
    requires Queued(s, i) && Window(events)
    requires Ticks(events) >= Dist(s.current, i, s.n) * QUANTUM + 1
    ensures s.table[i].id in Executed(s, events)
  {
    RunsByMeasure(s, i, events);
  }

  // ----- work

  function Weight(p: Pcb): nat { if p.remaining < 1 then 1 else p.remaining }

  /** Ticks still owed to the given slots. */
  function Work(t: seq<Pcb>): nat {
    if t == [] then 0 else Weight(t[0]) + Work(t[1..])
  }

  ghost function WorkOf(s: Sched): nat
    requires s.n <= |s.table|
  {
    Work(s.table[..s.n])
  }

  lemma {:induction false} WorkConcat(x: seq<Pcb>, y: seq<Pcb>)
    ensures Work(x + y) == Work(x) + Work(y)
  {
    if x == [] {
      assert x + y == y;
    } else {
      assert (x + y)[1..] == x[1..] + y;
      WorkConcat(x[1..], y);
    }
  }

  lemma WorkAt(t: seq<Pcb>, k: nat)
    requires k < |t|
    ensures Work(t) == Work(t[..k]) + Weight(t[k]) + Work(t[k + 1..])
  {
    assert t == t[..k] + ([t[k]] + t[k + 1..]);
    WorkConcat(t[..k], [t[k]] + t[k + 1..]);
    WorkConcat([t[k]], t[k + 1..]);
    assert [t[k]][1..] == [];
  }

  /** Work looks at `remaining` only. */
  lemma {:induction false} WorkSame(t: seq<Pcb>, t': seq<Pcb>)
    requires |t| == |t'| && forall i :: 0 <= i < |t| ==> t[i].remaining == t'[i].remaining
    ensures Work(t) == Work(t')
  {
    if t != [] { WorkSame(t[1..], t'[1..]); }
  }

  lemma WorkChanged(t: seq<Pcb>, t': seq<Pcb>, k: nat)
    requires |t| == |t'| && k < |t|
    requires forall i :: 0 <= i < |t| && i != k ==> t[i].remaining == t'[i].remaining
    ensures Work(t') == Work(t) - Weight(t[k]) + Weight(t'[k])
  {
    WorkAt(t, k);
    WorkAt(t', k);
    WorkSame(t[..k], t'[..k]);
    WorkSame(t[k + 1..], t'[k + 1..]);
  }

  lemma FinishWork(s: Sched)
    requires Inv(s) && 0 <= s.current
    ensures Finish(s).n == s.n - 1 && |Finish(s).table| == |s.table|
    ensures WorkOf(Finish(s)) == WorkOf(s) - Weight(s.table[s.current])
  {
    InvBounds(s);
    hide Squeeze, Inv;
    SqueezeWork(s.table, s.current, s.n);
    WorkSame(Finish(s).table[..s.n - 1], Squeeze(s.table, s.current, s.n)[..s.n - 1]);
  }

  lemma SqueezeWork(t: seq<Pcb>, c: nat, n: nat)
    requires c < n <= |t|
    ensures |Squeeze(t, c, n)| == |t|
    ensures Work(Squeeze(t, c, n)[..n - 1]) == Work(t[..n]) - Weight(t[c])
  {
    SqueezeKeepsOrder(t, c, n);
    WorkAt(t[..n], c);
    WorkConcat(t[..c], t[c + 1..n]);
    assert t[..n][..c] == t[..c] && t[..n][c + 1..] == t[c + 1..n];
  }

  lemma PreemptWork(s: Sched)
    requires Inv(s) && 0 <= s.current
    ensures Preempt(s).n == s.n && |Preempt(s).table| == |s.table|
    ensures WorkOf(Preempt(s)) == WorkOf(s)
  {
    WorkSame(Preempt(s).table[..s.n], s.table[..s.n]);
  }

  lemma AccountWork(s: Sched)
    requires Inv(s) && 0 <= s.current
    ensures Account(s).n <= |Account(s).table| && WorkOf(Account(s)) == WorkOf(s) - 1
  {
    var c := CountDown(s);
    CountedDown(s);
    WorkChanged(s.table[..s.n], c.table[..s.n], s.current);
    assert Slot(c, c.current).remaining == s.table[s.current].remaining - 1;
    hide Finish, Preempt, Inv, CountDown;
    FinishWork(c);
    PreemptWork(c);
  }

  /** A tick that runs a process does one unit of work; an idle tick does none. */
  lemma TickWork(s: Sched)
    requires Inv(s)
    ensures Inv(Tick(s, [])) && WorkOf(Tick(s, [])) == WorkOf(s) - (if Runner(s) >= 0 then 1 else 0)
  {
    TickKeeps(s, []);
    if s.n > 0 {
      var u := UpdateWaiting(s);
      UpdateKeeps(s);
      InvBounds(s);
      UpdateWork(s);
      if HasReady(u) {
        DispatchRuns(u);
        DispatchWork(u);
        AccountWork(Dispatch(u));
      }
      hide Inv, Account, Dispatch, HasReady, UpdateWaiting;
    }
  }

  lemma UpdateWork(s: Sched)
    requires s.n <= |s.table|
    ensures WorkOf(UpdateWaiting(s)) == WorkOf(s)
  {
    WorkSame(UpdateWaiting(s).table[..s.n], s.table[..s.n]);
  }

  lemma DispatchWork(s: Sched)
    requires 0 < s.n <= |s.table| && s.current < s.n
    ensures Dispatch(s).n == s.n && |Dispatch(s).table| == |s.table| && WorkOf(Dispatch(s)) == WorkOf(s)
  {
    WorkSame(Dispatch(s).table[..s.n], s.table[..s.n]);
  }

  ghost predicate WaitsAtMost(s: Sched, b: nat) {
    s.n <= |s.table| && forall i :: 0 <= i < s.n && s.table[i].state.Waiting? ==> s.table[i].waitTicks <= b
  }

  /** Waiting times run down by one per tick, whatever else the tick does. */
  lemma TickWaits(s: Sched, b: nat)
    requires Inv(s) && WaitsAtMost(s, b)
    ensures WaitsAtMost(Tick(s, []), if b > 0 then b - 1 else 0)
    ensures Runner(s) < 0 && s.n > 0 ==> b > 0
  {
    if s.n > 0 {
      var u, b' := UpdateWaiting(s), if b > 0 then b - 1 else 0;
      UpdateKeeps(s);
      assert WaitsAtMost(u, b');
      if HasReady(u) {
        DispatchRuns(u);
        AccountWaits(Dispatch(u), b');
      } else {
        assert !Active(u.table[0]);
      }
    }
  }

  lemma AccountWaits(s: Sched, b: nat)
    requires Inv(s) && 0 <= s.current && WaitsAtMost(s, b)
    ensures WaitsAtMost(Account(s), b)
  {
    var c := CountDown(s);
    CountedDown(s);
    assert WaitsAtMost(c, b);
    hide Inv, CountDown, Preempt, Finish;
    FinishWaits(c, b);
    PreemptWaits(c, b);
  }

  lemma FinishWaits(s: Sched, b: nat)
    requires Inv(s) && 0 <= s.current && WaitsAtMost(s, b)
    ensures WaitsAtMost(Finish(s), b)
  {
    FinishSlots(s);
    hide Inv, Finish;
  }

  /** Behind the finished slot everything moves down; at most the new current slot changes state. */
  lemma FinishSlots(s: Sched)
    requires Inv(s) && 0 <= s.current
    ensures var f := Finish(s);
            && f.n == s.n - 1 && |f.table| == |s.table|
            && (forall i :: 0 <= i < f.n ==>
                  f.table[i].state.Running? || f.table[i] == s.table[if i < s.current then i else i + 1])
  {
    InvBounds(s);
    hide Inv, Squeeze;
    SqueezeKeepsOrder(s.table, s.current, s.n);
  }

  lemma PreemptWaits(s: Sched, b: nat)
    requires Inv(s) && 0 <= s.current && WaitsAtMost(s, b)
    ensures WaitsAtMost(Preempt(s), b)
  {}

  /** k ticks, each from a state in which a process is current or at most one exists. */
  ghost function TickTimes(s: Sched, k: nat): Sched
    requires Inv(s) && Anchored(s)
    decreases k
  {
    if k == 0 then s else TickKeeps(s, []); TickTimes(Tick(s, []), k - 1)
  }

  /** With no new commands every process finishes within the work owed plus the longest wait. */
  lemma {:induction false} AllFinish(s: Sched, b: nat, k: nat)
    requires Inv(s) && Anchored(s) && WaitsAtMost(s, b) && k >= WorkOf(s) + b
    ensures TickTimes(s, k).n == 0
    decreases k
  {
    hide Inv, WaitsAtMost, WorkOf, Runner, Tick;
    if s.n == 0 {
      TickTimesNone(s, k);
    } else {
      SomeWork(s);
      TickKeeps(s, []);
      TickWork(s);
      TickWaits(s, b);
      AllFinish(Tick(s, []), if b > 0 then b - 1 else 0, k - 1);
    }
  }

  lemma {:induction false} TickTimesNone(s: Sched, k: nat)
    requires Inv(s) && Anchored(s) && s.n == 0
    ensures TickTimes(s, k).n == 0
    decreases k
  {
    if k > 0 { TickTimesNone(s, k - 1); }
  }

  lemma SomeWork(s: Sched)
    requires Inv(s) && 0 < s.n
    ensures WorkOf(s) >= 1
  {}

  // ----- the slice that outlives its process

  /** Process 7 alone in the table, running, with r ticks to go. */
  function Alone(r: int, slice: int): Sched {
    Sched(BOOT.table[0 := Pcb(7, Running, r, 0)], 1, 0, slice, true)
  }

  lemma AloneTick(r: int, slice: int)
    requires 0 <= slice < QUANTUM && r >= 1
    ensures Inv(Alone(r, slice)) && Anchored(Alone(r, slice))
    ensures var t := Tick(Alone(r, slice), []);
            if r == 1 then Inv(t) && EmptyWith(t, slice + 1) else t == Alone(r - 1, NextSlice(slice))
  {
    var s := Alone(r, slice);
    assert UpdateWaiting(s) == s by { assert UpdateWaiting(s).table == s.table; }
    assert Active(s.table[0]);
    TickKeeps(s, []);
    if r > 1 {
      var c := CountDown(s);
      assert c == Alone(r - 1, slice + 1) by { assert c.table == Alone(r - 1, slice + 1).table; }
      if slice + 1 == QUANTUM { AlonePreempted(r - 1); }
    }
  }

  lemma AlonePreempted(r: int)
    ensures Preempt(Alone(r, QUANTUM)) == Alone(r, 0)
  {
    var p := Preempt(Alone(r, QUANTUM));
    var s1 := Put(Alone(r, QUANTUM), 0, Pcb(7, Ready, r, 0));
    PickNearest(s1, 0);
    assert Active(s1.table[0]);
    assert p.table == Alone(r, 0).table;
  }

  /** The slice after r ticks of a process that runs alone and ends with the last of them. */
  function SliceAfter(slice: int, r: nat): int
    requires r >= 1
    decreases r
  {
    if r == 1 then slice + 1 else SliceAfter(NextSlice(slice), r - 1)
  }

  function NextSlice(slice: int): int { if slice + 1 == QUANTUM then 0 else slice + 1 }

  lemma {:induction false} SliceAfterIs(slice: int, r: nat)
    requires 0 <= slice < QUANTUM && r >= 1
    ensures SliceAfter(slice, r) == (slice + r - 1) % QUANTUM + 1
    decreases r
  {
    if r > 1 { SliceAfterIs(NextSlice(slice), r - 1); }
  }

  lemma {:induction false} AloneRuns(r: nat, slice: int)
    requires 0 <= slice < QUANTUM && r >= 1
    ensures Inv(Alone(r, slice)) && Anchored(Alone(r, slice))
    ensures EmptyWith(TickTimes(Alone(r, slice), r), SliceAfter(slice, r))
    decreases r
  {
    hide Inv, Alone, Tick, Anchored, TickTimes, BlankTable, EmptyWith;
    AloneTick(r, slice);
    OneTickFirst(Alone(r, slice), r);
    if r == 1 { NoTicks(Tick(Alone(r, slice), [])); } else { AloneRuns(r - 1, NextSlice(slice)); }
  }

  predicate EmptyWith(s: Sched, slice: int) { s.n == 0 && s.current == -1 && s.slice == slice }

  lemma OneTickFirst(s: Sched, k: nat)
    requires Inv(s) && Anchored(s) && k > 0
    ensures Inv(Tick(s, [])) && Anchored(Tick(s, [])) && TickTimes(s, k) == TickTimes(Tick(s, []), k - 1)
  {
    TickKeeps(s, []);
  }

  lemma NoTicks(s: Sched)
    requires Inv(s) && Anchored(s)
    ensures TickTimes(s, 0) == s
  {}

  /** The first tick after the spawn is that of the process already running with a fresh slice. */
  lemma FirstAlone(r: int)
    requires r >= 1
    ensures Inv(Spawn(BOOT, 7, r)) && Anchored(Spawn(BOOT, 7, r))
    ensures Inv(Alone(r, 0)) && Tick(Spawn(BOOT, 7, r), []) == Tick(Alone(r, 0), [])
  {
    var s, a := Spawn(BOOT, 7, r), Alone(r, 0);
    SpawnKeeps(BOOT, 7, r);
    AloneTick(r, 0);
    assert UpdateWaiting(s) == s by { assert UpdateWaiting(s).table == s.table; }
    assert UpdateWaiting(a) == a by { assert UpdateWaiting(a).table == a.table; }
    assert Active(s.table[0]) && Active(a.table[0]);
    PickNearest(s, 0);
    assert Dispatch(s) == a by { assert Dispatch(s).table == a.table; }
    hide Inv, UpdateWaiting, Pick, Account, Spawn, Alone;
  }

  /** From boot: a process spawned alone with r ticks leaves an empty table after r ticks, and the slice
      then stands at the quantum exactly when r is a multiple of it. */
  lemma StaleSliceIff(r: nat)
    requires r >= 1
    ensures Inv(BOOT) && Inv(Spawn(BOOT, 7, r)) && Anchored(Spawn(BOOT, 7, r))
    ensures var t := TickTimes(Spawn(BOOT, 7, r), r);
            && t.n == 0 && t.current == -1
            && (t.slice == QUANTUM <==> r % QUANTUM == 0)
  {
    hide Inv, Spawn, Alone, Tick, Anchored, TickTimes, SliceAfter, BlankTable;
    BootOk();
    FirstAlone(r);
    AloneRuns(r, 0);
    OneTickFirst(Spawn(BOOT, 7, r), r);
    OneTickFirst(Alone(r, 0), r);
    SliceAfterIs(0, r);
  }

  lemma BootOk()
    ensures Inv(BOOT) && SliceOk(BOOT) && Anchored(BOOT)
  {}

  /** The hundred ticks of `spawn_pipeline_process`, from boot: the slice is at the quantum when the last
      process is gone, and still there right after the next spawn. */
  lemma StaleSliceAfterSpawn()
    ensures Inv(BOOT) && Inv(Spawn(BOOT, 7, 100)) && Anchored(Spawn(BOOT, 7, 100))
    ensures var t := Spawn(TickTimes(Spawn(BOOT, 7, 100), 100), 8, 50);
            t.n == 1 && t.current == -1 && t.slice == QUANTUM
  {
    hide TickTimes, Inv, Anchored;
    StaleSliceIff(100);
  }
}
