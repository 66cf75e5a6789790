/** What the scheduler guarantees over runs. */
module SchedProofs {
  import opened Bits
  import opened SchedModel

  // ----- safety

  /** Removing a slot keeps the others in their relative order. */
  lemma SqueezeKeepsOrder(t: seq<Pcb>, c: nat, n: nat)
    requires c < n <= |t|
    ensures |Squeeze(t, c, n)| == |t|
    ensures Squeeze(t, c, n)[..n - 1] == t[..c] + t[c + 1..n]
    ensures forall i :: 0 <= i < n - 1 ==> Squeeze(t, c, n)[i] == t[if i < c then i else i + 1]
    ensures Squeeze(t, c, n)[n - 1].state.Unused?
    ensures forall i :: n <= i < |t| ==> Squeeze(t, c, n)[i] == t[i]
  {}

  lemma FinishKeeps(s: Sched)
    requires Inv(s) && 0 <= s.current
    ensures var f := Finish(s); Inv(f) && f.n == s.n - 1 && f.preemptive == s.preemptive
    ensures Finish(s).n > 0 ==> Finish(s).current >= 0 && Finish(s).slice == 0
    ensures Finish(s).n == 0 ==> Finish(s).current == -1 && Finish(s).slice == s.slice
  {
    hide Squeeze, Inv;
    InvBounds(s);
    var c := if s.n == 1 then -1 else Wrap(s.current, s.n - 1);
    SqueezedInv(s, c, if s.n == 1 then s.slice else 0);
    if s.n > 1 {
      RunOrNot(s.(table := Squeeze(s.table, s.current, s.n), n := s.n - 1, current := c, slice := 0));
    }
  }

  lemma InvBounds(s: Sched)
    requires Inv(s)
    ensures |s.table| == MAX_PROCESSES && s.n <= MAX_PROCESSES && -1 <= s.current < s.n
  {}

  lemma SqueezedInv(s: Sched, c: int, slice: int)
    requires Inv(s) && 0 <= s.current && -1 <= c < s.n - 1
    ensures var f := s.(table := Squeeze(s.table, s.current, s.n), n := s.n - 1, current := c, slice := slice);
            Inv(f) && forall i :: 0 <= i < f.n ==> !f.table[i].state.Running?
  {
    SqueezeKeepsOrder(s.table, s.current, s.n);
    hide Squeeze;
  }

  lemma RunOrNot(s: Sched)
    requires Inv(s) && 0 <= s.current && forall i :: 0 <= i < s.n ==> !s.table[i].state.Running?
    ensures Inv(if Slot(s, s.current).state.Ready? then Put(s, s.current, Slot(s, s.current).(state := Running)) else s)
  {}

  lemma PreemptKeeps(s: Sched)
    requires Inv(s) && 0 <= s.current
    ensures var p := Preempt(s); Inv(p) && p.n == s.n && p.current >= 0 && p.slice == 0 && p.preemptive == s.preemptive
  {
    var s1 := Put(s, s.current, Slot(s, s.current).(state := Ready));
    assert Inv(s1) && NoneRunning(s1);
    hide Inv, NoneRunning, RunSlot, Put, Slot;
    RunPickKeeps(s1, Wrap(s1.current + 1, s1.n));
  }

  lemma AccountKeeps(s: Sched)
    requires Inv(s) && 0 <= s.current
    ensures var a := Account(s); Inv(a) && a.preemptive == s.preemptive && (a.n > 0 ==> a.current >= 0)
    ensures SliceOk(s) ==> SliceOk(Account(s))
  {
    hide Finish, Preempt, Inv, CountDown;
    CountedDown(s);
    FinishKeeps(CountDown(s));
    PreemptKeeps(CountDown(s));
  }

  lemma CountedDown(s: Sched)
    requires Inv(s) && 0 <= s.current
    ensures var c := CountDown(s);
            && Inv(c) && c.n == s.n && c.current == s.current && c.preemptive == s.preemptive
            && c.slice == s.slice + 1 && |c.table| == |s.table|
            && NeedsPick(c) == NeedsPick(s)
            && (forall i :: 0 <= i < |s.table| && i != s.current ==> c.table[i] == s.table[i])
  {}

  lemma TickKeeps(s: Sched, actions: seq<Action>)
    requires Inv(s)
    ensures Inv(Tick(s, actions)) && Tick(s, actions).preemptive == s.preemptive
    ensures Anchored(s) ==> Anchored(Tick(s, actions))
    ensures SliceOk(s) ==> SliceOk(Tick(s, actions))
  {
    if s.n > 0 {
      var u := UpdateWaiting(s);
      UpdateKeeps(s);
      if HasReady(u) {
        DispatchRuns(u);
        ActsKeep(Dispatch(u), actions);
        AccountKeeps(Acts(Dispatch(u), actions));
      }
    }
  }

  lemma WaitKeeps(s: Sched, pid: int, ticks: int)
    requires Inv(s)
    ensures Inv(Wait(s, pid, ticks))
  {}

  lemma SpawnKeeps(s: Sched, id: nat, remaining: int)
    requires Inv(s)
    ensures Inv(Spawn(s, id, remaining))
  {}

  /** A step of the kernel, as the timer, the shell and running processes cause them. */
  datatype Event =
    | TickEvent(actions: seq<Action>)
    | YieldEvent
    | WaitEvent(pid: int, ticks: int)
    | KillEvent(pid: int)
    | SpawnEvent(id: nat, remaining: int)
    | ModeEvent(preemptive: bool)

  ghost function Apply(s: Sched, e: Event): Sched
    requires Inv(s)
  {
    match e
    case TickEvent(actions) => Tick(s, actions)
    case YieldEvent => Yield(s)
    case WaitEvent(pid, ticks) => Wait(s, pid, ticks)
    case KillEvent(pid) => Kill(s, pid)
    case SpawnEvent(id, remaining) => Spawn(s, id, remaining)
    case ModeEvent(on) => s.(preemptive := on)
  }

  lemma ApplyKeeps(s: Sched, e: Event)
    requires Inv(s)
    ensures Inv(Apply(s, e))
    ensures SliceOk(s) && e != ModeEvent(false) ==> SliceOk(Apply(s, e))
  {
    match e
    case TickEvent(actions) => TickKeeps(s, actions);
    case YieldEvent => YieldKeeps(s);
    case WaitEvent(pid, ticks) => WaitKeeps(s, pid, ticks);
    case KillEvent(pid) => KillKeeps(s, pid);
    case SpawnEvent(id, remaining) => SpawnKeeps(s, id, remaining);
    case ModeEvent(on) =>
  }

  /** In preemptive mode the slice is at most the quantum between ticks, and below it while a process is
      current. */
  ghost predicate SliceOk(s: Sched) {
    s.preemptive && 0 <= s.slice <= QUANTUM && (s.current >= 0 ==> s.slice < QUANTUM)
  }

  /** Every tick of the run starts from a state in which `pick_next_ready` stays in the table. */
  ghost predicate AnchoredAtTicks(s: Sched, events: seq<Event>)
    requires Inv(s)
    decreases |events|
  {
    if events == [] then true
    else
      ApplyKeeps(s, events[0]);
      (events[0].TickEvent? ==> Anchored(s)) && AnchoredAtTicks(Apply(s, events[0]), events[1..])
  }

  ghost function Run(s: Sched, events: seq<Event>): (r: Sched)
    requires Inv(s) && AnchoredAtTicks(s, events)
    ensures Inv(r) && (SliceOk(s) && ModeEvent(false) !in events ==> SliceOk(r))
    decreases |events|
  {
    if events == [] then s
    else ApplyKeeps(s, events[0]); Run(Apply(s, events[0]), events[1..])
  }

  /** What every reachable state looks like, for any interleaving of ticks (with process bodies that yield
      and exit as they please), yields, waits, kills, spawns and changes of mode. */
  lemma SafeOverRuns(s: Sched, events: seq<Event>)
    requires Inv(s) && AnchoredAtTicks(s, events)
    ensures var r := Run(s, events);
            && (forall i :: 0 <= i < MAX_PROCESSES ==> (i < r.n <==> !r.table[i].state.Unused?))
            && (forall i :: 0 <= i < r.n ==> r.table[i].state in {Ready, Running, Waiting})
            && (forall i :: 0 <= i < r.n && r.table[i].state.Running? ==> r.current == i)
    ensures SliceOk(s) && ModeEvent(false) !in events ==>
              var r := Run(s, events); 0 <= r.slice <= QUANTUM && (r.slice == QUANTUM ==> r.current == -1)
  {
    var r := Run(s, events);
    assert forall i :: 0 <= i < r.n ==> Alive(r.table[i]);
  }

  // ----- when the slice stands at the quantum between ticks

  /** In preemptive mode a body's yields do nothing and its exits end the current process. */
  lemma {:induction false} PreemptiveBody(s: Sched, actions: seq<Action>)
    requires Inv(s) && s.preemptive && s.current >= 0
    ensures Acts(s, actions) == if ExitCall in actions then Kill(s, s.current) else s
    decreases |actions|
  {
    if actions != [] {
      YieldKeeps(s);
      KillKeeps(s, s.current);
      hide Inv;
      KilledTwice(s);
      PreemptiveBody(Act(s, actions[0]), actions[1..]);
    }
  }

  lemma KilledTwice(s: Sched)
    ensures var k := Kill(s, s.current);
            k.current == s.current && k.preemptive == s.preemptive && Kill(k, k.current) == k
  {}

  /** The tick ends the only process just as its quantum is used up, or is idle with the slice already
      at the quantum. */
  ghost predicate EndsQuantumAndTable(s: Sched, actions: seq<Action>)
    requires Inv(s) && s.n > 0
  {
    if HasReady(UpdateWaiting(s)) then UpdateKeeps(s); EndsBoth(Dispatch(UpdateWaiting(s)), actions)
    else s.slice == QUANTUM
  }

  predicate EndsBoth(d: Sched, actions: seq<Action>) {
    d.n == 1 && d.slice == QUANTUM - 1 && (Slot(d, d.current).remaining <= 1 || ExitCall in actions)
  }

  /** Exactly when a tick leaves the slice at the quantum, and never above it. */
  lemma SliceAtQuantumIff(s: Sched, actions: seq<Action>)
    requires Inv(s) && SliceOk(s) && s.n > 0
    ensures Tick(s, actions).slice >= QUANTUM <==> EndsQuantumAndTable(s, actions)
  {
    var u := UpdateWaiting(s);
    UpdateKeeps(s);
    if HasReady(u) {
      DispatchRuns(u);
      var d := Dispatch(u);
      ActsKeep(d, actions);
      PreemptiveBody(d, actions);
      KillKeeps(d, d.current);
      BodyEffect(d, ExitCall in actions);
      AccountSlice(Acts(d, actions));
      hide Inv, Acts, Account, Kill, Dispatch, UpdateWaiting, HasReady;
    }
  }

  lemma BodyEffect(d: Sched, exits: bool)
    requires Inv(d) && d.current >= 0
    ensures var a := if exits then Kill(d, d.current) else d;
            && a.n == d.n && a.slice == d.slice && a.current == d.current && a.preemptive == d.preemptive
            && (Slot(a, a.current).remaining <= 1 <==> Slot(d, d.current).remaining <= 1 || exits)
  {}

  lemma AccountSlice(a: Sched)
    requires Inv(a) && a.current >= 0 && a.preemptive && 0 <= a.slice < QUANTUM
    ensures Account(a).slice >= QUANTUM <==>
              a.n == 1 && a.slice == QUANTUM - 1 && Slot(a, a.current).remaining <= 1
  {
    CountedDown(a);
    var c := CountDown(a);
    FinishKeeps(c);
    PreemptKeeps(c);
    CountedRemaining(a);
    hide Inv, Finish, Preempt, CountDown;
  }

  lemma CountedRemaining(a: Sched)
    requires Inv(a) && a.current >= 0
    ensures Slot(CountDown(a), a.current).remaining == Slot(a, a.current).remaining - 1
  {}

  /** The state the kernel starts its shell in. */
  const BOOT := Sched(BlankTable(), 0, -1, 0, true)

  function BlankTable(): (t: seq<Pcb>)
    ensures |t| == MAX_PROCESSES && forall i :: 0 <= i < |t| ==> t[i] == Pcb(0, Unused, 0, 0)
  {
    seq(MAX_PROCESSES, i => Pcb(0, Unused, 0, 0))
  }

  // ----- the start slot of pick_next_ready

  /** The k-th slot `pick_next_ready(from)` looks at, by C's remainder. */
  function ProbeSlot(from: int, k: nat, n: nat): int
    requires n > 0
  {
    CMod(from + k, n)
  }

  ghost predicate ProbesInTable(from: int, n: nat) {
    n > 0 ==> forall k: nat :: k < n ==> 0 <= ProbeSlot(from, k, n) < n
  }

  /** From a current slot, or from -1 with one process, the probes are those of `Pick`. */
  lemma AnchoredProbe(s: Sched, k: nat)
    requires Inv(s) && Anchored(s) && k < s.n
    ensures ProbeSlot(s.current, k, s.n) == Wrap(StartSlot(s) + k, s.n)
    ensures 0 <= ProbeSlot(s.current, k, s.n) < s.n
  {
    if s.current >= 0 { WrapIsMod(s.current + k, s.n); }
  }

  /** All probes are in the table exactly from an anchored state; from -1 with two or more processes the
      first probe is slot -1. */
  lemma ProbesInTableIff(s: Sched)
    requires Inv(s)
    ensures ProbesInTable(s.current, s.n) <==> Anchored(s)
    ensures !Anchored(s) ==> ProbeSlot(s.current, 0, s.n) == -1
  {
    if Anchored(s) {
      forall k: nat | k < s.n ensures 0 <= ProbeSlot(s.current, k, s.n) < s.n { AnchoredProbe(s, k); }
    } else {
      DivModUnique(1, s.n, 0, 1);
      assert ProbeSlot(s.current, 0, s.n) == -1;
    }
  }

  /** Two processes spawned after boot and before a tick leave the table unanchored. */
  lemma TwoSpawnsUnanchored()
    ensures Inv(BOOT) && Inv(Spawn(BOOT, 0, 50))
    ensures var s := Spawn(Spawn(BOOT, 0, 50), 1, 50);
            Inv(s) && !Anchored(s) && NeedsPick(s) && HasReady(UpdateWaiting(s))
  {
    SpawnKeeps(BOOT, 0, 50);
    SpawnKeeps(Spawn(BOOT, 0, 50), 1, 50);
    var u := UpdateWaiting(Spawn(Spawn(BOOT, 0, 50), 1, 50));
    assert Active(u.table[0]);
  }
}
