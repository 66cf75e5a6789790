/** The scheduler as a transition system on process-table states. */
module SchedModel {
  import opened Bits

  const MAX_PROCESSES := 10
  const QUANTUM := 4

  datatype State = Unused | Ready | Running | Waiting | Terminated

  /** A table slot. `id` stands for everything that moves with the slot and never changes (entry point,
      page directory, stacks). */
  datatype Pcb = Pcb(id: nat, state: State, remaining: int, waitTicks: int)

  datatype Sched = Sched(table: seq<Pcb>, n: nat, current: int, slice: int, preemptive: bool)

  /** What a process body can do to the scheduler while it runs. */
  datatype Action = YieldCall | ExitCall

  predicate Active(p: Pcb) { p.state.Ready? || p.state.Running? }

  predicate Alive(p: Pcb) { p.state.Ready? || p.state.Running? || p.state.Waiting? }

  /** Slots at or above n are unused, slots below hold live processes, a running slot is `current`. */
  ghost predicate Inv(s: Sched) {
    && |s.table| == MAX_PROCESSES && s.n <= MAX_PROCESSES && -1 <= s.current < s.n
    && (forall i :: s.n <= i < MAX_PROCESSES ==> s.table[i].state.Unused?)
    && (forall i :: 0 <= i < s.n ==> Alive(s.table[i]))
    && (forall i :: 0 <= i < s.n && s.table[i].state.Running? ==> i == s.current)
    && (forall i :: 0 <= i < s.n && s.table[i].state.Waiting? ==> s.table[i].waitTicks > 0)
  }

  /** C's remainder, which takes the sign of the dividend. */
  function CMod(a: int, n: nat): int
    requires n > 0
  {
    if a >= 0 then a % n else -((-a) % n)
  }

  /** from + k around a ring of n slots. */
  function Wrap(x: int, n: int): int { if x >= n then x - n else x }

  /** Steps from slot `from` forward to slot i on a ring of n. */
  function Dist(from: int, i: int, n: int): int { if i >= from then i - from else i - from + n }

  lemma WrapIsMod(x: int, n: nat)
    requires 0 <= x < 2 * n
    ensures n > 0 && x % n == Wrap(x, n) && CMod(x, n) == Wrap(x, n)
  {
    if x >= n { DivModUnique(x, n, 1, x - n); }
  }

  // ----- the steps

  function Probe(t: seq<Pcb>, n: nat, from: nat, k: nat): (r: int)
    requires from < n <= |t| && k <= n
    ensures -1 <= r < n
    decreases n - k
  {
    if k == n then -1
    else if Active(t[Wrap(from + k, n)]) then Wrap(from + k, n)
    else Probe(t, n, from, k + 1)
  }

  /** `pick_next_ready` from a slot of the table: the first ready or running slot at or after it. */
  function Pick(s: Sched, from: nat): (r: int)
    requires from < s.n <= |s.table|
    ensures -1 <= r < s.n
  {
    Probe(s.table, s.n, from, 0)
  }

  function Woken(p: Pcb): Pcb {
    if p.state.Waiting? then
      var w := if p.waitTicks > 0 then p.waitTicks - 1 else p.waitTicks;
      p.(waitTicks := w, state := if w <= 0 then Ready else Waiting)
    else p
  }

  function UpdateWaiting(s: Sched): Sched {
    s.(table := seq(|s.table|, i requires 0 <= i < |s.table| => if i < s.n then Woken(s.table[i]) else s.table[i]))
  }

  ghost predicate HasReady(s: Sched) {
    s.n <= |s.table| && exists i :: 0 <= i < s.n && Active(s.table[i])
  }

  function Put(s: Sched, i: int, p: Pcb): Sched {
    if 0 <= i < |s.table| then s.(table := s.table[i := p]) else s
  }

  function Slot(s: Sched, i: int): Pcb {
    if 0 <= i < |s.table| then s.table[i] else Pcb(0, Unused, 0, 0)
  }

  /** Hand the processor to slot `next`, when there is one. */
  function RunSlot(s: Sched, next: int): Sched {
    if next >= 0 then Put(s.(current := next), next, Slot(s, next).(state := Running)) else s
  }

  /** A running current process is put to sleep for three ticks. */
  function Stopped(s: Sched): (t: Sched)
    ensures t.n == s.n && t.current == s.current && |t.table| == |s.table|
  {
    var p := Slot(s, s.current);
    if p.state.Running? then Put(s, s.current, p.(state := Waiting, waitTicks := 3)) else s
  }

  function Yield(s: Sched): Sched
    requires s.n <= |s.table|
  {
    if s.preemptive || s.current < 0 || s.current >= s.n then s
    else RunSlot(Stopped(s), Pick(Stopped(s), Wrap(s.current + 1, s.n))).(slice := 0)
  }

  function Kill(s: Sched, pid: int): Sched {
    if pid < 0 || pid >= s.n then s else Put(s, pid, Slot(s, pid).(remaining := 0))
  }

  function Wait(s: Sched, pid: int, ticks: int): Sched {
    if pid < 0 || pid >= s.n || Slot(s, pid).state.Terminated? || Slot(s, pid).state.Unused? then s
    else Put(s, pid, Slot(s, pid).(state := Waiting, waitTicks := if ticks <= 0 then 10 else ticks))
  }

  function Spawn(s: Sched, id: nat, remaining: int): Sched {
    if s.n < MAX_PROCESSES then Put(s, s.n, Pcb(id, Ready, remaining, 0)).(n := s.n + 1) else s
  }

  /** Whether `current` has to be chosen anew at a tick. */
  predicate NeedsPick(s: Sched) {
    s.current < 0 || s.current >= s.n || !Slot(s, s.current).state.Running?
  }

  /** `pick_next_ready(current)` in C starts at slot 0 when current is -1 and one process exists. */
  function StartSlot(s: Sched): int { if s.current < 0 then 0 else s.current }

  function Dispatch(s: Sched): Sched
    requires 0 < s.n <= |s.table| && s.current < s.n
  {
    if NeedsPick(s) then
      var next := Pick(s, StartSlot(s));
      if next < 0 then s else RunSlot(s, next).(slice := 0)
    else s
  }

  function Act(s: Sched, a: Action): Sched
    requires s.n <= |s.table|
  {
    match a
    case YieldCall => Yield(s)
    case ExitCall => Kill(s, s.current)
  }

  function Acts(s: Sched, actions: seq<Action>): (r: Sched)
    requires s.n <= |s.table|
    ensures r.n == s.n && |r.table| == |s.table|
    decreases |actions|
  {
    if actions == [] then s else Acts(Act(s, actions[0]), actions[1..])
  }

  /** The finished slot is squeezed out; the slots behind it move down by one. */
  function Squeeze(t: seq<Pcb>, c: nat, n: nat): seq<Pcb>
    requires c < n <= |t|
  {
    t[..c] + t[c + 1..n] + [t[n - 1].(state := Unused)] + t[n..]
  }

  function Finish(s: Sched): Sched
    requires 0 <= s.current < s.n <= |s.table|
  {
    var s1 := s.(table := Squeeze(s.table, s.current, s.n), n := s.n - 1);
    if s1.n == 0 then s1.(current := -1)
    else
      var c := Wrap(s1.current, s1.n);
      var s2 := s1.(current := c, slice := 0);
      if Slot(s2, c).state.Ready? then Put(s2, c, Slot(s2, c).(state := Running)) else s2
  }

  function Preempt(s: Sched): Sched
    requires 0 <= s.current < s.n <= |s.table|
  {
    var s1 := Put(s, s.current, Slot(s, s.current).(state := Ready));
    RunSlot(s1, Pick(s1, Wrap(s1.current + 1, s1.n))).(slice := 0)
  }

  /** The process that ran has one tick less to go and one more in its slice. */
  function CountDown(s: Sched): Sched
    requires 0 <= s.current < s.n <= |s.table|
  {
    var p := Slot(s, s.current);
    Put(s, s.current, p.(remaining := p.remaining - 1)).(slice := s.slice + 1)
  }

  /** The part of the tick after the process body returned. */
  function Account(s: Sched): Sched
    requires 0 <= s.current < s.n <= |s.table|
  {
    var s1 := CountDown(s);
    if Slot(s1, s1.current).remaining <= 0 then Finish(s1)
    else if s1.preemptive && s1.slice >= QUANTUM then Preempt(s1)
    else s1
  }

  /** The tick keeps within the table: `pick_next_ready(-1)` is not called with two or more processes. */
  ghost predicate Anchored(s: Sched) { s.current >= 0 || s.n <= 1 }

  ghost function Tick(s: Sched, actions: seq<Action>): Sched
    requires Inv(s)
  {
    if s.n == 0 then s
    else
      var u := UpdateWaiting(s);
      if !HasReady(u) then u
      else
        DispatchRuns(u);
        ActsKeep(Dispatch(u), actions);
        Account(Acts(Dispatch(u), actions))
  }

  // ----- what picking means

  lemma {:induction false} ProbeFirst(t: seq<Pcb>, n: nat, from: nat, k: nat)
    requires from < n <= |t| && k <= n
    ensures var r := Probe(t, n, from, k);
            && (r >= 0 ==> Active(t[r]) && Dist(from, r, n) >= k)
            && (forall i :: 0 <= i < n && Active(t[i]) && Dist(from, i, n) >= k ==>
                  r >= 0 && Dist(from, r, n) <= Dist(from, i, n))
    decreases n - k
  {
    if k < n && !Active(t[Wrap(from + k, n)]) {
      ProbeFirst(t, n, from, k + 1);
    }
  }

  /** The nearest ready or running slot, and one is found whenever there is one. */
  lemma PickNearest(s: Sched, from: nat)
    requires from < s.n <= |s.table|
    ensures var r := Pick(s, from);
            && (r >= 0 ==> Active(s.table[r]))
            && (forall i :: 0 <= i < s.n && Active(s.table[i]) ==>
                  r >= 0 && Dist(from, r, s.n) <= Dist(from, i, s.n))
  {
    ProbeFirst(s.table, s.n, from, 0);
  }

  // ----- invariants of the pieces

  lemma UpdateKeeps(s: Sched)
    requires Inv(s)
    ensures Inv(UpdateWaiting(s))
  {}

  lemma DispatchRuns(s: Sched)
    requires Inv(s) && s.n > 0 && HasReady(s)
    ensures var d := Dispatch(s);
            && Inv(d) && d.n == s.n && 0 <= d.current < d.n && d.table[d.current].state.Running?
            && (NeedsPick(s) ==> d.slice == 0) && (!NeedsPick(s) ==> d == s)
            && d.preemptive == s.preemptive
  {
    if NeedsPick(s) { PickNearest(s, StartSlot(s)); }
  }

  ghost predicate NoneRunning(s: Sched) {
    s.n <= |s.table| && forall i :: 0 <= i < s.n ==> !s.table[i].state.Running?
  }

  /** Handing the idle processor to the nearest active slot. */
  lemma RunPickKeeps(s: Sched, from: nat)
    requires Inv(s) && NoneRunning(s) && from < s.n && s.current >= 0
    ensures var r := RunSlot(s, Pick(s, from)).(slice := 0);
            Inv(r) && r.n == s.n && r.current >= 0 && r.preemptive == s.preemptive
  {
    PickNearest(s, from);
  }

  lemma YieldKeeps(s: Sched)
    requires Inv(s)
    ensures Inv(Yield(s)) && Yield(s).n == s.n
    ensures s.current >= 0 ==> Yield(s).current >= 0
    ensures Yield(s).preemptive == s.preemptive
    ensures s.preemptive ==> Yield(s) == s
  {
    if !s.preemptive && 0 <= s.current < s.n {
      StoppedKeeps(s);
      hide Inv, NoneRunning, RunSlot, Put, Slot;
      RunPickKeeps(Stopped(s), Wrap(s.current + 1, s.n));
    }
  }

  lemma StoppedKeeps(s: Sched)
    requires Inv(s) && s.current >= 0
    ensures var t := Stopped(s);
            && Inv(t) && NoneRunning(t) && t.n == s.n && t.current == s.current && t.preemptive == s.preemptive
            && t.current < t.n <= |t.table|
  {}

  lemma KillKeeps(s: Sched, pid: int)
    requires Inv(s)
    ensures Inv(Kill(s, pid))
  {}

  lemma {:induction false} ActsKeep(s: Sched, actions: seq<Action>)
    requires Inv(s) && s.current >= 0
    ensures var r := Acts(s, actions);
            Inv(r) && r.n == s.n && r.current >= 0 && r.preemptive == s.preemptive
    ensures s.preemptive ==> Acts(s, actions).slice == s.slice
    decreases |actions|
  {
    if actions != [] {
      YieldKeeps(s);
      KillKeeps(s, s.current);
      ActsKeep(Act(s, actions[0]), actions[1..]);
    }
  }
}
