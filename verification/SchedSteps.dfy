/** What each step of the scheduler does to every slot, in both modes. */
module SchedSteps {
  import opened SchedModel
  import opened SchedProofs
  import opened SchedLiveness

  // ----- waiting

  /** A waiting process has one tick less to wait and is ready when none is left; nothing else changes. */
  lemma UpdateSlots(s: Sched)
    requires Inv(s)
    ensures var u := UpdateWaiting(s);
            && u.n == s.n && u.current == s.current && u.slice == s.slice && u.preemptive == s.preemptive
            && |u.table| == |s.table|
            && forall i :: 0 <= i < |s.table| ==>
                 && u.table[i].id == s.table[i].id && u.table[i].remaining == s.table[i].remaining
                 && (!s.table[i].state.Waiting? ==> u.table[i] == s.table[i])
                 && (s.table[i].state.Waiting? ==>
                       && u.table[i].waitTicks == s.table[i].waitTicks - 1
                       && u.table[i].state == (if s.table[i].waitTicks > 1 then Waiting else Ready))
  {}

  function Updates(s: Sched, k: nat): Sched {
    if k == 0 then s else UpdateWaiting(Updates(s, k - 1))
  }

  /** A process that waits w ticks sleeps through all of them but the last, and is ready from that on. */
  lemma {:induction false} WakesAfter(s: Sched, i: nat, k: nat)
    requires Inv(s) && i < s.n && s.table[i].state.Waiting?
    ensures var u, w := Updates(s, k), s.table[i].waitTicks;
            && Inv(u) && u.n == s.n && w > 0
            && u.table[i].id == s.table[i].id && u.table[i].remaining == s.table[i].remaining
            && (k < w ==> u.table[i].state.Waiting? && u.table[i].waitTicks == w - k)
            && (k >= w ==> u.table[i].state.Ready?)
  {
    if k > 0 {
      WakesAfter(s, i, k - 1);
      UpdateKeeps(Updates(s, k - 1));
      UpdateSlots(Updates(s, k - 1));
    }
    hide UpdateWaiting;
  }

  // ----- shell commands and system calls

  /** `wait`: the ticks asked, or ten; the named slot alone. */
  lemma WaitEffect(s: Sched, pid: int, ticks: int)
    requires Inv(s)
    ensures !(0 <= pid < s.n) ==> Wait(s, pid, ticks) == s
    ensures 0 <= pid < s.n ==>
              var w := Wait(s, pid, ticks);
              && w == s.(table := w.table) && |w.table| == |s.table|
              && (forall i :: 0 <= i < |s.table| && i != pid ==> w.table[i] == s.table[i])
              && w.table[pid].id == s.table[pid].id && w.table[pid].remaining == s.table[pid].remaining
              && w.table[pid].state.Waiting? && w.table[pid].waitTicks == (if ticks >= 1 then ticks else 10)
  {}

  /** `kill`: no remaining time for the named slot, current or not, and nothing else. */
  lemma KillEffect(s: Sched, pid: int)
    requires Inv(s)
    ensures !(0 <= pid < s.n) ==> Kill(s, pid) == s
    ensures 0 <= pid < s.n ==>
              var k := Kill(s, pid);
              && k == s.(table := k.table) && |k.table| == |s.table|
              && (forall i :: 0 <= i < |s.table| && i != pid ==> k.table[i] == s.table[i])
              && k.table[pid].remaining == 0 && k.table[pid].id == s.table[pid].id
              && k.table[pid].state == s.table[pid].state && k.table[pid].waitTicks == s.table[pid].waitTicks
  {}

  /** A new process is ready, behind the others, with the ticks asked; a full table stays as it is. */
  lemma SpawnEffect(s: Sched, id: nat, remaining: int)
    requires Inv(s)
    ensures s.n == 10 ==> Spawn(s, id, remaining) == s
    ensures s.n < 10 ==>
              var t := Spawn(s, id, remaining);
              && t.n == s.n + 1 && t == s.(table := t.table, n := t.n) && |t.table| == |s.table|
              && t.table[s.n] == Pcb(id, Ready, remaining, 0)
              && forall i :: 0 <= i < |s.table| && i != s.n ==> t.table[i] == s.table[i]
  {}

  // ----- who runs next

  /** Slot r is the first active one from slot `from` on around the ring. */
  ghost predicate Nearest(t: seq<Pcb>, n: nat, from: nat, r: int) {
    && 0 <= r < n <= |t| && Active(t[r])
    && forall i :: 0 <= i < n && Active(t[i]) ==> Dist(from, r, n) <= Dist(from, i, n)
  }

  /** The slot behind c on a ring of n. */
  function Next(c: nat, n: nat): nat { if c + 1 < n then c + 1 else 0 }

  /** A tick keeps the process that runs, and otherwise takes the first active one from the current slot on. */
  lemma DispatchEffect(s: Sched)
    requires Inv(s) && 0 < s.n && HasReady(s)
    ensures s.current >= 0 && s.table[s.current].state.Running? ==> Dispatch(s) == s
    ensures !(s.current >= 0 && s.table[s.current].state.Running?) ==>
              var d := Dispatch(s);
              && Nearest(s.table, s.n, if s.current < 0 then 0 else s.current, d.current)
              && d == s.(table := s.table[d.current := s.table[d.current].(state := Running)],
                         current := d.current, slice := 0)
  {
    PickNearest(s, StartSlot(s));
  }

  /** Yielding in cooperative mode: the running process sleeps three ticks, and the first other active one behind
      it takes over with a new slice; with no other the processor stays with the sleeper's slot. */
  lemma YieldEffect(s: Sched)
    requires Inv(s) && !s.preemptive && s.current >= 0 && s.table[s.current].state.Running?
    ensures var c, y := s.current, Yield(s);
            var asleep := s.table[c := s.table[c].(state := Waiting, waitTicks := 3)];
            && y.n == s.n && !y.preemptive && y.slice == 0
            && ((exists i :: 0 <= i < s.n && Active(asleep[i])) ==>
                  && Nearest(asleep, s.n, Next(c, s.n), y.current) && y.current != c
                  && y.table == asleep[y.current := asleep[y.current].(state := Running)])
            && ((forall i :: 0 <= i < s.n ==> !Active(asleep[i])) ==> y.current == c && y.table == asleep)
  {
    PickNearest(Stopped(s), Wrap(s.current + 1, s.n));
  }

  // ----- a tick of the running process

  ghost predicate Runs(s: Sched) { Inv(s) && s.current >= 0 && s.table[s.current].state.Running? }

  /** The running process with one tick less to go, after all waits were counted down. */
  function OneLess(s: Sched): seq<Pcb>
    requires 0 <= s.current < |s.table|
  {
    UpdateWaiting(s).table[s.current := s.table[s.current].(remaining := s.table[s.current].remaining - 1)]
  }

  lemma BodyRuns(s: Sched)
    requires Runs(s)
    ensures var u := UpdateWaiting(s);
            && Inv(u) && HasReady(u) && s.n > 0 && Dispatch(u) == u && u.table[s.current] == s.table[s.current]
            && Tick(s, []) == Account(u) && |OneLess(s)| == |s.table| && CountDown(u).table == OneLess(s)
  {
    UpdateKeeps(s);
    var u := UpdateWaiting(s);
    assert Active(u.table[s.current]);
    DispatchRuns(u);
  }

  /** It keeps the processor: in cooperative mode always, in preemptive mode within its quantum. */
  lemma StaysOn(s: Sched)
    requires Runs(s) && s.table[s.current].remaining > 1 && (!s.preemptive || s.slice + 1 < 4)
    ensures Tick(s, []) == s.(table := OneLess(s), slice := s.slice + 1)
  {
    BodyRuns(s);
  }

  /** At the end of its quantum, in preemptive mode, it is ready again, and the first active process behind it,
      itself the last of all, gets a new slice. */
  lemma QuantumEnds(s: Sched)
    requires Runs(s) && s.table[s.current].remaining > 1 && s.preemptive && s.slice + 1 >= 4
    ensures var c, t := s.current, Tick(s, []);
            |OneLess(s)| == |s.table| &&
            var left := OneLess(s)[c := OneLess(s)[c].(state := Ready)];
            && Nearest(left, s.n, Next(c, s.n), t.current)
            && t == s.(table := left[t.current := left[t.current].(state := Running)], current := t.current, slice := 0)
  {
    BodyRuns(s);
    var s1 := Put(CountDown(UpdateWaiting(s)), s.current, OneLess(s)[s.current].(state := Ready));
    PickNearest(s1, Wrap(s.current + 1, s.n));
    assert Active(s1.table[s.current]);
  }

  /** With its last tick it leaves the table; those behind move down, and the one that takes its slot, or the first
      when it was the last, is current and runs if it is ready. */
  lemma LastTick(s: Sched)
    requires Runs(s) && s.table[s.current].remaining <= 1
    ensures var c, t, u := s.current, Tick(s, []), UpdateWaiting(s).table;
            && t.n == s.n - 1 && |t.table| == |u| == |s.table| && t.preemptive == s.preemptive
            && t.current == (if s.n == 1 then -1 else if c < s.n - 1 then c else 0)
            && t.slice == (if s.n == 1 then s.slice + 1 else 0)
            && t.table[s.n - 1].state.Unused?
            && forall i :: 0 <= i < s.n - 1 ==>
                 var p := u[if i < c then i else i + 1];
                 t.table[i] == if i == t.current && p.state.Ready? then p.(state := Running) else p
  {
    hide Finish;
    BodyRuns(s);
    CountedDown(UpdateWaiting(s));
    FinishEffect(CountDown(UpdateWaiting(s)));
  }

  /** The finished slot goes, those behind it move down by one, and its place, or slot 0, comes next. */
  lemma FinishEffect(f: Sched)
    requires 0 <= f.current < f.n <= |f.table|
    ensures var c, t := f.current, Finish(f);
            && t.n == f.n - 1 && |t.table| == |f.table| && t.preemptive == f.preemptive
            && t.current == (if f.n == 1 then -1 else if c < f.n - 1 then c else 0)
            && t.slice == (if f.n == 1 then f.slice else 0)
            && t.table[f.n - 1].state.Unused?
            && forall i :: 0 <= i < f.n - 1 ==>
                 var p := f.table[if i < c then i else i + 1];
                 t.table[i] == if i == t.current && p.state.Ready? then p.(state := Running) else p
  {
    hide Squeeze;
    SqueezeKeepsOrder(f.table, f.current, f.n);
  }

  // ----- a tick that finds nobody running

  /** Nobody is ready once the waits were counted down: that is all the tick does. */
  lemma TickIdles(s: Sched, actions: seq<Action>)
    requires Inv(s) && forall i :: 0 <= i < s.n ==> !Active(UpdateWaiting(s).table[i])
    ensures Tick(s, actions) == if s.n == 0 then s else UpdateWaiting(s)
  {}

  /** Somebody is, perhaps just woken: the first from the current slot on runs in this very tick. */
  lemma TickStarts(s: Sched)
    requires Inv(s) && s.n > 0 && !Runs(s) && HasReady(UpdateWaiting(s))
    ensures var t, u := Tick(s, []), UpdateWaiting(s).table;
            |u| == |s.table| && exists r ::
              && Nearest(u, s.n, if s.current < 0 then 0 else s.current, r)
              && (u[r].remaining > 1 ==>
                    t == s.(table := u[r := u[r].(state := Running, remaining := u[r].remaining - 1)],
                            current := r, slice := 1))
              && (u[r].remaining <= 1 ==> t.n == s.n - 1)
  {
    hide Dispatch, Account;
    UpdateKeeps(s);
    UpdateSlots(s);
    var u := UpdateWaiting(s);
    DispatchRuns(u);
    DispatchEffect(u);
    hide UpdateWaiting;
    var r := Dispatch(u).current;
    FirstCount(Dispatch(u));
    assert Nearest(u.table, s.n, if s.current < 0 then 0 else s.current, r);
  }

  /** The accounting of a slice that has just begun. */
  lemma FirstCount(d: Sched)
    requires Inv(d) && d.current >= 0
    ensures var p := d.table[d.current];
            && (p.remaining <= 1 ==> Account(d).n == d.n - 1)
            && (p.remaining > 1 && d.slice == 0 ==>
                  Account(d) == d.(table := d.table[d.current := p.(remaining := p.remaining - 1)], slice := 1))
  {
    CountedDown(d);
    FinishKeeps(CountDown(d));
    hide Squeeze;
  }

  // ----- what a body does

  /** A body that exits ends its process with this tick, as a kill before the tick would. */
  lemma ExitIsKill(s: Sched)
    requires Runs(s)
    ensures Inv(Kill(s, s.current)) && Tick(s, [ExitCall]) == Tick(Kill(s, s.current), [])
    ensures Tick(s, [ExitCall]).n == s.n - 1
  {
    var k := Kill(s, s.current);
    KillKeeps(s, s.current);
    BodyRuns(s);
    BodyRuns(k);
    var u := UpdateWaiting(s);
    assert Acts(u, [ExitCall]) == Kill(u, u.current) by { assert [ExitCall][1..] == []; }
    assert Kill(u, u.current).table == UpdateWaiting(k).table;
    FirstCount(UpdateWaiting(k));
  }

  /** A body that yields in cooperative mode: the rest of the tick is charged to the process that took over, and
      the one that yielded keeps its remaining time. */
  lemma YieldIsCharged(s: Sched)
    requires Runs(s) && !s.preemptive
    ensures var u := UpdateWaiting(s);
            var y, t := Yield(u), Tick(s, [YieldCall]);
            && Runs(u) && Inv(y) && y.current >= 0
            && (var p := y.table[y.current];
                p.remaining > 1 ==>
                  t == y.(table := y.table[y.current := p.(remaining := p.remaining - 1)], slice := 1))
            && (y.current != s.current && t.n == s.n ==>
                  t.table[s.current].remaining == s.table[s.current].remaining && t.table[s.current].waitTicks == 3)
  {
    BodyRuns(s);
    var u := UpdateWaiting(s);
    assert Acts(u, [YieldCall]) == Yield(u) by { assert [YieldCall][1..] == []; }
    YieldKeeps(u);
    YieldEffect(u);
    FirstCount(Yield(u));
    hide Yield, Account, UpdateWaiting;
  }

  // ----- cooperative runs

  /** In cooperative mode a tick of a running process with more than one tick to go, whose body neither yields nor
      exits, leaves it current and running with one tick less, however long it has run. */
  lemma CooperativeTick(s: Sched)
    requires Runs(s) && !s.preemptive && s.table[s.current].remaining > 1
    ensures var t := Tick(s, []);
            && Runs(t) && t.current == s.current && t.n == s.n && !t.preemptive && t.slice == s.slice + 1
            && t.table[s.current] == s.table[s.current].(remaining := s.table[s.current].remaining - 1)
            && forall i :: 0 <= i < s.n && i != s.current ==> t.table[i] == UpdateWaiting(s).table[i]
  {
    StaysOn(s);
    TickKeeps(s, []);
  }

  /** Ticks whose bodies make no calls, and new processes. */
  ghost predicate Quiet(events: seq<Event>) {
    forall e :: e in events ==> e == TickEvent([]) || e.SpawnEvent?
  }

  /** Over such a run the process keeps the processor while it has ticks to go. */
  lemma {:induction false} KeepsProcessor(s: Sched, events: seq<Event>)
    requires Runs(s) && !s.preemptive && Quiet(events) && Ticks(events) < s.table[s.current].remaining
    ensures AnchoredAtTicks(s, events)
    ensures var t := Run(s, events);
            && Runs(t) && !t.preemptive && t.current == s.current && t.slice == s.slice + Ticks(events)
            && t.table[s.current] == s.table[s.current].(remaining := s.table[s.current].remaining - Ticks(events))
    decreases |events|
  {
    if events != [] {
      var e := events[0];
      assert e in events;
      ApplyKeeps(s, e);
      assert Quiet(events[1..]);
      if e.TickEvent? { CooperativeTick(s); } else { SpawnEffect(s, e.id, e.remaining); }
      hide Inv, Tick, Spawn;
      KeepsProcessor(Apply(s, e), events[1..]);
    }
  }

  /** And leaves the table with the last of them. */
  lemma EndsOnTime(s: Sched, events: seq<Event>)
    requires Runs(s) && !s.preemptive && Quiet(events) && Ticks(events) == s.table[s.current].remaining - 1
    ensures AnchoredAtTicks(s, events)
    ensures var t := Run(s, events); Runs(t) && t.current == s.current && Tick(t, []).n == t.n - 1
  {
    KeepsProcessor(s, events);
    hide Run, Tick, Finish;
    LastTick(Run(s, events));
  }
}
