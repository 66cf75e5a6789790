/** The process table of kernel.c, updated in place. */
module Scheduler {
  import opened SchedModel
  import opened SchedProofs
  import opened SchedSteps

  class ProcessTable {
    const table: array<Pcb>
    var n: nat
    var current: int
    var slice: int
    var preemptive: bool

    /** The table as the kernel sets it up before it starts the shell, in preemptive mode. */
    constructor ()
      ensures Valid() && fresh(table) && View() == BOOT
      ensures n == 0 && current == -1 && slice == 0 && preemptive && table.Length == 10
    {
      table := new Pcb[MAX_PROCESSES](i => Pcb(0, Unused, 0, 0));
      n, current, slice, preemptive := 0, -1, 0, true;
      new;
      assert table[..] == BOOT.table;
    }

    ghost function View(): Sched
      reads this, table
    {
      Sched(table[..], n, current, slice, preemptive)
    }

    ghost predicate Valid()
      reads this, table
    {
      Inv(View())
    }

    method PickNextReady(from: int) returns (r: int)
      requires Valid() && (0 <= from < n || (from == -1 && n <= 1))
      ensures n == 0 ==> r == -1
      ensures n > 0 ==> r == Pick(View(), if from < 0 then 0 else from)
    {
      ghost var start := if from < 0 then 0 else from;
      var i := 0;
      while i < n
        invariant 0 <= i <= n
        invariant n > 0 ==> Pick(View(), start) == Probe(table[..], n, start, i)
      {
        ProbeSlotIs(from, i, n);
        var idx := CMod(from + i, n);
        if table[idx].state == Ready || table[idx].state == Running { return idx; }
        i := i + 1;
      }
      return -1;
    }

    method UpdateWaitingSlots()
      requires Valid()
      modifies table
      ensures Valid() && View() == UpdateWaiting(old(View()))
    {
      UpdateKeeps(View());
      var i := 0;
      while i < n
        invariant 0 <= i <= n
        invariant forall k :: 0 <= k < table.Length ==>
                    table[k] == if k < i then Woken(old(table[k])) else old(table[k])
      {
        if table[i].state == Waiting {
          if table[i].waitTicks > 0 {
            table[i] := table[i].(waitTicks := table[i].waitTicks - 1);
          }
          if table[i].waitTicks <= 0 {
            table[i] := table[i].(state := Ready);
          }
        }
        i := i + 1;
      }
      assert table[..] == UpdateWaiting(old(View())).table;
    }

    /** Hands the processor to the first active slot at or after `from`; the slice starts over. */
    method SwitchFrom(from: nat)
      requires Valid() && from < n
      modifies this`current, this`slice, table
      ensures View() == RunSlot(old(View()), Pick(old(View()), from)).(slice := 0)
    {
      var next := PickNextReady(from);
      if next >= 0 {
        current := next;
        table[current] := table[current].(state := Running);
      }
      slice := 0;
    }

    method YieldNow()
      requires Valid()
      modifies this`current, this`slice, table
      ensures Valid() && View() == Yield(old(View()))
    {
      hide Inv, Stopped, RunSlot, Pick;
      YieldKeeps(View());
      InvBounds(View());
      if preemptive { return; }
      if current < 0 || current >= n { return; }
      LeaveProcessor();
    }

    /** The current process stops and the next active one, if any, takes over. */
    method LeaveProcessor()
      requires Valid() && 0 <= current < n
      modifies this`current, this`slice, table
      ensures var s := Stopped(old(View())); View() == RunSlot(s, Pick(s, Wrap(s.current + 1, s.n))).(slice := 0)
    {
      hide Inv, Stopped, RunSlot, Pick;
      StopCurrent();
      InvBounds(View());
      WrapIsMod(current + 1, n);
      SwitchFrom((current + 1) % n);
    }

    method StopCurrent()
      requires Valid() && current >= 0
      modifies table
      ensures Valid() && View() == Stopped(old(View()))
    {
      StoppedKeeps(View());
      if table[current].state == Running {
        table[current] := table[current].(state := Waiting, waitTicks := 3);
      }
    }

    method KillProcess(pid: int)
      requires Valid()
      modifies table
      ensures Valid() && View() == Kill(old(View()), pid)
    {
      KillKeeps(View(), pid);
      if pid < 0 || pid >= n { return; }
      table[pid] := table[pid].(remaining := 0);
    }

    method WaitProcess(pid: int, ticks: int)
      requires Valid()
      modifies table
      ensures Valid() && View() == Wait(old(View()), pid, ticks)
    {
      WaitKeeps(View(), pid, ticks);
      if pid < 0 || pid >= n { return; }
      if table[pid].state == Terminated || table[pid].state == Unused { return; }
      var t := if ticks <= 0 then 10 else ticks;
      table[pid] := table[pid].(state := Waiting);
      table[pid] := table[pid].(waitTicks := t);
    }

    /** The table-append of `load_and_run` (50 ticks) and `spawn_pipeline_process` (100 ticks). */
    method Append(id: nat, ticks: int)
      requires Valid()
      modifies this`n, table
      ensures Valid() && View() == Spawn(old(View()), id, ticks)
    {
      SpawnKeeps(View(), id, ticks);
      if n < MAX_PROCESSES {
        table[n] := Pcb(id, Ready, ticks, 0);
        n := n + 1;
      }
    }

    /** A process body as far as the scheduler sees it: any sequence of yield and exit calls. */
    method Body(actions: seq<Action>)
      requires Valid() && current >= 0
      modifies this`current, this`slice, table
      ensures Valid() && current >= 0 && View() == Acts(old(View()), actions)
      decreases |actions|
    {
      if actions == [] { return; }
      YieldKeeps(View());
      match actions[0] {
        case YieldCall => YieldNow();
        case ExitCall => KillProcess(current);
      }
      Body(actions[1..]);
    }

    method SchedulerTick(actions: seq<Action>)
      requires Valid() && Anchored(View())
      modifies this`n, this`current, this`slice, table
      ensures Valid() && Anchored(View()) && View() == Tick(old(View()), actions)
      ensures actions == [] && !preemptive && old(Runs(View()) && table[current].remaining > 1) ==>
                && current == old(current) && n == old(n) && slice == old(slice) + 1
                && table[current] == old(table[current]).(remaining := old(table[current].remaining) - 1)
    {
      TickKeeps(View(), actions);
      if actions == [] && !preemptive && Runs(View()) && table[current].remaining > 1 { CooperativeTick(View()); }
      if n == 0 { return; }
      UpdateWaitingSlots();
      var hasReady := AnyReady();
      if !hasReady { return; }
      RunOne(actions);
    }

    /** The tick once somebody is ready: choose, run the body, account. */
    method RunOne(actions: seq<Action>)
      requires Valid() && n > 0 && HasReady(View()) && Anchored(View())
      modifies this`n, this`current, this`slice, table
      ensures Valid() && Inv(Dispatch(old(View()))) && Dispatch(old(View())).current >= 0
      ensures Inv(Acts(Dispatch(old(View())), actions)) && Acts(Dispatch(old(View())), actions).current >= 0
      ensures View() == Account(Acts(Dispatch(old(View())), actions))
    {
      DispatchRuns(View());
      DispatchNow();
      ActsKeep(View(), actions);
      Body(actions);
      AccountNow();
    }

    method AnyReady() returns (r: bool)
      requires Valid()
      ensures r <==> HasReady(View())
    {
      var i := 0;
      while i < n
        invariant 0 <= i <= n
        invariant forall k :: 0 <= k < i ==> !Active(table[k])
      {
        if table[i].state == Ready || table[i].state == Running {
          assert Active(View().table[i]);
          return true;
        }
        i := i + 1;
      }
      return false;
    }

    method DispatchNow()
      requires Valid() && Anchored(View()) && n > 0 && HasReady(View())
      modifies this`current, this`slice, table
      ensures Valid() && View() == Dispatch(old(View()))
    {
      DispatchRuns(View());
      if current < 0 || current >= n || table[current].state != Running {
        var next := PickNextReady(current);
        if next < 0 { return; }
        current := next;
        table[current] := table[current].(state := Running);
        slice := 0;
      }
    }

    method AccountNow()
      requires Valid() && current >= 0
      modifies this`n, this`current, this`slice, table
      ensures Valid() && View() == Account(old(View()))
    {
      AccountKeeps(View());
      CountedDown(View());
      table[current] := table[current].(remaining := table[current].remaining - 1);
      slice := slice + 1;
      assert View() == CountDown(old(View()));
      if table[current].remaining <= 0 {
        FinishNow();
        return;
      }
      if preemptive && slice >= QUANTUM {
        PreemptNow();
      }
    }

    method FinishNow()
      requires Valid() && current >= 0
      modifies this`n, this`current, this`slice, table
      ensures View() == Finish(old(View()))
    {
      Compact();
      if n == 0 {
        current := -1;
        return;
      }
      WrapIsMod(current, n);
      current := current % n;
      if table[current].state == Ready {
        table[current] := table[current].(state := Running);
      }
      slice := 0;
    }

    /** Marks the current process terminated and squeezes its slot out. */
    method Compact()
      requires Valid() && current >= 0
      modifies this`n, table
      ensures n == old(n) - 1 && table[..] == Squeeze(old(table[..]), current, old(n))
    {
      hide Squeeze;
      ghost var t0 := table[..];
      table[current] := table[current].(state := Terminated);
      ghost var t1 := table[..];
      ShiftDown();
      table[n - 1] := table[n - 1].(state := Unused);
      SqueezeIs(t0, t1, table[..], current, n);
      n := n - 1;
    }

    /** Moves the slots behind the current one down by one. */
    method ShiftDown()
      requires table.Length == MAX_PROCESSES && 0 <= current < n <= MAX_PROCESSES
      modifies table
      ensures forall k :: 0 <= k < table.Length ==>
                table[k] == if current <= k < n - 1 then old(table[k + 1]) else old(table[k])
    {
      var i := current;
      while i < n - 1
        invariant current <= i <= n - 1
        invariant forall k :: 0 <= k < table.Length ==>
                    table[k] == if current <= k < i then old(table[k + 1]) else old(table[k])
      {
        table[i] := table[i + 1];
        i := i + 1;
      }
    }

    method PreemptNow()
      requires Valid() && current >= 0
      modifies this`current, this`slice, table
      ensures View() == Preempt(old(View()))
    {
      table[current] := table[current].(state := Ready);
      WrapIsMod(current + 1, n);
      SwitchFrom((current + 1) % n);
    }

    /** Drives the table through any sequence of events whose ticks start anchored. */
    method Drive(events: seq<Event>)
      requires Valid() && AnchoredAtTicks(View(), events)
      modifies this`n, this`current, this`slice, this`preemptive, table
      ensures Valid() && View() == Run(old(View()), events)
      decreases |events|
    {
      if events == [] { return; }
      ApplyKeeps(View(), events[0]);
      match events[0] {
        case TickEvent(actions) => SchedulerTick(actions);
        case YieldEvent => YieldNow();
        case WaitEvent(pid, ticks) => WaitProcess(pid, ticks);
        case KillEvent(pid) => KillProcess(pid);
        case SpawnEvent(id, ticks) => Append(id, ticks);
        case ModeEvent(on) => preemptive := on;
      }
      Drive(events[1..]);
    }
  }

  lemma SqueezeIs(t0: seq<Pcb>, t1: seq<Pcb>, t2: seq<Pcb>, c: nat, n: nat)
    requires c < n <= |t0| == |t1| == |t2| && t1 == t0[c := t0[c].(state := Terminated)]
    requires forall k {:trigger t2[k]} :: 0 <= k < |t0| && k != n - 1 ==>
               t2[k] == (if c <= k < n - 1 then t1[k + 1] else t1[k])
    requires t2[n - 1] == t1[n - 1].(state := Unused)
    ensures t2 == Squeeze(t0, c, n)
  {
    SqueezeKeepsOrder(t0, c, n);
    var q := Squeeze(t0, c, n);
    assert q[n - 1] == t0[n - 1].(state := Unused);
    hide Squeeze;
    forall k | 0 <= k < |q| ensures t2[k] == q[k] {
      if k < n - 1 {
        assert q[k] == t0[if k < c then k else k + 1];
        assert t2[k] == t1[if k < c then k else k + 1];
      } else if k > n - 1 {
        assert q[k] == t0[k] && t2[k] == t1[k];
      }
    }
  }

  lemma ProbeSlotIs(from: int, i: nat, n: nat)
    requires i < n && (0 <= from < n || (from == -1 && n == 1))
    ensures CMod(from + i, n) == Wrap((if from < 0 then 0 else from) + i, n)
    ensures 0 <= CMod(from + i, n) < n
  {
    if from >= 0 { WrapIsMod(from + i, n); }
  }
}
