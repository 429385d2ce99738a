/**
 Scheduler and context switch together: whoever the run queue picks is resumed with the context it left.
 */
module Tasks {
  import opened Words
  import opened Sched
  import opened Switch

  type Happening = Switch.Event

  // ---------- what the switches say ----------

  /** Tasks created so far. */
  ghost function Tally(events: seq<Happening>): nat {
    if events == [] then 0
    else Tally(events[..|events| - 1]) + if events[|events| - 1].Created? then 1 else 0
  }

  /** The task that runs now, 0 for the boot code. */
  ghost function Now(events: seq<Happening>): int {
    if events == [] then 0
    else if events[|events| - 1].Switched? then events[|events| - 1].to
    else Now(events[..|events| - 1])
  }

  /** Event `i` is the next creation, or a switch from the running task to the one after it in the circle. */
  ghost predicate InTurn(events: seq<Happening>, i: int)
    requires 0 <= i < |events|
  {
    var n, now := Tally(events[..i]), Now(events[..i]);
    match events[i]
    case Created(p, _) => p == n + 1
    case Switched(from, _, to) => from == now && 0 <= now <= n && to == Next(n, now - 1) + 1
  }

  ghost predicate RoundRobin(events: seq<Happening>) {
    forall i :: 0 <= i < |events| ==> InTurn(events, i)
  }

  lemma OneMoreInTurn(events: seq<Happening>, e: Happening)
    requires RoundRobin(events) && InTurn(events + [e], |events|)
    ensures RoundRobin(events + [e])
    ensures Tally(events + [e]) == Tally(events) + (if e.Created? then 1 else 0)
    ensures Now(events + [e]) == if e.Switched? then e.to else Now(events)
  {
    var more := events + [e];
    assert more[..|events|] == events;
    forall i | 0 <= i < |more| ensures InTurn(more, i) {
      if i < |events| {
        assert InTurn(events, i);
        assert more[..i] == events[..i];
      }
    }
  }

  /** A suspended task left at some event, has not been resumed since, and its context is the one it left with. */
  lemma {:induction false} LeftWithContext(trace: seq<Contexts>, events: seq<Happening>, p: int, k: nat) returns (m: nat)
    requires IsRun(trace, events) && trace[0] == map[] && k < |trace| && p in trace[k] && p != 0
    ensures m < k && Leaves(events[m], p, trace[k][p])
    ensures forall l :: m < l < k && events[l].Switched? ==> events[l].to != p
  {
    assert Step(trace[k - 1], events[k - 1], trace[k]);
    if Leaves(events[k - 1], p, trace[k][p]) {
      m := k - 1;
    } else {
      m := LeftWithContext(trace, events, p, k - 1);
    }
  }

  /** One switch, read off the events. */
  lemma SwitchAdvances(events: seq<Happening>, x: nat)
    requires RoundRobin(events) && x < |events| && events[x].Switched?
    ensures Tally(events[..x + 1]) == Tally(events[..x]) && Now(events[..x + 1]) == events[x].to
    ensures var n, now := Tally(events[..x]), Now(events[..x]); 0 <= now <= n && events[x].to == Next(n, now - 1) + 1
  {
    hide Next;
    assert InTurn(events, x);
    assert events[..x + 1][..x] == events[..x];
  }

  /** During `n` switches in a row the number of tasks stands still, and they follow the schedule of numbers. */
  lemma {:induction false} SwitchesAdvance(events: seq<Happening>, i: nat, j: nat, n: nat, cur: int)
    requires RoundRobin(events) && i + j <= |events| && n == Tally(events[..i]) && 0 <= cur < n && Now(events[..i]) == cur + 1
    requires forall l :: i <= l < i + j ==> events[l].Switched?
    ensures Tally(events[..i + j]) == n && Now(events[..i + j]) == After(n, cur, OnlyYields(j)).1 + 1
    decreases j
  {
    hide Next, RoundRobin;
    if j > 0 {
      SwitchesAdvance(events, i, j - 1, n, cur);
      SwitchAdvances(events, i + j - 1);
      var evs := OnlyYields(j);
      assert evs[..j - 1] == OnlyYields(j - 1);
      StillAll(n, cur, j - 1);
    }
  }

  lemma {:induction false} StillAll(n: nat, cur: int, j: nat)
    requires 0 <= cur < n
    ensures After(n, cur, OnlyYields(j)).0 == n
  {
    YieldsAdvance(n, cur, j);
  }

  /** Event `k` resumes task `p` with the context `p` left with at event `m`, its last one. */
  ghost predicate Resumes(trace: seq<Contexts>, events: seq<Happening>, k: int, m: int, p: int)
    requires |trace| == |events| + 1
  {
    && 0 <= m < k < |events| && events[k].Switched? && events[k].to == p
    && p in trace[k] && Leaves(events[m], p, trace[k][p])
    && forall l :: m < l < k && events[l].Switched? ==> events[l].to != p
  }

  /**
   Among `n` switches in a row of `n` tasks every task is resumed exactly once, with the registers, stack
   and return address of its own last call of `switch_to`, or those it was created with.
   */
  lemma EachResumedOnce(trace: seq<Contexts>, events: seq<Happening>, i: nat, n: nat, p: int)
    requires IsRun(trace, events) && trace[0] == map[] && RoundRobin(events)
    requires i + n <= |events| && n == Tally(events[..i]) && 1 <= Now(events[..i]) <= n && 1 <= p <= n
    requires forall l :: i <= l < i + n ==> events[l].Switched?
    ensures exists k, m :: i <= k < i + n && Resumes(trace, events, k, m, p)
    ensures forall k, l :: i <= k < i + n && i <= l < i + n && events[k].to == p && events[l].to == p ==> k == l
  {
    hide Leaves, RoundRobin, After, IsRun;
    var cur := Now(events[..i]) - 1;
    forall k | i <= k < i + n ensures events[k].to == p <==> RunsAt(n, cur, k - i + 1, p - 1) {
      SwitchesAdvance(events, i, k - i + 1, n, cur);
      SwitchAdvances(events, k);
    }
    EachRunsOnce(n, cur, p - 1);
    var j: nat :| 1 <= j <= n && RunsAt(n, cur, j, p - 1);
    var k := i + j - 1;
    assert events[k].to == p;
    SuspendedBefore(trace, events, k);
    var m := LeftWithContext(trace, events, p, k);
    assert Resumes(trace, events, k, m, p);
  }

  lemma SuspendedBefore(trace: seq<Contexts>, events: seq<Happening>, k: nat)
    requires IsRun(trace, events) && k < |events| && events[k].Switched?
    ensures |trace| == |events| + 1 && events[k].to in trace[k]
  {
    assert Step(trace[k], events[k], trace[k + 1]);
  }

  // ---------- the kernel's tasks ----------

  class Tasks {
    const sched: Scheduler
    const cpu: Cpu

    /** Queue and processor agree on the running task, and every switch so far was in turn. */
    ghost predicate Valid()
      reads this, sched, sched.Repr, cpu
    {
      && cpu !in sched.Repr && sched !in sched.Repr && this !in sched.Repr
      && sched.Valid() && cpu.Valid() && |cpu.trace| > 0 && cpu.trace[0] == map[]
      && (forall p :: p in cpu.stacks <==> 1 <= p <= |sched.procs|)
      && RoundRobin(cpu.events) && Tally(cpu.events) == |sched.procs|
      && Now(cpu.events) == cpu.current == sched.Cur() + 1
    }

    constructor ()
      ensures Valid() && fresh(sched) && fresh(cpu) && sched.procs == [] && cpu.events == []
    {
      sched := new Scheduler();
      cpu := new Cpu();
    }

    /** `create_process`: a process at the end of the circle and the stack it will start on. */
    method Spawn(stack: int, entry: int, taskReturned: int) returns (p: Process)
      requires Valid()
      requires forall q :: q in cpu.stacks ==> stack + STACK_SIZE <= cpu.stacks[q].lo || cpu.stacks[q].hi <= stack
      modifies sched, sched.Repr, cpu
      ensures Valid() && fresh(p) && sched.procs == old(sched.procs) + [p] && sched.Repr == old(sched.Repr) + {p}
      ensures p.pid in cpu.contexts && cpu.contexts[p.pid].ret == entry && cpu.contexts[p.pid].regs == ZERO_REGS
      ensures var sp := cpu.contexts[p.pid].rsp + 8;
              sp % 16 == 8 && sp in cpu.mem && cpu.mem[sp] == taskReturned && stack <= sp < stack + STACK_SIZE
      ensures cpu.events == old(cpu.events) + [Created(p.pid, cpu.contexts[p.pid])]
    {
      hide RoundRobin, Scheduler.Valid, Cpu.Valid;
      p := sched.CreateProcess();
      ghost var events := cpu.events;
      cpu.Create(p.pid, stack, entry, taskReturned);
      assert cpu.events[..|events|] == events;
      OneMoreInTurn(events, cpu.events[|events|]);
    }

    /**
     `schedule`: the next process in the circle is resumed with the context it left; a lone one just goes on.
     */
    method Yield()
      requires Valid() && (cpu.current != 0 ==> cpu.CanSwitch())
      modifies sched`current, sched.Repr, cpu
      ensures Valid() && sched.procs == old(sched.procs) && cpu.stacks == old(cpu.stacks)
      ensures sched.Cur() == Next(|sched.procs|, old(sched.Cur()))
      ensures if cpu.current == old(cpu.current) then unchanged(cpu)
              else && cpu.current in old(cpu.contexts)
                   && cpu.regs == old(cpu.contexts)[cpu.current].regs && cpu.rsp == old(cpu.contexts)[cpu.current].rsp + 8
                   && cpu.rip == old(cpu.contexts)[cpu.current].ret
                   && cpu.events == old(cpu.events) + [Switched(old(cpu.current), old(cpu.Leaving()), cpu.current)]
    {
      hide RoundRobin, Cpu.Valid;
      ghost var events := cpu.events;
      sched.Schedule();
      if sched.current != null && sched.current.pid != cpu.current {
        cpu.SwitchTo(sched.current.pid);
        assert cpu.events[..|events|] == events;
        OneMoreInTurn(events, cpu.events[|events|]);
      }
    }

    /** The running task computes, as it likes but for the stacks of the others. */
    method Compute(regs: Regs, rsp: int, m: Memory)
      requires Valid() && cpu.current != 0
      requires forall p :: p in cpu.stacks && p != cpu.current ==> StackKept(cpu.mem, m, cpu.stacks[p])
      modifies cpu`mem, cpu`regs, cpu`rsp
      ensures Valid() && cpu.mem == m && cpu.regs == regs && cpu.rsp == rsp
    {
      hide RoundRobin, Cpu.Valid, Scheduler.Valid;
      cpu.Compute(regs, rsp, m);
    }
  }
}
