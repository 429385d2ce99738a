/**
 `switch_to`: saving one task's callee-saved registers on its own stack and resuming another's.
 */
module Switch {
  import opened Words

  /** The callee-saved registers of the System V AMD64 convention, stack pointer aside. */
  datatype Regs = Regs(rbp: int, rbx: int, r12: int, r13: int, r14: int, r15: int)

  const ZERO_REGS: Regs := Regs(0, 0, 0, 0, 0, 0)

  /** A task's own view at its call of `switch_to`: registers, stack pointer, where it will return. */
  datatype Context = Context(regs: Regs, rsp: int, ret: int)

  /** Stack bytes [lo, hi) of a task. */
  datatype Stack = Stack(lo: int, hi: int)

  type Memory = map<int, int>

  const STACK_SIZE: int := 16 * 1024

  /** The seven words from `sp` up hold the registers and the return address. */
  ghost predicate Holds(m: Memory, sp: int, c: Context) {
    && sp in m && sp + 8 in m && sp + 16 in m && sp + 24 in m && sp + 32 in m && sp + 40 in m && sp + 48 in m
    && Regs(m[sp + 40], m[sp + 32], m[sp + 24], m[sp + 16], m[sp + 8], m[sp]) == c.regs
    && m[sp + 48] == c.ret
    && c.rsp == sp + 48
  }

  /** A suspended task: its frame lies in its own stack and holds its context. */
  ghost predicate Suspended(m: Memory, s: Stack, sp: int, c: Context) {
    s.lo <= sp && sp + 56 <= s.hi && Holds(m, sp, c)
  }

  ghost predicate Apart(stacks: map<int, Stack>) {
    forall p, q :: p in stacks && q in stacks && p != q ==> stacks[p].hi <= stacks[q].lo || stacks[q].hi <= stacks[p].lo
  }

  lemma OneMoreApart(stacks: map<int, Stack>, p: int, s: Stack)
    requires Apart(stacks) && p !in stacks && forall q :: q in stacks ==> s.hi <= stacks[q].lo || stacks[q].hi <= s.lo
    ensures Apart(stacks[p := s])
  {
  }

  /** Nothing in the stack of `p` differs between `m` and `m'`. */
  ghost predicate StackKept(m: Memory, m': Memory, s: Stack) {
    forall x {:trigger x in m} :: s.lo <= x < s.hi && x in m ==> x in m' && m'[x] == m[x]
  }

  lemma StillSuspended(m: Memory, m': Memory, s: Stack, sp: int, c: Context)
    requires Suspended(m, s, sp, c) && StackKept(m, m', s)
    ensures Suspended(m', s, sp, c)
  {
  }

  /** Every one of `contexts` belongs to a suspended task. */
  ghost predicate AllHeld(m: Memory, stacks: map<int, Stack>, saved: map<int, int>, contexts: Contexts) {
    forall p :: p in contexts ==> p in stacks && p in saved && Suspended(m, stacks[p], saved[p], contexts[p])
  }

  /** Writing outside the stacks of the tasks in `contexts` keeps them suspended. */
  lemma HeldKept(m: Memory, m': Memory, stacks: map<int, Stack>, saved: map<int, int>, contexts: Contexts)
    requires AllHeld(m, stacks, saved, contexts)
    requires forall p :: p in contexts && p in stacks ==> StackKept(m, m', stacks[p])
    ensures AllHeld(m', stacks, saved, contexts)
  {
    hide Suspended, StackKept;
    forall p | p in contexts ensures p in stacks && p in saved && Suspended(m', stacks[p], saved[p], contexts[p]) {
      StillSuspended(m, m', stacks[p], saved[p], contexts[p]);
    }
  }

  /** One more suspended task. */
  lemma HeldMore(m: Memory, stacks: map<int, Stack>, saved: map<int, int>, contexts: Contexts, p: int, s: Stack, sp: int, c: Context)
    requires AllHeld(m, stacks, saved, contexts) && Suspended(m, s, sp, c) && p !in contexts
    ensures AllHeld(m, stacks[p := s], saved[p := sp], contexts[p := c])
  {
    hide Suspended;
  }

  lemma HeldLess(m: Memory, stacks: map<int, Stack>, saved: map<int, int>, contexts: Contexts, p: int)
    requires AllHeld(m, stacks, saved, contexts) && p in contexts
    ensures AllHeld(m, stacks, saved, contexts - {p})
    ensures p in stacks && p in saved && Suspended(m, stacks[p], saved[p], contexts[p])
  {
    hide Suspended;
  }

  /** Six words below the top of one stack lie in no other. */
  lemma PushKeeps(m: Memory, m': Memory, stacks: map<int, Stack>, cur: int, rsp: int)
    requires Apart(stacks) && cur in stacks && stacks[cur].lo + 48 <= rsp && rsp + 8 <= stacks[cur].hi
    requires forall x :: x in m && !(rsp - 48 <= x < rsp) ==> x in m' && m'[x] == m[x]
    ensures forall p :: p in stacks && p != cur ==> StackKept(m, m', stacks[p])
  {
    forall p | p in stacks && p != cur ensures StackKept(m, m', stacks[p]) {
      assert stacks[p].hi <= stacks[cur].lo || stacks[cur].hi <= stacks[p].lo;
    }
  }

  // ---------- runs ----------

  /** What happens to suspended contexts: a task (0: the boot code) switches away, or one is created. */
  datatype Event = Switched(from: int, c: Context, to: int) | Created(p: int, c: Context)

  type Contexts = map<int, Context>

  ghost predicate Step(s: Contexts, e: Event, s': Contexts) {
    match e
    case Switched(from, c, to) => to in s && to != from && s' == (if from == 0 then s else s[from := c]) - {to}
    case Created(p, c) => p !in s && s' == s[p := c]
  }

  ghost predicate IsRun(trace: seq<Contexts>, events: seq<Event>) {
    && |trace| == |events| + 1
    && forall i :: 0 <= i < |events| ==> Step(trace[i], events[i], trace[i + 1])
  }

  /** Task `p` leaves, or is created, with context `c`. */
  ghost predicate Leaves(e: Event, p: int, c: Context) {
    p != 0 && (e == Created(p, c) || (e.Switched? && e.from == p && e.c == c))
  }

  /** Only the running task switches away, and it is not suspended. */
  ghost predicate Cooperative(trace: seq<Contexts>, events: seq<Event>)
    requires |trace| == |events| + 1
  {
    forall i :: 0 <= i < |events| && events[i].Switched? ==> events[i].from !in trace[i]
  }

  /** Over any interleaving: until it is resumed, a task's context is the one it left with. */
  lemma {:induction false} ResumedAsLeft(trace: seq<Contexts>, events: seq<Event>, p: int, c: Context, i: nat, j: nat)
    requires IsRun(trace, events) && Cooperative(trace, events) && i < j <= |events| && Leaves(events[i], p, c)
    requires forall k :: i < k < j && events[k].Switched? ==> events[k].to != p
    ensures p in trace[j] && trace[j][p] == c
    decreases j - i
  {
    assert Step(trace[j - 1], events[j - 1], trace[j]);
    if i < j - 1 {
      ResumedAsLeft(trace, events, p, c, i, j - 1);
    }
  }

  class Cpu {
    var mem: Memory
    var regs: Regs
    var rsp: int
    var rip: int
    var current: int               // pid, 0 before the first dispatch
    var saved: map<int, int>       // process_t.rsp by pid
    ghost var stacks: map<int, Stack>
    ghost var contexts: Contexts
    ghost var trace: seq<Contexts>
    ghost var events: seq<Event>

    /** The contexts so far form a run. */
    ghost predicate Recorded()
      reads this
    {
      IsRun(trace, events) && Cooperative(trace, events) && trace[|events|] == contexts
    }

    ghost method Record(e: Event)
      requires IsRun(trace, events) && Cooperative(trace, events) && Step(trace[|events|], e, contexts)
      requires e.Switched? ==> e.from !in trace[|events|]
      modifies `trace, `events
      ensures Recorded() && trace == old(trace) + [contexts] && events == old(events) + [e]
    {
      trace, events := trace + [contexts], events + [e];
    }

    /** Every task but the current one is suspended with the context it had when it last switched away. */
    ghost predicate Valid()
      reads this
    {
      && Recorded() && 0 !in stacks && Apart(stacks) && saved.Keys == stacks.Keys
      && (current != 0 ==> current in stacks)
      && contexts.Keys == stacks.Keys - {current}
      && AllHeld(mem, stacks, saved, contexts)
    }

    constructor ()
      ensures Valid() && current == 0 && stacks == map[] && trace == [map[]] && events == []
    {
      mem, regs, rsp, rip, current, saved := map[], ZERO_REGS, 0, 0, 0, map[];
      stacks, contexts, trace, events := map[], map[], [map[]], [];
    }

    /** The pushes: a context saved below the return address, seen by nobody else's stack. */
    static method Push(m0: Memory, regs: Regs, rsp: int) returns (m: Memory, sp: int)
      requires rsp in m0
      ensures sp == rsp - 48 && Holds(m, sp, Context(regs, rsp, m0[rsp]))
      ensures forall x :: x in m0 && !(rsp - 48 <= x < rsp) ==> x in m && m[x] == m0[x]
    {
      m, sp := m0, rsp;
      sp := sp - 8;
      m := m[sp := regs.rbp];
      sp := sp - 8;
      m := m[sp := regs.rbx];
      sp := sp - 8;
      m := m[sp := regs.r12];
      sp := sp - 8;
      m := m[sp := regs.r13];
      sp := sp - 8;
      m := m[sp := regs.r14];
      sp := sp - 8;
      m := m[sp := regs.r15];
    }

    /** The pops and the final `ret`. */
    static method Pop(m: Memory, top: int, ghost c: Context) returns (regs: Regs, rip: int, rsp: int)
      requires Holds(m, top, c)
      ensures regs == c.regs && rip == c.ret && rsp == c.rsp + 8
    {
      var sp := top;
      var r15 := m[sp];
      sp := sp + 8;
      var r14 := m[sp];
      sp := sp + 8;
      var r13 := m[sp];
      sp := sp + 8;
      var r12 := m[sp];
      sp := sp + 8;
      var rbx := m[sp];
      sp := sp + 8;
      var rbp := m[sp];
      sp := sp + 8;
      regs := Regs(rbp, rbx, r12, r13, r14, r15);
      rip := m[sp];
      rsp := sp + 8;
    }

    /** The current task has room to switch away: its return address on top, six words below. */
    ghost predicate CanSwitch()
      reads this
    {
      current in stacks && stacks[current].lo + 48 <= rsp && rsp + 8 <= stacks[current].hi && rsp in mem
    }

    /** What the caller of `switch_to` leaves with; the boot code's own return address is nobody's concern. */
    ghost function Leaving(): Context
      reads this
    {
      Context(regs, rsp, if rsp in mem then mem[rsp] else 0)
    }

    /** In the middle of a switch every task is suspended. */
    ghost predicate AllSuspended()
      reads this
    {
      && 0 !in stacks && Apart(stacks) && saved.Keys == stacks.Keys && contexts.Keys == stacks.Keys
      && AllHeld(mem, stacks, saved, contexts)
    }

    /** Suspend the current task. */
    method Save()
      requires Valid() && current != 0 && CanSwitch()
      modifies `mem, `saved, `contexts
      ensures AllSuspended()
      ensures contexts == old(contexts)[current := Context(regs, rsp, old(mem)[rsp])]
    {
      hide Holds, AllHeld, Apart, StackKept, IsRun, Cooperative;
      var m, sp := Push(mem, regs, rsp);
      PushKeeps(mem, m, stacks, current, rsp);
      HeldKept(mem, m, stacks, saved, contexts);
      HeldMore(m, stacks, saved, contexts, current, stacks[current], sp, Context(regs, rsp, mem[rsp]));
      assert stacks[current := stacks[current]] == stacks;
      contexts := contexts[current := Context(regs, rsp, mem[rsp])];
      saved := saved[current := sp];
      mem := m;
    }

    /**
     `switch_to(next)`: the resumed task finds the registers, stack pointer and return address of its
     own last call, whatever other tasks did meanwhile; the outgoing context is recorded likewise.
     */
    method SwitchTo(next: int)
      requires Valid() && next in stacks && next != current && (current != 0 ==> CanSwitch())
      modifies this
      ensures Valid() && current == next && stacks == old(stacks)
      ensures next in old(contexts) && regs == old(contexts)[next].regs
      ensures rsp == old(contexts)[next].rsp + 8 && rip == old(contexts)[next].ret
      ensures contexts == (if old(current) == 0 then old(contexts)
                           else old(contexts)[old(current) := Context(old(regs), old(rsp), old(mem)[old(rsp)])]) - {next}
      ensures trace == old(trace) + [contexts] && events == old(events) + [Switched(old(current), old(Leaving()), next)]
    {
      hide Holds, IsRun, Cooperative, Suspended, AllHeld, Apart;
      ghost var left := Leaving();
      if current != 0 {
        Save();
      }
      Resume(next, Switched(current, left, next));
    }

    /** Make `next` current and return into it. */
    method Resume(next: int, ghost e: Event)
      requires AllSuspended() && next in contexts
      requires IsRun(trace, events) && Cooperative(trace, events) && Step(trace[|events|], e, contexts - {next})
      requires e.Switched? ==> e.from !in trace[|events|]
      modifies `current, `regs, `rip, `rsp, `contexts, `trace, `events
      ensures Valid() && current == next && contexts == old(contexts) - {next}
      ensures regs == old(contexts)[next].regs && rsp == old(contexts)[next].rsp + 8 && rip == old(contexts)[next].ret
      ensures trace == old(trace) + [contexts] && events == old(events) + [e]
    {
      hide Holds, IsRun, Cooperative, AllHeld, Apart;
      current := next;
      HeldLess(mem, stacks, saved, contexts, next);
      regs, rip, rsp := Pop(mem, saved[next], contexts[next]);
      contexts := contexts - {next};
      Record(e);
    }

    /** The current task computes: it may do anything to its registers, its stack and memory that is no stack. */
    method Compute(regs': Regs, rsp': int, m: Memory)
      requires Valid() && current != 0
      requires forall p :: p in stacks && p != current ==> StackKept(mem, m, stacks[p])
      modifies `mem, `regs, `rsp
      ensures Valid() && mem == m && regs == regs' && rsp == rsp'
    {
      hide Holds, AllHeld, Apart, StackKept, IsRun, Cooperative;
      HeldKept(mem, m, stacks, saved, contexts);
      mem, regs, rsp := m, regs', rsp';
    }

    /** The stack image `create_process` prepares, so that the first switch enters `entry`. */
    method Create(pid: int, stack: int, entry: int, taskReturned: int)
      requires Valid() && pid != 0 && pid !in stacks
      requires forall p :: p in stacks ==> stack + STACK_SIZE <= stacks[p].lo || stacks[p].hi <= stack
      modifies `mem, `saved, `stacks, `contexts, `trace, `events
      ensures Valid() && stacks == old(stacks)[pid := Stack(stack, stack + STACK_SIZE)]
      ensures pid in contexts && contexts == old(contexts)[pid := contexts[pid]]
      ensures var c := contexts[pid];
              && c.regs == ZERO_REGS && c.ret == entry
              && (c.rsp + 8) % 16 == 8 && c.rsp + 8 in mem && mem[c.rsp + 8] == taskReturned
              && stack <= c.rsp + 8 < stack + STACK_SIZE
      ensures trace == old(trace) + [contexts] && events == old(events) + [Created(pid, contexts[pid])]
    {
      hide Holds, IsRun, Cooperative, Apart, AllHeld;
      var m, sp := InitialStack(mem, stack, entry, taskReturned);
      ghost var c := Context(ZERO_REGS, sp + 48, entry);
      ghost var s := Stack(stack, stack + STACK_SIZE);
      OneMoreApart(stacks, pid, s);
      HeldKept(mem, m, stacks, saved, contexts);
      HeldMore(m, stacks, saved, contexts, pid, s, sp, c);
      hide Suspended;
      stacks := stacks[pid := s];
      saved := saved[pid := sp];
      contexts := contexts[pid := c];
      mem := m;
      Record(Created(pid, c));
    }

    static method InitialStack(m0: Memory, stack: int, entry: int, taskReturned: int) returns (m: Memory, sp: int)
      ensures Holds(m, sp, Context(ZERO_REGS, sp + 48, entry))
      ensures sp + 56 in m && m[sp + 56] == taskReturned
      ensures (sp + 56) % 16 == 8 && stack <= sp && sp + 64 <= stack + STACK_SIZE
      ensures forall x :: x in m0 && !(stack <= x < stack + STACK_SIZE) ==> x in m && m[x] == m0[x]
    {
      var end := stack + STACK_SIZE;
      end := end - end % 16;
      end := end - 8;
      assert end % 16 == 8 by { Remainder(end, 16, (stack + STACK_SIZE) / 16 - 1, 8); }
      sp := end;
      m := m0[sp := taskReturned];
      sp := sp - 8;
      m := m[sp := entry];
      sp := sp - 8;
      m := m[sp := 0];
      sp := sp - 8;
      m := m[sp := 0];
      sp := sp - 8;
      m := m[sp := 0];
      sp := sp - 8;
      m := m[sp := 0];
      sp := sp - 8;
      m := m[sp := 0];
      sp := sp - 8;
      m := m[sp := 0];
    }
  }
}
