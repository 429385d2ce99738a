/** The cooperative round-robin scheduler: a circular run queue of processes. */
module Sched {
  import opened Words

  datatype ProcState = Ready | Running | Blocked

  class Process {
    var pid: int
    var state: ProcState
    var next: Process?

    constructor (pid: int)
      ensures this.pid == pid && state == Ready && next == null
    {
      this.pid, state, next := pid, Ready, null;
    }
  }

  // ---------- the schedule as numbers ----------

  /** Which of `n` processes runs after a yield by number `cur` (-1: none has run yet). */
  function Next(n: nat, cur: int): int
    requires -1 <= cur < n || (n == 0 && cur == -1)
  {
    if n == 0 then -1 else (cur + 1) % n
  }

  datatype Event = Yield | Create

  /** Number of processes and running process after some events. */
  function After(n: nat, cur: int, evs: seq<Event>): (r: (nat, int))
    requires -1 <= cur < n || (n == 0 && cur == -1)
    ensures r.0 >= n && (-1 <= r.1 < r.0 || (r.0 == 0 && r.1 == -1))
  {
    if evs == [] then (n, cur)
    else
      var (n', cur') := After(n, cur, evs[..|evs| - 1]);
      match evs[|evs| - 1]
      case Yield => (n', Next(n', cur'))
      case Create => (n' + 1, cur')
  }

  function Yields(evs: seq<Event>): nat {
    if evs == [] then 0
    else Yields(evs[..|evs| - 1]) + if evs[|evs| - 1] == Yield then 1 else 0
  }

  /** `k` yields and nothing else. */
  function OnlyYields(k: nat): (r: seq<Event>)
    ensures |r| == k
  {
    seq(k, i => Yield)
  }

  /** Without creations the running process advances by one place per yield. */
  lemma {:induction false} YieldsAdvance(n: nat, cur: int, k: nat)
    requires 0 <= cur < n
    ensures After(n, cur, OnlyYields(k)) == (n, (cur + k) % n)
  {
    if k > 0 {
      var evs := OnlyYields(k);
      assert evs[..k - 1] == OnlyYields(k - 1);
      YieldsAdvance(n, cur, k - 1);
      var c := (cur + k - 1) % n;
      ModNext(cur + k - 1, n);
    } else {
      ModSmall(cur, n);
    }
  }

  lemma ModSmall(x: int, n: int)
    requires 0 <= x < n
    ensures x % n == x
  {
  }

  /** Stepping round a circle of `n` places. */
  lemma ModNext(x: int, n: int)
    requires n > 0
    ensures (x % n + 1) % n == (x + 1) % n
  {
    var q, r := x / n, x % n;
    assert x == q * n + r;
    if r + 1 < n {
      Remainder(x + 1, n, q, r + 1);
      Remainder(r + 1, n, 0, r + 1);
    } else {
      assert (q + 1) * n == q * n + n;
      Remainder(x + 1, n, q + 1, 0);
      Remainder(r + 1, n, 1, 0);
    }
  }

  /** The `k`-th yield from now dispatches process `t`. */
  ghost predicate RunsAt(n: nat, cur: int, k: nat, t: int)
    requires 0 <= cur < n
  {
    After(n, cur, OnlyYields(k)).1 == t
  }

  /** Among any `n` consecutive yields every process is dispatched exactly once. */
  lemma EachRunsOnce(n: nat, cur: int, t: int)
    requires 0 <= cur < n && 0 <= t < n
    ensures exists k: nat :: 1 <= k <= n && RunsAt(n, cur, k, t)
    ensures forall j: nat, k: nat :: 1 <= j <= n && 1 <= k <= n && RunsAt(n, cur, j, t) && RunsAt(n, cur, k, t) ==> j == k
  {
    hide After;
    var k: nat := if t > cur then t - cur else t - cur + n;
    forall j: nat | 1 <= j <= n ensures RunsAt(n, cur, j, t) <==> j == k {
      YieldsAdvance(n, cur, j);
      if cur + j < n { ModSmall(cur + j, n); } else { Remainder(cur + j, n, 1, cur + j - n); }
    }
    assert RunsAt(n, cur, k, t);
  }

  /**
   A process created as number `n - 1` while number `cur` runs is reached by the yields that follow,
   one place each, however many processes are created meanwhile: it runs after `n - 1 - cur` yields.
   */
  lemma {:induction false} NewcomerRuns(n: nat, cur: int, evs: seq<Event>)
    requires -1 <= cur < n && Yields(evs) <= n - 1 - cur
    ensures After(n, cur, evs).1 == cur + Yields(evs)
    ensures Yields(evs) == n - 1 - cur ==> After(n, cur, evs).1 == n - 1
  {
    if evs != [] {
      var before := evs[..|evs| - 1];
      NewcomerRuns(n, cur, before);
      var (n', cur') := After(n, cur, before);
      if evs[|evs| - 1] == Yield {
        ModSmall(cur' + 1, n');
      }
    }
  }

  // ---------- the run queue ----------

  class Scheduler {
    var current: Process?
    var head: Process?
    var tail: Process?
    var nextPid: int
    ghost var procs: seq<Process>   // in order of creation
    ghost var Repr: set<object>

    /** The queue is one cycle through all processes in pid order, closed from tail to head. */
    ghost predicate Linked()
      reads this, Repr
    {
      && (forall p :: p in procs ==> p in Repr)
      && (forall i, j :: 0 <= i < j < |procs| ==> procs[i] != procs[j])
      && (forall i {:trigger procs[i].next} :: 0 <= i < |procs| ==> procs[i].next == procs[if i + 1 < |procs| then i + 1 else 0])
      && (forall i {:trigger procs[i].pid} :: 0 <= i < |procs| ==> procs[i].pid == i + 1)
      && nextPid == |procs| + 1
      && head == (if procs == [] then null else procs[0])
      && tail == (if procs == [] then null else procs[|procs| - 1])
    }

    /** Exactly the current process is running. */
    ghost predicate Valid()
      reads this, Repr
    {
      && Linked()
      && (current != null ==> current in procs)
      && (forall p :: p in procs ==> p.state == if p == current then Running else Ready)
    }

    /** The place of the current process in the queue, -1 before the first dispatch. */
    ghost function Cur(): (c: int)
      reads this, Repr
      requires Valid()
      ensures -1 <= c < |procs| || (procs == [] && c == -1)
      ensures c == -1 <==> current == null
      ensures c != -1 ==> procs[c] == current
    {
      if current == null then -1
      else
        var c :| 0 <= c < |procs| && procs[c] == current;
        c
    }

    /** `init_scheduler`. */
    constructor ()
      ensures Valid() && procs == [] && Cur() == -1 && Repr == {}
    {
      current, head, tail, nextPid, procs, Repr := null, null, null, 1, [], {};
    }

    /** `create_process`: a ready process at the end of the cycle. */
    method CreateProcess() returns (p: Process)
      requires Valid()
      modifies this, Repr
      ensures Valid() && fresh(p) && procs == old(procs) + [p] && current == old(current)
      ensures Cur() == old(Cur()) && p.pid == |procs| && Repr == old(Repr) + {p}
    {
      p := new Process(nextPid);
      nextPid := nextPid + 1;
      if head == null {
        head, tail := p, p;
        p.next := p;
      } else {
        p.next := head;
        tail.next := p;
        tail := p;
      }
      procs, Repr := procs + [p], Repr + {p};
    }

    /** `schedule`: the next process in the cycle runs; a lone process keeps running. */
    method Schedule()
      requires Valid()
      modifies this`current, Repr - {this}
      ensures Valid() && Cur() == Next(|procs|, old(Cur()))
      ensures forall p :: p in procs ==> p.pid == old(p.pid) && p.next == old(p.next)
    {
      if head == null {
        return;
      }
      ghost var c := Cur();
      ghost var target := Next(|procs|, c);
      var next := if current != null then current.next else head;
      assert next == procs[target] by {
        if c + 1 == |procs| { Remainder(c + 1, |procs|, 1, 0); } else { ModSmall(c + 1, |procs|); }
      }
      if next == null {
        assert false;
      }
      if current != null && next == current {
        return;
      }
      if current != null {
        current.state := Ready;
      }
      next.state := Running;
      current := next; // switch_to
    }

    /** Any run of yields and creations follows the schedule of numbers. */
    method Run(evs: seq<Event>)
      requires Valid()
      modifies this, Repr
      ensures Valid() && |procs| == After(|old(procs)|, old(Cur()), evs).0 && Cur() == After(|old(procs)|, old(Cur()), evs).1
      ensures old(procs) <= procs && fresh(Repr - old(Repr))
    {
      hide Scheduler.Linked, Next;
      ghost var n0, c0 := |procs|, Cur();
      for k := 0 to |evs|
        invariant Valid() && (|procs|, Cur()) == After(n0, c0, evs[..k])
        invariant old(procs) <= procs && fresh(Repr - old(Repr))
      {
        assert evs[..k + 1][..k] == evs[..k];
        match evs[k]
        case Yield => Schedule();
        case Create => var _ := CreateProcess();
      }
      assert evs[..|evs|] == evs;
    }
  }
}
