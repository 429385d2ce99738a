/**
 Whole runs of the heap under an arbitrary client that holds pointers, writes through them and gives
 them back.
 */
module HeapRun {
  import opened Words
  import opened HeapLayout
  import opened HeapStore
  import opened Heap

  /** What the client asks for next; `k` names the k-th pointer it holds. */
  datatype Request =
    | New(size: int)
    | Drop(k: nat)
    | Resize(k: nat, size: int)
    | Write(k: nat, i: nat, v: int)
    | Stock(pages: nat)   // not the client: other kernel code took or returned frames

  /** What then happened, in terms of pointers. */
  datatype Call =
    | Malloc(size: int, p: int)
    | Free(p: int)
    | Realloc(p: int, size: int, q: int)
    | Poke(p: int, i: int, v: int)
    | Nothing

  ghost predicate Step(s: Store, c: Call, s': Store) {
    match c
    case Malloc(size, p) => Allocated(s, s', p, size)
    case Free(p) => p in s && s' == s - {p}
    case Realloc(p, size, q) => Resized(s, s', p, q, size)
    case Poke(p, i, v) => p in s && 0 <= i < |s[p]| && s' == s[p := s[p][i := v]]
    case Nothing => s' == s
  }

  ghost predicate IsRun(trace: seq<Store>, calls: seq<Call>) {
    && |trace| == |calls| + 1
    && forall i :: 0 <= i < |calls| ==> Step(trace[i], calls[i], trace[i + 1])
  }

  predicate Mentions(c: Call, p: int) {
    match c
    case Free(q) => p == q
    case Realloc(q, _, _) => p == q
    case Poke(q, _, _) => p == q
    case _ => false
  }

  /** In every run a payload keeps its pointer and every word until a call names that pointer. */
  lemma {:induction false} PayloadSurvives(trace: seq<Store>, calls: seq<Call>, p: int, i: nat, j: nat)
    requires IsRun(trace, calls) && i <= j < |trace| && p in trace[i]
    requires forall k :: i <= k < j ==> !Mentions(calls[k], p)
    ensures p in trace[j] && trace[j][p] == trace[i][p]
    decreases j - i
  {
    if i < j {
      PayloadSurvives(trace, calls, p, i, j - 1);
      assert Step(trace[j - 1], calls[j - 1], trace[j]);
      match calls[j - 1]
      case Malloc(_, q) => assert p in trace[j] - {q};
      case Realloc(q, _, r) => assert p in trace[j - 1] - {q} && p in trace[j] - {r};
      case _ =>
    }
  }

  /** The client holds exactly the live pointers, each once. */
  ghost predicate Holds(ptrs: seq<int>, s: Store) {
    && (forall i, j :: 0 <= i < j < |ptrs| ==> ptrs[i] != ptrs[j])
    && (forall p :: p in ptrs <==> p in s)
  }

  /** Requests that cannot make an address wrap, whatever the heap has grown to. */
  const MAX_REQUEST: int := TWO64 - HEAP_LIMIT - 2 * PAGE_SIZE

  predicate Sane(r: Request) {
    match r
    case New(size) => 0 <= size <= MAX_REQUEST
    case Resize(_, size) => 0 <= size <= MAX_REQUEST
    case _ => true
  }

  lemma SaneIsAddressable(curr: int, size: int)
    requires 0 < size <= MAX_REQUEST && curr <= HEAP_LIMIT
    ensures Addressable(curr, GrowthFor(size))
  {
    TotalSizeExact(size);
    RoundUpPage(GrowthFor(size));
  }

  /** The call that answers a request; requests that name no pointer, or a word outside a payload, make none. */
  ghost predicate Answers(r: Request, ptrs: seq<int>, s: Store, c: Call) {
    match r
    case New(size) => if size == 0 then c == Nothing else c.Malloc? && c.size == size
    case Drop(k) => c == if k < |ptrs| then Free(ptrs[k]) else Nothing
    case Resize(k, size) =>
      if k >= |ptrs| then c == Nothing
      else if size == 0 then c == Free(ptrs[k])
      else c.Realloc? && c.p == ptrs[k] && c.size == size
    case Stock(_) => c == Nothing
    case Write(k, i, v) =>
      c == if k < |ptrs| && ptrs[k] in s && i < |s[ptrs[k]]| then Poke(ptrs[k], i, v) else Nothing
  }

  /** The pointers the client holds once the request is answered. */
  ghost predicate Hands(r: Request, ptrs: seq<int>, c: Call, ptrs': seq<int>) {
    match c
    case Malloc(_, p) => ptrs' == ptrs + [p]
    case Free(_) => (r.Drop? || r.Resize?) && r.k < |ptrs| && ptrs' == ptrs[..r.k] + ptrs[r.k + 1..]
    case Realloc(_, _, q) => r.Resize? && r.k < |ptrs| && ptrs' == ptrs[r.k := q]
    case _ => ptrs' == ptrs
  }

  /** Everything there is to a heap. */
  datatype State = State(mem: Memory, head: int, blk: Blocks, fl: seq<int>, curr: int, supply: nat, seams: set<int>)

  ghost function StateOf(heap: Heap): State
    reads heap
  {
    State(heap.mem, heap.head, heap.blk, heap.fl, heap.curr, heap.supply, heap.seams)
  }

  /** The heap's whole invariant, of one state. */
  ghost predicate Sound(s: State) {
    && Mapped(s.mem, s.curr) && Tiled(s.blk, s.curr) && Tagged(s.mem, s.blk) && Listed(s.mem, s.head, s.fl)
    && FreeExactly(s.blk, s.fl) && Seamed(s.blk, s.seams)
  }

  /** The request needs a block that the heap does not have. */
  ghost predicate Needs(s: State, r: Request, ptrs: seq<int>) {
    match r
    case New(size) => size > 0 && NothingFits(s.blk, s.fl, size)
    case Resize(k, size) => k < |ptrs| && NeedsNew(s.blk, ptrs[k], size) && NothingFits(s.blk, s.fl, size)
    case _ => false
  }

  /** And then the heap cannot grow by as much as `kmalloc` asks for. */
  ghost predicate Stuck(s: State, r: Request, ptrs: seq<int>) {
    Needs(s, r, ptrs) && !CanGrow(s.curr, s.supply, GrowthFor(r.size))
  }

  /** What a request does to the window, its seams and the supply: it grows exactly when nothing fits. */
  ghost predicate Moves(s: State, r: Request, ptrs: seq<int>, s': State) {
    if Needs(s, r, ptrs) then
      && s'.curr == s.curr + RoundUp(GrowthFor(r.size), PAGE_SIZE) && s'.seams == s.seams + {s.curr}
      && s'.supply * PAGE_SIZE == s.supply * PAGE_SIZE - RoundUp(GrowthFor(r.size), PAGE_SIZE)
    else s'.curr == s.curr && s'.seams == s.seams && s'.supply == if r.Stock? then r.pages else s.supply
  }

  /** Where a payload comes to lie: in the block chosen for it, or where it was if that can be made large enough. */
  ghost predicate Lies(s: State, c: Call) {
    match c
    case Malloc(size, p) => Chosen(s.blk, s.fl, s.curr, size, p - HDR_SIZE)
    case Realloc(p, size, q) =>
      if NeedsNew(s.blk, p, size) then Chosen(s.blk, s.fl, s.curr, size, q - HDR_SIZE) else q == p
    case _ => true
  }

  /** One request, served; `ok` is false exactly when the kernel panics. */
  method Serve(heap: Heap, r: Request, ptrs: seq<int>) returns (ok: bool, ptrs': seq<int>, ghost c: Call)
    requires heap.Valid() && Holds(ptrs, heap.Contents()) && Sane(r)
    modifies heap
    ensures ok <==> !Stuck(old(StateOf(heap)), r, ptrs)
    ensures ok ==> heap.Valid() && Holds(ptrs', heap.Contents()) && Step(old(heap.Contents()), c, heap.Contents())
    ensures ok ==> Answers(r, ptrs, old(heap.Contents()), c) && Hands(r, ptrs, c, ptrs')
    ensures ok ==> Moves(old(StateOf(heap)), r, ptrs, StateOf(heap)) && Lies(old(StateOf(heap)), c)
  {
    hide Mapped, AllPlaced, AllApart, Tagged, Listed, FreeExactly, Seamed, StoreOf, Addressable, NothingFits, CanGrow,
      RoundUp, Chosen;
    ptrs', c := ptrs, Nothing;
    match r
    case New(size) =>
      if size > 0 { SaneIsAddressable(heap.curr, size); RoundUpPage(GrowthFor(size)); }
      var res := heap.KMalloc(size);
      if res.Panic? { return false, ptrs, Nothing; }
      if size > 0 {
        c := Malloc(size, res.addr);
        ptrs' := ptrs + [res.addr];
        HoldsMore(ptrs, old(heap.Contents()), heap.Contents(), res.addr, size);
      }
      ok := true;
    case Drop(k) =>
      if k < |ptrs| {
        StoreDomain(heap.mem, heap.blk, ptrs[k]);
        BlocksAboveBase(heap.blk, heap.curr);
        var _ := heap.KFree(ptrs[k]);
        c := Free(ptrs[k]);
        ptrs' := ptrs[..k] + ptrs[k + 1..];
        HoldsLess(ptrs, old(heap.Contents()), k);
      }
      ok := true;
    case Resize(k, size) =>
      ok := true;
      if k < |ptrs| {
        StoreDomain(heap.mem, heap.blk, ptrs[k]);
        BlocksAboveBase(heap.blk, heap.curr);
        if size > 0 { SaneIsAddressable(heap.curr, size); RoundUpPage(GrowthFor(size)); }
        var res := heap.KRealloc(ptrs[k], size);
        if res.Panic? { return false, ptrs, Nothing; }
        if size > 0 {
          c := Realloc(ptrs[k], size, res.addr);
          ptrs' := ptrs[k := res.addr];
          HoldsMoved(ptrs, old(heap.Contents()), heap.Contents(), k, res.addr, size);
        } else {
          c := Free(ptrs[k]);
          ptrs' := ptrs[..k] + ptrs[k + 1..];
          HoldsLess(ptrs, old(heap.Contents()), k);
        }
      }
    case Write(k, i, v) =>
      ok := true;
      if k < |ptrs| {
        StoreDomain(heap.mem, heap.blk, ptrs[k]);
        var n := heap.UsableSize(ptrs[k]);
        PayloadAt(heap.mem, heap.blk, ptrs[k]);
        BlocksAboveBase(heap.blk, heap.curr);
        if 8 * i < n {
          heap.Poke(ptrs[k], i, v);
          c := Poke(ptrs[k], i, v);
        }
      }
    case Stock(pages) =>
      heap.Restock(pages);
      ok := true;
  }

  lemma HoldsMore(ptrs: seq<int>, s: Store, s': Store, p: int, size: int)
    requires Holds(ptrs, s) && Allocated(s, s', p, size)
    ensures Holds(ptrs + [p], s')
  {
    forall q ensures q in ptrs + [p] <==> q in s' {
      assert q in s' - {p} <==> q in s' && q != p;
    }
  }

  lemma HoldsLess(ptrs: seq<int>, s: Store, k: nat)
    requires Holds(ptrs, s) && k < |ptrs|
    ensures Holds(ptrs[..k] + ptrs[k + 1..], s - {ptrs[k]})
  {
    var rest := ptrs[..k] + ptrs[k + 1..];
    forall q ensures q in rest <==> q in s - {ptrs[k]} {
      if q in s - {ptrs[k]} {
        var j :| 0 <= j < |ptrs| && ptrs[j] == q;
        assert rest[if j < k then j else j - 1] == q;
      }
    }
  }

  lemma HoldsMoved(ptrs: seq<int>, s: Store, s': Store, k: nat, q: int, size: int)
    requires Holds(ptrs, s) && k < |ptrs| && Resized(s, s', ptrs[k], q, size)
    ensures Holds(ptrs[k := q], s')
  {
    var moved := ptrs[k := q];
    forall x ensures x in moved <==> x in s' {
      assert x in s' - {q} <==> x in s - {ptrs[k]};
      if x in s' && x != q {
        var j :| 0 <= j < |ptrs| && ptrs[j] == x;
        assert moved[j] == x;
      }
      assert moved[k] == q;
    }
  }

  lemma NothingHeld()
    ensures Holds([], map[])
  {
  }

  // ---------- runs ----------

  /** One request on the way: what it does to the heap, to the store that clients see and to the pointers held. */
  ghost predicate Transition(s: State, ptrs: seq<int>, r: Request, c: Call, s': State, ptrs': seq<int>) {
    && !Stuck(s, r, ptrs) && Moves(s, r, ptrs, s')
    && Answers(r, ptrs, StoreOf(s.mem, s.blk), c) && Step(StoreOf(s.mem, s.blk), c, StoreOf(s'.mem, s'.blk))
    && Hands(r, ptrs, c, ptrs') && Lies(s, c)
  }

  /** A sound heap whose live pointers are those the client holds. */
  ghost predicate Kept(s: State, ptrs: seq<int>) { Sound(s) && Holds(ptrs, StoreOf(s.mem, s.blk)) }

  /** A run of the heap: every state sound, every step the answer to its request. */
  ghost predicate IsHeapRun(states: seq<State>, requests: seq<Request>, calls: seq<Call>, held: seq<seq<int>>) {
    && |states| == |held| == |calls| + 1 && |calls| <= |requests|
    && (forall i :: 0 <= i < |states| ==> Kept(states[i], held[i]))
    && (forall i :: 0 <= i < |calls| ==> Transition(states[i], held[i], requests[i], calls[i], states[i + 1], held[i + 1]))
  }

  ghost function Stores(states: seq<State>): seq<Store> {
    seq(|states|, i requires 0 <= i < |states| => StoreOf(states[i].mem, states[i].blk))
  }

  /** Heap runs refine runs of the store, call by call. */
  lemma RunRefines(states: seq<State>, requests: seq<Request>, calls: seq<Call>, held: seq<seq<int>>)
    requires IsHeapRun(states, requests, calls, held)
    ensures IsRun(Stores(states), calls)
  {
    hide StoreOf, Step, Answers, Hands, Stuck, Moves, Kept, Lies;
    forall i | 0 <= i < |calls| ensures Step(Stores(states)[i], calls[i], Stores(states)[i + 1]) {
      assert Transition(states[i], held[i], requests[i], calls[i], states[i + 1], held[i + 1]);
    }
  }

  /** So a payload survives every call that does not name it, in the heap itself. */
  lemma HeapPayloadSurvives(states: seq<State>, requests: seq<Request>, calls: seq<Call>, held: seq<seq<int>>, p: int, i: nat, j: nat)
    requires IsHeapRun(states, requests, calls, held) && i <= j < |states|
    requires p in StoreOf(states[i].mem, states[i].blk) && forall k :: i <= k < j ==> !Mentions(calls[k], p)
    ensures p in StoreOf(states[j].mem, states[j].blk)
    ensures StoreOf(states[j].mem, states[j].blk)[p] == StoreOf(states[i].mem, states[i].blk)[p]
  {
    hide StoreOf, Transition, Kept;
    RunRefines(states, requests, calls, held);
    PayloadSurvives(Stores(states), calls, p, i, j);
  }

  /** Before state `j` a growth began at address `x`: the initial one, or that of a request. */
  ghost predicate BeganAt(states: seq<State>, j: int, x: int)
    requires 0 <= j < |states|
  {
    x == HEAP_BASE || exists i :: 0 <= i < j && GrewAt(states, i, x)
  }

  ghost predicate GrewAt(states: seq<State>, i: int, x: int)
    requires 0 <= i < |states| - 1
  {
    states[i].curr == x < states[i + 1].curr
  }

  lemma GrowthPositive(s: State, r: Request, ptrs: seq<int>, s': State)
    requires Moves(s, r, ptrs, s')
    ensures (s'.curr == s.curr && s'.seams == s.seams) || (s'.curr > s.curr && s'.seams == s.seams + {s.curr})
  {
    if Needs(s, r, ptrs) { RoundUpPage(GrowthFor(r.size)); }
  }

  /** Every seam is where a growth began. */
  lemma {:induction false} SeamsBegan(states: seq<State>, requests: seq<Request>, calls: seq<Call>, held: seq<seq<int>>, j: nat, x: int)
    requires IsHeapRun(states, requests, calls, held) && states[0].seams == {HEAP_BASE}
    requires j < |states| && x in states[j].seams
    ensures BeganAt(states, j, x)
  {
    hide Kept, Stuck, Moves, Answers, Step, Hands, Lies;
    if j > 0 {
      assert Transition(states[j - 1], held[j - 1], requests[j - 1], calls[j - 1], states[j], held[j]);
      GrowthPositive(states[j - 1], requests[j - 1], held[j - 1], states[j]);
      if x in states[j - 1].seams {
        SeamsBegan(states, requests, calls, held, j - 1, x);
        if x != HEAP_BASE {
          var i :| 0 <= i < j - 1 && GrewAt(states, i, x);
          assert 0 <= i < j && GrewAt(states, i, x);
        }
      } else {
        assert GrewAt(states, j - 1, x);
      }
    }
  }

  /** In every state of every run, adjacent free blocks meet only where a growth began. */
  lemma MeetsAtGrowth(states: seq<State>, requests: seq<Request>, calls: seq<Call>, held: seq<seq<int>>, j: nat, a: int)
    requires IsHeapRun(states, requests, calls, held) && states[0].seams == {HEAP_BASE}
    requires j < |states| && Meets(states[j].blk, a)
    ensures BeganAt(states, j, a + states[j].blk[a].size)
  {
    hide Transition;
    assert Kept(states[j], held[j]);
    SeamsBegan(states, requests, calls, held, j, a + states[j].blk[a].size);
  }

  /**
   Every client, from the initialised heap: what happens is a run of the heap, and it stops exactly when
   a request needs a block that the heap cannot grow for.
   */
  method Run(heap: Heap, requests: seq<Request>)
    returns (ok: bool, ptrs: seq<int>, ghost states: seq<State>, ghost calls: seq<Call>, ghost held: seq<seq<int>>)
    requires heap.Valid() && heap.Contents() == map[] && heap.seams == {HEAP_BASE}
    requires forall i :: 0 <= i < |requests| ==> Sane(requests[i])
    modifies heap
    ensures IsHeapRun(states, requests, calls, held) && states[0] == old(StateOf(heap)) && held[0] == []
    ensures ok ==> heap.Valid() && |calls| == |requests| && states[|calls|] == StateOf(heap) && held[|calls|] == ptrs
    ensures !ok ==> |calls| < |requests| && Stuck(states[|calls|], requests[|calls|], held[|calls|])
  {
    hide Step, StoreOf, Answers, Holds, Stuck, Needs, Moves, Hands, Lies, Kept, Transition, Heap.Core, Heap.Valid;
    ptrs, calls := [], [];
    held, states := [ptrs], [StateOf(heap)];
    NothingHeld();
    KeptNow(heap, ptrs);
    for n := 0 to |requests|
      invariant heap.Valid() && Holds(ptrs, heap.Contents()) && IsHeapRun(states, requests, calls, held)
      invariant |calls| == n && states[0] == old(StateOf(heap)) && held[0] == []
      invariant states[n] == StateOf(heap) && held[n] == ptrs
    {
      ghost var c;
      ghost var s, was := StateOf(heap), ptrs;
      ok, ptrs, c := Serve(heap, requests[n], ptrs);
      if !ok {
        return;
      }
      KeptNow(heap, ptrs);
      assert Transition(s, was, requests[n], c, StateOf(heap), ptrs) by { TransitionNow(s, was, requests[n], c, StateOf(heap), ptrs); }
      held, states, calls := held + [ptrs], states + [StateOf(heap)], calls + [c];
    }
    ok := true;
  }

  lemma KeptNow(heap: Heap, ptrs: seq<int>)
    requires heap.Valid() && Holds(ptrs, heap.Contents())
    ensures Kept(StateOf(heap), ptrs)
  {
  }

  lemma TransitionNow(s: State, ptrs: seq<int>, r: Request, c: Call, s': State, ptrs': seq<int>)
    requires !Stuck(s, r, ptrs) && Moves(s, r, ptrs, s')
    requires Answers(r, ptrs, StoreOf(s.mem, s.blk), c) && Step(StoreOf(s.mem, s.blk), c, StoreOf(s'.mem, s'.blk))
    requires Hands(r, ptrs, c, ptrs') && Lies(s, c)
    ensures Transition(s, ptrs, r, c, s', ptrs')
  {
  }
}
