/**
 Who owns which physical frame while memory ownership moves from the bump allocator to the frame
 manager, and afterwards.
 */
module BootMemory {
  import opened Options
  import opened Words
  import opened Bitmap
  import opened EarlyAlloc
  import opened Frames
  import MM = MemoryMap

  datatype Owner = TablePage | BitmapPage | HeapPage(va: int) | OtherUse

  /** What one step did to ownership. */
  datatype Event = Took(f: int, what: Owner) | GaveBack(f: int) | Nothing

  /** What kernel code asks of the frame manager. */
  datatype Request = Take(what: Owner) | Return(k: nat)

  /** The event that meets a request; `k` names the k-th frame the client holds. */
  ghost predicate Answers(q: Request, held: seq<int>, e: Event) {
    match q
    case Take(what) => e.Took? && e.what == what
    case Return(k) => e == if k < |held| then GaveBack(held[k]) else Nothing
  }

  /** The client's own frames, which it may give back. */
  predicate Keeps(what: Owner) { !what.TablePage? && !what.BitmapPage? }

  /** The frames a client holds after the event that met its request. */
  ghost function HeldAfter(q: Request, held: seq<int>, e: Event): seq<int>
    requires Answers(q, held, e)
  {
    match q
    case Take(what) => if Keeps(what) then held + [e.f] else held
    case Return(k) => if k < |held| then held[..k] + held[k + 1..] else held
  }

  /** The event meets the request, and the client holds what follows from it. */
  ghost predicate Served(q: Request, held: seq<int>, e: Event, held': seq<int>) {
    Answers(q, held, e) && held' == HeldAfter(q, held, e)
  }

  type Owners = map<int, Owner>

  /** The frames owned as `what`. */
  ghost function Owned(o: Owners, what: Owner): set<int> { set f | f in o && o[f] == what }

  /** A frame is taken only when nobody owns it. */
  ghost predicate Step(o: Owners, e: Event, o': Owners) {
    match e
    case Took(f, what) => f !in o && o' == o[f := what]
    case GaveBack(f) => f in o && !o[f].TablePage? && !o[f].BitmapPage? && o' == o - {f}
    case Nothing => o' == o
  }

  /** Every ownership there has been, from none on, and what happened in between. */
  datatype History = History(trace: seq<Owners>, events: seq<Event>)

  ghost predicate IsHistory(h: History) {
    && |h.trace| == |h.events| + 1 && h.trace[0] == map[]
    && forall i :: 0 <= i < |h.events| ==> Step(h.trace[i], h.events[i], h.trace[i + 1])
  }

  /** The history one event later. */
  ghost function Then(h: History, e: Event, o: Owners): History {
    History(h.trace + [o], h.events + [e])
  }

  /** Over any history: an owner keeps its frame until it gives it back; tables and bitmaps for ever. */
  lemma {:induction false} OwnerKept(h: History, f: int, i: nat, j: nat)
    requires IsHistory(h) && i <= j < |h.trace| && f in h.trace[i]
    requires h.trace[i][f].TablePage? || h.trace[i][f].BitmapPage? || forall k :: i <= k < j ==> h.events[k] != GaveBack(f)
    ensures f in h.trace[j] && h.trace[j][f] == h.trace[i][f]
    decreases j - i
  {
    if i < j {
      OwnerKept(h, f, i, j - 1);
      assert Step(h.trace[j - 1], h.events[j - 1], h.trace[j]);
    }
  }

  /** `h'` continues `h`, and all that happened since is that frames were taken for `what`. */
  ghost predicate Drew(h: History, h': History, what: Owner) {
    && h.trace <= h'.trace && h.events <= h'.events
    && forall i :: |h.events| <= i < |h'.events| ==> h'.events[i].Took? && h'.events[i].what == what
  }

  lemma DrewTwice(h: History, h': History, h'': History, what: Owner)
    requires Drew(h, h', what) && Drew(h', h'', what)
    ensures Drew(h, h'', what)
  {
  }

  lemma DrewOne(h: History, f: int, what: Owner, o: Owners)
    ensures Drew(h, Then(h, Took(f, what), o), what) && Drew(h, h, what)
  {
  }

  /** Nobody lost a frame, and whatever is newly owned is a `what`. */
  ghost predicate Added(o: Owners, o': Owners, what: Owner) {
    && (forall f :: f in o ==> f in o' && o'[f] == o[f])
    && (forall f :: f in o' ==> f in o || o'[f] == what)
  }

  lemma {:induction false} DrewAdds(h: History, h': History, what: Owner, n: nat)
    requires IsHistory(h) && IsHistory(h') && Drew(h, h', what) && |h.events| <= n <= |h'.events|
    ensures Added(h.trace[|h.events|], h'.trace[n], what)
    decreases n
  {
    if n > |h.events| {
      DrewAdds(h, h', what, n - 1);
      assert Step(h'.trace[n - 1], h'.events[n - 1], h'.trace[n]);
    }
  }

  /** Every event since `h` added one frame. */
  lemma {:induction false} DrewCounts(h: History, h': History, what: Owner, n: nat)
    requires IsHistory(h) && IsHistory(h') && Drew(h, h', what) && |h.events| <= n <= |h'.events|
    ensures |Owned(h'.trace[n], what)| == |Owned(h.trace[|h.events|], what)| + n - |h.events|
    decreases n
  {
    if n > |h.events| {
      DrewCounts(h, h', what, n - 1);
      var o, e := h'.trace[n - 1], h'.events[n - 1];
      assert Step(o, e, h'.trace[n]);
      assert Owned(h'.trace[n], what) == Owned(o, what) + {e.f};
    }
  }

  class Memory {
    const early: EarlyAllocator
    const frames: FrameManager
    var handedOver: bool   // which supplier `g_boot_phys_page` points to
    ghost var owner: Owners
    ghost var history: History   // ends in `owner`

    constructor (early: EarlyAllocator, frames: FrameManager)
      requires early.Valid() && early.cursor == early.base
      ensures this.early == early && this.frames == frames && Valid() && !handedOver && owner == map[]
      ensures history == History([map[]], [])
    {
      this.early, this.frames, handedOver := early, frames, false;
      owner, history := map[], History([map[]], []);
    }

    ghost predicate IsEarly(f: int)
      reads early
    {
      early.base <= f * PAGE_SIZE < early.cursor
    }

    /** A frame the frame manager has handed out. */
    ghost predicate IsLate(f: int)
      reads this, frames, frames.alloc, frames.usable
    {
      frames.Shaped() && f in frames.Usable() && f !in frames.Free() && 0 <= f && f * PAGE_SIZE < frames.maxPhys
    }

    ghost predicate Recorded()
      reads this
    {
      IsHistory(history) && history.trace[|history.events|] == owner
    }

    ghost predicate Valid()
      reads this, early, frames, frames.alloc, frames.usable
    {
      && Recorded() && early.Valid()
      && (forall f :: IsEarly(f) ==> f in owner && (owner[f].TablePage? || owner[f].BitmapPage?))
      && (!handedOver ==> forall f :: f in owner ==> IsEarly(f))
      && (handedOver ==> frames.Valid() && forall f :: f in owner ==> f !in frames.Free() && (IsEarly(f) || IsLate(f)))
    }

    ghost method Record(e: Event)
      requires IsHistory(history) && Step(history.trace[|history.events|], e, owner)
      modifies `history
      ensures Recorded() && history == Then(old(history), e, owner)
    {
      history := Then(history, e, owner);
    }

    /** How many pages the installed supplier can still hand out. */
    ghost function Left(): nat
      reads this, early, frames, frames.alloc, frames.usable
      requires Valid()
    {
      if handedOver then |frames.Free()| else (early.end - early.cursor) / PAGE_SIZE
    }

    /** The next page is the one at address 0. */
    ghost predicate ZeroNext()
      reads this, early, frames, frames.alloc, frames.usable
      requires Valid()
    {
      handedOver && 0 in frames.Free()
    }

    /**
     One page from whichever supplier is installed; `None` is that supplier's panic. The frame had no
     owner, and the history says who has it now.
     */
    method Supply(what: Owner) returns (r: Option<nat>)
      requires Valid() && (!handedOver ==> what.TablePage? || what.BitmapPage?)
      modifies this`owner, this`history, early`cursor, frames`freeCount, frames`hint, frames.alloc
      ensures Valid()
      ensures r.None? <==> old(Left()) == 0
      ensures r.None? ==> owner == old(owner) && history == old(history) && Left() == 0
      ensures r.Some? ==> r.value % PAGE_SIZE == 0 && Left() == old(Left()) - 1
                          && Step(old(owner), Took(r.value / PAGE_SIZE, what), owner)
                          && history == Then(old(history), Took(r.value / PAGE_SIZE, what), owner)
                          && if handedOver then r.value / PAGE_SIZE in old(frames.Free()) else r.value == old(early.cursor)
      ensures (r == Some(0) <==> old(ZeroNext())) && !ZeroNext()
      ensures handedOver ==> early.cursor == old(early.cursor)
    {
      if !handedOver {
        r := SupplyEarly(what);
      } else {
        r := SupplyLate(what);
      }
    }

    method SupplyEarly(what: Owner) returns (r: Option<nat>)
      requires Valid() && !handedOver && (what.TablePage? || what.BitmapPage?)
      modifies this`owner, this`history, early`cursor
      ensures Valid()
      ensures r.None? <==> old(Left()) == 0
      ensures r.None? <==> old(early.cursor) + PAGE_SIZE > early.end
      ensures r.None? ==> owner == old(owner) && history == old(history) && Left() == old(Left())
      ensures r.Some? ==> r.value == old(early.cursor) && early.cursor == old(early.cursor) + PAGE_SIZE
                          && r.value % PAGE_SIZE == 0 && r.value > 0 && Left() == old(Left()) - 1
                          && Step(old(owner), Took(r.value / PAGE_SIZE, what), owner)
                          && history == Then(old(history), Took(r.value / PAGE_SIZE, what), owner)
    {
      hide IsHistory, Then;
      OnePageLess(early.cursor, early.end);
      r := early.AllocPage();
      if r.Some? {
        var f := r.value / PAGE_SIZE;
        assert f * PAGE_SIZE == r.value;
        assert !old(IsEarly(f));
        forall g | IsEarly(g) && g != f ensures old(IsEarly(g)) { NextPage(r.value, f, g); }
        owner := owner[f := what];
        Record(Took(f, what));
      }
    }

    static lemma OnePageLess(cursor: int, end: int)
      requires 0 <= cursor <= end
      ensures (end - cursor) / PAGE_SIZE == 0 <==> cursor + PAGE_SIZE > end
      ensures cursor + PAGE_SIZE <= end ==> (end - (cursor + PAGE_SIZE)) / PAGE_SIZE == (end - cursor) / PAGE_SIZE - 1
    {
    }

    static lemma PagesFit(cursor: int, end: int, n: nat)
      requires 0 <= cursor <= end
      ensures n <= (end - cursor) / PAGE_SIZE <==> cursor + n * PAGE_SIZE <= end
    {
    }

    lemma NextPage(p: int, f: int, g: int)
      requires p == f * PAGE_SIZE && g * PAGE_SIZE < p + PAGE_SIZE && g != f
      ensures g * PAGE_SIZE < p
    {
    }

    method SupplyLate(what: Owner) returns (r: Option<nat>)
      requires Valid() && handedOver
      modifies this`owner, this`history, frames`freeCount, frames`hint, frames.alloc
      ensures Valid()
      ensures r.None? <==> old(frames.Free()) == {}
      ensures r.None? ==> owner == old(owner) && history == old(history) && frames.Free() == {}
      ensures r.Some? ==> r.value % PAGE_SIZE == 0 && r.value / PAGE_SIZE in old(frames.Free())
                          && frames.Free() == old(frames.Free()) - {r.value / PAGE_SIZE}
                          && Step(old(owner), Took(r.value / PAGE_SIZE, what), owner)
                          && history == Then(old(history), Took(r.value / PAGE_SIZE, what), owner)
      ensures r == Some(0) <==> 0 in old(frames.Free())
    {
      hide Test, ClearBits, SetBits, Holds, IsHistory, Then;
      ghost var free := frames.Free();
      forall f | f in free ensures f in frames.Usable() && 0 <= f && f * PAGE_SIZE < frames.maxPhys { frames.FreeFacts(f); }
      r := frames.FrameAlloc();
      if r.Some? {
        var f := r.value / PAGE_SIZE;
        assert f * PAGE_SIZE == r.value;
        owner := owner[f := what];
        Record(Took(f, what));
      }
    }

    /** Give a frame back. What the frame manager handed out it takes back: none of its panics is reached. */
    method GiveBack(f: int)
      requires Valid() && handedOver && f in owner && !owner[f].TablePage? && !owner[f].BitmapPage?
      modifies this`owner, this`history, frames`freeCount, frames`hint, frames.alloc
      ensures Valid() && Step(old(owner), Event.GaveBack(f), owner)
      ensures history == Then(old(history), Event.GaveBack(f), owner)
      ensures frames.Free() == old(frames.Free()) + {f}
    {
      hide Test, ClearBits, SetBits, Holds, IsHistory, Then;
      assert IsLate(f) && !IsEarly(f);
      Remainder(f * PAGE_SIZE, PAGE_SIZE, f, 0);
      var ok := frames.FrameFree(f * PAGE_SIZE);
      if !ok {
        assert false;
      }
      owner := owner - {f};
      Record(Event.GaveBack(f));
    }

    /** `frame_init` seen from the bump allocator: the two bitmaps take their pages from it first. */
    method TakeBitmapPages(n: nat) returns (ok: bool)
      requires Valid() && !handedOver
      modifies this`owner, this`history, early`cursor
      ensures Valid() && Drew(old(history), history, BitmapPage) && Added(old(owner), owner, BitmapPage)
      ensures |history.events| <= |old(history).events| + n
      ensures ok <==> old(early.cursor) + n * PAGE_SIZE <= early.end
      ensures ok ==> early.cursor == old(early.cursor) + n * PAGE_SIZE && |history.events| == |old(history).events| + n
    {
      assert Recorded();
      hide Drew, Added, Valid, IsHistory;
      DrewOne(history, 0, BitmapPage, map[]);
      for k := 0 to n
        invariant Valid() && Drew(old(history), history, BitmapPage)
        invariant early.cursor == old(early.cursor) + k * PAGE_SIZE && |history.events| == |old(history).events| + k
      {
        ghost var h := history;
        var r := SupplyEarly(BitmapPage);
        if r.None? {
          DrewToAdded(old(history), old(owner), BitmapPage);
          return false;
        }
        DrewOne(h, r.value / PAGE_SIZE, BitmapPage, owner);
        DrewTwice(old(history), h, history, BitmapPage);
      }
      DrewToAdded(old(history), old(owner), BitmapPage);
      ok := true;
    }

    /** Frames drawn since `h`, when `o` was the ownership. */
    lemma DrewToAdded(h: History, o: Owners, what: Owner)
      requires Valid() && IsHistory(h) && h.trace[|h.events|] == o && Drew(h, history, what)
      ensures Added(o, owner, what)
    {
      DrewAdds(h, history, what, |history.events|);
    }

    lemma DrewToCount(h: History, o: Owners, what: Owner)
      requires Valid() && IsHistory(h) && h.trace[|h.events|] == o && Drew(h, history, what)
      ensures |Owned(owner, what)| == |Owned(o, what)| + |history.events| - |h.events|
    {
      DrewCounts(h, history, what, |history.events|);
    }

    /** Pages of one bitmap over `frameCount` frames. */
    static function BitmapPages(frameCount: nat): nat { ((frameCount + 7) / 8 + PAGE_SIZE - 1) / PAGE_SIZE }

    /** As many pages as hold a bit for every frame, and no more. */
    static lemma BitmapFits(frameCount: nat)
      ensures frameCount <= BitmapPages(frameCount) * PAGE_SIZE * 8
      ensures frameCount > 0 ==> (BitmapPages(frameCount) - 1) * PAGE_SIZE * 8 < frameCount
    {
    }

    /**
     The hand-over: bitmaps from the bump allocator, then `frame_init` with everything the bump
     allocator ever gave out among its reservations, then the new supplier.
     */
    method HandOver(entries: seq<MM.Entry>, reserved: seq<Range>) returns (ok: bool)
      requires Valid() && !handedOver
      modifies this, early`cursor, frames
      ensures ok <==> TopOf(entries, |entries|) > 0
                      && 2 * BitmapPages(RoundUpDiv(TopOf(entries, |entries|))) <= old(Left())
      ensures ok ==> Valid() && handedOver && fresh(frames.alloc) && fresh(frames.usable)
      ensures ok ==> Drew(old(history), history, BitmapPage) && Added(old(owner), owner, BitmapPage)
      ensures ok ==> |history.events| == |old(history).events| + 2 * BitmapPages(RoundUpDiv(TopOf(entries, |entries|)))
      ensures ok ==> |Owned(owner, BitmapPage)|
                     == |Owned(old(owner), BitmapPage)| + 2 * BitmapPages(RoundUpDiv(TopOf(entries, |entries|)))
      ensures ok ==> frames.frameCount == RoundUpDiv(TopOf(entries, |entries|))
                     && early.cursor == old(early.cursor) + 2 * BitmapPages(frames.frameCount) * PAGE_SIZE
      ensures ok ==> forall f :: f in frames.Free() <==> ShouldBeFree(entries, reserved + [Range(early.base, early.cursor)], f)
      ensures ok ==> forall f :: f in frames.Usable() <==> InUsable(entries, |entries|, f)
      ensures ok ==> forall f :: f in frames.Free() ==> f !in owner
    {
      hide Test, ClearBits, SetBits, Holds, TopOf, BitmapPages, RoundUpDiv, IsHistory, Drew, Added, Owned;
      assert Recorded();
      ok := frames.ComputeTopology(entries);
      if !ok {
        return;
      }
      PagesFit(early.cursor, early.end, 2 * BitmapPages(frames.frameCount));
      ok := TakeBitmapPages(2 * BitmapPages(frames.frameCount));
      if !ok {
        return;
      }
      DrewToCount(old(history), old(owner), BitmapPage);
      var used := Range(early.base, early.cursor);
      ok := frames.FrameInit(entries, reserved + [used]);
      if !ok {
        return;
      }
      forall f | f in owner ensures f !in frames.Free() {
        assert IsEarly(f) && Touched((reserved + [used])[|reserved|], f);
        assert InReserved(reserved + [used], |reserved| + 1, f);
      }
      handedOver := true;
    }

    /** The client's frames: owned, its to return, and no two the same. */
    ghost predicate Returnable(held: seq<int>)
      reads this
    {
      && (forall f :: f in held ==> f in owner && !owner[f].TablePage? && !owner[f].BitmapPage?)
      && (forall i, j :: 0 <= i < j < |held| ==> held[i] != held[j])
    }

    /** A request that names no frame. */
    method Skip()
      requires Valid()
      modifies `history
      ensures Valid() && history == Then(old(history), Nothing, owner)
    {
      hide IsHistory;
      Record(Nothing);
    }

    /** One request; `ok` is false exactly when the frame manager panics, having none left. */
    method Serve(q: Request, held: seq<int>) returns (ok: bool, held': seq<int>)
      requires Valid() && handedOver && Returnable(held)
      modifies this`owner, this`history, early`cursor, frames`freeCount, frames`hint, frames.alloc
      ensures Valid() && Returnable(held')
      ensures ok <==> !(q.Take? && old(Left()) == 0)
      ensures !ok ==> history == old(history) && held' == held && Left() == 0
      ensures ok ==> |history.events| == |old(history).events| + 1
                     && history == Then(old(history), history.events[|old(history).events|], owner)
                     && Answers(q, held, history.events[|old(history).events|])
                     && held' == HeldAfter(q, held, history.events[|old(history).events|])
    {
      hide Memory.Valid, Memory.Left, Memory.ZeroNext, IsHistory;
      ok, held' := true, held;
      match q
      case Take(what) =>
        var r := Supply(what);
        if r.None? {
          return false, held;
        }
        if Keeps(what) {
          held' := held + [r.value / PAGE_SIZE];
        }
      case Return(k) =>
        if k < |held| {
          GiveBack(held[k]);
          held' := held[..k] + held[k + 1..];
        } else {
          Skip();
        }
    }

    /**
     Any run of takers and returners after the hand-over: the history grows by exactly the events that
     answer the requests, and stops only at a taker when no frame is left.
     */
    method Run(requests: seq<Request>) returns (done: nat, ghost helds: seq<seq<int>>)
      requires Valid() && handedOver
      modifies this`owner, this`history, early`cursor, frames`freeCount, frames`hint, frames.alloc
      ensures Valid() && done <= |requests| && |history.events| == |old(history).events| + done
      ensures old(history).trace <= history.trace && old(history).events <= history.events
      ensures |helds| == done + 1 && helds[0] == [] && Returnable(helds[done])
      ensures forall i :: 0 <= i < done ==> Served(requests[i], helds[i], history.events[|old(history).events| + i], helds[i + 1])
      ensures done < |requests| ==> requests[done].Take? && Left() == 0
    {
      hide Memory.Valid, Memory.Left, IsHistory, Answers, HeldAfter, Memory.Returnable;
      done := 0;
      var held := [];
      NoneHeld();
      helds := [held];
      ghost var n := |history.events|;
      while done < |requests|
        invariant Valid() && done <= |requests| && |history.events| == n + done && Returnable(held)
        invariant old(history).trace <= history.trace && old(history).events <= history.events
        invariant |helds| == done + 1 && helds[0] == [] && helds[done] == held
        invariant forall i :: 0 <= i < done ==> Served(requests[i], helds[i], history.events[n + i], helds[i + 1])
      {
        ghost var h := history;
        var ok;
        ok, held := Serve(requests[done], held);
        if !ok {
          return;
        }
        assert forall i :: 0 <= i < n + done ==> history.events[i] == h.events[i];
        helds := helds + [held];
        done := done + 1;
      }
    }

    lemma NoneHeld()
      ensures Returnable([])
    {
    }
  }
}
