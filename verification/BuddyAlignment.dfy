/** Exactly which heap bases keep the alignment promise. `init` cuts the heap at
    absolute multiples of the block size while `buddy_addr` pairs blocks by their
    offset from the base, so the two agree only on a suitably aligned base. */
module BuddyAlignment {
  import opened Bits
  import opened Dyadic
  import opened BuddyLists
  import opened BuddyPartition
  import opened BuddyTheorems
  import opened Words

  /** No run hands out a block that breaks its layout. */
  ghost predicate KeepsPromises(heapStart: nat, heapSize: nat) {
    forall trace: seq<State>, i: nat ::
      Execution(heapStart, heapSize, trace) && i < |trace| ==> LayoutsHonoured(trace[i])
  }

  /** Layouts are honoured in every run if and only if the heap base, rounded up
      to 64, is a multiple of every block size that fits in the heap. */
  lemma PromisesKeptIffBaseAligned(heapStart: nat, heapSize: nat)
    requires NonNull(heapStart, heapSize)
    ensures KeepsPromises(heapStart, heapSize) <==> HeapAligned(heapStart, heapSize)
  {
    if HeapAligned(heapStart, heapSize) {
      forall trace: seq<State>, i: nat | Execution(heapStart, heapSize, trace) && i < |trace|
        ensures LayoutsHonoured(trace[i])
      {
        EveryRunIsSafe(heapStart, heapSize, trace, i);
      }
    } else {
      var trace, m := LowestPairFreed(heapStart, heapSize);
      LoIs(heapStart);
      var s := AskForAligned(heapStart, Lo(heapStart), m, trace[|trace| - 1]);
      Extend(heapStart, heapSize, trace, Alloc(Layout(Size(m), Size(m))), s);
      assert !LayoutsHonoured((trace + [s])[|trace|]);
    }
  }

  /** On any other base a client that takes all blocks of the order below `m` and
      frees the two lowest leaves one block of order `m` at a misaligned address,
      and everything above it in use. */
  lemma LowestPairFreed(heapStart: nat, heapSize: nat) returns (trace: seq<State>, m: nat)
    requires NonNull(heapStart, heapSize) && !HeapAligned(heapStart, heapSize)
    ensures 0 < m <= MAX_ORDER && AlignedTo(Lo(heapStart), m - 1) && !AlignedTo(Lo(heapStart), m)
    ensures Execution(heapStart, heapSize, trace)
    ensures LoneLowBlock(trace[|trace| - 1], m, Lo(heapStart), Hi(heapStart, heapSize))
  {
    var lo := Lo(heapStart);
    m := LowestMisaligned(heapStart, heapSize, lo);
    var drained := DrainFromInit(heapStart, heapSize, m - 1);
    trace := DrainedThenFreed(heapStart, heapSize, lo, m, drained, drained[|drained| - 1]);
  }

  /** The least order the base is not aligned to; two blocks of the order below fit. */
  lemma LowestMisaligned(heapStart: nat, heapSize: nat, lo: nat) returns (m: nat)
    requires !HeapAligned(heapStart, heapSize) && lo == Lo(heapStart)
    ensures 0 < m <= MAX_ORDER && AlignedTo(lo, m - 1) && !AlignedTo(lo, m)
    ensures lo + Size(m - 1) + Size(m - 1) <= Hi(heapStart, heapSize)
  {
    var order: nat :| order <= MAX_ORDER && lo + Size(order) <= heapStart + heapSize && !AlignedTo(lo, order);
    LoIs(heapStart);
    m := LowestMisalignedFrom(lo, order, heapStart + heapSize);
  }

  lemma LowestMisalignedFrom(lo: nat, order: nat, end: nat) returns (m: nat)
    requires lo % 64 == 0 && lo + Size(order) <= end && !AlignedTo(lo, order)
    ensures 0 < m <= order && AlignedTo(lo, m - 1) && !AlignedTo(lo, m)
    ensures lo + Size(m - 1) + Size(m - 1) <= end / 64 * 64
  {
    AlignedIsMod(lo, 0);
    m := FirstMisaligned(lo, order);
    SizeMonotone(m, order);
    PairFits(lo, m - 1, end);
  }

  lemma DrainedThenFreed(heapStart: nat, heapSize: nat, lo: nat, m: nat, drained: seq<State>, s: State)
    returns (trace: seq<State>)
    requires NonNull(heapStart, heapSize) && 0 < m <= MAX_ORDER && AlignedTo(lo, m - 1) && lo == Lo(heapStart)
    requires lo + Size(m - 1) + Size(m - 1) <= Hi(heapStart, heapSize)
    requires Execution(heapStart, heapSize, drained) && s == drained[|drained| - 1] && OnlyWhole(s, m - 1)
    requires AllLive(s, m - 1, lo, Hi(heapStart, heapSize)) && EmptyFrom(s.lists, m - 1)
    ensures Execution(heapStart, heapSize, trace)
    ensures LoneLowBlock(trace[|trace| - 1], m, lo, Hi(heapStart, heapSize))
  {
    BothLive(s, m - 1, lo, Hi(heapStart, heapSize));
    trace := FreeLowest(heapStart, heapSize, lo, m, drained, s);
    StillLive(s, trace[|trace| - 1], m - 1, lo, Hi(heapStart, heapSize));
  }

  /** The only block of order `m` is at `lo`, and every aligned block of the order
      below from its end on is in use. */
  ghost predicate LoneLowBlock(s: State, m: nat, lo: nat, hi: nat)
    requires 0 < m <= MAX_ORDER
  {
    && s.lists[m] == [lo]
    && OnlyWhole(s, m - 1)
    && AllLive(s, m - 1, lo + Size(m - 1) + Size(m - 1), hi)
  }

  lemma StillLive(s: State, t: State, n: nat, lo: nat, hi: nat)
    requires t.live == s.live - {lo, lo + Size(n)} && AllLive(s, n, lo, hi)
    ensures AllLive(t, n, lo + Size(n) + Size(n), hi)
  {
  }

  lemma {:induction false} FirstMisaligned(heapStart: nat, order: nat) returns (m: nat)
    requires AlignedTo(heapStart, 0) && !AlignedTo(heapStart, order)
    ensures 0 < m <= order && !AlignedTo(heapStart, m) && AlignedTo(heapStart, m - 1)
  {
    if AlignedTo(heapStart, order - 1) {
      m := order;
    } else {
      m := FirstMisaligned(heapStart, order - 1);
    }
  }

  function Whole(order: nat): Layout { Layout(Size(order), 1) }

  lemma OrderOfBlockSize(order: nat, layout: Layout)
    requires layout.size == Size(order) && layout.align <= layout.size
    ensures OrderFor(layout) == order
  {
    SizeToOrderIsCeilLog(Size(order), order);
    if SizeToOrder(Size(order)) < order {
      SizeToOrderIsCeilLog(Size(order), order - 1);
    }
  }

  lemma Extend(heapStart: nat, heapSize: nat, trace: seq<State>, op: Op, t: State)
    requires Execution(heapStart, heapSize, trace) && Next(heapStart, trace[|trace| - 1], op, t)
    ensures Execution(heapStart, heapSize, trace + [t])
  {
    var u := trace + [t];
    forall i | 0 <= i < |u| - 1
      ensures Steps(heapStart, u[i], u[i + 1])
    {
      if i < |trace| - 1 {
        assert Steps(heapStart, trace[i], trace[i + 1]);
      }
    }
  }

  ghost predicate OnlyWhole(s: State, order: nat) {
    forall a :: a in s.live ==> s.live[a] == Whole(order)
  }

  /** Ask for blocks of one order until none is left. */
  lemma {:induction false} Drain(heapStart: nat, heapSize: nat, order: nat, trace: seq<State>) returns (u: seq<State>)
    requires Execution(heapStart, heapSize, trace) && order <= MAX_ORDER
    requires Inv(heapStart, heapSize, trace[|trace| - 1]) && OnlyWhole(trace[|trace| - 1], order)
    ensures Execution(heapStart, heapSize, u)
    ensures Inv(heapStart, heapSize, u[|u| - 1]) && OnlyWhole(u[|u| - 1], order)
    ensures Allocate(u[|u| - 1].lists, order).1 == 0
    decreases Hi(heapStart, heapSize) - |trace[|trace| - 1].live|
  {
    var s := trace[|trace| - 1];
    if Allocate(s.lists, order).1 == 0 {
      u := trace;
    } else {
      OrderOfBlockSize(order, Whole(order));
      assert IsPow2(1) by { assert Pow2(0) == 1; }
      var t := AllocState(s, Whole(order));
      AllocateKeepsInv(heapStart, heapSize, s, Whole(order));
      assert Next(heapStart, s, Alloc(Whole(order)), t);
      Extend(heapStart, heapSize, trace, Alloc(Whole(order)), t);
      LiveIsBounded(heapStart, heapSize, t);
      u := Drain(heapStart, heapSize, order, trace + [t]);
    }
  }

  lemma LiveIsBounded(heapStart: nat, heapSize: nat, s: State)
    requires Inv(heapStart, heapSize, s)
    ensures |s.live| <= Hi(heapStart, heapSize)
  {
    var hi := Hi(heapStart, heapSize);
    forall a | a in s.live
      ensures a < hi
    {
      var b := Block(a, OrderFor(s.live[a]));
      assert b in LiveSet(s.live);
      assert b in FreeSet(s.lists) + LiveSet(s.live);
    }
    BoundedSet(s.live.Keys, hi);
  }

  lemma {:induction false} BoundedSet(s: set<nat>, n: nat)
    requires forall x :: x in s ==> x < n
    ensures |s| <= n
  {
    if n == 0 {
      assert s == {};
    } else {
      BoundedSet(s - {n - 1}, n - 1);
    }
  }

  /** In a drained heap every aligned block of that order is live. */
  lemma LiveWhenDrained(heapStart: nat, heapSize: nat, s: State, r: Block)
    requires Inv(heapStart, heapSize, s) && OnlyWhole(s, r.order) && r.Aligned() && r.order <= MAX_ORDER
    requires Lo(heapStart) <= r.addr && r.End() <= Hi(heapStart, heapSize)
    requires !HasRoom(s.lists, r.order)
    ensures r.addr in s.live
  {
    OrderOfBlockSize(r.order, Whole(r.order));
    var all := FreeSet(s.lists) + LiveSet(s.live);
    if r !in LiveSet(s.live) {
      forall p: nat | r.Contains(p)
        ensures Covers(FreeSet(s.lists), p)
      {
        assert Covers(all, p);
        var b :| b in all && b.Contains(p);
        if b in LiveSet(s.live) {
          NestedOrDisjoint(r, b);
          InsideSameOrder(r, b);
          assert false;
        }
      }
      assert CoversBlock(FreeSet(s.lists), r);
      assert false;
    }
  }

  /** Every aligned block of the order between the bounds is live. */
  ghost predicate AllLive(s: State, order: nat, lo: nat, hi: nat) {
    forall r: Block :: r.order == order && r.Aligned() && lo <= r.addr && r.End() <= hi ==> r.addr in s.live
  }

  lemma DrainedIsLive(heapStart: nat, heapSize: nat, s: State, order: nat)
    requires Inv(heapStart, heapSize, s) && OnlyWhole(s, order) && order <= MAX_ORDER
    requires Allocate(s.lists, order).1 == 0
    ensures AllLive(s, order, Lo(heapStart), Hi(heapStart, heapSize))
  {
    AllocateFailsOnlyWhenFull(heapStart, heapSize, s, order);
    forall r: Block | r.order == order && r.Aligned() && Lo(heapStart) <= r.addr && r.End() <= Hi(heapStart, heapSize)
      ensures r.addr in s.live
    {
      LiveWhenDrained(heapStart, heapSize, s, r);
    }
  }

  ghost predicate EmptyFrom(lists: FreeLists, order: nat) {
    forall o :: order <= o <= MAX_ORDER ==> lists[o] == []
  }

  lemma DrainedListsEmpty(heapStart: nat, heapSize: nat, s: State, order: nat)
    requires Inv(heapStart, heapSize, s) && order <= MAX_ORDER && Allocate(s.lists, order).1 == 0
    ensures EmptyFrom(s.lists, order)
  {
    var k := FirstFit(s.lists, order);
    if k <= MAX_ORDER {
      FreeIsNotLive(heapStart, heapSize, s, Block(s.lists[k][0], k));
    }
  }

  lemma DrainFromInit(heapStart: nat, heapSize: nat, order: nat) returns (u: seq<State>)
    requires NonNull(heapStart, heapSize) && order <= MAX_ORDER
    ensures Execution(heapStart, heapSize, u)
    ensures OnlyWhole(u[|u| - 1], order)
    ensures AllLive(u[|u| - 1], order, Lo(heapStart), Hi(heapStart, heapSize))
    ensures EmptyFrom(u[|u| - 1].lists, order)
  {
    InitialInv(heapStart, heapSize);
    u := Drain(heapStart, heapSize, order, [State(InitLists(heapStart, heapSize), map[])]);
    DrainedListsEmpty(heapStart, heapSize, u[|u| - 1], order);
    DrainedIsLive(heapStart, heapSize, u[|u| - 1], order);
  }

  lemma FreeLowest(heapStart: nat, heapSize: nat, lo: nat, m: nat, trace: seq<State>, s: State) returns (u: seq<State>)
    requires Execution(heapStart, heapSize, trace) && s == trace[|trace| - 1]
    requires NonNull(heapStart, heapSize) && lo == Lo(heapStart) && 0 < m <= MAX_ORDER
    requires lo in s.live && lo + Size(m - 1) in s.live && OnlyWhole(s, m - 1)
    requires EmptyFrom(s.lists, m - 1)
    ensures Execution(heapStart, heapSize, u)
    ensures u[|u| - 1] == State(Push(s.lists, m, lo), s.live - {lo, lo + Size(m - 1)})
  {
    var n := m - 1;
    var b := lo + Size(n);
    FreePair(heapStart, lo, s.lists, n);
    u := FreeOne(heapStart, heapSize, trace, s, lo, n, Push(s.lists, n, lo));
    u := FreeOne(heapStart, heapSize, u, u[|u| - 1], b, n, Push(s.lists, m, lo));
    assert s.live - {lo} - {b} == s.live - {lo, b};
  }

  /** One more release, of a block whose merge is known. */
  lemma FreeOne(heapStart: nat, heapSize: nat, trace: seq<State>, s: State, a: nat, n: nat, lists: FreeLists)
    returns (u: seq<State>)
    requires Execution(heapStart, heapSize, trace) && s == trace[|trace| - 1] && n <= MAX_ORDER
    requires a in s.live && s.live[a] == Whole(n) && heapStart <= a && Coalesce(heapStart, s.lists, a, n) == lists
    ensures Execution(heapStart, heapSize, u) && u[|u| - 1] == State(lists, s.live - {a})
  {
    OrderOfBlockSize(n, Whole(n));
    var t := State(lists, s.live - {a});
    assert Next(heapStart, s, Free(a), t);
    Extend(heapStart, heapSize, trace, Free(a), t);
    u := trace + [t];
  }

  lemma AskForAligned(heapStart: nat, lo: nat, m: nat, s: State) returns (t: State)
    requires lo > 0 && m <= MAX_ORDER && s.lists[m] == [lo] && !AlignedTo(lo, m)
    ensures Next(heapStart, s, Alloc(Layout(Size(m), Size(m))), t) && !LayoutsHonoured(t)
  {
    var layout := Layout(Size(m), Size(m));
    OrderOfBlockSize(m, layout);
    SizeIsShift(m);
    assert IsPow2(Size(m));
    t := AllocState(s, layout);
    assert FirstFit(s.lists, m) == m;
    AlignedIsMod(lo, m);
    assert t.live[lo] == layout;
  }

  lemma BothLive(s: State, n: nat, lo: nat, hi: nat)
    requires AlignedTo(lo, n) && lo + Size(n) + Size(n) <= hi && AllLive(s, n, lo, hi)
    ensures lo in s.live && lo + Size(n) in s.live
  {
    var left, right := Block(lo, n), Block(lo + Size(n), n);
    SumAligned(lo, 1, n);
    assert left.addr in s.live && right.addr in s.live;
  }

  lemma PairFits(lo: nat, n: nat, end: nat)
    requires lo % 64 == 0 && lo + Size(n + 1) <= end
    ensures lo + Size(n) + Size(n) <= end / 64 * 64
  {
    NextStart(lo, n);
    NextStart(lo + Size(n), n);
    RoundedDown(lo + Size(n) + Size(n), end);
  }

  /** Freeing the two lowest blocks merges them, whatever the base. */
  lemma FreePair(heapStart: nat, lo: nat, lists: FreeLists, n: nat)
    requires lo == Lo(heapStart) && n < MAX_ORDER && EmptyFrom(lists, n)
    ensures heapStart <= lo && Coalesce(heapStart, lists, lo, n) == Push(lists, n, lo)
    ensures Coalesce(heapStart, Push(lists, n, lo), lo + Size(n), n) == Push(lists, n + 1, lo)
  {
    LoIs(heapStart);
    NothingToMerge(heapStart, lists, lo, n);
    LowestPair(heapStart, lo, n);
    CoalesceMerges(heapStart, Push(lists, n, lo), lo + Size(n), n, lo);
    UnlinkPushed(lists, n, lo);
    NothingToMerge(heapStart, lists, lo, n + 1);
  }

  lemma LowestPair(heapStart: nat, lo: nat, n: nat)
    requires lo % 64 == 0 && heapStart <= lo < heapStart + 64
    ensures BuddyAddr(heapStart, lo + Size(n), n) == lo
  {
    FirstPair(lo, n);
    NextStart(lo, n);
    BuddyFromLo(heapStart, lo, lo + Size(n), n);
  }

  lemma FirstPair(lo: nat, n: nat)
    ensures BuddyAddr(lo, lo + Size(n), n) == lo
  {
    PairXor(lo, 0, n);
  }

  lemma NothingToMerge(heapStart: nat, lists: FreeLists, addr: nat, order: nat)
    requires heapStart <= addr && order <= MAX_ORDER && EmptyFrom(lists, order)
    ensures Coalesce(heapStart, lists, addr, order) == Push(lists, order, addr)
  {
  }

  // ------------------------------------------------- two further promises

  /** At every point of every run an allocation succeeds if and only if the free
      blocks cover an aligned region of its size. */
  ghost predicate ServesWhenRoom(heapStart: nat, heapSize: nat) {
    forall trace: seq<State>, i: nat, order: nat ::
      Execution(heapStart, heapSize, trace) && i < |trace| && order <= MAX_ORDER ==>
        (Allocate(trace[i].lists, order).1 != 0 <==> HasRoom(trace[i].lists, order))
  }

  /** Whenever a run has released everything, the free blocks are those of `init`. */
  ghost predicate EmptiesToInit(heapStart: nat, heapSize: nat) {
    forall trace: seq<State>, i: nat ::
      Execution(heapStart, heapSize, trace) && i < |trace| && trace[i].live == map[] ==>
        FreeSet(trace[i].lists) == FreeSet(InitLists(heapStart, heapSize))
  }

  lemma ServesWhenRoomIffBaseAligned(heapStart: nat, heapSize: nat)
    requires NonNull(heapStart, heapSize)
    ensures ServesWhenRoom(heapStart, heapSize) <==> HeapAligned(heapStart, heapSize)
  {
    if HeapAligned(heapStart, heapSize) {
      forall trace: seq<State>, i: nat, order: nat |
        Execution(heapStart, heapSize, trace) && i < |trace| && order <= MAX_ORDER
        ensures Allocate(trace[i].lists, order).1 != 0 <==> HasRoom(trace[i].lists, order)
      {
        EveryRunIsSafe(heapStart, heapSize, trace, i);
        AllocateFailsOnlyWhenFull(heapStart, heapSize, trace[i], order);
      }
    } else {
      var trace, m := LowestPairFreed(heapStart, heapSize);
      var s := trace[|trace| - 1];
      EveryRunKeepsPartition(heapStart, heapSize, trace, |trace| - 1);
      LoIs(heapStart);
      LoneBlockServes(s.lists, m, Lo(heapStart));
      NoAlignedRoom(heapStart, heapSize, s, m);
    }
  }

  lemma LoneBlockServes(lists: FreeLists, m: nat, lo: nat)
    requires m <= MAX_ORDER && lists[m] == [lo] && lo > 0
    ensures Allocate(lists, m).1 == lo
  {
    assert FirstFit(lists, m) == m;
  }

  lemma NoAlignedRoom(heapStart: nat, heapSize: nat, s: State, m: nat)
    requires Owned(heapStart, heapSize, s) && 0 < m <= MAX_ORDER
    requires AlignedTo(Lo(heapStart), m - 1) && !AlignedTo(Lo(heapStart), m)
    requires LoneLowBlock(s, m, Lo(heapStart), Hi(heapStart, heapSize))
    ensures !HasRoom(s.lists, m)
  {
    forall r: Block | r.order == m && r.Aligned()
      ensures !CoversBlock(FreeSet(s.lists), r)
    {
      if CoversBlock(FreeSet(s.lists), r) {
        CoveredInside(FreeSet(s.lists), r, Lo(heapStart), Hi(heapStart, heapSize));
        UpperHalfLive(s, r, Lo(heapStart), Hi(heapStart, heapSize));
        assert r.Contains(r.Right().addr);
        LiveIsNotCovered(heapStart, heapSize, s, r.Right());
        assert false;
      }
    }
  }

  lemma CoveredInside(free: set<Block>, r: Block, lo: nat, hi: nat)
    requires Inside(free, lo, hi) && CoversBlock(free, r)
    ensures lo <= r.addr && r.End() <= hi
  {
    assert r.Contains(r.addr) && r.Contains(r.End() - 1);
    assert Covers(free, r.addr) && Covers(free, r.End() - 1);
  }

  lemma UpperHalfLive(s: State, r: Block, lo: nat, hi: nat)
    requires 0 < r.order <= MAX_ORDER && r.Aligned() && lo <= r.addr && r.End() <= hi
    requires AlignedTo(lo, r.order - 1) && !AlignedTo(lo, r.order) && LoneLowBlock(s, r.order, lo, hi)
    ensures r.Right() in LiveSet(s.live)
  {
    var n := r.order - 1;
    AlignedHalves(r);
    AlignedIsMod(lo, n);
    AlignedIsMod(r.addr, n);
    AlignedApart(lo, r.addr, Size(n));
    OrderOfBlockSize(n, Whole(n));
    assert r.Right().addr in s.live;
  }

  lemma LiveIsNotCovered(heapStart: nat, heapSize: nat, s: State, b: Block)
    requires Owned(heapStart, heapSize, s) && b in LiveSet(s.live)
    ensures !Covers(FreeSet(s.lists), b.addr)
  {
    var all := FreeSet(s.lists) + LiveSet(s.live);
    forall c | c in FreeSet(s.lists)
      ensures !c.Contains(b.addr)
    {
      assert c in all && b in all && c != b;
    }
  }

  lemma EmptiesToInitIffBaseAligned(heapStart: nat, heapSize: nat)
    requires NonNull(heapStart, heapSize)
    ensures EmptiesToInit(heapStart, heapSize) <==> HeapAligned(heapStart, heapSize)
  {
    if HeapAligned(heapStart, heapSize) {
      forall trace: seq<State>, i: nat | Execution(heapStart, heapSize, trace) && i < |trace| && trace[i].live == map[]
        ensures FreeSet(trace[i].lists) == FreeSet(InitLists(heapStart, heapSize))
      {
        EmptiedHeapIsCanonical(heapStart, heapSize, trace, i);
      }
    } else {
      var trace, m := LowestPairFreed(heapStart, heapSize);
      assert Lo(heapStart) in trace[|trace| - 1].lists[m];
      var u := ReleaseAll(heapStart, heapSize, m, trace);
      NotAsInitialised(heapStart, heapSize, m, u[|u| - 1].lists);
    }
  }

  /** Some block of order `m` or more starts at `lo`. */
  ghost predicate StartsHigh(lists: FreeLists, m: nat, lo: nat) {
    exists o: nat :: m <= o <= MAX_ORDER && lo in lists[o]
  }

  ghost predicate NoneBelow(lists: FreeLists, lo: nat) {
    forall o: nat, a :: o <= MAX_ORDER && a in lists[o] ==> lo <= a
  }

  lemma NotAsInitialised(heapStart: nat, heapSize: nat, m: nat, lists: FreeLists)
    requires StartsHigh(lists, m, Lo(heapStart)) && !AlignedTo(Lo(heapStart), m)
    ensures FreeSet(lists) != FreeSet(InitLists(heapStart, heapSize))
  {
    var o: nat :| m <= o <= MAX_ORDER && Lo(heapStart) in lists[o];
    var b := Block(Lo(heapStart), o);
    assert b in FreeSet(lists);
    if b in FreeSet(InitLists(heapStart, heapSize)) {
      InitTilesHeap(heapStart, heapSize);
      AlignedDown(b.addr, m, o);
      assert false;
    }
  }

  /** Release every live block, in any order. */
  lemma {:induction false} ReleaseAll(heapStart: nat, heapSize: nat, m: nat, trace: seq<State>) returns (u: seq<State>)
    requires NonNull(heapStart, heapSize) && Execution(heapStart, heapSize, trace)
    requires StartsHigh(trace[|trace| - 1].lists, m, Lo(heapStart))
    ensures Execution(heapStart, heapSize, u) && u[|u| - 1].live == map[]
    ensures StartsHigh(u[|u| - 1].lists, m, Lo(heapStart))
    decreases |trace[|trace| - 1].live|
  {
    var s := trace[|trace| - 1];
    if s.live == map[] {
      u := trace;
    } else {
      var a :| a in s.live;
      var order := OrderFor(s.live[a]);
      EveryRunKeepsPartition(heapStart, heapSize, trace, |trace| - 1);
      ReleaseKeepsOwned(heapStart, heapSize, s, a);
      OwnedStartsAtLo(heapStart, heapSize, s, a);
      CoalesceStartsHigh(heapStart, s.lists, a, order, m, Lo(heapStart));
      var t := State(Coalesce(heapStart, s.lists, a, order), s.live - {a});
      assert Next(heapStart, s, Free(a), t);
      Extend(heapStart, heapSize, trace, Free(a), t);
      assert t.live.Keys == s.live.Keys - {a};
      u := ReleaseAll(heapStart, heapSize, m, trace + [t]);
    }
  }

  lemma OwnedStartsAtLo(heapStart: nat, heapSize: nat, s: State, a: nat)
    requires Owned(heapStart, heapSize, s) && a in s.live
    ensures Lo(heapStart) <= a && NoneBelow(s.lists, Lo(heapStart))
  {
    var all := FreeSet(s.lists) + LiveSet(s.live);
    assert Block(a, OrderFor(s.live[a])) in all;
    forall o: nat, x | o <= MAX_ORDER && x in s.lists[o]
      ensures Lo(heapStart) <= x
    {
      assert Block(x, o) in all;
    }
  }

  /** Merging never cuts the block at the lowest address down. */
  lemma {:induction false} CoalesceStartsHigh(heapStart: nat, lists: FreeLists, addr: nat, order: nat, m: nat, lo: nat)
    requires heapStart <= lo <= addr && order <= MAX_ORDER && NoneBelow(lists, lo)
    requires StartsHigh(lists, m, lo) || (addr == lo && m <= order)
    ensures StartsHigh(Coalesce(heapStart, lists, addr, order), m, lo)
    decreases MAX_ORDER - order
  {
    var buddy := BuddyAddr(heapStart, addr, order);
    if order < MAX_ORDER && buddy in lists[order] {
      UnlinkStartsHigh(lists, order, buddy, m, lo);
      CoalesceMerges(heapStart, lists, addr, order, buddy);
      CoalesceStartsHigh(heapStart, Unlink(lists, order, buddy), Min(addr, buddy), order + 1, m, lo);
    } else {
      PushStartsHigh(lists, order, addr, m, lo);
    }
  }

  lemma UnlinkStartsHigh(lists: FreeLists, order: nat, buddy: nat, m: nat, lo: nat)
    requires order <= MAX_ORDER && NoneBelow(lists, lo)
    ensures NoneBelow(Unlink(lists, order, buddy), lo)
    ensures StartsHigh(lists, m, lo) ==> StartsHigh(Unlink(lists, order, buddy), m, lo) || (buddy == lo && m <= order)
  {
    var t := Unlink(lists, order, buddy);
    forall x
      ensures x in t[order] ==> x in lists[order]
      ensures x in lists[order] && x != buddy ==> x in t[order]
    {
      WithoutKeeps(lists[order], buddy, x);
    }
    if StartsHigh(lists, m, lo) {
      var o: nat :| m <= o <= MAX_ORDER && lo in lists[o];
      assert o != order || buddy != lo ==> lo in t[o];
    }
  }

  lemma {:induction false} WithoutKeeps(s: seq<nat>, a: nat, x: nat)
    ensures x in Without(s, a) ==> x in s
    ensures x in s && x != a ==> x in Without(s, a)
  {
    if s != [] && s[0] != a {
      WithoutKeeps(s[1..], a, x);
    }
  }

  lemma PushStartsHigh(lists: FreeLists, order: nat, addr: nat, m: nat, lo: nat)
    requires order <= MAX_ORDER && (StartsHigh(lists, m, lo) || (addr == lo && m <= order))
    ensures StartsHigh(Push(lists, order, addr), m, lo)
  {
    var t := Push(lists, order, addr);
    if addr == lo && m <= order {
      assert lo in t[order];
    } else {
      var o: nat :| m <= o <= MAX_ORDER && lo in lists[o];
      assert lo in t[o];
    }
  }

  /** Why the base must not be zero: the block at address 0 is handed out as the
      null result, and is lost. */
  lemma BaseZeroLeaks()
    ensures var lists := InitLists(0, 64);
            FreeSet(lists) == {Block(0, 0)} && Allocate(lists, 0) == (EmptyLists(), 0)
  {
    var lists := InitLists(0, 64);
    var b := GreedyHead(0, 64);
    assert Greedy(64, 64) == [] && Greedy(0, 64) == [b];
    assert [b][1..] == [];
    assert PushAll(EmptyLists(), [b]) == PushAll(Push(EmptyLists(), 0, 0), [b][1..]);
    PushSet(EmptyLists(), 0, 0);
    NothingFreeYet();
    assert lists == Push(EmptyLists(), 0, 0);
    assert FirstFit(lists, 0) == 0;
    assert lists[0 := lists[0][1..]] == EmptyLists();
  }
}
