/** What the buddy system guarantees: greedy initial tiling, safety of every run,
    completeness of allocation, exact round trips and a canonical empty heap. */
module BuddyTheorems {
  import opened Bits
  import opened Dyadic
  import opened BuddyLists
  import opened Words

  // ------------------------------------------------------- initial tiling

  predicate Fits(addr: nat, order: nat, end: nat) {
    AlignedTo(addr, order) && addr + Size(order) <= end
  }

  /** Largest order at most `order` that fits at `addr`, or 0. */
  function LargestFit(addr: nat, end: nat, order: nat): (r: nat)
    ensures r <= order
    ensures r == 0 || Fits(addr, r, end)
    ensures forall o :: r < o <= order ==> !Fits(addr, o, end)
  {
    if order == 0 || Fits(addr, order, end) then order
    else LargestFit(addr, end, order - 1)
  }

  lemma SizeIsMultiple(order: nat)
    ensures Size(order) % 64 == 0
  {
    SizeIsShift(order);
    MultipleMod(Pow2(order), MIN_BLOCK_SIZE);
  }

  lemma NextStart(addr: nat, order: nat)
    requires addr % 64 == 0
    ensures (addr + Size(order)) % 64 == 0
  {
    SizeIsMultiple(order);
  }

  /** The address after a block. */
  function Beyond(addr: nat, order: nat): (next: nat)
    requires addr % 64 == 0
    ensures next % 64 == 0 && next > addr
  {
    NextStart(addr, order);
    addr + Size(order)
  }

  /** The blocks registered by `init`, lowest address first. */
  function Greedy(addr: nat, end: nat): (bs: seq<Block>)
    requires addr % 64 == 0
    ensures forall b :: b in bs ==> b.order <= MAX_ORDER
    decreases end - addr
  {
    if addr + MIN_BLOCK_SIZE > end then []
    else
      var o := LargestFit(addr, end, MAX_ORDER);
      [Block(addr, o)] + Greedy(Beyond(addr, o), end)
  }

  ghost function Elems(bs: seq<Block>): set<Block> { set b | b in bs }

  lemma {:induction false} GreedyTiles(addr: nat, end: nat)
    requires addr % 64 == 0
    ensures Tiles(Elems(Greedy(addr, end)), addr, end / 64 * 64)
    decreases end - addr
  {
    var hi := end / 64 * 64;
    if addr + MIN_BLOCK_SIZE <= end {
      var b := GreedyHead(addr, end);
      GreedyTiles(b.End(), end);
      assert Elems([b] + Greedy(b.End(), end)) == {b} + Elems(Greedy(b.End(), end));
      PrependTile(b, Elems(Greedy(b.End(), end)), hi);
    } else {
      assert hi <= addr;
    }
  }

  lemma GreedyHead(addr: nat, end: nat) returns (b: Block)
    requires addr % 64 == 0 && addr + MIN_BLOCK_SIZE <= end
    ensures b == Block(addr, LargestFit(addr, end, MAX_ORDER)) && b.Aligned()
    ensures b.End() % 64 == 0 && b.End() <= end / 64 * 64
    ensures Greedy(addr, end) == [b] + Greedy(b.End(), end)
  {
    b := Block(addr, LargestFit(addr, end, MAX_ORDER));
    GreedyUnfolds(b, end);
    HeadFits(b, end);
    RoundedDown(b.End(), end);
  }

  lemma GreedyUnfolds(b: Block, end: nat)
    requires b.addr % 64 == 0 && b.addr + MIN_BLOCK_SIZE <= end
    requires b.order == LargestFit(b.addr, end, MAX_ORDER)
    ensures b.End() % 64 == 0 && Greedy(b.addr, end) == [b] + Greedy(b.End(), end)
  {
    assert b.End() == Beyond(b.addr, b.order);
  }

  lemma HeadFits(b: Block, end: nat)
    requires b.addr % 64 == 0 && b.addr + MIN_BLOCK_SIZE <= end
    requires b.order == LargestFit(b.addr, end, MAX_ORDER)
    ensures b.Aligned() && b.End() <= end
  {
  }

  lemma RoundedDown(x: nat, end: nat)
    requires x % 64 == 0 && x <= end
    ensures x <= end / 64 * 64
  {
  }

  lemma PrependTile(b: Block, t: set<Block>, hi: nat)
    requires b.Aligned() && b.order <= MAX_ORDER && b.End() <= hi
    requires Tiles(t, b.End(), hi)
    ensures Tiles({b} + t, b.addr, hi)
  {
    forall p | b.addr <= p < hi
      ensures Covers({b} + t, p)
    {
      if b.Contains(p) {
      } else {
        assert Covers(t, p);
        var c :| c in t && c.Contains(p);
        assert c in {b} + t;
      }
    }
  }

  /** Each registered block is the largest self-aligned one that fits there. */
  lemma {:induction false} GreedyIsMaximal(addr: nat, end: nat, b: Block, order: nat)
    requires addr % 64 == 0 && b in Greedy(addr, end)
    requires order <= MAX_ORDER && Fits(b.addr, order, end)
    ensures order <= b.order
    decreases end - addr
  {
    var h := GreedyHead(addr, end);
    if b != h {
      GreedyIsMaximal(h.End(), end, b, order);
    }
  }

  lemma GreedyIsMerged(addr: nat, end: nat)
    requires addr % 64 == 0
    ensures FullyMerged(Elems(Greedy(addr, end)))
  {
    var s := Elems(Greedy(addr, end));
    forall p: Block | 0 < p.order <= MAX_ORDER && p.Aligned() && p.Left() in s
      ensures p.Right() !in s
    {
      ParentTooLong(addr, end, p);
      if p.Right() in s {
        GreedyInside(addr, end, p.Right());
      }
    }
  }

  lemma GreedyInside(addr: nat, end: nat, b: Block)
    requires addr % 64 == 0 && b in Greedy(addr, end)
    ensures b.End() <= end
  {
    GreedyTiles(addr, end);
    assert b in Elems(Greedy(addr, end));
  }

  /** A block whose parent is aligned was registered only because the parent
      reaches past the end. */
  lemma ParentTooLong(addr: nat, end: nat, p: Block)
    requires addr % 64 == 0 && 0 < p.order <= MAX_ORDER && p.Aligned()
    requires p.Left() in Greedy(addr, end)
    ensures p.End() > end
  {
    if p.End() <= end {
      GreedyIsMaximal(addr, end, p.Left(), p.order);
    }
  }

  function EmptyLists(): FreeLists { seq(MAX_ORDER + 1, _ => []) }

  function PushAll(lists: FreeLists, bs: seq<Block>): FreeLists
    requires forall b :: b in bs ==> b.order <= MAX_ORDER
    decreases |bs|
  {
    if bs == [] then lists
    else PushAll(Push(lists, bs[0].order, bs[0].addr), bs[1..])
  }

  function InitLists(heapStart: nat, heapSize: nat): FreeLists {
    PushAll(EmptyLists(), Greedy(Lo(heapStart), heapStart + heapSize))
  }

  lemma {:induction false} PushGreedy(lists: FreeLists, addr: nat, end: nat)
    requires addr % 64 == 0 && NoneRepeats(lists)
    requires forall b :: b in FreeSet(lists) ==> b.addr < addr
    ensures NoneRepeats(PushAll(lists, Greedy(addr, end)))
    ensures FreeSet(PushAll(lists, Greedy(addr, end))) == FreeSet(lists) + Elems(Greedy(addr, end))
    decreases end - addr
  {
    if addr + MIN_BLOCK_SIZE <= end {
      var b := GreedyHead(addr, end);
      PushSet(lists, b.order, b.addr);
      assert Greedy(addr, end)[1..] == Greedy(b.End(), end);
      PushGreedy(Push(lists, b.order, b.addr), b.End(), end);
      assert Elems([b] + Greedy(b.End(), end)) == {b} + Elems(Greedy(b.End(), end));
    }
  }

  /** No larger self-aligned block would fit in `b`'s place. */
  ghost predicate IsLargestAt(b: Block, end: nat) {
    forall o: nat :: o <= MAX_ORDER && Fits(b.addr, o, end) ==> o <= b.order
  }

  /** For every heap base and size, `init` leaves free lists that partition
      exactly the 64-byte-aligned part of the heap, fully merged. */
  lemma InitTilesHeap(heapStart: nat, heapSize: nat)
    ensures Holds(InitLists(heapStart, heapSize), {}, Lo(heapStart), Hi(heapStart, heapSize))
    ensures forall b :: b in FreeSet(InitLists(heapStart, heapSize)) ==> IsLargestAt(b, heapStart + heapSize)
  {
    var lo, end := Lo(heapStart), heapStart + heapSize;
    GreedyTiles(lo, end);
    GreedyIsMerged(lo, end);
    InitSet(heapStart, heapSize);
    var s := Elems(Greedy(lo, end));
    EmptyHandHolds(InitLists(heapStart, heapSize), s, lo, Hi(heapStart, heapSize));
    forall b, o: nat | b in s && o <= MAX_ORDER && Fits(b.addr, o, end)
      ensures o <= b.order
    {
      GreedyIsMaximal(lo, end, b, o);
    }
  }

  lemma EmptyHandHolds(lists: FreeLists, s: set<Block>, lo: nat, hi: nat)
    requires NoneRepeats(lists) && FreeSet(lists) == s && Tiles(s, lo, hi) && FullyMerged(s)
    ensures Holds(lists, {}, lo, hi)
  {
    assert s + {} == s;
  }

  lemma InitSet(heapStart: nat, heapSize: nat)
    ensures NoneRepeats(InitLists(heapStart, heapSize))
    ensures FreeSet(InitLists(heapStart, heapSize)) == Elems(Greedy(Lo(heapStart), heapStart + heapSize))
  {
    NothingFreeYet();
    PushGreedy(EmptyLists(), Lo(heapStart), heapStart + heapSize);
  }

  lemma NothingFreeYet()
    ensures NoneRepeats(EmptyLists()) && FreeSet(EmptyLists()) == {}
  {
  }

  // ------------------------------------------------ operations keep Holds

  lemma {:induction false} SplitKeeps(lists: FreeLists, b: Block, to: nat, rest: set<Block>, lo: nat, hi: nat)
    requires HoldsWith(lists, rest, b, lo, hi) && to <= b.order <= MAX_ORDER
    ensures HoldsWith(SplitDown(lists, b.addr, b.order, to), rest, Block(b.addr, to), lo, hi)
    decreases b.order
  {
    if b.order > to {
      SplitStep(lists, b, rest, lo, hi);
      SplitKeeps(Push(lists, b.order - 1, b.Right().addr), b.Left(), to, rest, lo, hi);
    }
  }

  lemma {:induction false} CoalesceKeeps(heapStart: nat, heapSize: nat, lists: FreeLists, b: Block, rest: set<Block>)
    requires HeapAligned(heapStart, heapSize)
    requires HoldsWith(lists, rest, b, Lo(heapStart), Hi(heapStart, heapSize))
    ensures heapStart <= b.addr && b.order <= MAX_ORDER
    ensures Holds(Coalesce(heapStart, lists, b.addr, b.order), rest, Lo(heapStart), Hi(heapStart, heapSize))
    decreases MAX_ORDER - b.order
  {
    InHand(lists, rest, b, Lo(heapStart), Hi(heapStart, heapSize));
    var buddy := BuddyAddr(heapStart, b.addr, b.order);
    if b.order < MAX_ORDER && buddy in lists[b.order] {
      var p := CoalesceStep(heapStart, heapSize, lists, b, rest);
      CoalesceKeeps(heapStart, heapSize, Unlink(lists, b.order, buddy), p, rest);
    } else {
      SiblingNotFree(heapStart, heapSize, lists, b, rest);
      PutStep(lists, b, rest, Lo(heapStart), Hi(heapStart, heapSize));
    }
  }

  lemma CoalesceStep(heapStart: nat, heapSize: nat, lists: FreeLists, b: Block, rest: set<Block>) returns (p: Block)
    requires HeapAligned(heapStart, heapSize)
    requires HoldsWith(lists, rest, b, Lo(heapStart), Hi(heapStart, heapSize))
    requires heapStart <= b.addr && b.order < MAX_ORDER
    requires BuddyAddr(heapStart, b.addr, b.order) in lists[b.order]
    ensures var buddy := BuddyAddr(heapStart, b.addr, b.order);
            && p == Block(Min(b.addr, buddy), b.order + 1)
            && HoldsWith(Unlink(lists, b.order, buddy), rest, p, Lo(heapStart), Hi(heapStart, heapSize))
  {
    var lo, hi := Lo(heapStart), Hi(heapStart, heapSize);
    var c := Block(BuddyAddr(heapStart, b.addr, b.order), b.order);
    InHand(lists, rest, b, lo, hi);
    assert c in FreeSet(lists) + (rest + {b});
    p := FreeBuddyIsSibling(heapStart, heapSize, b, c);
    MergeStep(lists, p, b, c, rest, lo, hi);
  }

  lemma SiblingNotFree(heapStart: nat, heapSize: nat, lists: FreeLists, b: Block, rest: set<Block>)
    requires HeapAligned(heapStart, heapSize)
    requires HoldsWith(lists, rest, b, Lo(heapStart), Hi(heapStart, heapSize))
    requires heapStart <= b.addr && b.order <= MAX_ORDER
    requires b.order < MAX_ORDER ==> BuddyAddr(heapStart, b.addr, b.order) !in lists[b.order]
    ensures forall p: Block, c: Block ::
              0 < p.order <= MAX_ORDER && p.Aligned() && Halves(p, b, c) ==> c !in FreeSet(lists)
  {
    InHand(lists, rest, b, Lo(heapStart), Hi(heapStart, heapSize));
    assert WellPlaced(FreeSet(lists), Lo(heapStart), heapStart + heapSize) by {
      assert forall c :: c in FreeSet(lists) ==> c in FreeSet(lists) + (rest + {b});
    }
    forall p: Block, c: Block | 0 < p.order <= MAX_ORDER && p.Aligned() && Halves(p, b, c)
      ensures c !in FreeSet(lists)
    {
      SiblingIsBuddy(heapStart, heapSize, lists, p, b, c);
    }
  }

  lemma SiblingIsBuddy(heapStart: nat, heapSize: nat, lists: FreeLists, p: Block, b: Block, c: Block)
    requires HeapAligned(heapStart, heapSize) && WellPlaced(FreeSet(lists), Lo(heapStart), heapStart + heapSize)
    requires heapStart <= Lo(heapStart) <= b.addr && b.End() <= heapStart + heapSize && b.order < MAX_ORDER
    requires BuddyAddr(heapStart, b.addr, b.order) !in lists[b.order]
    requires 0 < p.order <= MAX_ORDER && p.Aligned() && Halves(p, b, c)
    ensures c !in FreeSet(lists)
  {
    if c in FreeSet(lists) {
      BuddyIsSibling(heapStart, heapSize, p);
    }
  }

  // --------------------------------------------------------- whole states

  datatype State = State(lists: FreeLists, live: map<nat, Layout>)

  ghost function LiveSet(live: map<nat, Layout>): set<Block> {
    set a | a in live :: Block(a, OrderFor(live[a]))
  }

  /** Free and live blocks partition the heap and free buddies are merged. */
  ghost predicate Inv(heapStart: nat, heapSize: nat, s: State) {
    && NonNull(heapStart, heapSize)
    && Holds(s.lists, LiveSet(s.live), Lo(heapStart), Hi(heapStart, heapSize))
  }

  lemma InitialInv(heapStart: nat, heapSize: nat)
    requires NonNull(heapStart, heapSize)
    ensures Inv(heapStart, heapSize, State(InitLists(heapStart, heapSize), map[]))
  {
    InitTilesHeap(heapStart, heapSize);
    assert LiveSet(map[]) == {};
  }

  lemma LiveInsert(live: map<nat, Layout>, addr: nat, layout: Layout)
    requires addr !in live
    ensures LiveSet(live[addr := layout]) == LiveSet(live) + {Block(addr, OrderFor(layout))}
  {
    var m := live[addr := layout];
    forall b
      ensures b in LiveSet(m) <==> b in LiveSet(live) + {Block(addr, OrderFor(layout))}
    {
      assert b in LiveSet(m) <==> b.addr in m && b.order == OrderFor(m[b.addr]);
    }
  }

  lemma LiveRemove(live: map<nat, Layout>, addr: nat)
    requires addr in live
    ensures LiveSet(live - {addr}) == LiveSet(live) - {Block(addr, OrderFor(live[addr]))}
  {
    var m := live - {addr};
    forall b
      ensures b in LiveSet(m) <==> b in LiveSet(live) - {Block(addr, OrderFor(live[addr]))}
    {
      assert b in LiveSet(m) <==> b.addr in m && b.order == OrderFor(m[b.addr]);
      assert b in LiveSet(live) <==> b.addr in live && b.order == OrderFor(live[b.addr]);
    }
  }

  /** State after a request: a null result leaves everything as it was. */
  function AllocState(s: State, layout: Layout): State {
    var (lists, addr) := Allocate(s.lists, OrderFor(layout));
    if addr == 0 then s else State(lists, s.live[addr := layout])
  }

  lemma FreeIsNotLive(heapStart: nat, heapSize: nat, s: State, b: Block)
    requires Inv(heapStart, heapSize, s) && b in FreeSet(s.lists)
    ensures b.addr !in s.live && b.addr >= heapStart
  {
    var all := FreeSet(s.lists) + LiveSet(s.live);
    assert b in all;
    forall c: Block | c in LiveSet(s.live)
      ensures c.addr != b.addr
    {
      assert c in all && c != b;
    }
    assert forall a :: a in s.live ==> Block(a, OrderFor(s.live[a])).addr == a;
  }

  lemma AllocateKeepsInv(heapStart: nat, heapSize: nat, s: State, layout: Layout)
    requires Inv(heapStart, heapSize, s)
    ensures var (lists, addr) := Allocate(s.lists, OrderFor(layout));
            && (addr == 0 ==> lists == s.lists)
            && (addr != 0 ==> addr !in s.live)
    ensures Inv(heapStart, heapSize, AllocState(s, layout))
  {
    var order := OrderFor(layout);
    if order <= MAX_ORDER && FirstFit(s.lists, order) <= MAX_ORDER {
      var k := FirstFit(s.lists, order);
      var b := Block(s.lists[k][0], k);
      var live := LiveSet(s.live);
      var lo, hi := Lo(heapStart), Hi(heapStart, heapSize);
      TakeHead(s.lists, k, live, lo, hi);
      SplitKeeps(s.lists[k := s.lists[k][1..]], b, order, live, lo, hi);
      FreeIsNotLive(heapStart, heapSize, s, b);
      LiveInsert(s.live, b.addr, layout);
    }
  }

  /** Freeing any live block is possible and keeps the invariant. */
  lemma ReleaseKeepsInv(heapStart: nat, heapSize: nat, s: State, addr: nat)
    requires HeapAligned(heapStart, heapSize)
    requires Inv(heapStart, heapSize, s) && addr in s.live
    ensures heapStart <= addr && OrderFor(s.live[addr]) <= MAX_ORDER
    ensures Inv(heapStart, heapSize,
                State(Coalesce(heapStart, s.lists, addr, OrderFor(s.live[addr])), s.live - {addr}))
  {
    var b := Block(addr, OrderFor(s.live[addr]));
    var rest := LiveSet(s.live) - {b};
    assert b in LiveSet(s.live);
    assert LiveSet(s.live) == rest + {b};
    CoalesceKeeps(heapStart, heapSize, s.lists, b, rest);
    LiveRemove(s.live, addr);
  }

  // --------------------------------------------------------- completeness

  /** Some self-aligned region of the given order is wholly free. */
  ghost predicate HasRoom(lists: FreeLists, order: nat) {
    exists r: Block :: r.order == order && r.Aligned() && CoversBlock(FreeSet(lists), r)
  }

  /** A request is refused exactly when no free region could hold it. */
  lemma AllocateFailsOnlyWhenFull(heapStart: nat, heapSize: nat, s: State, order: nat)
    requires Inv(heapStart, heapSize, s) && order <= MAX_ORDER
    ensures Allocate(s.lists, order).1 != 0 <==> HasRoom(s.lists, order)
  {
    var k := FirstFit(s.lists, order);
    var free := FreeSet(s.lists);
    assert forall b :: b in free ==> b in free + LiveSet(s.live);
    if k <= MAX_ORDER {
      var b, r := Block(s.lists[k][0], k), Block(s.lists[k][0], order);
      assert b in free;
      AlignedDown(b.addr, order, k);
      SizeMonotone(order, k);
      assert forall p :: r.Contains(p) ==> b.Contains(p);
      assert CoversBlock(free, r);
    } else if HasRoom(s.lists, order) {
      var r: Block :| r.order == order && r.Aligned() && CoversBlock(free, r);
      var b := CoveredRegionInOneBlock(free, r);
      if b.order < order {
        InsideSameOrder(r, b);
      }
      assert false;
    }
  }

  // ----------------------------------------------------------- round trip

  lemma {:induction false} CoalesceUndoesSplit(heapStart: nat, heapSize: nat, lists: FreeLists, b: Block, to: nat)
    requires HeapAligned(heapStart, heapSize) && b.Aligned() && to <= b.order <= MAX_ORDER
    requires heapStart <= Lo(heapStart) <= b.addr && b.End() <= heapStart + heapSize
    requires forall o :: to <= o < b.order ==> lists[o] == []
    ensures Coalesce(heapStart, SplitDown(lists, b.addr, b.order, to), b.addr, to)
         == Coalesce(heapStart, lists, b.addr, b.order)
    decreases b.order
  {
    if to < b.order {
      var l := Push(lists, b.order - 1, b.Right().addr);
      AlignedHalves(b);
      CoalesceUndoesSplit(heapStart, heapSize, l, b.Left(), to);
      SplitDownStep(lists, b, to);
      BuddyIsSibling(heapStart, heapSize, b);
      CoalesceMerges(heapStart, l, b.addr, b.order - 1, b.Right().addr);
      UnlinkPushed(lists, b.order - 1, b.Right().addr);
    }
  }

  lemma SplitDownStep(lists: FreeLists, b: Block, to: nat)
    requires to < b.order <= MAX_ORDER
    ensures SplitDown(lists, b.addr, b.order, to)
         == SplitDown(Push(lists, b.order - 1, b.Right().addr), b.addr, b.order - 1, to)
  {
  }

  lemma UnlinkPushed(lists: FreeLists, order: nat, addr: nat)
    requires order <= MAX_ORDER
    ensures Unlink(Push(lists, order, addr), order, addr) == lists
  {
    assert Without([addr] + lists[order], addr) == lists[order];
  }

  lemma CoalesceMerges(heapStart: nat, lists: FreeLists, addr: nat, order: nat, buddy: nat)
    requires heapStart <= addr && order < MAX_ORDER
    requires buddy == BuddyAddr(heapStart, addr, order) && buddy in lists[order]
    ensures Coalesce(heapStart, lists, addr, order)
         == Coalesce(heapStart, Unlink(lists, order, buddy), Min(addr, buddy), order + 1)
  {
  }

  /** Allocating and freeing at once restores every chain, order included. */
  lemma AllocateReleaseRoundTrip(heapStart: nat, heapSize: nat, s: State, order: nat)
    requires HeapAligned(heapStart, heapSize) && Inv(heapStart, heapSize, s) && order <= MAX_ORDER
    ensures var (lists, addr) := Allocate(s.lists, order);
            addr != 0 ==> heapStart <= addr && Coalesce(heapStart, lists, addr, order) == s.lists
  {
    var k := FirstFit(s.lists, order);
    if k <= MAX_ORDER {
      var b := Block(s.lists[k][0], k);
      assert b in FreeSet(s.lists) + LiveSet(s.live);
      var l := s.lists[k := s.lists[k][1..]];
      CoalesceUndoesSplit(heapStart, heapSize, l, b, order);
      BuddyOfFreeNotFree(heapStart, heapSize, s, b);
      assert [b.addr] + l[k] == s.lists[k];
    }
  }

  lemma BuddyOfFreeNotFree(heapStart: nat, heapSize: nat, s: State, b: Block)
    requires HeapAligned(heapStart, heapSize) && Inv(heapStart, heapSize, s) && b in FreeSet(s.lists)
    ensures heapStart <= b.addr
    ensures b.order < MAX_ORDER ==> BuddyAddr(heapStart, b.addr, b.order) !in s.lists[b.order]
  {
    var all := FreeSet(s.lists) + LiveSet(s.live);
    assert b in all;
    var c := Block(BuddyAddr(heapStart, b.addr, b.order), b.order);
    if b.order < MAX_ORDER && c.addr in s.lists[b.order] {
      assert c in all;
      var p := FreeBuddyIsSibling(heapStart, heapSize, b, c);
      assert false;
    }
  }

  // ----------------------------------------------------------------- runs

  predicate IsPow2(x: nat) { exists k: nat :: k <= x && x == Pow2(k) }

  datatype Op = Alloc(layout: Layout) | Free(addr: nat)

  /** One call of a well-behaved client. */
  ghost predicate Next(heapStart: nat, s: State, op: Op, t: State) {
    match op
    case Alloc(layout) => IsPow2(layout.align) && t == AllocState(s, layout)
    case Free(a) =>
      && a in s.live && heapStart <= a && OrderFor(s.live[a]) <= MAX_ORDER
      && t == State(Coalesce(heapStart, s.lists, a, OrderFor(s.live[a])), s.live - {a})
  }

  ghost predicate Steps(heapStart: nat, s: State, t: State) {
    exists op :: Next(heapStart, s, op, t)
  }

  ghost predicate Execution(heapStart: nat, heapSize: nat, trace: seq<State>) {
    && |trace| > 0
    && trace[0] == State(InitLists(heapStart, heapSize), map[])
    && forall i :: 0 <= i < |trace| - 1 ==> Steps(heapStart, trace[i], trace[i + 1])
  }

  /** Every live block is as large as its layout asks and aligned as it asks. */
  ghost predicate LayoutsHonoured(s: State) {
    forall a :: a in s.live ==>
      s.live[a].size <= Size(OrderFor(s.live[a])) && s.live[a].align > 0 && a % s.live[a].align == 0
  }

  ghost predicate AlignsArePow2(s: State) {
    forall a :: a in s.live ==> IsPow2(s.live[a].align)
  }

  lemma {:induction false} AlignedToSmallerPower(a: nat, k: nat, n: nat)
    requires k <= n && a % Pow2(n) == 0
    ensures a % Pow2(k) == 0
    decreases n
  {
    if k < n {
      HalvesAligned(a, Pow2(n - 1));
      AlignedToSmallerPower(a, k, n - 1);
    }
  }

  lemma AlignedForLayout(b: Block, layout: Layout)
    requires b.Aligned() && IsPow2(layout.align) && b.order == OrderFor(layout)
    ensures layout.size <= Size(b.order) && b.addr % layout.align == 0
  {
    SizeToOrderIsCeilLog(Max(Max(layout.size, layout.align), MIN_BLOCK_SIZE), b.order);
    var k: nat :| k <= layout.align && layout.align == Pow2(k);
    SizeIsShift(b.order);
    AlignedIsMod(b.addr, b.order);
    if k > b.order + 6 {
      Pow2Monotone(b.order + 7, k);
    }
    AlignedToSmallerPower(b.addr, k, b.order + 6);
  }

  lemma {:induction false} EveryRunIsSafe(heapStart: nat, heapSize: nat, trace: seq<State>, i: nat)
    requires NonNull(heapStart, heapSize) && HeapAligned(heapStart, heapSize)
    requires Execution(heapStart, heapSize, trace) && i < |trace|
    ensures Inv(heapStart, heapSize, trace[i]) && AlignsArePow2(trace[i]) && LayoutsHonoured(trace[i])
  {
    if i == 0 {
      assert LiveSet(map[]) == {};
      InitTilesHeap(heapStart, heapSize);
    } else {
      EveryRunIsSafe(heapStart, heapSize, trace, i - 1);
      var j := i - 1;
      assert Steps(heapStart, trace[j], trace[j + 1]);
      StepKeepsInv(heapStart, heapSize, trace[j], trace[i]);
    }
    InvHonoursLayouts(heapStart, heapSize, trace[i]);
  }

  lemma StepKeepsInv(heapStart: nat, heapSize: nat, s: State, t: State)
    requires HeapAligned(heapStart, heapSize) && Inv(heapStart, heapSize, s) && AlignsArePow2(s)
    requires Steps(heapStart, s, t)
    ensures Inv(heapStart, heapSize, t) && AlignsArePow2(t)
  {
    var op :| Next(heapStart, s, op, t);
    match op {
      case Alloc(layout) => AllocateKeepsInv(heapStart, heapSize, s, layout);
      case Free(a) => ReleaseKeepsInv(heapStart, heapSize, s, a);
    }
  }

  lemma InvHonoursLayouts(heapStart: nat, heapSize: nat, s: State)
    requires Inv(heapStart, heapSize, s) && AlignsArePow2(s)
    ensures LayoutsHonoured(s)
  {
    forall a | a in s.live
      ensures s.live[a].size <= Size(OrderFor(s.live[a])) && a % s.live[a].align == 0
    {
      var b := Block(a, OrderFor(s.live[a]));
      assert b in LiveSet(s.live);
      assert b in FreeSet(s.lists) + LiveSet(s.live);
      AlignedForLayout(b, s.live[a]);
    }
  }

  /** Whatever the history, an emptied heap has the free blocks it began with. */
  lemma EmptiedHeapIsCanonical(heapStart: nat, heapSize: nat, trace: seq<State>, i: nat)
    requires NonNull(heapStart, heapSize) && HeapAligned(heapStart, heapSize)
    requires Execution(heapStart, heapSize, trace) && i < |trace| && trace[i].live == map[]
    ensures FreeSet(trace[i].lists) == FreeSet(InitLists(heapStart, heapSize))
  {
    EveryRunIsSafe(heapStart, heapSize, trace, i);
    EveryRunIsSafe(heapStart, heapSize, trace, 0);
    assert LiveSet(map[]) == {};
    var s, t := FreeSet(trace[i].lists), FreeSet(trace[0].lists);
    assert s + {} == s && t + {} == t;
    MergedTilingUnique(s, t, Lo(heapStart), Hi(heapStart, heapSize));
  }
}
