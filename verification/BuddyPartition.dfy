/** What the buddy system guarantees on every heap base, aligned or not: merges join
    neighbours, so free and live blocks always partition the heap. */
module BuddyPartition {
  import opened Bits
  import opened Dyadic
  import opened BuddyLists
  import opened BuddyTheorems
  import opened Words

  ghost predicate Inside(s: set<Block>, lo: nat, hi: nat) {
    forall b :: b in s ==> b.order <= MAX_ORDER && lo <= b.addr && b.End() <= hi
  }

  /** `s` cuts the byte range [lo, hi) into blocks, aligned or not. */
  ghost predicate Partition(s: set<Block>, lo: nat, hi: nat) {
    Inside(s, lo, hi) && PairwiseDisjoint(s) && CoversAll(s, lo, hi)
  }

  /** Free blocks and the blocks of `held` partition [lo, hi) and no chain repeats
      an address. */
  ghost predicate Owns(lists: FreeLists, held: set<Block>, lo: nat, hi: nat) {
    && NoneRepeats(lists)
    && FreeSet(lists) !! held
    && Partition(FreeSet(lists) + held, lo, hi)
  }

  /** As `Owns`, with one block `b` in the allocator's hand besides `rest`. */
  ghost predicate OwnsWith(lists: FreeLists, rest: set<Block>, b: Block, lo: nat, hi: nat) {
    b !in rest && Owns(lists, rest + {b}, lo, hi)
  }

  lemma HoldsOwns(lists: FreeLists, held: set<Block>, lo: nat, hi: nat)
    requires Holds(lists, held, lo, hi)
    ensures Owns(lists, held, lo, hi)
  {
  }

  // --------------------------------------------------------- neighbours

  /** For every base the buddy of a block is the block of its size just above or
      just below it. */
  lemma BuddyIsNeighbour(heapStart: nat, addr: nat, order: nat)
    requires heapStart <= addr
    ensures var buddy := BuddyAddr(heapStart, addr, order);
            buddy == addr + Size(order) || buddy + Size(order) == addr
  {
    SizeIsShift(order);
    XorMovesByBit(addr - heapStart, order + 6);
  }

  // -------------------------------------------------------- single steps

  lemma OwnedInHand(lists: FreeLists, rest: set<Block>, b: Block, lo: nat, hi: nat)
    requires OwnsWith(lists, rest, b, lo, hi)
    ensures b.order <= MAX_ORDER && lo <= b.addr && b.End() <= hi
  {
    assert b in FreeSet(lists) + (rest + {b});
  }

  lemma OwnTakeHead(lists: FreeLists, order: nat, rest: set<Block>, lo: nat, hi: nat)
    requires Owns(lists, rest, lo, hi) && order <= MAX_ORDER && lists[order] != []
    ensures OwnsWith(lists[order := lists[order][1..]], rest, Block(lists[order][0], order), lo, hi)
  {
    var b := Block(lists[order][0], order);
    UnlinkSet(lists, order, b.addr);
    assert Unlink(lists, order, b.addr) == lists[order := lists[order][1..]];
    assert b in FreeSet(lists);
    assert FreeSet(lists) - {b} + (rest + {b}) == FreeSet(lists) + rest;
  }

  lemma SplitPartition(s: set<Block>, b: Block, lo: nat, hi: nat)
    requires Partition(s, lo, hi) && b in s && b.order > 0
    ensures Partition(s - {b} + {b.Left(), b.Right()}, lo, hi)
  {
    SplitCovers(s, b, lo, hi);
    SplitDisjoint(s, b);
  }

  lemma OwnSplit(lists: FreeLists, b: Block, rest: set<Block>, lo: nat, hi: nat)
    requires OwnsWith(lists, rest, b, lo, hi) && b.order > 0
    ensures b.order <= MAX_ORDER
    ensures OwnsWith(Push(lists, b.order - 1, b.Right().addr), rest, b.Left(), lo, hi)
  {
    var s := FreeSet(lists) + (rest + {b});
    var l, r := b.Left(), b.Right();
    assert b in s;
    SplitPartition(s, b, lo, hi);
    HalvesFresh(s, b);
    PushSet(lists, b.order - 1, r.addr);
    assert FreeSet(lists) + {r} + (rest + {l}) == s - {b} + {l, r};
  }

  lemma MergePartition(s: set<Block>, p: Block, lo: nat, hi: nat)
    requires Partition(s, lo, hi) && 0 < p.order <= MAX_ORDER && p.Left() in s && p.Right() in s
    ensures Partition(s - {p.Left(), p.Right()} + {p}, lo, hi)
  {
    MergeCovers(s, p, lo, hi);
    forall c | c in s && c != p.Left() && c != p.Right()
      ensures c.DisjointFrom(p)
    {
      assert c.DisjointFrom(p.Left()) && c.DisjointFrom(p.Right());
    }
  }

  lemma OwnMerge(lists: FreeLists, p: Block, b: Block, c: Block, rest: set<Block>, lo: nat, hi: nat)
    requires OwnsWith(lists, rest, b, lo, hi) && 0 < p.order <= MAX_ORDER
    requires c in FreeSet(lists) && Halves(p, b, c)
    ensures OwnsWith(Unlink(lists, c.order, c.addr), rest, p, lo, hi)
  {
    var s := FreeSet(lists) + (rest + {b});
    MergePartition(s, p, lo, hi);
    UnlinkSet(lists, c.order, c.addr);
    assert c !in rest;
    assert p !in s by {
      assert !p.DisjointFrom(b) && b in s;
    }
    assert FreeSet(lists) - {c} + (rest + {p}) == s - {p.Left(), p.Right()} + {p};
  }

  lemma OwnPut(lists: FreeLists, b: Block, rest: set<Block>, lo: nat, hi: nat)
    requires OwnsWith(lists, rest, b, lo, hi)
    ensures b.order <= MAX_ORDER
    ensures Owns(Push(lists, b.order, b.addr), rest, lo, hi)
  {
    OwnedInHand(lists, rest, b, lo, hi);
    PushSet(lists, b.order, b.addr);
    assert FreeSet(lists) + {b} + rest == FreeSet(lists) + (rest + {b});
  }

  // --------------------------------------------------- whole operations

  lemma {:induction false} OwnSplitDown(lists: FreeLists, b: Block, to: nat, rest: set<Block>, lo: nat, hi: nat)
    requires OwnsWith(lists, rest, b, lo, hi) && to <= b.order <= MAX_ORDER
    ensures OwnsWith(SplitDown(lists, b.addr, b.order, to), rest, Block(b.addr, to), lo, hi)
    decreases b.order
  {
    if b.order > to {
      OwnSplit(lists, b, rest, lo, hi);
      OwnSplitDown(Push(lists, b.order - 1, b.Right().addr), b.Left(), to, rest, lo, hi);
    }
  }

  /** One round of coalescing: the free buddy and the block in hand are the halves
      of the block carried on with. */
  lemma OwnCoalesceStep(heapStart: nat, lists: FreeLists, b: Block, rest: set<Block>, lo: nat, hi: nat)
    returns (p: Block)
    requires OwnsWith(lists, rest, b, lo, hi) && heapStart <= b.addr && b.order < MAX_ORDER
    requires BuddyAddr(heapStart, b.addr, b.order) in lists[b.order]
    ensures var buddy := BuddyAddr(heapStart, b.addr, b.order);
            && p == Block(Min(b.addr, buddy), b.order + 1)
            && OwnsWith(Unlink(lists, b.order, buddy), rest, p, lo, hi)
  {
    var c := Block(BuddyAddr(heapStart, b.addr, b.order), b.order);
    p := Block(Min(b.addr, c.addr), b.order + 1);
    BuddyIsNeighbour(heapStart, b.addr, b.order);
    NeighboursAreHalves(p, b, c);
    OwnMerge(lists, p, b, c, rest, lo, hi);
  }

  lemma NeighboursAreHalves(p: Block, b: Block, c: Block)
    requires b.order == c.order && (c.addr == b.addr + Size(b.order) || c.addr + Size(b.order) == b.addr)
    requires p == Block(Min(b.addr, c.addr), b.order + 1)
    ensures Halves(p, b, c)
  {
  }

  lemma {:induction false} OwnCoalesce(heapStart: nat, lists: FreeLists, b: Block, rest: set<Block>, lo: nat, hi: nat)
    requires OwnsWith(lists, rest, b, lo, hi) && heapStart <= lo
    ensures heapStart <= b.addr && b.order <= MAX_ORDER
    ensures Owns(Coalesce(heapStart, lists, b.addr, b.order), rest, lo, hi)
    decreases MAX_ORDER - b.order
  {
    OwnedInHand(lists, rest, b, lo, hi);
    var buddy := BuddyAddr(heapStart, b.addr, b.order);
    if b.order < MAX_ORDER && buddy in lists[b.order] {
      var p := OwnCoalesceStep(heapStart, lists, b, rest, lo, hi);
      OwnCoalesce(heapStart, Unlink(lists, b.order, buddy), p, rest, lo, hi);
    } else {
      OwnPut(lists, b, rest, lo, hi);
    }
  }

  // --------------------------------------------------------- whole states

  /** Free and live blocks partition the heap. */
  ghost predicate Owned(heapStart: nat, heapSize: nat, s: State) {
    && NonNull(heapStart, heapSize)
    && Owns(s.lists, LiveSet(s.live), Lo(heapStart), Hi(heapStart, heapSize))
  }

  lemma InitialOwned(heapStart: nat, heapSize: nat)
    requires NonNull(heapStart, heapSize)
    ensures Owned(heapStart, heapSize, State(InitLists(heapStart, heapSize), map[]))
  {
    InitialInv(heapStart, heapSize);
    HoldsOwns(InitLists(heapStart, heapSize), LiveSet(map[]), Lo(heapStart), Hi(heapStart, heapSize));
  }

  lemma OwnedFreeIsNotLive(heapStart: nat, heapSize: nat, s: State, b: Block)
    requires Owned(heapStart, heapSize, s) && b in FreeSet(s.lists)
    ensures b.addr !in s.live && b.addr >= heapStart
  {
    LoIs(heapStart);
    var all := FreeSet(s.lists) + LiveSet(s.live);
    assert b in all;
    forall c: Block | c in LiveSet(s.live)
      ensures c.addr != b.addr
    {
      assert c in all && c != b;
    }
    assert forall a :: a in s.live ==> Block(a, OrderFor(s.live[a])).addr == a;
  }

  lemma AllocateKeepsOwned(heapStart: nat, heapSize: nat, s: State, layout: Layout)
    requires Owned(heapStart, heapSize, s)
    ensures var (lists, addr) := Allocate(s.lists, OrderFor(layout));
            && (addr == 0 ==> lists == s.lists)
            && (addr != 0 ==> addr !in s.live)
    ensures Owned(heapStart, heapSize, AllocState(s, layout))
  {
    var order := OrderFor(layout);
    if order <= MAX_ORDER && FirstFit(s.lists, order) <= MAX_ORDER {
      var k := FirstFit(s.lists, order);
      var b := Block(s.lists[k][0], k);
      var live := LiveSet(s.live);
      var lo, hi := Lo(heapStart), Hi(heapStart, heapSize);
      OwnTakeHead(s.lists, k, live, lo, hi);
      OwnSplitDown(s.lists[k := s.lists[k][1..]], b, order, live, lo, hi);
      OwnedFreeIsNotLive(heapStart, heapSize, s, b);
      LiveInsert(s.live, b.addr, layout);
    }
  }

  lemma ReleaseKeepsOwned(heapStart: nat, heapSize: nat, s: State, addr: nat)
    requires Owned(heapStart, heapSize, s) && addr in s.live
    ensures heapStart <= addr && OrderFor(s.live[addr]) <= MAX_ORDER
    ensures Owned(heapStart, heapSize,
                  State(Coalesce(heapStart, s.lists, addr, OrderFor(s.live[addr])), s.live - {addr}))
  {
    var b := Block(addr, OrderFor(s.live[addr]));
    var rest := LiveSet(s.live) - {b};
    assert b in LiveSet(s.live);
    assert LiveSet(s.live) == rest + {b};
    LoIs(heapStart);
    OwnCoalesce(heapStart, s.lists, b, rest, Lo(heapStart), Hi(heapStart, heapSize));
    LiveRemove(s.live, addr);
  }

  lemma StepKeepsOwned(heapStart: nat, heapSize: nat, s: State, t: State)
    requires Owned(heapStart, heapSize, s) && Steps(heapStart, s, t)
    ensures Owned(heapStart, heapSize, t)
  {
    var op :| Next(heapStart, s, op, t);
    match op {
      case Alloc(layout) => AllocateKeepsOwned(heapStart, heapSize, s, layout);
      case Free(a) => ReleaseKeepsOwned(heapStart, heapSize, s, a);
    }
  }

  /** On every non-zero base, at every point of every run, free and live blocks
      partition the aligned part of the heap. */
  lemma {:induction false} EveryRunKeepsPartition(heapStart: nat, heapSize: nat, trace: seq<State>, i: nat)
    requires NonNull(heapStart, heapSize) && Execution(heapStart, heapSize, trace) && i < |trace|
    ensures Owned(heapStart, heapSize, trace[i])
  {
    if i == 0 {
      InitialOwned(heapStart, heapSize);
    } else {
      EveryRunKeepsPartition(heapStart, heapSize, trace, i - 1);
      var j := i - 1;
      assert Steps(heapStart, trace[j], trace[j + 1]);
      StepKeepsOwned(heapStart, heapSize, trace[j], trace[i]);
    }
  }
}
