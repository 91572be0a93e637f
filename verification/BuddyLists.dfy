/** The kernel heap's buddy system on values: one chain of free addresses per
    order, with the allocator's list operations and the invariant they keep. */
module BuddyLists {
  import opened Bits
  import opened Dyadic
  import opened Words

  /** `lists[o]` is the free chain of order `o`, head first. */
  type FreeLists = s: seq<seq<nat>> | |s| == MAX_ORDER + 1 witness seq(MAX_ORDER + 1, _ => [])

  datatype Layout = Layout(size: nat, align: nat)

  // ---------------------------------------------------------------- orders

  function SizeToOrder(size: nat): nat {
    var blocks := (size + 63) / 64;
    if blocks <= 1 then 0 else BitLength(blocks - 1)
  }

  /** The order is the least one whose block holds `size` bytes. */
  lemma SizeToOrderIsCeilLog(size: nat, order: nat)
    ensures size <= Size(order) <==> SizeToOrder(size) <= order
  {
    var blocks := (size + 63) / 64;
    var k := SizeToOrder(size);
    SizeIsShift(k);
    SizeIsShift(order);
    if blocks > 1 {
      BitLengthBounds(blocks - 1);
      assert size > MIN_BLOCK_SIZE * (blocks - 1);
      if order < k {
        Pow2Monotone(order, k - 1);
      }
    }
    if k <= order {
      Pow2Monotone(k, order);
    }
  }

  /** The order serving a layout: the larger of size, alignment and the minimum. */
  function OrderFor(layout: Layout): nat {
    SizeToOrder(Max(Max(layout.size, layout.align), MIN_BLOCK_SIZE))
  }

  /** The order serving a layout is the least whose block is as large as the layout's
      size and as its alignment. */
  lemma OrderForIsLeast(layout: Layout, order: nat)
    ensures OrderFor(layout) <= order <==> layout.size <= Size(order) && layout.align <= Size(order)
  {
    SizeToOrderIsCeilLog(Max(Max(layout.size, layout.align), MIN_BLOCK_SIZE), order);
  }

  /** The largest block has 4 MiB. */
  lemma LargestBlock(layout: Layout)
    ensures OrderFor(layout) <= MAX_ORDER <==> layout.size <= 0x40_0000 && layout.align <= 0x40_0000
  {
    OrderForIsLeast(layout, MAX_ORDER);
    assert Size(4) == 0x400 && Size(8) == 0x4000 && Size(12) == 0x4_0000 && Size(16) == 0x40_0000;
  }

  // ------------------------------------------------------- list operations

  function Push(lists: FreeLists, order: nat, addr: nat): FreeLists
    requires order <= MAX_ORDER
  {
    lists[order := [addr] + lists[order]]
  }

  /** `s` with the first occurrence of `a` unlinked. */
  function Without(s: seq<nat>, a: nat): seq<nat> {
    if s == [] then []
    else if s[0] == a then s[1..]
    else [s[0]] + Without(s[1..], a)
  }

  function Unlink(lists: FreeLists, order: nat, addr: nat): FreeLists
    requires order <= MAX_ORDER
  {
    lists[order := Without(lists[order], addr)]
  }

  /** First order from `order` up with a free block, or MAX_ORDER + 1. */
  function FirstFit(lists: FreeLists, order: nat): (k: nat)
    requires order <= MAX_ORDER + 1
    ensures order <= k <= MAX_ORDER + 1
    ensures forall o :: order <= o < k ==> lists[o] == []
    ensures k <= MAX_ORDER ==> lists[k] != []
    decreases MAX_ORDER + 1 - order
  {
    if order > MAX_ORDER || lists[order] != [] then order
    else FirstFit(lists, order + 1)
  }

  /** Hand back the upper halves of a block cut from order `from` to `to`. */
  function SplitDown(lists: FreeLists, addr: nat, from: nat, to: nat): FreeLists
    requires from <= MAX_ORDER
    decreases from
  {
    if from <= to then lists
    else SplitDown(Push(lists, from - 1, addr + Size(from - 1)), addr, from - 1, to)
  }

  /** Lists and block address after an allocation; address 0 is the null pointer. */
  function Allocate(lists: FreeLists, order: nat): (FreeLists, nat) {
    if order > MAX_ORDER then (lists, 0) else
    var k := FirstFit(lists, order);
    if k > MAX_ORDER then (lists, 0) else
    var addr := lists[k][0];
    (SplitDown(lists[k := lists[k][1..]], addr, k, order), addr)
  }

  function BuddyAddr(heapStart: nat, addr: nat, order: nat): nat
    requires heapStart <= addr
  {
    heapStart + Xor(addr - heapStart, Size(order))
  }

  function Coalesce(heapStart: nat, lists: FreeLists, addr: nat, order: nat): FreeLists
    requires heapStart <= addr && order <= MAX_ORDER
    decreases MAX_ORDER - order
  {
    var buddy := BuddyAddr(heapStart, addr, order);
    if order < MAX_ORDER && buddy in lists[order] then
      Coalesce(heapStart, Unlink(lists, order, buddy), Min(addr, buddy), order + 1)
    else
      Push(lists, order, addr)
  }

  // -------------------------------------------------- chains as block sets

  ghost function FreeSet(lists: FreeLists): set<Block> {
    set o: nat, a: nat | o <= MAX_ORDER && a in lists[o] :: Block(a, o)
  }

  ghost predicate NoRepeats(s: seq<nat>) {
    forall i, j :: 0 <= i < j < |s| ==> s[i] != s[j]
  }

  ghost predicate NoneRepeats(lists: FreeLists) {
    forall o :: 0 <= o <= MAX_ORDER ==> NoRepeats(lists[o])
  }

  lemma {:induction false} WithoutMembers(s: seq<nat>, a: nat)
    requires NoRepeats(s)
    ensures NoRepeats(Without(s, a))
    ensures forall x :: x in Without(s, a) <==> x in s && x != a
  {
    if s != [] && s[0] != a {
      WithoutMembers(s[1..], a);
      assert s[0] !in Without(s[1..], a);
    }
  }

  lemma UnlinkSet(lists: FreeLists, order: nat, addr: nat)
    requires order <= MAX_ORDER && NoneRepeats(lists)
    ensures NoneRepeats(Unlink(lists, order, addr))
    ensures FreeSet(Unlink(lists, order, addr)) == FreeSet(lists) - {Block(addr, order)}
  {
    WithoutMembers(lists[order], addr);
  }

  lemma PushSet(lists: FreeLists, order: nat, addr: nat)
    requires order <= MAX_ORDER
    ensures FreeSet(Push(lists, order, addr)) == FreeSet(lists) + {Block(addr, order)}
    ensures NoneRepeats(lists) && Block(addr, order) !in FreeSet(lists) ==> NoneRepeats(Push(lists, order, addr))
  {
    var l := Push(lists, order, addr);
    forall b
      ensures b in FreeSet(l) <==> b in FreeSet(lists) + {Block(addr, order)}
    {
      assert b in FreeSet(l) <==> b.order <= MAX_ORDER && b.addr in l[b.order];
    }
    if Block(addr, order) !in FreeSet(lists) {
      assert addr !in lists[order];
    }
  }

  // -------------------------------------------------------- the invariant

  /** Free blocks and the blocks of `held` partition [lo, hi); free buddies have
      all been merged; no chain repeats an address. */
  ghost predicate Holds(lists: FreeLists, held: set<Block>, lo: nat, hi: nat) {
    && NoneRepeats(lists)
    && FreeSet(lists) !! held
    && Tiles(FreeSet(lists) + held, lo, hi)
    && FullyMerged(FreeSet(lists))
  }

  /** As `Holds`, with one block `b` in the allocator's hand besides `rest`. */
  ghost predicate HoldsWith(lists: FreeLists, rest: set<Block>, b: Block, lo: nat, hi: nat) {
    b !in rest && Holds(lists, rest + {b}, lo, hi)
  }

  lemma InHand(lists: FreeLists, rest: set<Block>, b: Block, lo: nat, hi: nat)
    requires HoldsWith(lists, rest, b, lo, hi)
    ensures b.order <= MAX_ORDER && b.Aligned() && lo <= b.addr && b.End() <= hi
  {
    assert b in FreeSet(lists) + (rest + {b});
  }

  lemma TakeStep(lists: FreeLists, order: nat, addr: nat, rest: set<Block>, lo: nat, hi: nat)
    requires Holds(lists, rest, lo, hi) && order <= MAX_ORDER && addr in lists[order]
    ensures HoldsWith(Unlink(lists, order, addr), rest, Block(addr, order), lo, hi)
  {
    UnlinkSet(lists, order, addr);
    var b := Block(addr, order);
    assert b in FreeSet(lists);
    assert FreeSet(lists) - {b} + (rest + {b}) == FreeSet(lists) + rest;
  }

  lemma TakeHead(lists: FreeLists, order: nat, rest: set<Block>, lo: nat, hi: nat)
    requires Holds(lists, rest, lo, hi) && order <= MAX_ORDER && lists[order] != []
    ensures HoldsWith(lists[order := lists[order][1..]], rest, Block(lists[order][0], order), lo, hi)
  {
    TakeStep(lists, order, lists[order][0], rest, lo, hi);
    assert Unlink(lists, order, lists[order][0]) == lists[order := lists[order][1..]];
  }

  lemma SplitStep(lists: FreeLists, b: Block, rest: set<Block>, lo: nat, hi: nat)
    requires HoldsWith(lists, rest, b, lo, hi) && b.order > 0
    ensures b.order <= MAX_ORDER
    ensures HoldsWith(Push(lists, b.order - 1, b.Right().addr), rest, b.Left(), lo, hi)
  {
    var s := FreeSet(lists) + (rest + {b});
    var l, r := b.Left(), b.Right();
    assert b in s;
    SplitTiles(s, b, lo, hi);
    AlignedHalves(b);
    HalvesFresh(s, b);
    PushSet(lists, b.order - 1, r.addr);
    assert FreeSet(lists) + {r} + (rest + {l}) == s - {b} + {l, r};
    RightHalfStaysMerged(FreeSet(lists), b);
  }

  lemma HalvesFresh(s: set<Block>, b: Block)
    requires PairwiseDisjoint(s) && b in s && b.order > 0
    ensures b.Left() !in s && b.Right() !in s
  {
  }

  lemma RightHalfStaysMerged(free: set<Block>, b: Block)
    requires FullyMerged(free) && b.order > 0 && b.Aligned() && b.Left() !in free
    ensures FullyMerged(free + {b.Right()})
  {
    AlignedHalves(b);
    var r := b.Right();
    forall p: Block | 0 < p.order <= MAX_ORDER && p.Aligned()
      ensures p.Left() in free + {r} ==> p.Right() !in free + {r}
    {
      if p.Right() == r {
        assert p.Left() == b.Left();
      }
    }
  }

  predicate Halves(p: Block, b: Block, c: Block)
    requires p.order > 0
  {
    || (b == p.Left() && c == p.Right())
    || (b == p.Right() && c == p.Left())
  }

  lemma MergeStep(lists: FreeLists, p: Block, b: Block, c: Block, rest: set<Block>, lo: nat, hi: nat)
    requires HoldsWith(lists, rest, b, lo, hi) && 0 < p.order <= MAX_ORDER && p.Aligned()
    requires c in FreeSet(lists) && Halves(p, b, c)
    ensures HoldsWith(Unlink(lists, c.order, c.addr), rest, p, lo, hi)
  {
    var s := FreeSet(lists) + (rest + {b});
    MergeTiles(s, p, lo, hi);
    UnlinkSet(lists, c.order, c.addr);
    assert c !in rest;
    assert p !in s by {
      assert !p.DisjointFrom(b) && b in s;
    }
    assert FreeSet(lists) - {c} + (rest + {p}) == s - {p.Left(), p.Right()} + {p};
  }

  lemma PutStep(lists: FreeLists, b: Block, rest: set<Block>, lo: nat, hi: nat)
    requires HoldsWith(lists, rest, b, lo, hi)
    requires forall p: Block, c: Block ::
               0 < p.order <= MAX_ORDER && p.Aligned() && Halves(p, b, c) ==> c !in FreeSet(lists)
    ensures b.order <= MAX_ORDER
    ensures Holds(Push(lists, b.order, b.addr), rest, lo, hi)
  {
    InHand(lists, rest, b, lo, hi);
    PushSet(lists, b.order, b.addr);
    assert FreeSet(lists) + {b} + rest == FreeSet(lists) + (rest + {b});
    forall p: Block | 0 < p.order <= MAX_ORDER && p.Aligned()
      ensures p.Left() in FreeSet(lists) + {b} ==> p.Right() !in FreeSet(lists) + {b}
    {
      assert p.Left() == b ==> Halves(p, b, p.Right());
      assert p.Right() == b ==> Halves(p, b, p.Left());
    }
  }

  // ------------------------------------------------------ buddy addresses

  /** The first block's address is a multiple of every block size that fits in
      the heap from there on. */
  ghost predicate HeapAligned(heapStart: nat, heapSize: nat) {
    forall o :: 0 <= o <= MAX_ORDER && Lo(heapStart) + Size(o) <= heapStart + heapSize ==> AlignedTo(Lo(heapStart), o)
  }

  /** No block of the heap starts at the null address. */
  predicate NonNull(heapStart: nat, heapSize: nat) { heapStart > 0 || heapSize < MIN_BLOCK_SIZE }

  function Lo(heapStart: nat): nat {
    (heapStart + 63) / 64 * 64
  }

  function Hi(heapStart: nat, heapSize: nat): nat {
    (heapStart + heapSize) / 64 * 64
  }

  lemma LoIs(heapStart: nat)
    ensures Lo(heapStart) % 64 == 0 && heapStart <= Lo(heapStart) < heapStart + 64
  {
  }

  /** A base between two block boundaries pairs blocks as the next boundary does. */
  lemma BuddyFromLo(heapStart: nat, lo: nat, addr: nat, order: nat)
    requires lo % 64 == 0 && heapStart <= lo < heapStart + 64
    requires lo <= addr && addr % 64 == 0
    ensures BuddyAddr(heapStart, addr, order) == BuddyAddr(lo, addr, order)
  {
    var a, b, r := (addr - lo) / 64, Pow2(order), lo - heapStart;
    OnGrain(lo, addr);
    SizeIsShift(order);
    XorKeepsLow(a, b, r);
    XorKeepsLow(a, b, 0);
    assert addr - heapStart == 64 * a + r;
  }

  lemma OnGrain(lo: nat, addr: nat)
    requires lo % 64 == 0 && addr % 64 == 0 && lo <= addr
    ensures addr - lo == (addr - lo) / 64 * 64
  {
  }

  lemma OffsetXor(heapStart: nat, addr: nat, order: nat, k: nat)
    requires addr == heapStart + k * Size(order)
    ensures BuddyAddr(heapStart, addr, order) == heapStart + (if k % 2 == 0 then k + 1 else k - 1) * Size(order)
  {
    SizeIsShift(order);
    XorFlipsBit(k, order + 6);
  }

  /** Inside the heap the exclusive-or address of one half is the other half. */
  lemma BuddyIsSibling(heapStart: nat, heapSize: nat, p: Block)
    requires HeapAligned(heapStart, heapSize) && p.Aligned() && 0 < p.order <= MAX_ORDER
    requires Lo(heapStart) <= p.addr && p.End() <= heapStart + heapSize
    ensures heapStart <= p.addr
    ensures BuddyAddr(heapStart, p.Left().addr, p.order - 1) == p.Right().addr
    ensures BuddyAddr(heapStart, p.Right().addr, p.order - 1) == p.Left().addr
  {
    var lo := Lo(heapStart);
    LoIs(heapStart);
    assert AlignedTo(lo, p.order);
    SiblingsFrom(lo, p);
    AlignedHalves(p);
    BlockOnGrain(p.Left());
    BlockOnGrain(p.Right());
    BuddyFromLo(heapStart, lo, p.Left().addr, p.order - 1);
    BuddyFromLo(heapStart, lo, p.Right().addr, p.order - 1);
  }

  lemma BlockOnGrain(b: Block)
    requires b.Aligned()
    ensures b.addr % 64 == 0
  {
    AlignedDown(b.addr, 0, b.order);
    AlignedIsMod(b.addr, 0);
  }

  lemma SiblingsFrom(lo: nat, p: Block)
    requires lo <= p.addr && AlignedTo(lo, p.order) && p.Aligned() && p.order > 0
    ensures BuddyAddr(lo, p.Left().addr, p.order - 1) == p.Right().addr
    ensures BuddyAddr(lo, p.Right().addr, p.order - 1) == p.Left().addr
  {
    var q := OffsetMultiple(lo, p.addr, p.order);
    PairXor(lo, q, p.order - 1);
  }

  lemma PairXor(heapStart: nat, j: nat, order: nat)
    ensures var a := heapStart + j * (2 * Size(order));
            && BuddyAddr(heapStart, a, order) == a + Size(order)
            && BuddyAddr(heapStart, a + Size(order), order) == a
  {
    var s := Size(order);
    PairOffsets(j, s);
    OffsetXor(heapStart, heapStart + j * (2 * s), order, 2 * j);
    OffsetXor(heapStart, heapStart + j * (2 * s) + s, order, 2 * j + 1);
  }

  lemma PairOffsets(j: nat, s: nat)
    ensures (2 * j) * s == j * (2 * s)
    ensures (2 * j + 1) * s == j * (2 * s) + s
  {
  }

  lemma OffsetMultiple(base: nat, addr: nat, order: nat) returns (q: nat)
    requires base <= addr && AlignedTo(base, order) && AlignedTo(addr, order)
    ensures addr == base + q * Size(order)
  {
    var s := Size(order);
    AlignedIsMod(base, order);
    AlignedIsMod(addr, order);
    var x, y := base / s, addr / s;
    assert base == s * x && addr == s * y;
    assert y < x ==> s * y < s * x;
    q := y - x;
    assert q * s == s * y - s * x;
  }

  /** A buddy found free really is the other half of an aligned parent. */
  lemma FreeBuddyIsSibling(heapStart: nat, heapSize: nat, b: Block, c: Block) returns (p: Block)
    requires HeapAligned(heapStart, heapSize) && b.Aligned() && b.order < MAX_ORDER
    requires heapStart <= Lo(heapStart) <= b.addr && b.End() <= heapStart + heapSize
    requires c == Block(BuddyAddr(heapStart, b.addr, b.order), b.order)
    requires Lo(heapStart) <= c.addr && c.End() <= heapStart + heapSize
    ensures p == Block(Min(b.addr, c.addr), b.order + 1) && p.Aligned()
    ensures Halves(p, b, c)
  {
    var lo, s := Lo(heapStart), Size(b.order);
    LoIs(heapStart);
    BlockOnGrain(b);
    BuddyFromLo(heapStart, lo, b.addr, b.order);
    assert AlignedTo(lo, b.order);
    var k := OffsetMultiple(lo, b.addr, b.order);
    OffsetXor(lo, b.addr, b.order, k);
    var j := k / 2;
    PairOffsets(j, s);
    p := Block(lo + j * (2 * s), b.order + 1);
    assert k == 2 * j || k == 2 * j + 1;
    assert AlignedTo(lo, b.order + 1);
    SumAligned(lo, j, b.order + 1);
  }

  lemma SumAligned(base: nat, j: nat, order: nat)
    requires AlignedTo(base, order)
    ensures AlignedTo(base + j * Size(order), order)
  {
    var s := Size(order);
    AlignedIsMod(base, order);
    AlignedIsMod(base + j * s, order);
    var x := base / s;
    assert base + j * s == s * (x + j);
    MultipleMod(x + j, s);
  }
}
