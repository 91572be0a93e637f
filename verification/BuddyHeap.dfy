/** The kernel heap allocator itself: free-list heads in an array and next
    pointers stored in the first word of every free block. Each operation is
    proved to act on the stored chains exactly as the list operation it names. */
module BuddyHeapAllocator {
  import opened Dyadic
  import opened BuddyLists
  import opened BuddyTheorems
  import opened BuddyPartition
  import opened Wrappers
  import opened Words

  /** `head` and the words of `mem` spell out `chain`; a zero word ends it. */
  ghost predicate Chain(mem: map<nat, nat>, head: Option<nat>, chain: seq<nat>) {
    && head == (if chain == [] then None else Some(chain[0]))
    && forall i :: 0 <= i < |chain| ==> chain[i] != 0 && chain[i] in mem && mem[chain[i]] == After(chain, i)
  }

  /** The word a node holds: the next node's address, or zero at the end. */
  function After(chain: seq<nat>, i: nat): nat {
    if i + 1 < |chain| then chain[i + 1] else 0
  }

  ghost predicate OnList(chains: FreeLists, x: nat) {
    exists o :: 0 <= o <= MAX_ORDER && x in chains[o]
  }

  /** No address is linked twice. */
  ghost predicate Separate(chains: FreeLists) {
    && NoneRepeats(chains)
    && forall o, q, x :: 0 <= o < q <= MAX_ORDER && x in chains[o] ==> x !in chains[q]
  }

  ghost predicate SameWord(m: map<nat, nat>, n: map<nat, nat>, x: nat) {
    && (x in m <==> x in n)
    && (x in m && x in n ==> m[x] == n[x])
  }

  /** Only words that are list nodes before or after have changed. */
  ghost predicate OnlyNodesChanged(m: map<nat, nat>, before: FreeLists, n: map<nat, nat>, after: FreeLists) {
    forall x: nat :: !OnList(before, x) && !OnList(after, x) ==> SameWord(m, n, x)
  }

  lemma NodesGrow(m: map<nat, nat>, before: FreeLists, n: map<nat, nat>, after: FreeLists,
                  n': map<nat, nat>, order: nat, addr: nat)
    requires OnlyNodesChanged(m, before, n, after) && order <= MAX_ORDER
    requires forall x: nat :: x != addr ==> SameWord(n, n', x)
    ensures OnlyNodesChanged(m, before, n', Push(after, order, addr))
  {
    var l := Push(after, order, addr);
    forall x: nat | !OnList(before, x) && !OnList(l, x)
      ensures SameWord(m, n', x)
    {
      assert x !in l[order];
      assert forall o :: 0 <= o <= MAX_ORDER && x in after[o] ==> x in l[o];
      assert !OnList(after, x);
      assert SameWord(m, n, x) && SameWord(n, n', x);
    }
  }

  /** The upper halves cut on the way down from `order` are on no list. */
  ghost predicate HalvesUnlisted(lists: FreeLists, addr: nat, order: nat) {
    forall c: nat :: c < order ==> !OnList(lists, addr + Size(c))
  }

  lemma SplitOnce(lists: FreeLists, addr: nat, order: nat, to: nat, buddy: nat)
    requires to <= order < MAX_ORDER && HalvesUnlisted(lists, addr, order + 1) && buddy == addr + Size(order)
    ensures buddy > 0 && !OnList(lists, buddy)
    ensures HalvesUnlisted(Push(lists, order, buddy), addr, order)
    ensures SplitDown(lists, addr, order + 1, to) == SplitDown(Push(lists, order, buddy), addr, order, to)
  {
    forall c: nat | c < order
      ensures !OnList(Push(lists, order, buddy), addr + Size(c))
    {
      SizeMonotone(c, order - 1);
      PushLists(lists, order, buddy, addr + Size(c));
    }
  }

  lemma PushLists(lists: FreeLists, order: nat, addr: nat, x: nat)
    requires order <= MAX_ORDER && !OnList(lists, x) && x != addr
    ensures !OnList(Push(lists, order, addr), x)
  {
    assert forall o :: 0 <= o <= MAX_ORDER ==> x !in lists[o];
  }

  /** Every node of `a` is a node of `b`. */
  ghost predicate NodesWithin(a: FreeLists, b: FreeLists) {
    forall x: nat :: OnList(a, x) ==> OnList(b, x)
  }

  /** All words outside the nodes of `lists` agree. */
  ghost predicate OffListSame(m: map<nat, nat>, n: map<nat, nat>, lists: FreeLists) {
    forall x: nat :: !OnList(lists, x) ==> SameWord(m, n, x)
  }

  /** Unlinking a node changes only words of nodes that were there. */
  lemma UnlinkFrame(m0: map<nat, nat>, start: FreeLists, m: map<nat, nat>, was: FreeLists,
                    n: map<nat, nat>, order: nat, addr: nat)
    requires order <= MAX_ORDER && NoneRepeats(was)
    requires NodesWithin(was, start) && OffListSame(m0, m, start)
    requires forall x: nat :: x !in Unlink(was, order, addr)[order] ==> SameWord(m, n, x)
    ensures NodesWithin(Unlink(was, order, addr), start) && OffListSame(m0, n, start)
  {
    UnlinkShrinks(was, order, addr);
    var now := Unlink(was, order, addr);
    forall x: nat | !OnList(start, x)
      ensures SameWord(m0, n, x)
    {
      assert !OnList(was, x) && !OnList(now, x);
      assert x !in now[order];
      assert SameWord(m0, m, x) && SameWord(m, n, x);
    }
  }

  lemma UnlinkShrinks(lists: FreeLists, order: nat, addr: nat)
    requires order <= MAX_ORDER && NoneRepeats(lists)
    ensures NodesWithin(Unlink(lists, order, addr), lists)
  {
    WithoutMembers(lists[order], addr);
    var l := Unlink(lists, order, addr);
    forall x: nat | OnList(l, x)
      ensures OnList(lists, x)
    {
      var o :| 0 <= o <= MAX_ORDER && x in l[o];
      assert x in lists[o];
    }
  }

  /** No word inside a held block is a list node. */
  lemma HeldIsNotOnList(lists: FreeLists, held: set<Block>, lo: nat, hi: nat, b: Block, x: nat)
    requires Owns(lists, held, lo, hi) && b in held && b.Contains(x)
    ensures !OnList(lists, x)
  {
    var all := FreeSet(lists) + held;
    assert b in all;
    forall o: nat | o <= MAX_ORDER
      ensures x !in lists[o]
    {
      var c := Block(x, o);
      assert c != b ==> c !in all;
      assert c !in FreeSet(lists);
    }
  }

  /** Upper halves cut from a block in hand are on no list yet. */
  lemma SplitReady(lists: FreeLists, rest: set<Block>, b: Block, lo: nat, hi: nat)
    requires OwnsWith(lists, rest, b, lo, hi)
    ensures HalvesUnlisted(lists, b.addr, b.order)
  {
    forall c: nat | c < b.order
      ensures !OnList(lists, b.addr + Size(c))
    {
      SizeMonotone(c, b.order - 1);
      HeldIsNotOnList(lists, rest + {b}, lo, hi, b, b.addr + Size(c));
    }
  }

  /** What `coalesce` has in hand when it stops: lists, address and order. */
  ghost function MergeUp(heapStart: nat, lists: FreeLists, addr: nat, order: nat): (r: (FreeLists, nat, nat))
    requires heapStart <= addr && order <= MAX_ORDER
    ensures r.2 <= MAX_ORDER
    decreases MAX_ORDER - order
  {
    var buddy := BuddyAddr(heapStart, addr, order);
    if order < MAX_ORDER && buddy in lists[order] then
      MergeUp(heapStart, Unlink(lists, order, buddy), Min(addr, buddy), order + 1)
    else
      (lists, addr, order)
  }

  lemma {:induction false} CoalesceIsMergeUp(heapStart: nat, lists: FreeLists, addr: nat, order: nat)
    requires heapStart <= addr && order <= MAX_ORDER
    ensures var r := MergeUp(heapStart, lists, addr, order);
            Coalesce(heapStart, lists, addr, order) == Push(r.0, r.2, r.1)
    decreases MAX_ORDER - order
  {
    var buddy := BuddyAddr(heapStart, addr, order);
    if order < MAX_ORDER && buddy in lists[order] {
      CoalesceIsMergeUp(heapStart, Unlink(lists, order, buddy), Min(addr, buddy), order + 1);
    }
  }

  lemma MergeUpStep(heapStart: nat, lists: FreeLists, addr: nat, order: nat, buddy: nat)
    requires heapStart <= addr && order < MAX_ORDER && buddy == BuddyAddr(heapStart, addr, order)
    ensures heapStart <= Min(addr, buddy)
    ensures MergeUp(heapStart, lists, addr, order)
         == if buddy in lists[order]
            then MergeUp(heapStart, Unlink(lists, order, buddy), Min(addr, buddy), order + 1)
            else (lists, addr, order)
    ensures buddy !in lists[order] ==> Unlink(lists, order, buddy) == lists
  {
    if buddy !in lists[order] {
      WithoutAbsent(lists[order], buddy);
    }
  }

  lemma {:induction false} MergedIsNotOnList(heapStart: nat, lists: FreeLists, b: Block, rest: set<Block>,
      lo: nat, hi: nat)
    requires 0 < heapStart <= lo && OwnsWith(lists, rest, b, lo, hi)
    ensures heapStart <= b.addr && b.order <= MAX_ORDER
    ensures var r := MergeUp(heapStart, lists, b.addr, b.order); r.1 != 0 && !OnList(r.0, r.1)
    decreases MAX_ORDER - b.order
  {
    OwnedInHand(lists, rest, b, lo, hi);
    var buddy := BuddyAddr(heapStart, b.addr, b.order);
    if b.order < MAX_ORDER && buddy in lists[b.order] {
      var p := OwnCoalesceStep(heapStart, lists, b, rest, lo, hi);
      MergedIsNotOnList(heapStart, Unlink(lists, b.order, buddy), p, rest, lo, hi);
    } else {
      HeldIsNotOnList(lists, rest + {b}, lo, hi, b, b.addr);
    }
  }

  lemma {:induction false} WithoutIndex(s: seq<nat>, i: nat)
    requires i < |s| && s[i] !in s[..i]
    ensures Without(s, s[i]) == s[..i] + s[i + 1..]
  {
    if i > 0 {
      assert s[0] == s[..i][0];
      assert s[1..][..i - 1] == s[..i][1..];
      WithoutIndex(s[1..], i - 1);
    }
  }

  lemma BypassedStays(s: seq<nat>, i: nat)
    requires 0 < i < |s| && s[i] !in s[..i]
    ensures s[i - 1] in Without(s, s[i])
  {
    WithoutIndex(s, i);
    assert (s[..i] + s[i + 1..])[i - 1] == s[i - 1];
  }

  lemma {:induction false} WithoutAbsent(s: seq<nat>, a: nat)
    requires a !in s
    ensures Without(s, a) == s
  {
    if s != [] {
      WithoutAbsent(s[1..], a);
    }
  }

  lemma {:induction false} FirstFitIs(lists: FreeLists, order: nat, k: nat)
    requires order <= k <= MAX_ORDER + 1 && forall o :: order <= o < k ==> lists[o] == []
    requires k <= MAX_ORDER ==> lists[k] != []
    ensures FirstFit(lists, order) == k
    decreases k - order
  {
    if order < k {
      FirstFitIs(lists, order + 1, k);
    }
  }

  // ------------------------------------------------------- linked chains

  function Word(head: Option<nat>): nat { if head.None? then 0 else head.value }

  function Link(word: nat): Option<nat> { if word == 0 then None else Some(word) }

  lemma ChainFrame(m: map<nat, nat>, n: map<nat, nat>, head: Option<nat>, chain: seq<nat>)
    requires Chain(m, head, chain) && forall x :: x in chain ==> SameWord(m, n, x)
    ensures Chain(n, head, chain)
  {
    forall i | 0 <= i < |chain|
      ensures chain[i] in n && n[chain[i]] == m[chain[i]]
    {
      assert SameWord(m, n, chain[i]);
    }
  }

  lemma ChainPush(m: map<nat, nat>, head: Option<nat>, chain: seq<nat>, addr: nat)
    requires Chain(m, head, chain) && addr != 0 && addr !in chain
    ensures Chain(m[addr := Word(head)], Some(addr), [addr] + chain)
  {
    var c := [addr] + chain;
    forall i | 0 <= i < |c|
      ensures c[i] != 0 && c[i] in m[addr := Word(head)]
      ensures m[addr := Word(head)][c[i]] == After(c, i)
    {
      if i > 0 {
        assert c[i] == chain[i - 1];
      }
    }
  }

  lemma ChainPop(m: map<nat, nat>, head: Option<nat>, chain: seq<nat>)
    requires Chain(m, head, chain) && chain != []
    ensures head.Some? && head.value in m
    ensures Chain(m, Link(m[head.value]), chain[1..])
  {
    assert m[chain[0]] == After(chain, 0);
    assert forall i :: 0 <= i < |chain| - 1 ==> chain[1..][i] == chain[i + 1];
  }

  lemma ChainBypass(m: map<nat, nat>, head: Option<nat>, chain: seq<nat>, i: nat)
    requires Chain(m, head, chain) && NoRepeats(chain) && 0 < i < |chain|
    ensures Chain(m[chain[i - 1] := m[chain[i]]], head, chain[..i] + chain[i + 1..])
  {
    var n := m[chain[i - 1] := m[chain[i]]];
    var c := chain[..i] + chain[i + 1..];
    forall j | 0 <= j < |c|
      ensures c[j] != 0 && c[j] in n && n[c[j]] == After(c, j)
    {
      var k := if j < i then j else j + 1;
      assert c[j] == chain[k];
      assert m[chain[k]] == After(chain, k);
      assert m[chain[i]] == After(chain, i);
    }
  }

  /** Heads and words together represent the given chains. */
  ghost predicate Links(mem: map<nat, nat>, heads: seq<Option<nat>>, chains: FreeLists) {
    && |heads| == MAX_ORDER + 1
    && Separate(chains)
    && forall o :: 0 <= o <= MAX_ORDER ==> Chain(mem, heads[o], chains[o])
  }

  lemma LinksPush(mem: map<nat, nat>, heads: seq<Option<nat>>, chains: FreeLists, order: nat, addr: nat)
    requires Links(mem, heads, chains) && order <= MAX_ORDER && addr != 0 && !OnList(chains, addr)
    ensures Links(mem[addr := Word(heads[order])], heads[order := Some(addr)], Push(chains, order, addr))
  {
    ChainPush(mem, heads[order], chains[order], addr);
    forall o | 0 <= o <= MAX_ORDER && o != order
      ensures Chain(mem[addr := Word(heads[order])], heads[o], chains[o])
    {
      ChainFrame(mem, mem[addr := Word(heads[order])], heads[o], chains[o]);
    }
    assert forall o :: 0 <= o <= MAX_ORDER ==> addr !in chains[o];
  }

  lemma LinksPop(mem: map<nat, nat>, heads: seq<Option<nat>>, chains: FreeLists, order: nat)
    requires Links(mem, heads, chains) && order <= MAX_ORDER && chains[order] != []
    ensures heads[order] == Some(chains[order][0]) && chains[order][0] in mem
    ensures Links(mem, heads[order := Link(mem[chains[order][0]])], chains[order := chains[order][1..]])
  {
    ChainPop(mem, heads[order], chains[order]);
    TailSeparate(chains, order);
  }

  lemma TailSeparate(chains: FreeLists, order: nat)
    requires Separate(chains) && order <= MAX_ORDER && chains[order] != []
    ensures Separate(chains[order := chains[order][1..]])
  {
    WithoutMembers(chains[order], chains[order][0]);
    assert Without(chains[order], chains[order][0]) == chains[order][1..];
  }

  lemma LinksBypass(mem: map<nat, nat>, heads: seq<Option<nat>>, chains: FreeLists, order: nat, i: nat)
    requires Links(mem, heads, chains) && order <= MAX_ORDER && 0 < i < |chains[order]|
    ensures chains[order][i] in mem
    ensures Links(mem[chains[order][i - 1] := mem[chains[order][i]]], heads, Unlink(chains, order, chains[order][i]))
  {
    var chain := chains[order];
    var n := mem[chain[i - 1] := mem[chain[i]]];
    ChainBypass(mem, heads[order], chain, i);
    WithoutIndex(chain, i);
    WithoutMembers(chain, chain[i]);
    forall o | 0 <= o <= MAX_ORDER && o != order
      ensures Chain(n, heads[o], chains[o])
    {
      assert chain[i - 1] in chain;
      ChainFrame(mem, n, heads[o], chains[o]);
    }
  }

  /** Once a head is taken, the upper halves of its block are on no list. */
  ghost predicate CutReady(lists: FreeLists) {
    forall k: nat :: k <= MAX_ORDER && lists[k] != [] ==>
      HalvesUnlisted(lists[k := lists[k][1..]], lists[k][0], k)
  }

  lemma OwnedIsCutReady(heapStart: nat, heapSize: nat, s: State)
    requires Owned(heapStart, heapSize, s)
    ensures CutReady(s.lists)
  {
    var lo, hi := Lo(heapStart), Hi(heapStart, heapSize);
    forall k: nat | k <= MAX_ORDER && s.lists[k] != []
      ensures HalvesUnlisted(s.lists[k := s.lists[k][1..]], s.lists[k][0], k)
    {
      OwnTakeHead(s.lists, k, LiveSet(s.live), lo, hi);
      SplitReady(s.lists[k := s.lists[k][1..]], LiveSet(s.live), Block(s.lists[k][0], k), lo, hi);
    }
  }

  lemma TailShrinks(m: map<nat, nat>, lists: FreeLists, k: nat, n: map<nat, nat>, after: FreeLists)
    requires k <= MAX_ORDER && lists[k] != []
    requires OnlyNodesChanged(m, lists[k := lists[k][1..]], n, after)
    ensures OnlyNodesChanged(m, lists, n, after)
  {
    var taken := lists[k := lists[k][1..]];
    forall x: nat | !OnList(lists, x)
      ensures !OnList(taken, x)
    {
      assert forall o :: 0 <= o <= MAX_ORDER && x in taken[o] ==> x in lists[o];
    }
  }

  /** Words inside the blocks live in both states agree. */
  ghost predicate LiveWordsSame(s: State, t: State, m: map<nat, nat>, n: map<nat, nat>) {
    forall b: Block, x: nat ::
      b in LiveSet(s.live) && b in LiveSet(t.live) && b.Contains(x) ==> SameWord(m, n, x)
  }

  /** List nodes are never inside live blocks, so client words survive. */
  lemma LiveWordsKept(heapStart: nat, heapSize: nat, s: State, t: State, m: map<nat, nat>, n: map<nat, nat>)
    requires Owned(heapStart, heapSize, s) && Owned(heapStart, heapSize, t)
    requires OnlyNodesChanged(m, s.lists, n, t.lists)
    ensures LiveWordsSame(s, t, m, n)
  {
    var lo, hi := Lo(heapStart), Hi(heapStart, heapSize);
    forall b: Block, x: nat | b in LiveSet(s.live) && b in LiveSet(t.live) && b.Contains(x)
      ensures SameWord(m, n, x)
    {
      HeldIsNotOnList(s.lists, LiveSet(s.live), lo, hi, b, x);
      HeldIsNotOnList(t.lists, LiveSet(t.live), lo, hi, b, x);
    }
  }

  /** What a request leaves behind, on any base. */
  lemma AllocateFacts(heapStart: nat, heapSize: nat, s: State, layout: Layout, m: map<nat, nat>, n: map<nat, nat>)
    requires Owned(heapStart, heapSize, s) && AlignsArePow2(s) && IsPow2(layout.align)
    requires OnlyNodesChanged(m, s.lists, n, BuddyLists.Allocate(s.lists, OrderFor(layout)).0)
    ensures var (lists, a) := BuddyLists.Allocate(s.lists, OrderFor(layout));
            && (a == 0 ==> lists == s.lists)
            && (a != 0 ==> a !in s.live && layout.size <= Size(OrderFor(layout)))
    ensures var t := AllocState(s, layout);
            && Owned(heapStart, heapSize, t) && AlignsArePow2(t)
            && LiveWordsSame(s, t, m, n)
  {
    var t := AllocState(s, layout);
    AllocateKeepsOwned(heapStart, heapSize, s, layout);
    LiveWordsKept(heapStart, heapSize, s, t, m, n);
    SizeToOrderIsCeilLog(Max(Max(layout.size, layout.align), MIN_BLOCK_SIZE), OrderFor(layout));
  }

  /** What a request leaves behind where blocks are self-aligned and merged. */
  /** Some wholly free self-aligned region of a block's size is as large as the layout
      and its alignment. */
  ghost predicate RoomFor(lists: FreeLists, layout: Layout) {
    exists o: nat :: o <= MAX_ORDER && layout.size <= Size(o) && layout.align <= Size(o) && HasRoom(lists, o)
  }

  lemma RoomForIs(lists: FreeLists, layout: Layout)
    ensures RoomFor(lists, layout) <==> OrderFor(layout) <= MAX_ORDER && HasRoom(lists, OrderFor(layout))
  {
    var order := OrderFor(layout);
    OrderForIsLeast(layout, order);
    if RoomFor(lists, layout) {
      var o: nat :| o <= MAX_ORDER && layout.size <= Size(o) && layout.align <= Size(o) && HasRoom(lists, o);
      OrderForIsLeast(layout, o);
      RoomBelow(lists, order, o);
    }
  }

  lemma RoomBelow(lists: FreeLists, m: nat, n: nat)
    requires m <= n && HasRoom(lists, n)
    ensures HasRoom(lists, m)
  {
    var r: Block :| r.order == n && r.Aligned() && CoversBlock(FreeSet(lists), r);
    var s := Block(r.addr, m);
    AlignedDown(r.addr, m, n);
    SizeMonotone(m, n);
    assert forall p: nat :: s.Contains(p) ==> r.Contains(p);
    assert CoversBlock(FreeSet(lists), s);
  }

  lemma AllocateSoundly(heapStart: nat, heapSize: nat, s: State, layout: Layout)
    requires Inv(heapStart, heapSize, s) && AlignsArePow2(s) && IsPow2(layout.align)
    ensures var a := BuddyLists.Allocate(s.lists, OrderFor(layout)).1;
            && (a != 0 ==> a % layout.align == 0)
            && (a != 0 <==> RoomFor(s.lists, layout))
    ensures Inv(heapStart, heapSize, AllocState(s, layout))
  {
    var t := AllocState(s, layout);
    if OrderFor(layout) <= MAX_ORDER {
      AllocateFailsOnlyWhenFull(heapStart, heapSize, s, OrderFor(layout));
    }
    RoomForIs(s.lists, layout);
    AllocateKeepsInv(heapStart, heapSize, s, layout);
    InvHonoursLayouts(heapStart, heapSize, t);
    var a := BuddyLists.Allocate(s.lists, OrderFor(layout)).1;
    assert a != 0 ==> a in t.live && t.live[a] == layout;
  }

  lemma ReleaseReady(heapStart: nat, heapSize: nat, s: State, addr: nat)
    requires Owned(heapStart, heapSize, s) && addr in s.live
    ensures heapStart <= addr && OrderFor(s.live[addr]) <= MAX_ORDER
    ensures var r := MergeUp(heapStart, s.lists, addr, OrderFor(s.live[addr])); r.1 != 0 && !OnList(r.0, r.1)
    ensures Owned(heapStart, heapSize,
                  State(Coalesce(heapStart, s.lists, addr, OrderFor(s.live[addr])), s.live - {addr}))
  {
    var b := Block(addr, OrderFor(s.live[addr]));
    var rest := LiveSet(s.live) - {b};
    assert b in LiveSet(s.live);
    assert LiveSet(s.live) == rest + {b};
    LoIs(heapStart);
    MergedIsNotOnList(heapStart, s.lists, b, rest, Lo(heapStart), Hi(heapStart, heapSize));
    ReleaseKeepsOwned(heapStart, heapSize, s, addr);
  }

  /** Every node lies below `bound`. */
  ghost predicate Below(lists: FreeLists, bound: nat) {
    forall o, x :: 0 <= o <= MAX_ORDER && x in lists[o] ==> x < bound
  }

  /** Blocks above the ceiling order of what remains do not fit. */
  lemma {:induction false} TooLarge(addr: nat, end: nat, order: nat)
    requires addr <= end && SizeToOrder(end - addr) <= order
    ensures LargestFit(addr, end, order) == LargestFit(addr, end, SizeToOrder(end - addr))
  {
    if SizeToOrder(end - addr) < order {
      SizeToOrderIsCeilLog(end - addr, order - 1);
      TooLarge(addr, end, order - 1);
    }
  }

  /** The lists once everything from `addr` on is registered too. */
  ghost function Completed(lists: FreeLists, addr: nat, end: nat): FreeLists {
    PushAll(lists, Greedy(Lo(addr), end))
  }

  /** `addr` rounded up to a multiple of `size`. */
  function RoundUp(addr: nat, size: nat): nat
    requires size > 0
  {
    (addr + size - 1) / size * size
  }

  lemma Unaligned(addr: nat, end: nat, order: nat, aligned: nat)
    requires order == LargestFit(addr, end, MAX_ORDER) && !AlignedTo(addr, order)
    requires aligned == RoundUp(addr, Size(order))
    ensures addr % 64 != 0 && aligned == Lo(addr)
  {
    assert order == 0;
  }

  lemma Realigned(lists: FreeLists, addr: nat, end: nat)
    requires addr % 64 != 0
    ensures addr < Lo(addr) && Completed(lists, Lo(addr), end) == Completed(lists, addr, end)
  {
    assert Lo(Lo(addr)) == Lo(addr);
  }

  lemma NothingLeft(lists: FreeLists, addr: nat, end: nat)
    requires addr + MIN_BLOCK_SIZE > end || Lo(addr) >= end
    ensures Completed(lists, addr, end) == lists
  {
    assert Greedy(Lo(addr), end) == [];
  }

  lemma RegisterStep(lists: FreeLists, b: Block, end: nat)
    requires b.order == LargestFit(b.addr, end, MAX_ORDER) && b.Aligned() && b.addr + MIN_BLOCK_SIZE <= end
    ensures b.End() <= end
    ensures Completed(lists, b.addr, end) == Completed(Push(lists, b.order, b.addr), b.End(), end)
  {
    AlignedDown(b.addr, 0, b.order);
    var c := GreedyHead(b.addr, end);
    CompletedStep(lists, b, end);
  }

  lemma CompletedStep(lists: FreeLists, b: Block, end: nat)
    requires b.addr % 64 == 0 && b.End() % 64 == 0 && b.order <= MAX_ORDER
    requires Greedy(b.addr, end) == [b] + Greedy(b.End(), end)
    ensures Completed(lists, b.addr, end) == Completed(Push(lists, b.order, b.addr), b.End(), end)
  {
    var rest := Greedy(b.End(), end);
    calc {
      Completed(lists, b.addr, end);
      { CompletedAligned(lists, b.addr, end); }
      PushAll(lists, [b] + rest);
      { PushAllHead(lists, b, rest); }
      PushAll(Push(lists, b.order, b.addr), rest);
      { CompletedAligned(Push(lists, b.order, b.addr), b.End(), end); }
      Completed(Push(lists, b.order, b.addr), b.End(), end);
    }
  }

  lemma CompletedAligned(lists: FreeLists, addr: nat, end: nat)
    requires addr % 64 == 0
    ensures Completed(lists, addr, end) == PushAll(lists, Greedy(addr, end))
  {
    LoOfAligned(addr);
  }

  lemma PushAllHead(lists: FreeLists, b: Block, rest: seq<Block>)
    requires b.order <= MAX_ORDER && forall c :: c in rest ==> c.order <= MAX_ORDER
    ensures PushAll(lists, [b] + rest) == PushAll(Push(lists, b.order, b.addr), rest)
  {
    assert ([b] + rest)[1..] == rest;
  }

  lemma BelowStep(lists: FreeLists, addr: nat, order: nat)
    requires order <= MAX_ORDER && Below(lists, addr)
    ensures !OnList(lists, addr) && Below(Push(lists, order, addr), addr + Size(order))
  {
  }

  lemma LoOfAligned(addr: nat)
    requires addr % 64 == 0
    ensures Lo(addr) == addr
  {
  }

  class BuddyHeap {
    var heapStart: nat
    var heapSize: nat
    var initialized: bool
    /** Head of the free list of each order. */
    const freeLists: array<Option<nat>>
    /** The heap's words, by address. */
    var mem: map<nat, nat>

    /** Addresses linked from each head. */
    ghost var chains: FreeLists
    /** Blocks handed out and not yet returned, with their layouts. */
    ghost var live: map<nat, Layout>

    ghost predicate Linked()
      reads this, freeLists
    {
      freeLists.Length == MAX_ORDER + 1 && Links(mem, freeLists[..], chains)
    }

    ghost function State(): BuddyTheorems.State
      reads this
    {
      BuddyTheorems.State(chains, live)
    }

    ghost predicate Valid()
      reads this, freeLists
    {
      && Linked()
      && AlignsArePow2(State())
      && (initialized ==> Owned(heapStart, heapSize, State()))
      && (!initialized ==> chains == EmptyLists() && live == map[])
    }

    /** Besides, all blocks are self-aligned and free buddies are merged. */
    ghost predicate Sound()
      reads this
    {
      initialized && Inv(heapStart, heapSize, State())
    }

    constructor ()
      ensures Valid() && !initialized && fresh(freeLists)
    {
      heapStart, heapSize, initialized := 0, 0, false;
      freeLists := new Option<nat>[MAX_ORDER + 1](_ => None);
      mem := map[];
      chains := EmptyLists();
      live := map[];
    }

    method AddToFreeList(addr: nat, order: nat)
      requires Linked() && order <= MAX_ORDER && addr != 0 && !OnList(chains, addr)
      modifies this`mem, this`chains, freeLists
      ensures Linked() && chains == Push(old(chains), order, addr)
      ensures forall x: nat :: x != addr ==> SameWord(old(mem), mem, x)
    {
      LinksPush(mem, freeLists[..], chains, order, addr);
      mem := mem[addr := Word(freeLists[order])];
      freeLists[order] := Some(addr);
      chains := Push(chains, order, addr);
      assert freeLists[..] == old(freeLists[..])[order := Some(addr)];
    }

    method RemoveFromFreeList(order: nat) returns (r: Option<nat>)
      requires Linked() && order <= MAX_ORDER
      modifies this`chains, freeLists
      ensures Linked()
      ensures old(chains)[order] == [] ==> r == None && chains == old(chains)
      ensures old(chains)[order] != [] ==>
                r == Some(old(chains)[order][0]) && chains == old(chains)[order := old(chains)[order][1..]]
    {
      r := freeLists[order];
      assert Chain(mem, freeLists[..][order], chains[order]);
      if r.Some? {
        LinksPop(mem, freeLists[..], chains, order);
        freeLists[order] := Link(mem[r.value]);
        chains := chains[order := chains[order][1..]];
        assert freeLists[..] == old(freeLists[..])[order := Link(mem[r.value])];
      }
    }

    /** Unlinks `addr` if it is linked, from the head or from the middle. */
    method RemoveSpecific(addr: nat, order: nat) returns (found: bool)
      requires Linked() && order <= MAX_ORDER
      modifies this`mem, this`chains, freeLists
      ensures Linked() && found == (addr in old(chains)[order])
      ensures chains == Unlink(old(chains), order, addr)
      ensures forall x: nat :: x !in chains[order] ==> SameWord(old(mem), mem, x)
    {
      var prev: Option<nat> := None;
      var current := freeLists[order];
      ghost var chain := chains[order];
      ghost var i := 0;
      assert Chain(mem, freeLists[..][order], chain);
      while current.Some?
        invariant 0 <= i <= |chain|
        invariant current == if i < |chain| then Some(chain[i]) else None
        invariant prev == if i == 0 then None else Some(chain[i - 1])
        invariant addr !in chain[..i]
        decreases |chain| - i
      {
        assert chain[i] in mem && mem[chain[i]] == After(chain, i);
        assert i + 1 < |chain| ==> chain[i + 1] != 0;
        var next := mem[current.value];
        if current.value == addr {
          UnlinkNode(order, prev, next, i);
          return true;
        }
        prev := current;
        current := Link(next);
        i := i + 1;
      }
      WithoutAbsent(chain, addr);
      return false;
    }

    /** Unlinks node `i` of a chain: its predecessor, or the head, skips it. */
    method UnlinkNode(order: nat, prev: Option<nat>, next: nat, ghost i: nat)
      requires Linked() && order <= MAX_ORDER && i < |chains[order]| && chains[order][i] !in chains[order][..i]
      requires prev == if i == 0 then None else Some(chains[order][i - 1])
      requires chains[order][i] in mem && next == mem[chains[order][i]]
      modifies this`mem, this`chains, freeLists
      ensures Linked() && chains == Unlink(old(chains), order, old(chains)[order][i])
      ensures forall x: nat :: x !in chains[order] ==> SameWord(old(mem), mem, x)
    {
      ghost var chain := chains[order];
      if prev.Some? {
        LinksBypass(mem, freeLists[..], chains, order, i);
        mem := mem[prev.value := next];
        BypassedStays(chain, i);
      } else {
        LinksPop(mem, freeLists[..], chains, order);
        freeLists[order] := Link(next);
        assert freeLists[..] == old(freeLists[..])[order := Link(next)];
      }
      chains := Unlink(chains, order, chain[i]);
    }

    method SplitBlock(addr: nat, fromOrder: nat, toOrder: nat)
      requires Linked() && toOrder <= fromOrder <= MAX_ORDER
      requires HalvesUnlisted(chains, addr, fromOrder)
      modifies this`mem, this`chains, freeLists
      ensures Linked() && chains == SplitDown(old(chains), addr, fromOrder, toOrder)
      ensures OnlyNodesChanged(old(mem), old(chains), mem, chains)
    {
      var current := fromOrder;
      while current > toOrder
        invariant toOrder <= current <= fromOrder && Linked()
        invariant SplitDown(chains, addr, current, toOrder) == SplitDown(old(chains), addr, fromOrder, toOrder)
        invariant HalvesUnlisted(chains, addr, current)
        invariant OnlyNodesChanged(old(mem), old(chains), mem, chains)
      {
        current := current - 1;
        var buddy := addr + Size(current);
        SplitOnce(chains, addr, current, toOrder, buddy);
        ListBlock(buddy, current, old(mem), old(chains));
      }
    }

    /** Lists a block, so far changing only words of list nodes. */
    method ListBlock(buddy: nat, order: nat, ghost mem0: map<nat, nat>, ghost chains0: FreeLists)
      requires Linked() && order <= MAX_ORDER && buddy != 0 && !OnList(chains, buddy)
      requires OnlyNodesChanged(mem0, chains0, mem, chains)
      modifies this`mem, this`chains, freeLists
      ensures Linked() && chains == Push(old(chains), order, buddy)
      ensures OnlyNodesChanged(mem0, chains0, mem, chains)
    {
      AddToFreeList(buddy, order);
      NodesGrow(mem0, chains0, old(mem), old(chains), mem, order, buddy);
    }

    method CoalesceAt(addr: nat, order: nat)
      requires Linked() && heapStart <= addr && order <= MAX_ORDER
      requires var r := MergeUp(heapStart, chains, addr, order); r.1 != 0 && !OnList(r.0, r.1)
      modifies this`mem, this`chains, freeLists
      ensures Linked() && chains == Coalesce(heapStart, old(chains), addr, order)
      ensures OnlyNodesChanged(old(mem), old(chains), mem, chains)
    {
      var currentAddr, currentOrder := MergeBuddies(addr, order);
      CoalesceIsMergeUp(heapStart, old(chains), addr, order);
      ListBlock(currentAddr, currentOrder, old(mem), old(chains));
    }

    /** The loop of `coalesce`: as long as the buddy is free, take it and go on
        with the parent. */
    method MergeBuddies(addr: nat, order: nat) returns (currentAddr: nat, currentOrder: nat)
      requires Linked() && heapStart <= addr && order <= MAX_ORDER
      modifies this`mem, this`chains, freeLists
      ensures Linked() && MergeUp(heapStart, old(chains), addr, order) == (chains, currentAddr, currentOrder)
      ensures NodesWithin(chains, old(chains)) && OffListSame(old(mem), mem, old(chains))
    {
      ghost var merged := MergeUp(heapStart, chains, addr, order);
      currentAddr, currentOrder := addr, order;
      while currentOrder < MAX_ORDER
        invariant order <= currentOrder <= MAX_ORDER && heapStart <= currentAddr && Linked()
        invariant MergeUp(heapStart, chains, currentAddr, currentOrder) == merged
        invariant NodesWithin(chains, old(chains))
        invariant OffListSame(old(mem), mem, old(chains))
        decreases MAX_ORDER - currentOrder
      {
        var buddy := BuddyAddr(heapStart, currentAddr, currentOrder);
        MergeUpStep(heapStart, chains, currentAddr, currentOrder, buddy);
        var found := TakeBuddy(buddy, currentOrder, old(mem), old(chains));
        if !found {
          return;
        }
        currentAddr := Min(currentAddr, buddy);
        currentOrder := currentOrder + 1;
      }
    }

    /** Takes a buddy off its list, if it is there. */
    method TakeBuddy(buddy: nat, order: nat, ghost mem0: map<nat, nat>, ghost chains0: FreeLists) returns (found: bool)
      requires Linked() && order <= MAX_ORDER
      requires NodesWithin(chains, chains0) && OffListSame(mem0, mem, chains0)
      modifies this`mem, this`chains, freeLists
      ensures Linked() && found == (buddy in old(chains)[order]) && chains == Unlink(old(chains), order, buddy)
      ensures NodesWithin(chains, chains0) && OffListSame(mem0, mem, chains0)
    {
      found := RemoveSpecific(buddy, order);
      UnlinkFrame(mem0, chains0, old(mem), old(chains), mem, order, buddy);
    }

    /** The descending search for an order that is aligned and fits. */
    static method LargestOrderAt(current: nat, end: nat) returns (order: nat)
      requires current <= end
      ensures order == LargestFit(current, end, MAX_ORDER)
    {
      order := Min(SizeToOrder(end - current), MAX_ORDER);
      if SizeToOrder(end - current) <= MAX_ORDER {
        TooLarge(current, end, MAX_ORDER);
      }
      while order > 0
        invariant LargestFit(current, end, order) == LargestFit(current, end, MAX_ORDER)
      {
        var blockSize := Size(order);
        AlignedIsMod(current, order);
        if current % blockSize == 0 && current + blockSize <= end {
          break;
        }
        order := order - 1;
      }
    }

    /** One round of the loop in `init`; `done` when nothing more can be cut. */
    method RegisterNext(current: nat, end: nat) returns (next: nat, done: bool, panicked: bool)
      requires Linked() && Below(chains, current) && current < end
      modifies this`mem, this`chains, freeLists
      ensures panicked <==> current == 0 && end >= MIN_BLOCK_SIZE
      ensures !panicked ==>
                && Linked() && Below(chains, next)
                && Completed(chains, next, end) == Completed(old(chains), current, end)
                && (done ==> Completed(chains, next, end) == chains)
                && (!done ==> current < next)
    {
      next, done, panicked := current, true, false;
      var remaining := end - current;
      if remaining < MIN_BLOCK_SIZE {
        NothingLeft(chains, current, end);
        return;
      }
      var order := LargestOrderAt(current, end);
      var blockSize := Size(order);
      AlignedIsMod(current, order);
      if current % blockSize != 0 {
        var aligned := RoundUp(current, blockSize);
        Unaligned(current, end, order, aligned);
        if aligned >= end {
          NothingLeft(chains, current, end);
          return;
        }
        Realigned(chains, current, end);
        return aligned, false, false;
      }
      next, done, panicked := RegisterAligned(current, order, end);
    }

    /** Putting a block on a list stores through its address, which must not be null. */
    method RegisterAligned(current: nat, order: nat, end: nat) returns (next: nat, done: bool, panicked: bool)
      requires Linked() && Below(chains, current) && current + MIN_BLOCK_SIZE <= end
      requires order == LargestFit(current, end, MAX_ORDER) && AlignedTo(current, order)
      modifies this`mem, this`chains, freeLists
      ensures panicked <==> current == 0
      ensures !panicked ==>
                && Linked() && Below(chains, next)
                && Completed(chains, next, end) == Completed(old(chains), current, end)
                && !done && current < next
    {
      RegisterStep(chains, Block(current, order), end);
      next, done, panicked := current, true, false;
      if current + Size(order) <= end {
        if current == 0 {
          panicked := true;
          return;
        }
        BelowStep(chains, current, order);
        AddToFreeList(current, order);
        next, done := current + Size(order), false;
      }
    }

    /** The main loop of `init`: cut [start, start + size) greedily. */
    method RegisterBlocks(start: nat, size: nat) returns (panicked: bool)
      requires Linked() && chains == EmptyLists()
      modifies this`mem, this`chains, freeLists
      ensures panicked <==> !NonNull(start, size)
      ensures !panicked ==> Linked() && chains == InitLists(start, size)
    {
      panicked := false;
      var current, end := start, start + size;
      while current < end
        invariant start <= current && Linked() && Below(chains, current)
        invariant current == 0 || NonNull(start, size)
        invariant Completed(chains, current, end) == Completed(old(chains), start, end)
      {
        var next, done;
        next, done, panicked := RegisterNext(current, end);
        if panicked {
          return;
        }
        current := next;
        if done {
          return;
        }
      }
      NothingLeft(chains, current, end);
    }

    /** Panics exactly when the heap has a block at the null address. */
    method Init(start: nat, size: nat) returns (panicked: bool)
      requires freeLists.Length == MAX_ORDER + 1
      modifies this, freeLists
      ensures panicked <==> !NonNull(start, size)
      ensures !panicked ==>
                && Valid() && Sound() && heapStart == start && heapSize == size
                && chains == InitLists(start, size) && live == map[]
    {
      heapStart, heapSize, initialized := start, size, true;
      for i := 0 to freeLists.Length
        modifies freeLists
        invariant forall o :: 0 <= o < i ==> freeLists[o] == None
      {
        freeLists[i] := None;
      }
      chains, live := EmptyLists(), map[];
      panicked := RegisterBlocks(start, size);
      if !panicked {
        InitialInv(start, size);
        InitialOwned(start, size);
      }
    }

    /** Take the first block found from `order` up and cut it down. */
    method TakeBlock(order: nat) returns (addr: nat)
      requires Linked() && order <= MAX_ORDER && CutReady(chains)
      modifies this`mem, this`chains, freeLists
      ensures Linked() && (chains, addr) == BuddyLists.Allocate(old(chains), order)
      ensures OnlyNodesChanged(old(mem), old(chains), mem, chains)
    {
      for current := order to MAX_ORDER + 1
        invariant Linked() && chains == old(chains) && mem == old(mem)
        invariant forall o :: order <= o < current ==> chains[o] == []
      {
        var block := RemoveFromFreeList(current);
        if block.Some? {
          FirstFitIs(old(chains), order, current);
          SplitBlock(block.value, current, order);
          TailShrinks(old(mem), old(chains), current, mem, chains);
          return block.value;
        }
      }
      FirstFitIs(chains, order, MAX_ORDER + 1);
      return 0;
    }

    /** On any base the block is fresh and large enough; where blocks are sound it is
        also aligned, and null means that no wholly free region would do. */
    method Allocate(layout: Layout) returns (addr: nat)
      requires Valid() && IsPow2(layout.align)
      modifies this, freeLists
      ensures Valid() && heapStart == old(heapStart) && heapSize == old(heapSize) && initialized == old(initialized)
      ensures !initialized ==> addr == 0 && State() == old(State())
      ensures initialized ==>
                && addr == BuddyLists.Allocate(old(chains), OrderFor(layout)).1
                && State() == AllocState(old(State()), layout)
      ensures addr != 0 ==> addr !in old(live) && layout.size <= Size(OrderFor(layout))
      ensures old(Sound()) ==>
                && Sound()
                && (addr != 0 ==> addr % layout.align == 0)
                && (addr != 0 <==> RoomFor(old(chains), layout))
      ensures LiveWordsSame(old(State()), State(), old(mem), mem)
    {
      if !initialized {
        return 0;
      }
      var order := OrderFor(layout);
      if Inv(heapStart, heapSize, State()) {
        AllocateSoundly(heapStart, heapSize, State(), layout);
      }
      if order > MAX_ORDER {
        AllocateFacts(heapStart, heapSize, State(), layout, mem, mem);
        return 0;
      }
      OwnedIsCutReady(heapStart, heapSize, State());
      addr := TakeBlock(order);
      AllocateFacts(heapStart, heapSize, old(State()), layout, old(mem), mem);
      if addr != 0 {
        live := live[addr := layout];
      }
    }

    /** Works on any base; on an aligned one blocks stay sound. */
    method Deallocate(ptr: nat, layout: Layout)
      requires Valid()
      requires ptr != 0 && initialized ==> ptr in live && live[ptr] == layout
      modifies this, freeLists
      ensures Valid() && heapStart == old(heapStart) && heapSize == old(heapSize) && initialized == old(initialized)
      ensures ptr == 0 || !initialized ==> State() == old(State()) && mem == old(mem)
      ensures ptr != 0 && initialized ==>
                && heapStart <= ptr && OrderFor(layout) <= MAX_ORDER
                && chains == Coalesce(heapStart, old(chains), ptr, OrderFor(layout))
                && live == old(live) - {ptr}
      ensures old(Sound()) && HeapAligned(heapStart, heapSize) ==> Sound()
      ensures LiveWordsSame(old(State()), State(), old(mem), mem)
    {
      if ptr == 0 || !initialized {
        return;
      }
      var order := OrderFor(layout);
      ReleaseReady(heapStart, heapSize, State(), ptr);
      if Inv(heapStart, heapSize, State()) && HeapAligned(heapStart, heapSize) {
        ReleaseKeepsInv(heapStart, heapSize, State(), ptr);
      }
      CoalesceAt(ptr, order);
      live := live - {ptr};
      LiveWordsKept(heapStart, heapSize, old(State()), State(), old(mem), mem);
    }

    /** A client stores a word somewhere in a block it owns. */
    method ClientWrite(p: nat, word: nat, ghost owner: Block)
      requires Valid() && owner in LiveSet(live) && owner.Contains(p)
      modifies this`mem
      ensures Valid() && mem == old(mem)[p := word]
    {
      if initialized {
        HeldIsNotOnList(chains, LiveSet(live), Lo(heapStart), Hi(heapStart, heapSize), owner, p);
      }
      mem := mem[p := word];
      forall o | 0 <= o <= MAX_ORDER
        ensures Chain(mem, freeLists[..][o], chains[o])
      {
        assert p !in chains[o];
        ChainFrame(old(mem), mem, freeLists[..][o], chains[o]);
      }
    }
  }
}
