/** Geometry of power-of-two blocks: every block is aligned to its own size, so
    two blocks are nested or disjoint, and a fully merged tiling is unique. */
module Dyadic {
  import opened Bits
  import opened Chunks

  const MIN_BLOCK_SIZE: nat := 64
  const MAX_ORDER: nat := 16

  /** MIN_BLOCK_SIZE << order */
  function Size(order: nat): (r: nat)
    ensures r >= MIN_BLOCK_SIZE
  {
    if order == 0 then MIN_BLOCK_SIZE else 2 * Size(order - 1)
  }

  lemma {:induction false} SizeIsShift(order: nat)
    ensures Size(order) == MIN_BLOCK_SIZE * Pow2(order) == Pow2(order + 6)
  {
    if order == 0 {
      assert Pow2(6) == 2 * Pow2(5) == 4 * Pow2(4) == 8 * Pow2(3);
      assert Pow2(3) == 2 * Pow2(2) == 4 * Pow2(1);
    } else {
      SizeIsShift(order - 1);
    }
  }

  lemma {:induction false} SizeMonotone(m: nat, n: nat)
    requires m <= n
    ensures Size(m) <= Size(n)
    decreases n - m
  {
    if m < n {
      SizeMonotone(m, n - 1);
    }
  }

  datatype Block = Block(addr: nat, order: nat) {
    function End(): nat { addr + Size(order) }

    predicate Contains(p: nat) { addr <= p < End() }

    predicate Aligned() { AlignedTo(addr, order) }

    predicate Within(other: Block) { other.addr <= addr && End() <= other.End() }

    predicate DisjointFrom(other: Block) { End() <= other.addr || other.End() <= addr }

    function Left(): Block
      requires order > 0
    {
      Block(addr, order - 1)
    }

    function Right(): Block
      requires order > 0
    {
      Block(addr + Size(order - 1), order - 1)
    }
  }

  /** `addr` is a multiple of `Size(order)`, bit by bit. */
  predicate AlignedTo(addr: nat, order: nat)
    decreases order
  {
    if order == 0 then addr % 64 == 0
    else addr % 2 == 0 && AlignedTo(addr / 2, order - 1)
  }

  lemma {:induction false} AlignedIsMod(addr: nat, order: nat)
    ensures AlignedTo(addr, order) <==> addr % Size(order) == 0
    decreases order
  {
    if order > 0 {
      AlignedIsMod(addr / 2, order - 1);
      EvenMod(addr, Size(order - 1));
    }
  }

  lemma EvenMod(a: nat, s: nat)
    requires s > 0
    ensures a % (2 * s) == 0 <==> a % 2 == 0 && (a / 2) % s == 0
  {
    if a % (2 * s) == 0 {
      var q := a / (2 * s);
      assert a == 2 * (s * q);
      MultipleMod(q, s);
    } else if a % 2 == 0 && (a / 2) % s == 0 {
      var q := (a / 2) / s;
      assert a == 2 * (s * q) == (2 * s) * q;
      MultipleMod(q, 2 * s);
    }
  }

  lemma HalvesAligned(a: nat, s: nat)
    requires s > 0 && a % (2 * s) == 0
    ensures a % s == 0 && (a + s) % s == 0
    ensures (a + s) % (2 * s) != 0
  {
    var q := a / (2 * s);
    assert a == s * (2 * q);
    MultipleMod(2 * q, s);
    MultipleMod(2 * q + 1, s);
    assert a + s == s * (2 * q + 1);
    assert a + s == (2 * s) * q + s;
    DivModAt(q, 2 * s, s);
  }

  lemma MultipleMod(k: nat, s: nat)
    requires s > 0
    ensures (s * k) % s == 0
  {
    DivModAt(k, s, 0);
  }

  /** Addresses aligned to one size are equal or at least that size apart. */
  lemma AlignedApart(a: nat, b: nat, s: nat)
    requires s > 0 && a % s == 0 && b % s == 0 && a < b
    ensures a + s <= b
  {
    var x, y := a / s, b / s;
    assert a == s * x && b == s * y;
    assert y <= x ==> s * y <= s * x;
    assert s * (x + 1) <= s * y;
  }

  lemma AlignedHalves(b: Block)
    requires b.order > 0 && b.Aligned()
    ensures b.Left().Aligned() && b.Right().Aligned()
    ensures !AlignedTo(b.Right().addr, b.order)
  {
    var s := Size(b.order - 1);
    assert b.addr % (2 * s) == 0 by { AlignedIsMod(b.addr, b.order); }
    HalvesAligned(b.addr, s);
    ModIsAligned(b.addr, b.order - 1);
    ModIsAligned(b.addr + s, b.order - 1);
    AlignedIsMod(b.addr + s, b.order);
  }

  lemma ModIsAligned(addr: nat, order: nat)
    requires addr % Size(order) == 0
    ensures AlignedTo(addr, order)
  {
    AlignedIsMod(addr, order);
  }

  lemma {:induction false} AlignedDown(a: nat, m: nat, n: nat)
    requires m <= n && AlignedTo(a, n)
    ensures AlignedTo(a, m)
    decreases n
  {
    if m < n {
      AlignedHalves(Block(a, n));
      AlignedDown(a, m, n - 1);
    }
  }

  /** Two aligned blocks are nested or disjoint. */
  lemma {:induction false} NestedOrDisjoint(b: Block, c: Block)
    requires b.Aligned() && c.Aligned() && b.order <= c.order
    ensures b.Within(c) || b.DisjointFrom(c)
    decreases c.order
  {
    if b.order == c.order {
      AlignedIsMod(b.addr, b.order);
      AlignedIsMod(c.addr, c.order);
      if b.addr < c.addr {
        AlignedApart(b.addr, c.addr, Size(b.order));
      } else if c.addr < b.addr {
        AlignedApart(c.addr, b.addr, Size(b.order));
      }
    } else {
      AlignedHalves(c);
      NestedOrDisjoint(b, c.Left());
      NestedOrDisjoint(b, c.Right());
    }
  }

  /** Some block of `s` contains byte address `p`. */
  ghost predicate Covers(s: set<Block>, p: nat) {
    exists b :: b in s && b.Contains(p)
  }

  /** Every byte of `r` lies in some block of `s`. */
  ghost predicate CoversBlock(s: set<Block>, r: Block) {
    forall p :: r.Contains(p) ==> Covers(s, p)
  }

  /** Every byte of [lo, hi) lies in some block of `s`. */
  ghost predicate CoversAll(s: set<Block>, lo: nat, hi: nat) {
    forall p :: lo <= p < hi ==> Covers(s, p)
  }

  ghost predicate WellPlaced(s: set<Block>, lo: nat, hi: nat) {
    forall b :: b in s ==> b.order <= MAX_ORDER && b.Aligned() && lo <= b.addr && b.End() <= hi
  }

  ghost predicate PairwiseDisjoint(s: set<Block>) {
    forall b, c :: b in s && c in s && b != c ==> b.DisjointFrom(c)
  }

  /** `s` partitions the byte range [lo, hi) into self-aligned blocks. */
  ghost predicate Tiles(s: set<Block>, lo: nat, hi: nat) {
    && WellPlaced(s, lo, hi)
    && PairwiseDisjoint(s)
    && CoversAll(s, lo, hi)
  }

  /** No two buddies below the top order are both in `s`. */
  ghost predicate FullyMerged(s: set<Block>) {
    forall p: Block :: 0 < p.order <= MAX_ORDER && p.Aligned() && p.Left() in s ==> p.Right() !in s
  }

  /** In a fully merged set, an aligned region that is covered at all is covered
      by a single block. */
  lemma {:induction false} CoveredRegionInOneBlock(s: set<Block>, r: Block) returns (b: Block)
    requires forall c :: c in s ==> c.Aligned()
    requires FullyMerged(s) && r.Aligned() && r.order <= MAX_ORDER
    requires CoversBlock(s, r)
    ensures b in s && r.Within(b)
    decreases r.order
  {
    if r.order == 0 {
      assert r.Contains(r.addr);
      b :| b in s && b.Contains(r.addr);
      NestedOrDisjoint(r, b);
    } else {
      AlignedHalves(r);
      assert forall p :: r.Left().Contains(p) || r.Right().Contains(p) ==> r.Contains(p);
      b := CoveredRegionInOneBlock(s, r.Left());
      var c := CoveredRegionInOneBlock(s, r.Right());
      if b.order >= r.order {
        NestedOrDisjoint(r, b);
      } else if c.order >= r.order {
        NestedOrDisjoint(r, c);
        b := c;
      } else {
        InsideSameOrder(r.Left(), b);
        InsideSameOrder(r.Right(), c);
        assert false;
      }
    }
  }

  lemma InsideSameOrder(b: Block, c: Block)
    requires b.Within(c) && c.order <= b.order
    ensures b == c
  {
    SizeMonotone(c.order, b.order);
    if c.order < b.order {
      SizeMonotone(c.order, b.order - 1);
    }
  }

  /** A fully merged tiling of a range is unique. */
  lemma MergedTilingUnique(s: set<Block>, t: set<Block>, lo: nat, hi: nat)
    requires Tiles(s, lo, hi) && FullyMerged(s)
    requires Tiles(t, lo, hi) && FullyMerged(t)
    ensures s == t
  {
    MergedTilingIncluded(s, t, lo, hi);
    MergedTilingIncluded(t, s, lo, hi);
  }

  lemma MergedTilingIncluded(s: set<Block>, t: set<Block>, lo: nat, hi: nat)
    requires Tiles(s, lo, hi) && FullyMerged(s)
    requires Tiles(t, lo, hi) && FullyMerged(t)
    ensures s <= t
  {
    forall b | b in s
      ensures b in t
    {
      var c := CoveredRegionInOneBlock(t, b);
      var d := CoveredRegionInOneBlock(s, c);
      assert b == d by {
        assert !b.DisjointFrom(d);
      }
      assert c.addr == b.addr && c.End() == b.End();
      if c.order < b.order {
        InsideSameOrder(b, c);
      } else {
        InsideSameOrder(c, b);
      }
    }
  }

  /** Replacing a block by its halves keeps a tiling. */
  lemma SplitTiles(s: set<Block>, b: Block, lo: nat, hi: nat)
    requires Tiles(s, lo, hi) && b in s && b.order > 0
    ensures Tiles(s - {b} + {b.Left(), b.Right()}, lo, hi)
  {
    AlignedHalves(b);
    SplitCovers(s, b, lo, hi);
    SplitDisjoint(s, b);
  }

  lemma SplitDisjoint(s: set<Block>, b: Block)
    requires PairwiseDisjoint(s) && b in s && b.order > 0
    ensures PairwiseDisjoint(s - {b} + {b.Left(), b.Right()})
  {
    forall c | c in s && c != b
      ensures c.DisjointFrom(b.Left()) && c.DisjointFrom(b.Right())
    {
      assert c.DisjointFrom(b);
    }
  }

  lemma SplitCovers(s: set<Block>, b: Block, lo: nat, hi: nat)
    requires CoversAll(s, lo, hi) && b.order > 0
    ensures CoversAll(s - {b} + {b.Left(), b.Right()}, lo, hi)
  {
    var t := s - {b} + {b.Left(), b.Right()};
    forall p | lo <= p < hi
      ensures Covers(t, p)
    {
      assert Covers(s, p);
      var c :| c in s && c.Contains(p);
      if c == b {
        assert b.Left().Contains(p) || b.Right().Contains(p);
      } else {
        assert c in t;
      }
    }
  }

  /** Replacing two halves by their parent keeps a tiling. */
  lemma MergeTiles(s: set<Block>, b: Block, lo: nat, hi: nat)
    requires Tiles(s, lo, hi) && 0 < b.order <= MAX_ORDER && b.Aligned()
    requires b.Left() in s && b.Right() in s
    ensures Tiles(s - {b.Left(), b.Right()} + {b}, lo, hi)
  {
    MergeCovers(s, b, lo, hi);
    forall c | c in s && c != b.Left() && c != b.Right()
      ensures c.DisjointFrom(b)
    {
      assert c.DisjointFrom(b.Left()) && c.DisjointFrom(b.Right());
    }
  }

  lemma MergeCovers(s: set<Block>, b: Block, lo: nat, hi: nat)
    requires b.order > 0 && CoversAll(s, lo, hi)
    ensures CoversAll(s - {b.Left(), b.Right()} + {b}, lo, hi)
  {
    var t := s - {b.Left(), b.Right()} + {b};
    forall p | lo <= p < hi
      ensures Covers(t, p)
    {
      assert Covers(s, p);
      var c :| c in s && c.Contains(p);
      if c == b.Left() || c == b.Right() {
        assert b.Contains(p);
      } else {
        assert c in t;
      }
    }
  }
}
