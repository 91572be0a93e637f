/** ext2 block mapping and file read: direct, indirect and double-indirect
    pointers with holes, against a sparse flat file. Block pointers follow "The
    Second Extended File System: Internal Layout", section "i_block". */
module Ext2 {
  import opened Chunks
  import opened Storage
  import opened Wrappers
  import opened Words

  const DIRECT_BLOCKS: nat := 12
  const INDIRECT_BLOCK: nat := 12
  const DOUBLE_INDIRECT_BLOCK: nat := 13

  datatype Inode = Inode(regular: bool, sizeLow: u32, sizeHigh: u32, block: seq<u32>) {
    predicate Valid() { |block| == 15 }

    /** Only regular files use the upper half of the size. */
    function FileSize(): nat { if regular then sizeHigh * 0x1_0000_0000 + sizeLow else sizeLow }

    lemma FileSizeIs()
      ensures FileSize() % 0x1_0000_0000 == sizeLow && FileSize() / 0x1_0000_0000 == if regular then sizeHigh else 0
    {
    }
  }

  /** A volume: its sectors and the number of sectors in a block (1 to 64 KiB). */
  datatype Volume = Volume(disk: Disk, sectorsPerBlock: nat) {
    predicate Valid() { 2 <= sectorsPerBlock <= 128 }

    function BlockSize(): nat { sectorsPerBlock * 512 }

    /** Pointers held by one block. */
    function Ptrs(): nat { sectorsPerBlock * 128 }

    predicate OnDisk(b: nat) { b * sectorsPerBlock + sectorsPerBlock <= |disk| }

    function BlockByte(b: nat, o: nat): byte
      requires OnDisk(b) && o < BlockSize()
    {
      disk[b * sectorsPerBlock + o / 512][o % 512]
    }

    /** Little-endian pointer number `i` of block `b`. */
    function Pointer(b: nat, i: nat): nat
      requires OnDisk(b) && i < Ptrs()
    {
      BlockByte(b, 4 * i) + 0x100 * BlockByte(b, 4 * i + 1) + 0x1_0000 * BlockByte(b, 4 * i + 2)
      + 0x100_0000 * BlockByte(b, 4 * i + 3)
    }
  }

  // -------------------------------------------------- where a block lives

  /** The place in the inode's pointer tree that describes a logical block. */
  datatype Slot = Direct(i: nat) | Indirect(i: nat) | Double(i: nat, j: nat) | Beyond(excess: nat)

  predicate ValidSlot(v: Volume, s: Slot) {
    match s
    case Direct(i) => i < DIRECT_BLOCKS
    case Indirect(i) => i < v.Ptrs()
    case Double(i, j) => i < v.Ptrs() && j < v.Ptrs()
    case Beyond(_) => true
  }

  /** First logical block that would need a triple-indirect pointer. */
  function TripleStart(v: Volume): nat { DIRECT_BLOCKS + v.Ptrs() + v.Ptrs() * v.Ptrs() }

  function SlotOf(v: Volume, logical: nat): Slot
    requires v.Valid()
  {
    if logical < DIRECT_BLOCKS then Direct(logical)
    else if logical - DIRECT_BLOCKS < v.Ptrs() then Indirect(logical - DIRECT_BLOCKS)
    else
      var l := logical - DIRECT_BLOCKS - v.Ptrs();
      if l < v.Ptrs() * v.Ptrs() then Double(Quot(l, v.Ptrs()), Rem(l, v.Ptrs()))
      else Beyond(logical - TripleStart(v))
  }

  function LogicalOf(v: Volume, s: Slot): nat {
    match s
    case Direct(i) => i
    case Indirect(i) => DIRECT_BLOCKS + i
    case Double(i, j) => DIRECT_BLOCKS + v.Ptrs() + i * v.Ptrs() + j
    case Beyond(e) => TripleStart(v) + e
  }

  lemma ProductBound(i: nat, m: nat)
    requires i < m
    ensures i * m + m <= m * m
  {
    assert (m - i - 1) * m >= 0;
  }

  lemma QuotBound(l: nat, m: nat)
    requires m > 0 && l < m * m
    ensures Quot(l, m) < m
  {
    QuotRemAre(l, m);
    var k := Quot(l, m);
    assert k >= m ==> k * m >= m * m;
  }

  /** Logical blocks and slots correspond one to one. */
  lemma SlotsAreOneToOne(v: Volume, logical: nat, s: Slot)
    requires v.Valid() && ValidSlot(v, s)
    ensures ValidSlot(v, SlotOf(v, logical)) && LogicalOf(v, SlotOf(v, logical)) == logical
    ensures SlotOf(v, LogicalOf(v, s)) == s
  {
    SlotRoundTrip(v, logical);
    if s.Double? {
      PairRoundTrip(s.i, s.j, v.Ptrs());
    }
  }

  lemma PairRoundTrip(i: nat, j: nat, m: nat)
    requires i < m && j < m
    ensures i * m + j < m * m && Quot(i * m + j, m) == i && Rem(i * m + j, m) == j
  {
    ProductBound(i, m);
    QuotRemAre(i * m + j, m);
    DivModAt(i, m, j);
  }

  lemma SlotRoundTrip(v: Volume, logical: nat)
    requires v.Valid()
    ensures ValidSlot(v, SlotOf(v, logical)) && LogicalOf(v, SlotOf(v, logical)) == logical
  {
    var m := v.Ptrs();
    if DIRECT_BLOCKS + m <= logical < TripleStart(v) {
      var l := logical - DIRECT_BLOCKS - m;
      QuotBound(l, m);
      QuotRemAre(l, m);
    }
  }

  /** Number of the physical block a slot leads to; 0 is a hole. */
  function Resolve(v: Volume, inode: Inode, s: Slot): FsResult<nat>
    requires inode.Valid() && ValidSlot(v, s)
  {
    match s
    case Direct(i) => Ok(inode.block[i])
    case Indirect(i) => Follow(v, inode.block[INDIRECT_BLOCK], i)
    case Double(i, j) =>
      var outer := Follow(v, inode.block[DOUBLE_INDIRECT_BLOCK], i);
      if outer.Err? then outer else Follow(v, outer.value, j)
    case Beyond(_) => Err(NotSupported)
  }

  /** Pointer `i` of block `b`, where a hole leads only to holes. */
  function Follow(v: Volume, b: nat, i: nat): FsResult<nat>
    requires i < v.Ptrs()
  {
    if b == 0 then Ok(0)
    else if v.OnDisk(b) then Ok(v.Pointer(b, i))
    else Err(IoError)
  }

  // ------------------------------------------------- the pointers in a row

  /** A block's sectors, one after the other. */
  function BlockBytes(v: Volume, b: nat): (bytes: seq<byte>)
    requires v.OnDisk(b)
    ensures |bytes| == v.BlockSize()
  {
    SectorBytes(v.disk[b * v.sectorsPerBlock..b * v.sectorsPerBlock + v.sectorsPerBlock])
  }

  /** Bytes read as little-endian 32-bit numbers. */
  function WordsOf(bytes: seq<byte>): (words: seq<nat>)
    ensures |words| == |bytes| / 4
  {
    if |bytes| < 4 then [] else [LittleEndian(bytes[..4])] + WordsOf(bytes[4..])
  }

  function Oks<T>(xs: seq<T>): seq<FsResult<T>> { seq(|xs|, i requires 0 <= i < |xs| => Ok(xs[i])) }

  function Repeat<T>(x: T, n: nat): seq<T> { seq(n, _ => x) }

  /** The pointers that a block lists: a hole lists holes, and what is off the disk
      cannot be read. */
  function Listed(v: Volume, b: FsResult<nat>): (list: seq<FsResult<nat>>)
    ensures |list| == v.Ptrs()
  {
    match b
    case Err(e) => Repeat(Err(e), v.Ptrs())
    case Ok(b) =>
      if b == 0 then Repeat(Ok(0), v.Ptrs())
      else if v.OnDisk(b) then Oks(WordsOf(BlockBytes(v, b)))
      else Repeat(Err(IoError), v.Ptrs())
  }

  function ListedEach(v: Volume, bs: seq<FsResult<nat>>): seq<seq<FsResult<nat>>> {
    seq(|bs|, i requires 0 <= i < |bs| => Listed(v, bs[i]))
  }

  /** All pointers of a file in order: the twelve in the inode, those listed by the
      thirteenth, and those listed by each block that the fourteenth lists. */
  function PointerList(v: Volume, inode: Inode): seq<FsResult<nat>>
    requires inode.Valid()
  {
    Oks(inode.block[..12]) + Listed(v, Ok(inode.block[12])) + Concat(ListedEach(v, Listed(v, Ok(inode.block[13]))))
  }

  lemma {:induction false} WordsAt(bytes: seq<byte>, i: nat)
    requires 4 * i + 4 <= |bytes|
    ensures WordsOf(bytes)[i] == LittleEndian(bytes[4 * i..4 * i + 4])
  {
    if i > 0 {
      WordsAt(bytes[4..], i - 1);
      SliceOfTail(bytes, 4, 4 * (i - 1), 4 * i);
    }
  }

  lemma SliceOfTail<T>(s: seq<T>, k: nat, a: nat, b: nat)
    requires a + k == b && b + 4 <= |s|
    ensures s[k..][a..a + 4] == s[b..b + 4]
  {
  }

  lemma BlockBytesAt(v: Volume, b: nat, o: nat)
    requires v.OnDisk(b) && o < v.BlockSize()
    ensures BlockBytes(v, b)[o] == v.BlockByte(b, o)
  {
    var start, n := b * v.sectorsPerBlock, v.sectorsPerBlock;
    assert v.BlockByte(b, o) == v.disk[start + o / 512][o % 512];
    assert BlockBytes(v, b) == SectorBytes(v.disk[start..start + n]);
    SectorsFrom(v.disk, start, n, o);
  }

  lemma PointerIsWord(v: Volume, b: nat, i: nat)
    requires v.OnDisk(b) && i < v.Ptrs()
    ensures WordsOf(BlockBytes(v, b))[i] == v.Pointer(b, i)
  {
    var word := BlockBytes(v, b)[4 * i..4 * i + 4];
    WordsAt(BlockBytes(v, b), i);
    BlockBytesAt(v, b, 4 * i);
    BlockBytesAt(v, b, 4 * i + 1);
    BlockBytesAt(v, b, 4 * i + 2);
    BlockBytesAt(v, b, 4 * i + 3);
    LittleEndian4(word);
  }

  lemma FollowIsListed(v: Volume, b: nat, i: nat)
    requires i < v.Ptrs()
    ensures Follow(v, b, i) == Listed(v, Ok(b))[i]
  {
    if b != 0 && v.OnDisk(b) {
      PointerIsWord(v, b, i);
    }
  }

  lemma ListedTwice(v: Volume, b: nat, l: nat)
    requires v.Valid() && l < v.Ptrs() * v.Ptrs()
    ensures Quot(l, v.Ptrs()) < v.Ptrs()
    ensures |Concat(ListedEach(v, Listed(v, Ok(b))))| == v.Ptrs() * v.Ptrs()
    ensures Concat(ListedEach(v, Listed(v, Ok(b))))[l]
         == Listed(v, Listed(v, Ok(b))[Quot(l, v.Ptrs())])[Rem(l, v.Ptrs())]
  {
    var each := ListedEach(v, Listed(v, Ok(b)));
    ConcatLength(each, v.Ptrs());
    TimesIs(v.Ptrs(), v.Ptrs());
    ConcatAt(each, v.Ptrs(), l);
  }

  lemma DoubleIsListed(v: Volume, inode: Inode, l: nat)
    requires v.Valid() && inode.Valid() && l < v.Ptrs() * v.Ptrs()
    ensures Quot(l, v.Ptrs()) < v.Ptrs()
    ensures |Concat(ListedEach(v, Listed(v, Ok(inode.block[13]))))| == v.Ptrs() * v.Ptrs()
    ensures Resolve(v, inode, Double(Quot(l, v.Ptrs()), Rem(l, v.Ptrs())))
         == Concat(ListedEach(v, Listed(v, Ok(inode.block[13]))))[l]
  {
    var i, j := Quot(l, v.Ptrs()), Rem(l, v.Ptrs());
    ListedTwice(v, inode.block[13], l);
    FollowIsListed(v, inode.block[13], i);
    var outer := Follow(v, inode.block[13], i);
    if outer.Ok? {
      FollowIsListed(v, outer.value, j);
    }
  }

  lemma PointerListLength(v: Volume, inode: Inode)
    requires inode.Valid()
    ensures |PointerList(v, inode)| == TripleStart(v)
  {
    ConcatLength(ListedEach(v, Listed(v, Ok(inode.block[13]))), v.Ptrs());
    TimesIs(v.Ptrs(), v.Ptrs());
  }

  /** Entry of a logical block in the list of all pointers; past the list the mapping is
      not supported. */
  function EntryOf(v: Volume, inode: Inode, logical: nat): FsResult<nat>
    requires inode.Valid()
  {
    if logical < |PointerList(v, inode)| then PointerList(v, inode)[logical] else Err(NotSupported)
  }

  /** A logical block's slot leads to its entry in the list. */
  lemma ResolveIsListed(v: Volume, inode: Inode, logical: nat)
    requires v.Valid() && inode.Valid()
    ensures ValidSlot(v, SlotOf(v, logical)) && Resolve(v, inode, SlotOf(v, logical)) == EntryOf(v, inode, logical)
  {
    SlotRoundTrip(v, logical);
    var s := SlotOf(v, logical);
    if s.Double? {
      DoubleIsEntry(v, inode, logical);
    } else if s.Beyond? {
      BeyondIsEntry(v, inode, logical);
    } else if s.Indirect? {
      IndirectEntry(v, inode, s.i);
    }
  }

  lemma DoubleIsEntry(v: Volume, inode: Inode, logical: nat)
    requires v.Valid() && inode.Valid() && SlotOf(v, logical).Double?
    ensures ValidSlot(v, SlotOf(v, logical)) && Resolve(v, inode, SlotOf(v, logical)) == EntryOf(v, inode, logical)
  {
    var l := logical - DIRECT_BLOCKS - v.Ptrs();
    DoubleSlot(v, logical, l);
    DoubleSlotEntry(v, inode, l);
    assert DIRECT_BLOCKS + v.Ptrs() + l == logical;
  }

  lemma DoubleSlot(v: Volume, logical: nat, l: int)
    requires v.Valid() && SlotOf(v, logical).Double? && l == logical - DIRECT_BLOCKS - v.Ptrs()
    ensures 0 <= l < v.Ptrs() * v.Ptrs() && SlotOf(v, logical) == Double(Quot(l, v.Ptrs()), Rem(l, v.Ptrs()))
  {
  }

  lemma BeyondIsEntry(v: Volume, inode: Inode, logical: nat)
    requires v.Valid() && inode.Valid() && SlotOf(v, logical).Beyond?
    ensures EntryOf(v, inode, logical) == Err(NotSupported)
  {
    PointerListLength(v, inode);
  }

  lemma IndirectEntry(v: Volume, inode: Inode, i: nat)
    requires inode.Valid() && i < v.Ptrs()
    ensures DIRECT_BLOCKS + i < |PointerList(v, inode)|
    ensures Resolve(v, inode, Indirect(i)) == PointerList(v, inode)[DIRECT_BLOCKS + i]
  {
    FollowIsListed(v, inode.block[12], i);
  }

  lemma DoubleSlotEntry(v: Volume, inode: Inode, l: nat)
    requires v.Valid() && inode.Valid() && l < v.Ptrs() * v.Ptrs()
    ensures Quot(l, v.Ptrs()) < v.Ptrs() && DIRECT_BLOCKS + v.Ptrs() + l < |PointerList(v, inode)|
    ensures Resolve(v, inode, Double(Quot(l, v.Ptrs()), Rem(l, v.Ptrs())))
         == PointerList(v, inode)[DIRECT_BLOCKS + v.Ptrs() + l]
  {
    DoubleIsListed(v, inode, l);
    DoubleEntry(v, inode, l);
  }

  lemma DoubleEntry(v: Volume, inode: Inode, l: nat)
    requires inode.Valid() && l < |Concat(ListedEach(v, Listed(v, Ok(inode.block[13]))))|
    ensures DIRECT_BLOCKS + v.Ptrs() + l < |PointerList(v, inode)|
    ensures PointerList(v, inode)[DIRECT_BLOCKS + v.Ptrs() + l]
         == Concat(ListedEach(v, Listed(v, Ok(inode.block[13]))))[l]
  {
  }

  // ------------------------------------------------------ file contents

  /** Content of logical block `logical` at offset `o`: zero in a hole. */
  function ByteOfBlock(v: Volume, inode: Inode, logical: nat, o: nat): FsResult<byte>
    requires v.Valid() && inode.Valid() && o < v.BlockSize()
  {
    SlotRoundTrip(v, logical);
    match Resolve(v, inode, SlotOf(v, logical))
    case Err(e) => Err(e)
    case Ok(b) =>
      if b == 0 then Ok(0)
      else if v.OnDisk(b) then Ok(v.BlockByte(b, o))
      else Err(IoError)
  }

  /** The sparse flat file: what position `p` holds. */
  function FileByte(v: Volume, inode: Inode, p: nat): FsResult<byte>
    requires v.Valid() && inode.Valid()
  {
    ByteOfBlock(v, inode, Quot(p, v.BlockSize()), Rem(p, v.BlockSize()))
  }

  /** What the block that a pointer names holds: zeros in a hole. */
  function Contents(v: Volume, b: FsResult<nat>): (bytes: seq<FsResult<byte>>)
    ensures |bytes| == v.BlockSize()
  {
    match b
    case Err(e) => Repeat(Err(e), v.BlockSize())
    case Ok(b) =>
      if b == 0 then Repeat(Ok(0), v.BlockSize())
      else if v.OnDisk(b) then Oks(BlockBytes(v, b))
      else Repeat(Err(IoError), v.BlockSize())
  }

  /** The contents of all blocks, one by one. */
  function ContentsEach(v: Volume, bs: seq<FsResult<nat>>): seq<seq<FsResult<byte>>> {
    seq(|bs|, i requires 0 <= i < |bs| => Contents(v, bs[i]))
  }

  lemma BlockIsContents(v: Volume, inode: Inode, logical: nat, o: nat)
    requires v.Valid() && inode.Valid() && o < v.BlockSize() && logical < |PointerList(v, inode)|
    ensures ByteOfBlock(v, inode, logical, o) == Contents(v, PointerList(v, inode)[logical])[o]
  {
    ResolveIsListed(v, inode, logical);
    var b := PointerList(v, inode)[logical];
    if b.Ok? && b.value != 0 && v.OnDisk(b.value) {
      BlockBytesAt(v, b.value, o);
    }
  }

  /** The file is the contents of its blocks in the order of the pointer list. */
  lemma FileIsContents(v: Volume, inode: Inode, p: nat)
    requires v.Valid() && inode.Valid()
    ensures FileByte(v, inode, p)
         == var bytes := Concat(ContentsEach(v, PointerList(v, inode)));
            if p < |bytes| then bytes[p] else Err(NotSupported)
  {
    var bs := PointerList(v, inode);
    var each := ContentsEach(v, bs);
    ConcatLength(each, v.BlockSize());
    QuotRemTimes(p, v.BlockSize());
    if p < |Concat(each)| {
      ConcatAt(each, v.BlockSize(), p);
      BlockIsContents(v, inode, Quot(p, v.BlockSize()), Rem(p, v.BlockSize()));
    } else {
      PastTheEnd(p, |bs|, v.BlockSize());
      PointerListLength(v, inode);
      UnsupportedBlocks(v, inode, Quot(p, v.BlockSize()), Rem(p, v.BlockSize()));
    }
  }

  lemma PastTheEnd(p: nat, n: nat, m: nat)
    requires m > 0 && p >= Times(n, m)
    ensures Quot(p, m) >= n
  {
    QuotRemTimes(p, m);
    if Quot(p, m) < n {
      TimesMonotone(Quot(p, m) + 1, n, m);
    }
  }

  /** What `read` fetches for position `p`: block numbers are cut to 32 bits. */
  function FetchedByte(v: Volume, inode: Inode, p: nat): FsResult<byte>
    requires v.Valid() && inode.Valid()
  {
    ByteOfBlock(v, inode, Quot(p, v.BlockSize()) % 0x1_0000_0000, Rem(p, v.BlockSize()))
  }

  lemma TripleStartFits(v: Volume)
    requires v.Valid()
    ensures TripleStart(v) < U32
  {
    SquareBound(v.Ptrs());
  }

  lemma SquareBound(m: nat)
    requires m <= 0x4000
    ensures m * m <= 0x1000_0000
  {
    TimesMonotone(m, 0x4000, m);
    TimesIs(m, m);
    TimesIs(0x4000, m);
  }

  lemma UnsupportedBlocks(v: Volume, inode: Inode, logical: nat, o: nat)
    requires v.Valid() && inode.Valid() && o < v.BlockSize()
    ensures ByteOfBlock(v, inode, logical, o) == Err(NotSupported) <==> logical >= TripleStart(v)
  {
    SlotRoundTrip(v, logical);
  }

  /** The block number `read` looks up for position `p`. */
  function CutBlock(v: Volume, p: nat): nat
    requires v.Valid()
  {
    Quot(p, v.BlockSize()) % 0x1_0000_0000
  }

  /** The range reaches an unsupported block before any I/O error. */
  ghost predicate ReachesUnsupported(v: Volume, inode: Inode, offset: nat, want: nat)
    requires v.Valid() && inode.Valid()
  {
    exists i :: 0 <= i < want && UnsupportedAt(v, inode, offset, i)
  }

  ghost predicate UnsupportedAt(v: Volume, inode: Inode, offset: nat, i: nat)
    requires v.Valid() && inode.Valid()
  {
    && CutBlock(v, offset + i) >= TripleStart(v)
    && forall p :: offset <= p < offset + i ==> FetchedByte(v, inode, p) != Err(IoError)
  }

  /** A read fails as unsupported exactly when its range reaches a block whose
      number lies in the triple-indirect area before any I/O error. */
  lemma NotSupportedIff(v: Volume, inode: Inode, offset: nat, want: nat, r: FsResult<nat>)
    requires v.Valid() && inode.Valid()
    requires r.Ok? ==> forall p :: offset <= p < offset + want ==> FetchedByte(v, inode, p).Ok?
    requires r.Err? ==> exists i :: 0 <= i < want && FirstError(v, inode, offset, i, r.error)
    ensures r == Err(NotSupported) <==> ReachesUnsupported(v, inode, offset, want)
  {
    if r == Err(NotSupported) {
      var i: nat :| i < want && FirstError(v, inode, offset, i, NotSupported);
      FetchedUnsupported(v, inode, offset + i);
      assert UnsupportedAt(v, inode, offset, i);
    }
    if ReachesUnsupported(v, inode, offset, want) {
      var i: nat :| i < want && UnsupportedAt(v, inode, offset, i);
      FetchedUnsupported(v, inode, offset + i);
      var j: nat :| j < want && FirstError(v, inode, offset, j, r.error);
      FetchedUnsupported(v, inode, offset + j);
    }
  }

  /** A position fails as unsupported or with an I/O error, or not at all. */
  lemma FetchedUnsupported(v: Volume, inode: Inode, p: nat)
    requires v.Valid() && inode.Valid()
    ensures FetchedByte(v, inode, p) == Err(NotSupported) <==> CutBlock(v, p) >= TripleStart(v)
    ensures FetchedByte(v, inode, p) in {Err(NotSupported), Err(IoError)} || FetchedByte(v, inode, p).Ok?
  {
    UnsupportedBlocks(v, inode, CutBlock(v, p), Rem(p, v.BlockSize()));
  }

  /** The fetched byte is the file's byte exactly when the block number fits in
      32 bits or its low 32 bits are out of the mapped area as well. */
  lemma FetchIsFileByteIff(v: Volume, inode: Inode, p: nat)
    requires v.Valid() && inode.Valid()
    ensures FetchedByte(v, inode, p) == FileByte(v, inode, p)
       <==> Quot(p, v.BlockSize()) < U32 || Quot(p, v.BlockSize()) % 0x1_0000_0000 >= TripleStart(v)
  {
    TripleStartFits(v);
    CutBlockNumber(v, inode, Quot(p, v.BlockSize()), Rem(p, v.BlockSize()));
  }

  lemma CutBlockNumber(v: Volume, inode: Inode, logical: nat, o: nat)
    requires v.Valid() && inode.Valid() && o < v.BlockSize() && TripleStart(v) < U32
    ensures ByteOfBlock(v, inode, logical % 0x1_0000_0000, o) == ByteOfBlock(v, inode, logical, o)
       <==> logical < U32 || logical % 0x1_0000_0000 >= TripleStart(v)
  {
    var low := logical % 0x1_0000_0000;
    if logical < U32 {
      assert low == logical;
    } else {
      UnsupportedBlocks(v, inode, logical, o);
      UnsupportedBlocks(v, inode, low, o);
      CutAgrees(ByteOfBlock(v, inode, low, o), ByteOfBlock(v, inode, logical, o), low, logical, TripleStart(v));
    }
  }

  lemma CutAgrees(cut: FsResult<byte>, full: FsResult<byte>, low: nat, logical: nat, limit: nat)
    requires cut == Err(NotSupported) <==> low >= limit
    requires full == Err(NotSupported) <==> logical >= limit
    requires limit < U32 <= logical
    ensures cut == full <==> low >= limit
  {
  }

  /** The cut is reached by a file whose size fields are 32-bit: with 1 KiB blocks
      and a size of 2^44, position 2^42 is read from block 0. */
  lemma CutReached()
    ensures var v := Volume([], 2);
            var inode := Inode(true, 0, 0x1000, seq(15, _ => 0));
            var p := 0x400_0000_0000;
            && v.Valid() && inode.Valid() && p < inode.FileSize()
            && FileByte(v, inode, p) == Err(NotSupported) && FetchedByte(v, inode, p) == Ok(0)
  {
    var v := Volume([], 2);
    var inode := Inode(true, 0, 0x1000, seq(15, _ => 0));
    var p := 0x400_0000_0000;
    QuotRemAre(p, 1024);
    assert Quot(p, v.BlockSize()) == U32 && Rem(p, v.BlockSize()) == 0;
    TripleStartFits(v);
    UnsupportedBlocks(v, inode, U32, 0);
    assert SlotOf(v, 0) == Direct(0);
  }

  // ------------------------------------------------------------- methods

  method ReadBlock(v: Volume, b: nat, buffer: array<byte>) returns (r: FsResult<()>)
    requires v.Valid() && buffer.Length == v.BlockSize()
    modifies buffer
    ensures r == if v.OnDisk(b) then Ok(()) else Err(IoError)
    ensures r.Ok? ==> forall o: nat :: o < v.BlockSize() ==> buffer[o] == v.BlockByte(b, o)
  {
    var startSector := b * v.sectorsPerBlock;
    for i := 0 to v.sectorsPerBlock
      invariant startSector + i <= |v.disk| || i == 0
      invariant Loaded(v.disk, startSector, buffer[..], i)
    {
      if startSector + i >= |v.disk| {
        return Err(IoError);
      }
      ReadSector(v.disk, startSector, i, buffer);
    }
    return Ok(());
  }

  method ReadPointer(v: Volume, b: nat, i: nat, buffer: array<byte>) returns (r: FsResult<nat>)
    requires v.Valid() && buffer.Length == v.BlockSize() && i < v.Ptrs() && b != 0
    modifies buffer
    ensures r == Follow(v, b, i)
  {
    var got := ReadBlock(v, b, buffer);
    if got.Err? {
      return Err(got.error);
    }
    var o := i * 4;
    var b0: int, b1: int, b2: int, b3: int := buffer[o], buffer[o + 1], buffer[o + 2], buffer[o + 3];
    return Ok(b0 + 0x100 * b1 + 0x1_0000 * b2 + 0x100_0000 * b3);
  }

  /** Logical to physical block number: the entry in the list of all pointers. */
  method GetBlockNum(v: Volume, inode: Inode, logicalBlock: nat) returns (r: FsResult<nat>)
    requires v.Valid() && inode.Valid()
    ensures ValidSlot(v, SlotOf(v, logicalBlock)) && r == Resolve(v, inode, SlotOf(v, logicalBlock))
    ensures r == if logicalBlock < |PointerList(v, inode)| then PointerList(v, inode)[logicalBlock]
                 else Err(NotSupported)
  {
    r := FollowSlot(v, inode, logicalBlock);
    ResolveIsListed(v, inode, logicalBlock);
  }

  /** The branches of the mapping. */
  method FollowSlot(v: Volume, inode: Inode, logicalBlock: nat) returns (r: FsResult<nat>)
    requires v.Valid() && inode.Valid()
    ensures ValidSlot(v, SlotOf(v, logicalBlock)) && r == Resolve(v, inode, SlotOf(v, logicalBlock))
  {
    SlotRoundTrip(v, logicalBlock);
    var ptrsPerBlock := v.BlockSize() / 4;
    if logicalBlock < DIRECT_BLOCKS {
      return Ok(inode.block[logicalBlock]);
    }
    var logical := logicalBlock - DIRECT_BLOCKS;
    if logical < ptrsPerBlock {
      var indirectBlock := inode.block[INDIRECT_BLOCK];
      if indirectBlock == 0 {
        return Ok(0);
      }
      var buffer := new byte[v.BlockSize()](_ => 0);
      r := ReadPointer(v, indirectBlock, logical, buffer);
      return;
    }
    logical := logical - ptrsPerBlock;
    if logical < ptrsPerBlock * ptrsPerBlock {
      r := DoubleIndirect(v, inode, logical);
      return;
    }
    return Err(NotSupported);
  }

  /** The double-indirect branch of the mapping. */
  method DoubleIndirect(v: Volume, inode: Inode, logical: nat) returns (r: FsResult<nat>)
    requires v.Valid() && inode.Valid() && logical < v.Ptrs() * v.Ptrs()
    ensures Quot(logical, v.Ptrs()) < v.Ptrs()
    ensures r == Resolve(v, inode, Double(Quot(logical, v.Ptrs()), Rem(logical, v.Ptrs())))
  {
    QuotBound(logical, v.Ptrs());
    QuotRemAre(logical, v.Ptrs());
    var doubleIndirectBlock := inode.block[DOUBLE_INDIRECT_BLOCK];
    if doubleIndirectBlock == 0 {
      return Ok(0);
    }
    var buffer := new byte[v.BlockSize()](_ => 0);
    var firstIndex := logical / v.Ptrs();
    var secondIndex := logical % v.Ptrs();
    var outer := ReadPointer(v, doubleIndirectBlock, firstIndex, buffer);
    if outer.Err? || outer.value == 0 {
      return outer;
    }
    r := ReadPointer(v, outer.value, secondIndex, buffer);
  }

  /** `data` is what the positions from `offset` on fetch. */
  ghost predicate Fetched(v: Volume, inode: Inode, offset: nat, data: seq<byte>)
    requires v.Valid() && inode.Valid()
  {
    forall i :: 0 <= i < |data| ==> FetchedByte(v, inode, offset + i) == Ok(data[i])
  }

  /** A piece of one block continues what was fetched before. */
  lemma FetchedPiece(v: Volume, inode: Inode, offset: nat, got: seq<byte>, piece: seq<byte>)
    requires v.Valid() && inode.Valid() && Fetched(v, inode, offset, got)
    requires Rem(offset + |got|, v.BlockSize()) + |piece| <= v.BlockSize()
    requires forall j: nat :: j < |piece| ==>
               ByteOfBlock(v, inode, Quot(offset + |got|, v.BlockSize()) % 0x1_0000_0000,
                           Rem(offset + |got|, v.BlockSize()) + j)
               == Ok(piece[j])
    ensures Fetched(v, inode, offset, got + piece)
  {
    var all := got + piece;
    forall i | 0 <= i < |all|
      ensures FetchedByte(v, inode, offset + i) == Ok(all[i])
    {
      if i < |got| {
        assert FetchedByte(v, inode, offset + i) == Ok(got[i]);
      } else {
        var j := i - |got|;
        assert ByteOfBlock(v, inode, Quot(offset + |got|, v.BlockSize()) % 0x1_0000_0000,
                           Rem(offset + |got|, v.BlockSize()) + j)
            == Ok(piece[j]);
        Advance(offset + |got|, j, v.BlockSize());
        assert offset + |got| + j == offset + i;
      }
    }
  }

  /** What block `b` holds is the next piece when the position resolves to `b`. */
  lemma BlockPiece(v: Volume, inode: Inode, offset: nat, got: seq<byte>, piece: seq<byte>, logical: nat, b: nat)
    requires v.Valid() && inode.Valid() && Fetched(v, inode, offset, got)
    requires Rem(offset + |got|, v.BlockSize()) + |piece| <= v.BlockSize()
    requires logical == Quot(offset + |got|, v.BlockSize()) % 0x1_0000_0000
    requires ValidSlot(v, SlotOf(v, logical)) && Resolve(v, inode, SlotOf(v, logical)) == Ok(b)
    requires (b == 0 || v.OnDisk(b)) && Holds(v, b, Rem(offset + |got|, v.BlockSize()), piece)
    ensures Fetched(v, inode, offset, got + piece)
  {
    FetchedPiece(v, inode, offset, got, piece);
  }

  /** Block number of a position, cut to 32 bits, and the offset in the block. */
  method Locate(v: Volume, position: nat) returns (logicalBlock: nat, blockOffset: nat)
    requires v.Valid()
    ensures logicalBlock == Quot(position, v.BlockSize()) % 0x1_0000_0000 && blockOffset == Rem(position, v.BlockSize())
  {
    QuotRemAre(position, v.BlockSize());
    logicalBlock := position / v.BlockSize() % 0x1_0000_0000;
    blockOffset := position % v.BlockSize();
  }

  /** The block that holds a position. */
  method BlockAt(v: Volume, inode: Inode, position: nat) returns (physical: FsResult<nat>, blockOffset: nat)
    requires v.Valid() && inode.Valid()
    ensures blockOffset == Rem(position, v.BlockSize())
    ensures ValidSlot(v, SlotOf(v, CutBlock(v, position)))
    ensures physical == Resolve(v, inode, SlotOf(v, CutBlock(v, position)))
  {
    var logicalBlock;
    logicalBlock, blockOffset := Locate(v, position);
    physical := GetBlockNum(v, inode, logicalBlock);
  }

  /** One round of `read`: put the rest of the current block, or zeros for a
      hole, into `buf`. */
  method ReadPiece(v: Volume, inode: Inode, offset: nat, bytesRead: nat, left: nat, buf: array<byte>)
    returns (r: FsResult<nat>)
    requires v.Valid() && inode.Valid() && 0 < left && bytesRead + left <= buf.Length
    requires Fetched(v, inode, offset, buf[..bytesRead])
    modifies buf
    ensures r.Err? ==> FetchedByte(v, inode, offset + bytesRead) == Err(r.error)
    ensures r.Ok? ==>
              && 0 < r.value <= left
              && Rem(offset + bytesRead, v.BlockSize()) + r.value <= v.BlockSize()
              && Fetched(v, inode, offset, buf[..bytesRead + r.value])
              && buf[bytesRead + r.value..] == old(buf[bytesRead + r.value..])
  {
    var blockSize := v.BlockSize();
    var physical, blockOffset := BlockAt(v, inode, offset + bytesRead);
    if physical.Err? {
      return Err(physical.error);
    }
    var available := if blockSize - blockOffset < left then blockSize - blockOffset else left;
    ghost var got := buf[..bytesRead];
    var read := CopyPiece(v, physical.value, blockOffset, available, buf, bytesRead);
    if read.Err? {
      return Err(read.error);
    }
    ghost var piece := buf[bytesRead..bytesRead + available];
    BlockPiece(v, inode, offset, got, piece, CutBlock(v, offset + bytesRead), physical.value);
    assert buf[..bytesRead + available] == got + piece;
    return Ok(available);
  }

  /** `data` is what block `b` holds from `from` on; a hole holds zeros. */
  ghost predicate Holds(v: Volume, b: nat, from: nat, data: seq<byte>)
    requires v.Valid() && from + |data| <= v.BlockSize() && (b == 0 || v.OnDisk(b))
  {
    forall j: nat :: j < |data| ==> data[j] == if b == 0 then 0 else v.BlockByte(b, from + j)
  }

  /** Copies bytes of a block, or zeros for a hole, into the buffer. */
  method CopyPiece(v: Volume, b: nat, from: nat, n: nat, buf: array<byte>, at: nat) returns (r: FsResult<()>)
    requires v.Valid() && from + n <= v.BlockSize() && at + n <= buf.Length
    modifies buf
    ensures r == if b == 0 || v.OnDisk(b) then Ok(()) else Err(IoError)
    ensures buf[..at] == old(buf[..at]) && buf[at + n..] == old(buf[at + n..])
    ensures r.Ok? ==> Holds(v, b, from, buf[at..at + n])
  {
    if b == 0 {
      ZeroSlice(buf, at, n);
      return Ok(());
    }
    var blockBuffer := new byte[v.BlockSize()](_ => 0);
    r := ReadBlock(v, b, blockBuffer);
    if r.Ok? {
      CopySlice(blockBuffer, from, buf, at, n);
    }
  }

  /** Fills `buf` from position `offset`. Never short: it delivers everything
      wanted, or the error of the first position that cannot be fetched. */
  method Read(v: Volume, inode: Inode, offset: nat, buf: array<byte>) returns (r: FsResult<nat>)
    requires v.Valid() && inode.Valid()
    modifies buf
    ensures var size := inode.FileSize();
            var want := if offset >= size then 0 else if buf.Length < size - offset then buf.Length else size - offset;
            match r
            case Ok(n) => n == want && Fetched(v, inode, offset, buf[..n]) && buf[n..] == old(buf[..])[n..]
            case Err(e) =>
              && (exists i :: 0 <= i < want && FirstError(v, inode, offset, i, e))
              && (e == NotSupported <==> ReachesUnsupported(v, inode, offset, want))
    ensures r.Ok? ==> !ReachesUnsupported(v, inode, offset, r.value)
  {
    var size := inode.FileSize();
    if offset >= size {
      return Ok(0);
    }
    var toRead := if buf.Length < size - offset then buf.Length else size - offset;
    var bytesRead := 0;
    while bytesRead < toRead
      invariant bytesRead <= toRead && Fetched(v, inode, offset, buf[..bytesRead])
      invariant buf[bytesRead..] == old(buf[..])[bytesRead..]
    {
      ghost var before := buf[..bytesRead];
      var piece := ReadPiece(v, inode, offset, bytesRead, toRead - bytesRead, buf);
      if piece.Err? {
        FetchedIsOk(v, inode, offset, before);
        assert FirstError(v, inode, offset, bytesRead, piece.error);
        NotSupportedIff(v, inode, offset, toRead, Err(piece.error));
        return Err(piece.error);
      }
      bytesRead := bytesRead + piece.value;
    }
    FetchedIsOk(v, inode, offset, buf[..bytesRead]);
    NotSupportedIff(v, inode, offset, toRead, Ok(bytesRead));
    return Ok(bytesRead);
  }

  /** Position `offset + i` is the first that fails, with error `e`. */
  ghost predicate FirstError(v: Volume, inode: Inode, offset: nat, i: nat, e: FsError)
    requires v.Valid() && inode.Valid()
  {
    && (forall p :: offset <= p < offset + i ==> FetchedByte(v, inode, p).Ok?)
    && FetchedByte(v, inode, offset + i) == Err(e)
  }

  lemma FetchedIsOk(v: Volume, inode: Inode, offset: nat, data: seq<byte>)
    requires v.Valid() && inode.Valid() && Fetched(v, inode, offset, data)
    ensures forall p :: offset <= p < offset + |data| ==> FetchedByte(v, inode, p).Ok?
  {
    forall p | offset <= p < offset + |data|
      ensures FetchedByte(v, inode, p).Ok?
    {
      assert FetchedByte(v, inode, offset + (p - offset)) == Ok(data[p - offset]);
    }
  }

  /** `data` is what the sparse flat file holds from `offset` on. */
  ghost predicate InFile(v: Volume, inode: Inode, offset: nat, data: seq<byte>)
    requires v.Valid() && inode.Valid()
  {
    forall i :: 0 <= i < |data| ==> FileByte(v, inode, offset + i) == Ok(data[i])
  }

  /** Within the first 2^32 blocks what is fetched is the sparse flat file. */
  lemma FetchedIsFile(v: Volume, inode: Inode, offset: nat, data: seq<byte>, last: nat)
    requires v.Valid() && inode.Valid() && offset + |data| <= last + 1 && Quot(last, v.BlockSize()) < U32
    ensures Fetched(v, inode, offset, data) <==> InFile(v, inode, offset, data)
  {
    forall i | 0 <= i < |data|
      ensures FetchedByte(v, inode, offset + i) == Ok(data[i]) <==> FileByte(v, inode, offset + i) == Ok(data[i])
    {
      FetchedBelow(v, inode, offset + i, last);
    }
  }

  lemma FetchedBelow(v: Volume, inode: Inode, p: nat, last: nat)
    requires v.Valid() && inode.Valid() && p <= last && Quot(last, v.BlockSize()) < U32
    ensures FetchedByte(v, inode, p) == FileByte(v, inode, p)
  {
    QuotMonotone(p, last, v.BlockSize());
    FetchIsFileByteIff(v, inode, p);
  }
}
