/** The mounted FAT32 file system: a cached table mirrored by two on-disk copies,
    cluster allocation and release, and reading a file along its chain. The
    device is an array of 512-byte sectors that never fails in range. */
module Fat32 {
  import opened Chunks
  import opened Fat32Table
  import opened Storage
  import opened Wrappers
  import opened Words

  const BLOCK_SIZE: nat := 512

  /** Where the two FAT copies and the data area lie. */
  datatype Geometry = Geometry(fatStart: nat, fatSize: nat, dataStart: nat, sectorsPerCluster: nat) {
    predicate Fits(disk: Disk) {
      && 0 < fatSize && 0 < sectorsPerCluster
      && fatStart + 2 * fatSize <= dataStart && fatStart + 2 * fatSize <= |disk|
      && fatSize * 128 < 0x1_0000_0000 && |disk| < 0x1_0000_0000
    }

    function Entries(): nat { fatSize * 128 }

    function ClusterSize(): nat { sectorsPerCluster * 512 }
  }

  // ----------------------------------------------------- entries on disk

  /** Entry `idx` of the FAT copy that starts at sector `base`. */
  function EntryAt(disk: Disk, base: nat, idx: nat): nat
    requires base + idx / 128 < |disk|
  {
    SectorEntry(disk[base + idx / 128], idx % 128)
  }

  /** The table is the copy's bytes, read as little-endian 32-bit numbers. */
  lemma EntryIsWord(disk: Disk, base: nat, n: nat, idx: nat)
    requires base + n <= |disk| && idx < n * 128
    ensures EntryAt(disk, base, idx)
         == LittleEndian(SectorBytes(disk[base..base + n])[4 * idx..4 * idx + 4]) % ENTRY_LIMIT
  {
    var sectors := disk[base..base + n];
    var sector, o := disk[base + idx / 128], idx % 128 * 4;
    WordInSector(sectors, idx);
    assert sector[o..o + 4] == [sector[o], sector[o + 1], sector[o + 2], sector[o + 3]];
    DecodeIsLittleEndian(sector[o], sector[o + 1], sector[o + 2], sector[o + 3]);
  }

  /** Entry `j` of one sector of the table. */
  function SectorEntry(s: Sector, j: nat): nat
    requires j < 128
  {
    Decode(s[j * 4], s[j * 4 + 1], s[j * 4 + 2], s[j * 4 + 3])
  }

  /** The entries of the first `n` sectors have been decoded into `table`. */
  ghost predicate Decoded(disk: Disk, base: nat, table: seq<nat>, n: nat)
    requires base + n <= |disk| && n * 128 <= |table|
  {
    forall k :: 0 <= k < n * 128 ==> table[k] == EntryAt(disk, base, k)
  }

  lemma DecodedOneMore(disk: Disk, base: nat, was: seq<nat>, table: seq<nat>, n: nat, sector: Sector)
    requires base + n < |disk| && sector == disk[base + n]
    requires n * 128 + 128 <= |was| == |table| && Decoded(disk, base, was, n)
    requires forall k :: 0 <= k < n * 128 ==> table[k] == was[k]
    requires forall j :: 0 <= j < 128 ==> table[n * 128 + j] == SectorEntry(sector, j)
    ensures Decoded(disk, base, table, n + 1)
  {
    forall k | 0 <= k < n * 128 + 128
      ensures table[k] == EntryAt(disk, base, k)
    {
      if k >= n * 128 {
        var j := k - n * 128;
        assert table[n * 128 + j] == SectorEntry(sector, j);
        assert k / 128 == n && k % 128 == j;
      }
    }
  }

  function PutBytes(s: Sector, o: nat, bytes: seq<byte>): Sector
    requires |bytes| == 4 && o + 4 <= 512
  {
    s[..o] + bytes + s[o + 4..]
  }

  /** Both copies after the four bytes of entry `idx` have been written. */
  function WriteBytes(g: Geometry, disk: Disk, idx: nat, bytes: seq<byte>): (d: Disk)
    requires g.Fits(disk) && idx < g.Entries() && |bytes| == 4
    ensures g.Fits(d) && SameOutside(g, disk, d)
  {
    var s := g.fatStart + idx / 128;
    var sector := PutBytes(disk[s], idx % 128 * 4, bytes);
    disk[s := sector][s + g.fatSize := sector]
  }

  /** Both copies after entry `idx` has been written. */
  function WriteEntry(g: Geometry, disk: Disk, idx: nat, value: nat): Disk
    requires g.Fits(disk) && idx < g.Entries()
  {
    WriteBytes(g, disk, idx, Encode(value))
  }

  /** Nothing but sectors of the two copies differs. */
  predicate SameOutside(g: Geometry, was: Disk, now: Disk) {
    && |now| == |was|
    && forall s :: 0 <= s < |was| && !(g.fatStart <= s < g.fatStart + 2 * g.fatSize) ==> now[s] == was[s]
  }

  /** The copies agree byte for byte. */
  ghost predicate CopiesAgree(g: Geometry, disk: Disk)
    requires g.Fits(disk)
  {
    forall s :: g.fatStart <= s < g.fatStart + g.fatSize ==> disk[s] == disk[s + g.fatSize]
  }

  /** The cache is the decoded table of both copies, which agree byte for byte. */
  ghost predicate Mirrored(g: Geometry, disk: Disk, fat: seq<nat>) {
    && g.Fits(disk) && |fat| == g.Entries()
    && CopiesAgree(g, disk)
    && (forall i :: 0 <= i < |fat| ==> fat[i] == EntryAt(disk, g.fatStart, i))
  }

  lemma EntrySlot(g: Geometry, disk: Disk, i: nat)
    requires g.Fits(disk) && i < g.Entries()
    ensures i / 128 < g.fatSize && g.fatStart + g.fatSize + i / 128 < |disk|
  {
  }

  lemma WriteBytesReads(g: Geometry, disk: Disk, idx: nat, bytes: seq<byte>, i: nat)
    requires g.Fits(disk) && idx < g.Entries() && i < g.Entries() && |bytes| == 4
    ensures var d := WriteBytes(g, disk, idx, bytes);
            && g.Fits(d)
            && EntryAt(d, g.fatStart, i)
            == if i == idx then Decode(bytes[0], bytes[1], bytes[2], bytes[3]) else EntryAt(disk, g.fatStart, i)
  {
    var d := WriteBytes(g, disk, idx, bytes);
    EntrySlot(g, disk, i);
    EntrySlot(g, disk, idx);
    var s := g.fatStart + i / 128;
    if i == idx {
    } else if i / 128 == idx / 128 {
      PutElsewhere(disk[s], idx % 128, i % 128, bytes);
    } else {
      assert d[s] == disk[s];
    }
  }

  /** A write changes the decoded value of its own entry and of no other. */
  lemma WriteEntryReads(g: Geometry, disk: Disk, idx: nat, value: nat, i: nat)
    requires g.Fits(disk) && idx < g.Entries() && i < g.Entries()
    ensures var d := WriteEntry(g, disk, idx, value);
            && g.Fits(d)
            && EntryAt(d, g.fatStart, i) == if i == idx then value % ENTRY_LIMIT else EntryAt(disk, g.fatStart, i)
  {
    EncodeDecode(value);
    WriteBytesReads(g, disk, idx, Encode(value), i);
  }

  /** Writing slot `p` of a sector leaves the bytes of slot `q` alone. */
  lemma PutElsewhere(s: Sector, p: nat, q: nat, bytes: seq<byte>)
    requires p < 128 && q < 128 && p != q && |bytes| == 4
    ensures forall x :: q * 4 <= x < q * 4 + 4 ==> PutBytes(s, p * 4, bytes)[x] == s[x]
  {
  }

  lemma WriteKeepsCopies(g: Geometry, disk: Disk, idx: nat, bytes: seq<byte>, s: nat)
    requires g.Fits(disk) && idx < g.Entries() && |bytes| == 4 && g.fatStart <= s < g.fatStart + g.fatSize
    requires disk[s] == disk[s + g.fatSize]
    ensures WriteBytes(g, disk, idx, bytes)[s] == WriteBytes(g, disk, idx, bytes)[s + g.fatSize]
  {
    EntrySlot(g, disk, idx);
  }

  /** Cache and copies agree when the cache takes the value the bytes stand for. */
  lemma BytesKeepMirror(g: Geometry, disk: Disk, fat: seq<nat>, idx: nat, bytes: seq<byte>, value: nat)
    requires Mirrored(g, disk, fat) && idx < g.Entries() && |bytes| == 4
    requires value == Decode(bytes[0], bytes[1], bytes[2], bytes[3])
    ensures Mirrored(g, WriteBytes(g, disk, idx, bytes), fat[idx := value])
  {
    var d := WriteBytes(g, disk, idx, bytes);
    forall i | 0 <= i < |fat|
      ensures EntryAt(d, g.fatStart, i) == fat[idx := value][i]
    {
      WriteBytesReads(g, disk, idx, bytes, i);
    }
    forall s | g.fatStart <= s < g.fatStart + g.fatSize
      ensures d[s] == d[s + g.fatSize]
    {
      WriteKeepsCopies(g, disk, idx, bytes, s);
    }
  }

  lemma WriteKeepsMirror(g: Geometry, disk: Disk, fat: seq<nat>, idx: nat, value: nat)
    requires Mirrored(g, disk, fat) && idx < g.Entries() && value < ENTRY_LIMIT
    ensures Mirrored(g, WriteEntry(g, disk, idx, value), fat[idx := value])
  {
    EncodeDecode(value);
    BytesKeepMirror(g, disk, fat, idx, Encode(value), value);
  }

  /** Mirroring survives a write exactly when the value fits in 28 bits. */
  lemma WriteKeepsMirrorIff(g: Geometry, disk: Disk, fat: seq<nat>, idx: nat, value: nat)
    requires Mirrored(g, disk, fat) && idx < g.Entries()
    ensures Mirrored(g, WriteEntry(g, disk, idx, value), fat[idx := value]) <==> value < ENTRY_LIMIT
  {
    if value < ENTRY_LIMIT {
      WriteKeepsMirror(g, disk, fat, idx, value);
    } else {
      WriteEntryReads(g, disk, idx, value, idx);
      assert fat[idx := value][idx] != EntryAt(WriteEntry(g, disk, idx, value), g.fatStart, idx);
    }
  }

  /** Outside the four bytes of the entry the first copy and everything beyond
      the two copies keep their bytes; the second copy's sector follows the first. */
  lemma WriteEntryTouches(g: Geometry, disk: Disk, idx: nat, value: nat, s: nat, o: nat)
    requires g.Fits(disk) && idx < g.Entries() && s < |disk| && o < 512
    ensures var d := WriteEntry(g, disk, idx, value);
            var home := g.fatStart + idx / 128;
            && |d| == |disk|
            && (s == home + g.fatSize ==> d[s] == d[home])
            && (s != home + g.fatSize && !(s == home && idx % 128 * 4 <= o < idx % 128 * 4 + 4) ==>
                  d[s][o] == disk[s][o])
  {
    EntrySlot(g, disk, idx);
  }

  /** The four reserved bits above entry `idx` in the copy that starts at `base`. */
  function ReservedBits(disk: Disk, base: nat, idx: nat): nat
    requires base + idx / 128 < |disk|
  {
    disk[base + idx / 128][idx % 128 * 4 + 3] / 16
  }

  /** The specification asks that an entry's reserved bits survive a write. They
      are cleared in both copies, so they survive exactly where they were zero. */
  lemma ReservedKeptIff(g: Geometry, disk: Disk, idx: nat, value: nat, copy: nat)
    requires g.Fits(disk) && idx < g.Entries() && copy < 2
    ensures var base := g.fatStart + copy * g.fatSize;
            var d := WriteEntry(g, disk, idx, value);
            && base + idx / 128 < |d| == |disk|
            && ReservedBits(d, base, idx) == 0
            && (ReservedBits(d, base, idx) == ReservedBits(disk, base, idx) <==>
                disk[base + idx / 128][idx % 128 * 4 + 3] < 16)
  {
    EntrySlot(g, disk, idx);
    TopByte(value);
    WrittenByte(g, disk, idx, Encode(value));
    assert copy == 0 || copy == 1;
  }

  lemma TopByte(value: nat)
    ensures Encode(value)[3] < 16
  {
  }

  /** The last of the four bytes, in the first copy and in the second. */
  lemma WrittenByte(g: Geometry, disk: Disk, idx: nat, bytes: seq<byte>)
    requires g.Fits(disk) && idx < g.Entries() && |bytes| == 4
    ensures var d := WriteBytes(g, disk, idx, bytes);
            var home, o := g.fatStart + idx / 128, idx % 128 * 4 + 3;
            && home + g.fatSize < |d| == |disk|
            && d[home][o] == d[home + g.fatSize][o] == bytes[3]
  {
    EntrySlot(g, disk, idx);
  }

  /** The first copy's reserved bits above entry `idx` are as before. */
  ghost predicate KeepsReserved(g: Geometry, was: Disk, now: Disk, idx: nat)
    requires g.fatStart + idx / 128 < |was| && g.fatStart + idx / 128 < |now|
  {
    ReservedBits(now, g.fatStart, idx) == ReservedBits(was, g.fatStart, idx)
  }

  /** A volume on which it matters: entry 2 carries a reserved bit. */
  lemma ReservedLost(value: nat)
    ensures var g := Geometry(0, 1, 2, 1);
            var sector: Sector := seq(512, o => if o == 11 then 0x10 else 0);
            var disk: Disk := [sector, sector];
            && g.Fits(disk)
            && ReservedBits(disk, 0, 2) == 1
            && ReservedBits(WriteEntry(g, disk, 2, value), 0, 2) == 0
  {
    var g := Geometry(0, 1, 2, 1);
    var sector: Sector := seq(512, o => if o == 11 then 0x10 else 0);
    ReservedKeptIff(g, [sector, sector], 2, value, 0);
  }

  /** A mirrored cache is what reading either copy back would give. */
  lemma MirrorDecodesBothCopies(g: Geometry, disk: Disk, fat: seq<nat>, i: nat)
    requires Mirrored(g, disk, fat) && i < |fat|
    ensures g.fatStart + g.fatSize + i / 128 < |disk|
    ensures fat[i] == EntryAt(disk, g.fatStart, i) == EntryAt(disk, g.fatStart + g.fatSize, i)
    ensures fat[i] < ENTRY_LIMIT
  {
    EntrySlot(g, disk, i);
  }

  // ------------------------------------------------------ walking a file

  /** The `k`-th cluster reached from `first` by following table entries, or
      the error met on the way. */
  function Walk(fat: seq<nat>, first: nat, k: nat): FsResult<nat> {
    if k == 0 then Ok(first)
    else match Walk(fat, first, k - 1)
      case Err(e) => Err(e)
      case Ok(c) =>
        if c >= |fat| then Err(InvalidArgument)
        else if !IsValid(fat[c]) then Err(IoError)
        else Ok(fat[c])
  }

  /** Whether and how a walk fails is decided by the first cluster that has no entry or
      whose entry is no cluster. */
  lemma {:induction false} WalkFailsAt(fat: seq<nat>, first: nat, k: nat) returns (j: nat)
    requires Walk(fat, first, k).Err?
    ensures j < k && Walk(fat, first, j).Ok?
    ensures var c := Walk(fat, first, j).value;
            if c >= |fat| then Walk(fat, first, k) == Err(InvalidArgument)
            else !IsValid(fat[c]) && Walk(fat, first, k) == Err(IoError)
  {
    if Walk(fat, first, k - 1).Err? {
      j := WalkFailsAt(fat, first, k - 1);
    } else {
      j := k - 1;
    }
  }

  function FirstSector(g: Geometry, c: nat): nat
    requires c >= 2
  {
    g.dataStart + (c - 2) * g.sectorsPerCluster
  }

  /** The number of the cluster's first sector can be computed in 32 bits. */
  predicate SectorFits(g: Geometry, c: nat) { c >= 2 && FirstSector(g, c) < 0x1_0000_0000 }

  predicate OnDisk(g: Geometry, disk: Disk, c: nat) {
    c >= 2 && FirstSector(g, c) + g.sectorsPerCluster <= |disk|
  }

  /** Byte `o` of cluster `c`. */
  function ClusterByte(g: Geometry, disk: Disk, c: nat, o: nat): byte
    requires OnDisk(g, disk, c) && o < g.ClusterSize()
  {
    disk[FirstSector(g, c) + o / 512][o % 512]
  }

  /** Clusters lie end to end from the start of the data area on. */
  lemma ClustersEndToEnd(g: Geometry, c: nat)
    requires c >= 2
    ensures FirstSector(g, 2) == g.dataStart
    ensures FirstSector(g, c + 1) == FirstSector(g, c) + g.sectorsPerCluster
  {
    assert (c + 1 - 2) * g.sectorsPerCluster == (c - 2) * g.sectorsPerCluster + g.sectorsPerCluster;
  }

  /** What lies outside the two copies includes every cluster. */
  lemma ClustersKept(g: Geometry, was: Disk, now: Disk, c: nat, o: nat)
    requires g.Fits(was) && SameOutside(g, was, now) && OnDisk(g, was, c) && o < g.ClusterSize()
    ensures OnDisk(g, now, c) && ClusterByte(g, now, c, o) == ClusterByte(g, was, c, o)
  {
    assert FirstSector(g, c) >= g.dataStart by { assert (c - 2) * g.sectorsPerCluster >= 0; }
    assert o / 512 < g.sectorsPerCluster;
  }

  /** Both copies after a chain has been freed. */
  ghost function FreeChainOnDisk(g: Geometry, disk: Disk, fat: seq<nat>, start: nat): (d: Disk)
    requires g.Fits(disk) && |fat| == g.Entries()
    ensures g.Fits(d) && SameOutside(g, disk, d)
    decreases |fat| - CountFree(fat), if IsValid(start) then 1 else 0
  {
    if !IsValid(start) || start >= |fat| then disk
    else
      CountFreeUpdate(fat, start, FREE);
      FreeChainOnDisk(g, WriteEntry(g, disk, start, FREE), fat[start := FREE], fat[start])
  }

  class Fat32FileSystem {
    const geometry: Geometry
    var disk: Disk
    var fat: seq<nat>
    var freeClusters: nat

    /** A table of the volume's size is in the cache. */
    ghost predicate Mounted()
      reads this
    {
      geometry.Fits(disk) && |fat| == geometry.Entries()
    }

    /** The cache and the two copies agree. */
    ghost predicate Valid()
      reads this
    {
      Mirrored(geometry, disk, fat)
    }

    /** The counter agrees with the table. */
    ghost predicate CountExact()
      reads this
    {
      freeClusters == CountFree(fat)
    }

    /** Mount: only the first copy is read, so the cache mirrors both exactly when
        they agree. */
    constructor (geometry: Geometry, disk: Disk)
      requires geometry.Fits(disk)
      ensures Mounted() && CountExact() && this.geometry == geometry && this.disk == disk
      ensures forall i :: 0 <= i < |fat| ==> fat[i] == EntryAt(disk, geometry.fatStart, i)
      ensures Valid() <==> CopiesAgree(geometry, disk)
    {
      this.geometry := geometry;
      this.disk := disk;
      this.fat := [];
      this.freeClusters := 0;
      new;
      LoadFat();
    }

    method LoadFat()
      requires geometry.Fits(disk)
      modifies this`fat, this`freeClusters
      ensures |fat| == geometry.Entries() && CountExact()
      ensures forall i :: 0 <= i < |fat| ==> fat[i] == EntryAt(disk, geometry.fatStart, i)
      ensures old(Valid()) ==> fat == old(fat)
    {
      var entries := geometry.fatSize * BLOCK_SIZE / 4;
      var table: seq<nat> := seq(entries, _ => FREE);
      for i := 0 to geometry.fatSize
        invariant |table| == entries == geometry.Entries()
        invariant Decoded(disk, geometry.fatStart, table, i)
      {
        var buffer := disk[geometry.fatStart + i];
        ghost var was := table;
        table := DecodeSector(buffer, table, i * 128);
        DecodedOneMore(disk, geometry.fatStart, was, table, i, buffer);
      }
      var free := CountEntries(table);
      fat, freeClusters := table, free;
    }

    /** The inner loop over one sector of the table. */
    static method DecodeSector(buffer: Sector, table0: seq<nat>, start: nat) returns (table: seq<nat>)
      requires start + 128 <= |table0|
      ensures |table| == |table0|
      ensures forall k :: 0 <= k < start ==> table[k] == table0[k]
      ensures forall j :: 0 <= j < 128 ==> table[start + j] == SectorEntry(buffer, j)
    {
      table := table0;
      for j := 0 to 128
        invariant |table| == |table0|
        invariant forall k :: 0 <= k < start ==> table[k] == table0[k]
        invariant forall h :: 0 <= h < j ==> table[start + h] == SectorEntry(buffer, h)
      {
        var idx := start + j;
        if idx < |table| {
          table := table[idx := Decode(buffer[j * 4], buffer[j * 4 + 1], buffer[j * 4 + 2], buffer[j * 4 + 3])];
        }
      }
    }

    static method CountEntries(table: seq<nat>) returns (free: nat)
      ensures free == CountFree(table)
    {
      free := 0;
      for i := 0 to |table|
        invariant free == CountFree(table[..i])
      {
        assert table[..i + 1][..i] == table[..i];
        if table[i] == FREE {
          free := free + 1;
        }
      }
      assert table[..|table|] == table;
    }

    method ReadFatEntry(cluster: nat) returns (r: FsResult<nat>)
      ensures r == if cluster < |fat| then Ok(fat[cluster]) else Err(InvalidArgument)
    {
      if cluster >= |fat| {
        return Err(InvalidArgument);
      }
      return Ok(fat[cluster]);
    }

    method WriteFatEntry(cluster: nat, value: nat) returns (r: FsResult<()>)
      requires Mounted()
      modifies this`fat, this`disk
      ensures Mounted()
      ensures cluster >= |old(fat)| ==> r == Err(InvalidArgument) && fat == old(fat) && disk == old(disk)
      ensures cluster < |old(fat)| ==>
                && r == Ok(()) && fat == old(fat)[cluster := value]
                && disk == WriteEntry(geometry, old(disk), cluster, value)
                && (old(Valid()) ==> (Valid() <==> value < ENTRY_LIMIT))
    {
      if cluster >= |fat| {
        return Err(InvalidArgument);
      }
      ghost var was := disk;
      if Mirrored(geometry, disk, fat) {
        WriteKeepsMirrorIff(geometry, disk, fat, cluster, value);
      }
      fat := fat[cluster := value];
      var fatOffset := cluster * 4;
      var sector := geometry.fatStart + fatOffset / BLOCK_SIZE;
      var offsetInSector := fatOffset % BLOCK_SIZE;
      assert fatOffset / BLOCK_SIZE == cluster / 128 && offsetInSector == cluster % 128 * 4;
      EntrySlot(geometry, disk, cluster);
      var buffer := PutBytes(disk[sector], offsetInSector, Encode(value));
      disk := disk[sector := buffer];
      disk := disk[sector + geometry.fatSize := buffer];
      assert disk == WriteEntry(geometry, was, cluster, value);
      return Ok(());
    }

    /** Claims the lowest free cluster, or reports that there is none. */
    method AllocateCluster() returns (r: FsResult<nat>)
      requires Mounted()
      modifies this`fat, this`disk, this`freeClusters
      ensures Mounted() && (old(Valid()) ==> Valid()) && (old(CountExact()) ==> CountExact())
      ensures match r
              case Ok(c) =>
                && LowestFree(old(fat), c) && (IsValid(c) <==> c < 0x0FFF_FFF0)
                && fat == old(fat)[c := EOF]
                && disk == WriteEntry(geometry, old(disk), c, EOF)
                && freeClusters == (if old(freeClusters) == 0 then 0 else old(freeClusters) - 1)
                && (KeepsReserved(geometry, old(disk), disk, c) <==> ReservedBits(old(disk), geometry.fatStart, c) == 0)
              case Err(e) =>
                && e == NoSpace && (forall i :: 2 <= i < |fat| ==> fat[i] != FREE)
                && fat == old(fat) && disk == old(disk) && freeClusters == old(freeClusters)
    {
      for i := 0 to |fat|
        invariant fat == old(fat) && disk == old(disk) && freeClusters == old(freeClusters)
        invariant forall j :: 2 <= j < i ==> fat[j] != FREE
      {
        if i >= 2 && fat[i] == FREE {
          ClaimCluster(i);
          return Ok(i);
        }
      }
      return Err(NoSpace);
    }

    /** Marks a free cluster as the end of a chain. */
    method ClaimCluster(c: nat)
      requires Mounted() && c < |fat| && fat[c] == FREE
      modifies this`fat, this`disk, this`freeClusters
      ensures Mounted() && (old(Valid()) ==> Valid()) && (old(CountExact()) ==> CountExact())
      ensures fat == old(fat)[c := EOF] && disk == WriteEntry(geometry, old(disk), c, EOF)
      ensures freeClusters == if old(freeClusters) == 0 then 0 else old(freeClusters) - 1
      ensures KeepsReserved(geometry, old(disk), disk, c) <==> ReservedBits(old(disk), geometry.fatStart, c) == 0
    {
      var w := WriteFatEntry(c, EOF);
      CountFreeUpdate(old(fat), c, EOF);
      ReservedKeptIff(geometry, old(disk), c, EOF, 0);
      freeClusters := if freeClusters == 0 then 0 else freeClusters - 1;
    }

    method FreeCluster(cluster: nat) returns (r: FsResult<()>)
      requires Mounted()
      modifies this`fat, this`disk, this`freeClusters
      ensures Mounted() && (old(Valid()) ==> Valid())
      ensures cluster >= |old(fat)| ==>
                r == Err(InvalidArgument) && fat == old(fat) && disk == old(disk) && freeClusters == old(freeClusters)
      ensures cluster < |old(fat)| ==>
                && r == Ok(()) && fat == old(fat)[cluster := FREE]
                && disk == WriteEntry(geometry, old(disk), cluster, FREE)
                && freeClusters == old(freeClusters) + 1
                && (KeepsReserved(geometry, old(disk), disk, cluster)
                    <==> ReservedBits(old(disk), geometry.fatStart, cluster) == 0)
      ensures cluster < |old(fat)| && old(CountExact()) ==> (CountExact() <==> old(fat)[cluster] != FREE)
    {
      r := WriteFatEntry(cluster, FREE);
      if r.Ok? {
        ReservedKeptIff(geometry, old(disk), cluster, FREE, 0);
        CountFreeUpdate(old(fat), cluster, FREE);
        freeClusters := freeClusters + 1;
      }
    }

    /** Terminates for every table content: each round turns an entry in use into
        a free one, or is the last. */
    method FreeClusterChain(startCluster: nat) returns (r: FsResult<()>)
      requires Mounted()
      modifies this`fat, this`disk, this`freeClusters
      ensures Mounted() && (old(Valid()) ==> Valid())
      ensures var f := FreeChain(old(fat), startCluster);
              fat == f.fat && r == f.result && freeClusters == old(freeClusters) + f.count
      ensures disk == FreeChainOnDisk(geometry, old(disk), old(fat), startCluster)
      ensures SameOutside(geometry, old(disk), disk)
      ensures old(CountExact()) ==> (CountExact() <==> WellFormedChain(old(fat), startCluster))
    {
      CounterExactIff(fat, startCluster);
      ghost var freed := FreeChain(fat, startCluster);
      ghost var target := FreeChainOnDisk(geometry, disk, fat, startCluster);
      var cluster := startCluster;
      ghost var done := 0;
      while IsValid(cluster)
        invariant Mounted() && (old(Valid()) ==> Valid()) && freeClusters == old(freeClusters) + done
        invariant FreeChain(fat, cluster).fat == freed.fat && FreeChain(fat, cluster).result == freed.result
        invariant FreeChain(fat, cluster).count + done == freed.count
        invariant FreeChainOnDisk(geometry, disk, fat, cluster) == target
        decreases |fat| - CountFree(fat), if IsValid(cluster) then 1 else 0
      {
        var next := ReadFatEntry(cluster);
        if next.Err? {
          return Err(next.error);
        }
        CountFreeUpdate(fat, cluster, FREE);
        var f := FreeCluster(cluster);
        done := done + 1;
        cluster := next.value;
      }
      return Ok(());
    }

    /** Copies one cluster into the front of `buffer`. */
    method ReadCluster(cluster: nat, buffer: array<byte>) returns (r: Outcome<FsResult<()>>)
      requires Mounted()
      modifies buffer
      ensures r == if !SectorFits(geometry, cluster) then Panicked
                   else if buffer.Length < geometry.ClusterSize() then Returned(Err(InvalidArgument))
                   else if OnDisk(geometry, disk, cluster) then Returned(Ok(())) else Returned(Err(IoError))
      ensures r == Panicked <==> cluster < 2 || FirstSector(geometry, cluster) >= 0x1_0000_0000
      ensures r == Returned(Ok(())) ==>
                forall o: nat :: o < geometry.ClusterSize() ==> buffer[o] == ClusterByte(geometry, disk, cluster, o)
    {
      if cluster < 2 || FirstSector(geometry, cluster) >= 0x1_0000_0000 {
        return Panicked;
      }
      var startSector := FirstSector(geometry, cluster);
      if buffer.Length < geometry.ClusterSize() {
        return Returned(Err(InvalidArgument));
      }
      for i := 0 to geometry.sectorsPerCluster
        invariant startSector + i <= |disk| || i == 0
        invariant Loaded(disk, startSector, buffer[..], i)
      {
        var sector := startSector + i;
        assert sector < 0x1_0000_0000;
        if sector >= |disk| {
          return Returned(Err(IoError));
        }
        ReadSector(disk, startSector, i, buffer);
      }
      return Returned(Ok(()));
    }
  }

  // ------------------------------------------------------- reading a file

  /** The walk's cluster `k` is a data cluster with a table entry and a place on disk. */
  ghost predicate Reachable(g: Geometry, disk: Disk, fat: seq<nat>, first: nat, k: nat) {
    match Walk(fat, first, k)
    case Err(_) => false
    case Ok(c) => IsValid(c) && c < |fat| && OnDisk(g, disk, c)
  }

  /** All clusters that hold file positions [from, to) can be reached. */
  ghost predicate AllReachable(g: Geometry, disk: Disk, fat: seq<nat>, first: nat, from: nat, to: nat)
    requires g.sectorsPerCluster > 0
  {
    forall p: nat :: from <= p < to ==> Reachable(g, disk, fat, first, Quot(p, g.ClusterSize()))
  }

  /** The chain is over before cluster `k`. */
  ghost predicate WalkEnds(fat: seq<nat>, first: nat, k: nat) {
    match Walk(fat, first, k)
    case Err(_) => true
    case Ok(c) => !IsValid(c)
  }

  /** Byte `x` is the file's byte at position `p`. */
  ghost predicate IsFileByte(g: Geometry, disk: Disk, fat: seq<nat>, first: nat, p: nat, x: byte)
    requires g.sectorsPerCluster > 0
  {
    match Walk(fat, first, Quot(p, g.ClusterSize()))
    case Err(_) => false
    case Ok(c) => OnDisk(g, disk, c) && x == ClusterByte(g, disk, c, Rem(p, g.ClusterSize()))
  }

  lemma {:induction false} WalkStops(fat: seq<nat>, first: nat, i: nat, n: nat)
    requires Walk(fat, first, i).Err? && i <= n
    ensures Walk(fat, first, n) == Walk(fat, first, i)
    decreases n - i
  {
    if i < n {
      WalkStops(fat, first, i, n - 1);
    }
  }

  /** `data` is the file's content from position `offset` on. */
  ghost predicate FileBytes(g: Geometry, disk: Disk, fat: seq<nat>, first: nat, offset: nat, data: seq<byte>)
    requires g.sectorsPerCluster > 0
  {
    forall i :: 0 <= i < |data| ==> IsFileByte(g, disk, fat, first, offset + i, data[i])
  }

  /** Bytes copied out of the cluster at `p` continue what was read before. */
  lemma CopiedBytes(g: Geometry, disk: Disk, fat: seq<nat>, first: nat, c: nat, offset: nat, got: seq<byte>,
      data: seq<byte>)
    requires g.sectorsPerCluster > 0 && OnDisk(g, disk, c) && FileBytes(g, disk, fat, first, offset, got)
    requires Walk(fat, first, Quot(offset + |got|, g.ClusterSize())) == Ok(c)
    requires Rem(offset + |got|, g.ClusterSize()) + |data| <= g.ClusterSize()
    requires forall j: nat :: j < |data| ==>
               data[j] == ClusterByte(g, disk, c, Rem(offset + |got|, g.ClusterSize()) + j)
    ensures FileBytes(g, disk, fat, first, offset, got + data)
  {
    var all := got + data;
    forall i | 0 <= i < |all|
      ensures IsFileByte(g, disk, fat, first, offset + i, all[i])
    {
      if i < |got| {
        assert IsFileByte(g, disk, fat, first, offset + i, got[i]);
      } else {
        CopiedByte(g, disk, fat, first, c, offset + |got|, i - |got|, data[i - |got|]);
        assert offset + |got| + (i - |got|) == offset + i;
      }
    }
  }

  lemma CopiedByte(g: Geometry, disk: Disk, fat: seq<nat>, first: nat, c: nat, p: nat, j: nat, x: byte)
    requires g.sectorsPerCluster > 0 && OnDisk(g, disk, c) && Walk(fat, first, Quot(p, g.ClusterSize())) == Ok(c)
    requires Rem(p, g.ClusterSize()) + j < g.ClusterSize()
    requires x == ClusterByte(g, disk, c, Rem(p, g.ClusterSize()) + j)
    ensures IsFileByte(g, disk, fat, first, p + j, x)
  {
    Advance(p, j, g.ClusterSize());
  }

  /** The call came back with a number of bytes. */
  predicate Succeeded(r: Outcome<FsResult<nat>>) { r.Returned? && r.value.Ok? }

  /** `n` bytes more, unless something went wrong. */
  function Plus(n: nat, r: Outcome<FsResult<nat>>): Outcome<FsResult<nat>> {
    if Succeeded(r) then Returned(Ok(n + r.value.value)) else r
  }

  /** How delivering `left` bytes from offset `o` of cluster `c` on ends: where the
      chain ends it stops, and the first cluster that cannot be located, read or
      followed decides how it fails. */
  ghost function Delivery(g: Geometry, disk: Disk, fat: seq<nat>, c: nat, o: nat, left: nat): Outcome<FsResult<nat>>
    requires g.sectorsPerCluster > 0 && o < g.ClusterSize()
    decreases left
  {
    if left == 0 || !IsValid(c) then Returned(Ok(0))
    else if !SectorFits(g, c) then Panicked
    else if !OnDisk(g, disk, c) then Returned(Err(IoError))
    else if c >= |fat| then Returned(Err(InvalidArgument))
    else
      var n := Min(g.ClusterSize() - o, left);
      Plus(n, Delivery(g, disk, fat, fat[c], 0, left - n))
  }

  lemma DeliveryStep(g: Geometry, disk: Disk, fat: seq<nat>, c: nat, o: nat, left: nat, done: nat)
    requires g.sectorsPerCluster > 0 && o < g.ClusterSize() && left > 0 && IsValid(c)
    ensures !SectorFits(g, c) ==> Plus(done, Delivery(g, disk, fat, c, o, left)) == Panicked
    ensures SectorFits(g, c) && !OnDisk(g, disk, c) ==>
              Plus(done, Delivery(g, disk, fat, c, o, left)) == Returned(Err(IoError))
    ensures SectorFits(g, c) && OnDisk(g, disk, c) && c >= |fat| ==>
              Plus(done, Delivery(g, disk, fat, c, o, left)) == Returned(Err(InvalidArgument))
    ensures SectorFits(g, c) && OnDisk(g, disk, c) && c < |fat| ==>
              var n := Min(g.ClusterSize() - o, left);
              Plus(done, Delivery(g, disk, fat, c, o, left)) ==
              Plus(done + n, Delivery(g, disk, fat, fat[c], 0, left - n))
  {
  }

  /** Delivery is complete when every cluster can be reached. */
  lemma {:induction false} DeliveryComplete(g: Geometry, disk: Disk, fat: seq<nat>, first: nat, c: nat,
      offset: nat, left: nat)
    requires g.sectorsPerCluster > 0 && |disk| < 0x1_0000_0000
    requires Walk(fat, first, Quot(offset, g.ClusterSize())) == Ok(c)
    requires AllReachable(g, disk, fat, first, offset, offset + left)
    ensures Delivery(g, disk, fat, c, Rem(offset, g.ClusterSize()), left) == Returned(Ok(left))
    decreases left
  {
    var size, o := g.ClusterSize(), Rem(offset, g.ClusterSize());
    if left > 0 {
      assert Reachable(g, disk, fat, first, Quot(offset, size));
      var n := Min(size - o, left);
      if n < left {
        Advance(offset, n, size);
        assert Reachable(g, disk, fat, first, Quot(offset + n, size));
        DeliveryComplete(g, disk, fat, first, fat[c], offset + n, left - n);
      }
      DeliveryStep(g, disk, fat, c, o, left, 0);
    }
  }

  lemma {:induction false} DeliveryAtMost(g: Geometry, disk: Disk, fat: seq<nat>, c: nat, o: nat, left: nat)
    requires g.sectorsPerCluster > 0 && o < g.ClusterSize()
    ensures var r := Delivery(g, disk, fat, c, o, left); Succeeded(r) ==> r.value.value <= left
    decreases left
  {
    if left > 0 && IsValid(c) && c < |fat| {
      var n := Min(g.ClusterSize() - o, left);
      DeliveryAtMost(g, disk, fat, fat[c], 0, left - n);
    }
  }

  /** Delivery is short only where the chain ends. */
  lemma {:induction false} DeliveryShort(g: Geometry, disk: Disk, fat: seq<nat>, first: nat, c: nat,
      offset: nat, left: nat)
    requires g.sectorsPerCluster > 0 && Walk(fat, first, Quot(offset, g.ClusterSize())) == Ok(c)
    requires var r := Delivery(g, disk, fat, c, Rem(offset, g.ClusterSize()), left);
             Succeeded(r) && r.value.value < left
    ensures var r := Delivery(g, disk, fat, c, Rem(offset, g.ClusterSize()), left);
            WalkEnds(fat, first, Quot(offset + r.value.value, g.ClusterSize()))
    decreases left
  {
    var size, o := g.ClusterSize(), Rem(offset, g.ClusterSize());
    if IsValid(c) {
      var n := Min(size - o, left);
      DeliveryStep(g, disk, fat, c, o, left, 0);
      var rest := Delivery(g, disk, fat, fat[c], 0, left - n);
      Advance(offset, n, size);
      if IsValid(fat[c]) {
        DeliveryShort(g, disk, fat, first, fat[c], offset + n, left - n);
        assert offset + n + rest.value.value == offset + (n + rest.value.value);
      }
    }
  }

  /** How reading `want` bytes from `offset` on ends. */
  ghost function ReadOutcome(g: Geometry, disk: Disk, fat: seq<nat>, first: nat, offset: nat,
      want: nat): Outcome<FsResult<nat>>
    requires g.sectorsPerCluster > 0
  {
    match Walk(fat, first, Quot(offset, g.ClusterSize()))
    case Err(e) => Returned(Err(e))
    case Ok(c) => Delivery(g, disk, fat, c, Rem(offset, g.ClusterSize()), want)
  }

  /** The copying loop has `got` the file's bytes and is at offset `o` of cluster `c`. */
  ghost predicate Reading(g: Geometry, disk: Disk, fat: seq<nat>, first: nat, offset: nat, toRead: nat,
                          got: seq<byte>, o: nat, c: nat)
    requires g.sectorsPerCluster > 0
  {
    && |got| <= toRead && o < g.ClusterSize()
    && Plus(|got|, Delivery(g, disk, fat, c, o, toRead - |got|)) == ReadOutcome(g, disk, fat, first, offset, toRead)
    && (|got| < toRead ==> o == Rem(offset + |got|, g.ClusterSize()))
    && (|got| < toRead && IsValid(c) ==> Walk(fat, first, Quot(offset + |got|, g.ClusterSize())) == Ok(c))
    && FileBytes(g, disk, fat, first, offset, got)
  }

  lemma ReadingFails(g: Geometry, disk: Disk, fat: seq<nat>, first: nat, offset: nat, toRead: nat,
                     got: seq<byte>, o: nat, c: nat)
    requires g.sectorsPerCluster > 0 && Reading(g, disk, fat, first, offset, toRead, got, o, c)
    requires |got| < toRead && IsValid(c)
    ensures var r := ReadOutcome(g, disk, fat, first, offset, toRead);
            && (!SectorFits(g, c) ==> r == Panicked)
            && (SectorFits(g, c) && !OnDisk(g, disk, c) ==> r == Returned(Err(IoError)))
            && (SectorFits(g, c) && OnDisk(g, disk, c) && c >= |fat| ==> r == Returned(Err(InvalidArgument)))
  {
    DeliveryStep(g, disk, fat, c, o, toRead - |got|, |got|);
  }

  lemma ReadingAdvances(g: Geometry, disk: Disk, fat: seq<nat>, first: nat, offset: nat, toRead: nat,
                        got: seq<byte>, o: nat, c: nat, now: seq<byte>)
    requires g.sectorsPerCluster > 0 && Reading(g, disk, fat, first, offset, toRead, got, o, c)
    requires |got| < toRead && IsValid(c) && SectorFits(g, c) && OnDisk(g, disk, c) && c < |fat|
    requires |now| == |got| + Min(g.ClusterSize() - o, toRead - |got|) && FileBytes(g, disk, fat, first, offset, now)
    ensures Reading(g, disk, fat, first, offset, toRead, now, 0, fat[c])
  {
    DeliveryStep(g, disk, fat, c, o, toRead - |got|, |got|);
    var n := |now| - |got|;
    Advance(offset + |got|, n, g.ClusterSize());
    assert offset + |got| + n == offset + |now|;
  }

  lemma SameTail(a: seq<byte>, b: seq<byte>, i: nat, n: nat)
    requires i + n <= |a| == |b| && a[i..] == b[i..]
    ensures a[i + n..] == b[i + n..]
  {
    assert a[i + n..] == a[i..][n..] && b[i + n..] == b[i..][n..];
  }

  class Fat32Inode {
    const fs: Fat32FileSystem
    const firstCluster: nat
    const size: nat
    const regular: bool

    constructor (fs: Fat32FileSystem, firstCluster: nat, size: nat, regular: bool)
      ensures this.fs == fs && this.firstCluster == firstCluster && this.size == size && this.regular == regular
    {
      this.fs, this.firstCluster, this.size, this.regular := fs, firstCluster, size, regular;
    }

    /** Follows the chain to the cluster holding the start of the read. */
    method Seek(index: nat) returns (r: FsResult<nat>)
      ensures r == Walk(fs.fat, firstCluster, index)
    {
      var cluster := firstCluster;
      for i := 0 to index
        invariant Walk(fs.fat, firstCluster, i) == Ok(cluster)
      {
        var next := fs.ReadFatEntry(cluster);
        if next.Err? {
          WalkStops(fs.fat, firstCluster, i + 1, index);
          return next;
        }
        if !IsValid(next.value) {
          WalkStops(fs.fat, firstCluster, i + 1, index);
          return Err(IoError);
        }
        cluster := next.value;
      }
      return Ok(cluster);
    }

    /** Fills `buf` from position `offset` of the file. */
    method Read(offset: nat, buf: array<byte>) returns (r: Outcome<FsResult<nat>>)
      requires fs.Mounted()
      modifies buf
      ensures !regular ==> r == Returned(Err(IsDirectory))
      ensures regular && offset >= size ==> r == Returned(Ok(0))
      ensures regular && offset < size ==>
                var want := if buf.Length < size - offset then buf.Length else size - offset;
                var g := fs.geometry;
                && r == ReadOutcome(g, fs.disk, fs.fat, firstCluster, offset, want)
                && (AllReachable(g, fs.disk, fs.fat, firstCluster, offset, offset + want) && 0 < want ==>
                      r == Returned(Ok(want)))
                && (Succeeded(r) ==>
                      && r.value.value <= want
                      && (r.value.value < want ==>
                            WalkEnds(fs.fat, firstCluster, Quot(offset + r.value.value, g.ClusterSize())))
                      && FileBytes(g, fs.disk, fs.fat, firstCluster, offset, buf[..r.value.value]))
      ensures Succeeded(r) ==> r.value.value <= buf.Length && buf[r.value.value..] == old(buf[..])[r.value.value..]
    {
      if !regular {
        return Returned(Err(IsDirectory));
      }
      if offset >= size {
        return Returned(Ok(0));
      }
      var toRead := if buf.Length < size - offset then buf.Length else size - offset;
      var startIndex := offset / fs.geometry.ClusterSize();
      QuotRemAre(offset, fs.geometry.ClusterSize());
      var seek := Seek(startIndex);
      if seek.Err? {
        assert !Reachable(fs.geometry, fs.disk, fs.fat, firstCluster, Quot(offset, fs.geometry.ClusterSize()));
        return Returned(Err(seek.error));
      }
      DeliveryAtMost(fs.geometry, fs.disk, fs.fat, seek.value, Rem(offset, fs.geometry.ClusterSize()), toRead);
      ghost var whole := ReadOutcome(fs.geometry, fs.disk, fs.fat, firstCluster, offset, toRead);
      if Succeeded(whole) && whole.value.value < toRead {
        DeliveryShort(fs.geometry, fs.disk, fs.fat, firstCluster, seek.value, offset, toRead);
      }
      if AllReachable(fs.geometry, fs.disk, fs.fat, firstCluster, offset, offset + toRead) {
        DeliveryComplete(fs.geometry, fs.disk, fs.fat, firstCluster, seek.value, offset, toRead);
      }
      r := CopyOut(offset, toRead, seek.value, buf);
    }

    /** One round of the copying loop: fetch a cluster and copy what is wanted of it. */
    method CopyChunk(offset: nat, bytesRead: nat, left: nat, cluster: nat, clusterOffset: nat,
                     buf: array<byte>, clusterBuf: array<byte>) returns (r: Outcome<FsResult<nat>>)
      requires fs.Mounted() && clusterBuf.Length == fs.geometry.ClusterSize() && buf != clusterBuf
      requires bytesRead + left <= buf.Length && cluster >= 2
      requires clusterOffset == Rem(offset + bytesRead, fs.geometry.ClusterSize())
      requires Walk(fs.fat, firstCluster, Quot(offset + bytesRead, fs.geometry.ClusterSize())) == Ok(cluster)
      requires FileBytes(fs.geometry, fs.disk, fs.fat, firstCluster, offset, buf[..bytesRead])
      modifies buf, clusterBuf
      ensures r == if !SectorFits(fs.geometry, cluster) then Panicked
                   else if OnDisk(fs.geometry, fs.disk, cluster)
                   then Returned(Ok(Min(fs.geometry.ClusterSize() - clusterOffset, left)))
                   else Returned(Err(IoError))
      ensures Succeeded(r) ==>
                && FileBytes(fs.geometry, fs.disk, fs.fat, firstCluster, offset, buf[..bytesRead + r.value.value])
                && buf[bytesRead + r.value.value..] == old(buf[bytesRead + r.value.value..])
    {
      var got := fs.ReadCluster(cluster, clusterBuf);
      if got.Panicked? {
        return Panicked;
      }
      if got.value.Err? {
        return Returned(Err(got.value.error));
      }
      var available := fs.geometry.ClusterSize() - clusterOffset;
      var copyLen := Min(available, left);
      ghost var before, data := buf[..bytesRead], clusterBuf[clusterOffset..clusterOffset + copyLen];
      CopiedBytes(fs.geometry, fs.disk, fs.fat, firstCluster, cluster, offset, before, data);
      CopySlice(clusterBuf, clusterOffset, buf, bytesRead, copyLen);
      assert buf[..bytesRead + copyLen] == before + data;
      return Returned(Ok(copyLen));
    }

    /** One whole round: copy from a cluster, then look up the next one. */
    method CopyRound(offset: nat, toRead: nat, bytesRead: nat, cluster: nat, clusterOffset: nat,
                     buf: array<byte>, clusterBuf: array<byte>) returns (r: Outcome<FsResult<nat>>, next: nat)
      requires fs.Mounted() && clusterBuf.Length == fs.geometry.ClusterSize() && buf != clusterBuf
      requires bytesRead < toRead <= buf.Length && IsValid(cluster)
      requires Reading(fs.geometry, fs.disk, fs.fat, firstCluster, offset, toRead,
                       buf[..bytesRead], clusterOffset, cluster)
      modifies buf, clusterBuf
      ensures !Succeeded(r) ==> r == ReadOutcome(fs.geometry, fs.disk, fs.fat, firstCluster, offset, toRead)
      ensures Succeeded(r) ==>
                && 0 < r.value.value <= toRead - bytesRead
                && Reading(fs.geometry, fs.disk, fs.fat, firstCluster, offset, toRead,
                           buf[..bytesRead + r.value.value], 0, next)
                && buf[bytesRead + r.value.value..] == old(buf[bytesRead + r.value.value..])
    {
      next := 0;
      ghost var got := buf[..bytesRead];
      ReadingFails(fs.geometry, fs.disk, fs.fat, firstCluster, offset, toRead, got, clusterOffset, cluster);
      r := CopyChunk(offset, bytesRead, toRead - bytesRead, cluster, clusterOffset, buf, clusterBuf);
      if r.Panicked? || r.value.Err? {
        return;
      }
      var entry := fs.ReadFatEntry(cluster);
      if entry.Err? {
        return Returned(Err(entry.error)), 0;
      }
      next := entry.value;
      ReadingAdvances(fs.geometry, fs.disk, fs.fat, firstCluster, offset, toRead, got, clusterOffset, cluster,
                      buf[..bytesRead + r.value.value]);
    }

    /** The copying loop of `read`, started at `cluster`. */
    method CopyOut(offset: nat, toRead: nat, start: nat, buf: array<byte>) returns (r: Outcome<FsResult<nat>>)
      requires fs.Mounted() && toRead <= buf.Length
      requires Walk(fs.fat, firstCluster, Quot(offset, fs.geometry.ClusterSize())) == Ok(start)
      modifies buf
      ensures r == ReadOutcome(fs.geometry, fs.disk, fs.fat, firstCluster, offset, toRead)
      ensures Succeeded(r) ==>
                && r.value.value <= toRead
                && FileBytes(fs.geometry, fs.disk, fs.fat, firstCluster, offset, buf[..r.value.value])
                && buf[r.value.value..] == old(buf[..])[r.value.value..]
    {
      var clusterSize := fs.geometry.ClusterSize();
      var cluster, bytesRead := start, 0;
      var clusterOffset: nat := offset % clusterSize;
      QuotRemAre(offset, clusterSize);
      var clusterBuf := new byte[clusterSize](_ => 0);
      while bytesRead < toRead && IsValid(cluster)
        invariant bytesRead <= toRead
        invariant Reading(fs.geometry, fs.disk, fs.fat, firstCluster, offset, toRead,
                          buf[..bytesRead], clusterOffset, cluster)
        invariant buf[bytesRead..] == old(buf[..])[bytesRead..]
        decreases toRead - bytesRead
      {
        ghost var before := buf[..];
        var copied, next := CopyRound(offset, toRead, bytesRead, cluster, clusterOffset, buf, clusterBuf);
        if copied.Panicked? || copied.value.Err? {
          return copied;
        }
        SameTail(before, old(buf[..]), bytesRead, copied.value.value);
        bytesRead, clusterOffset, cluster := bytesRead + copied.value.value, 0, next;
      }
      return Returned(Ok(bytesRead));
    }
  }

  // ------------------------------------------------- the flat file view

  function ClusterBytes(g: Geometry, disk: Disk, c: nat): seq<byte>
    requires OnDisk(g, disk, c)
  {
    seq(g.ClusterSize(), o requires 0 <= o < g.ClusterSize() => ClusterByte(g, disk, c, o))
  }

  /** The clusters of a chain, concatenated. */
  function Flat(g: Geometry, disk: Disk, s: seq<nat>): seq<byte>
    requires forall c :: c in s ==> OnDisk(g, disk, c)
  {
    if s == [] then [] else ClusterBytes(g, disk, s[0]) + Flat(g, disk, s[1..])
  }

  lemma {:induction false} FlatAt(g: Geometry, disk: Disk, s: seq<nat>, p: nat)
    requires g.sectorsPerCluster > 0 && forall c :: c in s ==> OnDisk(g, disk, c)
    requires p < |Flat(g, disk, s)|
    ensures Quot(p, g.ClusterSize()) < |s|
    ensures Flat(g, disk, s)[p] == ClusterByte(g, disk, s[Quot(p, g.ClusterSize())], Rem(p, g.ClusterSize()))
  {
    var cs := g.ClusterSize();
    if p >= cs {
      FlatAt(g, disk, s[1..], p - cs);
    }
  }

  lemma {:induction false} FlatAppend(g: Geometry, disk: Disk, s: seq<nat>, c: nat)
    requires OnDisk(g, disk, c) && forall x :: x in s ==> OnDisk(g, disk, x)
    ensures Flat(g, disk, s + [c]) == Flat(g, disk, s) + ClusterBytes(g, disk, c)
  {
    if s == [] {
      assert s + [c] == [c] && [c][1..] == [];
    } else {
      assert (s + [c])[1..] == s[1..] + [c];
      FlatAppend(g, disk, s[1..], c);
    }
  }

  /** A cluster is its sectors, one after the other. */
  lemma ClusterIsSectors(g: Geometry, disk: Disk, c: nat)
    requires OnDisk(g, disk, c)
    ensures ClusterBytes(g, disk, c) == SectorBytes(disk[FirstSector(g, c)..FirstSector(g, c) + g.sectorsPerCluster])
  {
    var sectors := disk[FirstSector(g, c)..FirstSector(g, c) + g.sectorsPerCluster];
    forall o: nat | o < g.ClusterSize()
      ensures ClusterBytes(g, disk, c)[o] == SectorBytes(sectors)[o]
    {
      SectorsFrom(disk, FirstSector(g, c), g.sectorsPerCluster, o);
    }
  }

  /** The first `n` clusters of the volume. */
  function FirstClusters(n: nat): seq<nat> { seq(n, i => 2 + i) }

  /** The first `n` clusters, concatenated, are the disk's bytes from the start of the
      data area on. */
  lemma {:induction false} DataAreaIsClusters(g: Geometry, disk: Disk, n: nat)
    requires g.dataStart + n * g.sectorsPerCluster <= |disk|
    ensures forall c :: c in FirstClusters(n) ==> OnDisk(g, disk, c)
    ensures Flat(g, disk, FirstClusters(n)) == SectorBytes(disk[g.dataStart..g.dataStart + n * g.sectorsPerCluster])
  {
    if n > 0 {
      OneMore(n - 1, g.sectorsPerCluster);
      DataAreaIsClusters(g, disk, n - 1);
      ClusterFollows(g, disk, n - 1);
      assert FirstClusters(n) == FirstClusters(n - 1) + [n + 1];
      FlatAppend(g, disk, FirstClusters(n - 1), n + 1);
    }
  }

  /** The sectors of cluster `n + 2` come after those of the `n` clusters before. */
  lemma ClusterFollows(g: Geometry, disk: Disk, n: nat)
    requires g.dataStart + n * g.sectorsPerCluster + g.sectorsPerCluster <= |disk|
    ensures OnDisk(g, disk, n + 2)
    ensures var end := g.dataStart + n * g.sectorsPerCluster;
            SectorBytes(disk[g.dataStart..end + g.sectorsPerCluster]) ==
            SectorBytes(disk[g.dataStart..end]) + ClusterBytes(g, disk, n + 2)
  {
    var end := g.dataStart + n * g.sectorsPerCluster;
    ClusterIsSectors(g, disk, n + 2);
    assert disk[g.dataStart..end + g.sectorsPerCluster]
        == disk[g.dataStart..end] + disk[end..end + g.sectorsPerCluster];
    SectorBytesConcat(disk[g.dataStart..end], disk[end..end + g.sectorsPerCluster]);
  }

  lemma {:induction false} FlatLength(g: Geometry, disk: Disk, s: seq<nat>)
    requires forall c :: c in s ==> OnDisk(g, disk, c)
    ensures |Flat(g, disk, s)| == |s| * g.ClusterSize()
  {
    if s != [] {
      FlatLength(g, disk, s[1..]);
      OneMore(|s[1..]|, g.ClusterSize());
    }
  }

  lemma OneMore(n: nat, m: nat)
    ensures (n + 1) * m == n * m + m
  {
  }

  lemma {:induction false} WalkFollowsPath(fat: seq<nat>, first: nat, s: seq<nat>, k: nat)
    requires InUsePath(fat, first, s) && k < |s|
    ensures Walk(fat, first, k) == Ok(s[k])
  {
    if k > 0 {
      WalkFollowsPath(fat, first, s, k - 1);
      PathLink(fat, first, s, k);
    }
  }

  lemma {:induction false} PathLink(fat: seq<nat>, first: nat, s: seq<nat>, k: nat)
    requires InUsePath(fat, first, s) && 0 < k < |s|
    ensures s[k - 1] < |fat| && fat[s[k - 1]] == s[k] && IsValid(s[k])
    decreases |s|
  {
    if k == 1 {
      assert s[1..][0] == s[1];
    } else {
      PathLink(fat, fat[first], s[1..], k - 1);
    }
  }

  /** On a file whose chain is long enough, a read returns the requested slice of
      the concatenated clusters. */
  lemma ReadIsSliceOfFlatFile(g: Geometry, disk: Disk, fat: seq<nat>, s: seq<nat>, offset: nat, data: seq<byte>)
    requires g.sectorsPerCluster > 0 && FileChain(fat, s) && forall c :: c in s ==> OnDisk(g, disk, c)
    requires offset + |data| <= |s| * g.ClusterSize()
    ensures AllReachable(g, disk, fat, s[0], offset, offset + |data|)
    ensures |Flat(g, disk, s)| == |s| * g.ClusterSize()
    ensures FileBytes(g, disk, fat, s[0], offset, data) <==> data == Flat(g, disk, s)[offset..offset + |data|]
  {
    FlatLength(g, disk, s);
    forall p: nat | p < |Flat(g, disk, s)|
      ensures Reachable(g, disk, fat, s[0], Quot(p, g.ClusterSize()))
      ensures IsFileByte(g, disk, fat, s[0], p, Flat(g, disk, s)[p])
    {
      FlatPosition(g, disk, fat, s, p);
    }
    SliceIs(g, disk, fat, s, offset, data);
  }

  lemma SliceIs(g: Geometry, disk: Disk, fat: seq<nat>, s: seq<nat>, offset: nat, data: seq<byte>)
    requires g.sectorsPerCluster > 0 && s != [] && forall c :: c in s ==> OnDisk(g, disk, c)
    requires offset + |data| <= |Flat(g, disk, s)|
    requires forall p: nat :: p < |Flat(g, disk, s)| ==> IsFileByte(g, disk, fat, s[0], p, Flat(g, disk, s)[p])
    ensures FileBytes(g, disk, fat, s[0], offset, data) <==> data == Flat(g, disk, s)[offset..offset + |data|]
  {
    var flat := Flat(g, disk, s);
    forall i | 0 <= i < |data|
      ensures IsFileByte(g, disk, fat, s[0], offset + i, data[i]) <==> data[i] == flat[offset..offset + |data|][i]
    {
      assert IsFileByte(g, disk, fat, s[0], offset + i, flat[offset + i]);
    }
  }

  lemma FlatPosition(g: Geometry, disk: Disk, fat: seq<nat>, s: seq<nat>, p: nat)
    requires g.sectorsPerCluster > 0 && FileChain(fat, s) && forall c :: c in s ==> OnDisk(g, disk, c)
    requires p < |Flat(g, disk, s)|
    ensures Reachable(g, disk, fat, s[0], Quot(p, g.ClusterSize()))
    ensures IsFileByte(g, disk, fat, s[0], p, Flat(g, disk, s)[p])
  {
    var k := Quot(p, g.ClusterSize());
    FlatAt(g, disk, s, p);
    WalkFollowsPath(fat, s[0], s, k);
    PathMembersInUse(fat, s[0], s, s[k]);
  }

  lemma {:induction false} FlatKept(g: Geometry, was: Disk, now: Disk, s: seq<nat>)
    requires g.Fits(was) && SameOutside(g, was, now) && forall c :: c in s ==> OnDisk(g, was, c)
    ensures forall c :: c in s ==> OnDisk(g, now, c)
    ensures Flat(g, now, s) == Flat(g, was, s)
  {
    if s != [] {
      FlatKept(g, was, now, s[1..]);
      ClustersKept(g, was, now, s[0], 0);
      forall o: nat | o < g.ClusterSize()
        ensures ClusterByte(g, now, s[0], o) == ClusterByte(g, was, s[0], o)
      {
        ClustersKept(g, was, now, s[0], o);
      }
      assert ClusterBytes(g, now, s[0]) == ClusterBytes(g, was, s[0]);
    }
  }

  /** Freeing one file leaves every other file's chain and contents as they were. */
  lemma FreeKeepsOtherFiles(g: Geometry, disk: Disk, fat: seq<nat>, files: seq<seq<nat>>, k: nat, j: nat)
    requires g.Fits(disk) && |fat| == g.Entries() && Volume(fat, files) && k < |files| && j < |files| && j != k
    requires forall c :: c in files[j] ==> OnDisk(g, disk, c)
    ensures var d := FreeChainOnDisk(g, disk, fat, files[k][0]);
            && FileChain(FreeChain(fat, files[k][0]).fat, files[j])
            && (forall c :: c in files[j] ==> OnDisk(g, d, c))
            && Flat(g, d, files[j]) == Flat(g, disk, files[j])
  {
    FreeChainFreesExactly(fat, files[k][0], files[k]);
    PathFrame(fat, FreeChain(fat, files[k][0]).fat, files[j][0], files[j]);
    FlatKept(g, disk, FreeChainOnDisk(g, disk, fat, files[k][0]), files[j]);
  }
}
