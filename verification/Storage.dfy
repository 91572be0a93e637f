/** Bytes, 512-byte sectors and slice copies shared by the file systems. */
module Storage {
  import opened Wrappers

  /** The file systems' errors. */
  datatype FsError = InvalidArgument | IoError | NoSpace | IsDirectory | NotSupported

  type FsResult<+T> = Result<T, FsError>

  type byte = x: int | 0 <= x < 256

  /** One sector of the block device. */
  type Sector = s: seq<byte> | |s| == 512 witness seq(512, _ => 0)

  /** An ideal device: reading a sector in range never fails. */
  type Disk = seq<Sector>

  // ----------------------------------------------------- bytes in a row

  /** The number that bytes stand for, least significant byte first. */
  function LittleEndian(bytes: seq<byte>): nat {
    if bytes == [] then 0 else bytes[0] + 0x100 * LittleEndian(bytes[1..])
  }

  lemma LittleEndian2(bytes: seq<byte>)
    requires |bytes| == 2
    ensures LittleEndian(bytes) == bytes[0] as int + 0x100 * (bytes[1] as int)
  {
    assert LittleEndian(bytes[1..]) == bytes[1] as int + 0x100 * LittleEndian(bytes[1..][1..]);
    assert bytes[1..][1..] == [];
  }

  lemma LittleEndian4(bytes: seq<byte>)
    requires |bytes| == 4
    ensures var b0: int, b1: int, b2: int, b3: int := bytes[0], bytes[1], bytes[2], bytes[3];
            LittleEndian(bytes) == b0 + 0x100 * b1 + 0x1_0000 * b2 + 0x100_0000 * b3
  {
    LittleEndian2(bytes[2..]);
    assert bytes[1..][1..] == bytes[2..];
    assert LittleEndian(bytes[1..]) == bytes[1] as int + 0x100 * LittleEndian(bytes[2..]);
  }

  /** Sectors one after the other. */
  function SectorBytes(sectors: seq<Sector>): (bytes: seq<byte>)
    ensures |bytes| == 512 * |sectors|
  {
    if sectors == [] then [] else sectors[0] + SectorBytes(sectors[1..])
  }

  lemma {:induction false} SectorBytesAt(sectors: seq<Sector>, p: nat)
    requires p < 512 * |sectors|
    ensures SectorBytes(sectors)[p] == sectors[p / 512][p % 512]
  {
    if p >= 512 {
      SectorBytesAt(sectors[1..], p - 512);
      assert (p - 512) / 512 == p / 512 - 1 && (p - 512) % 512 == p % 512;
    }
  }

  lemma SectorsFrom(disk: Disk, start: nat, n: nat, p: nat)
    requires start + n <= |disk| && p < 512 * n
    ensures SectorBytes(disk[start..start + n])[p] == disk[start + p / 512][p % 512]
  {
    SectorBytesAt(disk[start..start + n], p);
  }

  lemma {:induction false} SectorBytesConcat(a: seq<Sector>, b: seq<Sector>)
    ensures SectorBytes(a + b) == SectorBytes(a) + SectorBytes(b)
  {
    if a == [] {
      assert a + b == b;
    } else {
      assert (a + b)[1..] == a[1..] + b;
      SectorBytesConcat(a[1..], b);
    }
  }

  /** Four bytes at a multiple of four lie in one sector. */
  lemma WordInSector(sectors: seq<Sector>, i: nat)
    requires i < 128 * |sectors|
    ensures SectorBytes(sectors)[4 * i..4 * i + 4] == sectors[i / 128][i % 128 * 4..i % 128 * 4 + 4]
  {
    var s, o := i / 128, i % 128 * 4;
    WordByte(sectors, i, 0);
    WordByte(sectors, i, 1);
    WordByte(sectors, i, 2);
    WordByte(sectors, i, 3);
  }

  lemma WordByte(sectors: seq<Sector>, i: nat, k: nat)
    requires i < 128 * |sectors| && k < 4
    ensures SectorBytes(sectors)[4 * i + k] == sectors[i / 128][i % 128 * 4 + k]
  {
    SectorBytesAt(sectors, 4 * i + k);
    assert (4 * i + k) / 512 == i / 128 && (4 * i + k) % 512 == i % 128 * 4 + k;
  }

  /** The `n` sectors from `start` on are at the front of `data`. */
  ghost predicate Loaded(disk: Disk, start: nat, data: seq<byte>, n: nat)
    requires (n == 0 || start + n <= |disk|) && n * 512 <= |data|
  {
    forall o: nat :: o < n * 512 ==> data[o] == disk[start + o / 512][o % 512]
  }

  /** Reads sector `start + n` into its place behind `n` others. */
  method ReadSector(disk: Disk, start: nat, n: nat, buffer: array<byte>)
    requires start + n < |disk| && n * 512 + 512 <= buffer.Length && Loaded(disk, start, buffer[..], n)
    modifies buffer
    ensures Loaded(disk, start, buffer[..], n + 1)
  {
    ghost var was := buffer[..];
    var sector, offset := disk[start + n], n * 512;
    forall k | 0 <= k < 512 {
      buffer[offset + k] := sector[k];
    }
    forall o: nat | o < n * 512 + 512
      ensures buffer[o] == disk[start + o / 512][o % 512]
    {
      if o < offset {
        assert buffer[o] == was[o];
      } else {
        assert buffer[offset + (o - offset)] == sector[o - offset];
        assert o / 512 == n && o % 512 == o - offset;
      }
    }
  }

  /** `dst[at..at + n].copy_from_slice(&src[from..from + n])` */
  method CopySlice(src: array<byte>, from: nat, dst: array<byte>, at: nat, n: nat)
    requires from + n <= src.Length && at + n <= dst.Length && src != dst
    modifies dst
    ensures dst[..] == old(dst[..at]) + src[from..from + n] + old(dst[at + n..])
  {
    forall i | 0 <= i < n {
      dst[at + i] := src[from + i];
    }
    assert dst[at..at + n] == src[from..from + n];
    assert dst[..] == dst[..at] + dst[at..at + n] + dst[at + n..];
  }

  /** Writes `n` zeros from index `at`. */
  method ZeroSlice(dst: array<byte>, at: nat, n: nat)
    requires at + n <= dst.Length
    modifies dst
    ensures dst[..] == old(dst[..at]) + seq(n, _ => 0) + old(dst[at + n..])
  {
    for i := 0 to n
      invariant dst[..at] == old(dst[..at]) && dst[at + n..] == old(dst[at + n..])
      invariant forall j :: at <= j < at + i ==> dst[j] == 0
    {
      dst[at + i] := 0;
    }
    assert dst[at..at + n] == seq(n, _ => 0);
    assert dst[..] == dst[..at] + dst[at..at + n] + dst[at + n..];
  }
}
