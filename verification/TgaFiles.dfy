/** Writing a picture as a TGA file and decoding it again. The file is laid out as in the
    Truevision TGA File Format Specification 2.0, section "TGA file header". */
module TgaFiles {
  import opened Chunks
  import opened Colors
  import opened Storage
  import opened Tga
  import opened Words

  // ------------------------------------------------------------ pictures

  /** Rows of colours, the top row first. */
  datatype Picture = Picture(width: nat, rows: seq<seq<Color>>) {
    ghost predicate Valid() { width < 0x1_0000 && |rows| < 0x1_0000 && AllOfLength(rows, width) }
  }

  function Reversed<T>(s: seq<T>): seq<T> { if s == [] then [] else Reversed(s[1..]) + [s[0]] }

  lemma {:induction false} ReversedAt<T>(s: seq<T>, k: nat)
    requires k < |s|
    ensures |Reversed(s)| == |s| && Reversed(s)[k] == s[|s| - 1 - k]
  {
    if |s| > 1 {
      ReversedAt(s[1..], if k < |s| - 1 then k else 0);
    }
  }

  /** The colours in the order of the file. */
  function FileOrder(pic: Picture, topDown: bool): seq<Color> {
    Concat(if topDown then pic.rows else Reversed(pic.rows))
  }

  /** A colour's bytes in the file; three bytes carry no alpha. */
  function FileBytes(c: Color, bpp: nat): seq<byte> {
    [c.blue, c.green, c.red] + if bpp == 4 then [c.alpha] else []
  }

  function FileBytesEach(cs: seq<Color>, bpp: nat): seq<seq<byte>> {
    seq(|cs|, i requires 0 <= i < |cs| => FileBytes(cs[i], bpp))
  }

  /** A colour's bytes in the decoded image; without alpha it is opaque. */
  function ImageBytes(c: Color, bpp: nat): seq<byte> {
    [c.red, c.green, c.blue, if bpp == 4 then c.alpha else 255]
  }

  function ImageBytesEach(cs: seq<Color>, bpp: nat): seq<seq<byte>> {
    seq(|cs|, i requires 0 <= i < |cs| => ImageBytes(cs[i], bpp))
  }

  /** The decoded image: its rows from the top, each from the left. */
  function Rgba(pic: Picture, bpp: nat): seq<byte> { Concat(ImageBytesEach(Concat(pic.rows), bpp)) }

  // --------------------------------------------------------------- files

  /** What a file may hold besides its pixels: an identifier, a colour map with entries
      of so many bits, and header bytes that do not matter. */
  datatype Extras = Extras(
    id: seq<byte>, hasMap: bool, palette: seq<seq<byte>>, entryBits: byte, entryBytes: nat, mapStart: seq<byte>,
    origin: seq<byte>, alphaBits: nat, interleave: nat)
  {
    ghost predicate Valid() {
      && |id| < 0x100 && |palette| < 0x1_0000 && |mapStart| == 2 && |origin| == 4 && alphaBits < 32 && interleave < 4
      && AllOfLength(palette, entryBytes) && entryBits <= 8 * entryBytes < entryBits as int + 8
    }

    function MapBytes(): seq<byte> { if hasMap then Concat(palette) else [] }
  }

  function Word(n: nat): seq<byte>
    requires n < 0x1_0000
  {
    [n % 0x100, n / 0x100]
  }

  function Descriptor(topDown: bool, e: Extras): byte
    requires e.alphaBits < 32 && e.interleave < 4
  {
    64 * e.interleave + (if topDown then 32 else 0) + e.alphaBits
  }

  function FileHeader(kind: byte, pic: Picture, bpp: nat, topDown: bool, e: Extras): (header: seq<byte>)
    requires pic.width < 0x1_0000 && |pic.rows| < 0x1_0000 && 3 <= bpp <= 4
    requires |e.id| < 0x100 && |e.palette| < 0x1_0000 && |e.mapStart| == 2 && |e.origin| == 4
    requires e.alphaBits < 32 && e.interleave < 4
    ensures |header| == 18
  {
    [|e.id|, if e.hasMap then 1 else 0, kind] + e.mapStart + Word(|e.palette|) + [e.entryBits] + e.origin
    + Word(pic.width) + Word(|pic.rows|) + [8 * bpp, Descriptor(topDown, e)]
  }

  /** A file with these pixel bytes. */
  function File(kind: byte, pic: Picture, bpp: nat, topDown: bool, e: Extras, payload: seq<byte>): seq<byte>
    requires pic.width < 0x1_0000 && |pic.rows| < 0x1_0000 && 3 <= bpp <= 4
    requires |e.id| < 0x100 && |e.palette| < 0x1_0000 && |e.mapStart| == 2 && |e.origin| == 4
    requires e.alphaBits < 32 && e.interleave < 4
  {
    FileHeader(kind, pic, bpp, topDown, e) + (e.id + (e.MapBytes() + payload))
  }

  /** The pixel bytes of an uncompressed file. */
  function Uncompressed(pic: Picture, bpp: nat, topDown: bool): seq<byte> {
    Concat(FileBytesEach(FileOrder(pic, topDown), bpp))
  }

  lemma Le16Word(d: seq<byte>, i: nat, n: nat)
    requires n < 0x1_0000 && i + 2 <= |d| && d[i] == n % 0x100 && d[i + 1] == n / 0x100
    ensures Le16(d, i) == n
  {
  }

  lemma DescriptorBit(topDown: bool, e: Extras)
    requires e.alphaBits < 32 && e.interleave < 4
    ensures Descriptor(topDown, e) as int / 32 % 2 == 1 <==> topDown
  {
  }

  /** Decoding finds the header's fields and the pixel bytes where they were written. */
  lemma HeaderParses(kind: byte, pic: Picture, bpp: nat, topDown: bool, e: Extras, payload: seq<byte>)
    requires pic.Valid() && e.Valid() && 3 <= bpp <= 4 && (kind == 2 || kind == 10)
    ensures var d := File(kind, pic, bpp, topDown, e, payload);
            && !Rejected(d) && d[2] == kind
            && FormatOf(d) == Format(pic.width, |pic.rows|, topDown, bpp)
            && PayloadAt(d) <= |d| && d[PayloadAt(d)..] == payload
  {
    var h := FileHeader(kind, pic, bpp, topDown, e);
    var d := File(kind, pic, bpp, topDown, e, payload);
    assert forall i :: 0 <= i < 18 ==> d[i] == h[i];
    Le16Word(d, 12, pic.width);
    Le16Word(d, 14, |pic.rows|);
    Le16Word(d, 5, |e.palette|);
    DescriptorBit(topDown, e);
    MapLength(e);
    assert d[18 + |e.id| + |e.MapBytes()|..] == payload;
  }

  lemma MapLength(e: Extras)
    requires e.Valid()
    ensures |e.MapBytes()| == if e.hasMap then |e.palette| * ((e.entryBits as int + 7) / 8) else 0
  {
    ConcatLength(e.palette, e.entryBytes);
    TimesIs(|e.palette|, e.entryBytes);
  }

  // ------------------------------------------------------- reading pixels

  /** The colour that decoding gives for one written with so many bytes. */
  function Seen(c: Color, bpp: nat): Color { if bpp == 4 then c else Opaque(c.red, c.green, c.blue) }

  function SeenEach(cs: seq<Color>, bpp: nat): seq<Color> {
    seq(|cs|, i requires 0 <= i < |cs| => Seen(cs[i], bpp))
  }

  lemma {:induction false} JoinIsConcat(pixels: seq<PixelBytes>)
    ensures Join(pixels) == Concat(pixels)
  {
    if pixels != [] {
      JoinIsConcat(pixels[1..]);
    }
  }

  lemma {:induction false} ColorsAreSeen(cs: seq<Color>, bpp: nat)
    requires 3 <= bpp <= 4
    ensures forall p :: p in FileBytesEach(cs, bpp) ==> |p| == bpp
    ensures ColorsOf(FileBytesEach(cs, bpp), bpp) == SeenEach(cs, bpp)
  {
    if cs != [] {
      assert FileBytesEach(cs, bpp)[1..] == FileBytesEach(cs[1..], bpp);
      ColorsAreSeen(cs[1..], bpp);
      assert SeenEach(cs, bpp) == [Seen(cs[0], bpp)] + SeenEach(cs[1..], bpp);
    }
  }

  lemma ReadBack(pic: Picture, bpp: nat, topDown: bool)
    requires 3 <= bpp <= 4
    ensures RawColors(Uncompressed(pic, bpp, topDown), 0, bpp) == SeenEach(FileOrder(pic, topDown), bpp)
  {
    var cs := FileOrder(pic, topDown);
    var pixels := FileBytesEach(cs, bpp);
    ColorsAreSeen(cs, bpp);
    JoinIsConcat(pixels);
    RawJoin(pixels, [], bpp);
    assert Join(pixels) + [] == Join(pixels) && RawColors([], 0, bpp) == [];
  }

  // ------------------------------------------------------ placing pixels

  /** Column `x` of row `y` is place `y * w + x`. */
  lemma {:induction false} PlaceAt(y: nat, x: nat, w: nat)
    requires x < w
    ensures Quot(Times(y, w) + x, w) == y && Rem(Times(y, w) + x, w) == x
  {
    if y > 0 {
      PlaceAt(y - 1, x, w);
      assert Times(y, w) + x - w == Times(y - 1, w) + x;
    }
  }

  /** The place in the file of the pixel in column `x` of row `y` of the picture. */
  lemma FilePlace(pic: Picture, topDown: bool, f: Format, x: nat, y: nat) returns (n: nat)
    requires pic.Valid() && f.width == pic.width && f.height == |pic.rows| && f.topDown == topDown
    requires x < pic.width && y < |pic.rows|
    ensures n < |FileOrder(pic, topDown)| && FileOrder(pic, topDown)[n] == pic.rows[y][x]
    ensures Quot(n, f.width) < f.height && Rem(n, f.width) == x && f.DstRow(Quot(n, f.width)) == y
  {
    var h := |pic.rows|;
    var rows := if topDown then pic.rows else Reversed(pic.rows);
    var row := if topDown then y else h - 1 - y;
    if !topDown {
      ReversedAt(pic.rows, row);
      ReversedLengths(pic.rows, pic.width);
    }
    n := Times(row, pic.width) + x;
    PlaceAt(row, x, pic.width);
    ConcatLength(rows, pic.width);
    TimesMonotone(row + 1, h, pic.width);
    ConcatAt(rows, pic.width, n);
  }

  lemma ReversedLengths<T>(rows: seq<seq<T>>, w: nat)
    requires AllOfLength(rows, w)
    ensures |Reversed(rows)| == |rows| && AllOfLength(Reversed(rows), w)
  {
    if rows != [] {
      ReversedAt(rows, 0);
    }
    forall i | 0 <= i < |Reversed(rows)|
      ensures |Reversed(rows)[i]| == w
    {
      if rows != [] {
        ReversedAt(rows, i);
      }
    }
  }

  lemma PaintedPlace(pic: Picture, bpp: nat, f: Format, x: nat, y: nat)
    requires pic.Valid() && f == Format(pic.width, |pic.rows|, f.topDown, bpp)
    requires x < pic.width && y < |pic.rows|
    ensures PixelOf(f, Paint(f, Transparent(f), SeenEach(FileOrder(pic, f.topDown), bpp)), x, y)
         == Seen(pic.rows[y][x], bpp)
  {
    var n := FilePlace(pic, f.topDown, f, x, y);
    PaintedPixel(f, Transparent(f), SeenEach(FileOrder(pic, f.topDown), bpp), n);
  }

  /** Bytes whose pixels are the picture's are the picture's bytes. */
  lemma PixelsMakeImage(pic: Picture, bpp: nat, f: Format, data: seq<byte>)
    requires pic.Valid() && f.width == pic.width && f.height == |pic.rows| && |data| == f.ByteCount()
    requires forall x: nat, y: nat :: x < pic.width && y < |pic.rows| ==>
               PixelOf(f, data, x, y) == Seen(pic.rows[y][x], bpp)
    ensures data == Rgba(pic, bpp)
  {
    var cs := Concat(pic.rows);
    var quads := ImageBytesEach(cs, bpp);
    ConcatLength(pic.rows, pic.width);
    ConcatLength(quads, 4);
    TimesIs(|quads|, 4);
    forall i: nat | i < |data|
      ensures data[i] == Rgba(pic, bpp)[i]
    {
      ConcatAt(quads, 4, i);
      ByteIs(pic, bpp, f, data, Quot(i, 4), Rem(i, 4));
      QuotRemAre(i, 4);
    }
  }

  lemma ByteIs(pic: Picture, bpp: nat, f: Format, data: seq<byte>, n: nat, k: nat)
    requires pic.Valid() && f.width == pic.width && f.height == |pic.rows| && |data| == f.ByteCount()
    requires forall x: nat, y: nat :: x < pic.width && y < |pic.rows| ==>
               PixelOf(f, data, x, y) == Seen(pic.rows[y][x], bpp)
    requires n < |Concat(pic.rows)| && k < 4 && 4 * n + k < |data|
    ensures data[4 * n + k] == ImageBytes(Concat(pic.rows)[n], bpp)[k]
  {
    ConcatLength(pic.rows, pic.width);
    if pic.width == 0 {
      TimesZero(|pic.rows|);
      assert false;
    }
    var x, y := Rem(n, pic.width), Quot(n, pic.width);
    ConcatAt(pic.rows, pic.width, n);
    QuotRemTimes(n, pic.width);
    PixelInside(f, x, y);
    assert PixelOf(f, data, x, y) == Seen(pic.rows[y][x], bpp);
  }

  lemma {:induction false} TimesZero(n: nat)
    ensures Times(n, 0) == 0
  {
    if n > 0 {
      TimesZero(n - 1);
    }
  }

  lemma PaintedImage(pic: Picture, bpp: nat, f: Format)
    requires pic.Valid() && f == Format(pic.width, |pic.rows|, f.topDown, bpp)
    ensures Paint(f, Transparent(f), SeenEach(FileOrder(pic, f.topDown), bpp)) == Rgba(pic, bpp)
  {
    forall x: nat, y: nat | x < pic.width && y < |pic.rows|
      ensures PixelOf(f, Paint(f, Transparent(f), SeenEach(FileOrder(pic, f.topDown), bpp)), x, y)
           == Seen(pic.rows[y][x], bpp)
    {
      PaintedPlace(pic, bpp, f, x, y);
    }
    PixelsMakeImage(pic, bpp, f, Paint(f, Transparent(f), SeenEach(FileOrder(pic, f.topDown), bpp)));
  }

  // --------------------------------------------------------- round trips

  /** The image can be made: its bytes can be counted in 32 bits. */
  predicate SizeFits(pic: Picture) { |pic.rows| * pic.width * 4 < U32 }

  lemma SizeFitsIs(f: Format, pic: Picture)
    requires pic.Valid() && f.width == pic.width && f.height == |pic.rows| && 3 <= f.bytesPerPixel <= 4
    ensures f.Valid() <==> SizeFits(pic)
  {
    TimesIs(f.height, f.width);
  }

  /** An uncompressed file decodes to the picture it was written from, in either row
      order and pixel size and whatever else the file holds; it cannot be decoded
      exactly when the image is too large. */
  lemma RawRoundTrip(pic: Picture, bpp: nat, topDown: bool, e: Extras)
    requires pic.Valid() && e.Valid() && 3 <= bpp <= 4
    ensures var d := File(2, pic, bpp, topDown, e, Uncompressed(pic, bpp, topDown));
            && !Rejected(d) && (Panics(d) <==> !SizeFits(pic))
            && FormatOf(d) == Format(pic.width, |pic.rows|, topDown, bpp)
            && (SizeFits(pic) ==> TgaPixels(d) == Rgba(pic, bpp))
  {
    var f := Format(pic.width, |pic.rows|, topDown, bpp);
    HeaderParses(2, pic, bpp, topDown, e, Uncompressed(pic, bpp, topDown));
    SizeFitsIs(f, pic);
    ReadBack(pic, bpp, topDown);
    PaintedImage(pic, bpp, f);
  }

  /** So does a run-length file, however its packets cut up the same pixels. */
  lemma RleRoundTrip(pic: Picture, bpp: nat, topDown: bool, e: Extras, ps: seq<Packet>)
    requires pic.Valid() && e.Valid() && 3 <= bpp <= 4
    requires ValidStream(ps, bpp) && UnpackedAll(ps) == Uncompressed(pic, bpp, topDown)
    ensures var d := File(10, pic, bpp, topDown, e, EncodeAll(ps, bpp));
            && !Rejected(d) && (Panics(d) <==> !SizeFits(pic))
            && FormatOf(d) == Format(pic.width, |pic.rows|, topDown, bpp)
            && (SizeFits(pic) ==> TgaPixels(d) == Rgba(pic, bpp))
  {
    var f := Format(pic.width, |pic.rows|, topDown, bpp);
    var rle := File(10, pic, bpp, topDown, e, EncodeAll(ps, bpp));
    var raw := File(2, pic, bpp, topDown, e, Uncompressed(pic, bpp, topDown));
    HeaderParses(10, pic, bpp, topDown, e, EncodeAll(ps, bpp));
    HeaderParses(2, pic, bpp, topDown, e, Uncompressed(pic, bpp, topDown));
    SizeFitsIs(f, pic);
    if SizeFits(pic) {
      RawRoundTrip(pic, bpp, topDown, e);
      StreamSize(pic, bpp, topDown, ps);
      ExactRleEqualsRaw(rle, raw, ps);
    }
  }

  /** A stream of the picture's bytes has the picture's number of pixels. */
  lemma StreamSize(pic: Picture, bpp: nat, topDown: bool, ps: seq<Packet>)
    requires pic.Valid() && 3 <= bpp <= 4
    requires ValidStream(ps, bpp) && UnpackedAll(ps) == Uncompressed(pic, bpp, topDown)
    ensures Sum(Sizes(ps)) == pic.width * |pic.rows|
  {
    UnpackedLength(ps, bpp);
    UncompressedLength(pic, bpp, topDown);
    SameMultiple(Sum(Sizes(ps)), Times(|pic.rows|, pic.width), bpp);
    TimesIs(|pic.rows|, pic.width);
  }

  lemma UncompressedLength(pic: Picture, bpp: nat, topDown: bool)
    requires pic.Valid() && 3 <= bpp <= 4
    ensures |Uncompressed(pic, bpp, topDown)| == Times(Times(|pic.rows|, pic.width), bpp)
  {
    ReversedLengths(pic.rows, pic.width);
    ConcatLength(if topDown then pic.rows else Reversed(pic.rows), pic.width);
    ConcatLength(FileBytesEach(FileOrder(pic, topDown), bpp), bpp);
  }

  lemma {:induction false} UnpackedLength(ps: seq<Packet>, bpp: nat)
    requires ValidStream(ps, bpp)
    ensures |UnpackedAll(ps)| == Times(Sum(Sizes(ps)), bpp)
  {
    if ps != [] {
      assert ps[0].Valid(bpp) && ValidStream(ps[1..], bpp);
      UnpackedLength(ps[1..], bpp);
      LengthStep(ps, bpp);
    }
  }

  lemma LengthStep(ps: seq<Packet>, bpp: nat)
    requires ps != [] && ps[0].Valid(bpp) && |UnpackedAll(ps[1..])| == Times(Sum(Sizes(ps[1..])), bpp)
    ensures |UnpackedAll(ps)| == Times(Sum(Sizes(ps)), bpp)
  {
    PacketLength(ps[0], bpp);
    SizesSum(ps);
    TimesAdd(|PacketPixels(ps[0])|, Sum(Sizes(ps[1..])), bpp);
  }

  lemma PacketLength(p: Packet, bpp: nat)
    requires p.Valid(bpp)
    ensures |Unpacked(p)| == Times(|PacketPixels(p)|, bpp)
  {
    assert Unpacked(p) == Join(PacketPixels(p));
    JoinLength(PacketPixels(p), bpp);
  }

  lemma SizesSum(ps: seq<Packet>)
    requires ps != []
    ensures Sum(Sizes(ps)) == |PacketPixels(ps[0])| + Sum(Sizes(ps[1..]))
  {
    var n, rest := |PacketPixels(ps[0])|, Sizes(ps[1..]);
    assert ([n] + rest)[1..] == rest;
  }

  lemma TimesAdd(a: nat, b: nat, m: nat)
    ensures Times(a + b, m) == Times(a, m) + Times(b, m)
  {
    TimesIs(a + b, m);
    TimesIs(a, m);
    TimesIs(b, m);
  }

  lemma SameMultiple(a: nat, b: nat, m: nat)
    requires m > 0 && Times(a, m) == Times(b, m)
    ensures a == b
  {
    TimesIs(a, m);
    TimesIs(b, m);
    assert a > b ==> (a - b) * m >= m;
    assert b > a ==> (b - a) * m >= m;
  }
}
