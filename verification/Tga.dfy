/** TGA decoding: the run-length branch against the uncompressed branch. */
module Tga {
  import opened Chunks
  import opened Colors
  import opened Storage
  import opened Wrappers
  import opened Words

  // ----------------------------------------------------------- painting

  /** Size of an image, its row order in the file and its bytes per pixel. */
  datatype Format = Format(width: nat, height: nat, topDown: bool, bytesPerPixel: nat) {
    predicate Valid() {
      && width < 0x1_0000 && height < 0x1_0000 && ByteCount() < U32
      && 3 <= bytesPerPixel <= 4
    }

    /** Bytes of the RGBA image. */
    function ByteCount(): nat { Times(height, width) * 4 }

    /** Image row that the file's row `y` goes to. */
    function DstRow(y: nat): nat { if topDown || y >= height then y else height - 1 - y }

    /** Pixels after which the write position enters the next row; an image without
        columns still moves down with every pixel. */
    function Stride(): (s: nat)
      ensures s > 0
    {
      if width == 0 then 1 else width
    }

    /** Pixels that fit before the write position leaves the last row. */
    function Room(): nat { Times(height, Stride()) }
  }

  /** RGBA bytes after one pixel has been set; outside the image nothing happens. */
  function PutPixel(f: Format, data: seq<byte>, x: nat, y: nat, c: Color): (r: seq<byte>)
    requires |data| == f.ByteCount()
    ensures |r| == |data|
  {
    if x >= f.width || y >= f.height then data
    else
      PixelInside(f, x, y);
      var i := (Times(y, f.width) + x) * 4;
      data[i := c.red][i + 1 := c.green][i + 2 := c.blue][i + 3 := c.alpha]
  }

  lemma PixelInside(f: Format, x: nat, y: nat)
    requires x < f.width && y < f.height
    ensures (Times(y, f.width) + x) * 4 + 4 <= f.ByteCount()
  {
    TimesMonotone(y + 1, f.height, f.width);
  }

  /** Pixel number `n` of the file, in reading order. */
  function PaintAt(f: Format, data: seq<byte>, n: nat, c: Color): (r: seq<byte>)
    requires |data| == f.ByteCount()
    ensures |r| == |data|
  {
    if f.width == 0 then data
    else PutPixel(f, data, Rem(n, f.width), f.DstRow(Quot(n, f.width)), c)
  }

  /** The pixels painted in turn, each in its place in the file. */
  function Paint(f: Format, data: seq<byte>, cs: seq<Color>): (r: seq<byte>)
    requires |data| == f.ByteCount()
    ensures |r| == |data|
    decreases |cs|
  {
    if cs == [] then data
    else PaintAt(f, Paint(f, data, cs[..|cs| - 1]), |cs| - 1, cs[|cs| - 1])
  }

  lemma PaintOneMore(f: Format, data: seq<byte>, cs: seq<Color>, c: Color)
    requires |data| == f.ByteCount()
    ensures Paint(f, data, cs + [c]) == PaintAt(f, Paint(f, data, cs), |cs|, c)
  {
    assert (cs + [c])[..|cs|] == cs;
  }

  /** Pixels past the last row leave no trace. */
  lemma {:induction false} PaintEnough(f: Format, data: seq<byte>, cs: seq<Color>, rest: seq<Color>)
    requires |data| == f.ByteCount()
    requires rest == [] || (f.width > 0 ==> Quot(|cs|, f.width) >= f.height)
    ensures Paint(f, data, cs + rest) == Paint(f, data, cs)
    decreases |rest|
  {
    if rest == [] {
      assert cs + rest == cs;
    } else {
      var r, c := rest[..|rest| - 1], rest[|rest| - 1];
      assert cs + rest == cs + r + [c];
      PaintEnough(f, data, cs, r);
      PaintOneMore(f, data, cs + r, c);
      OutsideIsIgnored(f, Paint(f, data, cs), |cs|, |cs + r|, c);
    }
  }

  lemma OutsideIsIgnored(f: Format, data: seq<byte>, n: nat, m: nat, c: Color)
    requires |data| == f.ByteCount() && n <= m
    requires f.width > 0 ==> Quot(n, f.width) >= f.height
    ensures PaintAt(f, data, m, c) == data
  {
    if f.width > 0 {
      QuotMonotone(n, m, f.width);
    }
  }

  /** Colour of a pixel; transparent outside the image. */
  function PixelOf(f: Format, data: seq<byte>, x: nat, y: nat): Color
    requires |data| == f.ByteCount()
  {
    if x >= f.width || y >= f.height then Color(0, 0, 0, 0)
    else
      PixelInside(f, x, y);
      var i := (Times(y, f.width) + x) * 4;
      Color(data[i], data[i + 1], data[i + 2], data[i + 3])
  }

  lemma PlacesApart(w: nat, x: nat, y: nat, x': nat, y': nat)
    requires x < w && x' < w && (x != x' || y != y')
    ensures Times(y, w) + x != Times(y', w) + x'
  {
    if y < y' {
      TimesMonotone(y + 1, y', w);
    } else if y' < y {
      TimesMonotone(y' + 1, y, w);
    }
  }

  /** Setting a pixel changes that pixel and no other. */
  lemma SetThenGet(f: Format, data: seq<byte>, x: nat, y: nat, c: Color, x': nat, y': nat)
    requires |data| == f.ByteCount() && x' < f.width && y' < f.height
    ensures PixelOf(f, PutPixel(f, data, x, y, c), x', y')
         == if x == x' && y == y' then c else PixelOf(f, data, x', y')
  {
    PixelInside(f, x', y');
    if x < f.width && y < f.height && (x != x' || y != y') {
      PixelInside(f, x, y);
      PlacesApart(f.width, x, y, x', y');
    }
  }

  /** Pixel `n` of the file is seen at column `n mod width` of row `n div width`,
      counted from the top or from the bottom. */
  lemma {:induction false} PaintedPixel(f: Format, data: seq<byte>, cs: seq<Color>, n: nat)
    requires |data| == f.ByteCount() && f.width > 0 && n < |cs| && Quot(n, f.width) < f.height
    ensures PixelOf(f, Paint(f, data, cs), Rem(n, f.width), f.DstRow(Quot(n, f.width))) == cs[n]
    decreases |cs|
  {
    var m := |cs| - 1;
    SetThenGet(f, Paint(f, data, cs[..m]), Rem(m, f.width), f.DstRow(Quot(m, f.width)), cs[m],
               Rem(n, f.width), f.DstRow(Quot(n, f.width)));
    if n < m {
      PaintedPixel(f, data, cs[..m], n);
      PixelsApart(f, n, m);
    }
  }

  lemma PixelsApart(f: Format, n: nat, m: nat)
    requires f.width > 0 && n != m && Quot(n, f.width) < f.height
    ensures Rem(n, f.width) != Rem(m, f.width) || f.DstRow(Quot(n, f.width)) != f.DstRow(Quot(m, f.width))
  {
    QuotRemTimes(n, f.width);
    QuotRemTimes(m, f.width);
  }

  // ------------------------------------------------- colours in a payload

  function ColorAt(d: seq<byte>, i: nat, bpp: nat): Color
    requires 3 <= bpp <= 4 && i + bpp <= |d|
  {
    if bpp == 3 then Opaque(d[i + 2], d[i + 1], d[i]) else Color(d[i + 2], d[i + 1], d[i], d[i + 3])
  }

  /** The whole pixels of an uncompressed payload from index `i` on. */
  function RawColors(d: seq<byte>, i: nat, bpp: nat): seq<Color>
    requires 3 <= bpp <= 4
    decreases if i < |d| then |d| - i else 0
  {
    if i + bpp > |d| then [] else [ColorAt(d, i, bpp)] + RawColors(d, i + bpp, bpp)
  }

  function Copies(c: Color, count: nat): seq<Color> { seq(count, _ => c) }

  /** Up to `count` whole pixels from index `i` on. */
  function RawRun(d: seq<byte>, i: nat, count: nat, bpp: nat): (cs: seq<Color>)
    requires 3 <= bpp <= 4
    ensures |cs| <= count && (cs != [] ==> i + Times(|cs|, bpp) <= |d|)
    decreases count
  {
    if count == 0 || i + bpp > |d| then []
    else
      var rest := RawRun(d, i + bpp, count - 1, bpp);
      [ColorAt(d, i, bpp)] + rest
  }

  /** One packet at index `i`: its pixels and the index after it. A run whose
      pixel is cut off ends the payload. */
  function PacketAt(d: seq<byte>, i: nat, bpp: nat): (r: (seq<Color>, nat))
    requires 3 <= bpp <= 4 && i < |d|
    ensures i < r.1 <= |d| && |r.0| <= 128
  {
    var count := d[i] as int % 128 + 1;
    if d[i] >= 128 then
      if i + 1 + bpp > |d| then ([], |d|) else (Copies(ColorAt(d, i + 1, bpp), count), i + 1 + bpp)
    else
      var run := RawRun(d, i + 1, count, bpp);
      (run, i + 1 + Times(|run|, bpp))
  }

  /** The pixels a run-length payload stands for, from index `i` on. */
  function Expand(d: seq<byte>, i: nat, bpp: nat): seq<Color>
    requires 3 <= bpp <= 4
    decreases if i < |d| then |d| - i else 0
  {
    if i >= |d| then []
    else PacketAt(d, i, bpp).0 + Expand(d, PacketAt(d, i, bpp).1, bpp)
  }

  // ------------------------------------------------------ packet streams

  type PixelBytes = seq<byte>

  datatype Packet = Run(count: nat, pixel: PixelBytes) | Literal(pixels: seq<PixelBytes>) {
    predicate Valid(bpp: nat) {
      match this
      case Run(count, pixel) => 1 <= count <= 128 && |pixel| == bpp
      case Literal(pixels) => 1 <= |pixels| <= 128 && forall p :: p in pixels ==> |p| == bpp
    }
  }

  predicate ValidStream(ps: seq<Packet>, bpp: nat) { forall p :: p in ps ==> p.Valid(bpp) }

  function Join(pixels: seq<PixelBytes>): seq<byte> {
    if pixels == [] then [] else pixels[0] + Join(pixels[1..])
  }

  function Header(p: Packet, bpp: nat): byte
    requires p.Valid(bpp)
  {
    match p
    case Run(count, _) => 128 + count - 1
    case Literal(pixels) => |pixels| - 1
  }

  /** A packet's bytes in the file. */
  function Encode(p: Packet, bpp: nat): seq<byte>
    requires p.Valid(bpp)
  {
    match p
    case Run(_, pixel) => [Header(p, bpp)] + pixel
    case Literal(pixels) => [Header(p, bpp)] + Join(pixels)
  }

  function EncodeAll(ps: seq<Packet>, bpp: nat): seq<byte>
    requires ValidStream(ps, bpp)
  {
    if ps == [] then [] else Encode(ps[0], bpp) + EncodeAll(ps[1..], bpp)
  }

  /** The uncompressed bytes a packet stands for. */
  function Unpacked(p: Packet): seq<byte> {
    match p
    case Run(count, pixel) => Join(seq(count, _ => pixel))
    case Literal(pixels) => Join(pixels)
  }

  function UnpackedAll(ps: seq<Packet>): seq<byte> {
    if ps == [] then [] else Unpacked(ps[0]) + UnpackedAll(ps[1..])
  }

  function ColorsOf(pixels: seq<PixelBytes>, bpp: nat): (cs: seq<Color>)
    requires 3 <= bpp <= 4 && forall p :: p in pixels ==> |p| == bpp
    ensures |cs| == |pixels|
  {
    if pixels == [] then [] else [ColorAt(pixels[0], 0, bpp)] + ColorsOf(pixels[1..], bpp)
  }

  /** Reading starts over at `i`: only the bytes from there on matter. */
  lemma {:induction false} RawShift(a: seq<byte>, d: seq<byte>, i: nat, bpp: nat)
    requires 3 <= bpp <= 4
    ensures RawColors(a + d, |a| + i, bpp) == RawColors(d, i, bpp)
    decreases if i < |d| then |d| - i else 0
  {
    if i + bpp <= |d| {
      RawShift(a, d, i + bpp, bpp);
      RawStep(d, i, bpp);
      RawStep(a + d, |a| + i, bpp);
      ColorShift(a, d, i, bpp);
    }
  }

  lemma RawStep(d: seq<byte>, i: nat, bpp: nat)
    requires 3 <= bpp <= 4 && i + bpp <= |d|
    ensures RawColors(d, i, bpp) == [ColorAt(d, i, bpp)] + RawColors(d, i + bpp, bpp)
  {
  }

  lemma ColorShift(a: seq<byte>, d: seq<byte>, i: nat, bpp: nat)
    requires 3 <= bpp <= 4 && i + bpp <= |d|
    ensures ColorAt(a + d, |a| + i, bpp) == ColorAt(d, i, bpp)
  {
  }

  /** The first pixel of a payload, then the rest. */
  lemma RawFirst(pixel: PixelBytes, tail: seq<byte>, bpp: nat)
    requires 3 <= bpp <= 4 && |pixel| == bpp
    ensures RawColors(pixel + tail, 0, bpp) == [ColorAt(pixel, 0, bpp)] + RawColors(tail, 0, bpp)
  {
    RawStep(pixel + tail, 0, bpp);
    ColorPrefix(pixel, tail, bpp);
    RawShift(pixel, tail, 0, bpp);
  }

  lemma {:induction false} RawJoin(pixels: seq<PixelBytes>, rest: seq<byte>, bpp: nat)
    requires 3 <= bpp <= 4 && forall p :: p in pixels ==> |p| == bpp
    ensures RawColors(Join(pixels) + rest, 0, bpp) == ColorsOf(pixels, bpp) + RawColors(rest, 0, bpp)
  {
    if pixels == [] {
      assert Join(pixels) + rest == rest;
    } else {
      var tail := Join(pixels[1..]) + rest;
      Assoc(pixels[0], Join(pixels[1..]), rest);
      RawJoin(pixels[1..], rest, bpp);
      RawFirst(pixels[0], tail, bpp);
      Assoc([ColorAt(pixels[0], 0, bpp)], ColorsOf(pixels[1..], bpp), RawColors(rest, 0, bpp));
    }
  }

  lemma {:induction false} RunShift(a: seq<byte>, d: seq<byte>, i: nat, count: nat, bpp: nat)
    requires 3 <= bpp <= 4
    ensures RawRun(a + d, |a| + i, count, bpp) == RawRun(d, i, count, bpp)
    decreases count
  {
    if count > 0 && i + bpp <= |d| {
      RunShift(a, d, i + bpp, count - 1, bpp);
      assert |a| + (i + bpp) == |a| + i + bpp;
    }
  }

  lemma PacketShift(a: seq<byte>, d: seq<byte>, i: nat, bpp: nat)
    requires 3 <= bpp <= 4 && i < |d|
    ensures PacketAt(a + d, |a| + i, bpp) == (PacketAt(d, i, bpp).0, |a| + PacketAt(d, i, bpp).1)
  {
    assert (a + d)[|a| + i] == d[i];
    RunShift(a, d, i + 1, d[i] as int % 128 + 1, bpp);
    assert |a| + (i + 1) == |a| + i + 1;
  }

  lemma {:induction false} ExpandShift(a: seq<byte>, d: seq<byte>, i: nat, bpp: nat)
    requires 3 <= bpp <= 4
    ensures Expand(a + d, |a| + i, bpp) == Expand(d, i, bpp)
    decreases if i < |d| then |d| - i else 0
  {
    if i < |d| {
      ExpandShift(a, d, PacketAt(d, i, bpp).1, bpp);
      ShiftOnePacket(a, d, i, bpp);
    } else {
      assert Expand(a + d, |a| + i, bpp) == [];
    }
  }

  lemma ShiftOnePacket(a: seq<byte>, d: seq<byte>, i: nat, bpp: nat)
    requires 3 <= bpp <= 4 && i < |d|
    requires Expand(a + d, |a| + PacketAt(d, i, bpp).1, bpp) == Expand(d, PacketAt(d, i, bpp).1, bpp)
    ensures Expand(a + d, |a| + i, bpp) == Expand(d, i, bpp)
  {
    PacketShift(a, d, i, bpp);
    ExpandStep(d, i, bpp);
    ExpandStep(a + d, |a| + i, bpp);
  }

  lemma ExpandStep(d: seq<byte>, i: nat, bpp: nat)
    requires 3 <= bpp <= 4 && i < |d|
    ensures Expand(d, i, bpp) == PacketAt(d, i, bpp).0 + Expand(d, PacketAt(d, i, bpp).1, bpp)
  {
  }

  lemma {:induction false} RunJoin(pixels: seq<PixelBytes>, rest: seq<byte>, bpp: nat)
    requires 3 <= bpp <= 4 && forall p :: p in pixels ==> |p| == bpp
    ensures RawRun(Join(pixels) + rest, 0, |pixels|, bpp) == ColorsOf(pixels, bpp)
  {
    if pixels != [] {
      var tail := Join(pixels[1..]) + rest;
      Assoc(pixels[0], Join(pixels[1..]), rest);
      RunJoin(pixels[1..], rest, bpp);
      RunShift(pixels[0], tail, 0, |pixels| - 1, bpp);
      ColorPrefix(pixels[0], tail, bpp);
    }
  }

  lemma ColorPrefix(pixel: PixelBytes, tail: seq<byte>, bpp: nat)
    requires 3 <= bpp <= 4 && |pixel| == bpp
    ensures ColorAt(pixel + tail, 0, bpp) == ColorAt(pixel, 0, bpp)
  {
  }

  lemma {:induction false} JoinLength(pixels: seq<PixelBytes>, bpp: nat)
    requires forall p :: p in pixels ==> |p| == bpp
    ensures |Join(pixels)| == Times(|pixels|, bpp)
  {
    if pixels != [] {
      JoinLength(pixels[1..], bpp);
    }
  }

  lemma Assoc<T>(a: seq<T>, b: seq<T>, c: seq<T>)
    ensures a + b + c == a + (b + c)
  {
  }

  /** The pixels a packet stands for. */
  function PacketPixels(p: Packet): seq<PixelBytes> {
    match p
    case Run(count, pixel) => seq(count, _ => pixel)
    case Literal(pixels) => pixels
  }

  lemma {:induction false} CopiesAre(pixel: PixelBytes, count: nat, bpp: nat)
    requires 3 <= bpp <= 4 && |pixel| == bpp
    ensures ColorsOf(seq(count, _ => pixel), bpp) == Copies(ColorAt(pixel, 0, bpp), count)
  {
    if count > 0 {
      assert seq(count, _ => pixel)[1..] == seq(count - 1, _ => pixel);
      CopiesAre(pixel, count - 1, bpp);
    }
  }

  /** Parsing gives back the packet that was written. */
  lemma PacketParses(p: Packet, rest: seq<byte>, bpp: nat)
    requires 3 <= bpp <= 4 && p.Valid(bpp)
    ensures PacketAt(Encode(p, bpp) + rest, 0, bpp) == (ColorsOf(PacketPixels(p), bpp), |Encode(p, bpp)|)
  {
    match p {
      case Run(count, pixel) => RunParses(p, rest, bpp);
      case Literal(pixels) => LiteralParses(p, rest, bpp);
    }
  }

  lemma RunParses(p: Packet, rest: seq<byte>, bpp: nat)
    requires 3 <= bpp <= 4 && p.Run? && p.Valid(bpp)
    ensures PacketAt(Encode(p, bpp) + rest, 0, bpp) == (ColorsOf(PacketPixels(p), bpp), |Encode(p, bpp)|)
  {
    var d := Encode(p, bpp) + rest;
    CopiesAre(p.pixel, p.count, bpp);
    assert forall k :: 0 <= k < bpp ==> d[1 + k] == p.pixel[k];
    assert ColorAt(d, 1, bpp) == ColorAt(p.pixel, 0, bpp);
    assert d[0] == 128 + p.count - 1;
  }

  lemma LiteralParses(p: Packet, rest: seq<byte>, bpp: nat)
    requires 3 <= bpp <= 4 && p.Literal? && p.Valid(bpp)
    ensures PacketAt(Encode(p, bpp) + rest, 0, bpp) == (ColorsOf(PacketPixels(p), bpp), |Encode(p, bpp)|)
  {
    var header, d := Header(p, bpp), Join(p.pixels) + rest;
    JoinLength(p.pixels, bpp);
    Assoc([header], Join(p.pixels), rest);
    LiteralRun(header, p.pixels, rest, bpp);
    LiteralAt(header, d, bpp);
  }

  lemma LiteralRun(header: byte, pixels: seq<PixelBytes>, rest: seq<byte>, bpp: nat)
    requires 3 <= bpp <= 4 && forall p :: p in pixels ==> |p| == bpp
    ensures RawRun([header] + (Join(pixels) + rest), 1, |pixels|, bpp) == ColorsOf(pixels, bpp)
  {
    var d := Join(pixels) + rest;
    RunJoin(pixels, rest, bpp);
    RunShift([header], d, 0, |pixels|, bpp);
  }

  lemma LiteralAt(header: byte, d: seq<byte>, bpp: nat)
    requires 3 <= bpp <= 4 && header < 128
    ensures var run := RawRun([header] + d, 1, header as int + 1, bpp);
            PacketAt([header] + d, 0, bpp) == (run, 1 + Times(|run|, bpp))
  {
  }

  lemma ExpandPacket(p: Packet, rest: seq<byte>, bpp: nat)
    requires 3 <= bpp <= 4 && p.Valid(bpp)
    ensures Expand(Encode(p, bpp) + rest, 0, bpp) == ColorsOf(PacketPixels(p), bpp) + Expand(rest, 0, bpp)
  {
    PacketParses(p, rest, bpp);
    ExpandFirst(Encode(p, bpp), rest, ColorsOf(PacketPixels(p), bpp), bpp);
  }

  lemma ExpandFirst(packet: seq<byte>, rest: seq<byte>, cs: seq<Color>, bpp: nat)
    requires 3 <= bpp <= 4 && packet != [] && PacketAt(packet + rest, 0, bpp) == (cs, |packet|)
    ensures Expand(packet + rest, 0, bpp) == cs + Expand(rest, 0, bpp)
  {
    ExpandStep(packet + rest, 0, bpp);
    ExpandRest(packet, rest, bpp);
  }

  lemma ExpandRest(packet: seq<byte>, rest: seq<byte>, bpp: nat)
    requires 3 <= bpp <= 4
    ensures Expand(packet + rest, |packet|, bpp) == Expand(rest, 0, bpp)
  {
    ExpandShift(packet, rest, 0, bpp);
  }

  /** Every packet stream expands to the pixels of its unpacked bytes. */
  lemma {:induction false} ExpandIsUnpack(ps: seq<Packet>, bpp: nat)
    requires 3 <= bpp <= 4 && ValidStream(ps, bpp)
    ensures Expand(EncodeAll(ps, bpp), 0, bpp) == RawColors(UnpackedAll(ps), 0, bpp)
  {
    if ps != [] {
      var rest := EncodeAll(ps[1..], bpp);
      ExpandPacket(ps[0], rest, bpp);
      ExpandIsUnpack(ps[1..], bpp);
      assert Unpacked(ps[0]) == Join(PacketPixels(ps[0]));
      RawJoin(PacketPixels(ps[0]), UnpackedAll(ps[1..]), bpp);
    }
  }

  // ------------------------------------------------------------ decoding

  class Image {
    const format: Format
    const data: array<byte>

    ghost predicate Valid()
    {
      format.Valid() && data.Length == format.ByteCount()
    }

    constructor (format: Format)
      requires format.Valid()
      ensures Valid() && this.format == format && fresh(data) && data[..] == Transparent(format)
    {
      this.format := format;
      TimesIs(format.height, format.width);
      data := new byte[format.height * format.width * 4](_ => 0);
    }

    method SetPixel(x: nat, y: nat, c: Color)
      requires Valid()
      modifies data
      ensures data[..] == PutPixel(format, old(data[..]), x, y, c)
    {
      if x >= format.width || y >= format.height {
        return;
      }
      PixelInside(format, x, y);
      TimesIs(y, format.width);
      var idx := (y * format.width + x) * 4;
      data[idx] := c.red;
      data[idx + 1] := c.green;
      data[idx + 2] := c.blue;
      data[idx + 3] := c.alpha;
    }
  }

  function Transparent(f: Format): seq<byte> { seq(f.ByteCount(), _ => 0) }

  /** The image shows these pixels, in the file's order, on a transparent ground. */
  ghost predicate Shows(image: Image, painted: seq<Color>)
    reads image.data
  {
    image.Valid() && image.data[..] == Paint(image.format, Transparent(image.format), painted)
  }

  /** The write position `(x, y)` belongs to pixel number `n`. */
  predicate CursorAt(f: Format, n: nat, x: nat, y: nat) {
    y == Quot(n, f.Stride()) && x == Rem(n, f.Stride())
  }

  /** One pixel on: the next column, or the start of the next row. */
  lemma CursorStep(f: Format, n: nat, x: nat, y: nat)
    requires CursorAt(f, n, x, y)
    ensures if x + 1 < f.width then CursorAt(f, n + 1, x + 1, y) else CursorAt(f, n + 1, 0, y + 1)
  {
    Advance(n, 1, f.Stride());
  }

  /** The write position is below the last row once the room is used up. */
  lemma BelowLastRow(f: Format, n: nat, x: nat, y: nat)
    requires CursorAt(f, n, x, y)
    ensures y >= f.height <==> n >= f.Room()
  {
    QuotRemTimes(n, f.Stride());
    if y >= f.height {
      TimesMonotone(f.height, y, f.Stride());
    } else {
      TimesMonotone(y + 1, f.height, f.Stride());
    }
  }

  /** Sets the pixel in file position `(x, y)`. */
  method PaintHere(image: Image, c: Color, x: nat, y: nat, dstY: nat, ghost painted: seq<Color>)
    requires Shows(image, painted) && CursorAt(image.format, |painted|, x, y) && dstY == image.format.DstRow(y)
    modifies image.data
    ensures Shows(image, painted + [c])
  {
    PaintOneMore(image.format, Transparent(image.format), painted, c);
    image.SetPixel(x, dstY, c);
  }

  // ---------------------------------------------- the uncompressed branch

  /** Pixel number `n` of the payload has been dealt with, and so have all before:
      either each was painted or the payload ran out. */
  ghost predicate RawDone(d: seq<byte>, bpp: nat, n: nat, painted: seq<Color>)
    requires 3 <= bpp <= 4
  {
    && painted + RawColors(d, Times(n, bpp), bpp) == RawColors(d, 0, bpp)
    && (|painted| == n || RawColors(d, Times(n, bpp), bpp) == [])
  }

  lemma RawPixelDone(d: seq<byte>, bpp: nat, n: nat, painted: seq<Color>)
    requires 3 <= bpp <= 4 && RawDone(d, bpp, n, painted)
    ensures var i := Times(n, bpp);
            if i + bpp <= |d| then |painted| == n && RawDone(d, bpp, n + 1, painted + [ColorAt(d, i, bpp)])
            else RawDone(d, bpp, n + 1, painted)
  {
    var i := Times(n, bpp);
    if i + bpp <= |d| {
      Assoc(painted, [ColorAt(d, i, bpp)], RawColors(d, i + bpp, bpp));
    }
  }

  method PaintRow(image: Image, pixelData: seq<byte>, y: nat, ghost n: nat, ghost painted0: seq<Color>)
    returns (ghost painted: seq<Color>)
    requires Shows(image, painted0) && y < image.format.height
    requires image.format.width > 0 ==> CursorAt(image.format, n, 0, y)
    requires RawDone(pixelData, image.format.bytesPerPixel, n, painted0)
    modifies image.data
    ensures Shows(image, painted)
    ensures image.format.width > 0 ==> CursorAt(image.format, n + image.format.width, 0, y + 1)
    ensures RawDone(pixelData, image.format.bytesPerPixel, n + image.format.width, painted)
  {
    var f := image.format;
    var dstY := f.DstRow(y);
    painted := painted0;
    for x := 0 to f.width
      invariant Shows(image, painted) && RawDone(pixelData, f.bytesPerPixel, n + x, painted)
      invariant f.width > 0 ==> if x < f.width then CursorAt(f, n + x, x, y) else CursorAt(f, n + x, 0, y + 1)
    {
      CursorStep(f, n + x, x, y);
      painted := PaintPixel(image, pixelData, x, y, dstY, n + x, painted);
      assert n + x + 1 == n + (x + 1);
    }
  }

  /** The innermost statement of the uncompressed branch. */
  method PaintPixel(image: Image, pixelData: seq<byte>, x: nat, y: nat, dstY: nat, ghost n: nat,
      ghost painted0: seq<Color>)
    returns (ghost painted: seq<Color>)
    requires Shows(image, painted0) && y < image.format.height && x < image.format.width
    requires CursorAt(image.format, n, x, y) && dstY == image.format.DstRow(y)
    requires RawDone(pixelData, image.format.bytesPerPixel, n, painted0)
    modifies image.data
    ensures Shows(image, painted) && RawDone(pixelData, image.format.bytesPerPixel, n + 1, painted)
  {
    var f := image.format;
    painted := painted0;
    RawPixelDone(pixelData, f.bytesPerPixel, n, painted);
    PixelIndex(f, n, x, y);
    var idx := (y * f.width + x) * f.bytesPerPixel;
    if idx + f.bytesPerPixel <= |pixelData| {
      var c := ColorAt(pixelData, idx, f.bytesPerPixel);
      PaintHere(image, c, x, y, dstY, painted);
      painted := painted + [c];
    }
  }

  lemma PixelIndex(f: Format, n: nat, x: nat, y: nat)
    requires f.width > 0 && CursorAt(f, n, x, y)
    ensures (y * f.width + x) * f.bytesPerPixel == Times(n, f.bytesPerPixel)
  {
    QuotRemTimes(n, f.width);
    TimesIs(y, f.width);
    TimesIs(n, f.bytesPerPixel);
  }

  method DecodeRaw(f: Format, pixelData: seq<byte>) returns (image: Image)
    requires f.Valid()
    ensures fresh(image) && image.Valid() && image.format == f
    ensures image.data[..] == Paint(f, Transparent(f), RawColors(pixelData, 0, f.bytesPerPixel))
  {
    image := new Image(f);
    ghost var n: nat, painted: seq<Color> := 0, [];
    assert CursorAt(f, 0, 0, 0);
    for y := 0 to f.height
      invariant image.format == f && fresh(image.data) && Shows(image, painted)
      invariant f.width > 0 ==> CursorAt(f, n, 0, y)
      invariant RawDone(pixelData, f.bytesPerPixel, n, painted)
    {
      painted := PaintRow(image, pixelData, y, n, painted);
      n := n + f.width;
    }
    PaintEnough(f, Transparent(f), painted, RawColors(pixelData, Times(n, f.bytesPerPixel), f.bytesPerPixel));
  }

  // ------------------------------------------------ the run-length branch

  /** Sets one pixel and moves on, to the next row after the last column. Below the
      last row of a bottom-up image the row number underflows. */
  method PaintNext(image: Image, c: Color, x: nat, y: nat, ghost painted: seq<Color>)
    returns (panicked: bool, x': nat, y': nat)
    requires Shows(image, painted) && CursorAt(image.format, |painted|, x, y)
    modifies image.data
    ensures panicked <==> !image.format.topDown && |painted| >= image.format.Room()
    ensures !panicked ==> Shows(image, painted + [c]) && CursorAt(image.format, |painted| + 1, x', y')
  {
    BelowLastRow(image.format, |painted|, x, y);
    x', y' := x, y;
    panicked := !image.format.topDown && y >= image.format.height;
    if panicked {
      return;
    }
    PaintHere(image, c, x, y, if image.format.topDown then y else image.format.height - 1 - y, painted);
    CursorStep(image.format, |painted|, x, y);
    x' := x + 1;
    if x' >= image.format.width {
      x', y' := 0, y' + 1;
    }
  }

  lemma OneCopyMore(painted: seq<Color>, c: Color, k: nat)
    ensures painted + Copies(c, k) + [c] == painted + Copies(c, k + 1)
  {
  }

  /** `count` more pixels would cross the end of a bottom-up image. */
  predicate Crosses(f: Format, painted: nat, count: nat) { !f.topDown && painted + count > f.Room() }

  /** A run packet: the same colour `count` times. */
  method PaintRun(image: Image, c: Color, count: nat, x0: nat, y0: nat, ghost painted: seq<Color>)
    returns (panicked: bool, x: nat, y: nat)
    requires Shows(image, painted) && CursorAt(image.format, |painted|, x0, y0) && |painted| < image.format.Room()
    modifies image.data
    ensures panicked <==> Crosses(image.format, |painted|, count)
    ensures !panicked ==> Shows(image, painted + Copies(c, count)) && CursorAt(image.format, |painted| + count, x, y)
  {
    panicked, x, y := false, x0, y0;
    assert painted + Copies(c, 0) == painted;
    for k := 0 to count
      invariant !Crosses(image.format, |painted|, k)
      invariant Shows(image, painted + Copies(c, k)) && CursorAt(image.format, |painted| + k, x, y)
    {
      panicked, x, y := PaintNext(image, c, x, y, painted + Copies(c, k));
      if panicked {
        return;
      }
      OneCopyMore(painted, c, k);
    }
  }

  /** A literal packet: up to `count` colours from the payload. */
  method PaintLiteral(image: Image, pixelData: seq<byte>, src0: nat, count: nat, x0: nat, y0: nat,
      ghost painted: seq<Color>)
    returns (panicked: bool, src: nat, x: nat, y: nat)
    requires Shows(image, painted) && CursorAt(image.format, |painted|, x0, y0) && |painted| < image.format.Room()
    modifies image.data
    ensures var run := RawRun(pixelData, src0, count, image.format.bytesPerPixel);
            && (panicked <==> Crosses(image.format, |painted|, |run|))
            && (!panicked ==>
                  && Shows(image, painted + run) && CursorAt(image.format, |painted| + |run|, x, y)
                  && src == src0 + Times(|run|, image.format.bytesPerPixel))
  {
    panicked, src, x, y := false, src0, x0, y0;
    var bpp := image.format.bytesPerPixel;
    ghost var cur := painted;
    assert LiteralAfter(pixelData, src0, count, bpp, painted, 0, src, cur);
    for k := 0 to count
      invariant LiteralAfter(pixelData, src0, count, bpp, painted, k, src, cur) && !Crosses(image.format, |painted|, k)
      invariant Shows(image, cur) && CursorAt(image.format, |cur|, x, y)
    {
      LiteralStep(pixelData, src0, count, bpp, painted, k, src, cur);
      if src + bpp > |pixelData| {
        return;
      }
      var c := ColorAt(pixelData, src, bpp);
      panicked, x, y := PaintNext(image, c, x, y, cur);
      if panicked {
        return;
      }
      src, cur := src + bpp, cur + [c];
    }
    LiteralEnd(pixelData, src0, count, bpp, painted, src, cur);
  }

  /** After `k` colours of a literal packet: the next index and the pixels so far. */
  ghost predicate LiteralAfter(d: seq<byte>, src0: nat, count: nat, bpp: nat, painted: seq<Color>,
                               k: nat, src: nat, cur: seq<Color>)
    requires 3 <= bpp <= 4 && k <= count
  {
    && cur + RawRun(d, src, count - k, bpp) == painted + RawRun(d, src0, count, bpp)
    && |cur| == |painted| + k && src == src0 + Times(k, bpp)
  }

  lemma LiteralEnd(d: seq<byte>, src0: nat, count: nat, bpp: nat, painted: seq<Color>, src: nat, cur: seq<Color>)
    requires 3 <= bpp <= 4 && LiteralAfter(d, src0, count, bpp, painted, count, src, cur)
    ensures var run := RawRun(d, src0, count, bpp);
            cur == painted + run && |cur| == |painted| + |run| && src == src0 + Times(|run|, bpp)
  {
    assert cur + [] == cur;
  }

  lemma LiteralStep(d: seq<byte>, src0: nat, count: nat, bpp: nat, painted: seq<Color>,
                    k: nat, src: nat, cur: seq<Color>)
    requires 3 <= bpp <= 4 && k < count && LiteralAfter(d, src0, count, bpp, painted, k, src, cur)
    ensures src + bpp > |d| ==>
              var run := RawRun(d, src0, count, bpp);
              cur == painted + run && |run| == k
    ensures src + bpp <= |d| ==>
              && |RawRun(d, src0, count, bpp)| > k
              && LiteralAfter(d, src0, count, bpp, painted, k + 1, src + bpp, cur + [ColorAt(d, src, bpp)])
  {
    if src + bpp <= |d| {
      Assoc(cur, [ColorAt(d, src, bpp)], RawRun(d, src + bpp, count - k - 1, bpp));
    }
  }

  /** One packet of the run-length branch. */
  method PaintPacket(image: Image, pixelData: seq<byte>, src: nat, x: nat, y: nat, ghost painted: seq<Color>)
    returns (panicked: bool, src': nat, x': nat, y': nat)
    requires Shows(image, painted) && CursorAt(image.format, |painted|, x, y)
    requires |painted| < image.format.Room() && src < |pixelData|
    modifies image.data
    ensures var p := PacketAt(pixelData, src, image.format.bytesPerPixel);
            && (panicked <==> Crosses(image.format, |painted|, |p.0|))
            && (!panicked ==>
                  && Shows(image, painted + p.0) && CursorAt(image.format, |painted| + |p.0|, x', y') && src' == p.1
                  && (y' < image.format.height <==> |painted + p.0| < image.format.Room()))
  {
    var bpp := image.format.bytesPerPixel;
    var packet := pixelData[src];
    var count := packet as int % 128 + 1;
    if packet >= 128 {
      if src + 1 + bpp > |pixelData| {
        assert painted + [] == painted;
        BelowLastRow(image.format, |painted|, x, y);
        return false, |pixelData|, x, y;
      }
      var color := ColorAt(pixelData, src + 1, bpp);
      src' := src + 1 + bpp;
      panicked, x', y' := PaintRun(image, color, count, x, y, painted);
    } else {
      panicked, src', x', y' := PaintLiteral(image, pixelData, src + 1, count, x, y, painted);
    }
    if !panicked {
      BelowLastRow(image.format, |painted + PacketAt(pixelData, src, bpp).0|, x', y');
    }
  }

  // Crossing the end of the image, on packet sizes alone.

  function Sum(cs: seq<nat>): nat {
    if cs == [] then 0 else cs[0] + Sum(cs[1..])
  }

  /** After `n` pixels, packet `k` of these sizes starts before the room is used up
      and crosses its end. */
  predicate CrossesAt(cs: seq<nat>, n: nat, room: nat, k: nat)
    requires k < |cs|
  {
    n + Sum(cs[..k]) < room < n + Sum(cs[..k + 1])
  }

  ghost predicate CrossesEnd(cs: seq<nat>, n: nat, room: nat) {
    exists k: nat :: k < |cs| && CrossesAt(cs, n, room, k)
  }

  lemma SumPrefix(cs: seq<nat>, k: nat)
    requires 0 < k <= |cs|
    ensures Sum(cs[..k]) == cs[0] + Sum(cs[1..][..k - 1])
  {
    assert cs[..k][1..] == cs[1..][..k - 1];
  }

  lemma {:induction false} SumMonotone(cs: seq<nat>, k: nat)
    requires k <= |cs|
    ensures Sum(cs[..k]) <= Sum(cs)
  {
    if k > 0 {
      SumPrefix(cs, k);
      SumMonotone(cs[1..], k - 1);
    }
  }

  /** The first packet crosses, or one of the rest does after it. */
  lemma CrossesLater(cs: seq<nat>, n: nat, room: nat)
    requires cs != [] && n < room
    ensures CrossesEnd(cs, n, room) <==> n + cs[0] > room || CrossesEnd(cs[1..], n + cs[0], room)
  {
    var rest, m := cs[1..], n + cs[0];
    SumPrefix(cs, 1);
    if k: nat :| k < |cs| && CrossesAt(cs, n, room, k) {
      SumPrefix(cs, k + 1);
      if k > 0 {
        SumPrefix(cs, k);
        assert CrossesAt(rest, m, room, k - 1);
      }
    }
    if m > room {
      assert CrossesAt(cs, n, room, 0);
    }
    if k: nat :| k < |rest| && CrossesAt(rest, m, room, k) {
      SumPrefix(cs, k + 1);
      SumPrefix(cs, k + 2);
      assert CrossesAt(cs, n, room, k + 1);
    }
  }

  /** Packets of no more pixels than there is room for cross nothing. */
  lemma RoomEnough(cs: seq<nat>, room: nat)
    requires Sum(cs) <= room
    ensures !CrossesEnd(cs, 0, room)
  {
    forall k: nat | k < |cs|
      ensures !CrossesAt(cs, 0, room, k)
    {
      SumMonotone(cs, k + 1);
    }
  }

  /** Pixels of each packet of a run-length payload, from index `i` on. */
  function PacketSizes(d: seq<byte>, i: nat, bpp: nat): seq<nat>
    requires 3 <= bpp <= 4
    decreases if i < |d| then |d| - i else 0
  {
    if i >= |d| then [] else [|PacketAt(d, i, bpp).0|] + PacketSizes(d, PacketAt(d, i, bpp).1, bpp)
  }

  lemma SizesStep(d: seq<byte>, i: nat, bpp: nat)
    requires 3 <= bpp <= 4 && i < |d|
    ensures PacketSizes(d, i, bpp) == [|PacketAt(d, i, bpp).0|] + PacketSizes(d, PacketAt(d, i, bpp).1, bpp)
  {
  }

  lemma CrossesStep(d: seq<byte>, i: nat, bpp: nat, n: nat, room: nat)
    requires 3 <= bpp <= 4 && i < |d| && n < room
    ensures var p := PacketAt(d, i, bpp);
            CrossesEnd(PacketSizes(d, i, bpp), n, room)
            <==> n + |p.0| > room || CrossesEnd(PacketSizes(d, p.1, bpp), n + |p.0|, room)
  {
    var p := PacketAt(d, i, bpp);
    SizesStep(d, i, bpp);
    var rest := PacketSizes(d, p.1, bpp);
    assert ([|p.0|] + rest)[1..] == rest;
    CrossesLater([|p.0|] + rest, n, room);
  }

  method DecodeRle(f: Format, pixelData: seq<byte>) returns (panicked: bool, image: Image)
    requires f.Valid()
    ensures panicked <==> !f.topDown && CrossesEnd(PacketSizes(pixelData, 0, f.bytesPerPixel), 0, f.Room())
    ensures fresh(image) && image.Valid() && image.format == f
    ensures !panicked ==> image.data[..] == Paint(f, Transparent(f), Expand(pixelData, 0, f.bytesPerPixel))
  {
    panicked := false;
    image := new Image(f);
    var src: nat, x: nat, y: nat := 0, 0, 0;
    ghost var painted: seq<Color> := [];
    assert CursorAt(f, 0, 0, 0);
    BelowLastRow(f, 0, 0, 0);
    while y < f.height && src < |pixelData|
      invariant image.format == f && fresh(image.data) && Shows(image, painted) && CursorAt(f, |painted|, x, y)
      invariant Decoding(f, pixelData, src, painted)
      invariant y < f.height <==> |painted| < f.Room()
      decreases |pixelData| - src
    {
      DecodingStep(f, pixelData, src, painted);
      ghost var p := PacketAt(pixelData, src, f.bytesPerPixel);
      panicked, src, x, y := PaintPacket(image, pixelData, src, x, y, painted);
      if panicked {
        return;
      }
      painted := painted + p.0;
    }
    DecodingEnds(f, pixelData, src, painted);
    UsedUp(f, |painted|, x, y);
    PaintEnough(f, Transparent(f), painted, Expand(pixelData, src, f.bytesPerPixel));
  }

  /** What is painted and what is left of the payload make up its pixels, and what is
      left crosses the end of a bottom-up image exactly when the whole does. */
  ghost predicate Decoding(f: Format, d: seq<byte>, src: nat, painted: seq<Color>)
    requires 3 <= f.bytesPerPixel <= 4
  {
    && painted + Expand(d, src, f.bytesPerPixel) == Expand(d, 0, f.bytesPerPixel)
    && (!f.topDown ==>
          (CrossesEnd(PacketSizes(d, src, f.bytesPerPixel), |painted|, f.Room())
           <==> CrossesEnd(PacketSizes(d, 0, f.bytesPerPixel), 0, f.Room())))
  }

  lemma DecodingStep(f: Format, d: seq<byte>, src: nat, painted: seq<Color>)
    requires 3 <= f.bytesPerPixel <= 4 && Decoding(f, d, src, painted) && src < |d| && |painted| < f.Room()
    ensures var p := PacketAt(d, src, f.bytesPerPixel);
            if Crosses(f, |painted|, |p.0|) then CrossesEnd(PacketSizes(d, 0, f.bytesPerPixel), 0, f.Room())
            else Decoding(f, d, p.1, painted + p.0)
  {
    var p := PacketAt(d, src, f.bytesPerPixel);
    CrossesStep(d, src, f.bytesPerPixel, |painted|, f.Room());
    ExpandStep(d, src, f.bytesPerPixel);
    Assoc(painted, p.0, Expand(d, p.1, f.bytesPerPixel));
  }

  lemma DecodingEnds(f: Format, d: seq<byte>, src: nat, painted: seq<Color>)
    requires 3 <= f.bytesPerPixel <= 4 && Decoding(f, d, src, painted) && (src >= |d| || |painted| >= f.Room())
    ensures f.topDown || !CrossesEnd(PacketSizes(d, 0, f.bytesPerPixel), 0, f.Room())
  {
  }

  lemma UsedUp(f: Format, n: nat, x: nat, y: nat)
    requires CursorAt(f, n, x, y)
    ensures f.width > 0 && y >= f.height ==> Quot(n, f.width) >= f.height
  {
  }

  // ---------------------------------------------------------------- files

  datatype ImageError = InvalidFormat | UnsupportedFormat

  function Le16(d: seq<byte>, i: nat): nat
    requires i + 2 <= |d|
  {
    d[i] as int + 0x100 * (d[i + 1] as int)
  }

  function FormatOf(d: seq<byte>): Format
    requires |d| >= 18
  {
    Format(Le16(d, 12), Le16(d, 14), d[17] as int / 32 % 2 == 1, d[16] as int / 8)
  }

  /** Start of the pixel data: after the identifier and any colour map. */
  function PayloadAt(d: seq<byte>): nat
    requires |d| >= 18
  {
    18 + d[0] as int + if d[1] != 0 then Le16(d, 5) * ((d[7] as int + 7) / 8) else 0
  }

  /** Errors before any pixel is decoded. */
  function Rejected(d: seq<byte>): bool {
    |d| < 18 || (d[2] != 2 && d[2] != 10) || (d[16] != 24 && d[16] != 32)
  }

  /** RGBA bytes of a file that decodes. */
  ghost function TgaPixels(d: seq<byte>): seq<byte>
    requires !Rejected(d) && FormatOf(d).Valid() && PayloadAt(d) <= |d|
  {
    var f, payload := FormatOf(d), d[PayloadAt(d)..];
    Paint(f, Transparent(f),
          if d[2] == 2 then RawColors(payload, 0, f.bytesPerPixel) else Expand(payload, 0, f.bytesPerPixel))
  }

  /** A check fails while the file is decoded: a slice starts past the end, the
      image's size overflows 32 bits, or a bottom-up row number underflows. */
  ghost predicate Panics(d: seq<byte>)
    requires !Rejected(d)
  {
    var f := FormatOf(d);
    || PayloadAt(d) > |d| || !f.Valid()
    || (d[2] == 10 && !f.topDown && CrossesEnd(PacketSizes(d[PayloadAt(d)..], 0, f.bytesPerPixel), 0, f.Room()))
  }

  method DecodeTga(d: seq<byte>) returns (r: Outcome<Result<Image, ImageError>>)
    ensures |d| < 18 ==> r == Returned(Err(InvalidFormat))
    ensures |d| >= 18 && (d[2] !in [2, 10] || d[16] !in [24, 32]) ==> r == Returned(Err(UnsupportedFormat))
    ensures !Rejected(d) ==> (r.Panicked? <==> Panics(d))
    ensures !Rejected(d) && !r.Panicked? ==>
              && r.value.Ok? && fresh(r.value.value) && r.value.value.format == FormatOf(d)
              && r.value.value.data[..] == TgaPixels(d)
  {
    if |d| < 18 {
      return Returned(Err(InvalidFormat));
    }
    if d[2] != 2 && d[2] != 10 {
      return Returned(Err(UnsupportedFormat));
    }
    if d[16] != 24 && d[16] != 32 {
      return Returned(Err(UnsupportedFormat));
    }
    var f := FormatOf(d);
    if !f.Valid() || PayloadAt(d) > |d| {
      return Panicked;
    }
    if d[2] == 2 {
      var image := DecodeRaw(f, d[PayloadAt(d)..]);
      return Returned(Ok(image));
    }
    var panicked, image := DecodeRle(f, d[PayloadAt(d)..]);
    if panicked {
      return Panicked;
    }
    return Returned(Ok(image));
  }

  // ------------------------------------------------ run-length against raw

  /** Pixels of each packet of a stream. */
  function Sizes(ps: seq<Packet>): seq<nat> {
    if ps == [] then [] else [|PacketPixels(ps[0])|] + Sizes(ps[1..])
  }

  lemma {:induction false} SizesShift(a: seq<byte>, d: seq<byte>, i: nat, bpp: nat)
    requires 3 <= bpp <= 4
    ensures PacketSizes(a + d, |a| + i, bpp) == PacketSizes(d, i, bpp)
    decreases if i < |d| then |d| - i else 0
  {
    if i < |d| {
      SizesShift(a, d, PacketAt(d, i, bpp).1, bpp);
      PacketShift(a, d, i, bpp);
      SizesStep(d, i, bpp);
      SizesStep(a + d, |a| + i, bpp);
    }
  }

  lemma SizesFirst(packet: seq<byte>, rest: seq<byte>, cs: seq<Color>, bpp: nat)
    requires 3 <= bpp <= 4 && packet != [] && PacketAt(packet + rest, 0, bpp) == (cs, |packet|)
    ensures PacketSizes(packet + rest, 0, bpp) == [|cs|] + PacketSizes(rest, 0, bpp)
  {
    SizesStep(packet + rest, 0, bpp);
    SizesRest(packet, rest, bpp);
  }

  lemma SizesRest(packet: seq<byte>, rest: seq<byte>, bpp: nat)
    requires 3 <= bpp <= 4
    ensures PacketSizes(packet + rest, |packet|, bpp) == PacketSizes(rest, 0, bpp)
  {
    SizesShift(packet, rest, 0, bpp);
  }

  /** The packets found in an encoded stream have the stream's sizes. */
  lemma {:induction false} SizesAre(ps: seq<Packet>, bpp: nat)
    requires 3 <= bpp <= 4 && ValidStream(ps, bpp)
    ensures PacketSizes(EncodeAll(ps, bpp), 0, bpp) == Sizes(ps)
  {
    if ps != [] {
      SizesAre(ps[1..], bpp);
      SizesPacket(ps[0], EncodeAll(ps[1..], bpp), bpp);
    }
  }

  lemma SizesPacket(p: Packet, rest: seq<byte>, bpp: nat)
    requires 3 <= bpp <= 4 && p.Valid(bpp)
    ensures PacketSizes(Encode(p, bpp) + rest, 0, bpp) == [|PacketPixels(p)|] + PacketSizes(rest, 0, bpp)
  {
    PacketParses(p, rest, bpp);
    SizesFirst(Encode(p, bpp), rest, ColorsOf(PacketPixels(p), bpp), bpp);
  }

  /** A run-length file of a packet stream and the uncompressed file of its unpacked
      pixels, alike in size, pixel size and row order. */
  ghost predicate Twins(rle: seq<byte>, raw: seq<byte>, ps: seq<Packet>) {
    && !Rejected(rle) && !Rejected(raw) && rle[2] == 10 && raw[2] == 2
    && FormatOf(rle) == FormatOf(raw) && FormatOf(rle).Valid()
    && PayloadAt(rle) <= |rle| && PayloadAt(raw) <= |raw|
    && ValidStream(ps, FormatOf(rle).bytesPerPixel)
    && rle[PayloadAt(rle)..] == EncodeAll(ps, FormatOf(rle).bytesPerPixel)
    && raw[PayloadAt(raw)..] == UnpackedAll(ps)
  }

  /** The uncompressed file always decodes. The run-length file decodes to the same
      image if and only if the image is top-down or no packet crosses its end;
      otherwise decoding it fails a check. */
  lemma RleEqualsRaw(rle: seq<byte>, raw: seq<byte>, ps: seq<Packet>)
    requires Twins(rle, raw, ps)
    ensures !Panics(raw)
    ensures !Panics(rle) <==> FormatOf(rle).topDown || !CrossesEnd(Sizes(ps), 0, FormatOf(rle).Room())
    ensures !Panics(rle) ==> TgaPixels(rle) == TgaPixels(raw)
  {
    SizesAre(ps, FormatOf(rle).bytesPerPixel);
    ExpandIsUnpack(ps, FormatOf(rle).bytesPerPixel);
  }

  /** With exactly the image's pixels, or fewer, both files decode alike. */
  lemma ExactRleEqualsRaw(rle: seq<byte>, raw: seq<byte>, ps: seq<Packet>)
    requires Twins(rle, raw, ps) && Sum(Sizes(ps)) <= FormatOf(rle).width * FormatOf(rle).height
    ensures !Panics(rle) && !Panics(raw) && TgaPixels(rle) == TgaPixels(raw)
  {
    RoomCovers(FormatOf(rle));
    RoomEnough(Sizes(ps), FormatOf(rle).Room());
    RleEqualsRaw(rle, raw, ps);
  }

  lemma RoomCovers(f: Format)
    ensures f.width * f.height <= f.Room()
  {
    TimesIs(f.height, f.Stride());
  }

  /** Header of a bottom-up 24-bit file without identifier and colour map. */
  function PlainHeader(kind: byte, width: nat, height: nat): seq<byte>
    requires width < 0x1_0000 && height < 0x1_0000
  {
    [0, 0, kind, 0, 0, 0, 0, 0, 0, 0, 0, 0] + [width % 0x100, width / 0x100, height % 0x100, height / 0x100] + [24, 0]
  }

  /** One pixel wanted, a run of two given: the run-length file fails a check and
      the uncompressed one decodes. */
  lemma OverrunPanics(pixel: PixelBytes)
    requires |pixel| == 3
    ensures var ps := [Run(2, pixel)];
            var rle := PlainHeader(10, 1, 1) + [129] + pixel;
            var raw := PlainHeader(2, 1, 1) + pixel + pixel;
            Twins(rle, raw, ps) && Panics(rle) && !Panics(raw)
  {
    var ps := [Run(2, pixel)];
    var rle := PlainHeader(10, 1, 1) + [129] + pixel;
    var raw := PlainHeader(2, 1, 1) + pixel + pixel;
    var f := Format(1, 1, false, 3);
    assert Times(1, 1) == 1;
    assert FormatOf(rle) == f && FormatOf(raw) == f && f.Valid();
    assert rle[18..] == [129] + pixel;
    assert ps[1..] == [] && EncodeAll(ps, 3) == Encode(ps[0], 3) + EncodeAll([], 3);
    TwoCopies(pixel);
    assert raw[18..] == pixel + pixel;
    OneRunCrosses(ps);
    RleEqualsRaw(rle, raw, ps);
  }

  lemma OneRunCrosses(ps: seq<Packet>)
    requires |ps| == 1 && |PacketPixels(ps[0])| == 2
    ensures CrossesEnd(Sizes(ps), 0, 1)
  {
    var cs := Sizes(ps);
    assert cs == [2] by { assert Sizes(ps[1..]) == []; }
    assert cs[..0] == [] && cs[..1] == cs && cs[1..] == [];
    assert Sum(cs) == 2 + Sum(cs[1..]);
    assert CrossesAt(cs, 0, 1, 0);
  }

  lemma TwoCopies(pixel: PixelBytes)
    ensures UnpackedAll([Run(2, pixel)]) == pixel + pixel
  {
    var two, one := seq(2, _ => pixel), seq(1, _ => pixel);
    assert two[1..] == one && one[1..] == [];
    assert Join(one) == pixel + Join([]) && Join(two) == pixel + Join(one);
    assert [Run(2, pixel)][1..] == [];
  }

  /** An image of 2^32 bytes cannot be made, whatever the payload. */
  lemma HugeImagePanics(payload: seq<byte>)
    ensures !Rejected(PlainHeader(10, 0x8000, 0x8000) + payload) && Panics(PlainHeader(10, 0x8000, 0x8000) + payload)
  {
    TimesIs(0x8000, 0x8000);
  }
}
