/** Bresenham line drawing on a clipped frame buffer of packed pixels. */
module Framebuffer {
  import opened Bresenham
  import opened Chunks
  import opened Colors
  import opened LineOverflow
  import opened Storage
  import opened Words

  // ------------------------------------------------------------ rectangles

  /** `width as i32`. */
  function AsI32(w: u32): int { if w < 0x8000_0000 then w else w - 0x1_0000_0000 }

  /** The cast keeps the low 32 bits. */
  lemma AsI32Is(w: u32)
    ensures FitsI32(AsI32(w)) && (AsI32(w) - w) % 0x1_0000_0000 == 0
  {
  }

  datatype Rect = Rect(x: i32, y: i32, width: u32, height: u32) {
    function Right(): int { x + AsI32(width) }

    function Bottom(): int { y + AsI32(height) }

    predicate Contains(p: Point) { x <= p.0 < Right() && y <= p.1 < Bottom() }

    /** Unless its size turns negative, a rectangle holds `width` columns from `x` on and
        `height` rows from `y` on. */
    lemma ContainsIs(p: Point)
      requires width < 0x8000_0000 && height < 0x8000_0000
      ensures Contains(p) <==> 0 <= p.0 - x < width && 0 <= p.1 - y < height
    {
    }

    /** Testing whether a point is inside overflows at an edge that is looked at. */
    predicate TestFails(p: Point) {
      x <= p.0 && (!FitsI32(Right()) || (p.0 < Right() && y <= p.1 && !FitsI32(Bottom())))
    }

    /** No test fails if and only if the edges fit, or are never looked at. */
    lemma NoTestFailsIff()
      ensures (forall p :: PointFits(p) ==> !TestFails(p))
         <==> FitsI32(Right()) && (FitsI32(Bottom()) || Right() <= x)
    {
      var corner := (x, y);
      assert PointFits(corner);
      if FitsI32(Right()) && (FitsI32(Bottom()) || Right() <= x) {
        assert forall p :: PointFits(p) ==> !TestFails(p);
      }
    }
  }

  /** A rectangle meant to cover everything covers nothing: its size turns negative. */
  lemma HugeClipIsEmpty(p: Point)
    requires PointFits(p)
    ensures var clip := Rect(0, 0, 0xFFFF_FFFF, 0xFFFF_FFFF); !clip.TestFails(p) && !clip.Contains(p)
  {
  }

  /** A rectangle whose right edge is past the 32-bit range fails its first test. */
  lemma FarEdgeFails()
    ensures Rect(1, 0, 0x7FFF_FFFF, 10).TestFails((1, 0))
  {
  }

  // ----------------------------------------------------- pixels in memory

  datatype PixelFormat = Rgb888 | Rgba8888 | Bgr888 | Bgra8888 | Rgb565 {
    function BytesPerPixel(): nat {
      match this
      case Rgb888 | Bgr888 => 3
      case Rgba8888 | Bgra8888 => 4
      case Rgb565 => 2
    }

    /** A colour's bytes as they are stored: blue first in every format but the
        16-bit one, which packs five, six and five bits into a little-endian word. */
    function Encode(c: Color): (bytes: seq<byte>)
      ensures |bytes| == BytesPerPixel()
    {
      match this
      case Rgba8888 | Bgra8888 => [c.blue, c.green, c.red, c.alpha]
      case Rgb888 | Bgr888 => [c.blue, c.green, c.red]
      case Rgb565 =>
        var word := c.red / 8 * 0x800 + c.green / 4 * 0x20 + c.blue / 8;
        [word % 0x100, word / 0x100]
    }

    /** The colour read from stored bytes. */
    function Decode(bytes: seq<byte>): Color
      requires |bytes| == BytesPerPixel()
    {
      match this
      case Rgba8888 | Bgra8888 => Color(bytes[2], bytes[1], bytes[0], bytes[3])
      case Rgb888 | Bgr888 => Opaque(bytes[2], bytes[1], bytes[0])
      case Rgb565 =>
        var word := bytes[0] as int + 0x100 * (bytes[1] as int);
        Opaque(word / 0x800 % 0x20 * 8, word / 0x20 % 0x40 * 4, word % 0x20 * 8)
    }

    /** What is left of a colour in this format. */
    function Rounded(c: Color): Color {
      match this
      case Rgba8888 | Bgra8888 => c
      case Rgb888 | Bgr888 => Opaque(c.red, c.green, c.blue)
      case Rgb565 => Opaque(c.red - c.red % 8, c.green - c.green % 4, c.blue - c.blue % 8)
    }

    /** The number stored for a colour. */
    lemma StoredNumber(c: Color)
      ensures var red: int, green: int, blue: int, alpha: int := c.red, c.green, c.blue, c.alpha;
              LittleEndian(Encode(c)) ==
              match this
              case Rgba8888 | Bgra8888 => 0x100_0000 * alpha + 0x1_0000 * red + 0x100 * green + blue
              case Rgb888 | Bgr888 => 0x1_0000 * red + 0x100 * green + blue
              case Rgb565 => 0x800 * (red / 8) + 0x20 * (green / 4) + blue / 8
    {
      var bytes := Encode(c);
      match this {
        case Rgba8888 | Bgra8888 => LittleEndian4(bytes);
        case Rgb888 | Bgr888 =>
          LittleEndian2(bytes[1..]);
          assert LittleEndian(bytes) == bytes[0] as int + 0x100 * LittleEndian(bytes[1..]);
        case Rgb565 =>
          LittleEndian2(bytes);
          Word565(c.red / 8, c.green / 4, c.blue / 8);
      }
    }

    /** Reading a stored colour back gives it as far as the format keeps it. */
    lemma DecodeEncode(c: Color)
      ensures Decode(Encode(c)) == Rounded(c)
    {
      if this == Rgb565 {
        Word565(c.red / 8, c.green / 4, c.blue / 8);
      }
    }
  }

  lemma Word565(r: nat, g: nat, b: nat)
    requires r < 0x20 && g < 0x40 && b < 0x20
    ensures var w := r * 0x800 + g * 0x20 + b;
            && w < 0x1_0000 && w % 0x100 + 0x100 * (w / 0x100) == w
            && w / 0x800 == r && w / 0x20 % 0x40 == g && w % 0x20 == b
  {
    var w := r * 0x800 + g * 0x20 + b;
    assert w / 0x20 == r * 0x40 + g;
  }

  /** Size, pitch and pixel format of a frame buffer. */
  datatype Display = Display(width: nat, height: nat, stride: nat, format: PixelFormat) {
    predicate Valid() {
      Times(width, format.BytesPerPixel()) <= stride && Size() < 0x1_0000_0000
    }

    function Size(): nat { Times(height, stride) }

    predicate OnScreen(p: Point) { 0 <= p.0 < width && 0 <= p.1 < height }

    /** First byte of a pixel. */
    function Offset(p: Point): nat
      requires OnScreen(p)
    {
      Times(p.1, stride) + Times(p.0, format.BytesPerPixel())
    }

    function PixelAt(mem: seq<byte>, p: Point): seq<byte>
      requires Valid() && |mem| == Size() && OnScreen(p)
    {
      OffsetInside(p);
      mem[Offset(p)..Offset(p) + format.BytesPerPixel()]
    }

    lemma OffsetInside(p: Point)
      requires Valid() && OnScreen(p)
      ensures Times(p.0, format.BytesPerPixel()) + format.BytesPerPixel() <= stride
      ensures Offset(p) + format.BytesPerPixel() <= Size()
    {
      TimesMonotone(p.0 + 1, width, format.BytesPerPixel());
      TimesMonotone(p.1 + 1, height, stride);
    }

    /** Pixels follow each other in a row, and rows follow each other at the pitch. */
    lemma PixelsFollow(p: Point)
      requires OnScreen(p)
      ensures p == (0, 0) ==> Offset(p) == 0
      ensures OnScreen((p.0 + 1, p.1)) ==> Offset((p.0 + 1, p.1)) == Offset(p) + format.BytesPerPixel()
      ensures OnScreen((p.0, p.1 + 1)) ==> Offset((p.0, p.1 + 1)) == Offset(p) + stride
    {
    }

    /** Different pixels share no byte. */
    lemma PixelsApart(p: Point, q: Point)
      requires Valid() && OnScreen(p) && OnScreen(q) && p != q
      ensures Offset(p) + format.BytesPerPixel() <= Offset(q) || Offset(q) + format.BytesPerPixel() <= Offset(p)
    {
      OffsetInside(p);
      OffsetInside(q);
      if p.1 < q.1 {
        TimesMonotone(p.1 + 1, q.1, stride);
      } else if q.1 < p.1 {
        TimesMonotone(q.1 + 1, p.1, stride);
      } else if p.0 < q.0 {
        TimesMonotone(p.0 + 1, q.0, format.BytesPerPixel());
      } else {
        TimesMonotone(q.0 + 1, p.0, format.BytesPerPixel());
      }
    }

    /** Memory after one point has been plotted, where it is visible. */
    function Plot(clip: Rect, mem: seq<byte>, p: Point, color: Color): (r: seq<byte>)
      requires Valid() && |mem| == Size()
      ensures |r| == |mem|
    {
      if OnScreen(p) && clip.Contains(p) then
        OffsetInside(p);
        mem[..Offset(p)] + format.Encode(color) + mem[Offset(p) + format.BytesPerPixel()..]
      else mem
    }

    /** Plotting changes the pixel if it is visible, and no other. */
    lemma PlotThenRead(clip: Rect, mem: seq<byte>, p: Point, color: Color, q: Point)
      requires Valid() && |mem| == Size() && OnScreen(q)
      ensures PixelAt(Plot(clip, mem, p, color), q)
           == if p == q && clip.Contains(q) then format.Encode(color) else PixelAt(mem, q)
    {
      OffsetInside(q);
      if OnScreen(p) && clip.Contains(p) && p != q {
        OffsetInside(p);
        PixelsApart(p, q);
        KeepsSlice(mem, Offset(p), format.Encode(color), Offset(q), format.BytesPerPixel());
      }
    }

    /** Memory after a path has been plotted point by point. */
    function PlotAll(clip: Rect, mem: seq<byte>, path: seq<Point>, color: Color): (r: seq<byte>)
      requires Valid() && |mem| == Size()
      ensures |r| == |mem|
      decreases |path|
    {
      if path == [] then mem
      else Plot(clip, PlotAll(clip, mem, path[..|path| - 1], color), path[|path| - 1], color)
    }

    /** Exactly the path's visible pixels take the colour. */
    lemma {:induction false} PlottedPixels(clip: Rect, mem: seq<byte>, path: seq<Point>, color: Color, q: Point)
      requires Valid() && |mem| == Size() && OnScreen(q)
      ensures PixelAt(PlotAll(clip, mem, path, color), q)
           == if q in path && clip.Contains(q) then format.Encode(color) else PixelAt(mem, q)
      decreases |path|
    {
      if path != [] {
        var init, last := path[..|path| - 1], path[|path| - 1];
        PlottedPixels(clip, mem, init, color, q);
        PlotThenRead(clip, PlotAll(clip, mem, init, color), last, color, q);
        assert path == init + [last];
      }
    }

    /** Exactly the path's visible pixels have changed, to the colour. */
    ghost predicate Shows(clip: Rect, was: seq<byte>, now: seq<byte>, path: seq<Point>, color: Color)
      requires Valid() && |was| == |now| == Size()
    {
      forall q :: OnScreen(q) ==>
        (PixelAt(now, q) == if q in path && clip.Contains(q) then format.Encode(color) else PixelAt(was, q))
    }

    lemma PlottedLine(clip: Rect, mem: seq<byte>, path: seq<Point>, color: Color)
      requires Valid() && |mem| == Size()
      ensures Shows(clip, mem, PlotAll(clip, mem, path, color), path, color)
    {
      forall q | OnScreen(q)
        ensures PixelAt(PlotAll(clip, mem, path, color), q)
             == if q in path && clip.Contains(q) then format.Encode(color) else PixelAt(mem, q)
      {
        PlottedPixels(clip, mem, path, color, q);
      }
    }

    /** Bytes that belong to no visible pixel, such as the padding of rows, keep
        their values. */
    lemma {:induction false} PaddingKept(clip: Rect, mem: seq<byte>, path: seq<Point>, color: Color, i: nat)
      requires Valid() && |mem| == Size() && i < |mem|
      requires forall p :: OnScreen(p) && clip.Contains(p) ==> !(Offset(p) <= i < Offset(p) + format.BytesPerPixel())
      ensures PlotAll(clip, mem, path, color)[i] == mem[i]
      decreases |path|
    {
      if path != [] {
        var last := path[|path| - 1];
        PaddingKept(clip, mem, path[..|path| - 1], color, i);
        if OnScreen(last) && clip.Contains(last) {
          OffsetInside(last);
          assert !(Offset(last) <= i < Offset(last) + format.BytesPerPixel());
        }
      }
    }
  }

  lemma KeepsSlice(mem: seq<byte>, at: nat, bytes: seq<byte>, from: nat, n: nat)
    requires at + |bytes| <= |mem| && from + n <= |mem| && (at + |bytes| <= from || from + n <= at)
    ensures (mem[..at] + bytes + mem[at + |bytes|..])[from..from + n] == mem[from..from + n]
  {
  }

  class Framebuffer {
    const display: Display
    var clip: Rect
    /** The bytes that are drawn to. */
    const buffer: array<byte>

    ghost predicate Valid() {
      display.Valid() && buffer.Length == display.Size()
    }

    method SetPixel(x: i32, y: i32, color: Color) returns (panicked: bool)
      requires Valid()
      modifies buffer
      ensures panicked <==> display.OnScreen((x, y)) && clip.TestFails((x, y))
      ensures buffer[..] == if panicked then old(buffer[..]) else display.Plot(clip, old(buffer[..]), (x, y), color)
    {
      panicked := false;
      if x < 0 || y < 0 {
        return;
      }
      if x >= display.width || y >= display.height {
        return;
      }
      panicked := clip.TestFails((x, y));
      if panicked || !clip.Contains((x, y)) {
        return;
      }
      display.OffsetInside((x, y));
      var bytes := display.format.BytesPerPixel();
      TimesIs(y, display.stride);
      TimesIs(x, bytes);
      StoreBytes(y * display.stride + x * bytes, display.format.Encode(color));
    }

    /** Stores a pixel's bytes one by one. */
    method StoreBytes(offset: nat, bytes: seq<byte>)
      requires offset + |bytes| <= buffer.Length
      modifies buffer
      ensures buffer[..] == old(buffer[..offset]) + bytes + old(buffer[offset + |bytes|..])
    {
      ghost var was := buffer[..];
      for i := 0 to |bytes|
        invariant buffer[..offset + i] == was[..offset] + bytes[..i] && buffer[offset + i..] == was[offset + i..]
      {
        buffer[offset + i] := bytes[i];
        assert buffer[..offset + i + 1] == buffer[..offset + i] + [bytes[i]];
      }
      assert bytes[..|bytes|] == bytes;
      assert buffer[..] == buffer[..offset + |bytes|] + buffer[offset + |bytes|..];
    }

    /** The two conditional steps of one round; `stuck` is the inner exit. */
    static method StepOnce(x: int, y: int, err: int, dx: int, dy: int, sx: int, sy: int, ghost a: Point, b: Point)
      returns (x': int, y': int, err': int, stuck: bool, panicked: bool)
      requires dx == Abs(b.0 - a.0) && dy == -Abs(b.1 - a.1) && sx == Sign(a.0, b.0) && sy == Sign(a.1, b.1)
      ensures stuck ==> (StepsX(a, b, err) && x == b.0) || (StepsY(a, b, err) && y == b.1)
      ensures panicked ==> !StepFits(a, b, (x, y), err)
      ensures !stuck && !panicked ==>
                StepFits(a, b, (x, y), err) && (x', y') == NextPoint(a, b, (x, y), err) && err' == NextErr(a, b, err)
    {
      x', y', err', stuck := x, y, err, false;
      var e2 := 2 * err;
      panicked := !FitsI32(e2);
      if panicked {
        return;
      }
      if e2 >= dy {
        if x == b.0 {
          stuck := true;
          return;
        }
        err', x' := err' + dy, x' + sx;
        panicked := !FitsI32(err') || !FitsI32(x');
        if panicked {
          return;
        }
      }
      if e2 <= dx {
        if y == b.1 {
          stuck := true;
          return;
        }
        err', y' := err' + dx, y' + sy;
      }
      panicked := !FitsI32(err') || !FitsI32(x') || !FitsI32(y');
    }

    /** Drawing at some point of the path fails a check. */
    ghost predicate PixelFails(path: seq<Point>)
      reads this
    {
      exists p :: p in path && display.OnScreen(p) && clip.TestFails(p)
    }

    /** Draws the line through the points of `path`, or panics: exactly when the line is
        too long for 32-bit arithmetic or a test against the clip rectangle fails. The
        first `drawn` points have been drawn then. */
    method DrawLine(x1: i32, y1: i32, x2: i32, y2: i32, color: Color)
      returns (panicked: bool, ghost path: seq<Point>, ghost drawn: nat)
      requires Valid()
      modifies buffer
      ensures IsLine((x1, y1), (x2, y2), path)
      ensures panicked <==> !LineFits((x1, y1), (x2, y2)) || PixelFails(path)
      ensures drawn <= |path| && (!panicked ==> drawn == |path|)
      ensures buffer[..] == display.PlotAll(clip, old(buffer[..]), path[..drawn], color)
      ensures display.Shows(clip, old(buffer[..]), buffer[..], path[..drawn], color)
    {
      ghost var a: Point, b: Point := (x1, y1), (x2, y2);
      PathIsLine(a, b);
      path := PathOf(a, b, Length(a, b) + 1);
      LineFitsIff(a, b);
      drawn := 0;
      panicked := Abs(x2 - x1) >= 0x8000_0000 || Abs(y2 - y1) >= 0x8000_0000;
      if panicked {
        display.PlottedLine(clip, old(buffer[..]), [], color);
        return;
      }
      var dx := Abs(x2 - x1);
      var dy := -Abs(y2 - y1);
      var sx := if x1 < x2 then 1 else -1;
      var sy := if y1 < y2 then 1 else -1;
      panicked, drawn := PlotRounds(dx, dy, sx, sy, a, (x2, y2), x1, y1, color);
      FailsSomewhere(a, b);
      PathPrefix(a, b, drawn, |path|);
      display.PlottedLine(clip, old(buffer[..]), path[..drawn], color);
    }

    /** Round `k` gets as far as the next one, or to the end. */
    ghost predicate RoundPasses(a: Point, b: Point, k: nat)
      reads this
    {
      && !(display.OnScreen(Round(a, b, k).0) && clip.TestFails(Round(a, b, k).0))
      && (k < Length(a, b) ==> RoundFits(a, b, k))
    }

    /** The first `n` rounds pass. */
    ghost predicate Passes(a: Point, b: Point, n: nat)
      reads this
    {
      forall k: nat :: k < n ==> RoundPasses(a, b, k)
    }

    lemma PassesOneMore(a: Point, b: Point, n: nat)
      requires Passes(a, b, n)
      ensures Passes(a, b, n + 1) <==> RoundPasses(a, b, n)
    {
    }

    lemma PassesFewer(a: Point, b: Point, m: nat, n: nat)
      requires m <= n && Passes(a, b, n)
      ensures Passes(a, b, m)
    {
    }

    lemma FailsSomewhere(a: Point, b: Point)
      requires Length(a, b) < 0x8000_0000
      ensures Passes(a, b, Length(a, b) + 1) <==> RunFits(a, b) && !PixelFails(PathOf(a, b, Length(a, b) + 1))
    {
      var n := Length(a, b) + 1;
      var path := PathOf(a, b, n);
      forall k: nat | k < n
        ensures path[k] == Round(a, b, k).0 && path[k] in path
      {
        PathAt(a, b, n, k);
      }
      if Passes(a, b, n) {
        forall k: nat | k < Length(a, b)
          ensures RoundFits(a, b, k)
        {
          assert RoundPasses(a, b, k);
        }
        forall p | p in path
          ensures !(display.OnScreen(p) && clip.TestFails(p))
        {
          var k: nat :| k < n && path[k] == p;
          assert RoundPasses(a, b, k);
        }
      }
    }

    /** The drawing loop, entered with the line's slope worked out. */
    method PlotRounds(dx: int, dy: int, sx: int, sy: int, ghost a: Point, b: Point, x1: i32, y1: i32, color: Color)
      returns (panicked: bool, ghost drawn: nat)
      requires Valid() && a == (x1, y1) && PointFits(b)
      requires dx == Abs(b.0 - a.0) && dy == -Abs(b.1 - a.1) && sx == Sign(a.0, b.0) && sy == Sign(a.1, b.1)
      modifies buffer
      ensures !panicked <==> Passes(a, b, Length(a, b) + 1)
      ensures drawn <= Length(a, b) + 1 && (!panicked ==> drawn == Length(a, b) + 1)
      ensures buffer[..] == display.PlotAll(clip, old(buffer[..]), PathOf(a, b, drawn), color)
    {
      var err := dx + dy;
      var x, y := x1, y1;
      ghost var k := 0;
      while true
        invariant 0 <= k <= Length(a, b) && Round(a, b, k) == ((x, y), err)
        invariant buffer[..] == display.PlotAll(clip, old(buffer[..]), PathOf(a, b, k), color)
        invariant Passes(a, b, k)
        decreases Length(a, b) - k
      {
        RoundEnds(a, b, k);
        PointsFit(a, b, k);
        PassesOneMore(a, b, k);
        if Passes(a, b, Length(a, b) + 1) {
          PassesFewer(a, b, k + 1, Length(a, b) + 1);
        }
        drawn := k;
        panicked := SetPixel(x, y, color);
        if panicked {
          return;
        }
        drawn := k + 1;
        PathGrows(a, b, k);
        if x == b.0 && y == b.1 {
          return;
        }
        var x', y', err', stuck;
        x', y', err', stuck, panicked := StepOnce(x, y, err, dx, dy, sx, sy, a, b);
        if panicked || stuck {
          return;
        }
        x, y, err, k := x', y', err', k + 1;
      }
    }
  }
}
