/**
  The Wayland front-end's handling of the screen copy before it is cropped:
  picking a free shared-memory buffer, bringing 32-bit formats to the byte order
  Cairo expects (blue, green, red, alpha in memory) in place, and widening 24-bit
  formats into a new 32-bit buffer.
*/
module Pixels {
  import opened Common

  /** The `wl_shm` formats the screen copy can arrive in; `Other` is any format not handled. */
  datatype Format =
    | Argb8888 | Xrgb8888 | Abgr8888 | Xbgr8888
    | Xrgb2101010 | Xbgr2101010
    | Bgr888 | Rgb888
    | Other(code: int)

  /** Four bytes of a 32-bit pixel, in memory order. */
  datatype Pixel = Pixel(b0: uint8, b1: uint8, b2: uint8, b3: uint8)

  /** The p-th 32-bit pixel of a buffer. */
  function PixelAt(s: seq<uint8>, p: nat): Pixel
    requires 4 * p + 3 < |s|
  {
    Pixel(s[4 * p], s[4 * p + 1], s[4 * p + 2], s[4 * p + 3])
  }

  // ------------------------------------------------------------ 32-bit formats

  /** `std::swap(px->red, px->blue)`: memory bytes 0 and 2 trade places. */
  function SwapRedBlue(px: Pixel): Pixel {
    Pixel(px.b2, px.b1, px.b0, px.b3)
  }

  /** Swapping twice restores the pixel; green and alpha never move. */
  lemma SwapRedBlueInvolution(px: Pixel)
    ensures SwapRedBlue(SwapRedBlue(px)) == px
    ensures SwapRedBlue(px).b1 == px.b1 && SwapRedBlue(px).b3 == px.b3
    ensures SwapRedBlue(px) == px <==> px.b0 == px.b2
  {
  }

  /** The pixel as a little-endian 32-bit word. */
  function Word(px: Pixel): nat {
    px.b0 + 0x100 * px.b1 + 0x1_0000 * px.b2 + 0x100_0000 * px.b3
  }

  /** A 2-10-10-10 pixel split into its fields, low bits first. */
  datatype Fields10 = Fields10(low: nat, mid: nat, high: nat, top: nat)

  function Unpack10(w: nat): Fields10 {
    Fields10(w % 0x400, (w / 0x400) % 0x400, (w / 0x10_0000) % 0x400, w / 0x4000_0000)
  }

  function Pack10(f: Fields10): nat {
    f.low + 0x400 * f.mid + 0x10_0000 * f.high + 0x4000_0000 * f.top
  }

  /** Division by d undoes `a + d * q` for a digit a below d. */
  lemma DivModDigit(a: nat, q: nat, d: nat)
    requires 0 < d && a < d
    ensures (a + d * q) / d == q && (a + d * q) % d == a
  {
    var n := a + d * q;
    var e := n / d - q;
    assert d * e == a - n % d;
    if e >= 1 {
      MulAtLeast(d, e);
    } else if e <= -1 {
      MulAtLeast(d, -e);
    }
  }

  /** The masks and shifts recover the fields of any packed 2-10-10-10 word. */
  lemma UnpackPack10(f: Fields10)
    requires Fits10(f)
    ensures Unpack10(Pack10(f)) == f
    ensures Pack10(f) < 0x1_0000_0000
  {
    var w := Pack10(f);
    var q2 := f.high + 0x400 * f.top;
    var q1 := f.mid + 0x400 * q2;
    assert w == f.low + 0x400 * q1;
    DivModDigit(f.low, q1, 0x400);
    DivModDigit(f.mid, q2, 0x400);
    assert w == (f.low + 0x400 * f.mid) + 0x10_0000 * q2;
    DivModDigit(f.low + 0x400 * f.mid, q2, 0x10_0000);
    DivModDigit(f.high, f.top, 0x400);
    assert w == (f.low + 0x400 * f.mid + 0x10_0000 * f.high) + 0x4000_0000 * f.top;
    DivModDigit(f.low + 0x400 * f.mid + 0x10_0000 * f.high, f.top, 0x4000_0000);
  }


  /**
    `round(255 * v / 1023)`: the exact quotient is never halfway between two
    integers (510 v is even, 1023 odd), so this is the integer nearest to it.
  */
  function Scale10(v: nat): (c: uint8)
    requires v < 0x400
    ensures -1023 <= 2046 * c - 510 * v <= 1023
  {
    (510 * v + 1023) / 2046
  }

  /** The scale keeps order and the ends of the range. */
  lemma Scale10Monotone(v: nat, w: nat)
    requires v <= w < 0x400
    ensures Scale10(v) <= Scale10(w)
    ensures Scale10(0) == 0 && Scale10(1023) == 255
  {
  }

  /** `round(255 * a / 3)`, exact for a two-bit alpha. */
  function Scale2(a: nat): (c: uint8)
    requires a < 4
    ensures 3 * c == 255 * a
  {
    85 * a
  }

  /**
    The 10-bit conversion: each 10-bit field is scaled to 8 bits and the word is
    rewritten as low field, middle, high field, alpha; `flip` (the XBGR variant)
    exchanges the low and high fields.
  */
  function Down10(px: Pixel, flip: bool): Pixel {
    Down10Of(Unpack10(Word(px)), flip)
  }

  /** The fields of a 2-10-10-10 word fit their widths. */
  predicate Fits10(f: Fields10) {
    f.low < 0x400 && f.mid < 0x400 && f.high < 0x400 && f.top < 4
  }

  function Down10Of(f: Fields10, flip: bool): Pixel
    requires Fits10(f)
  {
    var lo, hi := Scale10(f.low), Scale10(f.high);
    Pixel(if flip then hi else lo, Scale10(f.mid), if flip then lo else hi, Scale2(f.top))
  }

  /** On a pixel packed from its fields, the conversion scales each field and keeps its place (or flips it). */
  lemma Down10Fields(px: Pixel, f: Fields10, flip: bool)
    requires Fits10(f)
    requires Word(px) == Pack10(f)
    ensures Down10(px, flip).b1 == Scale10(f.mid) && Down10(px, flip).b3 == Scale2(f.top)
    ensures Down10(px, flip).b0 == Scale10(if flip then f.high else f.low)
    ensures Down10(px, flip).b2 == Scale10(if flip then f.low else f.high)
  {
    UnpackPack10(f);
  }

  /** The formats handled in place by the 32-bit conversion. */
  predicate Is32(f: Format) {
    f.Argb8888? || f.Xrgb8888? || f.Abgr8888? || f.Xbgr8888? || f.Xrgb2101010? || f.Xbgr2101010?
  }

  /** What the conversion does to one pixel of a buffer in format `f`. */
  function Recode(f: Format, px: Pixel): Pixel {
    match f
    case Abgr8888 => SwapRedBlue(px)
    case Xbgr8888 => SwapRedBlue(px)
    case Xrgb2101010 => Down10(px, false)
    case Xbgr2101010 => Down10(px, true)
    case _ => px
  }

  lemma RowsFit(y: nat, width: nat, height: nat)
    requires y < height
    ensures y * width + width == (y + 1) * width <= width * height
  {
    assert (y + 1) * width <= height * width;
  }

  /** Index of the pixel in row y and column x of a tightly packed buffer. */
  lemma RowColumn(y: nat, x: nat, width: nat, height: nat)
    requires y < height && x < width
    ensures y * width + x < width * height
  {
    assert y * width + x < y * width + width == (y + 1) * width;
    assert (y + 1) * width <= height * width;
  }

  /**
    Writes the recoded pixel `p` in place; the bytes outside it are untouched.
  */
  method RecodePixel(buf: array<uint8>, p: nat, f: Format)
    requires 4 * p + 3 < buf.Length
    modifies buf
    ensures PixelAt(buf[..], p) == Recode(f, PixelAt(old(buf[..]), p))
    ensures forall i :: 0 <= i < buf.Length && (i < 4 * p || 4 * p + 3 < i) ==> buf[i] == old(buf[i])
  {
    var o := 4 * p;
    match f {
      case Abgr8888 | Xbgr8888 =>
        buf[o], buf[o + 2] := buf[o + 2], buf[o];
      case _ =>
        WritePixel(buf, p, Recode(f, Pixel(buf[o], buf[o + 1], buf[o + 2], buf[o + 3])));
    }
  }

  /**
    `convertBuffer`: ARGB and XRGB buffers are left as they are, ABGR and XBGR
    have red and blue swapped in every pixel, the 10-bit formats are brought
    down to 8 bits per channel; any other format ends the program (`ok` false).
    The buffer is `width * height` pixels of four bytes, row after row.
  */
  method ConvertBuffer(buf: array<uint8>, width: nat, height: nat, f: Format) returns (ok: bool)
    requires 4 * (width * height) <= buf.Length
    modifies buf
    ensures ok <==> Is32(f)
    ensures ok ==> forall p :: 0 <= p < width * height ==>
      PixelAt(buf[..], p) == Recode(f, PixelAt(old(buf[..]), p))
    ensures forall i :: 4 * (width * height) <= i < buf.Length ==> buf[i] == old(buf[i])
    ensures !ok ==> buf[..] == old(buf[..])
  {
    if !Is32(f) {
      return false;
    }
    ok := true;
    if f.Argb8888? || f.Xrgb8888? {
      return;
    }
    ghost var orig := buf[..];
    var y, row := 0, 0;
    while y < height
      invariant 0 <= y <= height && row == y * width && row <= width * height
      invariant forall p :: 0 <= p < row ==> PixelAt(buf[..], p) == Recode(f, PixelAt(orig, p))
      invariant forall i :: 4 * row <= i < buf.Length ==> buf[i] == orig[i]
    {
      RowsFit(y, width, height);
      RecodeRow(buf, width, height, f, y, row, orig);
      y, row := y + 1, row + width;
    }
    assert row == width * height;
  }

  /** One row of `convertBuffer`: pixels row to row + width - 1 are recoded in place. */
  method RecodeRow(buf: array<uint8>, width: nat, height: nat, f: Format, y: nat, row: nat, ghost orig: seq<uint8>)
    requires 4 * (width * height) <= buf.Length == |orig|
    requires y < height && row == y * width && row + width <= width * height
    requires forall p :: 0 <= p < row ==> PixelAt(buf[..], p) == Recode(f, PixelAt(orig, p))
    requires forall i :: 4 * row <= i < buf.Length ==> buf[i] == orig[i]
    modifies buf
    ensures forall p :: 0 <= p < row + width ==> PixelAt(buf[..], p) == Recode(f, PixelAt(orig, p))
    ensures forall i :: 4 * (row + width) <= i < buf.Length ==> buf[i] == orig[i]
  {
    var x := 0;
    while x < width
      invariant 0 <= x <= width
      invariant forall p :: 0 <= p < row + x ==> PixelAt(buf[..], p) == Recode(f, PixelAt(orig, p))
      invariant forall i :: 4 * (row + x) <= i < buf.Length ==> buf[i] == orig[i]
    {
      var p := row + x;
      ghost var before := buf[..];
      RecodePixel(buf, p, f);
      assert PixelAt(before, p) == PixelAt(orig, p);
      forall q | 0 <= q < p
        ensures PixelAt(buf[..], q) == PixelAt(before, q)
      {
      }
      x := x + 1;
    }
  }

  // ------------------------------------------------------------ 24-bit formats

  /** The 32-bit pixel a 24-bit source pixel (bytes in memory order) becomes. */
  function Widen(f: Format, s0: uint8, s1: uint8, s2: uint8): Pixel {
    if f.Bgr888? then Pixel(s2, s1, s0, 0xFF)
    else Pixel(0xFF, s0, s1, s2)
  }

  /**
    BGR888 comes out with its first and third bytes exchanged, RGB888 shifted up
    by one byte; both get an opaque fourth channel in the remaining byte.
  */
  lemma WidenLayout(s0: uint8, s1: uint8, s2: uint8)
    ensures Widen(Bgr888, s0, s1, s2) == SwapRedBlue(Pixel(s0, s1, s2, 0xFF))
    ensures Word(Widen(Rgb888, s0, s1, s2)) == 0xFF + 0x100 * (s0 + 0x100 * s1 + 0x1_0000 * s2)
  {
  }

  /** The three source bytes of pixel p: row p / width starts at a multiple of the stride. */
  function Source24(s: seq<uint8>, stride: nat, width: nat, p: nat): (r: (uint8, uint8, uint8))
    requires width > 0 && (p / width) * stride + 3 * (p % width) + 2 < |s|
  {
    var o := (p / width) * stride + 3 * (p % width);
    (s[o], s[o + 1], s[o + 2])
  }

  /** Pixel p of `d` is the widened source pixel in row p / width, column p % width. */
  predicate Widened(s: seq<uint8>, d: seq<uint8>, stride: nat, width: nat, f: Format, p: nat) {
    && width > 0 && 4 * p + 3 < |d|
    && (p / width) * stride + 3 * (p % width) + 2 < |s|
    && var (s0, s1, s2) := Source24(s, stride, width, p);
       PixelAt(d, p) == Widen(f, s0, s1, s2)
  }

  lemma MulAtLeast(w: nat, k: int)
    requires k >= 1
    ensures w * k >= w
  {
  }

  /** Division with remainder has one answer: row y and column x of pixel y * width + x. */
  lemma DivModRow(y: nat, x: nat, width: nat)
    requires x < width
    ensures (y * width + x) / width == y && (y * width + x) % width == x
  {
    DivModDigit(x, y, width);
    assert y * width + x == x + width * y;
  }

  lemma SourceInBounds(y: nat, x: nat, width: nat, height: nat, stride: nat)
    requires y < height && x < width && 3 * width <= stride
    ensures y * stride + 3 * x + 2 < height * stride
  {
    assert y * stride + 3 * x + 2 < y * stride + stride == (y + 1) * stride;
    assert (y + 1) * stride <= height * stride;
  }

  /**
    `convert24To32Buffer`: a new buffer of `width * height` four-byte pixels,
    each the widened source pixel found at row offset `y * stride` and column
    offset `3 * x`. An unsupported format ends the program (`ok` false) after the
    new buffer was allocated.
  */
  method Convert24To32(src: array<uint8>, width: nat, height: nat, stride: nat, f: Format)
    returns (dst: array<uint8>, ok: bool)
    requires 3 * width <= stride && height * stride <= src.Length
    ensures fresh(dst) && dst.Length == 4 * (width * height)
    ensures ok <==> f.Bgr888? || f.Rgb888?
    ensures ok ==> forall p :: 0 <= p < width * height ==> Widened(src[..], dst[..], stride, width, f, p)
  {
    dst := new uint8[4 * (width * height)];
    if !(f.Bgr888? || f.Rgb888?) {
      return dst, false;
    }
    ok := true;
    var y, row := 0, 0;
    while y < height
      invariant 0 <= y <= height && row == y * width && row <= width * height
      invariant forall p :: 0 <= p < row ==> Widened(src[..], dst[..], stride, width, f, p)
    {
      RowsFit(y, width, height);
      WidenRow(src, dst, width, height, stride, f, y, row);
      y, row := y + 1, row + width;
    }
  }

  /** One row of `convert24To32Buffer`: pixels row to row + width - 1 are filled in. */
  method WidenRow(src: array<uint8>, dst: array<uint8>, width: nat, height: nat, stride: nat, f: Format, y: nat, row: nat)
    requires src != dst
    requires 3 * width <= stride && height * stride <= src.Length && dst.Length == 4 * (width * height)
    requires y < height && row == y * width && row + width <= width * height
    requires forall p :: 0 <= p < row ==> Widened(src[..], dst[..], stride, width, f, p)
    modifies dst
    ensures forall p :: 0 <= p < row + width ==> Widened(src[..], dst[..], stride, width, f, p)
  {
    var x := 0;
    while x < width
      invariant 0 <= x <= width
      invariant forall p :: 0 <= p < row + x ==> Widened(src[..], dst[..], stride, width, f, p)
    {
      RowColumn(y, x, width, height);
      SourceInBounds(y, x, width, height, stride);
      var o := y * stride + 3 * x;
      var q := Widen(f, src[o], src[o + 1], src[o + 2]);
      ghost var before := dst[..];
      WritePixel(dst, row + x, q);
      DivModRow(y, x, width);
      assert Widened(src[..], dst[..], stride, width, f, row + x);
      forall p | 0 <= p < row + x
        ensures Widened(src[..], dst[..], stride, width, f, p)
      {
        assert Widened(src[..], before, stride, width, f, p);
        assert PixelAt(dst[..], p) == PixelAt(before, p);
      }
      x := x + 1;
    }
  }

  /** Stores one 32-bit pixel; the other bytes are untouched. */
  method WritePixel(dst: array<uint8>, p: nat, q: Pixel)
    requires 4 * p + 3 < dst.Length
    modifies dst
    ensures PixelAt(dst[..], p) == q
    ensures forall i :: 0 <= i < dst.Length && (i < 4 * p || 4 * p + 3 < i) ==> dst[i] == old(dst[i])
  {
    var d := 4 * p;
    dst[d], dst[d + 1], dst[d + 2], dst[d + 3] := q.b0, q.b1, q.b2, q.b3;
  }

  // ------------------------------------------------------------ buffer choice

  /** One of a layer surface's two shared-memory buffers: absent, or present and maybe busy. */
  datatype Slot = Missing | Buffer(busy: bool)

  predicate Free(s: Slot) {
    s.Buffer? && !s.busy
  }

  /**
    `getBufferForLS`: of the two buffers, the last one that exists and is not
    busy, or none when neither is free.
  */
  method GetBufferForLS(slots: seq<Slot>) returns (r: Option<nat>)
    requires |slots| == 2
    ensures r.None? <==> forall i :: 0 <= i < 2 ==> !Free(slots[i])
    ensures r.Some? ==>
      && r.value < 2 && Free(slots[r.value])
      && forall i :: r.value < i < 2 ==> !Free(slots[i])
  {
    r := None;
    for i := 0 to 2
      invariant r.None? <==> forall j :: 0 <= j < i ==> !Free(slots[j])
      invariant r.Some? ==>
        && r.value < i && Free(slots[r.value])
        && forall j :: r.value < j < i ==> !Free(slots[j])
    {
      if slots[i] == Missing || slots[i].busy {
        continue;
      }
      r := Some(i);
    }
  }
}
