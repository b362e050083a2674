// The bridge between the software rasterizer and the video mode: presenting
// the backbuffer in the hardware framebuffer.
module GfxBridge {
  import opened Words
  import opened BitFields
  import opened Pixels
  import Arithmetic

  // Rows do not overlap, and the framebuffer holds them all.
  predicate HoldsRows(m: Mode, size: nat) {
    m.width * PixelBytes(m.bpp) <= m.pitch && m.height * m.pitch <= size
  }

  function CellAt(m: Mode, y: nat, x: nat): nat {
    y * m.pitch + x * PixelBytes(m.bpp)
  }

  // The bytes of some pixel, as opposed to padding and whatever follows.
  predicate InCell(m: Mode, k: nat) {
    m.pitch > 0 && k / m.pitch < m.height && k % m.pitch < m.width * PixelBytes(m.bpp)
  }

  lemma CellInside(m: Mode, size: nat, y: nat, x: nat)
    requires HoldsRows(m, size) && y < m.height && x < m.width
    ensures CellAt(m, y, x) + PixelBytes(m.bpp) <= (y + 1) * m.pitch <= size
  {
    Arithmetic.MulLe(x + 1, m.width, PixelBytes(m.bpp));
    Arithmetic.MulLe(y + 1, m.height, m.pitch);
  }

  lemma CellIsCell(m: Mode, size: nat, y: nat, x: nat, j: nat)
    requires HoldsRows(m, size) && y < m.height && x < m.width && j < PixelBytes(m.bpp)
    ensures InCell(m, CellAt(m, y, x) + j)
  {
    var r := x * PixelBytes(m.bpp) + j;
    Arithmetic.MulLe(x + 1, m.width, PixelBytes(m.bpp));
    Arithmetic.DivModUnique(CellAt(m, y, x) + j, m.pitch, y, r);
  }

  // Cells come one after the other.
  lemma CellsInOrder(m: Mode, size: nat, y: nat, x: nat, y': nat, x': nat)
    requires HoldsRows(m, size) && y' < m.height && x < m.width
    requires y < y' || (y == y' && x < x')
    ensures CellAt(m, y, x) + PixelBytes(m.bpp) <= CellAt(m, y', x')
  {
    hide PixelBytes, HoldsRows;
    if y < y' {
      CellInside(m, size, y, x);
      RowsInOrder(m, y, y', x');
    } else {
      Arithmetic.MulLe(x + 1, x', PixelBytes(m.bpp));
    }
  }

  lemma RowsInOrder(m: Mode, y: nat, y': nat, x': nat)
    requires y < y'
    ensures (y + 1) * m.pitch <= CellAt(m, y', x')
  {
    Arithmetic.MulLe(y + 1, y', m.pitch);
  }

  function PixelAt(m: Mode, b: seq<bv8>, y: nat, x: nat): bv32
    requires HoldsRows(m, |b|) && y < m.height && x < m.width
  {
    CellInside(m, |b|, y, x);
    ReadPixel(b, CellAt(m, y, x), m.bpp)
  }

  // The index of a pixel in the backbuffer, which has no padding.
  lemma SourceInside(m: Mode, y: nat, x: nat)
    requires y < m.height && x < m.width
    ensures 0 <= y * m.width + x < m.width * m.height
  {
    Arithmetic.MulLe(y + 1, m.height, m.width);
  }

  function ColourAt(m: Mode, source: seq<bv32>, y: nat, x: nat): bv32
    requires m.width * m.height <= |source| && y < m.height && x < m.width
  {
    SourceInside(m, y, x);
    source[y * m.width + x]
  }

  // The pixels before (y, x) show their colour, and no byte between pixels
  // has changed.
  ghost predicate Shown(m: Mode, b: seq<bv8>, was: seq<bv8>, source: seq<bv32>, y: nat, x: nat) {
    && Placeable(m) && |b| == |was| && HoldsRows(m, |b|) && m.width * m.height <= |source|
    && (forall v, u :: 0 <= v < m.height && 0 <= u < m.width && (v < y || (v == y && u < x)) ==>
          ShowsColour(m, b, source, v, u))
    && forall k :: 0 <= k < |b| && !InCell(m, k) ==> b[k] == was[k]
  }

  ghost predicate ShowsColour(m: Mode, b: seq<bv8>, source: seq<bv32>, y: nat, x: nat)
    requires Placeable(m) && HoldsRows(m, |b|) && m.width * m.height <= |source| && y < m.height && x < m.width
  {
    PixelAt(m, b, y, x) == Converted(m, ColourAt(m, source, y, x))
  }

  // Some bytes of a framebuffer written over.
  function Overwritten(b: seq<bv8>, at: nat, bytes: seq<bv8>): (b': seq<bv8>)
    requires at + |bytes| <= |b|
    ensures |b'| == |b|
    ensures forall k :: 0 <= k < |b| ==> b'[k] == if at <= k < at + |bytes| then bytes[k - at] else b[k]
  {
    b[..at] + bytes + b[at + |bytes|..]
  }

  // One pixel more: its bytes were written, and no other.
  ghost predicate OnePixel(m: Mode, b: seq<bv8>, b': seq<bv8>, y: nat, x: nat, v: bv32) {
    && 1 <= PixelBytes(m.bpp) && CellAt(m, y, x) + PixelBytes(m.bpp) <= |b|
    && b' == Overwritten(b, CellAt(m, y, x), BytesOf(v, PixelBytes(m.bpp)))
  }

  lemma ShowNext(m: Mode, b: seq<bv8>, b': seq<bv8>, was: seq<bv8>, source: seq<bv32>, y: nat, x: nat)
    requires Shown(m, b, was, source, y, x) && y < m.height && x < m.width
    requires OnePixel(m, b, b', y, x, Stored(m, ColourAt(m, source, y, x)))
    ensures Shown(m, b', was, source, y, x + 1)
  {
    hide Converted, Stored, ReadPixel, LowBytes, ByteOf, InCell;
    forall v, u | 0 <= v < m.height && 0 <= u < m.width && (v < y || (v == y && u < x + 1))
      ensures ShowsColour(m, b', source, v, u)
    {
      if v == y && u == x {
        ShowItself(m, b, b', source, y, x);
      } else {
        assert ShowsColour(m, b, source, v, u);
        ShowBefore(m, b, b', source, v, u, y, x, Stored(m, ColourAt(m, source, y, x)));
      }
    }
    forall k | 0 <= k < |b'| && !InCell(m, k) ensures b'[k] == was[k] {
      OutsideCell(m, |b|, k, y, x);
      assert b[k] == was[k];
    }
  }

  lemma OutsideCell(m: Mode, size: nat, k: nat, y: nat, x: nat)
    requires HoldsRows(m, size) && !InCell(m, k) && y < m.height && x < m.width
    ensures k < CellAt(m, y, x) || CellAt(m, y, x) + PixelBytes(m.bpp) <= k
  {
    if CellAt(m, y, x) <= k < CellAt(m, y, x) + PixelBytes(m.bpp) {
      CellIsCell(m, size, y, x, k - CellAt(m, y, x));
    }
  }

  lemma ShowItself(m: Mode, b: seq<bv8>, b': seq<bv8>, source: seq<bv32>, y: nat, x: nat)
    requires Placeable(m) && HoldsRows(m, |b|) && m.width * m.height <= |source| && y < m.height && x < m.width
    requires OnePixel(m, b, b', y, x, Stored(m, ColourAt(m, source, y, x)))
    ensures ShowsColour(m, b', source, y, x)
  {
    hide Stored, ReadPixel, LowBytes, ByteOf, CellAt;
    CellInside(m, |b'|, y, x);
    ReadsBack(b', CellAt(m, y, x), m.bpp, Stored(m, ColourAt(m, source, y, x)));
  }

  lemma ShowBefore(m: Mode, b: seq<bv8>, b': seq<bv8>, source: seq<bv32>, v: nat, u: nat, y: nat, x: nat, w: bv32)
    requires Placeable(m) && HoldsRows(m, |b|) && m.width * m.height <= |source|
    requires y < m.height && u < m.width && (v < y || (v == y && u < x))
    requires ShowsColour(m, b, source, v, u) && OnePixel(m, b, b', y, x, w)
    ensures ShowsColour(m, b', source, v, u)
  {
    hide Converted, LowBytes, ByteOf, Assembled, CellAt;
    CellInside(m, |b|, v, u);
    CellsInOrder(m, |b|, v, u, y, x);
    var from, to := CellAt(m, v, u), CellAt(m, v, u) + PixelBytes(m.bpp);
    assert b'[from..to] == b[from..to];
  }

  lemma NextRow(m: Mode, b: seq<bv8>, was: seq<bv8>, source: seq<bv32>, y: nat)
    requires Shown(m, b, was, source, y, m.width)
    ensures Shown(m, b, was, source, y + 1, 0)
  {
    hide ShowsColour, InCell;
  }

  lemma NothingShown(m: Mode, b: seq<bv8>, source: seq<bv32>)
    requires Placeable(m) && HoldsRows(m, |b|) && m.width * m.height <= |source|
    ensures Shown(m, b, b, source, 0, 0)
  {
  }

  // The size asked for is computed in 32 bits.
  function ColourBytes(m: Mode): u32 {
    var count: int := m.width * m.height;
    count % 0x1_0000_0000 * 4 % 0x1_0000_0000
  }

  predicate Wraps(m: Mode) {
    m.width * m.height >= 0x4000_0000
  }

  // It is enough for the mode's pixels exactly when it does not wrap.
  lemma BackbufferSize(m: Mode)
    ensures ColourBytes(m) >= 4 * m.width * m.height <==> !Wraps(m)
  {
    var count: int := m.width * m.height;
    assert 4 * m.width * m.height == 4 * count;
    if count < 0x4000_0000 {
      assert count % 0x1_0000_0000 == count;
    }
  }

  class Bridge {
    var ready: bool
    var mode: Mode
    var pixels: array<bv32>

    ghost predicate Valid()
      reads this
    {
      ready ==> Placeable(mode) && mode.width * mode.height <= pixels.Length
    }

    // The bridge is ready when the mode has pixels and both buffers could be
    // had; it keeps the mode by value. The memory is as large as was asked for.
    constructor (m: Mode, framebuffer: u32, memory: Option<array<bv32>>, depth: bool)
      requires Placeable(m)
      requires memory.Some? ==> 4 * memory.value.Length >= ColourBytes(m)
      ensures ready <==> !m.text && framebuffer != 0 && m.width > 0 && m.height > 0 && memory.Some? && depth
      ensures ready ==> mode == m && pixels == memory.value
      ensures !Wraps(m) ==> Valid()
    {
      BackbufferSize(m);
      mode := m;
      if memory.Some? {
        pixels := memory.value;
      } else {
        pixels := new bv32[0];
      }
      ready := !m.text && framebuffer != 0 && m.width > 0 && m.height > 0 && memory.Some? && depth;
    }

    // The presented framebuffer shows, at every pixel, the converted colour;
    // padding is untouched, and depths the bridge does not know do nothing.
    method Present(framebuffer: array<bv8>)
      requires Valid() && (ready ==> HoldsRows(mode, framebuffer.Length))
      modifies framebuffer
      ensures ready && PixelBytes(mode.bpp) > 0 ==>
        Shown(mode, framebuffer[..], old(framebuffer[..]), pixels[..], mode.height, 0)
      ensures !ready || PixelBytes(mode.bpp) == 0 ==> framebuffer[..] == old(framebuffer[..])
    {
      if !ready {
        return;
      }
      ghost var was := framebuffer[..];
      NothingShown(mode, was, pixels[..]);
      hide Shown;
      var y := 0;
      while y < mode.height
        invariant y <= mode.height && Shown(mode, framebuffer[..], was, pixels[..], y, 0)
        invariant PixelBytes(mode.bpp) == 0 ==> framebuffer[..] == was
      {
        if PixelBytes(mode.bpp) == 0 {
          return;
        }
        PresentRow(framebuffer, y, was);
        y := y + 1;
      }
    }

    method PresentRow(framebuffer: array<bv8>, y: nat, ghost was: seq<bv8>)
      requires Valid() && ready && PixelBytes(mode.bpp) > 0 && y < mode.height
      requires Shown(mode, framebuffer[..], was, pixels[..], y, 0)
      modifies framebuffer
      ensures Shown(mode, framebuffer[..], was, pixels[..], y + 1, 0)
    {
      hide Shown, Palette332, Direct, ColourAt, Placeable;
      var x := 0;
      match mode.bpp {
        case 8 =>
          while x < mode.width
            invariant x <= mode.width && Shown(mode, framebuffer[..], was, pixels[..], y, x)
          {
            var colour := Source(y, x);
            Put(framebuffer, y, x, 1, Palette332(colour), was);
            x := x + 1;
          }
        case 15 | 16 =>
          while x < mode.width
            invariant x <= mode.width && Shown(mode, framebuffer[..], was, pixels[..], y, x)
          {
            var colour := Source(y, x);
            Put(framebuffer, y, x, 2, Direct(mode, colour), was);
            x := x + 1;
          }
        case 24 =>
          while x < mode.width
            invariant x <= mode.width && Shown(mode, framebuffer[..], was, pixels[..], y, x)
          {
            var colour := Source(y, x);
            Put(framebuffer, y, x, 3, Direct(mode, colour), was);
            x := x + 1;
          }
        case 32 =>
          while x < mode.width
            invariant x <= mode.width && Shown(mode, framebuffer[..], was, pixels[..], y, x)
          {
            var colour := Source(y, x);
            Put(framebuffer, y, x, 4, Direct(mode, colour), was);
            x := x + 1;
          }
        case _ =>
      }
      NextRow(mode, framebuffer[..], was, pixels[..], y);
    }

    method Source(y: nat, x: nat) returns (colour: bv32)
      requires Valid() && ready && y < mode.height && x < mode.width
      ensures colour == ColourAt(mode, pixels[..], y, x)
    {
      SourceInside(mode, y, x);
      return pixels[y * mode.width + x];
    }

    // Stores a value as the bytes of one pixel, lowest first.
    method Put(framebuffer: array<bv8>, y: nat, x: nat, n: nat, v: bv32, ghost was: seq<bv8>)
      requires Valid() && ready && y < mode.height && x < mode.width && 1 <= n == PixelBytes(mode.bpp)
      requires Shown(mode, framebuffer[..], was, pixels[..], y, x)
      requires v == Stored(mode, ColourAt(mode, pixels[..], y, x))
      modifies framebuffer
      ensures Shown(mode, framebuffer[..], was, pixels[..], y, x + 1)
    {
      hide Stored, Placeable, ByteOf, PixelBytes, ColourAt, CellAt, Shown;
      ghost var before := framebuffer[..];
      Room(mode, before, was, pixels[..], y, x);
      Store(framebuffer, CellAt(mode, y, x), BytesOf(v, n));
      ShowNext(mode, before, framebuffer[..], was, pixels[..], y, x);
    }
  }

  lemma Room(m: Mode, b: seq<bv8>, was: seq<bv8>, source: seq<bv32>, y: nat, x: nat)
    requires Shown(m, b, was, source, y, x) && y < m.height && x < m.width
    ensures CellAt(m, y, x) + PixelBytes(m.bpp) <= |b|
  {
    CellInside(m, |b|, y, x);
  }

  method Store(framebuffer: array<bv8>, at: nat, bytes: seq<bv8>)
    requires at + |bytes| <= framebuffer.Length
    modifies framebuffer
    ensures framebuffer[..] == Overwritten(old(framebuffer[..]), at, bytes)
  {
    forall j | 0 <= j < |bytes| {
      framebuffer[at + j] := bytes[j];
    }
  }

  // After presenting, in a mode of direct colours whose channels do not
  // overlap, every pixel of the framebuffer gives back the top bits of the
  // channels drawn there.
  lemma PresentedChannels(m: Mode, b: seq<bv8>, was: seq<bv8>, source: seq<bv32>, y: nat, x: nat)
    requires Shown(m, b, was, source, m.height, 0) && m.bpp != 8 && DisjointChannels(m)
    requires y < m.height && x < m.width
    ensures ReadsChannels(m, PixelAt(m, b, y, x), ColourAt(m, source, y, x))
  {
    hide ReadsChannels, Converted, DisjointChannels, PixelAt;
    assert ShowsColour(m, b, source, y, x);
    ChannelsReadBack(m, ColourAt(m, source, y, x));
  }
}
