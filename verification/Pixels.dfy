// Pixel formats: how a 32-bit RGBA colour becomes the value a video mode
// stores, and how a stored pixel is read back.
module Pixels {
  import opened Words
  import opened BitFields

  // The mode in force; positions and sizes are what the BIOS reported.
  datatype Mode = Mode(text: bool, width: u32, height: u32, pitch: u32, bpp: byte,
                       redPos: bv8, redSize: bv8, greenPos: bv8, greenSize: bv8, bluePos: bv8, blueSize: bv8)

  const RED_SHIFT: bv8 := 24
  const GREEN_SHIFT: bv8 := 16
  const BLUE_SHIFT: bv8 := 8

  // Shifting by the whole width of the word or more has no meaning in C.
  predicate Placeable(m: Mode) {
    m.redPos < 32 && m.greenPos < 32 && m.bluePos < 32
  }

  function Direct(m: Mode, rgba: bv32): bv32
    requires Placeable(m)
  {
    Union(Placed(Narrowed(Channel(rgba, RED_SHIFT), m.redSize), m.redPos),
          Placed(Narrowed(Channel(rgba, GREEN_SHIFT), m.greenSize), m.greenPos),
          Placed(Narrowed(Channel(rgba, BLUE_SHIFT), m.blueSize), m.bluePos))
  }

  function Palette332(rgba: bv32): bv32 {
    Index332(Channel(rgba, RED_SHIFT), Channel(rgba, GREEN_SHIFT), Channel(rgba, BLUE_SHIFT))
  }

  // Bytes that one pixel takes; none for depths the bridge does not know.
  function PixelBytes(bpp: byte): (n: nat)
    ensures n <= 4
  {
    match bpp
    case 8 => 1
    case 15 => 2
    case 16 => 2
    case 24 => 3
    case 32 => 4
    case _ => 0
  }

  // The value the mode stores for a colour.
  function Stored(m: Mode, rgba: bv32): bv32
    requires Placeable(m)
  {
    if m.bpp == 8 then Palette332(rgba) else Direct(m, rgba)
  }

  // What can be read back of it.
  function Converted(m: Mode, rgba: bv32): bv32
    requires Placeable(m)
  {
    LowBytes(Stored(m, rgba), PixelBytes(m.bpp))
  }

  // A pixel assembled from the bytes at an address.
  function ReadPixel(b: seq<bv8>, at: nat, bpp: byte): bv32
    requires at + PixelBytes(bpp) <= |b|
  {
    Assembled(b[at..at + PixelBytes(bpp)])
  }

  lemma ReadsBack(b: seq<bv8>, at: nat, bpp: byte, v: bv32)
    requires PixelBytes(bpp) > 0 && at + PixelBytes(bpp) <= |b|
    requires forall j :: 0 <= j < PixelBytes(bpp) ==> b[at + j] == ByteOf(v, j)
    ensures ReadPixel(b, at, bpp) == LowBytes(v, PixelBytes(bpp))
  {
    hide ByteOf, LowBytes, Assembled;
    assert b[at..at + PixelBytes(bpp)] == BytesOf(v, PixelBytes(bpp));
    BytesAssemble(v, PixelBytes(bpp));
  }

  // Channels of one to eight bits that lie in the stored bytes, apart from
  // each other.
  predicate DisjointChannels(m: Mode) {
    var bits := Bits(PixelBytes(m.bpp));
    && Inside(m.redPos, m.redSize, bits) && Inside(m.greenPos, m.greenSize, bits) && Inside(m.bluePos, m.blueSize, bits)
    && Apart(m.redPos, m.redSize, m.greenPos, m.greenSize) && Apart(m.redPos, m.redSize, m.bluePos, m.blueSize)
    && Apart(m.greenPos, m.greenSize, m.bluePos, m.blueSize)
  }

  ghost predicate ReadsChannels(m: Mode, pixel: bv32, rgba: bv32)
    requires DisjointChannels(m)
  {
    && Field(pixel, m.redPos, m.redSize) == TopBits(Channel(rgba, RED_SHIFT), m.redSize)
    && Field(pixel, m.greenPos, m.greenSize) == TopBits(Channel(rgba, GREEN_SHIFT), m.greenSize)
    && Field(pixel, m.bluePos, m.blueSize) == TopBits(Channel(rgba, BLUE_SHIFT), m.blueSize)
  }

  // With such channels, each channel of a stored pixel is the top bits of the
  // colour's channel.
  lemma ChannelsReadBack(m: Mode, rgba: bv32)
    requires m.bpp != 8 && Placeable(m) && DisjointChannels(m)
    ensures ReadsChannels(m, Converted(m, rgba), rgba)
  {
    hide Channel, TopBits, Field, LowBytes, Placed, Union, Apart, Bits, Inside, Narrowed, PixelBytes;
    NarrowedReadBack(Channel(rgba, RED_SHIFT), m.redPos, m.redSize, Channel(rgba, GREEN_SHIFT), m.greenPos, m.greenSize,
                     Channel(rgba, BLUE_SHIFT), m.bluePos, m.blueSize, PixelBytes(m.bpp));
  }

  // The palette index keeps the top three, three and two bits.
  lemma PaletteReadsBack(m: Mode, rgba: bv32)
    requires m.bpp == 8 && Placeable(m)
    ensures Field(Converted(m, rgba), 5, 3) == TopBits(Channel(rgba, RED_SHIFT), 3)
    ensures Field(Converted(m, rgba), 2, 3) == TopBits(Channel(rgba, GREEN_SHIFT), 3)
    ensures Field(Converted(m, rgba), 0, 2) == TopBits(Channel(rgba, BLUE_SHIFT), 2)
  {
    var r, g, b := Channel(rgba, RED_SHIFT), Channel(rgba, GREEN_SHIFT), Channel(rgba, BLUE_SHIFT);
    hide Channel, TopBits, Field, Index332;
    IndexReadsBack(r, g, b);
    ByteIsLow(Index332(r, g, b));
  }

  lemma ByteIsLow(v: bv32)
    requires IsByte(v)
    ensures LowBytes(v, 1) == v
  {
  }

  // The bytes of a colour, 0xRRGGBBAA.
  function Colour(red: bv8, green: bv8, blue: bv8, alpha: bv8): bv32 {
    (red as bv32 << 24) | (green as bv32 << 16) | (blue as bv32 << 8) | alpha as bv32
  }

  lemma ColourChannels(red: bv8, green: bv8, blue: bv8, alpha: bv8)
    ensures var rgba := Colour(red, green, blue, alpha);
      && Channel(rgba, RED_SHIFT) == red as bv32
      && Channel(rgba, GREEN_SHIFT) == green as bv32
      && Channel(rgba, BLUE_SHIFT) == blue as bv32
  {
  }

  // Of eight bits the top ones, whatever their number.
  lemma TopBitsAre(value: bv8)
    ensures var v := value as bv32;
      && TopBits(v, 1) == v / 128 && TopBits(v, 2) == v / 64 && TopBits(v, 3) == v / 32 && TopBits(v, 4) == v / 16
      && TopBits(v, 5) == v / 8 && TopBits(v, 6) == v / 4 && TopBits(v, 7) == v / 2 && TopBits(v, 8) == v
  {
  }

  // Each byte of a colour comes back from the field that the mode has for it,
  // less the bits there is no room for.
  lemma ColourReadsBack(m: Mode, red: bv8, green: bv8, blue: bv8, alpha: bv8)
    requires m.bpp != 8 && Placeable(m) && DisjointChannels(m)
    ensures var pixel := Converted(m, Colour(red, green, blue, alpha));
      && Field(pixel, m.redPos, m.redSize) == TopBits(red as bv32, m.redSize)
      && Field(pixel, m.greenPos, m.greenSize) == TopBits(green as bv32, m.greenSize)
      && Field(pixel, m.bluePos, m.blueSize) == TopBits(blue as bv32, m.blueSize)
  {
    ColourChannels(red, green, blue, alpha);
    ChannelsReadBack(m, Colour(red, green, blue, alpha));
    hide Colour, Channel, Converted, Field, TopBits, Apart, Bits, PixelBytes, Inside, BitFields.Placed;
  }

  lemma PaletteOfColour(m: Mode, red: bv8, green: bv8, blue: bv8, alpha: bv8)
    requires m.bpp == 8 && Placeable(m)
    ensures var index := Converted(m, Colour(red, green, blue, alpha));
      && Field(index, 5, 3) == (red as bv32) >> 5
      && Field(index, 2, 3) == (green as bv32) >> 5
      && Field(index, 0, 2) == (blue as bv32) >> 6
  {
    ColourChannels(red, green, blue, alpha);
    PaletteReadsBack(m, Colour(red, green, blue, alpha));
    hide Colour, Channel, Converted, Field;
  }

  // A pixel takes its depth, in whole bytes.
  lemma WholeBytes(bpp: byte)
    ensures bpp in {8, 15, 16, 24, 32} ==> 8 * PixelBytes(bpp) - 8 < bpp <= 8 * PixelBytes(bpp)
    ensures bpp !in {8, 15, 16, 24, 32} ==> PixelBytes(bpp) == 0
  {
  }

  // A channel the mode lacks, one of size zero, is documented to come out as
  // zero. The code passes it through, so that holds for a channel of zero only.
  lemma MissingChannel(value: bv32, size: bv8)
    requires IsByte(value) && size <= 8
    ensures Fits(Narrowed(value, size), size) <==> size != 0 || value == 0
  {
  }
}
