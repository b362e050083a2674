// Fields of a 32-bit word: placing a value at a position, and reading it back.
module BitFields {
  function Channel(word: bv32, shift: bv8): (c: bv32)
    requires shift <= 24
    ensures IsByte(c)
  {
    (word >> shift) & 0xFF
  }

  // The top bits of an eight-bit value.
  function TopBits(value: bv32, size: bv8): bv32
    requires 1 <= size <= 8
  {
    value >> (8 - size)
  }

  function Placed(v: bv32, pos: bv8): bv32
    requires pos < 32
  {
    v << pos
  }

  function Union(a: bv32, b: bv32, c: bv32): bv32 {
    Joined(Joined(a, b), c)
  }

  function Mask(size: bv8): bv32
    requires size <= 8
  {
    (1 << size) - 1
  }

  predicate Fits(v: bv32, size: bv8)
    requires size <= 8
  {
    v <= Mask(size)
  }

  predicate IsByte(v: bv32) {
    v < 0x100
  }

  function Field(word: bv32, pos: bv8, size: bv8): bv32
    requires pos < 32 && size <= 8
  {
    Meet(Shifted(word, pos), Mask(size))
  }

  function Shifted(word: bv32, pos: bv8): bv32
    requires pos < 32
  {
    word >> pos
  }

  function Meet(a: bv32, mask: bv32): bv32 {
    a & mask
  }

  // The low bytes of a word, and how many bits they are.
  function LowBytes(word: bv32, n: nat): bv32 {
    match n
    case 1 => word & 0xFF
    case 2 => word & 0xFFFF
    case 3 => word & 0xFF_FFFF
    case _ => word
  }

  function Bits(n: nat): bv8 {
    match n
    case 1 => 8
    case 2 => 16
    case 3 => 24
    case _ => 32
  }

  // The bytes of a word, lowest first, and a byte put at its place in a word.
  function ByteOf(word: bv32, j: nat): bv8
    requires j < 4
  {
    match j
    case 0 => (word & 0xFF) as bv8
    case 1 => ((word >> 8) & 0xFF) as bv8
    case 2 => ((word >> 16) & 0xFF) as bv8
    case 3 => ((word >> 24) & 0xFF) as bv8
  }

  function ByteAt(b: bv8, j: nat): bv32
    requires j < 4
  {
    match j
    case 0 => b as bv32
    case 1 => b as bv32 << 8
    case 2 => b as bv32 << 16
    case 3 => b as bv32 << 24
  }

  function Joined(a: bv32, b: bv32): bv32 {
    a | b
  }

  lemma ByteInPlace(word: bv32)
    ensures ByteAt(ByteOf(word, 0), 0) == word & 0xFF
    ensures ByteAt(ByteOf(word, 1), 1) == word & 0xFF00
    ensures ByteAt(ByteOf(word, 2), 2) == word & 0xFF_0000
    ensures ByteAt(ByteOf(word, 3), 3) == word & 0xFF00_0000
  {
  }

  lemma BytesJoin(word: bv32)
    ensures Joined(word & 0xFF, word & 0xFF00) == word & 0xFFFF
    ensures Joined(word & 0xFFFF, word & 0xFF_0000) == word & 0xFF_FFFF
    ensures Joined(word & 0xFF_FFFF, word & 0xFF00_0000) == word
  {
  }

  function BytesOf(word: bv32, n: nat): (b: seq<bv8>)
    requires n <= 4
    ensures |b| == n
  {
    seq(n, j requires 0 <= j < n => ByteOf(word, j))
  }

  // The word that a few bytes, lowest first, make.
  function Assembled(b: seq<bv8>): bv32
    requires |b| <= 4
  {
    if |b| == 0 then 0
    else if |b| == 1 then ByteAt(b[0], 0)
    else Joined(Assembled(b[..|b| - 1]), ByteAt(b[|b| - 1], |b| - 1))
  }

  lemma {:induction false} BytesAssemble(word: bv32, n: nat)
    requires 1 <= n <= 4
    ensures Assembled(BytesOf(word, n)) == LowBytes(word, n)
  {
    hide ByteOf, ByteAt, Joined;
    ByteInPlace(word);
    BytesJoin(word);
    if n > 1 {
      assert BytesOf(word, n)[..n - 1] == BytesOf(word, n - 1);
      BytesAssemble(word, n - 1);
    }
  }

  predicate Inside(pos: bv8, size: bv8, bits: bv8) {
    1 <= size <= 8 && pos < 32 && bits <= 32 && pos + size <= bits
  }

  predicate Apart(pos: bv8, size: bv8, pos': bv8, size': bv8) {
    pos + size <= pos' || pos' + size' <= pos
  }

  lemma TopBitsFit(value: bv32, size: bv8)
    requires 1 <= size <= 8 && value < 0x100
    ensures TopBits(value, size) <= Mask(size)
  {
  }

  lemma ShiftBack(v: bv32, pos: bv8, size: bv8)
    requires 1 <= size <= 8 && pos <= 32 - size && v <= Mask(size)
    ensures (v << pos) >> pos == v
  {
  }

  lemma InMask(v: bv32, size: bv8)
    requires 1 <= size <= 8 && v <= Mask(size)
    ensures v & Mask(size) == v
  {
  }

  lemma OwnField(v: bv32, pos: bv8, size: bv8)
    requires Inside(pos, size, 32) && Fits(v, size)
    ensures Field(Placed(v, pos), pos, size) == v
  {
    ShiftBack(v, pos, size);
    InMask(v, size);
  }

  lemma OtherField(v: bv32, pos: bv8, size: bv8, pos': bv8, size': bv8)
    requires Inside(pos, size, 32) && Fits(v, size)
    requires Inside(pos', size', 32) && Apart(pos, size, pos', size')
    ensures Field(Placed(v, pos), pos', size') == 0
  {
    if pos + size <= pos' {
      ShiftedOut(v, pos, size, pos');
    } else {
      ShiftedPast(v, pos, pos', size');
    }
  }

  lemma ShiftedOut(v: bv32, pos: bv8, size: bv8, pos': bv8)
    requires 1 <= size <= 8 && pos <= 32 - size && v <= Mask(size) && pos + size <= pos' < 32
    ensures (v << pos) >> pos' == 0
  {
  }

  lemma ShiftedPast(v: bv32, pos: bv8, pos': bv8, size': bv8)
    requires 1 <= size' <= 8 && pos < 32 && pos' <= pos && size' <= pos - pos'
    ensures ((v << pos) >> pos') & Mask(size') == 0
  {
  }

  lemma ShiftByOne(a: bv32, b: bv32)
    ensures Shifted(Joined(a, b), 1) == Joined(Shifted(a, 1), Shifted(b, 1))
  {
  }

  lemma ShiftByZero(a: bv32)
    ensures Shifted(a, 0) == a
  {
  }

  lemma ShiftOnce(a: bv32, pos: bv8)
    requires 0 < pos < 32
    ensures Shifted(a, pos) == Shifted(Shifted(a, pos - 1), 1)
  {
  }

  lemma {:induction false} ShiftOfTwo(a: bv32, b: bv32, pos: bv8)
    requires pos < 32
    ensures Shifted(Joined(a, b), pos) == Joined(Shifted(a, pos), Shifted(b, pos))
  {
    hide Shifted, Joined;
    if pos == 0 {
      ShiftByZero(a);
      ShiftByZero(b);
      ShiftByZero(Joined(a, b));
    } else {
      ShiftOnce(a, pos);
      ShiftOnce(b, pos);
      ShiftOnce(Joined(a, b), pos);
      ShiftByOne(Shifted(a, pos - 1), Shifted(b, pos - 1));
      ShiftOfTwo(a, b, pos - 1);
    }
  }

  lemma ShiftOfUnion(a: bv32, b: bv32, c: bv32, pos: bv8)
    requires pos < 32
    ensures Shifted(Union(a, b, c), pos) == Union(Shifted(a, pos), Shifted(b, pos), Shifted(c, pos))
  {
    hide Shifted, Joined;
    ShiftOfTwo(Joined(a, b), c, pos);
    ShiftOfTwo(a, b, pos);
  }

  lemma MeetOfTwo(a: bv32, b: bv32, mask: bv32)
    ensures Meet(Joined(a, b), mask) == Joined(Meet(a, mask), Meet(b, mask))
  {
  }

  lemma MeetOfUnion(a: bv32, b: bv32, c: bv32, mask: bv32)
    ensures Meet(Union(a, b, c), mask) == Union(Meet(a, mask), Meet(b, mask), Meet(c, mask))
  {
    hide Meet, Joined;
    MeetOfTwo(Joined(a, b), c, mask);
    MeetOfTwo(a, b, mask);
  }

  lemma FieldOfUnion(a: bv32, b: bv32, c: bv32, pos: bv8, size: bv8)
    requires pos < 32 && size <= 8
    ensures Field(Union(a, b, c), pos, size) == Union(Field(a, pos, size), Field(b, pos, size), Field(c, pos, size))
  {
    ShiftOfUnion(a, b, c, pos);
    MeetOfUnion(Shifted(a, pos), Shifted(b, pos), Shifted(c, pos), Mask(size));
    hide Mask, Shifted, Meet, Union;
  }

  lemma LowByte(word: bv32, pos: bv8, size: bv8)
    requires 1 <= size <= 8 && pos <= 8 - size
    ensures Field(word & 0xFF, pos, size) == Field(word, pos, size)
  {
  }

  lemma LowWord(word: bv32, pos: bv8, size: bv8)
    requires 1 <= size <= 8 && pos <= 16 - size
    ensures Field(word & 0xFFFF, pos, size) == Field(word, pos, size)
  {
  }

  lemma LowThreeBytes(word: bv32, pos: bv8, size: bv8)
    requires 1 <= size <= 8 && pos <= 24 - size
    ensures Field(word & 0xFF_FFFF, pos, size) == Field(word, pos, size)
  {
  }

  lemma FieldKept(word: bv32, n: nat, pos: bv8, size: bv8)
    requires Inside(pos, size, Bits(n))
    ensures Field(LowBytes(word, n), pos, size) == Field(word, pos, size)
  {
    hide Field;
    match n
    case 1 => LowByte(word, pos, size);
    case 2 => LowWord(word, pos, size);
    case 3 => LowThreeBytes(word, pos, size);
    case _ =>
  }

  lemma UnionOfOne(v: bv32)
    ensures Union(v, 0, 0) == v && Union(0, v, 0) == v && Union(0, 0, v) == v
  {
  }

  // Three fields that do not overlap are read back unchanged.
  lemma FieldsReadBack(r: bv32, rp: bv8, rs: bv8, g: bv32, gp: bv8, gs: bv8, b: bv32, bp: bv8, bs: bv8, n: nat)
    requires Inside(rp, rs, Bits(n)) && Inside(gp, gs, Bits(n)) && Inside(bp, bs, Bits(n))
    requires Apart(rp, rs, gp, gs) && Apart(rp, rs, bp, bs) && Apart(gp, gs, bp, bs)
    requires Fits(r, rs) && Fits(g, gs) && Fits(b, bs)
    ensures var word := LowBytes(Union(Placed(r, rp), Placed(g, gp), Placed(b, bp)), n);
      Field(word, rp, rs) == r && Field(word, gp, gs) == g && Field(word, bp, bs) == b
  {
    Widened(rp, rs, Bits(n));
    Widened(gp, gs, Bits(n));
    Widened(bp, bs, Bits(n));
    Symmetric(rp, rs, gp, gs);
    Symmetric(rp, rs, bp, bs);
    Symmetric(gp, gs, bp, bs);
    hide Placed, Union, Field, LowBytes, Mask, Inside, Apart, Fits, Bits;
    OwnField(r, rp, rs);
    OwnField(g, gp, gs);
    OwnField(b, bp, bs);
    OtherField(r, rp, rs, gp, gs);
    OtherField(r, rp, rs, bp, bs);
    OtherField(g, gp, gs, rp, rs);
    OtherField(g, gp, gs, bp, bs);
    OtherField(b, bp, bs, rp, rs);
    OtherField(b, bp, bs, gp, gs);
    FieldOfUnion(Placed(r, rp), Placed(g, gp), Placed(b, bp), rp, rs);
    FieldOfUnion(Placed(r, rp), Placed(g, gp), Placed(b, bp), gp, gs);
    FieldOfUnion(Placed(r, rp), Placed(g, gp), Placed(b, bp), bp, bs);
    FieldKept(Union(Placed(r, rp), Placed(g, gp), Placed(b, bp)), n, rp, rs);
    FieldKept(Union(Placed(r, rp), Placed(g, gp), Placed(b, bp)), n, gp, gs);
    FieldKept(Union(Placed(r, rp), Placed(g, gp), Placed(b, bp)), n, bp, bs);
    UnionOfOne(r);
    UnionOfOne(g);
    UnionOfOne(b);
  }

  lemma Widened(pos: bv8, size: bv8, bits: bv8)
    requires Inside(pos, size, bits)
    ensures pos < 32 && 1 <= size <= 8 && bits <= 32 && Inside(pos, size, 32)
  {
  }

  lemma Symmetric(pos: bv8, size: bv8, pos': bv8, size': bv8)
    requires Apart(pos, size, pos', size')
    ensures Apart(pos', size', pos, size)
  {
  }

  // An index with three bits of red, three of green and two of blue.
  function Index332(r: bv32, g: bv32, b: bv32): bv32 {
    ((r >> 5) << 5) | ((g >> 5) << 2) | (b >> 6)
  }

  lemma IndexReadsBack(r: bv32, g: bv32, b: bv32)
    requires IsByte(r) && IsByte(g) && IsByte(b)
    ensures var index := Index332(r, g, b);
      && IsByte(index)
      && Field(index, 5, 3) == TopBits(r, 3)
      && Field(index, 2, 3) == TopBits(g, 3)
      && Field(index, 0, 2) == TopBits(b, 2)
  {
  }

  function Narrowed(value: bv32, size: bv8): bv32 {
    if size == 0 || size >= 8 then value else TopBits(value, size)
  }

  // Eight bits wide, a value is its own top bits.
  lemma NarrowsToTopBits(value: bv32, size: bv8)
    requires 1 <= size <= 8 && IsByte(value)
    ensures Narrowed(value, size) == TopBits(value, size) && Fits(TopBits(value, size), size)
  {
    TopBitsFit(value, size);
  }

  lemma NarrowedReadBack(r: bv32, rp: bv8, rs: bv8, g: bv32, gp: bv8, gs: bv8, b: bv32, bp: bv8, bs: bv8, n: nat)
    requires Inside(rp, rs, Bits(n)) && Inside(gp, gs, Bits(n)) && Inside(bp, bs, Bits(n))
    requires Apart(rp, rs, gp, gs) && Apart(rp, rs, bp, bs) && Apart(gp, gs, bp, bs)
    requires IsByte(r) && IsByte(g) && IsByte(b)
    ensures var rgb := Union(Placed(Narrowed(r, rs), rp), Placed(Narrowed(g, gs), gp), Placed(Narrowed(b, bs), bp));
      var word := LowBytes(rgb, n);
      && Field(word, rp, rs) == TopBits(r, rs)
      && Field(word, gp, gs) == TopBits(g, gs)
      && Field(word, bp, bs) == TopBits(b, bs)
  {
    Widened(rp, rs, Bits(n));
    Widened(gp, gs, Bits(n));
    Widened(bp, bs, Bits(n));
    hide *;
    NarrowsToTopBits(r, rs);
    NarrowsToTopBits(g, gs);
    NarrowsToTopBits(b, bs);
    FieldsReadBack(TopBits(r, rs), rp, rs, TopBits(g, gs), gp, gs, TopBits(b, bs), bp, bs, n);
  }
}
