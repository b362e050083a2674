// Segment descriptors: their packed bytes, the hidden part of a segment register
// they are loaded into, and the run-time patching of the 16-bit ones.
module Descriptors {
  import opened Words
  import Arithmetic

  const STUB_ADDR: nat := 0x3_0000
  const STUB_SEG: u16 := 0x3000
  const DATA_ADDR: nat := 0x3_0400
  const DATA_OFF: nat := 0x400
  const CODE32: u16 := 0x08
  const DATA32: u16 := 0x10
  const CODE16: u16 := 0x18
  const DATA16: u16 := 0x20

  // A segment register: the selector, and the hidden base, limit and size.
  datatype Segment = Segment(sel: u16, base: u32, limit: u32, big: bool)

  // The operand of LGDT and LIDT.
  datatype Table = Table(limit: u16, base: u32)

  // ---- Descriptors --------------------------------------------------------

  type Descriptor = d: seq<byte> | |d| == 8 witness seq(8, _ => 0)

  function BaseOf(d: Descriptor): u32 {
    var b2: int, b3: int, b4: int, b7: int := d[2], d[3], d[4], d[7];
    b2 + b3 * 0x100 + b4 * 0x1_0000 + b7 * 0x100_0000
  }

  function LimitOf(d: Descriptor): u32 {
    var d0: int, d1: int, high: int := d[0], d[1], d[6] % 0x10;
    var raw := d0 + d1 * 0x100 + high * 0x1_0000;
    if d[6] / 0x80 == 1 then raw * 0x1000 + 0xFFF else raw
  }

  predicate IsBig(d: Descriptor) {
    d[6] / 0x40 % 2 == 1
  }

  function Entry(gdt: seq<byte>, sel: nat): Descriptor
    requires sel % 8 == 0 && sel + 8 <= |gdt|
  {
    gdt[sel..sel + 8]
  }

  // The hidden part a protected-mode load fetches.
  function Fetched(gdt: seq<byte>, sel: u16): Segment
    requires sel % 8 == 0 && sel + 8 <= |gdt|
  {
    var d := Entry(gdt, sel);
    Segment(sel, BaseOf(d), LimitOf(d), IsBig(d))
  }

  // The base is scattered over bytes 2, 3, 4 and 7.
  function WithBase(d: Descriptor, base: u32): Descriptor {
    [d[0], d[1], base % 0x100, base / 0x100 % 0x100, base / 0x1_0000 % 0x100, d[5], d[6], base / 0x100_0000]
  }

  lemma WithBaseMeaning(d: Descriptor, base: u32)
    ensures BaseOf(WithBase(d, base)) == base
    ensures LimitOf(WithBase(d, base)) == LimitOf(d) && IsBig(WithBase(d, base)) == IsBig(d)
  {
    ScatteredBase(base);
  }

  lemma ScatteredBase(base: u32)
    ensures base % 0x100 + base / 0x100 % 0x100 * 0x100 + base / 0x1_0000 % 0x100 * 0x1_0000
            + base / 0x100_0000 * 0x100_0000 == base
  {
    var a := base / 0x100;
    var b := a / 0x100;
    var middle := base % 0x100 + a % 0x100 * 0x100;
    Arithmetic.DivModUnique(base, 0x1_0000, b, middle);
    Arithmetic.DivModUnique(base, 0x100_0000, b / 0x100, middle + b % 0x100 * 0x1_0000);
  }

  // A descriptor as the processor lays it out: 20 bits of limit, 32 of base, the
  // access byte, and four flags: granularity, size, long mode, available.
  function Written(limit: nat, base: u32, access: byte, g: bool, db: bool, l: bool, avl: bool): Descriptor
    requires limit < 0x10_0000
  {
    [limit % 0x100, limit / 0x100 % 0x100, base % 0x100, base / 0x100 % 0x100, base / 0x1_0000 % 0x100, access,
     FlagByte(g, db, l, avl) + limit / 0x1_0000, base / 0x100_0000]
  }

  function FlagByte(g: bool, db: bool, l: bool, avl: bool): (b: byte)
    ensures b <= 0xF0
  {
    (if g then 0x80 else 0) + (if db then 0x40 else 0) + (if l then 0x20 else 0) + (if avl then 0x10 else 0)
  }

  lemma DescriptorReadsBack(limit: nat, base: u32, access: byte, g: bool, db: bool, l: bool, avl: bool)
    requires limit < 0x10_0000
    ensures var d := Written(limit, base, access, g, db, l, avl);
      && BaseOf(d) == base && (IsBig(d) <==> db)
      && LimitOf(d) == if g then limit * 4096 + 4095 else limit
  {
    ScatteredBase(base);
    FlagBits(g, db, l, avl, limit / 0x1_0000);
    ScatteredLimit(limit);
    var d := Written(limit, base, access, g, db, l, avl);
    assert d[6] == FlagByte(g, db, l, avl) + limit / 0x1_0000;
    hide FlagByte;
  }

  lemma FlagBits(g: bool, db: bool, l: bool, avl: bool, top: nat)
    requires top < 0x10
    ensures var b := FlagByte(g, db, l, avl) + top;
      b % 0x10 == top && (b / 0x80 == 1 <==> g) && (b / 0x40 % 2 == 1 <==> db)
  {
  }

  lemma ScatteredLimit(limit: nat)
    requires limit < 0x10_0000
    ensures limit % 0x100 + limit / 0x100 % 0x100 * 0x100 + limit / 0x1_0000 * 0x1_0000 == limit
  {
    Arithmetic.DivModUnique(limit, 0x1_0000, limit / 0x100 / 0x100, limit % 0x100 + limit / 0x100 % 0x100 * 0x100);
  }

  // gdt_set_base.
  method SetBase(gdt: array<byte>, sel: nat, base: u32)
    requires sel % 8 == 0 && sel + 8 <= gdt.Length
    modifies gdt
    ensures gdt[..] == old(gdt[..sel]) + WithBase(old(Entry(gdt[..], sel)), base) + old(gdt[sel + 8..])
  {
    ghost var was := gdt[..];
    gdt[sel + 2] := base % 0x100;
    gdt[sel + 3] := base / 0x100 % 0x100;
    gdt[sel + 4] := base / 0x1_0000 % 0x100;
    gdt[sel + 7] := base / 0x100_0000;
    OneReplaced(was, gdt[..], sel, WithBase(Entry(was, sel), base));
  }

  // A table with one descriptor replaced.
  lemma OneReplaced(before: seq<byte>, after: seq<byte>, sel: nat, d: Descriptor)
    requires |after| == |before| && sel + 8 <= |before|
    requires after[sel] == d[0] && after[sel + 1] == d[1] && after[sel + 2] == d[2] && after[sel + 3] == d[3]
    requires after[sel + 4] == d[4] && after[sel + 5] == d[5] && after[sel + 6] == d[6] && after[sel + 7] == d[7]
    requires forall k :: 0 <= k < |before| && !(sel <= k < sel + 8) ==> after[k] == before[k]
    ensures after == before[..sel] + d + before[sel + 8..]
  {
    assert after[..sel] == before[..sel] && after[sel + 8..] == before[sel + 8..];
    assert after[sel..sel + 8] == d;
  }

  // The table boot.asm declares: null, flat code, flat data, and two 64 KB
  // byte-granular 16-bit segments whose base is filled in later.
  const NO_SEGMENT: Descriptor := [0, 0, 0, 0, 0, 0, 0, 0]
  const FLAT_CODE: Descriptor := [0xFF, 0xFF, 0, 0, 0, 0x9A, 0xCF, 0]
  const FLAT_DATA: Descriptor := [0xFF, 0xFF, 0, 0, 0, 0x92, 0xCF, 0]
  const SMALL_CODE: Descriptor := [0xFF, 0xFF, 0, 0, 0, 0x9A, 0, 0]
  const SMALL_DATA: Descriptor := [0xFF, 0xFF, 0, 0, 0, 0x92, 0, 0]
  const BOOT_GDT: seq<byte> := NO_SEGMENT + FLAT_CODE + FLAT_DATA + SMALL_CODE + SMALL_DATA

  // What the trampoline needs of the table: flat 32-bit segments, and 16-bit
  // ones that start where the stub lies.
  ghost predicate Patched(gdt: seq<byte>) {
    && |gdt| >= 40
    && Fetched(gdt, CODE32) == Segment(CODE32, 0, 0xFFFF_FFFF, true)
    && Fetched(gdt, DATA32) == Segment(DATA32, 0, 0xFFFF_FFFF, true)
    && Fetched(gdt, CODE16) == Segment(CODE16, STUB_ADDR, 0xFFFF, false)
    && Fetched(gdt, DATA16) == Segment(DATA16, STUB_ADDR, 0xFFFF, false)
  }

  lemma PatchedBootTable(gdt: seq<byte>)
    requires gdt == NO_SEGMENT + FLAT_CODE + FLAT_DATA + WithBase(SMALL_CODE, STUB_ADDR)
                      + WithBase(SMALL_DATA, STUB_ADDR)
    ensures Patched(gdt)
  {
    assert Entry(gdt, CODE32) == FLAT_CODE && Entry(gdt, DATA32) == FLAT_DATA;
    assert Entry(gdt, CODE16) == WithBase(SMALL_CODE, STUB_ADDR);
    assert Entry(gdt, DATA16) == WithBase(SMALL_DATA, STUB_ADDR);
    WithBaseMeaning(SMALL_CODE, STUB_ADDR);
    WithBaseMeaning(SMALL_DATA, STUB_ADDR);
  }

  // realmode_patch_gdt, given the limit SGDT reports.
  method PatchGdt(gdt: array<byte>, limit: u16) returns (ok: bool)
    requires limit < gdt.Length
    modifies gdt
    ensures ok <==> limit >= 39
    ensures !ok ==> gdt[..] == old(gdt[..])
    ensures ok && old(gdt[..]) == BOOT_GDT ==> Patched(gdt[..])
  {
    hide BaseOf, LimitOf, IsBig, WithBase;
    if limit < 4 * 8 + 7 {
      return false;
    }
    ghost var before := gdt[..];
    SetBase(gdt, 3 * 8, STUB_ADDR);
    ghost var middle := gdt[..];
    SetBase(gdt, 4 * 8, STUB_ADDR);
    if before == BOOT_GDT {
      assert before[..24] == NO_SEGMENT + FLAT_CODE + FLAT_DATA && before[24..32] == SMALL_CODE
          && before[32..] == SMALL_DATA;
      assert middle[32..40] == SMALL_DATA
          && middle[..32] == NO_SEGMENT + FLAT_CODE + FLAT_DATA + WithBase(SMALL_CODE, STUB_ADDR);
      assert gdt[..] == middle[..32] + WithBase(SMALL_DATA, STUB_ADDR);
      PatchedBootTable(gdt[..]);
    }
    return true;
  }
}
