// The floppy behind INT 13h, addressed by cylinder, head and sector, and the
// two pieces of code that turn a logical sector number into those.
module Disk {
  import opened Words
  import Arithmetic

  const SECTOR_SIZE: nat := 512
  const ATTEMPTS: nat := 3

  type Sector = s: seq<byte> | |s| == SECTOR_SIZE witness seq(SECTOR_SIZE, _ => 0)

  datatype Geometry = Geometry(heads: nat, sectorsPerTrack: nat) {
    // What INT 13h can express: 6 bits of sector, 8 bits of head.
    predicate Valid() {
      1 <= heads <= 0x100 && 1 <= sectorsPerTrack <= 0x3F
    }
  }

  datatype Chs = Chs(cylinder: u16, head: u16, sector: u16)

  // INT 13h takes ten bits of cylinder and six of sector in CX, the head in DH.
  datatype ChsRegisters = ChsRegisters(ch: byte, cl: byte, dh: byte)

  // One division: quotient and remainder.
  function Divide(a: nat, b: nat): (d: (nat, nat))
    requires b >= 1
    ensures d.0 <= a && d.1 < b && a == d.0 * b + d.1
  {
    DivideBelow(a, b);
    (a / b, a % b)
  }

  // DISK_LBA2CHS: the sector number is cut to 16 bits first.
  function Lba2Chs(g: Geometry, lba: u32): Chs
    requires g.Valid()
  {
    var (track, rest) := Divide(lba % 0x1_0000, g.sectorsPerTrack);
    var (cylinder, head) := Divide(track, g.heads);
    Chs(cylinder, head, rest + 1)
  }

  // x86_Disk_Read: `shl cl, 6` keeps two bits of the cylinder's high byte.
  function PackRegisters(chs: Chs): ChsRegisters {
    ChsRegisters(chs.cylinder % 0x100, HighBits(chs.cylinder) + chs.sector % 0x40, chs.head % 0x100)
  }

  function HighBits(cylinder: nat): (b: byte)
    ensures b % 0x40 == 0
  {
    cylinder / 0x100 % 4 * 0x40
  }

  // The number of heads as the boot sector stores it: DH, counted from 0, is
  // incremented in eight bits.
  function BootHeads(g: Geometry): byte {
    g.heads % 0x100
  }

  // With 256 heads that is zero, and lba_to_chs divides by it.
  lemma BootHeadsWrap(g: Geometry)
    requires g.Valid()
    ensures BootHeads(g) == 0 <==> g.heads == 0x100
    ensures BootHeads(g) != 0 ==> BootHeads(g) == g.heads
  {
  }

  // lba_to_chs of the boot sector, register by register: `div` leaves the
  // quotient in AX and the remainder in DX; only the low byte of DX survives.
  function BootLbaToChs(g: Geometry, lba: u16): ChsRegisters
    requires g.Valid() && BootHeads(g) != 0
  {
    var (track, rest) := Divide(lba, g.sectorsPerTrack);
    var (ax, dx) := Divide(track, BootHeads(g));
    ChsRegisters(ax % 0x100, rest + 1 + HighBits(ax), dx)
  }

  // What the BIOS makes of the registers: the sector it transfers.
  function BiosSector(g: Geometry, r: ChsRegisters): int {
    var cylinder: int := r.ch + r.cl / 0x40 * 0x100;
    (cylinder * g.heads + r.dh) * g.sectorsPerTrack + (r.cl % 0x40 - 1)
  }

  lemma DivideBelow(a: nat, b: nat)
    requires b >= 1
    ensures 0 <= a / b <= a
    ensures a == a / b * b + a % b
  {
  }

  lemma CylinderBound(cylinder: nat, heads: nat, spt: nat, track: nat, lba: nat)
    requires heads >= 1 && spt >= 1
    requires lba < 1024 * heads * spt
    requires track * spt <= lba && cylinder * heads <= track
    ensures cylinder < 1024
  {
    Arithmetic.MulLe(1024, cylinder, heads);
    Arithmetic.MulLe(1024 * heads, track, spt);
  }

  // What the registers hold, field by field.
  lemma Unpacked(chs: Chs)
    requires chs.cylinder < 1024 && chs.head < 0x100 && 1 <= chs.sector < 0x40
    ensures var r := PackRegisters(chs);
      r.ch + r.cl / 0x40 * 0x100 == chs.cylinder && r.dh == chs.head && r.cl % 0x40 == chs.sector
  {
  }

  lemma Recomposed(g: Geometry, lba: nat, track: nat, rem: nat, cylinder: nat, head: nat)
    requires lba == track * g.sectorsPerTrack + rem && track == cylinder * g.heads + head
    ensures (cylinder * g.heads + head) * g.sectorsPerTrack + rem == lba
  {
  }

  // Both loaders reach the sector they were asked for: dividing the sector
  // number, packing it into CX and DX, and letting the BIOS put it together
  // again is the identity on every sector of a disk of at most 1024 cylinders.
  lemma ChsRoundTrip(g: Geometry, lba: u32)
    requires g.Valid() && lba < 0x1_0000 && lba < 1024 * g.heads * g.sectorsPerTrack
    ensures BiosSector(g, PackRegisters(Lba2Chs(g, lba))) == lba
  {
    hide Divide, PackRegisters, BiosSector;
    var (track, rest) := Divide(lba, g.sectorsPerTrack);
    var (cylinder, head) := Divide(track, g.heads);
    CylinderBound(cylinder, g.heads, g.sectorsPerTrack, track, lba);
    SectorOf(g, Lba2Chs(g, lba));
    Recomposed(g, lba, track, rest, cylinder, head);
  }

  lemma SectorOf(g: Geometry, chs: Chs)
    requires chs.cylinder < 1024 && chs.head < 0x100 && 1 <= chs.sector < 0x40
    ensures BiosSector(g, PackRegisters(chs))
         == (chs.cylinder * g.heads + chs.head) * g.sectorsPerTrack + (chs.sector - 1)
  {
    Unpacked(chs);
    hide PackRegisters;
  }

  lemma BootSectorAgrees(g: Geometry, lba: u16)
    requires g.Valid() && BootHeads(g) != 0
    ensures BootLbaToChs(g, lba) == PackRegisters(Lba2Chs(g, lba))
  {
    hide Divide, HighBits, BootHeads;
    BootHeadsWrap(g);
    Within(lba, 0x1_0000);
    var (track, rest) := Divide(lba, g.sectorsPerTrack);
    var (cylinder, head) := Divide(track, g.heads);
    Within(rest + 1, 0x40);
    Within(head, 0x100);
    assert Lba2Chs(g, lba) == Chs(cylinder, head, rest + 1);
  }

  lemma Within(a: nat, b: nat)
    requires a < b
    ensures a % b == a
  {
  }

  class Drive {
    const sectors: seq<Sector>
    const geometry: Geometry
    // Whether reads of existing sectors always succeed.
    const reliable: bool

    ghost predicate Valid() {
      && geometry.Valid()
      && |sectors| <= 0x1_0000
      && |sectors| <= 1024 * geometry.heads * geometry.sectorsPerTrack
    }

    constructor (sectors: seq<Sector>, geometry: Geometry, reliable: bool)
      ensures this.sectors == sectors && this.geometry == geometry && this.reliable == reliable
    {
      this.sectors, this.geometry, this.reliable := sectors, geometry, reliable;
    }

    // One INT 13h transfer of consecutive sectors. It may fail, and then the
    // buffer holds anything; a reliable drive fails only without need.
    method BiosRead(regs: ChsRegisters, count: byte, dst: array<byte>, works: bool) returns (ok: bool)
      requires dst.Length == SECTOR_SIZE * count
      modifies dst
      ensures ok <==> Transferable(regs, count) && (works || (reliable && count > 0))
      ensures ok ==> dst[..] == Run(sectors, BiosSector(geometry, regs), count)
    {
      hide Run, BiosSector;
      ok := Transferable(regs, count) && (works || (reliable && count > 0));
      var run := if ok then Run(sectors, BiosSector(geometry, regs), count) else [];
      for i := 0 to dst.Length
        invariant ok ==> dst[..i] == run[..i]
      {
        var garbage: byte :| true;
        dst[i] := if ok then run[i] else garbage;
      }
    }

    predicate Transferable(regs: ChsRegisters, count: byte) {
      0 <= BiosSector(geometry, regs) && BiosSector(geometry, regs) + count <= |sectors|
    }

    // Three attempts, with a reset between: one that works is enough.
    method Attempt(regs: ChsRegisters, count: byte, dst: array<byte>, works: seq<bool>) returns (ok: bool)
      requires dst.Length == SECTOR_SIZE * count && |works| == 3
      modifies dst
      ensures ok <==> && Transferable(regs, count)
                      && ((exists i :: 0 <= i < 3 && works[i]) || (reliable && count > 0))
      ensures ok ==> dst[..] == Run(sectors, BiosSector(geometry, regs), count)
    {
      hide Run, BiosSector, Transferable;
      var i := 0;
      while i < ATTEMPTS
        invariant 0 <= i <= ATTEMPTS
        invariant i > 0 ==> !(Transferable(regs, count) && reliable && count > 0)
        invariant forall j :: 0 <= j < i ==> !(Transferable(regs, count) && works[j])
      {
        ok := BiosRead(regs, count, dst, works[i]);
        if ok {
          return true;
        }
        i := i + 1;
      }
      return false;
    }

    // Which of three attempts work.
    method Luck() returns (works: seq<bool>)
      ensures |works| == 3
    {
      var a: bool, b: bool, c: bool := *, *, *;
      works := [a, b, c];
    }

    // DISK_ReadSectors.
    method ReadSectors(lba: u32, count: byte, dst: array<byte>) returns (ok: bool)
      requires Valid() && dst.Length == SECTOR_SIZE * count
      modifies dst
      ensures lba < |sectors| && ok ==> lba + count <= |sectors| && dst[..] == Run(sectors, lba, count)
      ensures lba + count <= |sectors| && count > 0 && reliable ==> ok
    {
      if lba < |sectors| {
        ChsRoundTrip(geometry, lba);
      }
      hide Run, BiosSector, Lba2Chs, PackRegisters;
      var works := Luck();
      ok := Attempt(PackRegisters(Lba2Chs(geometry, lba)), count, dst, works);
    }

    method ReadSector(lba: u32, dst: array<byte>) returns (ok: bool)
      requires Valid() && dst.Length == SECTOR_SIZE
      modifies dst
      ensures lba < |sectors| && ok ==> dst[..] == sectors[lba]
      ensures lba < |sectors| && reliable ==> ok
    {
      ok := ReadSectors(lba, 1, dst);
      if lba < |sectors| {
        OneSector(sectors, lba);
      }
    }

    // disk_read of the boot sector, for one sector.
    method BootRead(lba: u16, dst: array<byte>) returns (ok: bool)
      requires Valid() && dst.Length == SECTOR_SIZE && lba < |sectors| && BootHeads(geometry) != 0
      modifies dst
      ensures ok ==> dst[..] == sectors[lba]
      ensures reliable ==> ok
    {
      ChsRoundTrip(geometry, lba);
      BootSectorAgrees(geometry, lba);
      OneSector(sectors, lba);
      hide Run, BiosSector, BootLbaToChs, Lba2Chs, PackRegisters;
      var works := Luck();
      ok := Attempt(BootLbaToChs(geometry, lba), 1, dst, works);
    }
  }

  // The bytes of consecutive sectors.
  function Run(sectors: seq<Sector>, lba: nat, count: nat): (b: seq<byte>)
    requires lba + count <= |sectors|
    ensures |b| == SECTOR_SIZE * count
  {
    seq(SECTOR_SIZE * count, p requires 0 <= p < SECTOR_SIZE * count => sectors[lba + p / SECTOR_SIZE][p % SECTOR_SIZE])
  }

  // A shorter run is the start of a longer one.
  lemma RunPrefix(sectors: seq<Sector>, lba: nat, m: nat, n: nat)
    requires m <= n && lba + n <= |sectors|
    ensures SECTOR_SIZE * m <= |Run(sectors, lba, n)|
    ensures Run(sectors, lba, n)[..SECTOR_SIZE * m] == Run(sectors, lba, m)
  {
  }

  lemma OneSector(sectors: seq<Sector>, lba: nat)
    requires lba < |sectors|
    ensures Run(sectors, lba, 1) == sectors[lba]
  {
  }
}
