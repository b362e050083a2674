// Mounting: FAT_Initialize, the geometry it derives from the boot sector in
// 16-bit arithmetic, and the host tool's derivation in wider integers.
module FatMount {
  import opened Words
  import opened Arithmetic
  import opened Disk
  import opened FatTable
  import opened FatVolume
  import opened FatDriver
  import opened FatFiles

  const FAT_MEMORY: nat := 0x1_0000

  // The boot sector fields, at the offsets of the packed structure.
  function ParseBoot(sector: Sector): BootSector {
    BootSector(WordAt(sector, 11), sector[13], WordAt(sector, 14), sector[16], WordAt(sector, 17), WordAt(sector, 22))
  }

  // Start of the data area as stage 2 computes it: the root directory's start
  // wraps at 16 bits, its length is rounded up by adding 511 first.
  function DataLba(b: BootSector): u32 {
    var bytes: int := b.dirEntryCount * ENTRY_SIZE;
    FatSystem.RootLba(b) + (bytes + SECTOR_SIZE - 1) / SECTOR_SIZE
  }

  // The same in the host tool: quotient, plus one if there is a remainder.
  function HostRootLba(b: BootSector): nat {
    MulLe(0, b.sectorsPerFat, b.fatCount);
    b.reservedSectors + b.sectorsPerFat * b.fatCount
  }

  function HostRootSectors(b: BootSector): nat
    requires b.bytesPerSector == SECTOR_SIZE
  {
    var size: int := b.dirEntryCount * ENTRY_SIZE;
    size / SECTOR_SIZE + (if size % SECTOR_SIZE > 0 then 1 else 0)
  }

  function HostDataLba(b: BootSector): nat
    requires b.bytesPerSector == SECTOR_SIZE
  {
    HostRootLba(b) + HostRootSectors(b)
  }

  // The two roundings always coincide; the two sums do exactly when the
  // reserved and table sectors fit 16 bits.
  lemma DataAreasCoincide(b: BootSector)
    requires b.bytesPerSector == SECTOR_SIZE
    ensures DataLba(b) == HostDataLba(b) <==> HostRootLba(b) < 0x1_0000
    ensures FatSystem.RootLba(b) == HostRootLba(b) <==> HostRootLba(b) < 0x1_0000
  {
    assert FatSystem.RootLba(b) == HostRootLba(b) % 0x1_0000;
    assert HostDataLba(b) == HostRootLba(b) + HostRootSectors(b);
    FitsWord(HostRootLba(b));
    RootLength(b);
    hide *;
  }

  lemma RoundedUp(size: nat)
    ensures (size + 511) / 512 == size / 512 + if size % 512 > 0 then 1 else 0
  {
    var q, r := size / 512, size % 512;
    if r > 0 {
      Arithmetic.DivModUnique(size + 511, 512, q + 1, r - 1);
    } else {
      Arithmetic.DivModUnique(size + 511, 512, q, 511);
    }
  }

  lemma FitsWord(x: nat)
    ensures x % 0x1_0000 == x <==> x < 0x1_0000
  {
  }

  lemma RootLength(b: BootSector)
    requires b.bytesPerSector == SECTOR_SIZE
    ensures DataLba(b) == FatSystem.RootLba(b) + HostRootSectors(b)
  {
    hide FatSystem.RootLba;
    RoundedUp(b.dirEntryCount * ENTRY_SIZE);
  }

  // FAT_ReadFat: one transfer, with the count passed as one byte.
  method ReadRun(disk: Drive, lba: u16, count: byte) returns (ok: bool, data: seq<byte>)
    requires disk.Valid()
    ensures ok && lba < |disk.sectors| ==> lba + count <= |disk.sectors| && data == Run(disk.sectors, lba, count)
    ensures disk.reliable && count > 0 && lba + count <= |disk.sectors| ==> ok
  {
    var buffer := new byte[SECTOR_SIZE * count];
    ok := disk.ReadSectors(lba, count, buffer);
    data := buffer[..];
  }

  // What the boot sector must say for the volume to be mounted; structSize is
  // the size of the driver's own data, which shares the memory of the table.
  predicate Accepts(b: BootSector, structSize: nat) {
    var fatSize: int := b.bytesPerSector * b.sectorsPerFat;
    && b.bytesPerSector == SECTOR_SIZE && b.sectorsPerCluster != 0
    && structSize + fatSize % 0x1_0000 < FAT_MEMORY
  }

  // So many sectors of the table, if the disk holds them.
  ghost function TableOf(sectors: seq<Sector>, b: BootSector, count: nat): (fat: seq<byte>)
    ensures b.reservedSectors + count <= |sectors| ==> fat == Run(sectors, b.reservedSectors, count)
    ensures count == 0 ==> fat == []
  {
    if b.reservedSectors + count <= |sectors| then Run(sectors, b.reservedSectors, count) else []
  }

  // The volume as stage 2 sees it: the table's sector count is cut to a byte.
  ghost function MountedVolume(sectors: seq<Sector>): Volume
    requires |sectors| > 0
  {
    var b := ParseBoot(sectors[0]);
    var tables := b.sectorsPerFat % 0x100;
    Volume(sectors,
           TableOf(sectors, b, tables),
           b.sectorsPerCluster, FatSystem.RootLba(b), FatSystem.RootBytes(b), DataLba(b))
  }

  // The disk holds its tables, of one sector at least, and its root directory.
  ghost predicate LongEnough(sectors: seq<Sector>) {
    && |sectors| > 0
    && var b := ParseBoot(sectors[0]);
       var v := MountedVolume(sectors);
       && 0 < b.sectorsPerFat % 0x100 && b.reservedSectors + b.sectorsPerFat % 0x100 <= |sectors|
       && v.rootLba + |v.RootLbas()| <= |sectors|
  }

  // What is mounted is a volume the driver's invariants speak of.
  lemma MountedIsValid(sectors: seq<Sector>, structSize: nat)
    requires LongEnough(sectors) && |sectors| <= 0x1_0000 && Accepts(ParseBoot(sectors[0]), structSize)
    ensures MountedVolume(sectors).Valid() && FatSystem.RootLba(ParseBoot(sectors[0])) < |sectors|
  {
  }

  // The check of the table's size is made on a 16-bit product, the read on a
  // count of 8 bits: what is read fits the memory exactly when bit 7 of the
  // count is clear.
  lemma TableFits(b: BootSector, structSize: nat)
    requires Accepts(b, structSize)
    ensures structSize + SECTOR_SIZE * (b.sectorsPerFat % 0x100) < FAT_MEMORY <==> b.sectorsPerFat % 0x100 < 0x80
  {
    var count: int := b.sectorsPerFat;
    var low := count % 0x100;
    assert count % 0x80 == if low < 0x80 then low else low - 0x80;
    DivModUnique(SECTOR_SIZE * count, 0x1_0000, count / 0x80, SECTOR_SIZE * (count % 0x80));
  }

  // The root directory's handle.
  method OpenRoot(fs: FatSystem, b: BootSector) returns (ok: bool)
    requires fs.Valid()
    modifies fs.root, fs.root.buffer
    ensures ok && FatSystem.RootLba(b) < |fs.disk.sectors| ==>
              && fs.root.handle == ROOT_HANDLE && fs.root.isDirectory && fs.root.size == FatSystem.RootBytes(b)
              && fs.root.position == 0 && fs.root.currentCluster == fs.root.firstCluster == FatSystem.RootLba(b)
              && fs.root.buffer[..] == fs.disk.sectors[FatSystem.RootLba(b)]
    ensures fs.disk.reliable && FatSystem.RootLba(b) < |fs.disk.sectors| ==> ok
  {
    var root, lba := fs.root, FatSystem.RootLba(b);
    root.handle, root.isDirectory, root.position, root.size := ROOT_HANDLE, true, 0, FatSystem.RootBytes(b);
    root.isOpen, root.firstCluster, root.currentCluster, root.currentSector := true, lba, lba, 0;
    ok := fs.disk.ReadSector(lba, root.buffer);
  }

  method CloseAll(fs: FatSystem)
    requires fs.Valid()
    modifies fs.files
    ensures forall i :: 0 <= i < |fs.files| ==> !fs.files[i].isOpen
  {
    var i := 0;
    while i < MAX_HANDLES
      invariant 0 <= i <= MAX_HANDLES
      invariant forall j :: 0 <= j < i ==> !fs.files[j].isOpen
    {
      fs.files[i].isOpen := false;
      i := i + 1;
    }
  }

  // FAT_Initialize, on any disk: what it accepts, and, when the disk holds what
  // its boot sector announces, what it leaves.
  method Initialize(fs: FatSystem, structSize: nat) returns (ok: bool)
    requires fs.Valid() && |fs.disk.sectors| > 0
    modifies fs, fs.root, fs.root.buffer, fs.files
    ensures ok ==> Accepts(ParseBoot(fs.disk.sectors[0]), structSize)
    ensures ok ==> forall i :: 0 <= i < |fs.files| ==> !fs.files[i].isOpen
    ensures ok && LongEnough(fs.disk.sectors) ==> fs.Vol() == MountedVolume(fs.disk.sectors) && RootFresh(fs)
    ensures fs.disk.reliable && Accepts(ParseBoot(fs.disk.sectors[0]), structSize) && LongEnough(fs.disk.sectors) ==> ok
  {
    hide RootFresh, Volume.Valid, Run, Volume.RootLbas;
    var bootBytes := new byte[SECTOR_SIZE];
    ok := fs.disk.ReadSector(0, bootBytes);
    if !ok {
      return;
    }
    var b := ParseBoot(bootBytes[..]);
    var product: int := b.bytesPerSector * b.sectorsPerFat;
    if b.bytesPerSector != SECTOR_SIZE || b.sectorsPerCluster == 0 || structSize + product % 0x1_0000 >= FAT_MEMORY {
      return false;
    }
    if LongEnough(fs.disk.sectors) {
      MountedIsValid(fs.disk.sectors, structSize);
    }
    var table;
    ok, table := ReadRun(fs.disk, b.reservedSectors, b.sectorsPerFat % 0x100);
    if !ok {
      return;
    }
    ok := OpenRoot(fs, b);
    if !ok {
      return;
    }
    CloseAll(fs);
    fs.boot, fs.fat, fs.dataLba := b, table, DataLba(b);
    if LongEnough(fs.disk.sectors) {
      assert fs.Vol() == MountedVolume(fs.disk.sectors);
      MountedRootIsFresh(fs);
    }
  }

  lemma MountedRootIsFresh(fs: FatSystem)
    requires fs.Valid() && fs.Vol().Valid()
    requires fs.root.handle == ROOT_HANDLE && fs.root.isDirectory && fs.root.size == fs.Vol().rootBytes
    requires fs.root.position == 0 && fs.root.currentCluster == fs.root.firstCluster == fs.Vol().rootLba
    requires fs.root.buffer[..] == fs.disk.sectors[fs.Vol().rootLba]
    ensures RootFresh(fs)
  {
    RewoundRoot(fs);
  }
}
