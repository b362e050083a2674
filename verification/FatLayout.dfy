// What a FAT12 disk holds, byte by byte: its structures are written down here
// in the order of their fields, with nothing of the code that reads them, and
// read back by it.
module FatLayout {
  import opened Words
  import opened Arithmetic
  import opened Disk
  import opened FatTable
  import opened FatVolume
  import opened FatChains
  import opened FatDriver
  import opened FatFiles
  import opened FatMount
  import opened BootLoader
  import opened HostTool

  // Little-endian words.
  function Word(v: u16): (b: seq<byte>)
    ensures |b| == 2
  {
    [v % 0x100, v / 0x100]
  }

  function Dword(v: u32): (b: seq<byte>)
    ensures |b| == 4
  {
    Word(v % 0x1_0000) + Word(v / 0x1_0000)
  }

  // ---- Directory entries -----------------------------------------------------------

  datatype Attributes = Attributes(
    readOnly: bool, hidden: bool, system: bool, volumeId: bool, directory: bool, archive: bool, others: nat)

  function Bit(b: bool, value: nat): nat {
    if b then value else 0
  }

  function AttributeByte(a: Attributes): byte
    requires a.others < 4
  {
    Bit(a.readOnly, 0x01) + Bit(a.hidden, 0x02) + Bit(a.system, 0x04) + Bit(a.volumeId, 0x08)
    + Bit(a.directory, 0x10) + Bit(a.archive, 0x20) + a.others * 0x40
  }

  datatype EntryFields = EntryFields(
    name: seq<byte>, attributes: Attributes, reserved: byte, createdTenths: byte,
    createdTime: u16, createdDate: u16, accessedDate: u16, clusterHigh: u16,
    modifiedTime: u16, modifiedDate: u16, clusterLow: u16, size: u32)
  {
    predicate Valid() {
      |name| == 11 && attributes.others < 4
    }

    function Cluster(): nat {
      clusterLow + 0x1_0000 * clusterHigh
    }
  }

  function EntryBytes(e: EntryFields): (raw: RawEntry)
    requires e.Valid()
  {
    e.name + [AttributeByte(e.attributes), e.reserved, e.createdTenths]
    + Word(e.createdTime) + Word(e.createdDate) + Word(e.accessedDate) + Word(e.clusterHigh)
    + Word(e.modifiedTime) + Word(e.modifiedDate) + Word(e.clusterLow) + Dword(e.size)
  }

  // Every field is read from where it was written, and of the attributes
  // exactly the directory flag counts.
  lemma EntryReadsBack(e: EntryFields)
    requires e.Valid()
    ensures var raw := EntryBytes(e);
      && NameOf(raw) == e.name && SizeOf(raw) == e.size
      && FirstClusterOf(raw) == e.Cluster() && WordOf(raw, 26) == e.clusterLow
      && (IsDirectoryEntry(raw) <==> e.attributes.directory)
  {
    EntryPlaces(e);
    DirectoryBit(e.attributes);
    hide AttributeByte, EntryBytes;
  }

  lemma EntryPlaces(e: EntryFields)
    requires e.Valid()
    ensures var raw := EntryBytes(e);
      && raw[..11] == e.name && raw[11] == AttributeByte(e.attributes)
      && raw[20..22] == Word(e.clusterHigh) && raw[26..28] == Word(e.clusterLow)
      && raw[28..30] == Word(e.size % 0x1_0000) && raw[30..32] == Word(e.size / 0x1_0000)
      && (forall i :: i in {20, 26, 28, 30} ==> [raw[i], raw[i + 1]] == raw[i..i + 2])
  {
    hide Word, AttributeByte;
  }

  lemma DirectoryBit(a: Attributes)
    requires a.others < 4
    ensures AttributeByte(a) / 0x10 % 2 == 1 <==> a.directory
  {
    var low := Bit(a.readOnly, 1) + Bit(a.hidden, 2) + Bit(a.system, 4) + Bit(a.volumeId, 8);
    var high := Bit(a.archive, 1) + a.others * 2;
    DivModUnique(AttributeByte(a), 0x10, Bit(a.directory, 1) + 2 * high, low);
  }

  // ---- The boot sector -----------------------------------------------------------------

  datatype BootFields = BootFields(
    jump: seq<byte>, oem: seq<byte>, boot: BootSector, totalSectors: u16, media: byte, rest: seq<byte>)
  {
    predicate Valid() {
      |jump| == 3 && |oem| == 8 && |rest| == 488
    }
  }

  function BootBytes(f: BootFields): (s: Sector)
    requires f.Valid()
  {
    f.jump + f.oem
    + Word(f.boot.bytesPerSector) + [f.boot.sectorsPerCluster] + Word(f.boot.reservedSectors) + [f.boot.fatCount]
    + Word(f.boot.dirEntryCount) + Word(f.totalSectors) + [f.media] + Word(f.boot.sectorsPerFat) + f.rest
  }

  lemma BootReadsBack(f: BootFields)
    requires f.Valid()
    ensures ParseBoot(BootBytes(f)) == f.boot
  {
    BootPlaces(f);
    hide BootBytes;
  }

  lemma BootPlaces(f: BootFields)
    requires f.Valid()
    ensures var s := BootBytes(f);
      && s[11..13] == Word(f.boot.bytesPerSector) && s[13] == f.boot.sectorsPerCluster
      && s[14..16] == Word(f.boot.reservedSectors) && s[16] == f.boot.fatCount
      && s[17..19] == Word(f.boot.dirEntryCount) && s[22..24] == Word(f.boot.sectorsPerFat)
      && (forall i :: i in {11, 14, 17, 22} ==> [s[i], s[i + 1]] == s[i..i + 2])
  {
    hide Word;
  }

  // ---- Sectors ---------------------------------------------------------------------------

  // The bytes of sectors one behind the other.
  ghost function SectorsFrom(sectors: seq<Sector>, lba: nat, n: nat): (b: seq<byte>)
    requires lba + n <= |sectors|
    ensures |b| == 512 * n
  {
    if n == 0 then [] else SectorsFrom(sectors, lba, n - 1) + sectors[lba + n - 1]
  }

  lemma {:induction false} RunIsSectors(sectors: seq<Sector>, lba: nat, n: nat)
    requires lba + n <= |sectors|
    ensures Run(sectors, lba, n) == SectorsFrom(sectors, lba, n)
  {
    if n > 0 {
      RunIsSectors(sectors, lba, n - 1);
      RunGrows(sectors, lba, n - 1);
    }
  }

  lemma RunGrows(sectors: seq<Sector>, lba: nat, n: nat)
    requires lba + n + 1 <= |sectors|
    ensures Run(sectors, lba, n + 1) == Run(sectors, lba, n) + sectors[lba + n]
  {
  }

  // ---- Formatted disks ---------------------------------------------------------------------

  // The disk begins with this boot sector and is as large as it says: reserved
  // sectors, tables, root directory; the table fits the driver's memory.
  ghost predicate Formatted(sectors: seq<Sector>, f: BootFields, structSize: nat) {
    && f.Valid() && 0 < |sectors| <= 0x1_0000 && sectors[0] == BootBytes(f)
    && f.boot.bytesPerSector == 512 && f.boot.sectorsPerCluster > 0
    && f.boot.sectorsPerFat > 0 && f.boot.dirEntryCount > 0 && f.boot.fatCount > 0
    && f.boot.reservedSectors + f.boot.sectorsPerFat <= |sectors|
    && DataStart(f.boot) <= |sectors|
    && structSize + 512 * f.boot.sectorsPerFat < 0x1_0000 && 32 * f.boot.dirEntryCount < 0x1_0000
  }

  function RootStart(b: BootSector): nat {
    MulLe(0, b.sectorsPerFat, b.fatCount);
    b.reservedSectors + b.sectorsPerFat * b.fatCount
  }

  function RootLength(b: BootSector): nat {
    (32 * b.dirEntryCount + 511) / 512
  }

  function DataStart(b: BootSector): nat {
    RootStart(b) + RootLength(b)
  }

  ghost function VolumeOf(sectors: seq<Sector>, b: BootSector): Volume
    requires b.reservedSectors + b.sectorsPerFat <= |sectors|
  {
    Volume(sectors, SectorsFrom(sectors, b.reservedSectors, b.sectorsPerFat),
           b.sectorsPerCluster, RootStart(b), 32 * b.dirEntryCount, DataStart(b))
  }

  // Both programs mount such a disk, and see the areas where it has them.
  lemma FormattedIsMounted(sectors: seq<Sector>, f: BootFields, structSize: nat)
    requires Formatted(sectors, f, structSize)
    ensures ParseBoot(sectors[0]) == f.boot && Accepts(f.boot, structSize) && LongEnough(sectors)
    ensures MountedVolume(sectors) == VolumeOf(sectors, f.boot) && VolumeOf(sectors, f.boot).Valid()
    ensures HostReadable(sectors) && HostVolume(sectors) == VolumeOf(sectors, f.boot)
  {
    BootReadsBack(f);
    var b := f.boot;
    SameGeometry(b, |sectors|);
    RunIsSectors(sectors, b.reservedSectors, b.sectorsPerFat);
    AcceptsFormatted(b, structSize);
    hide ParseBoot, BootBytes, Run, FatSystem.RootLba, FatSystem.RootBytes, DataLba, HostRootLba, HostDataLba,
         HostRootSectors, RootStart, RootLength, Accepts, Sought;
    RootFits(VolumeOf(sectors, b), b);
    hide Volume.RootLbas;
  }

  lemma AcceptsFormatted(b: BootSector, structSize: nat)
    requires b.bytesPerSector == 512 && b.sectorsPerCluster > 0 && structSize + 512 * b.sectorsPerFat < 0x1_0000
    ensures Accepts(b, structSize)
  {
  }

  lemma SameGeometry(b: BootSector, size: nat)
    requires b.bytesPerSector == 512 && DataStart(b) <= size <= 0x1_0000 && b.dirEntryCount > 0
    requires 32 * b.dirEntryCount < 0x1_0000
    ensures FatSystem.RootLba(b) == HostRootLba(b) == RootStart(b)
    ensures FatSystem.RootBytes(b) == 32 * b.dirEntryCount && HostRootSectors(b) == RootLength(b) > 0
    ensures DataLba(b) == HostDataLba(b) == DataStart(b) && RootStart(b) < 0x1_0000
    ensures Sought(HostRootLba(b)) == RootStart(b) && Sought(b.reservedSectors) == b.reservedSectors
  {
    RoundedUp(32 * b.dirEntryCount);
    hide Sought;
  }

  lemma RootFits(v: Volume, b: BootSector)
    requires v.rootBytes == 32 * b.dirEntryCount && b.dirEntryCount > 0
    ensures |v.RootLbas()| == RootLength(b)
  {
  }

  // ---- The disk this system ships on -----------------------------------------------------------

  // The header that boot.asm declares, behind its jump.
  function FloppyHeader(): seq<byte> {
    [0x4D, 0x53, 0x57, 0x49, 0x4E, 0x34, 0x2E, 0x31, 0x00, 0x02, 0x01, 0x01, 0x00, 0x02, 0xE0, 0x00, 0x40, 0x0B, 0xF0,
     0x09, 0x00]
  }

  predicate IsFloppy(sectors: seq<Sector>) {
    |sectors| == 2880 && sectors[0][3..24] == FloppyHeader()
  }

  // One sector a cluster, the table at 1, the root directory at 19 and the data
  // at 33: the floppy the boot sector takes for granted.
  lemma FloppyIsBootFloppy(sectors: seq<Sector>, structSize: nat)
    requires IsFloppy(sectors) && structSize + 9 * 512 < 0x1_0000
    ensures Accepts(ParseBoot(sectors[0]), structSize) && LongEnough(sectors)
    ensures MountedVolume(sectors) == Volume(sectors, SectorsFrom(sectors, 1, 9), 1, 19, 7168, 33)
    ensures HostReadable(sectors) && HostVolume(sectors) == MountedVolume(sectors)
    ensures BootFloppy(MountedVolume(sectors))
  {
    var f := FloppyFields(sectors[0]);
    FormattedIsMounted(sectors, f, structSize);
    hide MountedVolume, HostVolume, HostReadable, ParseBoot, BootBytes, Accepts, LongEnough;
  }

  function FloppyFields(s: Sector): (f: BootFields)
    requires s[3..24] == FloppyHeader()
    ensures f.Valid() && f.boot == BootSector(512, 1, 1, 2, 224, 9) && BootBytes(f) == s
  {
    HeaderBytes(s);
    BootFields(s[..3], s[3..11], BootSector(512, 1, 1, 2, 224, 9), 2880, 0xF0, s[24..])
  }

  lemma HeaderBytes(s: Sector)
    requires s[3..24] == FloppyHeader()
    ensures BootBytes(BootFields(s[..3], s[3..11], BootSector(512, 1, 1, 2, 224, 9), 2880, 0xF0, s[24..])) == s
  {
    HeaderFields();
    assert s == s[..3] + s[3..11] + s[11..24] + s[24..];
    assert s[11..24] == s[3..24][8..];
    hide Word, FloppyHeader;
    AllAtOnce(s[..3] + s[3..11], Word(512), [1], Word(1), [2], Word(224), Word(2880), [0xF0], Word(9), s[24..]);
  }

  lemma HeaderFields()
    ensures FloppyHeader()[8..]
         == Word(512) + [1] + Word(1) + [2] + Word(224) + Word(2880) + [0xF0] + Word(9)
  {
  }

  lemma AllAtOnce(a: seq<byte>, b: seq<byte>, c: seq<byte>, d: seq<byte>, e: seq<byte>, f: seq<byte>, g: seq<byte>,
                  h: seq<byte>, i: seq<byte>, rest: seq<byte>)
    ensures a + b + c + d + e + f + g + h + i + rest == a + (b + c + d + e + f + g + h + i) + rest
  {
  }

  // ---- Chains --------------------------------------------------------------------------------

  // The entries of the table link the clusters in order, the last to an end
  // mark.
  ghost predicate Linked(entries: seq<u12>, chain: seq<nat>) {
    && |chain| > 0
    && (forall i :: 0 <= i < |chain| ==> 2 <= chain[i] < 0xFF8 && chain[i] < |entries|)
    && (forall i :: 0 <= i < |chain| - 1 ==> entries[chain[i]] == chain[i + 1])
    && 0xFF8 <= entries[chain[|chain| - 1]] <= 0xFFF
  }

  // The data area starts with cluster 2.
  function ClusterStart(v: Volume, c: nat): int {
    v.dataLba + (c - 2) * v.spc
  }

  ghost predicate OnDisk(v: Volume, chain: seq<nat>) {
    forall i :: 0 <= i < |chain| ==> 0 <= ClusterStart(v, chain[i]) && ClusterStart(v, chain[i]) + v.spc <= |v.sectors|
  }

  // The table holds these entries, and perhaps a part of one more.
  ghost predicate HasTable(v: Volume, entries: seq<u12>, slack: seq<byte>) {
    && v.fat == Packed(entries) + slack
    && |v.sectors| <= 0x1_0000 && 0 < v.spc < 0x100 && v.dataLba < 0x10_0000
  }

  // The chains that the readers follow are exactly those the table links.
  lemma ChainsAreLinked(v: Volume, entries: seq<u12>, slack: seq<byte>, chain: seq<nat>)
    requires HasTable(v, entries, slack) && forall i :: 0 <= i < |chain| ==> chain[i] < |entries|
    ensures v.IsChain(chain) <==> Linked(entries, chain) && OnDisk(v, chain)
  {
    forall i | 0 <= i < |chain|
      ensures ClusterReads(v, entries, chain[i])
    {
      OneCluster(v, entries, slack, chain[i]);
    }
    hide NextCluster, InTable, Volume.HasCluster, ClusterStart, HasTable;
  }

  ghost predicate ClusterReads(v: Volume, entries: seq<u12>, c: nat) {
    && c < |entries| && InTable(v.fat, c) && NextCluster(v.fat, c) == entries[c]
    && (v.HasCluster(c) <==> 2 <= c < 0xFF8 && 0 <= ClusterStart(v, c) && ClusterStart(v, c) + v.spc <= |v.sectors|)
  }

  lemma OneCluster(v: Volume, entries: seq<u12>, slack: seq<byte>, c: nat)
    requires HasTable(v, entries, slack) && c < |entries|
    ensures ClusterReads(v, entries, c)
  {
    EntryDecodes(v.fat, entries, slack, c);
    hide NextCluster, InTable, Packed;
    if 2 <= c < 0x1000 {
      ClusterPlace(v, c);
      hide ClusterStart, Volume.ClusterToLba;
    }
  }

  lemma EntryDecodes(fat: seq<byte>, entries: seq<u12>, slack: seq<byte>, c: nat)
    requires fat == Packed(entries) + slack && c < |entries|
    ensures InTable(fat, c) && NextCluster(fat, c) == entries[c]
  {
    hide Packed, NextCluster, InTable;
    DecodePacked(entries, c);
    assert fat[..|Packed(entries)|] == Packed(entries);
    SameLink(Packed(entries), fat, c);
  }

  lemma ClusterPlace(v: Volume, c: nat)
    requires v.spc < 0x100 && v.dataLba < 0x10_0000 && 2 <= c < 0x1000
    ensures v.ClusterToLba(c) == ClusterStart(v, c) >= 0
  {
    MulLe(c - 2, 0x1000, v.spc);
    MulLe(0, c - 2, v.spc);
  }

  // Whatever the table, a chain goes from one data cluster to the next, up to
  // an end mark.
  lemma ChainEnds(v: Volume, chain: seq<nat>)
    requires v.IsChain(chain)
    ensures |chain| > 0 && forall i :: 0 <= i < |chain| ==> 2 <= chain[i] < 0xFF8 && InTable(v.fat, chain[i])
    ensures forall i :: 0 <= i < |chain| - 1 ==> NextCluster(v.fat, chain[i]) == chain[i + 1]
    ensures 0xFF8 <= NextCluster(v.fat, chain[|chain| - 1]) <= 0xFFF
  {
    hide NextCluster, InTable, Volume.ClusterToLba;
    forall i | 0 <= i < |chain|
      ensures 2 <= chain[i] < 0xFF8 && InTable(v.fat, chain[i])
    {
      assert v.HasCluster(chain[i]);
    }
  }

  // The clusters of a file, from where they lie.
  ghost function Laid(v: Volume, chain: seq<nat>): seq<byte>
    requires OnDisk(v, chain)
  {
    if |chain| == 0 then []
    else Laid(v, chain[..|chain| - 1]) + SectorsFrom(v.sectors, ClusterStart(v, chain[|chain| - 1]), v.spc)
  }

  lemma {:induction false} LaidIsConcatenated(v: Volume, entries: seq<u12>, slack: seq<byte>, chain: seq<nat>)
    requires HasTable(v, entries, slack) && OnDisk(v, chain)
    requires forall i :: 0 <= i < |chain| ==> chain[i] < |entries| && v.HasCluster(chain[i])
    ensures v.Concatenated(chain) == Laid(v, chain)
  {
    hide Volume.HasCluster, HasTable, ClusterStart;
    if |chain| > 0 {
      var front, last := chain[..|chain| - 1], chain[|chain| - 1];
      LaidIsConcatenated(v, entries, slack, front);
      ClusterIsLaid(v, entries, slack, last);
    }
  }

  lemma ClusterIsLaid(v: Volume, entries: seq<u12>, slack: seq<byte>, c: nat)
    requires HasTable(v, entries, slack) && v.HasCluster(c)
    ensures 0 <= ClusterStart(v, c) && ClusterStart(v, c) + v.spc <= |v.sectors|
    ensures v.ClusterBytes(c) == SectorsFrom(v.sectors, ClusterStart(v, c), v.spc)
  {
    ClusterPlace(v, c);
    hide ClusterStart, Volume.ClusterToLba, InTable;
    RunIsSectors(v.sectors, ClusterStart(v, c), v.spc);
    assert v.ClusterBytes(c) == Run(v.sectors, v.ClusterToLba(c), v.spc);
  }

  // A file that is laid out like that is the one the readers find at its first
  // cluster.
  lemma LinkedIsChainOf(v: Volume, entries: seq<u12>, slack: seq<byte>, chain: seq<nat>)
    requires HasTable(v, entries, slack) && Linked(entries, chain) && OnDisk(v, chain)
    ensures v.IsChain(chain) && HasChain(v, chain[0]) && ChainOf(v, chain[0]) == chain
    ensures forall i :: 0 <= i < |chain| ==> v.HasCluster(chain[i])
    ensures v.Concatenated(chain) == Laid(v, chain)
  {
    ChainsAreLinked(v, entries, slack, chain);
    hide Volume.HasCluster, HasTable, OnDisk;
    LaidIsConcatenated(v, entries, slack, chain);
  }
}
