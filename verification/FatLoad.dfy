// From a disk to the bytes of a file: mounting, opening and reading, as the
// second stage does with the kernel.
module FatLoad {
  import opened Words
  import opened Disk
  import opened FatTable
  import opened FatVolume
  import opened FatChains
  import opened FatDriver
  import opened FatNames
  import opened FatFiles
  import opened FatSearch
  import opened FatMount
  import opened FatOpen

  // The disk holds what its boot sector announces, and the path leads, through
  // directories that exist, to an ordinary file with a proper chain.
  ghost predicate LeadsTo(sectors: seq<Sector>, structSize: nat, path: seq<byte>, stack: seq<byte>, raw: RawEntry) {
    && 0 < |sectors| <= 0x1_0000 && Accepts(ParseBoot(sectors[0]), structSize) && LongEnough(sectors)
    && |stack| == MAX_PATH && 0 !in path && path != [] && Tidy(path, stack)
    && var v := MountedVolume(sectors);
       && Exists(v, RootDir, path) && Lookup(v, RootDir, path) == Target(raw)
       && !IsDirectoryEntry(raw) && HasChain(v, FirstClusterOf(raw))
  }

  // The clusters of a file, concatenated.
  ghost function FileBytes(sectors: seq<Sector>, raw: RawEntry): seq<byte>
    requires |sectors| > 0 && HasChain(MountedVolume(sectors), FirstClusterOf(raw))
  {
    var v := MountedVolume(sectors);
    BytesConcatenate(v, ChainOf(v, FirstClusterOf(raw)));
    v.Concatenated(ChainOf(v, FirstClusterOf(raw)))
  }

  // The handle is at the start of the file.
  ghost predicate Ready(fs: FatSystem, file: OpenFile, raw: RawEntry)
    reads fs, file, file.buffer
  {
    && fs.disk.Valid() && |fs.disk.sectors| > 0 && fs.Vol() == MountedVolume(fs.disk.sectors)
    && HasChain(fs.Vol(), FirstClusterOf(raw))
    && file.Reading(fs.Vol(), Chain(ChainOf(fs.Vol(), FirstClusterOf(raw))))
    && !file.isDirectory && file.position == 0 && file.size == SizeOf(raw)
  }

  // Mounting a disk and opening a path on it.
  method MountAndOpen(fs: FatSystem, structSize: nat, path: seq<byte>, stack: seq<byte>, ghost raw: RawEntry)
      returns (file: OpenFile)
    requires fs.Valid() && fs.disk.reliable && LeadsTo(fs.disk.sectors, structSize, Relative(path), stack, raw)
    requires 0 !in path
    modifies fs, fs.root, fs.root.buffer, fs.files, set f | f in fs.files :: f.buffer
    ensures file in fs.files && file.size == SizeOf(raw) && Ready(fs, file, raw)
  {
    hide RootFresh, LongEnough, Accepts, ParseBoot, Exists, Lookup, Tidy, OpenFile.Reading, FirstSectorAgain, Ready,
         Opened;
    var ok := Initialize(fs, structSize);
    ghost var v := fs.Vol();
    FreeSlotIs(fs.files, 0);
    var result, found, torn := Open(fs, path, stack, v, 0);
    HeldFirst(fs, v, Relative(path), result, raw);
    file := result.file;
    OpenedIsReading(v, file, raw);
    IsReady(fs, file, raw);
  }

  lemma IsReady(fs: FatSystem, file: OpenFile, raw: RawEntry)
    requires fs.Valid() && |fs.disk.sectors| > 0 && fs.Vol() == MountedVolume(fs.disk.sectors)
    requires HasChain(fs.Vol(), FirstClusterOf(raw)) && Opens(file, raw) && !IsDirectoryEntry(raw)
    requires file.Reading(fs.Vol(), Chain(ChainOf(fs.Vol(), FirstClusterOf(raw))))
    ensures Ready(fs, file, raw) && file.size == SizeOf(raw)
  {
    hide OpenFile.Reading, MountedVolume, HasChain;
  }

  lemma HeldFirst(fs: FatSystem, v: Volume, path: seq<byte>, result: OpenResult, raw: RawEntry)
    requires fs.Valid() && fs.disk.reliable && v == fs.Vol() && path != [] && Opened(fs, v, 0, path, result, false)
    requires Exists(v, RootDir, path) && Lookup(v, RootDir, path) == Target(raw)
    ensures v.Valid() && result == Handle(fs.files[0]) && Opens(fs.files[0], raw)
        && fs.files[0].buffer.Length == SECTOR_SIZE
    ensures v.ClusterToLba(FirstClusterOf(raw)) < |v.sectors|
    ensures fs.files[0].buffer[..] == v.sectors[v.ClusterToLba(FirstClusterOf(raw))]
  {
    hide Exists, Lookup, RootFresh, FirstSectorAgain, Volume.Valid, Opens, Volume.ClusterToLba;
  }

  // Reading from a handle that is ready.
  method ReadOn(fs: FatSystem, file: OpenFile, counts: seq<u32>, ghost raw: RawEntry)
      returns (data: seq<byte>, overrun: bool, failed: bool)
    requires Ready(fs, file, raw)
    modifies file`position, file`currentCluster, file`currentSector, file`size, file.buffer
    ensures fs.disk.reliable ==> !failed
    ensures |fs.disk.sectors| > 0 && HasChain(MountedVolume(fs.disk.sectors), FirstClusterOf(raw))
    ensures PiecesOf(FileBytes(fs.disk.sectors, raw), 0, SizeOf(raw), counts, data, overrun, failed)
  {
    hide OpenFile.Reading, PiecesOf, MountedVolume, HasChain, Stream, Readable, OpenFile.Placed;
    ghost var v := fs.Vol();
    ghost var chain := ChainOf(v, FirstClusterOf(raw));
    PositionInLimit(file, v, Chain(chain));
    SameBytes(v, raw);
    data, overrun, failed := ReadPieces(fs, file, counts, v, Chain(chain));
  }

  lemma SameBytes(v: Volume, raw: RawEntry)
    requires |v.sectors| > 0 && v == MountedVolume(v.sectors) && HasChain(v, FirstClusterOf(raw))
    requires Readable(v, Chain(ChainOf(v, FirstClusterOf(raw))))
    ensures Stream(v, Chain(ChainOf(v, FirstClusterOf(raw)))) == FileBytes(v.sectors, raw)
  {
    hide MountedVolume;
    BytesConcatenate(v, ChainOf(v, FirstClusterOf(raw)));
  }

  // The file at a path is delivered: any run of reads yields its clusters from
  // the first byte on, cut to the size, with the limits that reading has.
  method DeliverFile(fs: FatSystem, structSize: nat, path: seq<byte>, stack: seq<byte>, counts: seq<u32>,
                     ghost raw: RawEntry)
      returns (data: seq<byte>, overrun: bool)
    requires fs.Valid() && fs.disk.reliable && LeadsTo(fs.disk.sectors, structSize, Relative(path), stack, raw)
    requires 0 !in path
    modifies fs, fs.root, fs.root.buffer, fs.files, set f | f in fs.files :: f.buffer
    ensures HasChain(MountedVolume(fs.disk.sectors), FirstClusterOf(raw))
    ensures PiecesOf(FileBytes(fs.disk.sectors, raw), 0, SizeOf(raw), counts, data, overrun, false)
  {
    hide PiecesOf, LeadsTo, Ready, MountedVolume, HasChain, FatSystem.Valid;
    var file := MountAndOpen(fs, structSize, path, stack, raw);
    var failed;
    data, overrun, failed := ReadOn(fs, file, counts, raw);
  }

  // The kernel, read in one call whose count is the size: the comparison that
  // follows succeeds exactly for files shorter than 32 KiB.
  method LoadKernel(fs: FatSystem, structSize: nat, path: seq<byte>, stack: seq<byte>, ghost raw: RawEntry)
      returns (data: seq<byte>, ok: bool)
    requires fs.Valid() && fs.disk.reliable && LeadsTo(fs.disk.sectors, structSize, Relative(path), stack, raw)
    requires 0 !in path && SizeOf(raw) <= |FileBytes(fs.disk.sectors, raw)|
    modifies fs, fs.root, fs.root.buffer, fs.files, set f | f in fs.files :: f.buffer
    ensures ok <==> SizeOf(raw) < 0x8000
    ensures HasChain(MountedVolume(fs.disk.sectors), FirstClusterOf(raw))
    ensures ok ==> data == FileBytes(fs.disk.sectors, raw)[..SizeOf(raw)]
  {
    hide PiecesOf, LeadsTo, Ready, MountedVolume, HasChain, FatSystem.Valid, FileBytes;
    var file := MountAndOpen(fs, structSize, path, stack, raw);
    var size := file.size;
    var overrun, failed;
    data, overrun, failed := ReadOn(fs, file, [size], raw);
    OneRead(FileBytes(fs.disk.sectors, raw), SizeOf(raw), data, overrun);
    ok := |data| == size;
  }

  lemma OneRead(s: seq<byte>, size: u32, data: seq<byte>, overrun: bool)
    requires size <= |s| && PiecesOf(s, 0, size, [size], data, overrun, false)
    ensures |data| == size <==> size < 0x8000
    ensures |data| <= |s| && data == s[..|data|]
  {
    var counts := [size];
    assert counts[..0] == [] && Sum(counts) == size;
  }

  // ---- A disk whose root directory goes stale ------------------------------------

  // One sector of table, a root directory of two, and one file, in one cluster,
  // whose entry is the sixteenth.
  function StaleImage(): seq<Sector> {
    [ImageBoot(), ImageTable(), ImageRoot(), seq(SECTOR_SIZE, _ => 0), seq(SECTOR_SIZE, _ => 0)]
  }

  // 512 bytes a sector, 1 sector a cluster, 1 reserved, 1 table of 1 sector, 32
  // entries.
  function ImageBoot(): Sector {
    seq(SECTOR_SIZE, i =>
      if i == 12 then 2
      else if i == 13 || i == 14 || i == 16 || i == 22 then 1
      else if i == 17 then 32
      else 0)
  }

  // Cluster 2 ends its chain.
  function ImageTable(): Sector {
    seq(SECTOR_SIZE, i => if i == 3 then 0xFF else if i == 4 then 0x0F else 0)
  }

  function ImageRoot(): Sector {
    seq(SECTOR_SIZE, i => if i < 480 then 0 else ImageEntry(i - 480))
  }

  // A: one byte, from cluster 2 on.
  function ImageEntry(i: int): byte {
    if i == 0 then 0x41 else if 0 < i < NAME_SIZE then SPACE else if i == 26 then 2 else if i == 28 then 1 else 0
  }

  // FAT_Initialize accepts the disk; the entry can be found, and its file read;
  // finding it leaves the root directory on its second sector.
  lemma SixteenthEntryGoesStale(structSize: nat)
    requires structSize + SECTOR_SIZE < FAT_MEMORY
    ensures var image, name := StaleImage(), [0x41];
      && Accepts(ParseBoot(image[0]), structSize) && LongEnough(image)
      && var v := MountedVolume(image);
         && v.Valid() && Exists(v, RootDir, name) && HasChain(v, 2)
         && FirstSlot(v, name) == 15 && !FirstSectorAgain(v, name)
  {
    ImageVolume();
    var v := MountedVolume(StaleImage());
    hide ParseBoot, MountedVolume, ImageBoot, ImageTable, StaleImage, Volume.Valid, Exists, FirstSectorAgain, FirstSlot;
    MountedIsValid(StaleImage(), structSize);
    OneCluster(v);
    NameExists(v);
    NameGoesStale(v);
  }

  ghost predicate OnImage(v: Volume) {
    v == Volume(StaleImage(), ImageTable(), 1, 2, 1024, 4) && v.Valid()
  }

  lemma NameExists(v: Volume)
    requires OnImage(v)
    ensures FirstPart([0x41]) == [0x41] && Exists(v, RootDir, [0x41])
  {
    var name: seq<byte> := [0x41];
    EntryIsSixteenth(v);
    OneComponent();
    hide ImageTable, StaleImage, Stream, Encoded;
    assert |v.sectors| == 5 by { FiveSectors(); }
    assert Component(v, RootDir, name) == Slot(Stream(v, RootDir), 15);
  }

  lemma FiveSectors()
    ensures |StaleImage()| == 5
  {
  }

  lemma OneComponent()
    ensures var name: seq<byte> := [0x41]; FirstPart(name) == name && RestOf(name) == [] && IsLast(name)
  {
    var name: seq<byte> := [0x41];
    IndexUnique(name, SLASH, 1);
    RestIsShorter(name);
  }

  lemma NameGoesStale(v: Volume)
    requires OnImage(v)
    ensures Present(Stream(v, RootDir), Encoded(FirstPart([0x41])))
    ensures FirstSlot(v, [0x41]) == 15 && !FirstSectorAgain(v, [0x41])
  {
    EntryIsSixteenth(v);
    OneComponent();
    assert v.sectors[2][480] == 0x41 && v.sectors[3][480] == 0;
    hide ImageTable, StaleImage, Stream, Encoded;
  }

  // The geometry the boot sector gives.
  lemma ImageVolume()
    ensures var image := StaleImage();
      && ParseBoot(image[0]) == BootSector(512, 1, 1, 1, 32, 1)
      && LongEnough(image)
      && MountedVolume(image) == Volume(image, ImageTable(), 1, 2, 1024, 4)
  {
    var image := StaleImage();
    var b := ParseBoot(image[0]);
    assert b == BootSector(512, 1, 1, 1, 32, 1);
    OneSector(image, 1);
    assert TableOf(image, b, 1) == image[1] == ImageTable();
    assert |Volume(image, ImageTable(), 1, 2, 1024, 4).RootLbas()| == 2;
  }

  lemma OneCluster(v: Volume)
    requires v == Volume(StaleImage(), ImageTable(), 1, 2, 1024, 4)
    ensures v.IsChain([2]) && HasChain(v, 2)
  {
    assert v.fat[3] == 0xFF && v.fat[4] == 0x0F;
    assert NextCluster(v.fat, 2) == 0xFFF;
  }

  lemma EntryIsSixteenth(v: Volume)
    requires OnImage(v)
    ensures FirstMatch(Stream(v, RootDir), Encoded([0x41]), 15) && Present(Stream(v, RootDir), Encoded([0x41]))
    ensures |v.RootLbas()| == 2 && SlotNamed(Stream(v, RootDir), Encoded([0x41])) == 15
    ensures ENTRY_SIZE * 16 <= |Stream(v, RootDir)| && FirstClusterOf(Slot(Stream(v, RootDir), 15)) == 2
  {
    var s, target, first := Stream(v, RootDir), Encoded([0x41]), ImageRoot();
    assert |v.RootLbas()| == 2 && v.RootLbas()[0] == 2 && v.RootLbas()[1] == 3;
    assert |s| == 2 * SECTOR_SIZE;
    assert forall p :: 0 <= p < SECTOR_SIZE ==> s[p] == first[p];
    OneLetter();
    var entry := Slot(s, 15);
    forall k | 0 <= k < ENTRY_SIZE ensures entry[k] == ImageEntry(k) {
      assert entry[k] == s[480 + k] == first[480 + k];
    }
    assert entry[..NAME_SIZE] == target;
    assert entry[26] == 2 && entry[27] == entry[20] == entry[21] == 0;
    forall i: nat | i < 15 ensures !MatchAt(s, target, i) {
      assert Slot(s, i)[0] == first[ENTRY_SIZE * i] == 0;
      assert NameOf(Slot(s, i))[0] == 0;
    }
    assert FirstMatch(s, target, 15);
  }

  lemma OneLetter()
    ensures Encoded([0x41]) == [0x41] + seq(10, _ => SPACE)
  {
    IndexUnique([0x41], DOT, 1);
    assert [0x41][..1] == [0x41];
  }
}
