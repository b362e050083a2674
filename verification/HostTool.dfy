// The host tool: it reads an image file with geometry of its own, and copies
// whole clusters.
module HostTool {
  import opened Words
  import opened Arithmetic
  import opened Disk
  import opened FatTable
  import opened FatVolume
  import opened FatChains
  import opened FatDriver
  import opened FatFiles
  import opened FatMount

  // The sector a seek reaches: its offset is computed in 32 bits.
  function Sought(lba: u32): (s: nat)
    ensures lba < 0x80_0000 ==> s == lba
  {
    lba * SECTOR_SIZE % 0x1_0000_0000 / SECTOR_SIZE
  }

  // A seek goes anywhere, and reading nothing always succeeds.
  predicate InImage(sectors: seq<Sector>, lba: u32, count: nat) {
    count == 0 || Sought(lba) + count <= |sectors|
  }

  // readSectors: a seek and a read in the image file.
  method ReadSectors(sectors: seq<Sector>, lba: u32, count: nat, out: array<byte>, at: nat) returns (ok: bool)
    requires at + SECTOR_SIZE * count <= out.Length
    modifies out
    ensures ok <==> InImage(sectors, lba, count)
    ensures out[..at] == old(out[..at])
    ensures ok && count > 0 ==> out[at..at + SECTOR_SIZE * count] == Run(sectors, Sought(lba), count)
  {
    hide Run, Sought;
    ok := InImage(sectors, lba, count);
    if ok && count > 0 {
      var run := Run(sectors, Sought(lba), count);
      var p := 0;
      while p < |run|
        invariant 0 <= p <= |run|
        invariant out[..at] == old(out[..at])
        invariant out[at..at + p] == run[..p]
      {
        out[at + p] := run[p];
        p := p + 1;
      }
    }
  }

  // ---- The image as the host tool sees it ----------------------------------------

  // Its whole table, and a data area computed without wrapping.
  ghost function HostVolume(sectors: seq<Sector>): Volume
    requires |sectors| > 0 && ParseBoot(sectors[0]).bytesPerSector == SECTOR_SIZE
  {
    var b := ParseBoot(sectors[0]);
    Volume(sectors,
           TableOf(sectors, b, b.sectorsPerFat),
           b.sectorsPerCluster, HostRootLba(b), b.dirEntryCount * ENTRY_SIZE, HostDataLba(b))
  }

  // The table and the root directory lie in the image.
  ghost predicate HostReadable(sectors: seq<Sector>)
    requires |sectors| > 0 && ParseBoot(sectors[0]).bytesPerSector == SECTOR_SIZE
  {
    var b := ParseBoot(sectors[0]);
    && InImage(sectors, b.reservedSectors, b.sectorsPerFat)
    && RootReadable(sectors, b)
  }

  ghost predicate RootReadable(sectors: seq<Sector>, b: BootSector)
    requires b.bytesPerSector == SECTOR_SIZE
  {
    RootSectors(b);
    InImage(sectors, HostRootLba(b), HostRootSectors(b))
  }

  // A root directory that starts at sector 2^23 or behind is sought at the
  // start of the image.
  lemma SeekWraps(lba: u32)
    requires 0x80_0000 <= lba < 0x100_0000
    ensures Sought(lba) == lba - 0x80_0000
  {
  }

  // readFat.
  method ReadTable(sectors: seq<Sector>, b: BootSector) returns (ok: bool, fat: seq<byte>)
    ensures ok <==> InImage(sectors, b.reservedSectors, b.sectorsPerFat)
    ensures ok ==> fat == TableOf(sectors, b, b.sectorsPerFat)
  {
    var table := new byte[SECTOR_SIZE * b.sectorsPerFat];
    ok := ReadSectors(sectors, b.reservedSectors, b.sectorsPerFat, table, 0);
    fat := table[..];
    assert table[..] == table[0..SECTOR_SIZE * b.sectorsPerFat];
  }

  // readRootDirectory; the entries themselves are not used here.
  method ReadRoot(sectors: seq<Sector>, b: BootSector) returns (ok: bool)
    requires b.bytesPerSector == SECTOR_SIZE
    ensures ok <==> RootReadable(sectors, b)
  {
    hide Sought;
    RootSectors(b);
    var root := new byte[SECTOR_SIZE * HostRootSectors(b)];
    ok := ReadSectors(sectors, HostRootLba(b), HostRootSectors(b), root, 0);
  }

  lemma RootSectors(b: BootSector)
    ensures HostRootLba(b) < 0x100_0000
  {
    MulLe(b.sectorsPerFat, 0xFFFF, b.fatCount);
    MulLe(b.fatCount, 0xFF, 0xFFFF);
  }

  // readBootSector, readFat and readRootDirectory, on an image of 512-byte
  // sectors.
  method Mount(sectors: seq<Sector>) returns (ok: bool, v: Volume)
    requires |sectors| > 0 && ParseBoot(sectors[0]).bytesPerSector == SECTOR_SIZE
    ensures ok <==> HostReadable(sectors)
    ensures ok ==> v == HostVolume(sectors)
  {
    hide Run, ParseBoot, HostDataLba, HostRootLba, TableOf, RootReadable;
    var b := ParseBoot(sectors[0]);
    RootSectors(b);
    var fat;
    ok, fat := ReadTable(sectors, b);
    v := Volume(sectors, fat, b.sectorsPerCluster, HostRootLba(b), b.dirEntryCount * ENTRY_SIZE, HostDataLba(b));
    if ok {
      ok := ReadRoot(sectors, b);
    }
  }

  // The two programs see the same volume exactly when nothing is cut off in
  // stage 2: the table's sectors fit a byte, and the start of the root
  // directory and its size fit 16 bits.
  lemma SameVolume(sectors: seq<Sector>)
    requires |sectors| > 0 && ParseBoot(sectors[0]).bytesPerSector == SECTOR_SIZE && HostReadable(sectors)
    ensures var b := ParseBoot(sectors[0]);
      HostVolume(sectors) == MountedVolume(sectors)
      <==> b.sectorsPerFat < 0x100 && HostRootLba(b) < 0x1_0000 && b.dirEntryCount * ENTRY_SIZE < 0x1_0000
  {
    hide Run, ParseBoot, TableOf, DataLba, HostDataLba, HostRootLba, FatSystem.RootLba;
    DataAreasCoincide(ParseBoot(sectors[0]));
    var b := ParseBoot(sectors[0]);
    assert |HostVolume(sectors).fat| == SECTOR_SIZE * b.sectorsPerFat;
    assert |MountedVolume(sectors).fat| == SECTOR_SIZE * (b.sectorsPerFat % 0x100);
  }

  // For the files it is enough that the data areas coincide: the table stage 2
  // has is the start of the whole.
  lemma SameFiles(sectors: seq<Sector>, chain: seq<nat>)
    requires |sectors| > 0 && ParseBoot(sectors[0]).bytesPerSector == SECTOR_SIZE && HostReadable(sectors)
    requires HostRootLba(ParseBoot(sectors[0])) < 0x1_0000 && MountedVolume(sectors).IsChain(chain)
    ensures HostVolume(sectors).IsChain(chain)
    ensures forall i :: 0 <= i < |chain| ==>
              MountedVolume(sectors).HasCluster(chain[i]) && HostVolume(sectors).HasCluster(chain[i])
    ensures HostVolume(sectors).Concatenated(chain) == MountedVolume(sectors).Concatenated(chain)
  {
    var b, m, v := ParseBoot(sectors[0]), MountedVolume(sectors), HostVolume(sectors);
    DataAreasCoincide(b);
    assert v.dataLba == m.dataLba by {
      hide Run, ParseBoot, HostDataLba, DataLba;
    }
    TableIsPrefix(sectors);
    hide Run, ParseBoot, MountedVolume, HostVolume, HostReadable, HostDataLba, DataLba;
    SameChain(m, v, chain);
    SameBytes(m, v, chain);
  }

  lemma SameChain(m: Volume, v: Volume, chain: seq<nat>)
    requires m.sectors == v.sectors && m.spc == v.spc && m.dataLba == v.dataLba
    requires |m.fat| <= |v.fat| && v.fat[..|m.fat|] == m.fat && m.IsChain(chain)
    ensures v.IsChain(chain)
    ensures forall i :: 0 <= i < |chain| ==> m.HasCluster(chain[i]) && v.HasCluster(chain[i])
  {
    hide NextCluster, InTable, Volume.ClusterToLba;
    forall i | 0 <= i < |chain|
      ensures m.HasCluster(chain[i]) && v.HasCluster(chain[i])
          && NextCluster(v.fat, chain[i]) == NextCluster(m.fat, chain[i])
    {
      assert m.HasCluster(chain[i]);
      SameLink(m.fat, v.fat, chain[i]);
      SameLba(m, v, chain[i]);
    }
  }

  lemma SameLink(m: seq<byte>, v: seq<byte>, c: nat)
    requires |m| <= |v| && v[..|m|] == m && InTable(m, c)
    ensures InTable(v, c) && NextCluster(v, c) == NextCluster(m, c)
  {
    var w := WordOffset(c);
    assert v[w] == v[..|m|][w] && v[w + 1] == v[..|m|][w + 1];
  }

  lemma SameLba(m: Volume, v: Volume, c: nat)
    requires m.spc == v.spc && m.dataLba == v.dataLba
    ensures m.ClusterToLba(c) == v.ClusterToLba(c)
  {
  }

  lemma TableIsPrefix(sectors: seq<Sector>)
    requires |sectors| > 0 && ParseBoot(sectors[0]).bytesPerSector == SECTOR_SIZE && HostReadable(sectors)
    ensures var m, v := MountedVolume(sectors), HostVolume(sectors);
      |m.fat| <= |v.fat| && v.fat[..|m.fat|] == m.fat && v.sectors == m.sectors && v.spc == m.spc
  {
    hide ParseBoot, Run, TableOf, HostDataLba, HostRootLba, DataLba;
    var b := ParseBoot(sectors[0]);
    if b.sectorsPerFat > 0 {
      RunPrefix(sectors, b.reservedSectors, b.sectorsPerFat % 0x100, b.sectorsPerFat);
    }
  }

  lemma {:induction false} SameBytes(m: Volume, v: Volume, chain: seq<nat>)
    requires m.sectors == v.sectors && m.spc == v.spc && m.dataLba == v.dataLba
    requires forall i :: 0 <= i < |chain| ==> m.HasCluster(chain[i]) && v.HasCluster(chain[i])
    ensures v.Concatenated(chain) == m.Concatenated(chain)
  {
    if |chain| > 0 {
      SameBytes(m, v, chain[..|chain| - 1]);
      assert v.ClusterBytes(chain[|chain| - 1]) == m.ClusterBytes(chain[|chain| - 1]);
    }
  }

  // ---- Reading a file --------------------------------------------------------------

  // One cluster, copied behind what has been written so far.
  method ReadCluster(v: Volume, cluster: u16, out: array<byte>, at: nat) returns (ok: bool)
    requires |v.sectors| <= 0x80_0000 && v.spc > 0
    requires v.HasCluster(cluster) && at + v.spc * SECTOR_SIZE <= out.Length
    modifies out
    ensures ok && out[..at] == old(out[..at])
    ensures out[at..at + v.spc * SECTOR_SIZE] == v.ClusterBytes(cluster)
  {
    ok := ReadSectors(v.sectors, ClusterLba(v.dataLba, v.spc, cluster), v.spc, out, at);
    assert Run(v.sectors, v.ClusterToLba(cluster), v.spc) == v.ClusterBytes(cluster);
  }

  // The clusters before number i, followed by cluster number i.
  lemma ConcatenatedNext(v: Volume, chain: seq<nat>, i: nat)
    requires v.IsChain(chain) && i < |chain|
    ensures v.HasCluster(chain[i])
    ensures v.Concatenated(chain[..i + 1]) == v.Concatenated(chain[..i]) + v.ClusterBytes(chain[i])
  {
    assert chain[..i + 1][..i] == chain[..i];
    assert v.HasCluster(chain[i]);
  }

  // The first i clusters of the chain fill the output up to the pointer.
  ghost predicate Copied(v: Volume, out: array<byte>, pos: nat, chain: seq<nat>, i: nat)
    reads out
  {
    && v.IsChain(chain) && i <= |chain|
    && pos == i * (v.spc * SECTOR_SIZE) <= out.Length
    && (forall k :: 0 <= k < i ==> v.HasCluster(chain[..i][k]))
    && out[..pos] == v.Concatenated(chain[..i])
  }

  lemma CopiedAll(v: Volume, out: array<byte>, pos: nat, chain: seq<nat>)
    requires Copied(v, out, pos, chain, |chain|)
    ensures v.IsChain(chain) && (forall i :: 0 <= i < |chain| ==> v.HasCluster(chain[i]))
    ensures pos == |chain| * (v.spc * SECTOR_SIZE) <= out.Length && out[..pos] == v.Concatenated(chain)
  {
    assert chain[..|chain|] == chain;
  }

  method ReadNext(v: Volume, cluster: u16, out: array<byte>, pos: nat, ghost chain: seq<nat>, ghost i: nat)
      returns (ok: bool)
    requires Copied(v, out, pos, chain, i) && i < |chain| && chain[i] == cluster
    requires pos + v.spc * SECTOR_SIZE <= out.Length && |v.sectors| <= 0x80_0000 && v.spc > 0
    modifies out
    ensures ok && Copied(v, out, pos + v.spc * SECTOR_SIZE, chain, i + 1)
  {
    ghost var size := v.spc * SECTOR_SIZE;
    ConcatenatedNext(v, chain, i);
    ok := ReadCluster(v, cluster, out, pos);
    assert out[..pos + size] == out[..pos] + out[pos..pos + size];
  }

  // readFile: do { copy one cluster; follow the table } while the next cluster
  // is no end mark. The chain is a ghost; the loop ends because a chain never
  // repeats a cluster. Only the chain says when to stop, so that the copies
  // stay inside the output exactly when all of it fits.
  method ReadFile(v: Volume, firstCluster: u16, out: array<byte>, ghost chain: seq<nat>)
      returns (inside: bool, ok: bool, ghost n: nat)
    requires v.IsChain(chain) && chain[0] == firstCluster && |v.sectors| <= 0x80_0000 && v.spc > 0
    modifies out
    ensures inside <==> |chain| * (v.spc * SECTOR_SIZE) <= out.Length
    ensures inside ==> ok && n == |chain| * (v.spc * SECTOR_SIZE) && out[..n] == v.Concatenated(chain)
  {
    var current: u16, pos: nat, size := firstCluster, 0, v.spc * SECTOR_SIZE;
    ghost var i := 0;
    ok, inside, n := true, true, 0;
    assert Copied(v, out, 0, chain, 0);
    hide Volume.IsChain, Volume.Concatenated;
    while true
      invariant 0 <= i < |chain| && current == chain[i] && ok && inside
      invariant Copied(v, out, pos, chain, i)
      decreases |chain| - i
    {
      MulLe(i + 1, |chain|, size);
      if pos + size > out.Length {
        return false, ok, pos;
      }
      ok := ReadNext(v, current, out, pos, chain, i);
      pos := pos + size;
      LinkStaysInside(v, chain, i);
      current := HostNext(v.fat, current);
      i := i + 1;
      if !(ok && current < CHAIN_END) {
        break;
      }
    }
    n := pos;
    CopiedAll(v, out, pos, chain);
  }

  // What the tool allocates for an entry: its size and one sector more; and
  // what it copies.
  function Allocated(raw: RawEntry): u32 {
    var size: int := SizeOf(raw);
    (size + SECTOR_SIZE) % 0x1_0000_0000
  }

  function ChainBytes(spc: nat, chain: seq<nat>): nat {
    |chain| * (spc * SECTOR_SIZE)
  }

  // A chain as long as the size needs fits when clusters have one sector,
  lemma OneSectorClustersFit(raw: RawEntry, chain: seq<nat>)
    requires |chain| == 1 || (|chain| - 1) * SECTOR_SIZE < SizeOf(raw)
    requires SizeOf(raw) < 0x1_0000_0000 - SECTOR_SIZE
    ensures ChainBytes(1, chain) <= Allocated(raw)
  {
  }

  // while a single cluster fits only if the file comes within a sector of
  // filling it.
  lemma OneClusterFits(raw: RawEntry, chain: seq<nat>, spc: nat)
    requires |chain| == 1 && SizeOf(raw) < 0x1_0000_0000 - SECTOR_SIZE
    ensures ChainBytes(spc, chain) <= Allocated(raw) <==> (spc - 1) * SECTOR_SIZE <= SizeOf(raw)
  {
  }

  // An entry of one byte, in one cluster of four sectors, does not.
  const ONE_BYTE: RawEntry := seq(ENTRY_SIZE, i => if i == 26 then 2 else if i == 28 then 1 else 0)

  lemma FourSectorClusterOverruns()
    ensures SizeOf(ONE_BYTE) == 1 && FirstClusterOf(ONE_BYTE) == 2
    ensures ChainBytes(4, [FirstClusterOf(ONE_BYTE)]) > Allocated(ONE_BYTE)
  {
    assert ONE_BYTE[28] == 1 && ONE_BYTE[26] == 2;
    OneClusterFits(ONE_BYTE, [2], 4);
  }

  // What the host tool makes of an entry: it takes the low half of its first
  // cluster, which is all there is of it in a chain.
  method CopyOut(sectors: seq<Sector>, raw: RawEntry, ghost chain: seq<nat>)
      returns (mounted: bool, inside: bool, written: seq<byte>)
    requires 0 < |sectors| <= 0x1_0000 && ParseBoot(sectors[0]).bytesPerSector == SECTOR_SIZE
    requires ParseBoot(sectors[0]).sectorsPerCluster > 0 && HostRootLba(ParseBoot(sectors[0])) < 0x1_0000
    requires MountedVolume(sectors).IsChain(chain) && chain[0] == FirstClusterOf(raw)
    ensures mounted <==> HostReadable(sectors)
    ensures mounted ==> (inside <==> ChainBytes(ParseBoot(sectors[0]).sectorsPerCluster, chain) <= Allocated(raw))
    ensures forall i :: 0 <= i < |chain| ==> MountedVolume(sectors).HasCluster(chain[i])
    ensures mounted && inside ==> HoldsChain(written, MountedVolume(sectors), chain)
  {
    hide ParseBoot, HostReadable, Volume.HasCluster, HostRootLba, DataLba, HostDataLba, TableOf, FatSystem.RootLba;
    written, inside := [], false;
    assert MountedVolume(sectors).HasCluster(chain[0]);
    LowCluster(MountedVolume(sectors), raw);
    var v;
    mounted, v := Mount(sectors);
    if mounted {
      SameFiles(sectors, chain);
      hide Volume.IsChain, Volume.Concatenated;
      var out := new byte[Allocated(raw)];
      var ok;
      ghost var n;
      inside, ok, n := ReadFile(v, WordOf(raw, 26), out, chain);
      written := out[..];
      if inside {
        assert written[..n] == out[..n];
      }
    }
  }

  ghost predicate HoldsChain(written: seq<byte>, m: Volume, chain: seq<nat>)
    requires forall i :: 0 <= i < |chain| ==> m.HasCluster(chain[i])
  {
    var s := m.Concatenated(chain);
    |s| <= |written| && written[..|s|] == s
  }

  lemma LowCluster(m: Volume, raw: RawEntry)
    requires m.HasCluster(FirstClusterOf(raw))
    ensures WordOf(raw, 26) == FirstClusterOf(raw)
  {
  }

  // One image, read by both programs. When the data areas coincide and the
  // image holds what its boot sector says, the host tool mounts it, its copy
  // stays inside what it allocates exactly when the chain is at most one
  // sector longer than the size, and then any run of stage 2 reads delivers
  // the start of it: all there is, when read on to the end.
  method ReadersAgree(fs: FatSystem, file: OpenFile, raw: RawEntry, counts: seq<u32>, ghost chain: seq<nat>)
      returns (data: seq<byte>, mounted: bool, inside: bool, written: seq<byte>)
    requires fs.disk.Valid() && |fs.disk.sectors| > 0 && fs.Vol() == MountedVolume(fs.disk.sectors)
    requires ParseBoot(fs.disk.sectors[0]).bytesPerSector == SECTOR_SIZE
    requires HostRootLba(ParseBoot(fs.disk.sectors[0])) < 0x1_0000 && fs.boot.sectorsPerCluster > 0
    requires file.Reading(fs.Vol(), Chain(chain)) && Opens(file, raw) && !file.isDirectory
    requires chain[0] == FirstClusterOf(raw)
    modifies file`position, file`currentCluster, file`currentSector, file`size, file.buffer
    ensures mounted <==> HostReadable(fs.disk.sectors)
    ensures mounted ==> (inside <==> ChainBytes(fs.boot.sectorsPerCluster, chain) <= Allocated(raw))
    ensures mounted && inside ==> |data| <= |written| && data == written[..|data|]
    ensures fs.disk.reliable && AllSmall(counts) && SizeOf(raw) < 0x8000 ==>
              |data| == Least(Sum(counts), Least(SizeOf(raw), ChainBytes(fs.boot.sectorsPerCluster, chain)))
  {
    hide OpenFile.Reading, ParseBoot, HostReadable, Stream, Volume.IsChain, AllSmall, Sum, HostRootLba;
    ghost var m := fs.Vol();
    ChainIsRead(m, file, chain);
    mounted, inside, written := CopyOut(fs.disk.sectors, raw, chain);
    var overrun, failed;
    data, overrun, failed := ReadPieces(fs, file, counts, m, Chain(chain));
    if mounted && inside {
      assert data == m.Concatenated(chain)[..|data|] == written[..|data|];
    }
  }

  lemma ChainIsRead(m: Volume, file: OpenFile, chain: seq<nat>)
    requires file.Reading(m, Chain(chain))
    ensures m.IsChain(chain) && (forall i :: 0 <= i < |chain| ==> m.HasCluster(chain[i]))
    ensures Stream(m, Chain(chain)) == m.Concatenated(chain)
  {
    BytesConcatenate(m, chain);
  }
}
