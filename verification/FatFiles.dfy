// Opening and closing handles, and whole runs of reads on one of them.
module FatFiles {
  import opened Words
  import opened Arithmetic
  import opened Disk
  import opened FatTable
  import opened FatVolume
  import opened FatChains
  import opened FatDriver

  const ENTRY_SIZE: nat := 32

  // The 32 raw bytes of a directory entry, and the fields the driver uses.
  type RawEntry = raw: seq<byte> | |raw| == ENTRY_SIZE witness seq(ENTRY_SIZE, _ => 0)

  function WordOf(raw: RawEntry, i: nat): u16
    requires i + 1 < ENTRY_SIZE
  {
    WordAt(raw, i)
  }

  function NameOf(raw: RawEntry): seq<byte> {
    raw[..11]
  }

  predicate IsDirectoryEntry(raw: RawEntry) {
    raw[11] / 0x10 % 2 == 1
  }

  function FirstClusterOf(raw: RawEntry): u32 {
    var high: int := WordOf(raw, 20);
    WordOf(raw, 26) + high * 0x1_0000
  }

  function SizeOf(raw: RawEntry): u32 {
    var high: int := WordOf(raw, 30);
    WordOf(raw, 28) + high * 0x1_0000
  }

  // Index of the first free slot of the handle table, or its size.
  ghost function FreeSlot(files: seq<OpenFile>): (h: nat)
    reads files
    ensures h <= |files| && (forall i :: 0 <= i < h ==> files[i].isOpen)
    ensures h < |files| ==> !files[h].isOpen
  {
    if |files| == 0 || !files[0].isOpen then 0
    else
      assert forall i :: 1 <= i < |files| ==> files[i] == files[1..][i - 1];
      1 + FreeSlot(files[1..])
  }

  // The objects of the slot that the next open takes.
  ghost function NextHandle(fs: FatSystem): set<object>
    reads fs.files
  {
    var h := FreeSlot(fs.files);
    if h < |fs.files| then {fs.files[h], fs.files[h].buffer} else {}
  }

  // A handle as FAT_OpenEntry sets it up from a directory entry.
  ghost predicate Opens(file: OpenFile, raw: RawEntry)
    reads file
  {
    && file.handle != ROOT_HANDLE
    && file.isDirectory == IsDirectoryEntry(raw)
    && file.position == 0
    && file.size == SizeOf(raw)
    && file.firstCluster == file.currentCluster == FirstClusterOf(raw)
    && file.currentSector == 0
  }

  // FAT_OpenEntry.
  method OpenEntry(fs: FatSystem, raw: RawEntry) returns (file: OpenFile?)
    requires fs.Valid()
    modifies NextHandle(fs)
    ensures old(FreeSlot(fs.files)) == MAX_HANDLES ==> file == null
    ensures file != null ==>
              && old(FreeSlot(fs.files)) < MAX_HANDLES
              && file == fs.files[old(FreeSlot(fs.files))]
              && file.isOpen && file.handle == old(FreeSlot(fs.files)) && Opens(file, raw)
    ensures file != null && fs.Vol().ClusterToLba(FirstClusterOf(raw)) < |fs.disk.sectors| ==>
              file.buffer[..] == fs.disk.sectors[fs.Vol().ClusterToLba(FirstClusterOf(raw))]
    ensures file == null && old(FreeSlot(fs.files)) < MAX_HANDLES ==> !fs.files[old(FreeSlot(fs.files))].isOpen
    ensures (&& fs.disk.reliable && old(FreeSlot(fs.files)) < MAX_HANDLES
             && fs.Vol().ClusterToLba(FirstClusterOf(raw)) < |fs.disk.sectors|) ==> file != null
  {
    var handle := -1;
    var i := 0;
    while i < MAX_HANDLES && handle < 0
      invariant 0 <= i <= MAX_HANDLES
      invariant handle < 0 ==> i <= FreeSlot(fs.files)
      invariant handle >= 0 ==> handle == FreeSlot(fs.files) < MAX_HANDLES
    {
      if !fs.files[i].isOpen {
        handle := i;
      }
      i := i + 1;
    }
    if handle < 0 {
      return null;
    }
    var fd := fs.files[handle];
    fd.handle := handle;
    fd.isDirectory := IsDirectoryEntry(raw);
    fd.position := 0;
    fd.size := SizeOf(raw);
    fd.firstCluster := FirstClusterOf(raw);
    fd.currentCluster := fd.firstCluster;
    fd.currentSector := 0;
    var ok := fs.disk.ReadSector(ClusterLba(fs.dataLba, fs.boot.sectorsPerCluster, fd.currentCluster), fd.buffer);
    if !ok {
      return null;
    }
    fd.isOpen := true;
    return fd;
  }

  // FAT_Close.
  method Close(fs: FatSystem, file: OpenFile)
    requires fs.Valid() && (file.handle == ROOT_HANDLE ==> file == fs.root)
    requires file.handle != ROOT_HANDLE ==> 0 <= file.handle < MAX_HANDLES && fs.files[file.handle] == file
    modifies file`position, file`currentCluster, file`isOpen
    ensures file.handle == ROOT_HANDLE ==>
              file.position == 0 && file.currentCluster == file.firstCluster && file.isOpen == old(file.isOpen)
    ensures file.handle != ROOT_HANDLE ==> !file.isOpen
  {
    if file.handle == ROOT_HANDLE {
      file.position := 0;
      fs.root.currentCluster := fs.root.firstCluster;
    } else {
      fs.files[file.handle].isOpen := false;
    }
  }

  // A freshly opened handle on a chain is ready to deliver the chain.
  lemma OpenedIsReading(v: Volume, file: OpenFile, raw: RawEntry)
    requires v.Valid() && HasChain(v, FirstClusterOf(raw)) && Opens(file, raw)
    requires file.buffer.Length == SECTOR_SIZE
    requires v.ClusterToLba(FirstClusterOf(raw)) < |v.sectors| ==>
               file.buffer[..] == v.sectors[v.ClusterToLba(FirstClusterOf(raw))]
    ensures file.Reading(v, Chain(ChainOf(v, FirstClusterOf(raw))))
  {
    var chain := ChainOf(v, FirstClusterOf(raw));
    MulLe(1, |chain|, v.spc);
    v.TrackedSector(chain, 0, 0, 0);
  }

  // The root directory, with the next read at its first byte.
  ghost predicate RootFresh(fs: FatSystem)
    reads fs, fs.root, fs.root.buffer
  {
    && fs.Vol().Valid()
    && fs.root.isDirectory && fs.root.position == 0
    && fs.root.firstCluster == fs.Vol().rootLba
    && fs.root.Reading(fs.Vol(), RootDir)
  }

  // FAT_Close rewinds the root without reloading its buffer: all that can be
  // missing is the first sector.
  lemma RewoundRoot(fs: FatSystem)
    requires fs.Valid() && fs.Vol().Valid()
    requires fs.root.handle == ROOT_HANDLE && fs.root.isDirectory && fs.root.size == fs.Vol().rootBytes
    requires fs.root.position == 0 && fs.root.currentCluster == fs.root.firstCluster == fs.Vol().rootLba
    ensures RootFresh(fs) <==> fs.root.buffer[..] == fs.disk.sectors[fs.Vol().rootLba]
  {
    var v := fs.Vol();
    assert Lbas(v, RootDir)[0] == v.rootLba;
    assert |Stream(v, RootDir)| > 0;
  }

  // Streams are far shorter than 32-bit positions reach.
  lemma StreamBound(v: Volume, src: Source)
    requires Readable(v, src)
    ensures |Stream(v, src)| < 0x4000_0000
  {
    match src
    case RootDir =>
    case Chain(clusters) =>
      LengthBound(v, clusters);
      MulLe(|clusters|, CHAIN_END, v.spc);
  }

  function Sum(counts: seq<nat>): nat {
    if |counts| == 0 then 0 else Sum(counts[..|counts| - 1]) + counts[|counts| - 1]
  }

  // A clipped count stays inside the file, and small counts on small files
  // are clipped to exactly what is left.
  lemma ClippedCount(count: u32, position: u32, size: u32)
    requires position <= size
    ensures !FatSystem.Overruns(false, count, FatSystem.Left(position, size)) ==>
              position + FatSystem.Wanted(false, count, FatSystem.Left(position, size)) <= size
    ensures count < 0x8000 && size < 0x8000 ==>
              && !FatSystem.Overruns(false, count, FatSystem.Left(position, size))
              && FatSystem.Wanted(false, count, FatSystem.Left(position, size)) == Least(count, size - position)
  {
  }

  // With 32 KiB or more left, no count reaches into the last 32 KiB.
  lemma LastPartOutOfReach(count: u32, position: u32, size: u32)
    requires position + 0x8000 <= size && !FatSystem.Overruns(false, count, FatSystem.Left(position, size))
    ensures position + FatSystem.Wanted(false, count, FatSystem.Left(position, size)) + 0x8000 <= size
  {
  }

  // FAT_Read promises the smaller of the count and what is left. The 16-bit
  // `min` keeps the promise exactly when the smaller number fits an int and
  // the larger one, cut to an int, is not below it.
  lemma PromiseKept(count: u32, left: u32)
    ensures var small, large := Least(count, left), if count < left then left else count;
      !FatSystem.Overruns(false, count, left) && FatSystem.Wanted(false, count, left) == small
      <==> small < 0x8000 && Fits(large) && large % 0x1_0000 >= small
  {
  }

  // Reading a whole file in one call, as the loader does with the kernel,
  // works exactly for files shorter than 32 KiB.
  lemma WholeFileInOneRead(size: u32)
    ensures !FatSystem.Overruns(false, size, size) && FatSystem.Wanted(false, size, size) == size <==> size < 0x8000
  {
    PromiseKept(size, size);
  }

  // A file of 40000 bytes: both counts turn negative and the copy overruns.
  lemma FortyThousandBytes()
    ensures FatSystem.Overruns(false, 40000, 40000)
  {
  }

  // What one read of a file delivers: the bytes behind the position, none when
  // the copy overruns, and all that were asked for or are left when both are
  // below 32 KiB.
  ghost predicate PieceOf(s: seq<byte>, position: nat, size: nat, count: nat,
                          piece: seq<byte>, overrun: bool, failed: bool) {
    var limit := Least(size, |s|);
    && position + |piece| <= limit && piece == s[position..position + |piece|]
    && (overrun ==> piece == [])
    && (count < 0x8000 && size < 0x8000 ==> !overrun && (!failed ==> |piece| == Least(count, limit - position)))
    && (position + 0x8000 <= size <= |s| ==> position + |piece| + 0x8000 <= size)
  }

  lemma PieceFromRead(s: seq<byte>, position: u32, size: u32, count: u32, piece: seq<byte>, failed: bool)
    requires position <= Least(size, |s|)
    requires !FatSystem.Overruns(false, count, FatSystem.Left(position, size))
    requires FatSystem.Delivered(s, piece, position, FatSystem.Wanted(false, count, FatSystem.Left(position, size)),
        failed)
    ensures PieceOf(s, position, size, count, piece, false, failed)
  {
    ClippedCount(count, position, size);
    if position + 0x8000 <= size {
      LastPartOutOfReach(count, position, size);
    }
    hide FatSystem.Wanted, FatSystem.Overruns, FatSystem.Left;
  }

  lemma NoPiece(s: seq<byte>, position: u32, size: u32, count: u32)
    requires position <= Least(size, |s|) && FatSystem.Overruns(false, count, FatSystem.Left(position, size))
    ensures PieceOf(s, position, size, count, [], true, false)
  {
    ClippedCount(count, position, size);
    hide FatSystem.Overruns, FatSystem.Left;
  }

  // One read, and what it delivered.
  method ReadPiece(fs: FatSystem, file: OpenFile, count: u32, ghost v: Volume, ghost src: Source)
      returns (piece: seq<byte>, overrun: bool, failed: bool)
    requires fs.disk.Valid() && v == fs.Vol() && file.Reading(v, src) && !file.isDirectory
    modifies file`position, file`currentCluster, file`currentSector, file`size, file.buffer
    ensures fs.disk.reliable ==> !failed
    ensures PieceOf(Stream(v, src), old(file.position), old(file.size), count, piece, overrun, failed)
    ensures !overrun && !failed ==> file.Reading(v, src) && file.position == old(file.position) + |piece|
    ensures !overrun && !failed ==> file.Limit(|Stream(v, src)|) == old(file.Limit(|Stream(v, src)|))
    ensures !overrun && !failed ==> file.size <= old(file.size)
  {
    hide FatSystem.Wanted, FatSystem.Overruns, FatSystem.Left, FatSystem.Delivered, Stream, Lbas, Readable,
         OpenFile.Reading, Volume.IsChain, PieceOf;
    PositionInLimit(file, v, src);
    ghost var position, size := file.position, file.size;
    var out := new byte[count];
    var bytesRead;
    bytesRead, overrun, failed := fs.Read(file, count, out, v, src);
    if overrun {
      piece := [];
      NoPiece(Stream(v, src), position, size, count);
    } else {
      piece := out[..bytesRead];
      PieceFromRead(Stream(v, src), position, size, count, piece, failed);
    }
  }

  lemma PositionInLimit(file: OpenFile, v: Volume, src: Source)
    requires file.Reading(v, src)
    ensures Readable(v, src) && file.position <= file.Limit(|Stream(v, src)|) <= |Stream(v, src)|
  {
  }

  // A caller reading a file piece by piece. Whatever the counts, the pieces
  // are, in order, the bytes of the file from the starting position on; and
  // when nothing failed, as many as were asked for or are left, if that is
  // below 32 KiB. From 32 KiB on, no run of reads ever reaches the last 32 KiB.
  method ReadPieces(fs: FatSystem, file: OpenFile, counts: seq<u32>, ghost v: Volume, ghost src: Source)
      returns (data: seq<byte>, overrun: bool, failed: bool)
    requires fs.disk.Valid() && v == fs.Vol() && file.Reading(v, src) && !file.isDirectory
    modifies file`position, file`currentCluster, file`currentSector, file`size, file.buffer
    ensures fs.disk.reliable ==> !failed
    ensures PiecesOf(Stream(v, src), old(file.position), old(file.size), counts, data, overrun, failed)
  {
    hide OpenFile.Placed, Stream, Lbas, PieceOf, PiecesSoFar;
    ghost var s, from, size := Stream(v, src), file.position, file.size;
    PositionInLimit(file, v, src);
    data, overrun, failed := [], false, false;
    NoPiecesYet(s, from, size);
    var n := 0;
    assert counts[..0] == [];
    while n < |counts|
      invariant 0 <= n <= |counts|
      invariant file.Reading(v, src) && !file.isDirectory && !overrun && !failed
      invariant PiecesSoFar(s, from, size, counts[..n], data, file.position, file.size)
    {
      ghost var position, before := file.position, file.size;
      var piece;
      PositionInLimit(file, v, src);
      piece, overrun, failed := ReadPiece(fs, file, counts[n], v, src);
      assert counts[..n + 1] == counts[..n] + [counts[n]];
      if overrun || failed {
        LastPiece(s, from, size, counts, n, data, position, before, piece, overrun, failed);
        data := data + piece;
        return;
      }
      PositionInLimit(file, v, src);
      OnePieceMore(s, from, size, counts[..n], counts[n], data, position, before, piece, file.position, file.size);
      data, n := data + piece, n + 1;
    }
    assert counts[..|counts|] == counts;
    AllPieces(s, from, size, counts, data, file.position, file.size);
  }

  // What a run of reads delivers.
  ghost predicate PiecesOf(s: seq<byte>, position: nat, size: nat, counts: seq<u32>,
                           data: seq<byte>, overrun: bool, failed: bool) {
    var limit := Least(size, |s|);
    && position + |data| <= limit && data == s[position..position + |data|]
    && (AllSmall(counts) && size < 0x8000 ==>
          !overrun && (!failed ==> |data| == Least(Sum(counts), limit - position)))
    && (position + 0x8000 <= size <= |s| ==> position + |data| + 0x8000 <= size)
  }

  // Between two reads: what has been delivered, and where the handle stands.
  ghost predicate PiecesSoFar(s: seq<byte>, from: nat, size: nat, counts: seq<u32>, data: seq<byte>,
                              position: nat, sizeNow: nat) {
    && PiecesOf(s, from, size, counts, data, false, false)
    && position == from + |data| && sizeNow <= size && Least(sizeNow, |s|) == Least(size, |s|)
  }

  lemma NoPiecesYet(s: seq<byte>, from: nat, size: nat)
    requires from <= Least(size, |s|)
    ensures PiecesSoFar(s, from, size, [], [], from, size)
  {
  }

  lemma OnePieceMore(s: seq<byte>, from: nat, size: nat, counts: seq<u32>, count: u32, data: seq<byte>,
                     position: nat, sizeNow: nat, piece: seq<byte>, position': nat, sizeNow': nat)
    requires PiecesSoFar(s, from, size, counts, data, position, sizeNow)
    requires PieceOf(s, position, sizeNow, count, piece, false, false)
    requires position' == position + |piece| && sizeNow' <= sizeNow && Least(sizeNow', |s|) == Least(sizeNow, |s|)
    ensures PiecesSoFar(s, from, size, counts + [count], data + piece, position', sizeNow')
  {
    var all := counts + [count];
    assert all[..|counts|] == counts && all[|counts|] == count;
    assert AllSmall(all) ==> AllSmall(counts) && count < 0x8000 by {
      assert forall i :: 0 <= i < |counts| ==> counts[i] == all[i];
    }
    assert Sum(all) == Sum(counts) + count;
    assert s[from..position] + piece == s[from..position'];
    hide AllSmall, Sum;
  }

  // The read that fails, or overruns, ends the run.
  lemma LastPiece(s: seq<byte>, from: nat, size: nat, counts: seq<u32>, n: nat, data: seq<byte>,
                  position: nat, sizeNow: nat, piece: seq<byte>, overrun: bool, failed: bool)
    requires n < |counts| && PiecesSoFar(s, from, size, counts[..n], data, position, sizeNow)
    requires PieceOf(s, position, sizeNow, counts[n], piece, overrun, failed) && (overrun || failed)
    ensures PiecesOf(s, from, size, counts, data + piece, overrun, failed)
  {
    assert s[from..position] + piece == s[from..position + |piece|];
    assert AllSmall(counts) ==> counts[n] < 0x8000;
    hide AllSmall, Sum;
  }

  lemma AllPieces(s: seq<byte>, from: nat, size: nat, counts: seq<u32>, data: seq<byte>, position: nat, sizeNow: nat)
    requires PiecesSoFar(s, from, size, counts, data, position, sizeNow)
    ensures PiecesOf(s, from, size, counts, data, false, false)
  {
  }

  ghost predicate AllSmall(counts: seq<u32>) {
    forall i :: 0 <= i < |counts| ==> counts[i] < 0x8000
  }
}
