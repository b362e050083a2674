// The stage 2 FAT12 driver: buffered, handle-based reading of files and
// directories over cluster chains.
module FatDriver {
  import opened Words
  import opened Arithmetic
  import opened Disk
  import opened FatTable
  import opened FatVolume

  const ROOT_HANDLE: int := -1
  const MAX_HANDLES: nat := 10

  // The fields of the boot sector the driver uses.
  datatype BootSector = BootSector(
    bytesPerSector: u16, sectorsPerCluster: byte, reservedSectors: u16,
    fatCount: byte, dirEntryCount: u16, sectorsPerFat: u16)

  // What an open handle reads from.
  datatype Source = RootDir | Chain(clusters: seq<nat>)

  ghost predicate Readable(v: Volume, src: Source) {
    v.Valid() && (src.Chain? ==> v.IsChain(src.clusters))
  }

  ghost function Lbas(v: Volume, src: Source): (lbas: seq<nat>)
    requires Readable(v, src)
    ensures |lbas| >= 1
    ensures forall k :: 0 <= k < |lbas| ==> lbas[k] < |v.sectors|
  {
    match src
    case RootDir => v.RootLbas()
    case Chain(clusters) =>
      MulLe(1, |clusters|, v.spc);
      v.ChainLbasExist(clusters);
      v.ChainLbas(clusters)
  }

  // Every byte reachable through a source, in reading order.
  ghost function Stream(v: Volume, src: Source): seq<byte>
    requires Readable(v, src)
  {
    v.Bytes(Lbas(v, src))
  }

  class OpenFile {
    const buffer: array<byte>
    var handle: int
    var isDirectory: bool
    var position: u32
    var size: u32
    var isOpen: bool
    var firstCluster: u32
    var currentCluster: u32
    var currentSector: u32

    constructor ()
      ensures !isOpen && fresh(buffer) && buffer.Length == SECTOR_SIZE
    {
      buffer := new byte[SECTOR_SIZE](_ => 0);
      handle, isDirectory, position, size, isOpen := 0, false, 0, 0, false;
      firstCluster, currentCluster, currentSector := 0, 0, 0;
    }

    // Cluster and sector cursors stand on sector k of the source.
    ghost predicate Tracks(v: Volume, src: Source, k: nat)
      reads this
    {
      match src
      case RootDir => currentCluster == v.rootLba + k
      case Chain(clusters) => v.ChainTracks(clusters, currentCluster, currentSector, k)
    }

    // The buffer holds the sector the position lies in.
    ghost predicate Live(v: Volume, src: Source, lbas: seq<nat>)
      reads this, buffer
    {
      var k := position / SECTOR_SIZE;
      && k < |lbas| && lbas[k] < |v.sectors|
      && Tracks(v, src, k)
      && buffer[..] == v.sectors[lbas[k]]
    }

    // The root directory's cursor and buffer: behind its last sector they stay
    // where they are.
    ghost predicate AtRootSector(v: Volume)
      requires v.Valid()
      reads this, buffer
    {
      var sector := v.rootLba + Least(position / SECTOR_SIZE, |v.RootLbas()| - 1);
      currentCluster == sector && buffer[..] == v.sectors[sector]
    }

    // Where reading stops in a stream of the given length: a file at its size
    // or at the end of its chain, whichever is first, a directory only at the
    // end of its sectors.
    ghost function Limit(length: nat): nat
      reads this
    {
      if isDirectory then length else Least(size, length)
    }

    // The dynamic half of the cursor invariant, over the source's sectors.
    ghost predicate Placed(v: Volume, src: Source, lbas: seq<nat>)
      reads this, buffer
    {
      var length := SECTOR_SIZE * |lbas|;
      && buffer.Length == SECTOR_SIZE
      && position <= Limit(length)
      && (position < Limit(length) ==> Live(v, src, lbas))
      && (!isDirectory && position == length ==> size == position)
      && (src.RootDir? ==> handle == ROOT_HANDLE && size == v.rootBytes && v.Valid() && AtRootSector(v))
      && (src.Chain? ==> handle != ROOT_HANDLE)
    }

    // The cursor invariant every successful read keeps.
    ghost predicate Reading(v: Volume, src: Source)
      reads this, buffer
    {
      Readable(v, src) && Placed(v, src, Lbas(v, src))
    }
  }

  // `min` takes and returns 16-bit ints; its callers pass 32-bit counts.
  function Min16(a: u32, b: u32): u32 {
    Least(Int16(a), Int16(b)) % 0x1_0000_0000
  }

  // Whether a count survives the conversion to a non-negative 16-bit int.
  predicate Fits(count: u32) {
    count % 0x1_0000 < 0x8000
  }

  method Min(a: u32, b: u32) returns (m: u32)
    ensures m == Min16(a, b)
    ensures a < 0x8000 && b < 0x8000 ==> m == Least(a, b)
  {
    m := Least(Int16(a), Int16(b)) % 0x1_0000_0000;
  }

  lemma Min16Meaning(a: u32, b: u32)
    ensures Fits(a) && Fits(b) ==> Min16(a, b) == Least(a % 0x1_0000, b % 0x1_0000) < 0x8000
    ensures !(Fits(a) && Fits(b)) ==> Min16(a, b) >= 0xFFFF_8000
  {
  }

  method CopyBytes(src: array<byte>, from: nat, dst: array<byte>, to: nat, n: nat)
    requires src != dst && from + n <= src.Length && to + n <= dst.Length
    modifies dst
    ensures dst[..to] == old(dst[..to])
    ensures dst[to..to + n] == src[from..from + n]
  {
    for i := 0 to n
      invariant dst[..to] == old(dst[..to])
      invariant dst[to..to + i] == src[from..from + i]
    {
      dst[to + i] := src[from + i];
      assert src[from..from + i + 1] == src[from..from + i] + [src[from + i]];
      assert dst[to..to + i + 1] == dst[to..to + i] + [dst[to + i]];
    }
  }

  // Appending the bytes of one sector extends a slice of the stream.
  lemma SliceGrows(v: Volume, lbas: seq<nat>, p: nat, q: nat, take: nat, buffer: seq<byte>)
    requires forall k :: 0 <= k < |lbas| ==> lbas[k] < |v.sectors|
    requires p <= q && q / SECTOR_SIZE < |lbas| && q % SECTOR_SIZE + take <= SECTOR_SIZE
    requires buffer == v.sectors[lbas[q / SECTOR_SIZE]]
    ensures q + take <= |v.Bytes(lbas)|
    ensures v.Bytes(lbas)[p..q] + buffer[q % SECTOR_SIZE..q % SECTOR_SIZE + take]
            == v.Bytes(lbas)[p..q + take]
  {
    var s, r := v.Bytes(lbas), q % SECTOR_SIZE;
    var piece, chunk := s[q..q + take], buffer[r..r + take];
    forall j | 0 <= j < take ensures piece[j] == chunk[j] {
      DivModUnique(q + j, SECTOR_SIZE, q / SECTOR_SIZE, r + j);
    }
    assert piece == chunk;
    assert s[p..q + take] == s[p..q] + s[q..q + take];
  }

  ghost predicate Separate(files: seq<OpenFile>) {
    && (forall i :: 0 <= i < |files| ==> files[i].buffer.Length == SECTOR_SIZE)
    && (forall i, j :: 0 <= i < j < |files| ==> files[i] != files[j] && files[i].buffer != files[j].buffer)
  }

  lemma InWord(x: nat)
    requires x < 0x1_0000_0000
    ensures FatSystem.Wrapped(x) == x
  {
  }

  // The root directory's size ends behind its last sector.
  lemma RootEnds(v: Volume, k: nat)
    requires v.Valid()
    ensures |v.RootLbas()| > 0 && v.rootLba + |v.RootLbas()| <= |v.sectors| <= 0x1_0000
    ensures SECTOR_SIZE * (k + 1) >= v.rootBytes <==> k + 1 >= |v.RootLbas()|
  {
  }

  class FatSystem {
    const disk: Drive
    var boot: BootSector
    var fat: seq<byte>
    var dataLba: u32
    const root: OpenFile
    const files: seq<OpenFile>

    // The eleven handles are separate objects with separate buffers.
    ghost predicate Valid() {
      && disk.Valid()
      && |files| == MAX_HANDLES
      && root.buffer.Length == SECTOR_SIZE
      && (forall i :: 0 <= i < |files| ==> files[i] != root && files[i].buffer != root.buffer)
      && Separate(files)
    }

    constructor (disk: Drive)
      requires disk.Valid()
      ensures Valid() && this.disk == disk
    {
      var opening: seq<OpenFile> := [];
      var first := new OpenFile();
      while |opening| < MAX_HANDLES
        invariant |opening| <= MAX_HANDLES && Separate(opening)
        invariant forall i :: 0 <= i < |opening| ==> opening[i] != first && opening[i].buffer != first.buffer
      {
        var next := new OpenFile();
        opening := opening + [next];
      }
      this.disk, root, files := disk, first, opening;
      boot, fat, dataLba := BootSector(0, 0, 0, 0, 0, 0), [], 0;
    }

    ghost function Vol(): Volume
      reads this
    {
      Volume(disk.sectors, fat, boot.sectorsPerCluster, RootLba(boot), RootBytes(boot), dataLba)
    }

    static function RootLba(b: BootSector): u16 {
      var fats: int := b.sectorsPerFat * b.fatCount;
      (b.reservedSectors + fats) % 0x1_0000
    }

    static function RootBytes(b: BootSector): u16 {
      var bytes: int := b.dirEntryCount * 32;
      bytes % 0x1_0000
    }

    // Steps to the next sector after the position has crossed a sector
    // boundary: the second half of the loop in FAT_ReadImpl, first for the
    // root directory, then for a chain, in whatever state the handle is. The
    // result says whether the loop goes on.
    method StepRoot(file: OpenFile) returns (more: bool, failed: bool)
      requires disk.Valid() && file.buffer.Length == SECTOR_SIZE
      modifies file`currentCluster, file.buffer
      ensures RootStep(file.position, file.size, old(file.currentCluster), old(file.buffer[..]),
                       file.currentCluster, file.buffer[..], more, failed)
    {
      if file.position >= file.size {
        return false, false;
      }
      file.currentCluster := (file.currentCluster + 1) % 0x1_0000_0000;
      more := disk.ReadSector(file.currentCluster, file.buffer);
      failed := !more;
    }

    // Before its size the next sector is loaded, or fails to be; from there on
    // nothing moves.
    ghost predicate RootStep(position: nat, size: nat, cluster: nat, buffer: seq<byte>,
                             cluster': nat, buffer': seq<byte>, more: bool, failed: bool)
      reads this
    {
      if position >= size then !more && !failed && cluster' == cluster && buffer' == buffer
      else cluster' == Wrapped(cluster + 1) && more == !failed && Loads(cluster', buffer', more)
    }

    // An entry outside the table is whatever the memory behind it holds.
    method StepChain(file: OpenFile, ghost v: Volume) returns (more: bool, failed: bool)
      requires disk.Valid() && v == Vol() && file.buffer.Length == SECTOR_SIZE
      modifies file`currentCluster, file`currentSector, file`size, file.buffer
      ensures InTable(v.fat, old(file.currentCluster)) && old(file.currentSector) < v.spc ==>
                var (cluster, sector) := v.StepCursors(old(file.currentCluster), old(file.currentSector));
                file.currentCluster == cluster && file.currentSector == sector
      ensures file.currentCluster >= CHAIN_END ==>
                !more && !failed && file.size == file.position && file.buffer[..] == old(file.buffer[..])
      ensures file.currentCluster < CHAIN_END ==>
                && file.size == old(file.size) && more == !failed
                && Loads(Wrapped(v.ClusterSector(file.currentCluster, file.currentSector)), file.buffer[..], more)
    {
      hide NextCluster, InTable, ClusterLba;
      file.currentSector := Wrapped(file.currentSector + 1);
      if file.currentSector >= boot.sectorsPerCluster {
        file.currentSector := 0;
        var outside: u12 :| true;
        file.currentCluster :=
          if InTable(fat, file.currentCluster) then NextCluster(fat, file.currentCluster) else outside;
      }
      if file.currentCluster >= CHAIN_END {
        file.size := file.position;
        return false, false;
      }
      var lba: int := ClusterLba(dataLba, boot.sectorsPerCluster, file.currentCluster);
      more := disk.ReadSector(Wrapped(lba + file.currentSector), file.buffer);
      failed := !more;
    }

    static function Wrapped(x: nat): u32 {
      x % 0x1_0000_0000
    }

    // What reading a sector of the disk comes to.
    ghost predicate Loads(lba: nat, buffer: seq<byte>, ok: bool)
    {
      lba < |disk.sectors| ==> (disk.reliable ==> ok) && (ok ==> buffer == disk.sectors[lba])
    }

    // Within the root directory, and at its end, where the buffer is kept.
    method NextRootSector(file: OpenFile, ghost v: Volume, ghost k: nat)
        returns (more: bool, failed: bool)
      requires disk.Valid() && v == Vol() && v.Valid()
      requires file.buffer.Length == SECTOR_SIZE && file.size == v.rootBytes
      requires file.currentCluster == v.rootLba + Least(k, |v.RootLbas()| - 1)
      requires file.position == SECTOR_SIZE * (k + 1)
      modifies file`currentCluster, file.buffer
      ensures disk.reliable ==> !failed
      ensures failed ==> !more
      ensures !failed ==> (more <==> k + 1 < |v.RootLbas()|)
      ensures !failed ==> file.currentCluster == v.rootLba + Least(k + 1, |v.RootLbas()| - 1)
      ensures more ==> file.buffer[..] == v.sectors[v.rootLba + k + 1]
      ensures !more && !failed ==> file.buffer[..] == old(file.buffer[..])
    {
      hide Volume.Valid, Volume.RootLbas, Wrapped;
      RootEnds(v, k);
      if k + 1 < |v.RootLbas()| {
        InWord(v.rootLba + k + 1);
      }
      more, failed := StepRoot(file);
    }

    // Within a chain, and at its end, where the size is cut to the position.
    method NextChainSector(file: OpenFile, ghost v: Volume, ghost src: Source, ghost k: nat)
        returns (more: bool, failed: bool)
      requires disk.Valid() && v == Vol() && Readable(v, src) && src.Chain?
      requires file.buffer.Length == SECTOR_SIZE
      requires k < |Lbas(v, src)| && file.Tracks(v, src, k)
      requires file.position == SECTOR_SIZE * (k + 1)
      modifies file`currentCluster, file`currentSector, file`size, file.buffer
      ensures disk.reliable ==> !failed
      ensures failed ==> !more
      ensures !failed ==> (more <==> k + 1 < |Lbas(v, src)|)
      ensures more ==> file.Tracks(v, src, k + 1)
      ensures more ==> file.buffer[..] == v.sectors[Lbas(v, src)[k + 1]]
      ensures file.size == if !more && !failed then file.position else old(file.size)
    {
      hide Volume.IsChain, Volume.ChainTracks, Volume.StepCursors, Volume.ClusterSector, Volume.ChainLbas, Wrapped;
      v.StepFollowsChain(src.clusters, file.currentCluster, file.currentSector, k);
      v.SectorInCluster(src.clusters, file.currentCluster, file.currentSector, k);
      NoWrap(v, file.currentCluster, file.currentSector);
      more, failed := StepChain(file, v);
    }

    // The sector behind the cursors' next one is on the disk, or there is none.
    lemma NoWrap(v: Volume, cluster: nat, s: nat)
      requires InTable(v.fat, cluster) && |v.sectors| <= 0x1_0000
      ensures var (cluster', s') := v.StepCursors(cluster, s);
        v.ClusterSector(cluster', s') < |v.sectors| ==>
          Wrapped(v.ClusterSector(cluster', s')) == v.ClusterSector(cluster', s')
    {
    }

    method NextSector(file: OpenFile, ghost v: Volume, ghost src: Source, ghost lbas: seq<nat>, ghost k: nat)
        returns (more: bool, failed: bool)
      requires disk.Valid() && v == Vol() && Readable(v, src) && lbas == Lbas(v, src)
      requires src.RootDir? ==> file.handle == ROOT_HANDLE && file.size == v.rootBytes
      requires src.Chain? ==> file.handle != ROOT_HANDLE
      requires file.buffer.Length == SECTOR_SIZE
      requires k < |lbas| && file.Tracks(v, src, k)
      requires file.position == SECTOR_SIZE * (k + 1)
      requires src.RootDir? ==> file.buffer[..] == v.sectors[lbas[k]]
      requires !file.isDirectory ==> file.position <= file.size
      modifies file`currentCluster, file`currentSector, file`size, file.buffer
      ensures disk.reliable ==> !failed
      ensures failed ==> !more
      ensures !failed ==> (more <==> k + 1 < |lbas|)
      ensures !failed ==> file.Placed(v, src, lbas)
      ensures file.size == if !more && !failed && src.Chain? then file.position else old(file.size)
    {
      if file.handle == ROOT_HANDLE {
        more, failed := NextRootSector(file, v, k);
      } else {
        more, failed := NextChainSector(file, v, src, k);
      }
    }

    // The first n bytes of the output are the stream's from a position on.
    static ghost predicate Holds(out: array<byte>, n: nat, s: seq<byte>, from: nat)
      reads out
    {
      n <= out.Length && from + n <= |s| && out[..n] == s[from..from + n]
    }

    // The copy from the buffer extends what the output holds.
    method CopyChunk(buffer: array<byte>, position: u32, take: u32, out: array<byte>, bytesRead: u32,
                     ghost v: Volume, ghost lbas: seq<nat>, ghost from: nat)
      requires buffer != out && buffer.Length == SECTOR_SIZE && bytesRead + take <= out.Length
      requires forall k :: 0 <= k < |lbas| ==> lbas[k] < |v.sectors|
      requires position / SECTOR_SIZE < |lbas| && buffer[..] == v.sectors[lbas[position / SECTOR_SIZE]]
      requires position % SECTOR_SIZE + take <= SECTOR_SIZE
      requires position == from + bytesRead && Holds(out, bytesRead, v.Bytes(lbas), from)
      modifies out
      ensures Holds(out, bytesRead + take, v.Bytes(lbas), from)
    {
      SliceGrows(v, lbas, from, position, take, buffer[..]);
      CopyBytes(buffer, position % SECTOR_SIZE, out, bytesRead, take);
      assert out[..bytesRead + take] == out[..bytesRead] + out[bytesRead..bytesRead + take];
    }

    // One pass of the loop in FAT_ReadImpl: copy from the buffer, and load the
    // next sector when the buffer is used up.
    method ReadChunk(file: OpenFile, take: u32, out: array<byte>, bytesRead: u32,
                     ghost v: Volume, ghost src: Source, ghost lbas: seq<nat>, ghost from: nat)
        returns (more: bool, failed: bool)
      requires disk.Valid() && v == Vol() && Readable(v, src) && lbas == Lbas(v, src)
      requires file.Placed(v, src, lbas) && file.position < SECTOR_SIZE * |lbas|
      requires 0 < take <= SECTOR_SIZE - file.position % SECTOR_SIZE
      requires file.position + take <= if file.isDirectory then 0xFFFF_FFFF else file.size
      requires out != file.buffer && bytesRead + take <= out.Length && bytesRead + take < 0x1_0000_0000
      requires file.position == from + bytesRead && Holds(out, bytesRead, v.Bytes(lbas), from)
      modifies file`position, file`currentCluster, file`currentSector, file`size, file.buffer, out
      ensures disk.reliable ==> !failed
      ensures failed ==> !more
      ensures file.position == old(file.position) + take <= SECTOR_SIZE * |lbas|
      ensures Holds(out, bytesRead + take, v.Bytes(lbas), from)
      ensures !failed ==> file.Placed(v, src, lbas)
      ensures !failed ==> (more <==> file.position < SECTOR_SIZE * |lbas|)
      ensures failed ==> file.position % SECTOR_SIZE == 0
      ensures file.size == if !failed && !more && src.Chain? then file.position else old(file.size)
    {
      hide Holds, Volume.Bytes;
      ghost var k := file.position / SECTOR_SIZE;
      var left := SECTOR_SIZE - file.position % SECTOR_SIZE;
      assert file.position + left == SECTOR_SIZE * (k + 1) <= SECTOR_SIZE * |lbas|;
      CopyChunk(file.buffer, file.position, take, out, bytesRead, v, lbas, from);
      file.position := file.position + take;
      more, failed := true, false;
      if left == take {
        WholeSectors(k + 1);
        more, failed := NextSector(file, v, src, lbas, k);
        assert file.position == SECTOR_SIZE * (k + 1);
      } else {
        assert file.position / SECTOR_SIZE == k;
      }
    }

    lemma WholeSectors(k: nat)
      ensures SECTOR_SIZE * k % SECTOR_SIZE == 0
    {
    }

    static function Left(position: u32, size: u32): u32 {
      (size - position) % 0x1_0000_0000
    }

    // The number of bytes a call sets out to deliver. FAT_ReadImpl clips a
    // file's count to what is left of it, by way of 16-bit ints.
    static function Wanted(isDirectory: bool, byteCount: u32, left: u32): nat {
      if isDirectory then byteCount
      else Least(byteCount % 0x1_0000, left % 0x1_0000)
    }

    // Whether the copy loop would run past the sector buffer.
    static predicate Overruns(isDirectory: bool, byteCount: u32, left: u32) {
      if isDirectory then !Fits(byteCount) else !(Fits(byteCount) && Fits(left))
    }

    // How much one pass copies: up to the end of the buffer, unless the count
    // has turned negative on its way through `min`.
    method Take(position: u32, count: u32) returns (take: u32)
      ensures count < 0x8000 ==> take == Least(count, SECTOR_SIZE - position % SECTOR_SIZE)
      ensures !Fits(count) ==> take >= 0xFFFF_8000
    {
      Min16Meaning(count, SECTOR_SIZE - position % SECTOR_SIZE);
      take := Min(count, SECTOR_SIZE - position % SECTOR_SIZE);
    }

    // Data taken from a position of a stream: always the bytes that follow,
    // and all that were wanted or are left when no sector failed.
    static ghost predicate Delivered(s: seq<byte>, data: seq<byte>, from: nat, wanted: nat, failed: bool) {
      && from + |data| <= Least(from + wanted, |s|)
      && data == s[from..from + |data|]
      && (!failed ==> from + |data| == Least(from + wanted, |s|))
    }

    lemma HoldsNothing(out: array<byte>, s: seq<byte>, from: nat)
      requires from <= |s|
      ensures Holds(out, 0, s, from)
    {
    }

    // The loop of FAT_ReadImpl, for a count that stayed non-negative.
    method ReadLoop(file: OpenFile, wanted: u32, out: array<byte>,
                    ghost v: Volume, ghost src: Source, ghost lbas: seq<nat>)
        returns (bytesRead: u32, failed: bool)
      requires disk.Valid() && v == Vol() && Readable(v, src) && lbas == Lbas(v, src)
      requires file.Placed(v, src, lbas) && out != file.buffer
      requires wanted < 0x8000 && wanted <= out.Length
      requires file.position <= SECTOR_SIZE * |lbas|
      requires wanted > 0 ==> file.position < SECTOR_SIZE * |lbas|
      requires file.position + wanted <= if file.isDirectory then 0xFFFF_FFFF else file.size
      modifies file`position, file`currentCluster, file`currentSector, file`size, file.buffer, out
      ensures disk.reliable ==> !failed
      ensures file.position == old(file.position) + bytesRead && bytesRead <= wanted
      ensures !failed ==> bytesRead == wanted || file.position == SECTOR_SIZE * |lbas|
      ensures failed ==> bytesRead > 0 && file.position % SECTOR_SIZE == 0
      ensures Holds(out, bytesRead, v.Bytes(lbas), old(file.position))
      ensures !failed ==> file.Placed(v, src, lbas)
      ensures file.size == old(file.size) || (src.Chain? && file.size == file.position == SECTOR_SIZE * |lbas|)
    {
      hide OpenFile.Placed, Readable, Volume.IsChain, Holds, Volume.Bytes, Lbas, Volume.Valid, Partway;
      ghost var from, size := file.position, file.size;
      var count: u32 := wanted;
      bytesRead, failed := 0, false;
      ReadStarts(file, v, src, lbas, out, wanted);
      while count > 0
        invariant Partway(file, v, src, lbas, out, from, size, bytesRead, count)
        invariant bytesRead + count == wanted && !failed
      {
        var take, more;
        take, more, failed := ReadStep(file, count, out, bytesRead, v, src, lbas, from, size);
        bytesRead, count := bytesRead + take, count - take;
        if !more {
          return;
        }
      }
      PartwayMeans(file, v, src, lbas, out, from, size, bytesRead, count);
    }

    // Between two passes: the output holds what has been read, the cursors are
    // in place, and the rest of the count is still inside the file.
    ghost predicate Partway(file: OpenFile, v: Volume, src: Source, lbas: seq<nat>, out: array<byte>,
                            from: nat, size: nat, bytesRead: nat, count: nat)
      reads file, file.buffer, out
    {
      && Readable(v, src) && lbas == Lbas(v, src)
      && file.Placed(v, src, lbas) && file.size == size
      && file.position == from + bytesRead <= SECTOR_SIZE * |lbas|
      && (count > 0 ==> file.position < SECTOR_SIZE * |lbas|)
      && file.position + count <= (if file.isDirectory then 0xFFFF_FFFF else file.size)
      && Holds(out, bytesRead, v.Bytes(lbas), from)
    }

    lemma ReadStarts(file: OpenFile, v: Volume, src: Source, lbas: seq<nat>, out: array<byte>, count: nat)
      requires Readable(v, src) && lbas == Lbas(v, src) && file.Placed(v, src, lbas)
      requires file.position <= SECTOR_SIZE * |lbas| && (count > 0 ==> file.position < SECTOR_SIZE * |lbas|)
      requires file.position + count <= if file.isDirectory then 0xFFFF_FFFF else file.size
      ensures Partway(file, v, src, lbas, out, file.position, file.size, 0, count)
    {
      hide OpenFile.Placed, Readable, Lbas, Holds;
      HoldsNothing(out, v.Bytes(lbas), file.position);
    }

    lemma PartwayMeans(file: OpenFile, v: Volume, src: Source, lbas: seq<nat>, out: array<byte>,
                       from: nat, size: nat, bytesRead: nat, count: nat)
      requires Partway(file, v, src, lbas, out, from, size, bytesRead, count)
      ensures Readable(v, src) && lbas == Lbas(v, src) && file.Placed(v, src, lbas)
      ensures file.size == size && file.position == from + bytesRead
      ensures Holds(out, bytesRead, v.Bytes(lbas), from)
    {
    }

    method ReadStep(file: OpenFile, count: u32, out: array<byte>, bytesRead: u32, ghost v: Volume,
                    ghost src: Source, ghost lbas: seq<nat>, ghost from: nat, ghost size: nat)
        returns (take: u32, more: bool, failed: bool)
      requires disk.Valid() && v == Vol() && out != file.buffer
      requires 0 < count < 0x8000 && bytesRead + count <= out.Length && bytesRead + count < 0x8000
      requires Partway(file, v, src, lbas, out, from, size, bytesRead, count)
      modifies file`position, file`currentCluster, file`currentSector, file`size, file.buffer, out
      ensures 0 < take <= count && (disk.reliable ==> !failed) && (more ==> !failed)
      ensures Readable(v, src) && lbas == Lbas(v, src)
      ensures file.position == from + bytesRead + take && Holds(out, bytesRead + take, v.Bytes(lbas), from)
      ensures more ==> Partway(file, v, src, lbas, out, from, size, bytesRead + take, count - take)
      ensures !more && !failed ==> file.position == SECTOR_SIZE * |lbas| && file.Placed(v, src, lbas)
      ensures failed ==> file.position % SECTOR_SIZE == 0
      ensures file.size == size || (src.Chain? && file.size == file.position == SECTOR_SIZE * |lbas|)
    {
      hide OpenFile.Placed, Readable, Volume.IsChain, Holds, Volume.Bytes, Lbas, Volume.Valid;
      take := Take(file.position, count);
      more, failed := ReadChunk(file, take, out, bytesRead, v, src, lbas, from);
    }

    // "Do not read past the end of the file": the clipping in FAT_ReadImpl, and
    // whether the first copy would leave the buffer.
    method Clip(isDirectory: bool, byteCount: u32, position: u32, size: u32) returns (count: u32, overrun: bool)
      requires if isDirectory then byteCount < 0x1_0000 else position <= size
      ensures overrun <==> Overruns(isDirectory, byteCount, Left(position, size))
      ensures !overrun ==>
                && count == Wanted(isDirectory, byteCount, Left(position, size)) <= byteCount && count < 0x8000
                && (!isDirectory ==> position + count <= size)
    {
      count := byteCount;
      if !isDirectory {
        Min16Meaning(byteCount, Left(position, size));
        count := Min(byteCount, Left(position, size));
      }
      var take := Take(position, count);
      overrun := take > SECTOR_SIZE;
    }

    // From 64 KiB on a directory is not even read wrongly: a count that is a
    // multiple of that takes nothing, and the loop stands still.
    lemma DirectoryReadStalls(count: u32, left: u32)
      requires count % 0x1_0000 == 0 && 0 < left <= SECTOR_SIZE
      ensures Min16(count, left) == 0
    {
    }

    // FAT_ReadImpl. A call ends early when a sector cannot be read (failed),
    // behind the last whole sector, or where the source ends. The copy past the buffer (overrun) is not modelled.
    method Read(file: OpenFile, byteCount: u32, out: array<byte>, ghost v: Volume, ghost src: Source)
        returns (bytesRead: u32, overrun: bool, failed: bool)
      requires disk.Valid() && v == Vol() && file.Reading(v, src)
      requires out != file.buffer && byteCount <= out.Length
      requires file.isDirectory ==> byteCount < 0x1_0000
      requires file.isDirectory ==> file.position < file.Limit(|Stream(v, src)|) < 0x8000_0000
      modifies file`position, file`currentCluster, file`currentSector, file`size, file.buffer, out
      ensures disk.reliable ==> !failed
      ensures overrun <==> Overruns(file.isDirectory, byteCount, Left(old(file.position), old(file.size)))
      ensures !overrun ==> bytesRead <= out.Length && file.position == old(file.position) + bytesRead
      ensures !overrun ==>
                Delivered(Stream(v, src), out[..bytesRead], old(file.position),
                          Wanted(file.isDirectory, byteCount, Left(old(file.position), old(file.size))), failed)
      ensures failed ==> !overrun && bytesRead > 0 && file.position % SECTOR_SIZE == 0
      ensures !overrun && !failed ==> file.Reading(v, src)
      ensures !overrun && !failed ==> file.Limit(|Stream(v, src)|) == old(file.Limit(|Stream(v, src)|))
      ensures !overrun && !failed ==> file.size <= old(file.size) || file.isDirectory
      ensures src.RootDir? ==> file.size == old(file.size)
    {
      hide Overruns, Left, Wanted, OpenFile.Placed, Lbas, Readable, Delivered;
      ReadBounds(file, v, src);
      ghost var lbas, s, from := Lbas(v, src), Stream(v, src), file.position;
      var count;
      count, overrun := Clip(file.isDirectory, byteCount, file.position, file.size);
      if overrun {
        return 0, true, false;
      }
      bytesRead, failed := ReadLoop(file, count, out, v, src, Lbas(v, src));
      DeliveredByLoop(s, out, from, bytesRead, count, failed);
    }

    lemma ReadBounds(file: OpenFile, v: Volume, src: Source)
      requires file.Reading(v, src)
      ensures Readable(v, src) && Stream(v, src) == v.Bytes(Lbas(v, src))
          && |Stream(v, src)| == SECTOR_SIZE * |Lbas(v, src)|
      ensures file.position <= file.Limit(|Stream(v, src)|)
      ensures !file.isDirectory && file.position == |Stream(v, src)| ==> file.size == file.position
    {
    }

    lemma DeliveredByLoop(s: seq<byte>, out: array<byte>, from: nat, bytesRead: nat, wanted: nat, failed: bool)
      requires Holds(out, bytesRead, s, from) && bytesRead <= wanted
      requires !failed ==> bytesRead == wanted || from + bytesRead == |s|
      ensures bytesRead <= out.Length && Delivered(s, out[..bytesRead], from, wanted, failed)
    {
    }
  }
}
