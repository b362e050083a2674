// Searching a directory for a name: entry by entry, until one matches.
module FatSearch {
  import opened Words
  import Arithmetic
  import opened Disk
  import opened FatVolume
  import opened FatDriver
  import opened FatNames
  import opened FatFiles

  // Entry number i of a directory's bytes.
  function Slot(s: seq<byte>, i: nat): RawEntry
    requires ENTRY_SIZE * (i + 1) <= |s|
  {
    s[ENTRY_SIZE * i..ENTRY_SIZE * (i + 1)]
  }

  ghost predicate MatchAt(s: seq<byte>, name: seq<byte>, i: nat) {
    ENTRY_SIZE * (i + 1) <= |s| && NameOf(Slot(s, i)) == name
  }

  // The first entry of a directory with the given 11 raw bytes.
  ghost predicate FirstMatch(s: seq<byte>, name: seq<byte>, m: nat) {
    MatchAt(s, name, m) && forall i: nat :: i < m ==> !MatchAt(s, name, i)
  }

  ghost predicate Present(s: seq<byte>, name: seq<byte>) {
    exists m: nat :: FirstMatch(s, name, m)
  }

  ghost function SlotNamed(s: seq<byte>, name: seq<byte>): (m: nat)
    requires Present(s, name)
    ensures FirstMatch(s, name, m) && forall n: nat :: FirstMatch(s, name, n) ==> n == m
  {
    var m: nat :| FirstMatch(s, name, m);
    m
  }

  ghost function EntryNamed(s: seq<byte>, name: seq<byte>): RawEntry
    requires Present(s, name)
  {
    Slot(s, SlotNamed(s, name))
  }

  // An entry that matches makes the name present: there is a first one.
  lemma {:induction false} PresentAt(s: seq<byte>, name: seq<byte>, i: nat)
    requires MatchAt(s, name, i)
    ensures Present(s, name) && SlotNamed(s, name) <= i
  {
    if j: nat :| j < i && MatchAt(s, name, j) {
      PresentAt(s, name, j);
    } else {
      assert FirstMatch(s, name, i);
    }
  }

  // ---- Names the directory holds -----------------------------------------------

  // FAT_ReadEntry on a directory whose end has not been reached.
  method ReadEntry(fs: FatSystem, file: OpenFile, entry: array<byte>, ghost v: Volume, ghost src: Source, ghost i: nat)
      returns (ok: bool, failed: bool)
    requires fs.disk.Valid() && v == fs.Vol() && file.Reading(v, src) && file.isDirectory
    requires entry.Length == ENTRY_SIZE && entry != file.buffer
    requires file.position == ENTRY_SIZE * i && ENTRY_SIZE * (i + 1) <= |Stream(v, src)|
    modifies file`position, file`currentCluster, file`currentSector, file`size, file.buffer, entry
    ensures fs.disk.reliable ==> !failed
    ensures ok && entry[..] == Slot(Stream(v, src), i)
    ensures file.position == ENTRY_SIZE * (i + 1) && (!failed ==> file.Reading(v, src))
    ensures src.RootDir? ==> file.size == old(file.size)
  {
    hide OpenFile.Placed, Stream, Lbas;
    StreamBound(v, src);
    assert file.Limit(|Stream(v, src)|) == |Stream(v, src)|;
    var bytesRead, overrun;
    bytesRead, overrun, failed := fs.Read(file, ENTRY_SIZE, entry, v, src);
    if failed {
      WholeEntryRead(i, bytesRead);
    }
    assert bytesRead == ENTRY_SIZE;
    assert entry[..] == entry[..bytesRead];
    ok := bytesRead == ENTRY_SIZE;
  }

  // A sector that cannot be read is one behind a whole entry.
  lemma WholeEntryRead(i: nat, bytesRead: nat)
    requires 0 < bytesRead <= ENTRY_SIZE && (ENTRY_SIZE * i + bytesRead) % SECTOR_SIZE == 0
    ensures bytesRead == ENTRY_SIZE
  {
    LastOfSixteen(i, bytesRead);
  }

  lemma LastOfSixteen(i: nat, n: nat)
    requires 0 < n <= 32 && (32 * i + n) % 512 == 0
    ensures n == 32
  {
    var q := (32 * i + n) / 512;
    assert n == 32 * (16 * q - i);
  }

  // FAT_FindFile for a name the directory holds, as the conversion encodes it,
  // followed up to the first sector that cannot be read, and found before that
  // if the entry is.
  method FindFile(fs: FatSystem, file: OpenFile, name: seq<byte>, behind: seq<byte>, ghost v: Volume, ghost src: Source)
      returns (found: bool, raw: RawEntry, failed: bool)
    requires |name| + 1 + |behind| == MAX_PATH && 0 !in name
    requires fs.disk.Valid() && v == fs.Vol() && file.Reading(v, src) && file.isDirectory
    requires file.position == 0 && Present(Stream(v, src), EncodedIn(name, behind))
    modifies file`position, file`currentCluster, file`currentSector, file`size, file.buffer
    ensures fs.disk.reliable ==> !failed
    ensures found || failed
    ensures found ==> raw == EntryNamed(Stream(v, src), EncodedIn(name, behind))
    ensures !failed ==> file.position == ENTRY_SIZE * (SlotNamed(Stream(v, src), EncodedIn(name, behind)) + 1)
    ensures !failed ==> file.Reading(v, src)
    ensures src.RootDir? ==> file.size == old(file.size)
  {
    hide OpenFile.Placed, Stream, Lbas, EncodedIn;
    ghost var s, target := Stream(v, src), EncodedIn(name, behind);
    ghost var m := SlotNamed(s, target);
    var fatName := EncodeName(name, behind);
    var entry := new byte[ENTRY_SIZE];
    ghost var i := 0;
    while true
      invariant 0 <= i <= m && fatName[..] == target
      invariant file.Reading(v, src) && file.position == ENTRY_SIZE * i
      invariant src.RootDir? ==> file.size == old(file.size)
      decreases m - i
    {
      var ok;
      ok, failed := ReadEntry(fs, file, entry, v, src, i);
      if !ok {
        assert false; // the code returns "not found" here; see NeverNotFound
      }
      assert entry[..11] == entry[..][..11];
      if fatName[..] == entry[..11] {
        assert MatchAt(s, target, i);
        return true, entry[..], failed;
      }
      if failed {
        return false, entry[..], true;
      }
      assert !MatchAt(s, target, i);
      i := i + 1;
    }
  }

  // ---- Any directory, in any state -----------------------------------------------

  // FAT_ReadEntry on a directory: one pass of the loop in FAT_ReadImpl, for
  // entries do not straddle sectors. Wherever the handle stands, and whatever
  // becomes of the next sector, it delivers what the buffer holds, and counts
  // on in 32 bits. It never returns false.
  method ReadDirectory(fs: FatSystem, file: OpenFile, entry: array<byte>, ghost v: Volume)
      returns (ok: bool, failed: bool, ghost more: bool)
    requires fs.disk.Valid() && v == fs.Vol() && file.isDirectory && file.buffer.Length == SECTOR_SIZE
    requires entry.Length == ENTRY_SIZE && entry != file.buffer && file.position % ENTRY_SIZE == 0
    modifies file`position, file`currentCluster, file`currentSector, file`size, file.buffer, entry
    ensures ok
    ensures var r := old(file.position) % SECTOR_SIZE;
      r + ENTRY_SIZE <= SECTOR_SIZE && entry[..] == old(file.buffer[..])[r..r + ENTRY_SIZE]
    ensures file.position == FatSystem.Wrapped(old(file.position) + ENTRY_SIZE)
    ensures old(file.position) % SECTOR_SIZE + ENTRY_SIZE < SECTOR_SIZE ==>
              !failed && file.currentCluster == old(file.currentCluster) && file.buffer[..] == old(file.buffer[..])
    ensures file.handle == ROOT_HANDLE ==> file.size == old(file.size)
    ensures old(file.position) % SECTOR_SIZE + ENTRY_SIZE == SECTOR_SIZE && file.handle == ROOT_HANDLE ==>
              fs.RootStep(file.position, file.size, old(file.currentCluster), old(file.buffer[..]),
                          file.currentCluster, file.buffer[..], more, failed)
  {
    hide FatSystem.RootStep;
    var left := SECTOR_SIZE - file.position % SECTOR_SIZE;
    WholeEntry(file.position);
    var take := FatDriver.Min(ENTRY_SIZE, left);
    CopyBytes(file.buffer, file.position % SECTOR_SIZE, entry, 0, take);
    assert entry[..] == entry[0..ENTRY_SIZE];
    file.position := FatSystem.Wrapped(file.position + take);
    var goesOn;
    goesOn, failed := true, false;
    if left == take {
      if file.handle == ROOT_HANDLE {
        goesOn, failed := fs.StepRoot(file);
      } else {
        goesOn, failed := fs.StepChain(file, v);
      }
    }
    more := goesOn;
    ok := take == ENTRY_SIZE;
  }

  lemma WholeEntry(position: nat)
    requires position % ENTRY_SIZE == 0
    ensures position % SECTOR_SIZE + ENTRY_SIZE <= SECTOR_SIZE
    ensures FatSystem.Wrapped(position + ENTRY_SIZE) % ENTRY_SIZE == 0
  {
    var q := position / 32;
    Arithmetic.DivModUnique(position, 512, q / 16, 32 * (q % 16));
    WrapsWhole(q + 1);
  }

  lemma WrapsWhole(entries: nat)
    ensures FatSystem.Wrapped(32 * entries) % ENTRY_SIZE == 0
  {
    var rest := entries % 0x800_0000;
    Arithmetic.DivModUnique(32 * entries, 0x1_0000_0000, entries / 0x800_0000, 32 * rest);
    Arithmetic.DivModUnique(32 * rest, 32, rest, 0);
  }

  // FAT_FindFile on any directory, in any state, on any disk, after any number
  // of reads: it has not returned false, and cannot.
  method NeverNotFound(fs: FatSystem, file: OpenFile, name: seq<byte>, behind: seq<byte>, passes: nat, ghost v: Volume)
      returns (found: bool, notFound: bool)
    requires |name| + 1 + |behind| == MAX_PATH && 0 !in name
    requires fs.disk.Valid() && v == fs.Vol() && file.isDirectory && file.buffer.Length == SECTOR_SIZE
    requires file.position % ENTRY_SIZE == 0
    modifies file`position, file`currentCluster, file`currentSector, file`size, file.buffer
    ensures !notFound
  {
    var fatName := EncodeName(name, behind);
    var entry := new byte[ENTRY_SIZE];
    found, notFound := false, false;
    for i := 0 to passes
      invariant !notFound && file.position % ENTRY_SIZE == 0
    {
      WholeEntry(file.position);
      var ok, failed;
      ghost var more;
      ok, failed, more := ReadDirectory(fs, file, entry, v);
      if !ok {
        return false, true;
      }
      if fatName[..] == entry[..11] {
        return true, false;
      }
    }
  }

  // ---- The root directory -----------------------------------------------------------

  // The sector of the i-th entry, or the last.
  ghost function RootSector(v: Volume, i: nat): (sector: nat)
    requires v.Valid()
    ensures sector < |v.sectors|
  {
    v.rootLba + Least(i / 16, |v.RootLbas()| - 1)
  }

  // The root directory after i reads of one entry. Behind its last sector the
  // cursors and the buffer stay where they are.
  ghost predicate RootAfter(fs: FatSystem, v: Volume, i: nat)
    requires v.Valid()
    reads fs.root, fs.root.buffer
  {
    var sector := RootSector(v, i);
    && fs.root.buffer.Length == SECTOR_SIZE && fs.root.size == v.rootBytes
    && fs.root.handle == ROOT_HANDLE && fs.root.isDirectory
    && fs.root.position == ENTRY_SIZE * i
    && fs.root.currentCluster == sector
    && fs.root.buffer[..] == v.sectors[sector]
  }

  // The slot the i-th read of the root directory delivers.
  ghost function RootSlot(v: Volume, i: nat): nat
  {
    Least(i / 16, |v.RootLbas()| - 1) * 16 + i % 16
  }

  // Read 2^27 is the last before the position wraps.
  const READS_BEFORE_WRAP: nat := 0x800_0000

  method ReadRootEntry(fs: FatSystem, entry: array<byte>, ghost v: Volume, ghost i: nat)
      returns (ok: bool, failed: bool)
    requires fs.disk.Valid() && v == fs.Vol() && v.Valid() && RootAfter(fs, v, i)
    requires entry.Length == ENTRY_SIZE && entry != fs.root.buffer && i + 1 < READS_BEFORE_WRAP
    modifies fs.root`position, fs.root`currentCluster, fs.root`currentSector, fs.root`size, fs.root.buffer, entry
    ensures ok && (fs.disk.reliable ==> !failed) && (!failed ==> RootAfter(fs, v, i + 1))
    ensures ENTRY_SIZE * (RootSlot(v, i) + 1) <= |Stream(v, RootDir)|
    ensures entry[..] == Slot(Stream(v, RootDir), RootSlot(v, i))
  {
    hide Stream, Lbas, RootSlot, RootSector, Slot, Volume.Valid, Volume.Bytes, Volume.RootLbas, FatSystem.RootStep,
         FatSystem.Wrapped;
    RootSlotBytes(v, i);
    PositionBehind(i);
    ghost var root, more := fs.root, false;
    ok, failed, more := ReadDirectory(fs, fs.root, entry, v);
    if i % 16 == 15 {
      StaysInRoot(fs, v, i, root.currentCluster, root.buffer[..], more, failed);
    } else {
      SameRootSector(v, i);
    }
  }

  // The position behind the i-th entry.
  lemma PositionBehind(i: nat)
    requires i + 1 < READS_BEFORE_WRAP
    ensures ENTRY_SIZE * i % ENTRY_SIZE == 0
    ensures FatSystem.Wrapped(ENTRY_SIZE * i + ENTRY_SIZE) == ENTRY_SIZE * (i + 1)
    ensures if i % 16 == 15 then ENTRY_SIZE * i % SECTOR_SIZE + ENTRY_SIZE == SECTOR_SIZE
            else ENTRY_SIZE * i % SECTOR_SIZE + ENTRY_SIZE < SECTOR_SIZE
  {
    Arithmetic.DivModUnique(32 * i, 32, i, 0);
    Arithmetic.DivModUnique(32 * i, 512, i / 16, 32 * (i % 16));
    InWord(ENTRY_SIZE * (i + 1));
    hide FatSystem.Wrapped;
  }

  lemma SameRootSector(v: Volume, i: nat)
    requires v.Valid() && i % 16 != 15
    ensures RootSector(v, i + 1) == RootSector(v, i)
  {
    NextEntry(i);
    hide Volume.Valid, Volume.RootLbas;
  }

  // Crossing from a sector of the root directory to the next, or not leaving
  // the last.
  lemma StaysInRoot(fs: FatSystem, v: Volume, i: nat, cluster: nat, buffer: seq<byte>, more: bool, failed: bool)
    requires v == fs.Vol() && v.Valid() && i % 16 == 15
    requires fs.RootStep(ENTRY_SIZE * (i + 1), v.rootBytes, RootSector(v, i), v.sectors[RootSector(v, i)],
                         cluster, buffer, more, failed)
    ensures (fs.disk.reliable ==> !failed)
    ensures !failed ==> cluster == RootSector(v, i + 1) && buffer == v.sectors[cluster]
  {
    var k := i / 16;
    NextEntry(i);
    RootEnds(v, k);
    hide Volume.Valid, Volume.RootLbas, FatSystem.Wrapped;
    if k + 1 < |v.RootLbas()| {
      InWord(v.rootLba + k + 1);
    }
  }

  // The last read before the wrap: the position starts over at 0, which is
  // below the size again, and the cursor leaves the root directory for the
  // sector behind it.
  method RootWraps(fs: FatSystem, entry: array<byte>, ghost v: Volume) returns (ok: bool, failed: bool)
    requires fs.disk.Valid() && v == fs.Vol() && v.Valid() && v.rootBytes > 0
    requires RootAfter(fs, v, READS_BEFORE_WRAP - 1)
    requires entry.Length == ENTRY_SIZE && entry != fs.root.buffer
    modifies fs.root`position, fs.root`currentCluster, fs.root`currentSector, fs.root`size, fs.root.buffer, entry
    ensures ok && fs.root.position == 0 && fs.root.currentCluster == v.rootLba + |v.RootLbas()|
    ensures fs.Loads(v.rootLba + |v.RootLbas()|, fs.root.buffer[..], !failed)
  {
    LongRoot(v);
    hide RootSector;
    AtWrap(fs.root.position);
    hide Volume.Valid, Volume.RootLbas, FatSystem.RootStep, FatSystem.Wrapped;
    ghost var root, more := fs.root, false;
    ok, failed, more := ReadDirectory(fs, fs.root, entry, v);
    LeavesRoot(fs, v, root.currentCluster, root.buffer[..], more, failed);
  }

  lemma LeavesRoot(fs: FatSystem, v: Volume, cluster: nat, buffer: seq<byte>, more: bool, failed: bool)
    requires v == fs.Vol() && v.Valid() && v.rootBytes > 0
    requires var sector := v.rootLba + |v.RootLbas()| - 1;
      fs.RootStep(0, v.rootBytes, sector, v.sectors[sector], cluster, buffer, more, failed)
    ensures cluster == v.rootLba + |v.RootLbas()| && fs.Loads(cluster, buffer, !failed)
  {
    RootEnds(v, 0);
    InWord(v.rootLba + |v.RootLbas()|);
    hide Volume.Valid, Volume.RootLbas, FatSystem.Wrapped;
  }

  lemma AtWrap(position: nat)
    requires position == ENTRY_SIZE * (READS_BEFORE_WRAP - 1)
    ensures position % ENTRY_SIZE == 0 && position % SECTOR_SIZE + ENTRY_SIZE == SECTOR_SIZE
    ensures FatSystem.Wrapped(position + ENTRY_SIZE) == 0
  {
  }

  lemma LongRoot(v: Volume)
    requires v.Valid()
    ensures |v.RootLbas()| > 0 && RootSector(v, READS_BEFORE_WRAP - 1) == v.rootLba + |v.RootLbas()| - 1
  {
  }

  // FAT_FindFile on the root directory from its start, for any name, cut off
  // after a number of reads short of the wrap: it has found the name exactly
  // when one of the entries read matches, and, once every entry has been read,
  // exactly when the directory holds it.
  method SearchRoot(fs: FatSystem, name: seq<byte>, behind: seq<byte>, passes: nat, ghost v: Volume)
      returns (found: bool, failed: bool)
    requires |name| + 1 + |behind| == MAX_PATH && 0 !in name
    requires fs.Valid() && v == fs.Vol() && RootFresh(fs) && passes < READS_BEFORE_WRAP
    modifies fs.root`position, fs.root`currentCluster, fs.root`currentSector, fs.root`size, fs.root.buffer
    ensures fs.disk.reliable ==> !failed
    ensures !failed ==>
              (found <==> exists i: nat ::
                            i < passes && MatchAt(Stream(v, RootDir), EncodedIn(name, behind), RootSlot(v, i)))
    ensures !failed && passes >= 16 * |v.RootLbas()| ==> (found <==>
        Present(Stream(v, RootDir), EncodedIn(name, behind)))
    ensures !failed && !found ==> RootAfter(fs, v, passes)
  {
    hide Stream, Lbas, EncodedIn, Volume.Valid, OpenFile.Placed, RootSlot, MatchAt, Volume.RootLbas, RootFresh, NameOf;
    FreshRootAfterNone(fs, v);
    if passes >= 16 * |v.RootLbas()| {
      AllRead(v, EncodedIn(name, behind), passes);
    }
    var fatName := EncodeName(name, behind);
    var entry := new byte[ENTRY_SIZE];
    found, failed := false, false;
    for i := 0 to passes
      invariant RootAfter(fs, v, i) && fatName[..] == EncodedIn(name, behind) && !found && !failed
      invariant forall j: nat :: j < i ==> !MatchAt(Stream(v, RootDir), EncodedIn(name, behind), RootSlot(v, j))
    {
      var ok;
      ok, failed := ReadRootEntry(fs, entry, v, i);
      assert entry[..11] == entry[..][..11];
      MatchesSlot(v, EncodedIn(name, behind), RootSlot(v, i), entry[..]);
      if fatName[..] == entry[..11] {
        return true, false;
      }
      if failed {
        return;
      }
    }
  }

  lemma MatchesSlot(v: Volume, name: seq<byte>, k: nat, raw: RawEntry)
    requires Readable(v, RootDir) && ENTRY_SIZE * (k + 1) <= |Stream(v, RootDir)|
    requires raw == Slot(Stream(v, RootDir), k)
    ensures MatchAt(Stream(v, RootDir), name, k) <==> raw[..11] == name
  {
  }

  // Reads that cover the directory find what it holds.
  lemma AllRead(v: Volume, name: seq<byte>, passes: nat)
    requires v.Valid() && passes >= 16 * |v.RootLbas()|
    ensures (exists i: nat :: i < passes && MatchAt(Stream(v, RootDir), name, RootSlot(v, i)))
            <==> Present(Stream(v, RootDir), name)
  {
    var s := Stream(v, RootDir);
    if i: nat :| i < passes && MatchAt(s, name, RootSlot(v, i)) {
      PresentAt(s, name, RootSlot(v, i));
    }
    if Present(s, name) {
      var m := SlotNamed(s, name);
      assert |s| == SECTOR_SIZE * |v.RootLbas()|;
      assert m < 16 * |v.RootLbas()| && RootSlot(v, m) == m;
    }
  }

  // Sixteen entries to a sector.
  lemma NextEntry(i: nat)
    ensures ENTRY_SIZE * i % SECTOR_SIZE == ENTRY_SIZE * (i % 16)
    ensures i % 16 == 15 ==> ENTRY_SIZE * (i + 1) == SECTOR_SIZE * (i / 16 + 1) && (i + 1) / 16 == i / 16 + 1
    ensures i % 16 != 15 ==> ENTRY_SIZE * (i + 1) % SECTOR_SIZE != 0 && (i + 1) / 16 == i / 16
  {
    var q, r := i / 16, i % 16;
    Arithmetic.DivModUnique(ENTRY_SIZE * i, SECTOR_SIZE, q, ENTRY_SIZE * r);
    if r != 15 {
      Arithmetic.DivModUnique(ENTRY_SIZE * (i + 1), SECTOR_SIZE, q, ENTRY_SIZE * (r + 1));
    }
  }

  lemma RootSlotBytes(v: Volume, i: nat)
    requires v.Valid()
    ensures var r, slot := ENTRY_SIZE * i % SECTOR_SIZE, RootSlot(v, i);
      && r + ENTRY_SIZE <= SECTOR_SIZE && ENTRY_SIZE * (slot + 1) <= |Stream(v, RootDir)|
      && Slot(Stream(v, RootDir), slot)
         == v.sectors[RootSector(v, i)][r..r + ENTRY_SIZE]
  {
    var r, slot, lbas := ENTRY_SIZE * i % SECTOR_SIZE, RootSlot(v, i), v.RootLbas();
    var q := Least(i / 16, |lbas| - 1);
    NextEntry(i);
    assert r + ENTRY_SIZE <= SECTOR_SIZE && ENTRY_SIZE * slot == SECTOR_SIZE * q + r;
    assert Stream(v, RootDir) == v.Bytes(lbas) && lbas[q] == v.rootLba + q;
    SectorPiece(v, lbas, q, r);
  }

  // A piece of one sector, among the bytes of several.
  lemma SectorPiece(v: Volume, lbas: seq<nat>, q: nat, r: nat)
    requires forall k :: 0 <= k < |lbas| ==> lbas[k] < |v.sectors|
    requires q < |lbas| && r + ENTRY_SIZE <= SECTOR_SIZE
    ensures SECTOR_SIZE * q + r + ENTRY_SIZE <= |v.Bytes(lbas)|
    ensures v.Bytes(lbas)[SECTOR_SIZE * q + r..SECTOR_SIZE * q + r + ENTRY_SIZE]
         == v.sectors[lbas[q]][r..r + ENTRY_SIZE]
  {
    var b, at := v.Bytes(lbas), SECTOR_SIZE * q + r;
    var piece, source := b[at..at + ENTRY_SIZE], v.sectors[lbas[q]][r..r + ENTRY_SIZE];
    forall j | 0 <= j < ENTRY_SIZE ensures piece[j] == source[j] {
      Arithmetic.DivModUnique(at + j, SECTOR_SIZE, q, r + j);
    }
  }

  lemma FreshRootAfterNone(fs: FatSystem, v: Volume)
    requires v == fs.Vol() && RootFresh(fs)
    ensures v.Valid() && RootAfter(fs, v, 0)
  {
    assert |Stream(v, RootDir)| > 0;
  }
}
