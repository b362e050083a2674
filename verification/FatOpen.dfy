// Opening a path: component by component, from the root directory on.
module FatOpen {
  import opened Words
  import opened Disk
  import opened FatVolume
  import opened FatChains
  import opened FatDriver
  import opened FatNames
  import opened FatFiles
  import opened FatSearch

  const SLASH: byte := 0x2F

  // A path is taken apart at its slashes.
  function FirstPart(path: seq<byte>): seq<byte> {
    path[..IndexOf(path, SLASH)]
  }

  function RestOf(path: seq<byte>): seq<byte> {
    var slash := IndexOf(path, SLASH);
    if slash < |path| then path[slash + 1..] else []
  }

  predicate IsLast(path: seq<byte>) {
    SLASH !in path
  }

  lemma RestIsShorter(path: seq<byte>)
    requires |path| > 0
    ensures |RestOf(path)| < |path|
    ensures IndexOf(path, SLASH) == |path| <==> IsLast(path)
    ensures IsLast(path) ==> RestOf(path) == [] && FirstPart(path) == path
  {
    if IndexOf(path, SLASH) < |path| {
      assert path[IndexOf(path, SLASH)] == SLASH;
    } else {
      assert path[..|path|] == path;
    }
  }

  datatype Found = Target(raw: RawEntry) | NotADirectory

  // The entry a path's first component names in a directory.
  ghost function Component(v: Volume, src: Source, path: seq<byte>): RawEntry
    requires Readable(v, src) && Present(Stream(v, src), Encoded(FirstPart(path)))
  {
    EntryNamed(Stream(v, src), Encoded(FirstPart(path)))
  }

  // Every component of the path exists: each is present in the directory its
  // predecessors lead to, and those directories are proper chains.
  ghost predicate Exists(v: Volume, src: Source, path: seq<byte>)
    requires |path| > 0
    decreases |path|
  {
    RestIsShorter(path);
    && Readable(v, src)
    && Present(Stream(v, src), Encoded(FirstPart(path)))
    && var raw := Component(v, src, path);
       (IsLast(path) || IsDirectoryEntry(raw)) ==>
         && v.ClusterToLba(FirstClusterOf(raw)) < |v.sectors|
         && (RestOf(path) != [] ==>
               && HasChain(v, FirstClusterOf(raw))
               && Exists(v, Chain(ChainOf(v, FirstClusterOf(raw))), RestOf(path)))
  }

  // The recursive directory-tree lookup.
  ghost function Lookup(v: Volume, src: Source, path: seq<byte>): Found
    requires |path| > 0 && Exists(v, src, path)
    decreases |path|
  {
    RestIsShorter(path);
    var raw := Component(v, src, path);
    if !IsLast(path) && !IsDirectoryEntry(raw) then NotADirectory
    else if RestOf(path) == [] then Target(raw)
    else Lookup(v, Chain(ChainOf(v, FirstClusterOf(raw))), RestOf(path))
  }

  // The leading slash is dropped.
  function Relative(path: seq<byte>): seq<byte> {
    if |path| > 0 && path[0] == SLASH then path[1..] else path
  }

  // The components of a path are copied, one after the other, to the start of
  // one array on the stack. The bytes behind a component are what was there.
  function Behind(held: seq<byte>, name: seq<byte>): (behind: seq<byte>)
    requires |held| == MAX_PATH && |name| < MAX_PATH
    ensures |name| + 1 + |behind| == MAX_PATH
  {
    held[|name| + 1..]
  }

  function Copied(held: seq<byte>, name: seq<byte>): (after: seq<byte>)
    requires |held| == MAX_PATH && |name| < MAX_PATH
    ensures |after| == MAX_PATH
  {
    name + [0] + Behind(held, name)
  }

  // At no component do those bytes pass for an extension.
  predicate Tidy(path: seq<byte>, held: seq<byte>)
    requires |held| == MAX_PATH
    decreases |path|
  {
    if path == [] then true else
      RestIsShorter(path);
      var name := FirstPart(path);
      |name| < MAX_PATH && Clean(name, Behind(held, name)) && Tidy(RestOf(path), Copied(held, name))
  }

  // No component has a dot as its twelfth character; 8.3 names never do.
  predicate DotsInPlace(path: seq<byte>)
    decreases |path|
  {
    if path == [] then true else
      RestIsShorter(path);
      var name := FirstPart(path);
      |name| < MAX_PATH && (|name| > NAME_SIZE ==> name[NAME_SIZE] != DOT) && DotsInPlace(RestOf(path))
  }

  // So it all depends on what the stack held at offset 11.
  lemma {:induction false} ShortPathsAreTidy(path: seq<byte>, held: seq<byte>)
    requires |held| == MAX_PATH && held[NAME_SIZE] != DOT && DotsInPlace(path)
    ensures Tidy(path, held)
    decreases |path|
  {
    if path != [] {
      RestIsShorter(path);
      var name := FirstPart(path);
      var after := Copied(held, name);
      assert |name| < NAME_SIZE ==> Behind(held, name)[NAME_SIZE - |name| - 1] == held[NAME_SIZE];
      assert after[NAME_SIZE] != DOT;
      ShortPathsAreTidy(RestOf(path), after);
    }
  }

  datatype OpenResult = Handle(file: OpenFile) | Null | NullDereference

  lemma {:induction false} FreeSlotIs(files: seq<OpenFile>, h: nat)
    requires h <= |files| && (forall i :: 0 <= i < h ==> files[i].isOpen)
    requires h < |files| ==> !files[h].isOpen
    ensures FreeSlot(files) == h
  {
    if h > 0 {
      FreeSlotIs(files[1..], h - 1);
    }
  }

  // The two objects of a slot of the handle table.
  ghost function SlotObjects(fs: FatSystem, h: nat): set<object> {
    if h < |fs.files| then {fs.files[h], fs.files[h].buffer} else {}
  }

  // All slots before h are taken.
  ghost predicate TakenBelow(fs: FatSystem, h: nat)
    reads fs.files
  {
    h <= |fs.files| && forall i :: 0 <= i < h ==> fs.files[i].isOpen
  }

  // The root directory as FAT_Close leaves it.
  ghost predicate RootClosed(fs: FatSystem, v: Volume)
    reads fs.root
  {
    && fs.root.handle == ROOT_HANDLE && fs.root.isDirectory && fs.root.size == v.rootBytes
    && fs.root.position == 0 && fs.root.currentCluster == fs.root.firstCluster == v.rootLba
  }

  // Where the walk stands: in the root directory with slot h the next to be
  // taken, or in a directory that occupies slot h.
  ghost predicate Walking(fs: FatSystem, current: OpenFile, v: Volume, src: Source, h: nat)
    reads fs.root, fs.files, current, current.buffer
  {
    && TakenBelow(fs, h)
    && current.Reading(v, src) && current.isDirectory && current.position == 0
    && (src.RootDir? ==> current == fs.root && RootClosed(fs, v) && (h < |fs.files| ==> !fs.files[h].isOpen))
    && (src.Chain? ==> h < |fs.files| && current == fs.files[h] && current.handle == h && RootClosed(fs, v))
  }

  // After FAT_FindFile: closing the directory frees its slot again.
  method CloseDirectory(fs: FatSystem, current: OpenFile, ghost v: Volume, ghost src: Source, ghost h: nat)
    requires fs.Valid() && |fs.files| == MAX_HANDLES && TakenBelow(fs, h)
    requires src.RootDir? ==>
               && current == fs.root && current.handle == ROOT_HANDLE && current.isDirectory
               && current.size == v.rootBytes && current.firstCluster == v.rootLba
               && (h < |fs.files| ==> !fs.files[h].isOpen)
    requires src.Chain? ==> h < |fs.files| && current == fs.files[h] && current.handle == h && RootClosed(fs, v)
    modifies current`position, current`currentCluster, current`isOpen
    ensures TakenBelow(fs, h) && FreeSlot(fs.files) == h && RootClosed(fs, v)
  {
    Close(fs, current);
    FreeSlotIs(fs.files, h);
  }

  // What a search of the root directory that ended at slot m leaves in its
  // buffer: the sector of the entry behind it, or the last one.
  ghost predicate RootLeft(fs: FatSystem, v: Volume, m: nat)
    requires v.Valid()
    reads fs.root.buffer
  {
    fs.root.buffer[..] == v.sectors[v.rootLba + Least((m + 1) / 16, |v.RootLbas()| - 1)]
  }

  // The first half of a round in FAT_Open: the component is looked up, and the
  // directory closed that it was looked up in. A sector of it may turn out
  // unreadable (torn), before the component is found or just behind it.
  method FindComponent(fs: FatSystem, current: OpenFile, name: seq<byte>, behind: seq<byte>,
                       ghost v: Volume, ghost src: Source, ghost h: nat)
      returns (entry: RawEntry, found: bool, torn: bool)
    requires fs.Valid() && v == fs.Vol() && v.Valid() && Walking(fs, current, v, src, h)
    requires |name| + 1 + |behind| == MAX_PATH && 0 !in name && Clean(name, behind)
    requires Present(Stream(v, src), Encoded(name))
    modifies fs.root, fs.root.buffer, SlotObjects(fs, h)
    ensures (fs.disk.reliable ==> !torn) && (found || torn)
    ensures found ==> entry == EntryNamed(Stream(v, src), Encoded(name))
    ensures found ==> TakenBelow(fs, h) && FreeSlot(fs.files) == h && RootClosed(fs, v)
    ensures !torn && src.RootDir? ==> RootLeft(fs, v, SlotNamed(Stream(v, src), Encoded(name)))
    ensures src.Chain? ==> fs.root.buffer[..] == old(fs.root.buffer[..])
  {
    hide OpenFile.Reading, Stream, Lbas, Encoded, EncodedIn, Clean, Present, Volume.ClusterToLba, Volume.Valid,
         RootLeft,
         Volume.RootLbas;
    EncodesNameOnly(name, behind);
    found, entry, torn := FindFile(fs, current, name, behind, v, src);
    if found {
      if src.RootDir? && !torn {
        RootSector(fs, current, v, SlotNamed(Stream(v, src), Encoded(name)));
      }
      CloseDirectory(fs, current, v, src, h);
    }
  }

  lemma RootSector(fs: FatSystem, root: OpenFile, v: Volume, m: nat)
    requires v.Valid() && root == fs.root && root.Reading(v, RootDir) && root.position == ENTRY_SIZE * (m + 1)
    ensures RootLeft(fs, v, m)
  {
    assert root.position / SECTOR_SIZE == (m + 1) / 16;
  }

  // What a component found comes to: the entry opened in slot h, or no handle,
  // when it is a file that should have been a directory, when the table is full
  // or the entry's first sector unreadable.
  ghost predicate ComponentDone(fs: FatSystem, v: Volume, h: nat, raw: RawEntry, isLast: bool, next: OpenFile?,
                                stop: bool)
    reads fs.root, fs.files, set f | f in fs.files :: f.buffer
  {
    && TakenBelow(fs, h) && RootClosed(fs, v)
    && (stop <==> !isLast && !IsDirectoryEntry(raw))
    && (stop || next == null ==> next == null && FreeSlot(fs.files) == h)
    && (!stop && h < MAX_HANDLES && fs.disk.reliable ==> next != null)
    && (next != null ==> h < MAX_HANDLES && h < |fs.files| && next == fs.files[h] && HeldAt(fs, v, h, raw))
  }

  // One round of the loop in FAT_Open: the component is looked up, and unless
  // it is a file that should have been a directory, opened.
  method OpenComponent(fs: FatSystem, current: OpenFile, name: seq<byte>, behind: seq<byte>, isLast: bool,
                       ghost v: Volume, ghost src: Source, ghost h: nat, ghost raw: RawEntry)
      returns (next: OpenFile?, stop: bool, found: bool, torn: bool)
    requires fs.Valid() && v == fs.Vol() && v.Valid() && Walking(fs, current, v, src, h)
    requires |name| + 1 + |behind| == MAX_PATH && 0 !in name && Clean(name, behind)
    requires Present(Stream(v, src), Encoded(name)) && raw == EntryNamed(Stream(v, src), Encoded(name))
    requires isLast || IsDirectoryEntry(raw) ==> v.ClusterToLba(FirstClusterOf(raw)) < |v.sectors|
    modifies fs.root, fs.root.buffer, SlotObjects(fs, h)
    ensures (fs.disk.reliable ==> !torn) && (found || torn)
    ensures found ==> ComponentDone(fs, v, h, raw, isLast, next, stop)
    ensures !torn && src.RootDir? ==> RootLeft(fs, v, SlotNamed(Stream(v, src), Encoded(name)))
    ensures src.Chain? ==> fs.root.buffer[..] == old(fs.root.buffer[..])
  {
    hide OpenFile.Reading, Stream, Lbas, Encoded, Clean, Present, Volume.Valid, Volume.RootLbas, RootLeft;
    hide Volume.ClusterToLba, Walking, RootClosed, Opens, NameOf;
    next, stop := null, false;
    var entry;
    entry, found, torn := FindComponent(fs, current, name, behind, v, src, h);
    if !found {
      return;
    }
    stop := !isLast && !IsDirectoryEntry(entry);
    if !stop {
      next := OpenEntry(fs, entry);
      if next == null {
        FreeSlotIs(fs.files, h);
      }
    }
  }

  // The directory entered for the rest of a path is ready to be searched.
  lemma EnteredDirectory(fs: FatSystem, next: OpenFile, v: Volume, h: nat, raw: RawEntry)
    requires v.Valid() && h < |fs.files| && next == fs.files[h] && next.handle == h
    requires next.buffer.Length == SECTOR_SIZE
    requires TakenBelow(fs, h) && RootClosed(fs, v) && Opens(next, raw) && IsDirectoryEntry(raw)
    requires HasChain(v, FirstClusterOf(raw)) && v.ClusterToLba(FirstClusterOf(raw)) < |v.sectors|
    requires next.buffer[..] == v.sectors[v.ClusterToLba(FirstClusterOf(raw))]
    ensures Walking(fs, next, v, Chain(ChainOf(v, FirstClusterOf(raw))), h)
  {
    OpenedIsReading(v, next, raw);
  }

  lemma FreshRootWalks(fs: FatSystem, v: Volume, h: nat)
    requires fs.Valid() && v == fs.Vol() && RootFresh(fs) && h == FreeSlot(fs.files)
    ensures Walking(fs, fs.root, v, RootDir, h)
  {
    assert |Stream(v, RootDir)| > 0;
  }

  // Handle h is open on the entry, with the entry's first sector loaded.
  ghost predicate HeldAt(fs: FatSystem, v: Volume, h: nat, raw: RawEntry)
    reads fs.files, set f | f in fs.files :: f.buffer
  {
    && h < |fs.files| && fs.files[h].isOpen && fs.files[h].handle == h && Opens(fs.files[h], raw)
    && v.ClusterToLba(FirstClusterOf(raw)) < |v.sectors|
    && fs.files[h].buffer[..] == v.sectors[v.ClusterToLba(FirstClusterOf(raw))]
  }

  // What opening a path comes to when slot h is the first free one: the entry
  // the tree lookup selects, in that slot; NULL, and no slot held, when a
  // component that is not a directory has successors. With a full table the
  // walk fails at its first component, and a longer path is then followed from
  // a null pointer.
  ghost predicate Outcome(fs: FatSystem, v: Volume, h: nat, path: seq<byte>, result: OpenResult)
    reads fs.root, fs.files, set f | f in fs.files :: f.buffer
  {
    if path == [] then result == Handle(fs.root)
    else if !Exists(v, RootDir, path) then false
    else if h == |fs.files| then
      result == if IsDirectoryEntry(Component(v, RootDir, path)) && RestOf(path) != [] then NullDereference else Null
    else
      match Lookup(v, RootDir, path)
      case Target(raw) => HeldAt(fs, v, h, raw) && result == Handle(fs.files[h])
      case NotADirectory => FreeSlot(fs.files) == h && result == Null
  }

  // Where FAT_Open stands after some rounds: the rest of the path still leads
  // to the goal, or the goal is held in slot h.
  ghost predicate Underway(fs: FatSystem, current: OpenFile?, v: Volume, src: Source, h: nat, rest: seq<byte>,
                           goal: Found)
    reads fs.root, fs.files, fs.root.buffer, set f | f in fs.files :: f.buffer
  {
    if rest == [] then goal.Target? && HeldAt(fs, v, h, goal.raw) && current == fs.files[h]
    else
      && (current == fs.root || (h < |fs.files| && current == fs.files[h]))
      && Walking(fs, current, v, src, h) && Exists(v, src, rest) && Lookup(v, src, rest) == goal
  }

  // A round of the loop keeps the goal.
  lemma RoundKeepsGoal(fs: FatSystem, next: OpenFile, v: Volume, src: Source, h: nat, p: seq<byte>)
    requires fs.Valid() && v.Valid() && |p| > 0 && Exists(v, src, p)
    requires TakenBelow(fs, h) && RootClosed(fs, v)
    requires h < |fs.files| && next == fs.files[h] && HeldAt(fs, v, h, Component(v, src, p))
    requires IsLast(p) || IsDirectoryEntry(Component(v, src, p))
    ensures var raw := Component(v, src, p);
      var src' := if RestOf(p) == [] then src else Chain(ChainOf(v, FirstClusterOf(raw)));
      Underway(fs, next, v, src', h, RestOf(p), Lookup(v, src, p))
  {
    RestIsShorter(p);
    if RestOf(p) != [] {
      EnteredDirectory(fs, next, v, h, Component(v, src, p));
    }
  }

  // Whether the sector a search for the first component leaves in the root
  // directory's buffer holds what the first one does. It is the first one when
  // the component is among the first fifteen entries.
  ghost predicate FirstSectorAgain(v: Volume, path: seq<byte>)
    requires v.Valid() && |path| > 0 && Present(Stream(v, RootDir), Encoded(FirstPart(path)))
  {
    LeftLikeFirst(v, FirstSlot(v, path))
  }

  ghost function FirstSlot(v: Volume, path: seq<byte>): nat
    requires v.Valid() && |path| > 0 && Present(Stream(v, RootDir), Encoded(FirstPart(path)))
  {
    SlotNamed(Stream(v, RootDir), Encoded(FirstPart(path)))
  }

  lemma EarlySlotStays(v: Volume, path: seq<byte>)
    requires v.Valid() && |path| > 0 && Present(Stream(v, RootDir), Encoded(FirstPart(path)))
    ensures FirstSlot(v, path) < 15 || |v.RootLbas()| == 1 ==> FirstSectorAgain(v, path)
  {
    hide Stream, Encoded, Present, FirstPart;
  }

  lemma LeftIsFresh(fs: FatSystem, v: Volume, path: seq<byte>)
    requires fs.Valid() && v == fs.Vol() && v.Valid() && RootClosed(fs, v)
    requires |path| > 0 && Present(Stream(v, RootDir), Encoded(FirstPart(path)))
    requires RootLeft(fs, v, FirstSlot(v, path))
    ensures RootFresh(fs) <==> FirstSectorAgain(v, path)
  {
    hide Stream, Encoded, Present, FirstPart, RootFresh, RootClosed, LeftLikeFirst, FirstSlot, RootLeft;
    RewoundAgain(fs, v, FirstSlot(v, path));
  }

  ghost predicate LeftLikeFirst(v: Volume, m: nat)
    requires v.Valid()
  {
    v.sectors[v.rootLba + Least((m + 1) / 16, |v.RootLbas()| - 1)] == v.sectors[v.rootLba]
  }

  lemma RewoundAgain(fs: FatSystem, v: Volume, m: nat)
    requires fs.Valid() && v == fs.Vol() && v.Valid() && RootClosed(fs, v) && RootLeft(fs, v, m)
    ensures RootFresh(fs) <==> LeftLikeFirst(v, m)
  {
    RewoundRoot(fs);
    hide RootFresh, Stream;
  }

  // An entry that could not be read gives NULL, or a null pointer to follow,
  // and holds no slot.
  ghost predicate Unread(fs: FatSystem, h: nat, result: OpenResult)
    reads fs.files
  {
    !fs.disk.reliable && !result.Handle? && FreeSlot(fs.files) == h
  }

  // Where FAT_Open stands between two rounds: at the start, in the root
  // directory; underway to the goal of the whole path; or without a handle,
  // when the table is full or an entry could not be read.
  ghost predicate Going(fs: FatSystem, current: OpenFile?, v: Volume, src: Source, h: nat, p: seq<byte>,
                        whole: seq<byte>, torn: bool)
    reads fs, fs.root, fs.files, fs.root.buffer, set f | f in fs.files :: f.buffer
  {
    && v == fs.Vol() && v.Valid() && TakenBelow(fs, h) && RootClosed(fs, v) && (torn ==> !fs.disk.reliable)
    && (whole != [] ==> Exists(v, RootDir, whole))
    && (p == whole ==> current == fs.root && src == RootDir && RootFresh(fs))
    && (p != whole ==> whole != [] && (torn || RootLeft(fs, v, FirstSlot(v, whole))) && (p != [] ==> src.Chain?))
    && (current != null && whole != [] ==> Underway(fs, current, v, src, h, p, Lookup(v, RootDir, whole)))
    && (current != null && p != whole ==> h < |fs.files|)
    && (current == null ==> p != whole && FreeSlot(fs.files) == h)
    && (current == null && fs.disk.reliable ==>
          h == |fs.files| && p == RestOf(whole) && (IsLast(whole) || IsDirectoryEntry(Component(v, RootDir, whole))))
  }

  // What FAT_Open promises of its result and of the root directory.
  ghost predicate Opened(fs: FatSystem, v: Volume, h: nat, path: seq<byte>, result: OpenResult, torn: bool)
    reads fs, fs.root, fs.files, fs.root.buffer, set f | f in fs.files :: f.buffer
  {
    && v.Valid() && RootClosed(fs, v) && TakenBelow(fs, h)
    && (path != [] ==> Exists(v, RootDir, path))
    && (Outcome(fs, v, h, path, result) || Unread(fs, h, result))
    && (torn ==> !fs.disk.reliable)
    && (!torn ==> (RootFresh(fs) <==> path == [] || FirstSectorAgain(v, path)))
  }

  lemma RoundStarts(fs: FatSystem, current: OpenFile, v: Volume, src: Source, h: nat, p: seq<byte>, whole: seq<byte>,
                    torn: bool)
    requires fs.Valid() && |p| > 0 && Going(fs, current, v, src, h, p, whole, torn)
    ensures v == fs.Vol() && v.Valid() && Walking(fs, current, v, src, h) && h <= |fs.files| && SoFar(v, src, p, whole)
    ensures p == whole ==> src == RootDir
    ensures p != whole ==> h < |fs.files| && src.Chain? && (torn || RootLeft(fs, v, FirstSlot(v, whole)))
    ensures (torn ==> !fs.disk.reliable) && |fs.files| == MAX_HANDLES
  {
    hide OpenFile.Reading, Stream, Lbas, Encoded, Present, Volume.ClusterToLba, RootFresh, HeldAt, Walking, RootLeft;
  }

  // The rest of the path leads where the whole of it does.
  ghost predicate SoFar(v: Volume, src: Source, p: seq<byte>, whole: seq<byte>) {
    && p != [] && Exists(v, src, p)
    && whole != [] && Exists(v, RootDir, whole) && Lookup(v, src, p) == Lookup(v, RootDir, whole)
  }

  lemma ComponentIsThere(v: Volume, src: Source, p: seq<byte>, whole: seq<byte>)
    requires SoFar(v, src, p, whole)
    ensures Readable(v, src) && Present(Stream(v, src), Encoded(FirstPart(p)))
    ensures Component(v, src, p) == EntryNamed(Stream(v, src), Encoded(FirstPart(p)))
    ensures var raw := Component(v, src, p);
      IsLast(p) || IsDirectoryEntry(raw) ==> v.ClusterToLba(FirstClusterOf(raw)) < |v.sectors|
    ensures whole != [] && Readable(v, RootDir) && Present(Stream(v, RootDir), Encoded(FirstPart(whole)))
  {
    hide Stream, Lbas, Encoded, Present, Volume.ClusterToLba;
    RestIsShorter(p);
  }

  // What holds throughout a round.
  ghost predicate Midway(fs: FatSystem, v: Volume, src: Source, h: nat, p: seq<byte>, whole: seq<byte>, torn: bool)
    reads fs, fs.root.buffer
  {
    && v == fs.Vol() && v.Valid() && |fs.files| == MAX_HANDLES && (torn ==> !fs.disk.reliable)
    && SoFar(v, src, p, whole) && |p| <= |whole|
    && Present(Stream(v, RootDir), Encoded(FirstPart(whole))) && Present(Stream(v, src), Encoded(FirstPart(p)))
    && (torn || RootLeft(fs, v, FirstSlot(v, whole)))
    && (if p == whole then src == RootDir else h < |fs.files|)
  }

  lemma RoundStops(fs: FatSystem, next: OpenFile?, v: Volume, src: Source, h: nat, p: seq<byte>, whole: seq<byte>,
                   torn: bool)
    requires fs.Valid() && Midway(fs, v, src, h, p, whole, torn)
    requires ComponentDone(fs, v, h, Component(v, src, p), IsLast(p), next, true)
    ensures Opened(fs, v, h, whole, Null, torn)
  {
    hide OpenFile.Reading, Stream, Lbas, Encoded, Present, Volume.ClusterToLba, RootFresh, HeldAt, Walking, RootLeft,
         FirstSectorAgain;
    if !torn {
      LeftIsFresh(fs, v, whole);
    }
    RestIsShorter(p);
  }

  lemma RoundGoesOn(fs: FatSystem, next: OpenFile?, v: Volume, src: Source, h: nat, p: seq<byte>, whole: seq<byte>,
                    torn: bool)
    requires fs.Valid() && Midway(fs, v, src, h, p, whole, torn)
    requires ComponentDone(fs, v, h, Component(v, src, p), IsLast(p), next, false)
    ensures Going(fs, next, v, SourceBehind(v, src, p), h, RestOf(p), whole, torn)
  {
    hide OpenFile.Reading, Stream, Lbas, Encoded, Present, Volume.ClusterToLba, RootFresh, HeldAt, Walking, RootLeft;
    RestIsShorter(p);
    if next != null {
      RoundKeepsGoal(fs, next, v, src, h, p);
    }
  }

  // The directory the rest of a path is looked up in.
  ghost function SourceBehind(v: Volume, src: Source, p: seq<byte>): Source
    requires Readable(v, src) && Present(Stream(v, src), Encoded(FirstPart(p)))
  {
    var first := FirstClusterOf(Component(v, src, p));
    if RestOf(p) == [] || !HasChain(v, first) then src else Chain(ChainOf(v, first))
  }

  // All that opening the component needs.
  lemma RoundReady(fs: FatSystem, current: OpenFile, p: seq<byte>, name: seq<byte>, v: Volume, src: Source, h: nat,
                   whole: seq<byte>, torn: bool)
    requires fs.Valid() && 0 < |p| && Going(fs, current, v, src, h, p, whole, torn)
    requires |name| == MAX_PATH && 0 !in p && Tidy(p, name)
    ensures |FirstPart(p)| < MAX_PATH && 0 !in FirstPart(p) && Clean(FirstPart(p), Behind(name, FirstPart(p)))
    ensures v == fs.Vol() && v.Valid() && Walking(fs, current, v, src, h) && SoFar(v, src, p, whole)
    ensures Readable(v, src) && Present(Stream(v, src), Encoded(FirstPart(p)))
    ensures Readable(v, RootDir) && whole != [] && Present(Stream(v, RootDir), Encoded(FirstPart(whole)))
    ensures var raw := Component(v, src, p);
      && raw == EntryNamed(Stream(v, src), Encoded(FirstPart(p)))
      && (IsLast(p) || IsDirectoryEntry(raw) ==> v.ClusterToLba(FirstClusterOf(raw)) < |v.sectors|)
    ensures if p == whole then src == RootDir else h < |fs.files| && src.Chain?
    ensures p == whole || torn || RootLeft(fs, v, FirstSlot(v, whole))
    ensures (torn ==> !fs.disk.reliable) && |fs.files| == MAX_HANDLES
  {
    RoundStarts(fs, current, v, src, h, p, whole, torn);
    ComponentIsThere(v, src, p, whole);
    PartsInPath(p);
    TidyRest(p, name);
    hide *;
  }

  // One round, from a directory that is open: the component is dealt with,
  method Deal(fs: FatSystem, current: OpenFile, p: seq<byte>, name: seq<byte>, was: bool,
              ghost v: Volume, ghost src: Source, ghost h: nat, ghost whole: seq<byte>)
      returns (next: OpenFile?, stop: bool, found: bool, torn: bool)
    requires fs.Valid() && 0 < |p| <= |whole| && Going(fs, current, v, src, h, p, whole, was)
    requires |name| == MAX_PATH && 0 !in p && Tidy(p, name)
    modifies fs.root, fs.root.buffer, SlotObjects(fs, h)
    ensures fs.disk.reliable ==> found && !torn
    ensures found ==> Midway(fs, v, src, h, p, whole, torn)
    ensures found ==> ComponentDone(fs, v, h, Component(v, src, p), IsLast(p), next, stop)
  {
    hide Going, SoFar, Walking, Exists, Lookup, Tidy, FirstPart, RestOf, Behind, Clean, Encoded, Present, Stream,
         Readable, ComponentDone, Component, Volume.Valid, Volume.ClusterToLba, FatSystem.Vol, IsLast, IsDirectoryEntry,
         FirstClusterOf, Volume.RootLbas, FatSystem.Valid;
    RoundReady(fs, current, p, name, v, src, h, whole, was);
    next, stop, found, torn :=
      OpenComponent(fs, current, FirstPart(p), Behind(name, FirstPart(p)), IsLast(p), v, src, h, Component(v, src, p));
    torn := was || torn;
  }

  // and the walk ends or goes on.
  method Round(fs: FatSystem, current: OpenFile, p: seq<byte>, name: seq<byte>, was: bool,
               ghost v: Volume, ghost src: Source, ghost h: nat, ghost whole: seq<byte>)
      returns (next: OpenFile?, stop: bool, found: bool, torn: bool, ghost src': Source)
    requires fs.Valid() && 0 < |p| <= |whole| && Going(fs, current, v, src, h, p, whole, was)
    requires |name| == MAX_PATH && 0 !in p && Tidy(p, name)
    modifies fs.root, fs.root.buffer, SlotObjects(fs, h)
    ensures fs.disk.reliable ==> found && !torn
    ensures found && stop ==> Opened(fs, v, h, whole, Null, torn)
    ensures found && !stop ==> Going(fs, next, v, src', h, RestOf(p), whole, torn)
  {
    hide Going, Opened, Midway, ComponentDone, Exists, Tidy, FirstPart, RestOf, Encoded, Present, Stream,
         FatSystem.Valid;
    next, stop, found, torn := Deal(fs, current, p, name, was, v, src, h, whole);
    src' := src;
    if found {
      src' := Onwards(fs, next, stop, v, src, h, p, whole, torn);
    }
  }

  lemma Onwards(fs: FatSystem, next: OpenFile?, stop: bool, v: Volume, src: Source, h: nat, p: seq<byte>,
                whole: seq<byte>, torn: bool)
      returns (src': Source)
    requires fs.Valid() && Midway(fs, v, src, h, p, whole, torn)
    requires ComponentDone(fs, v, h, Component(v, src, p), IsLast(p), next, stop)
    ensures stop ==> Opened(fs, v, h, whole, Null, torn)
    ensures !stop ==> Going(fs, next, v, src', h, RestOf(p), whole, torn)
  {
    src' := src;
    if stop {
      RoundStops(fs, next, v, src, h, p, whole, torn);
    } else {
      src' := SourceBehind(v, src, p);
      RoundGoesOn(fs, next, v, src, h, p, whole, torn);
    }
  }

  lemma Arrived(fs: FatSystem, current: OpenFile?, v: Volume, src: Source, h: nat, p: seq<byte>, whole: seq<byte>,
                torn: bool)
    requires fs.Valid() && Going(fs, current, v, src, h, p, whole, torn)
    ensures current == null && p != [] ==> Opened(fs, v, h, whole, NullDereference, torn)
    ensures p == [] ==> Opened(fs, v, h, whole, if current == null then Null else Handle(current), torn)
  {
    hide OpenFile.Reading, Stream, Lbas, Encoded, Present, Volume.Valid, Volume.ClusterToLba, RootFresh, HeldAt,
         Walking, RootLeft, FirstSectorAgain, FirstPart;
    if whole != [] && p != whole {
      RestIsShorter(whole);
      if !torn {
        LeftIsFresh(fs, v, whole);
      }
    }
  }

  // FAT_Open, from the state in which the root directory is at its start and
  // its first sector is in the buffer, for a path whose components exist; it
  // is followed up to a directory sector that cannot be read before the entry
  // is found. The stack is what the array for the components holds at the call.
  // Afterwards the root directory can be searched again exactly when the sector
  // left in its buffer is like the first, unless one behind an entry found was
  // unreadable (torn).
  method Open(fs: FatSystem, path: seq<byte>, stack: seq<byte>, ghost v: Volume, ghost h: nat)
      returns (result: OpenResult, found: bool, torn: bool)
    requires |stack| == MAX_PATH && 0 !in path && Tidy(Relative(path), stack)
    requires fs.Valid() && v == fs.Vol() && RootFresh(fs) && h == FreeSlot(fs.files)
    requires Relative(path) != [] ==> Exists(v, RootDir, Relative(path))
    modifies fs.root, fs.root.buffer, SlotObjects(fs, h)
    ensures fs.disk.reliable ==> found && !torn
    ensures found ==> Opened(fs, v, h, Relative(path), result, torn)
  {
    ghost var whole := Relative(path);
    Starts(fs, v, h, whole);
    hide Going, Opened, RootFresh, Exists, Copied, Tidy, FirstPart;
    var p, current: OpenFile?, name := Relative(path), fs.root, stack;
    ghost var src := RootDir;
    found, torn := true, false;
    while |p| > 0
      invariant |name| == MAX_PATH && 0 !in p && Tidy(p, name) && found && (fs.disk.reliable ==> !torn)
      invariant |p| <= |whole| && Going(fs, current, v, src, h, p, whole, torn)
    {
      if current == null {
        Arrived(fs, current, v, src, h, p, whole, torn);
        return NullDereference, true, torn;
      }
      var next, stop;
      ghost var src';
      next, stop, found, torn, src' := Round(fs, current, p, name, torn, v, src, h, whole);
      if !found || stop {
        return Null, found, torn;
      }
      PartsInPath(p);
      RestIsShorter(p);
      TidyRest(p, name);
      name := Copied(name, FirstPart(p));
      p, current, src := RestOf(p), next, src';
    }
    Arrived(fs, current, v, src, h, p, whole, torn);
    return if current == null then Null else Handle(current), true, torn;
  }

  lemma Starts(fs: FatSystem, v: Volume, h: nat, whole: seq<byte>)
    requires fs.Valid() && v == fs.Vol() && RootFresh(fs) && h == FreeSlot(fs.files)
    requires whole != [] ==> Exists(v, RootDir, whole)
    ensures Going(fs, fs.root, v, RootDir, h, whole, whole, false)
  {
    FreshRootWalks(fs, v, h);
    hide Walking, RootFresh, OpenFile.Reading;
    ValidRoot(fs);
  }

  lemma TidyRest(path: seq<byte>, held: seq<byte>)
    requires |held| == MAX_PATH && path != [] && Tidy(path, held)
    ensures |FirstPart(path)| < MAX_PATH && Clean(FirstPart(path), Behind(held, FirstPart(path)))
    ensures Tidy(RestOf(path), Copied(held, FirstPart(path)))
  {
  }

  // Opening a path while slot h is held: that handle stays what it is.
  method OpenBeside(fs: FatSystem, path: seq<byte>, stack: seq<byte>, ghost v: Volume,
                    ghost h: nat, ghost raw: RawEntry, ghost h': nat)
      returns (result: OpenResult)
    requires |stack| == MAX_PATH && 0 !in path && Tidy(Relative(path), stack)
    requires fs.Valid() && fs.disk.reliable && v == fs.Vol() && RootFresh(fs) && h' == FreeSlot(fs.files)
    requires Relative(path) != [] ==> Exists(v, RootDir, Relative(path))
    requires HeldAt(fs, v, h, raw)
    modifies fs.root, fs.root.buffer, SlotObjects(fs, h')
    ensures h' != h && HeldAt(fs, v, h, raw) && Opened(fs, v, h', Relative(path), result, false)
  {
    hide RootFresh, Exists, Tidy, Opened, FatSystem.Vol, Relative;
    var held := fs.files[h];
    assert fs.files[h] !in SlotObjects(fs, h') && fs.files[h].buffer !in SlotObjects(fs, h');
    var found, torn;
    result, found, torn := Open(fs, path, stack, v, h');
  }

  // After a first open, for a path below the root directory.
  lemma Reopens(fs: FatSystem, v: Volume, h: nat, path: seq<byte>, a: OpenResult)
    requires fs.Valid() && fs.disk.reliable && path != [] && Opened(fs, v, h, path, a, false)
    ensures Exists(v, RootDir, path) && (FirstSectorAgain(v, path) ==> RootFresh(fs))
    ensures a.Handle? ==>
              && Lookup(v, RootDir, path).Target? && h < |fs.files| && a.file == fs.files[h]
              && HeldAt(fs, v, h, Lookup(v, RootDir, path).raw)
  {
    hide Exists, Lookup, RootFresh, FirstSectorAgain, Volume.Valid;
  }

  // Two paths opened in a row, when the first leaves the root directory fit to
  // be searched again: the second is what it would have been alone, and the
  // first handle is still what it was.
  method OpenTwice(fs: FatSystem, first: seq<byte>, second: seq<byte>, stack: seq<byte>, stack': seq<byte>,
                   ghost v: Volume, ghost h: nat)
      returns (a: OpenResult, b: OpenResult, ghost h': nat)
    requires |stack| == |stack'| == MAX_PATH && 0 !in first && 0 !in second
    requires Tidy(Relative(first), stack) && Tidy(Relative(second), stack')
    requires fs.Valid() && fs.disk.reliable && v == fs.Vol() && RootFresh(fs) && h == FreeSlot(fs.files)
    requires Relative(first) != [] && Exists(v, RootDir, Relative(first))
    requires Relative(second) != [] ==> Exists(v, RootDir, Relative(second))
    requires v.Valid() && FirstSectorAgain(v, Relative(first))
    modifies fs.root, fs.root.buffer, fs.files, set f | f in fs.files :: f.buffer
    ensures Opened(fs, v, h', Relative(second), b, false)
    ensures a.Handle? ==>
              && Lookup(v, RootDir, Relative(first)).Target? && h < |fs.files| && a.file == fs.files[h] && h' != h
              && HeldAt(fs, v, h, Lookup(v, RootDir, Relative(first)).raw)
  {
    hide RootFresh, Exists, Tidy, Opened, FatSystem.Vol, Relative, FirstSectorAgain, HeldAt, Lookup, Volume.Valid;
    var found, torn;
    a, found, torn := Open(fs, first, stack, v, h);
    Reopens(fs, v, h, Relative(first), a);
    h' := FreeSlot(fs.files);
    if a.Handle? {
      b := OpenBeside(fs, second, stack', v, h, Lookup(v, RootDir, Relative(first)).raw, h');
    } else {
      b, found, torn := Open(fs, second, stack', v, h');
    }
  }

  lemma PartsInPath(path: seq<byte>)
    requires 0 !in path
    ensures 0 !in FirstPart(path) && 0 !in RestOf(path)
  {
  }

  lemma ValidRoot(fs: FatSystem)
    requires RootFresh(fs)
    ensures fs.Vol().Valid()
  {
  }
}
