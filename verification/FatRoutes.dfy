// Paths on a disk whose bytes are given: which entries stand in which
// directories, what a path through them leads to, and that every reader
// delivers the clusters of the file at its end.
module FatRoutes {
  import opened Words
  import opened Disk
  import opened FatTable
  import opened FatVolume
  import opened FatChains
  import opened FatDriver
  import opened FatNames
  import opened NameCase
  import opened FatFiles
  import opened FatSearch
  import opened FatMount
  import opened FatOpen
  import opened FatLoad
  import opened FatLayout
  import opened BootLoader
  import opened HostTool

  // ---- Directories ----------------------------------------------------------------------

  // The sectors of the root directory: one at least.
  function RootCount(v: Volume): nat {
    if v.rootBytes == 0 then 1 else (v.rootBytes + 511) / 512
  }

  // What a directory is looked up in has a place on the disk.
  ghost predicate HasPlace(v: Volume, entries: seq<u12>, src: Source) {
    match src
    case RootDir => v.rootLba + RootCount(v) <= |v.sectors|
    case Chain(clusters) => Linked(entries, clusters) && OnDisk(v, clusters)
  }

  ghost function DirectoryBytes(v: Volume, entries: seq<u12>, src: Source): seq<byte>
    requires HasPlace(v, entries, src)
  {
    match src
    case RootDir => SectorsFrom(v.sectors, v.rootLba, RootCount(v))
    case Chain(clusters) => Laid(v, clusters)
  }

  // The stream of a directory is what lies there.
  lemma StreamIsDirectory(v: Volume, entries: seq<u12>, slack: seq<byte>, src: Source)
    requires HasTable(v, entries, slack) && v.Valid() && HasPlace(v, entries, src)
    ensures Readable(v, src) && Stream(v, src) == DirectoryBytes(v, entries, src)
  {
    match src {
      case RootDir =>
        assert |v.RootLbas()| == RootCount(v);
        RunIsSectors(v.sectors, v.rootLba, RootCount(v));
        BytesOfRun(v, v.RootLbas(), v.rootLba);
        hide Volume.Bytes, Run, Volume.RootLbas;
      case Chain(clusters) =>
        LinkedIsChainOf(v, entries, slack, clusters);
        hide Volume.IsChain, Volume.HasCluster, Linked, OnDisk;
        BytesConcatenate(v, clusters);
    }
  }

  // Entry number m, of 32 bytes, is the first with that name.
  ghost predicate FirstEntry(s: seq<byte>, m: nat, name: seq<byte>, raw: seq<byte>) {
    && 32 * m + 32 <= |s| && s[32 * m..32 * m + 32] == raw && s[32 * m..32 * m + 11] == name
    && forall i :: 0 <= i < m ==> s[32 * i..32 * i + 11] != name
  }

  lemma FirstEntryIsFound(s: seq<byte>, m: nat, name: seq<byte>, raw: seq<byte>)
    requires |raw| == 32 && FirstEntry(s, m, name, raw)
    ensures Present(s, name) && SlotNamed(s, name) == m && EntryNamed(s, name) == raw
  {
    assert Slot(s, m)[..11] == s[32 * m..32 * m + 11];
    forall i: nat | i < m ensures !MatchAt(s, name, i) {
      assert Slot(s, i)[..11] == s[32 * i..32 * i + 11];
    }
    assert FirstMatch(s, name, m);
  }

  // The name stands in some entry exactly when the directory holds it.
  lemma StandsIsPresent(s: seq<byte>, name: seq<byte>)
    ensures Present(s, name) <==> exists m :: 0 <= m && 32 * m + 32 <= |s| && s[32 * m..32 * m + 11] == name
  {
    if Present(s, name) {
      var m := SlotNamed(s, name);
      assert Slot(s, m)[..11] == s[32 * m..32 * m + 11];
    }
    if m :| 0 <= m && 32 * m + 32 <= |s| && s[32 * m..32 * m + 11] == name {
      assert Slot(s, m)[..11] == s[32 * m..32 * m + 11];
      PresentAt(s, name, m);
    }
  }

  // FAT_FindFile in the root directory: a component, in whatever case, is found
  // exactly when its name stands there in upper case.
  method SearchRootFor(fs: FatSystem, p: Part, behind: seq<byte>, passes: nat, ghost v: Volume)
      returns (found: bool, failed: bool)
    requires p.Valid() && |p.Text()| + 1 + |behind| == MAX_PATH && Clean(p.Text(), behind)
    requires fs.Valid() && v == fs.Vol() && RootFresh(fs) && passes < READS_BEFORE_WRAP
    modifies fs.root`position, fs.root`currentCluster, fs.root`currentSector, fs.root`size, fs.root.buffer
    ensures fs.disk.reliable ==> !failed
    ensures v.rootLba + RootCount(v) <= |v.sectors|
    ensures !failed && passes >= 16 * RootCount(v) ==>
              (found <==>
               var s := SectorsFrom(v.sectors, v.rootLba, RootCount(v));
               exists m :: 0 <= m && 32 * m + 32 <= |s| && s[32 * m..32 * m + 11] == p.EntryName())
  {
    PartText(p);
    EncodesNameOnly(p.Text(), behind);
    EncodedPart(p);
    RootStream(fs, v);
    StandsIsPresent(SectorsFrom(v.sectors, v.rootLba, RootCount(v)), p.EntryName());
    hide RootFresh, EncodedIn, Encoded, Stream, Present, Part.EntryName, Part.Text, Volume.Valid, Volume.RootLbas,
         RootSlot, MatchAt, FatSystem.Valid;
    found, failed := SearchRoot(fs, p.Text(), behind, passes, v);
  }

  lemma RootStream(fs: FatSystem, v: Volume)
    requires fs.Valid() && v == fs.Vol() && RootFresh(fs)
    ensures v.rootLba + RootCount(v) <= |v.sectors| && |v.RootLbas()| == RootCount(v)
    ensures v.Valid() && Stream(v, RootDir) == SectorsFrom(v.sectors, v.rootLba, RootCount(v))
  {
    assert |v.RootLbas()| == RootCount(v);
    RunIsSectors(v.sectors, v.rootLba, RootCount(v));
    BytesOfRun(v, v.RootLbas(), v.rootLba);
    hide Volume.Bytes, Run, Volume.RootLbas;
  }

  lemma BytesOfRun(v: Volume, lbas: seq<nat>, lba: nat)
    requires lba + |lbas| <= |v.sectors| && forall k :: 0 <= k < |lbas| ==> lbas[k] == lba + k
    ensures v.Bytes(lbas) == Run(v.sectors, lba, |lbas|)
  {
  }

  lemma PartText(p: Part)
    requires p.Valid()
    ensures 0 !in p.Text() && 0x2F !in p.Text() && 1 <= |p.Text()| <= 12
    ensures |p.Text()| == 12 ==> p.Text()[11] != 0x2E
  {
  }

  // ---- Routes through the directory tree ----------------------------------------------------

  // A component, the entry that stands for it, where, and the clusters it
  // starts.
  datatype Hop = Hop(part: Part, slot: nat, entry: EntryFields, chain: seq<nat>) {
    predicate Valid() {
      part.Valid() && entry.Valid() && entry.name == part.EntryName()
    }
  }

  // The clusters that the table links from the entry's first on.
  ghost predicate Owns(v: Volume, entries: seq<u12>, hop: Hop) {
    Linked(entries, hop.chain) && OnDisk(v, hop.chain) && hop.chain[0] == hop.entry.Cluster()
  }

  // Each entry stands in the directory before it. All but the last are
  // directories; so is not even the last, if more of the path follows it.
  ghost predicate Route(v: Volume, entries: seq<u12>, src: Source, hops: seq<Hop>, blocked: bool)
    decreases |hops|
  {
    && |hops| > 0 && hops[0].Valid() && HasPlace(v, entries, src)
    && FirstEntry(DirectoryBytes(v, entries, src), hops[0].slot, hops[0].part.EntryName(), EntryBytes(hops[0].entry))
    && (if |hops| == 1 && blocked then !hops[0].entry.attributes.directory else Owns(v, entries, hops[0]))
    && (|hops| > 1 ==>
          hops[0].entry.attributes.directory && Route(v, entries, Chain(hops[0].chain), hops[1..], blocked))
  }

  // The path along a route, and perhaps more behind it.
  function PathText(hops: seq<Hop>, more: Option<seq<byte>>): seq<byte> {
    if |hops| == 0 then []
    else hops[0].part.Text() + Behindhand(hops[1..], more)
  }

  function Behindhand(hops: seq<Hop>, more: Option<seq<byte>>): seq<byte>
    decreases |hops|
  {
    if |hops| > 0 then [0x2F] + hops[0].part.Text() + Behindhand(hops[1..], more)
    else match more
      case None => []
      case Some(text) => [0x2F] + text
  }

  // A path is taken apart where it was put together.
  lemma PathParts(hops: seq<Hop>, more: Option<seq<byte>>)
    requires |hops| > 0 && hops[0].Valid()
    ensures var path := PathText(hops, more);
      && path != [] && Relative([0x2F] + path) == path
      && FirstPart(path) == hops[0].part.Text()
      && (IsLast(path) <==> |hops| == 1 && more.None?)
      && (|hops| > 1 ==> RestOf(path) == PathText(hops[1..], more))
      && (|hops| == 1 && more.None? ==> RestOf(path) == [])
  {
    PartText(hops[0].part);
    var text, behind := hops[0].part.Text(), Behindhand(hops[1..], more);
    SlashBehind(hops, more);
    hide Part.Text, Behindhand, FirstPart, RestOf, IsLast, Relative, Hop.Valid;
    CutAtSlash(text, behind);
  }

  lemma SlashBehind(hops: seq<Hop>, more: Option<seq<byte>>)
    requires |hops| > 0
    ensures var behind := Behindhand(hops[1..], more);
      && (behind == [] <==> |hops| == 1 && more.None?) && (behind != [] ==> behind[0] == 0x2F)
      && (|hops| > 1 ==> behind[1..] == PathText(hops[1..], more))
  {
    if |hops| > 1 {
      var text, rest := hops[1].part.Text(), Behindhand(hops[2..], more);
      assert hops[1..][1..] == hops[2..];
      assert ([0x2F] + text + rest)[1..] == text + rest;
    }
  }

  lemma CutAtSlash(text: seq<byte>, behind: seq<byte>)
    requires 0x2F !in text && text != [] && (behind != [] ==> behind[0] == 0x2F)
    ensures var path := text + behind;
      && FirstPart(path) == text && (IsLast(path) <==> behind == [])
      && RestOf(path) == (if behind == [] then [] else behind[1..])
      && Relative([0x2F] + path) == path
  {
    var path := text + behind;
    assert path[..|text|] == text;
    if behind != [] {
      assert path[|text|] == 0x2F;
      assert path[|text| + 1..] == behind[1..];
    }
    IndexUnique(path, SLASH, |text|);
    hide IndexOf;
  }

  // What the tree lookup makes of a route.
  lemma {:induction false} RouteIsLookup(v: Volume, entries: seq<u12>, slack: seq<byte>, src: Source,
                                         hops: seq<Hop>, more: Option<seq<byte>>)
    requires HasTable(v, entries, slack) && v.Valid() && Route(v, entries, src, hops, more.Some?)
    ensures Readable(v, src) && PathText(hops, more) != [] && Exists(v, src, PathText(hops, more))
    ensures hops[|hops| - 1].entry.Valid()
    ensures Lookup(v, src, PathText(hops, more))
         == if more.Some? then NotADirectory else Target(EntryBytes(hops[|hops| - 1].entry))
    decreases |hops|
  {
    hide *;
    RouteGoesOn(v, entries, src, hops, more.Some?);
    var hop := hops[0];
    HopStands(v, entries, slack, src, hops, more);
    if |hops| > 1 {
      OwnsChain(v, entries, slack, hop);
      RouteIsLookup(v, entries, slack, Chain(hop.chain), hops[1..], more);
      assert hops[1..][|hops[1..]| - 1] == hops[|hops| - 1];
      LookupGoesOn(v, src, PathText(hops, more), EntryBytes(hop.entry));
    } else if more.None? {
      OwnsChain(v, entries, slack, hop);
      LookupArrives(v, src, PathText(hops, more), EntryBytes(hop.entry));
    } else {
      LookupBlocked(v, src, PathText(hops, more), EntryBytes(hop.entry));
    }
  }

  lemma LookupArrives(v: Volume, src: Source, path: seq<byte>, raw: RawEntry)
    requires path != [] && Readable(v, src) && Present(Stream(v, src), Encoded(FirstPart(path)))
    requires Component(v, src, path) == raw && IsLast(path) && RestOf(path) == []
    requires v.ClusterToLba(FirstClusterOf(raw)) < |v.sectors|
    ensures Exists(v, src, path) && Lookup(v, src, path) == Target(raw)
  {
    hide Readable, Present, Stream, Encoded, FirstPart, RestOf, IsLast, Component, Volume.ClusterToLba, FirstClusterOf;
  }

  lemma LookupBlocked(v: Volume, src: Source, path: seq<byte>, raw: RawEntry)
    requires path != [] && Readable(v, src) && Present(Stream(v, src), Encoded(FirstPart(path)))
    requires Component(v, src, path) == raw && !IsLast(path) && !IsDirectoryEntry(raw)
    ensures Exists(v, src, path) && Lookup(v, src, path) == NotADirectory
  {
    hide Readable, Present, Stream, Encoded, FirstPart, RestOf, IsLast, Component, IsDirectoryEntry;
  }

  lemma LookupGoesOn(v: Volume, src: Source, path: seq<byte>, raw: RawEntry)
    requires path != [] && Readable(v, src) && Present(Stream(v, src), Encoded(FirstPart(path)))
    requires Component(v, src, path) == raw && IsDirectoryEntry(raw) && RestOf(path) != []
    requires HasChain(v, FirstClusterOf(raw)) && v.ClusterToLba(FirstClusterOf(raw)) < |v.sectors|
    requires Exists(v, Chain(ChainOf(v, FirstClusterOf(raw))), RestOf(path))
    ensures Exists(v, src, path)
    ensures Lookup(v, src, path) == Lookup(v, Chain(ChainOf(v, FirstClusterOf(raw))), RestOf(path))
  {
    RestIsShorter(path);
    hide Readable, Present, Stream, Encoded, FirstPart, RestOf, IsLast, Component, IsDirectoryEntry, HasChain,
         Volume.ClusterToLba, FirstClusterOf;
  }

  lemma RouteGoesOn(v: Volume, entries: seq<u12>, src: Source, hops: seq<Hop>, blocked: bool)
    requires Route(v, entries, src, hops, blocked)
    ensures |hops| > 0 && hops[0].Valid() && hops[0].entry.Valid()
    ensures |hops| > 1 || !blocked ==> Owns(v, entries, hops[0])
    ensures |hops| > 1 ==> Route(v, entries, Chain(hops[0].chain), hops[1..], blocked)
  {
  }

  // The first component, and the entry it names.
  lemma HopStands(v: Volume, entries: seq<u12>, slack: seq<byte>, src: Source, hops: seq<Hop>,
                  more: Option<seq<byte>>)
    requires HasTable(v, entries, slack) && v.Valid() && Route(v, entries, src, hops, more.Some?)
    ensures var path, hop := PathText(hops, more), hops[0];
      && hop.entry.Valid() && path != [] && Readable(v, src) && Present(Stream(v, src), Encoded(FirstPart(path)))
      && Component(v, src, path) == EntryBytes(hop.entry)
      && (IsDirectoryEntry(EntryBytes(hop.entry)) <==> |hops| > 1 || hop.entry.attributes.directory)
      && (|hops| == 1 && more.Some? ==> !IsDirectoryEntry(EntryBytes(hop.entry)))
      && (IsLast(path) <==> |hops| == 1 && more.None?)
      && (|hops| > 1 ==> RestOf(path) == PathText(hops[1..], more) != [])
      && (|hops| == 1 && more.None? ==> RestOf(path) == [])
  {
    var hop := hops[0];
    StreamIsDirectory(v, entries, slack, src);
    EncodedPart(hop.part);
    EntryReadsBack(hop.entry);
    PathParts(hops, more);
    assert |hops| > 1 ==> PathText(hops[1..], more) != [] by {
      if |hops| > 1 {
        PathParts(hops[1..], more);
      }
    }
    hide HasTable, Volume.Valid, EntryBytes, Encoded, Stream, Present, HasPlace, DirectoryBytes, FirstEntry,
         FirstPart, RestOf, IsLast, PathText, IsDirectoryEntry, Owns, Readable, NameOf, FirstClusterOf, SizeOf,
         Part.EntryName, Part.Text;
    FirstEntryIsFound(Stream(v, src), hop.slot, hop.part.EntryName(), EntryBytes(hop.entry));
  }

  lemma OwnsChain(v: Volume, entries: seq<u12>, slack: seq<byte>, hop: Hop)
    requires HasTable(v, entries, slack) && v.Valid() && hop.entry.Valid() && Owns(v, entries, hop)
    ensures var first := FirstClusterOf(EntryBytes(hop.entry));
      && HasChain(v, first) && ChainOf(v, first) == hop.chain && v.IsChain(hop.chain)
      && v.ClusterToLba(first) < |v.sectors|
      && v.Concatenated(hop.chain) == Laid(v, hop.chain)
  {
    EntryReadsBack(hop.entry);
    LinkedIsChainOf(v, entries, slack, hop.chain);
    assert v.HasCluster(hop.chain[0]);
  }

  // The components of a route never let stale bytes pass for an extension.
  lemma {:induction false} RouteIsTidy(v: Volume, entries: seq<u12>, src: Source, hops: seq<Hop>,
                                       more: Option<seq<byte>>)
    requires Route(v, entries, src, hops, more.Some?)
    requires more.Some? ==> 0 !in more.value && DotsInPlace(more.value)
    ensures DotsInPlace(PathText(hops, more)) && 0 !in PathText(hops, more)
    decreases |hops|
  {
    var path := PathText(hops, more);
    PartText(hops[0].part);
    PathParts(hops, more);
    if |hops| > 1 {
      RouteIsTidy(v, entries, Chain(hops[0].chain), hops[1..], more);
    } else {
      assert hops[1..] == [];
      if more.Some? {
        CutAtSlash(hops[0].part.Text(), [0x2F] + more.value);
        assert ([0x2F] + more.value)[1..] == more.value;
      }
    }
    hide FirstPart, RestOf, IsLast, Part.Text, PathText, HasPlace, DirectoryBytes, FirstEntry, Owns;
    assert 0 !in path by {
      WholeOfParts(path);
    }
  }

  lemma WholeOfParts(path: seq<byte>)
    requires 0 !in FirstPart(path) && 0 !in RestOf(path)
    ensures 0 !in path
  {
    var i := IndexOf(path, SLASH);
    assert path[..|path|] == path;
    forall k | 0 <= k < |path| ensures path[k] != 0 {
      if k < i {
        assert path[k] == FirstPart(path)[k];
      } else if k > i {
        assert path[k] == RestOf(path)[k - i - 1];
      }
    }
  }

  // The handle is open on the entry, at its first sector.
  ghost predicate StandsOpen(file: OpenFile, v: Volume, hop: Hop)
    reads file, file.buffer
  {
    var start := ClusterStart(v, hop.entry.Cluster());
    && file.isOpen && file.isDirectory == hop.entry.attributes.directory
    && file.position == 0 && file.size == hop.entry.size
    && file.firstCluster == file.currentCluster == hop.entry.Cluster() && file.currentSector == 0
    && 0 <= start < |v.sectors| && file.buffer[..] == v.sectors[start]
  }

  // FAT_Open along a route: the entry at its end, opened in the first free
  // slot; NULL if more of the path follows a file; with a full table NULL, or a
  // null pointer followed if the path goes on.
  method OpenRoute(fs: FatSystem, stack: seq<byte>, hops: seq<Hop>, more: Option<seq<byte>>,
                   ghost v: Volume, ghost entries: seq<u12>, ghost slack: seq<byte>, ghost h: nat)
      returns (result: OpenResult)
    requires fs.Valid() && fs.disk.reliable && v == fs.Vol() && RootFresh(fs) && h == FreeSlot(fs.files)
    requires HasTable(v, entries, slack) && v.Valid() && Route(v, entries, RootDir, hops, more.Some?)
    requires |stack| == 256 && stack[11] != 0x2E && (more.Some? ==> 0 !in more.value && DotsInPlace(more.value))
    modifies fs.root, fs.root.buffer, SlotObjects(fs, h)
    ensures h == 10 ==> result == if |hops| > 1 then NullDereference else Null
    ensures h < 10 && more.Some? ==> result == Null && FreeSlot(fs.files) == h
    ensures h < 10 && more.None? ==>
              h < |fs.files| && result == Handle(fs.files[h]) && StandsOpen(fs.files[h], v, hops[|hops| - 1])
  {
    ghost var path := PathText(hops, more);
    RouteIsLookup(v, entries, slack, RootDir, hops, more);
    RouteIsTidy(v, entries, RootDir, hops, more);
    ShortPathsAreTidy(path, stack);
    PathParts(hops, more);
    HopStands(v, entries, slack, RootDir, hops, more);
    assert IsDirectoryEntry(Component(v, RootDir, path)) && RestOf(path) != [] <==> |hops| > 1;
    if more.None? {
      LastOfRoute(v, entries, slack, RootDir, hops);
    }
    hide Exists, Lookup, RootFresh, Tidy, Opened, HasTable, Route, Volume.Valid, PathText, FatSystem.Vol, StandsOpen,
         FirstPart, RestOf, IsLast, DotsInPlace, Relative;
    var found, torn;
    result, found, torn := Open(fs, [0x2F] + PathText(hops, more), stack, v, h);
    WhatOpened(fs, v, h, path, hops, more, result);
  }

  lemma {:induction false} LastOfRoute(v: Volume, entries: seq<u12>, slack: seq<byte>, src: Source, hops: seq<Hop>)
    requires HasTable(v, entries, slack) && v.Valid() && Route(v, entries, src, hops, false)
    ensures var last := hops[|hops| - 1]; last.Valid() && Owns(v, entries, last)
    decreases |hops|
  {
    if |hops| > 1 {
      LastOfRoute(v, entries, slack, Chain(hops[0].chain), hops[1..]);
    }
  }

  lemma WhatOpened(fs: FatSystem, v: Volume, h: nat, path: seq<byte>, hops: seq<Hop>, more: Option<seq<byte>>,
                   result: OpenResult)
    requires fs.Valid() && fs.disk.reliable && path != [] && Opened(fs, v, h, path, result, false)
    requires |hops| > 0 && Readable(v, RootDir) && Present(Stream(v, RootDir), Encoded(FirstPart(path)))
    requires IsDirectoryEntry(Component(v, RootDir, path)) && RestOf(path) != [] <==> |hops| > 1
    requires hops[|hops| - 1].entry.Valid() && Exists(v, RootDir, path) && h <= 10
    requires Lookup(v, RootDir, path)
          == if more.Some? then NotADirectory else Target(EntryBytes(hops[|hops| - 1].entry))
    requires v.spc < 0x100 && v.dataLba < 0x10_0000
    requires more.None? ==> 2 <= hops[|hops| - 1].entry.Cluster() < 0x1000
    ensures h == 10 ==> result == if |hops| > 1 then NullDereference else Null
    ensures h < 10 && more.Some? ==> result == Null && FreeSlot(fs.files) == h
    ensures h < 10 && more.None? ==>
              h < |fs.files| && result == Handle(fs.files[h]) && StandsOpen(fs.files[h], v, hops[|hops| - 1])
  {
    hide Exists, Lookup, RootFresh, Stream, Encoded, Present, RestOf, FirstPart, FirstSectorAgain, Volume.Valid,
         EntryBytes, IsDirectoryEntry, Readable, RootClosed, HeldAt, StandsOpen;
    if h < 10 && more.None? {
      HeldStandsOpen(fs, v, h, hops[|hops| - 1]);
    }
  }

  lemma HeldStandsOpen(fs: FatSystem, v: Volume, h: nat, hop: Hop)
    requires hop.entry.Valid() && HeldAt(fs, v, h, EntryBytes(hop.entry))
    requires v.spc < 0x100 && v.dataLba < 0x10_0000 && 2 <= hop.entry.Cluster() < 0x1000
    ensures h < |fs.files| && StandsOpen(fs.files[h], v, hop)
  {
    EntryReadsBack(hop.entry);
    ClusterPlace(v, hop.entry.Cluster());
    hide ClusterStart, Volume.ClusterToLba, EntryBytes, IsDirectoryEntry, FirstClusterOf, SizeOf;
  }

  // ---- The three readers ---------------------------------------------------------------------------

  // A formatted disk whose table has these entries.
  ghost predicate Holds(sectors: seq<Sector>, f: BootFields, structSize: nat, entries: seq<u12>, slack: seq<byte>) {
    && Formatted(sectors, f, structSize)
    && SectorsFrom(sectors, f.boot.reservedSectors, f.boot.sectorsPerFat) == Packed(entries) + slack
  }

  lemma VolumeHolds(sectors: seq<Sector>, f: BootFields, structSize: nat, entries: seq<u12>, slack: seq<byte>)
    requires Holds(sectors, f, structSize, entries, slack)
    ensures f.boot.reservedSectors + f.boot.sectorsPerFat <= |sectors|
    ensures HasTable(VolumeOf(sectors, f.boot), entries, slack) && VolumeOf(sectors, f.boot).Valid()
  {
    FormattedIsMounted(sectors, f, structSize);
    hide Volume.Valid, MountedVolume, HostVolume, HostReadable, LongEnough, Accepts;
  }

  // Stage 2: from a disk to the clusters of the file at the end of a route, cut
  // to its size.
  method DeliverRoute(fs: FatSystem, structSize: nat, stack: seq<byte>, hops: seq<Hop>, counts: seq<u32>,
                      ghost f: BootFields, ghost entries: seq<u12>, ghost slack: seq<byte>)
      returns (data: seq<byte>, overrun: bool)
    requires fs.Valid() && fs.disk.reliable && Holds(fs.disk.sectors, f, structSize, entries, slack)
    requires Route(VolumeOf(fs.disk.sectors, f.boot), entries, RootDir, hops, false)
    requires !hops[|hops| - 1].entry.attributes.directory && |stack| == 256 && stack[11] != 0x2E
    modifies fs, fs.root, fs.root.buffer, fs.files, set f | f in fs.files :: f.buffer
    ensures var v, last := VolumeOf(fs.disk.sectors, f.boot), hops[|hops| - 1];
      OnDisk(v, last.chain) && PiecesOf(Laid(v, last.chain), 0, last.entry.size, counts, data, overrun, false)
  {
    ghost var raw := RouteLeads(fs.disk.sectors, f, structSize, entries, slack, hops, stack);
    hide Holds, Route, LeadsTo, PiecesOf, FileBytes, Laid, OnDisk, FatSystem.Valid, VolumeOf, MountedVolume, HasChain,
         PathText, Relative;
    data, overrun := DeliverFile(fs, structSize, [0x2F] + PathText(hops, None), stack, counts, raw);
  }

  // And the kernel, asked for in one call: all of it exactly below 32 KiB.
  method LoadRoute(fs: FatSystem, structSize: nat, stack: seq<byte>, hops: seq<Hop>,
                   ghost f: BootFields, ghost entries: seq<u12>, ghost slack: seq<byte>)
      returns (data: seq<byte>, ok: bool)
    requires fs.Valid() && fs.disk.reliable && Holds(fs.disk.sectors, f, structSize, entries, slack)
    requires Route(VolumeOf(fs.disk.sectors, f.boot), entries, RootDir, hops, false)
    requires !hops[|hops| - 1].entry.attributes.directory && |stack| == 256 && stack[11] != 0x2E
    requires hops[|hops| - 1].entry.size <= |hops[|hops| - 1].chain| * (f.boot.sectorsPerCluster * 512)
    modifies fs, fs.root, fs.root.buffer, fs.files, set f | f in fs.files :: f.buffer
    ensures ok <==> hops[|hops| - 1].entry.size < 0x8000
    ensures var v, last := VolumeOf(fs.disk.sectors, f.boot), hops[|hops| - 1];
      && OnDisk(v, last.chain)
      && (ok ==> last.entry.size <= |Laid(v, last.chain)| && data == Laid(v, last.chain)[..last.entry.size])
  {
    ghost var raw := RouteLeads(fs.disk.sectors, f, structSize, entries, slack, hops, stack);
    hide Holds, Route, LeadsTo, PiecesOf, FileBytes, Laid, OnDisk, FatSystem.Valid, VolumeOf, MountedVolume, HasChain,
         PathText, Relative;
    data, ok := LoadKernel(fs, structSize, [0x2F] + PathText(hops, None), stack, raw);
  }

  lemma RouteLeads(sectors: seq<Sector>, f: BootFields, structSize: nat, entries: seq<u12>, slack: seq<byte>,
                   hops: seq<Hop>, stack: seq<byte>) returns (raw: RawEntry)
    requires Holds(sectors, f, structSize, entries, slack) && |stack| == 256 && stack[11] != 0x2E
    requires Route(VolumeOf(sectors, f.boot), entries, RootDir, hops, false)
    requires !hops[|hops| - 1].entry.attributes.directory
    ensures var path, v, last := PathText(hops, None), VolumeOf(sectors, f.boot), hops[|hops| - 1];
      && Relative([0x2F] + path) == path && 0 !in path && LeadsTo(sectors, structSize, path, stack, raw)
      && last.entry.Valid() && raw == EntryBytes(last.entry) && SizeOf(raw) == last.entry.size
      && OnDisk(v, last.chain) && FileBytes(sectors, raw) == Laid(v, last.chain)
      && |Laid(v, last.chain)| == |last.chain| * (f.boot.sectorsPerCluster * 512)
  {
    var v, last, path := VolumeOf(sectors, f.boot), hops[|hops| - 1], PathText(hops, None);
    FormattedIsMounted(sectors, f, structSize);
    VolumeHolds(sectors, f, structSize, entries, slack);
    LastOfRoute(v, entries, slack, RootDir, hops);
    raw := EntryBytes(last.entry);
    EntryReadsBack(last.entry);
    RouteIsLookup(v, entries, slack, RootDir, hops, None);
    RouteIsTidy(v, entries, RootDir, hops, None);
    ShortPathsAreTidy(path, stack);
    PathParts(hops, None);
    OwnsChain(v, entries, slack, last);
    hide Route, Volume.Valid, HasTable, Exists, Lookup, Tidy, DotsInPlace, Volume.IsChain, Volume.Concatenated,
         MountedVolume, VolumeOf, HostVolume, HostReadable, LongEnough, Accepts, ParseBoot, EntryBytes,
         FirstClusterOf, IsDirectoryEntry, PathText, Relative, HasChain, Laid, Linked, Formatted;
  }

  // The host tool: it mounts the disk, and unless it leaves its buffer, writes
  // the clusters of an entry.
  method CopyLaidOut(sectors: seq<Sector>, e: EntryFields, ghost chain: seq<nat>,
                     ghost f: BootFields, ghost entries: seq<u12>, ghost slack: seq<byte>)
      returns (inside: bool, written: seq<byte>)
    requires Holds(sectors, f, 0, entries, slack) && e.Valid()
    requires var v := VolumeOf(sectors, f.boot);
      Linked(entries, chain) && OnDisk(v, chain) && chain[0] == e.Cluster()
    ensures inside <==> |chain| * (f.boot.sectorsPerCluster * 512) <= (e.size + 512) % 0x1_0000_0000
    ensures var s := Laid(VolumeOf(sectors, f.boot), chain);
      inside ==> |s| <= |written| && written[..|s|] == s
  {
    HostSees(sectors, f, chain, entries, slack);
    HostCounts(e, f.boot.sectorsPerCluster, chain);
    hide *;
    var mounted;
    mounted, inside, written := CopyOut(sectors, EntryBytes(e), chain);
    if inside {
      WrittenIsLaid(written, sectors, f, chain);
    }
  }

  lemma HostCounts(e: EntryFields, spc: nat, chain: seq<nat>)
    requires e.Valid()
    ensures Allocated(EntryBytes(e)) == (e.size + 512) % 0x1_0000_0000 && FirstClusterOf(EntryBytes(e)) == e.Cluster()
    ensures ChainBytes(spc, chain) == |chain| * (spc * 512)
  {
    EntryReadsBack(e);
    hide EntryBytes, SizeOf;
  }

  lemma HostSees(sectors: seq<Sector>, f: BootFields, chain: seq<nat>, entries: seq<u12>, slack: seq<byte>)
    requires Holds(sectors, f, 0, entries, slack)
    requires Linked(entries, chain) && OnDisk(VolumeOf(sectors, f.boot), chain)
    ensures 0 < |sectors| <= 0x1_0000 && ParseBoot(sectors[0]) == f.boot && HostReadable(sectors)
    ensures f.boot.bytesPerSector == SECTOR_SIZE && f.boot.sectorsPerCluster > 0 && HostRootLba(f.boot) < 0x1_0000
    ensures f.boot.reservedSectors + f.boot.sectorsPerFat <= |sectors|
    ensures MountedVolume(sectors) == VolumeOf(sectors, f.boot) && MountedVolume(sectors).IsChain(chain)
    ensures forall i :: 0 <= i < |chain| ==> MountedVolume(sectors).HasCluster(chain[i])
    ensures MountedVolume(sectors).Concatenated(chain) == Laid(VolumeOf(sectors, f.boot), chain)
  {
    FormattedIsMounted(sectors, f, 0);
    VolumeHolds(sectors, f, 0, entries, slack);
    LinkedIsChainOf(VolumeOf(sectors, f.boot), entries, slack, chain);
    SmallRoot(sectors, f);
    hide Volume.IsChain, Volume.HasCluster, Volume.Concatenated, Linked, OnDisk, Laid, VolumeOf, MountedVolume,
         HostVolume, HostReadable, ParseBoot, HostRootLba, LongEnough, Accepts, HasTable, Volume.Valid;
  }

  lemma WrittenIsLaid(written: seq<byte>, sectors: seq<Sector>, f: BootFields, chain: seq<nat>)
    requires |sectors| > 0 && f.boot.reservedSectors + f.boot.sectorsPerFat <= |sectors|
    requires OnDisk(VolumeOf(sectors, f.boot), chain)
    requires forall i :: 0 <= i < |chain| ==> MountedVolume(sectors).HasCluster(chain[i])
    requires MountedVolume(sectors).Concatenated(chain) == Laid(VolumeOf(sectors, f.boot), chain)
    requires HoldsChain(written, MountedVolume(sectors), chain)
    ensures var s := Laid(VolumeOf(sectors, f.boot), chain); |s| <= |written| && written[..|s|] == s
  {
    hide MountedVolume, VolumeOf, Laid, Volume.Concatenated, Volume.HasCluster, OnDisk;
  }

  lemma SmallRoot(sectors: seq<Sector>, f: BootFields)
    requires Formatted(sectors, f, 0)
    ensures HostRootLba(f.boot) < 0x1_0000
    ensures 0 < |sectors| <= 0x1_0000 && f.boot.bytesPerSector == SECTOR_SIZE && f.boot.sectorsPerCluster > 0
  {
    SameGeometry(f.boot, |sectors|);
  }

  // The boot sector, on the floppy it ships on: the segment starts with the
  // clusters of stage 2 exactly when there are at most 128.
  method LoadLaidOut(drive: Drive, fat: seq<byte>, firstCluster: u16, segment: array<byte>,
                     ghost chain: seq<nat>, ghost entries: seq<u12>, ghost slack: seq<byte>)
      returns (ok: bool)
    requires drive.Valid() && BootHeads(drive.geometry) != 0 && IsFloppy(drive.sectors)
    requires fat == SectorsFrom(drive.sectors, 1, 9) == Packed(entries) + slack
    requires Linked(entries, chain) && chain[0] == firstCluster
    requires forall i :: 0 <= i < |chain| ==> chain[i] + 31 < 2880
    requires segment.Length == 0x1_0000
    modifies segment
    ensures drive.reliable ==> ok
    ensures OnDisk(Floppy(drive.sectors), chain)
    ensures var s := Laid(Floppy(drive.sectors), chain);
      ok ==> (|s| <= 0x1_0000 && segment[..|s|] == s <==> |chain| <= 128)
  {
    ghost var v := Floppy(drive.sectors);
    FloppyIsBootFloppy(drive.sectors, 0);
    LinkedIsChainOf(v, entries, slack, chain);
    hide Volume.IsChain, Volume.HasCluster, Volume.Concatenated, Laid, MountedVolume, HostVolume, HostReadable, Loaded;
    ok := LoadStage2(drive, fat, firstCluster, segment, v, chain);
  }

  ghost function Floppy(sectors: seq<Sector>): Volume
    requires |sectors| == 2880
  {
    Volume(sectors, SectorsFrom(sectors, 1, 9), 1, 19, 7168, 33)
  }
}
