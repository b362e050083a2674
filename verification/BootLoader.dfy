// The boot sector's loader of stage 2: it follows the cluster chain with its
// own arithmetic, and fills a segment of 64 KiB.
module BootLoader {
  import opened Words
  import opened Arithmetic
  import opened Disk
  import opened FatTable
  import opened FatVolume
  import opened FatChains

  // The boot sector assumes its own floppy: one sector per cluster, and the
  // first data cluster at sector 33.
  predicate BootFloppy(v: Volume) {
    v.spc == 1 && v.dataLba == 33
  }

  const SEGMENT: nat := 0x1_0000

  // The last cluster whose sector lands in block j of the segment, after n
  // clusters have been loaded.
  function LastInBlock(j: nat, n: nat): (i: nat)
    requires j < 128 && j < n
    ensures j <= i < n
  {
    j + (n - 1 - j) / 128 * 128
  }

  lemma LastInBlockStep(j: nat, n: nat)
    requires j < 128 && j <= n
    ensures j < n ==> LastInBlock(j, n) < n && LastInBlock(j, n) % 128 == j
    ensures n % 128 == j ==> LastInBlock(j, n + 1) == n
    ensures n % 128 != j && j < n ==> LastInBlock(j, n + 1) == LastInBlock(j, n)
  {
  }

  // disk_read for one sector, into the segment.
  method LoadSector(drive: Drive, lba: u16, segment: array<byte>, bx: nat) returns (ok: bool)
    requires drive.Valid() && BootHeads(drive.geometry) != 0 && lba < |drive.sectors|
    requires segment.Length == SEGMENT && bx + SECTOR_SIZE <= SEGMENT
    modifies segment
    ensures drive.reliable ==> ok
    ensures ok ==> segment[bx..bx + SECTOR_SIZE] == drive.sectors[lba]
    ensures segment[..bx] == old(segment[..bx]) && segment[bx + SECTOR_SIZE..] == old(segment[bx + SECTOR_SIZE..])
  {
    var sector := new byte[SECTOR_SIZE];
    ok := drive.BootRead(lba, sector);
    ghost var bytes := sector[..];
    var p := 0;
    while p < SECTOR_SIZE
      invariant 0 <= p <= SECTOR_SIZE
      invariant sector[..] == bytes && segment[bx..bx + p] == bytes[..p]
      invariant segment[..bx] == old(segment[..bx]) && segment[bx + SECTOR_SIZE..] == old(segment[bx + SECTOR_SIZE..])
    {
      segment[bx + p] := sector[p];
      p := p + 1;
    }
  }

  // The 128 sectors a segment has room for.
  ghost function Block(segment: seq<byte>, j: nat): seq<byte>
    requires |segment| == SEGMENT && j < 128
  {
    segment[SECTOR_SIZE * j..SECTOR_SIZE * (j + 1)]
  }

  // Loading into one block leaves the others alone.
  lemma OtherBlocks(before: seq<byte>, after: seq<byte>, bx: nat, j: nat)
    requires |before| == |after| == SEGMENT && j < 128 && bx % SECTOR_SIZE == 0 && bx + SECTOR_SIZE <= SEGMENT
    requires after[..bx] == before[..bx] && after[bx + SECTOR_SIZE..] == before[bx + SECTOR_SIZE..]
    requires SECTOR_SIZE * j != bx
    ensures Block(after, j) == Block(before, j)
  {
    var a := SECTOR_SIZE * j;
    assert a + SECTOR_SIZE <= bx || bx + SECTOR_SIZE <= a by {
      WholeBlocks(j, bx);
    }
    if a < bx {
      PartOfFront(after, bx, a, a + SECTOR_SIZE);
      PartOfFront(before, bx, a, a + SECTOR_SIZE);
    } else {
      PartOfBack(after, bx + SECTOR_SIZE, a, a + SECTOR_SIZE);
      PartOfBack(before, bx + SECTOR_SIZE, a, a + SECTOR_SIZE);
    }
  }

  lemma WholeBlocks(j: nat, bx: nat)
    requires bx % 512 == 0 && 512 * j != bx
    ensures 512 * j + 512 <= bx || bx + 512 <= 512 * j
  {
    assert bx == 512 * (bx / 512);
  }

  lemma PartOfFront(s: seq<byte>, n: nat, a: nat, b: nat)
    requires a <= b <= n <= |s|
    ensures s[..n][a..b] == s[a..b]
  {
  }

  lemma PartOfBack(s: seq<byte>, n: nat, a: nat, b: nat)
    requires n <= a <= b <= |s|
    ensures s[n..][a - n..b - n] == s[a..b]
  {
  }

  // The sectors of a chain of one-sector clusters.
  ghost function FileSectors(v: Volume, chain: seq<nat>): (blocks: seq<Sector>)
    requires v.IsChain(chain) && v.spc >= 1
    ensures |blocks| == |chain|
    ensures forall i :: 0 <= i < |chain| ==>
              v.ClusterToLba(chain[i]) < |v.sectors| && blocks[i] == v.sectors[v.ClusterToLba(chain[i])]
  {
    assert forall i :: 0 <= i < |chain| ==> v.HasCluster(chain[i]);
    seq(|chain|, i requires 0 <= i < |chain| => v.sectors[v.ClusterToLba(chain[i])])
  }

  // Every block reached so far holds the last sector that landed in it.
  ghost predicate Loaded(segment: seq<byte>, blocks: seq<Sector>, n: nat) {
    && |segment| == SEGMENT && n <= |blocks|
    && forall j :: 0 <= j < 128 && j < n ==> Block(segment, j) == blocks[LastInBlock(j, n)]
  }

  lemma LoadedNext(before: seq<byte>, after: seq<byte>, blocks: seq<Sector>, n: nat, bx: nat)
    requires |before| == |after| == SEGMENT && n < |blocks|
    requires Loaded(before, blocks, n) && bx == SECTOR_SIZE * (n % 128)
    requires after[bx..bx + SECTOR_SIZE] == blocks[n]
    requires after[..bx] == before[..bx] && after[bx + SECTOR_SIZE..] == before[bx + SECTOR_SIZE..]
    ensures Loaded(after, blocks, n + 1)
  {
    forall j | 0 <= j < 128 && j < n + 1
      ensures Block(after, j) == blocks[LastInBlock(j, n + 1)]
    {
      LastInBlockStep(j, n);
      if j != n % 128 {
        OtherBlocks(before, after, bx, j);
      }
    }
  }

  // The boot sector's arithmetic addresses the cluster and follows its link.
  lemma BootStep(v: Volume, chain: seq<nat>, i: nat)
    requires v.IsChain(chain) && BootFloppy(v) && i < |chain|
    ensures chain[i] + 31 == v.ClusterToLba(chain[i]) < |v.sectors|
    ensures InTable(v.fat, chain[i]) && chain[i] < CHAIN_END
    ensures BootNext(v.fat, chain[i]) < CHAIN_END <==> i + 1 < |chain|
    ensures i + 1 < |chain| ==> BootNext(v.fat, chain[i]) == chain[i + 1]
  {
    LinkStaysInside(v, chain, i);
    TriplingKeepsParity(chain[i]);
  }

  // A sector starts within the segment, and the 16-bit offset wraps after 128.
  lemma SectorsInSegment(i: nat)
    ensures SECTOR_SIZE * (i % 128) + SECTOR_SIZE <= SEGMENT
    ensures (SECTOR_SIZE * (i % 128) + SECTOR_SIZE) % SEGMENT == SECTOR_SIZE * ((i + 1) % 128)
  {
    if i % 128 == 127 {
      DivModUnique(i + 1, 128, i / 128 + 1, 0);
    } else {
      DivModUnique(i + 1, 128, i / 128, i % 128 + 1);
    }
  }

  // One sector loaded, and the 16-bit destination offset behind it.
  method LoadNext(drive: Drive, lba: u16, segment: array<byte>, bx: nat, ghost blocks: seq<Sector>, ghost i: nat)
      returns (ok: bool, next: nat)
    requires drive.Valid() && BootHeads(drive.geometry) != 0 && lba < |drive.sectors|
    requires Loaded(segment[..], blocks, i) && i < |blocks| && blocks[i] == drive.sectors[lba]
    requires bx == SECTOR_SIZE * (i % 128)
    modifies segment
    ensures drive.reliable ==> ok
    ensures ok ==> Loaded(segment[..], blocks, i + 1)
    ensures next == SECTOR_SIZE * ((i + 1) % 128)
  {
    hide Block, LastInBlock;
    ghost var before := segment[..];
    SectorsInSegment(i);
    ok := LoadSector(drive, lba, segment, bx);
    if ok {
      LoadedNext(before, segment[..], blocks, i, bx);
    }
    next := (bx + SECTOR_SIZE) % SEGMENT;
  }

  // The loading loop of the boot sector. After 128 sectors the destination
  // offset starts over; a sector that cannot be read ends it.
  method LoadStage2(drive: Drive, fat: seq<byte>, firstCluster: u16, segment: array<byte>,
                    ghost v: Volume, ghost chain: seq<nat>)
      returns (ok: bool)
    requires drive.Valid() && BootHeads(drive.geometry) != 0 && v.sectors == drive.sectors && v.fat == fat
    requires BootFloppy(v) && v.IsChain(chain) && chain[0] == firstCluster
    requires segment.Length == SEGMENT
    modifies segment
    ensures drive.reliable ==> ok
    ensures ok ==> Loaded(segment[..], FileSectors(v, chain), |chain|)
    ensures ok ==> (HoldsFile(segment[..], v, chain) <==> |chain| <= 128)
  {
    ghost var blocks := FileSectors(v, chain);
    assert Loaded(segment[..], blocks, 0);
    hide Loaded, Volume.IsChain, BootNext, Volume.ClusterToLba, FileSectors;
    var cluster: u16, bx: nat := firstCluster, 0;
    ghost var i := 0;
    while true
      invariant 0 <= i < |chain| && cluster == chain[i] && bx == SECTOR_SIZE * (i % 128)
      invariant Loaded(segment[..], blocks, i)
      decreases |chain| - i
    {
      BootStep(v, chain, i);
      ok, bx := LoadNext(drive, cluster + 31, segment, bx, blocks, i);
      if !ok {
        return;
      }
      cluster := BootNext(fat, cluster);
      i := i + 1;
      if cluster >= CHAIN_END {
        break;
      }
    }
    WholeFileLoaded(segment[..], v, chain);
  }

  // The segment starts with the whole file.
  ghost predicate HoldsFile(segment: seq<byte>, v: Volume, chain: seq<nat>)
    requires v.IsChain(chain)
  {
    SECTOR_SIZE * |chain| <= |segment| && segment[..SECTOR_SIZE * |chain|] == v.Concatenated(chain)
  }

  // It does up to 128 clusters, and for no longer file.
  lemma WholeFileLoaded(segment: seq<byte>, v: Volume, chain: seq<nat>)
    requires BootFloppy(v) && v.IsChain(chain) && Loaded(segment, FileSectors(v, chain), |chain|)
    ensures HoldsFile(segment, v, chain) <==> |chain| <= 128
  {
    hide Loaded, FileSectors, Volume.Concatenated;
    assert |segment| == SEGMENT by { LoadedSegment(segment, FileSectors(v, chain), |chain|); }
    if |chain| <= 128 {
      StartLoaded(segment, v, chain, |chain|);
      assert chain[..|chain|] == chain;
    }
  }

  lemma LoadedSegment(segment: seq<byte>, blocks: seq<Sector>, n: nat)
    requires Loaded(segment, blocks, n)
    ensures |segment| == SEGMENT
  {
  }

  lemma {:induction false} StartLoaded(segment: seq<byte>, v: Volume, chain: seq<nat>, k: nat)
    requires BootFloppy(v) && v.IsChain(chain) && Loaded(segment, FileSectors(v, chain), |chain|)
    requires k <= |chain| <= 128
    ensures SECTOR_SIZE * k <= |segment| == SEGMENT
    ensures forall i :: 0 <= i < k ==> v.HasCluster(chain[..k][i])
    ensures segment[..SECTOR_SIZE * k] == v.Concatenated(chain[..k])
  {
    if k > 0 {
      StartLoaded(segment, v, chain, k - 1);
      BlockIsCluster(segment, v, chain, k - 1);
      assert chain[..k][..k - 1] == chain[..k - 1] && chain[..k][k - 1] == chain[k - 1];
      assert segment[..SECTOR_SIZE * k] == segment[..SECTOR_SIZE * (k - 1)] + Block(segment, k - 1);
    }
  }

  // Up to 128 clusters, block j is cluster j.
  lemma BlockIsCluster(segment: seq<byte>, v: Volume, chain: seq<nat>, j: nat)
    requires BootFloppy(v) && v.IsChain(chain) && Loaded(segment, FileSectors(v, chain), |chain|)
    requires j < |chain| <= 128
    ensures |segment| == SEGMENT && v.HasCluster(chain[j]) && Block(segment, j) == v.ClusterBytes(chain[j])
  {
    assert LastInBlock(j, |chain|) == j;
    assert v.HasCluster(chain[j]);
    OneSectorCluster(v, chain[j]);
    hide LastInBlock, Volume.ClusterToLba, Block;
  }

  lemma OneSectorCluster(v: Volume, c: nat)
    requires BootFloppy(v) && v.HasCluster(c)
    ensures v.ClusterToLba(c) < |v.sectors| && v.ClusterBytes(c) == v.sectors[v.ClusterToLba(c)]
  {
    hide Volume.ClusterToLba;
  }

  // Of a longer file, the first blocks hold what came 128 clusters later, or
  // later still.
  lemma FirstBlocksOverwritten(segment: seq<byte>, v: Volume, chain: seq<nat>, j: nat)
    requires BootFloppy(v) && v.IsChain(chain) && Loaded(segment, FileSectors(v, chain), |chain|)
    requires j < 128 && 128 + j < |chain|
    ensures exists i :: 128 <= i < |chain| && i % 128 == j && |segment| == SEGMENT && v.HasCluster(chain[i])
                        && Block(segment, j) == v.ClusterBytes(chain[i])
  {
    LastInBlockStep(j, |chain|);
    var i := LastInBlock(j, |chain|);
    assert v.HasCluster(chain[i]);
    OneSectorCluster(v, chain[i]);
    hide LastInBlock, Volume.ClusterToLba, Block;
  }
}
