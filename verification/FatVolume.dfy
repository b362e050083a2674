// A FAT12 volume as the readers see it: cluster chains, and the bytes a chain
// stands for.
module FatVolume {
  import opened Words
  import opened Arithmetic
  import opened Disk
  import opened FatTable

  const CHAIN_END: nat := 0xFF8
  const FIRST_CLUSTER: nat := 2

  // FAT_ClusterToLba, in 32-bit unsigned arithmetic.
  function ClusterLba(dataLba: nat, spc: nat, cluster: nat): u32 {
    (dataLba + (cluster - FIRST_CLUSTER) * spc) % 0x1_0000_0000
  }

  // What initialisation leaves behind: the table, the cluster size, the data
  // area and the root directory.
  datatype Volume = Volume(
    sectors: seq<Sector>, fat: seq<byte>, spc: nat, rootLba: nat, rootBytes: nat, dataLba: nat)
  {
    ghost predicate Valid() {
      && 1 <= spc < 0x100
      && |sectors| <= 0x1_0000
      && rootLba + |RootLbas()| <= |sectors|
      && rootBytes < 0x1_0000
    }

    function ClusterToLba(cluster: nat): u32 {
      ClusterLba(dataLba, spc, cluster)
    }

    // Sector s of a cluster.
    function ClusterSector(cluster: nat, s: nat): nat {
      ClusterToLba(cluster) + s
    }

    // A cluster that has a table entry and whose sectors exist.
    predicate HasCluster(cluster: nat) {
      && FIRST_CLUSTER <= cluster < CHAIN_END
      && InTable(fat, cluster)
      && ClusterToLba(cluster) + spc <= |sectors|
    }

    // The clusters of a file, linked by the table up to an end mark.
    ghost predicate IsChain(chain: seq<nat>) {
      && |chain| > 0
      && (forall i :: 0 <= i < |chain| ==> HasCluster(chain[i]))
      && (forall i :: 0 <= i < |chain| - 1 ==> NextCluster(fat, chain[i]) == chain[i + 1])
      && NextCluster(fat, chain[|chain| - 1]) >= CHAIN_END
    }

    // The root directory occupies consecutive sectors; even an empty one is
    // read one sector deep.
    ghost function RootLbas(): seq<nat> {
      var n := (rootBytes + SECTOR_SIZE - 1) / SECTOR_SIZE;
      seq(if n == 0 then 1 else n, i requires 0 <= i => rootLba + i)
    }

    // The sectors of a cluster, and of a chain of clusters, in reading order.
    ghost function ClusterLbas(cluster: nat): seq<nat>
    {
      seq(spc, s requires s >= 0 => ClusterSector(cluster, s))
    }

    ghost function ChainLbas(chain: seq<nat>): (lbas: seq<nat>)
      ensures |lbas| == |chain| * spc
    {
      if |chain| == 0 then []
      else ChainLbas(chain[..|chain| - 1]) + ClusterLbas(chain[|chain| - 1])
    }

    // k is sector s of cluster number q.
    ghost predicate Digits(chain: seq<nat>, q: nat, s: nat, k: nat) {
      q < |chain| && s < spc && k == q * spc + s
    }

    lemma {:induction false} ChainLbaAt(chain: seq<nat>, q: nat, s: nat, k: nat)
      requires Digits(chain, q, s, k)
      ensures k < |ChainLbas(chain)|
      ensures ChainLbas(chain)[k] == ClusterSector(chain[q], s)
    {
      MulLe(q + 1, |chain|, spc);
      if q < |chain| - 1 {
        ChainLbaAt(chain[..|chain| - 1], q, s, k);
      }
    }

    lemma ChainLbasExist(chain: seq<nat>)
      requires Valid() && IsChain(chain)
      ensures forall k :: 0 <= k < |ChainLbas(chain)| ==> ChainLbas(chain)[k] < |sectors|
    {
      forall k | 0 <= k < |ChainLbas(chain)|
        ensures ChainLbas(chain)[k] < |sectors|
      {
        var q, s := Split(k, |chain|, spc);
        ChainLbaAt(chain, q, s, k);
        assert HasCluster(chain[q]);
      }
    }

    // The cluster and sector cursors stand on sector k of the chain.
    ghost predicate ChainTracks(chain: seq<nat>, cluster: nat, s: nat, k: nat) {
      exists q {:trigger chain[q]} :: 0 <= q && Digits(chain, q, s, k) && cluster == chain[q]
    }

    // The cursors after one more sector.
    function StepCursors(cluster: nat, s: nat): (nat, nat)
      requires InTable(fat, cluster)
    {
      if s + 1 >= spc then (NextCluster(fat, cluster), 0) else (cluster, s + 1)
    }

    // The tracked sector is the one the cursors address.
    lemma TrackedSector(chain: seq<nat>, q: nat, s: nat, k: nat)
      requires IsChain(chain) && Digits(chain, q, s, k)
      ensures k < |ChainLbas(chain)|
      ensures ChainTracks(chain, chain[q], s, k) && chain[q] < CHAIN_END
      ensures ChainLbas(chain)[k] == ClusterSector(chain[q], s) < |sectors|
    {
      ChainLbaAt(chain, q, s, k);
      assert HasCluster(chain[q]);
    }

    // Stepping the cursors walks the chain's sectors in order, and meets an
    // end mark exactly behind the last of them.
    lemma StepFollowsChain(chain: seq<nat>, cluster: nat, s: nat, k: nat)
      requires IsChain(chain) && ChainTracks(chain, cluster, s, k)
      ensures InTable(fat, cluster)
      ensures k < |ChainLbas(chain)|
      ensures var (cluster', s') := StepCursors(cluster, s);
        if k + 1 < |ChainLbas(chain)| then
          && cluster' < CHAIN_END && ChainTracks(chain, cluster', s', k + 1)
          && ChainLbas(chain)[k + 1] == ClusterSector(cluster', s') < |sectors|
        else cluster' >= CHAIN_END
    {
      var q :| 0 <= q && Digits(chain, q, s, k) && cluster == chain[q];
      assert HasCluster(chain[q]);
      TrackedSector(chain, q, s, k);
      if s + 1 < spc {
        TrackedSector(chain, q, s + 1, k + 1);
      } else {
        assert k + 1 == (q + 1) * spc;
        if q + 1 < |chain| {
          assert NextCluster(fat, chain[q]) == chain[q + 1];
          TrackedSector(chain, q + 1, 0, k + 1);
        } else {
          assert k + 1 == |ChainLbas(chain)|;
          assert NextCluster(fat, cluster) >= CHAIN_END;
        }
      }
    }

    lemma SectorInCluster(chain: seq<nat>, cluster: nat, s: nat, k: nat)
      requires IsChain(chain) && ChainTracks(chain, cluster, s, k)
      ensures s < spc
    {
    }

    // The bytes of a list of sectors.
    ghost function Bytes(lbas: seq<nat>): (b: seq<byte>)
      requires forall k :: 0 <= k < |lbas| ==> lbas[k] < |sectors|
    {
      seq(SECTOR_SIZE * |lbas|, p requires 0 <= p < SECTOR_SIZE * |lbas| =>
        sectors[lbas[p / SECTOR_SIZE]][p % SECTOR_SIZE])
    }

    // One cluster, as a run of sectors.
    ghost function ClusterBytes(cluster: nat): (b: seq<byte>)
      requires HasCluster(cluster)
      ensures |b| == spc * SECTOR_SIZE
    {
      seq(spc * SECTOR_SIZE, p requires 0 <= p < spc * SECTOR_SIZE =>
        sectors[ClusterToLba(cluster) + p / SECTOR_SIZE][p % SECTOR_SIZE])
    }

    // The reference meaning of a chain: its clusters, concatenated.
    ghost function Concatenated(chain: seq<nat>): (b: seq<byte>)
      requires forall i :: 0 <= i < |chain| ==> HasCluster(chain[i])
      ensures |b| == |chain| * (spc * SECTOR_SIZE)
    {
      NextMultiple(|chain|, spc * SECTOR_SIZE);
      if |chain| == 0 then []
      else Concatenated(chain[..|chain| - 1]) + ClusterBytes(chain[|chain| - 1])
    }
  }
}
