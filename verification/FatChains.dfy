// Cluster chains are determined by their first cluster and never repeat one,
// so every walk along a chain that ends at all is short.
module FatChains {
  import opened FatTable
  import opened FatVolume

  // A chain that came back to a cluster would repeat from there forever.
  lemma {:induction false} NoRepeat(v: Volume, chain: seq<nat>, i: nat, j: nat)
    requires v.IsChain(chain) && i < j < |chain|
    ensures chain[i] != chain[j]
    decreases |chain| - j
  {
    assert v.HasCluster(chain[i]) && v.HasCluster(chain[j]);
    assert NextCluster(v.fat, chain[i]) == chain[i + 1] && v.HasCluster(chain[i + 1]);
    if j + 1 < |chain| {
      NoRepeat(v, chain, i + 1, j + 1);
      assert NextCluster(v.fat, chain[j]) == chain[j + 1];
    }
  }

  lemma {:induction false} Unique(v: Volume, a: seq<nat>, b: seq<nat>)
    requires v.IsChain(a) && v.IsChain(b) && a[0] == b[0]
    ensures a == b
  {
    if |a| <= |b| {
      Prefix(v, a, b, |a|);
      EndsTogether(v, a, b);
    } else {
      Prefix(v, b, a, |b|);
      EndsTogether(v, b, a);
    }
  }

  lemma {:induction false} Prefix(v: Volume, a: seq<nat>, b: seq<nat>, n: nat)
    requires v.IsChain(a) && v.IsChain(b) && a[0] == b[0]
    requires n <= |a| <= |b|
    ensures a[..n] == b[..n]
  {
    if n > 1 {
      Prefix(v, a, b, n - 1);
      assert a[n - 2] == a[..n - 1][n - 2] == b[..n - 1][n - 2] == b[n - 2];
      assert v.HasCluster(a[n - 2]);
      assert NextCluster(v.fat, a[n - 2]) == a[n - 1] && NextCluster(v.fat, b[n - 2]) == b[n - 1];
    }
  }

  lemma LinkStaysInside(v: Volume, chain: seq<nat>, i: nat)
    requires v.IsChain(chain) && i < |chain|
    ensures v.HasCluster(chain[i])
    ensures NextCluster(v.fat, chain[i]) < CHAIN_END <==> i + 1 < |chain|
    ensures i + 1 < |chain| ==> NextCluster(v.fat, chain[i]) == chain[i + 1]
  {
    assert v.HasCluster(chain[i]);
    if i + 1 < |chain| {
      assert NextCluster(v.fat, chain[i]) == chain[i + 1] && v.HasCluster(chain[i + 1]);
    }
  }

  lemma EndsTogether(v: Volume, a: seq<nat>, b: seq<nat>)
    requires v.IsChain(a) && v.IsChain(b) && |a| <= |b| && a[..|a|] == b[..|a|]
    ensures a == b
  {
    var last := |a| - 1;
    assert a[last] == b[last];
    LinkStaysInside(v, a, last);
    LinkStaysInside(v, b, last);
  }

  lemma {:induction false} SizeBelow(s: set<nat>, n: nat)
    requires forall x :: x in s ==> x < n
    ensures |s| <= n
  {
    if n > 0 {
      SizeBelow(s - {n - 1}, n - 1);
    } else {
      assert s == {};
    }
  }

  ghost function Elements(chain: seq<nat>): set<nat> {
    set x | x in chain
  }

  lemma {:induction false} DistinctSize(chain: seq<nat>)
    requires forall i, j :: 0 <= i < j < |chain| ==> chain[i] != chain[j]
    ensures |Elements(chain)| == |chain|
  {
    if |chain| > 0 {
      var front, last := chain[..|chain| - 1], chain[|chain| - 1];
      DistinctSize(front);
      assert last !in front;
      assert Elements(chain) == Elements(front) + {last};
    }
  }

  // Fewer clusters than the table can number.
  lemma LengthBound(v: Volume, chain: seq<nat>)
    requires v.IsChain(chain)
    ensures |chain| <= CHAIN_END
  {
    forall i, j | 0 <= i < j < |chain|
      ensures chain[i] != chain[j]
    {
      NoRepeat(v, chain, i, j);
    }
    DistinctSize(chain);
    forall x | x in Elements(chain)
      ensures x < CHAIN_END
    {
      assert v.HasCluster(x);
    }
    SizeBelow(Elements(chain), CHAIN_END);
  }

  ghost predicate HasChain(v: Volume, first: nat) {
    exists chain :: v.IsChain(chain) && chain[0] == first
  }

  // The chain that starts at a cluster.
  ghost function ChainOf(v: Volume, first: nat): (chain: seq<nat>)
    requires HasChain(v, first)
    ensures v.IsChain(chain) && chain[0] == first
    ensures forall other :: v.IsChain(other) && other[0] == first ==> other == chain
  {
    var chain :| v.IsChain(chain) && chain[0] == first;
    forall other | v.IsChain(other) && other[0] == first
      ensures other == chain
    {
      Unique(v, other, chain);
    }
    chain
  }

  // The sectors of a chain are its clusters' sectors, so its byte stream is
  // the concatenation of its clusters.
  lemma {:induction false} BytesConcatenate(v: Volume, chain: seq<nat>)
    requires forall i :: 0 <= i < |chain| ==> v.HasCluster(chain[i])
    ensures forall k :: 0 <= k < |v.ChainLbas(chain)| ==> v.ChainLbas(chain)[k] < |v.sectors|
    ensures v.Bytes(v.ChainLbas(chain)) == v.Concatenated(chain)
  {
    if |chain| > 0 {
      var front, last := chain[..|chain| - 1], chain[|chain| - 1];
      BytesConcatenate(v, front);
      AppendCluster(v, v.ChainLbas(front), last);
    }
  }

  lemma AppendCluster(v: Volume, lbas: seq<nat>, cluster: nat)
    requires v.HasCluster(cluster)
    requires forall k :: 0 <= k < |lbas| ==> lbas[k] < |v.sectors|
    ensures var more := lbas + v.ClusterLbas(cluster);
      && (forall k :: 0 <= k < |more| ==> more[k] < |v.sectors|)
      && v.Bytes(more) == v.Bytes(lbas) + v.ClusterBytes(cluster)
  {
  }
}
