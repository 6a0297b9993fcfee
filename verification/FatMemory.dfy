/**
 * The mapped image as flat memory: the bytes of the data area cut into clusters.
 */
module FatMemory {
  import opened Bytes
  import opened FatGeometry

  /** A data area whose clusters all have addresses of their own (see `ClusterOffsetsAreDistinct`). */
  predicate Addressable(length: nat, clusterSize: nat, clusters: nat) {
    clusterSize > 0 && length == clusters * clusterSize <= DWORD_LIMIT
  }

  /** Where a cluster lies, as a plain product. */
  lemma ClusterLies(c: nat, clusterSize: nat, clusters: nat)
    requires clusterSize > 0 && clusters * clusterSize <= DWORD_LIMIT && 2 <= c < clusters + 2
    ensures 0 <= ClusterOffset(c, clusterSize) == (c - 2) * clusterSize
    ensures ClusterOffset(c, clusterSize) + clusterSize <= clusters * clusterSize
  {
    OffsetWithoutWrap(c, clusters, clusterSize);
  }

  /** Clusters do not overlap. */
  lemma ClustersApart(c: nat, d: nat, clusterSize: nat, clusters: nat)
    requires clusterSize > 0 && clusters * clusterSize <= DWORD_LIMIT && 2 <= c < d < clusters + 2
    ensures ClusterOffset(c, clusterSize) + clusterSize <= ClusterOffset(d, clusterSize)
  {
    ClusterLies(c, clusterSize, clusters);
    ClusterLies(d, clusterSize, clusters);
    Distribute(c - 2, d - c, clusterSize);
    Distribute(d - c - 1, 1, clusterSize);
  }

  function ClusterAt(bytes: seq<byte>, clusterSize: nat, clusters: nat, c: nat): (cluster: seq<byte>)
    requires Addressable(|bytes|, clusterSize, clusters) && 2 <= c < clusters + 2
    ensures |cluster| == clusterSize
  {
    ClusterLies(c, clusterSize, clusters);
    bytes[ClusterOffset(c, clusterSize)..ClusterOffset(c, clusterSize) + clusterSize]
  }

  /** The data area by cluster number. */
  function Clusters(bytes: seq<byte>, clusterSize: nat, clusters: nat): (data: seq<seq<byte>>)
    requires Addressable(|bytes|, clusterSize, clusters)
    ensures |data| == clusters + 2
    ensures forall c :: 2 <= c < clusters + 2 ==> data[c] == ClusterAt(bytes, clusterSize, clusters, c)
  {
    seq(clusters + 2, c requires 0 <= c < clusters + 2 =>
      if c < 2 then [] else ClusterAt(bytes, clusterSize, clusters, c))
  }

  lemma SpliceClusterAt(bytes: seq<byte>, clusterSize: nat, clusters: nat, c: nat, at: nat, piece: seq<byte>, d: nat)
    requires Addressable(|bytes|, clusterSize, clusters) && 2 <= c < clusters + 2 && at + |piece| <= clusterSize
    requires 2 <= d < clusters + 2
    ensures ClusterOffset(c, clusterSize) + at + |piece| <= |bytes|
    ensures ClusterAt(Splice(bytes, ClusterOffset(c, clusterSize) + at, piece), clusterSize, clusters, d)
      == if d == c then Splice(ClusterAt(bytes, clusterSize, clusters, c), at, piece)
         else ClusterAt(bytes, clusterSize, clusters, d)
  {
    hide ClusterOffset, Splice;
    ClusterLies(c, clusterSize, clusters);
    ClusterLies(d, clusterSize, clusters);
    if d < c {
      ClustersApart(d, c, clusterSize, clusters);
      SpliceOutside(bytes, ClusterOffset(c, clusterSize) + at, piece, ClusterOffset(d, clusterSize), clusterSize);
    } else if d > c {
      ClustersApart(c, d, clusterSize, clusters);
      SpliceOutside(bytes, ClusterOffset(c, clusterSize) + at, piece, ClusterOffset(d, clusterSize), clusterSize);
    } else {
      SpliceWithin(bytes, ClusterOffset(c, clusterSize), clusterSize, at, piece);
    }
  }

  /** Writing inside one cluster's memory changes that cluster and no other. */
  lemma SpliceCluster(bytes: seq<byte>, clusterSize: nat, clusters: nat, c: nat, at: nat, piece: seq<byte>)
    requires Addressable(|bytes|, clusterSize, clusters) && 2 <= c < clusters + 2 && at + |piece| <= clusterSize
    ensures ClusterOffset(c, clusterSize) + at + |piece| <= |bytes|
    ensures var data := Clusters(bytes, clusterSize, clusters);
      Clusters(Splice(bytes, ClusterOffset(c, clusterSize) + at, piece), clusterSize, clusters)
      == data[c := Splice(data[c], at, piece)]
  {
    hide ClusterOffset, Splice, ClusterAt, Addressable;
    var data := Clusters(bytes, clusterSize, clusters);
    SpliceClusterAt(bytes, clusterSize, clusters, c, at, piece, c);
    var bytes' := Splice(bytes, ClusterOffset(c, clusterSize) + at, piece);
    forall d | 2 <= d < clusters + 2
      ensures ClusterAt(bytes', clusterSize, clusters, d) == if d == c then Splice(data[c], at, piece) else data[d]
    {
      SpliceClusterAt(bytes, clusterSize, clusters, c, at, piece, d);
    }
    assert Clusters(bytes', clusterSize, clusters) == data[c := Splice(data[c], at, piece)];
  }

  lemma SpliceOutside(bytes: seq<byte>, at: nat, piece: seq<byte>, from: nat, size: nat)
    requires at + |piece| <= |bytes| && from + size <= |bytes|
    requires from + size <= at || at + |piece| <= from
    ensures Splice(bytes, at, piece)[from..from + size] == bytes[from..from + size]
  {
  }

  lemma SpliceWithin(bytes: seq<byte>, from: nat, size: nat, at: nat, piece: seq<byte>)
    requires from + size <= |bytes| && at + |piece| <= size
    ensures Splice(bytes, from + at, piece)[from..from + size] == Splice(bytes[from..from + size], at, piece)
  {
  }
}
