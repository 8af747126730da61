// The disk as the inserter keeps it: a 4 MiB byte image in memory, read and written in 512-byte
// blocks, four of which make a cluster.
module Storage {
  import opened Layout
  import opened Chains
  import opened Memory

  class Image {
    const bytes: array<byte>

    constructor (bytes: array<byte>)
      ensures this.bytes == bytes
    {
      this.bytes := bytes;
    }

    ghost predicate Valid() {
      bytes.Length == 4194304
    }

    ghost function Clusters(): Disk
      requires Valid()
      reads bytes
    {
      ClustersOf(bytes[..])
    }

    method ReadBlocks(ptr: array<byte>, at: nat, lba: nat, count: nat)
      requires Valid() && ptr != bytes
      requires 512 * (lba + count) <= bytes.Length && at + 512 * count <= ptr.Length
      modifies ptr
      ensures ptr[..] == Splice(old(ptr[..]), at, bytes[512 * lba..512 * (lba + count)])
    {
      hide Splice, ClustersOf;
      SpliceNothing(ptr[..], at);
      assert bytes[512 * lba..512 * lba] == [];
      for i := 0 to count
        invariant ptr[..] == Splice(old(ptr[..]), at, bytes[512 * lba..512 * (lba + i)])
      {
        var block := bytes[512 * (lba + i)..512 * (lba + i) + 512];
        SpliceMore(old(ptr[..]), at, bytes[512 * lba..512 * (lba + i)], block);
        Memcpy(ptr, at + 512 * i, block, 512);
        assert block[..512] == block;
        assert bytes[512 * lba..512 * (lba + i + 1)] == bytes[512 * lba..512 * (lba + i)] + block;
      }
    }

    method WriteBlocks(src: seq<byte>, lba: nat, count: nat)
      requires Valid() && 512 * (lba + count) <= bytes.Length && 512 * count <= |src|
      modifies bytes
      ensures bytes[..] == Splice(old(bytes[..]), 512 * lba, src[..512 * count])
    {
      hide Splice, ClustersOf;
      SpliceNothing(bytes[..], 512 * lba);
      assert src[..0] == [];
      for i := 0 to count
        invariant bytes[..] == Splice(old(bytes[..]), 512 * lba, src[..512 * i])
      {
        var block := src[512 * i..512 * i + 512];
        SpliceMore(old(bytes[..]), 512 * lba, src[..512 * i], block);
        Memcpy(bytes, 512 * (lba + i), block, 512);
        assert block[..512] == block;
        assert src[..512 * (i + 1)] == src[..512 * i] + block;
      }
    }

    method ReadCluster(ptr: array<byte>, at: nat, c: nat)
      requires Valid() && ptr != bytes && c < 2048 && at + 2048 <= ptr.Length
      modifies ptr
      ensures ptr[..] == Splice(old(ptr[..]), at, Clusters()[c])
    {
      ReadBlocks(ptr, at, c * 4, 4);
    }

    method WriteCluster(src: seq<byte>, c: nat)
      requires Valid() && c < 2048 && |src| == 2048
      modifies bytes
      ensures Clusters() == old(Clusters())[c := src]
    {
      WriteBlocks(src, c * 4, 4);
      assert src[..2048] == src;
      SpliceCluster(old(bytes[..]), c, src);
    }
  }

  ghost function ClustersOf(m: seq<byte>): Disk
    requires |m| == 4194304
  {
    seq(2048, c requires 0 <= c < 2048 => m[2048 * c..2048 * c + 2048])
  }

  lemma SpliceCluster(m: seq<byte>, c: nat, src: Cluster)
    requires |m| == 4194304 && c < 2048
    ensures ClustersOf(Splice(m, 2048 * c, src)) == ClustersOf(m)[c := src]
  {
    var m' := Splice(m, 2048 * c, src);
    forall k | 0 <= k < 2048
      ensures ClustersOf(m')[k] == ClustersOf(m)[c := src][k]
    {
      if k < c {
        assert m'[2048 * k..2048 * k + 2048] == m[2048 * k..2048 * k + 2048];
      } else if k > c {
        assert m'[2048 * k..2048 * k + 2048] == m[2048 * k..2048 * k + 2048];
      } else {
        assert m'[2048 * k..2048 * k + 2048] == src;
      }
    }
  }

  /** Cluster `c` is the 2048 bytes from byte 2048 c of the image. */
  lemma ClusterBytes(m: seq<byte>, c: nat, j: nat)
    requires |m| == 4194304 && c < 2048 && j < 2048
    ensures ClustersOf(m)[c][j] == m[2048 * c + j]
  {
    assert m[2048 * c..2048 * c + 2048][j] == m[2048 * c + j];
  }
}
