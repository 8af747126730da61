// The driver itself: the cached cluster map is an array updated in place, the disk is the byte
// image, and every call is proved equal to its function in module Calls.
module Driver {
  import opened Layout
  import opened Chains
  import opened Memory
  import opened Storage
  import opened Calls

  class FileSystem {
    const image: Image
    const clusterMap: array<u32>
    var dirTableBuf: Table

    /** Driver state starts out zeroed, as a static does in C. */
    constructor (image: Image)
      requires image.Valid()
      ensures Valid() && this.image == image && fresh(clusterMap)
      ensures clusterMap[..] == seq(512, _ => 0) && dirTableBuf == ZERO_TABLE
    {
      this.image := image;
      clusterMap := new u32[512](_ => 0);
      dirTableBuf := ZERO_TABLE;
    }

    ghost predicate Valid() {
      && image.Valid() && clusterMap.Length == 512
      && clusterMap as object != image.bytes as object
    }

    /** The cached map and the disk. */
    ghost function Now(): State
      requires Valid()
      reads clusterMap, image.bytes
    {
      State(clusterMap[..], image.Clusters())
    }

    // ----- clusters as structures -----

    method LoadTable(c: nat) returns (t: Table)
      requires Valid() && c < 2048
      ensures t == TableAt(Now(), c)
    {
      var raw := new byte[2048];
      image.ReadCluster(raw, 0, c);
      assert raw[..] == Now().disk[c];
      t := DecodeTable(raw[..]);
    }

    /** `write_clusters(&fat_table, FAT_CLUSTER_NUMBER, 1)` */
    method StoreMap()
      requires Valid()
      modifies image.bytes
      ensures Now() == State(old(Now().fat), old(Now().disk)[1 := EncodeFat(old(Now().fat))])
    {
      image.WriteCluster(EncodeFat(clusterMap[..]), FAT_CLUSTER_NUMBER);
    }

    method StoreCluster(data: Cluster, c: nat)
      requires Valid() && c < 2048
      modifies image.bytes
      ensures Now() == old(Now()).(disk := old(Now().disk)[c := data])
    {
      image.WriteCluster(data, c);
    }

    // ----- initialize_filesystem_fat32 -----

    method IsEmptyStorage() returns (empty: bool)
      requires Valid()
      ensures empty <==> !Formatted(Now().disk)
    {
      var bootSector := new byte[512];
      image.ReadBlocks(bootSector, 0, BOOT_SECTOR, 1);
      assert bootSector[..] == Now().disk[0][..512];
      var r := Memcmp(bootSector[..], Signature(), 512);
      assert bootSector[..][..512] == bootSector[..] && Signature()[..512] == Signature();
      empty := r != 0;
    }

    method WriteSignature()
      requires Valid()
      modifies image.bytes
      ensures Now() == old(Now()).(disk := old(Now().disk)[0 := Signature() + old(Now().disk)[0][512..]])
    {
      ghost var m := image.bytes[..];
      image.WriteBlocks(Signature(), BOOT_SECTOR, 1);
      assert Signature()[..512] == Signature();
      BootBlock(m, Signature());
    }

    method CreateFat32()
      requires Valid()
      modifies this`dirTableBuf, clusterMap, image.bytes
      ensures Now() == Format(old(Now().fat), old(dirTableBuf), old(Now().disk))
      ensures dirTableBuf == old(dirTableBuf)[0 := DirEntry(ROOT_NAME, 2)]
    {
      WriteSignature();
      clusterMap[0] := CLUSTER_0_VALUE;
      clusterMap[1] := CLUSTER_1_VALUE;
      clusterMap[2] := EOF;
      StoreMap();
      dirTableBuf := dirTableBuf[0 := DirEntry(ROOT_NAME, ROOT_CLUSTER_NUMBER)];
      StoreCluster(EncodeTable(dirTableBuf), ROOT_CLUSTER_NUMBER);
    }

    method Initialize()
      requires Valid()
      modifies this`dirTableBuf, clusterMap, image.bytes
      ensures Now() == Calls.Initialize(old(Now().fat), old(dirTableBuf), old(Now().disk))
      ensures dirTableBuf == TableAt(Now(), 2)
    {
      var empty := IsEmptyStorage();
      if empty {
        CreateFat32();
        TableRoundTrip(dirTableBuf);
      } else {
        var raw := new byte[2048];
        image.ReadCluster(raw, 0, FAT_CLUSTER_NUMBER);
        assert raw[..] == Now().disk[1];
        var map' := DecodeFat(raw[..]);
        for i := 0 to 512
          invariant image.Clusters() == old(image.Clusters())
          invariant clusterMap[..i] == map'[..i]
        {
          clusterMap[i] := map'[i];
        }
        assert clusterMap[..] == map';
        dirTableBuf := LoadTable(ROOT_CLUSTER_NUMBER);
      }
    }

    // ----- read_directory -----

    method ReadDirectory(r: Request, buf: array<byte>) returns (code: int)
      requires Valid() && ReadDirectoryDefined(Now(), r)
      requires buf != image.bytes && buf as object != clusterMap as object && buf.Length >= 2048
      modifies buf
      ensures Now() == old(Now()) && code == LookupDir(Now(), r).0
      ensures code == 0 ==> buf[..2048] == Now().disk[LookupDir(Now(), r).1]
      ensures code == 0 ==> buf[2048..] == old(buf[2048..])
      ensures code != 0 ==> buf[..] == old(buf[..])
    {
      hide DecodeTable, Splice, ClustersOf;
      code := 2;
      var unnamed := SameName(r.name, NO_NAME);
      if unnamed {
        return -1;
      }
      if r.size != 0 {
        return 1;
      }
      var parentTable := LoadTable(r.parent);
      var i := 0;
      while i < 64
        invariant 0 <= i <= 64
        invariant FindDir(parentTable, r.name, 0) == FindDir(parentTable, r.name, i)
        invariant buf[..] == old(buf[..])
      {
        var named := SameName(r.name, parentTable[i].name);
        if named {
          if parentTable[i].attribute == ATTR_SUBDIRECTORY {
            ghost var before := buf[..];
            image.ReadCluster(buf, 0, Head(parentTable[i]));
            SplicePrefix(before, Now().disk[Head(parentTable[i])]);
            return 0;
          }
        }
        i := i + 1;
      }
    }

    // ----- read -----

    method Read(r: Request, buf: array<byte>) returns (code: int)
      requires Valid() && ReadDefined(Now(), r)
      requires buf != image.bytes && buf as object != clusterMap as object
      requires buf.Length >= 2048 * (r.size / 2048)
      modifies buf
      ensures Now() == old(Now()) && code == Calls.Read(Now(), r).0
      ensures var data := Concat(Calls.Read(Now(), r).1);
              |data| <= buf.Length && buf[..] == Splice(old(buf[..]), 0, data)
    {
      hide DecodeTable, Splice, ClustersOf, Fetch;
      code := 3;
      var c := Memcmp(r.name, NO_NAME, 8);
      assert r.name[..8] == r.name && NO_NAME[..8] == NO_NAME;
      SpliceNothing(buf[..], 0);
      if c == 0 {
        return -1;
      }
      if r.size == 0 {
        return 1;
      }
      var parentTable := LoadTable(r.parent);
      var i := 1;
      while i < 64
        invariant 1 <= i <= 64
        invariant FindEntry(parentTable, r.name, r.ext, 1) == FindEntry(parentTable, r.name, r.ext, i)
        invariant buf[..] == old(buf[..])
      {
        var named := SameName(r.name, parentTable[i].name);
        var extended := SameExt(r.ext, parentTable[i].ext);
        if named && extended {
          ghost var chain := ChainFrom(Now().fat, Head(parentTable[i]));
          var count := CountChain(Head(parentTable[i]), chain);
          if count > r.size / 2048 {
            return 2;
          }
          CopyChain(Head(parentTable[i]), buf, chain);
          return 0;
        }
        i := i + 1;
      }
    }

    method CountChain(head: u32, ghost chain: seq<nat>) returns (count: nat)
      requires Valid() && IsChain(Now().fat, head, chain)
      ensures count == |chain|
    {
      var cluster := head;
      count := 0;
      while cluster != EOF
        invariant 0 <= count <= |chain|
        invariant IsChain(Now().fat, cluster, chain[count..])
        decreases |chain| - count
      {
        count := count + 1;
        cluster := clusterMap[cluster];
        assert chain[count - 1..][1..] == chain[count..];
      }
    }

    method CopyChain(head: u32, buf: array<byte>, ghost chain: seq<nat>)
      requires Valid() && IsChain(Now().fat, head, chain) && Within(chain, 512)
      requires buf != image.bytes && buf as object != clusterMap as object && buf.Length >= 2048 * |chain|
      modifies buf
      ensures buf[..] == Splice(old(buf[..]), 0, Concat(Fetch(Now().disk, chain)))
    {
      hide DecodeTable, Splice, ClustersOf;
      var cluster, j := head, 0;
      ghost var blocks := Fetch(Now().disk, chain);
      SpliceNothing(buf[..], 0);
      while cluster != EOF
        invariant 0 <= j <= |chain| && Now() == old(Now())
        invariant IsChain(Now().fat, cluster, chain[j..])
        invariant buf[..] == Splice(old(buf[..]), 0, Concat(blocks[..j]))
        decreases |chain| - j
      {
        assert chain[j..][0] == chain[j] && chain[j..][1..] == chain[j + 1..];
        assert blocks[..j + 1][..j] == blocks[..j];
        SpliceMore(old(buf[..]), 0, Concat(blocks[..j]), blocks[j]);
        image.ReadCluster(buf, 2048 * j, cluster);
        cluster := clusterMap[cluster];
        j := j + 1;
      }
      assert blocks[..j] == blocks;
    }

    // ----- write -----

    method Write(r: Request, buf: array<byte>, stack: Table) returns (code: int)
      requires Valid() && WriteDefined(r, buf[..])
      requires buf != image.bytes && buf as object != clusterMap as object
      modifies clusterMap, image.bytes
      ensures (Now(), code) == Calls.Write(old(Now()), r, old(buf[..]), stack)
    {
      hide DecodeTable, ClustersOf, Calls.MakeDirectory, Calls.MakeFile;
      var unnamed := SameName(r.name, NO_NAME);
      if unnamed {
        return -1;
      }
      if r.parent < 2 {
        return 2;
      }
      if r.size == 0 {
        code := MakeDirectory(r, stack);
      } else {
        code := MakeFile(r, buf);
      }
    }

    /** The loop that looks for a slot; slot 0 when it finds none. */
    method SlotToFill(t: Table) returns (k: nat)
      ensures k == TargetSlot(t)
    {
      k := 0;
      var i := 0;
      while i < 64
        invariant 0 <= i <= 64 && k == 0
        invariant FindFree(t, 0) == FindFree(t, i)
      {
        if t[i].userAttribute != UATTR_NOT_EMPTY {
          k := i;
          break;
        }
        i := i + 1;
      }
    }

    method MakeDirectory(r: Request, stack: Table) returns (code: int)
      requires Valid() && 2 <= r.parent < 2048
      modifies clusterMap, image.bytes
      ensures (Now(), code) == Calls.MakeDirectory(old(Now()), r, stack)
    {
      hide DecodeTable, ClustersOf, EncodeTable, EncodeFat, DirEntry, TargetSlot;
      var parentTable := LoadTable(r.parent);
      var k := SlotToFill(parentTable);
      var i, found := ROOT_CLUSTER_NUMBER, false;
      while i < 512 && !found
        invariant 2 <= i <= 512 && image.Clusters() == old(image.Clusters())
        invariant !found ==> clusterMap[..] == old(clusterMap[..])
        invariant !found ==> FreeCells(old(clusterMap[..]), 2, 1) == FreeCells(old(clusterMap[..]), i, 1)
        invariant found ==> i >= 3 && FreeCells(old(clusterMap[..]), 2, 1) == [i - 1]
        invariant found ==> clusterMap[..] == old(clusterMap[..])[i - 1 := EOF]
      {
        if clusterMap[i] == EMPTY {
          clusterMap[i] := EOF;
          found := true;
        }
        i := i + 1;
      }
      if i == 512 {
        return 1;
      }
      StoreCluster(EncodeTable(stack[0 := DirEntry(r.name, i - 1)]), i - 1);
      var e := DirEntry(r.name, i - 1).(ext := parentTable[k].ext);
      StoreMap();
      StoreCluster(EncodeTable(parentTable[k := e]), r.parent);
      return 0;
    }

    method MakeFile(r: Request, buf: array<byte>) returns (code: int)
      requires Valid() && buf != image.bytes && buf as object != clusterMap as object
      requires 2 <= r.parent < 2048 && 2048 <= r.size && 2048 * (r.size / 2048) <= buf.Length
      modifies clusterMap, image.bytes
      ensures (Now(), code) == Calls.MakeFile(old(Now()), r, old(buf[..]))
    {
      hide DecodeTable, ClustersOf, EncodeTable, EncodeFat, FileEntry, TargetSlot, FreeCells;
      var parentTable := LoadTable(r.parent);
      var k := SlotToFill(parentTable);
      var n := r.size / 2048;
      var cells := FindCells(n);
      if |cells| < n {
        return 1;
      }
      LinkCells(cells);
      var e := FileEntry(r.name, r.ext, r.size, cells[0]);
      StoreBlocks(buf, cells);
      StoreMap();
      StoreCluster(EncodeTable(parentTable[k := e]), r.parent);
      return 0;
    }

    /** First fit: one pass over the map from cell 2. */
    method FindCells(n: nat) returns (cells: seq<nat>)
      requires Valid()
      ensures cells == FreeCells(clusterMap[..], 2, n)
    {
      hide DecodeTable, ClustersOf, FreeCells;
      var emptyFatClusters := new nat[n];
      var i, j := 0, ROOT_CLUSTER_NUMBER;
      ghost var fat := clusterMap[..];
      while i < n && j < 512
        invariant 0 <= i <= n && 2 <= j <= 512 && clusterMap[..] == fat
        invariant emptyFatClusters[..i] + FreeCells(fat, j, n - i) == FreeCells(fat, 2, n)
        decreases 512 - j
      {
        ghost var found := emptyFatClusters[..i];
        FreeCellsStep(fat, j, n - i, found);
        if clusterMap[j] == EMPTY {
          emptyFatClusters[i] := j;
          i := i + 1;
          assert emptyFatClusters[..i] == found + [j];
        }
        j := j + 1;
      }
      FreeCellsEnd(fat, j, n - i);
      cells := emptyFatClusters[..i];
    }

    method LinkCells(cells: seq<nat>)
      requires Valid() && cells != [] && Within(cells, 512)
      modifies clusterMap
      ensures clusterMap[..] == Link(old(clusterMap[..]), cells)
      ensures image.Clusters() == old(image.Clusters())
    {
      var n := |cells|;
      for i := 0 to n - 1
        invariant clusterMap[..] == Linked(old(clusterMap[..]), cells, i)
        invariant image.Clusters() == old(image.Clusters())
      {
        clusterMap[cells[i]] := cells[i + 1];
      }
      clusterMap[cells[n - 1]] := EOF;
    }

    method StoreBlocks(buf: array<byte>, cells: seq<nat>)
      requires Valid() && buf != image.bytes && Within(cells, 512) && 2048 * |cells| <= buf.Length
      modifies image.bytes
      ensures Now() == old(Now()).(disk :=
                         Written(old(Now().disk), cells, Blocks(buf[..], |cells|), |cells|))
    {
      hide ClustersOf;
      ghost var blocks := Blocks(buf[..], |cells|);
      for i := 0 to |cells|
        invariant Now() == old(Now()).(disk := Written(old(Now().disk), cells, blocks, i))
      {
        StoreCluster(buf[2048 * i..2048 * i + 2048], cells[i]);
        assert buf[2048 * i..2048 * i + 2048] == Block(buf[..], i);
      }
    }

    // ----- delete -----

    method Delete(r: Request) returns (code: int)
      requires Valid() && DeleteDefined(Now(), r)
      modifies clusterMap, image.bytes
      ensures (Now(), code) == Calls.Delete(old(Now()), r)
    {
      hide DecodeTable, ClustersOf, DeleteDefined, Calls.Delete, Remove, RemoveDefined, FindEntry, TableAt, EncodeTable;
      DeleteUnfolded(Now(), r);
      code := -1;
      var unnamed := SameName(r.name, NO_NAME);
      if unnamed {
        return;
      }
      var parentTable := LoadTable(r.parent);
      var i := 1;
      while i < 64
        invariant 1 <= i <= 64 && Now() == old(Now()) && code == -1
        invariant FindEntry(parentTable, r.name, r.ext, 1) == FindEntry(parentTable, r.name, r.ext, i)
      {
        var named := SameName(r.name, parentTable[i].name);
        var extended := SameExt(r.ext, parentTable[i].ext);
        FindEntryStep(parentTable, r.name, r.ext, i);
        if named && extended {
          code := DeleteAt(r.parent, parentTable, i);
          return;
        }
        i := i + 1;
      }
    }

    /** The branch for the entry found. */
    method DeleteAt(parent: nat, t: Table, k: nat) returns (code: int)
      requires Valid() && parent < 2048 && k < 64 && RemoveDefined(Now(), t[k])
      modifies clusterMap, image.bytes
      ensures (Now(), code) == Remove(old(Now()), parent, t, k)
    {
      hide DecodeTable, ClustersOf, EncodeTable, EncodeFat, Release, EmptyDirectory, Frees;
      code := -1;
      var cluster := Head(t[k]);
      ghost var freed := [];
      if t[k].attribute == ATTR_SUBDIRECTORY {
        var empty := IsEmptyDirectory(cluster);
        if !empty {
          return 2;
        }
        var zeros := ZeroBuffer();
        StoreCluster(zeros, cluster);
        clusterMap[cluster] := EMPTY;
        freed := [cluster];
        code := 0;
      } else if t[k].attribute == ATTR_ARCHIVE {
        freed := FreedBy(Now().fat, cluster);
        FreeChain(cluster, freed);
        code := 0;
      }
      Finish(old(Now()), freed, parent, t[k := ZERO_ENTRY]);
    }

    method IsEmptyDirectory(c: nat) returns (empty: bool)
      requires Valid() && c < 2048
      ensures empty <==> EmptyDirectory(TableAt(Now(), c))
    {
      hide DecodeTable, ClustersOf;
      var t := LoadTable(c);
      empty := true;
      var i := 1;
      while i < 64
        invariant 1 <= i <= 64 && empty
        invariant forall m :: 1 <= m < i ==> t[m].userAttribute != UATTR_NOT_EMPTY
      {
        if t[i].userAttribute == UATTR_NOT_EMPTY {
          empty := false;
          break;
        }
        i := i + 1;
      }
    }

    method ZeroBuffer() returns (zeros: Cluster)
      ensures zeros == ZERO_CLUSTER
    {
      var buf := new byte[2048];
      for i := 0 to 2048
        invariant forall k :: 0 <= k < i ==> buf[k] == 0
      {
        buf[i] := 0;
      }
      zeros := buf[..];
    }

    /** The do-while of `delete` and the two statements after it. */
    method FreeChain(head: u32, ghost ch: seq<nat>)
      requires Valid() && Frees(Now().fat, head, ch)
      modifies clusterMap, image.bytes
      ensures Now() == State(FreeAll(old(Now().fat), ch), ZeroAll(old(Now().disk), ch))
    {
      hide ClustersOf, FreeAll, ZeroAll;
      var zeros := ZeroBuffer();
      var cluster := head;
      ghost var s, k := Now(), 0;
      NothingFreed(s);
      while true
        invariant 0 <= k < |ch| - 1 && cluster == ch[k] < 512
        invariant Now() == State(FreeAll(s.fat, ch[..k]), ZeroAll(s.disk, ch[..k]))
        invariant Frees(Now().fat, cluster, ch[k..])
        decreases |ch| - k
      {
        OneMoreFreed(s, ch, k);
        StoreCluster(zeros, cluster);
        var temp := cluster;
        cluster := clusterMap[cluster];
        clusterMap[temp] := EMPTY;
        k := k + 1;
        assert ch[k - 1..][1..] == ch[k..];
        if clusterMap[cluster] == EOF {
          break;
        }
      }
      OneMoreFreed(s, ch, k);
      clusterMap[cluster] := EMPTY;
      StoreCluster(zeros, cluster);
      assert ch[..k + 1] == ch;
    }

    method Finish(ghost s: State, ghost freed: seq<nat>, parent: nat, t: Table)
      requires Valid() && parent < 2048
      requires Now() == State(FreeAll(s.fat, freed), ZeroAll(s.disk, freed))
      modifies image.bytes
      ensures Now() == Release(s, freed, parent, t)
    {
      hide ClustersOf, FreeAll, ZeroAll, EncodeFat, EncodeTable;
      StoreMap();
      StoreCluster(EncodeTable(t), parent);
    }

    // ----- move, system call 8 -----

    method Move(src: Table, dst: Table, srcIdx: nat)
      requires Valid() && MoveDefined(src, dst, srcIdx)
      modifies image.bytes
      ensures Now() == Calls.Move(old(Now()), src, dst, srcIdx)
    {
      hide ClustersOf, EncodeTable;
      var srcTable, destTable := src, dst;
      var i := 1;
      while i < 64
        invariant 1 <= i <= 64 && srcTable == src && destTable == dst
        invariant FindFree(dst, 1) == FindFree(dst, i)
      {
        if destTable[i].userAttribute != UATTR_NOT_EMPTY {
          destTable := destTable[i := srcTable[srcIdx]];
          srcTable := srcTable[srcIdx := ZERO_ENTRY];
          break;
        }
        i := i + 1;
      }
      StoreCluster(EncodeTable(srcTable), Head(srcTable[0]));
      StoreCluster(EncodeTable(destTable), Head(destTable[0]));
    }
  }

  lemma FindEntryStep(t: Table, name: Name, ext: Ext, i: nat)
    requires i < 64
    ensures FindEntry(t, name, ext, i) ==
            if t[i].name == name && t[i].ext == ext then i else FindEntry(t, name, ext, i + 1)
    ensures FindEntry(t, name, ext, 64) == 64
  {
  }

  lemma DeleteUnfolded(s: State, r: Request)
    requires DeleteDefined(s, r)
    ensures r.parent < 2048
    ensures var k := DeleteSlot(s, r);
            if k == 64 then Calls.Delete(s, r) == (s, -1)
            else && RemoveDefined(s, TableAt(s, r.parent)[k])
                 && Calls.Delete(s, r) == Remove(s, r.parent, TableAt(s, r.parent), k)
  {
  }

  lemma FreeCellsStep(fat: Fat, j: nat, n: nat, found: seq<nat>)
    requires j < 512 && n > 0
    ensures found + FreeCells(fat, j, n) ==
            if fat[j] == EMPTY then (found + [j]) + FreeCells(fat, j + 1, n - 1) else found + FreeCells(fat, j + 1, n)
  {
  }

  lemma FreeCellsEnd(fat: Fat, j: nat, n: nat)
    requires j >= 512 || n == 0
    ensures FreeCells(fat, j, n) == []
  {
  }

  lemma NothingFreed(s: State)
    ensures FreeAll(s.fat, []) == s.fat && ZeroAll(s.disk, []) == s.disk
  {
  }

  lemma OneMoreFreed(s: State, ch: seq<nat>, k: nat)
    requires k < |ch| && ch[k] < 512
    ensures FreeAll(s.fat, ch[..k + 1]) == FreeAll(s.fat, ch[..k])[ch[k] := EMPTY]
    ensures ZeroAll(s.disk, ch[..k + 1]) == ZeroAll(s.disk, ch[..k])[ch[k] := ZERO_CLUSTER]
  {
    assert ch[..k + 1] == ch[..k] + [ch[k]];
  }

  method SameName(a: Name, b: Name) returns (same: bool)
    ensures same <==> a == b
  {
    var r := Memcmp(a, b, 8);
    assert a[..8] == a && b[..8] == b;
    same := r == 0;
  }

  method SameExt(a: Ext, b: Ext) returns (same: bool)
    ensures same <==> a == b
  {
    var r := Memcmp(a, b, 3);
    assert a[..3] == a && b[..3] == b;
    same := r == 0;
  }

  lemma SplicePrefix(m: seq<byte>, data: seq<byte>)
    requires |data| <= |m|
    ensures Splice(m, 0, data)[..|data|] == data && Splice(m, 0, data)[|data|..] == m[|data|..]
  {
  }

  lemma BootBlock(m: seq<byte>, sig: seq<byte>)
    requires |m| == 4194304 && |sig| == 512
    ensures ClustersOf(Splice(m, 0, sig)) == ClustersOf(m)[0 := sig + ClustersOf(m)[0][512..]]
  {
    var d := ClustersOf(Splice(m, 0, sig));
    forall k | 1 <= k < 2048 ensures d[k] == ClustersOf(m)[k] {
      assert Splice(m, 0, sig)[2048 * k..2048 * k + 2048] == m[2048 * k..2048 * k + 2048];
    }
    assert d[0] == sig + ClustersOf(m)[0][512..];
  }
}
