// What the disk holds, byte by byte, after each call.
module OnDisk {
  import opened Layout
  import opened Chains
  import opened Calls
  import opened Tree
  import opened TreeFacts
  import opened Edits
  import opened Refinement
  import opened Moving
  import opened Limits
  import opened Runs
  import opened ReadBack

  /** Slot `m` of the directory in cluster `c`. */
  function SlotOnDisk(s: State, c: nat, m: nat): (b: seq<byte>)
    requires c < 2048 && m < 64
    ensures |b| == 32 && forall j :: 0 <= j < 32 ==> b[j] == s.disk[c][32 * m + j]
  {
    s.disk[c][32 * m..32 * m + 32]
  }

  lemma SlotIsEntry(s: State, c: nat, m: nat)
    requires c < 2048 && m < 64
    ensures SlotOnDisk(s, c, m) == EncodeEntry(TableAt(s, c)[m])
  {
    hide DecodeTable, EncodeEntry, EncodeSlots;
    TableBytesRoundTrip(s.disk[c]);
    EncodedSlot(TableAt(s, c), m);
  }

  /** The cached map is in cluster 1, four bytes a cell, the lowest first. */
  ghost predicate MapOnDisk(s: State) {
    forall i :: 0 <= i < 512 ==>
      && s.disk[1][4 * i] == s.fat[i] % 256 && s.disk[1][4 * i + 1] == (s.fat[i] / 256) % 256
      && s.disk[1][4 * i + 2] == (s.fat[i] / 65536) % 256 && s.disk[1][4 * i + 3] == s.fat[i] / 16777216
  }

  lemma SyncedMap(s: State)
    requires Synced(s)
    ensures MapOnDisk(s)
  {
    hide EncodeFat, Formatted;
    forall i | 0 <= i < 512
      ensures s.disk[1][4 * i] == s.fat[i] % 256 && s.disk[1][4 * i + 1] == (s.fat[i] / 256) % 256
      ensures s.disk[1][4 * i + 2] == (s.fat[i] / 65536) % 256 && s.disk[1][4 * i + 3] == s.fat[i] / 16777216
    {
      CellBytes(s.fat, i);
    }
  }

  /** After every legal write, delete, move or restart. */
  lemma StepStoresMap(s: State, t: Slots, op: Op)
    requires Represents(s, t) && Synced(s) && Legal(s, t, op)
    ensures Defined(s, op) && MapOnDisk(Step(s, op))
  {
    hide Represents, Synced, Legal, Defined, Step, StepTree, MapOnDisk;
    StepRefines(s, t, op);
    SyncedMap(Step(s, op));
  }

  /** And a map is loaded from the bytes in the same order. */
  lemma InitializeLoads(ram: Fat, buf: Table, disk: Disk, i: nat)
    requires Formatted(disk) && i < 512
    ensures Initialize(ram, buf, disk).fat[i] ==
            disk[1][4 * i] as int + 256 * (disk[1][4 * i + 1] as int) + 65536 * (disk[1][4 * i + 2] as int)
            + 16777216 * (disk[1][4 * i + 3] as int)
  {
    hide DecodeCells, Formatted;
    LoadedCell(disk[1], i);
  }

  lemma SignedBoot(c: Cluster)
    requires c[..512] == Signature()
    ensures c[..6] == [0x43, 0x6F, 0x75, 0x72, 0x73, 0x65] && c[510] == 0x4F && c[511] == 0x6B
  {
    hide Signature;
    SignatureRow0();
    SignatureEnd();
    assert c[..6] == Signature()[..16][..6];
    assert c[510] == Signature()[510] && c[511] == Signature()[511];
  }

  /** A new file system: the signature, the three reserved cells, and the root's own entry. */
  lemma FormatBytes(ram: Fat, buf: Table, disk: Disk)
    ensures var s := Format(ram, buf, disk);
            && s.disk[0][..6] == [0x43, 0x6F, 0x75, 0x72, 0x73, 0x65] && s.disk[0][510] == 0x4F && s.disk[0][511] == 0x6B
            && s.disk[0][512..] == disk[0][512..]
            && s.fat[0] == 268435440 && s.fat[1] == 268435455 && s.fat[2] == 268435455
            && (forall c :: 3 <= c < 512 ==> s.fat[c] == ram[c])
            && MapOnDisk(s)
            && SlotOnDisk(s, 2, 0) == [0x52, 0x4F, 0x4F, 0x54, 0, 0, 0, 0, 0, 0, 0, 0x10, 0xAA, 0, 0, 0, 0, 0, 0, 0,
                                       0, 0, 0, 0, 0, 0, 2, 0, 0, 0, 0, 0]
            && forall c :: 3 <= c < 2048 ==> s.disk[c] == disk[c]
  {
    hide EncodeFat, EncodeTable, DecodeTable, Signature, DirEntry, EncodeEntry, MapOnDisk, SlotOnDisk;
    var s := Format(ram, buf, disk);
    SignedBoot(s.disk[0]);
    assert s.disk[0][..512] == Signature();
    SyncedMap(s);
    SlotIsEntry(s, 2, 0);
    TableRoundTrip(buf[0 := DirEntry(ROOT_NAME, 2)]);
    DirEntryBytes(ROOT_NAME, 2);
  }

  /** Each cell of a chain holds the next one, the last one the end of file. */
  predicate ChainInMap(fat: Fat, cells: seq<nat>) {
    forall k :: 0 <= k < |cells| ==> cells[k] < 512 && fat[cells[k]] == if k + 1 < |cells| then cells[k + 1] else 268435455
  }

  /** A file written: its entry in the first free slot, its chain in the map, the buffer's clusters at the
      chain's cells, the map in cluster 1, and all else as it was. */
  lemma FileBytes(s: State, t: Slots, r: Request, data: seq<byte>, stack: Table)
    requires Represents(s, t) && Synced(s) && Legal(s, t, WriteOp(r, data, stack))
    requires r.size != 0 && Write(s, r, data, stack).1 == 0
    ensures r.parent < 512
    ensures var s', j, n := Write(s, r, data, stack).0, FindFree(TableAt(s, r.parent), 0), r.size / 2048;
            var cells := FreeCells(s.fat, 2, n);
            && |cells| == n >= 1 && j < 64 && MapOnDisk(s') && ChainInMap(s'.fat, cells)
            && (forall c :: 0 <= c < 512 && c !in cells ==> s'.fat[c] == s.fat[c])
            && (forall k :: 0 <= k < n ==> s'.disk[cells[k]] == data[2048 * k..2048 * k + 2048])
            && SlotOnDisk(s', r.parent, j) ==
               r.name + r.ext + [0x20, 0xAA, 0, 0, 0, 0, 0, 0, 0, (cells[0] / 65536) % 256, cells[0] / 16777216, 0, 0, 0, 0,
                                 cells[0] % 256, (cells[0] / 256) % 256,
                                 r.size % 256, (r.size / 256) % 256, (r.size / 65536) % 256, r.size / 16777216]
            && (forall m :: 0 <= m < 64 && m != j ==> SlotOnDisk(s', r.parent, m) == SlotOnDisk(s, r.parent, m))
            && forall c :: 2 <= c < 512 && c != r.parent && c !in cells ==> s'.disk[c] == s.disk[c]
  {
    hide DecodeTable, EncodeTable, EncodeFat, FileStored, DirStored, Stored, RootStored, FreeCells, FileEntry, MapOnDisk,
         TargetSlot, EncodeEntry, Represents, FindFree, Synced, SlotOnDisk, Holds;
    RepresentsRoot(s, t);
    WroteIntoFreeSlot(s, t, r, data, stack);
    StepStoresMap(s, t, WriteOp(r, data, stack));
    var n, p := r.size / 2048, r.parent;
    var cells, s', j := FreeCells(s.fat, 2, n), Write(s, r, data, stack).0, FindFree(TableAt(s, p), 0);
    AllocationIsFresh(s, t, n);
    DirsOutside(s, t, cells);
    MakeFileDelta(s, r, data, cells);
    BlocksHeld(s, r, data, cells);
    HeldBlocks(s'.disk, cells, data, n);
    LinkCells(s.fat, cells);
    var e := FileEntry(r.name, r.ext, r.size, cells[0]);
    FileEntryBytes(r.name, r.ext, r.size, cells[0]);
    SlotChanged(s, s', p, j, e);
  }

  lemma HeldBlocks(disk: Disk, cells: seq<nat>, data: seq<byte>, n: nat)
    requires 2048 * n <= |data| && Holds(disk, cells, Blocks(data, n))
    ensures |cells| == n && forall k :: 0 <= k < n ==> cells[k] < 2048 && disk[cells[k]] == data[2048 * k..2048 * k + 2048]
  {
  }

  lemma SlotChanged(s: State, s': State, p: nat, j: nat, e: Entry)
    requires p < 2048 && j < 64 && TableAt(s', p) == TableAt(s, p)[j := e]
    ensures SlotOnDisk(s', p, j) == EncodeEntry(e)
    ensures forall m :: 0 <= m < 64 && m != j ==> SlotOnDisk(s', p, m) == SlotOnDisk(s, p, m)
  {
    hide DecodeTable, EncodeEntry, TableAt;
    SlotIsEntry(s', p, j);
    forall m | 0 <= m < 64 && m != j ensures SlotOnDisk(s', p, m) == SlotOnDisk(s, p, m) {
      SlotIsEntry(s', p, m);
      SlotIsEntry(s, p, m);
    }
  }

  /** A directory made: its entry in the parent, the same entry in its own slot 0, its cell an end of file. */
  lemma DirectoryBytes(s: State, t: Slots, r: Request, data: seq<byte>, stack: Table)
    requires Represents(s, t) && Synced(s) && Legal(s, t, WriteOp(r, data, stack))
    requires r.size == 0 && Write(s, r, data, stack).1 == 0
    ensures r.parent < 512
    ensures var s', j, c := Write(s, r, data, stack).0, FindFree(TableAt(s, r.parent), 0), FreeCells(s.fat, 2, 1);
            && |c| == 1 && c[0] < 512 && j < 64 && MapOnDisk(s') && s'.fat == s.fat[c[0] := 268435455]
            && SlotOnDisk(s', r.parent, j) == SlotOnDisk(s', c[0], 0) ==
               r.name + [0, 0, 0, 0x10, 0xAA, 0, 0, 0, 0, 0, 0, 0, (c[0] / 65536) % 256, c[0] / 16777216, 0, 0, 0, 0,
                         c[0] % 256, (c[0] / 256) % 256, 0, 0, 0, 0]
            && (forall m :: 0 <= m < 64 && m != j ==> SlotOnDisk(s', r.parent, m) == SlotOnDisk(s, r.parent, m))
            && forall k :: 2 <= k < 512 && k != r.parent && k != c[0] ==> s'.disk[k] == s.disk[k]
  {
    hide DecodeTable, EncodeTable, EncodeFat, FileStored, DirStored, Stored, RootStored, FreeCells, DirEntry, MapOnDisk,
         TargetSlot, EncodeEntry, Represents, FindFree, Synced;
    RepresentsRoot(s, t);
    WroteIntoFreeSlot(s, t, r, data, stack);
    StepStoresMap(s, t, WriteOp(r, data, stack));
    var c, p := NewCell(s, r, stack), r.parent;
    var s', j := Write(s, r, data, stack).0, FindFree(TableAt(s, p), 0);
    DirsOutside(s, t, [c]);
    MakeDirectoryDelta(s, r, stack, c);
    NewEntryHasNoExt(s, t, p, j);
    DirEntryBytes(r.name, c);
    SlotChanged(s, s', p, j, DirEntry(r.name, c));
    SlotIsEntry(s', c, 0);
  }

  /** An entry deleted: its slot zero, its cells zero in the map, their clusters zero on disk, the map in
      cluster 1, and all else as it was. */
  lemma DeletedBytes(s: State, t: Slots, r: Request)
    requires Represents(s, t) && Synced(s) && Legal(s, t, DeleteOp(r)) && DeleteDefined(s, r) && Delete(s, r).1 == 0
    ensures r.parent < 512
    ensures var s', j := Delete(s, r).0, DeleteSlot(s, r);
            var gone := Cells(SlotAt(t, r.parent, j));
            && j < 64 && MapOnDisk(s')
            && (forall c :: c in gone ==> c < 512 && s'.fat[c] == 0 && forall b :: 0 <= b < 2048 ==> s'.disk[c][b] == 0)
            && (forall c :: 0 <= c < 512 && c !in gone ==> s'.fat[c] == s.fat[c])
            && (forall b :: 0 <= b < 32 ==> SlotOnDisk(s', r.parent, j)[b] == 0)
            && (forall m :: 0 <= m < 64 && m != j ==> SlotOnDisk(s', r.parent, m) == SlotOnDisk(s, r.parent, m))
            && forall c :: 2 <= c < 512 && c != r.parent && c !in gone ==> s'.disk[c] == s.disk[c]
  {
    hide DecodeTable, EncodeTable, EncodeFat, FileStored, DirStored, Stored, RootStored, MapOnDisk, EncodeEntry,
         Represents, Synced, Delete, DeleteSlot, SlotOnDisk;
    RepresentsRoot(s, t);
    DirectoryHead(s, t, r.parent);
    DeleteTarget(s, t, r);
    StepStoresMap(s, t, DeleteOp(r));
    var ch := Released(s, t, r);
    var j, p := DeleteSlot(s, r), r.parent;
    var y, s' := SlotAt(t, p, j), Delete(s, r).0;
    SlotAtStored(s, t, p, j);
    TreeInRange(s, t);
    forall c | c in ch ensures c in Cells(y) && 2 <= c < 512 { assert c in SetOf(ch); }
    forall c | c in Cells(y) ensures c in ch { assert c in SetOf(ch); }
    var tab := TableAt(s, p)[j := ZERO_ENTRY];
    assert s' == Release(s, ch, p, tab);
    CommitFacts(ZeroAll(s.disk, ch), s'.fat, p, tab);
    ReservedValues();
    SlotChanged(s, s', p, j, ZERO_ENTRY);
  }

  /** An entry moved: its 32 bytes at the first free slot of the destination, its old slot zero, and all
      else on the disk and in the map as it was. */
  lemma MovedBytes(s: State, t: Slots, p: nat, q: nat, k: nat)
    requires RootStored(s, t) && p in Dirs(t) && q in Dirs(t) && p != q && 1 <= k < 64
    requires q < 512 && FindFree(TableAt(s, q), 1) < 64
    ensures p < 512 && MoveDefined(TableAt(s, p), TableAt(s, q), k)
    ensures var s', i := Move(s, TableAt(s, p), TableAt(s, q), k), FindFree(TableAt(s, q), 1);
            && s'.fat == s.fat
            && SlotOnDisk(s', q, i) == SlotOnDisk(s, p, k) && (forall b :: 0 <= b < 32 ==> SlotOnDisk(s', p, k)[b] == 0)
            && (forall m :: 0 <= m < 64 && m != k ==> SlotOnDisk(s', p, m) == SlotOnDisk(s, p, m))
            && (forall m :: 0 <= m < 64 && m != i ==> SlotOnDisk(s', q, m) == SlotOnDisk(s, q, m))
            && forall c :: 0 <= c < 2048 && c != p && c != q ==> s'.disk[c] == s.disk[c]
  {
    hide DecodeTable, EncodeTable, RootStored, EncodeEntry, Move, FindFree, SlotOnDisk, WriteTable;
    MoveSteps(s, t, p, q, k);
    var i, a, b := FindFree(TableAt(s, q), 1), TableAt(s, p), TableAt(s, q);
    var s1 := WriteTable(s, p, a[k := ZERO_ENTRY]);
    TableWritten(s, p, a[k := ZERO_ENTRY]);
    TableWritten(s1, q, b[i := a[k]]);
    var s' := Move(s, a, b, k);
    ReservedValues();
    SlotChanged(s, s', p, k, ZERO_ENTRY);
    SlotChanged(s, s', q, i, a[k]);
    SlotIsEntry(s, p, k);
  }
}
