// What `read` and `read_directory` return for a represented tree, and that a file keeps reading back
// the same through every run of calls addressed to other entries.
module ReadBack {
  import opened Layout
  import opened Chains
  import opened Calls
  import opened Tree
  import opened TreeFacts
  import opened Edits
  import opened Refinement
  import opened Moving
  import opened Limits
  import opened Runs

  /** The first entry of directory `p` named (name, ext) is a file holding `blocks`. */
  ghost predicate Delivers(s: State, t: Slots, p: nat, name: Name, ext: Ext, blocks: seq<Cluster>) {
    && p in Dirs(t) && p < 2048 && name != NO_NAME
    && var k := FindEntry(TableAt(s, p), name, ext, 1);
       k < 64 && SlotAt(t, p, k).File? && SlotAt(t, p, k).blocks == blocks
  }

  lemma FetchHeld(disk: Disk, ch: seq<nat>, blocks: seq<Cluster>)
    requires Holds(disk, ch, blocks) && Within(ch, 512)
    ensures Fetch(disk, ch) == blocks
  {
  }

  /** `read` delivers the file's clusters in order, or reports 2 exactly when the buffer is short. */
  lemma ReadDelivers(s: State, t: Slots, r: Request, blocks: seq<Cluster>)
    requires Represents(s, t) && Delivers(s, t, r.parent, r.name, r.ext, blocks) && r.size != 0
    ensures ReadDefined(s, r)
    ensures Read(s, r) == if |blocks| <= r.size / 2048 then (0, blocks) else (2, [])
  {
    hide DecodeTable;
    var k := FindEntry(TableAt(s, r.parent), r.name, r.ext, 1);
    var x := SlotAt(t, r.parent, k);
    SlotAtStored(s, t, r.parent, k);
    var ch := ChainFrom(s.fat, x.chain[0]);
    ChainUnique(s.fat, x.chain[0], ch, x.chain);
    FetchHeld(s.disk, ch, blocks);
  }

  ghost predicate Matches(x: Slots, name: Name, ext: Ext) {
    (x.File? && x.name == name && x.ext == ext) || (x.Dir? && x.name == name && ext == NO_EXT)
  }

  lemma EntryMatches(s: State, t: Slots, p: nat, m: nat, name: Name, ext: Ext)
    requires RootStored(s, t) && p in Dirs(t) && p < 2048 && 1 <= m < 64 && name != NO_NAME
    ensures Matches(SlotAt(t, p, m), name, ext) <==>
            TableAt(s, p)[m].name == name && TableAt(s, p)[m].ext == ext
  {
    hide DecodeTable;
    SlotAtStored(s, t, p, m);
  }

  /** Every request into a live directory is well defined, and 3 means that no entry has the name. */
  lemma ReadNotFoundIff(s: State, t: Slots, r: Request)
    requires Represents(s, t) && r.parent in Dirs(t) && r.name != NO_NAME && r.size != 0
    ensures ReadDefined(s, r)
    ensures Read(s, r).0 == 3 <==>
            forall m :: 1 <= m < 64 ==> !Matches(SlotAt(t, r.parent, m), r.name, r.ext)
  {
    hide DecodeTable, Matches;
    DirectoryHead(s, t, r.parent);
    var k := FindEntry(TableAt(s, r.parent), r.name, r.ext, 1);
    forall m | 1 <= m < 64
      ensures Matches(SlotAt(t, r.parent, m), r.name, r.ext) <==>
              TableAt(s, r.parent)[m].name == r.name && TableAt(s, r.parent)[m].ext == r.ext
    {
      EntryMatches(s, t, r.parent, m, r.name, r.ext);
    }
    if k < 64 { LiveEntryHasChain(s, t, r.parent, k); }
  }

  lemma LiveEntryHasChain(s: State, t: Slots, p: nat, k: nat)
    requires Represents(s, t) && p in Dirs(t) && p < 2048 && 1 <= k < 64
    requires TableAt(s, p)[k].name != NO_NAME
    ensures HasChain(s.fat, Head(TableAt(s, p)[k]))
  {
    hide DecodeTable;
    SlotAtStored(s, t, p, k);
    var x := SlotAt(t, p, k);
    if x.File? {
      assert IsChain(s.fat, Head(TableAt(s, p)[k]), x.chain);
    } else {
      assert [x.cluster][1..] == [];
      assert IsChain(s.fat, Head(TableAt(s, p)[k]), [x.cluster]);
    }
  }

  // ----- which directory a name resolves to -----

  /** `read_directory` resolves a name to the directory in slot `m` exactly when the name is not the
      listing directory's own and no earlier subdirectory has it: slot 0 is scanned too. */
  lemma ResolvesIff(s: State, t: Slots, p: nat, m: nat) returns (own: Name)
    requires Represents(s, t) && p in Dirs(t) && p < 2048 && 1 <= m < 64 && SlotAt(t, p, m).Dir?
    ensures TableAt(s, p)[0] == DirEntry(own, p)
    ensures var x := SlotAt(t, p, m);
            LookupDir(s, Request(x.name, NO_EXT, p, 0)) == (0, x.cluster) <==>
            own != x.name && forall i :: 1 <= i < m ==> !(SlotAt(t, p, i).Dir? && SlotAt(t, p, i).name == x.name)
  {
    hide DecodeTable, FileStored, Represents, Stored, RootStored;
    RepresentsRoot(s, t);
    own := DirectoryStored(s, t, p);
    var x, k := SlotAt(t, p, m), FindDir(TableAt(s, p), SlotAt(t, p, m).name, 0);
    forall i | 1 <= i < 64
      ensures Single(SlotAt(t, p, i)) && SingleStored(s, SlotAt(t, p, i))
              && TableAt(s, p)[i] == EntryOf(s, SlotAt(t, p, i))
    {
      SlotAtStored(s, t, p, i);
    }
    assert TableAt(s, p)[m] == DirEntry(x.name, x.cluster);
    assert k <= m;
    if k == 0 {
      SlotAtStored(s, t, p, m);
      DirsAreCells(x);
    } else if k < m {
      EntryNamesACell(s, SlotAt(t, p, k));
      EntryNamesACell(s, x);
      KidsApart(t, p);
      SlotsDisjoint(s, p, 1, Kids(t, p), k, m);
    }
  }

  // ----- one step -----

  /** The call creates, removes or moves an entry called (name, ext) in directory `p`. */
  predicate Concerns(s: State, op: Op, p: nat, name: Name, ext: Ext) {
    match op
    case WriteOp(r, _, _) =>
      r.parent == p && r.name == name && (if r.size == 0 then NO_EXT else r.ext) == ext
    case DeleteOp(r) => r.parent == p && r.name == name && r.ext == ext
    case MoveOp(src, dst, k) =>
      && src < 2048 && k < 64 && (src == p || dst == p)
      && TableAt(s, src)[k].name == name && TableAt(s, src)[k].ext == ext
    case RebootOp(_, _) => false
  }

  /** A file survives a step that keeps its slot, its directory and its cells. */
  lemma FileKept(s: State, s': State, t: Slots, t': Slots, p: nat, name: Name, ext: Ext, blocks: seq<Cluster>)
    requires Represents(s, t) && Represents(s', t') && Delivers(s, t, p, name, ext, blocks)
    requires p in Dirs(t') && p < 512
    requires var k := FindEntry(TableAt(s, p), name, ext, 1);
             && FindEntry(TableAt(s', p), name, ext, 1) == k
             && TableAt(s', p)[k] == TableAt(s, p)[k]
             && Same(s, s', Cells(SlotAt(t, p, k)))
    ensures Delivers(s', t', p, name, ext, blocks)
  {
    hide DecodeTable, Cells, FileStored;
    var k := FindEntry(TableAt(s, p), name, ext, 1);
    var x, y := SlotAt(t, p, k), SlotAt(t', p, k);
    SlotAtStored(s, t, p, k);
    SlotAtStored(s', t', p, k);
    SingleFrame(s, s', x);
    assert TableAt(s', p)[k].attribute == ATTR_ARCHIVE;
    assert y.File?;
    SameFile(s', x, y);
  }

  lemma SameFile(s: State, x: Slots, y: Slots)
    requires Single(x) && Single(y) && SingleStored(s, x) && SingleStored(s, y)
    requires x.File? && y.File? && EntryOf(s, x) == EntryOf(s, y)
    ensures x == y
  {
    assert Head(EntryOf(s, x)) == x.chain[0] == y.chain[0];
    ChainUnique(s.fat, x.chain[0], x.chain, y.chain);
    assert x.blocks == y.blocks;
  }

  /** The first match stays first when one slot changes between two non-matching entries. */
  lemma FindEntryStable(a: Table, j: nat, e: Entry, name: Name, ext: Ext, i: nat)
    requires j < 64 && i <= 64
    requires !(a[j].name == name && a[j].ext == ext) && !(e.name == name && e.ext == ext)
    ensures FindEntry(a[j := e], name, ext, i) == FindEntry(a, name, ext, i)
  {
    var k, k' := FindEntry(a, name, ext, i), FindEntry(a[j := e], name, ext, i);
    assert k < 64 ==> a[j := e][k] == a[k];
    assert k' < 64 ==> a[j := e][k'] == a[k'];
  }

  // ----- different entries never share a cell -----

  /** A file's cells hold no directory. */
  lemma FileIsNotADirectory(s: State, t: Slots, p: nat, k: nat)
    requires Represents(s, t) && p in Dirs(t) && p < 512 && 1 <= k < 64 && SlotAt(t, p, k).File?
    ensures Cells(SlotAt(t, p, k)) !! Dirs(t)
  {
    Unlink(s, t, p, k);
    DirsAreCells(Edit(t, p, k, Free(End)));
    SlotAtStored(s, t, p, k);
  }

  lemma FilesAreDisjoint(s: State, t: Slots, p: nat, k: nat, q: nat, j: nat)
    requires Represents(s, t) && p in Dirs(t) && p < 512 && 1 <= k < 64 && SlotAt(t, p, k).File?
    requires q in Dirs(t) && q < 512 && 1 <= j < 64 && SlotAt(t, q, j).File? && (p, k) != (q, j)
    ensures Cells(SlotAt(t, p, k)) !! Cells(SlotAt(t, q, j))
  {
    hide DecodeTable, FileStored, DirStored, Stored, WriteTable;
    var x, y := SlotAt(t, p, k), SlotAt(t, q, j);
    var tab := TableAt(s, p)[k := ZERO_ENTRY];
    var s1, t1 := WriteTable(s, p, tab), Edit(t, p, k, Free(End));
    SlotAtStored(s, t, p, k);
    SlotAtStored(s, t, q, j);
    FileIsNotADirectory(s, t, q, j);
    Unlink(s, t, p, k);
    TableWritten(s, p, tab);
    SlotAtStored(s1, t1, q, j);
    SingleFrame(s, s1, y);
    assert TableAt(s1, q)[j] == TableAt(s, q)[j];
    assert TableAt(s, q)[j].attribute == ATTR_ARCHIVE;
    SameFile(s1, y, SlotAt(t1, q, j));
  }

  // ----- steps and runs leave other files alone -----

  lemma DeltaKeeps(s: State, s': State, t: Slots, t': Slots, q: nat, j: nat, e: Entry, cs: set<nat>,
                   p: nat, name: Name, ext: Ext, blocks: seq<Cluster>)
    requires Represents(s, t) && Represents(s', t') && Delta(s, s', q, j, e, cs)
    requires Delivers(s, t, p, name, ext, blocks) && p in Dirs(t') && q in Dirs(t) && p !in cs
    requires q == p ==> !(e.name == name && e.ext == ext)
    requires q == p ==> j >= 1 && !Matches(SlotAt(t, q, j), name, ext)
    requires cs !! Cells(SlotAt(t, p, FindEntry(TableAt(s, p), name, ext, 1)))
    ensures Delivers(s', t', p, name, ext, blocks)
  {
    hide DecodeTable, FileStored, DirStored, Stored, EncodeFat, Matches;
    var k := FindEntry(TableAt(s, p), name, ext, 1);
    DirectoryHead(s, t, p);
    FileIsNotADirectory(s, t, p, k);
    TreeInRange(s, t);
    SlotAtStored(s, t, p, k);
    if q == p {
      EntryMatches(s, t, p, j, name, ext);
      EntryMatches(s, t, p, k, name, ext);
      FindEntryStable(TableAt(s, p), j, e, name, ext, 1);
      assert k != j;
    } else {
      assert s'.disk[p] == s.disk[p];
    }
    FileKept(s, s', t, t', p, name, ext, blocks);
  }

  lemma FailedWriteChangesNothing(s: State, t: Slots, r: Request, data: seq<byte>, stack: Table)
    requires Represents(s, t) && Legal(s, t, WriteOp(r, data, stack))
    requires Write(s, r, data, stack).1 != 0
    ensures Write(s, r, data, stack).0 == s
  {
    hide Represents, FreeCells, TableAt;
  }

  lemma MakeFileKeepsOthers(s: State, t: Slots, r: Request, data: seq<byte>, stack: Table,
                            p: nat, name: Name, ext: Ext, blocks: seq<Cluster>)
    requires Represents(s, t) && Synced(s) && Legal(s, t, WriteOp(r, data, stack))
    requires r.size != 0 && Write(s, r, data, stack).1 == 0
    requires Delivers(s, t, p, name, ext, blocks) && !(r.parent == p && r.name == name && r.ext == ext)
    ensures var op := WriteOp(r, data, stack);
            Delivers(Step(s, op), StepTree(s, t, op), p, name, ext, blocks)
  {
    hide DecodeTable, FileStored, DirStored, Stored, RootStored, EncodeFat, MakeFile,
         FreeCells, TargetSlot, Edit, TableAt, FindEntry;
    var op := WriteOp(r, data, stack);
    StepRefines(s, t, op);
    WroteIntoFreeSlot(s, t, r, data, stack);
    var s', t', q, x := Step(s, op), StepTree(s, t, op), r.parent, NewFile(s, r, data);
    var j, k := FindFree(TableAt(s, q), 0), FindEntry(TableAt(s, p), name, ext, 1);
    SlotAtStored(s, t, p, k);
    AllocationIsFresh(s, t, r.size / 2048);
    DirsOutside(s, t, x.chain);
    MakeFileDelta(s, r, data, x.chain);
    EditDirs(s, t, q, j, x);
    DeltaKeeps(s, s', t, t', q, j, FileEntry(r.name, r.ext, r.size, x.chain[0]), SetOf(x.chain),
               p, name, ext, blocks);
  }

  lemma MakeDirectoryKeepsOthers(s: State, t: Slots, r: Request, data: seq<byte>, stack: Table,
                                 p: nat, name: Name, ext: Ext, blocks: seq<Cluster>)
    requires Represents(s, t) && Synced(s) && Legal(s, t, WriteOp(r, data, stack))
    requires r.size == 0 && Write(s, r, data, stack).1 == 0
    requires Delivers(s, t, p, name, ext, blocks) && !(r.parent == p && r.name == name && ext == NO_EXT)
    ensures var op := WriteOp(r, data, stack);
            Delivers(Step(s, op), StepTree(s, t, op), p, name, ext, blocks)
  {
    hide DecodeTable, FileStored, DirStored, Stored, RootStored, EncodeFat, MakeDirectory,
         FreeCells, TargetSlot, Edit, TableAt, FindEntry;
    var op := WriteOp(r, data, stack);
    StepRefines(s, t, op);
    WroteIntoFreeSlot(s, t, r, data, stack);
    var s', t', q, c := Step(s, op), StepTree(s, t, op), r.parent, NewCell(s, r, stack);
    var j, k := FindFree(TableAt(s, q), 0), FindEntry(TableAt(s, p), name, ext, 1);
    SlotAtStored(s, t, p, k);
    DirsOutside(s, t, [c]);
    MakeDirectoryDelta(s, r, stack, c);
    EditDirs(s, t, q, j, NewDirectory(r, c));
    NewEntryHasNoExt(s, t, q, j);
    DeltaKeeps(s, s', t, t', q, j, DirEntry(r.name, c), {c}, p, name, ext, blocks);
  }

  lemma WroteIntoFreeSlot(s: State, t: Slots, r: Request, data: seq<byte>, stack: Table)
    requires Represents(s, t) && Legal(s, t, WriteOp(r, data, stack))
    requires Write(s, r, data, stack).1 == 0
    ensures r.parent in Dirs(t) && 2 <= r.parent < 512
    ensures var j := FindFree(TableAt(s, r.parent), 0);
            && 1 <= j < 64 && j == TargetSlot(TableAt(s, r.parent))
            && SlotAt(t, r.parent, j) == Free(End)
    ensures r.size != 0 ==> |FreeCells(s.fat, 2, r.size / 2048)| == r.size / 2048
  {
    hide DecodeTable, FreeCells, DirStored, FileStored, Stored;
    DirectoryHead(s, t, r.parent);
    FirstFitSucceeds(s.fat, 2, r.size / 2048);
    FreeSlotIsFree(s, t, r.parent, 0);
  }

  lemma NewEntryHasNoExt(s: State, t: Slots, q: nat, j: nat)
    requires RootStored(s, t) && q in Dirs(t) && q < 512 && 1 <= j < 64
    requires SlotAt(t, q, j) == Free(End)
    ensures TableAt(s, q)[j] == ZERO_ENTRY
    ensures forall name, c :: DirEntry(name, c).(ext := TableAt(s, q)[j].ext) == DirEntry(name, c)
  {
    SlotAtStored(s, t, q, j);
  }

  lemma DeleteKeepsOthers(s: State, t: Slots, r: Request,
                          p: nat, name: Name, ext: Ext, blocks: seq<Cluster>)
    requires Represents(s, t) && Synced(s) && Legal(s, t, DeleteOp(r)) && Defined(s, DeleteOp(r))
    requires Delivers(s, t, p, name, ext, blocks) && !Concerns(s, DeleteOp(r), p, name, ext)
    ensures var op := DeleteOp(r);
            Delivers(Step(s, op), StepTree(s, t, op), p, name, ext, blocks)
  {
    hide DecodeTable, FileStored, DirStored, Stored, RootStored, EncodeFat, Release, Edit, TableAt, FindEntry;
    var op := DeleteOp(r);
    StepRefines(s, t, op);
    DeleteRefines(s, t, r);
    if Delete(s, r).1 == 0 {
      var s', t', q, j := Step(s, op), StepTree(s, t, op), r.parent, DeleteSlot(s, r);
      var k := FindEntry(TableAt(s, p), name, ext, 1);
      DeleteTarget(s, t, r);
      SlotAtStored(s, t, p, k);
      SlotAtStored(s, t, q, j);
      EditDirs(s, t, q, j, Free(End));
      var y := SlotAt(t, q, j);
      FileIsNotADirectory(s, t, p, k);
      TreeInRange(s, t);
      var ch := Released(s, t, r);
      forall c | c in ch ensures c in Cells(y) && 2 <= c < 512 { assert c in SetOf(ch); }
      ReleaseDelta(s, ch, q, j);
      if y.File? {
        FileIsNotADirectory(s, t, q, j);
        FilesAreDisjoint(s, t, p, k, q, j);
      } else {
        NotTheEmptied(s, t, p, k, y);
        DirsAreCells(y);
      }
      DeltaKeeps(s, s', t, t', q, j, ZERO_ENTRY, SetOf(ch), p, name, ext, blocks);
    }
  }

  /** The cells a successful `delete` gives back are those of the entry it removes. */
  lemma Released(s: State, t: Slots, r: Request) returns (ch: seq<nat>)
    requires Represents(s, t) && r.parent in Dirs(t) && DeleteDefined(s, r) && Delete(s, r).1 == 0
    ensures var k := DeleteSlot(s, r);
            && k < 64 && SetOf(ch) == Cells(SlotAt(t, r.parent, k))
            && Delete(s, r).0 == Release(s, ch, r.parent, TableAt(s, r.parent)[k := ZERO_ENTRY])
    ensures SlotAt(t, r.parent, DeleteSlot(s, r)).Dir? ==> ch == [SlotAt(t, r.parent, DeleteSlot(s, r)).cluster]
    ensures SlotAt(t, r.parent, DeleteSlot(s, r)).File? ==> ch == SlotAt(t, r.parent, DeleteSlot(s, r)).chain
  {
    hide DecodeTable, Release, EmptySlots, RootStored, FindEntry;
    DeleteTarget(s, t, r);
    var x := SlotAt(t, r.parent, DeleteSlot(s, r));
    if x.File? {
      ch := FreedBy(s.fat, x.chain[0]);
      FreesIsChain(s.fat, x.chain[0], ch);
      ChainUnique(s.fat, x.chain[0], ch, x.chain);
    } else {
      ch := [x.cluster];
      EmptyIffNoLiveSlot(s, x.cluster, 1, x.kids);
      NoCellsInEmptySlots(1);
      assert SetOf(ch) == {x.cluster};
    }
  }

  /** A directory that lists a file is not the empty one being deleted. */
  lemma NotTheEmptied(s: State, t: Slots, p: nat, k: nat, y: Slots)
    requires Represents(s, t) && p in Dirs(t) && p < 512 && 1 <= k < 64 && SlotAt(t, p, k).File?
    requires y.Dir? && Single(y) && SingleStored(s, y) && y.kids == EmptySlots(1)
    ensures p != y.cluster && Dirs(y) == {y.cluster}
  {
    hide DecodeTable, FileStored;
    SlotAtStored(s, t, p, k);
    EmptyIffNoLiveSlot(s, y.cluster, 1, y.kids);
    NoCellsInEmptySlots(1);
  }

  lemma MoveKeepsOthers(s: State, t: Slots, src: nat, dst: nat, m: nat,
                        p: nat, name: Name, ext: Ext, blocks: seq<Cluster>)
    requires Represents(s, t) && Synced(s) && Legal(s, t, MoveOp(src, dst, m)) && Defined(s, MoveOp(src, dst, m))
    requires Delivers(s, t, p, name, ext, blocks) && !Concerns(s, MoveOp(src, dst, m), p, name, ext)
    ensures var op := MoveOp(src, dst, m);
            Delivers(Step(s, op), StepTree(s, t, op), p, name, ext, blocks)
  {
    hide DecodeTable, FileStored, DirStored, Stored, RootStored, EncodeTable, Move, Edit, FindEntry, Moved, WriteTable,
         Slot, Kids, Dirs, Apart;
    var op, i := MoveOp(src, dst, m), FindFree(TableAt(s, dst), 1);
    StepRefines(s, t, op);
    MoveSteps(s, t, src, dst, m);
    if i < 64 {
      var s', t' := Step(s, op), StepTree(s, t, op);
      var a, e := TableAt(s, src), TableAt(s, src)[m];
      TableWritten(s, src, a[m := ZERO_ENTRY]);
      var s1 := WriteTable(s, src, a[m := ZERO_ENTRY]);
      TableWritten(s1, dst, TableAt(s, dst)[i := e]);
      MovedDirs(s, t, src, m, dst, i);
      var k := FindEntry(TableAt(s, p), name, ext, 1);
      DirectoryHead(s, t, p);
      FileIsNotADirectory(s, t, p, k);
      SlotAtStored(s, t, p, k);
      TreeInRange(s, t);
      FreeSlotIsFree(s, t, dst, 1);
      SlotAtStored(s, t, dst, i);
      if p == src {
        FindEntryStable(a, m, ZERO_ENTRY, name, ext, 1);
      } else if p == dst {
        FindEntryStable(TableAt(s, dst), i, e, name, ext, 1);
      }
      FileKept(s, s', t, t', p, name, ext, blocks);
    }
  }

  lemma MovedDirs(s: State, t: Slots, p: nat, k: nat, q: nat, i: nat)
    requires Represents(s, t) && p in Dirs(t) && q in Dirs(t) && p != q && 1 <= k < 64 && p < 512 && q < 512
    requires q !in Dirs(SlotAt(t, p, k)) && i == FindFree(TableAt(s, q), 1) < 64
    ensures Dirs(Moved(t, p, k, q, i)) == Dirs(t)
  {
    hide DecodeTable, FileStored, DirStored, Stored, EncodeTable, Edit, WriteTable;
    var s1, t1 := WriteTable(s, p, TableAt(s, p)[k := ZERO_ENTRY]), Edit(t, p, k, Free(End));
    TableWritten(s, p, TableAt(s, p)[k := ZERO_ENTRY]);
    SlotAtStored(s, t, p, k);
    Unlink(s, t, p, k);
    FreeSlotIsFree(s1, t1, q, 1);
    EditDirs(s1, t1, q, i, SlotAt(t, p, k));
  }

  lemma StepKeepsOthers(s: State, t: Slots, op: Op, p: nat, name: Name, ext: Ext, blocks: seq<Cluster>)
    requires Represents(s, t) && Synced(s) && Legal(s, t, op) && Defined(s, op)
    requires Delivers(s, t, p, name, ext, blocks) && !Concerns(s, op, p, name, ext)
    ensures Delivers(Step(s, op), StepTree(s, t, op), p, name, ext, blocks)
  {
    hide Represents, Synced, Delivers, Write, Delete, Move, TableAt;
    match op
    case WriteOp(r, data, stack) =>
      if Write(s, r, data, stack).1 != 0 {
        FailedWriteChangesNothing(s, t, r, data, stack);
      } else if r.size == 0 {
        MakeDirectoryKeepsOthers(s, t, r, data, stack, p, name, ext, blocks);
      } else {
        MakeFileKeepsOthers(s, t, r, data, stack, p, name, ext, blocks);
      }
    case DeleteOp(r) => DeleteKeepsOthers(s, t, r, p, name, ext, blocks);
    case MoveOp(src, dst, m) => MoveKeepsOthers(s, t, src, dst, m, p, name, ext, blocks);
    case RebootOp(ram, buf) => RemountRestores(s, ram, buf);
  }

  /** No call of the run creates, removes or moves an entry of that name in that directory. */
  ghost predicate Unconcerned(s: State, t: Slots, ops: seq<Op>, p: nat, name: Name, ext: Ext)
    requires Represents(s, t) && Synced(s) && LegalRun(s, t, ops)
    decreases |ops|
  {
    ops == [] ||
    (!Concerns(s, ops[0], p, name, ext) &&
     var (s1, t1) := After(s, t, ops[0]);
     Unconcerned(s1, t1, ops[1..], p, name, ext))
  }

  lemma {:induction false} RunKeepsOthers(s: State, t: Slots, ops: seq<Op>,
                                          p: nat, name: Name, ext: Ext, blocks: seq<Cluster>)
    requires Represents(s, t) && Synced(s) && LegalRun(s, t, ops)
    requires Delivers(s, t, p, name, ext, blocks) && Unconcerned(s, t, ops, p, name, ext)
    ensures var (s', t') := Run(s, t, ops);
            Delivers(s', t', p, name, ext, blocks)
    decreases |ops|
  {
    hide Represents, Synced, Legal, Defined, Step, StepTree, Delivers, Concerns;
    if ops != [] {
      var (s1, t1) := After(s, t, ops[0]);
      StepKeepsOthers(s, t, ops[0], p, name, ext, blocks);
      RunKeepsOthers(s1, t1, ops[1..], p, name, ext, blocks);
    }
  }

  // ----- write, then read, any number of calls later -----

  lemma WriteDelivers(s: State, t: Slots, r: Request, data: seq<byte>, stack: Table)
    requires Represents(s, t) && Synced(s) && Legal(s, t, WriteOp(r, data, stack))
    requires r.size != 0 && Write(s, r, data, stack).1 == 0
    requires FindFree(TableAt(s, r.parent), 0) <= FindEntry(TableAt(s, r.parent), r.name, r.ext, 1)
    ensures var op := WriteOp(r, data, stack);
            && Delivers(Step(s, op), StepTree(s, t, op), r.parent, r.name, r.ext, Blocks(data, r.size / 2048))
            && var j := FindFree(TableAt(s, r.parent), 0);
               && 1 <= j < 64 && FindEntry(TableAt(Step(s, op), r.parent), r.name, r.ext, 1) == j
               && SlotAt(StepTree(s, t, op), r.parent, j) == NewFile(s, r, data)
  {
    hide DecodeTable, DirStored, FileStored, Stored, RootStored, EncodeFat, MakeFile, FreeCells, Edit, TargetSlot;
    var op := WriteOp(r, data, stack);
    StepRefines(s, t, op);
    WroteIntoFreeSlot(s, t, r, data, stack);
    var s', t', p := Step(s, op), StepTree(s, t, op), r.parent;
    var j, x := FindFree(TableAt(s, p), 0), NewFile(s, r, data);
    DirsOutside(s, t, x.chain);
    MakeFileDelta(s, r, data, x.chain);
    MakeFileCells(s, r, data, x.chain);
    EditDirs(s, t, p, j, x);
    NewFileSingle(s', r, x);
    SlotAtStored(s', t', p, j);
    SameFile(s', x, SlotAt(t', p, j));
    assert FindEntry(TableAt(s', p), r.name, r.ext, 1) == j;
  }

  /** What was written is what is read, after any legal run of calls on other entries. */
  lemma WriteThenRead(s: State, t: Slots, r: Request, data: seq<byte>, stack: Table,
                      s1: State, t1: Slots, ops: seq<Op>, size: u32)
    requires Represents(s, t) && Synced(s) && Legal(s, t, WriteOp(r, data, stack))
    requires r.size != 0 && Write(s, r, data, stack).1 == 0 && size / 2048 >= r.size / 2048
    requires FindFree(TableAt(s, r.parent), 0) <= FindEntry(TableAt(s, r.parent), r.name, r.ext, 1)
    requires (s1, t1) == After(s, t, WriteOp(r, data, stack)) && LegalRun(s1, t1, ops)
    requires Unconcerned(s1, t1, ops, r.parent, r.name, r.ext)
    ensures var s', request := Run(s1, t1, ops).0, r.(size := size);
            && ReadDefined(s', request) && Read(s', request).0 == 0
            && Concat(Read(s', request).1) == data[..2048 * (r.size / 2048)]
  {
    hide Represents, Synced, Defined, Step, StepTree, Concerns, FindEntry, FindFree, TableAt, Write, Read;
    WriteDelivers(s, t, r, data, stack);
    RunKeepsOthers(s1, t1, ops, r.parent, r.name, r.ext, Blocks(data, r.size / 2048));
    RunKeepsInvariant(s1, t1, ops);
    var (s', t') := Run(s1, t1, ops);
    ReadDelivers(s', t', r.(size := size), Blocks(data, r.size / 2048));
    ConcatBlocks(data, r.size / 2048);
  }

  // ----- the inserter -----

  /** The inserter's buffer size for a file of `n` bytes. */
  function RoundedUp(n: nat): nat {
    if n != 0 then ((n - 1) / 0x800 + 1) * 0x800 else 0
  }

  /** Rounding up asks for whole clusters that hold the file and waste less than one: every byte of
      an inserted file survives the round trip above. */
  lemma InserterKeepsEveryByte(n: nat, data: seq<byte>)
    requires n > 0 && RoundedUp(n) <= |data|
    ensures n <= RoundedUp(n) < n + 2048 && 2048 * (RoundedUp(n) / 2048) == RoundedUp(n) >= 2048
    ensures data[..2048 * (RoundedUp(n) / 2048)][..n] == data[..n]
  {
  }
}
