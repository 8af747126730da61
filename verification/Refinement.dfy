// Each driver call refines an edit of the directory tree.
module Refinement {
  import opened Layout
  import opened Chains
  import opened Calls
  import opened Tree
  import opened TreeFacts
  import opened Edits

  /** `s'` is `s` with entry `e` in slot `k` of directory `p`, changes in the cells `cs`, and the map
      written back. */
  ghost predicate Delta(s: State, s': State, p: nat, k: nat, e: Entry, cs: set<nat>) {
    && 2 <= p < 512 && k < 64
    && TableAt(s', p) == TableAt(s, p)[k := e]
    && s'.fat[p] == s.fat[p] && s'.fat[0] == s.fat[0] && s'.fat[1] == s.fat[1]
    && s'.disk[0] == s.disk[0] && s'.disk[1] == EncodeFat(s'.fat)
    && forall c :: 2 <= c < 512 && c != p && c !in cs ==>
         s'.fat[c] == s.fat[c] && s'.disk[c] == s.disk[c]
  }

  /** A change confined to one slot and to the cells of its old and new content keeps the invariant. */
  lemma DeltaEdits(s: State, s': State, t: Slots, p: nat, k: nat, x: Slots, cs: set<nat>)
    requires Represents(s, t) && p in Dirs(t) && 1 <= k < 64
    requires Single(x) && SingleStored(s', x) && Apart(x)
    requires Delta(s, s', p, k, EntryOf(s', x), cs)
    requires (cs + Cells(x)) !! (Cells(t) - Cells(SlotAt(t, p, k)))
    requires Cells(x) + Cells(SlotAt(t, p, k)) <= cs + Cells(x) * Cells(SlotAt(t, p, k))
    requires forall c :: c in cs && 2 <= c < 512 ==> (s'.fat[c] != EMPTY <==> c in Cells(x))
    ensures Represents(s', Edit(t, p, k, x))
    ensures Synced(s) ==> Synced(s')
  {
    hide DecodeTable, EncodeFat, EncodeTable, FileEntry, DirEntry, FileStored, Stored, DirStored;
    SlotAtStored(s, t, p, k);
    DirsAreCells(t);
    TreeInRange(s, t);
    EditStored(s, s', t, p, k, x);
  }

  lemma TreeInRange(s: State, t: Slots)
    requires RootStored(s, t)
    ensures forall c :: c in Cells(t) ==> 2 <= c < 512
    ensures 2 in Cells(t)
  {
    CellsInRange(s, 2, 1, t.kids);
  }

  lemma CommitFacts(disk: Disk, fat: Fat, p: nat, t: Table)
    requires 2 <= p < 2048
    ensures var d := Commit(disk, fat, p, t);
            && d[1] == EncodeFat(fat) && d[0] == disk[0] && DecodeTable(d[p]) == t
            && forall c :: 2 <= c < 2048 && c != p ==> d[c] == disk[c]
  {
    TableRoundTrip(t);
  }

  /** The slot `write` fills in a directory that is not full. */
  lemma FreeSlotIsFree(s: State, t: Slots, p: nat, i: nat)
    requires RootStored(s, t) && p in Dirs(t) && i <= 1 && p < 512
    ensures FindFree(TableAt(s, p), i) >= 1
    ensures var j := FindFree(TableAt(s, p), i); j < 64 ==> SlotAt(t, p, j) == Free(End)
  {
    var name := DirectoryStored(s, t, p);
    var j := FindFree(TableAt(s, p), i);
    if 1 <= j < 64 { SlotAtStored(s, t, p, j); }
  }

  // ----- writing a file -----

  /** The cells first fit hands out are new to the tree. */
  lemma AllocationIsFresh(s: State, t: Slots, n: nat)
    requires Represents(s, t)
    ensures var cells := FreeCells(s.fat, 2, n);
            Ascending(cells) && Distinct(cells) && Within(cells, 512) && SetOf(cells) !! Cells(t)
  {
    FreeCellsAscend(s.fat, 2, n);
  }

  lemma MakeFileCells(s: State, r: Request, data: seq<byte>, cells: seq<nat>)
    requires 2 <= r.parent < 512 && 2048 <= r.size && 2048 * (r.size / 2048) <= |data|
    requires cells == FreeCells(s.fat, 2, r.size / 2048) && |cells| == r.size / 2048
    requires r.parent !in cells
    ensures var (s', _) := MakeFile(s, r, data);
            && FileStored(s', r.name, r.size, cells, Blocks(data, |cells|)) == (r.name != NO_NAME)
            && forall c :: c in cells ==> s'.fat[c] != EMPTY
  {
    hide DecodeTable, EncodeFat, EncodeTable, FileEntry, Commit, Written, Link, FreeCells, Block, IsChain;
    var s' := MakeFile(s, r, data).0;
    FreeCellsAscend(s.fat, 2, |cells|);
    LinkMakesChain(s.fat, cells);
    LinkCells(s.fat, cells);
    BlocksHeld(s, r, data, cells);
    forall c | c in cells ensures s'.fat[c] != EMPTY {
      var k :| 0 <= k < |cells| && cells[k] == c;
      assert s'.fat[cells[k]] == Successor(cells, k);
    }
  }

  lemma BlocksHeld(s: State, r: Request, data: seq<byte>, cells: seq<nat>)
    requires 2 <= r.parent < 512 && 2048 <= r.size && 2048 * (r.size / 2048) <= |data|
    requires cells == FreeCells(s.fat, 2, r.size / 2048) && |cells| == r.size / 2048
    requires r.parent !in cells
    ensures Holds(MakeFile(s, r, data).0.disk, cells, Blocks(data, |cells|))
  {
    hide DecodeTable, EncodeFat, EncodeTable, FileEntry, Commit, Written, Link, FreeCells, Block, IsChain;
    var n, blocks, s' := |cells|, Blocks(data, |cells|), MakeFile(s, r, data).0;
    FreeCellsAscend(s.fat, 2, n);
    WrittenHolds(s.disk, cells, blocks, n);
    var tab := TableAt(s, r.parent);
    CommitFacts(Written(s.disk, cells, blocks, n), s'.fat, r.parent,
                tab[TargetSlot(tab) := FileEntry(r.name, r.ext, r.size, cells[0])]);
  }

  lemma MakeFileDelta(s: State, r: Request, data: seq<byte>, cells: seq<nat>)
    requires 2 <= r.parent < 512 && 2048 <= r.size && 2048 * (r.size / 2048) <= |data|
    requires cells == FreeCells(s.fat, 2, r.size / 2048) && |cells| == r.size / 2048
    requires r.parent !in cells
    ensures var (s', code) := MakeFile(s, r, data);
            code == 0 && Delta(s, s', r.parent, TargetSlot(TableAt(s, r.parent)),
                               FileEntry(r.name, r.ext, r.size, cells[0]), SetOf(cells))
  {
    hide DecodeTable, EncodeFat, EncodeTable, FileEntry, Commit, Written, Link, FreeCells, Block;
    var n, blocks, s' := |cells|, Blocks(data, |cells|), MakeFile(s, r, data).0;
    FreeCellsAscend(s.fat, 2, n);
    LinkMakesChain(s.fat, cells);
    WrittenHolds(s.disk, cells, blocks, n);
    assert cells[..n] == cells;
    var tab := TableAt(s, r.parent);
    CommitFacts(Written(s.disk, cells, blocks, n), s'.fat, r.parent,
                tab[TargetSlot(tab) := FileEntry(r.name, r.ext, r.size, cells[0])]);
  }

  ghost function NewFile(s: State, r: Request, data: seq<byte>): Slots
    requires 2048 * (r.size / 2048) <= |data|
  {
    var n := r.size / 2048;
    File(r.name, r.ext, r.size, FreeCells(s.fat, 2, n), Blocks(data, n), End)
  }

  /** A file write into a directory with a free slot adds one file there, or finds too few free
      cells and changes nothing. */
  lemma MakeFileRefines(s: State, t: Slots, r: Request, data: seq<byte>)
    requires Represents(s, t) && r.parent in Dirs(t) && 2 <= r.parent < 2048 && r.name != NO_NAME
    requires 2048 <= r.size && 2048 * (r.size / 2048) <= |data|
    requires FindFree(TableAt(s, r.parent), 0) < 64
    ensures var (s', code) := MakeFile(s, r, data);
            var j := FindFree(TableAt(s, r.parent), 0);
            if r.size / 2048 <= |FreeSet(s.fat, 2)|
            then && code == 0 && 1 <= j && SlotAt(t, r.parent, j) == Free(End)
                 && Represents(s', Edit(t, r.parent, j, NewFile(s, r, data)))
                 && (Synced(s) ==> Synced(s'))
            else code == 1 && s' == s
  {
    hide DecodeTable, DecodeFat, EncodeFat, EncodeTable, FileEntry, FileStored, Stored, DirStored;
    var p, n := r.parent, r.size / 2048;
    FirstFitSucceeds(s.fat, 2, n);
    if n <= |FreeSet(s.fat, 2)| {
      var s' := MakeFile(s, r, data).0;
      var j, x := FindFree(TableAt(s, p), 0), NewFile(s, r, data);
      SlotAtStored(s, t, p, 1);
      FreeSlotIsFree(s, t, p, 0);
      AllocationIsFresh(s, t, n);
      DirsAreCells(t);
      MakeFileCells(s, r, data, x.chain);
      MakeFileDelta(s, r, data, x.chain);
      NewFileSingle(s', r, x);
      DeltaEdits(s, s', t, p, j, x, Cells(x));
    }
  }

  lemma NewFileSingle(s: State, r: Request, x: Slots)
    requires Single(x) && x.File? && FileStored(s, r.name, r.size, x.chain, x.blocks)
    requires x.name == r.name && x.ext == r.ext && x.size == r.size
    ensures SingleStored(s, x) && Apart(x) && Cells(x) == SetOf(x.chain)
    ensures EntryOf(s, x) == FileEntry(r.name, r.ext, r.size, x.chain[0])
  {
  }

  // ----- making a directory -----

  function EmptySlots(i: nat): Slots
    decreases 64 - i
  {
    if i >= 64 then End else Free(EmptySlots(i + 1))
  }

  lemma {:induction false} NoCellsInEmptySlots(i: nat)
    ensures Cells(EmptySlots(i)) == {} && Dirs(EmptySlots(i)) == {} && Apart(EmptySlots(i))
    decreases 64 - i
  {
    if i < 64 { NoCellsInEmptySlots(i + 1); }
  }

  /** The stack memory under the new table was zero beyond slot 0. */
  ghost predicate CleanStack(stack: Table) {
    forall m :: 1 <= m < 64 ==> stack[m] == ZERO_ENTRY
  }

  lemma {:induction false} EmptySlotsStored(s: State, d: nat, i: nat)
    requires d < 2048 && i <= 64
    requires forall m :: i <= m < 64 ==> TableAt(s, d)[m] == ZERO_ENTRY
    ensures Stored(s, d, i, EmptySlots(i))
    decreases 64 - i
  {
    hide DecodeTable;
    if i < 64 { EmptySlotsStored(s, d, i + 1); }
  }

  /** A stored directory has no live slot exactly when its tree is empty. */
  lemma {:induction false} EmptyIffNoLiveSlot(s: State, d: nat, i: nat, f: Slots)
    requires d < 2048 && Stored(s, d, i, f) && i <= 64
    ensures f == EmptySlots(i) <==>
            forall m :: i <= m < 64 ==> TableAt(s, d)[m].userAttribute != UATTR_NOT_EMPTY
    decreases f
  {
    hide DecodeTable, FileStored, DirStored;
    if f != End {
      EmptyIffNoLiveSlot(s, d, i + 1, f.rest);
      assert f.Free? <==> TableAt(s, d)[i].userAttribute != UATTR_NOT_EMPTY;
      if !f.Free? { assert EmptySlots(i).Free?; }
    }
  }

  lemma MakeDirectoryDelta(s: State, r: Request, stack: Table, c: nat)
    requires 2 <= r.parent < 512 && FreeCells(s.fat, 2, 1) == [c] && c < 511 && r.parent != c
    ensures var (s', code) := MakeDirectory(s, r, stack);
            var tab := TableAt(s, r.parent);
            && code == 0 && s'.fat[c] == EOF
            && Delta(s, s', r.parent, TargetSlot(tab),
                     DirEntry(r.name, c).(ext := tab[TargetSlot(tab)].ext), {c})
            && TableAt(s', c) == stack[0 := DirEntry(r.name, c)]
  {
    hide DecodeTable, EncodeFat, EncodeTable, FileEntry, Commit, DirEntry, FreeCells;
    var tab := TableAt(s, r.parent);
    var k := TargetSlot(tab);
    var e := DirEntry(r.name, c).(ext := tab[k].ext);
    var fat: Fat := s.fat[c := EOF];
    var disk: Disk := s.disk[c := EncodeTable(stack[0 := DirEntry(r.name, c)])];
    CommitFacts(disk, fat, r.parent, tab[k := e]);
    TableRoundTrip(stack[0 := DirEntry(r.name, c)]);
  }

  ghost function NewDirectory(r: Request, c: nat): Slots {
    Dir(r.name, c, EmptySlots(1), End)
  }

  /** A directory write into a directory with a free slot takes the lowest free cell and adds an
      empty directory. When that cell is 511 it reports a full map, having marked the cell. */
  lemma MakeDirectoryRefines(s: State, t: Slots, r: Request, stack: Table)
    requires Represents(s, t) && r.parent in Dirs(t) && 2 <= r.parent < 2048 && r.name != NO_NAME
    requires FindFree(TableAt(s, r.parent), 0) < 64 && CleanStack(stack)
    ensures var (s', code) := MakeDirectory(s, r, stack);
            var j := FindFree(TableAt(s, r.parent), 0);
            var free := FreeCells(s.fat, 2, 1);
            if free == [] then code == 1 && s' == s
            else if free[0] == 511 then code == 1 && s' == State(s.fat[511 := EOF], s.disk)
            else && code == 0 && 1 <= j && SlotAt(t, r.parent, j) == Free(End)
                 && Represents(s', Edit(t, r.parent, j, NewDirectory(r, free[0])))
                 && (Synced(s) ==> Synced(s'))
  {
    hide DecodeTable, EncodeFat, EncodeTable, FileEntry, Commit, FileStored, EmptySlots, RootStored, Edit;
    var free := FreeCells(s.fat, 2, 1);
    assert RootStored(s, t);
    if free != [] && free[0] != 511 {
      var p, c, s' := r.parent, free[0], MakeDirectory(s, r, stack).0;
      var j, x := FindFree(TableAt(s, p), 0), NewDirectory(r, c);
      SlotAtStored(s, t, p, 1);
      FreeSlotIsFree(s, t, p, 0);
      SlotAtStored(s, t, p, j);
      AllocationIsFresh(s, t, 1);
      DirsAreCells(t);
      MakeDirectoryDelta(s, r, stack, c);
      EmptySlotsStored(s', c, 1);
      NoCellsInEmptySlots(1);
      DeltaEdits(s, s', t, p, j, x, {c});
    }
  }

  // ----- deleting -----

  lemma ReleaseDelta(s: State, ch: seq<nat>, p: nat, k: nat)
    requires 2 <= p < 512 && k < 64 && p !in ch && forall c :: c in ch ==> 2 <= c < 512
    ensures var s' := Release(s, ch, p, TableAt(s, p)[k := ZERO_ENTRY]);
            && Delta(s, s', p, k, ZERO_ENTRY, SetOf(ch))
            && forall c :: c in ch ==> s'.fat[c] == EMPTY
  {
    hide DecodeTable, EncodeFat, EncodeTable, Commit;
    CommitFacts(ZeroAll(s.disk, ch), FreeAll(s.fat, ch), p, TableAt(s, p)[k := ZERO_ENTRY]);
  }

  lemma ReleaseEdits(s: State, t: Slots, p: nat, k: nat, ch: seq<nat>)
    requires Represents(s, t) && p in Dirs(t) && 1 <= k < 64 && SetOf(ch) == Cells(SlotAt(t, p, k))
    ensures p < 512
    ensures var s' := Release(s, ch, p, TableAt(s, p)[k := ZERO_ENTRY]);
            Represents(s', Edit(t, p, k, Free(End))) && (Synced(s) ==> Synced(s'))
  {
    hide DecodeTable, EncodeFat, EncodeTable, Release, FileStored, DirStored, Stored;
    SlotAtStored(s, t, p, k);
    TreeInRange(s, t);
    forall c | c in ch ensures 2 <= c < 512 && c != p { assert c in SetOf(ch); }
    ReleaseDelta(s, ch, p, k);
    DeltaEdits(s, Release(s, ch, p, TableAt(s, p)[k := ZERO_ENTRY]), t, p, k, Free(End), SetOf(ch));
  }

  /** What `delete` finds: never a free slot, because names are never empty. */
  lemma DeleteTarget(s: State, t: Slots, r: Request)
    requires Represents(s, t) && r.parent in Dirs(t) && r.parent < 2048
    ensures var k := DeleteSlot(s, r);
            k < 64 ==>
              var x := SlotAt(t, r.parent, k);
              && 1 <= k && Single(x) && SingleStored(s, x) && !x.Free? && x.name == r.name
              && TableAt(s, r.parent)[k] == EntryOf(s, x)
              && (x.File? ==> x.ext == r.ext) && (x.Dir? ==> r.ext == NO_EXT)
  {
    hide DecodeTable;
    var k := DeleteSlot(s, r);
    if k < 64 { SlotAtStored(s, t, r.parent, k); }
  }

  /** `delete` stays inside the map exactly when its target is not a file of a single cluster. */
  lemma DeleteDefinedIff(s: State, t: Slots, r: Request)
    requires Represents(s, t) && r.parent in Dirs(t) && r.parent < 2048
    ensures DeleteDefined(s, r) <==>
            var k := DeleteSlot(s, r);
            k < 64 ==>
              var x := SlotAt(t, r.parent, k); x.File? ==> |x.chain| >= 2
  {
    hide DecodeTable;
    DeleteTarget(s, t, r);
    var k := DeleteSlot(s, r);
    if k < 64 {
      var x := SlotAt(t, r.parent, k);
      if x.File? {
        LoopFreesLongChains(s.fat, x.chain[0], x.chain);
      }
    }
  }

  lemma DeleteFileRefines(s: State, t: Slots, r: Request, x: Slots)
    requires Represents(s, t) && r.parent in Dirs(t) && DeleteDefined(s, r) && DeleteSlot(s, r) < 64
    requires x == SlotAt(t, r.parent, DeleteSlot(s, r)) && x.File?
    ensures var (s', code) := Delete(s, r);
            && code == 0 && Represents(s', Edit(t, r.parent, DeleteSlot(s, r), Free(End)))
            && (Synced(s) ==> Synced(s'))
  {
    hide DecodeTable, Release, Edit, FindEntry, Stored, RootStored;
    DeleteTarget(s, t, r);
    var ch := FreedBy(s.fat, x.chain[0]);
    FreesIsChain(s.fat, x.chain[0], ch);
    ChainUnique(s.fat, x.chain[0], ch, x.chain);
    ReleaseEdits(s, t, r.parent, DeleteSlot(s, r), ch);
  }

  lemma DeleteFolderRefines(s: State, t: Slots, r: Request, x: Slots)
    requires Represents(s, t) && r.parent in Dirs(t) && DeleteDefined(s, r) && DeleteSlot(s, r) < 64
    requires x == SlotAt(t, r.parent, DeleteSlot(s, r)) && x.Dir?
    ensures var (s', code) := Delete(s, r);
            if x.kids != EmptySlots(1) then code == 2 && s' == s
            else && code == 0 && Represents(s', Edit(t, r.parent, DeleteSlot(s, r), Free(End)))
                 && (Synced(s) ==> Synced(s'))
  {
    hide DecodeTable, Release, Edit, FindEntry, RootStored, EmptySlots, FileStored;
    DeleteTarget(s, t, r);
    EmptyIffNoLiveSlot(s, x.cluster, 1, x.kids);
    if x.kids == EmptySlots(1) {
      NoCellsInEmptySlots(1);
      assert SetOf([x.cluster]) == {x.cluster};
      ReleaseEdits(s, t, r.parent, DeleteSlot(s, r), [x.cluster]);
    }
  }

  lemma DeleteRefines(s: State, t: Slots, r: Request)
    requires Represents(s, t) && r.parent in Dirs(t) && DeleteDefined(s, r)
    ensures var (s', code) := Delete(s, r);
            var k := DeleteSlot(s, r);
            if k == 64 then code == -1 && s' == s
            else
              var x := SlotAt(t, r.parent, k);
              if x.Dir? && x.kids != EmptySlots(1) then code == 2 && s' == s
              else && code == 0 && !x.Free?
                   && Represents(s', Edit(t, r.parent, k, Free(End)))
                   && (Synced(s) ==> Synced(s'))
  {
    hide Release, Edit, Represents, EmptySlots, TableAt, DeleteSlot, Synced;
    if DeleteSlot(s, r) < 64 {
      DeleteTarget(s, t, r);
      var x := SlotAt(t, r.parent, DeleteSlot(s, r));
      if x.File? { DeleteFileRefines(s, t, r, x); } else { DeleteFolderRefines(s, t, r, x); }
    }
  }
}
