// What calls leave alone, directory by directory: every directory that is not deleted stays, lists
// the same in every slot the call does not name, and opens the same names.
module Directories {
  import opened Layout
  import opened Chains
  import opened Calls
  import opened Tree
  import opened Edits
  import opened Locality
  import opened Refinement
  import opened Moving
  import opened Limits
  import opened Runs
  import opened ReadBack

  // ----- what a call names -----

  /** The slots a call may change. */
  predicate Touches(s: State, op: Op, q: nat, m: nat) {
    match op
    case WriteOp(r, _, _) => q == r.parent && q < 2048 && m == FindFree(TableAt(s, q), 0)
    case DeleteOp(r) => q == r.parent && q < 2048 && m == DeleteSlot(s, r)
    case MoveOp(src, dst, k) => (q == src && m == k) || (q == dst && q < 2048 && m == FindFree(TableAt(s, q), 1))
    case RebootOp(_, _) => false
  }

  /** The call takes directory `q` out of the tree. */
  ghost predicate Removes(s: State, t: Slots, op: Op, q: nat) {
    match op
    case DeleteOp(r) =>
      && DeleteDefined(s, r) && Delete(s, r).1 == 0
      && var x := SlotAt(t, r.parent, DeleteSlot(s, r));
         x.Dir? && x.cluster == q
    case _ => false
  }

  /** The call creates, removes or moves an entry called `name` in directory `q`. */
  predicate Renames(s: State, op: Op, q: nat, name: Name) {
    match op
    case WriteOp(r, _, _) => r.parent == q && r.name == name
    case DeleteOp(r) => r.parent == q && r.name == name
    case MoveOp(src, dst, k) => src < 2048 && k < 64 && (src == q || dst == q) && TableAt(s, src)[k].name == name
    case RebootOp(_, _) => false
  }

  // ----- tables -----

  /** The table of a surviving directory differs only in the slots the call names. */
  ghost predicate TableKept(s: State, s': State, op: Op, q: nat)
    requires q < 2048
  {
    forall m :: 0 <= m < 64 ==>
      if Touches(s, op, q, m) then
        && m >= 1
        && (TableAt(s, q)[m] == ZERO_ENTRY || Renames(s, op, q, TableAt(s, q)[m].name))
        && (TableAt(s', q)[m] == ZERO_ENTRY || Renames(s, op, q, TableAt(s', q)[m].name))
      else TableAt(s', q)[m] == TableAt(s, q)[m]
  }

  lemma DeltaKeepsTable(s: State, s': State, p: nat, k: nat, e: Entry, cs: set<nat>, q: nat)
    requires Delta(s, s', p, k, e, cs) && 2 <= q < 512 && q !in cs
    ensures TableAt(s', q) == if q == p then TableAt(s, p)[k := e] else TableAt(s, q)
  {
  }

  lemma MakeFileKeepsTables(s: State, t: Slots, r: Request, data: seq<byte>, stack: Table, q: nat)
    requires Represents(s, t) && Synced(s) && Legal(s, t, WriteOp(r, data, stack))
    requires r.size != 0 && Write(s, r, data, stack).1 == 0 && q in Dirs(t) && q < 512
    ensures TableKept(s, Write(s, r, data, stack).0, WriteOp(r, data, stack), q)
  {
    hide DecodeTable, FileStored, DirStored, Stored, RootStored, EncodeFat, MakeFile, FreeCells, TargetSlot, TableAt;
    WroteIntoFreeSlot(s, t, r, data, stack);
    var cells := FreeCells(s.fat, 2, r.size / 2048);
    AllocationIsFresh(s, t, r.size / 2048);
    DirsOutside(s, t, cells);
    MakeFileDelta(s, r, data, cells);
    var s', j := Write(s, r, data, stack).0, FindFree(TableAt(s, r.parent), 0);
    NewEntryHasNoExt(s, t, r.parent, j);
    var e := FileEntry(r.name, r.ext, r.size, cells[0]);
    DeltaKeepsTable(s, s', r.parent, j, e, SetOf(cells), q);
  }

  lemma MakeDirectoryKeepsTables(s: State, t: Slots, r: Request, data: seq<byte>, stack: Table, q: nat)
    requires Represents(s, t) && Synced(s) && Legal(s, t, WriteOp(r, data, stack))
    requires r.size == 0 && Write(s, r, data, stack).1 == 0 && q in Dirs(t) && q < 512
    ensures TableKept(s, Write(s, r, data, stack).0, WriteOp(r, data, stack), q)
  {
    hide DecodeTable, FileStored, DirStored, Stored, RootStored, EncodeFat, MakeDirectory, FreeCells, TargetSlot, TableAt;
    WroteIntoFreeSlot(s, t, r, data, stack);
    var c := NewCell(s, r, stack);
    DirsOutside(s, t, [c]);
    MakeDirectoryDelta(s, r, stack, c);
    var s', j := Write(s, r, data, stack).0, FindFree(TableAt(s, r.parent), 0);
    NewEntryHasNoExt(s, t, r.parent, j);
    DeltaKeepsTable(s, s', r.parent, j, DirEntry(r.name, c), {c}, q);
  }

  lemma DeleteKeepsTables(s: State, t: Slots, r: Request, q: nat)
    requires Represents(s, t) && Legal(s, t, DeleteOp(r)) && DeleteDefined(s, r)
    requires Delete(s, r).1 == 0 && q in Dirs(t) && q < 512 && !Removes(s, t, DeleteOp(r), q)
    ensures TableKept(s, Delete(s, r).0, DeleteOp(r), q)
  {
    hide DecodeTable, FileStored, DirStored, Stored, RootStored, EncodeFat, Release, TableAt, Delete;
    RepresentsRoot(s, t);
    DirectoryHead(s, t, r.parent);
    DeleteTarget(s, t, r);
    var ch := Released(s, t, r);
    var j := DeleteSlot(s, r);
    var y := SlotAt(t, r.parent, j);
    if y.File? { FileIsNotADirectory(s, t, r.parent, j); }
    TreeInRange(s, t);
    DirectoryHead(s, t, q);
    SlotAtStored(s, t, r.parent, j);
    forall c | c in ch ensures c in Cells(y) && 2 <= c < 512 { assert c in SetOf(ch); }
    assert y.Free? ==> Cells(y) == {};
    assert r.parent !in ch;
    ReleaseDelta(s, ch, r.parent, j);
    assert q !in SetOf(ch);
    DeltaKeepsTable(s, Delete(s, r).0, r.parent, j, ZERO_ENTRY, SetOf(ch), q);
  }

  lemma MoveKeepsTables(s: State, t: Slots, src: nat, dst: nat, k: nat, q: nat)
    requires Represents(s, t) && Legal(s, t, MoveOp(src, dst, k)) && Defined(s, MoveOp(src, dst, k))
    requires q in Dirs(t) && q < 512 && FindFree(TableAt(s, dst), 1) < 64
    ensures TableKept(s, Step(s, MoveOp(src, dst, k)), MoveOp(src, dst, k), q)
  {
    hide DecodeTable, FileStored, DirStored, Stored, RootStored, EncodeTable, Move, WriteTable, Represents;
    RepresentsRoot(s, t);
    MoveSteps(s, t, src, dst, k);
    var a, b, i := TableAt(s, src), TableAt(s, dst), FindFree(TableAt(s, dst), 1);
    TableWritten(s, src, a[k := ZERO_ENTRY]);
    var s1 := WriteTable(s, src, a[k := ZERO_ENTRY]);
    TableWritten(s1, dst, b[i := a[k]]);
    FreeSlotIsFree(s, t, dst, 1);
    NewEntryHasNoExt(s, t, dst, i);
    assert q != src && q != dst ==> Step(s, MoveOp(src, dst, k)).disk[q] == s.disk[q];
  }

  /** The same name opens the same directory when no entry of that name came or went. */
  lemma LookupKept(s: State, s': State, op: Op, q: nat, r: Request)
    requires q < 512 && r.parent == q && TableKept(s, s', op, q) && !Renames(s, op, q, r.name)
    ensures LookupDir(s', r) == LookupDir(s, r)
  {
    hide DecodeTable, Renames, Touches, TableAt;
    if r.name != NO_NAME && r.size == 0 {
      var a, b := TableAt(s, q), TableAt(s', q);
      forall m | 0 <= m < 64
        ensures a[m].name == r.name && a[m].attribute == ATTR_SUBDIRECTORY
                <==> b[m].name == r.name && b[m].attribute == ATTR_SUBDIRECTORY
        ensures a[m].name == r.name && a[m].attribute == ATTR_SUBDIRECTORY ==> a[m] == b[m]
      {
        assert if Touches(s, op, q, m) then a[m] == ZERO_ENTRY || Renames(s, op, q, a[m].name) else b[m] == a[m];
      }
      var k, k' := FindDir(a, r.name, 0), FindDir(b, r.name, 0);
      assert k == k';
    }
  }

  // ----- the tree -----

  lemma EditKeepsSlots(s: State, t: Slots, p: nat, j: nat, x: Slots, q: nat, m: nat)
    requires RootStored(s, t) && Apart(t) && p in Dirs(t) && 1 <= j < 64 && Single(x)
    requires Dirs(x) !! (Dirs(t) - Dirs(SlotAt(t, p, j)))
    requires q in Dirs(t) && q !in Dirs(SlotAt(t, p, j)) && 1 <= m < 64 && (q, m) != (p, j)
    ensures q in Dirs(Edit(t, p, j, x)) && Shallow(SlotAt(Edit(t, p, j, x), q, m)) == Shallow(SlotAt(t, q, m))
  {
    hide RootStored, Edit, SlotAt;
    EditChangesOneSlot(s, t, p, j, x, q, m);
  }

  /** A move: directories outside the entry through two edits, those inside it as they were. */
  lemma MoveKeepsSlots(s: State, t: Slots, p: nat, d: nat, k: nat, q: nat, m: nat)
    requires Represents(s, t) && Legal(s, t, MoveOp(p, d, k)) && FindFree(TableAt(s, d), 1) < 64
    requires q in Dirs(t) && 1 <= m < 64 && !Touches(s, MoveOp(p, d, k), q, m)
    ensures var t' := Moved(t, p, k, d, FindFree(TableAt(s, d), 1));
            q in Dirs(t') && Shallow(SlotAt(t', q, m)) == Shallow(SlotAt(t, q, m))
  {
    hide DecodeTable, FileStored, DirStored, Stored, EncodeTable, Edit, WriteTable, RootStored, Represents, Shallow;
    RepresentsRoot(s, t);
    DirectoryHead(s, t, p);
    DirectoryHead(s, t, d);
    var i, x, tab := FindFree(TableAt(s, d), 1), SlotAt(t, p, k), TableAt(s, p)[k := ZERO_ENTRY];
    var s1, t1 := WriteTable(s, p, tab), Edit(t, p, k, Free(End));
    TableWritten(s, p, tab);
    SlotAtStored(s, t, p, k);
    Unlink(s, t, p, k);
    FreeSlotIsFree(s1, t1, d, 1);
    assert SlotAt(t1, d, i) == Free(End);
    if q in Dirs(x) {
      KidsOfEdit(s1, t1, d, i, x, q);
      KidsOfSlotAt(s, t, p, k, q);
    } else {
      EditKeepsSlots(s, t, p, k, Free(End), q, m);
      EditKeepsSlots(s1, t1, d, i, x, q, m);
    }
  }

  lemma WriteKeepsSlots(s: State, t: Slots, r: Request, data: seq<byte>, stack: Table, q: nat, m: nat)
    requires Represents(s, t) && Legal(s, t, WriteOp(r, data, stack)) && Write(s, r, data, stack).1 == 0
    requires q in Dirs(t) && 1 <= m < 64 && !Touches(s, WriteOp(r, data, stack), q, m)
    ensures var t' := StepTree(s, t, WriteOp(r, data, stack));
            q in Dirs(t') && Shallow(SlotAt(t', q, m)) == Shallow(SlotAt(t, q, m))
  {
    hide DecodeTable, FileStored, DirStored, Stored, RootStored, Edit, Shallow, TableAt, FreeCells, Kids, Slot,
         Represents, Cells, EmptySlots;
    RepresentsRoot(s, t);
    WroteIntoFreeSlot(s, t, r, data, stack);
    var j := FindFree(TableAt(s, r.parent), 0);
    if r.size == 0 {
      var c := NewCell(s, r, stack);
      DirsOutside(s, t, [c]);
      NoCellsInEmptySlots(1);
      assert Dirs(NewDirectory(r, c)) == {c} && c in [c];
      EditKeepsSlots(s, t, r.parent, j, NewDirectory(r, c), q, m);
    } else {
      EditKeepsSlots(s, t, r.parent, j, NewFile(s, r, data), q, m);
    }
  }

  lemma DeleteKeepsSlots(s: State, t: Slots, r: Request, q: nat, m: nat)
    requires Represents(s, t) && Legal(s, t, DeleteOp(r)) && DeleteDefined(s, r) && Delete(s, r).1 == 0
    requires q in Dirs(t) && !Removes(s, t, DeleteOp(r), q) && 1 <= m < 64 && !Touches(s, DeleteOp(r), q, m)
    ensures var t' := StepTree(s, t, DeleteOp(r));
            q in Dirs(t') && Shallow(SlotAt(t', q, m)) == Shallow(SlotAt(t, q, m))
  {
    hide DecodeTable, FileStored, DirStored, Stored, RootStored, Edit, Shallow, TableAt, Kids, Slot,
         Represents, Cells, EmptySlots, Delete, DeleteSlot;
    RepresentsRoot(s, t);
    DeleteRefines(s, t, r);
    DeleteTarget(s, t, r);
    NoCellsInEmptySlots(1);
    var j := DeleteSlot(s, r);
    var y := SlotAt(t, r.parent, j);
    assert q !in Dirs(y);
    EditKeepsSlots(s, t, r.parent, j, Free(End), q, m);
  }

  /** A legal call keeps every directory it does not delete, and every slot it does not name: the same
      file with the same contents, the same subdirectory, or nothing. */
  lemma StepKeepsDirectories(s: State, t: Slots, op: Op, q: nat, m: nat)
    requires Represents(s, t) && Synced(s) && Legal(s, t, op) && Defined(s, op)
    requires q in Dirs(t) && !Removes(s, t, op, q) && 1 <= m < 64 && !Touches(s, op, q, m)
    ensures var t' := StepTree(s, t, op);
            q in Dirs(t') && Shallow(SlotAt(t', q, m)) == Shallow(SlotAt(t, q, m))
  {
    hide Represents, Synced, Dirs, SlotAt, Shallow, TableAt, Delete, Write, Moved, Touches, Removes;
    match op
    case WriteOp(r, data, stack) =>
      if Write(s, r, data, stack).1 == 0 { WriteKeepsSlots(s, t, r, data, stack, q, m); }
    case DeleteOp(r) =>
      if Delete(s, r).1 == 0 { DeleteKeepsSlots(s, t, r, q, m); }
    case MoveOp(p, d, k) =>
      if FindFree(TableAt(s, d), 1) < 64 { MoveKeepsSlots(s, t, p, d, k, q, m); }
    case RebootOp(_, _) =>
  }

  /** And every name no entry of which it creates, removes or moves opens the same directory. */
  lemma StepKeepsLookup(s: State, t: Slots, op: Op, r: Request)
    requires Represents(s, t) && Synced(s) && Legal(s, t, op) && Defined(s, op)
    requires r.parent in Dirs(t) && r.parent < 512 && !Removes(s, t, op, r.parent)
    requires !Renames(s, op, r.parent, r.name)
    ensures LookupDir(Step(s, op), r) == LookupDir(s, r)
  {
    hide Represents, Synced, TableKept, TableAt, Write, Delete, Move, LookupDir, Initialize;
    match op
    case WriteOp(w, data, stack) =>
      if Write(s, w, data, stack).1 != 0 {
        FailedWriteChangesNothing(s, t, w, data, stack);
      } else if w.size == 0 {
        MakeDirectoryKeepsTables(s, t, w, data, stack, r.parent);
        LookupKept(s, Step(s, op), op, r.parent, r);
      } else {
        MakeFileKeepsTables(s, t, w, data, stack, r.parent);
        LookupKept(s, Step(s, op), op, r.parent, r);
      }
    case DeleteOp(w) =>
      DeleteRefines(s, t, w);
      if Delete(s, w).1 == 0 {
        DeleteKeepsTables(s, t, w, r.parent);
        LookupKept(s, Step(s, op), op, r.parent, r);
      }
    case MoveOp(p, d, k) =>
      if FindFree(TableAt(s, d), 1) < 64 {
        MoveKeepsTables(s, t, p, d, k, r.parent);
        LookupKept(s, Step(s, op), op, r.parent, r);
      } else {
        RepresentsRoot(s, t);
        MoveSteps(s, t, p, d, k);
      }
    case RebootOp(ram, buf) => RemountRestores(s, ram, buf);
  }

  // ----- runs -----

  /** No call of the run deletes `q` or names its slot `m`. */
  ghost predicate Spares(s: State, t: Slots, ops: seq<Op>, q: nat, m: nat)
    requires Represents(s, t) && Synced(s) && LegalRun(s, t, ops)
    decreases |ops|
  {
    ops == [] ||
    (!Removes(s, t, ops[0], q) && !Touches(s, ops[0], q, m) &&
     var (s1, t1) := After(s, t, ops[0]);
     Spares(s1, t1, ops[1..], q, m))
  }

  lemma {:induction false} RunKeepsDirectories(s: State, t: Slots, ops: seq<Op>, q: nat, m: nat)
    requires Represents(s, t) && Synced(s) && LegalRun(s, t, ops)
    requires q in Dirs(t) && 1 <= m < 64 && Spares(s, t, ops, q, m)
    ensures var t' := Run(s, t, ops).1;
            q in Dirs(t') && Shallow(SlotAt(t', q, m)) == Shallow(SlotAt(t, q, m))
    decreases |ops|
  {
    hide Represents, Synced, Legal, Defined, Step, StepTree, Removes, Touches, Shallow, SlotAt, Dirs;
    if ops != [] {
      var (s1, t1) := After(s, t, ops[0]);
      StepKeepsDirectories(s, t, ops[0], q, m);
      RunKeepsDirectories(s1, t1, ops[1..], q, m);
    }
  }

  /** No call of the run deletes `q` or creates, removes or moves an entry called `name` in it. */
  ghost predicate SparesName(s: State, t: Slots, ops: seq<Op>, q: nat, name: Name)
    requires Represents(s, t) && Synced(s) && LegalRun(s, t, ops)
    decreases |ops|
  {
    ops == [] ||
    (!Removes(s, t, ops[0], q) && !Renames(s, ops[0], q, name) &&
     var (s1, t1) := After(s, t, ops[0]);
     SparesName(s1, t1, ops[1..], q, name))
  }

  lemma {:induction false} RunKeepsLookup(s: State, t: Slots, ops: seq<Op>, r: Request)
    requires Represents(s, t) && Synced(s) && LegalRun(s, t, ops)
    requires r.parent in Dirs(t) && r.parent < 512 && SparesName(s, t, ops, r.parent, r.name)
    ensures LookupDir(Run(s, t, ops).0, r) == LookupDir(s, r)
    decreases |ops|
  {
    hide Represents, Synced, Legal, Defined, Step, StepTree, Removes, Renames, LookupDir, Dirs;
    if ops != [] {
      var (s1, t1) := After(s, t, ops[0]);
      StepKeepsLookup(s, t, ops[0], r);
      StaysADirectory(s, t, ops[0], r.parent);
      RunKeepsLookup(s1, t1, ops[1..], r);
    }
  }

  lemma StaysADirectory(s: State, t: Slots, op: Op, q: nat)
    requires Represents(s, t) && Synced(s) && Legal(s, t, op) && Defined(s, op)
    requires q in Dirs(t) && !Removes(s, t, op, q)
    ensures q in Dirs(StepTree(s, t, op))
  {
    hide Represents, Synced, Legal, Defined, StepTree, Removes, TableAt, Shallow, SlotAt, Dirs;
    var m := if !Touches(s, op, q, 1) then 1 else if !Touches(s, op, q, 2) then 2 else 3;
    AtMostTwoTouched(s, op, q);
    StepKeepsDirectories(s, t, op, q, m);
  }

  lemma AtMostTwoTouched(s: State, op: Op, q: nat)
    ensures !(Touches(s, op, q, 1) && Touches(s, op, q, 2) && Touches(s, op, q, 3))
  {
    hide TableAt, DeleteSlot;
  }
}
