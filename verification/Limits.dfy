// Exactly when a `write` into a directory of a represented tree leaves a represented tree.
module Limits {
  import opened Layout
  import opened Chains
  import opened Calls
  import opened Tree
  import opened TreeFacts
  import opened Edits
  import opened Refinement
  import opened Moving

  /** Two lists stored behind the same table start with the same kind of slot. */
  lemma SameKind(s: State, s': State, d: nat, i: nat, f: Slots, g: Slots)
    requires d < 2048 && Stored(s, d, i, f) && Stored(s', d, i, g) && f != End
    requires TableAt(s', d) == TableAt(s, d)
    ensures g != End && (f.Free? <==> g.Free?) && (f.File? <==> g.File?) && (f.Dir? <==> g.Dir?)
    ensures f.Dir? ==> (&& f.cluster == g.cluster && f.cluster < 512
                        && Stored(s, f.cluster, 1, f.kids) && Stored(s', f.cluster, 1, g.kids))
    ensures Stored(s, d, i + 1, f.rest) && Stored(s', d, i + 1, g.rest)
  {
    hide DecodeTable, FileStored;
    var e := TableAt(s, d)[i];
    assert f.Free? <==> e.userAttribute != UATTR_NOT_EMPTY;
    assert g.Free? <==> e.userAttribute != UATTR_NOT_EMPTY;
    assert f.Dir? ==> e.attribute == ATTR_SUBDIRECTORY && Head(e) == f.cluster;
    assert g.Dir? ==> e.attribute == ATTR_SUBDIRECTORY && Head(e) == g.cluster;
    assert f.File? ==> e.attribute == ATTR_ARCHIVE;
    assert g.File? ==> e.attribute == ATTR_ARCHIVE;
  }

  /** A directory stays reachable as long as the tables on the way to it are not changed. */
  lemma {:induction false} DirectorySurvives(s: State, s': State, d: nat, i: nat, f: Slots, g: Slots, p: nat)
    requires d < 2048 && Stored(s, d, i, f) && Stored(s', d, i, g) && p in Dirs(f)
    requires TableAt(s', d) == TableAt(s, d)
    requires forall q :: q in Dirs(f) && q != p && q < 512 ==> s'.disk[q] == s.disk[q]
    ensures p in Dirs(g)
    decreases f
  {
    hide DecodeTable, Stored, TableAt;
    SameKind(s, s', d, i, f, g);
    match f
    case Free(rest) => DirectorySurvives(s, s', d, i + 1, rest, g.rest, p);
    case File(_, _, _, _, _, rest) => DirectorySurvives(s, s', d, i + 1, rest, g.rest, p);
    case Dir(_, c, kids, rest) =>
      if c == p {
      } else if p in Dirs(kids) {
        SameTable(s, s', c);
        DirectorySurvives(s, s', c, 1, kids, g.kids, p);
      } else {
        DirectorySurvives(s, s', d, i + 1, rest, g.rest, p);
      }
  }

  lemma SameTable(s: State, s': State, c: nat)
    requires c < 2048 && s'.disk[c] == s.disk[c]
    ensures TableAt(s', c) == TableAt(s, c)
  {
  }

  /** Once slot 0 of a directory names another cluster, no tree is stored any more. */
  lemma SelfEntryLost(s: State, s': State, t: Slots, p: nat, u: Slots)
    requires RootStored(s, t) && p in Dirs(t) && p < 512
    requires forall q :: q in Dirs(t) && q != p && q < 512 ==> s'.disk[q] == s.disk[q]
    requires Head(TableAt(s', p)[0]) != p
    ensures !RootStored(s', u)
  {
    hide DecodeTable, FileStored, FileEntry;
    if RootStored(s', u) {
      if p != 2 {
        DirectorySurvives(s, s', 2, 1, t.kids, u.kids, p);
      }
      DirectoryHead(s', u, p);
    }
  }

  lemma DirsOutside(s: State, t: Slots, cells: seq<nat>)
    requires Represents(s, t) && forall c :: c in cells && c < 512 ==> s.fat[c] == EMPTY
    requires Within(cells, 512)
    ensures forall q :: q in Dirs(t) ==> 2 <= q < 512 && q !in cells
  {
    hide RootStored;
    DirsAreCells(t);
    assert RootStored(s, t);
    TreeInRange(s, t);
  }

  /** Into a full directory `write` overwrites the self entry. */
  lemma FullDirectoryLost(s: State, t: Slots, r: Request, data: seq<byte>, stack: Table, u: Slots)
    requires Represents(s, t) && r.parent in Dirs(t) && WriteDefined(r, data) && r.name != NO_NAME
    requires FindFree(TableAt(s, r.parent), 0) == 64 && Write(s, r, data, stack).1 == 0
    ensures !Represents(Write(s, r, data, stack).0, u)
  {
    hide DecodeTable, EncodeTable, EncodeFat, FileEntry, DirEntry, FileStored, Stored, DirStored,
         FreeCells, Commit;
    var s', p := Write(s, r, data, stack).0, r.parent;
    DirectoryHead(s, t, p);
    if r.size == 0 {
      var free := FreeCells(s.fat, 2, 1);
      DirsOutside(s, t, free);
      MakeDirectoryDelta(s, r, stack, free[0]);
    } else {
      var free := FreeCells(s.fat, 2, r.size / 2048);
      DirsOutside(s, t, free);
      MakeFileDelta(s, r, data, free);
    }
    SelfEntryLost(s, s', t, p, u);
  }

  /** Cell 511 is marked used but belongs to nothing. */
  lemma LastCellLeaks(s: State, t: Slots, u: Slots)
    requires Represents(s, t) && s.fat[511] == EMPTY
    ensures !Represents(State(s.fat[511 := EOF], s.disk), u)
  {
    hide DecodeTable, FileStored, DirStored, Stored;
    var s' := State(s.fat[511 := EOF], s.disk);
    RootFrame(s, s', t);
    if Represents(s', u) { TreeUnique(s', t, u); }
  }

  lemma {:induction false} GraftSeparates(f: Slots, p: nat, k: Slots)
    requires Apart(f) && p in Dirs(f) && Apart(Graft(f, p, k))
    ensures Cells(k) !! (Cells(f) - Cells(Kids(f, p)))
  {
    KidsApart(f, p);
    DirsAreCells(f.rest);
    match f
    case Free(rest) => GraftSeparates(rest, p, k);
    case File(_, _, _, _, _, rest) =>
      GraftCells(rest, p, k);
      GraftSeparates(rest, p, k);
    case Dir(_, c, kids, rest) =>
      if c == p {
      } else if p in Dirs(kids) {
        DirsAreCells(kids);
        GraftCells(kids, p, k);
        GraftAbsent(rest, p, k);
        GraftSeparates(kids, p, k);
      } else {
        GraftCells(rest, p, k);
        GraftAbsent(kids, p, k);
        GraftSeparates(rest, p, k);
      }
  }

  /** A new directory whose slots show stack residue is never a tree: every cell such a slot could
      name is already spoken for. */
  lemma StackWasClean(s: State, t: Slots, r: Request, stack: Table, u: Slots)
    requires Represents(s, t) && r.parent in Dirs(t) && 2 <= r.parent < 2048 && r.name != NO_NAME
    requires FindFree(TableAt(s, r.parent), 0) < 64 && MakeDirectory(s, r, stack).1 == 0
    requires Represents(MakeDirectory(s, r, stack).0, u)
    ensures CleanStack(stack)
  {
    hide DecodeTable, EncodeTable, EncodeFat, DirEntry, FileEntry, FileStored, DirStored, Stored,
         FreeCells, Commit, MakeDirectory, TableAt, RootStored;
    var s', c := MakeDirectory(s, r, stack).0, NewCell(s, r, stack);
    var clean := MakeDirectory(s, r, ZERO_TABLE).0;
    MakeDirectoryRefines(s, t, r, ZERO_TABLE);
    var j := FindFree(TableAt(s, r.parent), 0);
    var t1 := Edit(t, r.parent, j, NewDirectory(r, c));
    SlotAtStored(s, t, r.parent, j);
    EditDirs(s, t, r.parent, j, NewDirectory(r, c));
    OnlyTheNewTableDiffers(s, t, r, stack, c);
    EmptySlotsStored(clean, c, 1);
    var _ := DirectoryStored(clean, t1, c);
    StoredUnique(clean, c, 1, Kids(t1, c), EmptySlots(1));
    NoCellsInEmptySlots(1);
    OccupiedTwice(clean, s', t1, c, u);
    forall m | 1 <= m < 64 ensures stack[m] == ZERO_ENTRY {
      assert TableAt(s', c)[m] == stack[m];
    }
  }

  function NewCell(s: State, r: Request, stack: Table): (c: nat)
    requires 2 <= r.parent < 2048 && MakeDirectory(s, r, stack).1 == 0
    ensures FreeCells(s.fat, 2, 1) == [c] && c < 511
  {
    FreeCells(s.fat, 2, 1)[0]
  }

  lemma OnlyTheNewTableDiffers(s: State, t: Slots, r: Request, stack: Table, c: nat)
    requires Represents(s, t) && r.parent in Dirs(t) && 2 <= r.parent < 2048
    requires FreeCells(s.fat, 2, 1) == [c] && c < 511
    ensures var s', clean := MakeDirectory(s, r, stack).0, MakeDirectory(s, r, ZERO_TABLE).0;
            && s'.fat == clean.fat && c != r.parent
            && (forall q :: 0 <= q < 2048 && q != c ==> s'.disk[q] == clean.disk[q])
            && TableAt(s', c) == stack[0 := DirEntry(r.name, c)]
            && TableAt(clean, c) == ZERO_TABLE[0 := DirEntry(r.name, c)]
  {
    hide DecodeTable, EncodeTable, EncodeFat, DirEntry, FreeCells;
    DirsOutside(s, t, [c]);
    MakeDirectoryDelta(s, r, stack, c);
    MakeDirectoryDelta(s, r, ZERO_TABLE, c);
  }

  /** If directory `c`, empty in `clean`, is the only table `s'` changes, then it is empty in any
      tree `s'` represents. */
  lemma OccupiedTwice(clean: State, s': State, t1: Slots, c: nat, u: Slots)
    requires Represents(clean, t1) && c in Dirs(t1) && c < 512 && Kids(t1, c) == EmptySlots(1)
    requires Represents(s', u) && s'.fat == clean.fat
    requires forall q :: 0 <= q < 2048 && q != c ==> s'.disk[q] == clean.disk[q]
    requires TableAt(s', c)[0] == TableAt(clean, c)[0]
    ensures forall m :: 1 <= m < 64 ==> TableAt(s', c)[m] == ZERO_ENTRY
  {
    hide DecodeTable, DirEntry, FileEntry, FileStored, DirStored, Stored;
    assert RootStored(clean, t1) && RootStored(s', u);
    if c != 2 { FoundAgain(clean, s', t1, c, u); }
    var k := Kids(u, c);
    var _ := DirectoryStored(s', u, c);
    NoCellsInEmptySlots(1);
    EditRoot(clean, s', t1, c, 1, k);
    TreeUnique(s', Graft(t1, c, k), u);
    GraftCells(t1, c, k);
    GraftSeparates(t1, c, k);
    TreeInRange(clean, t1);
    TreeInRange(s', u);
    assert Cells(k) == {};
    forall m | 1 <= m < 64 ensures TableAt(s', c)[m] == ZERO_ENTRY {
      SlotStored(s', c, 1, k, m);
      if !Slot(k, 1, m).Free? { EntryNamesACell(s', Slot(k, 1, m)); }
    }
  }

  lemma FoundAgain(s: State, s': State, t: Slots, c: nat, u: Slots)
    requires RootStored(s, t) && RootStored(s', u) && c in Dirs(t) && c != 2
    requires forall q :: 0 <= q < 2048 && q != c ==> s'.disk[q] == s.disk[q]
    ensures c in Dirs(u)
  {
    DirectorySurvives(s, s', 2, 1, t.kids, u.kids, c);
  }

  /** When a write into directory `p` of a represented tree keeps the invariant. */
  ghost predicate WriteIsSafe(s: State, r: Request, stack: Table)
    requires r.parent < 2048
  {
    var room := FindFree(TableAt(s, r.parent), 0) < 64;
    if r.size == 0 then
      var free := FreeCells(s.fat, 2, 1);
      free == [] || (free[0] != 511 && room && CleanStack(stack))
    else r.size / 2048 > |FreeSet(s.fat, 2)| || room
  }

  lemma WriteKeepsInvariantIff(s: State, t: Slots, r: Request, data: seq<byte>, stack: Table)
    requires Represents(s, t) && r.parent in Dirs(t) && WriteDefined(r, data) && r.name != NO_NAME
    ensures (exists u :: Represents(Write(s, r, data, stack).0, u)) <==> WriteIsSafe(s, r, stack)
  {
    hide DecodeTable, EncodeTable, EncodeFat, DirEntry, FileEntry, Stored, FileStored, DirStored,
         FreeCells, Commit, MakeDirectory, Represents;
    assert RootStored(s, t) by { RepresentsRoot(s, t); }
    DirectoryHead(s, t, r.parent);
    var s' := Write(s, r, data, stack).0;
    var j := FindFree(TableAt(s, r.parent), 0);
    if r.size == 0 {
      MakeDirectoryKeepsIff(s, t, r, stack);
    } else {
      FirstFitSucceeds(s.fat, 2, r.size / 2048);
      if j < 64 {
        MakeFileRefines(s, t, r, data);
        assert r.size / 2048 > |FreeSet(s.fat, 2)| ==> Represents(s', t);
      } else if r.size / 2048 > |FreeSet(s.fat, 2)| {
        assert Represents(s', t);
      } else {
        forall u ensures !Represents(s', u) { FullDirectoryLost(s, t, r, data, stack, u); }
      }
    }
  }

  lemma MakeDirectoryKeepsIff(s: State, t: Slots, r: Request, stack: Table)
    requires Represents(s, t) && r.parent in Dirs(t) && 2 <= r.parent < 2048 && r.name != NO_NAME
    requires r.size == 0
    ensures (exists u :: Represents(MakeDirectory(s, r, stack).0, u)) <==> WriteIsSafe(s, r, stack)
  {
    hide DecodeTable, EncodeTable, EncodeFat, DirEntry, FileEntry, Stored, FileStored, DirStored,
         Commit, Represents;
    var s', free := MakeDirectory(s, r, stack).0, FreeCells(s.fat, 2, 1);
    if free == [] {
      assert Represents(s', t);
    } else if free[0] == 511 {
      forall u ensures !Represents(s', u) { LastCellLeaks(s, t, u); }
    } else if FindFree(TableAt(s, r.parent), 0) == 64 {
      forall u ensures !Represents(s', u) { FullDirectoryLost(s, t, r, [], stack, u); }
    } else if CleanStack(stack) {
      MakeDirectoryRefines(s, t, r, stack);
    } else {
      forall u ensures !Represents(s', u) {
        if Represents(s', u) { StackWasClean(s, t, r, stack, u); }
      }
    }
  }
}
