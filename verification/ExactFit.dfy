// The one way a copy of a directory with a child of its own name can come out right: the map fills up
// at the right moment.
module ExactFit {
  import opened Layout
  import opened Chains
  import opened Calls
  import opened Tree
  import opened TreeFacts
  import opened Edits
  import opened Locality
  import opened Refinement
  import opened Moving
  import opened Limits
  import opened Accounting
  import opened Copying
  import opened CopyReadiness
  import opened CopyRuns

  /** Where a directory that lists a single empty directory lists it. */
  lemma {:induction false} OnlyEntry(s: State, d: nat, i: nat, f: Slots, name: Name) returns (k: nat)
    requires d < 2048 && Stored(s, d, i, f) && Erase(f) == Dir(name, 0, End, End)
    ensures i <= k < 64 && Slot(f, i, k).Dir? && Slot(f, i, k).name == name
    ensures forall j :: i <= j < 64 && j != k ==> Slot(f, i, j).Free?
    ensures CellCount(f) == 1
    decreases f
  {
    hide DecodeTable, FileStored, DirStored, FileEntry, DirEntry;
    if f.Dir? {
      k := i;
      AllFree(f.rest, i + 1);
      AllFree(f.kids, 1);
    } else {
      k := OnlyEntry(s, d, i + 1, f.rest, name);
    }
  }

  lemma {:induction false} AllFree(f: Slots, i: nat)
    requires Erase(f) == End
    ensures CellCount(f) == 0 && forall j :: i <= j ==> Slot(f, i, j).Free?
    decreases f
  {
    if f != End { AllFree(f.rest, i + 1); }
  }

  /** A loop over a table with one live entry is what happens to that entry. */
  lemma {:induction false} LoopOfOne(s: State, source: Table, target: Table, i: nat, k: nat, s': State, n: nat)
    requires 1 <= i <= k < 64 && EndsEntry(s, source[k], Head(source[0]), Head(target[0]), s', n)
    requires forall j :: 1 <= j < 64 && j != k ==> source[j].userAttribute != UATTR_NOT_EMPTY
    ensures EndsLoop(s, source, target, i, s', n)
    decreases 64 - i
  {
    hide Ends, EndsFile, Head;
    if i < k {
      LoopOfOne(s, source, target, i + 1, k, s', n);
      assert EndsEntry(s, source[i], Head(source[0]), Head(target[0]), s, n);
    } else {
      LoopOfNone(s', source, target, i + 1, n, k);
    }
  }

  lemma {:induction false} LoopOfNone(s: State, source: Table, target: Table, i: nat, n: nat, k: nat)
    requires k < i <= 64 && forall j :: 1 <= j < 64 && j != k ==> source[j].userAttribute != UATTR_NOT_EMPTY
    ensures EndsLoop(s, source, target, i, s, n)
    decreases 64 - i
  {
    hide Ends, EndsFile, Head;
    if i < 64 {
      LoopOfNone(s, source, target, i + 1, n, k);
      assert EndsEntry(s, source[i], Head(source[0]), Head(target[0]), s, n);
    }
  }

  /** Making directory `name` in `dest`, and then one of the same name in it. */
  lemma MadeTwice(s: State, t: Slots, name: Name, dest: u32, stack: Table) returns (c1: u32, c2: u32)
    requires Represents(s, t) && Synced(s) && dest in Dirs(t) && dest < 512 && name != NO_NAME && CleanStack(stack)
    requires FindFree(TableAt(s, dest), 0) < 64
    requires FindFree(TableAt(s, dest), 0) <= FindDir(TableAt(s, dest), name, 0)
    requires Room(s.fat) == 2
    ensures var (s1, code) := Write(s, Request(name, NO_EXT, dest, 0), [], stack);
            && code == 0 && 2 <= c1 < 512 && LookupDir(s1, Request(name, NO_EXT, dest, 0)) == (0, c1)
            && TableAt(s1, c1)[0] == DirEntry(name, c1) && Untouched(s, s1, dest) && s.fat[c1] == EMPTY
            && var (s2, code2) := Write(s1, Request(name, NO_EXT, c1, 0), [], stack);
               && code2 == 0 && TableAt(s2, c1)[0] == DirEntry(name, c1) && Untouched(s1, s2, c1)
               && Synced(s2) && Room(s2.fat) == 0
               && Represents(s2, Edit(t, dest, FindFree(TableAt(s, dest), 0),
                                      Dir(name, c1, Put(EmptySlots(1), 1, 1, Dir(name, c2, EmptySlots(1), End)), End)))
  {
    hide DecodeTable, Represents, Untouched, Room, FindDir, LookupDir, Write, Edit, EmptySlots, Stored, DirStored,
         FileStored, Synced, FreeCells, DirEntry, EncodeTable, EncodeFat, Dirs, Put;
    RepresentsRoot(s, t);
    var r, j := Request(name, NO_EXT, dest, 0), FindFree(TableAt(s, dest), 0);
    DirectoryAdded(s, t, r, stack);
    NewDirectoryResolves(s, t, r, stack);
    c1 := FreeCells(s.fat, 2, 1)[0];
    var s1, t1, x := Write(s, r, [], stack).0, Edit(t, dest, j, NewDirectory(r, c1)), NewDirectory(r, c1);
    NewTable(s, t, r, stack, c1);
    FreeSlotIsFree(s, t, dest, 0);
    NotADirectory(t, c1);
    var r1 := Request(name, NO_EXT, c1, 0);
    assert FindFree(TableAt(s1, c1), 0) == 1;
    AddedIsDirectory(s, t, dest, j, x);
    DirectoryAdded(s1, t1, r1, stack);
    c2 := FreeCells(s1.fat, 2, 1)[0];
    RepresentsRoot(s1, t1);
    OtherTable(s1, t1, r1, stack);
    assert c1 != dest;
    EditAgain(s, t, dest, j, x, NewDirectory(r1, c2));
  }

  lemma AddedIsDirectory(s: State, t: Slots, p: nat, j: nat, x: Slots)
    requires RootStored(s, t) && p in Dirs(t) && 1 <= j < 64 && x.Dir? && x.rest == End && x.cluster !in Dirs(t)
    ensures x.cluster in Dirs(Edit(t, p, j, x))
  {
    hide RootStored;
    KidsOfEdit(s, t, p, j, x, x.cluster);
  }

  /** Adding an entry to a directory that has just been added. */
  lemma EditAgain(s: State, t: Slots, p: nat, j: nat, x: Slots, y: Slots)
    requires RootStored(s, t) && p in Dirs(t) && 1 <= j < 64 && x.Dir? && x.rest == End
    requires x.cluster !in Dirs(t) && x.cluster != p
    ensures Edit(Edit(t, p, j, x), x.cluster, 1, y) == Edit(t, p, j, x.(kids := Put(x.kids, 1, 1, y)))
  {
    hide RootStored;
    KidsOfEdit(s, t, p, j, x, x.cluster);
    EditInside(t, p, j, x, Put(x.kids, 1, 1, y));
  }

  lemma NotADirectory(t: Slots, c: nat)
    requires c !in Cells(t)
    ensures c !in Dirs(t)
  {
    DirsAreCells(t);
  }

  /** The table of the directory just made. */
  lemma NewTable(s: State, t: Slots, r: Request, stack: Table, c: u32)
    requires Represents(s, t) && r.parent in Dirs(t) && r.parent < 512 && r.size == 0 && r.name != NO_NAME && r.ext == NO_EXT
    requires Write(s, r, [], stack).1 == 0 && FreeCells(s.fat, 2, 1) == [c] && CleanStack(stack)
    ensures var a := TableAt(Write(s, r, [], stack).0, c); a[0] == DirEntry(r.name, c) && FindFree(a, 0) == 1
  {
    hide DecodeTable, EncodeTable, EncodeFat, FreeCells, Represents, FindFree;
    RepresentsRoot(s, t);
    DirectoryHead(s, t, r.parent);
    MakeDirectoryDelta(s, r, stack, c);
    FirstSlotFree(stack, DirEntry(r.name, c));
  }

  lemma FirstSlotFree(stack: Table, e: Entry)
    requires CleanStack(stack) && e.userAttribute == UATTR_NOT_EMPTY
    ensures FindFree(stack[0 := e], 0) == 1
  {
    assert stack[0 := e][1] == ZERO_ENTRY;
  }

  /** Making a directory leaves its parent's slot 0 alone. */
  lemma OtherTable(s: State, t: Slots, r: Request, stack: Table)
    requires Represents(s, t) && r.parent in Dirs(t) && r.parent < 512 && r.size == 0 && r.name != NO_NAME && r.ext == NO_EXT
    requires Write(s, r, [], stack).1 == 0 && FindFree(TableAt(s, r.parent), 0) == 1
    ensures TableAt(Write(s, r, [], stack).0, r.parent)[0] == TableAt(s, r.parent)[0]
  {
    hide DecodeTable, EncodeTable, EncodeFat, FreeCells, Represents;
    RepresentsRoot(s, t);
    DirectoryHead(s, t, r.parent);
    var c := NewCell(s, r, stack);
    DirsOutside(s, t, [c]);
    MakeDirectoryDelta(s, r, stack, c);
  }

  lemma NothingFits(s: State, r: Request, stack: Table)
    requires Room(s.fat) == 0 && s.fat[511] != EMPTY && 2 <= r.parent < 2048 && r.size == 0 && r.name != NO_NAME
    ensures Write(s, r, [], stack) == (s, 1)
  {
    hide TableAt;
    FirstFitSucceeds(s.fat, 2, 1);
    assert |FreeCells(s.fat, 2, 1)| == 0;
  }

  /** The nested run: the child is made, and the call for the child's own child finds no room. */
  lemma NestedEnds(s1: State, s2: State, name: Name, x: u32, c1: u32, k: nat, stack: Table)
    requires OwnNamed(s1, x, name, k) && OwnNamed(s2, x, name, k) && TableAt(s2, x) == TableAt(s1, x) && 2 <= c1 < 512
    requires forall j :: 1 <= j < 64 && j != k ==> TableAt(s1, x)[j].userAttribute != UATTR_NOT_EMPTY
    requires Write(s1, Request(name, NO_EXT, c1, 0), [], stack) == (s2, 0)
    requires TableAt(s2, c1)[0] == DirEntry(name, c1) && Room(s2.fat) == 0 && s2.fat[511] != EMPTY
    ensures Ends(s1, name, x, c1, s2, 1)
  {
    hide DecodeTable, TableAt, EndsLoop, LookupDir, DirEntry, Head, Room, Write;
    var source, target, r := TableAt(s1, x), TableAt(s2, c1), Request(name, NO_EXT, c1, 0);
    OwnLookup(s1, x, name);
    OwnLookup(s2, x, name);
    OwnLookup(s2, c1, name);
    OwnHead(name, x, NO_EXT);
    OwnHead(name, c1, NO_EXT);
    NothingFits(s2, r, stack);
    assert Leaves(s2, name, x, source) && EndsMaking(s2, name, c1, source, stack, s2, 0);
    assert Ends(s2, name, x, c1, s2, 0);
    assert EndsEntry(s2, source[k], Head(source[0]), Head(target[0]), s2, 1);
    LoopOfOne(s2, source, target, 1, k, s2, 1);
    assert Leaves(s2, name, c1, target) && EndsLoop(s2, source, target, 1, s2, 1);
    assert Leaves(s1, name, x, source) && EndsMaking(s1, name, c1, source, stack, s2, 1);
  }

  /** A directory whose only entry is an empty one of its own name is copied rightly when exactly two
      cells are free and cell 511 is not one of them. */
  lemma ExactFitCopies(s: State, t: Slots, name: Name, parent: u32, m: nat, dest: u32, x: Slots, stack: Table)
    returns (s': State, copy: Slots)
    requires Represents(s, t) && Synced(s) && parent in Dirs(t) && parent < 512 && dest in Dirs(t) && dest < 512
    requires 1 <= m < 64 && x == SlotAt(t, parent, m) && x.Dir? && x.name == name && x.cluster < 512
    requires LookupDir(s, Request(name, NO_EXT, parent, 0)) == (0, x.cluster) && dest != x.cluster
    requires FindFree(TableAt(s, dest), 0) < 64
    requires FindFree(TableAt(s, dest), 0) <= FindDir(TableAt(s, dest), name, 0)
    requires Erase(x.kids) == Dir(name, 0, End, End) && CleanStack(stack)
    requires Room(s.fat) == 2 && s.fat[511] != EMPTY
    ensures Ends(s, name, parent, dest, s', 2) && Copied(s, s', t, dest, x, copy)
  {
    hide DecodeTable, TableAt, EndsLoop, LookupDir, DirEntry, Head, Room, Write, Represents, FindDir, FindFree, Edit,
         Untouched, Synced, EmptySlots, Stored, FileStored, DirStored, Slot, Kids, Put, Dirs, Erase, CellCount;
    RepresentsRoot(s, t);
    SlotAtStored(s, t, parent, m);
    DirectoryHead(s, t, dest);
    var k := OnlyEntry(s, x.cluster, 1, x.kids, name);
    SourceOwnNamed(s, t, name, parent, m, x, k);
    var c1, c2 := MadeTwice(s, t, name, dest, stack);
    var r := Request(name, NO_EXT, dest, 0);
    var s1 := Write(s, r, [], stack).0;
    s' := Write(s1, Request(name, NO_EXT, c1, 0), [], stack).0;
    var source, target := TableAt(s, x.cluster), TableAt(s1, c1);
    SourceStands(s, s1, s', dest, c1, x.cluster, name, k);
    ListsOnly(s, x.cluster, x.kids, k);
    WriteGrows(s, r, [], stack);
    WriteGrows(s1, Request(name, NO_EXT, c1, 0), [], stack);
    LastStaysUsed(s, s1);
    LastStaysUsed(s1, s');
    NestedEnds(s1, s', name, x.cluster, c1, k, stack);
    OwnHead(name, x.cluster, NO_EXT);
    OwnHead(name, c1, NO_EXT);
    assert EndsEntry(s1, source[k], Head(source[0]), Head(target[0]), s', 2);
    LoopOfOne(s1, source, target, 1, k, s', 2);
    assert Leaves(s1, name, dest, target) && EndsLoop(s1, source, target, 1, s', 2);
    assert Leaves(s, name, parent, source) && EndsMaking(s, name, dest, source, stack, s', 2);
    var y := Dir(name, c2, EmptySlots(1), End);
    copy := Dir(name, c1, Put(EmptySlots(1), 1, 1, y), End);
    FilledOnce(y);
    UntouchedBoth(s, s1, s', dest, c1);
    SameAsSource(x, copy);
  }

  lemma SameAsSource(x: Slots, copy: Slots)
    requires x.Dir? && copy.Dir? && x.rest == copy.rest == End && x.name == copy.name && Erase(x.kids) == Erase(copy.kids)
    ensures Erase(copy) == Erase(x) && Single(copy) && CellCount(x) == 1 + CellCount(x.kids)
  {
  }

  lemma SourceStands(s: State, s1: State, s2: State, dest: nat, c1: nat, x: nat, name: Name, k: nat)
    requires OwnNamed(s, x, name, k) && Untouched(s, s1, dest) && Untouched(s1, s2, c1) && x != dest && s.fat[c1] == EMPTY
    ensures OwnNamed(s1, x, name, k) && OwnNamed(s2, x, name, k)
    ensures TableAt(s1, x) == TableAt(s, x) == TableAt(s2, x)
  {
    hide DecodeTable, DirEntry;
  }

  lemma ListsOnly(s: State, d: nat, kids: Slots, k: nat)
    requires d < 2048 && Stored(s, d, 1, kids) && forall j :: 1 <= j < 64 && j != k ==> Slot(kids, 1, j).Free?
    ensures forall j :: 1 <= j < 64 && j != k ==> TableAt(s, d)[j].userAttribute != UATTR_NOT_EMPTY
  {
    hide DecodeTable, FileStored, DirStored, FileEntry, DirEntry, Stored, Slot;
    forall j | 1 <= j < 64 && j != k ensures TableAt(s, d)[j].userAttribute != UATTR_NOT_EMPTY {
      SlotStored(s, d, 1, kids, j);
    }
  }

  lemma LastStaysUsed(s: State, s': State)
    requires Grown(s, s') && s.fat[511] != EMPTY
    ensures s'.fat[511] != EMPTY
  {
    hide DecodeTable, TableAt, Evolved;
  }

  lemma FilledOnce(y: Slots)
    requires y.Dir? && y.rest == End && y.kids == EmptySlots(1)
    ensures Erase(Put(EmptySlots(1), 1, 1, y)) == Dir(y.name, 0, End, End)
  {
    hide EmptySlots, Put, Packed;
    EmptySlotsEraseToNothing(1);
    assert HasSlot(EmptySlots(1), 1, 1) by { NotEnded(); }
    PutAppends(EmptySlots(1), 1, y);
  }

  lemma NotEnded()
    ensures EmptySlots(1) != End
  {
  }

  lemma UntouchedBoth(s: State, s1: State, s2: State, dest: nat, c1: nat)
    requires Untouched(s, s1, dest) && Untouched(s1, s2, c1) && s.fat[c1] == EMPTY && 2 <= dest && s.fat[dest] != EMPTY
    ensures Untouched(s, s2, dest)
  {
  }
}
