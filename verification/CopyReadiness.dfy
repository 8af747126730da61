// When `copy_folder` can be called, and that each of its steps can be taken.
module CopyReadiness {
  import opened Layout
  import opened Chains
  import opened Calls
  import opened Tree
  import opened TreeFacts
  import opened Edits
  import opened Refinement
  import opened Moving
  import opened Limits
  import opened ReadBack
  import opened Accounting
  import opened Copying

  /** `x`, in slot `m` of `parent`, is the directory `name` resolves to; its names can be copied all
      the way down; `dest` lies outside it, has a free slot before any directory of that name, and there are
      cells enough. */
  ghost predicate CopyReady(s: State, t: Slots, name: Name, parent: nat, m: nat, dest: nat, x: Slots) {
    && Represents(s, t) && Synced(s)
    && parent in Dirs(t) && parent < 512 && dest in Dirs(t) && dest < 512
    && 1 <= m < 64 && x == SlotAt(t, parent, m) && x.Dir? && x.name == name
    && LookupDir(s, Request(name, NO_EXT, parent, 0)) == (0, x.cluster)
    && dest !in Dirs(x) && Copyable(name, x.kids)
    && FindFree(TableAt(s, dest), 0) < 64
    && FindFree(TableAt(s, dest), 0) <= FindDir(TableAt(s, dest), name, 0)
    && CellCount(x) <= Room(s.fat)
  }

  lemma NewDirectoryResolves(s: State, t: Slots, r: Request, stack: Table)
    requires Represents(s, t) && r.parent in Dirs(t) && r.parent < 2048 && r.name != NO_NAME && r.size == 0
    requires var j := FindFree(TableAt(s, r.parent), 0);
             j < 64 && j <= FindDir(TableAt(s, r.parent), r.name, 0)
    requires Write(s, r, [], stack).1 == 0
    ensures FreeCells(s.fat, 2, 1) != []
    ensures LookupDir(Write(s, r, [], stack).0, r) == (0, FreeCells(s.fat, 2, 1)[0])
  {
    hide DecodeTable, EncodeTable, EncodeFat, FileStored, Stored, FreeCells;
    DirectoryHead(s, t, r.parent);
    var cells := FreeCells(s.fat, 2, 1);
    var s', c := Write(s, r, [], stack).0, cells[0];
    assert cells == [c];
    DirsOutside(s, t, cells);
    MakeDirectoryDelta(s, r, stack, c);
    var j := FindFree(TableAt(s, r.parent), 0);
    FindDirAt(TableAt(s, r.parent), j, DirEntry(r.name, c).(ext := TableAt(s, r.parent)[j].ext), r.name);
  }

  lemma FindDirAt(tab: Table, j: nat, e: Entry, name: Name)
    requires j < 64 && j <= FindDir(tab, name, 0) && e.name == name && e.attribute == ATTR_SUBDIRECTORY
    ensures FindDir(tab[j := e], name, 0) == j
  {
    var tab' := tab[j := e];
    var k := FindDir(tab', name, 0);
    assert tab'[j] == e;
  }

  /** After the directory has been made the loop can start. */
  lemma JobStarts(s: State, t: Slots, name: Name, parent: nat, m: nat, dest: nat, x: Slots, stack: Table)
    returns (b: Job)
    requires CopyReady(s, t, name, parent, m, dest, x) && CleanStack(stack)
    ensures var r := Request(name, NO_EXT, dest, 0);
            var (s', code) := Write(s, r, [], stack);
            && code == 0 && JobOk(s, b) && Progress(s, s', b, EmptySlots(1), 1)
            && b.t == t && b.dest == dest && b.name == name && b.source == x.cluster && b.kids == x.kids
            && LookupDir(s', r) == (0, b.target)
  {
    hide DecodeTable, EncodeTable, EncodeFat, FileStored, DirStored, Stored, FreeCells, Write, Edit, Room,
         Copyable, Represents, Untouched, Cells, Dirs, LookupDir, FindDir, FindFree, Synced, TableAt,
         EmptySlots, JobOk, Suffix;
    var r := Request(name, NO_EXT, dest, 0);
    RepresentsRoot(s, t);
    SlotAtStored(s, t, parent, m);
    FolderIsNamed(s, x);
    DirectoryAdded(s, t, r, stack);
    NewDirectoryResolves(s, t, r, stack);
    var s', c := Write(s, r, [], stack).0, FreeCells(s.fat, 2, 1)[0];
    b := Job(t, dest, FindFree(TableAt(s, dest), 0), name, x.cluster, x.kids, c);
    JobFits(s, t, name, parent, m, dest, x, b);
    EmptySlotsEraseToNothing(1);
    NothingDone(x.kids);
  }

  lemma NothingDone(kids: Slots)
    ensures Suffix(kids, 1, 1) == kids && Join(End, Erase(kids)) == Erase(kids)
  {
  }

  lemma FolderIsNamed(s: State, x: Slots)
    requires Single(x) && SingleStored(s, x) && x.Dir?
    ensures x.name != NO_NAME && CellCount(x) == 1 + CellCount(x.kids)
  {
  }

  /** Slot 0 of the source and of the new directory encode their own clusters. */
  lemma JobHeads(s0: State, s: State, b: Job, done: Slots, i: nat)
    requires JobOk(s0, b) && Progress(s0, s, b, done, i)
    ensures Head(TableAt(s0, b.source)[0]) == b.source && Head(TableAt(s, b.target)[0]) == b.target
  {
    hide DecodeTable, FileStored, Stored, Copyable, Room, Packed;
    SourceKept(s0, s, b, done);
    DirectoryHead(s0, b.t, b.source);
    DirectoryHead(s, Partial(b, done), b.target);
  }

  lemma JobFits(s: State, t: Slots, name: Name, parent: nat, m: nat, dest: nat, x: Slots, b: Job)
    requires CopyReady(s, t, name, parent, m, dest, x)
    requires b.t == t && b.dest == dest && b.slot == FindFree(TableAt(s, dest), 0) && b.name == name
    requires b.source == x.cluster && b.kids == x.kids && 2 <= b.target < 512 && b.target !in Cells(t)
    ensures JobOk(s, b)
  {
    hide DecodeTable, FileStored, FreeCells, Edit, Room, Copyable, LookupDir;
    SlotAtStored(s, t, parent, m);
    var _ := DirectoryStored(s, t, x.cluster);
    StoredUnique(s, x.cluster, 1, x.kids, Kids(t, x.cluster));
    FreeSlotIsFree(s, t, dest, 0);
    Unlink(s, t, parent, m);
    DirsAreCells(Edit(t, parent, m, Free(End)));
  }

  // ----- the entry in slot `i` -----

  lemma EntryFacts(s0: State, s: State, b: Job, done: Slots, i: nat)
    requires JobOk(s0, b) && Progress(s0, s, b, done, i) && i < 64
    ensures var y := Slot(b.kids, 1, i);
            && y == SlotAt(Partial(b, done), b.source, i) && Single(y)
            && SingleStored(s, y) && TableAt(s0, b.source)[i] == EntryOf(s, y)
            && (y.Dir? ==> y.kids < b.kids)
            && CellCount(y) <= Room(s.fat) && Cells(y) <= Cells(b.t) && Dirs(y) <= Dirs(b.kids)
            && (y.Dir? ==> y.name != b.name && Copyable(y.name, y.kids))
            && (y.Dir? ==> !HasFolder(done, y.name))
            && FindFree(TableAt(s, b.target), 0) == 1 + LiveCount(done)
    ensures b.source in Dirs(Partial(b, done)) && b.target in Dirs(Partial(b, done))
    ensures Kids(Partial(b, done), b.source) == b.kids && Kids(Partial(b, done), b.target) == done
    ensures Stored(s, b.target, 1, done) && Stored(s, b.source, 1, b.kids)
  {
    hide DecodeTable, FileStored, DirEntry, FileEntry, Edit, Room, Untouched, Packed, DirStored, Partial,
         Represents, FindFree, Synced, Erase, Join, RootStored, Stored, Kids;
    RepresentsRoot(s, Partial(b, done));
    RepresentsRoot(s0, b.t);
    var y, g := Slot(b.kids, 1, i), Suffix(b.kids, 1, i);
    SourceKept(s0, s, b, done);
    SuffixStep(s0, b.source, 1, b.kids, i);
    SlotAtStored(s, Partial(b, done), b.source, i);
    SlotStored(s0, b.source, 1, b.kids, i);
    CountHead(g);
    KidsApart(b.t, b.source);
    assert Copyable(b.name, g);
    SlotZeroLive(s, Partial(b, done), b.target);
    FirstFreeOfPacked(s, b.target, 1, done);
    var _ := DirectoryStored(s, Partial(b, done), b.source);
  }

  lemma FileReady(s0: State, s: State, b: Job, done: Slots, i: nat)
    requires JobOk(s0, b) && Progress(s0, s, b, done, i) && i < 64 && Slot(b.kids, 1, i).File?
    ensures var y := Slot(b.kids, 1, i);
            && Delivers(s, Partial(b, done), b.source, y.name, y.ext, y.blocks)
            && |y.blocks| == y.size / 2048 && 2048 <= y.size && y.size / 2048 <= Room(s.fat)
  {
    hide DecodeTable, DirEntry, Edit, Room, Untouched, Packed, Progress, Partial, DirStored, HasFolder,
         FileStored, FindEntry, Copyable;
    EntryFacts(s0, s, b, done, i);
    FileFacts(s, Slot(b.kids, 1, i));
    var y, tc := Slot(b.kids, 1, i), Partial(b, done);
    ProgressRepresents(s0, s, b, done, i);
    SourceKeptTable(s0, s, b, done, i);
    EntryMatches(s, tc, b.source, i, y.name, y.ext);
    var k := FindEntry(TableAt(s, b.source), y.name, y.ext, 1);
    assert k <= i;
    if k < i {
      EntryMatches(s, tc, b.source, k, y.name, y.ext);
      SameFileBefore(s, b.source, 1, b.kids, b.name, k, i);
    }
  }

  lemma FileFacts(s: State, y: Slots)
    requires Single(y) && SingleStored(s, y) && y.File?
    ensures y.name != NO_NAME && |y.blocks| == y.size / 2048 && 2048 <= y.size && CellCount(y) == y.size / 2048
    ensures Matches(y, y.name, y.ext)
  {
  }

  lemma ProgressRepresents(s0: State, s: State, b: Job, done: Slots, i: nat)
    requires Progress(s0, s, b, done, i)
    ensures Represents(s, Partial(b, done)) && Synced(s) && Untouched(s0, s, b.dest) && LiveCount(done) < i
    ensures RootStored(s, Partial(b, done)) && 1 <= i <= 64
  {
  }

  lemma SourceKeptTable(s0: State, s: State, b: Job, done: Slots, i: nat)
    requires JobOk(s0, b) && Progress(s0, s, b, done, i)
    ensures TableAt(s, b.source) == TableAt(s0, b.source)
    ensures DirStored(s, b.name, b.source) && DirStored(s, b.name, b.target)
  {
    hide DecodeTable, FileStored, DirEntry, FileEntry, Room, Packed, HasFolder;
    SourceKept(s0, s, b, done);
    DirsAreCells(b.t);
    assert s0.fat[b.source] != EMPTY;
    TargetName(s0, s, b, done);
  }

  lemma TargetName(s0: State, s: State, b: Job, done: Slots)
    requires JobOk(s0, b) && Represents(s, Partial(b, done))
    ensures DirStored(s, b.name, b.target)
  {
    hide DecodeTable, FileStored, DirEntry, FileEntry, Copyable;
    var x := Dir(b.name, b.target, done, End);
    DirsAreCells(b.t);
    FreeSlotIsFree(s0, b.t, b.dest, 0);
    var _ := DirectoryStored(s0, b.t, b.dest);
    KidsInDirs(b.t, b.dest);
    PutNamed(s0, b.dest, 1, Kids(b.t, b.dest), b.slot, x);
    GraftNamed(b.t, b.dest, Put(Kids(b.t, b.dest), 1, b.slot, x), b.target, b.name);
    NamedStored(s, 2, 1, Partial(b, done).kids, b.target, b.name);
  }

  /** Some directory entry of the tree carries this name for this cluster. */
  ghost predicate Named(f: Slots, q: nat, name: Name) {
    match f
    case End => false
    case Free(rest) => Named(rest, q, name)
    case File(_, _, _, _, _, rest) => Named(rest, q, name)
    case Dir(nm, c, kids, rest) => (c == q && nm == name) || Named(kids, q, name) || Named(rest, q, name)
  }

  lemma {:induction false} PutNamed(s: State, d: nat, i: nat, f: Slots, j: nat, x: Slots)
    requires d < 2048 && Stored(s, d, i, f) && i <= j < 64 && x.Dir?
    ensures Named(Put(f, i, j, x), x.cluster, x.name)
    decreases f
  {
    hide DecodeTable, FileStored, DirStored, FileEntry, DirEntry;
    if i < j { PutNamed(s, d, i + 1, f.rest, j, x); }
  }

  lemma {:induction false} GraftNamed(f: Slots, p: nat, g: Slots, q: nat, name: Name)
    requires p in Dirs(f) && Named(g, q, name)
    ensures Named(Graft(f, p, g), q, name)
  {
    match f
    case Free(rest) => GraftNamed(rest, p, g, q, name);
    case File(_, _, _, _, _, rest) => GraftNamed(rest, p, g, q, name);
    case Dir(_, c, kids, rest) =>
      if c == p {}
      else if p in Dirs(kids) { GraftNamed(kids, p, g, q, name); }
      else { GraftNamed(rest, p, g, q, name); }
  }

  lemma {:induction false} NamedStored(s: State, d: nat, i: nat, f: Slots, q: nat, name: Name)
    requires d < 2048 && Stored(s, d, i, f) && Named(f, q, name)
    ensures DirStored(s, name, q)
    decreases f
  {
    hide DecodeTable, FileStored, FileEntry, DirEntry;
    match f
    case Free(rest) => NamedStored(s, d, i + 1, rest, q, name);
    case File(_, _, _, _, _, rest) => NamedStored(s, d, i + 1, rest, q, name);
    case Dir(nm, c, kids, rest) =>
      if c == q && nm == name {}
      else if Named(kids, q, name) { NamedStored(s, c, 1, kids, q, name); }
      else { NamedStored(s, d, i + 1, rest, q, name); }
  }

  lemma FolderReady(s0: State, s: State, b: Job, done: Slots, i: nat)
    requires JobOk(s0, b) && Progress(s0, s, b, done, i) && i < 64 && Slot(b.kids, 1, i).Dir?
    ensures var y := Slot(b.kids, 1, i);
            CopyReady(s, Partial(b, done), y.name, b.source, i, b.target, y)
  {
    hide DecodeTable, DirEntry, Edit, Room, Untouched, Packed, Progress, Partial, HasFolder, FileStored;
    EntryFacts(s0, s, b, done, i);
    ProgressRepresents(s0, s, b, done, i);
    SourceKeptTable(s0, s, b, done, i);
    var y, tc := Slot(b.kids, 1, i), Partial(b, done);
    DirsAreCells(y);
    var own := ResolvesIff(s, tc, b.source, i);
    forall k | 1 <= k < i
      ensures !(SlotAt(tc, b.source, k).Dir? && SlotAt(tc, b.source, k).name == y.name)
    {
      NoFolderBefore(s, b.source, 1, b.kids, b.name, k, i);
    }
    SameOwnName(b.source, own, b.name, TableAt(s, b.source)[0]);
    NoEarlierFolder(s, tc, b, done, y.name);
  }

  lemma SameOwnName(c: u32, a: Name, b: Name, e: Entry)
    requires e == DirEntry(a, c) && e == DirEntry(b, c)
    ensures a == b
  {
  }

  lemma NoEarlierFolder(s: State, tc: Slots, b: Job, done: Slots, name: Name)
    requires Represents(s, tc) && b.target in Dirs(tc) && b.target < 512 && Kids(tc, b.target) == done
    requires DirStored(s, b.name, b.target) && Stored(s, b.target, 1, done)
    requires name != NO_NAME && name != b.name && !HasFolder(done, name)
    ensures FindFree(TableAt(s, b.target), 0) <= FindDir(TableAt(s, b.target), name, 0)
  {
    hide DecodeTable, FileStored;
    var k := FindDir(TableAt(s, b.target), name, 0);
    if 1 <= k < 64 {
      SlotAtStored(s, tc, b.target, k);
      FolderAt(s, b.target, 1, done, k);
    }
  }
}
