// What it means to copy a directory tree, and the bookkeeping of a copy made entry by entry.
module Copying {
  import opened Layout
  import opened Chains
  import opened Calls
  import opened Tree
  import opened TreeFacts
  import opened Edits
  import opened Locality
  import opened Refinement
  import opened Moving
  import opened Limits
  import opened ReadBack
  import opened Accounting

  /** A tree as its user sees it: live entries in order, with names, sizes and contents, but without
      free slots and without the cells things happen to occupy. */
  ghost function Erase(f: Slots): Slots {
    match f
    case End => End
    case Free(rest) => Erase(rest)
    case File(name, ext, size, _, blocks, rest) => File(name, ext, size, [], blocks, Erase(rest))
    case Dir(name, _, kids, rest) => Dir(name, 0, Erase(kids), Erase(rest))
  }

  ghost function Join(a: Slots, b: Slots): Slots {
    if a == End then b else SetRest(a, Join(a.rest, b))
  }

  lemma {:induction false} JoinEnd(a: Slots)
    ensures Join(a, End) == a
  {
    if a != End { JoinEnd(a.rest); }
  }

  lemma {:induction false} JoinAssociates(a: Slots, b: Slots, c: Slots)
    ensures Join(Join(a, b), c) == Join(a, Join(b, c))
  {
    if a != End { JoinAssociates(a.rest, b, c); }
  }

  // ----- names -----

  ghost predicate HasFile(f: Slots, name: Name, ext: Ext) {
    f != End && ((f.File? && f.name == name && f.ext == ext) || HasFile(f.rest, name, ext))
  }

  /** Every file of `f` with this name and extension has these contents. */
  ghost predicate SameFiles(f: Slots, name: Name, ext: Ext, blocks: seq<Cluster>) {
    f != End ==>
      && SameFiles(f.rest, name, ext, blocks)
      && (f.File? && f.name == name && f.ext == ext ==> f.blocks == blocks)
  }

  /** What the two scans need: for each file, `read` finds one of the same contents first; for each
      subdirectory, `read_directory` finds that one first, both in the source, where slot 0 has the
      directory's own name, and among the copies made before it. */
  ghost predicate Copyable(own: Name, f: Slots)
    decreases f
  {
    match f
    case End => true
    case Free(rest) => Copyable(own, rest)
    case File(name, ext, _, _, blocks, rest) => SameFiles(rest, name, ext, blocks) && Copyable(own, rest)
    case Dir(name, _, kids, rest) =>
      && name != own && !HasFolder(rest, name) && !HasFile(rest, name, NO_EXT)
      && Copyable(name, kids) && Copyable(own, rest)
  }

  ghost function Suffix(f: Slots, i: nat, j: nat): Slots
    decreases f
  {
    if f == End || i >= j then f else Suffix(f.rest, i + 1, j)
  }

  /** The slot list from `j` on, seen from its first slot. */
  lemma {:induction false} SuffixStep(s: State, d: nat, i: nat, f: Slots, j: nat)
    requires d < 2048 && Stored(s, d, i, f) && i <= j < 64
    ensures var g := Suffix(f, i, j);
            && g != End && SetRest(g, End) == Slot(f, i, j) && Suffix(f, i, j + 1) == g.rest
            && (g.Dir? ==> g.kids < f) && Stored(s, d, j, g)
    ensures forall own :: Copyable(own, f) ==> Copyable(own, Suffix(f, i, j))
    decreases f
  {
    hide DecodeTable, FileStored, DirStored, FileEntry, DirEntry;
    if i < j { SuffixStep(s, d, i + 1, f.rest, j); }
  }

  lemma {:induction false} SuffixEnds(s: State, d: nat, i: nat, f: Slots)
    requires d < 2048 && Stored(s, d, i, f) && i <= 64
    ensures Suffix(f, i, 64) == End
    decreases f
  {
    hide DecodeTable, FileStored, DirStored, FileEntry, DirEntry;
    if f != End { SuffixEnds(s, d, i + 1, f.rest); }
  }

  /** No earlier slot lists a directory of the name of slot `j`. */
  lemma {:induction false} NoFolderBefore(s: State, d: nat, i: nat, f: Slots, own: Name, m: nat, j: nat)
    requires d < 2048 && Stored(s, d, i, f) && Copyable(own, f) && i <= m < j < 64 && Slot(f, i, j).Dir?
    ensures !(Slot(f, i, m).Dir? && Slot(f, i, m).name == Slot(f, i, j).name)
    decreases f
  {
    hide DecodeTable, FileStored, DirStored, FileEntry, DirEntry;
    if i == m { FolderAt(s, d, i + 1, f.rest, j); } else { NoFolderBefore(s, d, i + 1, f.rest, own, m, j); }
  }

  /** An earlier entry with the key of the file in slot `j` is a file of the same contents. */
  lemma {:induction false} SameFileBefore(s: State, d: nat, i: nat, f: Slots, own: Name, m: nat, j: nat)
    requires d < 2048 && Stored(s, d, i, f) && Copyable(own, f) && i <= m < j < 64 && Slot(f, i, j).File?
    requires Matches(Slot(f, i, m), Slot(f, i, j).name, Slot(f, i, j).ext)
    ensures Slot(f, i, m).File? && Slot(f, i, m).blocks == Slot(f, i, j).blocks
    decreases f
  {
    hide DecodeTable, FileStored, DirStored, FileEntry, DirEntry;
    if i == m { FileAt(s, d, i + 1, f.rest, j); } else { SameFileBefore(s, d, i + 1, f.rest, own, m, j); }
  }

  lemma {:induction false} FileAt(s: State, d: nat, i: nat, f: Slots, j: nat)
    requires d < 2048 && Stored(s, d, i, f) && i <= j < 64 && Slot(f, i, j).File?
    ensures var y := Slot(f, i, j);
            && HasFile(f, y.name, y.ext)
            && forall blocks :: SameFiles(f, y.name, y.ext, blocks) ==> y.blocks == blocks
    decreases f
  {
    hide DecodeTable, FileStored, DirStored, FileEntry, DirEntry;
    if i < j { FileAt(s, d, i + 1, f.rest, j); }
  }

  // ----- a directory being filled -----

  /** Live entries first, free slots after. */
  ghost predicate Packed(f: Slots, i: nat) {
    match f
    case End => true
    case Free(_) => f == EmptySlots(i)
    case File(_, _, _, _, _, rest) => Packed(rest, i + 1)
    case Dir(_, _, _, rest) => Packed(rest, i + 1)
  }

  ghost function LiveCount(f: Slots): nat {
    match f
    case End => 0
    case Free(rest) => LiveCount(rest)
    case File(_, _, _, _, _, rest) => 1 + LiveCount(rest)
    case Dir(_, _, _, rest) => 1 + LiveCount(rest)
  }

  lemma {:induction false} EmptySlotsEraseToNothing(i: nat)
    ensures Erase(EmptySlots(i)) == End && LiveCount(EmptySlots(i)) == 0 && CellCount(EmptySlots(i)) == 0
    ensures forall name :: !HasFolder(EmptySlots(i), name)
    ensures Packed(EmptySlots(i), i)
    decreases 64 - i
  {
    if i < 64 { EmptySlotsEraseToNothing(i + 1); }
  }

  lemma {:induction false} FirstFreeOfPacked(s: State, d: nat, i: nat, f: Slots)
    requires d < 2048 && Stored(s, d, i, f) && Packed(f, i) && i + LiveCount(f) < 64
    ensures FindFree(TableAt(s, d), i) == i + LiveCount(f)
    decreases f
  {
    hide DecodeTable, FileStored, DirStored;
    if f.Free? { EmptySlotsEraseToNothing(i); } else { FirstFreeOfPacked(s, d, i + 1, f.rest); }
  }

  /** Writing into the first free slot of a packed directory appends. */
  lemma {:induction false} PutAppends(f: Slots, i: nat, x: Slots)
    requires Packed(f, i) && Single(x) && !x.Free? && HasSlot(f, i, i + LiveCount(f))
    ensures var g := Put(f, i, i + LiveCount(f), x);
            && Erase(g) == Join(Erase(f), Erase(x)) && Packed(g, i) && LiveCount(g) == LiveCount(f) + 1
    decreases f
  {
    if f.Free? {
      EmptySlotsEraseToNothing(i);
      EmptySlotsEraseToNothing(i + 1);
      JoinEnd(Erase(x));
      assert SetRest(SetRest(x, f.rest), End) == x;
    } else {
      PutAppends(f.rest, i + 1, x);
    }
  }

  lemma {:induction false} PutAddsFolder(f: Slots, i: nat, x: Slots, name: Name)
    requires Packed(f, i) && Single(x) && !x.Free? && HasSlot(f, i, i + LiveCount(f))
    ensures HasFolder(Put(f, i, i + LiveCount(f), x), name) <==> HasFolder(f, name) || (x.Dir? && x.name == name)
    decreases f
  {
    hide EmptySlots;
    if f.Free? {
      EmptySlotsEraseToNothing(i);
      assert !HasFolder(f, name);
      assert !HasFolder(f.rest, name);
    } else {
      PutAddsFolder(f.rest, i + 1, x, name);
      assert Put(f, i, i + LiveCount(f), x) == SetRest(f, Put(f.rest, i + 1, i + 1 + LiveCount(f.rest), x));
    }
  }

  /** The list, whose first slot is `i`, reaches slot `j`. */
  ghost predicate HasSlot(f: Slots, i: nat, j: nat)
    decreases f
  {
    f != End && (i == j || HasSlot(f.rest, i + 1, j))
  }

  lemma {:induction false} StoredHasSlot(s: State, d: nat, i: nat, f: Slots, j: nat)
    requires d < 2048 && Stored(s, d, i, f) && i <= j < 64
    ensures HasSlot(f, i, j)
    decreases f
  {
    hide DecodeTable, FileStored, DirStored, FileEntry, DirEntry;
    if i < j { StoredHasSlot(s, d, i + 1, f.rest, j); }
  }

  // ----- room -----

  /** Free cells other than 511, which a directory can never get. */
  ghost function Room(fat: Fat): int {
    |FreeSet(fat, 2)| - (if fat[511] == EMPTY then 1 else 0)
  }

  lemma LastIsGreatest(r: seq<nat>, k: nat)
    requires Ascending(r) && k < |r|
    ensures k == |r| - 1 || r[k] < r[|r| - 1]
  {
  }

  lemma LastCellSpared(fat: Fat, n: nat)
    requires n <= Room(fat)
    ensures |FreeCells(fat, 2, n)| == n && 511 !in FreeCells(fat, 2, n)
  {
    FirstFitSucceeds(fat, 2, n);
    FreeCellsAscend(fat, 2, n);
    var r := FreeCells(fat, 2, n);
    if 511 in r {
      var k :| 0 <= k < |r| && r[k] == 511;
      LastIsGreatest(r, k);
      forall c | c in FreeSet(fat, 2) ensures c in r { if c != 511 { FirstFit(fat, 2, n, c); } }
      SubsetSize(FreeSet(fat, 2), SetOf(r));
      SetOfSize(r);
    }
  }

  // ----- frame -----

  /** Nothing that was in use in `s` has changed, except the table of `dest`. */
  ghost predicate Untouched(s: State, s': State, dest: nat) {
    && dest < 512 && s'.fat[dest] == s.fat[dest]
    && forall c :: 2 <= c < 512 && c != dest && s.fat[c] != EMPTY ==>
         s'.fat[c] == s.fat[c] && s'.disk[c] == s.disk[c]
  }

  lemma DeltaUntouched(s: State, s': State, p: nat, k: nat, e: Entry, cs: set<nat>)
    requires Delta(s, s', p, k, e, cs) && forall c :: c in cs && c < 512 ==> s.fat[c] == EMPTY
    ensures Untouched(s, s', p)
  {
  }

  // ----- where an edit inside an edit leads -----

  lemma {:induction false} GraftGraft(f: Slots, p: nat, g: Slots, q: nat, k: Slots)
    requires q !in Dirs(f) && p != q
    ensures Graft(Graft(f, p, g), q, k) == Graft(f, p, Graft(g, q, k))
  {
    match f
    case End =>
    case Free(rest) => GraftGraft(rest, p, g, q, k);
    case File(_, _, _, _, _, rest) => GraftGraft(rest, p, g, q, k);
    case Dir(_, c, kids, rest) =>
      if c == p {
        GraftAbsent(rest, q, k);
      } else {
        GraftGraft(kids, p, g, q, k);
        GraftGraft(rest, p, g, q, k);
      }
  }

  lemma {:induction false} GraftPut(f: Slots, i: nat, j: nat, x: Slots, k: Slots)
    requires x.Dir? && x.rest == End && x.cluster !in Dirs(f)
    ensures Graft(Put(f, i, j, x), x.cluster, k) == Put(f, i, j, x.(kids := k))
    decreases f
  {
    if f != End {
      if i == j {
        GraftAbsent(f.rest, x.cluster, k);
      } else {
        GraftPut(f.rest, i + 1, j, x, k);
        if f.Dir? { GraftAbsent(f.kids, x.cluster, k); }
      }
    }
  }

  /** Filling a new directory is the same as having added it filled. */
  lemma EditInside(t: Slots, p: nat, j: nat, x: Slots, k: Slots)
    requires x.Dir? && x.rest == End && x.cluster !in Dirs(t) && x.cluster != p
    ensures Graft(Edit(t, p, j, x), x.cluster, k) == Edit(t, p, j, x.(kids := k))
  {
    KidsInDirs(t, p);
    GraftGraft(t, p, Put(Kids(t, p), 1, j, x), x.cluster, k);
    GraftPut(Kids(t, p), 1, j, x, k);
  }

  // ----- one copied entry -----

  /** A copy of `x` has appeared in the first free slot of `dest`; nothing else in use has changed. */
  ghost predicate Copied(s: State, s': State, t: Slots, dest: nat, x: Slots, copy: Slots) {
    && dest < 512 && Single(copy) && Erase(copy) == Erase(x)
    && Represents(s', Edit(t, dest, FindFree(TableAt(s, dest), 0), copy)) && Synced(s')
    && Untouched(s, s', dest) && Room(s'.fat) == Room(s.fat) - CellCount(x)
  }

  lemma RoomAfter(fat: Fat, fat': Fat, cells: seq<nat>)
    requires Distinct(cells) && Within(cells, 511)
    requires forall c :: c in cells ==> 2 <= c && fat[c] == EMPTY
    requires forall c :: 2 <= c < 512 ==> (fat'[c] == EMPTY <==> fat[c] == EMPTY && c !in cells)
    ensures Room(fat') == Room(fat) - |cells|
  {
    SetOfSize(cells);
    assert FreeSet(fat', 2) == FreeSet(fat, 2) - SetOf(cells);
    assert SetOf(cells) <= FreeSet(fat, 2);
  }

  lemma AllocatedFrame(s: State, s': State, p: nat, k: nat, e: Entry, cells: seq<nat>)
    requires Delta(s, s', p, k, e, SetOf(cells)) && s.fat[p] != EMPTY
    requires Distinct(cells) && Within(cells, 511)
    requires forall c :: c in cells ==> 2 <= c && s.fat[c] == EMPTY && s'.fat[c] != EMPTY
    ensures Untouched(s, s', p) && Room(s'.fat) == Room(s.fat) - |cells|
  {
    hide DecodeTable, EncodeFat, Room;
    DeltaUntouched(s, s', p, k, e, SetOf(cells));
    RoomAfter(s.fat, s'.fat, cells);
  }

  lemma DirectoryAdded(s: State, t: Slots, r: Request, stack: Table)
    requires Represents(s, t) && Synced(s) && r.parent in Dirs(t) && r.parent < 2048 && r.name != NO_NAME
    requires r.size == 0 && CleanStack(stack) && FindFree(TableAt(s, r.parent), 0) < 64 && 1 <= Room(s.fat)
    ensures 2 <= r.parent < 512
    ensures var (s', code) := Write(s, r, [], stack);
            var cells := FreeCells(s.fat, 2, 1);
            && code == 0 && |cells| == 1 && cells[0] !in Cells(t) && s.fat[cells[0]] == EMPTY
            && NewDirectory(r, cells[0]).cluster == cells[0] && cells[0] < 512
            && Represents(s', Edit(t, r.parent, FindFree(TableAt(s, r.parent), 0), NewDirectory(r, cells[0])))
            && Synced(s') && Untouched(s, s', r.parent) && Room(s'.fat) == Room(s.fat) - 1
  {
    hide DecodeTable, EncodeTable, EncodeFat, FileStored, DirStored, Stored, MakeDirectory, Edit, DirEntry, FreeCells,
         Untouched, Room, Represents, Delta;
    RepresentsRoot(s, t);
    DirectoryHead(s, t, r.parent);
    LastCellSpared(s.fat, 1);
    var cells := FreeCells(s.fat, 2, 1);
    var c := cells[0];
    assert cells == [c];
    AllocationIsFresh(s, t, 1);
    DirsOutside(s, t, cells);
    MakeDirectoryRefines(s, t, r, stack);
    MakeDirectoryDelta(s, r, stack, c);
    var s' := MakeDirectory(s, r, stack).0;
    var k := TargetSlot(TableAt(s, r.parent));
    assert SetOf(cells) == {c} && c in cells;
    AllocatedFrame(s, s', r.parent, k, DirEntry(r.name, c).(ext := TableAt(s, r.parent)[k].ext), cells);
  }

  lemma FileAdded(s: State, t: Slots, r: Request, data: seq<byte>, stack: Table)
    requires Represents(s, t) && Synced(s) && r.parent in Dirs(t) && r.parent < 2048 && r.name != NO_NAME
    requires 2048 <= r.size && 2048 * (r.size / 2048) <= |data|
    requires FindFree(TableAt(s, r.parent), 0) < 64 && r.size / 2048 <= Room(s.fat)
    ensures 2 <= r.parent < 512
    ensures var (s', code) := Write(s, r, data, stack);
            && code == 0
            && Represents(s', Edit(t, r.parent, FindFree(TableAt(s, r.parent), 0), NewFile(s, r, data)))
            && Synced(s') && Untouched(s, s', r.parent) && Room(s'.fat) == Room(s.fat) - r.size / 2048
  {
    hide DecodeTable, EncodeTable, EncodeFat, FileStored, DirStored, Stored, MakeFile, Edit, FileEntry,
         FreeCells, Delta, Untouched, Room, Represents;
    RepresentsRoot(s, t);
    DirectoryHead(s, t, r.parent);
    var n := r.size / 2048;
    LastCellSpared(s.fat, n);
    var cells := FreeCells(s.fat, 2, n);
    AllocationIsFresh(s, t, n);
    DirsOutside(s, t, cells);
    FirstFitSucceeds(s.fat, 2, n);
    MakeFileRefines(s, t, r, data);
    MakeFileDelta(s, r, data, cells);
    MakeFileCells(s, r, data, cells);
    var s' := MakeFile(s, r, data).0;
    var k := TargetSlot(TableAt(s, r.parent));
    AllocatedFrame(s, s', r.parent, k, FileEntry(r.name, r.ext, r.size, cells[0]), cells);
  }

  lemma {:induction false} BlocksConcat(blocks: seq<Cluster>)
    ensures Blocks(Concat(blocks), |blocks|) == blocks
  {
    var data := Concat(blocks);
    forall k | 0 <= k < |blocks| ensures Block(data, k) == blocks[k] { BlockOfConcat(blocks, k); }
  }

  lemma {:induction false} BlockOfConcat(blocks: seq<Cluster>, k: nat)
    requires k < |blocks|
    ensures Block(Concat(blocks), k) == blocks[k]
  {
    var n := |blocks| - 1;
    if k < n {
      BlockOfConcat(blocks[..n], k);
      assert Block(Concat(blocks), k) == Block(Concat(blocks[..n]), k);
    }
  }

  // ----- the copy loop -----

  /** What the copy of one directory is about. */
  datatype Job = Job(t: Slots, dest: nat, slot: nat, name: Name, source: nat, kids: Slots, target: nat)

  ghost predicate JobOk(s0: State, b: Job) {
    && Represents(s0, b.t) && b.dest in Dirs(b.t) && b.dest < 512 && b.source in Dirs(b.t) && b.source < 512
    && 1 <= b.slot < 64 && b.slot == FindFree(TableAt(s0, b.dest), 0)
    && b.kids == Kids(b.t, b.source) && Stored(s0, b.source, 1, b.kids) && Copyable(b.name, b.kids)
    && b.dest != b.source && b.dest !in Cells(b.kids)
    && DirStored(s0, b.name, b.source)
    && 2 <= b.target < 512 && b.target !in Cells(b.t)
  }

  /** The tree while the copy's slots are `done`. */
  ghost function Partial(b: Job, done: Slots): Slots {
    Edit(b.t, b.dest, b.slot, Dir(b.name, b.target, done, End))
  }

  /** Slots 1 to i - 1 of the source have been copied into `done`. */
  ghost predicate Progress(s0: State, s: State, b: Job, done: Slots, i: nat) {
    && 1 <= i <= 64
    && Represents(s, Partial(b, done)) && Synced(s) && Untouched(s0, s, b.dest)
    && Packed(done, 1) && LiveCount(done) < i
    && Join(Erase(done), Erase(Suffix(b.kids, 1, i))) == Erase(b.kids)
    && (forall name :: HasFolder(done, name) ==> !HasFolder(Suffix(b.kids, 1, i), name))
    && CellCount(Suffix(b.kids, 1, i)) <= Room(s.fat)
    && Room(s.fat) == Room(s0.fat) - 1 - CellCount(b.kids) + CellCount(Suffix(b.kids, 1, i))
  }

  /** The source directory is still there, unchanged, and so is the new one. */
  lemma SourceKept(s0: State, s: State, b: Job, done: Slots)
    requires JobOk(s0, b) && Represents(s, Partial(b, done)) && Untouched(s0, s, b.dest)
    ensures var tc := Partial(b, done);
            && b.source in Dirs(tc) && Kids(tc, b.source) == b.kids && TableAt(s, b.source) == TableAt(s0, b.source)
            && b.target in Dirs(tc) && Kids(tc, b.target) == done && Stored(s, b.target, 1, done)
  {
    hide DecodeTable, FileStored, DirEntry, FileEntry, Edit;
    var tc, x := Partial(b, done), Dir(b.name, b.target, done, End);
    assert RootStored(s0, b.t) && RootStored(s, tc);
    DirsAreCells(b.t);
    FreeSlotIsFree(s0, b.t, b.dest, 0);
    EditDirs(s0, b.t, b.dest, b.slot, x);
    KidsOfEdit(s0, b.t, b.dest, b.slot, x, b.target);
    KidsApart(b.t, b.source);
    TreeInRange(s0, b.t);
    assert s0.fat[b.source] != EMPTY;
    StoredFrame(s0, s, b.source, 1, b.kids);
    var _ := DirectoryStored(s, tc, b.source);
    StoredUnique(s, b.source, 1, b.kids, Kids(tc, b.source));
    var _ := DirectoryStored(s, tc, b.target);
  }

  lemma FreeSlotSkipped(s0: State, s: State, b: Job, done: Slots, i: nat)
    requires JobOk(s0, b) && Progress(s0, s, b, done, i) && i < 64 && Slot(b.kids, 1, i).Free?
    ensures Progress(s0, s, b, done, i + 1)
  {
    hide DecodeTable, Represents, Partial, Room, FileStored, DirStored;
    SuffixStep(s0, b.source, 1, b.kids, i);
  }

  /** One more entry copied into the new directory extends `done` by it. */
  lemma EntryCopied(s0: State, s: State, s': State, b: Job, done: Slots, i: nat, copy: Slots) returns (done': Slots)
    requires JobOk(s0, b) && Progress(s0, s, b, done, i) && i < 64 && !Slot(b.kids, 1, i).Free?
    requires Copied(s, s', Partial(b, done), b.target, Slot(b.kids, 1, i), copy)
    ensures Progress(s0, s', b, done', i + 1)
  {
    hide DecodeTable, Represents, Edit, Room, FileStored, DirStored, RootStored, Put, Untouched, Synced,
         HasFolder, Copyable, Packed, Cells, Dirs, Kids, TableAt, FindFree, Partial, Join, Erase, CellCount,
         Suffix, Slot;
    var y, tc, g := Slot(b.kids, 1, i), Partial(b, done), Suffix(b.kids, 1, i);
    SourceKept(s0, s, b, done);
    SuffixStep(s0, b.source, 1, b.kids, i);
    SlotZeroLive(s, tc, b.target);
    assert !copy.Free? by { EraseSingle(y, copy); }
    StoredHasSlot(s, b.target, 1, done, 1 + LiveCount(done));
    FirstFreeOfPacked(s, b.target, 1, done);
    PutAppends(done, 1, copy);
    done' := Put(done, 1, 1 + LiveCount(done), copy);
    TargetFilled(s0, b, done, 1 + LiveCount(done), copy);
    UntouchedTwice(s0, s, s', b);
    EraseSingle(y, copy);
    assert Erase(g) == Join(Erase(y), Erase(g.rest)) by { EraseHead(g); }
    JoinAssociates(Erase(done), Erase(copy), Erase(g.rest));
    FoldersAdvance(b.name, done, g, copy);
    assert CellCount(g) == CellCount(y) + CellCount(g.rest) by { CountHead(g); }
  }

  lemma SlotZeroLive(s: State, t: Slots, p: nat)
    requires Represents(s, t) && p in Dirs(t)
    ensures p < 512 && FindFree(TableAt(s, p), 0) == FindFree(TableAt(s, p), 1)
  {
    var _ := DirectoryStored(s, t, p);
  }

  lemma EraseSingle(y: Slots, copy: Slots)
    requires Single(y) && Single(copy) && !y.Free? && Erase(copy) == Erase(y)
    ensures !copy.Free? && (copy.Dir? <==> y.Dir?) && (y.Dir? ==> copy.name == y.name)
  {
  }

  lemma EraseHead(g: Slots)
    requires g != End
    ensures Erase(g) == Join(Erase(SetRest(g, End)), Erase(g.rest))
  {
  }

  lemma CountHead(g: Slots)
    requires g != End
    ensures CellCount(g) == CellCount(SetRest(g, End)) + CellCount(g.rest)
  {
  }

  lemma TargetFilled(s0: State, b: Job, done: Slots, j: nat, copy: Slots)
    requires JobOk(s0, b) && Kids(Partial(b, done), b.target) == done
    ensures Edit(Partial(b, done), b.target, j, copy) == Partial(b, Put(done, 1, j, copy))
  {
    hide Represents, RootStored, Stored, DirStored, TableAt;
    DirsAreCells(b.t);
    EditInside(b.t, b.dest, b.slot, Dir(b.name, b.target, done, End), Put(done, 1, j, copy));
  }

  lemma UntouchedTwice(s0: State, s: State, s': State, b: Job)
    requires JobOk(s0, b) && Untouched(s0, s, b.dest) && Untouched(s, s', b.target)
    ensures Untouched(s0, s', b.dest)
  {
    hide DecodeTable, FileStored, Stored;
    TreeInRange(s0, b.t);
    DirsAreCells(b.t);
    DirectoryHead(s0, b.t, b.dest);
  }

  lemma FoldersAdvance(own: Name, done: Slots, g: Slots, copy: Slots)
    requires g != End && Copyable(own, g) && Single(copy) && !copy.Free?
    requires forall name :: HasFolder(done, name) ==> !HasFolder(g, name)
    requires (copy.Dir? <==> g.Dir?) && (g.Dir? ==> copy.name == g.name)
    requires Packed(done, 1) && HasSlot(done, 1, 1 + LiveCount(done))
    ensures forall name :: HasFolder(Put(done, 1, 1 + LiveCount(done), copy), name) ==> !HasFolder(g.rest, name)
  {
    hide Packed, HasSlot, LiveCount, Put, EmptySlots, HasFile;
    var done' := Put(done, 1, 1 + LiveCount(done), copy);
    forall name | HasFolder(done', name) ensures !HasFolder(g.rest, name) {
      PutAddsFolder(done, 1, copy, name);
    }
  }
}
