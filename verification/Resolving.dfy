// When a walk by name can reach every directory of a tree.
module Resolving {
  import opened Layout
  import opened Calls
  import opened Tree
  import opened TreeFacts
  import opened Edits
  import opened Moving
  import opened Chains
  import opened Refinement
  import opened Limits
  import opened ReadBack
  import opened Copying
  import opened Locality

  /** No subdirectory has the name of the directory listing it, nor of an earlier subdirectory there. */
  ghost predicate FoldersResolve(own: Name, f: Slots)
    decreases f
  {
    match f
    case End => true
    case Free(rest) => FoldersResolve(own, rest)
    case File(_, _, _, _, _, rest) => FoldersResolve(own, rest)
    case Dir(name, _, kids, rest) =>
      name != own && !HasFolder(rest, name) && FoldersResolve(name, kids) && FoldersResolve(own, rest)
  }

  /** FoldersResolve for one directory, not looking into its subdirectories. */
  ghost predicate OneLevel(own: Name, f: Slots) {
    match f
    case End => true
    case Free(rest) => OneLevel(own, rest)
    case File(_, _, _, _, _, rest) => OneLevel(own, rest)
    case Dir(name, _, _, rest) => name != own && !HasFolder(rest, name) && OneLevel(own, rest)
  }

  /** Slot `m` lists a directory that no other thing of its name hides. */
  ghost predicate Visible(own: Name, f: Slots, i: nat, m: nat) {
    Slot(f, i, m).Dir? ==>
      && Slot(f, i, m).name != own
      && forall j :: i <= j < m ==> !(Slot(f, i, j).Dir? && Slot(f, i, j).name == Slot(f, i, m).name)
  }

  lemma {:induction false} HasFolderSomewhere(s: State, d: nat, i: nat, f: Slots, name: Name) returns (m: nat)
    requires d < 2048 && Stored(s, d, i, f) && HasFolder(f, name)
    ensures i <= m < 64 && Slot(f, i, m).Dir? && Slot(f, i, m).name == name
    decreases f
  {
    hide DecodeTable, FileStored, DirStored, FileEntry, DirEntry;
    if f.Dir? && f.name == name { m := i; } else { m := HasFolderSomewhere(s, d, i + 1, f.rest, name); }
  }

  lemma {:induction false} OneLevelIff(s: State, d: nat, i: nat, f: Slots, own: Name)
    requires d < 2048 && Stored(s, d, i, f) && i <= 64
    ensures OneLevel(own, f) <==> forall m :: i <= m < 64 ==> Visible(own, f, i, m)
    decreases f
  {
    hide DecodeTable, FileStored, DirStored, FileEntry, DirEntry, HasFolder;
    if f != End {
      OneLevelIff(s, d, i + 1, f.rest, own);
      forall m | i < m < 64 ensures Visible(own, f, i, m) <==> Visible(own, f.rest, i + 1, m) && !Twin(f, i, m) {
        VisibleBelow(f, i, m, own);
      }
      assert Visible(own, f, i, i) <==> (f.Dir? ==> f.name != own) by { assert Slot(f, i, i) == SetRest(f, End); }
      assert (exists m :: i < m < 64 && Twin(f, i, m)) <==> f.Dir? && HasFolder(f.rest, f.name) by {
        TwinIff(s, d, i, f);
      }
      hide Visible, Twin;
      assert (forall m :: i <= m < 64 ==> Visible(own, f, i, m)) <==>
             Visible(own, f, i, i) && forall m :: i < m < 64 ==> Visible(own, f, i, m);
      if OneLevel(own, f.rest) && !exists m :: i < m < 64 && Twin(f, i, m) {
        forall m | i < m < 64 ensures Visible(own, f, i, m) {
          assert Visible(own, f.rest, i + 1, m) && !Twin(f, i, m);
        }
      } else if m :| i < m < 64 && Twin(f, i, m) {
        assert !Visible(own, f, i, m);
      } else {
        var m :| i + 1 <= m < 64 && !Visible(own, f.rest, i + 1, m);
        assert !Visible(own, f, i, m);
      }
    }
  }

  /** Slot `m` lists a directory with the name of the first one. */
  ghost predicate Twin(f: Slots, i: nat, m: nat) {
    f.Dir? && Slot(f, i, m).Dir? && Slot(f, i, m).name == f.name
  }

  lemma TwinIff(s: State, d: nat, i: nat, f: Slots)
    requires d < 2048 && Stored(s, d, i, f) && f != End
    ensures (exists m :: i < m < 64 && Twin(f, i, m)) <==> f.Dir? && HasFolder(f.rest, f.name)
  {
    hide DecodeTable, FileStored, DirStored, FileEntry, DirEntry, HasFolder;
    if m :| i < m < 64 && Twin(f, i, m) {
      FolderAt(s, d, i + 1, f.rest, m);
    }
    if f.Dir? && HasFolder(f.rest, f.name) {
      var m := HasFolderSomewhere(s, d, i + 1, f.rest, f.name);
      assert Twin(f, i, m);
    }
  }

  lemma VisibleBelow(f: Slots, i: nat, m: nat, own: Name)
    requires f != End && i < m < 64
    ensures Visible(own, f, i, m) <==> Visible(own, f.rest, i + 1, m) && !Twin(f, i, m)
  {
    assert Slot(f, i, i) == SetRest(f, End);
    assert forall j :: i < j < 64 ==> Slot(f, i, j) == Slot(f.rest, i + 1, j);
    if Slot(f, i, m).Dir? && Visible(own, f.rest, i + 1, m) && !Twin(f, i, m) {
      forall j | i <= j < m ensures !(Slot(f, i, j).Dir? && Slot(f, i, j).name == Slot(f, i, m).name) {
        if j > i { assert Slot(f, i, j) == Slot(f.rest, i + 1, j); }
      }
    }
    if Slot(f, i, m).Dir? && Visible(own, f, i, m) {
      assert !(Slot(f, i, i).Dir? && Slot(f, i, i).name == Slot(f, i, m).name);
      var next := i + 1;
      forall j | next <= j < m && Slot(f.rest, next, j).Dir? ensures Slot(f.rest, next, j).name != Slot(f, i, m).name {
        assert Slot(f, i, j) == Slot(f.rest, next, j);
      }
    }
  }

  /** FoldersResolve looks at every directory of the tree, each on its own. */
  lemma {:induction false} ResolvesLevelwise(s: State, d: nat, i: nat, f: Slots, own: Name)
    requires d < 2048 && Stored(s, d, i, f) && Apart(f)
    ensures FoldersResolve(own, f) <==>
            OneLevel(own, f) && forall q :: q in Dirs(f) && q < 512 ==> OneLevel(OwnNameOf(s, q), Kids(f, q))
    decreases f
  {
    hide DecodeTable, FileStored, FileEntry, HasFolder;
    match f
    case End =>
    case Free(rest) => ResolvesLevelwise(s, d, i + 1, rest, own);
    case File(_, _, _, _, _, rest) => ResolvesLevelwise(s, d, i + 1, rest, own);
    case Dir(name, c, kids, rest) =>
      ResolvesLevelwise(s, d, i + 1, rest, own);
      ResolvesLevelwise(s, c, 1, kids, name);
      DirsAreCells(kids);
      DirsAreCells(rest);
      assert OwnNameOf(s, c) == name;
  }

  /** Every directory is the one found under its own name in the directory listing it. */
  ghost predicate AllFound(s: State, t: Slots, q: nat)
    requires q < 512
  {
    forall m :: 1 <= m < 64 && SlotAt(t, q, m).Dir? ==>
      LookupDir(s, Request(SlotAt(t, q, m).name, NO_EXT, q, 0)) == (0, SlotAt(t, q, m).cluster)
  }

  lemma AllFoundIff(s: State, t: Slots, q: nat)
    requires Represents(s, t) && q in Dirs(t) && q < 512
    ensures AllFound(s, t, q) <==> OneLevel(OwnNameOf(s, q), Kids(t, q))
  {
    hide DecodeTable, DirEntry, FileEntry, FileStored, DirStored, Represents, LookupDir, Stored, OneLevel;
    RepresentsRoot(s, t);
    var name := DirectoryStored(s, t, q);
    OneLevelIff(s, q, 1, Kids(t, q), OwnNameOf(s, q));
    forall m | 1 <= m < 64 && SlotAt(t, q, m).Dir?
      ensures LookupDir(s, Request(SlotAt(t, q, m).name, NO_EXT, q, 0)) == (0, SlotAt(t, q, m).cluster)
              <==> Visible(OwnNameOf(s, q), Kids(t, q), 1, m)
    {
      var own := ResolvesIff(s, t, q, m);
      EntryName(own, q);
      assert forall j :: SlotAt(t, q, j) == Slot(Kids(t, q), 1, j);
    }
  }

  lemma EntryName(own: Name, c: u32)
    ensures DirEntry(own, c).name == own
  {
  }

  /** A walk by name from the root can reach every directory exactly when no directory is hidden: by
      the directory listing it, which carries its own name in slot 0, or by an earlier sibling. */
  lemma FoldersResolveIff(s: State, t: Slots)
    requires Represents(s, t)
    ensures FoldersResolve(ROOT_NAME, t.kids) <==> forall q :: q in Dirs(t) && q < 512 ==> AllFound(s, t, q)
  {
    hide DecodeTable, FileEntry, FileStored, AllFound, OneLevel, LookupDir, FoldersResolve;
    ResolvesLevelwise(s, 2, 1, t.kids, ROOT_NAME);
    DirsAreCells(t.kids);
    assert OwnNameOf(s, 2) == ROOT_NAME;
    forall q | q in Dirs(t) && q < 512
      ensures AllFound(s, t, q) <==> OneLevel(OwnNameOf(s, q), if q == 2 then t.kids else Kids(t.kids, q))
    {
      AllFoundIff(s, t, q);
    }
  }

  /** How such a tree comes about: `write` accepts a new directory with its parent's own name, and
      from then on the name leads back to the parent. */
  lemma HiddenAtBirth(s: State, t: Slots, r: Request, stack: Table) returns (t': Slots)
    requires Represents(s, t) && Synced(s) && r.parent in Dirs(t) && r.parent < 512 && r.size == 0
    requires r.name == OwnNameOf(s, r.parent) && CleanStack(stack)
    requires FindFree(TableAt(s, r.parent), 0) < 64 && 1 <= Room(s.fat)
    ensures var (s', code) := Write(s, r, [], stack);
            && code == 0 && Represents(s', t') && LookupDir(s', r) == (0, r.parent)
            && !FoldersResolve(ROOT_NAME, t'.kids)
  {
    hide DecodeTable, EncodeTable, EncodeFat, FileStored, Stored, Represents, Write, Edit, FreeCells, Room,
         LookupDir, Untouched, FindFree, AllFound, DirEntry;
    RepresentsRoot(s, t);
    var p := r.parent;
    var own := DirectoryStored(s, t, p);
    EntryName(own, p);
    DirectoryAdded(s, t, r, stack);
    var c, j := FreeCells(s.fat, 2, 1)[0], FindFree(TableAt(s, p), 0);
    var s', x := Write(s, r, [], stack).0, NewDirectory(r, c);
    t' := Edit(t, p, j, x);
    FreeSlotIsFree(s, t, p, 0);
    SlotFilled(s, t, p, j, x);
    RepresentsRoot(s', t');
    OwnSlotKept(s, s', t, r, stack);
    DirsAreCells(t);
    var q := Request(x.name, NO_EXT, p, 0);
    OwnNameFirst(s', r);
    OwnNameFirst(s', q);
    FoldersResolveIff(s', t');
    assert SlotAt(t', p, j).Dir? && LookupDir(s', q) != (0, c);
    assert !AllFound(s', t', p) by { NotFound(s', t', p, j); }
  }

  lemma NotFound(s: State, t: Slots, q: nat, m: nat)
    requires q < 512 && 1 <= m < 64 && SlotAt(t, q, m).Dir?
    requires LookupDir(s, Request(SlotAt(t, q, m).name, NO_EXT, q, 0)) != (0, SlotAt(t, q, m).cluster)
    ensures !AllFound(s, t, q)
  {
  }

  lemma OwnNameFirst(s: State, r: Request)
    requires r.parent < 512 && r.name != NO_NAME && r.size == 0 && TableAt(s, r.parent)[0] == DirEntry(r.name, r.parent)
    ensures LookupDir(s, r) == (0, r.parent)
  {
    hide DecodeTable;
    assert FindDir(TableAt(s, r.parent), r.name, 0) == 0;
  }

  /** A new directory leaves its parent's slot 0 alone. */
  lemma OwnSlotKept(s: State, s': State, t: Slots, r: Request, stack: Table)
    requires Represents(s, t) && r.parent in Dirs(t) && r.parent < 512 && r.size == 0
    requires FindFree(TableAt(s, r.parent), 0) < 64
    requires r.name != NO_NAME && (s', 0) == Write(s, r, [], stack)
    ensures TableAt(s', r.parent)[0] == TableAt(s, r.parent)[0]
  {
    hide DecodeTable, EncodeTable, EncodeFat, FileStored, Stored, FreeCells, MakeDirectory, Represents;
    RepresentsRoot(s, t);
    DirectoryHead(s, t, r.parent);
    FreeSlotIsFree(s, t, r.parent, 0);
    var c := NewCell(s, r, stack);
    DirsOutside(s, t, [c]);
    MakeDirectoryDelta(s, r, stack, c);
  }
}
