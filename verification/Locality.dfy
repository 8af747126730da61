// What an edit of the tree means to someone looking at it directory by directory: one slot of one
// directory shows something else, every other slot of every other directory shows the same.
module Locality {
  import opened Layout
  import opened Calls
  import opened Tree
  import opened TreeFacts
  import opened Edits

  /** A slot as its directory's listing shows it: a file with its contents, a subdirectory by name and
      identity, without what that subdirectory lists in turn. */
  function Shallow(x: Slots): Slots {
    match x
    case Dir(name, c, _, _) => Dir(name, c, End, End)
    case File(name, ext, size, ch, blocks, _) => File(name, ext, size, ch, blocks, End)
    case _ => Free(End)
  }

  lemma {:induction false} GraftShallow(f: Slots, p: nat, g: Slots, i: nat, m: nat)
    ensures Shallow(Slot(Graft(f, p, g), i, m)) == Shallow(Slot(f, i, m))
    decreases f
  {
    if f != End && i != m { GraftShallow(f.rest, p, g, i + 1, m); }
  }

  lemma {:induction false} SlotOfPut(s: State, d: nat, i: nat, f: Slots, j: nat, x: Slots, m: nat)
    requires d < 2048 && Stored(s, d, i, f) && i <= j < 64 && i <= m < 64 && Single(x)
    ensures Slot(Put(f, i, j, x), i, m) == if m == j then x else Slot(f, i, m)
    decreases f
  {
    hide DecodeTable, FileStored, DirStored, FileEntry, DirEntry;
    if i == j {
      assert SetRest(SetRest(x, f.rest), End) == x;
    } else if i != m {
      SlotOfPut(s, d, i + 1, f.rest, j, x, m);
    }
  }

  lemma {:induction false} KidsAtGraft(f: Slots, p: nat, g: Slots)
    requires p in Dirs(f)
    ensures p in Dirs(Graft(f, p, g)) && Kids(Graft(f, p, g), p) == g
  {
    match f
    case Free(rest) => KidsAtGraft(rest, p, g);
    case File(_, _, _, _, _, rest) => KidsAtGraft(rest, p, g);
    case Dir(_, c, kids, rest) =>
      if c == p {
      } else if p in Dirs(kids) {
        KidsAtGraft(kids, p, g);
      } else {
        GraftAbsent(kids, p, g);
        KidsAtGraft(rest, p, g);
      }
  }

  lemma {:induction false} KidsOutside(f: Slots, p: nat, g: Slots, q: nat)
    requires Apart(f) && p in Dirs(f) && q in Dirs(f) && q != p && q !in Dirs(Kids(f, p)) && q !in Dirs(g)
    ensures q in Dirs(Graft(f, p, g)) && Kids(Graft(f, p, g), q) == Graft(Kids(f, q), p, g)
  {
    DirsAreCells(f.rest);
    match f
    case Free(rest) => KidsOutside(rest, p, g, q);
    case File(_, _, _, _, _, rest) => KidsOutside(rest, p, g, q);
    case Dir(_, c, kids, rest) =>
      DirsAreCells(kids);
      if c == p {
        KidsInDirs(rest, q);
        GraftAbsent(Kids(rest, q), p, g);
      } else if p in Dirs(kids) {
        GraftAbsent(rest, p, g);
        if q in Dirs(kids) {
          KidsOutside(kids, p, g, q);
        } else if q != c {
          GraftDirs(kids, p, g);
          KidsInDirs(rest, q);
          GraftAbsent(Kids(rest, q), p, g);
        }
      } else {
        GraftAbsent(kids, p, g);
        if q in Dirs(kids) {
          KidsInDirs(kids, q);
          GraftAbsent(Kids(kids, q), p, g);
        } else if q != c {
          KidsOutside(rest, p, g, q);
        }
      }
  }

  lemma {:induction false} KidsInside(f: Slots, p: nat, g: Slots, q: nat)
    requires Apart(f) && p in Dirs(f) && q in Dirs(Kids(f, p)) && q in Dirs(g)
    ensures q in Dirs(Graft(f, p, g)) && Kids(Graft(f, p, g), q) == Kids(g, q)
  {
    DirsAreCells(f.rest);
    match f
    case Free(rest) => KidsInside(rest, p, g, q);
    case File(_, _, _, _, _, rest) => KidsInside(rest, p, g, q);
    case Dir(_, c, kids, rest) =>
      DirsAreCells(kids);
      if c == p {
      } else if p in Dirs(kids) {
        KidsInDirs(kids, p);
        KidsInside(kids, p, g, q);
      } else {
        KidsInDirs(rest, p);
        GraftAbsent(kids, p, g);
        KidsInside(rest, p, g, q);
      }
  }

  lemma {:induction false} KidsOfKids(f: Slots, p: nat, q: nat)
    requires Apart(f) && p in Dirs(f) && q in Dirs(Kids(f, p))
    ensures Kids(f, q) == Kids(Kids(f, p), q)
  {
    DirsAreCells(f.rest);
    match f
    case Free(rest) => KidsOfKids(rest, p, q);
    case File(_, _, _, _, _, rest) => KidsOfKids(rest, p, q);
    case Dir(_, c, kids, rest) =>
      DirsAreCells(kids);
      if c == p {
      } else if p in Dirs(kids) {
        KidsInDirs(kids, p);
        KidsOfKids(kids, p, q);
      } else {
        KidsInDirs(rest, p);
        KidsOfKids(rest, p, q);
      }
  }

  lemma {:induction false} KidsBesidePut(s: State, d: nat, i: nat, f: Slots, j: nat, x: Slots, q: nat)
    requires d < 2048 && Stored(s, d, i, f) && Apart(f) && i <= j < 64 && Single(x)
    requires q in Dirs(f) && q !in Dirs(Slot(f, i, j)) && q !in Dirs(x)
    ensures q in Dirs(Put(f, i, j, x)) && Kids(Put(f, i, j, x), q) == Kids(f, q)
    decreases f
  {
    hide DecodeTable, FileStored, DirStored, FileEntry, DirEntry;
    if i < j {
      if !(f.Dir? && (q == f.cluster || q in Dirs(f.kids))) { KidsBesidePut(s, d, i + 1, f.rest, j, x, q); }
    }
  }

  /** What a slot is given is found there, at every depth. */
  lemma {:induction false} KidsOfPut(s: State, d: nat, i: nat, f: Slots, j: nat, x: Slots, q: nat)
    requires d < 2048 && Stored(s, d, i, f) && i <= j < 64 && Single(x) && q in Dirs(x) && q !in Dirs(f)
    ensures q in Dirs(Put(f, i, j, x)) && Kids(Put(f, i, j, x), q) == Kids(x, q)
    decreases f
  {
    hide DecodeTable, FileStored, DirStored, FileEntry, DirEntry;
    if i < j { KidsOfPut(s, d, i + 1, f.rest, j, x, q); }
  }

  lemma KidsOfEdit(s: State, t: Slots, p: nat, j: nat, x: Slots, q: nat)
    requires RootStored(s, t) && p in Dirs(t) && 1 <= j < 64 && Single(x) && q in Dirs(x) && q !in Dirs(t)
    ensures q in Dirs(Edit(t, p, j, x)) && Kids(Edit(t, p, j, x), q) == Kids(x, q)
  {
    hide DecodeTable, FileStored, DirStored, FileEntry, DirEntry, Stored;
    var _ := DirectoryStored(s, t, p);
    KidsInDirs(t, p);
    KidsOfPut(s, p, 1, Kids(t, p), j, x, q);
    KidsOfGraft(t, p, Put(Kids(t, p), 1, j, x), q);
  }

  /** And what a slot has is found in the directory. */
  lemma {:induction false} KidsOfSlot(s: State, d: nat, i: nat, f: Slots, j: nat, q: nat)
    requires d < 2048 && Stored(s, d, i, f) && Apart(f) && i <= j < 64 && q in Dirs(Slot(f, i, j))
    ensures q in Dirs(f) && Kids(Slot(f, i, j), q) == Kids(f, q)
    decreases f
  {
    hide DecodeTable, FileStored, DirStored, FileEntry, DirEntry;
    DirsAreCells(f.rest);
    if f.Dir? { DirsAreCells(f.kids); }
    if i < j { KidsOfSlot(s, d, i + 1, f.rest, j, q); }
  }

  lemma KidsOfSlotAt(s: State, t: Slots, p: nat, j: nat, q: nat)
    requires RootStored(s, t) && Apart(t) && p in Dirs(t) && 1 <= j < 64 && q in Dirs(SlotAt(t, p, j))
    ensures q in Dirs(t) && Kids(SlotAt(t, p, j), q) == Kids(t, q)
  {
    hide DecodeTable, FileStored, DirStored, FileEntry, DirEntry, Stored;
    var _ := DirectoryStored(s, t, p);
    KidsApart(t, p);
    KidsOfSlot(s, p, 1, Kids(t, p), j, q);
    KidsOfKids(t, p, q);
    KidsInDirs(t, p);
  }

  /** An edit shows in one slot of one directory, and nowhere else. */
  lemma EditChangesOneSlot(s: State, t: Slots, p: nat, j: nat, x: Slots, q: nat, m: nat)
    requires RootStored(s, t) && Apart(t) && p in Dirs(t) && 1 <= j < 64 && Single(x)
    requires Dirs(x) !! (Dirs(t) - Dirs(SlotAt(t, p, j)))
    requires q in Dirs(t) && q !in Dirs(SlotAt(t, p, j)) && 1 <= m < 64
    ensures var t' := Edit(t, p, j, x);
            && q in Dirs(t')
            && Shallow(SlotAt(t', q, m)) == if (q, m) == (p, j) then Shallow(x) else Shallow(SlotAt(t, q, m))
  {
    hide DecodeTable, FileStored, DirStored, FileEntry, DirEntry, Stored;
    var _ := DirectoryStored(s, t, p);
    var kids := Kids(t, p);
    var g := Put(kids, 1, j, x);
    KidsApart(t, p);
    PutDirs(s, p, 1, kids, j, x);
    if q == p {
      KidsAtGraft(t, p, g);
      SlotOfPut(s, p, 1, kids, j, x, m);
    } else if q in Dirs(kids) {
      KidsBesidePut(s, p, 1, kids, j, x, q);
      KidsInside(t, p, g, q);
      KidsOfKids(t, p, q);
    } else {
      KidsOutside(t, p, g, q);
      GraftShallow(Kids(t, q), p, g, 1, m);
    }
  }

  lemma SlotFilled(s: State, t: Slots, p: nat, j: nat, x: Slots)
    requires RootStored(s, t) && p in Dirs(t) && p < 512 && 1 <= j < 64 && Single(x)
    ensures p in Dirs(Edit(t, p, j, x)) && SlotAt(Edit(t, p, j, x), p, j) == x
  {
    hide DecodeTable, FileStored, DirStored, Stored;
    var _ := DirectoryStored(s, t, p);
    KidsAtGraft(t, p, Put(Kids(t, p), 1, j, x));
    SlotOfPut(s, p, 1, Kids(t, p), j, x, j);
  }

  /** Slots that show the same are the same file with the same contents in the same cells, or the same
      subdirectory. */
  lemma ShownAlike(x: Slots, y: Slots)
    requires Shallow(x) == Shallow(y)
    ensures (x.File? <==> y.File?) && (x.Dir? <==> y.Dir?)
    ensures x.File? ==> x.name == y.name && x.ext == y.ext && x.size == y.size && x.chain == y.chain && x.blocks == y.blocks
    ensures x.Dir? ==> x.name == y.name && x.cluster == y.cluster
  {
  }
}
