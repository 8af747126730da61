// How storage, occupied cells and separation behave under the two edits of a tree: replacing one
// slot of a directory, and replacing a directory's slots inside the whole tree.
module TreeFacts {
  import opened Layout
  import opened Chains
  import opened Calls
  import opened Tree

  /** The two states agree on the cells in `cs`, in the map and on disk. */
  ghost predicate Same(s: State, s': State, cs: set<nat>) {
    forall c :: c in cs && c < 512 ==> s.fat[c] == s'.fat[c] && s.disk[c] == s'.disk[c]
  }

  lemma {:induction false} DirsAreCells(f: Slots)
    ensures Dirs(f) <= Cells(f)
  {
    match f
    case End =>
    case Free(rest) => DirsAreCells(rest);
    case File(_, _, _, _, _, rest) => DirsAreCells(rest);
    case Dir(_, _, kids, rest) => DirsAreCells(kids); DirsAreCells(rest);
  }

  lemma {:induction false} CellsInRange(s: State, d: nat, i: nat, f: Slots)
    requires d < 2048 && Stored(s, d, i, f)
    ensures forall c :: c in Cells(f) ==> 2 <= c < 512
    decreases f
  {
    hide DecodeTable, DirEntry, FileEntry;
    match f
    case End =>
    case Free(rest) => CellsInRange(s, d, i + 1, rest);
    case File(_, _, _, ch, _, rest) =>
      ChainDistinct(s.fat, ch[0], ch);
      CellsInRange(s, d, i + 1, rest);
    case Dir(_, c, kids, rest) =>
      CellsInRange(s, c, 1, kids);
      CellsInRange(s, d, i + 1, rest);
  }

  lemma FileFrame(s: State, s': State, name: Name, size: u32, ch: seq<nat>, blocks: seq<Cluster>)
    requires FileStored(s, name, size, ch, blocks) && Same(s, s', SetOf(ch))
    ensures FileStored(s', name, size, ch, blocks)
  {
    ChainDistinct(s.fat, ch[0], ch);
    forall k | 0 <= k < |ch| ensures s.fat[ch[k]] == s'.fat[ch[k]] && s.disk[ch[k]] == s'.disk[ch[k]] {
      assert ch[k] in SetOf(ch);
    }
    ChainFrame(s.fat, s'.fat, ch[0], ch);
  }

  lemma DirFrame(s: State, s': State, cs: set<nat>, name: Name, c: nat)
    requires DirStored(s, name, c) && Same(s, s', cs) && c in cs
    ensures DirStored(s', name, c) && TableAt(s', c) == TableAt(s, c)
  {
  }

  /** A stored tree depends on nothing but its own cells and the table it is listed in. */
  lemma {:induction false} StoredFrame(s: State, s': State, d: nat, i: nat, f: Slots)
    requires d < 2048 && Stored(s, d, i, f) && Same(s, s', Cells(f))
    requires forall m :: i <= m < 64 ==> TableAt(s', d)[m] == TableAt(s, d)[m]
    ensures Stored(s', d, i, f)
    decreases f
  {
    hide DecodeTable, DirEntry, FileEntry, FileStored;
    match f
    case End =>
    case Free(rest) => StoredFrame(s, s', d, i + 1, rest);
    case File(name, _, size, ch, blocks, rest) =>
      FileFrame(s, s', name, size, ch, blocks);
      StoredFrame(s, s', d, i + 1, rest);
    case Dir(name, c, kids, rest) =>
      assert s'.disk[c] == s.disk[c];
      StoredFrame(s, s', c, 1, kids);
      StoredFrame(s, s', d, i + 1, rest);
  }

  lemma {:induction false} SingleFrame(s: State, s': State, x: Slots)
    requires Single(x) && SingleStored(s, x) && Same(s, s', Cells(x))
    ensures SingleStored(s', x) && EntryOf(s', x) == EntryOf(s, x)
  {
    hide DecodeTable, DirEntry, FileEntry, FileStored;
    match x
    case Free(_) =>
    case File(name, _, size, ch, blocks, _) => FileFrame(s, s', name, size, ch, blocks);
    case Dir(_, c, kids, _) => StoredFrame(s, s', c, 1, kids);
  }

  /** What a stored directory holds at slot `j`. */
  lemma {:induction false} SlotStored(s: State, d: nat, i: nat, f: Slots, j: nat)
    requires d < 2048 && Stored(s, d, i, f) && i <= j < 64
    ensures var x := Slot(f, i, j);
            && Single(x) && SingleStored(s, x) && TableAt(s, d)[j] == EntryOf(s, x)
            && Cells(x) <= Cells(f) && Dirs(x) <= Dirs(f) && (Apart(f) ==> Apart(x))
    decreases f
  {
    hide DecodeTable, DirEntry, FileEntry, FileStored;
    if i != j {
      SlotStored(s, d, i + 1, f.rest, j);
    }
  }

  // ----- replacing one slot -----

  lemma {:induction false} PutStored(s: State, s': State, d: nat, i: nat, f: Slots, j: nat, x: Slots)
    requires d < 2048 && Stored(s, d, i, f) && Apart(f) && i <= j < 64
    requires Single(x) && SingleStored(s', x)
    requires Same(s, s', Cells(f) - Cells(Slot(f, i, j)))
    requires TableAt(s', d)[j] == EntryOf(s', x)
    requires forall m :: i <= m < 64 && m != j ==> TableAt(s', d)[m] == TableAt(s, d)[m]
    ensures Stored(s', d, i, Put(f, i, j, x))
    decreases f
  {
    hide DecodeTable, DirEntry, FileEntry, FileStored;
    if i == j {
      StoredFrame(s, s', d, i + 1, f.rest);
    } else {
      SlotStored(s, d, i + 1, f.rest, j);
      PutStored(s, s', d, i + 1, f.rest, j, x);
      match f
      case Free(_) =>
      case File(name, _, size, ch, blocks, _) => FileFrame(s, s', name, size, ch, blocks);
      case Dir(_, c, kids, _) =>
        assert c in Cells(f) - Cells(Slot(f, i, j));
        StoredFrame(s, s', c, 1, kids);
    }
  }

  lemma {:induction false} PutCells(s: State, d: nat, i: nat, f: Slots, j: nat, x: Slots)
    requires d < 2048 && Stored(s, d, i, f) && Apart(f) && i <= j < 64
    requires Single(x) && Apart(x) && Cells(x) !! (Cells(f) - Cells(Slot(f, i, j)))
    ensures var g := Put(f, i, j, x);
            Apart(g) && Cells(g) == Cells(f) - Cells(Slot(f, i, j)) + Cells(x)
    decreases f
  {
    hide DecodeTable, DirEntry, FileEntry, FileStored, DirStored;
    if i != j {
      SlotStored(s, d, i + 1, f.rest, j);
      PutCells(s, d, i + 1, f.rest, j, x);
    }
  }

  lemma {:induction false} PutDirs(s: State, d: nat, i: nat, f: Slots, j: nat, x: Slots)
    requires d < 2048 && Stored(s, d, i, f) && Apart(f) && i <= j < 64 && Single(x)
    ensures Dirs(Put(f, i, j, x)) == Dirs(f) - Dirs(Slot(f, i, j)) + Dirs(x)
    decreases f
  {
    hide DecodeTable, DirEntry, FileEntry, FileStored, DirStored;
    DirsAreCells(f.rest);
    if f.Dir? { DirsAreCells(f.kids); }
    if i != j {
      SlotStored(s, d, i + 1, f.rest, j);
      PutDirs(s, d, i + 1, f.rest, j, x);
    }
  }

  // ----- a directory inside a tree -----

  lemma {:induction false} KidsStored(s: State, d: nat, i: nat, f: Slots, p: nat) returns (name: Name)
    requires d < 2048 && Stored(s, d, i, f) && p in Dirs(f)
    ensures DirStored(s, name, p) && Stored(s, p, 1, Kids(f, p))
    decreases f
  {
    hide DecodeTable, DirEntry, FileEntry, FileStored;
    match f
    case Free(rest) => name := KidsStored(s, d, i + 1, rest, p);
    case File(_, _, _, _, _, rest) => name := KidsStored(s, d, i + 1, rest, p);
    case Dir(nm, c, kids, rest) =>
      if c == p { name := nm; }
      else if p in Dirs(kids) { name := KidsStored(s, c, 1, kids, p); }
      else { name := KidsStored(s, d, i + 1, rest, p); }
  }

  lemma {:induction false} KidsApart(f: Slots, p: nat)
    requires Apart(f) && p in Dirs(f)
    ensures Apart(Kids(f, p)) && p !in Cells(Kids(f, p))
    ensures Cells(Kids(f, p)) <= Cells(f) && Dirs(Kids(f, p)) <= Dirs(f)
  {
    match f
    case Free(rest) => KidsApart(rest, p);
    case File(_, _, _, _, _, rest) => KidsApart(rest, p);
    case Dir(_, c, kids, rest) =>
      if c == p {}
      else if p in Dirs(kids) { KidsApart(kids, p); }
      else { KidsApart(rest, p); }
  }

  lemma {:induction false} GraftAbsent(f: Slots, p: nat, k: Slots)
    requires p !in Dirs(f)
    ensures Graft(f, p, k) == f
  {
    match f
    case End =>
    case Free(rest) => GraftAbsent(rest, p, k);
    case File(_, _, _, _, _, rest) => GraftAbsent(rest, p, k);
    case Dir(_, _, kids, rest) => GraftAbsent(kids, p, k); GraftAbsent(rest, p, k);
  }

  lemma {:induction false} GraftCells(f: Slots, p: nat, k: Slots)
    requires Apart(f) && p in Dirs(f)
    ensures Cells(Graft(f, p, k)) == Cells(f) - Cells(Kids(f, p)) + Cells(k)
  {
    match f
    case Free(rest) => GraftCells(rest, p, k);
    case File(_, _, _, _, _, rest) =>
      DirsAreCells(rest);
      KidsApart(rest, p);
      GraftCells(rest, p, k);
    case Dir(_, c, kids, rest) =>
      if c == p {
        DirsAreCells(rest);
        GraftAbsent(rest, p, k);
      } else if p in Dirs(kids) {
        DirsAreCells(kids);
        DirsAreCells(rest);
        KidsApart(kids, p);
        GraftCells(kids, p, k);
        GraftAbsent(rest, p, k);
      } else {
        DirsAreCells(kids);
        DirsAreCells(rest);
        KidsApart(rest, p);
        GraftCells(rest, p, k);
        GraftAbsent(kids, p, k);
      }
  }

  lemma {:induction false} GraftApart(f: Slots, p: nat, k: Slots)
    requires Apart(f) && p in Dirs(f)
    requires Apart(k) && p !in Cells(k) && Cells(k) !! (Cells(f) - Cells(Kids(f, p)))
    ensures Apart(Graft(f, p, k))
  {
    KidsApart(f, p);
    DirsAreCells(f.rest);
    match f
    case Free(rest) => GraftApart(rest, p, k);
    case File(_, _, _, _, _, rest) =>
      KidsApart(rest, p);
      GraftApart(rest, p, k);
      GraftCells(rest, p, k);
    case Dir(_, c, kids, rest) =>
      if c == p {
      } else if p in Dirs(kids) {
        DirsAreCells(kids);
        KidsApart(kids, p);
        GraftApart(kids, p, k);
        GraftCells(kids, p, k);
        GraftAbsent(rest, p, k);
      } else {
        KidsApart(rest, p);
        GraftApart(rest, p, k);
        GraftCells(rest, p, k);
        GraftAbsent(kids, p, k);
      }
  }

  lemma {:induction false} GraftDirs(f: Slots, p: nat, k: Slots)
    requires Apart(f) && p in Dirs(f)
    ensures Dirs(Graft(f, p, k)) == Dirs(f) - Dirs(Kids(f, p)) + Dirs(k)
  {
    match f
    case Free(rest) => GraftDirs(rest, p, k);
    case File(_, _, _, _, _, rest) => GraftDirs(rest, p, k);
    case Dir(_, c, kids, rest) =>
      DirsApart(f);
      if c == p {
        GraftAbsent(rest, p, k);
      } else if p in Dirs(kids) {
        GraftDirs(kids, p, k);
        GraftAbsent(rest, p, k);
        KidsApart(kids, p);
      } else {
        GraftDirs(rest, p, k);
        GraftAbsent(kids, p, k);
        KidsApart(rest, p);
      }
  }

  lemma DirsApart(f: Slots)
    requires f.Dir? && Apart(f)
    ensures f.cluster !in Dirs(f.kids) && f.cluster !in Dirs(f.rest) && Dirs(f.kids) !! Dirs(f.rest)
  {
    DirsAreCells(f.kids);
    DirsAreCells(f.rest);
  }

  lemma {:induction false} GraftStored(s: State, s': State, d: nat, i: nat, f: Slots, p: nat, k: Slots)
    requires d < 2048 && Stored(s, d, i, f) && Apart(f) && p in Dirs(f)
    requires forall m :: i <= m < 64 ==> TableAt(s', d)[m] == TableAt(s, d)[m]
    requires Same(s, s', Cells(f) - Cells(Kids(f, p)) - {p})
    requires p < 512 && Stored(s', p, 1, k)
    requires forall name :: DirStored(s, name, p) ==> DirStored(s', name, p)
    ensures Stored(s', d, i, Graft(f, p, k))
    decreases f, 1
  {
    hide DecodeTable, TableAt, DirEntry, FileEntry, FileStored, DirStored;
    match f
    case Free(rest) => GraftStored(s, s', d, i + 1, rest, p, k);
    case File(name, _, size, ch, blocks, rest) =>
      DirsAreCells(rest);
      KidsApart(rest, p);
      FileFrame(s, s', name, size, ch, blocks);
      GraftStored(s, s', d, i + 1, rest, p, k);
    case Dir(name, c, kids, rest) =>
      if c == p {
        StoredFrame(s, s', d, i + 1, rest);
      } else if p in Dirs(kids) {
        GraftBelow(s, s', d, i, f, p, k);
      } else {
        GraftAfter(s, s', d, i, f, p, k);
      }
  }

  lemma {:induction false} GraftBelow(s: State, s': State, d: nat, i: nat, f: Slots, p: nat, k: Slots)
    requires d < 2048 && Stored(s, d, i, f) && Apart(f) && f.Dir? && f.cluster != p && p in Dirs(f.kids)
    requires forall m :: i <= m < 64 ==> TableAt(s', d)[m] == TableAt(s, d)[m]
    requires Same(s, s', Cells(f) - Cells(Kids(f, p)) - {p})
    requires p < 512 && Stored(s', p, 1, k)
    requires forall name :: DirStored(s, name, p) ==> DirStored(s', name, p)
    ensures Stored(s', d, i, Graft(f, p, k))
    decreases f, 0
  {
    hide DecodeTable, TableAt, DirEntry, FileEntry, FileStored, DirStored;
    DirsAreCells(f.kids);
    DirsApart(f);
    KidsApart(f.kids, p);
    DirFrame(s, s', Cells(f) - Cells(Kids(f, p)) - {p}, f.name, f.cluster);
    GraftStored(s, s', f.cluster, 1, f.kids, p, k);
    GraftAbsent(f.rest, p, k);
    StoredFrame(s, s', d, i + 1, f.rest);
  }

  lemma {:induction false} GraftAfter(s: State, s': State, d: nat, i: nat, f: Slots, p: nat, k: Slots)
    requires d < 2048 && Stored(s, d, i, f) && Apart(f) && f.Dir? && f.cluster != p && p in Dirs(f.rest)
    requires forall m :: i <= m < 64 ==> TableAt(s', d)[m] == TableAt(s, d)[m]
    requires Same(s, s', Cells(f) - Cells(Kids(f, p)) - {p})
    requires p < 512 && Stored(s', p, 1, k)
    requires forall name :: DirStored(s, name, p) ==> DirStored(s', name, p)
    ensures Stored(s', d, i, Graft(f, p, k))
    decreases f, 0
  {
    hide DecodeTable, TableAt, DirEntry, FileEntry, FileStored, DirStored;
    DirsAreCells(f.rest);
    DirsApart(f);
    KidsApart(f.rest, p);
    DirFrame(s, s', Cells(f) - Cells(Kids(f, p)) - {p}, f.name, f.cluster);
    StoredFrame(s, s', f.cluster, 1, f.kids);
    GraftAbsent(f.kids, p, k);
    GraftStored(s, s', d, i + 1, f.rest, p, k);
  }

  lemma KidsInDirs(f: Slots, p: nat)
    ensures Dirs(Kids(f, p)) <= Dirs(f)
  {
    match f
    case End =>
    case Free(rest) => KidsInDirs(rest, p);
    case File(_, _, _, _, _, rest) => KidsInDirs(rest, p);
    case Dir(_, _, kids, rest) => KidsInDirs(kids, p); KidsInDirs(rest, p);
  }

  lemma {:induction false} KidsOfGraft(f: Slots, p: nat, g: Slots, q: nat)
    requires p in Dirs(f) && q !in Dirs(f) && q in Dirs(g)
    ensures q in Dirs(Graft(f, p, g)) && Kids(Graft(f, p, g), q) == Kids(g, q)
  {
    match f
    case Free(rest) => KidsOfGraft(rest, p, g, q);
    case File(_, _, _, _, _, rest) => KidsOfGraft(rest, p, g, q);
    case Dir(_, c, kids, rest) =>
      if c == p {
      } else if p in Dirs(kids) {
        KidsOfGraft(kids, p, g, q);
      } else {
        GraftAbsent(kids, p, g);
        KidsOfGraft(rest, p, g, q);
      }
  }

  // ----- names -----

  ghost predicate HasFolder(f: Slots, name: Name) {
    f != End && ((f.Dir? && f.name == name) || HasFolder(f.rest, name))
  }

  lemma {:induction false} FolderAt(s: State, d: nat, i: nat, f: Slots, j: nat)
    requires d < 2048 && Stored(s, d, i, f) && i <= j < 64 && Slot(f, i, j).Dir?
    ensures HasFolder(f, Slot(f, i, j).name)
    decreases f
  {
    hide DecodeTable, FileStored, DirStored, FileEntry, DirEntry;
    if i < j { FolderAt(s, d, i + 1, f.rest, j); }
  }

  ghost function Depth(f: Slots): nat {
    match f
    case End => 0
    case Free(rest) => Depth(rest)
    case File(_, _, _, _, _, rest) => Depth(rest)
    case Dir(_, _, kids, rest) => if 1 + Depth(kids) > Depth(rest) then 1 + Depth(kids) else Depth(rest)
  }
}
