// Editing one slot of one directory of a represented tree, and the fact that a state stores at
// most one tree.
module Edits {
  import opened Layout
  import opened Chains
  import opened Calls
  import opened Tree
  import opened TreeFacts

  /** The name directory `q` stores for itself. */
  function OwnNameOf(s: State, q: nat): Name
    requires q < 2048
  {
    TableAt(s, q)[0].name
  }

  /** Slot `j` of directory `p`. */
  ghost function SlotAt(t: Slots, p: nat, j: nat): Slots {
    Slot(Kids(t, p), 1, j)
  }

  /** The tree with slot `j` of directory `p` replaced by `x`. */
  ghost function Edit(t: Slots, p: nat, j: nat, x: Slots): Slots {
    Graft(t, p, Put(Kids(t, p), 1, j, x))
  }

  lemma DirectoryStored(s: State, t: Slots, p: nat) returns (name: Name)
    requires RootStored(s, t) && p in Dirs(t)
    ensures DirStored(s, name, p) && Stored(s, p, 1, Kids(t, p))
  {
    if p == 2 { name := ROOT_NAME; } else { name := KidsStored(s, 2, 1, t.kids, p); }
  }

  /** How the loops over a table tell the kinds of slot apart, and what they take from an entry. */
  lemma SlotKind(s: State, y: Slots)
    requires Single(y) && SingleStored(s, y)
    ensures var e := EntryOf(s, y);
            && (y.Free? <==> e.userAttribute != UATTR_NOT_EMPTY)
            && (y.Dir? ==> e.attribute != ATTR_ARCHIVE && e.name == y.name && Head(e) == y.cluster)
            && (y.File? ==> e.attribute == ATTR_ARCHIVE && e.name == y.name && e.ext == y.ext && e.filesize == y.size)
  {
  }

  lemma SlotAtStored(s: State, t: Slots, p: nat, j: nat)
    requires RootStored(s, t) && p in Dirs(t) && 1 <= j < 64
    ensures 2 <= p < 512
    ensures var x := SlotAt(t, p, j);
            && Single(x) && SingleStored(s, x) && TableAt(s, p)[j] == EntryOf(s, x)
    ensures Apart(t) ==>
              && Apart(SlotAt(t, p, j)) && p !in Cells(SlotAt(t, p, j))
              && Cells(SlotAt(t, p, j)) <= Cells(t) && Dirs(SlotAt(t, p, j)) <= Dirs(t)
  {
    var _ := DirectoryStored(s, t, p);
    SlotStored(s, p, 1, Kids(t, p), j);
    if Apart(t) { KidsApart(t, p); }
  }

  /** A driver call that rewrites one slot of `p`'s table, and otherwise touches only the cells of
      the old and the new content of that slot, edits the stored tree at that slot. */
  lemma EditStored(s: State, s': State, t: Slots, p: nat, j: nat, x: Slots)
    requires RootStored(s, t) && Apart(t) && p in Dirs(t) && 1 <= j < 64 && p < 512
    requires Single(x) && SingleStored(s', x) && Apart(x)
    requires Cells(x) !! (Cells(t) - Cells(SlotAt(t, p, j)))
    requires Same(s, s', Cells(t) - Cells(SlotAt(t, p, j)) - {p})
    requires s'.fat[p] == s.fat[p] && TableAt(s', p) == TableAt(s, p)[j := EntryOf(s', x)]
    ensures var t' := Edit(t, p, j, x);
            && RootStored(s', t') && Apart(t')
            && Cells(t') == Cells(t) - Cells(SlotAt(t, p, j)) + Cells(x)
  {
    hide DecodeTable, DirEntry, FileEntry, FileStored, DirStored, Stored;
    var kids := Kids(t, p);
    var g := Put(kids, 1, j, x);
    SlotAtStored(s, t, p, j);
    KidsApart(t, p);
    DirsAreCells(t);
    var name := DirectoryStored(s, t, p);
    SlotStored(s, p, 1, kids, j);
    PutStored(s, s', p, 1, kids, j, x);
    PutCells(s, p, 1, kids, j, x);
    EditRoot(s, s', t, p, j, g);
    GraftCells(t, p, g);
    GraftApart(t, p, g);
  }

  lemma EditRoot(s: State, s': State, t: Slots, p: nat, j: nat, g: Slots)
    requires RootStored(s, t) && Apart(t) && p in Dirs(t) && 1 <= j < 64 && p < 512
    requires Same(s, s', Cells(t) - Cells(Kids(t, p)) - {p}) && Stored(s', p, 1, g)
    requires s'.fat[p] == s.fat[p] && TableAt(s', p)[0] == TableAt(s, p)[0]
    ensures RootStored(s', Graft(t, p, g))
  {
    hide DecodeTable, DirEntry, FileEntry, FileStored;
    if p != 2 {
      KidsApart(t.kids, p);
      GraftStored(s, s', 2, 1, t.kids, p, g);
    }
  }

  lemma EditDirs(s: State, t: Slots, p: nat, j: nat, x: Slots)
    requires RootStored(s, t) && Apart(t) && p in Dirs(t) && 1 <= j < 64 && Single(x)
    ensures Dirs(Edit(t, p, j, x)) == Dirs(t) - Dirs(SlotAt(t, p, j)) + Dirs(x)
  {
    hide DecodeTable, DirEntry, FileEntry, FileStored, DirStored, Stored;
    var kids := Kids(t, p);
    var _ := DirectoryStored(s, t, p);
    SlotAtStored(s, t, p, j);
    KidsApart(t, p);
    SlotStored(s, p, 1, kids, j);
    PutDirs(s, p, 1, kids, j, x);
    GraftDirs(t, p, Put(kids, 1, j, x));
  }

  // ----- a state stores at most one tree -----

  lemma {:induction false} StoredUnique(s: State, d: nat, i: nat, f: Slots, g: Slots)
    requires d < 2048 && Stored(s, d, i, f) && Stored(s, d, i, g)
    ensures f == g
    decreases f
  {
    match f
    case End =>
    case Free(rest) => StoredUnique(s, d, i + 1, rest, g.rest);
    case File(_, _, _, ch, blocks, rest) =>
      assert Head(TableAt(s, d)[i]) == ch[0] == g.chain[0];
      ChainUnique(s.fat, ch[0], ch, g.chain);
      assert blocks == g.blocks;
      StoredUnique(s, d, i + 1, rest, g.rest);
    case Dir(_, c, kids, rest) =>
      assert Head(TableAt(s, d)[i]) == c == g.cluster;
      StoredUnique(s, c, 1, kids, g.kids);
      StoredUnique(s, d, i + 1, rest, g.rest);
  }

  lemma TreeUnique(s: State, t: Slots, u: Slots)
    requires RootStored(s, t) && RootStored(s, u)
    ensures t == u
  {
    StoredUnique(s, 2, 1, t.kids, u.kids);
  }
}
