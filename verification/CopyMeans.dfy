// What it means for a user that a directory has been copied: the copy lists the same entries in the same
// order, at every depth, and every name the source delivers the copy delivers with the same contents.
module CopyMeans {
  import opened Layout
  import opened Calls
  import opened Tree
  import opened TreeFacts
  import opened Edits
  import opened Locality
  import opened Refinement
  import opened Moving
  import opened ReadBack
  import opened Accounting
  import opened Copying

  /** The n-th live entry; a free slot when there are fewer. */
  function NthLive(f: Slots, n: nat): Slots
    decreases f
  {
    match f
    case End => Free(End)
    case Free(rest) => NthLive(rest, n)
    case File(_, _, _, _, _, rest) => if n == 0 then SetRest(f, End) else NthLive(rest, n - 1)
    case Dir(_, _, _, rest) => if n == 0 then SetRest(f, End) else NthLive(rest, n - 1)
  }

  /** Equal up to cells: the n-th entries are files of one name, extension, size and contents, or
      directories of one name that are equal in the same way. */
  lemma {:induction false} ErasedAlike(f: Slots, g: Slots, n: nat)
    requires Erase(f) == Erase(g)
    ensures var x, y := NthLive(f, n), NthLive(g, n);
            && (x.Free? <==> y.Free?) && (x.File? <==> y.File?) && (x.Dir? <==> y.Dir?)
            && (x.File? ==> y.File? && x.name == y.name && x.ext == y.ext && x.size == y.size && x.blocks == y.blocks)
            && (x.Dir? ==> y.Dir? && x.name == y.name && Erase(x.kids) == Erase(y.kids))
    decreases f, g
  {
    if f.Free? {
      ErasedAlike(f.rest, g, n);
    } else if g.Free? {
      ErasedAlike(f, g.rest, n);
    } else if f != End && g != End && n > 0 {
      ErasedAlike(f.rest, g.rest, n - 1);
    }
  }

  /** The first entry with this name and extension; a free slot when there is none. */
  ghost function FirstMatch(f: Slots, name: Name, ext: Ext): Slots
    decreases f
  {
    if f == End then Free(End)
    else if Matches(SetRest(f, End), name, ext) then SetRest(f, End)
    else FirstMatch(f.rest, name, ext)
  }

  lemma {:induction false} SameFirstMatch(f: Slots, g: Slots, name: Name, ext: Ext)
    requires Erase(f) == Erase(g)
    ensures var x, y := FirstMatch(f, name, ext), FirstMatch(g, name, ext);
            (x.File? <==> y.File?) && (x.File? ==> x.blocks == y.blocks)
    decreases f, g
  {
    if f.Free? {
      SameFirstMatch(f.rest, g, name, ext);
    } else if g.Free? {
      SameFirstMatch(f, g.rest, name, ext);
    } else if f != End && g != End {
      SameFirstMatch(f.rest, g.rest, name, ext);
    }
  }

  lemma {:induction false} FirstMatchFound(s: State, d: nat, i: nat, f: Slots, name: Name, ext: Ext)
    requires d < 2048 && Stored(s, d, i, f) && i <= 64 && name != NO_NAME
    ensures var k := FindEntry(TableAt(s, d), name, ext, i);
            FirstMatch(f, name, ext) == if k < 64 then Slot(f, i, k) else Free(End)
    decreases f
  {
    hide DecodeTable, FileStored, DirStored;
    if f != End {
      FirstMatchFound(s, d, i + 1, f.rest, name, ext);
      assert Matches(SetRest(f, End), name, ext) <==> TableAt(s, d)[i].name == name && TableAt(s, d)[i].ext == ext;
    }
  }

  /** Directories that are equal up to cells deliver the same names with the same contents. */
  lemma EqualDeliver(s: State, t: Slots, p: nat, s': State, t': Slots, q: nat, name: Name, ext: Ext, blocks: seq<Cluster>)
    requires RootStored(s, t) && RootStored(s', t') && q in Dirs(t') && q < 2048
    requires Erase(Kids(t, p)) == Erase(Kids(t', q)) && Delivers(s, t, p, name, ext, blocks)
    ensures Delivers(s', t', q, name, ext, blocks)
  {
    hide DecodeTable, FileStored, DirStored, RootStored, Stored, Erase, TableAt;
    var _ := DirectoryStored(s, t, p);
    var _ := DirectoryStored(s', t', q);
    FirstMatchFound(s, p, 1, Kids(t, p), name, ext);
    FirstMatchFound(s', q, 1, Kids(t', q), name, ext);
    SameFirstMatch(Kids(t, p), Kids(t', q), name, ext);
  }

  /** The copy is a directory of its own in the tree, of the same name, and `read` finds in it under every
      name what it finds in the source. */
  lemma CopyDelivers(s: State, s': State, t: Slots, dest: nat, x: Slots, copy: Slots, name: Name, ext: Ext, blocks: seq<Cluster>)
    requires Represents(s, t) && Copied(s, s', t, dest, x, copy) && dest in Dirs(t)
    requires 1 <= FindFree(TableAt(s, dest), 0) < 64 && x.Dir? && x.cluster < 2048
    requires x.kids == Kids(t, x.cluster) && Delivers(s, t, x.cluster, name, ext, blocks)
    ensures var t' := Edit(t, dest, FindFree(TableAt(s, dest), 0), copy);
            && copy.Dir? && copy.name == x.name && copy.cluster in Dirs(t') && copy.cluster < 512
            && Kids(t', copy.cluster) == copy.kids
            && Delivers(s', t', copy.cluster, name, ext, blocks)
  {
    hide DecodeTable, FileStored, DirStored, Stored, TableAt, Edit, FindFree, Delivers, Untouched, Synced, Room, CellCount,
         Represents, SlotAt, Kids;
    RepresentsRoot(s, t);
    var j := FindFree(TableAt(s, dest), 0);
    var t' := Edit(t, dest, j, copy);
    RepresentsRoot(s', t');
    SlotFilled(s, t, dest, j, copy);
    KidsOfSlotAt(s', t', dest, j, copy.cluster);
    TreeInRange(s', t');
    DirsAreCells(t');
    OwnKids(copy);
    EqualDeliver(s, t, x.cluster, s', t', copy.cluster, name, ext, blocks);
  }

  lemma OwnKids(x: Slots)
    requires x.Dir?
    ensures Kids(x, x.cluster) == x.kids && x.cluster in Dirs(x)
  {
  }
}
