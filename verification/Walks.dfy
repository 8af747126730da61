// Exactly when the walk of `where_is` is right: every call of the recursion lists what the directory on
// top of its stack lists.
module Walks {
  import opened Layout
  import opened Calls
  import opened Tree
  import opened TreeFacts
  import opened Edits
  import opened Moving
  import opened Paths
  import opened Search
  import opened Trails

  // ----- one call -----

  /** The call with this stack reads the table of `x`, a directory with the name on top. */
  ghost predicate CallReads(s: State, t: Slots, path: seq<Level>, x: nat) {
    && Live(t, path) && |path| <= 255 && x in Dirs(t) && x < 512
    && var top := path[|path| - 1];
       && DirStored(s, top.name, x) && DirStored(s, top.name, top.number)
       && Above(path) < 512
       && LookupDir(s, Request(top.name, NO_EXT, Above(path), 0)) == (0, x)
  }

  lemma RootCall(s: State, t: Slots)
    requires Represents(s, t)
    ensures CallReads(s, t, [Level(2, ROOT_NAME)], 2)
  {
    hide DecodeTable, Stored, FileStored;
    assert FindDir(TableAt(s, 2), ROOT_NAME, 0) == 0;
  }

  /** The call for an entry of `x` looks its name up in the directory on top of the caller's stack. */
  lemma NestedCall(s: State, t: Slots, path: seq<Level>, x: nat, name: Name, c: nat)
    requires Represents(s, t) && CallReads(s, t, path, x) && |path| < 255
    requires c in Dirs(t) && c < 512 && DirStored(s, name, c)
    ensures var inner, y := path + [Level(c, name)], path[|path| - 1];
            var (code, x') := LookupDir(s, Request(name, NO_EXT, y.number, 0));
            && Above(inner) == y.number < 512
            && (code == 0 ==> CallReads(s, t, inner, x'))
            && (name == y.name ==> code == 0 && x' == y.number)
            && (code == 0 && name != y.name ==> IsChild(t, y.number, name, x'))
            && (code != 0 ==> !exists c' :: IsChild(t, y.number, name, c'))
  {
    hide DecodeTable, Stored, FileStored, Represents, TableAt, IsChild, RootStored, Dirs;
    var y := path[|path| - 1];
    NameIsNotNull(s, c, name);
    Resolution(s, t, y.number, y.name, name);
    var (code, x') := LookupDir(s, Request(name, NO_EXT, y.number, 0));
    if code == 0 && name != y.name { ChildIsNamed(s, t, y.number, name, x'); }
  }

  lemma ChildIsNamed(s: State, t: Slots, p: nat, name: Name, c: nat)
    requires Represents(s, t) && p in Dirs(t) && IsChild(t, p, name, c)
    ensures DirStored(s, name, c)
    ensures exists k :: 1 <= k < 64 && SlotAt(t, p, k).Dir? && SlotAt(t, p, k).name == name
                        && SlotAt(t, p, k).kids == Kids(t, c)
  {
    hide DecodeTable, Stored, FileStored, DirStored;
    RepresentsRoot(s, t);
    var m :| ListsChild(t, p, m, name, c);
    SlotAtStored(s, t, p, m);
    var z := SlotAt(t, p, m);
    DirectoryHead(s, t, c);
    KidsAre(s, t, c, z.kids);
  }

  lemma KidsAre(s: State, t: Slots, c: nat, kids: Slots)
    requires RootStored(s, t) && c in Dirs(t) && c < 2048 && Stored(s, c, 1, kids)
    ensures kids == Kids(t, c)
  {
    var _ := DirectoryStored(s, t, c);
    StoredUnique(s, c, 1, kids, Kids(t, c));
  }

  // ----- right calls -----

  /** The call compares exactly the entries the directory on top of the stack holds, and so does every
      call it makes. */
  ghost predicate Right(s: State, t: Slots, path: seq<Level>)
    decreases 256 - |path|
  {
    && Live(t, path) && |path| <= 255
    && var y := path[|path| - 1].number;
       && Trail(s, path) == Some(Visits(Kids(t, y), NamesOf(path)))
       && var x := LookupDir(s, Request(path[|path| - 1].name, NO_EXT, Above(path), 0)).1;
          x < 2048 &&
          forall i :: 1 <= i < 64 && IsFolder(TableAt(s, x)[i]) ==> RightBelow(s, t, path, TableAt(s, x)[i])
  }

  ghost predicate RightBelow(s: State, t: Slots, path: seq<Level>, e: Entry)
    requires |path| <= 255
    decreases 256 - |path|, 0
  {
    Right(s, t, Pushed(path, e))
  }

  // ----- right calls need the condition -----

  /** What the right calls for the directories of `f` tell about the directory `y` on top of the stack. */
  ghost predicate Echo(s: State, t: Slots, y: nat, own: Name, depth: nat, f: Slots)
    requires y < 512
  {
    match f
    case End => true
    case Free(rest) => Echo(s, t, y, own, depth, rest)
    case File(_, _, _, _, _, rest) => Echo(s, t, y, own, depth, rest)
    case Dir(name, _, kids, rest) =>
      && (var x := LookupDir(s, Request(name, NO_EXT, y, 0)).1;
          Listing(Kids(t, x)) == Listing(kids) && (name == own ==> x == y))
      && Findable(name, kids) && depth + 1 + Depth(kids) <= 255
      && Echo(s, t, y, own, depth, rest)
  }

  /** A right call reads a directory that lists the same as the one on top, and that is findable. */
  lemma {:induction false} RightNeeds(s: State, t: Slots, path: seq<Level>, x: nat)
    requires Represents(s, t) && CallReads(s, t, path, x) && Right(s, t, path)
    ensures Listing(Kids(t, x)) == Listing(Kids(t, path[|path| - 1].number))
    ensures Findable(path[|path| - 1].name, Kids(t, x)) && |path| + Depth(Kids(t, x)) <= 255
    decreases 256 - |path|, 1
  {
    hide DecodeTable, Represents, TableAt, DirStored, Stored, Trail, TrailFrom, Visits, LookupDir, Findable;
    RepresentsRoot(s, t);
    var _ := DirectoryStored(s, t, x);
    var y, f := path[|path| - 1], Kids(t, x);
    assert Trail(s, path) == TrailFrom(s, TableAt(s, x), 1, path) by { TrailReads(s, t, path, x); }
    KidsInDirs(t, x);
    RightSlots(s, t, path, x, 1, f);
    TrailOnTree(s, x, 1, f, path);
    VisitsDetermine(f, Kids(t, y.number), NamesOf(path));
    SameListing(y.name, f, Kids(t, y.number));
    EchoFindable(s, t, y.number, y.name, |path|, f);
  }

  lemma TrailReads(s: State, t: Slots, path: seq<Level>, x: nat)
    requires CallReads(s, t, path, x)
    ensures Trail(s, path) == TrailFrom(s, TableAt(s, x), 1, path)
  {
    hide LookupDir, TrailFrom, DirStored;
  }

  lemma {:induction false} RightSlots(s: State, t: Slots, path: seq<Level>, x: nat, i: nat, f: Slots)
    requires Represents(s, t) && CallReads(s, t, path, x) && Stored(s, x, i, f) && 1 <= i <= 64 && Dirs(f) <= Dirs(t)
    requires forall m :: i <= m < 64 && IsFolder(TableAt(s, x)[m]) ==> RightBelow(s, t, path, TableAt(s, x)[m])
    ensures TrailOf(s, f, path) == Some(Visits(f, NamesOf(path)))
    ensures Echo(s, t, path[|path| - 1].number, path[|path| - 1].name, |path|, f)
    decreases 256 - |path|, 0, f
  {
    hide DecodeTable, Represents, TableAt, DirStored, FileStored, Trail, LookupDir, Findable, RightBelow, Head;
    if f != End {
      FolderEntry(s, x, i, f);
      RightSlots(s, t, path, x, i + 1, f.rest);
      if f.Dir? { RightFolder(s, t, path, x, i, f); }
    }
  }

  lemma {:induction false} RightFolder(s: State, t: Slots, path: seq<Level>, x: nat, i: nat, f: Slots)
    requires Represents(s, t) && CallReads(s, t, path, x) && Stored(s, x, i, f) && 1 <= i < 64 && Dirs(f) <= Dirs(t)
    requires f.Dir? && IsFolder(TableAt(s, x)[i]) && RightBelow(s, t, path, TableAt(s, x)[i])
    ensures Trail(s, path + [Level(f.cluster, f.name)]) == Some(Visits(f.kids, NamesOf(path) + [f.name]))
    ensures var y := path[|path| - 1];
            var (code, x') := LookupDir(s, Request(f.name, NO_EXT, y.number, 0));
            && Listing(Kids(t, x')) == Listing(f.kids) && (f.name == y.name ==> x' == y.number)
            && Findable(f.name, f.kids) && |path| + 1 + Depth(f.kids) <= 255
    decreases 256 - |path|, 0, f, 0
  {
    hide DecodeTable, Represents, TableAt, FileStored, LookupDir, Findable, Visits, TrailFrom, Listing;
    FolderEntry(s, x, i, f);
    var inner := path + [Level(f.cluster, f.name)];
    assert Right(s, t, inner);
    assert NamesOf(inner) == NamesOf(path) + [f.name];
    NestedCall(s, t, path, x, f.name, f.cluster);
    RepresentsRoot(s, t);
    KidsAre(s, t, f.cluster, f.kids);
    var (code, x') := LookupDir(s, Request(f.name, NO_EXT, path[|path| - 1].number, 0));
    RightNeeds(s, t, inner, x');
    SameListing(f.name, Kids(t, x'), f.kids);
  }

  lemma SameListing(name: Name, f: Slots, g: Slots)
    requires Listing(f) == Listing(g)
    ensures Findable(name, f) == Findable(name, g) && Depth(f) == Depth(g)
    ensures |Visits(f, [])| == |Visits(g, [])|
  {
    FindableOfListing(name, f);
    FindableOfListing(name, g);
    DepthOfListing(f);
    DepthOfListing(g);
    VisitsOfListing(f, []);
    VisitsOfListing(g, []);
  }

  lemma {:induction false} EchoAlike(s: State, t: Slots, y: nat, own: Name, depth: nat, f: Slots, name: Name)
    requires y < 512 && Echo(s, t, y, own, depth, f)
    ensures Alike(f, name, Listing(Kids(t, LookupDir(s, Request(name, NO_EXT, y, 0)).1)))
  {
    hide LookupDir, Findable;
    if f != End { EchoAlike(s, t, y, own, depth, f.rest, name); }
  }

  lemma {:induction false} VisitsCount(f: Slots, names: seq<Name>)
    ensures |Visits(f, names)| == |Visits(f, [])|
    decreases f
  {
    if f != End {
      VisitsCount(f.rest, names);
      if f.Dir? {
        VisitsCount(f.kids, names + [f.name]);
        VisitsCount(f.kids, [] + [f.name]);
      }
    }
  }

  lemma {:induction false} EchoFindable(s: State, t: Slots, y: nat, own: Name, depth: nat, f: Slots)
    requires y < 512 && Echo(s, t, y, own, depth, f) && depth <= 255
    requires |Visits(f, [])| <= |Visits(Kids(t, y), [])|
    ensures Findable(own, f) && depth + Depth(f) <= 255
  {
    hide LookupDir, Listing;
    if f != End {
      EchoFindable(s, t, y, own, depth, f.rest);
      if f.Dir? {
        EchoAlike(s, t, y, own, depth, f.rest, f.name);
        VisitsCount(f.kids, [f.name]);
        assert [] + [f.name] == [f.name];
        if f.name == own {
          SameListing(own, Kids(t, y), f.kids);
          assert false;
        }
      }
    }
  }

  // ----- the condition is enough -----

  ghost predicate HasListed(g: Slots, name: Name, l: Slots) {
    g != End && ((g.Dir? && g.name == name && Listing(g.kids) == l) || HasListed(g.rest, name, l))
  }

  /** Every directory of `f` has one of its name and listing in `g`. */
  ghost predicate SubListed(f: Slots, g: Slots) {
    f != End ==> SubListed(f.rest, g) && (f.Dir? ==> HasListed(g, f.name, Listing(f.kids)))
  }

  lemma {:induction false} SubListedRest(f: Slots, g: Slots)
    requires g != End && SubListed(f, g.rest)
    ensures SubListed(f, g)
  {
    if f != End { SubListedRest(f.rest, g); }
  }

  lemma {:induction false} SubListedSelf(f: Slots)
    ensures SubListed(f, f)
  {
    if f != End {
      SubListedSelf(f.rest);
      SubListedRest(f.rest, f);
    }
  }

  lemma {:induction false} HasListedOfListing(g: Slots, name: Name, l: Slots)
    ensures HasListed(g, name, l) == HasListed(Listing(g), name, l)
  {
    if g != End {
      HasListedOfListing(g.rest, name, l);
      if g.Dir? { ListingTwice(g.kids); }
    }
  }

  lemma {:induction false} SubListedLike(f: Slots, g: Slots, g': Slots)
    requires SubListed(f, g) && Listing(g) == Listing(g')
    ensures SubListed(f, g')
  {
    if f != End {
      SubListedLike(f.rest, g, g');
      if f.Dir? {
        HasListedOfListing(g, f.name, Listing(f.kids));
        HasListedOfListing(g', f.name, Listing(f.kids));
      }
    }
  }

  lemma {:induction false} AlikeListed(f: Slots, name: Name, a: Slots, l: Slots)
    requires Alike(f, name, a) && HasListed(f, name, l)
    ensures a == l
  {
    if !(f.Dir? && f.name == name && Listing(f.kids) == l) { AlikeListed(f.rest, name, a, l); }
  }

  lemma {:induction false} OneListing(own: Name, g: Slots, name: Name, a: Slots, b: Slots)
    requires Findable(own, g) && HasListed(g, name, a) && HasListed(g, name, b)
    ensures a == b
  {
    if g.Dir? && g.name == name {
      if HasListed(g.rest, name, a) { AlikeListed(g.rest, name, Listing(g.kids), a); }
      if HasListed(g.rest, name, b) { AlikeListed(g.rest, name, Listing(g.kids), b); }
    } else {
      OneListing(own, g.rest, name, a, b);
    }
  }

  lemma {:induction false} SlotListed(s: State, d: nat, i: nat, g: Slots, own: Name, k: nat)
    requires d < 2048 && Stored(s, d, i, g) && Findable(own, g) && i <= k < 64 && Slot(g, i, k).Dir?
    ensures HasListed(g, Slot(g, i, k).name, Listing(Slot(g, i, k).kids))
    ensures Findable(Slot(g, i, k).name, Slot(g, i, k).kids)
    decreases g
  {
    hide DecodeTable, FileStored, DirStored, FileEntry, DirEntry, Listing;
    if i < k { SlotListed(s, d, i + 1, g.rest, own, k); }
  }

  lemma {:induction false} ListedSlot(s: State, d: nat, i: nat, g: Slots, name: Name, l: Slots) returns (k: nat)
    requires d < 2048 && Stored(s, d, i, g) && HasListed(g, name, l)
    ensures i <= k < 64 && Slot(g, i, k).Dir? && Slot(g, i, k).name == name
    decreases g
  {
    hide DecodeTable, FileStored, DirStored, FileEntry, DirEntry, Listing;
    if g.Dir? && g.name == name { k := i; } else { k := ListedSlot(s, d, i + 1, g.rest, name, l); }
  }

  /** A name listed in `y` opens a directory of that name with the same listing. */
  lemma ListedOpens(s: State, t: Slots, y: nat, own: Name, name: Name, l: Slots)
    requires Represents(s, t) && y in Dirs(t) && y < 512 && DirStored(s, own, y) && Findable(own, Kids(t, y))
    requires HasListed(Kids(t, y), name, l) && name != own && name != NO_NAME
    ensures var (code, x) := LookupDir(s, Request(name, NO_EXT, y, 0));
            code == 0 && Listing(Kids(t, x)) == l && Findable(name, Kids(t, x))
  {
    hide DecodeTable, FileStored, DirStored, Stored, LookupDir, Represents, Findable, HasListed, Listing;
    RepresentsRoot(s, t);
    var _ := DirectoryStored(s, t, y);
    Resolution(s, t, y, own, name);
    var k := ListedSlot(s, y, 1, Kids(t, y), name, l);
    assert ListsChild(t, y, k, name, SlotAt(t, y, k).cluster);
    assert IsChild(t, y, name, SlotAt(t, y, k).cluster);
    var x := LookupDir(s, Request(name, NO_EXT, y, 0)).1;
    ChildIsNamed(s, t, y, name, x);
    var j :| 1 <= j < 64 && SlotAt(t, y, j).Dir? && SlotAt(t, y, j).name == name && SlotAt(t, y, j).kids == Kids(t, x);
    SlotListed(s, y, 1, Kids(t, y), own, j);
    OneListing(own, Kids(t, y), name, l, Listing(Kids(t, x)));
  }

  lemma {:induction false} FindableIsRight(s: State, t: Slots, path: seq<Level>, x: nat)
    requires Represents(s, t) && CallReads(s, t, path, x)
    requires var y := path[|path| - 1];
             && Listing(Kids(t, x)) == Listing(Kids(t, y.number))
             && Findable(y.name, Kids(t, x)) && Findable(y.name, Kids(t, y.number))
    requires |path| + Depth(Kids(t, x)) <= 255
    ensures Right(s, t, path)
    decreases 256 - |path|, 1
  {
    hide DecodeTable, Represents, TableAt, DirStored, Stored, Trail, TrailFrom, Visits, LookupDir, Findable, RightBelow;
    RepresentsRoot(s, t);
    var _ := DirectoryStored(s, t, x);
    var y, f := path[|path| - 1], Kids(t, x);
    TrailReads(s, t, path, x);
    KidsInDirs(t, x);
    SubListedSelf(f);
    SubListedLike(f, f, Kids(t, y.number));
    FindableSlots(s, t, path, x, 1, f);
    TrailOnTree(s, x, 1, f, path);
    VisitsOfListing(f, NamesOf(path));
    VisitsOfListing(Kids(t, y.number), NamesOf(path));
  }

  lemma {:induction false} FindableSlots(s: State, t: Slots, path: seq<Level>, x: nat, i: nat, f: Slots)
    requires Represents(s, t) && CallReads(s, t, path, x) && Stored(s, x, i, f) && 1 <= i <= 64 && Dirs(f) <= Dirs(t)
    requires var y := path[|path| - 1];
             Findable(y.name, Kids(t, y.number)) && Findable(y.name, f) && SubListed(f, Kids(t, y.number))
    requires |path| + Depth(f) <= 255
    ensures TrailOf(s, f, path) == Some(Visits(f, NamesOf(path)))
    ensures forall m :: i <= m < 64 && IsFolder(TableAt(s, x)[m]) ==> RightBelow(s, t, path, TableAt(s, x)[m])
    decreases 256 - |path|, 0, f
  {
    hide DecodeTable, Represents, TableAt, DirStored, FileStored, Trail, LookupDir, RightBelow, Head, HasListed,
         Alike, Kids;
    if f != End {
      FolderEntry(s, x, i, f);
      FindableSlots(s, t, path, x, i + 1, f.rest);
      if f.Dir? { FindableFolder(s, t, path, x, i, f); }
    }
  }

  lemma {:induction false} FindableFolder(s: State, t: Slots, path: seq<Level>, x: nat, i: nat, f: Slots)
    requires Represents(s, t) && CallReads(s, t, path, x) && Stored(s, x, i, f) && 1 <= i < 64 && Dirs(f) <= Dirs(t)
    requires f.Dir? && |path| + 1 + Depth(f.kids) <= 255
    requires var y := path[|path| - 1];
             && f.name != y.name && Findable(f.name, f.kids) && Findable(y.name, Kids(t, y.number))
             && HasListed(Kids(t, y.number), f.name, Listing(f.kids))
    ensures Trail(s, path + [Level(f.cluster, f.name)]) == Some(Visits(f.kids, NamesOf(path) + [f.name]))
    ensures RightBelow(s, t, path, TableAt(s, x)[i])
    decreases 256 - |path|, 0, f, 0
  {
    hide DecodeTable, Represents, TableAt, FileStored, LookupDir, Findable, Visits, TrailFrom, Listing, HasListed, Head;
    FolderEntry(s, x, i, f);
    var y, inner := path[|path| - 1], path + [Level(f.cluster, f.name)];
    assert NamesOf(inner) == NamesOf(path) + [f.name];
    NestedCall(s, t, path, x, f.name, f.cluster);
    NameIsNotNull(s, f.cluster, f.name);
    RepresentsRoot(s, t);
    KidsAre(s, t, f.cluster, f.kids);
    ListedOpens(s, t, y.number, y.name, f.name, Listing(f.kids));
    var x' := LookupDir(s, Request(f.name, NO_EXT, y.number, 0)).1;
    SameListing(f.name, Kids(t, x'), f.kids);
    FindableIsRight(s, t, inner, x');
    assert Pushed(path, TableAt(s, x)[i]) == inner;
  }

  // ----- the theorem -----

  /** Every call of the walk from the root compares exactly the entries of the directory on top of its
      stack, exactly when no directory lists one with its own name, directories of one name side by side
      list the same, and no directory lies deeper than the one-byte stack length can count. */
  lemma WalkIsRightIff(s: State, t: Slots)
    requires Represents(s, t)
    ensures Right(s, t, [Level(2, ROOT_NAME)]) <==> Findable(ROOT_NAME, t.kids) && Depth(t.kids) <= 254
  {
    hide Represents, Right, Findable;
    RootCall(s, t);
    RepresentsRoot(s, t);
    assert Kids(t, 2) == t.kids;
    if Right(s, t, [Level(2, ROOT_NAME)]) {
      RightNeeds(s, t, [Level(2, ROOT_NAME)], 2);
    } else if Findable(ROOT_NAME, t.kids) && Depth(t.kids) <= 254 {
      FindableIsRight(s, t, [Level(2, ROOT_NAME)], 2);
    }
  }

  /** Then the search prints, for every target, exactly the lines of the matching entries. */
  lemma WalkFindsAll(s: State, t: Slots, target: seq<byte>, targetExt: seq<byte>)
    requires Represents(s, t) && Findable(ROOT_NAME, t.kids) && Depth(t.kids) <= 254
    ensures var found := Trail(s, [Level(2, ROOT_NAME)]);
            && found == Some(Visits(t.kids, [ROOT_NAME]))
            && Printed(found.value, target, targetExt) == Lines(t.kids, [ROOT_NAME], target, targetExt)
  {
    hide Represents, Findable, Visits, Trail, Printed, Lines;
    WalkIsRightIff(s, t);
    RepresentsRoot(s, t);
    assert Kids(t, 2) == t.kids;
    assert NamesOf([Level(2, ROOT_NAME)]) == [ROOT_NAME];
    LinesArePrinted(t.kids, [ROOT_NAME], target, targetExt);
  }
}
