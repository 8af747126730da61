// Walks that go wrong, and one that goes wrong without showing it.
module WalkCases {
  import opened Layout
  import opened Calls
  import opened Tree
  import opened TreeFacts
  import opened Edits
  import opened Moving
  import opened ReadBack
  import opened Paths
  import opened Trails
  import opened Walks

  // ----- a directory with a child of its own name -----

  lemma {:induction false} NamesDiffer(s: State, d: nat, i: nat, f: Slots, own: Name, m: nat)
    requires d < 2048 && Stored(s, d, i, f) && Findable(own, f) && i <= m < 64 && Slot(f, i, m).Dir?
    ensures Slot(f, i, m).name != own
    decreases f
  {
    hide DecodeTable, FileStored, DirStored, FileEntry, DirEntry, Alike;
    if i < m { NamesDiffer(s, d, i + 1, f.rest, own, m); }
  }

  lemma {:induction false} FindableBelow(s: State, d: nat, i: nat, f: Slots, own: Name, q: nat)
    requires d < 2048 && Stored(s, d, i, f) && Findable(own, f) && q in Dirs(f) && q < 512
    ensures Findable(OwnNameOf(s, q), Kids(f, q))
    decreases f
  {
    hide DecodeTable, FileStored, FileEntry, Alike;
    match f
    case Free(rest) => FindableBelow(s, d, i + 1, rest, own, q);
    case File(_, _, _, _, _, rest) => FindableBelow(s, d, i + 1, rest, own, q);
    case Dir(name, c, kids, rest) =>
      if c != q {
        if q in Dirs(kids) { FindableBelow(s, c, 1, kids, name, q); } else { FindableBelow(s, d, i + 1, rest, own, q); }
      }
  }

  /** Wherever it lies, such a child makes the walk wrong. */
  lemma OwnNameMisleads(s: State, t: Slots, p: nat, m: nat)
    requires Represents(s, t) && p in Dirs(t) && p < 512 && 1 <= m < 64
    requires SlotAt(t, p, m).Dir? && SlotAt(t, p, m).name == OwnNameOf(s, p)
    ensures !Right(s, t, [Level(2, ROOT_NAME)])
  {
    hide DecodeTable, Represents, Right, Findable, Stored, FileStored;
    WalkIsRightIff(s, t);
    RepresentsRoot(s, t);
    if Findable(ROOT_NAME, t.kids) {
      var _ := DirectoryStored(s, t, p);
      if p != 2 { FindableBelow(s, 2, 1, t.kids, ROOT_NAME, p); } else { assert Kids(t, 2) == t.kids; }
      NamesDiffer(s, p, 1, Kids(t, p), OwnNameOf(s, p), m);
    }
  }

  /** The one directory a listing of one directory stands for. */
  lemma OnlyFolder(s: State, d: nat, i: nat, f: Slots, path: seq<Level>, name: Name, l: Slots)
    returns (m: nat, c: nat, kids: Slots)
    requires d < 2048 && Stored(s, d, i, f) && Listing(f) == Dir(name, 0, l, End)
    ensures i <= m < 64 && SetRest(Slot(f, i, m), End) == Dir(name, c, kids, End)
    ensures forall j :: i <= j < m ==> Slot(f, i, j).Free?
    ensures c in Dirs(f) && c < 512 && DirStored(s, name, c) && Stored(s, c, 1, kids) && Listing(kids) == l
    ensures TrailOf(s, f, path) ==
            Then(Some([Visit(NamesOf(path), true, name, NO_EXT)]), Trail(s, path + [Level(c, name)]))
  {
    hide DecodeTable, DirStored, FileStored, FileEntry, DirEntry, Trail, TrailOf, Slot, Dirs, Listing, Stored;
    var rest;
    m, c, kids, rest := FirstFolder(s, d, i, f, path, name, l, End);
    NothingListed(s, d, m + 1, rest, path);
    assert forall v: seq<Visit> :: v + [] == v;
  }

  /** The first of the directories a listing begins with. */
  lemma {:induction false} FirstFolder(s: State, d: nat, i: nat, f: Slots, path: seq<Level>, name: Name, l: Slots, r: Slots)
    returns (m: nat, c: nat, kids: Slots, rest: Slots)
    requires d < 2048 && Stored(s, d, i, f) && Listing(f) == Dir(name, 0, l, r)
    ensures i <= m < 64 && SetRest(Slot(f, i, m), End) == Dir(name, c, kids, End)
    ensures forall j :: i <= j < m ==> Slot(f, i, j).Free?
    ensures c in Dirs(f) && c < 512 && DirStored(s, name, c) && Stored(s, c, 1, kids) && Listing(kids) == l
    ensures Stored(s, d, m + 1, rest) && Listing(rest) == r && Dirs(rest) <= Dirs(f)
    ensures TrailOf(s, f, path) ==
            Then(Then(Some([Visit(NamesOf(path), true, name, NO_EXT)]), Trail(s, path + [Level(c, name)])),
                 TrailOf(s, rest, path))
    decreases f
  {
    hide DecodeTable, FileStored, FileEntry, DirEntry, Trail;
    if f.Dir? {
      m, c, kids, rest := i, f.cluster, f.kids, f.rest;
    } else {
      m, c, kids, rest := FirstFolder(s, d, i + 1, f.rest, path, name, l, r);
    }
  }

  lemma {:induction false} NothingListed(s: State, d: nat, i: nat, f: Slots, path: seq<Level>)
    requires Listing(f) == End
    ensures TrailOf(s, f, path) == Some([])
    decreases f
  {
    if f != End { NothingListed(s, d, i + 1, f.rest, path); }
  }

  lemma TrailIs(s: State, t: Slots, path: seq<Level>, x: nat)
    requires Represents(s, t) && CallReads(s, t, path, x)
    ensures Trail(s, path) == TrailOf(s, Kids(t, x), path)
    ensures Stored(s, x, 1, Kids(t, x)) && Dirs(Kids(t, x)) <= Dirs(t)
  {
    hide DecodeTable, Represents, TableAt, DirStored, Stored, Trail, TrailFrom, LookupDir;
    RepresentsRoot(s, t);
    var _ := DirectoryStored(s, t, x);
    TrailReads(s, t, path, x);
    TrailOnTree(s, x, 1, Kids(t, x), path);
    KidsInDirs(t, x);
  }

  /** The smallest case: a directory `p` that lists only an empty one of its own name. The walk reads `p`
      a second time for it, so the entry is compared twice and printed twice when it matches. */
  lemma OwnNameListedTwice(s: State, t: Slots, path: seq<Level>, p: nat)
    requires Represents(s, t) && CallReads(s, t, path, p) && path[|path| - 1].number == p && |path| <= 253
    requires Listing(Kids(t, p)) == Dir(path[|path| - 1].name, 0, End, End)
    ensures var name, names := path[|path| - 1].name, NamesOf(path);
            && Visits(Kids(t, p), names) == [Visit(names, true, name, NO_EXT)]
            && Trail(s, path) == Some([Visit(names, true, name, NO_EXT), Visit(names + [name], true, name, NO_EXT)])
  {
    hide DecodeTable, Represents, TableAt, DirStored, Stored, Trail, LookupDir, TrailOf, CallReads;
    CallFacts(s, t, path, p);
    var name, names := path[|path| - 1].name, NamesOf(path);
    TrailIs(s, t, path, p);
    var _, c, kids := OnlyFolder(s, p, 1, Kids(t, p), path, name, End);
    VisitsOfListing(Kids(t, p), names);
    var path1 := path + [Level(c, name)];
    NestedCall(s, t, path, p, name, c);
    TrailIs(s, t, path1, p);
    var _, c1, kids1 := OnlyFolder(s, p, 1, Kids(t, p), path1, name, End);
    var path2 := path1 + [Level(c1, name)];
    NestedCall(s, t, path1, p, name, c1);
    TrailIs(s, t, path2, c);
    RepresentsRoot(s, t);
    KidsAre(s, t, c, kids);
    NothingListed(s, c, 1, kids, path2);
    assert NamesOf(path1) == names + [name];
    var v, w := Visit(names, true, name, NO_EXT), Visit(names + [name], true, name, NO_EXT);
    assert [w] + [] == [w] && [v] + [w] == [v, w];
  }

  lemma CallFacts(s: State, t: Slots, path: seq<Level>, x: nat)
    requires CallReads(s, t, path, x)
    ensures path != [] && x < 512 && x in Dirs(t) && DirStored(s, path[|path| - 1].name, x)
    ensures var y := path[|path| - 1]; y.number < 512 && y.number in Dirs(t) && DirStored(s, y.name, y.number)
  {
    hide LookupDir, DirStored;
  }

  // ----- wrong calls, right lines -----

  lemma {:induction false} OnlyFile(s: State, f: Slots, path: seq<Level>, name: Name, ext: Ext)
    requires Listing(f) == File(name, ext, 0, [], [], End)
    ensures TrailOf(s, f, path) == Some([Visit(NamesOf(path), false, name, ext)])
    decreases f
  {
    if f.File? {
      NothingListed(s, 0, 0, f.rest, path);
      assert forall v: seq<Visit> :: v + [] == v;
    } else {
      OnlyFile(s, f.rest, path, name, ext);
    }
  }

  /** A directory that lists one directory, which lists one file. */
  function Nest(name: Name, file: Name, ext: Ext): Slots {
    Dir(name, 0, File(file, ext, 0, [], [], End), End)
  }

  /** The call for one of two directories called `d`: `x` is read, and `y` is where its child is looked up. */
  lemma NestCall(s: State, t: Slots, path: seq<Level>, x: nat, y: nat, n: Name,
                 u: Name, ue: Ext, v: Name, ve: Ext)
    requires Represents(s, t) && CallReads(s, t, path, x) && path[|path| - 1].number == y && |path| <= 253
    requires Listing(Kids(t, x)) == Nest(n, u, ue) && Listing(Kids(t, y)) == Nest(n, v, ve)
    requires n != path[|path| - 1].name
    ensures Trail(s, path) == Some([Visit(NamesOf(path), true, n, NO_EXT), Visit(NamesOf(path) + [n], false, v, ve)])
  {
    hide DecodeTable, Represents, TableAt, DirStored, Stored, Trail, LookupDir, TrailOf, Listing, Kids, Slot, Dirs,
         FileStored, CallReads;
    CallFacts(s, t, path, x);
    var own := path[|path| - 1].name;
    TrailIs(s, t, path, x);
    var _, c, kids := OnlyFolder(s, x, 1, Kids(t, x), path, n, File(u, ue, 0, [], [], End));
    var inner := path + [Level(c, n)];
    NestedCall(s, t, path, x, n, c);
    var z := OpensOnly(s, t, y, own, n, File(v, ve, 0, [], [], End));
    TrailIs(s, t, inner, z);
    OnlyFile(s, Kids(t, z), inner, v, ve);
    assert NamesOf(inner) == NamesOf(path) + [n];
    var a, b := Visit(NamesOf(path), true, n, NO_EXT), Visit(NamesOf(path) + [n], false, v, ve);
    assert [a] + [b] == [a, b];
  }

  /** Looking up the only directory listed. */
  lemma OpensOnly(s: State, t: Slots, y: nat, own: Name, n: Name, l: Slots) returns (z: nat)
    requires Represents(s, t) && y in Dirs(t) && y < 512 && DirStored(s, own, y) && n != own
    requires Listing(Kids(t, y)) == Dir(n, 0, l, End)
    ensures LookupDir(s, Request(n, NO_EXT, y, 0)) == (0, z) && Listing(Kids(t, z)) == l
  {
    hide DecodeTable, Represents, TableAt, Stored, LookupDir, TrailOf, Listing, Kids, Dirs, FileStored;
    RepresentsRoot(s, t);
    var _ := DirectoryStored(s, t, y);
    KidsInDirs(t, y);
    var m, c, kids := OnlyFolder(s, y, 1, Kids(t, y), [Level(2, ROOT_NAME)], n, l);
    z := c;
    OpensFirst(s, t, y, own, n, m, c, kids);
    KidsAre(s, t, c, kids);
  }

  lemma OpensFirst(s: State, t: Slots, y: nat, own: Name, n: Name, m: nat, c: nat, kids: Slots)
    requires Represents(s, t) && y in Dirs(t) && y < 512 && DirStored(s, own, y) && n != own && 1 <= m < 64
    requires SetRest(SlotAt(t, y, m), End) == Dir(n, c, kids, End) && forall j :: 1 <= j < m ==> SlotAt(t, y, j).Free?
    ensures LookupDir(s, Request(n, NO_EXT, y, 0)) == (0, c)
  {
    hide DecodeTable, Represents, TableAt, Stored, LookupDir, Kids, Dirs, FileStored, Slot;
    var own' := ResolvesIff(s, t, y, m);
  }

  /** Two directories of one name that differ only two levels down: the search prints the right lines for
      every target, because its lookups change places twice, though the inner calls are wrong. */
  lemma LuckyWalk(s: State, t: Slots, d: Name, n: Name, u: Name, ue: Ext, v: Name, ve: Ext)
    requires Represents(s, t) && d != ROOT_NAME && n != d && (u, ue) != (v, ve)
    requires Listing(t.kids) == Dir(d, 0, Nest(n, u, ue), Dir(d, 0, Nest(n, v, ve), End))
    ensures Trail(s, [Level(2, ROOT_NAME)]) == Some(Visits(t.kids, [ROOT_NAME]))
    ensures !Findable(ROOT_NAME, t.kids) && !Right(s, t, [Level(2, ROOT_NAME)])
  {
    hide DecodeTable, Represents, TableAt, DirStored, Stored, Trail, LookupDir, TrailOf, Kids, Slot, Dirs,
         FileStored, CallReads, Right;
    var root := [Level(2, ROOT_NAME)];
    RootCall(s, t);
    RepresentsRoot(s, t);
    CallFacts(s, t, root, 2);
    TrailIs(s, t, root, 2);
    assert Kids(t, 2) == t.kids by { KidsAre(s, t, 2, t.kids); }
    var m, c1, kids1, rest := FirstFolder(s, 2, 1, t.kids, root, d, Nest(n, u, ue), Dir(d, 0, Nest(n, v, ve), End));
    var _, c2, kids2 := OnlyFolder(s, 2, m + 1, rest, root, d, Nest(n, v, ve));
    KidsAre(s, t, c1, kids1);
    KidsAre(s, t, c2, kids2);
    OpensFirst(s, t, 2, ROOT_NAME, d, m, c1, kids1);
    NestedCall(s, t, root, 2, d, c1);
    NestedCall(s, t, root, 2, d, c2);
    NestCall(s, t, root + [Level(c1, d)], c1, c1, n, u, ue, u, ue);
    NestCall(s, t, root + [Level(c2, d)], c1, c2, n, u, ue, v, ve);
    NotAlike(t.kids, d, n, u, ue, v, ve);
    WalkIsRightIff(s, t);
    VisitsOfTwo(t.kids, d, n, u, ue, v, ve);
    assert NamesOf(root) == [ROOT_NAME];
    assert NamesOf(root + [Level(c1, d)]) == [ROOT_NAME, d] == NamesOf(root + [Level(c2, d)]);
  }

  lemma NotAlike(f: Slots, d: Name, n: Name, u: Name, ue: Ext, v: Name, ve: Ext)
    requires (u, ue) != (v, ve) && Listing(f) == Dir(d, 0, Nest(n, u, ue), Dir(d, 0, Nest(n, v, ve), End))
    ensures !Findable(ROOT_NAME, f)
  {
    FindableOfListing(ROOT_NAME, f);
    assert Listing(Nest(n, u, ue)) != Listing(Nest(n, v, ve));
  }

  lemma VisitsOfTwo(f: Slots, d: Name, n: Name, u: Name, ue: Ext, v: Name, ve: Ext)
    requires Listing(f) == Dir(d, 0, Nest(n, u, ue), Dir(d, 0, Nest(n, v, ve), End))
    ensures var outer, inner := [ROOT_NAME], [ROOT_NAME, d];
            Visits(f, outer) ==
            ([Visit(outer, true, d, NO_EXT)] + [Visit(inner, true, n, NO_EXT), Visit(inner + [n], false, u, ue)])
            + ([Visit(outer, true, d, NO_EXT)] + [Visit(inner, true, n, NO_EXT), Visit(inner + [n], false, v, ve)])
  {
    hide Nest, Listing;
    var outer, inner, a, b := [ROOT_NAME], [ROOT_NAME, d], Nest(n, u, ue), Nest(n, v, ve);
    VisitsOfListing(f, outer);
    assert outer + [d] == inner;
    VisitsOfNest(inner, n, u, ue);
    VisitsOfNest(inner, n, v, ve);
    var first := [Visit(outer, true, d, NO_EXT)];
    assert Visits(Dir(d, 0, b, End), outer) == first + Visits(b, inner) + [];
    assert Visits(Dir(d, 0, a, Dir(d, 0, b, End)), outer) == first + Visits(a, inner) + Visits(Dir(d, 0, b, End), outer);
  }

  lemma VisitsOfNest(names: seq<Name>, n: Name, u: Name, ue: Ext)
    ensures Visits(Nest(n, u, ue), names) == [Visit(names, true, n, NO_EXT), Visit(names + [n], false, u, ue)]
  {
    assert Visits(File(u, ue, 0, [], [], End), names + [n]) == [Visit(names + [n], false, u, ue)];
  }
}
