// The walk of `where_is` over any state: which entries it compares with the target, in which order and
// under which names; and exactly when every call of it lists the directory on top of its stack.
module Trails {
  import opened Layout
  import opened Calls
  import opened Tree
  import opened TreeFacts
  import opened Paths
  import opened Search

  // ----- entries compared -----

  /** An entry compared with the target, with the names on the stack at that moment. */
  datatype Visit = Visit(names: seq<Name>, folder: bool, name: Name, ext: Ext)

  /** The entries a walk over the slots `f` of the directory at `names` should compare. */
  function Visits(f: Slots, names: seq<Name>): seq<Visit>
    decreases f
  {
    match f
    case End => []
    case Free(rest) => Visits(rest, names)
    case File(name, ext, _, _, _, rest) => [Visit(names, false, name, ext)] + Visits(rest, names)
    case Dir(name, _, kids, rest) =>
      [Visit(names, true, name, NO_EXT)] + Visits(kids, names + [name]) + Visits(rest, names)
  }

  predicate VisitHit(v: Visit, target: seq<byte>, targetExt: seq<byte>) {
    if v.folder then DirHit(v.name, target) else FileHit(v.name, v.ext, target, targetExt)
  }

  function VisitLine(v: Visit): seq<byte> {
    if v.folder then DirLine(v.names) else FileLine(v.names, v.name, v.ext)
  }

  /** The lines of the entries that match. */
  function Printed(vs: seq<Visit>, target: seq<byte>, targetExt: seq<byte>): seq<seq<byte>> {
    if vs == [] then []
    else (if VisitHit(vs[0], target, targetExt) then [VisitLine(vs[0])] else []) + Printed(vs[1..], target, targetExt)
  }

  lemma {:induction false} PrintedJoin(a: seq<Visit>, b: seq<Visit>, target: seq<byte>, targetExt: seq<byte>)
    ensures Printed(a + b, target, targetExt) == Printed(a, target, targetExt) + Printed(b, target, targetExt)
  {
    hide VisitHit, VisitLine;
    if a != [] {
      PrintedJoin(a[1..], b, target, targetExt);
      assert (a + b)[1..] == a[1..] + b;
    } else {
      assert a + b == b;
    }
  }

  lemma {:induction false} LinesArePrinted(f: Slots, names: seq<Name>, target: seq<byte>, targetExt: seq<byte>)
    ensures Lines(f, names, target, targetExt) == Printed(Visits(f, names), target, targetExt)
    decreases f
  {
    hide DirLine, FileLine, DirHit, FileHit;
    match f
    case End =>
    case Free(rest) => LinesArePrinted(rest, names, target, targetExt);
    case File(name, ext, _, _, _, rest) =>
      LinesArePrinted(rest, names, target, targetExt);
      PrintedJoin([Visit(names, false, name, ext)], Visits(rest, names), target, targetExt);
      OnePrinted(Visit(names, false, name, ext), target, targetExt);
    case Dir(name, _, kids, rest) =>
      LinesArePrinted(rest, names, target, targetExt);
      LinesArePrinted(kids, names + [name], target, targetExt);
      var here := [Visit(names, true, name, NO_EXT)];
      PrintedJoin(here + Visits(kids, names + [name]), Visits(rest, names), target, targetExt);
      PrintedJoin(here, Visits(kids, names + [name]), target, targetExt);
      OnePrinted(here[0], target, targetExt);
  }

  lemma OnePrinted(v: Visit, target: seq<byte>, targetExt: seq<byte>)
    ensures Printed([v], target, targetExt) == if VisitHit(v, target, targetExt) then [VisitLine(v)] else []
  {
    assert [v][1..] == [];
  }

  // ----- the walk -----

  datatype Option<T> = None | Some(value: T)

  function NamesOf(path: seq<Level>): (r: seq<Name>)
    ensures |r| == |path|
  {
    seq(|path|, i requires 0 <= i < |path| => path[i].name)
  }

  /** The directory the name on top of the stack is looked up in. */
  function Above(path: seq<Level>): nat
    requires path != []
  {
    if |path| <= 1 then 2 else path[|path| - 2].number
  }

  predicate IsFolder(e: Entry) {
    e.userAttribute == UATTR_NOT_EMPTY && e.attribute != ATTR_ARCHIVE
  }

  function Pushed(path: seq<Level>, e: Entry): seq<Level> {
    path + [Level(Head(e), e.name)]
  }

  /** The entries the walk compares from the stack `path` on. None when some lookup fails, after which
      the source goes on with a table it has not read, or when the one-byte stack length runs over. */
  function Trail(s: State, path: seq<Level>): Option<seq<Visit>>
    decreases 256 - |path|, 65
  {
    if path == [] || |path| > 255 || Above(path) >= 2048 then None
    else
      var (code, c) := LookupDir(s, Request(path[|path| - 1].name, NO_EXT, Above(path), 0));
      if code != 0 || c >= 2048 then None else TrailFrom(s, TableAt(s, c), 1, path)
  }

  function TrailFrom(s: State, tab: Table, i: nat, path: seq<Level>): Option<seq<Visit>>
    requires i <= 64 && 1 <= |path| <= 255
    decreases 256 - |path|, 64 - i
  {
    if i == 64 then Some([]) else Then(TrailAt(s, tab[i], path), TrailFrom(s, tab, i + 1, path))
  }

  /** One entry, and what the walk finds below it. */
  function TrailAt(s: State, e: Entry, path: seq<Level>): Option<seq<Visit>>
    requires 1 <= |path| <= 255
    decreases 256 - |path|, 0
  {
    if e.userAttribute != UATTR_NOT_EMPTY then Some([])
    else if IsFolder(e) then Then(Some([Visit(NamesOf(path), true, e.name, NO_EXT)]), Trail(s, Pushed(path, e)))
    else Some([Visit(NamesOf(path), false, e.name, e.ext)])
  }

  function Then(a: Option<seq<Visit>>, b: Option<seq<Visit>>): Option<seq<Visit>> {
    if a.None? || b.None? then None else Some(a.value + b.value)
  }

  /** The same over the tree that is stored. */
  ghost function TrailOf(s: State, f: Slots, path: seq<Level>): Option<seq<Visit>>
    decreases f
  {
    match f
    case End => Some([])
    case Free(rest) => TrailOf(s, rest, path)
    case File(name, ext, _, _, _, rest) => Then(Some([Visit(NamesOf(path), false, name, ext)]), TrailOf(s, rest, path))
    case Dir(name, c, _, rest) =>
      Then(Then(Some([Visit(NamesOf(path), true, name, NO_EXT)]), Trail(s, path + [Level(c, name)])),
           TrailOf(s, rest, path))
  }

  lemma {:induction false} TrailOnTree(s: State, d: nat, i: nat, f: Slots, path: seq<Level>)
    requires d < 2048 && Stored(s, d, i, f) && i <= 64 && 1 <= |path| <= 255
    ensures TrailFrom(s, TableAt(s, d), i, path) == TrailOf(s, f, path)
    decreases f
  {
    hide DecodeTable, FileStored, DirStored, Trail, Head;
    if f != End {
      TrailOnTree(s, d, i + 1, f.rest, path);
      FolderEntry(s, d, i, f);
      assert forall v: seq<Visit> :: [] + v == v;
    }
  }

  lemma FolderEntry(s: State, d: nat, i: nat, f: Slots)
    requires d < 2048 && Stored(s, d, i, f) && f != End
    ensures i < 64
    ensures var e := TableAt(s, d)[i];
            && (e.userAttribute == UATTR_NOT_EMPTY <==> f.Dir? || f.File?) && (IsFolder(e) <==> f.Dir?)
            && (f.Dir? ==> e.name == f.name && Head(e) == f.cluster) && (f.File? ==> e.name == f.name && e.ext == f.ext)
  {
    hide DecodeTable, FileStored, DirStored;
  }

  // ----- what a directory lists -----

  /** What a search sees of a directory: names and extensions of its entries in order, at every depth. */
  function Listing(f: Slots): Slots {
    match f
    case End => End
    case Free(rest) => Listing(rest)
    case File(name, ext, _, _, _, rest) => File(name, ext, 0, [], [], Listing(rest))
    case Dir(name, _, kids, rest) => Dir(name, 0, Listing(kids), Listing(rest))
  }

  lemma {:induction false} VisitsOfListing(f: Slots, names: seq<Name>)
    ensures Visits(Listing(f), names) == Visits(f, names)
    decreases f
  {
    if f != End {
      VisitsOfListing(f.rest, names);
      if f.Dir? { VisitsOfListing(f.kids, names + [f.name]); }
    }
  }

  lemma {:induction false} VisitsBelow(f: Slots, names: seq<Name>)
    ensures forall k :: 0 <= k < |Visits(f, names)| ==> |Visits(f, names)[k].names| >= |names|
    ensures Visits(f, names) != [] ==> Visits(f, names)[0].names == names
    decreases f
  {
    if f != End {
      VisitsBelow(f.rest, names);
      if f.Dir? { VisitsBelow(f.kids, names + [f.name]); }
    }
  }

  /** Where the deeper entries end is plain to see. */
  lemma SplitAt(n: nat, a: seq<Visit>, b: seq<Visit>, w: seq<Visit>)
    requires w == a + b && (b == [] || |b[0].names| == n)
    requires forall k :: 0 <= k < |a| ==> |a[k].names| > n
    ensures |a| <= |w| && w[..|a|] == a && w[|a|..] == b && (|a| < |w| ==> |w[|a|].names| == n)
    ensures forall k :: 0 <= k < |a| ==> |w[k].names| > n
  {
  }

  lemma SplitOnce(n: nat, a: seq<Visit>, b: seq<Visit>, c: seq<Visit>, d: seq<Visit>)
    requires a + b == c + d
    requires forall k :: 0 <= k < |a| ==> |a[k].names| > n
    requires forall k :: 0 <= k < |c| ==> |c[k].names| > n
    requires (b == [] || |b[0].names| == n) && (d == [] || |d[0].names| == n)
    ensures a == c && b == d
  {
    SplitAt(n, a, b, a + b);
    SplitAt(n, c, d, a + b);
    assert |a| == |c|;
  }

  /** Two directories whose walks compare the same entries list the same. */
  lemma {:induction false} VisitsDetermine(f: Slots, g: Slots, names: seq<Name>)
    requires Visits(f, names) == Visits(g, names)
    ensures Listing(f) == Listing(g)
    decreases f, g
  {
    if f.Free? {
      VisitsDetermine(f.rest, g, names);
    } else if g.Free? {
      VisitsDetermine(f, g.rest, names);
    } else if f != End && g != End {
      FirstVisits(f, g, names);
      if f.Dir? { VisitsDetermine(f.kids, g.kids, names + [f.name]); }
      VisitsDetermine(f.rest, g.rest, names);
    }
  }

  /** The entries below the first one; none for a file. */
  function Inside(f: Slots, names: seq<Name>): seq<Visit>
    requires f.File? || f.Dir?
  {
    if f.Dir? then Visits(f.kids, names + [f.name]) else []
  }

  function First(f: Slots, names: seq<Name>): Visit
    requires f.File? || f.Dir?
  {
    if f.Dir? then Visit(names, true, f.name, NO_EXT) else Visit(names, false, f.name, f.ext)
  }

  lemma VisitsUnfold(f: Slots, names: seq<Name>)
    requires f.File? || f.Dir?
    ensures Visits(f, names) == [First(f, names)] + (Inside(f, names) + Visits(f.rest, names))
    ensures forall k :: 0 <= k < |Inside(f, names)| ==> |Inside(f, names)[k].names| > |names|
    ensures Visits(f.rest, names) != [] ==> |Visits(f.rest, names)[0].names| == |names|
  {
    VisitsHead(f, names);
    VisitsBelow(f.rest, names);
    hide Visits;
    if f.Dir? { VisitsBelow(f.kids, names + [f.name]); }
  }

  lemma VisitsHead(f: Slots, names: seq<Name>)
    requires f.File? || f.Dir?
    ensures Visits(f, names) == [First(f, names)] + (Inside(f, names) + Visits(f.rest, names))
  {
    if f.Dir? {
      var a, b, c := [First(f, names)], Inside(f, names), Visits(f.rest, names);
      assert a + b + c == a + (b + c);
    }
  }

  lemma SameHead(v: Visit, a: seq<Visit>, w: Visit, b: seq<Visit>)
    requires [v] + a == [w] + b
    ensures v == w && a == b
  {
    assert ([v] + a)[0] == v && ([v] + a)[1..] == a && ([w] + b)[0] == w && ([w] + b)[1..] == b;
  }

  lemma FirstVisits(f: Slots, g: Slots, names: seq<Name>)
    requires (f.File? || f.Dir?) && (g.File? || g.Dir?) && Visits(f, names) == Visits(g, names)
    ensures First(f, names) == First(g, names) && Inside(f, names) == Inside(g, names)
    ensures Visits(f.rest, names) == Visits(g.rest, names)
  {
    hide Visits, First, Inside;
    VisitsUnfold(f, names);
    VisitsUnfold(g, names);
    SameHead(First(f, names), Inside(f, names) + Visits(f.rest, names),
             First(g, names), Inside(g, names) + Visits(g.rest, names));
    SplitOnce(|names|, Inside(f, names), Visits(f.rest, names), Inside(g, names), Visits(g.rest, names));
  }

  lemma {:induction false} DepthOfListing(f: Slots)
    ensures Depth(Listing(f)) == Depth(f)
  {
    if f != End {
      DepthOfListing(f.rest);
      if f.Dir? { DepthOfListing(f.kids); }
    }
  }

  // ----- the condition -----

  /** Every directory of `f` called `name` lists `l`. */
  ghost predicate Alike(f: Slots, name: Name, l: Slots) {
    f != End ==> Alike(f.rest, name, l) && (f.Dir? && f.name == name ==> Listing(f.kids) == l)
  }

  /** No directory lists one with its own name, and directories of one name side by side list the same. */
  ghost predicate Findable(own: Name, f: Slots)
    decreases f
  {
    match f
    case End => true
    case Free(rest) => Findable(own, rest)
    case File(_, _, _, _, _, rest) => Findable(own, rest)
    case Dir(name, _, kids, rest) =>
      name != own && Findable(name, kids) && Alike(rest, name, Listing(kids)) && Findable(own, rest)
  }

  lemma {:induction false} AlikeOfListing(f: Slots, name: Name, l: Slots)
    ensures Alike(f, name, l) == Alike(Listing(f), name, l)
  {
    if f != End {
      AlikeOfListing(f.rest, name, l);
      if f.Dir? { ListingTwice(f.kids); }
    }
  }

  lemma {:induction false} ListingTwice(f: Slots)
    ensures Listing(Listing(f)) == Listing(f)
  {
    if f != End {
      ListingTwice(f.rest);
      if f.Dir? { ListingTwice(f.kids); }
    }
  }

  lemma {:induction false} FindableOfListing(own: Name, f: Slots)
    ensures Findable(own, f) == Findable(own, Listing(f))
    decreases f
  {
    if f != End {
      FindableOfListing(own, f.rest);
      if f.Dir? {
        FindableOfListing(f.name, f.kids);
        ListingTwice(f.kids);
        AlikeOfListing(f.rest, f.name, Listing(f.kids));
      }
    }
  }
}
