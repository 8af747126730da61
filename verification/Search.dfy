// `where_is`: a walk over the whole tree made of read_directory calls by name.
module Search {
  import opened Layout
  import opened Memory
  import opened Calls
  import opened Tree

  // ----- what is printed -----

  const SLASH: byte := 0x2F
  const DOT: byte := 0x2E
  const SPACE: byte := 0x20

  /** "/" for the root level, then the names of levels 1 to n - 1, each but the last followed by "/". */
  function DirPath(names: seq<Name>, n: nat): seq<byte>
    requires n <= |names|
  {
    if n == 0 then []
    else if n == 1 then [SLASH]
    else DirPath(names, n - 1) + (if n > 2 then [SLASH] else []) + CStr(names[n - 1])
  }

  /** The line for a matching directory: the path of the directory that lists it. */
  function DirLine(names: seq<Name>): seq<byte> {
    DirPath(names, |names|) + [SPACE]
  }

  /** The line for a matching file. */
  function FileLine(names: seq<Name>, name: Name, ext: Ext): seq<byte> {
    DirPath(names, |names|) + (if |names| > 1 then [SLASH] else [])
    + CStr(name) + [DOT] + CStr(ext) + [SPACE]
  }

  predicate DirHit(name: Name, target: seq<byte>) {
    CStr(name) == CStr(target)
  }

  predicate FileHit(name: Name, ext: Ext, target: seq<byte>, targetExt: seq<byte>) {
    CStr(name) == CStr(target) && CStr(ext) == CStr(targetExt)
  }

  /** The lines a search of the slots `f` of the directory at `names` should print. */
  function Lines(f: Slots, names: seq<Name>, target: seq<byte>, targetExt: seq<byte>): seq<seq<byte>>
    decreases f
  {
    match f
    case End => []
    case Free(rest) => Lines(rest, names, target, targetExt)
    case File(name, ext, _, _, _, rest) =>
      (if FileHit(name, ext, target, targetExt) then [FileLine(names, name, ext)] else [])
      + Lines(rest, names, target, targetExt)
    case Dir(name, _, kids, rest) =>
      (if DirHit(name, target) then [DirLine(names)] else [])
      + Lines(kids, names + [name], target, targetExt)
      + Lines(rest, names, target, targetExt)
  }

  // ----- which entries match, by where they are -----

  /** The entry reached from `f` by slot positions, one per level of descent. */
  ghost function EntryAt(f: Slots, pos: seq<nat>): Slots
    decreases f
  {
    if f == End || pos == [] then Free(End)
    else if pos[0] > 0 then EntryAt(f.rest, [pos[0] - 1] + pos[1..])
    else if |pos| == 1 then SetRest(f, End)
    else if f.Dir? then EntryAt(f.kids, pos[1..])
    else Free(End)
  }

  /** The names of the directories passed on the way. */
  ghost function NamesTo(f: Slots, pos: seq<nat>): seq<Name>
    decreases f
  {
    if f == End || |pos| <= 1 then []
    else if pos[0] > 0 then NamesTo(f.rest, [pos[0] - 1] + pos[1..])
    else if f.Dir? then [f.name] + NamesTo(f.kids, pos[1..])
    else []
  }

  ghost predicate Hit(x: Slots, target: seq<byte>, targetExt: seq<byte>) {
    match x
    case File(name, ext, _, _, _, _) => FileHit(name, ext, target, targetExt)
    case Dir(name, _, _, _) => DirHit(name, target)
    case _ => false
  }

  ghost function LineOf(x: Slots, names: seq<Name>): seq<byte>
    requires x.File? || x.Dir?
  {
    if x.File? then FileLine(names, x.name, x.ext) else DirLine(names)
  }

  /** Positions of the matching entries, in the order of the walk. */
  ghost function Hits(f: Slots, target: seq<byte>, targetExt: seq<byte>): seq<seq<nat>>
    decreases f
  {
    match f
    case End => []
    case Free(rest) => Shift(Hits(rest, target, targetExt))
    case File(_, _, _, _, _, rest) =>
      (if Hit(f, target, targetExt) then [[0]] else []) + Shift(Hits(rest, target, targetExt))
    case Dir(_, _, kids, rest) =>
      (if Hit(f, target, targetExt) then [[0]] else [])
      + Below(Hits(kids, target, targetExt)) + Shift(Hits(rest, target, targetExt))
  }

  ghost function Shift(ps: seq<seq<nat>>): (r: seq<seq<nat>>)
    ensures |r| == |ps|
    ensures forall i :: 0 <= i < |ps| ==> r[i] == Next(ps[i])
  {
    seq(|ps|, i requires 0 <= i < |ps| => Next(ps[i]))
  }

  ghost function Next(p: seq<nat>): seq<nat> {
    if p == [] then [] else [p[0] + 1] + p[1..]
  }

  ghost function Below(ps: seq<seq<nat>>): (r: seq<seq<nat>>)
    ensures |r| == |ps|
    ensures forall i :: 0 <= i < |ps| ==> r[i] == [0] + ps[i]
  {
    seq(|ps|, i requires 0 <= i < |ps| => [0] + ps[i])
  }

  lemma EntryBelow(f: Slots, q: seq<nat>)
    requires f.Dir? && q != []
    ensures EntryAt(f, [0] + q) == EntryAt(f.kids, q) && NamesTo(f, [0] + q) == [f.name] + NamesTo(f.kids, q)
  {
    assert ([0] + q)[1..] == q;
  }

  lemma EntryNext(f: Slots, q: seq<nat>)
    requires f != End && q != []
    ensures EntryAt(f, Next(q)) == EntryAt(f.rest, q) && NamesTo(f, Next(q)) == NamesTo(f.rest, q)
  {
    assert [Next(q)[0] - 1] + Next(q)[1..] == q;
  }

  /** A position is listed exactly when the entry there matches: nothing is missed, nothing invented. */
  lemma {:induction false} HitsComplete(f: Slots, target: seq<byte>, targetExt: seq<byte>, p: seq<nat>)
    ensures p in Hits(f, target, targetExt) <==> Hit(EntryAt(f, p), target, targetExt)
    decreases f
  {
    hide Hits, Hit;
    NoEmptyHit(f, target, targetExt);
    if f == End || p == [] {
      NoHit(f, target, targetExt);
    } else if p[0] > 0 {
      HitsComplete(f.rest, target, targetExt, [p[0] - 1] + p[1..]);
      HitsLater(f, target, targetExt, p);
    } else if f.Dir? && |p| > 1 {
      HitsComplete(f.kids, target, targetExt, p[1..]);
      HitsInside(f, target, targetExt, p);
    } else {
      HitsHere(f, target, targetExt, p);
    }
  }

  lemma NoHit(f: Slots, target: seq<byte>, targetExt: seq<byte>)
    ensures !Hit(Free(End), target, targetExt) && Hits(End, target, targetExt) == []
  {
  }

  lemma HitsLater(f: Slots, target: seq<byte>, targetExt: seq<byte>, p: seq<nat>)
    requires f != End && p != [] && p[0] > 0
    ensures p in Hits(f, target, targetExt) <==> [p[0] - 1] + p[1..] in Hits(f.rest, target, targetExt)
  {
    hide Hits, Hit;
    var q := [p[0] - 1] + p[1..];
    assert Next(q) == p;
    ShiftMembers(Hits(f.rest, target, targetExt), q);
    SplitHits(f, target, targetExt, p);
    if f.Dir? { BelowStarts(Hits(f.kids, target, targetExt), p); }
  }

  lemma BelowStarts(ps: seq<seq<nat>>, p: seq<nat>)
    ensures p in Below(ps) ==> p != [] && p[0] == 0
  {
  }

  lemma HitsInside(f: Slots, target: seq<byte>, targetExt: seq<byte>, p: seq<nat>)
    requires f.Dir? && |p| > 1 && p[0] == 0
    ensures p in Hits(f, target, targetExt) <==> p[1..] in Hits(f.kids, target, targetExt)
    ensures EntryAt(f, p) == EntryAt(f.kids, p[1..])
  {
    hide Hits, Hit;
    assert p == [0] + p[1..];
    BelowMembers(Hits(f.kids, target, targetExt), p[1..]);
    ShiftStarts(Hits(f.rest, target, targetExt), p);
    SplitHits(f, target, targetExt, p);
  }

  lemma HitsHere(f: Slots, target: seq<byte>, targetExt: seq<byte>, p: seq<nat>)
    requires f != End && p != [] && p[0] == 0 && !(f.Dir? && |p| > 1)
    ensures p in Hits(f, target, targetExt) <==> Hit(EntryAt(f, p), target, targetExt)
  {
    hide Hits, DirHit, FileHit;
    ShiftStarts(Hits(f.rest, target, targetExt), p);
    SplitHits(f, target, targetExt, p);
    if |p| == 1 { assert p == [0]; }
    if f.Dir? {
      NoEmptyHit(f.kids, target, targetExt);
      assert p !in Below(Hits(f.kids, target, targetExt)) by {
        if p in Below(Hits(f.kids, target, targetExt)) { BelowMembers(Hits(f.kids, target, targetExt), []); }
      }
    }
  }

  /** Where a listed position can come from. */
  lemma SplitHits(f: Slots, target: seq<byte>, targetExt: seq<byte>, p: seq<nat>)
    requires f != End
    ensures p in Hits(f, target, targetExt) <==>
            || (Hit(f, target, targetExt) && p == [0])
            || (f.Dir? && p in Below(Hits(f.kids, target, targetExt)))
            || p in Shift(Hits(f.rest, target, targetExt))
  {
  }

  lemma {:induction false} NoEmptyHit(f: Slots, target: seq<byte>, targetExt: seq<byte>)
    ensures [] !in Hits(f, target, targetExt)
    decreases f
  {
    if f != End {
      NoEmptyHit(f.rest, target, targetExt);
      SplitHits(f, target, targetExt, []);
      ShiftStarts(Hits(f.rest, target, targetExt), []);
    }
  }

  lemma ShiftMembers(ps: seq<seq<nat>>, q: seq<nat>)
    requires q != []
    ensures Next(q) in Shift(ps) <==> q in ps
  {
    if q in ps {
      var i :| 0 <= i < |ps| && ps[i] == q;
      assert Shift(ps)[i] == Next(q);
    }
    if Next(q) in Shift(ps) {
      var i :| 0 <= i < |ps| && Shift(ps)[i] == Next(q);
      NextInjective(ps[i], q);
    }
  }

  lemma NextInjective(a: seq<nat>, b: seq<nat>)
    requires Next(a) == Next(b)
    ensures a == b
  {
    if a != [] && b != [] {
      assert Next(a)[0] == Next(b)[0] && Next(a)[1..] == Next(b)[1..];
      assert a == [a[0]] + a[1..] && b == [b[0]] + b[1..];
    }
  }

  /** Shifted positions start above 0, or are empty when one was. */
  lemma ShiftStarts(ps: seq<seq<nat>>, p: seq<nat>)
    requires p == [] || p[0] == 0
    ensures p in Shift(ps) ==> p == [] && [] in ps
  {
    if p in Shift(ps) {
      var i :| 0 <= i < |ps| && Shift(ps)[i] == p;
      assert ps[i] == [];
    }
  }

  lemma BelowMembers(ps: seq<seq<nat>>, q: seq<nat>)
    ensures [0] + q in Below(ps) <==> q in ps
  {
    if q in ps {
      var i :| 0 <= i < |ps| && ps[i] == q;
      assert Below(ps)[i] == [0] + q;
    }
    if [0] + q in Below(ps) {
      var i :| 0 <= i < |ps| && Below(ps)[i] == [0] + q;
      assert ([0] + ps[i])[1..] == ([0] + q)[1..];
      assert ps[i] == q;
    }
  }

  ghost predicate NoRepeats(ps: seq<seq<nat>>) {
    forall i, j :: 0 <= i < j < |ps| ==> ps[i] != ps[j]
  }

  /** No position is listed twice. */
  lemma {:induction false} HitsOnce(f: Slots, target: seq<byte>, targetExt: seq<byte>)
    ensures NoRepeats(Hits(f, target, targetExt))
    decreases f
  {
    if f != End {
      var later := Hits(f.rest, target, targetExt);
      HitsOnce(f.rest, target, targetExt);
      NoEmptyHit(f.rest, target, targetExt);
      ShiftOnce(later);
      var inside := if f.Dir? then Hits(f.kids, target, targetExt) else [];
      if f.Dir? {
        HitsOnce(f.kids, target, targetExt);
        NoEmptyHit(f.kids, target, targetExt);
      }
      BelowOnce(inside);
      var first: seq<seq<nat>> := if Hit(f, target, targetExt) then [[0]] else [];
      assert Hits(f, target, targetExt) == first + Below(inside) + Shift(later);
      JoinOnce(first, inside, later);
    }
  }

  lemma ShiftOnce(ps: seq<seq<nat>>)
    requires NoRepeats(ps)
    ensures NoRepeats(Shift(ps))
  {
    forall i, j | 0 <= i < j < |ps| ensures Shift(ps)[i] != Shift(ps)[j] {
      if Shift(ps)[i] == Shift(ps)[j] { NextInjective(ps[i], ps[j]); }
    }
  }

  lemma BelowOnce(ps: seq<seq<nat>>)
    requires NoRepeats(ps)
    ensures NoRepeats(Below(ps))
  {
    forall i, j | 0 <= i < j < |ps| ensures Below(ps)[i] != Below(ps)[j] {
      assert Below(ps)[i][1..] == ps[i] && Below(ps)[j][1..] == ps[j];
    }
  }

  lemma AppendOnce(a: seq<seq<nat>>, b: seq<seq<nat>>)
    requires NoRepeats(a) && NoRepeats(b) && forall x, y :: x in a && y in b ==> x != y
    ensures NoRepeats(a + b)
  {
    var r := a + b;
    forall i, j | 0 <= i < j < |r| ensures r[i] != r[j] {
      if i < |a| <= j { assert r[i] in a && r[j] in b; }
    }
  }

  lemma JoinOnce(first: seq<seq<nat>>, inside: seq<seq<nat>>, later: seq<seq<nat>>)
    requires first == [] || first == [[0]]
    requires NoRepeats(Below(inside)) && NoRepeats(Shift(later)) && [] !in inside && [] !in later
    ensures NoRepeats(first + Below(inside) + Shift(later))
  {
    var b, c := Below(inside), Shift(later);
    forall y | y in b ensures |y| > 1 && y[0] == 0 {
      var i :| 0 <= i < |b| && b[i] == y;
      assert inside[i] in inside;
    }
    forall y | y in c ensures y != [] && y[0] > 0 {
      var i :| 0 <= i < |c| && c[i] == y;
      assert later[i] in later;
    }
    AppendOnce(first, b);
    AppendOnce(first + b, c);
  }

  /** `line` is what a match at position `p` should print. */
  ghost predicate LineIs(line: seq<byte>, f: Slots, names: seq<Name>, p: seq<nat>, target: seq<byte>, targetExt: seq<byte>) {
    && p != [] && Hit(EntryAt(f, p), target, targetExt)
    && line == LineOf(EntryAt(f, p), names + NamesTo(f, p))
  }

  ghost predicate LinesAre(lines: seq<seq<byte>>, f: Slots, names: seq<Name>, ps: seq<seq<nat>>,
                           target: seq<byte>, targetExt: seq<byte>) {
    |lines| == |ps| && forall i :: 0 <= i < |ps| ==> LineIs(lines[i], f, names, ps[i], target, targetExt)
  }

  lemma LinesJoin(f: Slots, names: seq<Name>, target: seq<byte>, targetExt: seq<byte>,
                  a: seq<seq<byte>>, ps: seq<seq<nat>>, b: seq<seq<byte>>, qs: seq<seq<nat>>)
    requires LinesAre(a, f, names, ps, target, targetExt) && LinesAre(b, f, names, qs, target, targetExt)
    ensures LinesAre(a + b, f, names, ps + qs, target, targetExt)
  {
    hide LineIs;
  }

  lemma LineHere(f: Slots, names: seq<Name>, target: seq<byte>, targetExt: seq<byte>)
    requires f.File? || f.Dir?
    ensures var hit := Hit(f, target, targetExt);
            LinesAre(if hit then [LineOf(f, names)] else [], f, names, if hit then [[0]] else [], target, targetExt)
  {
    hide DirPath, CStr, DirLine, FileLine;
    assert EntryAt(f, [0]) == SetRest(f, End) && NamesTo(f, [0]) == [];
    assert names + [] == names;
  }

  lemma LinesLater(f: Slots, names: seq<Name>, lines: seq<seq<byte>>, ps: seq<seq<nat>>,
                   target: seq<byte>, targetExt: seq<byte>)
    requires f != End && LinesAre(lines, f.rest, names, ps, target, targetExt)
    ensures LinesAre(lines, f, names, Shift(ps), target, targetExt)
  {
    hide LineOf, Hit, EntryAt, NamesTo, Next;
    forall i | 0 <= i < |ps| ensures LineIs(lines[i], f, names, Shift(ps)[i], target, targetExt) {
      assert LineIs(lines[i], f.rest, names, ps[i], target, targetExt);
      EntryNext(f, ps[i]);
      NextNotEmpty(ps[i]);
    }
  }

  lemma NextNotEmpty(p: seq<nat>)
    ensures Next(p) == [] <==> p == []
  {
  }

  lemma LinesInside(f: Slots, names: seq<Name>, lines: seq<seq<byte>>, ps: seq<seq<nat>>,
                    target: seq<byte>, targetExt: seq<byte>)
    requires f.Dir? && LinesAre(lines, f.kids, names + [f.name], ps, target, targetExt)
    ensures LinesAre(lines, f, names, Below(ps), target, targetExt)
  {
    hide LineOf, Hit, EntryAt, NamesTo;
    forall i | 0 <= i < |ps| ensures LineIs(lines[i], f, names, Below(ps)[i], target, targetExt) {
      assert LineIs(lines[i], f.kids, names + [f.name], ps[i], target, targetExt);
      EntryBelow(f, ps[i]);
      assert (names + [f.name]) + NamesTo(f.kids, ps[i]) == names + ([f.name] + NamesTo(f.kids, ps[i]));
    }
  }

  /** The lines printed are those of the listed positions, in the same order. */
  lemma {:induction false} LinesAreHits(f: Slots, names: seq<Name>, target: seq<byte>, targetExt: seq<byte>)
    ensures LinesAre(Lines(f, names, target, targetExt), f, names, Hits(f, target, targetExt), target, targetExt)
    decreases f
  {
    hide LinesAre, FileLine, DirLine, CStr;
    match f
    case End => assert LinesAre([], f, names, [], target, targetExt) by { NoLines(f, names, target, targetExt); }
    case Free(rest) =>
      LinesAreHits(rest, names, target, targetExt);
      LinesLater(f, names, Lines(rest, names, target, targetExt), Hits(rest, target, targetExt), target, targetExt);
    case File(_, _, _, _, _, rest) =>
      var ps := Hits(rest, target, targetExt);
      LinesAreHits(rest, names, target, targetExt);
      LinesLater(f, names, Lines(rest, names, target, targetExt), ps, target, targetExt);
      LineHere(f, names, target, targetExt);
      var hit := Hit(f, target, targetExt);
      LinesJoin(f, names, target, targetExt, if hit then [LineOf(f, names)] else [], if hit then [[0]] else [],
                Lines(rest, names, target, targetExt), Shift(ps));
    case Dir(name, _, kids, rest) =>
      var ps, qs := Hits(kids, target, targetExt), Hits(rest, target, targetExt);
      var inside, later := Lines(kids, names + [name], target, targetExt), Lines(rest, names, target, targetExt);
      LinesAreHits(rest, names, target, targetExt);
      LinesLater(f, names, later, qs, target, targetExt);
      LinesAreHits(kids, names + [name], target, targetExt);
      LinesInside(f, names, inside, ps, target, targetExt);
      LineHere(f, names, target, targetExt);
      var hit := Hit(f, target, targetExt);
      var first, here := if hit then [LineOf(f, names)] else [], if hit then [[0]] else [];
      LinesJoin(f, names, target, targetExt, first, here, inside, Below(ps));
      LinesJoin(f, names, target, targetExt, first + inside, here + Below(ps), later, Shift(qs));
  }

  lemma NoLines(f: Slots, names: seq<Name>, target: seq<byte>, targetExt: seq<byte>)
    ensures LinesAre([], f, names, [], target, targetExt)
  {
  }
}
