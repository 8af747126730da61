// Shape of the cluster map in every represented state, conservation of cells, and undoing a write.
module Accounting {
  import opened Layout
  import opened Chains
  import opened Calls
  import opened Tree
  import opened Edits
  import opened Refinement
  import opened Limits
  import opened Runs
  import opened ReadBack

  // ----- shape of the map -----

  lemma {:induction false} LinksAscend(s: State, d: nat, i: nat, f: Slots, c: nat)
    requires d < 2048 && Stored(s, d, i, f) && c in Cells(f) && c < 512
    ensures s.fat[c] == EOF || (c < s.fat[c] < 512 && s.fat[c] in Cells(f))
    decreases f
  {
    hide DecodeTable, FileEntry, DirEntry;
    match f
    case Free(rest) => LinksAscend(s, d, i + 1, rest, c);
    case File(_, _, _, ch, _, rest) =>
      if c in SetOf(ch) {
        var k :| 0 <= k < |ch| && ch[k] == c;
        ChainSuffix(s.fat, ch[0], ch, k);
        if k + 1 < |ch| {
          ChainSuffix(s.fat, ch[0], ch, k + 1);
          assert ch[k + 1] in SetOf(ch);
        }
      } else {
        LinksAscend(s, d, i + 1, rest, c);
      }
    case Dir(_, c', kids, rest) =>
      if c in Cells(kids) { LinksAscend(s, c', 1, kids, c); }
      else if c != c' { LinksAscend(s, d, i + 1, rest, c); }
  }

  lemma {:induction false} LinksInjective(s: State, d: nat, i: nat, f: Slots, a: nat, b: nat)
    requires d < 2048 && Stored(s, d, i, f) && Apart(f) && a in Cells(f) && b in Cells(f)
    requires a < 512 && b < 512 && s.fat[a] == s.fat[b] != EOF
    ensures a == b
    decreases f
  {
    hide DecodeTable, FileEntry, DirEntry;
    LinksAscend(s, d, i, f, a);
    match f
    case Free(rest) => LinksInjective(s, d, i + 1, rest, a, b);
    case File(_, _, _, ch, _, rest) =>
      if a in SetOf(ch) && b in SetOf(ch) {
        ChainLinksInjective(s.fat, ch, a, b);
      } else if a in Cells(rest) && b in Cells(rest) {
        LinksInjective(s, d, i + 1, rest, a, b);
      } else {
        var x, y := if a in SetOf(ch) then a else b, if a in SetOf(ch) then b else a;
        ChainLinkInside(s.fat, ch, x);
        LinksAscend(s, d, i + 1, rest, y);
      }
    case Dir(_, c, kids, rest) =>
      if a in Cells(kids) { LinksAscend(s, c, 1, kids, a); } else { LinksAscend(s, d, i + 1, rest, a); }
      if b in Cells(kids) { LinksAscend(s, c, 1, kids, b); } else { LinksAscend(s, d, i + 1, rest, b); }
      if a in Cells(kids) { LinksInjective(s, c, 1, kids, a, b); }
      else { LinksInjective(s, d, i + 1, rest, a, b); }
  }

  lemma ChainLinkInside(fat: Fat, ch: seq<nat>, a: nat)
    requires ch != [] && IsChain(fat, ch[0], ch) && a in SetOf(ch) && a < 512 && fat[a] != EOF
    ensures fat[a] in SetOf(ch)
  {
    var k :| 0 <= k < |ch| && ch[k] == a;
    ChainSuffix(fat, ch[0], ch, k);
    assert ch[k + 1] in SetOf(ch);
  }

  lemma ChainLinksInjective(fat: Fat, ch: seq<nat>, a: nat, b: nat)
    requires ch != [] && IsChain(fat, ch[0], ch) && a in SetOf(ch) && b in SetOf(ch)
    requires a < 512 && b < 512 && fat[a] == fat[b] != EOF
    ensures a == b
  {
    var i :| 0 <= i < |ch| && ch[i] == a;
    var j :| 0 <= j < |ch| && ch[j] == b;
    ChainSuffix(fat, ch[0], ch, i);
    ChainSuffix(fat, ch[0], ch, j);
    ChainDistinct(fat, ch[0], ch);
  }

  /** In every represented state a used cell ends a chain or points to a higher used cell, and no two
      cells point to the same one: following the map from anywhere terminates. */
  lemma MapShape(s: State, t: Slots, a: nat, b: nat)
    requires Represents(s, t) && 2 <= a < 512 && 2 <= b < 512 && s.fat[a] != EMPTY && s.fat[b] != EMPTY
    ensures s.fat[a] == EOF || (a < s.fat[a] < 512 && s.fat[s.fat[a]] != EMPTY)
    ensures s.fat[a] == s.fat[b] != EOF ==> a == b
  {
    hide DecodeTable, FileStored, DirEntry;
    if a != 2 { LinksAscend(s, 2, 1, t.kids, a); }
    if b != 2 { LinksAscend(s, 2, 1, t.kids, b); }
    if s.fat[a] == s.fat[b] != EOF { LinksInjective(s, 2, 1, t.kids, a, b); }
  }

  // ----- conservation -----

  /** Clusters of file data plus one per directory. */
  ghost function CellCount(f: Slots): nat {
    match f
    case End => 0
    case Free(rest) => CellCount(rest)
    case File(_, _, _, ch, _, rest) => |ch| + CellCount(rest)
    case Dir(_, _, kids, rest) => 1 + CellCount(kids) + CellCount(rest)
  }

  lemma {:induction false} CountCells(s: State, d: nat, i: nat, f: Slots)
    requires d < 2048 && Stored(s, d, i, f) && Apart(f)
    ensures |Cells(f)| == CellCount(f)
    decreases f
  {
    hide DecodeTable, FileEntry, DirEntry;
    match f
    case End =>
    case Free(rest) => CountCells(s, d, i + 1, rest);
    case File(_, _, _, ch, _, rest) =>
      SetOfSize(ch);
      CountCells(s, d, i + 1, rest);
    case Dir(_, c, kids, rest) =>
      CountCells(s, c, 1, kids);
      CountCells(s, d, i + 1, rest);
      assert |{c} + Cells(kids)| == 1 + |Cells(kids)|;
  }

  ghost function Range(a: nat, b: nat): (r: set<nat>)
    ensures forall c :: c in r <==> a <= c < b
    decreases b - a
  {
    if a < b then {a} + Range(a + 1, b) else {}
  }

  lemma {:induction false} RangeSize(a: nat, b: nat)
    requires a <= b
    ensures |Range(a, b)| == b - a
    decreases b - a
  {
    if a < b { RangeSize(a + 1, b); }
  }

  /** Free cells and cells in use always make up the 510 usable ones. */
  lemma CellsAreConserved(s: State, t: Slots)
    requires Represents(s, t)
    ensures |FreeSet(s.fat, 2)| + CellCount(t) == 510
  {
    hide DecodeTable, FileEntry, DirEntry, FileStored, Range, RootStored, Cells, CellCount;
    assert RootStored(s, t);
    TreeInRange(s, t);
    CountTree(s, t);
    RangeSize(2, 512);
    Complement(FreeSet(s.fat, 2), Cells(t), Range(2, 512));
  }

  lemma CountTree(s: State, t: Slots)
    requires Represents(s, t)
    ensures |Cells(t)| == CellCount(t)
  {
    hide DecodeTable, FileEntry, DirEntry, FileStored;
    CountCells(s, 2, 1, t.kids);
    assert Cells(t) == {2} + Cells(t.kids);
  }

  lemma Complement(a: set<nat>, b: set<nat>, all: set<nat>)
    requires forall c :: c in all <==> c in a || c in b
    requires a !! b
    ensures |a| + |b| == |all|
  {
    assert a + b == all;
  }

  // ----- undo -----

  lemma ZeroedLater(disk: Disk, cells: seq<nat>, blocks: seq<Cluster>, fat: Fat, p: nat, tab: Table)
    requires Within(cells, 512) && Distinct(cells) && |blocks| == |cells| && 2 <= p < 2048 && p !in cells
    requires forall c :: c in cells ==> 2 <= c
    ensures var d := Commit(Written(disk, cells, blocks, |cells|), fat, p, tab);
            forall c :: 0 <= c < 2048 && c != 1 && c != p ==> ZeroAll(d, cells)[c] == ZeroAll(disk, cells)[c]
  {
    hide EncodeFat, EncodeTable;
    WrittenHolds(disk, cells, blocks, |cells|);
    assert cells[..|cells|] == cells;
  }

  lemma FreedLater(fat: Fat, cells: seq<nat>)
    requires cells != [] && Distinct(cells) && Within(cells, 512)
    requires forall c :: c in cells && c < 512 ==> fat[c] == EMPTY
    ensures FreeAll(Link(fat, cells), cells) == fat
  {
    LinkMakesChain(fat, cells);
  }

  /** Writing a file of two clusters or more and deleting it again restores the map cell for cell and
      the parent's table byte for byte; only the file's own clusters are left zeroed. */
  lemma WriteThenDelete(s: State, t: Slots, r: Request, data: seq<byte>, stack: Table)
    requires Represents(s, t) && Synced(s) && Legal(s, t, WriteOp(r, data, stack))
    requires r.size >= 4096 && Write(s, r, data, stack).1 == 0
    requires FindFree(TableAt(s, r.parent), 0) <= FindEntry(TableAt(s, r.parent), r.name, r.ext, 1)
    ensures var s1 := Write(s, r, data, stack).0;
            && DeleteDefined(s1, r)
            && Delete(s1, r) == (State(s.fat, ZeroAll(s.disk, FreeCells(s.fat, 2, r.size / 2048))), 0)
  {
    hide DecodeTable, EncodeTable, EncodeFat, DirStored, FileStored, Stored, RootStored, Edit,
         TargetSlot, FreeCells, MakeFile, Release, Link, Written, FindEntry, FindFree, TableAt;
    var (s1, t1) := After(s, t, WriteOp(r, data, stack));
    WroteIntoFreeSlot(s, t, r, data, stack);
    WriteDelivers(s, t, r, data, stack);
    DeleteDefinedIff(s1, t1, r);
    DeleteRefines(s1, t1, r);
    var ch := Released(s1, t1, r);
    SlotRestored(s, t, r, data, stack);
    DirsOutside(s, t, ch);
    Undone(s, r, data, ch);
  }

  lemma SlotRestored(s: State, t: Slots, r: Request, data: seq<byte>, stack: Table)
    requires Represents(s, t) && Legal(s, t, WriteOp(r, data, stack))
    requires r.size != 0 && Write(s, r, data, stack).1 == 0
    ensures r.parent < 512
    ensures var j := FindFree(TableAt(s, r.parent), 0);
            j < 64 && TableAt(Write(s, r, data, stack).0, r.parent)[j := ZERO_ENTRY] == TableAt(s, r.parent)
  {
    hide DecodeTable, DirStored, FileStored, Stored, EncodeFat, MakeFile, FreeCells, FileEntry, TargetSlot;
    WroteIntoFreeSlot(s, t, r, data, stack);
    var p, x := r.parent, NewFile(s, r, data);
    DirsOutside(s, t, x.chain);
    MakeFileDelta(s, r, data, x.chain);
    SlotAtStored(s, t, p, FindFree(TableAt(s, p), 0));
  }

  lemma Undone(s: State, r: Request, data: seq<byte>, cells: seq<nat>)
    requires 2 <= r.parent < 512 && 2048 <= r.size && 2048 * (r.size / 2048) <= |data|
    requires cells == FreeCells(s.fat, 2, r.size / 2048) && |cells| == r.size / 2048
    requires r.parent !in cells && s.disk[1] == EncodeFat(s.fat)
    ensures Release(MakeFile(s, r, data).0, cells, r.parent, TableAt(s, r.parent))
            == State(s.fat, ZeroAll(s.disk, cells))
  {
    hide DecodeTable, EncodeTable, EncodeFat, FreeCells, Link, Written, FileEntry, Block;
    var s1, p, n := MakeFile(s, r, data).0, r.parent, |cells|;
    var tab := TableAt(s, p);
    FreeCellsAscend(s.fat, 2, n);
    FreedLater(s.fat, cells);
    ZeroedLater(s.disk, cells, Blocks(data, n), Link(s.fat, cells), p,
                tab[TargetSlot(tab) := FileEntry(r.name, r.ext, r.size, cells[0])]);
    TableBytesRoundTrip(s.disk[p]);
    var d := Release(s1, cells, p, tab).disk;
    forall c | 0 <= c < 2048 ensures d[c] == ZeroAll(s.disk, cells)[c] {}
    assert d == ZeroAll(s.disk, cells);
  }
}
