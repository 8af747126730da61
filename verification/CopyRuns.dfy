// Every way a call of copy_folder can end, from any state; and what becomes of a source that lists a
// directory with its own name.
module CopyRuns {
  import opened Layout
  import opened Chains
  import opened Calls
  import opened Tree
  import opened TreeFacts
  import opened Edits
  import opened Refinement
  import opened Moving
  import opened Accounting
  import opened Copying
  import opened CopyReadiness

  // ----- the runs -----

  /** The table a lookup leaves in the caller's variable: the one found, or whatever was there before. */
  predicate Leaves(s: State, name: Name, parent: u32, t: Table) {
    parent < 2048 &&
    var (code, c) := LookupDir(s, Request(name, NO_EXT, parent, 0));
    code == 0 ==> c < 2048 && t == TableAt(s, c)
  }

  /** `copy_folder(name, parent, dest)` started in `s` can end in `s'`, with calls nested at most `n` deep.
      Tables that no lookup has filled and the uninitialised part of new tables are arbitrary; a run that
      leaves the disk has no end. */
  ghost predicate Ends(s: State, name: Name, parent: u32, dest: u32, s': State, n: nat)
    decreases n, 66
  {
    exists source: Table, stack: Table ::
      Leaves(s, name, parent, source) && EndsMaking(s, name, dest, source, stack, s', n)
  }

  ghost predicate EndsMaking(s: State, name: Name, dest: u32, source: Table, stack: Table, s': State, n: nat)
    decreases n, 65
  {
    dest < 2048 &&
    var (s1, code) := Write(s, Request(name, NO_EXT, dest, 0), [], stack);
    if code != 0 then s' == s1
    else exists target: Table :: Leaves(s1, name, dest, target) && EndsLoop(s1, source, target, 1, s', n)
  }

  ghost predicate EndsLoop(s: State, source: Table, target: Table, i: nat, s': State, n: nat)
    decreases n, if i < 64 then 64 - i else 0
  {
    if i >= 64 then s' == s
    else
      exists s1: State ::
        EndsEntry(s, source[i], Head(source[0]), Head(target[0]), s1, n) && EndsLoop(s1, source, target, i + 1, s', n)
  }

  ghost predicate EndsEntry(s: State, e: Entry, from: u32, to: u32, s': State, n: nat)
    decreases n, 0
  {
    if e.userAttribute != UATTR_NOT_EMPTY then s' == s
    else if e.attribute != ATTR_ARCHIVE then n > 0 && Ends(s, e.name, from, to, s', n - 1)
    else exists stack: Table, rest: seq<byte> :: EndsFile(s, Request(e.name, e.ext, from, e.filesize), to, rest, stack, s')
  }

  /** `copy_file`; what `read` does not fill of its buffer is `rest`. */
  ghost predicate EndsFile(s: State, r: Request, to: u32, rest: seq<byte>, stack: Table, s': State) {
    && ReadDefined(s, r) && to < 2048 && 2048 <= r.size
    && var (code, blocks) := Read(s, r);
       if code != 0 then s' == s
       else
         var data := Concat(blocks) + rest;
         |data| == 2048 * (r.size / 2048) && s' == Write(s, r.(parent := to), data, stack).0
  }

  // ----- what every write keeps, whatever the state -----

  predicate Full(a: Table) {
    forall j :: 0 <= j < 64 ==> a[j].userAttribute == UATTR_NOT_EMPTY
  }

  /** A table after calls of `write`: live entries stay, except the one in slot 0 of a full table, which
      gives way to one for another cluster. */
  predicate Evolved(c: nat, a: Table, b: Table) {
    && (forall j :: 0 <= j < 64 ==> b[j] == a[j] || b[j].userAttribute == UATTR_NOT_EMPTY)
    && (forall j :: 1 <= j < 64 && a[j].userAttribute == UATTR_NOT_EMPTY ==> b[j] == a[j])
    && (a[0].userAttribute == UATTR_NOT_EMPTY ==> b[0] == a[0] || (Full(b) && Head(b[0]) != c))
  }

  ghost predicate Grown(s: State, s': State) {
    forall c :: 2 <= c < 512 && s.fat[c] != EMPTY ==> s'.fat[c] != EMPTY && Evolved(c, TableAt(s, c), TableAt(s', c))
  }

  lemma EvolvedTwice(c: nat, a: Table, b: Table, d: Table)
    requires Evolved(c, a, b) && Evolved(c, b, d)
    ensures Evolved(c, a, d)
  {
  }

  lemma GrownTwice(s: State, s1: State, s2: State)
    requires Grown(s, s1) && Grown(s1, s2)
    ensures Grown(s, s2)
  {
    hide DecodeTable, Evolved;
    forall c | 2 <= c < 512 && s.fat[c] != EMPTY
      ensures s2.fat[c] != EMPTY && Evolved(c, TableAt(s, c), TableAt(s2, c))
    {
      EvolvedTwice(c, TableAt(s, c), TableAt(s1, c), TableAt(s2, c));
    }
  }

  lemma GrownSelf(s: State)
    ensures Grown(s, s)
  {
    hide DecodeTable, TableAt;
  }

  /** A table that differs from the one it started as never becomes equal again. */
  lemma NeverAgain(c: nat, a: Table, b: Table, d: Table)
    requires Evolved(c, a, b) && Evolved(c, b, d) && b != a && Head(a[0]) == c
    requires a[0].userAttribute == UATTR_NOT_EMPTY
    ensures d != a
  {
    var j :| 0 <= j < 64 && b[j] != a[j];
    if j > 0 { assert d[j] == b[j]; }
  }

  /** One slot of the parent's table takes an entry for a cell that was free. */
  lemma SlotTaken(c: nat, a: Table, e: Entry)
    requires e.userAttribute == UATTR_NOT_EMPTY && Head(e) != c
    ensures Evolved(c, a, a[TargetSlot(a) := e])
  {
  }

  lemma WriteGrows(s: State, r: Request, data: seq<byte>, stack: Table)
    requires WriteDefined(r, data)
    ensures Grown(s, Write(s, r, data, stack).0)
  {
    hide DecodeTable, EncodeTable, EncodeFat, TableAt, MakeFile, MakeDirectory, Grown;
    GrownSelf(s);
    if r.name != NO_NAME && 2 <= r.parent {
      if r.size == 0 { MakeDirectoryGrows(s, r, stack); } else { MakeFileGrows(s, r, data); }
    }
  }

  lemma MakeDirectoryGrows(s: State, r: Request, stack: Table)
    requires 2 <= r.parent < 2048
    ensures Grown(s, MakeDirectory(s, r, stack).0)
  {
    hide DecodeTable, EncodeTable, EncodeFat, Evolved, FreeCells, TargetSlot, DirEntry;
    var free, s' := FreeCells(s.fat, 2, 1), MakeDirectory(s, r, stack).0;
    var tab := TableAt(s, r.parent);
    if free != [] && free[0] != 511 {
      var e := DirEntry(r.name, free[0]).(ext := tab[TargetSlot(tab)].ext);
      CommitFacts(s.disk[free[0] := EncodeTable(stack[0 := DirEntry(r.name, free[0])])], s'.fat, r.parent,
                  tab[TargetSlot(tab) := e]);
      forall c | 2 <= c < 512 && s.fat[c] != EMPTY ensures Evolved(c, TableAt(s, c), TableAt(s', c)) {
        LiveEntry(r.name, free[0], tab[TargetSlot(tab)].ext);
        if c == r.parent { SlotTaken(c, tab, e); } else { assert s'.disk[c] == s.disk[c]; Unevolved(c, TableAt(s, c)); }
      }
    } else {
      forall c | 2 <= c < 512 ensures Evolved(c, TableAt(s, c), TableAt(s', c)) { Unevolved(c, TableAt(s, c)); }
    }
  }

  lemma Unevolved(c: nat, a: Table)
    ensures Evolved(c, a, a)
  {
  }

  lemma LiveEntry(name: Name, c: u32, ext: Ext)
    ensures var e := DirEntry(name, c).(ext := ext); e.userAttribute == UATTR_NOT_EMPTY && Head(e) == c
  {
    assert Head(DirEntry(name, c)) == c;
  }

  lemma MakeFileGrows(s: State, r: Request, data: seq<byte>)
    requires 2 <= r.parent < 2048 && 2048 <= r.size && 2048 * (r.size / 2048) <= |data|
    ensures Grown(s, MakeFile(s, r, data).0)
  {
    hide DecodeTable, EncodeTable, EncodeFat, Evolved, FreeCells, TargetSlot, FileEntry, Link, Written;
    var n := r.size / 2048;
    var cells, s', tab := FreeCells(s.fat, 2, n), MakeFile(s, r, data).0, TableAt(s, r.parent);
    if |cells| == n {
      FreeCellsAscend(s.fat, 2, n);
      LinkCells(s.fat, cells);
      WrittenHolds(s.disk, cells, Blocks(data, n), n);
      var e := FileEntry(r.name, r.ext, r.size, cells[0]);
      assert Head(e) == cells[0] && e.userAttribute == UATTR_NOT_EMPTY by { LiveFile(r, cells[0]); }
      CommitFacts(Written(s.disk, cells, Blocks(data, n), n), s'.fat, r.parent, tab[TargetSlot(tab) := e]);
      assert cells[..n] == cells;
      forall c | 2 <= c < 512 && s.fat[c] != EMPTY
        ensures s'.fat[c] != EMPTY && Evolved(c, TableAt(s, c), TableAt(s', c))
      {
        if c == r.parent { SlotTaken(c, tab, e); } else { assert s'.disk[c] == s.disk[c]; Unevolved(c, TableAt(s, c)); }
      }
    } else {
      forall c | 2 <= c < 512 ensures Evolved(c, TableAt(s, c), TableAt(s', c)) { Unevolved(c, TableAt(s, c)); }
    }
  }

  lemma LiveFile(r: Request, c: u32)
    ensures var e := FileEntry(r.name, r.ext, r.size, c); e.userAttribute == UATTR_NOT_EMPTY && Head(e) == c
  {
    assert Head(FileEntry(r.name, r.ext, r.size, c)) == c;
  }

  // ----- and every run -----

  lemma {:induction false} EndsGrow(s: State, name: Name, parent: u32, dest: u32, s': State, n: nat)
    requires Ends(s, name, parent, dest, s', n)
    ensures Grown(s, s')
    decreases n, 66
  {
    hide Grown, Leaves, Write, EndsLoop;
    var source: Table, stack: Table :|
      Leaves(s, name, parent, source) && EndsMaking(s, name, dest, source, stack, s', n);
    var (s1, code) := Write(s, Request(name, NO_EXT, dest, 0), [], stack);
    WriteGrows(s, Request(name, NO_EXT, dest, 0), [], stack);
    if code == 0 {
      var target: Table :| Leaves(s1, name, dest, target) && EndsLoop(s1, source, target, 1, s', n);
      LoopGrows(s1, source, target, 1, s', n);
      GrownTwice(s, s1, s');
    }
  }

  lemma {:induction false} LoopGrows(s: State, source: Table, target: Table, i: nat, s': State, n: nat)
    requires EndsLoop(s, source, target, i, s', n)
    ensures Grown(s, s')
    decreases n, if i < 64 then 64 - i else 0
  {
    hide Grown, EndsEntry;
    if i >= 64 {
      GrownSelf(s);
    } else {
      var s1: State :|
        EndsEntry(s, source[i], Head(source[0]), Head(target[0]), s1, n) && EndsLoop(s1, source, target, i + 1, s', n);
      EntryGrows(s, source[i], Head(source[0]), Head(target[0]), s1, n);
      LoopGrows(s1, source, target, i + 1, s', n);
      GrownTwice(s, s1, s');
    }
  }

  lemma {:induction false} EntryGrows(s: State, e: Entry, from: u32, to: u32, s': State, n: nat)
    requires EndsEntry(s, e, from, to, s', n)
    ensures Grown(s, s')
    decreases n, 0
  {
    hide Grown, Write, Read, ReadDefined, Ends;
    GrownSelf(s);
    if e.userAttribute == UATTR_NOT_EMPTY {
      if e.attribute != ATTR_ARCHIVE {
        EndsGrow(s, e.name, from, to, s', n - 1);
      } else {
        var r := Request(e.name, e.ext, from, e.filesize);
        var stack: Table, rest: seq<byte> :| EndsFile(s, r, to, rest, stack, s');
        var (code, blocks) := Read(s, r);
        if code == 0 { WriteGrows(s, r.(parent := to), Concat(blocks) + rest, stack); }
      }
    }
  }

  // ----- a source with a child of its own name -----

  /** No cell is left that a directory could get. */
  ghost predicate OutOfRoom(fat: Fat) {
    forall c :: 2 <= c < 511 ==> fat[c] != EMPTY
  }

  lemma FullMapEnds(s: State, r: Request, stack: Table)
    requires 2 <= r.parent < 2048 && MakeDirectory(s, r, stack).1 != 0
    ensures OutOfRoom(MakeDirectory(s, r, stack).0.fat)
  {
    hide FreeCells, TableAt;
    var free := FreeCells(s.fat, 2, 1);
    forall c | 2 <= c < 511 ensures s.fat[c] != EMPTY {
      if s.fat[c] == EMPTY { FirstFit(s.fat, 2, 1, c); }
    }
  }

  lemma OutOfRoomStays(s: State, s': State)
    requires Grown(s, s') && OutOfRoom(s.fat)
    ensures OutOfRoom(s'.fat)
  {
    hide DecodeTable, TableAt, Evolved;
  }

  lemma NoRoom(fat: Fat)
    requires OutOfRoom(fat)
    ensures Room(fat) == 0
  {
    assert FreeSet(fat, 2) == if fat[511] == EMPTY then {511} else {};
  }

  /** The directory being filled is not the source, and looking up `own` in it, once a directory of that
      name has been made there, leads to a directory of this kind again. */
  ghost predicate TargetReady(s: State, d: u32, own: Name, x: nat) {
    && 2 <= d < 512 && d != x && s.fat[d] != EMPTY
    && (Full(TableAt(s, d)) || TableAt(s, d)[0] == DirEntry(own, d))
  }

  lemma TargetStays(s: State, s': State, d: u32, own: Name, x: nat)
    requires Grown(s, s') && TargetReady(s, d, own, x)
    ensures TargetReady(s', d, own, x)
  {
    hide DecodeTable, TableAt;
    assert Evolved(d, TableAt(s, d), TableAt(s', d));
  }

  lemma TargetFollows(s: State, d: u32, own: Name, x: nat, stack: Table, target: Table)
    requires TargetReady(s, d, own, x) && own != NO_NAME && 2 <= x < 512 && s.fat[x] != EMPTY
    requires var (s1, code) := Write(s, Request(own, NO_EXT, d, 0), [], stack); code == 0 && Leaves(s1, own, d, target)
    ensures TargetReady(Write(s, Request(own, NO_EXT, d, 0), [], stack).0, Head(target[0]), own, x)
  {
    hide DecodeTable, EncodeTable, EncodeFat, FreeCells, Head, DirEntry, Full;
    var r := Request(own, NO_EXT, d, 0);
    var s1, free := Write(s, r, [], stack).0, FreeCells(s.fat, 2, 1);
    var c, a, b := free[0], TableAt(s, d), TableAt(s1, d);
    assert free == [c];
    MakeDirectoryDelta(s, r, stack, c);
    WriteGrows(s, r, [], stack);
    TargetStays(s, s1, d, own, x);
    OwnHead(own, c, a[TargetSlot(a)].ext);
    OwnHead(own, d, NO_EXT);
    if Full(a) {
      assert TargetSlot(a) == 0 by { FullTarget(a); }
      assert FindDir(b, own, 0) == 0;
      assert TableAt(s1, c)[0] == DirEntry(own, c);
    } else {
      OpenTarget(a);
      assert FindDir(b, own, 0) == 0;
    }
  }

  lemma FullTarget(a: Table)
    requires Full(a)
    ensures TargetSlot(a) == 0
  {
  }

  lemma OpenTarget(a: Table)
    requires !Full(a) && a[0].userAttribute == UATTR_NOT_EMPTY
    ensures TargetSlot(a) >= 1
  {
  }

  lemma OwnHead(own: Name, c: u32, ext: Ext)
    ensures var e := DirEntry(own, c).(ext := ext);
            && e.name == own && e.attribute == ATTR_SUBDIRECTORY && e.userAttribute == UATTR_NOT_EMPTY && Head(e) == c
    ensures DirEntry(own, c).userAttribute == UATTR_NOT_EMPTY && Head(DirEntry(own, c)) == c
    ensures DirEntry(own, c).name == own && DirEntry(own, c).attribute == ATTR_SUBDIRECTORY
  {
    assert Head(DirEntry(own, c)) == c;
  }

  /** Directory `x` as it was in `s0`: in use, called `own`, with a directory called `own` in slot `m`. */
  ghost predicate OwnNamed(s0: State, x: nat, own: Name, m: nat) {
    && 2 <= x < 512 && s0.fat[x] != EMPTY && own != NO_NAME && 1 <= m < 64
    && TableAt(s0, x)[0] == DirEntry(own, x)
    && var e := TableAt(s0, x)[m];
       e.userAttribute == UATTR_NOT_EMPTY && e.attribute != ATTR_ARCHIVE && e.name == own
  }

  /** The source table has been written to for good, or there is no room left. */
  ghost predicate Spoilt(s0: State, s: State, x: nat)
    requires x < 512
  {
    TableAt(s, x) != TableAt(s0, x) || OutOfRoom(s.fat)
  }

  lemma SpoiltStays(s0: State, s: State, s': State, x: nat, own: Name, m: nat)
    requires OwnNamed(s0, x, own, m) && Grown(s0, s) && Grown(s, s') && Spoilt(s0, s, x)
    ensures Spoilt(s0, s', x)
  {
    hide DecodeTable, TableAt, Evolved, DirEntry, Head;
    if OutOfRoom(s.fat) {
      OutOfRoomStays(s, s');
    } else {
      OwnHead(own, x, NO_EXT);
      NeverAgain(x, TableAt(s0, x), TableAt(s, x), TableAt(s', x));
    }
  }

  /** A call for the child ends only when the source has been spoilt or the map is full. */
  lemma {:induction false} OwnCallSpoils(s0: State, s: State, x: u32, own: Name, m: nat, d: u32, s': State, n: nat)
    requires OwnNamed(s0, x, own, m) && Grown(s0, s) && TargetReady(s, d, own, x) && Ends(s, own, x, d, s', n)
    ensures Grown(s, s') && Spoilt(s0, s', x)
    decreases n, 66
  {
    hide DecodeTable, TableAt, Grown, TargetReady, EndsLoop, Write, LookupDir;
    EndsGrow(s, own, x, d, s', n);
    if TableAt(s, x) != TableAt(s0, x) {
      SpoiltStays(s0, s, s', x, own, m);
    } else {
      var source: Table, stack: Table :|
        Leaves(s, own, x, source) && EndsMaking(s, own, d, source, stack, s', n);
      OwnLookup(s, x, own);
      assert source == TableAt(s0, x);
      var r := Request(own, NO_EXT, d, 0);
      var (s1, code) := Write(s, r, [], stack);
      WriteGrows(s, r, [], stack);
      GrownTwice(s0, s, s1);
      if code != 0 {
        MakingFails(s, r, stack, x);
      } else {
        var target: Table :| Leaves(s1, own, d, target) && EndsLoop(s1, source, target, 1, s', n);
        assert s.fat[x] != EMPTY by { StillUsed(s0, s, x); }
        TargetFollows(s, d, own, x, stack, target);
        OwnLoopSpoils(s0, s1, x, own, m, source, target, 1, s', n);
      }
    }
  }

  lemma StillUsed(s0: State, s: State, x: nat)
    requires Grown(s0, s) && 2 <= x < 512 && s0.fat[x] != EMPTY
    ensures s.fat[x] != EMPTY
  {
    hide TableAt, Evolved;
  }

  lemma OwnLookup(s: State, x: u32, own: Name)
    requires x < 512 && own != NO_NAME && TableAt(s, x)[0] == DirEntry(own, x)
    ensures LookupDir(s, Request(own, NO_EXT, x, 0)) == (0, x)
  {
    hide DecodeTable;
    assert FindDir(TableAt(s, x), own, 0) == 0;
  }

  lemma MakingFails(s: State, r: Request, stack: Table, x: nat)
    requires TargetReady(s, r.parent, r.name, x) && r.size == 0 && r.name != NO_NAME && Write(s, r, [], stack).1 != 0
    ensures OutOfRoom(Write(s, r, [], stack).0.fat)
  {
    hide TableAt, MakeDirectory;
    FullMapEnds(s, r, stack);
  }

  lemma {:induction false} OwnLoopSpoils(s0: State, s: State, x: u32, own: Name, m: nat, source: Table, target: Table,
                                         i: nat, s': State, n: nat)
    requires OwnNamed(s0, x, own, m) && Grown(s0, s) && source == TableAt(s0, x) && 1 <= i <= m
    requires TargetReady(s, Head(target[0]), own, x) && EndsLoop(s, source, target, i, s', n)
    ensures Spoilt(s0, s', x)
    decreases n, 64 - i
  {
    hide DecodeTable, TableAt, Grown, TargetReady, Ends, Spoilt, DirEntry, Head;
    OwnHead(own, x, NO_EXT);
    var s1: State :|
      EndsEntry(s, source[i], Head(source[0]), Head(target[0]), s1, n) && EndsLoop(s1, source, target, i + 1, s', n);
    EntryGrows(s, source[i], Head(source[0]), Head(target[0]), s1, n);
    GrownTwice(s0, s, s1);
    if i == m {
      OwnCallSpoils(s0, s, x, own, m, Head(target[0]), s1, n - 1);
      LoopGrows(s1, source, target, i + 1, s', n);
      SpoiltStays(s0, s1, s', x, own, m);
    } else {
      TargetStays(s, s1, Head(target[0]), own, x);
      OwnLoopSpoils(s0, s1, x, own, m, source, target, i + 1, s', n);
    }
  }

  /** Copying a directory that lists one with its own name never ends in a copy, however the run goes on,
      as long as there is a cell to spare; on a map that the copy would fill exactly, running out of cells
      can stop the recursion in time. */
  lemma OwnNameCopyFails(s: State, t: Slots, name: Name, parent: u32, m: nat, dest: u32, x: Slots, k: nat,
                         s': State, n: nat, copy: Slots)
    requires Represents(s, t) && parent in Dirs(t) && parent < 512 && dest in Dirs(t) && dest < 512
    requires 1 <= m < 64 && x == SlotAt(t, parent, m) && x.Dir? && x.name == name && x.cluster < 512
    requires LookupDir(s, Request(name, NO_EXT, parent, 0)) == (0, x.cluster) && dest != x.cluster
    requires FindFree(TableAt(s, dest), 0) < 64
    requires FindFree(TableAt(s, dest), 0) <= FindDir(TableAt(s, dest), name, 0)
    requires 1 <= k < 64 && Slot(x.kids, 1, k).Dir? && Slot(x.kids, 1, k).name == name
    requires CellCount(x) < Room(s.fat) && Ends(s, name, parent, dest, s', n)
    ensures !Copied(s, s', t, dest, x, copy)
  {
    hide DecodeTable, TableAt, Grown, EndsLoop, Write, LookupDir, Represents, TargetReady, Room, FindFree, FindDir, Copied, CellCount, Slot, SlotAt, Spoilt, Dirs;
    SourceOwnNamed(s, t, name, parent, m, x, k);
    var source: Table, stack: Table :|
      Leaves(s, name, parent, source) && EndsMaking(s, name, dest, source, stack, s', n);
    var r := Request(name, NO_EXT, dest, 0);
    var (s1, code) := Write(s, r, [], stack);
    WriteGrows(s, r, [], stack);
    if code != 0 {
      RepresentsRoot(s, t);
      DirectoryHead(s, t, dest);
      MakingFailsAnywhere(s, r, stack);
      NoCopyWithoutRoom(s, s', t, dest, x, copy);
    } else {
      var target: Table :| Leaves(s1, name, dest, target) && EndsLoop(s1, source, target, 1, s', n);
      FirstTarget(s, t, r, stack, target, x.cluster);
      OwnLoopSpoils(s, s1, x.cluster, name, k, source, target, 1, s', n);
      SpoiltIsNoCopy(s, s', t, dest, x, copy);
    }
  }

  lemma NoCopyWithoutRoom(s: State, s': State, t: Slots, dest: nat, x: Slots, copy: Slots)
    requires CellCount(x) < Room(s.fat) && OutOfRoom(s'.fat)
    ensures !Copied(s, s', t, dest, x, copy)
  {
    hide Room, Represents, Synced, Untouched;
    NoRoom(s'.fat);
  }

  lemma SourceOwnNamed(s: State, t: Slots, name: Name, parent: nat, m: nat, x: Slots, k: nat)
    requires Represents(s, t) && parent in Dirs(t) && parent < 512 && 1 <= m < 64 && x == SlotAt(t, parent, m)
    requires x.Dir? && x.name == name && x.cluster < 512
    requires 1 <= k < 64 && Slot(x.kids, 1, k).Dir? && Slot(x.kids, 1, k).name == name
    ensures OwnNamed(s, x.cluster, name, k)
  {
    hide DecodeTable, FileStored, FileEntry;
    SlotAtStored(s, t, parent, m);
    SlotStored(s, x.cluster, 1, x.kids, k);
    var e, y := TableAt(s, x.cluster)[k], Slot(x.kids, 1, k);
    SlotKind(s, y);
    assert e == EntryOf(s, y);
  }

  lemma MakingFailsAnywhere(s: State, r: Request, stack: Table)
    requires 2 <= r.parent < 2048 && r.size == 0 && r.name != NO_NAME && Write(s, r, [], stack).1 != 0
    ensures OutOfRoom(Write(s, r, [], stack).0.fat)
  {
    hide TableAt, MakeDirectory;
    FullMapEnds(s, r, stack);
  }

  /** The new directory is the first one to be filled. */
  lemma FirstTarget(s: State, t: Slots, r: Request, stack: Table, target: Table, x: nat)
    requires Represents(s, t) && r.parent in Dirs(t) && r.parent < 512 && r.size == 0 && r.name != NO_NAME && r.ext == NO_EXT
    requires var j := FindFree(TableAt(s, r.parent), 0); j < 64 && j <= FindDir(TableAt(s, r.parent), r.name, 0)
    requires 2 <= x < 512 && s.fat[x] != EMPTY
    requires var (s1, code) := Write(s, r, [], stack); code == 0 && Leaves(s1, r.name, r.parent, target)
    ensures TargetReady(Write(s, r, [], stack).0, Head(target[0]), r.name, x)
  {
    hide DecodeTable, EncodeTable, EncodeFat, FreeCells, Head, DirEntry, Full, Represents, FindDir, FindFree, LookupDir;
    RepresentsRoot(s, t);
    DirectoryHead(s, t, r.parent);
    NewDirectoryResolves(s, t, r, stack);
    var s1, c := Write(s, r, [], stack).0, FreeCells(s.fat, 2, 1)[0];
    assert FreeCells(s.fat, 2, 1) == [c];
    MakeDirectoryDelta(s, r, stack, c);
    OwnHead(r.name, c, NO_EXT);
    assert target == TableAt(s1, c);
  }

  lemma SpoiltIsNoCopy(s: State, s': State, t: Slots, dest: nat, x: Slots, copy: Slots)
    requires x.Dir? && 2 <= x.cluster < 512 && x.cluster != dest && s.fat[x.cluster] != EMPTY
    requires CellCount(x) < Room(s.fat) && Spoilt(s, s', x.cluster)
    ensures !Copied(s, s', t, dest, x, copy)
  {
    hide DecodeTable, Represents, Room, Synced;
    if OutOfRoom(s'.fat) { NoCopyWithoutRoom(s, s', t, dest, x, copy); }
  }
}
