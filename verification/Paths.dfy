// Names as paths: the shell's directory stack, and the search that walks the whole tree by name.
module Paths {
  import opened Layout
  import opened Memory
  import opened Calls
  import opened Tree
  import opened TreeFacts
  import opened Edits
  import opened Moving

  /** A char is signed. */
  function Signed(c: byte): (v: int)
    ensures -128 <= v < 128 && (v - c) % 256 == 0
  {
    if c < 128 then c else c - 256
  }

  /** `r` is the difference of the two strings at the first place where they differ. */
  ghost predicate DifferBy(a: seq<byte>, b: seq<byte>, r: int) {
    exists i :: 0 <= i < |a| && i < |b| && a[..i] == b[..i] && a[i] != b[i] && r == Signed(a[i]) - Signed(b[i])
  }

  /** strcmp: zero exactly when the two strings are equal, otherwise the difference at the first place where
      they differ. */
  method Strcmp(a: seq<byte>, b: seq<byte>) returns (r: int)
    requires 0 in a && 0 in b
    ensures r == 0 <==> CStr(a) == CStr(b)
    ensures r != 0 ==> DifferBy(a, b, r)
  {
    var i := 0;
    while a[i] == b[i]
      invariant 0 <= i < |a| && i < |b| && a[..i] == b[..i]
      invariant forall k :: 0 <= k < i ==> a[k] != 0 && b[k] != 0
      decreases |a| - i
    {
      if a[i] == 0 {
        CStrTail(a, i);
        CStrTail(b, i);
        return 0;
      }
      NulIsAhead(a, i);
      NulIsAhead(b, i);
      assert a[..i + 1] == a[..i] + [a[i]] && b[..i + 1] == b[..i] + [b[i]];
      i := i + 1;
    }
    FirstDifference(a, b, i);
    r := Signed(a[i]) - Signed(b[i]);
  }

  lemma FirstDifference(a: seq<byte>, b: seq<byte>, i: nat)
    requires i < |a| && i < |b| && a[..i] == b[..i] && a[i] != b[i]
    requires forall k :: 0 <= k < i ==> a[k] != 0 && b[k] != 0
    ensures CStr(a) != CStr(b)
  {
    hide CStr;
    CStrTail(a, i);
    CStrTail(b, i);
    CStrHead(a[i..]);
    CStrHead(b[i..]);
    var x, y := CStr(a[i..]), CStr(b[i..]);
    assert (a[..i] + x)[i..] == x && (b[..i] + y)[i..] == y;
  }

  lemma CStrHead(a: seq<byte>)
    requires a != []
    ensures if a[0] == 0 then CStr(a) == [] else CStr(a) != [] && CStr(a)[0] == a[0]
  {
  }

  // ----- the directory stack -----

  datatype Level = Level(number: nat, name: Name)

  const UP: seq<byte> := [0x2E, 0x2E, 0, 0, 0, 0, 0, 0]
  const HERE: seq<byte> := [0x2E, 0, 0, 0, 0, 0, 0, 0]

  /** The stack after `change_directory(dir)`. */
  function Cd(s: State, path: seq<Level>, dir: seq<byte>): (r: seq<Level>)
    requires CdDefined(s, path, dir)
    ensures 1 <= |r| <= |path| + 1
  {
    var top := path[|path| - 1];
    if CStr(dir) == CStr(UP) then (if |path| <= 1 then path else path[..|path| - 1])
    else if CStr(dir) == CStr(HERE) then path
    else
      var (code, c) := LookupDir(s, Request(dir[..8], NO_EXT, top.number, 0));
      if code != 0 then path else path + [Level(Head(TableAt(s, c)[0]), dir[..8])]
  }

  predicate CdDefined(s: State, path: seq<Level>, dir: seq<byte>) {
    && path != [] && |dir| >= 8 && 0 in dir
    && path[|path| - 1].number < 2048
    && ReadDirectoryDefined(s, Request(dir[..8], NO_EXT, path[|path| - 1].number, 0))
  }

  /** Every level is a live directory. */
  ghost predicate Live(t: Slots, path: seq<Level>) {
    path != [] && forall i :: 0 <= i < |path| ==> path[i].number in Dirs(t) && path[i].number < 512
  }

  /** Slot `m` of directory `p` lists directory `c` as `name`. */
  ghost predicate ListsChild(t: Slots, p: nat, m: nat, name: Name, c: nat) {
    1 <= m < 64 && SlotAt(t, p, m).Dir? && SlotAt(t, p, m).name == name && SlotAt(t, p, m).cluster == c
  }

  ghost predicate IsChild(t: Slots, p: nat, name: Name, c: nat) {
    exists m :: ListsChild(t, p, m, name, c)
  }

  /** The stack spells a path of the tree: level 0 is the root, each level a child of the one below. */
  ghost predicate Spells(t: Slots, path: seq<Level>) {
    && Live(t, path) && path[0] == Level(2, ROOT_NAME)
    && forall i :: 0 < i < |path| ==> IsChild(t, path[i - 1].number, path[i].name, path[i].number)
  }

  /** What a name resolves to: the directory itself when it is its own name, else a child of that name. */
  lemma Resolution(s: State, t: Slots, p: nat, own: Name, name: Name)
    requires Represents(s, t) && p in Dirs(t) && p < 512 && DirStored(s, own, p) && name != NO_NAME
    ensures var (code, c) := LookupDir(s, Request(name, NO_EXT, p, 0));
            if name == own then code == 0 && c == p
            else && (code == 0 ==> IsChild(t, p, name, c) && c in Dirs(t) && c < 512)
                 && (code != 0 <==> !exists c' :: IsChild(t, p, name, c'))
  {
    hide DecodeTable, FileStored, Stored, RootStored;
    assert RootStored(s, t);
    var k := FindDir(TableAt(s, p), name, 0);
    forall m | 1 <= m < 64
      ensures SlotAt(t, p, m).Dir? && SlotAt(t, p, m).name == name <==>
              TableAt(s, p)[m].name == name && TableAt(s, p)[m].attribute == ATTR_SUBDIRECTORY
    {
      SlotAtStored(s, t, p, m);
    }
    if name != own && k < 64 {
      SlotAtStored(s, t, p, k);
      assert ListsChild(t, p, k, name, SlotAt(t, p, k).cluster);
      DirectoryHead(s, t, SlotAt(t, p, k).cluster);
    }
  }

  /** A directory lists no child that is itself. */
  lemma NotItsOwnChild(s: State, t: Slots, p: nat, name: Name)
    requires Represents(s, t) && p in Dirs(t)
    ensures !IsChild(t, p, name, p)
  {
    hide DecodeTable, FileStored, Stored, RootStored, DirStored, Apart, Kids, Slot;
    assert RootStored(s, t);
    forall m ensures !ListsChild(t, p, m, name, p) {
      if ListsChild(t, p, m, name, p) {
        SlotAtStored(s, t, p, m);
        DirsAreCells(SlotAt(t, p, m));
      }
    }
  }

  lemma PushSpells(t: Slots, path: seq<Level>, name: Name, c: nat)
    requires Spells(t, path) && c in Dirs(t) && c < 512
    ensures Spells(t, path + [Level(c, name)]) <==> IsChild(t, path[|path| - 1].number, name, c)
  {
    hide IsChild, Dirs;
    var path' := path + [Level(c, name)];
    assert path'[|path|] == Level(c, name) && path'[|path| - 1] == path[|path| - 1];
    assert forall i :: 0 <= i < |path| ==> path'[i] == path[i];
  }

  lemma PopSpells(t: Slots, path: seq<Level>)
    requires Spells(t, path) && |path| > 1
    ensures Spells(t, path[..|path| - 1])
  {
    hide IsChild, Dirs;
    var path' := path[..|path| - 1];
    assert forall i :: 0 <= i < |path'| ==> path'[i] == path[i];
  }

  lemma UnnamedIsError(s: State, r: Request)
    requires r.parent < 2048
    ensures r.name == NO_NAME ==> LookupDir(s, r).0 == -1
    ensures LookupDir(s, r).0 != 0 ==> LookupDir(s, r).1 == 0
  {
  }

  /** Changing directory on a live stack is well defined: it pops, pushes a live directory, or stays. */
  lemma CdCases(s: State, t: Slots, path: seq<Level>, dir: seq<byte>) returns (c: nat)
    requires Represents(s, t) && Live(t, path) && |dir| >= 8 && 0 in dir
    ensures CdDefined(s, path, dir)
    ensures var path' := Cd(s, path, dir);
            || path' == path
            || (CStr(dir) == CStr(UP) && |path| > 1 && path' == path[..|path| - 1])
            || (&& CStr(dir) != CStr(UP) && CStr(dir) != CStr(HERE) && path' == path + [Level(c, dir[..8])] && c in Dirs(t) && c < 512
                && LookupDir(s, Request(dir[..8], NO_EXT, path[|path| - 1].number, 0)) == (0, c))
  {
    hide DecodeTable, FileStored, Stored, Represents, IsChild, DirStored, TableAt, LookupDir, CStr, Dirs;
    RepresentsRoot(s, t);
    var p, name: Name := path[|path| - 1].number, dir[..8];
    var r := Request(name, NO_EXT, p, 0);
    UnnamedIsError(s, r);
    var own := DirectoryStored(s, t, p);
    if name != NO_NAME { Resolution(s, t, p, own, name); }
    c := LookupDir(s, r).1;
    if LookupDir(s, r).0 == 0 { DirectoryHead(s, t, c); }
  }

  lemma DotWords()
    ensures CStr(UP) == [0x2E, 0x2E] && CStr(HERE) == [0x2E] && |UP| == |HERE| == 8 && 0 in UP && 0 in HERE
  {
    assert UP[2] == 0 && HERE[1] == 0;
    CStrEnds(UP, 2);
    CStrEnds(HERE, 1);
  }

  /** Exactly what becomes of the stack: ".." takes the top level off unless it is the only one, "." leaves
      it, a name that opens a directory adds that directory, and any other word leaves it. */
  lemma CdExactly(s: State, t: Slots, path: seq<Level>, dir: seq<byte>)
    requires Represents(s, t) && Live(t, path) && |dir| >= 8 && 0 in dir
    ensures CdDefined(s, path, dir)
    ensures var path' := Cd(s, path, dir);
            var (code, c) := LookupDir(s, Request(dir[..8], NO_EXT, path[|path| - 1].number, 0));
            && (CStr(dir) == [0x2E, 0x2E] && |path| > 1 ==> path' == path[..|path| - 1])
            && (CStr(dir) != [0x2E, 0x2E] && CStr(dir) != [0x2E] && code == 0 ==> path' == path + [Level(c, dir[..8])])
            && (path' == path <==> || (CStr(dir) == [0x2E, 0x2E] && |path| == 1) || CStr(dir) == [0x2E]
                                   || (CStr(dir) != [0x2E, 0x2E] && code != 0))
  {
    hide Represents, CStr, LookupDir, TableAt, CdDefined, Dirs;
    DotWords();
    var c := CdCases(s, t, path, dir);
    var (code, x) := LookupDir(s, Request(dir[..8], NO_EXT, path[|path| - 1].number, 0));
    if code == 0 && CStr(dir) != CStr(UP) && CStr(dir) != CStr(HERE) { CdPushes(s, path, dir); }
  }

  /** Going up undoes going down. */
  lemma DownAndUp(s: State, t: Slots, path: seq<Level>, dir: seq<byte>)
    requires Represents(s, t) && Live(t, path) && |dir| >= 8 && 0 in dir
    requires CdDefined(s, path, dir) && |Cd(s, path, dir)| == |path| + 1
    ensures |UP| == 8 && UP[..3] == [0x2E, 0x2E, 0]
    ensures CdDefined(s, Cd(s, path, dir), UP) && Cd(s, Cd(s, path, dir), UP) == path
  {
    hide Represents, CStr, LookupDir, TableAt, CdDefined, Dirs, Cd;
    DotWords();
    CdExactly(s, t, path, dir);
    CdStaysLive(s, t, path, dir);
    CdExactly(s, t, Cd(s, path, dir), UP);
    var c := CdCases(s, t, path, dir);
  }

  lemma CdStaysLive(s: State, t: Slots, path: seq<Level>, dir: seq<byte>)
    requires Represents(s, t) && Live(t, path) && |dir| >= 8 && 0 in dir
    ensures CdDefined(s, path, dir) && Live(t, Cd(s, path, dir))
  {
    hide Represents, Cd, CdDefined, CStr, Dirs;
    var c := CdCases(s, t, path, dir);
  }

  /** A change of directory keeps the stack spelling a path exactly unless it enters a directory by
      that directory's own name, which pushes the same directory again. */
  lemma CdKeepsPathIff(s: State, t: Slots, path: seq<Level>, dir: seq<byte>, own: Name)
    requires Represents(s, t) && Spells(t, path) && |dir| >= 8 && 0 in dir
    requires DirStored(s, own, path[|path| - 1].number)
    ensures CdDefined(s, path, dir)
    ensures Spells(t, Cd(s, path, dir)) <==>
            CStr(dir) == CStr(HERE) || CStr(dir) == CStr(UP) || dir[..8] != own
  {
    hide Represents, Cd, CdDefined, CStr, Dirs, IsChild, DirStored, LookupDir, Spells;
    assert Live(t, path) by { SpellsLive(t, path); }
    var c := CdCases(s, t, path, dir);
    var path', p := Cd(s, path, dir), path[|path| - 1].number;
    if path' == path {
      if CStr(dir) != CStr(HERE) && CStr(dir) != CStr(UP) && dir[..8] == own {
        NameIsNotNull(s, p, own);
        Resolution(s, t, p, own, own);
        CdPushes(s, path, dir);
        assert false;
      }
    } else if CStr(dir) == CStr(UP) {
      PopSpells(t, path);
    } else {
      UnnamedIsError(s, Request(dir[..8], NO_EXT, p, 0));
      PushSpells(t, path, dir[..8], c);
      Resolution(s, t, p, own, dir[..8]);
      NotItsOwnChild(s, t, p, dir[..8]);
    }
  }

  lemma NameIsNotNull(s: State, p: nat, own: Name)
    requires DirStored(s, own, p)
    ensures own != NO_NAME
  {
  }

  lemma CdPushes(s: State, path: seq<Level>, dir: seq<byte>)
    requires CdDefined(s, path, dir) && CStr(dir) != CStr(HERE) && CStr(dir) != CStr(UP)
    requires LookupDir(s, Request(dir[..8], NO_EXT, path[|path| - 1].number, 0)).0 == 0
    ensures |Cd(s, path, dir)| == |path| + 1
  {
    hide CStr, LookupDir;
  }

  lemma SpellsLive(t: Slots, path: seq<Level>)
    requires Spells(t, path)
    ensures Live(t, path)
  {
  }
}
