// The recursive search of the shell, printing as it goes.
module WhereIs {
  import opened Layout
  import opened Memory
  import opened Calls
  import opened Driver
  import opened Paths
  import opened Search
  import opened Trails

  // ----- building a line -----

  /** string_combine. The search always passes its buffer both as first part and as result. */
  method StringCombine(s1: array<byte>, s2: seq<byte>, res: array<byte>)
    requires 0 in s1[..] && 0 in s2 && |CStr(s1[..])| + |CStr(s2)| < res.Length
    modifies res
    ensures 0 in res[..] && CStr(res[..]) == old(CStr(s1[..])) + CStr(s2)
    ensures var n := |CStr(res[..])| + 1; n <= res.Length && res[n..] == old(res[n..])
  {
    ghost var before, tail := s1[..], res[..];
    ghost var first, second := CStr(before), CStr(s2);
    CStrFits(before);
    CStrFits(s2);
    hide CStr;
    var i := 0;
    while s1[i] != 0
      invariant 0 <= i <= |first| && s1[..] == before
      invariant forall k :: 0 <= k < i ==> res[k] == first[k]
      invariant forall k :: i <= k < res.Length ==> res[k] == tail[k]
      decreases s1.Length - i
    {
      assert s1[i] == before[i];
      res[i] := s1[i];
      i := i + 1;
    }
    assert s1[i] == before[i];
    var j := 0;
    while s2[j] != 0
      invariant 0 <= j <= |second| && i == |first|
      invariant forall k :: 0 <= k < i ==> res[k] == first[k]
      invariant forall k :: 0 <= k < j ==> res[i + k] == second[k]
      invariant forall k :: i + j <= k < res.Length ==> res[k] == tail[k]
      decreases |s2| - j
    {
      res[i + j] := s2[j];
      j := j + 1;
    }
    res[i + j] := 0;
    Combined(res[..], first, second);
  }

  lemma Combined(r: seq<byte>, a: seq<byte>, b: seq<byte>)
    requires |a| + |b| < |r| && r[|a| + |b|] == 0
    requires forall k :: 0 <= k < |a| ==> r[k] == a[k] && a[k] != 0
    requires forall k :: 0 <= k < |b| ==> r[|a| + k] == b[k] && b[k] != 0
    ensures 0 in r && CStr(r) == a + b
  {
    hide CStr;
    var n := |a| + |b|;
    assert r[..n] == a + b;
    forall k | 0 <= k < n ensures r[k] != 0 {
      if k >= |a| { assert r[|a| + (k - |a|)] == b[k - |a|]; }
    }
    CStrEnds(r, n);
  }

  /** The string ends inside the memory that holds a NUL. */
  lemma {:induction false} CStrFits(a: seq<byte>)
    requires 0 in a
    ensures |CStr(a)| < |a| && a[|CStr(a)|] == 0 && CStr(a) == a[..|CStr(a)|]
    ensures forall k :: 0 <= k < |CStr(a)| ==> a[k] != 0
  {
    if a[0] != 0 {
      CStrFits(a[1..]);
      assert a == [a[0]] + a[1..];
    }
  }

  /** The nine bytes of a name on the stack, or four of an extension. */
  function Ended(field: seq<byte>): seq<byte> {
    field + [0]
  }

  method Append(path: array<byte>, part: seq<byte>)
    requires path.Length == 256 && 0 in path[..] && 0 in part && |CStr(path[..])| + |CStr(part)| <= 255
    modifies path
    ensures 0 in path[..] && CStr(path[..]) == old(CStr(path[..])) + CStr(part)
  {
    StringCombine(path, part, path);
  }

  lemma {:induction false} Terminated(b: seq<byte>)
    ensures CStr(b + [0]) == CStr(b) && 0 in b + [0]
  {
    if b != [] && b[0] != 0 {
      Terminated(b[1..]);
      assert (b + [0])[1..] == b[1..] + [0];
    }
    assert (b + [0])[|b|] == 0;
  }

  lemma OneByte(c: byte)
    requires c != 0
    ensures CStr([c, 0]) == [c] && 0 in [c, 0]
  {
    assert [c, 0][1] == 0;
    CStrEnds([c, 0], 1);
  }

  lemma {:induction false} DirPathGrows(names: seq<Name>, j: nat, n: nat)
    requires j <= n <= |names|
    ensures |DirPath(names, j)| <= |DirPath(names, n)|
    ensures 2 <= j < n ==> |DirPath(names, j)| < |DirPath(names, n)|
  {
    hide CStr;
    if j < n { DirPathGrows(names, j, n - 1); }
  }

  /** The path grows by a name, after a slash from the third level on. */
  lemma DirPathStep(names: seq<Name>, j: nat)
    requires j < |names|
    ensures DirPath(names, j + 1) ==
            if j == 0 then [SLASH] else if j == 1 then [SLASH] + CStr(names[1])
            else DirPath(names, j) + [SLASH] + CStr(names[j])
    ensures DirPath(names, 0) == [] && (j >= 1 ==> DirPath(names, 1) == [SLASH])
  {
    hide CStr;
    if j == 1 { assert DirPath(names, 1) + [] == [SLASH]; }
  }

  /** The loop that spells the listing directory for a directory match, in a buffer of 256 bytes. */
  method SpellDirectory(names: seq<Name>) returns (line: seq<byte>)
    requires names != [] && |DirLine(names)| <= 255
    ensures line == DirLine(names)
  {
    hide CStr, DirPath;
    OneByte(SLASH);
    OneByte(SPACE);
    DirPathStep(names, 0);
    var path := new byte[256](_ => 0);
    assert path[0] == 0;
    NothingYet(path[..]);
    var n := |names|;
    for j := 0 to n
      invariant 0 in path[..]
      invariant CStr(path[..]) == if 2 <= j < n then DirPath(names, j) + [SLASH] else DirPath(names, j)
    {
      DirPathGrows(names, j + 1, n);
      DirPathStep(names, j);
      Terminated(names[j]);
      if j == 0 {
        Append(path, [SLASH, 0]);
      } else if j < n - 1 {
        Append(path, Ended(names[j]));
        Append(path, [SLASH, 0]);
      } else {
        Append(path, Ended(names[j]));
      }
    }
    Append(path, [SPACE, 0]);
    line := ReadString(path);
  }

  lemma NothingYet(a: seq<byte>)
    requires a != [] && a[0] == 0
    ensures CStr(a) == [] && 0 in a
  {
    CStrEnds(a, 0);
  }

  /** What a program that is given the buffer sees. */
  method ReadString(path: array<byte>) returns (line: seq<byte>)
    requires 0 in path[..]
    ensures line == CStr(path[..])
  {
    CStrFits(path[..]);
    var n := 0;
    while path[n] != 0
      invariant 0 <= n <= |CStr(path[..])|
      decreases path.Length - n
    {
      n := n + 1;
    }
    CStrEnds(path[..], n);
    line := path[..n];
  }

  /** The loop that spells a file match. */
  method SpellFile(names: seq<Name>, name: Name, ext: Ext) returns (line: seq<byte>)
    requires names != [] && |FileLine(names, name, ext)| <= 255
    ensures line == FileLine(names, name, ext)
  {
    hide CStr, DirPath, FileLine, Ended;
    DirPathStep(names, 0);
    OneByte(SLASH);
    OneByte(DOT);
    OneByte(SPACE);
    EndedIs(name);
    EndedIs(ext);
    FileLineParts(names, name, ext);
    var path := new byte[256];
    path[0] := 0;
    NothingYet(path[..]);
    for j := 0 to |names|
      invariant 0 in path[..]
      invariant CStr(path[..]) == if j >= 2 then DirPath(names, j) + [SLASH] else DirPath(names, j)
    {
      DirPathGrows(names, j + 1, |names|);
      DirPathStep(names, j);
      EndedIs(names[j]);
      if j == 0 {
        Append(path, [SLASH, 0]);
      } else {
        Append(path, Ended(names[j]));
        Append(path, [SLASH, 0]);
      }
    }
    Append(path, Ended(name));
    Append(path, [DOT, 0]);
    Append(path, Ended(ext));
    Append(path, [SPACE, 0]);
    line := ReadString(path);
  }

  lemma EndedIs(b: seq<byte>)
    ensures CStr(Ended(b)) == CStr(b) && 0 in Ended(b)
  {
    Terminated(b);
  }

  /** The line is built from the left, and no part of it is longer than the whole. */
  lemma FileLineParts(names: seq<Name>, name: Name, ext: Ext)
    requires names != []
    ensures var front := if |names| >= 2 then DirPath(names, |names|) + [SLASH] else DirPath(names, |names|);
            && FileLine(names, name, ext) == front + CStr(name) + [DOT] + CStr(ext) + [SPACE]
            && |FileLine(names, name, ext)| == |front| + |CStr(name)| + |CStr(ext)| + 2
            && |DirPath(names, |names|)| <= |front|
            && (|names| >= 2 ==> |front| == |DirPath(names, |names|)| + 1)
  {
    hide CStr, DirPath;
  }

  // ----- which lines fit -----

  /** Every line to be printed fits the buffer. */
  ghost predicate LinesFit(vs: seq<Visit>, target: seq<byte>, targetExt: seq<byte>) {
    forall k :: 0 <= k < |vs| && VisitHit(vs[k], target, targetExt) ==> |VisitLine(vs[k])| <= 255
  }

  /** They do on stacks of up to 27 levels, whatever the names. */
  lemma ShallowLinesFit(v: Visit)
    requires |v.names| <= 27
    ensures |VisitLine(v)| <= 255
  {
    hide CStr;
    if v.names != [] { DirPathBound(v.names, |v.names|); }
    CStrLength(v.name);
    CStrLength(v.ext);
  }

  lemma {:induction false} DirPathBound(names: seq<Name>, n: nat)
    requires 1 <= n <= |names|
    ensures |DirPath(names, n)| <= if n == 1 then 1 else 9 * (n - 1)
  {
    hide CStr;
    if n > 1 {
      DirPathBound(names, n - 1);
      CStrLength(names[n - 1]);
    }
  }

  lemma {:induction false} CStrLength(a: seq<byte>)
    ensures |CStr(a)| <= |a|
  {
    if a != [] && a[0] != 0 { CStrLength(a[1..]); }
  }

  /** And on 28 levels of full names a file match does not: the buffer is overrun. */
  lemma DeepLineOverruns(v: Visit)
    requires |v.names| == 28 && !v.folder && 0 !in v.name && 0 !in v.ext
    requires forall k :: 1 <= k < 28 ==> 0 !in v.names[k]
    ensures |VisitLine(v)| == 257
  {
    hide CStr;
    FullPath(v.names, 28);
    CStrWhole(v.name);
    CStrWhole(v.ext);
  }

  lemma {:induction false} FullPath(names: seq<Name>, n: nat)
    requires 2 <= n <= |names| && forall k :: 1 <= k < |names| ==> 0 !in names[k]
    ensures |DirPath(names, n)| == 9 * (n - 1)
  {
    hide CStr;
    CStrWhole(names[n - 1]);
    if n > 2 { FullPath(names, n - 1); } else { assert |DirPath(names, 1)| == 1; }
  }

  lemma {:induction false} CStrWhole(a: seq<byte>)
    requires 0 !in a
    ensures CStr(a) == a
  {
    if a != [] { CStrWhole(a[1..]); }
  }

  // ----- the search -----

  /** The field is copied into a buffer one byte longer, which ends it with a NUL. */
  method SameString(field: seq<byte>, target: seq<byte>) returns (same: bool)
    requires 0 in target
    ensures same <==> CStr(field) == CStr(target)
  {
    Terminated(field);
    var r := Strcmp(field + [0], target);
    same := r == 0;
  }

  lemma FitJoin(a: seq<Visit>, b: seq<Visit>, target: seq<byte>, targetExt: seq<byte>)
    requires LinesFit(a + b, target, targetExt)
    ensures LinesFit(a, target, targetExt) && LinesFit(b, target, targetExt)
  {
    hide VisitHit, VisitLine;
    var w := a + b;
    forall k | 0 <= k < |a| && VisitHit(a[k], target, targetExt) ensures |VisitLine(a[k])| <= 255 {
      assert w[k] == a[k];
    }
    forall k | 0 <= k < |b| && VisitHit(b[k], target, targetExt) ensures |VisitLine(b[k])| <= 255 {
      assert w[|a| + k] == b[k];
    }
  }

  lemma JoinPrinted(a: seq<Visit>, b: seq<Visit>, target: seq<byte>, targetExt: seq<byte>)
    requires LinesFit(a + b, target, targetExt)
    ensures LinesFit(a, target, targetExt) && LinesFit(b, target, targetExt)
    ensures Printed(a + b, target, targetExt) == Printed(a, target, targetExt) + Printed(b, target, targetExt)
  {
    FitJoin(a, b, target, targetExt);
    PrintedJoin(a, b, target, targetExt);
  }

  lemma OneLine(v: Visit, target: seq<byte>, targetExt: seq<byte>)
    requires LinesFit([v], target, targetExt)
    ensures var hit := CStr(v.name) == CStr(target) && (v.folder || CStr(v.ext) == CStr(targetExt));
            var line := if v.folder then DirLine(v.names) else FileLine(v.names, v.name, v.ext);
            && (hit ==> |line| <= 255)
            && Printed([v], target, targetExt) == if hit then [line] else []
  {
    hide CStr;
    assert [v][0] == v;
    OnePrinted(v, target, targetExt);
  }

  lemma NoVisits(target: seq<byte>, targetExt: seq<byte>)
    ensures Printed([], target, targetExt) == []
  {
  }

  /** `where_is`, from any stack whose walk succeeds: it ends, prints the lines of exactly the entries it
      meets that match, and does not change the file system. */
  method Find(fs: FileSystem, target: seq<byte>, targetExt: seq<byte>, path: seq<Level>)
    returns (out: seq<seq<byte>>)
    requires fs.Valid() && 0 in target && 0 in targetExt && Trail(fs.Now(), path).Some?
    requires LinesFit(Trail(fs.Now(), path).value, target, targetExt)
    ensures out == Printed(Trail(fs.Now(), path).value, target, targetExt)
    decreases 256 - |path|, 1
  {
    hide DecodeTable, LookupDir, CStr, DirLine, FileLine, Head, LinesFit, Printed, TrailAt;
    ghost var s := fs.Now();
    var top := path[|path| - 1];
    var buf := new byte[2048];
    var code := fs.ReadDirectory(Request(top.name, NO_EXT, Above(path), 0), buf);
    var reqTable := DecodeTable(buf[..2048]);
    out := [];
    var i := 1;
    while i < 64
      invariant 1 <= i <= 64 && fs.Now() == s && TrailFrom(s, reqTable, i, path).Some?
      invariant LinesFit(TrailFrom(s, reqTable, i, path).value, target, targetExt)
      invariant out + Printed(TrailFrom(s, reqTable, i, path).value, target, targetExt)
             == Printed(Trail(s, path).value, target, targetExt)
    {
      JoinPrinted(TrailAt(s, reqTable[i], path).value, TrailFrom(s, reqTable, i + 1, path).value, target, targetExt);
      var printed := Examine(fs, target, targetExt, path, reqTable[i]);
      out := out + printed;
      i := i + 1;
    }
    NoVisits(target, targetExt);
  }

  /** What the loop does with one entry. */
  method Examine(fs: FileSystem, target: seq<byte>, targetExt: seq<byte>, path: seq<Level>, e: Entry)
    returns (printed: seq<seq<byte>>)
    requires fs.Valid() && 0 in target && 0 in targetExt && 1 <= |path| <= 255
    requires TrailAt(fs.Now(), e, path).Some? && LinesFit(TrailAt(fs.Now(), e, path).value, target, targetExt)
    ensures printed == Printed(TrailAt(fs.Now(), e, path).value, target, targetExt)
    decreases 256 - |path|, 0
  {
    hide LookupDir, CStr, DirLine, FileLine, Head, LinesFit, Printed, Trail;
    printed := [];
    if e.userAttribute == UATTR_NOT_EMPTY {
      var sameName := SameString(e.name, target);
      if e.attribute != ATTR_ARCHIVE {
        ghost var v := Visit(NamesOf(path), true, e.name, NO_EXT);
        JoinPrinted([v], Trail(fs.Now(), Pushed(path, e)).value, target, targetExt);
        OneLine(v, target, targetExt);
        if sameName {
          var line := SpellDirectory(NamesOf(path));
          printed := [line];
        }
        var found := Find(fs, target, targetExt, Pushed(path, e));
        printed := printed + found;
      } else {
        OneLine(Visit(NamesOf(path), false, e.name, e.ext), target, targetExt);
        var sameExt := SameString(e.ext, targetExt);
        if sameName && sameExt {
          var line := SpellFile(NamesOf(path), e.name, e.ext);
          printed := [line];
        }
      }
    } else {
      NoVisits(target, targetExt);
    }
  }
}
