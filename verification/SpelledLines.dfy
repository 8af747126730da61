// The lines `where_is` prints, character by character, and a reader that gets path and name back from them.
module SpelledLines {
  import opened Layout
  import opened Memory
  import opened Search

  /** "/" and a name, for each of the names. */
  function Slashed(names: seq<Name>): seq<byte> {
    if names == [] then [] else Slashed(names[..|names| - 1]) + [0x2F] + CStr(names[|names| - 1])
  }

  lemma {:induction false} PathIsSlashed(names: seq<Name>, n: nat)
    requires 2 <= n <= |names|
    ensures DirPath(names, n) == Slashed(names[1..n])
    decreases n
  {
    hide CStr;
    var init := names[1..n - 1];
    assert names[1..n][..n - 2] == init && names[1..n][n - 2] == names[n - 1];
    if n == 2 {
      assert init == [] && DirPath(names, 1) == [0x2F];
    } else {
      PathIsSlashed(names, n - 1);
    }
  }

  /** A matching file: the path, "/", the name, ".", the extension, " ". */
  lemma FileLineIs(names: seq<Name>, name: Name, ext: Ext)
    requires names != []
    ensures FileLine(names, name, ext) ==
            Slashed(names[1..]) + [0x2F] + CStr(name) + [0x2E] + CStr(ext) + [0x20]
  {
    hide CStr;
    if |names| > 1 {
      PathIsSlashed(names, |names|);
      assert names[1..|names|] == names[1..];
    } else {
      assert DirPath(names, 1) == [0x2F] && names[1..] == [];
    }
  }

  /** A matching directory: the path of the directory listing it, "/" alone for the root, and " ". */
  lemma DirLineIs(names: seq<Name>)
    requires names != []
    ensures DirLine(names) == (if |names| == 1 then [0x2F] else Slashed(names[1..])) + [0x20]
  {
    hide CStr;
    if |names| > 1 {
      PathIsSlashed(names, |names|);
      assert names[1..|names|] == names[1..];
    }
  }

  // ----- reading a line -----

  /** The parts between separators. */
  function Split(b: seq<byte>, sep: byte): (parts: seq<seq<byte>>)
    ensures parts != []
  {
    if b == [] then [[]]
    else
      var r, c := Split(b[..|b| - 1], sep), b[|b| - 1];
      if c == sep then r + [[]] else r[..|r| - 1] + [r[|r| - 1] + [c]]
  }

  lemma {:induction false} SplitLast(a: seq<byte>, b: seq<byte>, sep: byte)
    requires sep !in b
    ensures Split(a + [sep] + b, sep) == Split(a, sep) + [b]
    decreases |b|
  {
    var w := a + [sep] + b;
    if b == [] {
      assert w[..|w| - 1] == a;
    } else {
      var init, c := b[..|b| - 1], b[|b| - 1];
      assert c in b && w[..|w| - 1] == a + [sep] + init && w[|w| - 1] == c;
      assert sep !in init;
      SplitLast(a, init, sep);
      assert init + [c] == b;
    }
  }

  lemma {:induction false} SplitNowhere(b: seq<byte>, sep: byte)
    requires sep !in b
    ensures Split(b, sep) == [b]
    decreases |b|
  {
    if b != [] {
      assert b[|b| - 1] in b && sep !in b[..|b| - 1];
      SplitNowhere(b[..|b| - 1], sep);
      assert b[..|b| - 1] + [b[|b| - 1]] == b;
    }
  }

  function Strings(names: seq<Name>): (r: seq<seq<byte>>)
    ensures |r| == |names| && forall i :: 0 <= i < |names| ==> r[i] == CStr(names[i])
  {
    seq(|names|, i requires 0 <= i < |names| => CStr(names[i]))
  }

  lemma {:induction false} SlashedSplits(names: seq<Name>)
    requires forall i :: 0 <= i < |names| ==> 0x2F !in CStr(names[i])
    ensures Split(Slashed(names), 0x2F) == [[]] + Strings(names)
    decreases |names|
  {
    hide CStr;
    if names != [] {
      var init, last := names[..|names| - 1], names[|names| - 1];
      SlashedSplits(init);
      SplitLast(Slashed(init), CStr(last), 0x2F);
      assert Strings(names) == Strings(init) + [CStr(last)];
    }
  }

  /** Drops the space, splits at "/", and the last part at its last ".". */
  function ReadFileLine(line: seq<byte>): (seq<seq<byte>>, seq<byte>, seq<byte>)
    requires line != []
  {
    var parts := Split(line[..|line| - 1], 0x2F);
    var last := parts[|parts| - 1];
    var dotted := Split(last, 0x2E);
    var ext := dotted[|dotted| - 1];
    (if |parts| >= 2 then parts[1..|parts| - 1] else [],
     if |ext| + 1 <= |last| then last[..|last| - |ext| - 1] else [],
     ext)
  }

  /** The line of a file gives back the names on the stack above the root, the file's name and its
      extension: it names one place. */
  lemma FileLineReads(names: seq<Name>, name: Name, ext: Ext)
    requires names != [] && forall i :: 1 <= i < |names| ==> 0x2F !in CStr(names[i])
    requires 0x2F !in CStr(name) && 0x2F !in CStr(ext) && 0x2E !in CStr(ext)
    ensures FileLine(names, name, ext) != []
    ensures ReadFileLine(FileLine(names, name, ext)) == (Strings(names[1..]), CStr(name), CStr(ext))
  {
    hide CStr, Slashed, FileLine, Split;
    FileLineIs(names, name, ext);
    var line, last := FileLine(names, name, ext), CStr(name) + [0x2E] + CStr(ext);
    var path := Slashed(names[1..]);
    assert line == path + [0x2F] + last + [0x20];
    assert line[..|line| - 1] == path + [0x2F] + last;
    assert 0x2F !in last;
    SplitLast(path, last, 0x2F);
    SlashedSplits(names[1..]);
    SplitLast(CStr(name), CStr(ext), 0x2E);
    assert last[..|last| - |CStr(ext)| - 1] == CStr(name);
    var parts := Split(path + [0x2F] + last, 0x2F);
    assert parts == [[]] + Strings(names[1..]) + [last];
    assert parts[1..|parts| - 1] == Strings(names[1..]);
  }

  /** And the line of a directory gives back the names above the root of the directory listing it. */
  lemma DirLineReads(names: seq<Name>)
    requires |names| > 1 && forall i :: 1 <= i < |names| ==> 0x2F !in CStr(names[i])
    ensures DirLine(names) != []
    ensures var line := DirLine(names); Split(line[..|line| - 1], 0x2F) == [[]] + Strings(names[1..])
  {
    hide CStr, Slashed, DirLine, Split;
    DirLineIs(names);
    SlashedSplits(names[1..]);
    var line := DirLine(names);
    assert line[..|line| - 1] == Slashed(names[1..]);
  }
}
