// The shell's working directory: a stack of cluster numbers and names kept in fixed arrays, moved by
// `change_directory`, and saved and restored around a command that walks elsewhere.
module Session {
  import opened Layout
  import opened Memory
  import opened Calls
  import opened Driver
  import opened Tree
  import opened Edits
  import opened Paths

  class DirStack {
    const fs: FileSystem
    const numbers: array<u32>
    const names: array<Name>
    var length: nat

    constructor (fs: FileSystem)
      requires fs.Valid()
      ensures Valid() && this.fs == fs && fresh(numbers) && fresh(names)
      ensures Path() == [Level(2, ROOT_NAME)]
    {
      this.fs := fs;
      numbers := new u32[256](_ => 0);
      names := new Name[256](_ => NO_NAME);
      length := 1;
      new;
      numbers[0] := ROOT_CLUSTER_NUMBER;
      names[0] := ROOT_NAME;
    }

    ghost predicate Valid()
      reads this
    {
      && fs.Valid() && numbers.Length == 256 && names.Length == 256 && length <= 255
      && numbers as object != fs.clusterMap as object && numbers as object != fs.image.bytes as object
      && names as object != fs.clusterMap as object && names as object != fs.image.bytes as object
      && names as object != numbers as object
    }

    ghost function Path(): (p: seq<Level>)
      requires Valid()
      reads this, numbers, names
      ensures |p| == length
    {
      LevelsOf(numbers[..length], names[..length])
    }

    /** `change_directory`. The stack holds 256 levels, but its length is one byte: the push that would
        make it 256 levels deep empties it. */
    method ChangeDirectory(dir: seq<byte>)
      requires Valid() && CdDefined(fs.Now(), Path(), dir)
      modifies this`length, numbers, names
      ensures Valid() && fs.Now() == old(fs.Now())
      ensures var path := Cd(fs.Now(), old(Path()), dir);
              Path() == if |path| == 256 then [] else path
      ensures length <= old(length) + 1
    {
      hide DecodeTable, LookupDir, CStr, Head, DifferBy, TableAt;
      var r := Strcmp(dir, UP);
      if r == 0 {
        if length <= 1 {
          return;
        }
        Pop();
        return;
      }
      r := Strcmp(dir, HERE);
      if r == 0 {
        return;
      }
      var code, number := Enter(dir[..8], numbers[length - 1]);
      if code == 0 {
        Push(dir[..8], number);
      }
    }

    method Pop()
      requires Valid() && length > 1
      modifies this`length
      ensures Valid() && fs.Now() == old(fs.Now()) && Path() == old(Path())[..old(length) - 1]
    {
      length := length - 1;
    }

    /** The directory called `name` in `parent`, by the number its own slot 0 gives. */
    method Enter(name: Name, parent: u32) returns (code: int, number: u32)
      requires Valid() && ReadDirectoryDefined(fs.Now(), Request(name, NO_EXT, parent, 0))
      ensures var (found, c) := LookupDir(fs.Now(), Request(name, NO_EXT, parent, 0));
              code == found && (code == 0 ==> number == Head(TableAt(fs.Now(), c)[0]))
    {
      hide DecodeTable, LookupDir, Head;
      var buf := new byte[2048];
      code := fs.ReadDirectory(Request(name, NO_EXT, parent, 0), buf);
      number := 0;
      if code == 0 {
        var reqTable := DecodeTable(buf[..2048]);
        number := Head(reqTable[0]);
      }
    }

    method Push(name: Name, number: u32)
      requires Valid()
      modifies this`length, numbers, names
      ensures Valid() && fs.Now() == old(fs.Now())
      ensures Path() == if old(length) == 255 then [] else old(Path()) + [Level(number, name)]
    {
      names[length] := name;
      numbers[length] := number;
      length := (length + 1) % 256;
    }

    /** The loop that follows the words of a path argument. */
    method Walk(words: seq<seq<byte>>)
      requires Valid() && 1 <= length && length + |words| <= 255 && WalkDefined(fs.Now(), Path(), words)
      modifies this`length, numbers, names
      ensures Valid() && Path() == WalkFrom(fs.Now(), old(Path()), words)
      ensures fs.Now() == old(fs.Now())
    {
      hide Cd, CdDefined, CStr;
      ghost var s, start := fs.Now(), Path();
      var i := 0;
      WalkFromStart(s, start, words);
      while i < |words|
        invariant 0 <= i <= |words| && Valid() && fs.Now() == s && 1 <= length <= old(length) + i
        invariant WalkDefined(s, Path(), words[i..])
        invariant WalkFrom(s, Path(), words[i..]) == WalkFrom(s, start, words)
      {
        assert words[i..][0] == words[i] && words[i..][1..] == words[i + 1..];
        if words[i][0] == 0x2E {
          if words[i][1] == 0x2E {
            ChangeDirectory(UP);
          } else {
            ChangeDirectory(HERE);
          }
        } else {
          ChangeDirectory(words[i]);
        }
        i := i + 1;
      }
    }

    /** `mkdir`: save the stack, walk, create, restore the stack. Whatever the walk did, the live part
        of the stack comes back, and the directory is created where the walk led. */
    method MakeDirectory(words: seq<seq<byte>>, last: Name, stack: Table) returns (code: int)
      requires Valid() && 1 <= length && length + |words| + 2 <= 256 && WalkDefined(fs.Now(), Path(), words)
      requires var path := WalkFrom(fs.Now(), Path(), words); path[|path| - 1].number < 2048
      modifies this`length, numbers, names, fs.clusterMap, fs.image.bytes
      ensures Valid() && Path() == old(Path())
      ensures var path := WalkFrom(old(fs.Now()), old(Path()), words);
              (fs.Now(), code) == Write(old(fs.Now()), Request(last, NO_EXT, path[|path| - 1].number, 0), [], stack)
    {
      hide Write, Cd, CdDefined, WalkFrom, WalkDefined;
      var savedNumbers, savedNames := Save();
      var savedLength := length;
      Walk(words);
      var unused := new byte[0];
      assert unused[..] == [];
      code := fs.Write(Request(last, NO_EXT, numbers[length - 1], 0), unused, stack);
      Restore(savedNumbers, savedNames, savedLength, 2 + |words|);
    }

    /** The save loop copies one level more than is live. */
    method Save() returns (savedNumbers: array<u32>, savedNames: array<Name>)
      requires Valid()
      ensures fresh(savedNumbers) && fresh(savedNames) && savedNumbers.Length == savedNames.Length == 256
      ensures savedNumbers as object != savedNames as object
      ensures forall k :: 0 <= k < length ==> Path()[k] == Level(savedNumbers[k], savedNames[k])
      ensures forall k :: 0 <= k <= length ==> savedNumbers[k] == numbers[k] && savedNames[k] == names[k]
    {
      savedNumbers, savedNames := new u32[256](_ => 0), new Name[256](_ => NO_NAME);
      var i := 0;
      while i < length + 1
        invariant 0 <= i <= length + 1
        invariant forall k :: 0 <= k < i ==> savedNumbers[k] == numbers[k] && savedNames[k] == names[k]
      {
        savedNumbers[i] := numbers[i];
        savedNames[i] := names[i];
        i := i + 1;
      }
    }

    /** The two loops that put the saved stack back and clear what lies above it. */
    method Restore(savedNumbers: array<u32>, savedNames: array<Name>, savedLength: nat, counterCD: nat)
      requires Valid() && 1 <= savedLength && savedLength + counterCD <= 256 && savedLength <= 255
      requires savedNumbers.Length == 256 && savedNames.Length == 256
      requires savedNumbers != numbers && savedNames != names
      requires savedNumbers as object != names as object && savedNames as object != numbers as object
      modifies this`length, numbers, names
      ensures Valid() && fs.Now() == old(fs.Now())
      ensures Path() == seq(savedLength, i requires 0 <= i < savedLength =>
                              Level(old(savedNumbers[..])[i], old(savedNames[..])[i]))
      ensures forall k :: savedLength <= k < savedLength + counterCD ==> numbers[k] == 0 && names[k] == NO_NAME
      ensures forall k :: savedLength + counterCD <= k < 256 ==> numbers[k] == old(numbers[k]) && names[k] == old(names[k])
    {
      var i := 0;
      while i < savedLength
        invariant 0 <= i <= savedLength && fs.Now() == old(fs.Now())
        invariant savedNumbers[..] == old(savedNumbers[..]) && savedNames[..] == old(savedNames[..])
        invariant forall k :: 0 <= k < i ==> numbers[k] == savedNumbers[k] && names[k] == savedNames[k]
        invariant forall k :: i <= k < 256 ==> numbers[k] == old(numbers[k]) && names[k] == old(names[k])
      {
        numbers[i] := savedNumbers[i];
        names[i] := savedNames[i];
        i := i + 1;
      }
      while i < savedLength + counterCD
        invariant savedLength <= i <= savedLength + counterCD && fs.Now() == old(fs.Now())
        invariant savedNumbers[..] == old(savedNumbers[..]) && savedNames[..] == old(savedNames[..])
        invariant forall k :: 0 <= k < savedLength ==> numbers[k] == savedNumbers[k] && names[k] == savedNames[k]
        invariant forall k :: savedLength <= k < i ==> numbers[k] == 0 && names[k] == NO_NAME
        invariant forall k :: i <= k < 256 ==> numbers[k] == old(numbers[k]) && names[k] == old(names[k])
      {
        numbers[i] := 0;
        names[i] := NO_NAME;
        i := i + 1;
      }
      length := savedLength;
      assert Path() == seq(savedLength, i requires 0 <= i < savedLength =>
                             Level(old(savedNumbers[..])[i], old(savedNames[..])[i]));
    }
  }

  function LevelsOf(numbers: seq<u32>, names: seq<Name>): (path: seq<Level>)
    requires |numbers| == |names|
    ensures |path| == |numbers| && forall i :: 0 <= i < |path| ==> path[i] == Level(numbers[i], names[i])
  {
    seq(|numbers|, i requires 0 <= i < |numbers| => Level(numbers[i], names[i]))
  }

  /** A word that begins with a dot goes up or stays; any other is a name. */
  function Meaning(word: seq<byte>): seq<byte>
    requires |word| >= 8
  {
    if word[0] == 0x2E then (if word[1] == 0x2E then UP else HERE) else word
  }

  predicate WalkDefined(s: State, path: seq<Level>, words: seq<seq<byte>>)
    decreases |words|
  {
    path != [] &&
    (words == [] ||
     (&& |words[0]| >= 8 && CdDefined(s, path, Meaning(words[0]))
      && WalkDefined(s, Cd(s, path, Meaning(words[0])), words[1..])))
  }

  function WalkFrom(s: State, path: seq<Level>, words: seq<seq<byte>>): (r: seq<Level>)
    requires WalkDefined(s, path, words)
    ensures r != []
    decreases |words|
  {
    if words == [] then path else WalkFrom(s, Cd(s, path, Meaning(words[0])), words[1..])
  }

  lemma WalkFromStart(s: State, path: seq<Level>, words: seq<seq<byte>>)
    ensures words[0..] == words
  {
  }

  /** From a live stack every walk is defined and ends in a live directory. */
  lemma {:induction false} WalkStaysLive(s: State, t: Slots, path: seq<Level>, words: seq<seq<byte>>)
    requires Represents(s, t) && Live(t, path)
    requires forall w :: w in words ==> |w| >= 8 && 0 in w
    ensures WalkDefined(s, path, words) && Live(t, WalkFrom(s, path, words))
    decreases |words|
  {
    hide Represents, Cd, CdDefined, CStr;
    if words != [] {
      var dir := Meaning(words[0]);
      CdStaysLive(s, t, path, dir);
      WalkStaysLive(s, t, Cd(s, path, dir), words[1..]);
    }
  }

  /** No word of the walk names the directory it has reached, except "." and "..". */
  predicate NeverOwn(s: State, path: seq<Level>, words: seq<seq<byte>>)
    requires WalkDefined(s, path, words)
    decreases |words|
  {
    words == [] ||
    (var dir := Meaning(words[0]);
     && (CStr(dir) == CStr(HERE) || CStr(dir) == CStr(UP) || dir[..8] != OwnNameOf(s, path[|path| - 1].number))
     && NeverOwn(s, Cd(s, path, dir), words[1..]))
  }

  /** Such a walk keeps the stack spelling a path of the tree. */
  lemma {:induction false} WalkSpells(s: State, t: Slots, path: seq<Level>, words: seq<seq<byte>>)
    requires Represents(s, t) && Spells(t, path) && WalkDefined(s, path, words) && NeverOwn(s, path, words)
    requires forall w :: w in words ==> |w| >= 8 && 0 in w
    ensures Spells(t, WalkFrom(s, path, words))
    decreases |words|
  {
    hide Represents, Cd, CdDefined, CStr, Spells, DirStored, TableAt;
    if words != [] {
      var dir := Meaning(words[0]);
      SpellsLive(t, path);
      var own := OwnNameStored(s, t, path[|path| - 1].number);
      CdKeepsPathIff(s, t, path, dir, own);
      WalkSpells(s, t, Cd(s, path, dir), words[1..]);
    }
  }

  lemma OwnNameStored(s: State, t: Slots, p: nat) returns (own: Name)
    requires Represents(s, t) && p in Dirs(t) && p < 512
    ensures DirStored(s, own, p) && own == OwnNameOf(s, p)
  {
    own := DirectoryStored(s, t, p);
  }

  /** Which words go up, which stay, and which are names. */
  lemma WordMeaning(s: State, t: Slots, path: seq<Level>, word: seq<byte>)
    requires Represents(s, t) && Live(t, path) && |word| >= 8 && 0 in word
    ensures CdDefined(s, path, Meaning(word))
    ensures var path' := Cd(s, path, Meaning(word));
            && (word[0] == 0x2E && word[1] == 0x2E && |path| > 1 ==> path' == path[..|path| - 1])
            && (word[0] == 0x2E && word[1] == 0x2E && |path| == 1 ==> path' == path)
            && (word[0] == 0x2E && word[1] != 0x2E ==> path' == path)
            && (word[0] != 0x2E ==> CdDefined(s, path, word) && path' == Cd(s, path, word))
  {
    hide Represents, CStr, CdDefined, Dirs, Cd;
    DotWords();
    CdExactly(s, t, path, Meaning(word));
  }

  /** Words are followed in order. */
  lemma {:induction false} WalkJoins(s: State, path: seq<Level>, a: seq<seq<byte>>, b: seq<seq<byte>>)
    requires WalkDefined(s, path, a) && WalkDefined(s, WalkFrom(s, path, a), b)
    ensures WalkDefined(s, path, a + b) && WalkFrom(s, path, a + b) == WalkFrom(s, WalkFrom(s, path, a), b)
    decreases |a|
  {
    hide Cd, CdDefined;
    if a == [] {
      assert a + b == b;
    } else {
      WalkJoins(s, Cd(s, path, Meaning(a[0])), a[1..], b);
      assert (a + b)[0] == a[0] && (a + b)[1..] == a[1..] + b;
    }
  }

  lemma WalkOne(s: State, path: seq<Level>, word: seq<byte>)
    requires path != [] && |word| >= 8 && CdDefined(s, path, Meaning(word))
    ensures WalkDefined(s, path, [word]) && WalkFrom(s, path, [word]) == Cd(s, path, Meaning(word))
  {
    hide Cd, CdDefined;
    assert [word][1..] == [];
    assert WalkDefined(s, Cd(s, path, Meaning(word)), []);
  }

  /** A walk gains at most one level a word, and then it has only entered directories. */
  lemma {:induction false} WalkGains(s: State, t: Slots, path: seq<Level>, words: seq<seq<byte>>)
    requires Represents(s, t) && Live(t, path) && forall w :: w in words ==> |w| >= 8 && 0 in w
    requires WalkDefined(s, path, words)
    ensures var end := WalkFrom(s, path, words);
            |end| <= |path| + |words| && (|end| == |path| + |words| ==> end[..|path|] == path)
    decreases |words|
  {
    hide Represents, Cd, CdDefined, CStr, LookupDir, Dirs;
    if words != [] {
      var dir := Meaning(words[0]);
      CdStaysLive(s, t, path, dir);
      var c := CdCases(s, t, path, dir);
      var next := Cd(s, path, dir);
      WalkGains(s, t, next, words[1..]);
      if |next| == |path| + 1 { assert next[..|path|] == path; }
    }
  }

  /** n words ".." take n levels off. */
  lemma {:induction false} WalkUp(s: State, t: Slots, path: seq<Level>, ups: seq<seq<byte>>)
    requires Represents(s, t) && Live(t, path) && |ups| < |path|
    requires forall w :: w in ups ==> |w| >= 8 && 0 in w && w[0] == 0x2E && w[1] == 0x2E
    ensures WalkDefined(s, path, ups) && WalkFrom(s, path, ups) == path[..|path| - |ups|]
    decreases |ups|
  {
    hide Represents, Cd, CdDefined, Dirs;
    if ups != [] {
      WordMeaning(s, t, path, ups[0]);
      CdStaysLive(s, t, path, Meaning(ups[0])) by { DotWords(); }
      WalkUp(s, t, path[..|path| - 1], ups[1..]);
    }
  }

  /** n names entered, and n words ".." lead back to the start. */
  lemma ThereAndBack(s: State, t: Slots, path: seq<Level>, names: seq<seq<byte>>, ups: seq<seq<byte>>)
    requires Represents(s, t) && Live(t, path) && |ups| == |names|
    requires forall w :: w in names ==> |w| >= 8 && 0 in w
    requires forall w :: w in ups ==> |w| >= 8 && 0 in w && w[0] == 0x2E && w[1] == 0x2E
    requires WalkDefined(s, path, names) && |WalkFrom(s, path, names)| == |path| + |names|
    ensures WalkDefined(s, path, names + ups) && WalkFrom(s, path, names + ups) == path
  {
    hide Represents, WalkFrom, WalkDefined, Dirs;
    WalkGains(s, t, path, names);
    WalkStaysLive(s, t, path, names);
    WalkUp(s, t, WalkFrom(s, path, names), ups);
    WalkJoins(s, path, names, ups);
  }
}
