// The shell's tree copy, made of driver calls only.
module Shell {
  import opened Layout
  import opened Chains
  import opened Calls
  import opened Memory
  import opened Driver
  import opened Tree
  import opened TreeFacts
  import opened Edits
  import opened Refinement
  import opened ReadBack
  import opened Accounting
  import opened Copying
  import opened CopyReadiness
  import opened CopyRuns

  /** The net effect of reading a file and writing it elsewhere under the same name. */
  ghost function CopiedFile(s: State, r: Request, dest: u32, stack: Table): State
    requires ReadDefined(s, r) && dest < 2048 && 2048 <= r.size
  {
    var (code, blocks) := Read(s, r);
    if code != 0 then s
    else
      Write(s, r.(parent := dest), Splice(Zeros(2048 * (r.size / 2048)), 0, Concat(blocks)), stack).0
  }

  function Zeros(n: nat): (r: seq<byte>)
    ensures |r| == n
  {
    seq(n, _ => 0)
  }

  /** `copy_file`; the buffer it reads into is `size / CLUSTER_SIZE` clusters. */
  method CopyFile(fs: FileSystem, name: Name, ext: Ext, size: u32, parent: u32, dest: u32, stack: Table)
    requires fs.Valid() && ReadDefined(fs.Now(), Request(name, ext, parent, size)) && dest < 2048 && 2048 <= size
    modifies fs.clusterMap, fs.image.bytes
    ensures fs.Now() == CopiedFile(old(fs.Now()), Request(name, ext, parent, size), dest, stack)
  {
    hide Calls.Write, Calls.Read, Splice, Concat;
    var cl := new byte[2048 * (size / 2048)](_ => 0);
    assert cl[..] == Zeros(2048 * (size / 2048));
    var code := fs.Read(Request(name, ext, parent, size), cl);
    if code == 0 {
      code := fs.Write(Request(name, ext, dest, size), cl, stack);
    }
  }

  /** Copying the file in slot `i` of the source succeeds. */
  lemma FileCopied(s0: State, s: State, b: Job, done: Slots, i: nat, stack: Table) returns (copy: Slots)
    requires JobOk(s0, b) && Progress(s0, s, b, done, i) && i < 64 && Slot(b.kids, 1, i).File?
    ensures var y := Slot(b.kids, 1, i);
            && ReadDefined(s, Request(y.name, y.ext, b.source, y.size)) && 2048 <= y.size
            && Copied(s, CopiedFile(s, Request(y.name, y.ext, b.source, y.size), b.target, stack),
                      Partial(b, done), b.target, y, copy)
  {
    hide DecodeTable, Write, Read, JobOk, Progress, Represents, Room, FileStored, Partial, Untouched, Synced,
         Edit, FindFree, FindEntry, Splice, Concat, Zeros, TableAt, Copyable, HasFolder, Cells, Dirs, Stored,
         SingleStored, EntryOf, Blocks;
    FileReady(s0, s, b, done, i);
    EntryFacts(s0, s, b, done, i);
    ProgressRepresents(s0, s, b, done, i);
    JobBounds(s0, b);
    var y, tc := Slot(b.kids, 1, i), Partial(b, done);
    var r := Request(y.name, y.ext, b.source, y.size);
    FileFacts(s, y);
    ReadDelivers(s, tc, r, y.blocks);
    BlocksConcat(y.blocks);
    var data := Concat(y.blocks);
    SpliceAll(Zeros(2048 * (y.size / 2048)), data);
    FileAdded(s, tc, r.(parent := b.target), data, stack);
    copy := NewFile(s, r.(parent := b.target), data);
  }

  lemma SpliceAll(m: seq<byte>, data: seq<byte>)
    requires |m| == |data|
    ensures Splice(m, 0, data) == data
  {
  }

  lemma JobBounds(s0: State, b: Job)
    requires JobOk(s0, b)
    ensures b.source < 512 && 2 <= b.target < 512
  {
  }

  lemma JobDone(s0: State, s: State, b: Job, done: Slots, x: Slots)
    requires JobOk(s0, b) && Progress(s0, s, b, done, 64)
    requires x.Dir? && Single(x) && x.name == b.name && x.kids == b.kids
    ensures Copied(s0, s, b.t, b.dest, x, Dir(b.name, b.target, done, End))
  {
    hide DecodeTable, Represents, Room, Untouched, Synced, FindFree, DirStored, Stored, Edit, HasFolder;
    SuffixEnds(s0, b.source, 1, b.kids);
    JoinEnd(Erase(done));
  }

  /** `copy_folder`. The copy has the same names, contents and order of live entries as the source;
      nothing that was in use changes except the table of `dest`, which gains one entry. The run is one of
      those `Ends` describes. */
  method CopyFolder(fs: FileSystem, name: Name, parent: u32, dest: u32, stack: Table,
                    ghost t: Slots, ghost m: nat, ghost x: Slots, ghost n: nat)
    returns (ghost copy: Slots)
    requires fs.Valid() && CopyReady(fs.Now(), t, name, parent, m, dest, x) && CleanStack(stack) && Depth(x.kids) <= n
    modifies fs.clusterMap, fs.image.bytes
    ensures Copied(old(fs.Now()), fs.Now(), t, dest, x, copy)
    ensures Ends(old(fs.Now()), name, parent, dest, fs.Now(), n)
    decreases x.kids
  {
    hide DecodeTable, Calls.Write, Calls.Read, Represents, CopyReady, Copied, Progress, JobOk, LookupDir,
         DirEntry, FindFree, FindDir, EmptySlots, Partial, SingleStored, EntryOf, Slot, Cells, Dirs,
         CellCount, Room, Copyable, Kids, HasFolder, Stored, CleanStack, Depth, Ends, EndsLoop, EndsEntry, Leaves;
    ghost var s0 := fs.Now();
    ReadinessBounds(s0, t, name, parent, m, dest, x);
    var buf := new byte[2048];
    var code := fs.ReadDirectory(Request(name, NO_EXT, parent, 0), buf);
    assert buf[..2048] == s0.disk[x.cluster];
    var reqTable := DecodeTable(buf[..2048]);
    TableRead(s0, name, parent, x.cluster);
    ghost var b := JobStarts(s0, t, name, parent, m, dest, x, stack);
    DirectoryIgnoresData(s0, Request(name, NO_EXT, dest, 0), buf[..], stack);
    code := fs.Write(Request(name, NO_EXT, dest, 0), buf, stack);
    if code == 0 {
      ghost var done, s1 := EmptySlots(1), fs.Now();
      JobBounds(s0, b);
      JobHeads(s0, fs.Now(), b, done, 1);
      code := fs.ReadDirectory(Request(name, NO_EXT, dest, 0), buf);
      assert buf[..2048] == fs.Now().disk[b.target];
      var newTable := DecodeTable(buf[..2048]);
      TableRead(s1, name, dest, b.target);
      var i := 1;
      while i < 64
        invariant 1 <= i <= 64 && JobOk(s0, b) && Progress(s0, fs.Now(), b, done, i)
        invariant reqTable == TableAt(s0, b.source)
        invariant Head(reqTable[0]) == b.source && Head(newTable[0]) == b.target
        invariant forall end: State :: EndsLoop(fs.Now(), reqTable, newTable, i, end, n)
                                       ==> EndsLoop(s1, reqTable, newTable, 1, end, n)
      {
        ghost var s := fs.Now();
        EntryFacts(s0, s, b, done, i);
        ghost var y := Slot(b.kids, 1, i);
        SlotKind(s, y);
        if reqTable[i].userAttribute == UATTR_NOT_EMPTY {
          var currCluster, newDest := Head(reqTable[0]), Head(newTable[0]);
          ghost var made;
          if reqTable[i].attribute != ATTR_ARCHIVE {
            FolderReady(s0, s, b, done, i);
            DepthOfSlot(s, b.source, 1, b.kids, i);
            made := CopyFolder(fs, reqTable[i].name, currCluster, newDest, stack, Partial(b, done), i, y, n - 1);
          } else {
            made := FileCopied(s0, s, b, done, i, stack);
            CopyFile(fs, reqTable[i].name, reqTable[i].ext, reqTable[i].filesize, currCluster, newDest, stack);
            CopiedFileEnds(s, Request(reqTable[i].name, reqTable[i].ext, currCluster, reqTable[i].filesize), newDest, stack);
          }
          done := EntryCopied(s0, s, fs.Now(), b, done, i, made);
        } else {
          FreeSlotSkipped(s0, s, b, done, i);
        }
        EntryEnds(s, reqTable, newTable, i, fs.Now(), n, stack);
        i := i + 1;
      }
      JobDone(s0, fs.Now(), b, done, x);
      LoopOver(fs.Now(), reqTable, newTable, n);
      RunEnds(s0, name, parent, dest, reqTable, newTable, stack, s1, fs.Now(), n);
      copy := Dir(b.name, b.target, done, End);
    }
  }

  lemma {:induction false} DepthOfSlot(s: State, d: nat, i: nat, f: Slots, j: nat)
    requires d < 2048 && Stored(s, d, i, f) && i <= j < 64 && Slot(f, i, j).Dir?
    ensures Depth(Slot(f, i, j).kids) + 1 <= Depth(f)
    decreases f
  {
    hide DecodeTable, FileStored, DirStored, FileEntry, DirEntry;
    if i < j { DepthOfSlot(s, d, i + 1, f.rest, j); }
  }

  /** What `copy_file` does is an end of the file case. */
  lemma CopiedFileEnds(s: State, r: Request, dest: u32, stack: Table)
    requires ReadDefined(s, r) && dest < 2048 && 2048 <= r.size
    ensures exists rest :: EndsFile(s, r, dest, rest, stack, CopiedFile(s, r, dest, stack))
  {
    hide Calls.Write, ReadDefined;
    var size := 2048 * (r.size / 2048);
    var (code, blocks) := Read(s, r);
    ReadFits(s, r);
    var data := Concat(blocks);
    var rest := Zeros(size)[|data|..];
    assert Splice(Zeros(size), 0, data) == data + rest;
    assert EndsFile(s, r, dest, rest, stack, CopiedFile(s, r, dest, stack));
  }

  lemma ReadFits(s: State, r: Request)
    requires ReadDefined(s, r)
    ensures |Concat(Read(s, r).1)| <= 2048 * (r.size / 2048)
  {
  }

  /** One turn of the loop is one entry of the run. */
  lemma EntryEnds(s: State, source: Table, target: Table, i: nat, s1: State, n: nat, stack: Table)
    requires i < 64
    requires var e, from, to := source[i], Head(source[0]), Head(target[0]);
             if e.userAttribute != UATTR_NOT_EMPTY then s1 == s
             else if e.attribute != ATTR_ARCHIVE then n > 0 && Ends(s, e.name, from, to, s1, n - 1)
             else exists rest :: EndsFile(s, Request(e.name, e.ext, from, e.filesize), to, rest, stack, s1)
    ensures forall end: State :: EndsLoop(s1, source, target, i + 1, end, n) ==> EndsLoop(s, source, target, i, end, n)
  {
    hide Ends, EndsFile, Head;
    assert EndsEntry(s, source[i], Head(source[0]), Head(target[0]), s1, n);
  }

  lemma TableRead(s: State, name: Name, parent: u32, c: nat)
    requires parent < 2048 && c < 2048 && LookupDir(s, Request(name, NO_EXT, parent, 0)) == (0, c)
    ensures Leaves(s, name, parent, TableAt(s, c))
  {
    hide LookupDir;
  }

  lemma LoopOver(s: State, source: Table, target: Table, n: nat)
    ensures EndsLoop(s, source, target, 64, s, n)
  {
  }

  lemma RunEnds(s: State, name: Name, parent: u32, dest: u32, source: Table, target: Table, stack: Table,
                s1: State, s': State, n: nat)
    requires dest < 2048 && Leaves(s, name, parent, source)
    requires Write(s, Request(name, NO_EXT, dest, 0), [], stack) == (s1, 0)
    requires Leaves(s1, name, dest, target) && EndsLoop(s1, source, target, 1, s', n)
    ensures Ends(s, name, parent, dest, s', n)
  {
    hide Leaves, EndsLoop, Calls.Write;
    assert EndsMaking(s, name, dest, source, stack, s', n);
  }

  lemma ReadinessBounds(s: State, t: Slots, name: Name, parent: nat, m: nat, dest: nat, x: Slots)
    requires CopyReady(s, t, name, parent, m, dest, x)
    ensures parent < 512 && dest < 512 && x.Dir? && Single(x) && x.name == name && x.cluster < 512
    ensures LookupDir(s, Request(name, NO_EXT, parent, 0)) == (0, x.cluster)
  {
    hide DecodeTable, Copyable, Room, LookupDir;
    SlotAtStored(s, t, parent, m);
  }

  lemma DirectoryIgnoresData(s: State, r: Request, data: seq<byte>, stack: Table)
    requires r.parent < 2048 && r.size == 0
    ensures Write(s, r, data, stack) == Write(s, r, [], stack)
  {
  }
}
