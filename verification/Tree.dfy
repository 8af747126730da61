// Directory trees, and when a pair (cached map, disk) stores one. A directory's 63 usable slots
// are a list, so that a whole tree is one recursive datatype.
module Tree {
  import opened Layout
  import opened Chains
  import opened Calls

  /** The slots of a directory from some index on. Directories are identified by their cluster. */
  datatype Slots =
    | End
    | Free(rest: Slots)
    | File(name: Name, ext: Ext, size: u32, chain: seq<nat>, blocks: seq<Cluster>, rest: Slots)
    | Dir(name: Name, cluster: nat, kids: Slots, rest: Slots)

  /** The cells a tree occupies. */
  ghost function Cells(f: Slots): set<nat> {
    match f
    case End => {}
    case Free(rest) => Cells(rest)
    case File(_, _, _, ch, _, rest) => SetOf(ch) + Cells(rest)
    case Dir(_, c, kids, rest) => {c} + Cells(kids) + Cells(rest)
  }

  ghost function Dirs(f: Slots): set<nat> {
    match f
    case End => {}
    case Free(rest) => Dirs(rest)
    case File(_, _, _, _, _, rest) => Dirs(rest)
    case Dir(_, c, kids, rest) => {c} + Dirs(kids) + Dirs(rest)
  }

  /** No cell serves two purposes. */
  ghost predicate Apart(f: Slots) {
    match f
    case End => true
    case Free(rest) => Apart(rest)
    case File(_, _, _, ch, _, rest) => SetOf(ch) !! Cells(rest) && Apart(rest)
    case Dir(_, c, kids, rest) =>
      && c !in Cells(kids) && c !in Cells(rest) && Cells(kids) !! Cells(rest)
      && Apart(kids) && Apart(rest)
  }

  // ----- storage -----

  ghost predicate FileStored(s: State, name: Name, size: u32, ch: seq<nat>, blocks: seq<Cluster>) {
    && name != NO_NAME
    && ch != [] && |ch| == size / 2048
    && 2 <= ch[0] && Ascending(ch) && IsChain(s.fat, ch[0], ch)
    && Holds(s.disk, ch, blocks)
  }

  ghost predicate DirStored(s: State, name: Name, c: nat) {
    && name != NO_NAME
    && 2 <= c < 512 && s.fat[c] == EOF
    && TableAt(s, c)[0] == DirEntry(name, c)
  }

  /** Slots `i` and up of the directory stored in cluster `d` are `f`, and all below is stored too. */
  ghost predicate Stored(s: State, d: nat, i: nat, f: Slots)
    requires d < 2048
    decreases f
  {
    match f
    case End => i == 64
    case Free(rest) =>
      i < 64 && TableAt(s, d)[i] == ZERO_ENTRY && Stored(s, d, i + 1, rest)
    case File(name, ext, size, ch, blocks, rest) =>
      && i < 64 && FileStored(s, name, size, ch, blocks) && ch[0] < 512
      && TableAt(s, d)[i] == FileEntry(name, ext, size, ch[0])
      && Stored(s, d, i + 1, rest)
    case Dir(name, c, kids, rest) =>
      && i < 64 && DirStored(s, name, c)
      && TableAt(s, d)[i] == DirEntry(name, c)
      && Stored(s, c, 1, kids)
      && Stored(s, d, i + 1, rest)
  }

  /** `t` is the root directory and everything below it. */
  ghost predicate RootStored(s: State, t: Slots) {
    && t.Dir? && t.cluster == 2 && t.name == ROOT_NAME && t.rest == End
    && DirStored(s, ROOT_NAME, 2) && Stored(s, 2, 1, t.kids)
  }

  /** The global invariant: the tree is stored, its parts share nothing, and nothing leaks. */
  ghost predicate Represents(s: State, t: Slots) {
    && RootStored(s, t) && Apart(t)
    && s.fat[0] == CLUSTER_0_VALUE && s.fat[1] == CLUSTER_1_VALUE
    && forall c :: 2 <= c < 512 ==> (s.fat[c] != EMPTY <==> c in Cells(t))
  }

  /** What survives a reboot: the cached map is also in cluster 1, and the boot block is signed. */
  ghost predicate Synced(s: State) {
    s.disk[1] == EncodeFat(s.fat) && Formatted(s.disk)
  }

  // ----- single slots -----

  function SetRest(x: Slots, rest: Slots): Slots {
    match x
    case End => rest
    case Free(_) => Free(rest)
    case File(name, ext, size, ch, blocks, _) => File(name, ext, size, ch, blocks, rest)
    case Dir(name, c, kids, _) => Dir(name, c, kids, rest)
  }

  predicate Single(x: Slots) {
    !x.End? && x.rest == End
  }

  /** Slot `j` of the list `f`, whose first slot has index `i`. */
  function Slot(f: Slots, i: nat, j: nat): Slots
    decreases f
  {
    if f == End then Free(End)
    else if i == j then SetRest(f, End)
    else Slot(f.rest, i + 1, j)
  }

  function Put(f: Slots, i: nat, j: nat, x: Slots): Slots
    decreases f
  {
    if f == End then End
    else if i == j then SetRest(x, f.rest)
    else SetRest(f, Put(f.rest, i + 1, j, x))
  }

  ghost predicate SingleStored(s: State, x: Slots)
    requires Single(x)
  {
    match x
    case Free(_) => true
    case File(name, ext, size, ch, blocks, _) => FileStored(s, name, size, ch, blocks) && ch[0] < 512
    case Dir(name, c, kids, _) => DirStored(s, name, c) && Stored(s, c, 1, kids)
  }

  ghost function EntryOf(s: State, x: Slots): Entry
    requires Single(x) && SingleStored(s, x)
  {
    match x
    case Free(_) => ZERO_ENTRY
    case File(name, ext, size, ch, _, _) => FileEntry(name, ext, size, ch[0])
    case Dir(name, c, _, _) => DirEntry(name, c)
  }

  // ----- directories inside a tree -----

  ghost function Kids(f: Slots, p: nat): Slots {
    match f
    case End => End
    case Free(rest) => Kids(rest, p)
    case File(_, _, _, _, _, rest) => Kids(rest, p)
    case Dir(_, c, kids, rest) =>
      if c == p then kids else if p in Dirs(kids) then Kids(kids, p) else Kids(rest, p)
  }

  function Graft(f: Slots, p: nat, k: Slots): Slots {
    match f
    case End => End
    case Free(rest) => Free(Graft(rest, p, k))
    case File(name, ext, size, ch, blocks, rest) =>
      File(name, ext, size, ch, blocks, Graft(rest, p, k))
    case Dir(name, c, kids, rest) =>
      if c == p then Dir(name, c, k, rest) else Dir(name, c, Graft(kids, p, k), Graft(rest, p, k))
  }
}
