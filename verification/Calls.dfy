// What each driver call does to the pair (cached cluster map, disk), as functions of values.
// The methods of class Driver are proved equal to these; everything else is proved about these.
module Calls {
  import opened Layout
  import opened Chains

  /** The map is the copy cached in memory, not the one stored in cluster 1. */
  datatype State = State(fat: Fat, disk: Disk)

  /** `size` is buffer_size: 0 asks for a directory. */
  datatype Request = Request(name: Name, ext: Ext, parent: u32, size: u32)

  function TableAt(s: State, c: nat): Table
    requires c < 2048
  {
    DecodeTable(s.disk[c])
  }

  // ----- the three directory scans; 64 means not found -----

  function FindDir(t: Table, name: Name, i: nat): (k: nat)
    requires i <= 64
    ensures i <= k <= 64
    ensures k < 64 ==> t[k].name == name && t[k].attribute == ATTR_SUBDIRECTORY
    ensures forall m :: i <= m < k ==> !(t[m].name == name && t[m].attribute == ATTR_SUBDIRECTORY)
    decreases 64 - i
  {
    if i == 64 || (t[i].name == name && t[i].attribute == ATTR_SUBDIRECTORY) then i
    else FindDir(t, name, i + 1)
  }

  function FindEntry(t: Table, name: Name, ext: Ext, i: nat): (k: nat)
    requires i <= 64
    ensures i <= k <= 64
    ensures k < 64 ==> t[k].name == name && t[k].ext == ext
    ensures forall m :: i <= m < k ==> !(t[m].name == name && t[m].ext == ext)
    decreases 64 - i
  {
    if i == 64 || (t[i].name == name && t[i].ext == ext) then i
    else FindEntry(t, name, ext, i + 1)
  }

  function FindFree(t: Table, i: nat): (k: nat)
    requires i <= 64
    ensures i <= k <= 64
    ensures k < 64 ==> t[k].userAttribute != UATTR_NOT_EMPTY
    ensures forall m :: i <= m < k ==> t[m].userAttribute == UATTR_NOT_EMPTY
    decreases 64 - i
  {
    if i == 64 || t[i].userAttribute != UATTR_NOT_EMPTY then i
    else FindFree(t, i + 1)
  }

  // ----- read_directory -----

  /** The error code and, for code 0, the cluster of the directory found. */
  function LookupDir(s: State, r: Request): (int, nat)
    requires r.parent < 2048
  {
    if r.name == NO_NAME then (-1, 0)
    else if r.size != 0 then (1, 0)
    else
      var t := TableAt(s, r.parent);
      var k := FindDir(t, r.name, 0);
      if k == 64 then (2, 0) else (0, Head(t[k]))
  }

  predicate ReadDirectoryDefined(s: State, r: Request) {
    r.parent < 2048 && LookupDir(s, r).1 < 2048
  }

  // ----- read -----

  ghost predicate HasChain(fat: Fat, c: int) {
    exists ch :: IsChain(fat, c, ch)
  }

  ghost function ChainFrom(fat: Fat, c: int): (ch: seq<nat>)
    requires HasChain(fat, c)
    ensures IsChain(fat, c, ch) && Within(ch, 512)
  {
    var ch :| IsChain(fat, c, ch);
    ChainDistinct(fat, c, ch);
    ch
  }

  /** The two walks of `read` are meaningful: following the map from the entry reaches EOF. */
  ghost predicate ReadDefined(s: State, r: Request) {
    && r.parent < 2048
    && (r.name != NO_NAME && r.size != 0 ==>
          var t := TableAt(s, r.parent);
          var k := FindEntry(t, r.name, r.ext, 1);
          k < 64 ==> HasChain(s.fat, Head(t[k])))
  }

  function Fetch(disk: Disk, ch: seq<nat>): (r: seq<Cluster>)
    requires Within(ch, 512)
    ensures |r| == |ch|
  {
    seq(|ch|, k requires 0 <= k < |ch| => assert ch[k] < 512; disk[ch[k]])
  }

  /** The error code and, for code 0, the clusters delivered. */
  ghost function Read(s: State, r: Request): (int, seq<Cluster>)
    requires ReadDefined(s, r)
  {
    if r.name == NO_NAME then (-1, [])
    else if r.size == 0 then (1, [])
    else
      var t := TableAt(s, r.parent);
      var k := FindEntry(t, r.name, r.ext, 1);
      if k == 64 then (3, [])
      else
        var ch := ChainFrom(s.fat, Head(t[k]));
        if |ch| > r.size / 2048 then (2, []) else (0, Fetch(s.disk, ch))
  }

  // ----- write -----

  predicate WriteDefined(r: Request, data: seq<byte>) {
    r.parent < 2048 && (r.size == 0 || (2048 <= r.size && 2048 * (r.size / 2048) <= |data|))
  }

  /** `stack` is what the uninitialised local directory table happens to hold. */
  function Write(s: State, r: Request, data: seq<byte>, stack: Table): (State, int)
    requires WriteDefined(r, data)
  {
    if r.name == NO_NAME then (s, -1)
    else if r.parent < 2 then (s, 2)
    else if r.size == 0 then MakeDirectory(s, r, stack)
    else MakeFile(s, r, data)
  }

  /** The slot `write` fills: the first free one, or slot 0 when there is none. */
  function TargetSlot(t: Table): (k: nat)
    ensures k < 64
  {
    var k := FindFree(t, 0);
    if k == 64 then 0 else k
  }

  function MakeDirectory(s: State, r: Request, stack: Table): (State, int)
    requires 2 <= r.parent < 2048
  {
    var free := FreeCells(s.fat, 2, 1);
    if free == [] then (s, 1)
    else
      var c := free[0];
      var fat: Fat := s.fat[c := EOF];
      if c == 511 then (State(fat, s.disk), 1)
      else
        var t := TableAt(s, r.parent);
        var k := TargetSlot(t);
        var e := DirEntry(r.name, c).(ext := t[k].ext);
        var disk: Disk := s.disk[c := EncodeTable(stack[0 := DirEntry(r.name, c)])];
        (State(fat, Commit(disk, fat, r.parent, t[k := e])), 0)
  }

  function MakeFile(s: State, r: Request, data: seq<byte>): (State, int)
    requires 2 <= r.parent < 2048 && 2048 <= r.size && 2048 * (r.size / 2048) <= |data|
  {
    var n := r.size / 2048;
    var free := FreeCells(s.fat, 2, n);
    if |free| < n then (s, 1)
    else
      var fat := Link(s.fat, free);
      var t := TableAt(s, r.parent);
      var k := TargetSlot(t);
      var e := FileEntry(r.name, r.ext, r.size, free[0]);
      var disk := Written(s.disk, free, Blocks(data, n), n);
      (State(fat, Commit(disk, fat, r.parent, t[k := e])), 0)
  }

  /** The two writes that end `write` and `delete`: the map, then the parent's table. */
  function Commit(disk: Disk, fat: Fat, parent: nat, t: Table): Disk
    requires parent < 2048
  {
    disk[1 := EncodeFat(fat)][parent := EncodeTable(t)]
  }

  // ----- delete -----

  predicate EmptyDirectory(t: Table) {
    forall m :: 1 <= m < 64 ==> t[m].userAttribute != UATTR_NOT_EMPTY
  }

  /** The slot `delete` acts on, 64 when it finds none. */
  function DeleteSlot(s: State, r: Request): (k: nat)
    requires r.parent < 2048
    ensures k <= 64
  {
    if r.name == NO_NAME then 64 else FindEntry(TableAt(s, r.parent), r.name, r.ext, 1)
  }

  /** No access outside the map or the disk, and the freeing loop stops. */
  ghost predicate DeleteDefined(s: State, r: Request) {
    && r.parent < 2048
    && var k := DeleteSlot(s, r);
       k < 64 ==> RemoveDefined(s, TableAt(s, r.parent)[k])
  }

  ghost predicate RemoveDefined(s: State, e: Entry) {
    && (e.attribute == ATTR_SUBDIRECTORY ==>
          Head(e) < 2048 && (EmptyDirectory(TableAt(s, Head(e))) ==> Head(e) < 512))
    && (e.attribute == ATTR_ARCHIVE ==> exists ch :: Frees(s.fat, Head(e), ch))
  }

  ghost function FreedBy(fat: Fat, c: int): (ch: seq<nat>)
    requires exists ch :: Frees(fat, c, ch)
    ensures Frees(fat, c, ch)
  {
    var ch :| Frees(fat, c, ch); ch
  }

  ghost function Delete(s: State, r: Request): (State, int)
    requires DeleteDefined(s, r)
  {
    var k := DeleteSlot(s, r);
    if k == 64 then (s, -1) else Remove(s, r.parent, TableAt(s, r.parent), k)
  }

  /** Removing the entry in slot `k` of the table `t` of `parent`. */
  ghost function Remove(s: State, parent: nat, t: Table, k: nat): (State, int)
    requires parent < 2048 && k < 64 && RemoveDefined(s, t[k])
  {
    var c := Head(t[k]);
    if t[k].attribute == ATTR_SUBDIRECTORY then
      if !EmptyDirectory(TableAt(s, c)) then (s, 2)
      else (Release(s, [c], parent, t[k := ZERO_ENTRY]), 0)
    else if t[k].attribute == ATTR_ARCHIVE then
      (Release(s, FreedBy(s.fat, c), parent, t[k := ZERO_ENTRY]), 0)
    else
      (Release(s, [], parent, t[k := ZERO_ENTRY]), -1)
  }

  /** Cells cleared in the map, their clusters zeroed, then map and table written. */
  function Release(s: State, ch: seq<nat>, parent: nat, t: Table): State
    requires parent < 2048
  {
    var fat := FreeAll(s.fat, ch);
    State(fat, Commit(ZeroAll(s.disk, ch), fat, parent, t))
  }

  // ----- move (system call 8) -----

  /** The two tables after the entry has been carried over, if the destination has room. */
  function Carry(src: Table, dst: Table, k: nat): (Table, Table)
    requires k < 64
  {
    var i := FindFree(dst, 1);
    if i == 64 then (src, dst) else (src[k := ZERO_ENTRY], dst[i := src[k]])
  }

  predicate MoveDefined(src: Table, dst: Table, k: nat) {
    k < 64 && var (src', dst') := Carry(src, dst, k); Head(src'[0]) < 2048 && Head(dst'[0]) < 2048
  }

  /** Both tables are the caller's copies; where they are stored is read from their slot 0, after the
      entry has been carried over. */
  function Move(s: State, src: Table, dst: Table, k: nat): State
    requires MoveDefined(src, dst, k)
  {
    var (src', dst') := Carry(src, dst, k);
    s.(disk := s.disk[Head(src'[0]) := EncodeTable(src')][Head(dst'[0]) := EncodeTable(dst')])
  }

  // ----- initialisation -----

  predicate Formatted(disk: Disk) {
    disk[0][..512] == Signature()
  }

  /** `ram` is the cached map, `buf` the cached directory table before the call. */
  function Format(ram: Fat, buf: Table, disk: Disk): State {
    var fat: Fat := ram[0 := CLUSTER_0_VALUE][1 := CLUSTER_1_VALUE][2 := EOF];
    var boot: Cluster := Signature() + disk[0][512..];
    State(fat, disk[0 := boot][1 := EncodeFat(fat)]
                   [2 := EncodeTable(buf[0 := DirEntry(ROOT_NAME, 2)])])
  }

  function Initialize(ram: Fat, buf: Table, disk: Disk): State {
    if Formatted(disk) then State(DecodeFat(disk[1]), disk) else Format(ram, buf, disk)
  }
}
