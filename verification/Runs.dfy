// Whole runs of the driver: the invariant holds in every state a legal run reaches, the tree is the
// one the abstract steps predict, and a reboot changes nothing.
module Runs {
  import opened Layout
  import opened Chains
  import opened Calls
  import opened Tree
  import opened Edits
  import opened Refinement
  import opened Moving
  import opened Limits

  // ----- start and restart -----

  const EMPTY_ROOT := Dir(ROOT_NAME, 2, EmptySlots(1), End)

  /** Formatting from zeroed driver memory gives a root directory and nothing else. */
  lemma FormatRepresents(ram: Fat, buf: Table, disk: Disk)
    requires (forall c :: 3 <= c < 512 ==> ram[c] == EMPTY) && CleanStack(buf)
    ensures Represents(Format(ram, buf, disk), EMPTY_ROOT) && Synced(Format(ram, buf, disk))
  {
    hide DecodeTable, EncodeTable, EncodeFat, DirEntry, Signature;
    var s := Format(ram, buf, disk);
    TableRoundTrip(buf[0 := DirEntry(ROOT_NAME, 2)]);
    EmptySlotsStored(s, 2, 1);
    NoCellsInEmptySlots(1);
    assert s.disk[0][..512] == Signature();
  }

  /** Whatever memory holds, initialising from a synced disk restores the cached map exactly. */
  lemma RemountRestores(s: State, ram: Fat, buf: Table)
    requires Synced(s)
    ensures Initialize(ram, buf, s.disk) == s
  {
    FatRoundTrip(s.fat);
  }

  // ----- steps -----

  datatype Op =
    | WriteOp(request: Request, data: seq<byte>, stack: Table)
    | DeleteOp(request: Request)
    | MoveOp(src: nat, dst: nat, slot: nat)
    | RebootOp(ram: Fat, buf: Table)

  ghost predicate Defined(s: State, op: Op) {
    match op
    case WriteOp(r, data, _) => WriteDefined(r, data)
    case DeleteOp(r) => DeleteDefined(s, r)
    case MoveOp(p, q, k) => p < 2048 && q < 2048 && MoveDefined(TableAt(s, p), TableAt(s, q), k)
    case RebootOp(_, _) => true
  }

  ghost function Step(s: State, op: Op): State
    requires Defined(s, op)
  {
    match op
    case WriteOp(r, data, stack) => Write(s, r, data, stack).0
    case DeleteOp(r) => Delete(s, r).0
    case MoveOp(p, q, k) => Move(s, TableAt(s, p), TableAt(s, q), k)
    case RebootOp(ram, buf) => Initialize(ram, buf, s.disk)
  }

  /** What the caller has to check: parents are live directories, `write` has room, `delete` is not
      given a one-cluster file, a move goes to another directory outside the moved entry. */
  ghost predicate Legal(s: State, t: Slots, op: Op)
    requires Represents(s, t)
  {
    match op
    case WriteOp(r, data, stack) =>
      && WriteDefined(r, data)
      && (r.name == NO_NAME || r.parent < 2 || (r.parent in Dirs(t) && WriteIsSafe(s, r, stack)))
    case DeleteOp(r) =>
      && r.parent in Dirs(t) && r.parent < 2048
      && (var k := DeleteSlot(s, r);
          k < 64 ==> var x := SlotAt(t, r.parent, k); x.File? ==> |x.chain| >= 2)
    case MoveOp(p, q, k) =>
      && p in Dirs(t) && q in Dirs(t) && 1 <= k < 64 && q < 2048
      && (FindFree(TableAt(s, q), 1) == 64 || (p != q && q !in Dirs(SlotAt(t, p, k))))
    case RebootOp(_, _) => true
  }

  /** The tree after a step: one leaf more, one leaf less, one entry elsewhere, or the same. */
  ghost function StepTree(s: State, t: Slots, op: Op): Slots
    requires Represents(s, t) && Legal(s, t, op) && Defined(s, op)
  {
    match op
    case WriteOp(r, data, stack) =>
      if Write(s, r, data, stack).1 != 0 then t
      else if r.size == 0 then
        Edit(t, r.parent, FindFree(TableAt(s, r.parent), 0), NewDirectory(r, NewCell(s, r, stack)))
      else
        Edit(t, r.parent, FindFree(TableAt(s, r.parent), 0), NewFile(s, r, data))
    case DeleteOp(r) =>
      if Delete(s, r).1 != 0 then t else Edit(t, r.parent, DeleteSlot(s, r), Free(End))
    case MoveOp(p, q, k) =>
      var i := FindFree(TableAt(s, q), 1);
      if i == 64 then t else Moved(t, p, k, q, i)
    case RebootOp(_, _) => t
  }

  lemma LegalIsDefined(s: State, t: Slots, op: Op)
    requires Represents(s, t) && Legal(s, t, op)
    ensures Defined(s, op)
  {
    hide TableAt, FileStored;
    match op
    case WriteOp(_, _, _) =>
    case DeleteOp(r) => DeleteDefinedIff(s, t, r);
    case MoveOp(p, q, k) => MoveSteps(s, t, p, q, k);
    case RebootOp(_, _) =>
  }

  lemma WriteStep(s: State, t: Slots, r: Request, data: seq<byte>, stack: Table)
    requires Represents(s, t) && Synced(s) && Legal(s, t, WriteOp(r, data, stack))
    ensures var op := WriteOp(r, data, stack);
            Represents(Step(s, op), StepTree(s, t, op)) && Synced(Step(s, op))
  {
    hide DecodeTable, FileStored, DirStored, Stored, MakeFile, MakeDirectory, RootStored;
    if r.name != NO_NAME && 2 <= r.parent {
      if r.size == 0 {
        if FreeCells(s.fat, 2, 1) != [] { MakeDirectoryRefines(s, t, r, stack); }
        else { assert MakeDirectory(s, r, stack) == (s, 1) by { FullMap(s, r, stack); } }
      } else {
        FirstFitSucceeds(s.fat, 2, r.size / 2048);
        if r.size / 2048 > |FreeSet(s.fat, 2)| {
          assert MakeFile(s, r, data) == (s, 1) by { TooFewCells(s, r, data); }
        } else {
          MakeFileRefines(s, t, r, data);
        }
      }
    }
  }

  lemma FullMap(s: State, r: Request, stack: Table)
    requires 2 <= r.parent < 2048 && FreeCells(s.fat, 2, 1) == []
    ensures MakeDirectory(s, r, stack) == (s, 1)
  {
  }

  lemma TooFewCells(s: State, r: Request, data: seq<byte>)
    requires 2 <= r.parent < 2048 && 2048 <= r.size && 2048 * (r.size / 2048) <= |data|
    requires |FreeCells(s.fat, 2, r.size / 2048)| < r.size / 2048
    ensures MakeFile(s, r, data) == (s, 1)
  {
  }

  lemma StepRefines(s: State, t: Slots, op: Op)
    requires Represents(s, t) && Synced(s) && Legal(s, t, op)
    ensures Defined(s, op)
    ensures Represents(Step(s, op), StepTree(s, t, op)) && Synced(Step(s, op))
  {
    hide TableAt, FileStored, DirStored, Stored, RootStored, Write, Delete, Move, Initialize;
    LegalIsDefined(s, t, op);
    match op
    case WriteOp(r, data, stack) => WriteStep(s, t, r, data, stack);
    case DeleteOp(r) => DeleteRefines(s, t, r);
    case MoveOp(p, q, k) =>
      if FindFree(TableAt(s, q), 1) == 64 { MoveSteps(s, t, p, q, k); } else { MoveRefines(s, t, p, q, k); }
    case RebootOp(ram, buf) => RemountRestores(s, ram, buf);
  }

  // ----- runs -----

  ghost function After(s: State, t: Slots, op: Op): (r: (State, Slots))
    requires Represents(s, t) && Synced(s) && Legal(s, t, op)
    ensures Defined(s, op) && Represents(r.0, r.1) && Synced(r.0)
    ensures r == (Step(s, op), StepTree(s, t, op))
  {
    StepRefines(s, t, op);
    (Step(s, op), StepTree(s, t, op))
  }

  ghost predicate LegalRun(s: State, t: Slots, ops: seq<Op>)
    requires Represents(s, t) && Synced(s)
    decreases |ops|
  {
    ops == [] ||
    (Legal(s, t, ops[0]) && var (s1, t1) := After(s, t, ops[0]); LegalRun(s1, t1, ops[1..]))
  }

  ghost function Run(s: State, t: Slots, ops: seq<Op>): (State, Slots)
    requires Represents(s, t) && Synced(s) && LegalRun(s, t, ops)
    decreases |ops|
  {
    if ops == [] then (s, t)
    else var (s1, t1) := After(s, t, ops[0]); Run(s1, t1, ops[1..])
  }

  /** Safety over whole runs. */
  lemma {:induction false} RunKeepsInvariant(s: State, t: Slots, ops: seq<Op>)
    requires Represents(s, t) && Synced(s) && LegalRun(s, t, ops)
    ensures var (s', t') := Run(s, t, ops);
            Represents(s', t') && Synced(s')
    decreases |ops|
  {
    hide Represents, Synced, Legal, Defined, Step, StepTree;
    if ops != [] {
      var (s1, t1) := After(s, t, ops[0]);
      RunKeepsInvariant(s1, t1, ops[1..]);
    }
  }

  /** From any unformatted disk: format, run, and restart with arbitrary memory contents. */
  lemma RunFromFormat(ram: Fat, buf: Table, disk: Disk, ops: seq<Op>, ram': Fat, buf': Table)
    requires (forall c :: 3 <= c < 512 ==> ram[c] == EMPTY) && CleanStack(buf) && !Formatted(disk)
    ensures var s := Initialize(ram, buf, disk);
            && Represents(s, EMPTY_ROOT) && Synced(s)
            && (LegalRun(s, EMPTY_ROOT, ops) ==>
                  var (s', t') := Run(s, EMPTY_ROOT, ops);
                  && Represents(s', t') && Synced(s')
                  && Initialize(ram', buf', s'.disk) == s')
  {
    hide Represents, Synced, Format, LegalRun, Run;
    FormatRepresents(ram, buf, disk);
    var s := Initialize(ram, buf, disk);
    if LegalRun(s, EMPTY_ROOT, ops) {
      RunKeepsInvariant(s, EMPTY_ROOT, ops);
      RemountRestores(Run(s, EMPTY_ROOT, ops).0, ram', buf');
    }
  }
}
