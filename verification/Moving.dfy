// System call 8: moving an entry between directories, and exactly when that is safe.
module Moving {
  import opened Layout
  import opened Calls
  import opened Tree
  import opened TreeFacts
  import opened Edits
  import opened Refinement

  lemma DirectoryHead(s: State, t: Slots, p: nat)
    requires RootStored(s, t) && p in Dirs(t)
    ensures 2 <= p < 512 && Head(TableAt(s, p)[0]) == p && s.fat[p] == EOF
  {
    var _ := DirectoryStored(s, t, p);
  }

  /** Rewriting one table on disk and nothing else. */
  function WriteTable(s: State, p: nat, tab: Table): State
    requires p < 2048
  {
    s.(disk := s.disk[p := EncodeTable(tab)])
  }

  /** Two table writes when the destination has room, nothing otherwise. */
  ghost function Carried(s: State, p: nat, q: nat, k: nat): State
    requires p < 2048 && q < 2048 && k < 64
  {
    var i := FindFree(TableAt(s, q), 1);
    if i == 64 then s
    else WriteTable(WriteTable(s, p, TableAt(s, p)[k := ZERO_ENTRY]), q, TableAt(s, q)[i := TableAt(s, p)[k]])
  }

  lemma MoveSteps(s: State, t: Slots, p: nat, q: nat, k: nat)
    requires RootStored(s, t) && p in Dirs(t) && q in Dirs(t) && 1 <= k < 64
    ensures p < 512 && q < 512 && MoveDefined(TableAt(s, p), TableAt(s, q), k)
    ensures Move(s, TableAt(s, p), TableAt(s, q), k) == Carried(s, p, q, k)
  {
    hide DecodeTable, EncodeTable;
    DirectoryHead(s, t, p);
    DirectoryHead(s, t, q);
    if FindFree(TableAt(s, q), 1) == 64 {
      TableBytesRoundTrip(s.disk[p]);
      TableBytesRoundTrip(s.disk[q]);
    }
  }

  lemma TableWritten(s: State, p: nat, tab: Table)
    requires p < 2048
    ensures var s' := WriteTable(s, p, tab);
            && TableAt(s', p) == tab && s'.fat == s.fat
            && forall c :: 0 <= c < 2048 && c != p ==> s'.disk[c] == s.disk[c]
  {
    TableRoundTrip(tab);
  }

  /** The source table is written first: the entry leaves the tree, its cells stay as they are. */
  lemma Unlink(s: State, t: Slots, p: nat, k: nat)
    requires Represents(s, t) && p in Dirs(t) && 1 <= k < 64 && p < 512
    ensures var s1 := WriteTable(s, p, TableAt(s, p)[k := ZERO_ENTRY]);
            var t1 := Edit(t, p, k, Free(End));
            && RootStored(s1, t1) && Apart(t1)
            && Cells(t1) == Cells(t) - Cells(SlotAt(t, p, k))
            && Dirs(t1) == Dirs(t) - Dirs(SlotAt(t, p, k))
  {
    hide DecodeTable, WriteTable, FileStored, DirStored, Stored;
    SlotAtStored(s, t, p, k);
    TableWritten(s, p, TableAt(s, p)[k := ZERO_ENTRY]);
    var s1 := WriteTable(s, p, TableAt(s, p)[k := ZERO_ENTRY]);
    EditStored(s, s1, t, p, k, Free(End));
    EditDirs(s, t, p, k, Free(End));
  }

  ghost function Moved(t: Slots, p: nat, k: nat, q: nat, i: nat): Slots {
    Edit(Edit(t, p, k, Free(End)), q, i, SlotAt(t, p, k))
  }

  /** Moving an entry to another directory that has room and does not lie under it takes the entry
      out of one slot and puts it, with all it holds, into the other. */
  lemma MoveRefines(s: State, t: Slots, p: nat, q: nat, k: nat)
    requires Represents(s, t) && p in Dirs(t) && q in Dirs(t) && p != q && 1 <= k < 64
    requires q !in Dirs(SlotAt(t, p, k))
    ensures p < 512 && q < 512 && MoveDefined(TableAt(s, p), TableAt(s, q), k)
    ensures var s' := Move(s, TableAt(s, p), TableAt(s, q), k);
            var i := FindFree(TableAt(s, q), 1);
            && s'.fat == s.fat
            && (i < 64 ==> Represents(s', Moved(t, p, k, q, i)) && (Synced(s) ==> Synced(s')))
            && (i == 64 ==> s' == s)
  {
    hide DecodeTable, EncodeTable, Represents, Move, WriteTable, Stored, Synced, FindFree;
    RepresentsRoot(s, t);
    MoveSteps(s, t, p, q, k);
    if FindFree(TableAt(s, q), 1) < 64 {
      MoveLinks(s, t, p, q, k);
      WriteTableFrame(s, p, TableAt(s, p)[k := ZERO_ENTRY]);
      WriteTableFrame(WriteTable(s, p, TableAt(s, p)[k := ZERO_ENTRY]), q,
                      TableAt(s, q)[FindFree(TableAt(s, q), 1) := TableAt(s, p)[k]]);
    }
  }

  lemma WriteTableFrame(s: State, p: nat, tab: Table)
    requires p < 2048
    ensures WriteTable(s, p, tab).fat == s.fat
  {
  }

  lemma MoveLinks(s: State, t: Slots, p: nat, q: nat, k: nat)
    requires Represents(s, t) && p in Dirs(t) && q in Dirs(t) && p != q && 1 <= k < 64
    requires p < 512 && q < 512 && q !in Dirs(SlotAt(t, p, k)) && FindFree(TableAt(s, q), 1) < 64
    ensures var i := FindFree(TableAt(s, q), 1);
            var s2 := WriteTable(WriteTable(s, p, TableAt(s, p)[k := ZERO_ENTRY]),
                                 q, TableAt(s, q)[i := TableAt(s, p)[k]]);
            Represents(s2, Moved(t, p, k, q, i)) && (Synced(s) ==> Synced(s2))
  {
    hide DecodeTable, EncodeTable, FileEntry, DirEntry, FileStored, DirStored, Stored, WriteTable,
         RootStored, Edit, FindFree;
    assert RootStored(s, t);
    var i, x := FindFree(TableAt(s, q), 1), SlotAt(t, p, k);
    var tab1, tab2 := TableAt(s, p)[k := ZERO_ENTRY], TableAt(s, q)[i := TableAt(s, p)[k]];
    Unlink(s, t, p, k);
    var s1, t1 := WriteTable(s, p, tab1), Edit(t, p, k, Free(End));
    TableWritten(s, p, tab1);
    SlotAtStored(s, t, p, k);
    var s2 := WriteTable(s1, q, tab2);
    TableWritten(s1, q, tab2);
    SingleFrame(s, s1, x);
    DirectoryHead(s, t, p);
    DirectoryHead(s, t, q);
    Relink(s1, t1, q, i, x);
    SameCellsRepresented(s, s2, t, Edit(t1, q, i, x));
  }

  lemma SameCellsRepresented(s: State, s': State, t: Slots, t': Slots)
    requires Represents(s, t) && RootStored(s', t') && Apart(t') && Cells(t') == Cells(t) && s'.fat == s.fat
    requires s'.disk[0] == s.disk[0] && s'.disk[1] == s.disk[1]
    ensures Represents(s', t') && (Synced(s) ==> Synced(s'))
  {
  }

  /** The destination table is written second. */
  lemma Relink(s1: State, t1: Slots, q: nat, i: nat, x: Slots)
    requires RootStored(s1, t1) && Apart(t1) && q in Dirs(t1) && 1 <= i < 64 && q < 512
    requires i == FindFree(TableAt(s1, q), 1)
    requires Single(x) && SingleStored(s1, x) && Apart(x) && Cells(x) !! Cells(t1)
    ensures var s2 := WriteTable(s1, q, TableAt(s1, q)[i := EntryOf(s1, x)]);
            var t2 := Edit(t1, q, i, x);
            RootStored(s2, t2) && Apart(t2) && Cells(t2) == Cells(t1) + Cells(x)
  {
    hide DecodeTable, EncodeTable, FileEntry, DirEntry, FileStored, DirStored, Stored, WriteTable;
    FreeSlotIsFree(s1, t1, q, 1);
    DirsAreCells(t1);
    var s2 := WriteTable(s1, q, TableAt(s1, q)[i := EntryOf(s1, x)]);
    TableWritten(s1, q, TableAt(s1, q)[i := EntryOf(s1, x)]);
    SingleFrame(s1, s2, x);
    EditStored(s1, s2, t1, q, i, x);
  }

  // ----- conservation -----

  /** The live entries of a table, from slot `i` on. */
  ghost function IfLive(e: Entry): multiset<Entry> {
    if e.userAttribute == UATTR_NOT_EMPTY then multiset{e} else multiset{}
  }

  ghost function LiveEntries(tab: Table, i: nat): multiset<Entry>
    decreases 64 - i
  {
    if i >= 64 then multiset{} else IfLive(tab[i]) + LiveEntries(tab, i + 1)
  }

  lemma {:induction false} LiveEntriesAbove(a: Table, b: Table, i: nat)
    requires forall m :: i <= m < 64 ==> a[m] == b[m]
    ensures LiveEntries(a, i) == LiveEntries(b, i)
    decreases 64 - i
  {
    hide IfLive;
    if i < 64 { LiveEntriesAbove(a, b, i + 1); }
  }

  lemma {:induction false} LiveEntriesUpdated(tab: Table, k: nat, e: Entry, i: nat)
    requires i <= k < 64
    ensures LiveEntries(tab[k := e], i) + IfLive(tab[k]) == LiveEntries(tab, i) + IfLive(e)
    decreases 64 - i
  {
    hide IfLive;
    var after: Table := tab[k := e];
    if i == k {
      LiveEntriesAbove(after, tab, i + 1);
    } else {
      var head, was, now := IfLive(tab[i]), LiveEntries(tab, i + 1), LiveEntries(after, i + 1);
      LiveEntriesUpdated(tab, k, e, i + 1);
      assert now + IfLive(tab[k]) == was + IfLive(e);
      assert LiveEntries(after, i) == head + now && LiveEntries(tab, i) == head + was;
      assert head + now + IfLive(tab[k]) == head + (now + IfLive(tab[k]));
      assert head + was + IfLive(e) == head + (was + IfLive(e));
    }
  }

  lemma EntryMoved(a: Table, b: Table, k: nat, i: nat)
    requires 1 <= k < 64 && 1 <= i < 64 && b[i].userAttribute != UATTR_NOT_EMPTY
    ensures LiveEntries(a[k := ZERO_ENTRY], 1) + LiveEntries(b[i := a[k]], 1) == LiveEntries(a, 1) + LiveEntries(b, 1)
  {
    hide LiveEntries;
    var x := IfLive(a[k]);
    LiveEntriesUpdated(a, k, ZERO_ENTRY, 1);
    LiveEntriesUpdated(b, i, a[k], 1);
    var a', b' := LiveEntries(a[k := ZERO_ENTRY], 1), LiveEntries(b[i := a[k]], 1);
    assert a' + x == LiveEntries(a, 1) && b' == LiveEntries(b, 1) + x;
  }

  /** The slots from `i` on that hold the live entry `e`. */
  ghost function SlotsOf(tab: Table, i: nat, e: Entry): (r: set<nat>)
    ensures forall j :: j in r <==> i <= j < 64 && tab[j] == e
  {
    set j | i <= j < 64 && tab[j] == e
  }

  /** What the multiset counts: for each live entry the slots that hold it, and nothing else. */
  lemma {:induction false} LiveEntriesCount(tab: Table, i: nat, e: Entry)
    requires i <= 64
    ensures LiveEntries(tab, i)[e] == if e.userAttribute == 0xAA then |SlotsOf(tab, i, e)| else 0
    decreases 64 - i
  {
    if i < 64 {
      LiveEntriesCount(tab, i + 1, e);
      if tab[i] == e {
        assert SlotsOf(tab, i, e) == SlotsOf(tab, i + 1, e) + {i};
      } else {
        assert SlotsOf(tab, i, e) == SlotsOf(tab, i + 1, e);
      }
    } else {
      assert SlotsOf(tab, i, e) == {};
    }
  }

  /** A move between two directories neither loses nor invents an entry, and touches no map cell. */
  lemma MoveConservesEntries(s: State, t: Slots, p: nat, q: nat, k: nat)
    requires Represents(s, t) && p in Dirs(t) && q in Dirs(t) && p != q && 1 <= k < 64
    ensures p < 512 && q < 512 && MoveDefined(TableAt(s, p), TableAt(s, q), k)
    ensures var s' := Move(s, TableAt(s, p), TableAt(s, q), k);
            && s'.fat == s.fat
            && (forall c :: 0 <= c < 2048 && c != p && c != q ==> s'.disk[c] == s.disk[c])
            && LiveEntries(TableAt(s', p), 1) + LiveEntries(TableAt(s', q), 1)
               == LiveEntries(TableAt(s, p), 1) + LiveEntries(TableAt(s, q), 1)
  {
    hide DecodeTable, EncodeTable, Move, WriteTable, LiveEntries, Stored, Represents;
    RepresentsRoot(s, t);
    MoveSteps(s, t, p, q, k);
    var i, a, b := FindFree(TableAt(s, q), 1), TableAt(s, p), TableAt(s, q);
    if i < 64 {
      TableWritten(s, p, a[k := ZERO_ENTRY]);
      TableWritten(WriteTable(s, p, a[k := ZERO_ENTRY]), q, b[i := a[k]]);
      EntryMoved(a, b, k, i);
    }
  }

  // ----- when it is not safe -----

  /** Two slots of one directory never share a cell. */
  lemma {:induction false} SlotsDisjoint(s: State, d: nat, i: nat, f: Slots, j: nat, m: nat)
    requires d < 2048 && Stored(s, d, i, f) && Apart(f) && i <= j < m < 64
    ensures Cells(Slot(f, i, j)) !! Cells(Slot(f, i, m))
    decreases f
  {
    hide DecodeTable, FileEntry, DirEntry, FileStored, DirStored;
    if i == j {
      SlotStored(s, d, i + 1, f.rest, m);
    } else {
      SlotsDisjoint(s, d, i + 1, f.rest, j, m);
    }
  }

  lemma EntryNamesACell(s: State, x: Slots)
    requires Single(x) && SingleStored(s, x) && !x.Free?
    ensures Head(EntryOf(s, x)) in Cells(x) && EntryOf(s, x) != ZERO_ENTRY
  {
    if x.File? { assert x.chain[0] in x.chain; }
  }

  /** Within one directory the entry is duplicated: two slots own the same cells. */
  lemma MoveWithinDirectory(s: State, t: Slots, p: nat, k: nat, u: Slots)
    requires Represents(s, t) && p in Dirs(t) && p < 512 && 1 <= k < 64
    requires !SlotAt(t, p, k).Free? && FindFree(TableAt(s, p), 1) < 64
    requires MoveDefined(TableAt(s, p), TableAt(s, p), k)
    ensures !Represents(Move(s, TableAt(s, p), TableAt(s, p), k), u)
  {
    hide DecodeTable, EncodeTable, FileEntry, DirEntry, FileStored, DirStored, Move, WriteTable;
    MoveSteps(s, t, p, p, k);
    var i, x, tab := FindFree(TableAt(s, p), 1), SlotAt(t, p, k), TableAt(s, p);
    var s1 := WriteTable(s, p, tab[k := ZERO_ENTRY]);
    var s' := WriteTable(s1, p, tab[i := tab[k]]);
    TableWritten(s, p, tab[k := ZERO_ENTRY]);
    TableWritten(s1, p, tab[i := tab[k]]);
    SlotAtStored(s, t, p, k);
    FreeSlotIsFree(s, t, p, 1);
    SlotAtStored(s, t, p, i);
    SingleFrame(s, s', x);
    EntryNamesACell(s, x);
    DuplicateStored(s, s', t, p, i, x);
    EditDirs(s, t, p, i, x);
    if Represents(s', u) {
      TreeUnique(s', Edit(t, p, i, x), u);
      if k < i { EntriesDiffer(s', u, p, k, i); } else { EntriesDiffer(s', u, p, i, k); }
    }
  }

  /** No two slots of a directory hold the same live entry. */
  lemma EntriesDiffer(s: State, t: Slots, p: nat, j: nat, m: nat)
    requires Represents(s, t) && p in Dirs(t) && p < 512 && 1 <= j < m < 64
    ensures TableAt(s, p)[j] != ZERO_ENTRY ==> TableAt(s, p)[j] != TableAt(s, p)[m]
  {
    hide DecodeTable, FileStored, DirStored;
    SlotAtStored(s, t, p, j);
    SlotAtStored(s, t, p, m);
    var x, y := SlotAt(t, p, j), SlotAt(t, p, m);
    if !x.Free? && !y.Free? {
      EntryNamesACell(s, x);
      EntryNamesACell(s, y);
      var _ := DirectoryStored(s, t, p);
      KidsApart(t, p);
      SlotsDisjoint(s, p, 1, Kids(t, p), j, m);
    }
  }

  lemma DuplicateStored(s: State, s': State, t: Slots, p: nat, i: nat, x: Slots)
    requires Represents(s, t) && p in Dirs(t) && p < 512 && 1 <= i < 64
    requires Single(x) && SingleStored(s', x) && s'.fat == s.fat
    requires TableAt(s', p) == TableAt(s, p)[i := EntryOf(s', x)]
    requires forall c :: 0 <= c < 2048 && c != p ==> s'.disk[c] == s.disk[c]
    ensures RootStored(s', Edit(t, p, i, x))
  {
    hide DecodeTable, EncodeTable, FileEntry, DirEntry, FileStored, DirStored;
    var _ := DirectoryStored(s, t, p);
    KidsApart(t, p);
    PutStored(s, s', p, 1, Kids(t, p), i, x);
    EditRoot(s, s', t, p, i, Put(Kids(t, p), 1, i, x));
  }

  /** Under itself the entry is cut off from the root: its cells belong to no tree. */
  lemma MoveUnderItself(s: State, t: Slots, p: nat, q: nat, k: nat, u: Slots)
    requires Represents(s, t) && p in Dirs(t) && p < 512 && p != q && q < 512 && 1 <= k < 64
    requires q in Dirs(SlotAt(t, p, k)) && FindFree(TableAt(s, q), 1) < 64
    requires MoveDefined(TableAt(s, p), TableAt(s, q), k)
    ensures !Represents(Move(s, TableAt(s, p), TableAt(s, q), k), u)
  {
    hide DecodeTable, EncodeTable, FileEntry, DirEntry, FileStored, DirStored, Move, WriteTable;
    SlotAtStored(s, t, p, k);
    MoveSteps(s, t, p, q, k);
    Unlink(s, t, p, k);
    var s1, t1 := WriteTable(s, p, TableAt(s, p)[k := ZERO_ENTRY]), Edit(t, p, k, Free(End));
    TableWritten(s, p, TableAt(s, p)[k := ZERO_ENTRY]);
    var i := FindFree(TableAt(s, q), 1);
    var s2 := WriteTable(s1, q, TableAt(s, q)[i := TableAt(s, p)[k]]);
    TableWritten(s1, q, TableAt(s, q)[i := TableAt(s, p)[k]]);
    DirsAreCells(SlotAt(t, p, k));
    RootFrame(s1, s2, t1);
    DirectoryHead(s, t, q);
    if Represents(s2, u) {
      TreeUnique(s2, t1, u);
    }
  }

  /** Slot 0 can be named too: then the source table, its own entry gone, is stored in cluster 0, and
      the next start takes the disk for an empty one. */
  lemma MoveOfSelfEntry(s: State, t: Slots, p: nat, q: nat)
    requires RootStored(s, t) && p in Dirs(t) && q in Dirs(t)
    ensures p < 512 && q < 512 && MoveDefined(TableAt(s, p), TableAt(s, q), 0)
    ensures var s' := Move(s, TableAt(s, p), TableAt(s, q), 0);
            if FindFree(TableAt(s, q), 1) == 64 then s' == s else !Formatted(s'.disk)
  {
    hide DecodeTable, EncodeTable, Signature, FindFree, RootStored, Head;
    DirectoryHead(s, t, p);
    DirectoryHead(s, t, q);
    TableBytesRoundTrip(s.disk[p]);
    TableBytesRoundTrip(s.disk[q]);
    NoHead();
    Unsigned(TableAt(s, p)[0 := ZERO_ENTRY]);
  }

  lemma NoHead()
    ensures Head(ZERO_ENTRY) == 0
  {
  }

  lemma Unsigned(t: Table)
    requires t[0] == ZERO_ENTRY
    ensures EncodeTable(t)[..512] != Signature()
  {
    EncodedSlot(t, 0);
    assert EncodeTable(t)[0..32][0] == EncodeEntry(ZERO_ENTRY)[0] == 0;
    assert SIGNATURE_TEXT[0] == 'C';
    assert Signature()[0] == 0x43;
  }

  lemma RootFrame(s: State, s': State, t: Slots)
    requires RootStored(s, t) && Same(s, s', Cells(t))
    ensures RootStored(s', t)
  {
    hide DecodeTable, FileEntry, DirEntry;
    assert 2 in Cells(t);
    StoredFrame(s, s', 2, 1, t.kids);
  }

  /** Moving a live entry keeps the invariant exactly when the destination is full (nothing happens),
      or is another directory that does not lie under the entry. */
  lemma MoveKeepsInvariantIff(s: State, t: Slots, p: nat, q: nat, k: nat)
    requires Represents(s, t) && p in Dirs(t) && q in Dirs(t) && 1 <= k < 64
    requires !SlotAt(t, p, k).Free?
    ensures p < 512 && q < 512 && MoveDefined(TableAt(s, p), TableAt(s, q), k)
    ensures (exists u :: Represents(Move(s, TableAt(s, p), TableAt(s, q), k), u)) <==>
            FindFree(TableAt(s, q), 1) == 64 || (p != q && q !in Dirs(SlotAt(t, p, k)))
  {
    hide DecodeTable, EncodeTable, Represents, Move, Stored;
    assert RootStored(s, t) by { RepresentsRoot(s, t); }
    MoveSteps(s, t, p, q, k);
    var s' := Move(s, TableAt(s, p), TableAt(s, q), k);
    var i := FindFree(TableAt(s, q), 1);
    if i == 64 {
      assert Represents(s', t);
    } else if p != q && q !in Dirs(SlotAt(t, p, k)) {
      MoveRefines(s, t, p, q, k);
      assert Represents(s', Moved(t, p, k, q, i));
    } else {
      forall u ensures !Represents(s', u) {
        if p == q { MoveWithinDirectory(s, t, p, k, u); } else { MoveUnderItself(s, t, p, q, k, u); }
      }
    }
  }

  lemma RepresentsRoot(s: State, t: Slots)
    requires Represents(s, t)
    ensures RootStored(s, t) && Apart(t)
  {
  }
}
