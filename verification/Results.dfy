// What the driver's calls return, in the caller's terms: when each code comes back.
module Results {
  import opened Layout
  import opened Chains
  import opened Calls
  import opened CopyRuns

  predicate Unnamed(name: Name) {
    forall k :: 0 <= k < 8 ==> name[k] == 0
  }

  lemma UnnamedIs(name: Name)
    ensures Unnamed(name) <==> name == NO_NAME
  {
    if Unnamed(name) { assert name == [0, 0, 0, 0, 0, 0, 0, 0]; }
  }

  /** `read_directory`: -1 for an empty name, 1 for a request with a size, 2 when no slot from 0 on holds a
      directory of that name, otherwise 0 with the cluster the first of them names. */
  lemma LookupCodes(s: State, r: Request)
    requires r.parent < 2048
    ensures var (code, c) := LookupDir(s, r);
            var tab := TableAt(s, r.parent);
            && (code == -1 <==> Unnamed(r.name))
            && (code == 1 <==> !Unnamed(r.name) && r.size != 0)
            && (code == 2 <==> !Unnamed(r.name) && r.size == 0
                               && forall m :: 0 <= m < 64 ==> !(tab[m].name == r.name && tab[m].attribute == 0x10))
            && (code == 0 <==> code != -1 && code != 1 && code != 2)
            && (code == 0 ==> exists m :: 0 <= m < 64 && IsFirstFolder(tab, r.name, m, c))
  {
    hide DecodeTable, TableAt;
    UnnamedIs(r.name);
    var tab, k := TableAt(s, r.parent), FindDir(TableAt(s, r.parent), r.name, 0);
    if LookupDir(s, r).0 == 0 { assert IsFirstFolder(tab, r.name, k, LookupDir(s, r).1); }
  }

  predicate IsFirstFolder(tab: Table, name: Name, m: nat, c: nat)
    requires m < 64
  {
    && tab[m].name == name && tab[m].attribute == 0x10 && c == tab[m].clusterHigh as int * 65536 + tab[m].clusterLow
    && forall j :: 0 <= j < m ==> !(tab[j].name == name && tab[j].attribute == 0x10)
  }

  /** `read`: -1 for an empty name, 1 for size 0, 3 when no slot from 1 on has the name and extension, 2
      when the chain of the first that has is longer than the buffer, otherwise 0 with its clusters. */
  lemma ReadCodes(s: State, r: Request, k: nat, ch: seq<nat>)
    requires ReadDefined(s, r) && 1 <= k <= 64
    requires var tab := TableAt(s, r.parent);
             && (forall m :: 1 <= m < k ==> !(tab[m].name == r.name && tab[m].ext == r.ext))
             && (k < 64 ==> tab[k].name == r.name && tab[k].ext == r.ext
                            && IsChain(s.fat, tab[k].clusterHigh as int * 65536 + tab[k].clusterLow, ch))
    ensures var (code, blocks) := Read(s, r);
            if Unnamed(r.name) then code == -1
            else if r.size == 0 then code == 1
            else if k == 64 then code == 3
            else if |ch| > r.size / 2048 then code == 2
            else && code == 0 && |blocks| == |ch|
                 && forall i :: 0 <= i < |ch| ==> ch[i] < 2048 && blocks[i] == s.disk[ch[i]]
  {
    hide DecodeTable, TableAt;
    UnnamedIs(r.name);
    if r.name != NO_NAME && r.size != 0 {
      var tab := TableAt(s, r.parent);
      assert FindEntry(tab, r.name, r.ext, 1) == k;
      if k < 64 {
        ChainDistinct(s.fat, Head(tab[k]), ch);
        ChainUnique(s.fat, Head(tab[k]), ch, ChainFrom(s.fat, Head(tab[k])));
      }
    }
  }

  /** `write`: -1 for an empty name, 2 for a reserved parent, 1 when there is no room, otherwise 0. A file
      needs a free cell a cluster; a directory needs one below 511. */
  lemma WriteCodes(s: State, r: Request, data: seq<byte>, stack: Table)
    requires WriteDefined(r, data)
    ensures var (s', code) := Write(s, r, data, stack);
            && (code == -1 <==> Unnamed(r.name))
            && (code == 2 <==> !Unnamed(r.name) && r.parent < 2)
            && (code == 1 <==> !Unnamed(r.name) && r.parent >= 2 &&
                               if r.size == 0 then forall c :: 2 <= c < 511 ==> s.fat[c] != 0
                               else |FreeSet(s.fat, 2)| < r.size / 2048)
            && (code == 0 <==> code != -1 && code != 1 && code != 2)
            && (code != 0 ==> s'.disk == s.disk && forall c :: 0 <= c < 511 ==> s'.fat[c] == s.fat[c])
  {
    hide DecodeTable, EncodeTable, EncodeFat, TableAt, FreeCells, DirEntry, FileEntry, Commit, TargetSlot, Link, Written;
    UnnamedIs(r.name);
    if r.size == 0 {
      var free := FreeCells(s.fat, 2, 1);
      if r.name != NO_NAME && r.parent >= 2 {
        if free == [] || free[0] == 511 {
          FullMapEnds(s, r, stack);
          LowestIsLast(s.fat);
        }
      }
    } else {
      FirstFitSucceeds(s.fat, 2, r.size / 2048);
    }
  }

  lemma LowestIsLast(fat: Fat)
    requires var free := FreeCells(fat, 2, 1); free == [] || free[0] == 511
    ensures forall c :: 2 <= c < 511 ==> fat[c] != 0
  {
    hide FreeCells;
    forall c | 2 <= c < 511 ensures fat[c] != 0 {
      if fat[c] == EMPTY { FirstFit(fat, 2, 1, c); }
    }
  }

  /** The slot `write` fills is the first that is not live, slot 0 when all are. */
  lemma FilledSlot(t: Table)
    ensures var k := TargetSlot(t);
            || (t[k].userAttribute != 0xAA && forall m :: 0 <= m < k ==> t[m].userAttribute == 0xAA)
            || (k == 0 && forall m :: 0 <= m < 64 ==> t[m].userAttribute == 0xAA)
  {
  }

  /** `delete`: -1 for an empty name, or when no slot from 1 on has the name and extension, or when the
      entry is neither file nor directory; 2 for a directory with a live slot from 1 on; otherwise 0. */
  lemma DeleteCodes(s: State, r: Request, k: nat)
    requires DeleteDefined(s, r) && 1 <= k <= 64
    requires var tab := TableAt(s, r.parent);
             && (forall m :: 1 <= m < k ==> !(tab[m].name == r.name && tab[m].ext == r.ext))
             && (k < 64 ==> tab[k].name == r.name && tab[k].ext == r.ext)
    ensures var (s', code) := Delete(s, r);
            if Unnamed(r.name) || k == 64 then code == -1 && s' == s
            else
              var e := TableAt(s, r.parent)[k];
              if e.attribute == 0x10 then
                var c := e.clusterHigh as int * 65536 + e.clusterLow;
                c < 2048 && if exists m :: 1 <= m < 64 && TableAt(s, c)[m].userAttribute == 0xAA
                            then code == 2 && s' == s else code == 0
              else code == if e.attribute == 0x20 then 0 else -1
  {
    hide DecodeTable, TableAt, Release;
    UnnamedIs(r.name);
    if r.name != NO_NAME { assert FindEntry(TableAt(s, r.parent), r.name, r.ext, 1) == k; }
  }
}
