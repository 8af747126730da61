// Cluster chains threaded through the cluster map: what a chain is, first-fit allocation and
// linking, and the pointer-chasing loop by which `delete` gives a chain back.
module Chains {
  import opened Layout

  /** `ch` is what following the map from `c` visits before it reaches EOF. */
  predicate IsChain(fat: Fat, c: int, ch: seq<nat>)
    decreases ch
  {
    if ch == [] then c == EOF
    else c == ch[0] && c < 512 && IsChain(fat, fat[c], ch[1..])
  }

  predicate Within(ch: seq<nat>, bound: nat) {
    forall k :: 0 <= k < |ch| ==> ch[k] < bound
  }

  ghost predicate Ascending(ch: seq<nat>) {
    forall i, j :: 0 <= i < j < |ch| ==> ch[i] < ch[j]
  }

  ghost predicate Distinct(ch: seq<nat>) {
    forall i, j :: 0 <= i < j < |ch| ==> ch[i] != ch[j]
  }

  ghost function SetOf(ch: seq<nat>): set<nat> {
    set c | c in ch
  }

  lemma {:induction false} ChainUnique(fat: Fat, c: int, a: seq<nat>, b: seq<nat>)
    requires IsChain(fat, c, a) && IsChain(fat, c, b)
    ensures a == b
    decreases a
  {
    if a != [] && b != [] {
      ChainUnique(fat, fat[c], a[1..], b[1..]);
      assert a == [a[0]] + a[1..] && b == [b[0]] + b[1..];
    }
  }

  lemma {:induction false} ChainSuffix(fat: Fat, c: int, ch: seq<nat>, k: nat)
    requires IsChain(fat, c, ch) && k < |ch|
    ensures ch[k] < 512 && IsChain(fat, ch[k], ch[k..])
    ensures fat[ch[k]] == Successor(ch, k)
    decreases ch
  {
    if k == 0 {
      assert ch[0..] == ch;
    } else {
      ChainSuffix(fat, fat[c], ch[1..], k - 1);
      assert ch[1..][k - 1..] == ch[k..];
    }
  }

  /** A chain that reaches EOF never comes back to a cell it has left. */
  lemma {:induction false} ChainDistinct(fat: Fat, c: int, ch: seq<nat>)
    requires IsChain(fat, c, ch)
    ensures Distinct(ch) && forall k :: 0 <= k < |ch| ==> ch[k] < 512
  {
    forall k | 0 <= k < |ch| ensures ch[k] < 512 { ChainSuffix(fat, c, ch, k); }
    forall i, j | 0 <= i < j < |ch|
      ensures ch[i] != ch[j]
    {
      ChainSuffix(fat, c, ch, i);
      ChainSuffix(fat, c, ch, j);
      if ch[i] == ch[j] {
        ChainUnique(fat, ch[i], ch[i..], ch[j..]);
      }
    }
  }

  lemma {:induction false} ChainFrame(fat: Fat, fat': Fat, c: int, ch: seq<nat>)
    requires IsChain(fat, c, ch)
    requires forall k :: 0 <= k < |ch| && ch[k] < 512 ==> fat[ch[k]] == fat'[ch[k]]
    ensures IsChain(fat', c, ch)
    decreases ch
  {
    if ch != [] {
      assert fat[ch[0]] == fat'[ch[0]];
      forall k | 0 <= k < |ch[1..]| && ch[1..][k] < 512
        ensures fat[ch[1..][k]] == fat'[ch[1..][k]]
      {
        assert ch[1..][k] == ch[k + 1];
      }
      ChainFrame(fat, fat', fat[c], ch[1..]);
    }
  }

  // ----- allocation -----

  /** The first `n` free cells at or above `j`, in increasing order (fewer when there are fewer). */
  function FreeCells(fat: Fat, j: nat, n: nat): (r: seq<nat>)
    ensures |r| <= n
    ensures forall k :: 0 <= k < |r| ==> j <= r[k] < 512 && fat[r[k]] == EMPTY
    decreases 512 - j
  {
    if n == 0 || j >= 512 then []
    else if fat[j] == EMPTY then [j] + FreeCells(fat, j + 1, n - 1)
    else FreeCells(fat, j + 1, n)
  }

  ghost function FreeSet(fat: Fat, j: nat): set<nat> {
    set c: nat | j <= c < 512 && fat[c] == EMPTY
  }

  lemma {:induction false} FreeCellsAscend(fat: Fat, j: nat, n: nat)
    ensures Ascending(FreeCells(fat, j, n))
    decreases 512 - j
  {
    if n > 0 && j < 512 {
      if fat[j] == EMPTY {
        FreeCellsAscend(fat, j + 1, n - 1);
      } else {
        FreeCellsAscend(fat, j + 1, n);
      }
    }
  }

  /** First fit passes over no free cell, and only a shortage of free cells cuts it short. */
  lemma {:induction false} FirstFit(fat: Fat, j: nat, n: nat, c: nat)
    requires j <= c < 512 && fat[c] == EMPTY
    requires var r := FreeCells(fat, j, n); |r| < n || (r != [] && c < r[|r| - 1])
    ensures c in FreeCells(fat, j, n)
    decreases 512 - j
  {
    if fat[j] == EMPTY {
      if c != j {
        FirstFit(fat, j + 1, n - 1, c);
      }
    } else {
      FirstFit(fat, j + 1, n, c);
    }
  }

  lemma {:induction false} SetOfSize(ch: seq<nat>)
    requires Distinct(ch)
    ensures |SetOf(ch)| == |ch|
  {
    if ch != [] {
      SetOfSize(ch[1..]);
      assert SetOf(ch) == {ch[0]} + SetOf(ch[1..]);
    }
  }

  /** Allocation of `n` cells succeeds exactly when at least `n` are free. */
  lemma FirstFitSucceeds(fat: Fat, j: nat, n: nat)
    ensures |FreeCells(fat, j, n)| == n <==> n <= |FreeSet(fat, j)|
    ensures |FreeCells(fat, j, n)| < n ==> SetOf(FreeCells(fat, j, n)) == FreeSet(fat, j)
  {
    var r := FreeCells(fat, j, n);
    FreeCellsAscend(fat, j, n);
    SetOfSize(r);
    SubsetSize(SetOf(r), FreeSet(fat, j));
    if |r| < n {
      forall c | c in FreeSet(fat, j) ensures c in r { FirstFit(fat, j, n, c); }
      assert SetOf(r) == FreeSet(fat, j);
    }
  }

  lemma {:induction false} SubsetSize<T>(a: set<T>, b: set<T>)
    requires a <= b
    ensures |a| <= |b|
  {
    if x :| x in a {
      SubsetSize(a - {x}, b - {x});
    }
  }

  /** The map after the first `i` steps of the link loop. */
  function Linked(fat: Fat, cells: seq<nat>, i: nat): Fat
    requires i < |cells| && Within(cells, 512)
  {
    if i == 0 then fat else Linked(fat, cells, i - 1)[cells[i - 1] := cells[i]]
  }

  /** The map after the link loop and the EOF mark. */
  function Link(fat: Fat, cells: seq<nat>): Fat
    requires cells != [] && Within(cells, 512)
  {
    Linked(fat, cells, |cells| - 1)[cells[|cells| - 1] := EOF]
  }

  lemma {:induction false} LinkedCells(fat: Fat, cells: seq<nat>, i: nat)
    requires i < |cells| && Distinct(cells) && Within(cells, 512)
    ensures forall k :: 0 <= k < i ==> Linked(fat, cells, i)[cells[k]] == cells[k + 1]
    ensures forall c :: 0 <= c < 512 && c !in cells[..i] ==> Linked(fat, cells, i)[c] == fat[c]
  {
    if i > 0 {
      LinkedCells(fat, cells, i - 1);
      assert cells[..i] == cells[..i - 1] + [cells[i - 1]];
    }
  }

  /** What cell `ch[k]` must hold in a chain `ch`. */
  function Successor(ch: seq<nat>, k: nat): int
    requires k < |ch|
  {
    if k + 1 < |ch| then ch[k + 1] else EOF
  }

  lemma LinkCells(fat: Fat, cells: seq<nat>)
    requires cells != [] && Distinct(cells) && Within(cells, 512)
    ensures forall k :: 0 <= k < |cells| ==> Link(fat, cells)[cells[k]] == Successor(cells, k)
    ensures forall c :: 0 <= c < 512 && c !in cells ==> Link(fat, cells)[c] == fat[c]
  {
    var n := |cells|;
    LinkedCells(fat, cells, n - 1);
    var before := Linked(fat, cells, n - 1);
    forall k | 0 <= k < n
      ensures Link(fat, cells)[cells[k]] == Successor(cells, k)
    {
      if k < n - 1 {
        assert cells[k] != cells[n - 1];
        assert before[cells[k]] == cells[k + 1];
      }
    }
    forall c | 0 <= c < 512 && c !in cells
      ensures Link(fat, cells)[c] == fat[c]
    {
      assert c !in cells[..n - 1];
      assert cells[n - 1] in cells;
    }
  }

  /** Linking distinct cells makes exactly one chain through them, in order, and touches nothing else. */
  lemma LinkMakesChain(fat: Fat, cells: seq<nat>)
    requires cells != [] && Distinct(cells) && Within(cells, 512)
    ensures IsChain(Link(fat, cells), cells[0], cells)
    ensures forall c :: 0 <= c < 512 && c !in cells ==> Link(fat, cells)[c] == fat[c]
  {
    LinkCells(fat, cells);
    ChainFromLinks(Link(fat, cells), cells, 0);
    assert cells[0..] == cells;
  }

  lemma {:induction false} ChainFromLinks(fat: Fat, cells: seq<nat>, k: nat)
    requires k < |cells| && Within(cells, 512)
    requires forall i :: 0 <= i < |cells| ==> fat[cells[i]] == Successor(cells, i)
    ensures IsChain(fat, cells[k], cells[k..])
    decreases |cells| - k
  {
    assert fat[cells[k]] == Successor(cells, k);
    if k + 1 < |cells| {
      ChainFromLinks(fat, cells, k + 1);
      assert cells[k..][1..] == cells[k + 1..];
    } else {
      assert cells[k..][1..] == [];
    }
  }

  // ----- giving cells back -----

  function FreeAll(fat: Fat, ch: seq<nat>): Fat {
    seq(512, c requires 0 <= c < 512 => if c in ch then EMPTY else fat[c])
  }

  /** The do-while of `delete`, started at `c`, stays inside the map and stops after visiting `ch`:
      it clears a cell before it tests what the next one holds. */
  predicate Frees(fat: Fat, c: int, ch: seq<nat>)
    decreases ch
  {
    && |ch| >= 2 && c == ch[0] && c < 512
    && fat[c] == ch[1] && ch[1] < 512
    && var fat1: Fat := fat[c := EMPTY];
       if |ch| == 2 then fat1[ch[1]] == EOF
       else fat1[ch[1]] != EOF && Frees(fat1, ch[1], ch[1..])
  }

  lemma {:induction false} FreesIsChain(fat: Fat, c: int, ch: seq<nat>)
    requires Frees(fat, c, ch) && fat[0] == CLUSTER_0_VALUE && c != 0
    ensures IsChain(fat, c, ch)
    decreases ch
  {
    var fat1: Fat := fat[c := EMPTY];
    assert ch[1..][0] == ch[1];
    if |ch| == 2 {
      assert ch[1..][1..] == [];
      assert IsChain(fat, ch[1], ch[1..]);
    } else {
      FreesIsChain(fat1, ch[1], ch[1..]);
      forall k | 0 <= k < |ch[1..]| && ch[1..][k] < 512
        ensures fat1[ch[1..][k]] == fat[ch[1..][k]]
      {
        ChainSuffix(fat1, ch[1], ch[1..], k);
        if ch[1..][k] == c {
          // `c` was cleared: it points at the reserved cell 0, which ends no chain
          ChainSuffix(fat1, ch[1], ch[1..], k + 1);
        }
      }
      ChainFrame(fat1, fat, ch[1], ch[1..]);
    }
  }

  /** The loop frees exactly the chains of two cells or more: on a one-cell chain it runs off the map. */
  lemma {:induction false} LoopFreesLongChains(fat: Fat, c: int, ch: seq<nat>)
    requires IsChain(fat, c, ch) && c != EOF && fat[0] == CLUSTER_0_VALUE
    ensures Frees(fat, c, ch) <==> |ch| >= 2
    ensures |ch| < 2 ==> forall other :: !Frees(fat, c, other)
    decreases ch
  {
    if |ch| >= 2 {
      ChainDistinct(fat, c, ch);
      ChainSuffix(fat, c, ch, 1);
      var fat1: Fat := fat[c := EMPTY];
      if |ch| > 2 {
        ChainFrame(fat, fat1, ch[1], ch[1..]);
        LoopFreesLongChains(fat1, ch[1], ch[1..]);
      }
    } else {
      forall other ensures !Frees(fat, c, other) {
        if Frees(fat, c, other) {
          FreesIsChain(fat, c, other);
          ChainUnique(fat, c, ch, other);
        }
      }
    }
  }

  // ----- data in chains -----

  function Block(data: seq<byte>, k: nat): Cluster
    requires 2048 * k + 2048 <= |data|
  {
    data[2048 * k..2048 * k + 2048]
  }

  function Blocks(data: seq<byte>, n: nat): (r: seq<Cluster>)
    requires 2048 * n <= |data|
    ensures |r| == n && forall k :: 0 <= k < n ==> r[k] == Block(data, k)
  {
    seq(n, k requires 0 <= k < n => Block(data, k))
  }

  /** The concatenation of a list of clusters. */
  function Concat(blocks: seq<Cluster>): (r: seq<byte>)
    ensures |r| == 2048 * |blocks|
  {
    if blocks == [] then [] else Concat(blocks[..|blocks| - 1]) + blocks[|blocks| - 1]
  }

  /** Cutting bytes into clusters and joining them again gives the whole clusters back. */
  lemma {:induction false} ConcatBlocks(data: seq<byte>, n: nat)
    requires 2048 * n <= |data|
    ensures Concat(Blocks(data, n)) == data[..2048 * n]
  {
    if n > 0 {
      ConcatBlocks(data, n - 1);
      assert Blocks(data, n)[..n - 1] == Blocks(data, n - 1);
      assert data[..2048 * n] == data[..2048 * (n - 1)] + Block(data, n - 1);
    }
  }

  type Disk = d: seq<Cluster> | |d| == 2048 witness seq<Cluster>(2048, _ => ZERO_CLUSTER)

  /** The disk after the first `i` blocks have been written to their cells. */
  function Written(disk: Disk, cells: seq<nat>, blocks: seq<Cluster>, i: nat): Disk
    requires i <= |cells| == |blocks| && Within(cells, 2048)
  {
    if i == 0 then disk else Written(disk, cells, blocks, i - 1)[cells[i - 1] := blocks[i - 1]]
  }

  ghost predicate Holds(disk: Disk, ch: seq<nat>, blocks: seq<Cluster>) {
    |ch| == |blocks| && forall k :: 0 <= k < |ch| ==> ch[k] < 2048 && disk[ch[k]] == blocks[k]
  }

  lemma {:induction false} WrittenHolds(disk: Disk, cells: seq<nat>, blocks: seq<Cluster>, i: nat)
    requires i <= |cells| == |blocks| && Distinct(cells)
    requires Within(cells, 2048)
    ensures forall k :: 0 <= k < i ==> Written(disk, cells, blocks, i)[cells[k]] == blocks[k]
    ensures forall c :: 0 <= c < 2048 && c !in cells[..i] ==> Written(disk, cells, blocks, i)[c] == disk[c]
  {
    if i > 0 {
      WrittenHolds(disk, cells, blocks, i - 1);
      assert cells[..i] == cells[..i - 1] + [cells[i - 1]];
    }
  }

  function ZeroAll(disk: Disk, ch: seq<nat>): Disk {
    seq(2048, c requires 0 <= c < 2048 => if c in ch then ZERO_CLUSTER else disk[c])
  }
}
