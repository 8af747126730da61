// The byte loops of stdmem. Source and destination may lie in one memory, where the direction of
// the loop matters.
module Memory {
  import opened Layout

  /** `m` with the bytes from `at` on replaced by `data`. */
  function Splice(m: seq<byte>, at: nat, data: seq<byte>): (r: seq<byte>)
    requires at + |data| <= |m|
    ensures |r| == |m|
  {
    m[..at] + data + m[at + |data|..]
  }

  /** Where the bytes of the result come from. */
  lemma SpliceBytes(m: seq<byte>, at: nat, data: seq<byte>, k: nat)
    requires at + |data| <= |m| && k < |m|
    ensures Splice(m, at, data)[k] == if at <= k < at + |data| then data[k - at] else m[k]
  {
  }

  lemma SpliceNothing(m: seq<byte>, at: nat)
    requires at <= |m|
    ensures Splice(m, at, []) == m
  {
  }

  lemma SpliceMore(m: seq<byte>, at: nat, a: seq<byte>, b: seq<byte>)
    requires at + |a| + |b| <= |m|
    ensures Splice(Splice(m, at, a), at + |a|, b) == Splice(m, at, a + b)
  {
  }

  /** What the ascending byte loop leaves in one memory. */
  function CopyUp(m: seq<byte>, d: nat, s: nat, n: nat): (r: seq<byte>)
    requires d + n <= |m| && s + n <= |m|
    ensures |r| == |m|
  {
    if n == 0 then m
    else var r := CopyUp(m, d, s, n - 1); r[d + n - 1 := r[s + n - 1]]
  }

  /** Below or clear of its source the destination receives the source bytes. */
  lemma {:induction false} CopyUpMoves(m: seq<byte>, d: nat, s: nat, n: nat)
    requires d + n <= |m| && s + n <= |m| && (d <= s || s + n <= d)
    ensures CopyUp(m, d, s, n) == Splice(m, d, m[s..s + n])
  {
    if n > 0 {
      CopyUpMoves(m, d, s, n - 1);
      var r := CopyUp(m, d, s, n - 1);
      assert r[s + n - 1] == m[s + n - 1];
      assert m[s..s + n] == m[s..s + n - 1] + [m[s + n - 1]];
    }
  }

  lemma {:induction false} CopyUpFrame(m: seq<byte>, d: nat, s: nat, n: nat, k: nat)
    requires d + n <= |m| && s + n <= |m| && k < |m| && !(d <= k < d + n)
    ensures CopyUp(m, d, s, n)[k] == m[k]
  {
    if n > 0 { CopyUpFrame(m, d, s, n - 1, k); }
  }

  /** `k` modulo `w`. */
  function Wrap(k: nat, w: nat): (r: nat)
    requires w > 0
    ensures r < w
  {
    if k < w then k else Wrap(k - w, w)
  }

  /** Above its source and overlapping it, the destination receives the first d - s bytes over and over. */
  lemma {:induction false} CopyUpRepeats(m: seq<byte>, d: nat, s: nat, n: nat, k: nat)
    requires d + n <= |m| && s < d && k < n
    ensures CopyUp(m, d, s, n)[d + k] == m[s + Wrap(k, d - s)]
  {
    var w := d - s;
    if k < n - 1 {
      CopyUpRepeats(m, d, s, n - 1, k);
    } else if k < w {
      CopyUpFrame(m, d, s, n - 1, s + k);
    } else {
      CopyUpRepeats(m, d, s, n - 1, k - w);
    }
  }

  /** The ascending loop is a correct copy of every memory exactly when it never runs ahead of itself. */
  lemma CopyUpCorrectIff(size: nat, d: nat, s: nat, n: nat)
    requires d + n <= size && s + n <= size
    ensures (forall m: seq<byte> :: |m| == size ==> CopyUp(m, d, s, n) == Splice(m, d, m[s..s + n]))
            <==> d <= s || s + n <= d
  {
    if d <= s || s + n <= d {
      forall m: seq<byte> | |m| == size
        ensures CopyUp(m, d, s, n) == Splice(m, d, m[s..s + n])
      {
        CopyUpMoves(m, d, s, n);
      }
    } else {
      var m := CopyUpFails(size, d, s, n);
    }
  }

  lemma CopyUpFails(size: nat, d: nat, s: nat, n: nat) returns (m: seq<byte>)
    requires d + n <= size && s < d < s + n
    ensures |m| == size && CopyUp(m, d, s, n) != Splice(m, d, m[s..s + n])
  {
    hide CopyUp;
    m := seq(size, _ => 0);
    m := m[s := 1];
    var w := d - s;
    CopyUpRepeats(m, d, s, n, w);
    assert m[s..s + n][w] == 0;
    assert Splice(m, d, m[s..s + n])[d + w] == 0;
  }

  /** memcpy from another object. */
  method Memcpy(dst: array<byte>, d: nat, src: seq<byte>, n: nat)
    requires d + n <= dst.Length && n <= |src|
    modifies dst
    ensures dst[..] == Splice(old(dst[..]), d, src[..n])
  {
    for i := 0 to n
      invariant dst[..] == Splice(old(dst[..]), d, src[..i])
    {
      dst[d + i] := src[i];
      assert src[..i + 1] == src[..i] + [src[i]];
    }
  }

  /** memcpy within one memory: always ascending. */
  method MemcpyWithin(mem: array<byte>, d: nat, s: nat, n: nat)
    requires d + n <= mem.Length && s + n <= mem.Length
    modifies mem
    ensures mem[..] == CopyUp(old(mem[..]), d, s, n)
  {
    for i := 0 to n
      invariant mem[..] == CopyUp(old(mem[..]), d, s, i)
    {
      mem[d + i] := mem[s + i];
    }
  }

  /** memmove picks the direction, so it is correct for every overlap. */
  method Memmove(mem: array<byte>, d: nat, s: nat, n: nat)
    requires d + n <= mem.Length && s + n <= mem.Length
    modifies mem
    ensures mem[..] == Splice(old(mem[..]), d, old(mem[s..s + n]))
  {
    ghost var m := mem[..];
    if d < s {
      MemcpyWithin(mem, d, s, n);
      CopyUpMoves(m, d, s, n);
    } else {
      CopyDown(mem, d, s, n);
    }
  }

  /** The first `i` bytes of the destination are still to be copied. */
  ghost predicate CopiedDownTo(m: seq<byte>, m': seq<byte>, d: nat, s: nat, n: nat, i: nat)
    requires d + n <= |m| && s <= d
  {
    && |m'| == |m|
    && (forall k :: 0 <= k < |m| && !(d + i <= k < d + n) ==> m'[k] == m[k])
    && (forall k :: d + i <= k < d + n ==> m'[k] == m[k - d + s])
  }

  lemma CopiedDown(m: seq<byte>, m': seq<byte>, d: nat, s: nat, n: nat)
    requires d + n <= |m| && s <= d && CopiedDownTo(m, m', d, s, n, 0)
    ensures m' == Splice(m, d, m[s..s + n])
  {
  }

  /** The descending loop of memmove. */
  method CopyDown(mem: array<byte>, d: nat, s: nat, n: nat)
    requires d + n <= mem.Length && s <= d
    modifies mem
    ensures mem[..] == Splice(old(mem[..]), d, old(mem[s..s + n]))
  {
    hide Splice;
    ghost var m := mem[..];
    var i := n;
    while i != 0
      invariant 0 <= i <= n && CopiedDownTo(m, mem[..], d, s, n, i)
    {
      mem[d + i - 1] := mem[s + i - 1];
      i := i - 1;
    }
    CopiedDown(m, mem[..], d, s, n);
  }

  method Memset(mem: array<byte>, at: nat, c: byte, n: nat)
    requires at + n <= mem.Length
    modifies mem
    ensures mem[..] == Splice(old(mem[..]), at, seq(n, _ => c))
  {
    for i := 0 to n
      invariant forall k :: at <= k < at + i ==> mem[k] == c
      invariant forall k :: 0 <= k < mem.Length && !(at <= k < at + i) ==> mem[k] == old(mem[k])
    {
      mem[at + i] := c;
    }
  }

  /** Zero exactly on equal bytes; otherwise the sign of the first difference. */
  method Memcmp(a: seq<byte>, b: seq<byte>, n: nat) returns (r: int)
    requires n <= |a| && n <= |b|
    ensures r == 0 <==> a[..n] == b[..n]
    ensures r != 0 ==> exists i :: 0 <= i < n && a[..i] == b[..i] && r == if a[i] < b[i] then -1 else 1
  {
    for i := 0 to n
      invariant a[..i] == b[..i]
    {
      if a[i] < b[i] {
        return -1;
      } else if a[i] > b[i] {
        return 1;
      }
    }
    return 0;
  }

  // ----- C strings -----

  /** The bytes before the first NUL. */
  function CStr(b: seq<byte>): seq<byte> {
    if b == [] || b[0] == 0 then [] else [b[0]] + CStr(b[1..])
  }

  lemma NulIsAhead(str: seq<byte>, i: nat)
    requires 0 in str && i < |str| && forall k :: 0 <= k <= i ==> str[k] != 0
    ensures i + 1 < |str|
  {
  }

  lemma {:induction false} CStrTail(a: seq<byte>, i: nat)
    requires i <= |a| && forall k :: 0 <= k < i ==> a[k] != 0
    ensures CStr(a) == a[..i] + CStr(a[i..])
  {
    if i > 0 {
      CStrTail(a, i - 1);
      assert a[i - 1..][1..] == a[i..];
      assert a[..i] == a[..i - 1] + [a[i - 1]];
    } else {
      assert a[0..] == a;
    }
  }

  lemma CStrEnds(str: seq<byte>, n: nat)
    requires n < |str| && str[n] == 0 && forall k :: 0 <= k < n ==> str[k] != 0
    ensures CStr(str) == str[..n]
  {
    CStrTail(str, n);
    assert str[..n] + [] == str[..n];
  }
}
