/** Flat byte memory: the object every transport in this project implements. */
module Memory {
  import opened Words

  type Mem = seq<byte>

  function Zeros(n: nat): (z: seq<byte>)
    ensures |z| == n && forall i :: 0 <= i < n ==> z[i] == 0
  {
    seq(n, _ => 0)
  }

  predicate AllZero(s: seq<byte>) {
    forall i :: 0 <= i < |s| ==> s[i] == 0
  }

  predicate InRange(m: Mem, a: int, n: int) {
    0 <= a && 0 <= n && a + n <= |m|
  }

  predicate Aligned(unit: nat, a: int)
    requires unit > 0
  {
    a % unit == 0
  }

  /** m with the bytes from a on overwritten by src. */
  function Patch(m: Mem, a: int, src: seq<byte>): (r: Mem)
    requires InRange(m, a, |src|)
    ensures |r| == |m|
  {
    m[..a] + src + m[a + |src|..]
  }

  lemma PatchMeansUpdate(m: Mem, a: int, src: seq<byte>, r: Mem)
    requires InRange(m, a, |src|) && |r| == |m|
    requires forall i :: 0 <= i < |m| ==> r[i] == if a <= i < a + |src| then src[i - a] else m[i]
    ensures r == Patch(m, a, src)
  {
  }

  lemma PatchAdjacent(m: Mem, a: int, s: seq<byte>, t: seq<byte>)
    requires InRange(m, a, |s| + |t|)
    ensures Patch(Patch(m, a, s), a + |s|, t) == Patch(m, a, s + t)
  {
    var r := Patch(Patch(m, a, s), a + |s|, t);
    PatchMeansUpdate(m, a, s + t, r);
  }

  lemma ZerosGrow(m: Mem, a: nat, k: nat, n: nat)
    requires a + k + n <= |m|
    ensures Patch(Patch(m, a, Zeros(k)), a + k, Zeros(n)) == Patch(m, a, Zeros(k + n))
  {
    PatchAdjacent(m, a, Zeros(k), Zeros(n));
    assert Zeros(k) + Zeros(n) == Zeros(k + n);
  }

  /** k bytes copied out of m from a on, and then w more. */
  lemma CopyGrows(dst: seq<byte>, at: nat, m: Mem, a: nat, k: nat, w: nat)
    requires a + k + w <= |m| && at + k + w <= |dst|
    ensures Patch(Patch(dst, at, m[a..a + k]), at + k, m[a + k..a + k + w]) == Patch(dst, at, m[a..a + k + w])
  {
    PatchAdjacent(dst, at, m[a..a + k], m[a + k..a + k + w]);
    assert m[a..a + k] + m[a + k..a + k + w] == m[a..a + k + w];
  }

  /** now is before with n bytes of m from a on copied to offset at. */
  predicate Copied(before: seq<byte>, at: nat, m: Mem, a: nat, n: nat, now: seq<byte>) {
    a + n <= |m| && at + n <= |before| && now == Patch(before, at, m[a..a + n])
  }

  lemma CopiedNone(before: seq<byte>, at: nat, m: Mem, a: nat)
    requires a <= |m| && at <= |before|
    ensures Copied(before, at, m, a, 0, before)
  {
    PatchNothing(before, at);
    assert m[a..a] == [];
  }

  lemma CopiedAll(before: seq<byte>, at: nat, m: Mem, a: nat, n: nat, now: seq<byte>)
    requires Copied(before, at, m, a, n, now)
    ensures a + n <= |m| && at + n <= |before| && now == Patch(before, at, m[a..a + n])
  {
  }

  lemma CopiedMore(before: seq<byte>, at: nat, m: Mem, a: nat, n: nat, now: seq<byte>, w: nat)
    requires Copied(before, at, m, a, n, now) && a + n + w <= |m| && at + n + w <= |before|
    ensures |now| == |before|
    ensures Copied(before, at, m, a, n + w, Patch(now, at + n, m[a + n..a + n + w]))
  {
    CopyGrows(before, at, m, a, n, w);
  }

  lemma PatchNothing(m: Mem, a: int)
    requires 0 <= a <= |m|
    ensures Patch(m, a, []) == m
  {
  }

  /** Overwriting a window with itself, patched, is the inner patch: the
      read-modify-write used at unaligned ends. */
  lemma ReadModifyWrite(m: Mem, block: int, align: int, a: int, src: seq<byte>)
    requires InRange(m, block, align)
    requires block <= a && a + |src| <= block + align
    ensures Patch(m, block, Patch(m[block..block + align], a - block, src)) == Patch(m, a, src)
  {
    PatchMeansUpdate(m, a, src, Patch(m, block, Patch(m[block..block + align], a - block, src)));
  }

  /** memcpy into a caller's buffer. */
  method CopyBytes(bytes: seq<byte>, dst: array<byte>, at: nat)
    requires at + |bytes| <= dst.Length
    modifies dst
    ensures dst[..] == Patch(old(dst[..]), at, bytes)
  {
    ghost var before := dst[..];
    var j := 0;
    while j < |bytes|
      invariant j <= |bytes|
      invariant forall i :: 0 <= i < dst.Length ==> dst[i] == if at <= i < at + j then bytes[i - at] else before[i]
    {
      dst[at + j] := bytes[j];
      j := j + 1;
    }
    PatchMeansUpdate(before, at, bytes, dst[..]);
  }
}
