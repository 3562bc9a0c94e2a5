/** Byte-granular memory on top of chunked memory: the unaligned ends by
    read-modify-write of whole blocks, the rest in chunks, zeros by clearing. */
module MemIf {
  import opened Words
  import opened Memory
  import opened ChunkedMem

  // ------------------------------------------------------------- the three parts

  /** Bytes before the first block boundary. */
  function HeadLen(align: nat, addr: nat, len: nat): (h: nat)
    requires align > 0
    ensures h <= len
  {
    if addr % align == 0 then 0
    else if len < align - addr % align then len else align - addr % align
  }

  /** Bytes after the last one. */
  function TailLen(align: nat, addr: nat, len: nat): (t: nat)
    requires align > 0
    ensures HeadLen(align, addr, len) + t <= len
  {
    (len - HeadLen(align, addr, len)) % align
  }

  function MiddleLen(align: nat, addr: nat, len: nat): (n: nat)
    requires align > 0
    ensures HeadLen(align, addr, len) + n + TailLen(align, addr, len) == len
  {
    len - HeadLen(align, addr, len) - TailLen(align, addr, len)
  }

  /** The blocks that meet [addr, addr + len) can all be reached. */
  predicate Reachable(s: Shape, addr: nat, len: nat) {
    s.align > 0 && (len > 0 ==>
      Serves(s, addr - addr % s.align, addr % s.align + len + (s.align - 1 - (addr + len - 1) % s.align)))
  }

  /** A call that some access to [addr, addr + len) may make. */
  predicate Economical(s: Shape, c: Call, addr: nat, len: nat) {
    && len > 0 && c.len > 0 && OnGrid(s, c.addr) && OnGrid(s, c.len)
    && (c.kind.ClearCall? || c.len <= s.maxSize)
    && addr < c.addr + s.align && c.addr + c.len < addr + len + s.align
  }

  /** Such a call touches no block that the access does not meet. */
  lemma EconomicalMeets(s: Shape, c: Call, addr: nat, len: nat, block: nat)
    requires Economical(s, c, addr, len) && OnGrid(s, block) && c.addr <= block < c.addr + c.len
    ensures block + s.align <= c.addr + c.len
    ensures block < addr + len && addr < block + s.align
  {
    SumAligned(c.addr, c.len, s.align);
    GridGap(block, c.addr + c.len, s.align);
  }

  /** Two different grid points are at least a block apart. */
  lemma GridGap(a: nat, b: nat, m: nat)
    requires m > 0 && a % m == 0 && b % m == 0 && a < b
    ensures a + m <= b
  {
    DifferenceAligned(b, a, m);
    if b - a < m { ModuloUnique(b - a, m, 0, b - a); }
  }

  // ------------------------------------------- overwriting, in pieces or whole

  /** n is m with src put at a; nothing is asked when src is empty. */
  predicate Put(m: Mem, a: int, src: seq<byte>, n: Mem) {
    if src == [] then n == m else InRange(m, a, |src|) && n == Patch(m, a, src)
  }

  function Slice(m: Mem, a: int, n: nat): seq<byte> {
    if InRange(m, a, n) then m[a..a + n] else []
  }

  /** First the left end, then the right end, then the middle. */
  lemma ThreePuts(m0: Mem, a: int, x: seq<byte>, y: seq<byte>, z: seq<byte>, m1: Mem, m2: Mem, m3: Mem)
    requires Put(m0, a, x, m1) && Put(m1, a + |x| + |y|, z, m2) && Put(m2, a + |x|, y, m3)
    ensures Put(m0, a, x + y + z, m3)
  {
    if x + y + z != [] {
      PutMeans(m0, a, x, m1);
      PutMeans(m1, a + |x| + |y|, z, m2);
      PutMeans(m2, a + |x|, y, m3);
      var all := x + y + z;
      assert InRange(m0, a, |all|);
      hide Patch, Put;
      forall i | 0 <= i < |m0| ensures m3[i] == if a <= i < a + |all| then all[i - a] else m0[i] {
      }
      PatchMeansUpdate(m0, a, all, m3);
      PutIs(m0, a, all, m3);
    } else {
      assert x + y + z == [];
    }
  }

  lemma PutMeans(m: Mem, a: int, src: seq<byte>, n: Mem)
    requires Put(m, a, src, n)
    ensures |n| == |m| && forall i :: 0 <= i < |m| ==> n[i] == if a <= i < a + |src| then src[i - a] else m[i]
  {
  }

  lemma PutIs(m: Mem, a: int, src: seq<byte>, n: Mem)
    requires InRange(m, a, |src|) && n == Patch(m, a, src)
    ensures Put(m, a, src, n)
  {
    if src == [] { PatchNothing(m, a); }
  }

  // -------------------------------------------------------------- the geometry

  lemma Floor(x: nat, m: nat)
    requires m > 0
    ensures x % m <= x && (x - x % m) % m == 0
  {
    ModuloUnique(x - x % m, m, x / m, 0);
  }

  /** Economical calls are legal when the blocks of the access can be reached. */
  lemma EconomicalLegal(s: Shape, c: Call, addr: nat, len: nat)
    requires WellShaped(s) && Reachable(s, addr, len) && len > 0 && Economical(s, c, addr, len)
    ensures Legal(s, c.addr, c.len)
  {
    var m := s.align;
    var first, last := addr - addr % m, addr + len - 1;
    var end := last - last % m + m;
    Floor(addr, m);
    Floor(last, m);
    SumAligned(c.addr, c.len, m);
    ModuloUnique(m, m, 1, 0);
    SumAligned(last - last % m, m, m);
    if c.addr < first { GridGap(c.addr, first, m); }
    if c.addr + c.len > end { GridGap(end, c.addr + c.len, m); }
  }

  lemma BlockOfOwn(s: Shape)
    requires WellShaped(s)
    ensures OnGrid(s, s.align) && s.align <= s.maxSize
  {
    ModuloUnique(s.align, s.align, 1, 0);
    if s.maxSize < s.align { ModuloUnique(s.maxSize, s.align, 0, s.maxSize); }
  }

  lemma HeadBlock(s: Shape, kind: Kind, addr: nat, len: nat)
    requires WellShaped(s) && addr % s.align != 0 && len > 0
    ensures var r := addr % s.align;
      && 0 <= addr - r && r + HeadLen(s.align, addr, len) <= s.align
      && Economical(s, Call(kind, addr - r, s.align), addr, len)
      && 0 < HeadLen(s.align, addr, len)
  {
    BlockOfOwn(s);
    Floor(addr, s.align);
  }

  /** After the head, if anything is left, the address is on the grid. */
  lemma AfterHead(s: Shape, addr: nat, len: nat)
    requires WellShaped(s) && HeadLen(s.align, addr, len) < len
    ensures OnGrid(s, addr + HeadLen(s.align, addr, len)) && OnGrid(s, MiddleLen(s.align, addr, len))
    ensures OnGrid(s, addr + HeadLen(s.align, addr, len) + MiddleLen(s.align, addr, len))
  {
    var m, h := s.align, HeadLen(s.align, addr, len);
    Floor(addr, m);
    BlockOfOwn(s);
    if h > 0 { SumAligned(addr - addr % m, m, m); }
    Floor(len - h, m);
    SumAligned(addr + h, MiddleLen(m, addr, len), m);
  }

  lemma TailBlock(s: Shape, kind: Kind, addr: nat, len: nat)
    requires WellShaped(s) && TailLen(s.align, addr, len) > 0
    ensures var t := TailLen(s.align, addr, len);
      t <= s.align && Economical(s, Call(kind, addr + len - t, s.align), addr, len)
  {
    AfterHead(s, addr, len);
    BlockOfOwn(s);
  }

  /** The piece of the middle that starts pos into it. */
  lemma MiddlePiece(s: Shape, kind: Kind, addr: nat, len: nat, pos: nat, n: nat)
    requires WellShaped(s) && pos < MiddleLen(s.align, addr, len) && OnGrid(s, pos)
    requires n == if MiddleLen(s.align, addr, len) - pos < s.maxSize then MiddleLen(s.align, addr, len) - pos
      else s.maxSize
    ensures Economical(s, Call(kind, addr + HeadLen(s.align, addr, len) + pos, n), addr, len)
    ensures OnGrid(s, pos + s.maxSize)
  {
    var m, mid := s.align, MiddleLen(s.align, addr, len);
    AfterHead(s, addr, len);
    SumAligned(addr + HeadLen(m, addr, len), pos, m);
    SumAligned(pos, s.maxSize, m);
    if n != s.maxSize { DifferenceAligned(mid, pos, m); }
  }

  lemma WholeMiddle(s: Shape, addr: nat, len: nat)
    requires WellShaped(s) && MiddleLen(s.align, addr, len) > 0
    ensures Economical(s, Call(ClearCall, addr + HeadLen(s.align, addr, len), MiddleLen(s.align, addr, len)), addr, len)
  {
    AfterHead(s, addr, len);
  }

  /** What the masks compute. */
  lemma Masks(s: Shape, x: nat)
    requires WellShaped(s)
    ensures And(x, s.align - 1) == x % s.align && AndNot(x, s.align - 1) == x - x % s.align
  {
    var k: nat :| s.align == Pow2(k);
    MaskIsModulo(x, k);
  }

  // ------------------------------------------------------------------ one access

  /** An access and how it falls apart on this transport. */
  datatype Job = Job(s: Shape, addr: nat, len: nat, head: nat, middle: nat, tail: nat)

  ghost predicate Sound(j: Job) { WellShaped(j.s) && Inside(j) && Divided(j) }

  predicate Inside(j: Job) {
    Reachable(j.s, j.addr, j.len) && j.addr + j.len <= 0x1_0000_0000_0000_0000
  }

  predicate Divided(j: Job) {
    && j.s.align > 0
    && j.head == HeadLen(j.s.align, j.addr, j.len)
    && j.middle == MiddleLen(j.s.align, j.addr, j.len)
    && j.tail == TailLen(j.s.align, j.addr, j.len)
  }

  function JobOf(s: Shape, addr: nat, len: nat): Job
    requires s.align > 0
  {
    Job(s, addr, len, HeadLen(s.align, addr, len), MiddleLen(s.align, addr, len), TailLen(s.align, addr, len))
  }

  /** Nothing at either end, and the middle fits the maximum. */
  predicate InOneChunk(j: Job) {
    j.head == 0 && j.tail == 0 && 0 < j.middle <= j.s.maxSize
  }

  lemma InOneChunkIs(j: Job)
    ensures InOneChunk(j) <==> j.head == 0 && j.tail == 0 && 0 < j.middle <= j.s.maxSize
  {
  }

  predicate Helps(j: Job, c: Call) { Economical(j.s, c, j.addr, j.len) }

  lemma HelpsLegal(j: Job, c: Call)
    requires Sound(j) && j.len > 0 && Helps(j, c)
    ensures WellShaped(j.s) && Legal(j.s, c.addr, c.len) && (!c.kind.ClearCall? ==> c.len <= j.s.maxSize)
  {
    EconomicalLegal(j.s, c, j.addr, j.len);
  }

  /** The calls made in between all help. */
  predicate Thrifty(before: seq<Call>, after: seq<Call>, j: Job) {
    before <= after && forall k :: |before| <= k < |after| ==> Helps(j, after[k])
  }

  lemma ThriftyNone(a: seq<Call>, j: Job)
    ensures Thrifty(a, a, j)
  {
  }

  lemma ThriftyBoth(a: seq<Call>, b: seq<Call>, c: seq<Call>, j: Job)
    requires Thrifty(a, b, j) && Thrifty(b, c, j)
    ensures Thrifty(a, c, j)
  {
    forall k | |a| <= k < |c| ensures Helps(j, c[k]) {
      if k < |b| { assert c[k] == b[k]; }
    }
  }

  /** An empty access makes no calls. */
  lemma NoCalls(a: seq<Call>, b: seq<Call>, j: Job)
    requires Thrifty(a, b, j) && j.len == 0
    ensures a == b
  {
    assert |b| > |a| ==> Helps(j, b[|a|]);
  }

  lemma ThriftyOne(a: seq<Call>, c: Call, j: Job)
    requires Helps(j, c)
    ensures Thrifty(a, a + [c], j)
  {
  }

  lemma SliceOfSlice(m: Mem, a: int, w: nat, off: nat, n: nat)
    requires InRange(m, a, w) && off + n <= w
    ensures m[a..a + w][off..off + n] == m[a + off..a + off + n]
  {
    var x, y := m[a..a + w][off..off + n], m[a + off..a + off + n];
    assert |x| == |y|;
    forall i | 0 <= i < n ensures x[i] == y[i] {
    }
  }

  /** A block read whole, and the part of it that is wanted. */
  lemma PartOfBlock(chunk: seq<byte>, m: Mem, block: int, align: nat, off: nat, n: nat)
    requires InRange(m, block, align) && |chunk| == align && off + n <= align
    ensures Patch(chunk, 0, m[block..block + align])[off..off + n] == Slice(m, block + off, n)
  {
    assert Patch(chunk, 0, m[block..block + align]) == m[block..block + align];
    SliceOfSlice(m, block, align, off, n);
  }

  /** A block with part of it replaced, written back. */
  lemma BlockPatched(m: Mem, block: int, align: nat, off: nat, src: seq<byte>, chunk: seq<byte>)
    requires InRange(m, block, align) && |chunk| == align && off + |src| <= align
    ensures var c := Patch(Patch(chunk, 0, m[block..block + align]), off, src);
      |c| == align && Put(m, block + off, src, Patch(m, block, c))
  {
    assert Patch(chunk, 0, m[block..block + align]) == m[block..block + align];
    ReadModifyWrite(m, block, align, block + off, src);
    PutIs(m, block + off, src, Patch(m, block + off, src));
  }

  // ------------------------------------------------------- what the code works out

  lemma HeadPlan(j: Job, kind: Kind)
    requires Sound(j)
    ensures j.s.align > 0
    ensures var align := j.s.align;
      var off, block := And(j.addr, align - 1), AndNot(j.addr, align - 1);
      if j.len != 0 && off != 0 then
        && 0 < j.head == (if j.len < align - off then j.len else align - off)
        && 0 <= block == j.addr - off && off + j.head <= align && off < align && block < 0x1_0000_0000_0000_0000
        && Helps(j, Call(kind, block, align))
      else j.head == 0
  {
    Masks(j.s, j.addr);
    if j.len != 0 && j.addr % j.s.align != 0 { HeadBlock(j.s, kind, j.addr, j.len); }
  }

  lemma TailPlan(j: Job, kind: Kind)
    requires Sound(j)
    ensures j.s.align > 0 && j.head + j.middle + j.tail == j.len
    ensures j.tail == And(j.len - j.head, j.s.align - 1)
    ensures j.tail != 0 ==> j.tail <= j.s.align && Helps(j, Call(kind, j.addr + j.len - j.tail, j.s.align))
    ensures j.tail != 0 ==> j.addr + j.len - j.tail < 0x1_0000_0000_0000_0000
  {
    Masks(j.s, j.len - j.head);
    if j.tail != 0 { TailBlock(j.s, kind, j.addr, j.len); }
  }

  /** The length of the piece that starts at pos. */
  function PieceLen(s: Shape, pos: nat, n: nat): (k: nat)
    requires pos <= n
    ensures pos + k <= n && k <= s.maxSize
  {
    if n - pos < s.maxSize then n - pos else s.maxSize
  }

  lemma PiecePlan(j: Job, kind: Kind, pos: nat, k: nat)
    requires Sound(j) && pos < j.middle && OnGrid(j.s, pos)
    requires k == if j.middle - pos < j.s.maxSize then j.middle - pos else j.s.maxSize
    ensures OnGrid(j.s, pos + j.s.maxSize) && Helps(j, Call(kind, j.addr + j.head + pos, k))
    ensures j.addr + j.head + pos < 0x1_0000_0000_0000_0000 && j.head + j.middle + j.tail == j.len
    ensures 0 <= j.addr + j.head - j.s.base && j.addr + j.head - j.s.base + j.middle <= j.s.size
  {
    MiddlePlan(j);
    MiddlePiece(j.s, kind, j.addr, j.len, pos, k);
  }

  lemma MiddlePlan(j: Job)
    requires Sound(j) && j.middle > 0
    ensures Helps(j, Call(ClearCall, j.addr + j.head, j.middle)) && j.head + j.middle + j.tail == j.len
    ensures 0 <= j.addr + j.head - j.s.base && j.addr + j.head - j.s.base + j.middle <= j.s.size
    ensures j.addr + j.head < 0x1_0000_0000_0000_0000 && j.addr + j.head + j.middle <= TWO_64
  {
    WholeMiddle(j.s, j.addr, j.len);
    EconomicalLegal(j.s, Call(ClearCall, j.addr + j.head, j.middle), j.addr, j.len);
  }

  lemma SoundSizes(j: Job)
    requires Sound(j)
    ensures j.s.align > 0 && OnGrid(j.s, 0) && j.s.maxSize > 0
    ensures j.head + j.middle + j.tail == j.len
  {
    PieceStart(j.s);
  }

  // ---------------------------------------------------------- reading in pieces

  /** pos of n bytes from a on have been copied to `at`; pos may have gone past the end. */
  predicate Part(s: Shape, pos: nat, n: nat, before: seq<byte>, at: nat, m: Mem, a: int, now: seq<byte>) {
    (pos < n ==> OnGrid(s, pos)) && Put(before, at, Slice(m, a, if pos < n then pos else n), now)
  }

  lemma PartNone(s: Shape, n: nat, before: seq<byte>, at: nat, m: Mem, a: int)
    requires s.align > 0
    ensures Part(s, 0, n, before, at, m, a, before)
  {
  }

  lemma PartOn(s: Shape, pos: nat, n: nat, before: seq<byte>, at: nat, m: Mem, a: int, now: seq<byte>)
    requires Part(s, pos, n, before, at, m, a, now) && pos < n
    ensures OnGrid(s, pos)
  {
  }

  lemma PutNone(before: seq<byte>, at: int, m: Mem, a: int)
    ensures Put(before, at, Slice(m, a, 0), before)
  {
  }

  lemma PutSlice(before: seq<byte>, at: nat, m: Mem, a: int, n: nat, now: seq<byte>)
    requires Put(before, at, Slice(m, a, n), now) && InRange(m, a, n) && at + n <= |before|
    ensures now == Patch(before, at, m[a..a + n])
  {
    if n == 0 { PatchNothing(before, at); }
  }

  lemma PartMore(s: Shape, pos: nat, n: nat, before: seq<byte>, at: nat, m: Mem, a: int, now: seq<byte>,
      next: seq<byte>)
    requires Part(s, pos, n, before, at, m, a, now) && pos < n && 0 <= a && a + n <= |m| && at + n <= |before|
    requires OnGrid(s, pos + s.maxSize) && |now| == |before|
    requires next == Patch(now, at + pos, m[a + pos..a + pos + PieceLen(s, pos, n)])
    ensures Part(s, pos + s.maxSize, n, before, at, m, a, next)
  {
    hide *;
    PartNow(s, pos, n, before, at, m, a, now);
    PieceIs(s, pos, n);
    PutMore(before, at, m, a, pos, PieceLen(s, pos, n), now, next);
    PartIs(s, pos, n, before, at, m, a, next);
  }

  lemma PieceIs(s: Shape, pos: nat, n: nat)
    requires pos <= n
    ensures PieceLen(s, pos, n) == if n - pos < s.maxSize then n - pos else s.maxSize
  {
  }

  lemma PartNow(s: Shape, pos: nat, n: nat, before: seq<byte>, at: nat, m: Mem, a: int, now: seq<byte>)
    requires Part(s, pos, n, before, at, m, a, now) && pos < n
    ensures Put(before, at, Slice(m, a, pos), now)
  {
  }

  lemma PartIs(s: Shape, pos: nat, n: nat, before: seq<byte>, at: nat, m: Mem, a: int, next: seq<byte>)
    requires pos < n && OnGrid(s, pos + s.maxSize)
    requires Put(before, at, Slice(m, a, pos + PieceLen(s, pos, n)), next)
    ensures Part(s, pos + s.maxSize, n, before, at, m, a, next)
  {
    hide OnGrid, Slice, Put;
  }

  lemma PutMore(before: seq<byte>, at: nat, m: Mem, a: int, pos: nat, k: nat, now: seq<byte>, next: seq<byte>)
    requires Put(before, at, Slice(m, a, pos), now) && 0 <= a && a + pos + k <= |m| && at + pos + k <= |before| == |now|
    requires next == Patch(now, at + pos, m[a + pos..a + pos + k])
    ensures Put(before, at, Slice(m, a, pos + k), next)
  {
    PutSlice(before, at, m, a, pos, now);
    CopyGrows(before, at, m, a, pos, k);
    PutIs(before, at, m[a..a + pos + k], next);
    hide Patch, Put;
  }

  lemma PartWhole(s: Shape, pos: nat, n: nat, before: seq<byte>, at: nat, m: Mem, a: int, now: seq<byte>)
    requires Part(s, pos, n, before, at, m, a, now) && pos >= n
    ensures Put(before, at, Slice(m, a, n), now)
  {
  }

  /** The buffer after the piece that starts at pos has been read into it. */
  predicate NextPiece(j: Job, m: Mem, pos: nat, k: nat, at: nat, now: seq<byte>, next: seq<byte>) {
    var a := j.addr + j.head - j.s.base;
    && pos <= j.middle && k == PieceLen(j.s, pos, j.middle)
    && InRange(m, a + pos, k) && InRange(now, at + pos, k) && next == Patch(now, at + pos, m[a + pos..a + pos + k])
  }

  lemma NextIs(j: Job, m: Mem, pos: nat, k: nat, at: nat, now: seq<byte>, next: seq<byte>, after: seq<byte>)
    requires NextPiece(j, m, pos, k, at, now, next) && InRange(m, j.addr + j.head + pos - j.s.base, k)
    requires after == Patch(now, at + pos, m[j.addr + j.head + pos - j.s.base..j.addr + j.head + pos - j.s.base + k])
    ensures after == next
  {
  }

  /** Everything the next chunk of a read needs, and what it achieves. */
  lemma PieceReady(j: Job, m: Mem, pos: nat, k: nat, before: seq<byte>, at: nat, now: seq<byte>)
      returns (next: seq<byte>)
    requires Sound(j) && |m| == j.s.size && pos < j.middle && at + j.middle <= |before| == |now|
    requires Part(j.s, pos, j.middle, before, at, m, j.addr + j.head - j.s.base, now)
    requires k == if j.middle - pos < j.s.maxSize then j.middle - pos else j.s.maxSize
    ensures Helps(j, Call(ReadCall, j.addr + j.head + pos, k)) && pos + k <= j.middle
    ensures j.addr + j.head + pos < 0x1_0000_0000_0000_0000 && j.len > 0
    ensures NextPiece(j, m, pos, k, at, now, next)
    ensures Part(j.s, pos + j.s.maxSize, j.middle, before, at, m, j.addr + j.head - j.s.base, next)
  {
    hide *;
    PartOn(j.s, pos, j.middle, before, at, m, j.addr + j.head - j.s.base, now);
    PiecePlan(j, ReadCall, pos, k);
    next := TakePiece(j, m, pos, k, before, at, now);
  }

  lemma TakePiece(j: Job, m: Mem, pos: nat, k: nat, before: seq<byte>, at: nat, now: seq<byte>)
      returns (next: seq<byte>)
    requires pos < j.middle && at + j.middle <= |before| == |now| && OnGrid(j.s, pos + j.s.maxSize)
    requires 0 <= j.addr + j.head - j.s.base && j.addr + j.head - j.s.base + j.middle <= |m|
    requires Part(j.s, pos, j.middle, before, at, m, j.addr + j.head - j.s.base, now)
    requires k == if j.middle - pos < j.s.maxSize then j.middle - pos else j.s.maxSize
    ensures NextPiece(j, m, pos, k, at, now, next) && pos + k <= j.middle
    ensures Part(j.s, pos + j.s.maxSize, j.middle, before, at, m, j.addr + j.head - j.s.base, next)
  {
    hide Part, Patch, OnGrid;
    var a := j.addr + j.head - j.s.base;
    next := Patch(now, at + pos, m[a + pos..a + pos + k]);
    PartMore(j.s, pos, j.middle, before, at, m, a, now, next);
  }

  lemma ThreeSlices(m: Mem, a: int, h: nat, n: nat, t: nat)
    requires h + n + t > 0 ==> 0 <= a && a + h + n + t <= |m|
    ensures Slice(m, a, h) + Slice(m, a + h, n) + Slice(m, a + h + n, t) == Slice(m, a, h + n + t)
    ensures |Slice(m, a, h)| == h && |Slice(m, a + h, n)| == n && |Slice(m, a + h + n, t)| == t
  {
    if h + n + t > 0 {
      assert m[a..a + h] + m[a + h..a + h + n] + m[a + h + n..a + h + n + t] == m[a..a + h + n + t];
    }
  }

  /** The whole of the access is inside the window. */
  lemma WholeInRange(j: Job)
    requires Sound(j) && j.len > 0
    ensures 0 <= j.addr - j.s.base && j.addr - j.s.base + j.len <= j.s.size
  {
    Floor(j.addr, j.s.align);
  }

  lemma ReadParts(j: Job, m: Mem, a: int, b0: seq<byte>, at: nat, b1: seq<byte>, b2: seq<byte>, b3: seq<byte>)
    requires Sound(j) && |m| == j.s.size && a == j.addr - j.s.base
    requires Put(b0, at, Slice(m, a, j.head), b1)
    requires Put(b1, at + j.head + j.middle, Slice(m, a + j.head + j.middle, j.tail), b2)
    requires Put(b2, at + j.head, Slice(m, a + j.head, j.middle), b3)
    ensures Put(b0, at, Slice(m, a, j.len), b3)
  {
    hide *;
    SoundSizes(j);
    if j.len > 0 { WholeInRange(j); }
    var x, y, z := Slice(m, a, j.head), Slice(m, a + j.head, j.middle), Slice(m, a + j.head + j.middle, j.tail);
    ThreeSlices(m, a, j.head, j.middle, j.tail);
    ThreePuts(b0, at, x, y, z, b1, b2, b3);
  }

  // ------------------------------------------------------------- what a write does

  /** m with src at a; m itself when src is empty. */
  function Overwritten(m: Mem, a: int, src: seq<byte>): (r: Mem)
    ensures |r| == |m|
  {
    if src != [] && InRange(m, a, |src|) then Patch(m, a, src) else m
  }

  predicate ZeroMiddle(j: Job, bytes: seq<byte>)
    requires |bytes| == j.head + j.middle + j.tail
  {
    j.middle > 0 && AllZero(bytes[j.head..j.head + j.middle])
  }

  /** A middle of zeros is left to clear_chunk, which may not do anything. */
  function WriteResult(j: Job, m: Mem, bytes: seq<byte>): (r: Mem)
    requires |bytes| == j.head + j.middle + j.tail
    ensures |r| == |m|
  {
    var a := j.addr - j.s.base;
    if ZeroMiddle(j, bytes) && !j.s.clears then
      Overwritten(Overwritten(m, a, bytes[..j.head]), a + j.head + j.middle, bytes[j.head + j.middle..])
    else Overwritten(m, a, bytes)
  }

  /** What becomes of the middle. */
  function MiddleResult(s: Shape, m: Mem, a: int, y: seq<byte>): (r: Mem)
    ensures |r| == |m|
  {
    if y != [] && AllZero(y) && !s.clears then m else Overwritten(m, a, y)
  }

  lemma NothingPut(m: Mem, a: int)
    ensures Put(m, a, [], m)
  {
  }

  lemma PutIsOverwritten(m: Mem, a: int, src: seq<byte>, n: Mem)
    ensures Put(m, a, src, n) ==> n == Overwritten(m, a, src)
  {
  }

  lemma WriteParts(j: Job, m: Mem, bytes: seq<byte>, m1: Mem, m2: Mem)
    requires Sound(j) && |m| == j.s.size && |bytes| == j.head + j.middle + j.tail == j.len
    requires Put(m, j.addr - j.s.base, bytes[..j.head], m1)
    requires Put(m1, j.addr - j.s.base + j.head + j.middle, bytes[j.head + j.middle..], m2)
    ensures MiddleResult(j.s, m2, j.addr - j.s.base + j.head, bytes[j.head..j.head + j.middle])
      == WriteResult(j, m, bytes)
  {
    hide *;
    var a := j.addr - j.s.base;
    var x, y, z := bytes[..j.head], bytes[j.head..j.head + j.middle], bytes[j.head + j.middle..];
    PutIsOverwritten(m, a, x, m1);
    PutIsOverwritten(m1, a + j.head + j.middle, z, m2);
    SplitInThree(bytes, j.head, j.middle);
    if j.len > 0 { WholeInRange(j); }
    var m3 := Overwritten(m2, a + j.head, y);
    AllParts(m, a, x, y, z, m1, m2, m3);
    ResultCases(j, m, bytes, m2);
  }

  lemma SplitInThree(bytes: seq<byte>, h: nat, n: nat)
    requires h + n <= |bytes|
    ensures bytes[..h] + bytes[h..h + n] + bytes[h + n..] == bytes
  {
  }

  lemma AllParts(m: Mem, a: int, x: seq<byte>, y: seq<byte>, z: seq<byte>, m1: Mem, m2: Mem, m3: Mem)
    requires Put(m, a, x, m1) && Put(m1, a + |x| + |y|, z, m2) && m3 == Overwritten(m2, a + |x|, y)
    requires |x + y + z| > 0 ==> 0 <= a && a + |x + y + z| <= |m|
    ensures m3 == Overwritten(m, a, x + y + z)
  {
    hide *;
    PutSize(m, a, x, m1);
    PutSize(m1, a + |x| + |y|, z, m2);
    PutIsOverwritten2(m2, a + |x|, y, m3);
    ThreePuts(m, a, x, y, z, m1, m2, m3);
    PutIsOverwritten(m, a, x + y + z, m3);
  }

  lemma PutSize(m: Mem, a: int, src: seq<byte>, n: Mem)
    requires Put(m, a, src, n)
    ensures |n| == |m|
  {
  }

  lemma PutIsOverwritten2(m: Mem, a: int, src: seq<byte>, n: Mem)
    requires n == Overwritten(m, a, src) && (|src| == 0 || (0 <= a && a + |src| <= |m|))
    ensures Put(m, a, src, n)
  {
  }

  lemma ResultCases(j: Job, m: Mem, bytes: seq<byte>, m2: Mem)
    requires |bytes| == j.head + j.middle + j.tail
    requires var a := j.addr - j.s.base;
      && m2 == Overwritten(Overwritten(m, a, bytes[..j.head]), a + j.head + j.middle, bytes[j.head + j.middle..])
      && Overwritten(m2, a + j.head, bytes[j.head..j.head + j.middle]) == Overwritten(m, a, bytes)
    ensures MiddleResult(j.s, m2, j.addr - j.s.base + j.head, bytes[j.head..j.head + j.middle])
      == WriteResult(j, m, bytes)
  {
    hide Overwritten, AllZero;
  }

  // ---------------------------------------------------------- writing in pieces

  /** pos of the bytes of y have been put at a; pos may have gone past the end. */
  predicate PartPut(s: Shape, pos: nat, y: seq<byte>, m: Mem, a: int, now: Mem) {
    (pos < |y| ==> OnGrid(s, pos)) && Put(m, a, y[..if pos < |y| then pos else |y|], now)
  }

  lemma PartPutNone(s: Shape, y: seq<byte>, m: Mem, a: int)
    requires s.align > 0
    ensures PartPut(s, 0, y, m, a, m)
  {
  }

  lemma PartPutOn(s: Shape, pos: nat, y: seq<byte>, m: Mem, a: int, now: Mem)
    requires PartPut(s, pos, y, m, a, now) && pos < |y|
    ensures OnGrid(s, pos) && |now| == |m|
  {
  }

  lemma PartPutMore(s: Shape, pos: nat, k: nat, y: seq<byte>, m: Mem, a: int, now: Mem, next: Mem)
    requires PartPut(s, pos, y, m, a, now) && pos < |y| && InRange(m, a, |y|) && |now| == |m|
    requires OnGrid(s, pos + s.maxSize) && k == if |y| - pos < s.maxSize then |y| - pos else s.maxSize
    requires next == Patch(now, a + pos, y[pos..pos + k])
    ensures PartPut(s, pos + s.maxSize, y, m, a, next)
  {
    if pos == 0 { PatchNothing(m, a); }
    assert now == Patch(m, a, y[..pos]);
    PatchAdjacent(m, a, y[..pos], y[pos..pos + k]);
    assert y[..pos] + y[pos..pos + k] == y[..pos + k];
    PutIs(m, a, y[..pos + k], next);
    hide Patch, Put;
  }

  lemma PartPutWhole(s: Shape, pos: nat, y: seq<byte>, m: Mem, a: int, now: Mem)
    requires PartPut(s, pos, y, m, a, now) && pos >= |y|
    ensures now == Overwritten(m, a, y)
  {
    assert y[..|y|] == y;
  }

  lemma PieceWritten(j: Job, m: Mem, now: Mem, y: seq<byte>, pos: nat, k: nat) returns (next: Mem)
    requires PartPut(j.s, pos, y, m, j.addr + j.head - j.s.base, now) && pos < |y| && |now| == |m|
    requires 0 <= j.addr + j.head - j.s.base && j.addr + j.head - j.s.base + |y| <= |m|
    requires OnGrid(j.s, pos + j.s.maxSize) && k == if |y| - pos < j.s.maxSize then |y| - pos else j.s.maxSize
    ensures PartPut(j.s, pos + j.s.maxSize, y, m, j.addr + j.head - j.s.base, next)
    ensures InRange(now, j.addr + j.head + pos - j.s.base, k)
    ensures next == Patch(now, j.addr + j.head + pos - j.s.base, y[pos..pos + k])
  {
    hide PartPut, OnGrid, Patch;
    var a := j.addr + j.head - j.s.base;
    next := Patch(now, a + pos, y[pos..pos + k]);
    PartPutMore(j.s, pos, k, y, m, a, now, next);
  }

  lemma MiddleWritten(s: Shape, m: Mem, a: int, y: seq<byte>)
    requires y != [] ==> InRange(m, a, |y|)
    ensures y == [] || !AllZero(y) ==> MiddleResult(s, m, a, y) == Overwritten(m, a, y)
    ensures y != [] && AllZero(y) ==> MiddleResult(s, m, a, y) == Cleared(s, m, a, |y|)
  {
    if AllZero(y) { assert y == Zeros(|y|); }
  }

  // ---------------------------------------------------------------- main results

  /** On a transport that clears, a write is an update of flat memory, and nothing else. */
  lemma WriteRefinesUpdate(j: Job, m: Mem, bytes: seq<byte>, i: nat)
    requires Sound(j) && |m| == j.s.size && |bytes| == j.len == j.head + j.middle + j.tail && j.s.clears
    requires i < |m|
    ensures WriteResult(j, m, bytes)[i] ==
      if j.addr - j.s.base <= i < j.addr - j.s.base + j.len then bytes[i - (j.addr - j.s.base)] else m[i]
  {
    if j.len > 0 { WholeInRange(j); }
  }

  /** On any transport it is one exactly when no block-aligned middle of zeros is to
      replace something else on a transport that does not clear. */
  lemma WriteExact(j: Job, m: Mem, bytes: seq<byte>)
    requires Sound(j) && |m| == j.s.size && |bytes| == j.len == j.head + j.middle + j.tail
    ensures WriteResult(j, m, bytes) == Overwritten(m, j.addr - j.s.base, bytes) <==>
      (j.s.clears || !ZeroMiddle(j, bytes) || AllZero(Slice(m, j.addr - j.s.base + j.head, j.middle)))
  {
    hide *;
    ResultUnfolds(j, m, bytes);
    if ZeroMiddle(j, bytes) && !j.s.clears {
      WholeInRange(j);
      EndsOnly(m, j.addr - j.s.base, bytes, j.head, j.middle);
    }
  }

  lemma ResultUnfolds(j: Job, m: Mem, bytes: seq<byte>)
    requires |bytes| == j.len == j.head + j.middle + j.tail
    ensures j.s.clears || !ZeroMiddle(j, bytes) ==> WriteResult(j, m, bytes) == Overwritten(m, j.addr - j.s.base, bytes)
    ensures ZeroMiddle(j, bytes) ==> j.len > 0 && AllZero(bytes[j.head..j.head + j.middle])
    ensures ZeroMiddle(j, bytes) && !j.s.clears ==>
      WriteResult(j, m, bytes) == Overwritten(Overwritten(m, j.addr - j.s.base, bytes[..j.head]),
        j.addr - j.s.base + j.head + j.middle, bytes[j.head + j.middle..])
  {
    hide Overwritten;
  }

  /** For instance, in a window of one block of one byte: a write of 0 over the 7 that was
      there is lost. */
  lemma ZerosMayBeLost() returns (j: Job, m: Mem, bytes: seq<byte>)
    ensures j == Job(Shape(0, 1, 0, 0, 1, 1, false), 0, 1, 0, 1, 0) && m == [7] && bytes == [0]
    ensures Sound(j) && |bytes| == j.len == j.head + j.middle + j.tail
    ensures WriteResult(j, m, bytes) != Overwritten(m, j.addr - j.s.base, bytes)
  {
    hide *;
    j, m, bytes := Job(Shape(0, 1, 0, 0, 1, 1, false), 0, 1, 0, 1, 0), [7], [0];
    OneByteSound(j);
    WriteExact(j, m, bytes);
    SevenIsNotZero(j, m, bytes);
  }

  lemma OneByteSound(j: Job)
    requires j == Job(Shape(0, 1, 0, 0, 1, 1, false), 0, 1, 0, 1, 0)
    ensures Sound(j)
  {
    assert j.s.align == Pow2(0);
  }

  lemma SevenIsNotZero(j: Job, m: Mem, bytes: seq<byte>)
    requires j.head == 0 && j.middle == 1 && j.tail == 0
    requires |m| == 1 && m[0] == 7 && |bytes| == 1 && bytes[0] == 0
    ensures ZeroMiddle(j, bytes) && !AllZero(Slice(m, 0, 1))
  {
    assert m[0..1][0] == 7;
  }

  /** Putting only the two ends is as good as putting all if what lies between is zero already. */
  lemma EndsOnly(m: Mem, a: int, bytes: seq<byte>, h: nat, n: nat)
    requires 0 <= a && a + |bytes| <= |m| && h + n <= |bytes| && AllZero(bytes[h..h + n])
    ensures var r := Overwritten(Overwritten(m, a, bytes[..h]), a + h + n, bytes[h + n..]);
      r == Overwritten(m, a, bytes) <==> AllZero(Slice(m, a + h, n))
  {
    hide Overwritten, AllZero, Slice;
    var r := Overwritten(Overwritten(m, a, bytes[..h]), a + h + n, bytes[h + n..]);
    OverwrittenAt(m, a, bytes);
    TwoEnds(m, a, bytes, h, n, r);
    MiddleDecides(m, a, bytes, h, n, r, Overwritten(m, a, bytes));
  }

  lemma OverwrittenAt(m: Mem, a: int, src: seq<byte>)
    requires src == [] || InRange(m, a, |src|)
    ensures forall i :: 0 <= i < |m| ==> Overwritten(m, a, src)[i] == if a <= i < a + |src| then src[i - a] else m[i]
  {
  }

  lemma TwoEnds(m: Mem, a: int, bytes: seq<byte>, h: nat, n: nat, r: Mem)
    requires 0 <= a && a + |bytes| <= |m| && h + n <= |bytes|
    requires r == Overwritten(Overwritten(m, a, bytes[..h]), a + h + n, bytes[h + n..])
    ensures forall i :: 0 <= i < |m| ==>
      r[i] == if a <= i < a + |bytes| && !(a + h <= i < a + h + n) then bytes[i - a] else m[i]
  {
    hide Overwritten;
    OverwrittenAt(m, a, bytes[..h]);
    OverwrittenAt(Overwritten(m, a, bytes[..h]), a + h + n, bytes[h + n..]);
  }

  lemma MiddleDecides(m: Mem, a: int, bytes: seq<byte>, h: nat, n: nat, r: Mem, w: Mem)
    requires InRange(m, a, |bytes|) && h + n <= |bytes| && |r| == |w| == |m| && AllZero(bytes[h..h + n])
    requires forall i :: 0 <= i < |m| ==> w[i] == if a <= i < a + |bytes| then bytes[i - a] else m[i]
    requires forall i :: 0 <= i < |m| ==>
      r[i] == if a <= i < a + |bytes| && !(a + h <= i < a + h + n) then bytes[i - a] else m[i]
    ensures r == w <==> AllZero(Slice(m, a + h, n))
  {
    var was := Slice(m, a + h, n);
    forall k | 0 <= k < n ensures bytes[h + k] == 0 && was[k] == m[a + h + k] {
      assert bytes[h..h + n][k] == 0;
    }
    if r == w {
      forall k | 0 <= k < n ensures was[k] == 0 {
        assert r[a + h + k] == m[a + h + k] && w[a + h + k] == bytes[h + k];
      }
    }
    if AllZero(was) {
      forall i | 0 <= i < |m| ensures r[i] == w[i] {
        if a + h <= i < a + h + n { assert was[i - a - h] == 0 && bytes[h + (i - a - h)] == 0; }
      }
    }
  }

  /** The condition of WriteExact. */
  predicate Takes(j: Job, m: Mem, bytes: seq<byte>)
    requires |bytes| == j.head + j.middle + j.tail
  {
    j.s.clears || !ZeroMiddle(j, bytes) || AllZero(Slice(m, j.addr - j.s.base + j.head, j.middle))
  }

  /** What was written is what is read, exactly where a write is an update. */
  lemma ReadAfterWrite(j: Job, m: Mem, bytes: seq<byte>)
    requires Sound(j) && |m| == j.s.size && |bytes| == j.len == j.head + j.middle + j.tail
    ensures Slice(WriteResult(j, m, bytes), j.addr - j.s.base, j.len) == bytes <==> Takes(j, m, bytes)
  {
    hide *;
    WriteExact(j, m, bytes);
    TakesIs(j, m, bytes);
    if j.len > 0 { WholeInRange(j); }
    SliceOfOverwritten(m, j.addr - j.s.base, bytes);
    if !Takes(j, m, bytes) { LostShows(j, m, bytes); }
  }

  lemma TakesIs(j: Job, m: Mem, bytes: seq<byte>)
    requires |bytes| == j.head + j.middle + j.tail
    ensures !Takes(j, m, bytes) ==> |bytes| > 0
    ensures Takes(j, m, bytes) <==>
      (j.s.clears || !ZeroMiddle(j, bytes) || AllZero(Slice(m, j.addr - j.s.base + j.head, j.middle)))
  {
  }

  lemma SliceOfOverwritten(m: Mem, a: int, src: seq<byte>)
    requires |src| > 0 ==> 0 <= a && a + |src| <= |m|
    ensures Slice(Overwritten(m, a, src), a, |src|) == src
  {
  }

  /** Where zeros are lost, reading back shows it. */
  lemma LostShows(j: Job, m: Mem, bytes: seq<byte>)
    requires |bytes| == j.len == j.head + j.middle + j.tail && !Takes(j, m, bytes)
    requires 0 <= j.addr - j.s.base && j.addr - j.s.base + j.len <= |m|
    ensures Slice(WriteResult(j, m, bytes), j.addr - j.s.base, j.len) != bytes
  {
    hide *;
    var k := LostAt(j, m, bytes);
    ResultUnfolds(j, m, bytes);
    TwoEnds(m, j.addr - j.s.base, bytes, j.head, j.middle, WriteResult(j, m, bytes));
    LostByte(m, j.addr - j.s.base, bytes, j.head, j.middle, WriteResult(j, m, bytes), k);
  }

  lemma LostAt(j: Job, m: Mem, bytes: seq<byte>) returns (k: nat)
    requires |bytes| == j.head + j.middle + j.tail && !Takes(j, m, bytes)
    requires 0 <= j.addr - j.s.base && j.addr - j.s.base + |bytes| <= |m|
    ensures ZeroMiddle(j, bytes) && !j.s.clears
    ensures k < j.middle && |Slice(m, j.addr - j.s.base + j.head, j.middle)| == j.middle
    ensures Slice(m, j.addr - j.s.base + j.head, j.middle)[k] != 0
  {
    var was := Slice(m, j.addr - j.s.base + j.head, j.middle);
    k :| 0 <= k < |was| && was[k] != 0;
  }

  lemma LostByte(m: Mem, a: int, bytes: seq<byte>, h: nat, n: nat, r: Mem, k: nat)
    requires 0 <= a && a + |bytes| <= |m| && h + n <= |bytes| && |r| == |m| && k < n == |Slice(m, a + h, n)|
    requires forall i :: 0 <= i < |m| ==>
      r[i] == if a <= i < a + |bytes| && !(a + h <= i < a + h + n) then bytes[i - a] else m[i]
    requires Slice(m, a + h, n)[k] != 0 && AllZero(bytes[h..h + n])
    ensures Slice(r, a, |bytes|) != bytes
  {
    assert Slice(m, a + h, n)[k] == m[a + h + k];
    assert bytes[h..h + n][k] == 0;
    assert Slice(r, a, |bytes|)[h + k] == r[a + (h + k)];
  }

  // -------------------------------------------------------- fixed-width accesses

  datatype Result = Got(value: nat) | MisalignedAddress

  predicate Width(size: nat) { size == 1 || size == 2 || size == 4 || size == 8 }

  lemma WidthMask(addr: nat, size: nat)
    requires Width(size)
    ensures And(addr, size - 1) == addr % size
  {
    assert Pow2(0) == 1 && Pow2(1) == 2 && Pow2(2) == 4 && Pow2(3) == 8;
    MaskIsModulo(addr, if size == 1 then 0 else if size == 2 then 1 else if size == 4 then 2 else 3);
  }

  /** A number written and read back at the same width is the same number. */
  lemma NumberRoundTrip(j: Job, m: Mem, value: nat)
    requires Sound(j) && |m| == j.s.size && value < Pow256(j.len)
    requires j.len == j.head + j.middle + j.tail && Takes(j, m, Bytes(value, j.len))
    ensures Value(Slice(WriteResult(j, m, Bytes(value, j.len)), j.addr - j.s.base, j.len)) == value
  {
    hide WriteResult, Slice, Sound, Takes;
    ReadAfterWrite(j, m, Bytes(value, j.len));
    ValueOfBytes(value, j.len);
  }

  lemma DivisorOfEight(a: nat, m: nat)
    requires m > 0 && a % 8 == 0 && 8 % m == 0
    ensures a % m == 0
  {
    var q, d := a / 8, 8 / m;
    assert 8 == m * d && a == m * (d * q) + 0;
    ModuloUnique(a, m, d * q, 0);
  }

  /** When blocks divide eight bytes, an aligned 64-bit access is one call, of these eight bytes:
      see Read and Write, whose call is a clearing one when zero is written. */
  lemma MailboxAccessIsWhole(j: Job)
    requires Sound(j) && j.len == 8 && j.addr % 8 == 0 && 8 % j.s.align == 0 && 8 <= j.s.maxSize
    ensures InOneChunk(j) && j.middle == 8
  {
    DivisorOfEight(j.addr, j.s.align);
    hide WellShaped, Inside;
  }

  lemma BufferFilled(before: seq<byte>, src: seq<byte>, after: seq<byte>)
    requires Put(before, 0, src, after) && |src| == |before|
    ensures after == src
  {
  }

  class MemIf {
    const cmemif: Backend
    ghost var calls: seq<Call>

    constructor (cmemif: Backend)
      ensures this.cmemif == cmemif && calls == []
    {
      this.cmemif := cmemif;
      calls := [];
    }

    /** The transport is in order and its memory is m. */
    ghost predicate Holds(s: Shape, m: Mem)
      reads Repr(cmemif)
    {
      Is(cmemif, s, m)
    }

    lemma Sizes(s: Shape, m: Mem)
      requires Holds(s, m)
      ensures ChunkAlign(cmemif) == s.align && ChunkMaxSize(cmemif) == s.maxSize && |m| == s.size
    {
      SizesAre(cmemif, s, m);
    }

    // ------------------------------------------------------- the transport's methods

    method ReadChunk(taddr: u64, n: nat, dst: array<byte>, at: nat, ghost j: Job, ghost m: Mem)
      requires Sound(j) && Holds(j.s, m) && j.len > 0 && Helps(j, Call(ReadCall, taddr, n))
      requires at + n <= dst.Length
      modifies this`calls, Repr(cmemif), dst
      ensures Holds(j.s, m) && Thrifty(old(calls), calls, j)
      ensures InRange(m, taddr - j.s.base, n)
      ensures dst[..] == Patch(old(dst[..]), at, m[taddr - j.s.base..taddr - j.s.base + n])
      ensures calls == old(calls) + [Call(ReadCall, taddr, n)]
    {
      hide Is, Legal, WellShaped, Patch, Helps, Sound, Thrifty, Copied, Cleared;
      HelpsLegal(j, Call(ReadCall, taddr, n));
      ThriftyOne(calls, Call(ReadCall, taddr, n), j);
      calls := calls + [Call(ReadCall, taddr, n)];
      ghost var before := dst[..];
      ReadFrom(cmemif, taddr, n, dst, at, j.s, m);
      CopiedAll(before, at, m, taddr - j.s.base, n, dst[..]);
    }

    method WriteChunk(taddr: u64, n: nat, src: seq<byte>, ghost j: Job, ghost m: Mem)
      requires Sound(j) && Holds(j.s, m) && j.len > 0 && Helps(j, Call(WriteCall, taddr, n))
      requires n == |src|
      modifies this`calls, Repr(cmemif)
      ensures InRange(m, taddr - j.s.base, n) && Holds(j.s, Patch(m, taddr - j.s.base, src))
      ensures Thrifty(old(calls), calls, j)
      ensures calls == old(calls) + [Call(WriteCall, taddr, n)]
    {
      hide Is, Legal, WellShaped, Patch, Helps, Sound, Thrifty, Copied, Cleared;
      HelpsLegal(j, Call(WriteCall, taddr, n));
      ThriftyOne(calls, Call(WriteCall, taddr, n), j);
      calls := calls + [Call(WriteCall, taddr, n)];
      WriteTo(cmemif, taddr, n, src, j.s, m);
    }

    method ClearChunk(taddr: u64, n: nat, ghost j: Job, ghost m: Mem)
      requires Sound(j) && Holds(j.s, m) && j.len > 0 && Helps(j, Call(ClearCall, taddr, n))
      requires taddr + n <= TWO_64
      modifies this`calls, Repr(cmemif)
      ensures InRange(m, taddr - j.s.base, n) && Holds(j.s, Cleared(j.s, m, taddr - j.s.base, n))
      ensures Thrifty(old(calls), calls, j)
      ensures calls == old(calls) + [Call(ClearCall, taddr, n)]
    {
      hide Is, Legal, WellShaped, Patch, Helps, Sound, Thrifty, Copied, Cleared;
      HelpsLegal(j, Call(ClearCall, taddr, n));
      ThriftyOne(calls, Call(ClearCall, taddr, n), j);
      calls := calls + [Call(ClearCall, taddr, n)];
      ClearIn(cmemif, taddr, n, j.s, m);
    }

    // ------------------------------------------------------------------ reading

    /** Reads a whole block and keeps n bytes of it. */
    method ReadPart(block: u64, align: nat, off: nat, n: nat, bytes: array<byte>, at: nat, ghost j: Job, ghost m: Mem)
      requires Sound(j) && Holds(j.s, m) && j.len > 0 && Helps(j, Call(ReadCall, block, align))
      requires off + n <= align && at + n <= bytes.Length
      modifies this`calls, Repr(cmemif), bytes
      ensures Holds(j.s, m) && Thrifty(old(calls), calls, j)
      ensures Put(old(bytes[..]), at, Slice(m, block + off - j.s.base, n), bytes[..])
    {
      hide Is, Sound, Thrifty, Helps, Patch;
      var chunk := new byte[align];
      ghost var junk, before := chunk[..], bytes[..];
      ReadChunk(block, align, chunk, 0, j, m);
      PartOfBlock(junk, m, block - j.s.base, align, off, n);
      var part := chunk[off..off + n];
      CopyBytes(part, bytes, at);
      PutIs(before, at, part, bytes[..]);
    }

    method ReadHead(addr: u64, len: nat, bytes: array<byte>, at: nat, ghost j: Job, ghost m: Mem) returns (thisLen: nat)
      requires Sound(j) && Holds(j.s, m) && j.addr == addr && j.len == len && at + len <= bytes.Length
      modifies this`calls, Repr(cmemif), bytes
      ensures Holds(j.s, m) && Thrifty(old(calls), calls, j) && thisLen == j.head
      ensures Put(old(bytes[..]), at, Slice(m, addr - j.s.base, thisLen), bytes[..])
      ensures j.head == 0 ==> calls == old(calls)
    {
      hide *;
      ThriftyNone(calls, j);
      HeadPlan(j, ReadCall);
      Sizes(j.s, m);
      PutNone(bytes[..], at, m, addr - j.s.base);
      var align := ChunkAlign(cmemif);
      var off := And(addr, align - 1);
      thisLen := 0;
      if len != 0 && off != 0 {
        thisLen := if len < align - off then len else align - off;
        ReadPart(AndNot(addr, align - 1), align, off, thisLen, bytes, at, j, m);
      }
    }

    /** addr and len are what the head has left, bytes start at `at`. */
    method ReadTail(addr: nat, len: nat, bytes: array<byte>, at: nat, ghost j: Job, ghost m: Mem) returns (thisLen: nat)
      requires Sound(j) && Holds(j.s, m) && j.addr + j.head == addr && j.len == j.head + len && at + len <= bytes.Length
      modifies this`calls, Repr(cmemif), bytes
      ensures Holds(j.s, m) && Thrifty(old(calls), calls, j) && thisLen == j.tail <= len
      ensures Put(old(bytes[..]), at + len - thisLen, Slice(m, addr + len - thisLen - j.s.base, thisLen), bytes[..])
      ensures j.tail == 0 ==> calls == old(calls)
    {
      hide *;
      ThriftyNone(calls, j);
      TailPlan(j, ReadCall);
      Sizes(j.s, m);
      PutNone(bytes[..], at + len, m, addr + len - j.s.base);
      var align := ChunkAlign(cmemif);
      thisLen := And(len, align - 1);
      if thisLen != 0 {
        var start := len - thisLen;
        ReadPart(addr + start, align, 0, thisLen, bytes, at + start, j, m);
      }
    }

    method ReadMiddle(addr: nat, len: nat, bytes: array<byte>, at: nat, ghost j: Job, ghost m: Mem)
      requires Sound(j) && Holds(j.s, m) && j.addr + j.head == addr && j.middle == len && at + len <= bytes.Length
      modifies this`calls, Repr(cmemif), bytes
      ensures Holds(j.s, m) && Thrifty(old(calls), calls, j)
      ensures Put(old(bytes[..]), at, Slice(m, addr - j.s.base, len), bytes[..])
      ensures 0 < len <= j.s.maxSize ==> calls == old(calls) + [Call(ReadCall, addr, len)]
    {
      hide *;
      ThriftyNone(calls, j);
      SoundSizes(j);
      Sizes(j.s, m);
      var pos: nat := 0;
      ghost var before, a := bytes[..], addr - j.s.base;
      PartNone(j.s, len, before, at, m, a);
      while pos < len
        invariant Holds(j.s, m) && Thrifty(old(calls), calls, j) && ChunkMaxSize(cmemif) == j.s.maxSize > 0
        invariant Part(j.s, pos, len, before, at, m, a, bytes[..])
        invariant pos == 0 ==> calls == old(calls)
        invariant 0 < pos && len <= j.s.maxSize ==> len <= pos && calls == old(calls) + [Call(ReadCall, addr, len)]
        decreases len - pos
      {
        ghost var sofar := calls;
        ReadPiece(addr, len, bytes, at, pos, before, j, m);
        ThriftyBoth(old(calls), sofar, calls, j);
        pos := pos + ChunkMaxSize(cmemif);
      }
      PartWhole(j.s, pos, len, before, at, m, a, bytes[..]);
    }

    /** One chunk of the middle. */
    method ReadPiece(addr: nat, len: nat, bytes: array<byte>, at: nat, pos: nat, ghost before: seq<byte>,
        ghost j: Job, ghost m: Mem)
      requires Sound(j) && Holds(j.s, m) && j.addr + j.head == addr && j.middle == len
      requires at + len <= bytes.Length == |before|
      requires pos < len && Part(j.s, pos, len, before, at, m, addr - j.s.base, bytes[..])
      modifies this`calls, Repr(cmemif), bytes
      ensures Holds(j.s, m) && Thrifty(old(calls), calls, j)
      ensures Part(j.s, pos + j.s.maxSize, len, before, at, m, addr - j.s.base, bytes[..])
      ensures pos == 0 && len <= j.s.maxSize ==> calls == old(calls) + [Call(ReadCall, addr, len)]
    {
      hide *;
      Sizes(j.s, m);
      var maxSize := ChunkMaxSize(cmemif);
      var k := if len - pos < maxSize then len - pos else maxSize;
      ghost var next := PieceReady(j, m, pos, k, before, at, bytes[..]);
      ReadChunk(addr + pos, k, bytes, at + pos, j, m);
      NextIs(j, m, pos, k, at, old(bytes[..]), next, bytes[..]);
    }

    ghost predicate Valid()
      reads Repr(cmemif)
    {
      Working(cmemif) && WellShaped(Outline(cmemif))
    }

    /** Reads len bytes from addr on into bytes[at..]. */
    method Read(addr: u64, len: nat, bytes: array<byte>, at: nat)
      requires Valid() && addr + len <= TWO_64 && Reachable(Outline(cmemif), addr, len) && at + len <= bytes.Length
      modifies this`calls, Repr(cmemif), bytes
      ensures Valid() && Outline(cmemif) == old(Outline(cmemif)) && View(cmemif) == old(View(cmemif))
      ensures Put(old(bytes[..]), at, Slice(View(cmemif), addr - Outline(cmemif).base, len), bytes[..])
      ensures Thrifty(old(calls), calls, JobOf(Outline(cmemif), addr, len))
      ensures InOneChunk(JobOf(Outline(cmemif), addr, len)) ==> calls == old(calls) + [Call(ReadCall, addr, len)]
    {
      ghost var s, m := Outline(cmemif), View(cmemif);
      ghost var j := JobOf(s, addr, len);
      ReadJob(addr, len, bytes, at, j, m);
    }

    method ReadJob(addr: u64, len: nat, bytes: array<byte>, at: nat, ghost j: Job, ghost m: Mem)
      requires Sound(j) && Holds(j.s, m) && j.addr == addr && j.len == len && at + len <= bytes.Length
      modifies this`calls, Repr(cmemif), bytes
      ensures Holds(j.s, m) && Thrifty(old(calls), calls, j)
      ensures Put(old(bytes[..]), at, Slice(m, addr - j.s.base, len), bytes[..])
      ensures InOneChunk(j) ==> calls == old(calls) + [Call(ReadCall, addr, len)]
    {
      hide *;
      SoundSizes(j);
      Sizes(j.s, m);
      ghost var b0, c0, a := bytes[..], calls, addr - j.s.base;
      var head := ReadHead(addr, len, bytes, at, j, m);
      ghost var b1, c1 := bytes[..], calls;
      var tail := ReadTail(addr + head, len - head, bytes, at + head, j, m);
      ghost var b2, c2 := bytes[..], calls;
      ReadMiddle(addr + head, len - head - tail, bytes, at + head, j, m);
      ThriftyBoth(c0, c1, c2, j);
      ThriftyBoth(c0, c2, calls, j);
      ReadParts(j, m, a, b0, at, b1, b2, bytes[..]);
      InOneChunkIs(j);
    }

    // ------------------------------------------------------------------ writing

    /** Reads a whole block, replaces part of it and writes it back. */
    method WritePart(block: u64, align: nat, off: nat, src: seq<byte>, ghost j: Job, ghost m: Mem)
        returns (ghost n: Mem)
      requires Sound(j) && Holds(j.s, m) && j.len > 0 && off + |src| <= align
      requires Helps(j, Call(ReadCall, block, align)) && Helps(j, Call(WriteCall, block, align))
      modifies this`calls, Repr(cmemif)
      ensures Holds(j.s, n) && Thrifty(old(calls), calls, j)
      ensures Put(m, block + off - j.s.base, src, n)
    {
      hide Is, Sound, Thrifty, Helps, Patch, Put;
      ghost var c0 := calls;
      var chunk := new byte[align];
      ghost var junk := chunk[..];
      ReadChunk(block, align, chunk, 0, j, m);
      ghost var c1 := calls;
      CopyBytes(src, chunk, off);
      BlockPatched(m, block - j.s.base, align, off, src, junk);
      n := Patch(m, block - j.s.base, chunk[..]);
      WriteChunk(block, align, chunk[..], j, m);
      ThriftyBoth(c0, c1, calls, j);
    }

    method WriteHead(addr: u64, len: nat, bytes: seq<byte>, ghost j: Job, ghost m: Mem)
        returns (thisLen: nat, ghost n: Mem)
      requires Sound(j) && Holds(j.s, m) && j.addr == addr && j.len == len == |bytes|
      modifies this`calls, Repr(cmemif)
      ensures Holds(j.s, n) && Thrifty(old(calls), calls, j) && thisLen == j.head <= len
      ensures Put(m, addr - j.s.base, bytes[..thisLen], n)
      ensures j.head == 0 ==> calls == old(calls)
    {
      hide *;
      ThriftyNone(calls, j);
      HeadPlan(j, ReadCall);
      HeadPlan(j, WriteCall);
      Sizes(j.s, m);
      SoundSizes(j);
      NothingPut(m, addr - j.s.base);
      var align := ChunkAlign(cmemif);
      var off := And(addr, align - 1);
      thisLen := 0;
      n := m;
      if len != 0 && off != 0 {
        thisLen := if len < align - off then len else align - off;
        n := WritePart(AndNot(addr, align - 1), align, off, bytes[..thisLen], j, m);
      }
    }

    /** addr and bytes are what the head has left. */
    method WriteTail(addr: nat, len: nat, bytes: seq<byte>, ghost j: Job, ghost m: Mem)
        returns (thisLen: nat, ghost n: Mem)
      requires Sound(j) && Holds(j.s, m) && j.addr + j.head == addr && j.len == j.head + len && len == |bytes|
      modifies this`calls, Repr(cmemif)
      ensures Holds(j.s, n) && Thrifty(old(calls), calls, j) && thisLen == j.tail <= len
      ensures Put(m, addr + len - thisLen - j.s.base, bytes[len - thisLen..], n)
      ensures j.tail == 0 ==> calls == old(calls)
    {
      hide *;
      ThriftyNone(calls, j);
      TailPlan(j, ReadCall);
      TailPlan(j, WriteCall);
      Sizes(j.s, m);
      NothingPut(m, addr + len - j.s.base);
      assert bytes[len..] == [];
      var align := ChunkAlign(cmemif);
      thisLen := And(len, align - 1);
      n := m;
      if thisLen != 0 {
        var start := len - thisLen;
        n := WritePart(addr + start, align, 0, bytes[start..], j, m);
      }
    }

    method WriteMiddle(addr: nat, len: nat, bytes: seq<byte>, ghost j: Job, ghost m: Mem)
      requires Sound(j) && Holds(j.s, m) && j.addr + j.head == addr && j.middle == len == |bytes|
      modifies this`calls, Repr(cmemif)
      ensures Holds(j.s, MiddleResult(j.s, m, addr - j.s.base, bytes)) && Thrifty(old(calls), calls, j)
      ensures 0 < len <= j.s.maxSize ==>
        calls == old(calls) + [Call(if AllZero(bytes) then ClearCall else WriteCall, addr, len)]
    {
      hide Is, Sound, Thrifty, Helps, Patch, MiddleResult, Cleared, Overwritten, OnGrid;
      SoundSizes(j);
      Sizes(j.s, m);
      if len > 0 { MiddlePlan(j); }
      MiddleWritten(j.s, m, addr - j.s.base, bytes);
      var allZero := len != 0;
      var i := 0;
      while i < len
        invariant i <= len && (allZero <==> len != 0 && AllZero(bytes[..i]))
      {
        allZero := allZero && bytes[i] == 0;
        i := i + 1;
      }
      assert bytes[..len] == bytes;
      if allZero {
        ClearChunk(addr, len, j, m);
      } else {
        WriteChunks(addr, len, bytes, j, m);
      }
    }

    method WriteChunks(addr: nat, len: nat, bytes: seq<byte>, ghost j: Job, ghost m: Mem)
      requires Sound(j) && Holds(j.s, m) && j.addr + j.head == addr && j.middle == len == |bytes|
      modifies this`calls, Repr(cmemif)
      ensures Holds(j.s, Overwritten(m, addr - j.s.base, bytes)) && Thrifty(old(calls), calls, j)
      ensures 0 < len <= j.s.maxSize ==> calls == old(calls) + [Call(WriteCall, addr, len)]
    {
      hide *;
      ThriftyNone(calls, j);
      SoundSizes(j);
      Sizes(j.s, m);
      var maxChunk := ChunkMaxSize(cmemif);
      var pos: nat := 0;
      ghost var now, a := m, addr - j.s.base;
      PartPutNone(j.s, bytes, m, a);
      while pos < len
        invariant Holds(j.s, now) && Thrifty(old(calls), calls, j)
        invariant PartPut(j.s, pos, bytes, m, a, now)
        invariant pos == 0 ==> calls == old(calls)
        invariant 0 < pos && len <= j.s.maxSize ==> len <= pos && calls == old(calls) + [Call(WriteCall, addr, len)]
        decreases len - pos
      {
        ghost var sofar := calls;
        now := WritePiece(addr, len, bytes, pos, maxChunk, j, m, now);
        ThriftyBoth(old(calls), sofar, calls, j);
        pos := pos + maxChunk;
      }
      PartPutWhole(j.s, pos, bytes, m, a, now);
    }

    method WritePiece(addr: nat, len: nat, bytes: seq<byte>, pos: nat, maxChunk: nat, ghost j: Job,
        ghost m: Mem, ghost now: Mem) returns (ghost next: Mem)
      requires Sound(j) && Holds(j.s, now) && j.addr + j.head == addr && j.middle == len == |bytes|
      requires pos < len && |m| == j.s.size && PartPut(j.s, pos, bytes, m, addr - j.s.base, now)
      requires maxChunk == j.s.maxSize
      modifies this`calls, Repr(cmemif)
      ensures Holds(j.s, next) && Thrifty(old(calls), calls, j)
      ensures PartPut(j.s, pos + j.s.maxSize, bytes, m, addr - j.s.base, next)
      ensures pos == 0 && len <= j.s.maxSize ==> calls == old(calls) + [Call(WriteCall, addr, len)]
    {
      hide *;
      var k := if len - pos < maxChunk then len - pos else maxChunk;
      PartPutOn(j.s, pos, bytes, m, addr - j.s.base, now);
      PiecePlan(j, WriteCall, pos, k);
      WriteChunk(addr + pos, k, bytes[pos..pos + k], j, now);
      next := PieceWritten(j, m, now, bytes, pos, k);
    }

    /** Writes bytes to [addr, addr + len). */
    method Write(addr: u64, len: nat, bytes: seq<byte>)
      requires Valid() && addr + len <= TWO_64 && Reachable(Outline(cmemif), addr, len) && len == |bytes|
      modifies this`calls, Repr(cmemif)
      ensures Valid() && Outline(cmemif) == old(Outline(cmemif))
      ensures View(cmemif) == WriteResult(JobOf(Outline(cmemif), addr, len), old(View(cmemif)), bytes)
      ensures Thrifty(old(calls), calls, JobOf(Outline(cmemif), addr, len))
      ensures InOneChunk(JobOf(Outline(cmemif), addr, len)) ==>
        calls == old(calls) + [Call(if AllZero(bytes) then ClearCall else WriteCall, addr, len)]
    {
      ghost var s, m := Outline(cmemif), View(cmemif);
      ghost var j := JobOf(s, addr, len);
      WriteJob(addr, len, bytes, j, m);
    }

    method WriteJob(addr: u64, len: nat, bytes: seq<byte>, ghost j: Job, ghost m: Mem)
      requires Sound(j) && Holds(j.s, m) && j.addr == addr && j.len == len == |bytes| == j.head + j.middle + j.tail
      modifies this`calls, Repr(cmemif)
      ensures Holds(j.s, WriteResult(j, m, bytes)) && Thrifty(old(calls), calls, j)
      ensures InOneChunk(j) ==> calls == old(calls) + [Call(if AllZero(bytes) then ClearCall else WriteCall, addr, len)]
    {
      hide *;
      SoundSizes(j);
      Sizes(j.s, m);
      ghost var c0 := calls;
      var head, tail;
      ghost var m1, m2;
      head, m1 := WriteHead(addr, len, bytes, j, m);
      ghost var c1 := calls;
      var rest := bytes[head..];
      tail, m2 := WriteTail(addr + head, len - head, rest, j, m1);
      ghost var c2 := calls;
      var middle := rest[..|rest| - tail];
      WriteMiddle(addr + head, len - head - tail, middle, j, m2);
      ThriftyBoth(c0, c1, c2, j);
      ThriftyBoth(c0, c2, calls, j);
      assert rest[|rest| - tail..] == bytes[j.head + j.middle..];
      assert middle == bytes[j.head..j.head + j.middle];
      WriteParts(j, m, bytes, m1, m2);
      InOneChunkIs(j);
      assert InOneChunk(j) ==> middle == bytes;
    }

    lemma SliceSize(addr: nat, len: nat)
      requires Valid() && addr + len <= TWO_64 && Reachable(Outline(cmemif), addr, len) && len > 0
      ensures |Slice(View(cmemif), addr - Outline(cmemif).base, len)| == len
    {
      WholeInRange(JobOf(Outline(cmemif), addr, len));
    }

    method ReadUint(addr: u64, size: nat) returns (r: Result)
      requires Valid() && Width(size)
      requires addr % size == 0 ==> addr + size <= TWO_64 && Reachable(Outline(cmemif), addr, size)
      modifies this`calls, Repr(cmemif)
      ensures Valid() && Outline(cmemif) == old(Outline(cmemif)) && View(cmemif) == old(View(cmemif))
      ensures r.MisalignedAddress? <==> addr % size != 0
      ensures r.Got? ==> r.value == Value(Slice(View(cmemif), addr - Outline(cmemif).base, size))
    {
      hide Working, WellShaped, Reachable, Thrifty, And, View, Outline, Slice, Put, JobOf, Value, Valid;
      WidthMask(addr, size);
      if And(addr, size - 1) != 0 {
        return MisalignedAddress;
      }
      var val := new byte[size];
      ghost var before := val[..];
      SliceSize(addr, size);
      Read(addr, size, val, 0);
      BufferFilled(before, Slice(View(cmemif), addr - Outline(cmemif).base, size), val[..]);
      r := Got(Value(val[..]));
    }

    method WriteUint(addr: u64, size: nat, val: nat) returns (ok: bool)
      requires Valid() && Width(size)
      requires addr % size == 0 ==> addr + size <= TWO_64 && Reachable(Outline(cmemif), addr, size)
      modifies this`calls, Repr(cmemif)
      ensures Valid() && Outline(cmemif) == old(Outline(cmemif))
      ensures ok <==> addr % size == 0
      ensures View(cmemif) == if ok then WriteResult(JobOf(Outline(cmemif), addr, size), old(View(cmemif)),
        Bytes(val, size)) else old(View(cmemif))
    {
      WidthMask(addr, size);
      hide Working, WellShaped, Reachable, Thrifty, And, WriteResult;
      ok := And(addr, size - 1) == 0;
      if ok {
        Write(addr, size, Bytes(val, size));
      }
    }
  }
}
