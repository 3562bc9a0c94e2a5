/** From ELF segments to a hex dump: the PT_LOAD loop over any memory, and what the dump
    of the hex writer then says. */
module Elf2Hex {
  import opened Words
  import opened Memory
  import opened ChunkedMem
  import opened MemIf
  import HexWriter

  const PT_LOAD: nat := 1

  /** The fields of a program header that the loader looks at. */
  datatype Phdr = Phdr(kind: nat, offset: nat, paddr: nat, filesz: nat, memsz: nat)

  predicate Loadable(p: Phdr) { p.kind == 1 && p.memsz > 0 }

  /** The file bytes are in the file, and no more of them than memory to put them in. */
  predicate WellFormed(p: Phdr, buf: seq<byte>) {
    p.filesz <= p.memsz && p.offset + p.filesz <= |buf| && p.paddr + p.memsz <= TWO_64
  }

  /** Addresses are summed in the width of the ELF class. */
  function Limit(elf32: bool): nat { if elf32 then TWO_32 else TWO_64 }

  /** Where the zero fill goes: the sum wraps round at the limit. */
  function FillAddr(p: Phdr, elf32: bool): nat { (p.paddr + p.filesz) % Limit(elf32) }

  /** The file bytes and the zero fill lie where the transport reaches. */
  predicate Placed(p: Phdr, s: Shape, elf32: bool) {
    && p.filesz <= p.memsz
    && Reachable(s, p.paddr, p.filesz)
    && Reachable(s, FillAddr(p, elf32), p.memsz - p.filesz)
  }

  predicate Loads(ph: seq<Phdr>, s: Shape, buf: seq<byte>, elf32: bool) {
    forall i :: 0 <= i < |ph| && Loadable(ph[i]) ==> WellFormed(ph[i], buf) && Placed(ph[i], s, elf32)
  }

  /** There is nothing to fill, or it starts below the limit. */
  predicate Unwrapped(p: Phdr, elf32: bool) {
    p.memsz == p.filesz || p.paddr + p.filesz < Limit(elf32)
  }

  predicate AllUnwrapped(ph: seq<Phdr>, elf32: bool) {
    forall i :: 0 <= i < |ph| && Loadable(ph[i]) ==> Unwrapped(ph[i], elf32)
  }

  /** That is exactly when the zero fill goes right behind the file bytes, for fields of
      the width of the class. */
  lemma FillInPlace(p: Phdr, elf32: bool)
    requires p.paddr < Limit(elf32) && p.filesz < Limit(elf32) && p.filesz < p.memsz
    ensures FillAddr(p, elf32) == p.paddr + p.filesz <==> Unwrapped(p, elf32)
    ensures !Unwrapped(p, elf32) ==> FillAddr(p, elf32) < p.paddr
  {
    var l := Limit(elf32);
    if p.paddr + p.filesz < l {
      ModuloUnique(p.paddr + p.filesz, l, 0, p.paddr + p.filesz);
    } else {
      ModuloUnique(p.paddr + p.filesz, l, 1, p.paddr + p.filesz - l);
    }
  }

  /** With 64-bit fields it is always so. */
  lemma NeverWraps64(p: Phdr, buf: seq<byte>)
    requires WellFormed(p, buf)
    ensures Unwrapped(p, false)
  {
  }

  /** A 32-bit segment that crosses 4 GiB: it lies in the window, but its zero fill is
      sent to address 0. */
  lemma CrossingFillMisplaced()
    ensures var p := Phdr(PT_LOAD, 0, 0xffff_f000, 0x1000, 0x1800);
      && Loadable(p) && !Unwrapped(p, true) && FillAddr(p, true) == 0
      && forall base, size ::
        0 < base <= p.paddr && p.paddr + p.memsz <= base + size ==> !FillInWindow(p, true, base, size)
  {
    ModuloUnique(0xffff_f000 + 0x1000, TWO_32, 1, 0);
  }

  /** What the assertions of the hex writer ask of the two writes of a segment. */
  predicate FillInWindow(p: Phdr, elf32: bool, base: nat, size: nat) {
    p.filesz < p.memsz ==>
      base <= FillAddr(p, elf32) && FillAddr(p, elf32) + p.memsz - p.filesz <= base + size
  }

  predicate FileInWindow(p: Phdr, base: nat, size: nat) {
    p.filesz > 0 ==> base <= p.paddr && p.paddr + p.filesz <= base + size
  }

  // ----------------------------------------------------------- what loading does

  function FileBytes(p: Phdr, buf: seq<byte>): (bs: seq<byte>)
    requires WellFormed(p, buf)
    ensures |bs| == p.filesz
  {
    buf[p.offset..p.offset + p.filesz]
  }

  function WriteAt(s: Shape, m: Mem, addr: nat, bytes: seq<byte>): (r: Mem)
    requires s.align > 0
    ensures |r| == |m|
  {
    WriteResult(JobOf(s, addr, |bytes|), m, bytes)
  }

  function LoadedSegment(s: Shape, m: Mem, p: Phdr, buf: seq<byte>, elf32: bool): (r: Mem)
    requires s.align > 0 && (Loadable(p) ==> WellFormed(p, buf))
    ensures |r| == |m|
  {
    if !Loadable(p) then m
    else WriteAt(s, WriteAt(s, m, p.paddr, FileBytes(p, buf)), FillAddr(p, elf32), Zeros(p.memsz - p.filesz))
  }

  function Loaded(s: Shape, m: Mem, ph: seq<Phdr>, buf: seq<byte>, elf32: bool): (r: Mem)
    requires s.align > 0 && Loads(ph, s, buf, elf32)
    ensures |r| == |m|
  {
    if ph == [] then m
    else LoadedSegment(s, Loaded(s, m, ph[..|ph| - 1], buf, elf32), ph[|ph| - 1], buf, elf32)
  }

  // -------------------------------------------------------------- the ELF image

  predicate Covers(p: Phdr, a: int) { Loadable(p) && p.paddr <= a < p.paddr + p.memsz }

  function FileByte(p: Phdr, buf: seq<byte>, a: int): byte {
    if p.paddr <= a && p.offset + (a - p.paddr) < |buf| then buf[p.offset + (a - p.paddr)] else 0
  }

  /** The byte a program finds at a: from the file, or zero fill, or nothing loaded. */
  function ImageByte(ph: seq<Phdr>, buf: seq<byte>, a: int): byte {
    if ph == [] then 0
    else
      var p := ph[|ph| - 1];
      if Covers(p, a) then
        if a < p.paddr + p.filesz then FileByte(p, buf, a) else 0
      else ImageByte(ph[..|ph| - 1], buf, a)
  }

  predicate IsImage(m: Mem, base: nat, ph: seq<Phdr>, buf: seq<byte>) {
    forall i :: 0 <= i < |m| ==> m[i] == ImageByte(ph, buf, base + i)
  }

  predicate Disjoint(p: Phdr, q: Phdr) {
    !Loadable(p) || !Loadable(q) || p.paddr + p.memsz <= q.paddr || q.paddr + q.memsz <= p.paddr
  }

  predicate PairwiseDisjoint(ph: seq<Phdr>) {
    forall i, j :: 0 <= i < j < |ph| ==> Disjoint(ph[i], ph[j])
  }

  lemma {:induction false} OutsideIsZero(ph: seq<Phdr>, buf: seq<byte>, a: int)
    requires forall i :: 0 <= i < |ph| ==> !Covers(ph[i], a)
    ensures ImageByte(ph, buf, a) == 0
  {
    if ph != [] { OutsideIsZero(ph[..|ph| - 1], buf, a); }
  }

  /** Over memory that is zero, or on a transport that clears, a write is an update. */
  lemma WriteAtUpdates(s: Shape, m: Mem, addr: nat, bytes: seq<byte>)
    requires WellShaped(s) && |m| == s.size && Within(s, addr, |bytes|)
    requires s.clears || AllZero(Slice(m, addr - s.base, |bytes|))
    ensures bytes != [] ==> 0 <= addr - s.base && addr - s.base + |bytes| <= |m|
    ensures WriteAt(s, m, addr, bytes) == Overwritten(m, addr - s.base, bytes)
  {
    hide *;
    JobSound(s, addr, |bytes|);
    var j := JobOf(s, addr, |bytes|);
    SoundSizes(j);
    WriteExact(j, m, bytes);
    if bytes != [] {
      WholeInRange(j);
      MiddleOfZeros(m, addr - s.base, j.head, j.middle, |bytes|);
    }
    WriteAtIs(s, m, addr, bytes);
  }

  predicate Within(s: Shape, addr: nat, len: nat) {
    Reachable(s, addr, len) && addr + len <= 0x1_0000_0000_0000_0000
  }

  lemma JobSound(s: Shape, addr: nat, len: nat)
    requires WellShaped(s) && Within(s, addr, len)
    ensures s.align > 0
    ensures var j := JobOf(s, addr, len); Sound(j) && j.s == s && j.addr == addr && j.len == len
  {
  }

  lemma WriteAtIs(s: Shape, m: Mem, addr: nat, bytes: seq<byte>)
    requires s.align > 0
    ensures JobOf(s, addr, |bytes|).head + JobOf(s, addr, |bytes|).middle + JobOf(s, addr, |bytes|).tail == |bytes|
    ensures WriteAt(s, m, addr, bytes) == WriteResult(JobOf(s, addr, |bytes|), m, bytes)
  {
  }

  lemma MiddleOfZeros(m: Mem, a: int, h: nat, n: nat, len: nat)
    requires InRange(m, a, len) && h + n <= len
    ensures AllZero(Slice(m, a, len)) ==> AllZero(Slice(m, a + h, n))
  {
    if AllZero(Slice(m, a, len)) {
      var inner := Slice(m, a + h, n);
      forall i | 0 <= i < |inner| ensures inner[i] == 0 {
        assert Slice(m, a, len)[h + i] == 0;
      }
    }
  }

  /** Nothing but zeros where p is to go, unless zeros can be written there. */
  predicate Clear(s: Shape, m: Mem, p: Phdr) {
    s.clears || forall i :: 0 <= i < |m| && Covers(p, s.base + i) ==> m[i] == 0
  }

  lemma ClearSlice(s: Shape, m: Mem, p: Phdr, addr: nat, n: nat)
    requires Clear(s, m, p) && p.kind == PT_LOAD && p.paddr <= addr && addr + n <= p.paddr + p.memsz
    ensures s.clears || AllZero(Slice(m, addr - s.base, n))
  {
    var a := addr - s.base;
    if !s.clears && InRange(m, a, n) {
      var part := Slice(m, a, n);
      forall i | 0 <= i < |part| ensures part[i] == 0 {
        assert Covers(p, s.base + (a + i)) && m[a + i] == 0;
      }
    }
  }

  /** One segment, loaded: its file bytes, then zeros, and the rest as before. */
  lemma SegmentBytes(s: Shape, m: Mem, p: Phdr, buf: seq<byte>, elf32: bool, i: nat)
    requires WellShaped(s) && s.align > 0 && |m| == s.size && Loadable(p) && WellFormed(p, buf)
    requires Placed(p, s, elf32) && Unwrapped(p, elf32) && Clear(s, m, p) && i < |m|
    ensures LoadedSegment(s, m, p, buf, elf32)[i] ==
      if !Covers(p, s.base + i) then m[i]
      else if s.base + i < p.paddr + p.filesz then buf[p.offset + (s.base + i - p.paddr)]
      else 0
  {
    hide *;
    var m1 := WriteAt(s, m, p.paddr, FileBytes(p, buf));
    FirstBytes(s, m, p, buf, elf32, m1, i);
    SecondBytes(s, m1, p, elf32, i);
    SegmentIs(s, m, p, buf, elf32, i, m1);
  }

  lemma SegmentIs(s: Shape, m: Mem, p: Phdr, buf: seq<byte>, elf32: bool, i: nat, m1: Mem)
    requires s.align > 0 && Loadable(p) && WellFormed(p, buf) && i < |m| == |m1|
    requires m1 == WriteAt(s, m, p.paddr, FileBytes(p, buf))
    requires m1[i] == if p.paddr <= s.base + i < p.paddr + p.filesz then buf[p.offset + (s.base + i - p.paddr)]
      else m[i]
    requires WriteAt(s, m1, FillAddr(p, elf32), Zeros(p.memsz - p.filesz))[i] ==
      if p.paddr + p.filesz <= s.base + i < p.paddr + p.memsz then 0 else m1[i]
    ensures LoadedSegment(s, m, p, buf, elf32)[i] ==
      if !Covers(p, s.base + i) then m[i]
      else if s.base + i < p.paddr + p.filesz then buf[p.offset + (s.base + i - p.paddr)]
      else 0
  {
    hide WriteAt, FillAddr;
  }

  lemma FirstBytes(s: Shape, m: Mem, p: Phdr, buf: seq<byte>, elf32: bool, m1: Mem, i: nat)
    requires WellShaped(s) && |m| == s.size && Loadable(p) && WellFormed(p, buf) && Placed(p, s, elf32)
    requires Clear(s, m, p)
    requires s.align > 0 && m1 == WriteAt(s, m, p.paddr, FileBytes(p, buf)) && i < |m| == |m1|
    ensures Clear(s, m1, Rest(p)) && p.filesz <= p.memsz && p.paddr + p.memsz <= TWO_64
    ensures m1[i] == if p.paddr <= s.base + i < p.paddr + p.filesz then buf[p.offset + (s.base + i - p.paddr)] else m[i]
  {
    hide WellShaped, Reachable, WriteAt, Clear, AllZero, Slice, Overwritten, Zeros, FillAddr;
    var file := FileBytes(p, buf);
    ClearSlice(s, m, p, p.paddr, p.filesz);
    WriteAtUpdates(s, m, p.paddr, file);
    OverwrittenAt(m, p.paddr - s.base, file);
    FirstPart(s, m, p, file, m1);
  }

  /** What is left of a segment when its file bytes have been written. */
  function Rest(p: Phdr): Phdr
    requires p.filesz <= p.memsz
  {
    p.(paddr := p.paddr + p.filesz, memsz := p.memsz - p.filesz)
  }

  lemma SecondBytes(s: Shape, m: Mem, p: Phdr, elf32: bool, i: nat)
    requires WellShaped(s) && |m| == s.size && Loadable(p) && Placed(p, s, elf32) && p.paddr + p.memsz <= TWO_64
    requires s.align > 0 && Unwrapped(p, elf32) && Clear(s, m, Rest(p)) && i < |m|
    ensures WriteAt(s, m, FillAddr(p, elf32), Zeros(p.memsz - p.filesz))[i] ==
      if p.paddr + p.filesz <= s.base + i < p.paddr + p.memsz then 0 else m[i]
  {
    hide *;
    FillIs(s, m, p, elf32);
    FillBytes(s, m, p, i);
  }

  lemma FillIs(s: Shape, m: Mem, p: Phdr, elf32: bool)
    requires s.align > 0 && Placed(p, s, elf32) && Unwrapped(p, elf32)
    ensures p.filesz <= p.memsz && Reachable(s, p.paddr + p.filesz, p.memsz - p.filesz)
    ensures WriteAt(s, m, FillAddr(p, elf32), Zeros(p.memsz - p.filesz))
      == WriteAt(s, m, p.paddr + p.filesz, Zeros(p.memsz - p.filesz))
  {
    hide Reachable, WriteAt;
    if p.memsz == p.filesz {
      assert Zeros(0) == [];
      WriteNothing(s, m, FillAddr(p, elf32));
      WriteNothing(s, m, p.paddr + p.filesz);
      NothingReaches(s, p.paddr + p.filesz);
    } else {
      ModuloUnique(p.paddr + p.filesz, Limit(elf32), 0, p.paddr + p.filesz);
    }
  }

  lemma NothingReaches(s: Shape, addr: nat)
    requires s.align > 0
    ensures Reachable(s, addr, 0)
  {
  }

  lemma FillBytes(s: Shape, m: Mem, p: Phdr, i: nat)
    requires WellShaped(s) && |m| == s.size && Loadable(p) && p.filesz <= p.memsz && p.paddr + p.memsz <= TWO_64
    requires s.align > 0 && Reachable(s, p.paddr + p.filesz, p.memsz - p.filesz)
    requires Clear(s, m, Rest(p)) && i < |m|
    ensures WriteAt(s, m, p.paddr + p.filesz, Zeros(p.memsz - p.filesz))[i] ==
      if p.paddr + p.filesz <= s.base + i < p.paddr + p.memsz then 0 else m[i]
  {
    hide WellShaped, Reachable, WriteAt, Clear, AllZero, Slice, Overwritten;
    var zeros := Zeros(p.memsz - p.filesz);
    ClearSlice(s, m, Rest(p), p.paddr + p.filesz, p.memsz - p.filesz);
    WriteAtUpdates(s, m, p.paddr + p.filesz, zeros);
    OverwrittenAt(m, p.paddr + p.filesz - s.base, zeros);
  }

  /** The second part of a segment is still clear when the first has been written. */
  lemma FirstPart(s: Shape, m: Mem, p: Phdr, file: seq<byte>, m1: Mem)
    requires Clear(s, m, p) && Loadable(p) && p.filesz <= p.memsz && |file| == p.filesz && |m1| == |m|
    requires forall i :: 0 <= i < |m| ==>
      m1[i] == if p.paddr - s.base <= i < p.paddr - s.base + p.filesz then file[i - (p.paddr - s.base)] else m[i]
    ensures Clear(s, m1, Rest(p))
  {
    var q := Rest(p);
    if !s.clears {
      forall i | 0 <= i < |m1| && Covers(q, s.base + i) ensures m1[i] == 0 {
        assert Covers(p, s.base + i);
      }
    }
  }

  /** Loading disjoint segments into zeroed memory, or any segments where clearing works,
      gives the image, if no zero fill wraps round. */
  lemma {:induction false} LoadedIsImage(s: Shape, m: Mem, ph: seq<Phdr>, buf: seq<byte>, elf32: bool)
    requires WellShaped(s) && |m| == s.size && AllZero(m) && Loads(ph, s, buf, elf32) && AllUnwrapped(ph, elf32)
    requires s.clears || PairwiseDisjoint(ph)
    ensures IsImage(Loaded(s, m, ph, buf, elf32), s.base, ph, buf)
  {
    if ph != [] {
      var front := ph[..|ph| - 1];
      LoadedIsImage(s, m, front, buf, elf32);
      hide WellShaped, Loaded, LoadedSegment, AllZero;
      OneMore(s, Loaded(s, m, front, buf, elf32), ph, buf, elf32);
    }
  }

  lemma OneMore(s: Shape, m: Mem, ph: seq<Phdr>, buf: seq<byte>, elf32: bool)
    requires WellShaped(s) && |m| == s.size && Loads(ph, s, buf, elf32) && AllUnwrapped(ph, elf32) && ph != []
    requires (s.clears || PairwiseDisjoint(ph)) && IsImage(m, s.base, ph[..|ph| - 1], buf)
    ensures IsImage(LoadedSegment(s, m, ph[|ph| - 1], buf, elf32), s.base, ph, buf)
  {
    var p := ph[|ph| - 1];
    assert s.align > 0;
    hide WellShaped, Placed, PairwiseDisjoint, Clear, LoadedSegment, WellFormed, Unwrapped;
    if Loadable(p) {
      LastIsClear(s, m, ph, buf);
      forall i | 0 <= i < |m| ensures LoadedSegment(s, m, p, buf, elf32)[i] == ImageByte(ph, buf, s.base + i) {
        SegmentBytes(s, m, p, buf, elf32, i);
        LastByte(ph, buf, s.base + i);
      }
    } else {
      NotLoaded(s, m, p, buf, elf32);
    }
  }

  lemma NotLoaded(s: Shape, m: Mem, p: Phdr, buf: seq<byte>, elf32: bool)
    requires s.align > 0 && !Loadable(p)
    ensures LoadedSegment(s, m, p, buf, elf32) == m
  {
  }

  lemma LastByte(ph: seq<Phdr>, buf: seq<byte>, a: int)
    requires ph != [] && WellFormed(ph[|ph| - 1], buf)
    ensures var p := ph[|ph| - 1];
      ImageByte(ph, buf, a) ==
        if !Covers(p, a) then ImageByte(ph[..|ph| - 1], buf, a)
        else if a < p.paddr + p.filesz then buf[p.offset + (a - p.paddr)]
        else 0
  {
  }

  /** The earlier segments have left nothing where the last one goes. */
  lemma LastIsClear(s: Shape, m: Mem, ph: seq<Phdr>, buf: seq<byte>)
    requires ph != [] && IsImage(m, s.base, ph[..|ph| - 1], buf) && (s.clears || PairwiseDisjoint(ph))
    ensures Clear(s, m, ph[|ph| - 1])
  {
    hide PairwiseDisjoint;
    forall i | 0 <= i < |m| && Covers(ph[|ph| - 1], s.base + i) ensures s.clears || m[i] == 0 {
      if !s.clears { ElsewhereIsZero(ph, buf, s.base + i); }
    }
  }

  lemma ElsewhereIsZero(ph: seq<Phdr>, buf: seq<byte>, a: int)
    requires |ph| > 0 && PairwiseDisjoint(ph) && Covers(ph[|ph| - 1], a)
    ensures ImageByte(ph[..|ph| - 1], buf, a) == 0
  {
    var n := |ph| - 1;
    forall i | 0 <= i < n ensures !Covers(ph[..n][i], a) {
      assert Disjoint(ph[i], ph[n]);
    }
    OutsideIsZero(ph[..n], buf, a);
  }

  // -------------------------------------------------- when exactly it is the image

  predicate InFile(p: Phdr, a: int) { Loadable(p) && p.paddr <= a < p.paddr + p.filesz }

  /** Where a write of zeros puts zeros: a transport that does not clear leaves out the
      blocks in the middle. */
  predicate Zeroed(j: Job, a: int) {
    j.addr <= a < j.addr + j.len && (j.s.clears || a < j.addr + j.head || j.addr + j.head + j.middle <= a)
  }

  predicate Erases(s: Shape, p: Phdr, elf32: bool, a: int)
    requires s.align > 0
  {
    Loadable(p) && p.filesz <= p.memsz && Zeroed(JobOf(s, FillAddr(p, elf32), p.memsz - p.filesz), a)
  }

  /** No fill, its own segment's or a later one's, puts zeros over file bytes other than zero. */
  ghost predicate NothingErased(s: Shape, ph: seq<Phdr>, buf: seq<byte>, elf32: bool)
    requires s.align > 0
  {
    forall j, k, a :: 0 <= j <= k < |ph| && InFile(ph[j], a) && Erases(s, ph[k], elf32, a) ==>
      FileByte(ph[j], buf, a) == 0
  }

  lemma ZeroResult(j: Job, m: Mem, zeros: seq<byte>, i: nat)
    requires Sound(j) && |m| == j.s.size && |zeros| == j.len == j.head + j.middle + j.tail && AllZero(zeros) && i < |m|
    ensures WriteResult(j, m, zeros)[i] == if Zeroed(j, j.s.base + i) then 0 else m[i]
  {
    hide Sound, WriteResult, Overwritten;
    var a := j.addr - j.s.base;
    ResultUnfolds(j, m, zeros);
    if j.len > 0 { WholeInRange(j); }
    OverwrittenAt(m, a, zeros);
    if j.len > 0 { TwoEnds(m, a, zeros, j.head, j.middle,
      Overwritten(Overwritten(m, a, zeros[..j.head]), a + j.head + j.middle, zeros[j.head + j.middle..])); }
  }

  lemma ZerosWritten(s: Shape, m: Mem, addr: nat, n: nat, i: nat)
    requires WellShaped(s) && s.align > 0 && |m| == s.size && Within(s, addr, n) && i < |m|
    ensures WriteAt(s, m, addr, Zeros(n))[i] == if Zeroed(JobOf(s, addr, n), s.base + i) then 0 else m[i]
  {
    hide *;
    JobSound(s, addr, n);
    SoundSizes(JobOf(s, addr, n));
    WriteAtIs(s, m, addr, Zeros(n));
    ZerosAre(n);
    ZeroResult(JobOf(s, addr, n), m, Zeros(n), i);
  }

  lemma ZerosAre(n: nat)
    ensures |Zeros(n)| == n && AllZero(Zeros(n))
  {
  }

  /** The byte that the writes leave at a, the last one first. */
  function LeftByte(s: Shape, ph: seq<Phdr>, buf: seq<byte>, elf32: bool, a: int): byte
    requires s.align > 0
  {
    if ph == [] then 0
    else
      var p := ph[|ph| - 1];
      if Erases(s, p, elf32, a) then 0
      else if InFile(p, a) then FileByte(p, buf, a)
      else LeftByte(s, ph[..|ph| - 1], buf, elf32, a)
  }

  lemma SegmentLeaves(s: Shape, m: Mem, p: Phdr, buf: seq<byte>, elf32: bool, i: nat)
    requires WellShaped(s) && s.align > 0 && |m| == s.size && Loadable(p) && WellFormed(p, buf)
    requires Placed(p, s, elf32) && Clear(s, m, p) && i < |m|
    ensures LoadedSegment(s, m, p, buf, elf32)[i] ==
      if Erases(s, p, elf32, s.base + i) then 0
      else if InFile(p, s.base + i) then FileByte(p, buf, s.base + i)
      else m[i]
  {
    hide WellShaped, Reachable, WriteAt, Clear, FillAddr, JobOf, Zeros, Zeroed;
    var m1 := WriteAt(s, m, p.paddr, FileBytes(p, buf));
    FirstBytes(s, m, p, buf, elf32, m1, i);
    FillBelow(p, elf32);
    ZerosWritten(s, m1, FillAddr(p, elf32), p.memsz - p.filesz, i);
  }

  lemma {:induction false} LeftOutside(s: Shape, ph: seq<Phdr>, buf: seq<byte>, elf32: bool, a: int)
    requires s.align > 0 && forall j :: 0 <= j < |ph| ==> !InFile(ph[j], a)
    ensures LeftByte(s, ph, buf, elf32, a) == 0
  {
    hide Erases, InFile;
    if ph != [] { LeftOutside(s, ph[..|ph| - 1], buf, elf32, a); }
  }

  lemma {:induction false} ImageOutside(ph: seq<Phdr>, buf: seq<byte>, a: int)
    requires forall j :: 0 <= j < |ph| ==> !InFile(ph[j], a)
    ensures ImageByte(ph, buf, a) == 0
  {
    if ph != [] { ImageOutside(ph[..|ph| - 1], buf, a); }
  }

  /** Where the last segment goes, the earlier ones have no file bytes. */
  lemma LeftClear(s: Shape, m: Mem, ph: seq<Phdr>, buf: seq<byte>, elf32: bool)
    requires s.align > 0 && ph != [] && Loads(ph, s, buf, elf32) && (s.clears || PairwiseDisjoint(ph))
    requires forall i :: 0 <= i < |m| ==> m[i] == LeftByte(s, ph[..|ph| - 1], buf, elf32, s.base + i)
    ensures Clear(s, m, ph[|ph| - 1])
  {
    hide Placed, LeftByte;
    var n := |ph| - 1;
    forall i | 0 <= i < |m| && Covers(ph[n], s.base + i) ensures s.clears || m[i] == 0 {
      if !s.clears {
        forall j | 0 <= j < n ensures !InFile(ph[..n][j], s.base + i) {
          assert Disjoint(ph[j], ph[n]);
        }
        LeftOutside(s, ph[..n], buf, elf32, s.base + i);
      }
    }
  }

  /** Wrapped or not, loading leaves what the writes leave. */
  lemma {:induction false} LoadedLeaves(s: Shape, m: Mem, ph: seq<Phdr>, buf: seq<byte>, elf32: bool)
    requires WellShaped(s) && s.align > 0 && |m| == s.size && AllZero(m) && Loads(ph, s, buf, elf32)
    requires s.clears || PairwiseDisjoint(ph)
    ensures forall i :: 0 <= i < |m| ==> Loaded(s, m, ph, buf, elf32)[i] == LeftByte(s, ph, buf, elf32, s.base + i)
  {
    if ph != [] {
      var front, p := ph[..|ph| - 1], ph[|ph| - 1];
      LoadedLeaves(s, m, front, buf, elf32);
      hide WellShaped, Placed, PairwiseDisjoint, Clear, LoadedSegment, WellFormed, Erases, InFile;
      var m1 := Loaded(s, m, front, buf, elf32);
      LeftClear(s, m1, ph, buf, elf32);
      forall i | 0 <= i < |m|
        ensures LoadedSegment(s, m1, p, buf, elf32)[i] == LeftByte(s, ph, buf, elf32, s.base + i)
      {
        if Loadable(p) {
          SegmentLeaves(s, m1, p, buf, elf32, i);
        } else {
          NotLoaded(s, m1, p, buf, elf32);
          ErasesNothing(s, p, elf32, s.base + i);
        }
      }
    }
  }

  lemma ErasesNothing(s: Shape, p: Phdr, elf32: bool, a: int)
    requires s.align > 0 && !Loadable(p)
    ensures !Erases(s, p, elf32, a) && !InFile(p, a)
  {
  }

  /** Where a file byte of disjoint segments is to go: it stays, unless a fill comes after it. */
  lemma {:induction false} LeftInside(s: Shape, ph: seq<Phdr>, buf: seq<byte>, elf32: bool, j: nat, a: int)
    requires s.align > 0 && PairwiseDisjoint(ph) && j < |ph| && InFile(ph[j], a)
    requires forall i :: 0 <= i < |ph| && Loadable(ph[i]) ==> ph[i].filesz <= ph[i].memsz
    ensures ImageByte(ph, buf, a) == FileByte(ph[j], buf, a)
    ensures LeftByte(s, ph, buf, elf32, a) ==
      if ErasedFrom(s, ph, elf32, j, a) then 0 else FileByte(ph[j], buf, a)
  {
    hide Erases, FileByte, ErasedFrom;
    var n := |ph| - 1;
    ErasedLast(s, ph, elf32, j, a);
    if j < n {
      assert Disjoint(ph[j], ph[n]);
      LeftInside(s, ph[..n], buf, elf32, j, a);
    }
  }

  ghost predicate ErasedFrom(s: Shape, ph: seq<Phdr>, elf32: bool, j: nat, a: int)
    requires s.align > 0
  {
    exists k :: j <= k < |ph| && Erases(s, ph[k], elf32, a)
  }

  lemma ErasedLast(s: Shape, ph: seq<Phdr>, elf32: bool, j: nat, a: int)
    requires s.align > 0 && j < |ph|
    ensures ErasedFrom(s, ph, elf32, j, a) <==>
      Erases(s, ph[|ph| - 1], elf32, a) || ErasedFrom(s, ph[..|ph| - 1], elf32, j, a)
    ensures j == |ph| - 1 ==> !ErasedFrom(s, ph[..|ph| - 1], elf32, j, a)
  {
    hide Erases;
    var front := ph[..|ph| - 1];
    if k :| j <= k < |front| && Erases(s, front[k], elf32, a) { assert Erases(s, ph[k], elf32, a); }
    if k :| j <= k < |front| && Erases(s, ph[k], elf32, a) { assert Erases(s, front[k], elf32, a); }
  }

  lemma FileReaches(s: Shape, p: Phdr, elf32: bool, a: int)
    requires s.align > 0 && Placed(p, s, elf32) && InFile(p, a)
    ensures s.base <= a < s.base + s.size
  {
  }

  /** For disjoint segments, wrapped or not, on any transport. */
  lemma ImageExactly(s: Shape, m: Mem, ph: seq<Phdr>, buf: seq<byte>, elf32: bool)
    requires WellShaped(s) && s.align > 0 && |m| == s.size && AllZero(m) && Loads(ph, s, buf, elf32)
    requires PairwiseDisjoint(ph)
    ensures IsImage(Loaded(s, m, ph, buf, elf32), s.base, ph, buf) <==> NothingErased(s, ph, buf, elf32)
  {
    hide WellShaped, Placed, PairwiseDisjoint, Erases, InFile, FileByte, Loaded, LeftByte, ImageByte;
    var r := Loaded(s, m, ph, buf, elf32);
    LoadedLeaves(s, m, ph, buf, elf32);
    if IsImage(r, s.base, ph, buf) {
      forall j, k, a | 0 <= j <= k < |ph| && InFile(ph[j], a) && Erases(s, ph[k], elf32, a)
        ensures FileByte(ph[j], buf, a) == 0
      {
        InFileLoads(ph[j], a);
        FileReaches(s, ph[j], elf32, a);
        LeftInside(s, ph, buf, elf32, j, a);
        assert r[a - s.base] == ImageByte(ph, buf, s.base + (a - s.base));
      }
    }
    if NothingErased(s, ph, buf, elf32) {
      forall i | 0 <= i < |r| ensures r[i] == ImageByte(ph, buf, s.base + i) {
        var a := s.base + i;
        if j :| 0 <= j < |ph| && InFile(ph[j], a) {
          LeftInside(s, ph, buf, elf32, j, a);
        } else {
          LeftOutside(s, ph, buf, elf32, a);
          ImageOutside(ph, buf, a);
        }
      }
    }
  }

  lemma InFileLoads(p: Phdr, a: int)
    requires InFile(p, a)
    ensures Loadable(p)
  {
  }

  /** Fills that go right behind their own file bytes do no harm. */
  lemma UnwrappedErasesNothing(s: Shape, ph: seq<Phdr>, buf: seq<byte>, elf32: bool)
    requires s.align > 0 && PairwiseDisjoint(ph) && AllUnwrapped(ph, elf32)
    requires forall i :: 0 <= i < |ph| && Loadable(ph[i]) ==> ph[i].filesz <= ph[i].memsz
    ensures NothingErased(s, ph, buf, elf32)
  {
    hide PairwiseDisjoint, Erases;
    forall j, k, a | 0 <= j <= k < |ph| && InFile(ph[j], a) ensures !Erases(s, ph[k], elf32, a) {
      if j < k { DisjointAt(ph, j, k); }
      FillOfOwn(s, ph[k], elf32, a);
    }
  }

  lemma DisjointAt(ph: seq<Phdr>, j: nat, k: nat)
    requires PairwiseDisjoint(ph) && j < k < |ph|
    ensures Disjoint(ph[j], ph[k])
  {
  }

  lemma FillOfOwn(s: Shape, p: Phdr, elf32: bool, a: int)
    requires s.align > 0 && (Loadable(p) ==> Unwrapped(p, elf32))
    ensures Erases(s, p, elf32, a) ==> Loadable(p) && p.paddr + p.filesz <= a < p.paddr + p.memsz
  {
    if p.paddr + p.filesz < Limit(elf32) {
      ModuloUnique(p.paddr + p.filesz, Limit(elf32), 0, p.paddr + p.filesz);
    }
  }

  // ------------------------------------------------------------------ the loader

  /** vector::resize on a vector of zeros. */
  function Resized(zeros: seq<byte>, n: nat): (r: seq<byte>)
    ensures |r| == n
  {
    if n <= |zeros| then zeros[..n] else zeros + Zeros(n - |zeros|)
  }

  lemma ResizedZeros(zeros: seq<byte>, n: nat)
    requires AllZero(zeros)
    ensures Resized(zeros, n) == Zeros(n)
  {
  }

  lemma WriteNothing(s: Shape, m: Mem, addr: nat)
    requires s.align > 0
    ensures WriteAt(s, m, addr, []) == m
  {
  }

  /** One header, as the loop treats it. */
  method LoadSegment(memif: MemIf, buf: seq<byte>, p: Phdr, elf32: bool, zeros: seq<byte>) returns (more: seq<byte>)
    requires memif.Valid() && AllZero(zeros) && Outline(memif.cmemif).align > 0
    requires Loadable(p) ==> WellFormed(p, buf) && Placed(p, Outline(memif.cmemif), elf32)
    modifies memif`calls, Repr(memif.cmemif)
    ensures memif.Valid() && Outline(memif.cmemif) == old(Outline(memif.cmemif)) && AllZero(more)
    ensures View(memif.cmemif) == LoadedSegment(Outline(memif.cmemif), old(View(memif.cmemif)), p, buf, elf32)
  {
    hide Working, View, Outline, WellShaped, Reachable, WriteResult, JobOf, Resized, Thrifty, FillAddr;
    ghost var s := Outline(memif.cmemif);
    more := zeros;
    if p.kind == PT_LOAD && p.memsz != 0 {
      if p.filesz != 0 {
        memif.Write(p.paddr, p.filesz, buf[p.offset..p.offset + p.filesz]);
      } else {
        WriteNothing(s, View(memif.cmemif), p.paddr);
        assert FileBytes(p, buf) == [];
      }
      assert View(memif.cmemif) == WriteAt(s, old(View(memif.cmemif)), p.paddr, FileBytes(p, buf));
      ResizedZeros(zeros, p.memsz - p.filesz);
      more := Resized(zeros, p.memsz - p.filesz);
      WriteFill(memif, p, elf32, more);
    }
  }

  method WriteFill(memif: MemIf, p: Phdr, elf32: bool, zeros: seq<byte>)
    requires memif.Valid() && Outline(memif.cmemif).align > 0
    requires p.filesz <= p.memsz && p.paddr + p.memsz <= TWO_64 && Placed(p, Outline(memif.cmemif), elf32)
    requires zeros == Zeros(p.memsz - p.filesz)
    modifies memif`calls, Repr(memif.cmemif)
    ensures memif.Valid() && Outline(memif.cmemif) == old(Outline(memif.cmemif))
    ensures View(memif.cmemif) == WriteAt(Outline(memif.cmemif), old(View(memif.cmemif)), FillAddr(p, elf32), zeros)
  {
    hide Working, View, Outline, WellShaped, WriteResult, JobOf, Thrifty, Reachable;
    FillBelow(p, elf32);
    memif.Write((p.paddr + p.filesz) % Limit(elf32), p.memsz - p.filesz, zeros);
  }

  lemma FillBelow(p: Phdr, elf32: bool)
    ensures FillAddr(p, elf32) < Limit(elf32) <= TWO_64 && FillAddr(p, elf32) <= p.paddr + p.filesz
  {
    var x, l := p.paddr + p.filesz, Limit(elf32);
    if x < l { ModuloUnique(x, l, 0, x); }
  }

  method LoadElf(memif: MemIf, buf: seq<byte>, ph: seq<Phdr>, elf32: bool)
    requires memif.Valid() && Outline(memif.cmemif).align > 0 && Loads(ph, Outline(memif.cmemif), buf, elf32)
    modifies memif`calls, Repr(memif.cmemif)
    ensures memif.Valid() && Outline(memif.cmemif) == old(Outline(memif.cmemif))
    ensures View(memif.cmemif) == Loaded(Outline(memif.cmemif), old(View(memif.cmemif)), ph, buf, elf32)
  {
    hide Working, View, Outline, WellShaped, LoadedSegment, Placed, WellFormed;
    var zeros: seq<byte> := [];
    var i := 0;
    while i < |ph|
      invariant i <= |ph| && AllZero(zeros)
      invariant memif.Valid() && Outline(memif.cmemif) == old(Outline(memif.cmemif))
      invariant View(memif.cmemif) == Loaded(Outline(memif.cmemif), old(View(memif.cmemif)), ph[..i], buf, elf32)
    {
      assert ph[..i + 1][..i] == ph[..i];
      zeros := LoadSegment(memif, buf, ph[i], elf32, zeros);
      i := i + 1;
    }
    assert ph[..|ph|] == ph;
  }

  // ------------------------------------------------------------------- the program

  /** The test for powers of two is right. */
  lemma {:induction false} PowerTest(w: nat)
    requires w > 0
    ensures And(w, w - 1) == 0 <==> PowerOfTwo(w)
  {
    if w == 1 {
      assert w == Pow2(0);
    } else if w % 2 == 0 {
      PowerTest(w / 2);
      assert (w - 1) / 2 == w / 2 - 1;
      assert And(w, w - 1) == 2 * And(w / 2, w / 2 - 1);
      DoublePower(w / 2);
    } else {
      AndSelf(w / 2);
      assert And(w, w - 1) == 2 * And(w / 2, w / 2);
      OddPower(w);
    }
  }

  lemma {:induction false} AndSelf(a: nat)
    ensures And(a, a) == a
  {
    if a > 0 { AndSelf(a / 2); }
  }

  lemma DoublePower(h: nat)
    requires h > 0
    ensures PowerOfTwo(2 * h) <==> PowerOfTwo(h)
  {
    if PowerOfTwo(h) {
      var k: nat :| h == Pow2(k);
      assert 2 * h == Pow2(k + 1);
    }
    if PowerOfTwo(2 * h) {
      var k: nat :| 2 * h == Pow2(k);
      assert k > 0;
      assert h == Pow2(k - 1);
    }
  }

  lemma OddPower(w: nat)
    requires w > 1 && w % 2 == 1
    ensures !PowerOfTwo(w)
  {
    forall k: nat ensures w != Pow2(k) {
      if k > 0 { assert Pow2(k) % 2 == 0; }
    }
  }

  datatype Outcome = Dump(text: string) | WidthError | BaseError | DepthError

  /** What is written of the segments lies in the window that is dumped. */
  predicate InWindow(ph: seq<Phdr>, buf: seq<byte>, elf32: bool, base: nat, size: nat) {
    forall i :: 0 <= i < |ph| && Loadable(ph[i]) ==>
      WellFormed(ph[i], buf) && FileInWindow(ph[i], base, size) && FillInWindow(ph[i], elf32, base, size)
  }

  /** The hex writer's window, in lines of the given width. */
  function WriterOutline(base: nat, width: nat, depth: nat): Shape {
    Shape(base, width * depth, 0, 0, width, width, false)
  }

  lemma WindowReachable(s: Shape, addr: nat, len: nat)
    requires WellShaped(s) && s.holeLow == s.holeHigh == 0
    requires s.base <= addr && addr + len <= s.base + s.size
    ensures Reachable(s, addr, len)
  {
    if len > 0 {
      var m, last := s.align, addr + len - 1;
      Floor(addr, m);
      Floor(last, m);
      BlockOfOwn(s);
      SumAligned(s.base, s.size, m);
      SumAligned(last - last % m, m, m);
      if addr - addr % m < s.base { GridGap(addr - addr % m, s.base, m); }
      if s.base + s.size < last - last % m + m { GridGap(s.base + s.size, last - last % m + m, m); }
    }
  }

  lemma WindowLoads(s: Shape, ph: seq<Phdr>, buf: seq<byte>, elf32: bool)
    requires WellShaped(s) && s.holeLow == s.holeHigh == 0 && InWindow(ph, buf, elf32, s.base, s.size)
    ensures Loads(ph, s, buf, elf32)
  {
    forall i | 0 <= i < |ph| && Loadable(ph[i]) ensures WellFormed(ph[i], buf) && Placed(ph[i], s, elf32) {
      var p := ph[i];
      assert s.align > 0;
      hide WellShaped, FillAddr, Reachable;
      if p.filesz > 0 { WindowReachable(s, p.paddr, p.filesz); } else { NothingReaches(s, p.paddr); }
      if p.filesz < p.memsz {
        WindowReachable(s, FillAddr(p, elf32), p.memsz - p.filesz);
      } else {
        NothingReaches(s, FillAddr(p, elf32));
      }
    }
  }

  lemma WriterShape(base: nat, width: nat, depth: nat)
    requires PowerOfTwo(width) && width > 0 && base % width == 0
    ensures WellShaped(Shape(base, HexWriter.Extent(width, depth), 0, 0, width, width, false))
  {
    ModuloUnique(width, width, 1, 0);
    ModuloUnique(width * depth, width, depth, 0);
  }

  lemma ZeroIsNoPower()
    ensures !PowerOfTwo(0)
  {
  }

  lemma BaseMask(base: nat, width: nat)
    requires PowerOfTwo(width)
    ensures width > 0 && And(base, width - 1) == base % width
  {
    var k: nat :| width == Pow2(k);
    MaskIsModulo(base, k);
  }

  /** What the rest of the loader needs to know of a fresh hex writer. */
  lemma FreshWriter(w: HexWriter.Writer)
    requires w.Valid() && PowerOfTwo(w.width) && w.base % w.width == 0
    ensures Working(Hex(w)) && WellShaped(Outline(Hex(w))) && View(Hex(w)) == w.Contents()
    ensures Outline(Hex(w)) == Shape(w.base, HexWriter.Extent(w.width, w.depth), 0, 0, w.width, w.width, false)
  {
    WriterShape(w.base, w.width, w.depth);
  }

  method DumpOf(width: nat, depth: nat, base: u64, buf: seq<byte>, ph: seq<Phdr>, elf32: bool) returns (text: string)
    requires PowerOfTwo(width) && width > 0 && base % width == 0 && InWindow(ph, buf, elf32, base, width * depth)
    ensures var image := HexWriter.Parse(text, []);
      && image.Some? && |image.value| == width * depth
      && (PairwiseDisjoint(ph) ==> (IsImage(image.value, base, ph, buf) <==>
        NothingErased(WriterOutline(base, width, depth), ph, buf, elf32)))
  {
    hide HexWriter.Flat, HexWriter.Parse, HexWriter.Text, IsImage, Loaded, Loads, NothingErased, PairwiseDisjoint;
    var htif := new HexWriter.Writer(base, width, depth);
    FreshWriter(htif);
    var memif := new MemIf(Hex(htif));
    ghost var s, m := Outline(Hex(htif)), View(Hex(htif));
    WindowLoads(s, ph, buf, elf32);
    LoadElf(memif, buf, ph, elf32);
    if PairwiseDisjoint(ph) { ImageExactly(s, m, ph, buf, elf32); }
    text := htif.Dump();
    HexWriter.DumpReadsBack(htif.mem, width, depth);
  }

  /** elf2hex: what is printed, read back, is the image of the program. The file is not
      looked at before the other arguments have been accepted. */
  method Run(width: u32, depth: u32, base: u64, buf: seq<byte>, ph: seq<Phdr>, elf32: bool) returns (r: Outcome)
    requires PowerOfTwo(width) && base % width == 0 && PowerOfTwo(depth) ==>
      InWindow(ph, buf, elf32, base, width * depth)
    ensures r.WidthError? <==> !PowerOfTwo(width)
    ensures r.BaseError? <==> PowerOfTwo(width) && base % width != 0
    ensures r.DepthError? <==> PowerOfTwo(width) && base % width == 0 && !PowerOfTwo(depth)
    ensures r.Dump? ==>
      var image := HexWriter.Parse(r.text, []);
      && image.Some? && |image.value| == width * depth
      && (PairwiseDisjoint(ph) ==> (IsImage(image.value, base, ph, buf) <==>
        NothingErased(WriterOutline(base, width, depth), ph, buf, elf32)))
      && (PairwiseDisjoint(ph) && AllUnwrapped(ph, elf32) ==> IsImage(image.value, base, ph, buf))
  {
    hide HexWriter.Parse, IsImage, NothingErased, PairwiseDisjoint, AllUnwrapped;
    ZeroIsNoPower();
    if width > 0 { PowerTest(width); }
    if width == 0 || And(width, width - 1) != 0 {
      return WidthError;
    }
    BaseMask(base, width);
    if And(base, width - 1) != 0 {
      return BaseError;
    }
    if depth > 0 { PowerTest(depth); }
    if depth == 0 || And(depth, depth - 1) != 0 {
      return DepthError;
    }
    var text := DumpOf(width, depth, base, buf, ph, elf32);
    r := Dump(text);
    if PairwiseDisjoint(ph) && AllUnwrapped(ph, elf32) {
      UnwrappedErasesNothing(WriterOutline(base, width, depth), ph, buf, elf32);
    }
  }
}
