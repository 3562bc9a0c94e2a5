/** The chunked memory interface that every transport implements: aligned transfers of
    bounded size. The calls go to one of the transports, as a virtual call would. */
module ChunkedMem {
  import opened Words
  import opened Memory
  import DebugModule
  import DtmPrograms
  import Dtm
  import Tsi
  import HexWriter

  ghost predicate PowerOfTwo(n: nat) { exists k: nat :: n == Pow2(k) }

  /** A transport without a story of its own, of any alignment and maximum size. */
  class PlainMemory {
    const align: nat
    const maxSize: nat
    var bytes: Mem

    constructor (align: nat, maxSize: nat, bytes: Mem)
      ensures this.align == align && this.maxSize == maxSize && this.bytes == bytes
    {
      this.align, this.maxSize, this.bytes := align, maxSize, bytes;
    }
  }

  datatype Backend =
    | Debug(driver: Dtm.Driver)
    | Serial(tsi: Tsi.Interface)
    | Hex(writer: HexWriter.Writer)
    | Plain(memory: PlainMemory)

  /** What a transport can reach: a window of addresses, less a hole; in what steps; and
      whether clearing clears. */
  datatype Shape = Shape(base: nat, size: nat, holeLow: nat, holeHigh: nat, align: nat, maxSize: nat, clears: bool)

  predicate Serves(s: Shape, a: int, n: int) {
    s.base <= a && a + n <= s.base + s.size && (a + n <= s.holeLow || s.holeHigh <= a)
  }

  predicate OnGrid(s: Shape, a: int) { s.align > 0 && Aligned(s.align, a) }

  /** What the transports ask of every transfer. */
  predicate Legal(s: Shape, a: int, n: int) {
    n > 0 && OnGrid(s, a) && OnGrid(s, n) && Serves(s, a, n)
  }

  ghost predicate WellShaped(s: Shape) {
    && PowerOfTwo(s.align) && s.align > 0 && s.maxSize > 0 && OnGrid(s, s.maxSize)
    && OnGrid(s, s.base) && OnGrid(s, s.size)
  }

  datatype Kind = ReadCall | WriteCall | ClearCall

  datatype Call = Call(kind: Kind, addr: nat, len: nat)

  // --------------------------------------- the transports seen through the interface

  ghost function Repr(back: Backend): set<object> {
    match back
    case Debug(d) => {d, d.dm}
    case Serial(t) => {t}
    case Hex(w) => {w}
    case Plain(p) => {p}
  }

  ghost predicate Working(back: Backend)
    reads Repr(back)
  {
    match back
    case Debug(d) => d.Ready() && d.Sized() && d.ramWords >= 4 && d.dataWords >= 2 && d.dm.t.config.passive
    case Serial(t) => t.AtRest()
    case Hex(w) => w.Valid()
    case Plain(p) => true
  }

  ghost function View(back: Backend): Mem
    requires Working(back)
    reads Repr(back)
  {
    match back
    case Debug(d) => d.dm.t.hart.mem
    case Serial(t) => t.View()
    case Hex(w) => w.Contents()
    case Plain(p) => p.bytes
  }

  ghost function Outline(back: Backend): (s: Shape)
    requires Working(back)
    reads Repr(back)
    ensures s.size == |View(back)|
  {
    var size := |View(back)|;
    match back
    case Debug(d) =>
      var hole := d.dm.t.config.shadow;
      Shape(0, size, hole, hole + 4 * d.dataWords, d.xlen / 8, 4096, true)
    case Serial(t) => Shape(0, size, 0, 0, 4, 1024, true)
    case Hex(w) => Shape(w.base, size, 0, 0, w.width, w.width, false)
    case Plain(p) => Shape(0, size, 0, 0, p.align, p.maxSize, true)
  }

  function ChunkAlign(back: Backend): nat
    reads if back.Debug? then {back.driver} else {}
  {
    match back
    case Debug(d) => d.xlen / 8
    case Serial(t) => 4
    case Hex(w) => w.width
    case Plain(p) => p.align
  }

  function ChunkMaxSize(back: Backend): nat {
    match back
    case Debug(d) => 4096
    case Serial(t) => 1024
    case Hex(w) => w.width
    case Plain(p) => p.maxSize
  }

  /** What the transports say of themselves. */
  lemma ChunkLimits(back: Backend)
    requires Working(back)
    ensures back.Debug? ==> ChunkMaxSize(back) == 4096 && ChunkAlign(back) == (if back.driver.xlen == 32 then 4 else 8)
    ensures back.Serial? ==> ChunkMaxSize(back) == 1024 && ChunkAlign(back) == 4
    ensures back.Hex? ==> ChunkMaxSize(back) == ChunkAlign(back) == back.writer.width
  {
  }

  /** What is true of a transport between transfers. */
  ghost predicate Is(back: Backend, s: Shape, m: Mem)
    reads Repr(back)
  {
    Working(back) && Outline(back) == s && View(back) == m
  }

  // ------------------------------------------------------------ the debug module

  lemma WordsServed(d: Dtm.Driver, s: Shape, m: Mem, taddr: u64, len: nat)
    requires Is(Debug(d), s, m) && Legal(s, taddr, len)
    ensures len % DebugModule.WordBytes(d.xlen) == 0 && d.ramWords >= 4 && d.dataWords >= 2
    ensures DtmPrograms.WordsInMemory(d.dm.t, taddr, len / DebugModule.WordBytes(d.xlen))
    ensures s.base == 0
  {
    hide DtmPrograms.ShadowAt, DebugModule.WFHart;
    if d.xlen == 32 {} else {}
  }

  /** After a driver operation that left memory as m. */
  lemma DebugIs(d: Dtm.Driver, s: Shape, m: Mem)
    requires d.Ready() && d.Sized() && d.ramWords >= 4 && d.dataWords >= 2 && d.dm.t.config.passive
    requires d.dm.t.hart.mem == m && |m| == s.size
    requires s == Shape(0, |m|, d.dm.t.config.shadow, d.dm.t.config.shadow + 4 * d.dataWords, d.xlen / 8, 4096, true)
    ensures Is(Debug(d), s, m)
  {
  }

  method ReadDebug(d: Dtm.Driver, taddr: u64, len: nat, dst: array<byte>, at: nat, ghost s: Shape, ghost m: Mem)
    requires Is(Debug(d), s, m) && Legal(s, taddr, len) && at + len <= dst.Length
    modifies d, d.dm, dst
    ensures Is(Debug(d), s, m) && s.base <= taddr && Copied(old(dst[..]), at, m, taddr - s.base, len, dst[..])
  {
    WordsServed(d, s, m, taddr, len);
    hide Patch, DebugModule.WF, DtmPrograms.ShadowAt, DtmPrograms.WordsInMemory, Legal;
    d.ReadChunk(taddr, len, dst, at);
    DebugIs(d, s, m);
  }

  method WriteDebug(d: Dtm.Driver, taddr: u64, len: nat, src: seq<byte>, ghost s: Shape, ghost m: Mem)
    requires Is(Debug(d), s, m) && Legal(s, taddr, len) && len == |src|
    modifies d, d.dm
    ensures s.base <= taddr && taddr - s.base + len <= |m| && Is(Debug(d), s, Patch(m, taddr - s.base, src))
  {
    WordsServed(d, s, m, taddr, len);
    hide Patch, DebugModule.WF, DtmPrograms.ShadowAt, DtmPrograms.WordsInMemory;
    d.WriteChunk(taddr, len, src);
    DebugIs(d, s, Patch(m, taddr, src));
  }

  method ClearDebug(d: Dtm.Driver, taddr: u64, len: nat, ghost s: Shape, ghost m: Mem)
    requires Is(Debug(d), s, m) && Legal(s, taddr, len)
    modifies d, d.dm
    ensures s.base <= taddr && taddr - s.base + len <= |m| && Is(Debug(d), s, Patch(m, taddr - s.base, Zeros(len)))
  {
    WordsServed(d, s, m, taddr, len);
    hide Patch, DebugModule.WF, DtmPrograms.ShadowAt, DtmPrograms.WordsInMemory;
    d.ClearChunk(taddr, len);
    DebugIs(d, s, Patch(m, taddr, Zeros(len)));
  }

  // -------------------------------------------------------- the serial interface

  method ReadSerial(t: Tsi.Interface, taddr: u64, len: nat, dst: array<byte>, at: nat, ghost s: Shape, ghost m: Mem)
    requires Is(Serial(t), s, m) && Legal(s, taddr, len) && len <= s.maxSize && at + len <= dst.Length
    modifies t, dst
    ensures Is(Serial(t), s, m) && s.base <= taddr && Copied(old(dst[..]), at, m, taddr - s.base, len, dst[..])
  {
    hide Tsi.Apply, Tsi.Replies, Copied;
    t.ReadChunk(taddr, len, dst, at);
  }

  method WriteSerial(t: Tsi.Interface, taddr: u64, len: nat, src: seq<byte>, ghost s: Shape, ghost m: Mem)
    requires Is(Serial(t), s, m) && Legal(s, taddr, len) && len <= s.maxSize && len == |src|
    modifies t
    ensures s.base <= taddr && taddr - s.base + len <= |m| && Is(Serial(t), s, Patch(m, taddr - s.base, src))
  {
    hide Tsi.Apply, Tsi.Replies, Patch;
    t.WriteChunk(taddr, len, src);
  }

  // ------------------------------------------------------------- the hex writer

  lemma LinesServed(w: HexWriter.Writer, s: Shape, m: Mem, taddr: u64, len: nat)
    requires Is(Hex(w), s, m) && Legal(s, taddr, len) && w.base % w.width == 0
    ensures w.InWindow(taddr, len) && Aligned(w.width, taddr - w.base)
    ensures w.base == s.base
  {
    DifferenceAligned(taddr, w.base, w.width);
  }

  /** A chunk no larger than the hex writer's maximum is exactly one line. */
  lemma OneLine(width: nat, len: nat)
    requires width > 0 && 0 < len <= width && len % width == 0
    ensures len == width && len / width == 1
  {
  }

  method ReadHex(w: HexWriter.Writer, taddr: u64, len: nat, dst: array<byte>, at: nat, ghost s: Shape, ghost m: Mem)
    requires Is(Hex(w), s, m) && Legal(s, taddr, len) && w.base % w.width == 0 && at + len <= dst.Length
    modifies w, dst
    ensures Is(Hex(w), s, m) && s.base <= taddr && Copied(old(dst[..]), at, m, taddr - s.base, len, dst[..])
  {
    LinesServed(w, s, m, taddr, len);
    hide HexWriter.Flat, HexWriter.Regular, Copied, Legal, Aligned, HexWriter.Extent;
    w.ReadChunk(taddr, len, dst, at);
  }

  method WriteHex(w: HexWriter.Writer, taddr: u64, len: nat, src: seq<byte>, ghost s: Shape, ghost m: Mem)
    requires Is(Hex(w), s, m) && Legal(s, taddr, len) && w.base % w.width == 0 && len <= s.maxSize && len == |src|
    modifies w
    ensures s.base <= taddr && taddr - s.base + len <= |m| && Is(Hex(w), s, Patch(m, taddr - s.base, src))
  {
    hide HexWriter.Flat, HexWriter.Regular, Patch, Aligned, HexWriter.Repeated, HexWriter.Extent,
      HexWriter.FirstLine, HexWriter.LineNo, Legal;
    LinesServed(w, s, m, taddr, len);
    LineServed(w.width, s, taddr, src);
    w.WriteChunk(taddr, len, src);
  }

  /** What the hex writer makes of a source of one line. */
  lemma LineServed(width: nat, s: Shape, taddr: nat, src: seq<byte>)
    requires Legal(s, taddr, |src|) && s.align == s.maxSize == width > 0 && |src| <= width
    ensures HexWriter.Repeated(HexWriter.FirstLine(src, width), HexWriter.LineNo(width, |src|)) == src
  {
    OneLine(width, |src|);
    assert HexWriter.Repeated(src, 0) == [];
    assert HexWriter.FirstLine(src, width) == src;
  }

  // --------------------------------------------------------------- any transport

  method ReadPlain(p: PlainMemory, taddr: u64, len: nat, dst: array<byte>, at: nat, ghost s: Shape, ghost m: Mem)
    requires Is(Plain(p), s, m) && Legal(s, taddr, len) && at + len <= dst.Length
    modifies dst
    ensures Is(Plain(p), s, m) && s.base <= taddr && Copied(old(dst[..]), at, m, taddr - s.base, len, dst[..])
  {
    CopyBytes(p.bytes[taddr..taddr + len], dst, at);
  }

  method WritePlain(p: PlainMemory, taddr: u64, len: nat, src: seq<byte>, ghost s: Shape, ghost m: Mem)
    requires Is(Plain(p), s, m) && Legal(s, taddr, len) && len == |src|
    modifies p
    ensures s.base <= taddr && taddr - s.base + len <= |m| && Is(Plain(p), s, Patch(m, taddr - s.base, src))
  {
    p.bytes := p.bytes[..taddr] + src + p.bytes[taddr + len..];
  }

  method ReadFrom(back: Backend, taddr: u64, len: nat, dst: array<byte>, at: nat, ghost s: Shape, ghost m: Mem)
    requires WellShaped(s) && Is(back, s, m) && Legal(s, taddr, len) && len <= s.maxSize && at + len <= dst.Length
    modifies Repr(back), dst
    ensures Is(back, s, m) && s.base <= taddr && Copied(old(dst[..]), at, m, taddr - s.base, len, dst[..])
  {
    WellBased(back, s, m);
    hide Is, Legal, WellShaped, Copied;
    match back
    case Debug(d) => ReadDebug(d, taddr, len, dst, at, s, m);
    case Serial(t) => ReadSerial(t, taddr, len, dst, at, s, m);
    case Hex(w) => ReadHex(w, taddr, len, dst, at, s, m);
    case Plain(p) => ReadPlain(p, taddr, len, dst, at, s, m);
  }

  method WriteTo(back: Backend, taddr: u64, len: nat, src: seq<byte>, ghost s: Shape, ghost m: Mem)
    requires WellShaped(s) && Is(back, s, m) && Legal(s, taddr, len) && len <= s.maxSize && len == |src|
    modifies Repr(back)
    ensures s.base <= taddr && taddr - s.base + len <= |m| && Is(back, s, Patch(m, taddr - s.base, src))
  {
    WellBased(back, s, m);
    hide Is, Legal, WellShaped, Patch;
    match back
    case Debug(d) => WriteDebug(d, taddr, len, src, s, m);
    case Serial(t) => WriteSerial(t, taddr, len, src, s, m);
    case Hex(w) => WriteHex(w, taddr, len, src, s, m);
    case Plain(p) => WritePlain(p, taddr, len, src, s, m);
  }

  lemma WellBased(back: Backend, s: Shape, m: Mem)
    requires WellShaped(s) && Is(back, s, m)
    ensures back.Hex? ==> back.writer.width > 0 && back.writer.base % back.writer.width == 0
  {
  }

  /** The clear_chunk that a transport inherits when it has none of its own: zeros are
      written, no more than the maximum at a time. */
  method ClearByWriting(back: Backend, taddr: u64, len: nat, ghost s: Shape, ghost m: Mem, maxSize: nat)
    requires WellShaped(s) && Is(back, s, m) && Legal(s, taddr, len) && maxSize == s.maxSize && taddr + len <= TWO_64
    modifies Repr(back)
    ensures s.base <= taddr && taddr - s.base + len <= |m| && Is(back, s, Patch(m, taddr - s.base, Zeros(len)))
  {
    hide *;
    ClearingStarts(back, s, m, taddr, len);
    var pos: nat := 0;
    while pos < len
      invariant Clearing(back, s, m, taddr, len, pos)
      decreases len - pos
    {
      ClearPiece(back, taddr, len, pos, s, m, maxSize);
      pos := pos + maxSize;
    }
    ClearedWhole(back, s, m, taddr, len, pos);
  }

  /** The first pos bytes are zero, or all of them when pos has gone past the end. */
  ghost predicate Clearing(back: Backend, s: Shape, m: Mem, taddr: nat, len: nat, pos: nat)
    reads Repr(back)
  {
    && s.align > 0 && s.base <= taddr && InRange(m, taddr - s.base, len)
    && (pos < len ==> OnGrid(s, pos))
    && Is(back, s, Patch(m, taddr - s.base, Zeros(if pos < len then pos else len)))
  }

  lemma ClearingStarts(back: Backend, s: Shape, m: Mem, taddr: nat, len: nat)
    requires WellShaped(s) && Is(back, s, m) && Legal(s, taddr, len)
    ensures Clearing(back, s, m, taddr, len, 0) && s.maxSize > 0
  {
    hide Is;
    InWindow(back, s, m, taddr, len);
    PatchNothing(m, taddr - s.base);
    PieceStart(s);
    assert Zeros(0) == [];
  }

  lemma ClearedWhole(back: Backend, s: Shape, m: Mem, taddr: nat, len: nat, pos: nat)
    requires Clearing(back, s, m, taddr, len, pos) && pos >= len
    ensures s.base <= taddr && taddr - s.base + len <= |m| && Is(back, s, Patch(m, taddr - s.base, Zeros(len)))
  {
  }

  method ClearPiece(back: Backend, taddr: u64, len: nat, pos: nat, ghost s: Shape, ghost m: Mem, maxSize: nat)
    requires WellShaped(s) && Legal(s, taddr, len) && maxSize == s.maxSize && taddr + len <= TWO_64
    requires Clearing(back, s, m, taddr, len, pos) && pos < len
    modifies Repr(back)
    ensures Clearing(back, s, m, taddr, len, pos + maxSize)
  {
    hide *;
    var n := if len - pos < maxSize then len - pos else maxSize;
    ghost var m1, m2 := PieceFacts(back, s, m, taddr, len, pos, n);
    var zeros := Zeros(n);
    WriteTo(back, taddr + pos, n, zeros, s, m1);
    PieceDone(back, s, m, taddr, len, pos, n, m2);
  }

  lemma PieceFacts(back: Backend, s: Shape, m: Mem, taddr: nat, len: nat, pos: nat, n: nat) returns (m1: Mem, m2: Mem)
    requires WellShaped(s) && Legal(s, taddr, len) && Clearing(back, s, m, taddr, len, pos) && pos < len
    requires n == (if len - pos < s.maxSize then len - pos else s.maxSize) && taddr + len <= TWO_64
    ensures taddr + pos < 0x1_0000_0000_0000_0000
    ensures Is(back, s, m1) && Legal(s, taddr + pos, n) && n <= s.maxSize
    ensures s.base <= taddr && taddr + pos - s.base + n <= |m1| && m2 == Patch(m1, taddr + pos - s.base, Zeros(n))
    ensures InRange(m, taddr - s.base, len) && m2 == Patch(m, taddr - s.base, Zeros(pos + n)) && s.align > 0
    ensures OnGrid(s, pos + s.maxSize)
  {
    PieceLegal(s, taddr, len, pos, n);
    ZerosGrow(m, taddr - s.base, pos, n);
    hide Is, Patch, Legal, WellShaped, Zeros;
    m1 := Patch(m, taddr - s.base, Zeros(pos));
    m2 := Patch(m, taddr - s.base, Zeros(pos + n));
  }

  lemma PieceDone(back: Backend, s: Shape, m: Mem, taddr: nat, len: nat, pos: nat, n: nat, m2: Mem)
    requires s.base <= taddr && InRange(m, taddr - s.base, len) && pos < len && s.align > 0
    requires OnGrid(s, pos + s.maxSize)
    requires n == if len - pos < s.maxSize then len - pos else s.maxSize
    requires m2 == Patch(m, taddr - s.base, Zeros(pos + n)) && Is(back, s, m2)
    ensures Clearing(back, s, m, taddr, len, pos + s.maxSize)
  {
    hide Is, Patch, Zeros;
  }

  lemma PieceStart(s: Shape)
    requires WellShaped(s)
    ensures s.align > 0 && OnGrid(s, 0) && s.maxSize > 0
  {
  }

  lemma InWindow(back: Backend, s: Shape, m: Mem, taddr: nat, len: nat)
    requires Is(back, s, m) && Legal(s, taddr, len)
    ensures s.base <= taddr && taddr - s.base + len <= |m| == s.size
  {
  }

  /** A piece of a legal transfer that starts a multiple of the maximum into it. */
  lemma PieceLegal(s: Shape, a: nat, len: nat, pos: nat, n: nat)
    requires WellShaped(s) && Legal(s, a, len) && pos < len && OnGrid(s, pos)
    requires n == if len - pos < s.maxSize then len - pos else s.maxSize
    ensures Legal(s, a + pos, n) && OnGrid(s, pos + s.maxSize)
  {
    SumAligned(a, pos, s.align);
    SumAligned(pos, s.maxSize, s.align);
    if n != s.maxSize { DifferenceAligned(len, pos, s.align); }
  }

  lemma SumAligned(a: nat, b: nat, m: nat)
    requires m > 0 && a % m == 0 && b % m == 0
    ensures (a + b) % m == 0
  {
    ModuloUnique(a + b, m, a / m + b / m, 0);
  }

  lemma DifferenceAligned(a: nat, b: nat, m: nat)
    requires m > 0 && a % m == 0 && b % m == 0
    ensures (a - b) % m == 0
  {
    ModuloUnique(a - b, m, a / m - b / m, 0);
  }

  /** What clear_chunk leaves behind: the hex writer's does nothing. */
  function Cleared(s: Shape, m: Mem, a: int, len: nat): (r: Mem)
    requires InRange(m, a, len)
    ensures |r| == |m|
  {
    if s.clears then Patch(m, a, Zeros(len)) else m
  }

  method ClearIn(back: Backend, taddr: u64, len: nat, ghost s: Shape, ghost m: Mem)
    requires WellShaped(s) && Is(back, s, m) && Legal(s, taddr, len) && taddr + len <= TWO_64
    modifies Repr(back)
    ensures s.base <= taddr && taddr - s.base + len <= |m| && Is(back, s, Cleared(s, m, taddr - s.base, len))
  {
    InWindow(back, s, m, taddr, len);
    ClearingKind(back, s, m);
    hide Is, Legal, WellShaped, Patch;
    match back
    case Debug(d) => ClearDebug(d, taddr, len, s, m);
    case Serial(t) => ClearByWriting(back, taddr, len, s, m, 1024);
    case Hex(w) =>
    case Plain(p) => ClearByWriting(back, taddr, len, s, m, p.maxSize);
  }

  lemma SizesAre(back: Backend, s: Shape, m: Mem)
    requires Is(back, s, m)
    ensures ChunkAlign(back) == s.align && ChunkMaxSize(back) == s.maxSize && |m| == s.size
  {
  }

  lemma ClearingKind(back: Backend, s: Shape, m: Mem)
    requires Is(back, s, m)
    ensures s.clears == !back.Hex?
    ensures back.Serial? ==> s.maxSize == 1024
    ensures back.Plain? ==> s.maxSize == back.memory.maxSize
  {
  }
}
