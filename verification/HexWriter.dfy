/** The hex writer: memory as a sparse map of lines, and the dump printed from it. */
module HexWriter {
  import opened Words
  import opened Memory
  import opened Wrappers

  type Lines = map<nat, seq<byte>>

  function Line(mem: Lines, width: nat, k: nat): (r: seq<byte>)
    requires forall i :: i in mem ==> |mem[i]| == width
    ensures |r| == width
  {
    if k in mem then mem[k] else Zeros(width)
  }

  predicate Regular(mem: Lines, width: nat, depth: nat) {
    forall k :: k in mem ==> |mem[k]| == width && k < depth
  }

  /** How many bytes the lines cover. */
  function Extent(width: nat, depth: nat): nat { width * depth }

  function LineNo(width: nat, a: nat): nat
    requires width > 0
  {
    a / width
  }

  /** The flat memory that lines 0 to depth stand for. */
  function Flat(mem: Lines, width: nat, depth: nat): (m: Mem)
    requires forall i :: i in mem ==> |mem[i]| == width
    ensures |m| == Extent(width, depth)
    decreases depth
  {
    if depth == 0 then [] else Flat(mem, width, depth - 1) + Line(mem, width, depth - 1)
  }

  lemma LineFits(width: nat, depth: nat, k: nat)
    requires k < depth
    ensures width * k + width <= width * depth
  {
    assert width * (k + 1) <= width * depth;
  }

  lemma {:induction false} FlatLine(mem: Lines, width: nat, depth: nat, k: nat)
    requires (forall i :: i in mem ==> |mem[i]| == width) && k < depth
    ensures width * k + width <= width * depth
    ensures Flat(mem, width, depth)[width * k..width * k + width] == Line(mem, width, k)
  {
    LineFits(width, depth, k);
    if k < depth - 1 {
      FlatLine(mem, width, depth - 1, k);
      var f := Flat(mem, width, depth - 1);
      assert Flat(mem, width, depth)[width * k..width * k + width] == f[width * k..width * k + width];
    }
  }

  lemma {:induction false} FlatUpdate(mem: Lines, width: nat, depth: nat, k: nat, line: seq<byte>)
    requires (forall i :: i in mem ==> |mem[i]| == width) && k < depth && |line| == width
    ensures width * k + width <= width * depth
    ensures Flat(mem[k := line], width, depth) == Patch(Flat(mem, width, depth), width * k, line)
    decreases depth
  {
    LineFits(width, depth, k);
    var f := Flat(mem, width, depth - 1);
    var last := Line(mem, width, depth - 1);
    if k < depth - 1 {
      FlatUpdate(mem, width, depth - 1, k, line);
      hide Patch, Flat;
      PatchFront(f, last, width * k, line);
      assert Line(mem[k := line], width, depth - 1) == last;
    } else {
      FlatElsewhere(mem, width, depth - 1, k, line);
      assert f + line == Patch(f + last, width * k, line);
    }
  }

  lemma PatchFront(f: Mem, last: Mem, a: nat, line: seq<byte>)
    requires a + |line| <= |f|
    ensures Patch(f, a, line) + last == Patch(f + last, a, line)
  {
  }

  lemma {:induction false} FlatElsewhere(mem: Lines, width: nat, depth: nat, k: nat, line: seq<byte>)
    requires (forall i :: i in mem ==> |mem[i]| == width) && k >= depth && |line| == width
    ensures Flat(mem[k := line], width, depth) == Flat(mem, width, depth)
  {
    if depth > 0 { FlatElsewhere(mem, width, depth - 1, k, line); }
  }

  lemma {:induction false} FlatEmpty(width: nat, depth: nat)
    ensures Flat(map[], width, depth) == Zeros(width * depth)
  {
    if depth > 0 { FlatEmpty(width, depth - 1); }
  }

  /** n copies of a line: what a transfer of n lines leaves behind, because the source
      pointer does not move. */
  function Repeated(line: seq<byte>, n: nat): (r: seq<byte>)
    ensures |r| == |line| * n
  {
    if n == 0 then [] else Repeated(line, n - 1) + line
  }

  /** The part of src that a transfer looks at. */
  function FirstLine(src: seq<byte>, width: nat): seq<byte> {
    if width <= |src| then src[..width] else src
  }

  lemma FirstLineIs(src: seq<byte>, width: nat)
    ensures width <= |src| ==> FirstLine(src, width) == src[..width] && |FirstLine(src, width)| == width
  {
  }

  /** A transfer is faithful exactly when every line of the source equals the first. */
  lemma {:induction false} RepeatedFaithful(src: seq<byte>, width: nat, n: nat)
    requires n > 0 && |src| == width * n
    ensures width <= width * n
    ensures Repeated(src[..width], n) == src <==>
      forall k :: 0 <= k < n ==> LineOf(src, width, n, k) == src[..width]
  {
    LineFits(width, n, 0);
    assert src[..width] == LineOf(src, width, n, 0);
    RepeatedLines(src[..width], n);
    if forall k :: 0 <= k < n ==> LineOf(src, width, n, k) == src[..width] {
      SameLines(Repeated(src[..width], n), src, width, n, n);
    }
  }

  function LineOf(s: seq<byte>, width: nat, n: nat, k: nat): (r: seq<byte>)
    requires |s| == width * n && k < n
    ensures |r| == width
  {
    LineFits(width, n, k);
    s[width * k..width * k + width]
  }

  lemma {:induction false} RepeatedLines(line: seq<byte>, n: nat)
    ensures forall k :: 0 <= k < n ==> LineOf(Repeated(line, n), |line|, n, k) == line
  {
    if n > 0 {
      RepeatedLines(line, n - 1);
      var r := Repeated(line, n - 1);
      forall k | 0 <= k < n ensures LineOf(Repeated(line, n), |line|, n, k) == line {
        if k < n - 1 {
          LineFits(|line|, n - 1, k);
          assert LineOf(Repeated(line, n), |line|, n, k) == LineOf(r, |line|, n - 1, k);
        }
      }
    }
  }

  lemma {:induction false} SameLines(s: seq<byte>, t: seq<byte>, width: nat, n: nat, m: nat)
    requires |s| == |t| == width * n && m <= n
    requires forall k :: 0 <= k < n ==> LineOf(s, width, n, k) == LineOf(t, width, n, k)
    ensures width * m <= width * n && s[..width * m] == t[..width * m]
  {
    NoLess(width, m, n);
    if m > 0 {
      SameLines(s, t, width, n, m - 1);
      assert LineOf(s, width, n, m - 1) == LineOf(t, width, n, m - 1);
      FrontGrows(s, width, n, m - 1);
      FrontGrows(t, width, n, m - 1);
    }
  }

  lemma FrontGrows(s: seq<byte>, width: nat, n: nat, k: nat)
    requires |s| == width * n && k < n
    ensures width * k <= width * (k + 1) <= |s|
    ensures s[..width * (k + 1)] == s[..width * k] + LineOf(s, width, n, k)
  {
    LineFits(width, n, k);
  }

  // ---------------------------------------------------------------- the dump

  const DIGITS: string := "0123456789abcdef"

  function HexByte(b: byte): string {
    [DIGITS[b / 16], DIGITS[b % 16]]
  }

  /** A line is printed with its last byte first. */
  function LineText(line: seq<byte>): string {
    if line == [] then "" else LineText(line[1..]) + HexByte(line[0])
  }

  function Text(mem: Lines, width: nat, depth: nat): string
    requires forall i :: i in mem ==> |mem[i]| == width
    decreases depth
  {
    if depth == 0 then "" else Text(mem, width, depth - 1) + LineText(Line(mem, width, depth - 1)) + "\n"
  }

  function DigitValue(c: char): Option<nat> {
    if '0' <= c <= '9' then Some(c as nat - '0' as nat)
    else if 'a' <= c <= 'f' then Some(c as nat - 'a' as nat + 10)
    else None
  }

  function Before(bs: seq<byte>, rest: Option<seq<byte>>): Option<seq<byte>> {
    match rest
    case None => None
    case Some(more) => Some(bs + more)
  }

  /** What a reader of the dump makes of it: memory words, one a line, most significant
      byte first. `line` holds the bytes of the current line so far. */
  function Parse(text: string, line: seq<byte>): Option<seq<byte>>
    decreases |text|
  {
    if text == "" then
      if line == [] then Some([]) else None
    else if text[0] == '\n' then
      Before(line, Parse(text[1..], []))
    else if |text| >= 2 && DigitValue(text[0]).Some? && DigitValue(text[1]).Some? then
      Parse(text[2..], [ByteOf(DigitValue(text[0]).value, DigitValue(text[1]).value)] + line)
    else
      None
  }

  function ByteOf(high: nat, low: nat): byte { (16 * high + low) % 256 }

  lemma DigitRead(d: nat)
    requires d < 16
    ensures DigitValue(DIGITS[d]) == Some(d) && DIGITS[d] != '\n'
  {
    if d < 8 {
      assert d in {0, 1, 2, 3, 4, 5, 6, 7};
    } else {
      assert d in {8, 9, 10, 11, 12, 13, 14, 15};
    }
  }

  lemma ParseByte(b: byte, rest: string, line: seq<byte>)
    ensures Parse(HexByte(b) + rest, line) == Parse(rest, [b] + line)
  {
    hide DigitValue;
    DigitRead(b / 16);
    DigitRead(b % 16);
    assert (HexByte(b) + rest)[2..] == rest;
  }

  lemma Regroup(a: string, b: string, c: string)
    ensures (a + b) + c == a + (b + c)
  {
  }

  lemma {:induction false} ParseLine(bytes: seq<byte>, rest: string, line: seq<byte>)
    ensures Parse(LineText(bytes) + rest, line) == Parse(rest, bytes + line)
  {
    if bytes == [] {
      assert LineText(bytes) + rest == rest && bytes + line == line;
    } else {
      var b, more := bytes[0], bytes[1..];
      ParseLine(more, HexByte(b) + rest, line);
      ParseByte(b, rest, more + line);
      assert [b] + (more + line) == bytes + line;
      Regroup(LineText(more), HexByte(b), rest);
      hide Parse, HexByte;
    }
  }

  /** Reading back the dump gives the flat memory, whatever lines exist. */
  lemma {:induction false} ParseText(mem: Lines, width: nat, depth: nat, rest: string)
    requires forall i :: i in mem ==> |mem[i]| == width
    ensures Parse(Text(mem, width, depth) + rest, []) == Before(Flat(mem, width, depth), Parse(rest, []))
    decreases depth
  {
    if depth == 0 {
      assert Text(mem, width, depth) + rest == rest;
      BeforeNothing([], Parse(rest, []));
    } else {
      hide Parse, LineText, Before;
      var line, front := Line(mem, width, depth - 1), Text(mem, width, depth - 1);
      RegroupLine(front, LineText(line), rest);
      ParseText(mem, width, depth - 1, LineText(line) + ("\n" + rest));
      ParseWholeLine(line, rest);
      BeforeBoth(Flat(mem, width, depth - 1), line, Parse(rest, []));
    }
  }

  lemma RegroupLine(front: string, line: string, rest: string)
    ensures ((front + line) + "\n") + rest == front + (line + ("\n" + rest))
  {
  }

  lemma ParseWholeLine(line: seq<byte>, rest: string)
    ensures Parse(LineText(line) + ("\n" + rest), []) == Before(line, Parse(rest, []))
  {
    ParseLine(line, "\n" + rest, []);
    assert line + [] == line && ("\n" + rest)[1..] == rest;
  }

  lemma BeforeNothing(a: seq<byte>, rest: Option<seq<byte>>)
    ensures Before([], rest) == rest && Before(a, Some([])) == Some(a)
  {
    assert a + [] == a;
    if rest.Some? { assert [] + rest.value == rest.value; }
  }

  lemma BeforeBoth(a: seq<byte>, b: seq<byte>, rest: Option<seq<byte>>)
    ensures Before(a, Before(b, rest)) == Before(a + b, rest)
  {
    if rest.Some? { assert a + (b + rest.value) == (a + b) + rest.value; }
  }

  lemma DumpReadsBack(mem: Lines, width: nat, depth: nat)
    requires forall i :: i in mem ==> |mem[i]| == width
    ensures Parse(Text(mem, width, depth), []) == Some(Flat(mem, width, depth))
  {
    ParseText(mem, width, depth, "");
    assert Text(mem, width, depth) + "" == Text(mem, width, depth);
    BeforeNothing(Flat(mem, width, depth), None);
    assert Parse("", []) == Some([]);
    hide *;
  }

  lemma ZeroDigits(j: nat)
    requires j > 0
    ensures LineText(Zeros(j)) == LineText(Zeros(j - 1)) + "00"
  {
    assert Zeros(j)[1..] == Zeros(j - 1);
  }

  /** Where a copy of len0 bytes from off stands with len bytes to go. */
  predicate Copying(width: nat, depth: nat, taddr: nat, len: nat, p: nat, off: nat, at: nat, len0: nat) {
    && width > 0 && Aligned(width, taddr) && Aligned(width, len) && len <= len0
    && taddr + len == off + len0 <= Extent(width, depth) && p + len == at + len0
  }

  lemma CopyStarts(width: nat, depth: nat, off: nat, at: nat, len: nat)
    requires width > 0 && Aligned(width, off) && Aligned(width, len) && off + len <= Extent(width, depth)
    ensures Copying(width, depth, off, len, at, off, at, len)
  {
  }

  lemma CopyNext(width: nat, depth: nat, taddr: nat, len: nat, p: nat, off: nat, at: nat, len0: nat)
    requires Copying(width, depth, taddr, len, p, off, at, len0) && len > 0
    ensures width > 0 && Aligned(width, taddr) && width <= len <= len0 && taddr + width <= Extent(width, depth)
    ensures taddr == off + (len0 - len) && p == at + (len0 - len)
    ensures Copying(width, depth, taddr + width, len - width, p + width, off, at, len0)
  {
    AlignedNext(width, taddr, len);
    hide Aligned, Extent;
  }

  class Writer {
    const base: nat
    const width: nat
    const depth: nat
    var mem: Lines

    constructor (b: nat, w: nat, d: nat)
      requires w > 0
      ensures base == b && width == w && depth == d
      ensures Valid() && Contents() == Zeros(w * d)
    {
      base, width, depth := b, w, d;
      mem := map[];
      FlatEmpty(w, d);
    }

    ghost predicate Valid()
      reads this
    {
      width > 0 && Regular(mem, width, depth)
    }

    ghost function Contents(): (m: Mem)
      requires Valid()
      reads this
      ensures |m| == Extent(width, depth)
    {
      Flat(mem, width, depth)
    }

    /** What the assertions at the head of both transfers ask of their callers. */
    predicate InWindow(taddr: nat, len: nat)
      requires width > 0
    {
      Aligned(width, len) && base <= taddr < base + Extent(width, depth) && taddr + len <= base + Extent(width, depth)
    }

    /** Materialises a line, as zeros. */
    method Touch(k: nat)
      requires Valid() && k < depth
      modifies this
      ensures Valid() && k in mem && Contents() == old(Contents())
      ensures mem == old(mem)[k := Line(old(mem), width, k)]
    {
      if k !in mem {
        FlatUpdate(mem, width, depth, k, Zeros(width));
        FlatLine(mem, width, depth, k);
        mem := mem[k := Zeros(width)];
      }
    }

    method ReadChunk(taddr0: nat, len0: nat, dst: array<byte>, at: nat)
      requires Valid() && InWindow(taddr0, len0) && Aligned(width, taddr0 - base) && at + len0 <= dst.Length
      modifies this, dst
      ensures Valid() && Contents() == old(Contents())
      ensures Copied(old(dst[..]), at, Contents(), taddr0 - base, len0, dst[..])
    {
      CopiedNone(dst[..], at, Contents(), taddr0 - base);
      CopyStarts(width, depth, taddr0 - base, at, len0);
      hide *;
      ReadLines(taddr0 - base, len0, dst, at);
    }

    method ReadLines(off: nat, len0: nat, dst: array<byte>, at: nat)
      requires Valid() && Copying(width, depth, off, len0, at, off, at, len0) && at + len0 <= dst.Length
      requires Copied(dst[..], at, Contents(), off, 0, dst[..])
      modifies this, dst
      ensures Valid() && Contents() == old(Contents())
      ensures Copied(old(dst[..]), at, Contents(), off, len0, dst[..])
    {
      hide *;
      var taddr: nat, len: nat, p: nat := off, len0, at;
      ghost var before := dst[..];
      while len > 0
        invariant Valid() && Contents() == old(Contents()) && len <= len0
        invariant Copying(width, depth, taddr, len, p, off, at, len0)
        invariant Copied(before, at, Contents(), off, len0 - len, dst[..])
      {
        CopyNext(width, depth, taddr, len, p, off, at, len0);
        ReadLine(taddr, dst, p, before, off, len0 - len);
        len := len - width;
        taddr := taddr + width;
        p := p + width;
      }
    }

    /** Copies one line out, to follow the done bytes that were copied before. */
    method ReadLine(taddr: nat, dst: array<byte>, p: nat, ghost before: seq<byte>, ghost off: nat, ghost done: nat)
      requires Valid() && Aligned(width, taddr) && taddr + width <= Extent(width, depth) && p + width <= dst.Length
      requires done <= p && taddr == off + done && |before| == dst.Length
      requires Copied(before, p - done, Contents(), off, done, dst[..])
      modifies this, dst
      ensures Valid() && Contents() == old(Contents())
      ensures Copied(before, p - done, Contents(), off, done + width, dst[..])
    {
      ghost var m, now := Contents(), dst[..];
      CopiedMore(before, p - done, m, off, done, now, width);
      ghost var next := Patch(now, p, m[taddr..taddr + width]);
      assert Copied(before, p - done, m, off, done + width, next);
      hide *;
      var line := FetchLine(taddr);
      assert dst[..] == now;
      CopyBytes(line, dst, p);
      assert dst[..] == next;
    }

    method FetchLine(taddr: nat) returns (line: seq<byte>)
      requires Valid() && Aligned(width, taddr) && taddr + width <= Extent(width, depth)
      modifies this
      ensures Valid() && Contents() == old(Contents()) && line == Contents()[taddr..taddr + width]
    {
      NextLine(width, depth, taddr);
      hide Flat, Line, Extent, Aligned, LineNo, Zeros, Regular;
      Touch(LineNo(width, taddr));
      LineAt(mem, width, depth, taddr);
      line := mem[LineNo(width, taddr)];
    }

    /** operator<<: one line of hex digits a memory line, zeros where there is none. */
    method Dump() returns (o: string)
      requires Valid()
      ensures o == Text(mem, width, depth)
    {
      o := "";
      var addr := 0;
      while addr < depth
        invariant addr <= depth && o == Text(mem, width, addr)
      {
        var line := "";
        var j := 0;
        if addr !in mem {
          while j < width
            invariant j <= width && line == LineText(Zeros(j))
          {
            line := line + "00";
            j := j + 1;
            ZeroDigits(j);
          }
        } else {
          while j < width
            invariant j <= width && line == LineText(mem[addr][width - j..])
            invariant addr in mem && |mem[addr]| == width
          {
            var c := mem[addr][width - j - 1];
            line := line + [DIGITS[c / 16], DIGITS[c % 16]];
            j := j + 1;
            assert mem[addr][width - j..][1..] == mem[addr][width - j + 1..];
          }
        }
        o := o + line + "\n";
        addr := addr + 1;
      }
    }

    /** The first line of src goes into every line of the range: src is never advanced. */
    method WriteChunk(taddr0: nat, len0: nat, src: seq<byte>)
      requires Valid() && InWindow(taddr0, len0) && Aligned(width, taddr0 - base) && |src| == len0
      modifies this
      ensures Valid() && |Repeated(FirstLine(src, width), LineNo(width, len0))| == len0
      ensures Contents() == Patch(old(Contents()), taddr0 - base, Repeated(FirstLine(src, width), LineNo(width, len0)))
    {
      hide Flat, Patch, Line, Extent, Aligned, LineNo, Zeros, Regular, FirstLine, Repeated;
      var taddr: nat, len: nat := taddr0 - base, len0;
      ghost var m, i, off, line := Contents(), 0, taddr, FirstLine(src, width);
      CopiesStart(m, off, line);
      if len0 > 0 { AlignedNext(width, taddr, len); }
      FirstLineIs(src, width);
      while len > 0
        invariant Valid() && Aligned(width, taddr) && Aligned(width, len)
        invariant off <= taddr && taddr + len == off + len0 && |Repeated(line, i)| == taddr - off
        invariant Contents() == Patch(m, off, Repeated(line, i))
      {
        AlignedNext(width, taddr, len);
        WriteLine(taddr, src);
        CopiesMore(m, off, line, i);
        len := len - width;
        taddr := taddr + width;
        i := i + 1;
      }
      CopiesOf(line, i, width, len0);
    }

    method WriteLine(taddr: nat, src: seq<byte>)
      requires Valid() && Aligned(width, taddr) && taddr + width <= Extent(width, depth) && width <= |src|
      modifies this
      ensures Valid() && Contents() == Patch(old(Contents()), taddr, src[..width])
    {
      NextLine(width, depth, taddr);
      hide Flat, Patch, Line, Extent, Aligned, LineNo, Zeros, Regular;
      Touch(LineNo(width, taddr));
      UpdateAt(mem, width, depth, taddr, src[..width]);
      mem := mem[LineNo(width, taddr) := src[..width]];
    }
  }

  /** A line boundary inside the window is the start of a whole line. */
  lemma NextLine(width: nat, depth: nat, taddr: nat)
    requires width > 0 && Aligned(width, taddr) && taddr < Extent(width, depth)
    ensures width * LineNo(width, taddr) == taddr && LineNo(width, taddr) < depth
  {
    var k := taddr / width;
    assert taddr == width * k;
    if k >= depth { NoLess(width, depth, k); }
  }

  lemma AlignedNext(width: nat, taddr: nat, len: nat)
    requires width > 0 && Aligned(width, taddr) && Aligned(width, len) && len > 0
    ensures width <= len && Aligned(width, taddr + width) && Aligned(width, len - width)
  {
    var k, n := taddr / width, len / width;
    assert taddr == width * k && len == width * n;
    ModuloUnique(taddr + width, width, k + 1, 0);
    ModuloUnique(len - width, width, n - 1, 0);
  }

  lemma NoLess(width: nat, depth: nat, k: nat)
    requires depth <= k
    ensures width * depth <= width * k
  {
  }

  lemma CopiesStart(m: Mem, off: nat, line: seq<byte>)
    requires off <= |m|
    ensures |Repeated(line, 0)| == 0 && Patch(m, off, Repeated(line, 0)) == m
  {
    PatchNothing(m, off);
  }

  lemma CopiesMore(m: Mem, off: nat, line: seq<byte>, i: nat)
    requires off + |Repeated(line, i)| + |line| <= |m|
    ensures |Repeated(line, i + 1)| == |Repeated(line, i)| + |line|
    ensures Patch(Patch(m, off, Repeated(line, i)), off + |Repeated(line, i)|, line)
      == Patch(m, off, Repeated(line, i + 1))
  {
    PatchAdjacent(m, off, Repeated(line, i), line);
  }

  lemma CopiesOf(line: seq<byte>, n: nat, width: nat, len: nat)
    requires width > 0 && |Repeated(line, n)| == len && (len > 0 ==> |line| == width)
    ensures Repeated(line, LineNo(width, len)) == Repeated(line, n)
  {
    if len > 0 {
      ModuloUnique(len, width, n, 0);
    } else {
      NoBytes(Repeated(line, 0), Repeated(line, n));
    }
  }

  lemma NoBytes(a: seq<byte>, b: seq<byte>)
    requires |a| == |b| == 0
    ensures a == b
  {
  }

  lemma LineAt(mem: Lines, width: nat, depth: nat, taddr: nat)
    requires width > 0 && Regular(mem, width, depth)
    requires Aligned(width, taddr) && taddr + width <= Extent(width, depth)
    requires LineNo(width, taddr) in mem
    ensures |mem[LineNo(width, taddr)]| == width
    ensures Flat(mem, width, depth)[taddr..taddr + width] == mem[LineNo(width, taddr)]
  {
    NextLine(width, depth, taddr);
    FlatLine(mem, width, depth, LineNo(width, taddr));
  }

  lemma UpdateAt(mem: Lines, width: nat, depth: nat, taddr: nat, line: seq<byte>)
    requires width > 0 && Regular(mem, width, depth) && |line| == width
    requires Aligned(width, taddr) && taddr + width <= Extent(width, depth)
    ensures Regular(mem[LineNo(width, taddr) := line], width, depth)
    ensures Flat(mem[LineNo(width, taddr) := line], width, depth) == Patch(Flat(mem, width, depth), taddr, line)
  {
    NextLine(width, depth, taddr);
    FlatUpdate(mem, width, depth, LineNo(width, taddr), line);
  }
}
