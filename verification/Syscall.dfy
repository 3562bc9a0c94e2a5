/** The getmainvars system call: argc, argv, envp and the argument strings laid out in
    guest memory, and how a guest reads them back. */
module Syscall {
  import opened Words
  import opened Memory
  import opened Wrappers
  import opened ChunkedMem
  import opened MemIf

  const ENOMEM: nat := 12

  type Arg = seq<byte>

  predicate NulFree(s: Arg) { forall i :: 0 <= i < |s| ==> s[i] != 0 }

  // ------------------------------------------------------------------- the layout

  /** The strings, each with its terminator, one after the other. */
  function Strings(args: seq<Arg>): seq<byte> {
    if args == [] then [] else Strings(args[..|args| - 1]) + (args[|args| - 1] + [0])
  }

  /** Where string i starts, from the start of the block. */
  function Offset(args: seq<Arg>, i: nat): nat
    requires i <= |args|
  {
    8 * (|args| + 3) + |Strings(args[..i])|
  }

  function MainWord(args: seq<Arg>, pbuf: u64, k: nat): u64
    requires k < |args| + 3 && |args| < TWO_64
  {
    if k == 0 then |args|
    else if k <= |args| then (Offset(args, k - 1) + pbuf) % TWO_64
    else 0
  }

  function Table(args: seq<Arg>, pbuf: u64, k: nat): (bs: seq<byte>)
    requires k <= |args| + 3 && |args| < TWO_64
    ensures |bs| == 8 * k
  {
    if k == 0 then [] else Table(args, pbuf, k - 1) + Bytes(MainWord(args, pbuf, k - 1), 8)
  }

  function Block(args: seq<Arg>, pbuf: u64): (bs: seq<byte>)
    requires |args| < TWO_64
    ensures |bs| == 8 * (|args| + 3) + |Strings(args)|
  {
    Table(args, pbuf, |args| + 3) + Strings(args)
  }

  // --------------------------------------------------------------- the guest's view

  function NumberAt(m: Mem, a: nat): Option<nat> {
    if a + 8 <= |m| then Some(Value(m[a..a + 8])) else None
  }

  /** The bytes from a to the first NUL. */
  function StringAt(m: Mem, a: nat): Option<Arg>
    decreases |m| - a
  {
    if a >= |m| then None
    else if m[a] == 0 then Some([])
    else match StringAt(m, a + 1)
      case None => None
      case Some(rest) => Some([m[a]] + rest)
  }

  /** The strings that the n pointers from argv on point to. */
  function ArgsAt(m: Mem, argv: nat, n: nat): Option<seq<Arg>> {
    if n == 0 then Some([])
    else match (ArgsAt(m, argv, n - 1), NumberAt(m, argv + 8 * (n - 1)))
      case (Some(front), Some(pointer)) =>
        (match StringAt(m, pointer)
         case None => None
         case Some(s) => Some(front + [s]))
      case _ => None
  }

  /** argc, then as many strings; NULL behind argv and an empty envp. */
  function GuestArgs(m: Mem, pbuf: nat): Option<seq<Arg>> {
    match NumberAt(m, pbuf)
    case None => None
    case Some(argc) =>
      if NumberAt(m, pbuf + 8 * (argc + 1)) == Some(0) == NumberAt(m, pbuf + 8 * (argc + 2))
      then ArgsAt(m, pbuf + 8, argc) else None
  }

  // ------------------------------------------------------------------- round trip

  lemma {:induction false} TableWord(args: seq<Arg>, pbuf: u64, n: nat, k: nat)
    requires k < n <= |args| + 3 && |args| < TWO_64
    ensures Table(args, pbuf, n)[8 * k..8 * k + 8] == Bytes(MainWord(args, pbuf, k), 8)
  {
    hide Table, MainWord, Bytes;
    var front, last := Table(args, pbuf, n - 1), Bytes(MainWord(args, pbuf, n - 1), 8);
    TableGrows(args, pbuf, n);
    if k < n - 1 {
      TableWord(args, pbuf, n - 1, k);
      SliceOfFront(front, last, 8 * k, 8);
    } else {
      SliceOfLast(front, last);
    }
  }

  lemma TableGrows(args: seq<Arg>, pbuf: u64, n: nat)
    requires 0 < n <= |args| + 3 && |args| < TWO_64
    ensures Table(args, pbuf, n) == Table(args, pbuf, n - 1) + Bytes(MainWord(args, pbuf, n - 1), 8)
  {
  }

  lemma SliceOfFront(front: seq<byte>, last: seq<byte>, a: nat, n: nat)
    requires a + n <= |front|
    ensures (front + last)[a..a + n] == front[a..a + n]
  {
  }

  lemma SliceOfLast(front: seq<byte>, last: seq<byte>)
    ensures (front + last)[|front|..|front| + |last|] == last
  {
  }

  lemma {:induction false} StringPlace(args: seq<Arg>, i: nat)
    requires i < |args|
    ensures var o := |Strings(args[..i])|;
      o + |args[i]| + 1 <= |Strings(args)| && Strings(args)[o..o + |args[i]| + 1] == args[i] + [0]
  {
    var n := |args| - 1;
    if i < n {
      StringPlace(args[..n], i);
      assert args[..n][..i] == args[..i];
      SliceOfFront(Strings(args[..n]), args[n] + [0], |Strings(args[..i])|, |args[i]| + 1);
    }
  }

  /** Strings follow one another without overlap, behind the table and within the block. */
  lemma StringsApart(args: seq<Arg>, i: nat, j: nat)
    requires i < j <= |args|
    ensures 8 * (|args| + 3) <= Offset(args, i)
    ensures Offset(args, i) + |args[i]| + 1 <= Offset(args, j) <= 8 * (|args| + 3) + |Strings(args)|
  {
    assert args[..j][..i] == args[..i] && args[..j][i] == args[i];
    StringPlace(args[..j], i);
    StringsGrow(args, j);
  }

  lemma {:induction false} StringsGrow(args: seq<Arg>, j: nat)
    requires j <= |args|
    ensures |Strings(args[..j])| <= |Strings(args)|
  {
    if j < |args| {
      var n := |args| - 1;
      StringsGrow(args[..n], j);
      assert args[..n][..j] == args[..j];
    } else {
      assert args[..j] == args;
    }
  }

  lemma {:induction false} StringReads(m: Mem, a: nat, s: Arg)
    requires NulFree(s) && a + |s| + 1 <= |m| && m[a..a + |s| + 1] == s + [0]
    ensures StringAt(m, a) == Some(s)
    decreases |s|
  {
    var w := m[a..a + |s| + 1];
    if s == [] {
      assert w[0] == m[a];
    } else {
      assert w[0] == m[a] && w[0] == s[0];
      assert m[a + 1..a + 1 + |s[1..]| + 1] == w[1..] == s[1..] + [0];
      StringReads(m, a + 1, s[1..]);
      assert [s[0]] + s[1..] == s;
    }
  }

  /** The block is in memory at pbuf. */
  predicate Present(m: Mem, pbuf: u64, args: seq<Arg>) {
    && |args| < TWO_64 && pbuf + |Block(args, pbuf)| <= |m| <= TWO_64
    && m[pbuf..pbuf + |Block(args, pbuf)|] == Block(args, pbuf)
  }

  lemma WordReads(m: Mem, pbuf: u64, args: seq<Arg>, k: nat)
    requires Present(m, pbuf, args) && k < |args| + 3
    ensures NumberAt(m, pbuf + 8 * k) == Some(MainWord(args, pbuf, k))
  {
    hide Table, Strings, MainWord, Value, Bytes;
    TableWord(args, pbuf, |args| + 3, k);
    BlockStarts(args, pbuf, k);
    SliceOfSlice(m, pbuf, |Block(args, pbuf)|, 8 * k, 8);
    Pow256Values();
    ValueOfBytes(MainWord(args, pbuf, k), 8);
  }

  lemma PresentSize(m: Mem, pbuf: u64, args: seq<Arg>)
    requires Present(m, pbuf, args)
    ensures |args| < TWO_64
  {
  }

  lemma BlockStarts(args: seq<Arg>, pbuf: u64, k: nat)
    requires |args| < TWO_64 && k < |args| + 3
    ensures Block(args, pbuf)[8 * k..8 * k + 8] == Table(args, pbuf, |args| + 3)[8 * k..8 * k + 8]
  {
    hide Table, Strings;
  }

  lemma StringIsThere(m: Mem, pbuf: u64, args: seq<Arg>, i: nat)
    requires Present(m, pbuf, args) && i < |args| && NulFree(args[i])
    ensures MainWord(args, pbuf, i + 1) == pbuf + Offset(args, i)
    ensures StringAt(m, pbuf + Offset(args, i)) == Some(args[i])
  {
    hide Strings, StringAt, NulFree, Table;
    var n, o := |args[i]| + 1, |Strings(args[..i])|;
    StringPlace(args, i);
    BlockEnds(args, pbuf, o, n);
    SliceOfSlice(m, pbuf, |Block(args, pbuf)|, 8 * (|args| + 3) + o, n);
    StringReads(m, pbuf + Offset(args, i), args[i]);
  }

  lemma BlockEnds(args: seq<Arg>, pbuf: u64, o: nat, n: nat)
    requires |args| < TWO_64 && o + n <= |Strings(args)|
    ensures var t := 8 * (|args| + 3); Block(args, pbuf)[t + o..t + o + n] == Strings(args)[o..o + n]
  {
    hide Table, Strings;
  }

  lemma {:induction false} ArgsRead(m: Mem, pbuf: u64, args: seq<Arg>, n: nat)
    requires Present(m, pbuf, args) && (forall i :: 0 <= i < |args| ==> NulFree(args[i])) && n <= |args|
    ensures ArgsAt(m, pbuf + 8, n) == Some(args[..n])
  {
    hide *;
    PresentSize(m, pbuf, args);
    if n > 0 {
      ArgsRead(m, pbuf, args, n - 1);
      WordReads(m, pbuf, args, n);
      StringIsThere(m, pbuf, args, n - 1);
      ArgsStep(m, pbuf + 8, args, n, MainWord(args, pbuf, n));
    } else {
      NoArgs(m, pbuf + 8, args);
    }
  }

  lemma NoArgs(m: Mem, argv: nat, args: seq<Arg>)
    ensures ArgsAt(m, argv, 0) == Some(args[..0])
  {
  }

  lemma ArgsStep(m: Mem, argv: nat, args: seq<Arg>, n: nat, pointer: nat)
    requires 0 < n <= |args| && ArgsAt(m, argv, n - 1) == Some(args[..n - 1])
    requires NumberAt(m, argv + 8 * (n - 1)) == Some(pointer) && StringAt(m, pointer) == Some(args[n - 1])
    ensures ArgsAt(m, argv, n) == Some(args[..n])
  {
    hide NumberAt, StringAt;
    assert args[..n - 1] + [args[n - 1]] == args[..n];
  }

  /** A guest that finds the block at pbuf recovers the arguments. */
  lemma GuestRecovers(m: Mem, pbuf: u64, args: seq<Arg>)
    requires Present(m, pbuf, args) && forall i :: 0 <= i < |args| ==> NulFree(args[i])
    ensures GuestArgs(m, pbuf) == Some(args)
  {
    hide Present, NulFree, ArgsAt, NumberAt, Offset;
    PresentSize(m, pbuf, args);
    WordReads(m, pbuf, args, 0);
    WordReads(m, pbuf, args, |args| + 1);
    WordReads(m, pbuf, args, |args| + 2);
    ArgsRead(m, pbuf, args, |args|);
    assert args[..|args|] == args;
  }

  /** Whatever was in memory before: after the system call's write through any transport
      that clears, the guest recovers the arguments. */
  lemma MainVarsRoundTrip(s: Shape, m: Mem, pbuf: u64, args: seq<Arg>)
    requires WellShaped(s) && s.clears && s.base == 0 && |m| == s.size <= TWO_64 && |args| < TWO_64
    requires pbuf + |Block(args, pbuf)| <= TWO_64 && Reachable(s, pbuf, |Block(args, pbuf)|)
    requires forall i :: 0 <= i < |args| ==> NulFree(args[i])
    ensures GuestArgs(WriteResult(JobOf(s, pbuf, |Block(args, pbuf)|), m, Block(args, pbuf)), pbuf) == Some(args)
  {
    var block := Block(args, pbuf);
    var j := JobOf(s, pbuf, |block|);
    assert Sound(j) && j.len == |block| > 0;
    hide Sound, WellShaped, Reachable, NulFree, Table, Strings, WriteResult, JobOf, GuestArgs;
    SoundSizes(j);
    ReadAfterWrite(j, m, block);
    WholeInRange(j);
    GuestRecovers(WriteResult(j, m, block), pbuf, args);
  }

  // ------------------------------------------------------------------ the system call

  /** sys_getmainvars: zero, or minus ENOMEM when the block would exceed the limit. */
  method GetMainVars(memif: MemIf, args: seq<Arg>, pbuf: u64, limit: u64) returns (r: u64)
    requires |args| < TWO_64 && |Block(args, pbuf)| < TWO_64 && memif.Valid()
    requires |Block(args, pbuf)| <= limit ==>
      pbuf + |Block(args, pbuf)| <= TWO_64 && Reachable(Outline(memif.cmemif), pbuf, |Block(args, pbuf)|)
    requires forall i :: 0 <= i < |args| ==> NulFree(args[i])
    modifies memif`calls, Repr(memif.cmemif)
    ensures memif.Valid() && Outline(memif.cmemif) == old(Outline(memif.cmemif))
    ensures r == if |Block(args, pbuf)| > limit then 0xffff_ffff_ffff_fff4 else 0
    ensures View(memif.cmemif) == if r == 0
      then WriteResult(JobOf(Outline(memif.cmemif), pbuf, |Block(args, pbuf)|), old(View(memif.cmemif)),
        Block(args, pbuf))
      else old(View(memif.cmemif))
  {
    hide Working, View, Outline, WellShaped, Reachable, WriteResult, JobOf, Thrifty;
    var bytes := Lay(args, pbuf);
    if |bytes| > limit {
      return TWO_64 - ENOMEM;
    }
    memif.Write(pbuf, |bytes|, bytes);
    return 0;
  }

  /** The table of words, then the buffer that both are copied into. */
  method Lay(args: seq<Arg>, pbuf: u64) returns (block: seq<byte>)
    requires |args| < TWO_64 && |Block(args, pbuf)| < TWO_64
    ensures block == Block(args, pbuf)
  {
    var words, sz := LayWords(args, pbuf);
    var bytes := new byte[sz](_ => 0);
    var k := 0;
    assert bytes[..0] == Table(args, pbuf, 0);
    while k < words.Length
      invariant k <= words.Length == |args| + 3 && bytes.Length == sz >= 8 * words.Length
      invariant forall i :: 0 <= i < words.Length ==> words[i] == MainWord(args, pbuf, i)
      invariant bytes[..8 * k] == Table(args, pbuf, k)
    {
      ghost var before := bytes[..];
      CopyBytes(Bytes(words[k], 8), bytes, 8 * k);
      assert bytes[..8 * (k + 1)] == before[..8 * k] + Bytes(words[k], 8);
      k := k + 1;
    }
    CopyStrings(args, pbuf, words, bytes);
    block := bytes[..];
  }

  method LayWords(args: seq<Arg>, pbuf: u64) returns (words: array<u64>, sz: nat)
    requires |args| < TWO_64
    ensures fresh(words) && words.Length == |args| + 3 && sz == |Block(args, pbuf)|
    ensures forall i :: 0 <= i < words.Length ==> words[i] == MainWord(args, pbuf, i)
  {
    words := new u64[|args| + 3](_ => 0);
    words[0] := |args|;
    // the pointer after the last argument, and the empty environment
    words[|args| + 1] := 0;
    words[|args| + 2] := 0;
    sz := (|args| + 3) * 8;
    var i := 0;
    assert args[..0] == [];
    while i < |args|
      invariant i <= |args| && words.Length == |args| + 3 && sz == Offset(args, i)
      invariant forall k :: 0 <= k < words.Length && (k <= i || k > |args|) ==> words[k] == MainWord(args, pbuf, k)
    {
      words[i + 1] := (sz + pbuf) % TWO_64;
      assert args[..i + 1][..i] == args[..i];
      sz := sz + |args[i]| + 1;
      i := i + 1;
    }
    assert args[..|args|] == args;
  }

  /** strcpy of every argument to where its pointer says. */
  method CopyStrings(args: seq<Arg>, pbuf: u64, words: array<u64>, bytes: array<byte>)
    requires |args| < TWO_64 && words.Length == |args| + 3 && bytes.Length == |Block(args, pbuf)| < TWO_64
    requires forall i :: 0 <= i < words.Length ==> words[i] == MainWord(args, pbuf, i)
    requires bytes[..8 * words.Length] == Table(args, pbuf, words.Length)
    modifies bytes
    ensures bytes[..] == Block(args, pbuf)
  {
    var i := 0;
    assert args[..0] == [] && args[..|args|] == args;
    assert Offset(args, 0) == 8 * (|args| + 3) && Offset(args, |args|) == |Block(args, pbuf)|;
    hide Table, MainWord;
    while i < |args|
      invariant i <= |args| && Offset(args, i) <= bytes.Length
      invariant forall k :: 0 <= k < words.Length ==> words[k] == MainWord(args, pbuf, k)
      invariant bytes[..Offset(args, i)] == Table(args, pbuf, |args| + 3) + Strings(args[..i])
    {
      CopyString(args, pbuf, words[i + 1], bytes, i);
      i := i + 1;
    }
  }

  method CopyString(args: seq<Arg>, pbuf: u64, pointer: u64, bytes: array<byte>, i: nat)
    requires i < |args| < TWO_64 && bytes.Length == |Block(args, pbuf)| < TWO_64
    requires pointer == MainWord(args, pbuf, i + 1)
    requires Offset(args, i) <= bytes.Length
    requires bytes[..Offset(args, i)] == Table(args, pbuf, |args| + 3) + Strings(args[..i])
    modifies bytes
    ensures Offset(args, i + 1) <= bytes.Length
    ensures bytes[..Offset(args, i + 1)] == Table(args, pbuf, |args| + 3) + Strings(args[..i + 1])
  {
    hide *;
    OneString(args, pbuf, i);
    ghost var before, table := bytes[..], Table(args, pbuf, |args| + 3);
    ghost var front := Strings(args[..i]);
    var place := (pointer - pbuf) % TWO_64;
    var text := args[i] + [0];
    CopyBytes(text, bytes, place);
    FrontAfterCopy(before, place, text);
    assert (table + front) + text == table + (front + text);
  }

  lemma OneString(args: seq<Arg>, pbuf: u64, i: nat)
    requires i < |args| < TWO_64 && |Block(args, pbuf)| < TWO_64
    ensures Offset(args, i + 1) == Offset(args, i) + |args[i] + [0]| <= |Block(args, pbuf)|
    ensures Strings(args[..i + 1]) == Strings(args[..i]) + (args[i] + [0])
    ensures (MainWord(args, pbuf, i + 1) - pbuf) % TWO_64 == Offset(args, i)
  {
    StringsApart(args, i, i + 1);
    assert args[..i + 1][..i] == args[..i];
    PointerOffset(Offset(args, i), pbuf);
  }

  lemma FrontAfterCopy(before: seq<byte>, at: nat, src: seq<byte>)
    requires at + |src| <= |before|
    ensures Patch(before, at, src)[..at + |src|] == before[..at] + src
  {
  }

  /** Subtracting pbuf undoes the wrapped addition. */
  lemma PointerOffset(o: nat, pbuf: u64)
    requires o < TWO_64
    ensures ((o + pbuf) % TWO_64 - pbuf) % TWO_64 == o
  {
  }
}
