/** The tethered serial interface: memory commands as a stream of 32-bit words, with
    writes that nobody acknowledges. */
module Tsi {
  import opened Words
  import opened Memory

  const SAI_CMD_READ: u32 := 0
  const SAI_CMD_WRITE: u32 := 1
  const SAI_ADDR_CHUNKS: nat := 2
  const SAI_LEN_CHUNKS: nat := 2

  // ------------------------------------------------------- words and bytes

  /** The bytes of words, in the byte order of host and target. */
  function BytesOf(words: seq<u32>): (bs: seq<byte>)
    ensures |bs| == 4 * |words|
  {
    if words == [] then [] else Bytes(words[0], 4) + BytesOf(words[1..])
  }

  /** Bytes seen through a pointer to 32-bit words. */
  function WordsOfBytes(bs: seq<byte>): (words: seq<u32>)
    ensures |words| == |bs| / 4
  {
    if |bs| < 4 then [] else [WordOf(bs[..4])] + WordsOfBytes(bs[4..])
  }

  function WordOf(bs: seq<byte>): u32
    requires |bs| == 4
  {
    ValueBound(bs);
    Pow256Values();
    Value(bs)
  }

  lemma {:induction false} BytesOfWords(bs: seq<byte>)
    requires |bs| % 4 == 0
    ensures BytesOf(WordsOfBytes(bs)) == bs
  {
    if bs != [] {
      BytesOfValue(bs[..4]);
      BytesOfWords(bs[4..]);
      assert bs == bs[..4] + bs[4..];
    }
  }

  lemma {:induction false} BytesOfAppend(a: seq<u32>, b: seq<u32>)
    ensures BytesOf(a + b) == BytesOf(a) + BytesOf(b)
  {
    if a == [] {
      assert a + b == b;
    } else {
      assert (a + b)[1..] == a[1..] + b;
      BytesOfAppend(a[1..], b);
    }
  }

  // --------------------------------------------------- commands on the wire

  datatype Command = Read(addr: u64, count: nat) | Write(addr: u64, words: seq<u32>)

  /** At least one word, and a count that fits 64 bits. */
  predicate Sendable(c: Command) {
    match c
    case Read(_, n) => 1 <= n <= TWO_64
    case Write(_, words) => 1 <= |words| <= TWO_64
  }

  function Halves(v: u64): seq<u32> {
    [v % TWO_32, v / TWO_32]
  }

  function Encode(c: Command): seq<u32>
    requires Sendable(c)
  {
    match c
    case Read(a, n) => [SAI_CMD_READ] + Halves(a) + Halves(n - 1)
    case Write(a, words) => [SAI_CMD_WRITE] + Halves(a) + Halves(|words| - 1) + words
  }

  /** The commands word by word: the operation, the address and one less than the count of
      words, each low half first, and the words of a write. */
  lemma WireFormat(c: Command)
    requires Sendable(c)
    ensures c.Read? ==>
      Encode(c) == [0, c.addr % TWO_32, c.addr / TWO_32, (c.count - 1) % TWO_32, (c.count - 1) / TWO_32]
    ensures c.Write? ==>
      Encode(c) ==
        [1, c.addr % TWO_32, c.addr / TWO_32, (|c.words| - 1) % TWO_32, (|c.words| - 1) / TWO_32] + c.words
  {
  }

  type Count = n: nat | n > 0 witness 1

  // -------------------------------------------------------------- the target

  /** What the target expects next. */
  datatype Phase =
    | Idle
    | AddrLow(op: u32)
    | AddrHigh(op: u32, low: u32)
    | LenLow(op: u32, addr: u64)
    | LenHigh(op: u32, addr: u64, low: u32)
    | Storing(addr: u64, words: seq<u32>, left: Count)
    | Replying(from: nat, left: Count)

  /** The target's memory, what it expects, and the commands it has received in full. */
  datatype Target = Target(mem: Mem, phase: Phase, received: seq<Command>)

  function StoreWord(m: Mem, a: nat, w: u32): (r: Mem)
    ensures |r| == |m|
  {
    if a + 4 <= |m| then Patch(m, a, Bytes(w, 4)) else m
  }

  function LoadWord(m: Mem, a: nat): u32 {
    if a + 4 <= |m| then WordOf(m[a..a + 4]) else 0
  }

  function LoadWords(m: Mem, a: nat, n: nat): (words: seq<u32>)
    ensures |words| == n
    decreases n
  {
    if n == 0 then [] else [LoadWord(m, a)] + LoadWords(m, a + 4, n - 1)
  }

  /** One word taken off the stream. */
  function Consume(t: Target, w: u32): (r: Target)
    requires !t.phase.Replying?
    ensures |r.mem| == |t.mem|
  {
    match t.phase
    case Idle => if w == 0 || w == 1 then t.(phase := AddrLow(w)) else t
    case AddrLow(op) => t.(phase := AddrHigh(op, w))
    case AddrHigh(op, low) => t.(phase := LenLow(op, low + TWO_32 * w))
    case LenLow(op, a) => t.(phase := LenHigh(op, a, w))
    case LenHigh(op, a, low) =>
      var n := low + TWO_32 * w + 1;
      if op == 0 then t.(phase := Replying(a, n), received := t.received + [Read(a, n)])
      else t.(phase := Storing(a, [], n))
    case Storing(a, words, left) =>
      var s := t.(mem := StoreWord(t.mem, a + 4 * |words|, w));
      if left == 1 then s.(phase := Idle, received := t.received + [Write(a, words + [w])])
      else s.(phase := Storing(a, words + [w], left - 1))
  }

  /** The words the target is about to send. */
  function Pending(t: Target): seq<u32> {
    if t.phase.Replying? then LoadWords(t.mem, t.phase.from, t.phase.left) else []
  }

  /** The target when it has sent them. */
  function Settle(t: Target): (r: Target)
    ensures !r.phase.Replying? && r.mem == t.mem
  {
    if t.phase.Replying? then t.(phase := Idle) else t
  }

  /** The target when it has taken in, and answered, all these words. */
  function Apply(t: Target, words: seq<u32>): (r: Target)
    ensures !r.phase.Replying? && |r.mem| == |t.mem|
    decreases |words|
  {
    if words == [] then Settle(t) else Apply(Consume(Settle(t), words[0]), words[1..])
  }

  /** All it sends meanwhile. */
  function Replies(t: Target, words: seq<u32>): seq<u32>
    decreases |words|
  {
    Pending(t) + if words == [] then [] else Replies(Consume(Settle(t), words[0]), words[1..])
  }

  /** However the stream is cut, the target ends up in the same state... */
  lemma {:induction false} ApplyConcat(t: Target, a: seq<u32>, b: seq<u32>)
    ensures Apply(t, a + b) == Apply(Apply(t, a), b)
    decreases |a|
  {
    if a == [] {
      assert a + b == b;
    } else {
      assert (a + b)[1..] == a[1..] + b;
      ApplyConcat(Consume(Settle(t), a[0]), a[1..], b);
    }
  }

  /** ... and sends the same words. */
  lemma {:induction false} RepliesConcat(t: Target, a: seq<u32>, b: seq<u32>)
    ensures Replies(t, a + b) == Replies(t, a) + Replies(Apply(t, a), b)
    decreases |a|
  {
    if a == [] {
      assert a + b == b;
    } else {
      assert (a + b)[1..] == a[1..] + b;
      RepliesConcat(Consume(Settle(t), a[0]), a[1..], b);
    }
  }

  // ------------------------------------------------------- a prefix code

  lemma TakeOne(t: Target, w: u32, rest: seq<u32>)
    requires !t.phase.Replying?
    ensures Apply(t, [w] + rest) == Apply(Consume(t, w), rest)
    ensures Replies(t, [w] + rest) == Replies(Consume(t, w), rest)
  {
    assert ([w] + rest)[1..] == rest;
  }

  /** The target after the header of a command. */
  function Headed(t: Target, op: u32, a: u64, n: Count): Target {
    if op == SAI_CMD_READ then t.(phase := Replying(a, n), received := t.received + [Read(a, n)])
    else t.(phase := Storing(a, [], n))
  }

  lemma HeaderWords(t: Target, op: u32, a: u64, n: Count) returns (t1: Target, t2: Target, t3: Target, t4: Target)
    requires t.phase.Idle? && n <= TWO_64 && (op == SAI_CMD_READ || op == SAI_CMD_WRITE)
    ensures !t1.phase.Replying? && !t2.phase.Replying? && !t3.phase.Replying? && !t4.phase.Replying?
    ensures Consume(t, op) == t1 && Consume(t1, a % TWO_32) == t2 && Consume(t2, a / TWO_32) == t3
    ensures Consume(t3, (n - 1) % TWO_32) == t4 && Consume(t4, (n - 1) / TWO_32) == Headed(t, op, a, n)
  {
    t1 := t.(phase := AddrLow(op));
    t2 := t.(phase := AddrHigh(op, a % TWO_32));
    t3 := t.(phase := LenLow(op, a));
    t4 := t.(phase := LenHigh(op, a, (n - 1) % TWO_32));
  }

  /** The header says where and how much. */
  lemma ApplyHeader(t: Target, op: u32, a: u64, n: Count)
    requires t.phase.Idle? && n <= TWO_64 && (op == SAI_CMD_READ || op == SAI_CMD_WRITE)
    ensures var h := [op] + Halves(a) + Halves(n - 1);
      Apply(t, h) == Settle(Headed(t, op, a, n)) && Replies(t, h) == Pending(Headed(t, op, a, n))
  {
    var t1, t2, t3, t4 := HeaderWords(t, op, a, n);
    var a0, a1, n0, n1 := a % TWO_32, a / TWO_32, (n - 1) % TWO_32, (n - 1) / TWO_32;
    assert [op] + Halves(a) + Halves(n - 1) == [op] + ([a0] + ([a1] + ([n0] + ([n1] + []))));
    TakeOne(t, op, [a0] + ([a1] + ([n0] + ([n1] + []))));
    hide Consume, Headed;
    TakeOne(t1, a0, [a1] + ([n0] + ([n1] + [])));
    TakeOne(t2, a1, [n0] + ([n1] + []));
    TakeOne(t3, n0, [n1] + []);
    TakeOne(t4, n1, []);
  }

  /** How many words of the header are still to come. */
  function HeaderLeft(p: Phase): nat {
    match p
    case Idle => 5
    case AddrLow(_) => 4
    case AddrHigh(_, _) => 3
    case LenLow(_, _) => 2
    case LenHigh(_, _, _) => 1
    case _ => 0
  }

  /** No reply before the header is complete. */
  lemma {:induction false} NoEarlyReply(t: Target, words: seq<u32>)
    requires |words| < HeaderLeft(t.phase)
    ensures Replies(t, words) == []
    decreases |words|
  {
    if words != [] {
      var r := Consume(t, words[0]);
      NoEarlyReply(r, words[1..]);
    }
  }

  /** A payload lands in memory, word by word. */
  lemma {:induction false} ApplyPayload(t: Target, words: seq<u32>)
    requires t.phase.Storing? && t.phase.left == |words| > 0
    ensures Replies(t, words) == []
    ensures var r := Apply(t, words);
      && r.phase.Idle? && r.received == t.received + [Write(t.phase.addr, t.phase.words + words)]
      && var at := t.phase.addr + 4 * |t.phase.words|;
      && (at + 4 * |words| <= |t.mem| ==> r.mem == Patch(t.mem, at, BytesOf(words)))
    decreases |words|
  {
    hide Bytes, Patch;
    var a, had := t.phase.addr, t.phase.words;
    var at := a + 4 * |had|;
    var r := Consume(t, words[0]);
    if |words| == 1 {
      assert words == [words[0]] && words[1..] == [];
      assert BytesOf(words) == Bytes(words[0], 4);
    } else {
      ApplyPayload(r, words[1..]);
      if at + 4 * |words| <= |t.mem| {
        PatchAdjacent(t.mem, at, Bytes(words[0], 4), BytesOf(words[1..]));
      }
      assert (had + [words[0]]) + words[1..] == had + words;
    }
  }

  predicate Fits(size: nat, c: Command) {
    match c
    case Read(a, n) => a + 4 * n <= size
    case Write(a, words) => a + 4 * |words| <= size
  }

  /** What a command does to the memory it is meant for. */
  function Effect(m: Mem, c: Command): (r: Mem)
    requires Fits(|m|, c)
    ensures |r| == |m|
  {
    match c
    case Read(_, _) => m
    case Write(a, words) => Patch(m, a, BytesOf(words))
  }

  function Answer(m: Mem, c: Command): seq<u32> {
    match c
    case Read(a, n) => LoadWords(m, a, n)
    case Write(_, _) => []
  }

  /** One command, taken in by an idle target. */
  lemma ApplyCommand(t: Target, c: Command)
    requires t.phase.Idle? && Sendable(c)
    ensures Replies(t, Encode(c)) == Answer(t.mem, c)
    ensures var r := Apply(t, Encode(c));
      && r.phase.Idle? && r.received == t.received + [c]
      && (Fits(|t.mem|, c) ==> r.mem == Effect(t.mem, c))
  {
    match c
    case Read(a, n) =>
      ApplyHeader(t, SAI_CMD_READ, a, n);
    case Write(a, words) =>
      ApplyHeader(t, SAI_CMD_WRITE, a, |words|);
      var h := [SAI_CMD_WRITE] + Halves(a) + Halves(|words| - 1);
      ApplyConcat(t, h, words);
      RepliesConcat(t, h, words);
      ApplyPayload(Apply(t, h), words);
      assert Encode(c) == h + words;
      assert [] + words == words;
  }

  function EncodeAll(cs: seq<Command>): seq<u32>
    requires forall c :: c in cs ==> Sendable(c)
  {
    if cs == [] then [] else Encode(cs[0]) + EncodeAll(cs[1..])
  }

  function Effects(m: Mem, cs: seq<Command>): (r: Mem)
    requires forall c :: c in cs ==> Fits(|m|, c)
    ensures |r| == |m|
    decreases |cs|
  {
    if cs == [] then m else Effects(Effect(m, cs[0]), cs[1..])
  }

  lemma {:induction false} CommandsApplied(t: Target, cs: seq<Command>)
    requires t.phase.Idle? && forall c :: c in cs ==> Sendable(c)
    ensures var r := Apply(t, EncodeAll(cs));
      && r.phase.Idle? && r.received == t.received + cs
      && ((forall c :: c in cs ==> Fits(|t.mem|, c)) ==> r.mem == Effects(t.mem, cs))
    decreases |cs|
  {
    hide Consume, Replies, Encode, Effect, Answer, Fits, Sendable;
    if cs != [] {
      hide Apply;
      var u := Apply(t, Encode(cs[0]));
      ApplyCommand(t, cs[0]);
      ApplyConcat(t, Encode(cs[0]), EncodeAll(cs[1..]));
      CommandsApplied(u, cs[1..]);
      assert t.received + [cs[0]] + cs[1..] == t.received + cs;
      assert forall c :: c in cs[1..] ==> c in cs;
    }
  }

  /** The word stream is a prefix code: an idle target recovers any sequence of commands,
      carries them out in order and is idle again, wherever the stream is cut. */
  lemma StreamRecovered(t: Target, cs: seq<Command>, cut: nat)
    requires t.phase.Idle? && (forall c :: c in cs ==> Sendable(c)) && cut <= |EncodeAll(cs)|
    ensures var r := Apply(Apply(t, EncodeAll(cs)[..cut]), EncodeAll(cs)[cut..]);
      && r.phase.Idle? && r.received == t.received + cs
      && ((forall c :: c in cs ==> Fits(|t.mem|, c)) ==> r.mem == Effects(t.mem, cs))
  {
    hide Consume, Apply, EncodeAll, Fits, Effects, Sendable;
    ApplyConcat(t, EncodeAll(cs)[..cut], EncodeAll(cs)[cut..]);
    assert EncodeAll(cs)[..cut] + EncodeAll(cs)[cut..] == EncodeAll(cs);
    CommandsApplied(t, cs);
  }

  /** No stream of commands continues another as anything but more commands. */
  lemma StreamIsPrefixFree(cs: seq<Command>, ds: seq<Command>)
    requires forall c :: c in cs ==> Sendable(c)
    requires forall c :: c in ds ==> Sendable(c)
    requires EncodeAll(cs) <= EncodeAll(ds)
    ensures cs <= ds
  {
    hide Consume, Apply, EncodeAll, Fits, Effects, Sendable;
    var t := Target([], Idle, []);
    CommandsApplied(t, cs);
    CommandsApplied(t, ds);
    var rest := EncodeAll(ds)[|EncodeAll(cs)|..];
    assert EncodeAll(ds) == EncodeAll(cs) + rest;
    ApplyConcat(t, EncodeAll(cs), rest);
    assert t.received + cs == cs && t.received + ds == ds;
    ReceivedGrows(Apply(t, EncodeAll(cs)), rest);
  }

  lemma {:induction false} ReceivedGrows(t: Target, words: seq<u32>)
    ensures t.received <= Apply(t, words).received
    decreases |words|
  {
    if words != [] {
      ReceivedGrows(Consume(Settle(t), words[0]), words[1..]);
    }
  }

  /** Memory read back as words and then as bytes. */
  lemma {:induction false} LoadedBytes(m: Mem, a: nat, n: nat)
    requires a + 4 * n <= |m|
    ensures BytesOf(LoadWords(m, a, n)) == m[a..a + 4 * n]
    decreases n
  {
    if n > 0 {
      LoadedBytes(m, a + 4, n - 1);
      BytesOfValue(m[a..a + 4]);
      assert m[a..a + 4] + m[a + 4..a + 4 * n] == m[a..a + 4 * n];
    }
  }

  // ------------------------------------------------------- the two queues

  /** The target once it has sent the next word of its reply. */
  function Emitted(t: Target): Target
    requires t.phase.Replying?
  {
    t.(phase := if t.phase.left == 1 then Idle else Replying(t.phase.from + 4, t.phase.left - 1))
  }

  lemma EmitOne(t: Target, words: seq<u32>)
    requires t.phase.Replying?
    ensures Apply(t, words) == Apply(Emitted(t), words)
    ensures Replies(t, words) == [LoadWord(t.mem, t.phase.from)] + Replies(Emitted(t), words)
  {
    hide Consume;
  }

  /** No proper prefix of the queued words makes the target reply. */
  ghost predicate NothingEarly(t: Target, words: seq<u32>) {
    forall k: nat :: k < |words| ==> Replies(t, words[..k]) == []
  }

  lemma NothingEarlyTaken(t: Target, words: seq<u32>)
    requires NothingEarly(t, words) && words != [] && !t.phase.Replying?
    ensures NothingEarly(Consume(t, words[0]), words[1..])
  {
    var r := Consume(t, words[0]);
    forall k: nat | k < |words| - 1 ensures Replies(r, words[1..][..k]) == [] {
      assert words[..k + 1] == [words[0]] + words[1..][..k];
      TakeOne(t, words[0], words[1..][..k]);
      assert Replies(t, words[..k + 1]) == [];
    }
  }

  /** Replies start only when the whole queue has been taken in. */
  ghost predicate LastReplies(t: Target, ins: seq<u32>, outs: seq<u32>) {
    NothingEarly(t, ins) && (outs != [] ==> ins == [])
  }

  /** What no activity of the target changes: where it is heading and what the host gets. */
  ghost predicate SamePromises(t: Target, ins: seq<u32>, outs: seq<u32>, t': Target, ins': seq<u32>, outs': seq<u32>) {
    && Apply(t', ins') == Apply(t, ins)
    && outs' + Replies(t', ins') == outs + Replies(t, ins)
    && (LastReplies(t, ins, outs) ==> LastReplies(t', ins', outs'))
  }

  lemma FirstQuiet(t: Target, words: seq<u32>)
    requires NothingEarly(t, words) && words != []
    ensures !t.phase.Replying?
  {
    assert Replies(t, words[..0]) == [];
  }

  lemma ReplyKeepsPromises(t: Target, ins: seq<u32>, outs: seq<u32>)
    requires t.phase.Replying?
    ensures var t', outs' := Emitted(t), outs + [LoadWord(t.mem, t.phase.from)];
      SamePromises(t, ins, outs, t', ins, outs') && |Replies(t', ins)| < |Replies(t, ins)|
  {
    EmitOne(t, ins);
    var w := LoadWord(t.mem, t.phase.from);
    if LastReplies(t, ins, outs) && ins != [] { FirstQuiet(t, ins); }
    hide Apply, Replies, LoadWord;
    assert outs + ([w] + Replies(Emitted(t), ins)) == outs + [w] + Replies(Emitted(t), ins);
  }

  lemma TakeKeepsPromises(t: Target, ins: seq<u32>, outs: seq<u32>)
    requires !t.phase.Replying? && ins != []
    ensures var t' := Consume(t, ins[0]);
      SamePromises(t, ins, outs, t', ins[1..], outs) && |Replies(t', ins[1..])| == |Replies(t, ins)|
  {
    assert ins == [ins[0]] + ins[1..];
    TakeOne(t, ins[0], ins[1..]);
    if LastReplies(t, ins, outs) { NothingEarlyTaken(t, ins); }
    hide Apply, Replies, NothingEarly, Consume;
  }

  /** A command put at the end of the queue. */
  lemma Queueing(t: Target, ins: seq<u32>, c: Command)
    requires Replies(t, ins) == [] && Apply(t, ins).phase.Idle? && Sendable(c) && Fits(|t.mem|, c)
    ensures var u, r := Apply(t, ins), Apply(t, ins + Encode(c));
      && r == u.(mem := Effect(u.mem, c), received := u.received + [c])
      && Replies(t, ins + Encode(c)) == Answer(u.mem, c)
  {
    ApplyConcat(t, ins, Encode(c));
    RepliesConcat(t, ins, Encode(c));
    ApplyCommand(Apply(t, ins), c);
    hide Apply, Replies, Encode, Consume, Effect, Answer;
  }

  lemma QueueingRead(t: Target, ins: seq<u32>, outs: seq<u32>, a: u64, n: Count)
    requires outs + Replies(t, ins) == [] && Apply(t, ins).phase.Idle? && n <= TWO_64 && a + 4 * n <= |t.mem|
    ensures var u, ins' := Apply(t, ins), ins + Encode(Read(a, n));
      && Apply(t, ins') == u.(received := u.received + [Read(a, n)])
      && outs + Replies(t, ins') == LoadWords(u.mem, a, n)
      && LastReplies(t, ins', outs)
  {
    Queueing(t, ins, Read(a, n));
    QueuedReadIsLast(t, ins, a, n);
    hide Apply, Replies, Encode, NothingEarly, LoadWords;
  }

  lemma QueuedReadIsLast(t: Target, ins: seq<u32>, a: u64, n: nat)
    requires Replies(t, ins) == [] && Apply(t, ins).phase.Idle? && 1 <= n <= TWO_64
    ensures NothingEarly(t, ins + Encode(Read(a, n)))
  {
    var h := Encode(Read(a, n));
    forall k: nat | k < |ins + h| ensures Replies(t, (ins + h)[..k]) == [] {
      hide Apply, Replies, Consume;
      if k <= |ins| {
        assert (ins + h)[..k] == ins[..k];
        assert ins[..k] + ins[k..] == ins;
        RepliesConcat(t, ins[..k], ins[k..]);
      } else {
        assert (ins + h)[..k] == ins + h[..k - |ins|];
        RepliesConcat(t, ins, h[..k - |ins|]);
        NoEarlyReply(Apply(t, ins), h[..k - |ins|]);
      }
    }
  }

  /** One more word of the result in the caller's buffer. */
  lemma ResultGrows(dst: seq<byte>, at: nat, words: seq<u32>, i: nat)
    requires i < |words| && at + 4 * |words| <= |dst|
    ensures Patch(Patch(dst, at, BytesOf(words[..i])), at + 4 * i, Bytes(words[i], 4))
      == Patch(dst, at, BytesOf(words[..i + 1]))
  {
    assert words[..i + 1] == words[..i] + [words[i]];
    BytesOfAppend(words[..i], [words[i]]);
    assert BytesOf([words[i]]) == Bytes(words[i], 4);
    PatchAdjacent(dst, at, BytesOf(words[..i]), Bytes(words[i], 4));
  }

  class Interface {
    var inData: seq<u32>
    var outData: seq<u32>
    var target: Target

    constructor (memory: Mem)
      ensures View() == memory && Sent() == [] && AtRest() && Drained()
    {
      inData, outData := [], [];
      target := Target(memory, Idle, []);
    }

    /** Memory as it will be when the target has taken in all that is queued. */
    ghost function View(): Mem
      reads this
    {
      Apply(target, inData).mem
    }

    /** Every command issued so far, received or still queued. */
    ghost function Sent(): seq<Command>
      reads this
    {
      Apply(target, inData).received
    }

    /** The words the host has still to take from the target, sent or not. */
    ghost function Due(): seq<u32>
      reads this
    {
      outData + Replies(target, inData)
    }

    /** Between operations nothing is due, but writes may be queued. */
    ghost predicate AtRest()
      reads this
    {
      Due() == [] && Apply(target, inData).phase.Idle?
    }

    predicate Drained()
      reads this
    {
      inData == [] && outData == []
    }

    ghost function Work(): nat
      reads this
    {
      |inData| + |Replies(target, inData)|
    }

    // -------------------------------------------- the target's side of the queues

    method SendWord(word: u32)
      modifies this`outData
      ensures outData == old(outData) + [word]
    {
      outData := outData + [word];
    }

    method RecvWord() returns (word: u32)
      requires inData != []
      modifies this`inData
      ensures old(inData) == [word] + inData
    {
      word := inData[0];
      inData := inData[1..];
    }

    predicate DataAvailable()
      reads this
    {
      inData != []
    }

    /** One clock cycle of a target with ready/valid queues. */
    method Tick(outValid: bool, outBits: u32, inReady: bool)
      modifies this`inData, this`outData
      ensures outData == old(outData) + (if outValid then [outBits] else [])
      ensures inData == if inReady && old(inData) != [] then old(inData)[1..] else old(inData)
    {
      if outValid {
        outData := outData + [outBits];
      }
      if inData != [] && inReady {
        inData := inData[1..];
      }
    }

    twostate predicate Promised()
      reads this
    {
      SamePromises(old(target), old(inData), old(outData), target, inData, outData)
    }

    /** The target sends the next word of a reply. */
    method Reply(ticks: bool)
      requires target.phase.Replying?
      modifies this
      ensures Promised() && Work() < old(Work())
    {
      hide Apply, Replies, NothingEarly, LastReplies, SamePromises, LoadWord, Emitted;
      ReplyKeepsPromises(target, inData, outData);
      var word := LoadWord(target.mem, target.phase.from);
      target := Emitted(target);
      if ticks { Tick(true, word, false); } else { SendWord(word); }
    }

    /** The target takes in the next word. */
    method Take(ticks: bool)
      requires !target.phase.Replying? && inData != []
      modifies this
      ensures Promised() && Work() < old(Work())
    {
      hide Apply, Replies, NothingEarly, LastReplies, SamePromises, Consume;
      TakeKeepsPromises(target, inData, outData);
      ghost var rest := inData[1..];
      target := Consume(target, inData[0]);
      if ticks { Tick(false, 0, true); } else { var word := RecvWord(); }
      assert inData == rest && outData == old(outData);
    }

    /** The target does one thing, by either of its interfaces, if it can do any. */
    method TargetStep()
      modifies this
      ensures Promised() && Work() <= old(Work())
      ensures old(outData) == [] && old(Due()) != [] ==> Work() < old(Work())
    {
      var ticks: bool := *;
      if target.phase.Replying? {
        Reply(ticks);
      } else if DataAvailable() {
        Take(ticks);
      } else if ticks {
        Tick(false, 0, true);
      }
    }

    /** The target runs for an arbitrary, positive number of steps. */
    method SwitchToTarget()
      modifies this
      ensures Promised() && Work() <= old(Work())
      ensures old(outData) == [] && old(Due()) != [] ==> Work() < old(Work())
    {
      TargetStep();
      var k: nat := *;
      while k > 0
        invariant Promised() && Work() <= old(Work())
        invariant old(outData) == [] && old(Due()) != [] ==> Work() < old(Work())
      {
        TargetStep();
        k := k - 1;
      }
    }

    // ------------------------------------------------------ the host's operations

    method PushAddr(taddr: u64)
      modifies this`inData
      ensures inData == old(inData) + Halves(taddr)
    {
      var addr := taddr;
      var i := 0;
      while i < SAI_ADDR_CHUNKS
        invariant i <= 2 && addr == [taddr, taddr / TWO_32, 0][i]
        invariant inData == old(inData) + Halves(taddr)[..i]
      {
        inData := inData + [addr % TWO_32];
        addr := addr / TWO_32;
        i := i + 1;
      }
    }

    method PushLen(length: u64)
      modifies this`inData
      ensures inData == old(inData) + Halves(length)
    {
      var len := length;
      var i := 0;
      while i < SAI_LEN_CHUNKS
        invariant i <= 2 && len == [length, length / TWO_32, 0][i]
        invariant inData == old(inData) + Halves(length)[..i]
      {
        inData := inData + [len % TWO_32];
        len := len / TWO_32;
        i := i + 1;
      }
    }

    method PushRead(taddr: u64, len: Count)
      requires len <= TWO_64
      modifies this`inData
      ensures inData == old(inData) + Encode(Read(taddr, len))
    {
      inData := inData + [SAI_CMD_READ];
      PushAddr(taddr);
      PushLen(len - 1);
    }

    method PushWrite(taddr: u64, words: seq<u32>)
      requires 1 <= |words| <= TWO_64
      modifies this`inData
      ensures inData == old(inData) + Encode(Write(taddr, words))
    {
      inData := inData + [SAI_CMD_WRITE];
      PushAddr(taddr);
      PushLen(|words| - 1);
      inData := inData + words;
    }

    /** Queues a write and returns at once. */
    method WriteChunk(taddr: u64, nbytes: u64, src: seq<byte>)
      requires AtRest() && nbytes == |src| && nbytes > 0 && nbytes % 4 == 0
      requires taddr + nbytes <= |View()|
      modifies this
      ensures AtRest() && target == old(target)
      ensures View() == Patch(old(View()), taddr, src)
      ensures Sent() == old(Sent()) + [Write(taddr, WordsOfBytes(src))]
    {
      var srcData := WordsOfBytes(src);
      BytesOfWords(src);
      Queueing(target, inData, Write(taddr, srcData));
      hide Apply, Replies, WordsOfBytes, BytesOf, Patch, Encode;
      PushWrite(taddr, srcData);
    }

    /** The command that starts a read. */
    method RequestRead(taddr: u64, len: Count) returns (ghost goal: Target, ghost due: seq<u32>)
      requires AtRest() && taddr + 4 * len <= |View()| && len <= TWO_64
      modifies this`inData
      ensures goal == old(Apply(target, inData)).(received := old(Sent()) + [Read(taddr, len)])
      ensures due == LoadWords(old(View()), taddr, len) && Receiving(goal, due, 0)
    {
      QueueingRead(target, inData, outData, taddr, len);
      hide Apply, Replies, Encode, LoadWords, LastReplies, Sendable;
      PushRead(taddr, len);
      goal, due := Apply(target, inData), Due();
    }

    /** Lets the target run until a word has arrived. */
    method AwaitWord()
      requires Due() != []
      modifies this
      ensures Promised() && outData != []
    {
      hide Apply, Replies, NothingEarly;
      while outData == []
        invariant Promised()
        decreases Work()
      {
        SwitchToTarget();
      }
    }

    /** Queues a read and takes the reply as it comes. Whatever was written before has
        taken effect by then, and both queues are empty at the end. */
    method ReadChunk(taddr: u64, nbytes: u64, dst: array<byte>, at: nat)
      requires AtRest() && nbytes > 0 && nbytes % 4 == 0 && at + nbytes <= dst.Length
      requires taddr + nbytes <= |View()|
      modifies this, dst
      ensures AtRest() && Drained() && View() == old(View())
      ensures Sent() == old(Sent()) + [Read(taddr, nbytes / 4)]
      ensures Copied(old(dst[..]), at, View(), taddr, nbytes, dst[..])
    {
      var len := nbytes / 4;
      ghost var m, before := View(), dst[..];
      ghost var now := Patch(before, at, BytesOf(LoadWords(m, taddr, len)));
      assert Copied(before, at, m, taddr, nbytes, now) by { LoadedBytes(m, taddr, len); }
      hide *;
      ghost var goal, due := RequestRead(taddr, len);
      ReadWords(len, dst, at, goal, due);
      assert dst[..] == now;
    }

    /** Takes the words of a reply one by one. */
    method ReadWords(len: nat, dst: array<byte>, at: nat, ghost goal: Target, ghost due: seq<u32>)
      requires 0 < len == |due| && at + 4 * len <= dst.Length && Receiving(goal, due, 0)
      modifies this, dst
      ensures Apply(target, inData) == goal && Due() == [] && Drained()
      ensures dst[..] == Patch(old(dst[..]), at, BytesOf(due))
    {
      hide Apply, Replies, NothingEarly, Patch;
      ghost var before := dst[..];
      PatchNothing(before, at);
      var i := 0;
      while i < len
        invariant i <= len && dst[..] == Patch(before, at, BytesOf(due[..i])) && Receiving(goal, due, i)
      {
        TakeWord(dst, at, due, i, goal, before);
        i := i + 1;
      }
      assert due[..len] == due;
    }

    /** i of the words due have been taken. */
    ghost predicate Receiving(goal: Target, due: seq<u32>, i: nat)
      reads this
    {
      && Apply(target, inData) == goal && i <= |due| && Due() == due[i..]
      && LastReplies(target, inData, outData) && (i > 0 ==> inData == [])
    }

    method TakeWord(dst: array<byte>, at: nat, ghost due: seq<u32>, i: nat, ghost goal: Target, ghost before: seq<byte>)
      requires i < |due| && at + 4 * |due| <= dst.Length == |before|
      requires Receiving(goal, due, i) && dst[..] == Patch(before, at, BytesOf(due[..i]))
      modifies this, dst
      ensures Receiving(goal, due, i + 1) && dst[..] == Patch(before, at, BytesOf(due[..i + 1]))
    {
      hide Apply, Replies, BytesOf, NothingEarly, Patch, Bytes;
      AwaitWord();
      var word := outData[0];
      outData := outData[1..];
      ResultGrows(before, at, due, i);
      CopyBytes(Bytes(word, 4), dst, at + 4 * i);
    }
  }
}
