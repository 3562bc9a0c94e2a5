/** What the command sequences of the chunk operations achieve, one command at a time. */
module DtmChunks {
  import opened Words
  import opened Memory
  import opened Encoding
  import opened DebugModule
  import opened DtmPrograms

  // ------------------------------------------------------- abstract commands

  predicate SendsData(command: bv32) {
    command & AC_WRITE != 0 && command & AC_TRANSFER != 0
  }

  predicate FetchesData(command: bv32) {
    command & AC_WRITE == 0 && command & AC_TRANSFER != 0
  }

  function Overwrite<T>(base: seq<T>, front: seq<T>): (r: seq<T>)
    requires |front| <= |base|
    ensures |r| == |base|
  {
    front + base[|front|..]
  }

  /** The Debug Module when a command with this program and these data words starts. */
  function Prepared(t: Target, command: bv32, program: seq<bv32>, words: seq<u32>): (r: Target)
    requires WF(t) && |program| <= |t.progbuf| && |words| <= |t.data|
    ensures WF(r)
  {
    t.(progbuf := Overwrite(t.progbuf, program),
       data := if SendsData(command) then Overwrite(t.data, words) else t.data,
       command := command,
       phase := Waiting(0))
  }

  /** The data words standing for an xlen-bit value. */
  function WordsOf(xlen: nat, v: u64): (words: seq<u32>) {
    if xlen == 32 then [v % TWO_32] else [v % TWO_32, v / TWO_32]
  }

  lemma PreparedWords(t: Target, command: bv32, program: seq<bv32>, v: u64)
    requires WF(t) && |program| <= |t.progbuf| && SendsData(command) && v < Modulus(t.config.xlen)
    ensures RegFromData(Prepared(t, command, program, WordsOf(t.config.xlen, v))) == v
    ensures Prepared(t, command, program, WordsOf(t.config.xlen, v)).progbuf == Overwrite(t.progbuf, program)
    ensures program <= Overwrite(t.progbuf, program)
  {
    if t.config.xlen == 32 {} else {}
  }

  function WordAt(m: Mem, a: nat, width: nat): nat
    requires a + width <= |m|
  {
    Value(m[a..a + width])
  }

  /** Byte offset of word i. */
  function Pos(xlen: nat, i: nat): nat { i * WordBytes(xlen) }

  function Address(xlen: nat, a: nat, i: nat): (r: nat)
    ensures r < Modulus(xlen)
  {
    (a + i * WordBytes(xlen)) % Modulus(xlen)
  }

  /** Everything is quiet and without error. */
  predicate Calm(t: Target) {
    Settled(t) && t.active && t.selected && t.cmderr.NoError?
  }

  /** A command that writes v to register r, as far as the transfer. */
  lemma RegisterWritten(t: Target, flags: bv32, r: bv32, program: seq<bv32>, v: u64)
    requires Calm(t) && |program| <= |t.progbuf| && r < 32 && v < Modulus(t.config.xlen)
    requires flags == AC_TRANSFER | AC_WRITE || flags == AC_TRANSFER | AC_WRITE | AC_POSTEXEC
    ensures var start := Prepared(t, AccessRegister(t.config.xlen, flags, r), program, WordsOf(t.config.xlen, v));
      && Starting(start) && start.hart == t.hart && start.trace == t.trace && start.config == t.config
      && program <= start.progbuf && RegFromData(start) == v && |start.data| == |t.data|
      && start.command == AccessRegister(t.config.xlen, flags, r)
      && start == t.(progbuf := Overwrite(t.progbuf, program), data := start.data, command := start.command,
        phase := Waiting(0))
  {
    CommandFields(t.config.xlen, flags, r);
    PreparedWords(t, AccessRegister(t.config.xlen, flags, r), program, v);
    hide Advance, AccessRegister, WFHart, WFConfig;
  }

  lemma SetRegIsWithReg(h: Hart, v: u64)
    requires |h.x| == 32
    ensures SetReg(h, RegNo(S0), v) == WithReg(h, 8, v) && SetReg(h, RegNo(S1), v) == WithReg(h, 9, v)
  {
    SmallNumbers();
  }

  lemma WFWithReg(t: Target, phase: Phase, r: nat, v: u64)
    requires WF(t) && 0 < r < 32 && v < Modulus(t.config.xlen)
    ensures WF(t.(phase := phase, hart := WithReg(t.hart, r, v)))
  {
  }

  // ------------------------------------------------------------------ reading

  /** i words from a on have been loaded, one at a time; S1 holds the last one. */
  predicate Fetched(t: Target, h0: Hart, tr0: seq<Event>, a: nat, i: nat)
  {
    && WF(t) && var w := WordBytes(t.config.xlen);
    && 0 < i && |h0.x| == 32 && a + i * w <= |h0.mem|
    && WordAt(h0.mem, a + (i - 1) * w, w) < Modulus(t.config.xlen)
    && t.hart == WithReg(WithReg(h0, 9, WordAt(h0.mem, a + (i - 1) * w, w)), 8, Address(t.config.xlen, a, i))
    && t.trace == tr0 + Loads(a, i, w)
    && ReadProgram(t.config.xlen) <= t.progbuf
  }

  lemma FetchedHart(h0: Hart, s1: u64, s0: u64, v: u64, next: u64)
    requires |h0.x| == 32
    ensures WithReg(WithReg(WithReg(WithReg(h0, 9, s1), 8, s0), 9, v), 8, next) == WithReg(WithReg(h0, 9, v), 8, next)
  {
  }

  /** i words have been loaded and S0 points at word i, which lies at b. */
  predicate FetchDue(u: Target, h0: Hart, tr0: seq<Event>, a: nat, i: nat, b: nat) {
    && Buffered(u, ReadProgram(u.config.xlen)) && PointsAtWord(u, b)
    && b == Address(u.config.xlen, a, i) == a + i * WordBytes(u.config.xlen)
    && Next(u.config.xlen, b) == Address(u.config.xlen, a, i + 1)
    && |h0.x| == 32 && u.hart == WithReg(WithReg(h0, 9, u.hart.x[9]), 8, b)
    && u.trace == tr0 + Loads(a, i, WordBytes(u.config.xlen))
  }

  /** u after the read program has loaded the word at b. */
  function Advanced(u: Target, b: nat): Target
    requires WF(u) && PointsAtWord(u, b) && WordAt(u.hart.mem, b, WordBytes(u.config.xlen)) < Modulus(u.config.xlen)
  {
    var v := WordAt(u.hart.mem, b, WordBytes(u.config.xlen));
    u.(phase := Idle, trace := u.trace + [DebugModule.Loaded(b)],
       hart := WithReg(WithReg(u.hart, 9, v), 8, Next(u.config.xlen, b)))
  }

  lemma LoadsGrow(a: nat, i: nat, w: nat)
    ensures Loads(a, i + 1, w) == Loads(a, i, w) + [DebugModule.Loaded(a + i * w)]
  {
  }

  lemma AdvancedIsFetched(u: Target, h0: Hart, tr0: seq<Event>, a: nat, i: nat, b: nat)
    requires FetchDue(u, h0, tr0, a, i, b)
    requires WordAt(u.hart.mem, b, WordBytes(u.config.xlen)) < Modulus(u.config.xlen)
    ensures Fetched(Advanced(u, b), h0, tr0, a, i + 1)
  {
    var w := WordBytes(u.config.xlen);
    var v := WordAt(u.hart.mem, b, w);
    FetchedHart(h0, u.hart.x[9], b, v, Next(u.config.xlen, b));
    AdvancedIsWell(u, b);
    LoadsGrow(a, i, w);
    Associate(tr0, Loads(a, i, w), [DebugModule.Loaded(b)]);
    hide WF, ReadProgram, Loads, WithReg, Address, Next, Modulus;
    assert u.hart.mem == h0.mem && a + (i + 1) * w == b + w;
  }

  lemma AdvancedIsWell(u: Target, b: nat)
    requires WF(u) && PointsAtWord(u, b) && WordAt(u.hart.mem, b, WordBytes(u.config.xlen)) < Modulus(u.config.xlen)
    ensures WF(Advanced(u, b))
  {
  }

  lemma PointedWord(u: Target, b: nat)
    requires WF(u) && PointsAtWord(u, b)
    ensures WordAt(u.hart.mem, b, WordBytes(u.config.xlen)) < Modulus(u.config.xlen)
  {
    LoadedWord(u, 0, b);
  }

  /** The read program run once more. */
  lemma FetchWord(u: Target, h0: Hart, tr0: seq<Event>, a: nat, i: nat, b: nat) returns (f: Target)
    requires FetchDue(u, h0, tr0, a, i, b)
    ensures Leads(u, 3, f) && WF(f) && Fetched(f, h0, tr0, a, i + 1)
    ensures f == u.(phase := Idle, hart := f.hart, trace := f.trace)
  {
    PointedWord(u, b);
    AdvancedIsWell(u, b);
    AdvancedIsFetched(u, h0, tr0, a, i, b);
    hide Advance, ReadProgram, Fetched, Loads, Address, Next, WF, Modulus;
    f := Advanced(u, b);
    ReadProgramRun(u, b, f);
  }

  lemma AddressOfWord(t: Target, a: nat, n: nat, i: nat)
    requires WF(t) && WordsInMemory(t, a, n) && i < n
    ensures Address(t.config.xlen, a, i) == a + i * WordBytes(t.config.xlen)
    ensures PointsAtWord(t, Address(t.config.xlen, a, i))
    ensures Next(t.config.xlen, Address(t.config.xlen, a, i)) == Address(t.config.xlen, a, i + 1)
  {
    WordOf(t, a, n, i);
    AddressBelow(t.config.xlen, a, i);
    hide PointsAtWord, Address, WordsInMemory, WordBytes;
  }

  lemma AddressBelow(xlen: nat, a: nat, i: nat)
    requires a + (i + 1) * WordBytes(xlen) <= Modulus(xlen)
    ensures Address(xlen, a, i) == a + i * WordBytes(xlen)
    ensures Next(xlen, a + i * WordBytes(xlen)) == Address(xlen, a, i + 1)
  {
    var p := i * WordBytes(xlen);
    assert (i + 1) * WordBytes(xlen) == p + WordBytes(xlen);
    assert WordBytes(xlen) > 0;
    hide WordBytes, Modulus;
    ModuloUnique(a + p, Modulus(xlen), 0, a + p);
  }

  /** The command that points S0 at the first word, as far as the transfer. */
  lemma ReadStart(t: Target, start: Target, a: u64) returns (u: Target)
    requires Calm(t) && PointsAtWord(t, a) && |t.progbuf| >= 3
    requires start == Prepared(t, AccessRegister(t.config.xlen, AC_TRANSFER | AC_WRITE | AC_POSTEXEC, S0),
      ReadProgram(t.config.xlen), WordsOf(t.config.xlen, a))
    ensures Starting(start)
    ensures start.command == AccessRegister(start.config.xlen, AC_TRANSFER | AC_WRITE | AC_POSTEXEC, S0)
    ensures start == t.(progbuf := start.progbuf, data := start.data, command := start.command, phase := Waiting(0))
    ensures |start.data| == |t.data| && |start.progbuf| == |t.progbuf|
    ensures u == start.(phase := Executing(0), hart := SetReg(start.hart, RegNo(S0), RegFromData(start)))
    ensures u.trace == t.trace + Loads(a, 0, WordBytes(u.config.xlen)) && |t.hart.x| == 32 && |u.hart.x| == 32
    ensures WF(u) && WF(start) && S0 < 32
    ensures u.hart == WithReg(WithReg(t.hart, 9, u.hart.x[9]), 8, a)
    ensures Buffered(u, ReadProgram(u.config.xlen)) && PointsAtWord(u, a)
  {
    RegisterWritten(t, AC_TRANSFER | AC_WRITE | AC_POSTEXEC, S0, ReadProgram(t.config.xlen), a);
    SetRegIsWithReg(t.hart, a);
    WFWithReg(start, Executing(0), 8, a);
    hide Advance, AccessRegister, ReadProgram, RegNo, Prepared, SetReg, DataValue, WFHart, WFConfig;
    u := start.(phase := Executing(0), hart := WithReg(t.hart, 8, a));
    assert t.hart.x[9 := u.hart.x[9]] == t.hart.x;
  }

  /** After a command begun in t, everything is quiet again and nothing has changed its size. */
  predicate Back(t: Target, f: Target) {
    Calm(f) && f.config == t.config && f.auto == t.auto && |f.data| == |t.data| && |f.progbuf| == |t.progbuf|
  }

  lemma BackAgain(t: Target, start: Target, f: Target)
    requires Calm(t)
    requires start == t.(progbuf := start.progbuf, data := start.data, command := start.command, phase := Waiting(0))
    requires |start.data| == |t.data| && |start.progbuf| == |t.progbuf|
    requires WF(f) && f == start.(phase := Idle, hart := f.hart, trace := f.trace)
    ensures Back(t, f)
  {
    hide WF;
  }

  lemma FirstIsDue(u: Target, h0: Hart, tr0: seq<Event>, a: u64)
    requires Buffered(u, ReadProgram(u.config.xlen)) && PointsAtWord(u, a)
    requires a == Address(u.config.xlen, a, 0) && Next(u.config.xlen, a) == Address(u.config.xlen, a, 1)
    requires |h0.x| == 32 && |u.hart.x| == 32 && u.hart == WithReg(WithReg(h0, 9, u.hart.x[9]), 8, a)
    requires u.trace == tr0 + Loads(a, 0, WordBytes(u.config.xlen))
    ensures FetchDue(u, h0, tr0, a, 0, a)
  {
    hide Buffered, PointsAtWord, ReadProgram, WithReg, Loads, Address, Next;
  }

  lemma ReadFirst(t: Target, start: Target, a: u64) returns (f: Target)
    requires Calm(t) && PointsAtWord(t, a) && a == Address(t.config.xlen, a, 0)
    requires Next(t.config.xlen, a) == Address(t.config.xlen, a, 1) && |t.progbuf| >= 3
    requires start == Prepared(t, AccessRegister(t.config.xlen, AC_TRANSFER | AC_WRITE | AC_POSTEXEC, S0),
      ReadProgram(t.config.xlen), WordsOf(t.config.xlen, a))
    ensures Leads(start, 4, f) && Back(t, f) && Fetched(f, t.hart, t.trace, a, 1)
  {
    hide *;
    var u := ReadStart(t, start, a);
    FirstIsDue(u, t.hart, t.trace, a);
    f := FetchWord(u, t.hart, t.trace, a, 0, a);
    WriteRegisterAndRun(start, S0, 3, f);
    BackAgain(t, start, f);
  }

  /** A command that only reads a register leaves program and data as they are. */
  lemma NothingSent(t: Target, flags: bv32, r: bv32, words: seq<u32>)
    requires Calm(t) && r < 32 && |words| <= |t.data|
    requires flags == AC_TRANSFER || flags == AC_TRANSFER | AC_POSTEXEC
    ensures Prepared(t, AccessRegister(t.config.xlen, flags, r), [], words)
      == t.(command := AccessRegister(t.config.xlen, flags, r), phase := Waiting(0))
    ensures FetchesData(AccessRegister(t.config.xlen, flags, r))
  {
    CommandFields(t.config.xlen, flags, r);
    hide AccessRegister, WF;
    assert Overwrite(t.progbuf, []) == t.progbuf;
  }

  lemma RegisterFetched(t: Target, v: u64)
    requires WF(t) && v < Modulus(t.config.xlen)
    ensures var u := t.(data := DataFromReg(t, v)); WF(u) && RegFromData(u) == v
  {
  }

  /** Word i - 1 is handed over in the data registers while word i is being loaded. */
  lemma ReadNext(t: Target, start: Target, h0: Hart, tr0: seq<Event>, a: nat, i: nat, b: nat) returns (f: Target)
    requires Calm(t) && Fetched(t, h0, tr0, a, i)
    requires start == t.(command := AccessRegister(t.config.xlen, AC_TRANSFER | AC_POSTEXEC, S1), phase := Waiting(0))
    requires PointsAtWord(t, b) && b == Address(t.config.xlen, a, i) == a + i * WordBytes(t.config.xlen)
    requires Next(t.config.xlen, b) == Address(t.config.xlen, a, i + 1)
    ensures Leads(start, 4, f)
    ensures Calm(f) && f.config == t.config && f.auto == t.auto && |f.data| == |t.data| && |f.progbuf| == |t.progbuf|
    ensures Fetched(f, h0, tr0, a, i + 1) && RegFromData(f) == t.hart.x[9]
  {
    SmallNumbers();
    RegisterFetched(start, t.hart.x[9]);
    var u := start.(phase := Executing(0), data := DataFromReg(start, t.hart.x[9]));
    assert WF(u) && |u.data| == |t.data|;
    hide Advance, AccessRegister, ReadProgram, RegNo, DataFromReg, DataValue, WF;
    f := FetchWord(u, h0, tr0, a, i, b);
    ReadRegisterAndRun(start, S1, 3, f);
  }

  /** The last word is handed over without running the program again. */
  lemma ReadLast(t: Target, start: Target) returns (f: Target)
    requires Calm(t)
    requires start == t.(command := AccessRegister(t.config.xlen, AC_TRANSFER, S1), phase := Waiting(0))
    ensures Leads(start, 1, f)
    ensures Calm(f) && f.config == t.config && f.auto == t.auto && |f.data| == |t.data| && f.progbuf == t.progbuf
    ensures f.hart == t.hart && f.trace == t.trace && RegFromData(f) == t.hart.x[9]
  {
    SmallNumbers();
    RegisterFetched(start, t.hart.x[9]);
    f := start.(phase := Idle, data := DataFromReg(start, t.hart.x[9]));
    assert WF(f);
    hide Advance, AccessRegister, RegNo, DataFromReg, DataValue, WF;
    ReadRegisterCommand(start, S1);
  }

  /** One turn of the read loop: word i is handed over and, unless it is the last, the
      next one loaded. */
  lemma ReadPlan(t: Target, flags: bv32, i: nat, n: nat, a: nat, h0: Hart, tr0: seq<Event>, words: seq<u32>)
      returns (steps: nat, f: Target)
    requires Calm(t) && WordsInMemory(t, a, n) && i < n && Fetched(t, h0, tr0, a, i + 1) && |words| <= |t.data|
    requires flags == if i + 1 < n then AC_TRANSFER | AC_POSTEXEC else AC_TRANSFER
    ensures Leads(Prepared(t, AccessRegister(t.config.xlen, flags, S1), [], words), steps, f)
    ensures FetchesData(AccessRegister(t.config.xlen, flags, S1))
    ensures Back(t, f) && RegFromData(f) == t.hart.x[9]
    ensures if i + 1 < n then Fetched(f, h0, tr0, a, i + 2) else f.hart == t.hart && f.trace == t.trace
  {
    NothingSent(t, flags, S1, words);
    if i + 1 < n { AddressOfWord(t, a, n, i + 1); }
    hide Prepared, AccessRegister, Fetched, WF, WordsInMemory, Address, Next, FetchesData, DataValue, WordBytes,
      PointsAtWord;
    var start := t.(command := AccessRegister(t.config.xlen, flags, S1), phase := Waiting(0));
    if i + 1 < n {
      f := ReadNext(t, start, h0, tr0, a, i + 1, Address(t.config.xlen, a, i + 1));
      steps := 4;
    } else {
      f := ReadLast(t, start);
      steps := 1;
    }
  }

  // ------------------------------------------------------------------ writing

  /** The first i words of src have been stored from a on; S0 points behind them. */
  predicate Written(t: Target, h0: Hart, tr0: seq<Event>, a: nat, src: seq<byte>, i: nat)
  {
    && WF(t) && var w := WordBytes(t.config.xlen);
    && |h0.x| == 32 && Pos(t.config.xlen, i) <= |src| && a + |src| <= |h0.mem|
    && t.hart == WithReg(WithReg(h0, 9, t.hart.x[9]), 8,
      Address(t.config.xlen, a, i)).(mem := Patch(h0.mem, a, src[..Pos(t.config.xlen, i)]))
    && t.trace == tr0 + Stores(a, i, w)
    && WriteProgram(t.config.xlen) <= t.progbuf
  }

  lemma PatchOneMore(m: Mem, a: nat, src: seq<byte>, k: nat, w: nat)
    requires a + |src| <= |m| && k + w <= |src|
    ensures Patch(Patch(m, a, src[..k]), a + k, Bytes(Value(src[k..k + w]), w)) == Patch(m, a, src[..k + w])
  {
    BytesOfValue(src[k..k + w]);
    hide Bytes, Value, Patch;
    PatchAdjacent(m, a, src[..k], src[k..k + w]);
    assert src[..k] + src[k..k + w] == src[..k + w];
  }

  /** The write program run once, with word i of src in S1 and S0 at its place b. */
  lemma StoreWord(u: Target, h0: Hart, tr0: seq<Event>, a: nat, src: seq<byte>, i: nat, b: nat) returns (f: Target)
    requires Buffered(u, WriteProgram(u.config.xlen)) && PointsAtWord(u, b)
    requires var w, k := WordBytes(u.config.xlen), Pos(u.config.xlen, i);
      && b == Address(u.config.xlen, a, i) == a + k && Next(u.config.xlen, b) == Address(u.config.xlen, a, i + 1)
      && |h0.x| == 32 && a + |src| <= |h0.mem| && k + w == Pos(u.config.xlen, i + 1) <= |src|
      && u.hart == WithReg(WithReg(h0, 9, u.hart.x[9]), 8, b).(mem := Patch(h0.mem, a, src[..k]))
      && u.hart.x[9] == Value(src[k..k + w])
      && u.trace == tr0 + Stores(a, i, w)
    ensures Leads(u, 3, f) && Written(f, h0, tr0, a, src, i + 1)
    ensures f == u.(phase := Idle, hart := f.hart, trace := f.trace)
  {
    hide Advance, WriteProgram, Written, Patch, Value, Bytes, Stores, Address, Pos;
    f := Bumped(u, b, u.hart.x[9]);
    WriteProgramRun(u, b, u.hart.x[9], f);
    BumpedIsWritten(u, h0, tr0, a, src, i, b);
  }

  /** u after the write program has stored v at b. */
  function Bumped(u: Target, b: nat, v: u64): Target
    requires WF(u) && PointsAtWord(u, b)
  {
    u.(phase := Idle, trace := u.trace + [Stored(b)], hart := WithReg(u.hart, 8, Next(u.config.xlen, b))
        .(mem := Patch(u.hart.mem, b, Bytes(v, WordBytes(u.config.xlen)))))
  }

  lemma StoresGrow(a: nat, i: nat, w: nat)
    ensures Stores(a, i + 1, w) == Stores(a, i, w) + [Stored(a + i * w)]
  {
  }

  lemma Associate<T>(a: seq<T>, b: seq<T>, c: seq<T>)
    ensures (a + b) + c == a + (b + c)
  {
  }

  lemma SetTwice(h: Hart, v: u64, v': u64)
    requires |h.x| == 32
    ensures WithReg(h, 8, v).x[8 := v'] == WithReg(h, 8, v').x
  {
  }

  lemma BumpedIsWritten(u: Target, h0: Hart, tr0: seq<Event>, a: nat, src: seq<byte>, i: nat, b: nat)
    requires Buffered(u, WriteProgram(u.config.xlen)) && PointsAtWord(u, b)
    requires var w, k := WordBytes(u.config.xlen), Pos(u.config.xlen, i);
      && b == Address(u.config.xlen, a, i) == a + k && Next(u.config.xlen, b) == Address(u.config.xlen, a, i + 1)
      && |h0.x| == 32 && a + |src| <= |h0.mem| && k + w == Pos(u.config.xlen, i + 1) <= |src|
      && u.hart == WithReg(WithReg(h0, 9, u.hart.x[9]), 8, b).(mem := Patch(h0.mem, a, src[..k]))
      && u.hart.x[9] == Value(src[k..k + w])
      && u.trace == tr0 + Stores(a, i, w)
    requires WF(Bumped(u, b, u.hart.x[9]))
    ensures Written(Bumped(u, b, u.hart.x[9]), h0, tr0, a, src, i + 1)
  {
    hide WriteProgram, Patch, Value, Bytes, Stores, Address, WF, Next, Pos, PointsAtWord;
    var w := WordBytes(u.config.xlen);
    PosIs(u.config.xlen, i);
    PatchOneMore(h0.mem, a, src, Pos(u.config.xlen, i), w);
    StoresGrow(a, i, w);
    Associate(tr0, Stores(a, i, w), [Stored(b)]);
    SetTwice(WithReg(h0, 9, u.hart.x[9]), b, Next(u.config.xlen, b));
  }

  /** S0 is set up and the program put in place, but not run. */
  lemma WriteSetup(t: Target, start: Target, a: u64, src: seq<byte>) returns (f: Target)
    requires Calm(t) && a == Address(t.config.xlen, a, 0) && a + |src| <= |t.hart.mem| && |t.progbuf| >= 3
    requires start == Prepared(t, AccessRegister(t.config.xlen, AC_TRANSFER | AC_WRITE, S0),
      WriteProgram(t.config.xlen), WordsOf(t.config.xlen, a))
    ensures Leads(start, 1, f)
    ensures Calm(f) && f.config == t.config && f.auto == t.auto && |f.data| == |t.data| && |f.progbuf| == |t.progbuf|
    ensures Written(f, t.hart, t.trace, a, src, 0)
  {
    RegisterWritten(t, AC_TRANSFER | AC_WRITE, S0, WriteProgram(t.config.xlen), a);
    SetRegIsWithReg(t.hart, a);
    WFWithReg(start, Idle, 8, a);
    PatchNothing(t.hart.mem, a);
    hide Advance, AccessRegister, WriteProgram, RegNo, Prepared, SetReg, DataValue, WF;
    f := start.(phase := Idle, hart := WithReg(t.hart, 8, a));
    WriteRegisterCommand(start, S0);
  }

  /** A store command is starting, i words are in memory and word i is in the data registers. */
  predicate StoreDue(start: Target, h0: Hart, tr0: seq<Event>, a: nat, src: seq<byte>, i: nat, b: nat) {
    && Starting(start) && start.active && start.selected && Written(start, h0, tr0, a, src, i) && PointsAtWord(start, b)
    && start.command == AccessRegister(start.config.xlen, AC_TRANSFER | AC_WRITE | AC_POSTEXEC, S1)
    && var w, k := WordBytes(start.config.xlen), Pos(start.config.xlen, i);
      && b == Address(start.config.xlen, a, i) == a + k && Next(start.config.xlen, b)
        == Address(start.config.xlen, a, i + 1)
      && k + w == Pos(start.config.xlen, i + 1) <= |src|
      && RegFromData(start) == Value(src[k..k + w])
  }

  /** A store command with word i of src in the data registers, however started. */
  lemma WriteNext(start: Target, h0: Hart, tr0: seq<Event>, a: nat, src: seq<byte>, i: nat, b: nat) returns (f: Target)
    requires StoreDue(start, h0, tr0, a, src, i, b)
    ensures Leads(start, 4, f) && Calm(f)
    ensures Written(f, h0, tr0, a, src, i + 1)
    ensures f == start.(phase := Idle, hart := f.hart, trace := f.trace)
  {
    var v := RegFromData(start);
    SetRegIsWithReg(start.hart, v);
    WFWithReg(start, Executing(0), 9, v);
    hide Advance, AccessRegister, WriteProgram, RegNo, SetReg, DataValue, Patch, Value, WF, Pos, Address, Next;
    var u := start.(phase := Executing(0), hart := WithReg(start.hart, 9, v));
    f := StoreWord(u, h0, tr0, a, src, i, b);
    WriteRegisterAndRun(start, S1, 3, f);
  }

  // ----------------------------------------------------------- single registers

  lemma SaveCommand(t: Target, start: Target, r: bv32) returns (f: Target)
    requires Calm(t) && r < 32
    requires start == t.(command := AccessRegister(t.config.xlen, AC_TRANSFER, r), phase := Waiting(0))
    ensures Leads(start, 1, f) && Calm(f) && |f.data| == |t.data|
    ensures f == t.(command := f.command, data := f.data) && RegFromData(f) == t.hart.x[RegNo(r)]
  {
    RegisterFetched(start, t.hart.x[RegNo(r)]);
    f := start.(phase := Idle, data := DataFromReg(start, t.hart.x[RegNo(r)]));
    assert WF(f);
    hide Advance, AccessRegister, RegNo, DataFromReg, DataValue, WF;
    ReadRegisterCommand(start, r);
  }

  lemma RestoreCommand(t: Target, start: Target, r: bv32, v: u64) returns (f: Target)
    requires Calm(t) && r < 32 && v < Modulus(t.config.xlen)
    requires start == Prepared(t, AccessRegister(t.config.xlen, AC_TRANSFER | AC_WRITE, r), [],
      WordsOf(t.config.xlen, v))
    ensures Leads(start, 1, f) && Calm(f) && |f.data| == |t.data|
    ensures f == t.(command := f.command, data := f.data, hart := SetReg(t.hart, RegNo(r), v))
  {
    RegisterWritten(t, AC_TRANSFER | AC_WRITE, r, [], v);
    assert Overwrite(t.progbuf, []) == t.progbuf;
    f := start.(phase := Idle, hart := SetReg(t.hart, RegNo(r), v));
    assert WF(f);
    hide Advance, AccessRegister, RegNo, Prepared, SetReg, DataValue, WF;
    WriteRegisterCommand(start, r);
  }

  // ------------------------------------------------------------ whole chunks

  /** h is h0 except for the two registers the driver works with. */
  predicate OnlyScratch(h: Hart, h0: Hart) {
    |h0.x| == 32 && |h.x| == 32 && h == WithReg(WithReg(h0, 9, h.x[9]), 8, h.x[8])
  }

  lemma RestoredElsewhere(h: Hart, h0: Hart)
    requires OnlyScratch(h.(mem := h0.mem), h0)
    ensures SetReg(SetReg(h, RegNo(S0), h0.x[8]), RegNo(S1), h0.x[9]) == h0.(mem := h.mem)
  {
    SmallNumbers();
    hide RegNo;
  }

  lemma BytesOfTwoWords(d0: u32, d1: u32)
    ensures Bytes(d0 + TWO_32 * d1, 8) == Bytes(d0, 4) + Bytes(d1, 4)
  {
    Pow256Values();
    ValueOfBytes(d0, 4);
    ValueOfBytes(d1, 4);
    ValueConcat(Bytes(d0, 4), Bytes(d1, 4));
    BytesOfValue(Bytes(d0, 4) + Bytes(d1, 4));
    hide Bytes, Value, Pow256;
  }

  lemma ValueOfTwoWords(s: seq<byte>)
    requires |s| == 8
    ensures Value(s[..4]) < TWO_32 && Value(s[4..]) < TWO_32
    ensures Value(s) == Value(s[..4]) + TWO_32 * Value(s[4..])
  {
    Pow256Values();
    ValueBound(s[..4]);
    ValueBound(s[4..]);
    ValueConcat(s[..4], s[4..]);
    assert s[..4] + s[4..] == s;
    hide Value, Pow256;
  }

  lemma WordsOfTwoWords(v0: u32, v1: u32)
    ensures v0 + TWO_32 * v1 < TWO_64 && WordsOf(64, v0 + TWO_32 * v1) == [v0, v1]
  {
  }

  lemma BytesOfWord(m: Mem, a: nat, w: nat)
    requires a + w <= |m|
    ensures Bytes(WordAt(m, a, w), w) == m[a..a + w]
  {
    BytesOfValue(m[a..a + w]);
  }

  lemma DataPrefix(xlen: nat, a: seq<u32>, b: seq<u32>)
    requires (xlen == 32 || xlen == 64) && |a| >= xlen / 32 && |b| >= xlen / 32 && a[..xlen / 32] == b[..xlen / 32]
    ensures DataValue(xlen, a) == DataValue(xlen, b)
  {
    assert a[0] == a[..xlen / 32][0] == b[0];
    if xlen == 64 { assert a[1] == a[..xlen / 32][1] == b[1]; }
  }

  lemma FetchedScratch(t: Target, h0: Hart, tr0: seq<Event>, a: nat, i: nat)
    requires WF(t) && Fetched(t, h0, tr0, a, i)
    ensures OnlyScratch(t.hart, h0) && t.hart.mem == h0.mem && t.hart.csr == h0.csr
    ensures t.trace == tr0 + Loads(a, i, WordBytes(t.config.xlen))
    ensures t.hart.x[9] == WordAt(h0.mem, a + (i - 1) * WordBytes(t.config.xlen), WordBytes(t.config.xlen))
  {
  }

  /** One more word in the caller's buffer. */
  lemma BufferGrows(dst: seq<byte>, at: nat, m: Mem, a: nat, k: nat, w: nat)
    requires a + k + w <= |m| && at + k + w <= |dst|
    ensures Patch(Patch(dst, at, m[a..a + k]), at + k, Bytes(WordAt(m, a + k, w), w)) == Patch(dst, at, m[a..a + k + w])
  {
    BytesOfWord(m, a + k, w);
    hide WordAt, Bytes, Patch;
    CopyGrows(dst, at, m, a, k, w);
  }

  lemma WordCount(xlen: nat, len: nat)
    requires xlen == 32 || xlen == 64
    ensures len * 8 / xlen == len / WordBytes(xlen)
    ensures len % WordBytes(xlen) == 0 ==> Pos(xlen, len / WordBytes(xlen)) == len
    ensures len > 0 && len % WordBytes(xlen) == 0 ==> len / WordBytes(xlen) > 0
  {
    if xlen == 32 {} else {}
  }

  lemma PosNext(xlen: nat, i: nat, n: nat)
    requires i < n
    ensures Pos(xlen, i + 1) == Pos(xlen, i) + WordBytes(xlen) <= Pos(xlen, n)
  {
    assert (i + 1) * WordBytes(xlen) <= n * WordBytes(xlen);
  }

  lemma EmptyBuffer(dst: seq<byte>, at: nat, m: Mem, a: nat, xlen: nat)
    requires a <= |m| && at <= |dst|
    ensures Pos(xlen, 0) == 0 && Patch(dst, at, m[a..a + Pos(xlen, 0)]) == dst
  {
    PatchNothing(dst, at);
  }

  lemma PosIs(xlen: nat, i: nat)
    ensures Pos(xlen, i) == i * WordBytes(xlen)
  {
  }

  lemma WrittenScratch(t: Target, h0: Hart, tr0: seq<Event>, a: nat, src: seq<byte>, i: nat)
    requires WF(t) && Written(t, h0, tr0, a, src, i)
    ensures OnlyScratch(t.hart.(mem := h0.mem), h0)
    ensures a + |src| <= |h0.mem| && Pos(t.config.xlen, i) <= |src|
    ensures t.hart.mem == Patch(h0.mem, a, src[..Pos(t.config.xlen, i)])
    ensures t.trace == tr0 + Stores(a, i, WordBytes(t.config.xlen))
  {
    hide Patch, Pos, Stores;
  }

  /** Only the hart, the trace and the program matter to the progress made. */
  lemma WrittenElsewhere(t: Target, u: Target, h0: Hart, tr0: seq<Event>, a: nat, src: seq<byte>, i: nat)
    requires WF(t) && WF(u) && Written(t, h0, tr0, a, src, i)
    requires u.config == t.config && u.hart == t.hart && u.trace == t.trace && t.progbuf <= u.progbuf
    ensures Written(u, h0, tr0, a, src, i)
  {
    hide Patch, Pos, Stores, WriteProgram;
  }

  /** Where word i of n goes, ready for WriteNext. */
  lemma StorePlace(t: Target, a: nat, src: seq<byte>, n: nat, i: nat)
    requires WF(t) && WordsInMemory(t, a, n) && i < n && |src| == Pos(t.config.xlen, n)
    ensures var b, k := Address(t.config.xlen, a, i), Pos(t.config.xlen, i);
      && PointsAtWord(t, b) && b == a + k && Next(t.config.xlen, b) == Address(t.config.xlen, a, i + 1)
      && k + WordBytes(t.config.xlen) == Pos(t.config.xlen, i + 1) <= |src|
  {
    AddressOfWord(t, a, n, i);
    PosNext(t.config.xlen, i, n);
  }

  lemma StoreComesDue(t: Target, start: Target, h0: Hart, tr0: seq<Event>, a: nat, src: seq<byte>, n: nat, i: nat)
    requires Calm(t) && WordsInMemory(t, a, n) && i < n && |src| == Pos(t.config.xlen, n)
    requires Written(t, h0, tr0, a, src, i)
    requires WF(start)
    requires start == t.(data := start.data, auto := start.auto, command := start.command, phase := Waiting(0))
    requires |start.data| == |t.data|
    requires start.command == AccessRegister(t.config.xlen, AC_TRANSFER | AC_WRITE | AC_POSTEXEC, S1)
    requires var k, w := Pos(t.config.xlen, i), WordBytes(t.config.xlen);
      k + w <= |src| && RegFromData(start) == Value(src[k..k + w])
    ensures StoreDue(start, h0, tr0, a, src, i, Address(t.config.xlen, a, i)) && Written(t, h0, tr0, a, src, i)
    ensures |t.hart.mem| == |h0.mem|
  {
    StorePlace(t, a, src, n, i);
    WrittenScratch(t, h0, tr0, a, src, i);
    WrittenElsewhere(t, start, h0, tr0, a, src, i);
    hide AccessRegister, Written, WFHart, WFConfig, WordsInMemory, Address, Value, DataValue, WordBytes, Next, Pos,
      Patch, Advance;
  }

  /** The command that stores word i, started from t in whatever way. */
  lemma StoreTurn(t: Target, start: Target, h0: Hart, tr0: seq<Event>, a: nat, src: seq<byte>, n: nat, i: nat)
      returns (f: Target)
    requires Calm(t) && WordsInMemory(t, a, n) && i < n && |src| == Pos(t.config.xlen, n)
    requires Written(t, h0, tr0, a, src, i)
    requires WF(start)
    requires start == t.(data := start.data, auto := start.auto, command := start.command, phase := Waiting(0))
    requires |start.data| == |t.data|
    requires start.command == AccessRegister(t.config.xlen, AC_TRANSFER | AC_WRITE | AC_POSTEXEC, S1)
    requires var k, w := Pos(t.config.xlen, i), WordBytes(t.config.xlen);
      k + w <= |src| && RegFromData(start) == Value(src[k..k + w])
    ensures Leads(start, 4, f) && Calm(f) && Written(f, h0, tr0, a, src, i + 1)
    ensures f == start.(phase := Idle, hart := f.hart, trace := f.trace) && |f.hart.mem| == |t.hart.mem|
  {
    StoreComesDue(t, start, h0, tr0, a, src, n, i);
    hide *;
    f := WriteNext(start, h0, tr0, a, src, i, Address(t.config.xlen, a, i));
    StoredSize(f, h0, tr0, a, src, i + 1);
  }

  lemma StoredSize(t: Target, h0: Hart, tr0: seq<Event>, a: nat, src: seq<byte>, i: nat)
    requires Written(t, h0, tr0, a, src, i)
    ensures |t.hart.mem| == |h0.mem|
  {
  }

  // ----------------------------------------------------------------- clearing

  /** The command that puts the end address into S1, as far as the transfer. */
  lemma ClearStart(t: Target, start: Target, a: nat, n: nat) returns (u: Target)
    requires Calm(t) && |t.progbuf| >= 4 && t.hart.x[8] == a && n > 0 && WordsInMemory(t, a, n)
    requires start == Prepared(t, AccessRegister(t.config.xlen, AC_TRANSFER | AC_WRITE | AC_POSTEXEC, S1),
      ClearProgram(t.config.xlen), WordsOf(t.config.xlen, Address(t.config.xlen, a, n)))
    ensures Starting(start) && start.active && start.selected && start.config == t.config && start.auto == t.auto
    ensures start.command == AccessRegister(start.config.xlen, AC_TRANSFER | AC_WRITE | AC_POSTEXEC, S1)
    ensures |start.data| == |t.data| && |start.progbuf| == |t.progbuf|
    ensures u == start.(phase := Executing(0), hart := SetReg(start.hart, RegNo(S1), RegFromData(start)))
    ensures Buffered(u, ClearProgram(u.config.xlen)) && WordsInMemory(u, a, n) && u.trace == t.trace
    ensures |t.hart.x| == 32 && u.hart == WithReg(t.hart, 9, Address(t.config.xlen, a, n)) && u.hart.x[8] == a
  {
    var end := Address(t.config.xlen, a, n);
    RegisterWritten(t, AC_TRANSFER | AC_WRITE | AC_POSTEXEC, S1, ClearProgram(t.config.xlen), end);
    SetRegIsWithReg(t.hart, end);
    WFWithReg(start, Executing(0), 9, end);
    hide Advance, AccessRegister, ClearProgram, RegNo, Prepared, SetReg, DataValue, WFHart, WFConfig, Address;
    u := start.(phase := Executing(0), hart := WithReg(t.hart, 9, end));
  }

  lemma AddressIs(xlen: nat, a: nat, i: nat)
    ensures Address(xlen, a, i) == (a + i * WordBytes(xlen)) % Modulus(xlen)
  {
  }

  /** S1 gets the end address and the clear program runs to its end. */
  lemma ClearCommand(t: Target, start: Target, a: nat, n: nat) returns (f: Target)
    requires Calm(t) && |t.progbuf| >= 4 && t.hart.x[8] == a && n > 0 && WordsInMemory(t, a, n)
    requires start == Prepared(t, AccessRegister(t.config.xlen, AC_TRANSFER | AC_WRITE | AC_POSTEXEC, S1),
      ClearProgram(t.config.xlen), WordsOf(t.config.xlen, Address(t.config.xlen, a, n)))
    ensures Leads(start, 3 * n + 2, f) && Back(t, f)
    ensures var end := Address(t.config.xlen, a, n);
      f.hart == WithReg(WithReg(t.hart, 9, end), 8,
        end).(mem := Patch(t.hart.mem, a, Zeros(n * WordBytes(t.config.xlen))))
    ensures f.trace == t.trace + Stores(a, n, WordBytes(t.config.xlen))
  {
    var u := ClearStart(t, start, a, n);
    AddressIs(t.config.xlen, a, n);
    ClearProgramRun(u, a, n);
    hide Advance, AccessRegister, ClearProgram, RegNo, Prepared, SetReg, DataValue, WFHart, WFConfig, Stores, Patch,
      Address, WordsInMemory, Modulus, WordBytes, SendsData, Buffered;
    f := Cleared(u, a, n);
    WriteRegisterAndRun(start, S1, 3 * n + 1, f);
  }

  lemma EndWords(xlen: nat, a: u64, len: nat)
    requires xlen == 32 || xlen == 64
    requires len % WordBytes(xlen) == 0 && a + len <= Modulus(xlen)
    ensures WordsOf(xlen, Address(xlen, a, len / WordBytes(xlen)))
      == [(a + len) % TWO_64 % TWO_32, (a + len) % TWO_64 / TWO_32][..xlen / 32]
  {
    if xlen == 32 {} else {}
  }

  lemma WordsStart(t: Target, a: nat, n: nat)
    requires WF(t) && WordsInMemory(t, a, n) && n > 0
    ensures a < Modulus(t.config.xlen)
  {
    WordOf(t, a, n, 0);
  }

  // --------------------------------------------------------------- CSR access

  /** The value modify_csr finds in CSR i: S0 is parked in dscratch first. */
  function CsrFound(h: Hart, i: nat): u64
    requires |h.x| == 32 && |h.csr| == 4096 && i < 4096
  {
    h.csr[DSCRATCH := h.x[8]][i]
  }

  /** What modify_csr does to the hart. */
  function CsrEffect(xlen: nat, h: Hart, kind: bv32, i: nat, operand: u64): Hart
    requires (xlen == 32 || xlen == 64) && WFHart(h, xlen) && i < 4096 && operand < Modulus(xlen)
  {
    var csr2 := h.csr[DSCRATCH := h.x[8]][i := CsrUpdate(xlen, kind, CsrFound(h, i), operand)];
    Hart(h.x[8 := csr2[DSCRATCH]], csr2[DSCRATCH := CsrFound(h, i)], h.mem)
  }

  lemma CsrCommand(t: Target, start: Target, dataBase: bv32, kind: bv32, which: bv32, operand: u64) returns (f: Target)
    requires Calm(t) && |t.progbuf| >= 6 && ShadowAt(t.config, dataBase)
    requires WRITE <= kind <= CLEAR && which < 4096 && operand < Modulus(t.config.xlen)
    requires start == Prepared(t, AccessRegister(t.config.xlen, AC_TRANSFER | AC_WRITE | AC_POSTEXEC, X0),
      CsrProgram(t.config.xlen, dataBase, kind, which), WordsOf(t.config.xlen, operand))
    ensures Leads(start, 7, f) && Calm(f)
    ensures f.hart == CsrEffect(t.config.xlen, t.hart, kind, CsrNo(which), operand)
    ensures RegFromData(f) == CsrFound(t.hart, CsrNo(which))
    ensures f.trace == t.trace + [DebugModule.Loaded(t.config.shadow)] + [Stored(t.config.shadow)]
    ensures f.config == t.config && f.auto == t.auto && |f.data| == |t.data| && |f.progbuf| == |t.progbuf|
  {
    RegisterWritten(t, AC_TRANSFER | AC_WRITE | AC_POSTEXEC, X0, CsrProgram(t.config.xlen, dataBase, kind, which),
      operand);
    SmallNumbers();
    RegisterFetched(start.(phase := Executing(0)), CsrFound(t.hart, CsrNo(which)));
    hide Advance, AccessRegister, CsrProgram, RegNo, CsrNo, Prepared, DataValue, ShadowAt, CsrUpdate, DataFromReg;
    var u := start.(phase := Executing(0));
    assert u.hart == SetReg(start.hart, RegNo(X0), RegFromData(start));
    f := CsrOutcome(u, kind, CsrNo(which));
    CsrProgramRun(u, dataBase, kind, which);
    WriteRegisterAndRun(start, X0, 6, f);
  }

  function FenceProgram(): seq<bv32> { [FENCE_I, EBREAK] }

  lemma FenceCommand(t: Target, start: Target) returns (f: Target)
    requires Calm(t) && |t.progbuf| >= 2
    requires start == Prepared(t, AccessRegister(t.config.xlen, AC_TRANSFER | AC_WRITE | AC_POSTEXEC, X0),
      FenceProgram(), [])
    ensures Leads(start, 3, f) && Calm(f)
    ensures f == t.(command := f.command, progbuf := f.progbuf, trace := t.trace + [Fenced])
    ensures |f.progbuf| == |t.progbuf|
  {
    CommandFields(t.config.xlen, AC_TRANSFER | AC_WRITE | AC_POSTEXEC, X0);
    SmallNumbers();
    var command := AccessRegister(t.config.xlen, AC_TRANSFER | AC_WRITE | AC_POSTEXEC, X0);
    assert Overwrite(t.data, []) == t.data;
    assert start == t.(progbuf := Overwrite(t.progbuf, FenceProgram()), command := command, phase := Waiting(0));
    assert start.progbuf[0] == FENCE_I && start.progbuf[1] == EBREAK;
    var u := start.(phase := Executing(0));
    StepFence(u);
    StepEbreak(Advance(u), 1);
    f := u.(phase := Idle, trace := t.trace + [Fenced]);
    hide AccessRegister, RegNo, Prepared, DataValue, Decode, Advance, WFHart, WFConfig;
    assert Steps(u, 2) == Steps(Advance(u), 1) == Steps(Advance(Advance(u)), 0);
    WriteRegisterAndRun(start, X0, 2, f);
  }

  lemma StepFence(t: Target)
    requires At(t, 0, FENCE_I)
    ensures Advance(t) == t.(phase := Executing(1), trace := t.trace + [Fenced])
  {
    DecodeFence(FENCE_I);
    hide Decode;
  }

  /** A register size other than the hart's width is refused. */
  lemma WrongSizeCommand(t: Target, start: Target, size: nat) returns (f: Target)
    requires Calm(t) && (size == 128 || (size == 64 && t.config.xlen == 32))
    requires start == t.(command := AccessRegister(size, AC_TRANSFER, S0), phase := Waiting(0))
    ensures Leads(start, 1, f) && f == start.(phase := Idle, cmderr := NotSupported)
  {
    var c := AccessRegister(size, AC_TRANSFER, S0);
    if size == 128 {
      assert (c >> 20) & 7 == 4;
    } else {
      assert (c >> 20) & 7 == 3;
    }
    hide AccessRegister;
    f := Advance(start);
    assert Steps(start, 1) == f;
  }

  lemma OperandWords(xlen: nat, data: u64)
    requires xlen == 32 || xlen == 64
    ensures WordsOf(xlen, data % Modulus(xlen)) == [data % TWO_32, data / TWO_32][..xlen / 32]
  {
  }

  lemma OrFits(a: u32, b: u32)
    ensures Or(a, b) < TWO_32
  {
    Pow2Values();
    BitwiseBound(a, b, 32);
  }

  lemma WordsOfValue(xlen: nat, data: seq<u32>)
    requires (xlen == 32 || xlen == 64) && |data| >= xlen / 32
    ensures xlen == 32 ==> DataValue(xlen, data) == data[0]
    ensures xlen == 64 ==> data[0] == DataValue(xlen, data) % TWO_32 && data[1] == DataValue(xlen, data) / TWO_32
  {
  }

  /** The value modify_csr returns: the high word is ORed in unshifted. */
  function CsrResult(xlen: nat, found: u64): nat {
    if xlen == 32 then found else Or(found % TWO_32, found / TWO_32)
  }

  lemma OnlyTransfer(size: nat)
    ensures !SendsData(AccessRegister(size, AC_TRANSFER, S0))
  {
    if size == 128 {} else if size == 64 {} else {}
  }

  // What the four CSR operations amount to.

  /** Bit by bit: the operand's bit, or set where it is set, or cleared where it is set. */
  lemma CsrUpdateBits(xlen: nat, kind: bv32, current: u64, operand: u64, i: nat)
    requires (xlen == 32 || xlen == 64) && current < Modulus(xlen) && operand < Modulus(xlen)
    requires WRITE <= kind <= CLEAR
    ensures Bit(CsrUpdate(xlen, kind, current, operand), i) ==
      if kind == WRITE then Bit(operand, i)
      else if kind == SET then Bit(current, i) || Bit(operand, i)
      else Bit(current, i) && !Bit(operand, i)
  {
    hide Or, AndNot, Bit;
    OrMeaning(current, operand, i);
    AndNotMeaning(current, operand, i);
  }

  /** Away from dscratch, the CSR gets exactly the requested update, registers and
      memory are untouched, and dscratch keeps the value found. */
  lemma CsrEffectExact(xlen: nat, h: Hart, kind: bv32, i: nat, operand: u64)
    requires (xlen == 32 || xlen == 64) && WFHart(h, xlen) && operand < Modulus(xlen)
    requires i < 4096 && i != DSCRATCH
    ensures CsrFound(h, i) == h.csr[i]
    ensures CsrEffect(xlen, h, kind, i, operand)
      == h.(csr := h.csr[i := CsrUpdate(xlen, kind, h.csr[i], operand)][DSCRATCH := h.csr[i]])
  {
    hide CsrUpdate;
  }

  /** On dscratch itself the update lands in S0 instead: S0 survives if and only if
      the update would have left it alone, and dscratch does not get the update
      unless it is void. */
  lemma CsrEffectOnDscratch(xlen: nat, h: Hart, kind: bv32, operand: u64)
    requires (xlen == 32 || xlen == 64) && WFHart(h, xlen) && operand < Modulus(xlen)
    ensures var e := CsrEffect(xlen, h, kind, DSCRATCH, operand);
      && e.x[8] == CsrUpdate(xlen, kind, h.x[8], operand)
      && e.csr == h.csr[DSCRATCH := h.x[8]]
      && (e.x == h.x <==> CsrUpdate(xlen, kind, h.x[8], operand) == h.x[8])
  {
    hide CsrUpdate;
  }

  lemma OrZero(a: nat)
    ensures Or(a, 0) == a
  {
  }

  lemma ReadCsrEffect(xlen: nat, h: Hart, i: nat)
    requires (xlen == 32 || xlen == 64) && WFHart(h, xlen) && i < 4096
    ensures CsrEffect(xlen, h, SET, i, 0) == h.(csr := h.csr[DSCRATCH := CsrFound(h, i)])
  {
    assert CsrUpdate(xlen, SET, CsrFound(h, i), 0) == CsrFound(h, i);
    hide CsrUpdate;
    assert h.csr[DSCRATCH := h.x[8]][i := CsrFound(h, i)] == h.csr[DSCRATCH := h.x[8]];
  }

  /** The returned value is the CSR value exactly when its high word is zero. */
  lemma CsrResultExact(xlen: nat, found: u64)
    requires (xlen == 32 || xlen == 64) && found < Modulus(xlen)
    ensures CsrResult(xlen, found) == found <==> found / TWO_32 == 0
  {
    OrFits(found % TWO_32, found / TWO_32);
    OrZero(found % TWO_32);
  }

  /** Bit by bit: of a 64-bit CSR, the bits of the two words laid over each other. */
  lemma CsrResultBits(found: u64, i: nat)
    ensures CsrResult(32, found) == found
    ensures Bit(CsrResult(64, found), i) == (Bit(found % TWO_32, i) || Bit(found / TWO_32, i))
  {
    hide Or, Bit;
    OrMeaning(found % TWO_32, found / TWO_32, i);
  }

  /** A CSR whose return value differs from its content. */
  lemma CsrResultCounterexample()
    ensures CsrResult(64, 0x1_0000_0000) == 1
  {
    assert Or(0, 1) == 1;
  }
}
