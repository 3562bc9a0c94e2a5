/** What the debug driver's command words and program-buffer programs do to a
    Debug Module and its hart, derived by running the decoded instructions. */
module DtmPrograms {
  import opened Words
  import opened Memory
  import opened Encoding
  import opened DebugModule

  // ------------------------------------------------------------ command words

  function AcArSize(xlen: nat): bv32 {
    (if xlen == 128 then 4 else if xlen == 64 then 3 else 2) << 20
  }

  function AcArRegno(r: bv32): bv32 { 0x1000 | r }

  function AccessRegister(xlen: nat, flags: bv32, r: bv32): bv32 {
    flags | AcArSize(xlen) | AcArRegno(r)
  }

  /** The words for the command register that the driver sends, for every register. */
  lemma CommandWords(r: bv32)
    requires r < 32
    ensures AccessRegister(64, AC_TRANSFER, r) == 0x32_1000 | r
    ensures AccessRegister(64, AC_TRANSFER | AC_WRITE, r) == 0x33_1000 | r
    ensures AccessRegister(64, AC_TRANSFER | AC_POSTEXEC, r) == 0x36_1000 | r
    ensures AccessRegister(64, AC_TRANSFER | AC_WRITE | AC_POSTEXEC, r) == 0x37_1000 | r
    ensures AccessRegister(32, AC_TRANSFER, r) == 0x22_1000 | r
    ensures AccessRegister(32, AC_TRANSFER | AC_WRITE, r) == 0x23_1000 | r
    ensures AccessRegister(32, AC_TRANSFER | AC_POSTEXEC, r) == 0x26_1000 | r
    ensures AccessRegister(32, AC_TRANSFER | AC_WRITE | AC_POSTEXEC, r) == 0x27_1000 | r
    ensures AccessRegister(128, AC_TRANSFER, r) == 0x42_1000 | r
  {
  }

  lemma CommandFields(xlen: nat, flags: bv32, r: bv32)
    requires (xlen == 32 || xlen == 64) && flags & 0xfff8_ffff == 0 && r < 32
    ensures var c := AccessRegister(xlen, flags, r);
      && c >> 24 == 0 && (c >> 20) & 7 == SizeCode(xlen) && c & 0xffe0 == 0x1000 && c & 0x1f == r
      && c & AC_TRANSFER == flags & AC_TRANSFER && c & AC_WRITE == flags & AC_WRITE
      && c & AC_POSTEXEC == flags & AC_POSTEXEC
  {
    if xlen == 64 {} else {}
  }

  lemma SmallNumbers()
    ensures RegNo(X0) == 0 && RegNo(S0) == 8 && RegNo(S1) == 9
    ensures SignExtend12(0) == 0 && SignExtend12(4) == 4 && SignExtend12(8) == 8
    ensures Signed(0) == 0 && Signed(4) == 4 && Signed(8) == 8 && Signed(0 - 8) == -8
    ensures CsrNo(CSR_DSCRATCH) == 0x7b2 && CsrNo(CSR_DPC) == 0x7b1
  {
  }

  function WordImm(xlen: nat): bv32 { if xlen == 64 then 8 else 4 }

  // --------------------------------------------------------------- one command

  /** A command about to run on a halted hart, with nothing having gone wrong. */
  predicate Starting(t: Target) {
    WF(t) && t.phase == Waiting(0) && t.run.Halted? && t.cmderr.NoError?
  }

  lemma ReadRegisterCommand(t: Target, r: bv32)
    requires Starting(t) && r < 32 && t.command == AccessRegister(t.config.xlen, AC_TRANSFER, r)
    ensures Leads(t, 1, t.(phase := Idle, data := DataFromReg(t, Reg(t, RegNo(r)))))
  {
    CommandFields(t.config.xlen, AC_TRANSFER, r);
    assert Steps(t, 1) == Advance(t);
  }

  lemma WriteRegisterCommand(t: Target, r: bv32)
    requires Starting(t) && r < 32 && t.command == AccessRegister(t.config.xlen, AC_TRANSFER | AC_WRITE, r)
    ensures Leads(t, 1, t.(phase := Idle, hart := SetReg(t.hart, RegNo(r), RegFromData(t))))
  {
    CommandFields(t.config.xlen, AC_TRANSFER | AC_WRITE, r);
    assert Steps(t, 1) == Advance(t);
  }

  /** With postexec, the program buffer runs after the transfer. */
  lemma WriteRegisterAndRun(t: Target, r: bv32, n: nat, f: Target)
    requires Starting(t) && r < 32
    requires t.command == AccessRegister(t.config.xlen, AC_TRANSFER | AC_WRITE | AC_POSTEXEC, r)
    requires Leads(t.(phase := Executing(0), hart := SetReg(t.hart, RegNo(r), RegFromData(t))), n, f)
    ensures Leads(t, n + 1, f)
  {
    CommandFields(t.config.xlen, AC_TRANSFER | AC_WRITE | AC_POSTEXEC, r);
    assert Advance(t) == t.(phase := Executing(0), hart := SetReg(t.hart, RegNo(r), RegFromData(t)));
    hide Advance;
  }

  lemma ReadRegisterAndRun(t: Target, r: bv32, n: nat, f: Target)
    requires Starting(t) && r < 32 && t.command == AccessRegister(t.config.xlen, AC_TRANSFER | AC_POSTEXEC, r)
    requires Leads(t.(phase := Executing(0), data := DataFromReg(t, Reg(t, RegNo(r)))), n, f)
    ensures Leads(t, n + 1, f)
  {
    CommandFields(t.config.xlen, AC_TRANSFER | AC_POSTEXEC, r);
    assert Advance(t) == t.(phase := Executing(0), data := DataFromReg(t, Reg(t, RegNo(r))));
    hide Advance;
  }

  // ----------------------------------------------------------- one instruction

  predicate At(t: Target, pc: nat, word: bv32) {
    WF(t) && t.phase == Executing(pc) && pc < |t.progbuf| && t.progbuf[pc] == word
  }

  lemma StepLoad(t: Target, pc: nat, dst: bv32, base: bv32, imm: bv32)
    requires dst < 32 && base < 32 && At(t, pc, LOAD(t.config.xlen, dst, base, imm))
    ensures Advance(t) == ExecuteLoad(t, pc, WordBytes(t.config.xlen), RegNo(dst),
      Offset(t, RegNo(base), Signed(SignExtend12(imm))))
  {
    DecodeLoad(t.config.xlen, dst, base, imm);
    hide Decode, ExecuteLoad, LOAD;
  }

  lemma StepStore(t: Target, pc: nat, src: bv32, base: bv32, imm: bv32)
    requires src < 32 && base < 32 && At(t, pc, STORE(t.config.xlen, src, base, imm))
    ensures Advance(t) == ExecuteStore(t, pc, WordBytes(t.config.xlen), Reg(t, RegNo(src)),
      Offset(t, RegNo(base), Signed(SignExtend12(imm))))
  {
    DecodeStore(t.config.xlen, src, base, imm);
    hide Decode, ExecuteStore, STORE;
  }

  lemma StepAddi(t: Target, pc: nat, dst: bv32, src: bv32, imm: bv32)
    requires dst < 32 && src < 32 && At(t, pc, ADDI(dst, src, imm))
    ensures Advance(t) == t.(hart := SetReg(t.hart, RegNo(dst), Offset(t, RegNo(src), Signed(SignExtend12(imm)))),
      phase := Executing(pc + 1))
  {
    DecodeAddi(dst, src, imm);
    hide Decode, ADDI;
  }

  lemma StepEbreak(t: Target, pc: nat)
    requires At(t, pc, EBREAK)
    ensures Advance(t) == t.(phase := Idle)
  {
    DecodeEbreak(EBREAK);
    hide Decode;
  }

  /** The loop-closing branch BNE(S0, S1, 0*4, 2*4) of the clear program. */
  lemma StepLoopBranch(t: Target)
    requires At(t, 2, BNE(S0, S1, 0, 8))
    ensures Advance(t) == t.(phase := Executing(if t.hart.x[8] != t.hart.x[9] then 0 else 3))
  {
    DecodeBne(S0, S1, 0, 8);
    SmallNumbers();
    hide Decode, BNE;
  }

  lemma StepCsr(t: Target, pc: nat, kind: bv32, dst: bv32, csr: bv32, src: bv32)
    requires WRITE <= kind <= CLEAR && dst < 32 && src < 32 && csr < 4096 && At(t, pc, CSRRx(kind, dst, csr, src))
    ensures Advance(t) == ExecuteCsr(t, pc, kind, RegNo(dst), CsrNo(csr), RegNo(src))
  {
    DecodeCsr(kind, dst, csr, src);
    hide Decode, CSRRx, ExecuteCsr;
  }

  // ------------------------------------------------------- chunk programs

  /** S0 holds an aligned address whose word lies in memory, beside the data shadow. */
  predicate PointsAtWord(t: Target, a: nat) {
    && a % WordBytes(t.config.xlen) == 0 && a + WordBytes(t.config.xlen) <= |t.hart.mem|
    && !InShadow(t, a, WordBytes(t.config.xlen))
  }

  predicate Buffered(t: Target, program: seq<bv32>) {
    && WF(t) && t.phase == Executing(0) && t.run.Halted? && t.cmderr.NoError?
    && program <= t.progbuf
  }

  function ReadProgram(xlen: nat): seq<bv32> {
    [LOAD(xlen, S1, S0, 0), ADDI(S0, S0, WordImm(xlen)), EBREAK]
  }

  function WriteProgram(xlen: nat): seq<bv32> {
    [STORE(xlen, S1, S0, 0), ADDI(S0, S0, WordImm(xlen)), EBREAK]
  }

  function ClearProgram(xlen: nat): seq<bv32> {
    [STORE(xlen, X0, S0, 0), ADDI(S0, S0, WordImm(xlen)), BNE(S0, S1, 0, 8), EBREAK]
  }

  function Next(xlen: nat, a: nat): (r: nat)
    ensures r < Modulus(xlen)
  {
    (a + WordBytes(xlen)) % Modulus(xlen)
  }

  function WithReg(h: Hart, r: nat, v: u64): Hart
    requires 0 < r < |h.x|
  {
    h.(x := h.x[r := v])
  }

  lemma LoadedWord(t: Target, pc: nat, a: nat)
    requires WF(t) && PointsAtWord(t, a)
    ensures var v := Value(t.hart.mem[a..a + WordBytes(t.config.xlen)]);
      && v < Modulus(t.config.xlen)
      && ExecuteLoad(t, pc, WordBytes(t.config.xlen), 9, a)
         == t.(hart := WithReg(t.hart, 9, v), trace := t.trace + [Loaded(a)], phase := Executing(pc + 1))
  {
    Pow256Values();
    ValueBound(t.hart.mem[a..a + WordBytes(t.config.xlen)]);
  }

  lemma StoredWord(t: Target, pc: nat, a: nat, v: u64)
    requires WF(t) && PointsAtWord(t, a)
    ensures ExecuteStore(t, pc, WordBytes(t.config.xlen), v, a)
         == t.(hart := t.hart.(mem := Patch(t.hart.mem, a, Bytes(v, WordBytes(t.config.xlen)))),
           trace := t.trace + [Stored(a)], phase := Executing(pc + 1))
  {
  }

  lemma OffsetZero(t: Target, a: nat)
    requires WF(t) && t.hart.x[8] == a
    ensures Offset(t, 8, 0) == a
  {
  }

  /** LOAD S1, 0(S0) */
  lemma StepLoadWord(t: Target, pc: nat, a: nat)
    requires At(t, pc, LOAD(t.config.xlen, S1, S0, 0)) && t.hart.x[8] == a && PointsAtWord(t, a)
    ensures var v := Value(t.hart.mem[a..a + WordBytes(t.config.xlen)]);
      && v < Modulus(t.config.xlen)
      && Advance(t) == t.(hart := WithReg(t.hart, 9, v), trace := t.trace + [Loaded(a)], phase := Executing(pc + 1))
  {
    SmallNumbers();
    StepLoad(t, pc, S1, S0, 0);
    LoadedWord(t, pc, a);
    OffsetZero(t, a);
    hide Advance, LOAD, Signed, SignExtend12, RegNo, ExecuteLoad, Offset;
  }

  /** STORE of register src at 0(S0) */
  lemma StepStoreWord(t: Target, pc: nat, src: bv32, a: nat, v: u64)
    requires src < 32 && At(t, pc, STORE(t.config.xlen, src, S0, 0))
    requires t.hart.x[8] == a && PointsAtWord(t, a) && Reg(t, RegNo(src)) == v
    ensures Advance(t) == t.(hart := t.hart.(mem := Patch(t.hart.mem, a, Bytes(v, WordBytes(t.config.xlen)))),
        trace := t.trace + [Stored(a)], phase := Executing(pc + 1))
  {
    SmallNumbers();
    StepStore(t, pc, src, S0, 0);
    StoredWord(t, pc, a, v);
    OffsetZero(t, a);
    hide Advance, STORE, Signed, SignExtend12, RegNo, ExecuteStore, Offset;
  }

  /** ADDI S0, S0, xlen/8 */
  lemma StepBump(t: Target, pc: nat)
    requires At(t, pc, ADDI(S0, S0, WordImm(t.config.xlen)))
    ensures Advance(t) == t.(hart := WithReg(t.hart, 8, Next(t.config.xlen, t.hart.x[8])), phase := Executing(pc + 1))
  {
    SmallNumbers();
    StepAddi(t, pc, S0, S0, WordImm(t.config.xlen));
    hide Advance, ADDI, Signed, SignExtend12, RegNo;
  }

  lemma ThreeSteps(t: Target)
    requires WF(t)
    ensures Steps(t, 3) == Advance(Advance(Advance(t)))
  {
    hide Advance, WF;
    assert Steps(t, 3) == Steps(Advance(t), 2) == Steps(Advance(Advance(t)), 1)
      == Steps(Advance(Advance(Advance(t))), 0);
  }

  lemma ReadProgramRun(t: Target, a: nat, f: Target)
    requires Buffered(t, ReadProgram(t.config.xlen)) && t.hart.x[8] == a && PointsAtWord(t, a)
    requires var v := Value(t.hart.mem[a..a + WordBytes(t.config.xlen)]);
      && v < Modulus(t.config.xlen)
      && f == t.(phase := Idle, hart := WithReg(WithReg(t.hart, 9, v), 8, Next(t.config.xlen, a)),
        trace := t.trace + [Loaded(a)])
    ensures Leads(t, 3, f)
  {
    hide Advance, LOAD, ADDI;
    var program := ReadProgram(t.config.xlen);
    assert t.progbuf[0] == program[0] && t.progbuf[1] == program[1] && t.progbuf[2] == program[2];
    StepLoadWord(t, 0, a);
    StepBump(Advance(t), 1);
    StepEbreak(Advance(Advance(t)), 2);
    ThreeSteps(t);
  }

  lemma WriteProgramRun(t: Target, a: nat, v: u64, f: Target)
    requires Buffered(t, WriteProgram(t.config.xlen)) && t.hart.x[8] == a && t.hart.x[9] == v && PointsAtWord(t, a)
    requires f == t.(phase := Idle, trace := t.trace + [Stored(a)], hart := WithReg(t.hart, 8, Next(t.config.xlen, a))
        .(mem := Patch(t.hart.mem, a, Bytes(v, WordBytes(t.config.xlen)))))
    ensures Leads(t, 3, f)
  {
    SmallNumbers();
    hide Advance, STORE, ADDI;
    var program := WriteProgram(t.config.xlen);
    assert t.progbuf[0] == program[0] && t.progbuf[1] == program[1] && t.progbuf[2] == program[2];
    StepStoreWord(t, 0, S1, a, v);
    StepBump(Advance(t), 1);
    StepEbreak(Advance(Advance(t)), 2);
    ThreeSteps(t);
  }

  // ------------------------------------------------------------- clear program

  /** The accesses of n consecutive words from a on. */
  function Stores(a: nat, n: nat, width: nat): (s: seq<Event>)
    ensures |s| == n && forall i :: 0 <= i < n ==> s[i] == Stored(a + i * width)
  {
    if n == 0 then [] else Stores(a, n - 1, width) + [Stored(a + (n - 1) * width)]
  }

  function Loads(a: nat, n: nat, width: nat): (s: seq<Event>)
    ensures |s| == n && forall i :: 0 <= i < n ==> s[i] == Loaded(a + i * width)
  {
    if n == 0 then [] else Loads(a, n - 1, width) + [Loaded(a + (n - 1) * width)]
  }

  lemma StoresFromFront(a: nat, n: nat, width: nat)
    requires n > 0
    ensures [Stored(a)] + Stores(a + width, n - 1, width) == Stores(a, n, width)
  {
    forall i | 0 <= i < n ensures ([Stored(a)] + Stores(a + width, n - 1, width))[i] == Stores(a, n, width)[i] {
      if i > 0 { assert a + width + (i - 1) * width == a + i * width; }
    }
  }

  /** n words from a on lie in memory and beside the data shadow. */
  predicate WordsInMemory(t: Target, a: nat, n: nat) {
    var w := WordBytes(t.config.xlen);
    && a % w == 0 && a + n * w <= |t.hart.mem|
    && (a + n * w <= t.config.shadow || t.config.shadow + 4 * |t.data| <= a)
  }

  lemma WordOf(t: Target, a: nat, n: nat, i: nat)
    requires WF(t) && WordsInMemory(t, a, n) && i < n
    ensures PointsAtWord(t, a + i * WordBytes(t.config.xlen))
    ensures a + (i + 1) * WordBytes(t.config.xlen) <= Modulus(t.config.xlen)
  {
    var w := WordBytes(t.config.xlen);
    assert (i + 1) * w == i * w + w;
    assert (i + 1) * w <= n * w;
    assert (a + i * w) % w == 0;
  }

  function ClearTurn(t: Target, a: nat): Target
    requires WF(t) && PointsAtWord(t, a)
  {
    t.(hart := WithReg(t.hart, 8, Next(t.config.xlen, a)).(mem := Patch(t.hart.mem, a,
      Zeros(WordBytes(t.config.xlen)))),
       trace := t.trace + [Stored(a)],
       phase := Executing(if Next(t.config.xlen, a) != t.hart.x[9] then 0 else 3))
  }

  /** One turn of the clear loop. */
  lemma ClearIteration(t: Target, a: nat)
    requires Buffered(t, ClearProgram(t.config.xlen)) && t.hart.x[8] == a && PointsAtWord(t, a)
    ensures Steps(t, 3) == ClearTurn(t, a)
  {
    SmallNumbers();
    hide Advance, Steps, STORE, ADDI, BNE, Signed, SignExtend12, RegNo, WFConfig;
    var program := ClearProgram(t.config.xlen);
    assert t.progbuf[0] == program[0] && t.progbuf[1] == program[1] && t.progbuf[2] == program[2];
    BytesOfZero(WordBytes(t.config.xlen));
    StepStoreWord(t, 0, X0, a, 0);
    StepBump(Advance(t), 1);
    StepLoopBranch(Advance(Advance(t)));
    ThreeSteps(t);
  }

  /** S0 meets S1 after the last word and not before. */
  lemma ClearLoopExit(t: Target, a: nat, n: nat)
    requires WF(t) && n > 0 && WordsInMemory(t, a, n)
    ensures var w, m := WordBytes(t.config.xlen), Modulus(t.config.xlen);
      Next(t.config.xlen, a) == (a + n * w) % m <==> n == 1
    ensures n > 1 ==> Next(t.config.xlen, a) == a + WordBytes(t.config.xlen)
  {
    if t.config.xlen == 32 {} else {}
  }

  lemma ClearRest(t: Target, a: nat, n: nat)
    requires WF(t) && n > 1 && WordsInMemory(t, a, n)
    ensures var w := WordBytes(t.config.xlen);
      && a + w + (n - 1) * w == a + n * w
      && Patch(Patch(t.hart.mem, a, Zeros(w)), a + w, Zeros((n - 1) * w)) == Patch(t.hart.mem, a, Zeros(n * w))
      && (a + w) % w == 0
  {
    hide WF, Zeros, Patch;
    var w := WordBytes(t.config.xlen);
    OneLess(w, n);
    ZerosGrow(t.hart.mem, a, w, (n - 1) * w);
    NextMultiple(a, w);
  }

  lemma OneLess(w: nat, n: nat)
    requires n > 0
    ensures n * w == w + (n - 1) * w
  {
  }

  lemma NextMultiple(a: nat, w: nat)
    requires w > 0 && a % w == 0
    ensures (a + w) % w == 0
  {
    ModuloUnique(a + w, w, a / w + 1, 0);
  }

  function Cleared(t: Target, a: nat, n: nat): Target
    requires WF(t) && WordsInMemory(t, a, n)
  {
    t.(phase := Idle, trace := t.trace + Stores(a, n, WordBytes(t.config.xlen)),
       hart := WithReg(t.hart, 8, t.hart.x[9]).(mem := Patch(t.hart.mem, a, Zeros(n * WordBytes(t.config.xlen)))))
  }

  lemma ClearLastTurn(t: Target, a: nat)
    requires Buffered(t, ClearProgram(t.config.xlen)) && WordsInMemory(t, a, 1)
    requires t.hart.x[8] == a && t.hart.x[9] == Next(t.config.xlen, a)
    ensures Leads(t, 4, Cleared(t, a, 1))
  {
    WordOf(t, a, 1, 0);
    LastTurnIs(t, a);
    assert t.progbuf[3] == ClearProgram(t.config.xlen)[3];
    hide Advance, STORE, ADDI, BNE, WF, Cleared, Next;
    ClearIteration(t, a);
    StepEbreak(Steps(t, 3), 3);
    StepsAdd(t, 3, 1);
  }

  /** What the last turn leaves is the cleared state, but for the breakpoint. */
  lemma LastTurnIs(t: Target, a: nat)
    requires Buffered(t, ClearProgram(t.config.xlen)) && WordsInMemory(t, a, 1) && PointsAtWord(t, a)
    requires t.hart.x[8] == a && t.hart.x[9] == Next(t.config.xlen, a)
    ensures WF(ClearTurn(t, a)) && WF(Cleared(t, a, 1))
    ensures ClearTurn(t, a) == Cleared(t, a, 1).(phase := Executing(3))
  {
    StoresFromFront(a, 1, WordBytes(t.config.xlen));
    hide STORE, ADDI, BNE, Patch;
  }

  lemma ClearOneMore(t: Target, a: nat, n: nat)
    requires Buffered(t, ClearProgram(t.config.xlen)) && n > 1 && WordsInMemory(t, a, n)
    requires t.hart.x[8] == a && t.hart.x[9] == (a + n * WordBytes(t.config.xlen)) % Modulus(t.config.xlen)
    ensures PointsAtWord(t, a)
    ensures var u, w := ClearTurn(t, a), WordBytes(t.config.xlen);
      && Buffered(u, ClearProgram(t.config.xlen)) && WordsInMemory(u, a + w, n - 1)
      && u.config == t.config && u.hart.x[8] == a + w && u.hart.x[9] == t.hart.x[9]
      && Cleared(u, a + w, n - 1) == Cleared(t, a, n)
  {
    hide STORE, ADDI, BNE;
    WordOf(t, a, n, 0);
    ClearLoopExit(t, a, n);
    ClearRest(t, a, n);
    ClearedStep(t, ClearTurn(t, a), a, n);
  }

  lemma ClearedStep(t: Target, u: Target, a: nat, n: nat)
    requires WF(t) && WF(u) && n > 1 && WordsInMemory(t, a, n) && PointsAtWord(t, a) && u == ClearTurn(t, a)
    requires WordsInMemory(u, a + WordBytes(t.config.xlen), n - 1)
    ensures Cleared(u, a + WordBytes(t.config.xlen), n - 1) == Cleared(t, a, n)
  {
    var w := WordBytes(t.config.xlen);
    ClearRest(t, a, n);
    StoresFromFront(a, n, w);
    hide Patch, Stores, Zeros, Next;
    assert t.trace + [Stored(a)] + Stores(a + w, n - 1, w) == t.trace + Stores(a, n, w);
  }

  /** The injected loop stops after exactly n turns, also when the end address
      wraps to 0, having zeroed exactly n words. */
  lemma {:induction false} ClearProgramRun(t: Target, a: nat, n: nat)
    requires Buffered(t, ClearProgram(t.config.xlen)) && n > 0 && WordsInMemory(t, a, n)
    requires t.hart.x[8] == a && t.hart.x[9] == (a + n * WordBytes(t.config.xlen)) % Modulus(t.config.xlen)
    ensures Leads(t, 3 * n + 1, Cleared(t, a, n))
    decreases n
  {
    hide Advance, STORE, ADDI, BNE, WF;
    if n == 1 {
      ClearLastTurn(t, a);
    } else {
      var w := WordBytes(t.config.xlen);
      ClearOneMore(t, a, n);
      ClearIteration(t, a);
      ClearOneMoreEnd(t, a, n);
      ClearProgramRun(Steps(t, 3), a + w, n - 1);
      StepsAdd(t, 3, 3 * (n - 1) + 1);
    }
  }

  lemma ClearOneMoreEnd(t: Target, a: nat, n: nat)
    requires WF(t) && n > 1
    ensures a + WordBytes(t.config.xlen) + (n - 1) * WordBytes(t.config.xlen) == a + n * WordBytes(t.config.xlen)
  {
  }

  // --------------------------------------------------------------- CSR program

  /** data_base, a 12-bit pattern, is where LOAD and STORE off X0 find the data registers. */
  predicate ShadowAt(c: Config, dataBase: bv32) {
    WFConfig(c) && dataBase < 0x1000 && c.shadow == Signed(SignExtend12(dataBase)) % Modulus(c.xlen)
  }

  function CsrProgram(xlen: nat, dataBase: bv32, kind: bv32, which: bv32): seq<bv32> {
    [
      CSRRx(WRITE, S0, CSR_DSCRATCH, S0),
      LOAD(xlen, S0, X0, dataBase),
      CSRRx(kind, S0, which, S0),
      STORE(xlen, S0, X0, dataBase),
      CSRRx(WRITE, S0, CSR_DSCRATCH, S0),
      EBREAK
    ]
  }

  lemma LoadedShadow(t: Target, pc: nat)
    requires WF(t)
    ensures ExecuteLoad(t, pc, WordBytes(t.config.xlen), 8, t.config.shadow)
      == t.(hart := WithReg(t.hart, 8, RegFromData(t)), trace := t.trace + [Loaded(t.config.shadow)],
        phase := Executing(pc + 1))
  {
    if t.config.xlen == 32 {} else {}
  }

  lemma StoredShadow(t: Target, pc: nat, v: u64)
    requires WF(t) && v < Modulus(t.config.xlen)
    ensures ExecuteStore(t, pc, WordBytes(t.config.xlen), v, t.config.shadow)
      == t.(data := DataFromReg(t, v), trace := t.trace + [Stored(t.config.shadow)], phase := Executing(pc + 1))
  {
    if t.config.xlen == 32 {} else {}
  }

  /** LOAD S0, data_base(X0) */
  lemma StepLoadShadow(t: Target, pc: nat, dataBase: bv32)
    requires ShadowAt(t.config, dataBase) && At(t, pc, LOAD(t.config.xlen, S0, X0, dataBase))
    ensures Advance(t) == t.(hart := WithReg(t.hart, 8, RegFromData(t)),
      trace := t.trace + [Loaded(t.config.shadow)], phase := Executing(pc + 1))
  {
    SmallNumbers();
    StepLoad(t, pc, S0, X0, dataBase);
    LoadedShadow(t, pc);
    hide Advance, LOAD, Signed, SignExtend12, RegNo, ExecuteLoad, DataValue;
  }

  /** STORE S0, data_base(X0) */
  lemma StepStoreShadow(t: Target, pc: nat, dataBase: bv32)
    requires ShadowAt(t.config, dataBase) && At(t, pc, STORE(t.config.xlen, S0, X0, dataBase))
    ensures Advance(t) == t.(data := DataFromReg(t, t.hart.x[8]), trace := t.trace + [Stored(t.config.shadow)],
      phase := Executing(pc + 1))
  {
    SmallNumbers();
    StepStore(t, pc, S0, X0, dataBase);
    StoredShadow(t, pc, t.hart.x[8]);
    hide Advance, STORE, Signed, SignExtend12, RegNo, ExecuteStore, DataFromReg;
  }

  /** CSRRx S0, csr, S0 */
  lemma StepCsrS0(t: Target, pc: nat, kind: bv32, csr: bv32)
    requires WRITE <= kind <= CLEAR && csr < 4096 && At(t, pc, CSRRx(kind, S0, csr, S0))
    ensures var i := CsrNo(csr);
      Advance(t) == t.(phase := Executing(pc + 1), hart := WithReg(t.hart, 8, t.hart.csr[i])
          .(csr := t.hart.csr[i := CsrUpdate(t.config.xlen, kind, t.hart.csr[i], t.hart.x[8])]))
  {
    SmallNumbers();
    StepCsr(t, pc, kind, S0, csr, S0);
    hide Advance, CSRRx, RegNo, CsrNo, CsrUpdate;
  }

  const DSCRATCH: nat := 0x7b2
  const DPC: nat := 0x7b1

  /** Final state of the CSR program on CSR number i. */
  function CsrOutcome(t: Target, kind: bv32, i: nat): Target
    requires WF(t) && i < 4096
  {
    var csr1 := t.hart.csr[DSCRATCH := t.hart.x[8]];
    var csr2 := csr1[i := CsrUpdate(t.config.xlen, kind, csr1[i], RegFromData(t))];
    t.(phase := Idle,
       data := DataFromReg(t, csr1[i]),
       trace := t.trace + [Loaded(t.config.shadow)] + [Stored(t.config.shadow)],
       hart := Hart(t.hart.x[8 := csr2[DSCRATCH]], csr2[DSCRATCH := csr1[i]], t.hart.mem))
  }

  lemma CsrWrite(xlen: nat, current: u64, operand: u64)
    requires xlen == 32 || xlen == 64
    requires current < Modulus(xlen) && operand < Modulus(xlen)
    ensures CsrUpdate(xlen, WRITE, current, operand) == operand
  {
  }

  /** The state after the first three instructions: S0 is parked in dscratch, the
      operand has been applied, and S0 holds the old value of the CSR. */
  function CsrApplied(t: Target, kind: bv32, i: nat): Target
    requires WF(t) && i < 4096
  {
    var csr1 := t.hart.csr[DSCRATCH := t.hart.x[8]];
    t.(phase := Executing(3), trace := t.trace + [Loaded(t.config.shadow)],
       hart := Hart(t.hart.x[8 := csr1[i]], csr1[i := CsrUpdate(t.config.xlen, kind, csr1[i], RegFromData(t))],
         t.hart.mem))
  }

  /** After two instructions: S0 holds the operand. */
  function CsrLoaded(t: Target): Target
    requires WF(t)
  {
    t.(phase := Executing(2), trace := t.trace + [Loaded(t.config.shadow)],
       hart := Hart(t.hart.x[8 := RegFromData(t)], t.hart.csr[DSCRATCH := t.hart.x[8]], t.hart.mem))
  }

  lemma CsrFirstTwo(t: Target, dataBase: bv32, kind: bv32, which: bv32)
    requires Buffered(t, CsrProgram(t.config.xlen, dataBase, kind, which)) && ShadowAt(t.config, dataBase)
    ensures Advance(Advance(t)) == CsrLoaded(t)
  {
    SmallNumbers();
    hide Advance, LOAD, STORE, CSRRx, CsrNo, CsrUpdate, ShadowAt, Signed, RegNo;
    var program := CsrProgram(t.config.xlen, dataBase, kind, which);
    assert t.progbuf[0] == program[0] && t.progbuf[1] == program[1];
    StepCsrS0(t, 0, WRITE, CSR_DSCRATCH);
    CsrWrite(t.config.xlen, t.hart.csr[DSCRATCH], t.hart.x[8]);
    StepLoadShadow(Advance(t), 1, dataBase);
  }

  lemma CsrFirstHalf(t: Target, dataBase: bv32, kind: bv32, which: bv32)
    requires Buffered(t, CsrProgram(t.config.xlen, dataBase, kind, which)) && ShadowAt(t.config, dataBase)
    requires WRITE <= kind <= CLEAR && which < 4096
    ensures Steps(t, 3) == CsrApplied(t, kind, CsrNo(which))
  {
    hide Advance, LOAD, STORE, CSRRx, CsrNo, CsrUpdate, ShadowAt;
    var program := CsrProgram(t.config.xlen, dataBase, kind, which);
    assert t.progbuf[2] == program[2];
    CsrFirstTwo(t, dataBase, kind, which);
    StepCsrS0(Advance(Advance(t)), 2, kind, which);
    ThreeSteps(t);
  }

  lemma CsrSecondHalf(t: Target, u: Target, dataBase: bv32, kind: bv32, which: bv32)
    requires Buffered(t, CsrProgram(t.config.xlen, dataBase, kind, which)) && ShadowAt(t.config, dataBase)
    requires WRITE <= kind <= CLEAR && which < 4096
    requires WF(u) && u == CsrApplied(t, kind, CsrNo(which))
    ensures Steps(u, 3) == CsrOutcome(t, kind, CsrNo(which))
  {
    SmallNumbers();
    hide Advance, LOAD, STORE, CSRRx, CsrNo, CsrUpdate, ShadowAt, Signed, RegNo;
    var program := CsrProgram(t.config.xlen, dataBase, kind, which);
    assert t.progbuf[3] == program[3] && t.progbuf[4] == program[4] && t.progbuf[5] == program[5];
    StepStoreShadow(u, 3, dataBase);
    StepCsrS0(Advance(u), 4, WRITE, CSR_DSCRATCH);
    CsrWrite(t.config.xlen, u.hart.csr[DSCRATCH], u.hart.x[8]);
    StepEbreak(Advance(Advance(u)), 5);
    ThreeSteps(u);
  }

  lemma CsrProgramRun(t: Target, dataBase: bv32, kind: bv32, which: bv32)
    requires Buffered(t, CsrProgram(t.config.xlen, dataBase, kind, which)) && ShadowAt(t.config, dataBase)
    requires WRITE <= kind <= CLEAR && which < 4096
    ensures Leads(t, 6, CsrOutcome(t, kind, CsrNo(which)))
  {
    hide Advance, CsrApplied, CsrProgram, ShadowAt;
    CsrFirstHalf(t, dataBase, kind, which);
    CsrSecondHalf(t, Steps(t, 3), dataBase, kind, which);
    StepsAdd(t, 3, 3);
  }
}
