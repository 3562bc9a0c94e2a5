/** A Debug Module with one hart behind it (RISC-V External Debug Support 0.13,
    sections 3.5 to 3.7 and 3.12), as a machine that advances one step at a time. */
module DebugModule {
  import opened Words
  import opened Memory
  import opened Encoding

  // ------------------------------------------------------ register bit fields

  const DMCONTROL_HALTREQ: bv32 := 0x8000_0000
  const DMCONTROL_RESUMEREQ: bv32 := 0x4000_0000
  const DMCONTROL_HARTSEL: bv32 := 0x03ff_0000
  const DMCONTROL_DMACTIVE: bv32 := 1
  const DMSTATUS_ALLRESUMEACK: bv32 := 0x2_0000
  const DMSTATUS_ALLHALTED: bv32 := 0x200
  const ABSTRACTCS_BUSY: bv32 := 0x1000
  const ABSTRACTCS_CMDERR: bv32 := 0x700
  const ABSTRACTCS_PROGSIZE: bv32 := 0x1f00_0000
  const ABSTRACTCS_DATACOUNT: bv32 := 0x1f
  const HARTINFO_NSCRATCH: bv32 := 0xf0_0000
  const HARTINFO_DATAACCESS: bv32 := 0x1_0000
  const HARTINFO_DATAADDR: bv32 := 0xfff
  const AC_POSTEXEC: bv32 := 0x4_0000
  const AC_TRANSFER: bv32 := 0x2_0000
  const AC_WRITE: bv32 := 0x1_0000

  /** The values of abstractcs.cmderr, in the order of their codes. */
  datatype CmdErr = NoError | BusyError | NotSupported | ExceptionError | HaltResume

  function Code(e: CmdErr): bv32 {
    match e
    case NoError => 0
    case BusyError => 1
    case NotSupported => 2
    case ExceptionError => 3
    case HaltResume => 4
  }

  /** Where the specification (sections 3.6 and 3.12) has these bits. */
  lemma RegisterLayout()
    ensures DMCONTROL_HALTREQ == 1 << 31 && DMCONTROL_RESUMEREQ == 1 << 30
    ensures DMCONTROL_HARTSEL == 0x3ff << 16 && DMCONTROL_DMACTIVE == 1
    ensures DMSTATUS_ALLRESUMEACK == 1 << 17 && DMSTATUS_ALLHALTED == 1 << 9
    ensures ABSTRACTCS_PROGSIZE == 0x1f << 24 && ABSTRACTCS_BUSY == 1 << 12
    ensures ABSTRACTCS_CMDERR == 7 << 8 && ABSTRACTCS_DATACOUNT == 0x1f
    ensures HARTINFO_NSCRATCH == 0xf << 20 && HARTINFO_DATAACCESS == 1 << 16 && HARTINFO_DATAADDR == 0xfff
    ensures AC_POSTEXEC == 1 << 18 && AC_TRANSFER == 1 << 17 && AC_WRITE == 1 << 16
    ensures Code(NoError) == 0 && Code(BusyError) == 1 && Code(NotSupported) == 2
    ensures Code(ExceptionError) == 3 && Code(HaltResume) == 4
  {
  }

  // -------------------------------------------------------------------- state

  /** Architectural state of the hart; CSRs are plain storage. */
  datatype Hart = Hart(x: seq<u64>, csr: seq<u64>, mem: Mem)

  /** What program-buffer code did to memory, which instruction fetches it fenced, and which
      accesses found the Debug Module busy, in order. */
  datatype Event = Loaded(addr: nat) | Stored(addr: nat) | Fenced | RefusedBusy

  datatype Phase = Idle | Waiting(delay: nat) | Executing(pc: nat)

  datatype Run = Running | Halting(delay: nat) | Halted | Resuming(delay: nat)

  /** What never changes: the hart's width and index, the address at which it sees the
      data registers, the size bits of abstractcs, hartinfo, and whether the hart's own
      program leaves memory alone while it runs. */
  datatype Config = Config(xlen: nat, shadow: nat, hartId: bv32, capabilities: bv32, hartinfo: bv32, passive: bool)

  datatype Target = Target(
    config: Config,
    progbuf: seq<bv32>,
    data: seq<u32>,
    command: bv32,
    auto: bv32,
    phase: Phase,
    cmderr: CmdErr,
    active: bool,
    selected: bool,
    run: Run,
    resumeAck: bool,
    hart: Hart,
    trace: seq<Event>)

  function Modulus(xlen: nat): (m: nat)
    ensures m > 0
  {
    if xlen == 32 then TWO_32 else TWO_64
  }

  function WordBytes(xlen: nat): nat { if xlen == 32 then 4 else 8 }

  predicate WFHart(h: Hart, xlen: nat) {
    && |h.x| == 32 && h.x[0] == 0
    && (forall i :: 0 <= i < 32 ==> h.x[i] < Modulus(xlen))
    && |h.csr| == 4096
    && (forall i :: 0 <= i < 4096 ==> h.csr[i] < Modulus(xlen))
    && |h.mem| <= Modulus(xlen)
  }

  predicate WFConfig(c: Config) {
    && (c.xlen == 32 || c.xlen == 64)
    && c.shadow < Modulus(c.xlen) && c.shadow % WordBytes(c.xlen) == 0
    && c.capabilities & (ABSTRACTCS_BUSY | ABSTRACTCS_CMDERR) == 0
  }

  predicate WF(t: Target) {
    && WFConfig(t.config)
    && WFHart(t.hart, t.config.xlen)
    && |t.data| >= t.config.xlen / 32
  }

  /** r differs from t only in what a running command may touch. */
  predicate SameShell(t: Target, r: Target) {
    && r == t.(data := r.data, phase := r.phase, cmderr := r.cmderr, hart := r.hart, trace := r.trace)
    && |r.data| == |t.data|
  }

  // ---------------------------------------------------------- hart execution

  function RegNo(b: bv32): (r: nat)
    ensures r < 32
  {
    (b as nat) % 32
  }

  function SetReg(h: Hart, r: nat, v: u64): Hart
    requires r < |h.x|
  {
    if r == 0 then h else h.(x := h.x[r := v])
  }

  /** Errors are sticky: the first one is kept. */
  function Refuse(t: Target, e: CmdErr): (r: Target)
    requires WF(t)
    ensures WF(r) && SameShell(t, r)
  {
    if t.cmderr.NoError? then t.(cmderr := e) else t
  }

  function Fault(t: Target): (r: Target)
    requires WF(t)
    ensures WF(r) && SameShell(t, r)
  {
    Refuse(t, ExceptionError).(phase := Idle)
  }

  predicate InShadow(t: Target, a: int, width: nat) {
    t.config.shadow <= a && a + width <= t.config.shadow + 4 * |t.data|
  }

  predicate Accessible(t: Target, a: int, width: nat) {
    && 0 < width && 8 * width <= t.config.xlen && 0 <= a && a % width == 0
    && (InShadow(t, a, width) || a + width <= |t.hart.mem|)
  }

  function ShadowWord(t: Target, a: int, width: nat): (i: nat)
    requires InShadow(t, a, width) && 4 <= width
    ensures i + width / 4 <= |t.data|
  {
    (a - t.config.shadow) / 4
  }

  function LoadValue(t: Target, a: int, width: nat): (v: u64)
    requires (width == 4 || width == 8) && Accessible(t, a, width)
    ensures v < Pow256(width)
  {
    Pow256Values();
    if InShadow(t, a, width) then
      var i := ShadowWord(t, a, width);
      if width == 4 then t.data[i] else t.data[i] + TWO_32 * t.data[i + 1]
    else
      ValueBound(t.hart.mem[a..a + width]);
      Value(t.hart.mem[a..a + width])
  }

  function StoreValue(t: Target, a: int, width: nat, v: u64): (r: Target)
    requires (width == 4 || width == 8) && Accessible(t, a, width)
    ensures |r.data| == |t.data| && |r.hart.mem| == |t.hart.mem|
    ensures r == t.(data := r.data, hart := t.hart.(mem := r.hart.mem))
  {
    if InShadow(t, a, width) then
      var i := ShadowWord(t, a, width);
      if width == 4 then t.(data := t.data[i := v % TWO_32])
      else t.(data := t.data[i := v % TWO_32][i + 1 := v / TWO_32])
    else
      t.(hart := t.hart.(mem := Patch(t.hart.mem, a, Bytes(v, width))))
  }

  /** lw on a 64-bit hart sign-extends; otherwise the access is xlen wide. */
  function Extend(xlen: nat, width: nat, v: u64): u64 {
    if xlen == 64 && width == 4 && 0x8000_0000 <= v < TWO_32 then v + (TWO_64 - TWO_32) else v
  }

  /** csrrw, csrrs and csrrc on xlen-bit values. */
  function CsrUpdate(xlen: nat, kind: bv32, current: u64, operand: u64): (r: u64)
    requires xlen == 32 || xlen == 64
    requires current < Modulus(xlen) && operand < Modulus(xlen)
    ensures r < Modulus(xlen)
  {
    Pow2Values();
    BitwiseBound(current, operand, xlen);
    if kind == 1 then operand else if kind == 2 then Or(current, operand) else AndNot(current, operand)
  }

  function ExecuteLoad(t: Target, pc: nat, width: nat, rd: nat, a: nat): (r: Target)
    requires WF(t) && rd < 32
    ensures WF(r) && SameShell(t, r)
  {
    if (width == 4 || width == 8) && Accessible(t, a, width) then
      Pow256Values();
      var v := Extend(t.config.xlen, width, LoadValue(t, a, width));
      t.(hart := SetReg(t.hart, rd, v), trace := t.trace + [Loaded(a)], phase := Executing(pc + 1))
    else Fault(t)
  }

  function ExecuteStore(t: Target, pc: nat, width: nat, v: u64, a: nat): (r: Target)
    requires WF(t)
    ensures WF(r) && SameShell(t, r)
  {
    if (width == 4 || width == 8) && Accessible(t, a, width) then
      StoreValue(t, a, width, v).(trace := t.trace + [Stored(a)], phase := Executing(pc + 1))
    else Fault(t)
  }

  function ExecuteAddi(t: Target, pc: nat, rd: nat, v: int): (r: Target)
    requires WF(t) && rd < 32 && 0 <= v < Modulus(t.config.xlen)
    ensures WF(r) && SameShell(t, r)
  {
    t.(hart := SetReg(t.hart, rd, v), phase := Executing(pc + 1))
  }

  function Enter(t: Target, phase: Phase): (r: Target)
    requires WF(t)
    ensures WF(r) && SameShell(t, r)
  {
    t.(phase := phase)
  }

  function ExecuteFence(t: Target, pc: nat): (r: Target)
    requires WF(t)
    ensures WF(r) && SameShell(t, r)
  {
    t.(trace := t.trace + [Fenced], phase := Executing(pc + 1))
  }

  function ExecuteBranch(t: Target, pc: nat, taken: bool, offset: int): (r: Target)
    requires WF(t)
    ensures WF(r) && SameShell(t, r)
  {
    if taken then Jump(t, 4 * pc + offset) else t.(phase := Executing(pc + 1))
  }

  function ExecuteCsr(t: Target, pc: nat, kind: bv32, rd: nat, i: nat, rs1: nat): (r: Target)
    requires WF(t) && rd < 32 && i < 4096 && rs1 < 32
    ensures WF(r) && SameShell(t, r)
  {
    hide CsrUpdate;
    var h := t.hart;
    var csr' := if kind != 1 && rs1 == 0 then h.csr
      else h.csr[i := CsrUpdate(t.config.xlen, kind, h.csr[i], h.x[rs1])];
    t.(hart := SetReg(h, rd, h.csr[i]).(csr := csr'), phase := Executing(pc + 1))
  }

  function CsrNo(b: bv32): (i: nat)
    ensures i < 4096
  {
    (b as nat) % 4096
  }

  function Reg(t: Target, r: nat): u64
    requires WF(t) && r < 32
  {
    t.hart.x[r]
  }

  /** Register plus immediate, wrapping at the hart's width. */
  function Offset(t: Target, r: nat, imm: int): (a: nat)
    requires WF(t) && r < 32
    ensures a < Modulus(t.config.xlen)
  {
    (t.hart.x[r] + imm) % Modulus(t.config.xlen)
  }

  function Execute(t: Target, pc: nat, instr: Instr): (r: Target)
    requires WF(t)
    ensures WF(r) && SameShell(t, r)
  {
    hide WF, SameShell;
    match instr
    case Load(width, rd, rs1, imm) =>
      ExecuteLoad(t, pc, width, RegNo(rd), Offset(t, RegNo(rs1), Signed(imm)))
    case Store(width, rs2, rs1, imm) =>
      ExecuteStore(t, pc, width, Reg(t, RegNo(rs2)), Offset(t, RegNo(rs1), Signed(imm)))
    case Addi(rd, rs1, imm) => ExecuteAddi(t, pc, RegNo(rd), Offset(t, RegNo(rs1), Signed(imm)))
    case Bne(rs1, rs2, imm) =>
      ExecuteBranch(t, pc, Reg(t, RegNo(rs1)) != Reg(t, RegNo(rs2)), Signed(imm))
    case Jal(rd, imm) =>
      // the link value of program-buffer code is unspecified; only rd = x0 is used
      if RegNo(rd) == 0 then ExecuteBranch(t, pc, true, Signed(imm)) else Fault(t)
    case Csr(kind, rd, csr, rs1) => ExecuteCsr(t, pc, kind, RegNo(rd), CsrNo(csr), RegNo(rs1))
    case FenceI => ExecuteFence(t, pc)
    case Ebreak => Enter(t, Idle)
    case Illegal => Fault(t)
  }

  function Jump(t: Target, where: int): (r: Target)
    requires WF(t)
    ensures WF(r) && SameShell(t, r)
  {
    if where >= 0 && where % 4 == 0 then t.(phase := Executing(where / 4)) else Fault(t)
  }

  // -------------------------------------------------------- abstract commands

  function SizeCode(xlen: nat): bv32 { if xlen == 32 then 2 else 3 }

  function DataValue(xlen: nat, data: seq<u32>): (v: u64)
    requires (xlen == 32 || xlen == 64) && |data| >= xlen / 32
    ensures v < Modulus(xlen)
  {
    if xlen == 32 then data[0] else data[0] + TWO_32 * data[1]
  }

  /** The number the data registers stand for. */
  function RegFromData(t: Target): (v: u64)
    requires WF(t)
    ensures v < Modulus(t.config.xlen)
  {
    DataValue(t.config.xlen, t.data)
  }

  function DataFromReg(t: Target, v: u64): (data: seq<u32>)
    requires WF(t) && v < Modulus(t.config.xlen)
    ensures |data| == |t.data|
  {
    if t.config.xlen == 32 then t.data[0 := v] else t.data[0 := v % TWO_32][1 := v / TWO_32]
  }

  predicate Supported(t: Target) {
    && t.command >> 24 == 0
    && (t.command >> 20) & 7 == SizeCode(t.config.xlen)
    && t.command & 0xffe0 == 0x1000
  }

  function Transfer(t: Target): (r: Target)
    requires WF(t)
    ensures WF(r) && r == t.(data := r.data, hart := r.hart)
  {
    var r := RegNo(t.command & 0x1f);
    if t.command & AC_TRANSFER == 0 then t
    else if t.command & AC_WRITE != 0 then t.(hart := SetReg(t.hart, r, RegFromData(t)))
    else t.(data := DataFromReg(t, t.hart.x[r]))
  }

  function StartCommand(t: Target): (r: Target)
    requires WF(t)
    ensures WF(r) && SameShell(t, r)
  {
    if !Supported(t) then Refuse(t, NotSupported).(phase := Idle)
    else if t.command & AC_POSTEXEC != 0 then Transfer(t).(phase := Executing(0))
    else Transfer(t).(phase := Idle)
  }

  /** One step of the command in flight. */
  function AdvanceCommand(t: Target): (r: Target)
    requires WF(t) && !t.phase.Idle?
    ensures WF(r) && SameShell(t, r)
  {
    if t.phase.Waiting? then
      if t.phase.delay > 0 then t.(phase := Waiting(t.phase.delay - 1)) else StartCommand(t)
    else if t.phase.pc < |t.progbuf| then Execute(t, t.phase.pc, Decode(t.progbuf[t.phase.pc]))
    else Fault(t)
  }

  /** One step of a halt or resume under way. */
  function AdvanceRun(t: Target): (r: Target)
    requires WF(t)
    ensures WF(r)
  {
    match t.run
    case Halting(d) => t.(run := if d > 0 then Halting(d - 1) else Halted)
    case Resuming(d) => if d > 0 then t.(run := Resuming(d - 1)) else t.(run := Running, resumeAck := true)
    case _ => t
  }

  /** One unit of time for everything but the hart's own program. */
  function Advance(t: Target): (r: Target)
    requires WF(t)
    ensures WF(r)
  {
    if t.phase.Idle? then AdvanceRun(t) else AdvanceCommand(t)
  }

  function Steps(t: Target, n: nat): (r: Target)
    requires WF(t)
    ensures WF(r)
    decreases n
  {
    if n == 0 then t else Steps(Advance(t), n - 1)
  }

  // ------------------------------------------------------------ DMI registers

  datatype Control = Dmcontrol | Dmstatus | Hartinfo | Abstractcs | Command | Abstractauto

  /** A DMI request; words whose bits are looked at are bit vectors, data
      registers hold numbers. */
  datatype Req =
    | ReadControl(reg: Control)
    | WriteControl(reg: Control, bits: bv32)
    | WriteProgbuf(i: nat, code: bv32)
    | ReadData(i: nat)
    | WriteData(i: nat, word: u32)

  function Flag(b: bool, mask: bv32): bv32 { if b then mask else 0 }

  /** Sizes and hartinfo are preset, so they can be read before the Debug Module is active. */
  function ReadBits(t: Target, reg: Control): bv32 {
    match reg
    case Dmstatus =>
      if !t.active then 0 else
      Flag(t.selected && (t.run.Halted? || t.run.Resuming?), DMSTATUS_ALLHALTED) |
        Flag(t.selected && t.resumeAck, DMSTATUS_ALLRESUMEACK)
    case Hartinfo => if t.selected then t.config.hartinfo else 0
    case Abstractcs =>
      if !t.active then t.config.capabilities else
      t.config.capabilities | Flag(!t.phase.Idle?, ABSTRACTCS_BUSY) | (Code(t.cmderr) << 8)
    case Abstractauto => if t.active then t.auto else 0
    case Command => 0
    case Dmcontrol => Flag(t.active, DMCONTROL_DMACTIVE)
  }

  function ReadWord(t: Target, i: nat): u32 {
    if t.active && i < |t.data| then t.data[i] else 0
  }

  predicate AutoBit(auto: bv32, i: nat) {
    if i == 0 then auto & 1 == 1 else AutoBit(auto >> 1, i - 1)
  }

  function Launch(t: Target, delay: nat): (r: Target)
    requires WF(t)
    ensures WF(r)
  {
    if !t.cmderr.NoError? then t
    else if !(t.selected && t.run.Halted?) then t.(cmderr := HaltResume)
    else t.(phase := Waiting(delay))
  }

  function AutoLaunch(t: Target, i: nat, delay: nat): (r: Target)
    requires WF(t)
    ensures WF(r)
  {
    if i < 12 && AutoBit(t.auto, i) then Launch(t, delay) else t
  }

  /** dmactive = 0 puts the Debug Module into its reset state. */
  function Reset(t: Target): (r: Target)
    requires WF(t)
    ensures WF(r)
  {
    t.(active := false, data := seq(|t.data|, _ => 0), command := 0, auto := 0, phase := Idle, cmderr := NoError,
      resumeAck := false)
  }

  function WriteDmcontrol(t: Target, w: bv32, delay: nat): (r: Target)
    requires WF(t)
    ensures WF(r)
  {
    if w & DMCONTROL_DMACTIVE == 0 then Reset(t)
    else if !t.active then t.(active := true)
    else
      var t' := t.(selected := (w & DMCONTROL_HARTSEL) >> 16 == t.config.hartId);
      if !t'.selected then t'
      else if w & DMCONTROL_HALTREQ != 0 then
        if t.run.Running? then t'.(run := Halting(delay)) else t'
      else if w & DMCONTROL_RESUMEREQ != 0 && t.run.Halted? then t'.(run := Resuming(delay), resumeAck := false)
      else t'
  }

  function WriteBits(t: Target, reg: Control, w: bv32, delay: nat): (r: Target)
    requires WF(t)
    ensures WF(r)
  {
    match reg
    case Command => if t.cmderr.NoError? then Launch(t.(command := w), delay) else t
    case Abstractauto => t.(auto := w)
    case Abstractcs => if w & ABSTRACTCS_CMDERR == ABSTRACTCS_CMDERR then t.(cmderr := NoError) else t
    case _ => t
  }

  function WriteWord(t: Target, i: nat, word: u32, delay: nat): (r: Target)
    requires WF(t)
    ensures WF(r)
  {
    AutoLaunch(if i < |t.data| then t.(data := t.data[i := word]) else t, i, delay)
  }

  /** Effect of one DMI access at the moment it arrives; delay is the latency of
      the command or hart transition it may start. */
  function Perform(t: Target, req: Req, delay: nat): (r: Target)
    requires WF(t)
    ensures WF(r)
  {
    if req.WriteControl? && req.reg.Dmcontrol? then WriteDmcontrol(t, req.bits, delay)
    else if !t.active || req.ReadControl? then t
    else if !t.phase.Idle? then Refuse(t, BusyError).(trace := t.trace + [RefusedBusy])
    else
      match req
      case ReadControl(_) => t
      case WriteControl(reg, w) => WriteBits(t, reg, w, delay)
      case WriteProgbuf(i, code) => if i < |t.progbuf| then t.(progbuf := t.progbuf[i := code]) else t
      case ReadData(i) => AutoLaunch(t, i, delay)
      case WriteData(i, word) => WriteWord(t, i, word, delay)
  }

  // ---------------------------------------------------------- passage of time

  /** Nothing is under way: time alone changes nothing. */
  predicate Settled(t: Target) {
    WF(t) && t.phase.Idle? && t.run.Halted?
  }

  /** From t, n steps end in f, where everything has come to rest. */
  predicate Leads(t: Target, n: nat, f: Target) {
    WF(t) && Settled(f) && Steps(t, n) == f
  }

  lemma {:induction false} StepsOfSettled(t: Target, n: nat)
    requires Settled(t)
    ensures Steps(t, n) == t
  {
    if n > 0 { StepsOfSettled(t, n - 1); }
  }

  lemma {:induction false} StepsAdd(t: Target, m: nat, n: nat)
    requires WF(t)
    ensures Steps(t, m + n) == Steps(Steps(t, m), n)
    decreases m
  {
    hide Advance, WF;
    if m > 0 { StepsAdd(Advance(t), m - 1, n); }
  }

  /** However much time passes on the way, the outcome stays the same. */
  lemma LeadsLater(t: Target, n: nat, f: Target, k: nat)
    requires Leads(t, n, f)
    ensures Leads(Steps(t, k), if k <= n then n - k else 0, f)
  {
    hide Advance, WF;
    if k <= n {
      StepsAdd(t, k, n - k);
    } else {
      StepsAdd(t, n, k - n);
      StepsOfSettled(f, k - n);
    }
  }

  lemma DelayStep(t: Target, d: nat)
    requires WF(t) && d > 0
    ensures WF(t.(phase := Waiting(d))) && Advance(t.(phase := Waiting(d))) == t.(phase := Waiting(d - 1))
  {
  }

  lemma WFWithHart(t: Target, h: Hart)
    requires WF(t) && WFHart(h, t.config.xlen)
    ensures WF(t.(hart := h))
  {
  }

  /** The latency of a command does not influence its outcome. */
  lemma {:induction false} LeadsAfterDelay(t: Target, d: nat, n: nat, f: Target)
    requires WF(t) && Leads(t.(phase := Waiting(0)), n, f)
    ensures Leads(t.(phase := Waiting(d)), d + n, f)
    decreases d
  {
    if d > 0 {
      DelayStep(t, d);
      hide AdvanceCommand, Advance, WF;
      LeadsAfterDelay(t, d - 1, n, f);
    }
  }

  /** A running command never touches the hart's run state or the DM's configuration. */
  lemma {:induction false} StepsFrame(t: Target, n: nat)
    requires WF(t) && t.run.Halted?
    ensures SameShell(t, Steps(t, n))
    decreases n
  {
    hide AdvanceCommand, WF;
    if n > 0 { StepsFrame(Advance(t), n - 1); }
  }

  /** What the running hart may do to memory. */
  predicate Kept(c: Config, m: Mem, n: Mem) {
    |n| == |m| && (c.passive ==> n == m)
  }

  /** q is what p may have become after some time in which the hart runs its own
      program, is being halted or is being resumed, with no command in flight. */
  predicate Drifts(p: Target, q: Target) {
    && q == p.(hart := q.hart, run := q.run, resumeAck := q.resumeAck)
    && Kept(p.config, p.hart.mem, q.hart.mem)
    && match p.run
       case Running => q.run.Running? && q.resumeAck == p.resumeAck
       case Halting(d) => q.resumeAck == p.resumeAck && (q.run.Halted? || (q.run.Halting? && q.run.delay < d))
       case Halted => q == p
       case Resuming(d) =>
         || (q.run.Resuming? && q.run.delay < d && q.hart == p.hart && q.resumeAck == p.resumeAck)
         || (q.run.Running? && q.resumeAck)
  }

  /** What the host has sent to dmcontrol: the last word, whether that was its last access
      of all, and how often one such write has directly followed another. */
  datatype Traffic = Traffic(dmcontrol: bv32, adjacent: bool, crowded: nat)

  predicate OnDmcontrol(req: Req) { req.WriteControl? && req.reg.Dmcontrol? }

  function Noted(w: Traffic, req: Req): Traffic {
    if OnDmcontrol(req) then Spaced(w, req.bits).(adjacent := true) else w.(adjacent := false)
  }

  /** After some accesses of which the first wrote dmcontrol, the last did not, and no two
      writes of dmcontrol were neighbours. */
  function Spaced(w: Traffic, word: bv32): Traffic {
    Traffic(word, false, w.crowded + if w.adjacent then 1 else 0)
  }

  /** The Debug Module as an object: every access takes effect at once, then an
      arbitrary, positive amount of time passes. While the hart is not halted its
      own program changes its architectural state arbitrarily. */
  class Module {
    const config: Config
    var t: Target
    ghost var atHalt: Hart      // the hart when it was last halted
    ghost var atResume: Hart    // the hart when it was last let go
    ghost var traffic: Traffic

    constructor (initial: Target)
      requires WF(initial)
      ensures t == initial && t.config == config
    {
      config := initial.config;
      t := initial;
      atHalt := initial.hart;
      atResume := initial.hart;
      traffic := Traffic(0, false, 0);
    }

    method Tick()
      requires WF(t)
      modifies this`t, this`atHalt, this`atResume
      ensures WF(t)
      ensures old(t).run.Halted? ==> t == Advance(old(t)) && atHalt == old(atHalt) && atResume == old(atResume)
      ensures old(t).phase.Idle? ==> Drifts(old(t), t) && Witnessed(old(t), old(atHalt), old(atResume))
    {
      hide AdvanceCommand, WF;
      if t.run.Running? || t.run.Halting? {
        var h: Hart := *;
        if WFHart(h, t.config.xlen) && Kept(t.config, t.hart.mem, h.mem) {
          WFWithHart(t, h);
          t := t.(hart := h);
        }
      }
      ghost var before := t;
      t := Advance(t);
      if before.run.Halting? && t.run.Halted? { atHalt := t.hart; }
      if before.run.Resuming? && t.run.Running? { atResume := before.hart; }
    }

    /** The snapshots move exactly when the hart stops and starts. */
    ghost predicate Witnessed(p: Target, halt: Hart, resume: Hart)
      reads this
    {
      && atHalt == (if p.run.Halting? && t.run.Halted? then t.hart else halt)
      && atResume == (if p.run.Resuming? && t.run.Running? then p.hart else resume)
    }

    /** Time passes after an access; the access itself is Perform. */
    method Access(req: Req) returns (ghost delay: nat, ghost time: nat)
      requires WF(t)
      modifies this
      ensures WF(t) && time >= 1 && traffic == Noted(old(traffic), req)
      ensures var p := Perform(old(t), req, delay);
        && (p.run.Halted? ==> t == Steps(p, time) && atHalt == old(atHalt) && atResume == old(atResume))
        && (p.phase.Idle? ==> Drifts(p, t) && Witnessed(p, old(atHalt), old(atResume)))
    {
      hide Advance, Perform, WF;
      var latency: nat := *;
      var k: nat := *;
      ghost var p := Perform(t, req, latency);
      t := Perform(t, req, latency);
      traffic := Noted(traffic, req);
      Tick();
      var i: nat := 1;
      while i < k
        invariant WF(t) && 1 <= i && traffic == Noted(old(traffic), req)
        invariant p.run.Halted? ==> t == Steps(p, i) && atHalt == old(atHalt) && atResume == old(atResume)
        invariant p.phase.Idle? ==> Drifts(p, t) && Witnessed(p, old(atHalt), old(atResume))
      {
        if p.run.Halted? {
          StepsFrame(p, i);
          StepsAdd(p, i, 1);
        }
        Tick();
        i := i + 1;
      }
      delay := latency;
      time := i;
    }

    method Read(reg: Control) returns (bits: bv32, ghost time: nat)
      requires WF(t)
      modifies this
      ensures WF(t) && time >= 1 && traffic == old(traffic).(adjacent := false)
      ensures bits == ReadBits(old(t), reg)
      ensures old(t).run.Halted? ==> t == Steps(old(t), time) && atHalt == old(atHalt) && atResume == old(atResume)
      ensures old(t).phase.Idle? ==> Drifts(old(t), t) && Witnessed(old(t), old(atHalt), old(atResume))
    {
      bits := ReadBits(t, reg);
      ghost var delay;
      delay, time := Access(ReadControl(reg));
    }

    method Fetch(i: nat) returns (word: u32, ghost delay: nat, ghost time: nat)
      requires WF(t) && t.run.Halted?
      modifies this
      ensures WF(t) && word == ReadWord(old(t), i) && traffic == old(traffic).(adjacent := false)
      ensures Perform(old(t), ReadData(i), delay).run.Halted? ==>
        t == Steps(Perform(old(t), ReadData(i), delay), time) && atHalt == old(atHalt) && atResume == old(atResume)
    {
      word := ReadWord(t, i);
      delay, time := Access(ReadData(i));
    }
  }
}
