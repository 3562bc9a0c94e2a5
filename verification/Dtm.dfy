/** The debug transport driver: memory and CSR accesses by abstract commands. */
module Dtm {
  import opened Wrappers
  import opened Words
  import opened Memory
  import opened Encoding
  import opened Fields
  import opened DebugModule
  import opened DtmPrograms
  import opened DtmChunks

  // ------------------------------------------------------- single DMI accesses

  /** An access that starts nothing: its effect does not depend on timing. */
  ghost predicate Quiet(t: Target, req: Req, r: Target) {
    && Settled(t) && Settled(r)
    && forall d: nat :: Perform(t, req, d) == r
  }

  lemma QuietProgbuf(t: Target, i: nat, code: bv32)
    requires Settled(t) && t.active && i < |t.progbuf|
    ensures Quiet(t, WriteProgbuf(i, code), t.(progbuf := t.progbuf[i := code]))
  {
  }

  lemma {:induction false} NoAutoBit(i: nat)
    ensures !AutoBit(0, i)
  {
    if i > 0 { NoAutoBit(i - 1); }
  }

  lemma QuietData(t: Target, i: nat, word: u32)
    requires Settled(t) && t.active && i < |t.data| && !AutoBit(t.auto, i)
    ensures Quiet(t, WriteData(i, word), t.(data := t.data[i := word]))
    ensures Quiet(t, ReadData(i), t)
  {
  }

  lemma QuietAuto(t: Target, bits: bv32)
    requires Settled(t) && t.active
    ensures Quiet(t, WriteControl(Abstractauto, bits), t.(auto := bits))
  {
  }

  /** With autoexec on data0, writing data0 repeats the last command. */
  lemma AutoexecStarts(t: Target, word: u32)
    requires Settled(t) && t.active && t.selected && t.cmderr.NoError? && t.auto == 1 && |t.data| > 0
    ensures forall d: nat :: Perform(t, WriteData(0, word), d) == t.(data := t.data[0 := word], phase := Waiting(d))
  {
  }

  lemma QuietClearError(t: Target)
    requires Settled(t) && t.active
    ensures Quiet(t, WriteControl(Abstractcs, ABSTRACTCS_CMDERR), t.(cmderr := NoError))
  {
  }

  /** On a Debug Module that is active already, the write only selects hart 0. */
  function Activated(t: Target): Target {
    t.(active := true, selected := if t.active then t.config.hartId == 0 else t.selected)
  }

  lemma DmcontrolActivates(t: Target)
    requires WF(t)
    ensures WF(Activated(t))
    ensures forall d: nat :: Perform(t, WriteControl(Dmcontrol, DMCONTROL_DMACTIVE), d) == Activated(t)
  {
  }

  lemma DmcontrolWords(hart: bv32)
    requires hart < 1024
    ensures var halt := SetField(DMCONTROL_HALTREQ | DMCONTROL_DMACTIVE, DMCONTROL_HARTSEL, hart);
      && halt & DMCONTROL_DMACTIVE != 0 && halt & DMCONTROL_HALTREQ != 0
      && (halt & DMCONTROL_HARTSEL) >> 16 == hart
      && var quiet := halt & !DMCONTROL_HALTREQ;
        && quiet & DMCONTROL_DMACTIVE != 0 && quiet & DMCONTROL_HALTREQ == 0
        && quiet & DMCONTROL_RESUMEREQ == 0 && (quiet & DMCONTROL_HARTSEL) >> 16 == hart
    ensures var resume := SetField(DMCONTROL_RESUMEREQ | DMCONTROL_DMACTIVE, DMCONTROL_HARTSEL, hart);
      && resume & DMCONTROL_DMACTIVE != 0 && resume & DMCONTROL_HALTREQ == 0
      && resume & DMCONTROL_RESUMEREQ != 0 && (resume & DMCONTROL_HARTSEL) >> 16 == hart
      && var quiet := resume & !DMCONTROL_RESUMEREQ;
        && quiet & DMCONTROL_DMACTIVE != 0 && quiet & DMCONTROL_HALTREQ == 0
        && quiet & DMCONTROL_RESUMEREQ == 0 && (quiet & DMCONTROL_HARTSEL) >> 16 == hart
  {
  }

  function HaltWord(hart: bv32): bv32 {
    SetField(DMCONTROL_HALTREQ | DMCONTROL_DMACTIVE, DMCONTROL_HARTSEL, hart)
  }

  function ResumeWord(hart: bv32): bv32 {
    SetField(DMCONTROL_RESUMEREQ | DMCONTROL_DMACTIVE, DMCONTROL_HARTSEL, hart)
  }

  lemma DmcontrolHalts(t: Target)
    requires WF(t) && t.active && t.run.Running? && t.config.hartId < 1024
    ensures forall d: nat ::
      Perform(t, WriteControl(Dmcontrol, HaltWord(t.config.hartId)), d) == t.(selected := true, run := Halting(d))
  {
    DmcontrolWords(t.config.hartId);
    hide SetField;
  }

  lemma DmcontrolResumes(t: Target)
    requires WF(t) && t.active && t.run.Halted? && t.config.hartId < 1024
    ensures forall d: nat ::
      Perform(t, WriteControl(Dmcontrol, ResumeWord(t.config.hartId)), d)
        == t.(selected := true, run := Resuming(d), resumeAck := false)
  {
    DmcontrolWords(t.config.hartId);
    hide SetField;
  }

  /** The words with the request bit taken back ask for nothing. */
  function HaltedWord(hart: bv32): bv32 { HaltWord(hart) & !DMCONTROL_HALTREQ }

  function ResumedWord(hart: bv32): bv32 { ResumeWord(hart) & !DMCONTROL_RESUMEREQ }

  /** The hart selected, the Debug Module active or not, nothing asked for. */
  function Selection(hart: bv32, active: bool): bv32 { (hart << 16) | (if active then 1 else 0) }

  /** The words for dmcontrol bit by bit: haltreq is bit 31, resumereq 30, hartsel 25 to 16,
      dmactive 0. */
  lemma WordsSent(hart: bv32)
    requires hart < 1024
    ensures HaltWord(hart) == 0x8000_0001 | (hart << 16) && HaltedWord(hart) == Selection(hart, true)
    ensures ResumeWord(hart) == 0x4000_0001 | (hart << 16) && ResumedWord(hart) == Selection(hart, true)
    ensures DMCONTROL_DMACTIVE == 1
  {
  }

  lemma DmcontrolIdles(t: Target)
    requires WF(t) && t.active && t.selected && t.config.hartId < 1024
    ensures forall d: nat :: Perform(t, WriteControl(Dmcontrol, HaltedWord(t.config.hartId)), d) == t
    ensures forall d: nat :: Perform(t, WriteControl(Dmcontrol, ResumedWord(t.config.hartId)), d) == t
  {
    DmcontrolWords(t.config.hartId);
    DmcontrolIdle(t, HaltedWord(t.config.hartId));
    DmcontrolIdle(t, ResumedWord(t.config.hartId));
    hide SetField, Perform, WF;
  }

  lemma DmcontrolIdle(t: Target, w: bv32)
    requires WF(t) && t.active && t.selected
    requires w & DMCONTROL_DMACTIVE != 0 && w & DMCONTROL_HALTREQ == 0 && w & DMCONTROL_RESUMEREQ == 0
    requires (w & DMCONTROL_HARTSEL) >> 16 == t.config.hartId
    ensures forall d: nat :: Perform(t, WriteControl(Dmcontrol, w), d) == t
  {
  }

  lemma DmcontrolDeactivates(t: Target)
    requires WF(t)
    ensures forall d: nat :: Perform(t, WriteControl(Dmcontrol, 0), d) == Reset(t)
  {
  }

  lemma ReadAbstractcs(t: Target)
    requires WF(t) && t.active
    ensures var bits := ReadBits(t, Abstractcs);
      && (bits & ABSTRACTCS_BUSY != 0 <==> !t.phase.Idle?)
      && GetField(bits, ABSTRACTCS_CMDERR) == Code(t.cmderr)
  {
    match t.cmderr {
      case NoError =>
      case BusyError =>
      case NotSupported =>
      case ExceptionError =>
      case HaltResume =>
    }
  }

  lemma ReadDmstatus(t: Target)
    requires WF(t) && t.active && t.selected
    ensures var bits := ReadBits(t, Dmstatus);
      && (GetField(bits, DMSTATUS_ALLHALTED) != 0 <==> t.run.Halted? || t.run.Resuming?)
      && (GetField(bits, DMSTATUS_ALLRESUMEACK) != 0 <==> t.resumeAck)
  {
  }

  lemma CommandFlags(c: bv32)
    ensures GetField(c, AC_WRITE) != 0 <==> c & AC_WRITE != 0
    ensures GetField(c, AC_TRANSFER) != 0 <==> c & AC_TRANSFER != 0
  {
  }

  lemma CommandStarts(t: Target, command: bv32)
    requires Settled(t) && t.active && t.selected && t.cmderr.NoError?
    ensures forall d: nat ::
      Perform(t, WriteControl(Command, command), d) == t.(command := command, phase := Waiting(d))
  {
  }

  // ---------------------------------------------------------------- set-up

  /** Before the host's first access: a hart that runs and a Debug Module at rest, in reset
      or not, which has hart 0 selected. */
  ghost predicate Initial(t: Target) {
    && WF(t) && t.phase.Idle? && t.run.Running? && t.auto == 0 && t.cmderr.NoError?
    && t.selected && t.config.hartId == 0
  }

  /** What modify_csr needs: a scratch register, and data registers that the hart can address. */
  predicate Suitable(c: Config) {
    GetField(c.hartinfo, HARTINFO_NSCRATCH) > 0 && GetField(c.hartinfo, HARTINFO_DATAACCESS) != 0
  }

  /** What the target says of itself in abstractcs and hartinfo is so. */
  ghost predicate Truthful(t: Target) {
    && GetField(t.config.capabilities, ABSTRACTCS_PROGSIZE) as nat == |t.progbuf|
    && GetField(t.config.capabilities, ABSTRACTCS_DATACOUNT) as nat == |t.data|
    && (Suitable(t.config) ==> ShadowAt(t.config, GetField(t.config.hartinfo, HARTINFO_DATAADDR)))
  }

  lemma ReadPreset(t: Target)
    requires WF(t) && t.phase.Idle? && t.cmderr.NoError? && t.selected
    ensures ReadBits(t, Abstractcs) == t.config.capabilities
    ensures ReadBits(t, Hartinfo) == t.config.hartinfo
  {
  }

  lemma SelectWord(active: bool, hart: bv32)
    requires hart < 1024
    ensures var w := SetField(Flag(active, DMCONTROL_DMACTIVE), DMCONTROL_HARTSEL, hart);
      && (w & DMCONTROL_DMACTIVE != 0 <==> active) && w & DMCONTROL_HALTREQ == 0
      && w & DMCONTROL_RESUMEREQ == 0 && (w & DMCONTROL_HARTSEL) >> 16 == hart
      && w == Selection(hart, active)
  {
  }

  /** An inactive Debug Module reads as zero and so is put into reset once more. */
  function Selected(t: Target, hart: bv32): Target
    requires WF(t)
  {
    if t.active then t.(selected := hart == t.config.hartId) else Reset(t)
  }

  lemma DmcontrolSelects(t: Target, hart: bv32)
    requires WF(t) && hart < 1024
    ensures forall d: nat ::
      Perform(t, WriteControl(Dmcontrol, SetField(ReadBits(t, Dmcontrol), DMCONTROL_HARTSEL, hart)), d)
        == Selected(t, hart)
    ensures SetField(ReadBits(t, Dmcontrol), DMCONTROL_HARTSEL, hart) == Selection(hart, t.active)
  {
    SelectWord(t.active, hart);
    hide SetField;
  }

  class Driver {
    const dm: Module
    const ramWords: nat
    const dataWords: nat
    const dataBase: bv32
    var xlen: nat
    var running: bool
    var currentHart: bv32

    /** The sizes are the ones producer_thread reads out of abstractcs and hartinfo. */
    constructor (dm: Module, ramWords: nat, dataWords: nat, dataBase: bv32, hart: bv32)
      ensures this.dm == dm && this.ramWords == ramWords && this.dataWords == dataWords
      ensures this.dataBase == dataBase && currentHart == hart && !running
    {
      this.dm := dm;
      this.ramWords := ramWords;
      this.dataWords := dataWords;
      this.dataBase := dataBase;
      currentHart := hart;
      running := false;
      xlen := 0;
    }

    ghost predicate Valid()
      reads this, dm
    {
      && WF(dm.t) && dm.t.config == dm.config
      && ramWords == |dm.t.progbuf| && dataWords == |dm.t.data|
      && ShadowAt(dm.t.config, dataBase)
      && currentHart == dm.t.config.hartId && currentHart < 1024
    }

    /** The hart is halted, the Debug Module at rest and without error. */
    ghost predicate Stopped()
      reads this, dm
    {
      && Valid() && Settled(dm.t) && dm.t.active && dm.t.selected
      && dm.t.auto == 0 && dm.t.cmderr.NoError?
    }

    /** The hart was neither halted nor let go, and dmcontrol was not written. */
    twostate predicate SameSnapshots()
      reads dm
    {
      dm.atHalt == old(dm.atHalt) && dm.atResume == old(dm.atResume) && Aside()
    }

    twostate predicate Aside()
      reads dm
    {
      && dm.traffic == old(dm.traffic).(adjacent := dm.traffic.adjacent)
      && (dm.traffic.adjacent ==> old(dm.traffic).adjacent)
    }

    /** The Debug Module is active or not as the source leaves it, and the last word written
        to dmcontrol asks for nothing: it keeps the hart selected, or resets. */
    twostate predicate LetGo()
      reads this, dm
    {
      && dm.t.active == !running
      && dm.traffic == Spaced(old(dm.traffic), if running then 0 else Selection(dm.config.hartId, true))
    }

    method Poke(req: Req, ghost r: Target)
      requires Quiet(dm.t, req, r) && !OnDmcontrol(req)
      modifies dm
      ensures dm.t == r && SameSnapshots()
    {
      ghost var delay, time;
      delay, time := dm.Access(req);
      hide Perform, Advance, WF;
      assert Perform(old(dm.t), req, delay) == r;
      StepsOfSettled(r, time);
    }

    /** Polls abstractcs until the command in flight has finished. */
    method WaitWhileBusy(ghost steps: nat, ghost f: Target) returns (abstractcs: bv32)
      requires Leads(dm.t, steps, f) && dm.t.active && dm.t.run.Halted?
      modifies dm
      ensures dm.t == f && SameSnapshots()
      ensures GetField(abstractcs, ABSTRACTCS_CMDERR) == Code(f.cmderr)
    {
      hide Leads, Advance, ReadBits, GetField, Code, WF;
      ghost var n: nat;
      abstractcs, n := PollAbstractcs(steps, f);
      while abstractcs & ABSTRACTCS_BUSY != 0
        invariant Leads(dm.t, n, f) && dm.t.active && dm.t.run.Halted? && SameSnapshots()
        invariant abstractcs & ABSTRACTCS_BUSY == 0 ==>
          dm.t == f && GetField(abstractcs, ABSTRACTCS_CMDERR) == Code(f.cmderr)
        decreases n, abstractcs & ABSTRACTCS_BUSY != 0
      {
        abstractcs, n := PollAbstractcs(n, f);
      }
    }

    /** One look at abstractcs; rest is how far the command then still has to go. */
    method PollAbstractcs(ghost steps: nat, ghost f: Target) returns (abstractcs: bv32, ghost rest: nat)
      requires Leads(dm.t, steps, f) && dm.t.active && dm.t.run.Halted?
      modifies dm
      ensures Leads(dm.t, rest, f) && dm.t.active && dm.t.run.Halted? && SameSnapshots()
      ensures abstractcs & ABSTRACTCS_BUSY == 0 ==>
        dm.t == f && GetField(abstractcs, ABSTRACTCS_CMDERR) == Code(f.cmderr)
      ensures rest < steps || (rest == steps && abstractcs & ABSTRACTCS_BUSY == 0)
    {
      hide Advance, ReadBits, GetField, Code;
      ghost var before, time := dm.t, 0;
      abstractcs, time := dm.Read(Abstractcs);
      StepsFrame(before, time);
      ReadAbstractcs(before);
      LeadsLater(before, steps, f, time);
      AtRest(before, steps, f, time);
      rest := if time <= steps then steps - time else 0;
    }

    method FetchWord(i: nat) returns (word: u32)
      requires Settled(dm.t) && dm.t.active && i < |dm.t.data| && dm.t.auto == 0
      modifies dm
      ensures dm.t == old(dm.t) && SameSnapshots()
      ensures word == dm.t.data[i]
    {
      NoAutoBit(i);
      QuietData(dm.t, i, 0);
      ghost var t := dm.t;
      ghost var delay, time;
      word, delay, time := dm.Fetch(i);
      hide Perform, Advance, WF;
      assert Perform(t, ReadData(i), delay) == t;
      StepsOfSettled(t, time);
    }

    method WriteProgram(program: seq<bv32>)
      requires Stopped() && |program| <= ramWords
      modifies dm
      ensures dm.t == old(dm.t).(progbuf := Overwrite(old(dm.t).progbuf, program))
      ensures SameSnapshots()
    {
      hide Perform, Advance, WFConfig, WFHart, ShadowAt, Overwrite;
      ghost var t := dm.t;
      var i := 0;
      OverwriteNone(t.progbuf, program);
      while i < |program|
        invariant i <= |program|
        invariant dm.t == t.(progbuf := Overwrite(t.progbuf, program[..i])) && WF(dm.t)
        invariant SameSnapshots()
      {
        ghost var r := dm.t.(progbuf := dm.t.progbuf[i := program[i]]);
        QuietProgbuf(dm.t, i, program[i]);
        Poke(WriteProgbuf(i, program[i]), r);
        OverwriteOne(t.progbuf, program, i);
        i := i + 1;
      }
      assert program[..i] == program;
    }

    method WriteDataWords(data: array<u32>, n: nat)
      requires Stopped() && n <= dataWords && n <= data.Length
      modifies dm
      ensures dm.t == old(dm.t).(data := Overwrite(old(dm.t).data, data[..n]))
      ensures SameSnapshots()
    {
      hide Perform, Advance, WFConfig, WFHart, AutoBit, ShadowAt, Overwrite;
      ghost var t, words := dm.t, data[..n];
      var i := 0;
      OverwriteNone(t.data, words);
      while i < n
        invariant i <= n
        invariant dm.t == t.(data := Overwrite(t.data, words[..i])) && WF(dm.t)
        invariant SameSnapshots()
      {
        ghost var r := dm.t.(data := dm.t.data[i := data[i]]);
        NoAutoBit(i);
        QuietData(dm.t, i, data[i]);
        Poke(WriteData(i, data[i]), r);
        OverwriteOne(t.data, words, i);
        i := i + 1;
      }
      assert words[..n] == words;
    }

    method ReadDataWords(data: array<u32>, n: nat)
      requires Settled(dm.t) && dm.t.active && dm.t.auto == 0
      requires n <= |dm.t.data| && n <= data.Length
      modifies dm, data
      ensures dm.t == old(dm.t) && SameSnapshots()
      ensures data[..n] == dm.t.data[..n]
    {
      var i := 0;
      while i < n
        invariant i <= n
        invariant dm.t == old(dm.t) && SameSnapshots()
        invariant data[..i] == dm.t.data[..i]
      {
        data[i] := FetchWord(i);
        i := i + 1;
      }
    }

    /** f is where the started command leads; the contract holds whatever the
        command's latency and whatever time passes between accesses. */
    method RunAbstractCommand(command: bv32, program: seq<bv32>, data: array<u32>, n: nat, ghost steps: nat,
        ghost f: Target)
        returns (cmderr: bv32)
      requires Stopped() && |program| <= ramWords && n <= dataWords && n <= data.Length
      requires Leads(Prepared(dm.t, command, program, data[..n]), steps, f)
      modifies dm, data
      ensures dm.t == f && cmderr == Code(f.cmderr) && |f.data| == dataWords
      ensures SameSnapshots()
      ensures if FetchesData(command) then data[..n] == f.data[..n] else data[..] == old(data[..])
    {
      hide Perform, Advance, WFConfig, WFHart, ShadowAt;
      ghost var t := dm.t;
      CommandFlags(command);
      WriteProgram(program);
      if GetField(command, AC_WRITE) != 0 && GetField(command, AC_TRANSFER) != 0 {
        WriteDataWords(data, n);
      }
      ghost var start := Prepared(t, command, program, data[..n]);
      CommandStarts(dm.t, command);
      ghost var remaining := Launch(WriteControl(Command, command), start, steps, f);
      StepsFrame(start, steps);
      assert Settled(f) && f.auto == 0 && f.active && |f.data| == dataWords;
      var abstractcs := WaitWhileBusy(remaining, f);
      if GetField(command, AC_WRITE) == 0 && GetField(command, AC_TRANSFER) != 0 {
        ReadDataWords(data, n);
      }
      cmderr := GetField(abstractcs, ABSTRACTCS_CMDERR);
    }

    /** An access that sets a command going: the latency is arbitrary. */
    method Launch(req: Req, ghost start: Target, ghost steps: nat, ghost f: Target) returns (ghost remaining: nat)
      requires Settled(dm.t) && dm.t.active && WF(start) && start.phase == Waiting(0) && start.active
      requires start.run.Halted? && !OnDmcontrol(req)
      requires forall d: nat :: Perform(dm.t, req, d) == start.(phase := Waiting(d))
      requires Leads(start, steps, f)
      modifies dm
      ensures Leads(dm.t, remaining, f) && dm.t.active && dm.t.run.Halted?
      ensures SameSnapshots()
    {
      hide Perform, Advance, WFConfig, WFHart;
      ghost var delay, time;
      delay, time := dm.Access(req);
      ghost var p := start.(phase := Waiting(delay));
      assert Perform(old(dm.t), req, delay) == p;
      LeadsAfterDelay(start, delay, steps, f);
      LeadsLater(p, delay + steps, f, time);
      StepsFrame(p, time);
      remaining := if time <= delay + steps then delay + steps - time else 0;
    }

    // ---------------------------------------------------------- halt and resume

    /** Between chunk operations: the hart runs, the Debug Module is at rest. */
    ghost predicate Ready()
      reads this, dm
    {
      && Valid() && dm.t.phase.Idle? && dm.t.run.Running? && (running || dm.t.active)
      && dm.t.auto == 0 && dm.t.cmderr.NoError?
    }

    /** An access to dmcontrol or dmstatus that moves neither hart nor command. */
    method Glance(dmcontrol: bv32, ghost r: Target)
      requires WF(dm.t) && WF(r) && r.phase.Idle? && (r.run.Running? || r.run.Halted?)
      requires forall d: nat :: Perform(dm.t, WriteControl(Dmcontrol, dmcontrol), d) == r
      modifies dm
      ensures WF(dm.t) && dm.t == r.(hart := dm.t.hart) && (r.run.Halted? ==> dm.t == r)
      ensures Kept(r.config, r.hart.mem, dm.t.hart.mem)
      ensures dm.atHalt == old(dm.atHalt) && dm.atResume == old(dm.atResume)
      ensures dm.traffic == Spaced(old(dm.traffic), dmcontrol)
    {
      hide Perform, Advance, WF, ReadBits;
      ghost var delay, time := dm.Access(WriteControl(Dmcontrol, dmcontrol));
      // a read in between keeps two writes to dmcontrol apart
      var dmstatus;
      dmstatus, time := dm.Read(Dmstatus);
    }

    method AwaitHalted(ghost t: Target)
      requires WF(dm.t) && t.active && t.selected && t.phase.Idle?
      requires dm.t == t.(hart := dm.t.hart, run := dm.t.run)
      requires dm.t.run.Halting? || (dm.t.run.Halted? && dm.atHalt == dm.t.hart)
      modifies dm
      ensures WF(dm.t) && dm.t == t.(hart := dm.t.hart, run := Halted) && dm.atHalt == dm.t.hart
      ensures Kept(dm.t.config, old(dm.t).hart.mem, dm.t.hart.mem)
      ensures dm.atResume == old(dm.atResume) && dm.traffic == old(dm.traffic).(adjacent := false)
    {
      hide Perform, Advance, WF, ReadBits, GetField;
      ReadDmstatus(dm.t);
      var dmstatus;
      ghost var time;
      dmstatus, time := dm.Read(Dmstatus);
      while GetField(dmstatus, DMSTATUS_ALLHALTED) == 0
        invariant WF(dm.t) && dm.t == t.(hart := dm.t.hart, run := dm.t.run)
        invariant Kept(dm.t.config, old(dm.t).hart.mem, dm.t.hart.mem)
        invariant dm.t.run.Halting? || (dm.t.run.Halted? && dm.atHalt == dm.t.hart)
        invariant dm.atResume == old(dm.atResume) && dm.traffic == old(dm.traffic).(adjacent := false)
        invariant GetField(dmstatus, DMSTATUS_ALLHALTED) != 0 ==> dm.t.run.Halted?
        decreases if dm.t.run.Halting? then dm.t.run.delay + 1 else 0, GetField(dmstatus, DMSTATUS_ALLHALTED) == 0
      {
        ReadDmstatus(dm.t);
        dmstatus, time := dm.Read(Dmstatus);
      }
    }

    method AwaitResumed(ghost t: Target)
      requires WF(dm.t) && t.active && t.selected && t.phase.Idle?
      requires dm.t == t.(hart := dm.t.hart, run := dm.t.run, resumeAck := dm.t.resumeAck)
      requires ResumeUnderWay(t.hart)
      modifies dm
      ensures WF(dm.t) && dm.t == t.(hart := dm.t.hart, run := DebugModule.Running, resumeAck := true)
      ensures dm.atResume == t.hart
      ensures Kept(dm.t.config, old(dm.t).hart.mem, dm.t.hart.mem)
      ensures dm.atHalt == old(dm.atHalt) && dm.traffic == old(dm.traffic).(adjacent := false)
    {
      hide Perform, Advance, WF, ReadBits, GetField;
      ReadDmstatus(dm.t);
      var dmstatus;
      ghost var time;
      dmstatus, time := dm.Read(Dmstatus);
      while GetField(dmstatus, DMSTATUS_ALLRESUMEACK) == 0
        invariant WF(dm.t) && dm.t == t.(hart := dm.t.hart, run := dm.t.run, resumeAck := dm.t.resumeAck)
        invariant Kept(dm.t.config, old(dm.t).hart.mem, dm.t.hart.mem)
        invariant ResumeUnderWay(t.hart)
        invariant dm.atHalt == old(dm.atHalt) && dm.traffic == old(dm.traffic).(adjacent := false)
        invariant GetField(dmstatus, DMSTATUS_ALLRESUMEACK) != 0 ==> dm.t.run.Running?
        decreases if dm.t.run.Resuming? then dm.t.run.delay + 1 else 0, GetField(dmstatus, DMSTATUS_ALLRESUMEACK) == 0
      {
        ReadDmstatus(dm.t);
        dmstatus, time := dm.Read(Dmstatus);
      }
    }

    ghost predicate ResumeUnderWay(h: Hart)
      reads dm
    {
      || (dm.t.run.Resuming? && dm.t.hart == h && !dm.t.resumeAck)
      || (dm.t.run.Running? && dm.t.resumeAck && dm.atResume == h)
    }

    method Activate()
      requires WF(dm.t) && dm.t.phase.Idle? && dm.t.run.Running?
      modifies dm
      ensures WF(dm.t) && dm.t == Activated(old(dm.t)).(hart := dm.t.hart)
      ensures Kept(dm.t.config, old(dm.t).hart.mem, dm.t.hart.mem)
      ensures dm.atHalt == old(dm.atHalt) && dm.atResume == old(dm.atResume)
      ensures dm.traffic == Spaced(old(dm.traffic), 1)
    {
      hide Perform, Advance, WF;
      DmcontrolActivates(dm.t);
      Glance(DMCONTROL_DMACTIVE, Activated(dm.t));
    }

    method RequestHalt(dmcontrol: bv32)
      requires Ready() && dmcontrol == HaltWord(dm.t.config.hartId)
      modifies dm
      ensures WF(dm.t) && dm.t.active && dm.t.selected && dm.t.run.Halted? && dm.atHalt == dm.t.hart
      ensures dm.t == old(dm.t).(hart := dm.t.hart, active := true, selected := true, run := Halted)
      ensures Kept(dm.t.config, old(dm.t).hart.mem, dm.t.hart.mem) && dm.atResume == old(dm.atResume)
      ensures dm.traffic == Spaced(old(dm.traffic), dmcontrol)
    {
      hide Perform, Advance, WF, ShadowAt, HaltWord;
      if running {
        Activate();
      }
      DmcontrolHalts(dm.t);
      ghost var t := dm.t.(selected := true);
      ghost var delay, time := dm.Access(WriteControl(Dmcontrol, dmcontrol));
      AwaitHalted(t);
    }

    method Halt(hartsel: bv32)
      requires Ready() && hartsel == dm.t.config.hartId
      modifies this`currentHart, dm
      ensures Stopped() && dm.atHalt == dm.t.hart && dm.atResume == old(dm.atResume)
      ensures dm.t.config == old(dm.t).config && dm.t.trace == old(dm.t).trace
      ensures Kept(dm.t.config, old(dm.t).hart.mem, dm.t.hart.mem) && |dm.t.data| == |old(dm.t).data|
      ensures dm.traffic == Spaced(old(dm.traffic), Selection(dm.config.hartId, true))
    {
      hide Perform, Advance, WF, ShadowAt, HaltWord, ResumeWord, HaltedWord, ResumedWord, Selection;
      WordsSent(hartsel);
      var dmcontrol := HaltWord(hartsel);
      RequestHalt(dmcontrol);
      dmcontrol := HaltedWord(hartsel);
      DmcontrolIdles(dm.t);
      Glance(dmcontrol, dm.t);
      currentHart := hartsel;
    }

    method Resume(hartsel: bv32)
      requires Stopped() && hartsel == dm.t.config.hartId
      modifies this`currentHart, dm
      ensures Ready() && dm.atResume == old(dm.t).hart && dm.atHalt == old(dm.atHalt)
      ensures dm.t.config == old(dm.t).config && dm.t.trace == old(dm.t).trace
      ensures Kept(dm.t.config, old(dm.t).hart.mem, dm.t.hart.mem) && |dm.t.data| == |old(dm.t).data|
      ensures LetGo()
    {
      hide Perform, Advance, WF, ShadowAt, HaltWord, ResumeWord, HaltedWord, ResumedWord, Selection;
      WordsSent(hartsel);
      var dmcontrol := ResumeWord(hartsel);
      DmcontrolResumes(dm.t);
      ghost var t := dm.t;
      ghost var delay, time := dm.Access(WriteControl(Dmcontrol, dmcontrol));
      AwaitResumed(t);
      dmcontrol := ResumedWord(hartsel);
      DmcontrolIdles(dm.t);
      Glance(dmcontrol, dm.t);
      currentHart := hartsel;
      if running {
        DmcontrolDeactivates(dm.t);
        Glance(0, DebugModule.Reset(dm.t));
      }
    }

    // ------------------------------------------------------- errors, registers

    method Die(cmderr: bv32)
      requires Settled(dm.t) && dm.t.active
      modifies dm
      ensures dm.t == old(dm.t).(cmderr := NoError) && SameSnapshots()
    {
      QuietClearError(dm.t);
      Poke(WriteControl(Abstractcs, ABSTRACTCS_CMDERR), dm.t.(cmderr := NoError));
    }

    /** f is where the command leads; an error is reported and cleared. */
    method RunAcOrDie(command: bv32, program: seq<bv32>, data: array<u32>, n: nat, ghost steps: nat, ghost f: Target)
      requires Stopped() && |program| <= ramWords && n <= dataWords && n <= data.Length
      requires Leads(Prepared(dm.t, command, program, data[..n]), steps, f)
      modifies dm, data
      ensures dm.t == f.(cmderr := NoError) && |f.data| == dataWords
      ensures SameSnapshots()
      ensures if FetchesData(command) then data[..n] == f.data[..n] else data[..] == old(data[..])
    {
      hide Perform, Advance, WFConfig, WFHart, ShadowAt;
      var cmderr := RunAbstractCommand(command, program, data, n, steps, f);
      assert f.active by { StepsFrame(Prepared(old(dm.t), command, program, old(data[..n])), steps); }
      if cmderr != 0 {
        Die(cmderr);
      }
    }

    method WaitOrDie(ghost steps: nat, ghost f: Target)
      requires Leads(dm.t, steps, f) && dm.t.active && dm.t.run.Halted? && f.active
      modifies dm
      ensures dm.t == f.(cmderr := NoError) && SameSnapshots()
    {
      hide Advance, WF;
      var abstractcs := WaitWhileBusy(steps, f);
      if GetField(abstractcs, ABSTRACTCS_CMDERR) != 0 {
        Die(GetField(abstractcs, ABSTRACTCS_CMDERR));
      }
    }

    // ----------------------------------------------------------- register access

    ghost predicate Sized()
      reads this, dm
    {
      xlen == dm.t.config.xlen
    }

    /** Splits an xlen-bit value into data words, low word first. */
    method Split(v: u64, data: array<u32>)
      requires (xlen == 32 || xlen == 64) && data.Length >= xlen / 32
      requires v < Modulus(xlen)
      modifies data
      ensures data[..xlen / 32] == WordsOf(xlen, v)
    {
      data[0] := v % TWO_32;
      if xlen > 32 {
        data[1] := v / TWO_32;
      }
    }

    method SaveReg(regno: bv32) returns (result: u64)
      requires Stopped() && Sized() && regno < 32
      modifies dm
      ensures Stopped() && result == old(dm.t).hart.x[RegNo(regno)] && result < Modulus(xlen)
      ensures dm.t == old(dm.t).(command := dm.t.command, data := dm.t.data) && |dm.t.data| == dataWords
      ensures SameSnapshots()
    {
      var data := new u32[xlen / 32];
      var command := AccessRegister(xlen, AC_TRANSFER, regno);
      NothingSent(dm.t, AC_TRANSFER, regno, data[..xlen / 32]);
      hide Prepared, AccessRegister, ShadowAt;
      ghost var f := SaveCommand(dm.t, dm.t.(command := AccessRegister(xlen, AC_TRANSFER, regno),
        phase := Waiting(0)), regno);
      RunAcOrDie(command, [], data, xlen / 32, 1, f);
      result := data[0];
      if xlen > 32 {
        result := result + data[1] * TWO_32;
      }
    }

    method RestoreReg(regno: bv32, val: u64)
      requires Stopped() && Sized() && regno < 32 && val < Modulus(xlen)
      modifies dm
      ensures Stopped() && |dm.t.data| == dataWords
      ensures dm.t == old(dm.t).(command := dm.t.command, data := dm.t.data,
        hart := SetReg(old(dm.t).hart, RegNo(regno), val))
      ensures SameSnapshots()
    {
      hide Prepared, AccessRegister, ShadowAt, WordsOf, SetReg, RegNo;
      var data := new u32[xlen / 32];
      Split(val, data);
      var command := AccessRegister(xlen, AC_TRANSFER | AC_WRITE, regno);
      ghost var start := Prepared(dm.t, AccessRegister(xlen, AC_TRANSFER | AC_WRITE, regno), [], WordsOf(xlen, val));
      ghost var f := RestoreCommand(dm.t, start, regno, val);
      RunAcOrDie(command, [], data, xlen / 32, 1, f);
    }

    /** memcpy of one word from the data buffer into the caller's bytes. */
    method CopyOut(data: array<u32>, dst: array<byte>, at: nat)
      requires (xlen == 32 || xlen == 64) && data.Length >= xlen / 32 && at + WordBytes(xlen) <= dst.Length
      modifies dst
      ensures dst[..] == Patch(old(dst[..]), at, Bytes(DataValue(xlen, data[..]), WordBytes(xlen)))
    {
      hide Bytes, Patch;
      if xlen == 64 {
        BytesOfTwoWords(data[0], data[1]);
        CopyBytes(Bytes(data[0], 4) + Bytes(data[1], 4), dst, at);
      } else {
        CopyBytes(Bytes(data[0], 4), dst, at);
      }
    }

    /** memcpy of one word from the caller's bytes into the data buffer. */
    method CopyIn(src: seq<byte>, at: nat, data: array<u32>)
      requires (xlen == 32 || xlen == 64) && data.Length >= xlen / 32 && at + WordBytes(xlen) <= |src|
      modifies data
      ensures Value(src[at..at + WordBytes(xlen)]) < Modulus(xlen)
      ensures data[..xlen / 32] == WordsOf(xlen, Value(src[at..at + WordBytes(xlen)]))
      ensures DataValue(xlen, data[..]) == Value(src[at..at + WordBytes(xlen)])
    {
      Pow256Values();
      hide Value, Pow256;
      if xlen == 64 {
        var word := src[at..at + 8];
        ValueOfTwoWords(word);
        data[0] := Value(word[..4]);
        data[1] := Value(word[4..]);
        WordsOfTwoWords(data[0], data[1]);
      } else {
        ValueBound(src[at..at + 4]);
        data[0] := Value(src[at..at + 4]);
      }
    }

    // ----------------------------------------------------------- chunk transfers

    /** The hart's own program did nothing to memory, if it is one that never does, from
        when memory was m to when the hart was halted and since it was let go. */
    ghost predicate Undisturbed(m: Mem)
      reads this, dm
    {
      Kept(dm.t.config, m, dm.atHalt.mem) && Kept(dm.t.config, dm.atResume.mem, dm.t.hart.mem)
    }

    /** How every chunk operation begins: halt, then save the scratch registers. */
    method Enter() returns (s0: u64, s1: u64)
      requires Ready() && Sized()
      modifies this`currentHart, dm
      ensures Stopped() && Sized() && dm.t.config == old(dm.t).config && |dm.t.data| == dataWords
      ensures dm.atHalt == dm.t.hart && dm.t.trace == old(dm.t).trace
      ensures Kept(dm.t.config, old(dm.t).hart.mem, dm.t.hart.mem) && |dm.t.hart.mem| == |old(dm.t).hart.mem|
      ensures (xlen == 32 || xlen == 64) && WFHart(dm.t.hart, xlen)
      ensures s0 == dm.t.hart.x[8] && s1 == dm.t.hart.x[9]
      ensures dm.traffic == Spaced(old(dm.traffic), Selection(dm.config.hartId, true))
    {
      hide ShadowAt, RegNo;
      SmallNumbers();
      Halt(currentHart);
      s0 := SaveReg(S0);
      s1 := SaveReg(S1);
    }

    /** How every chunk operation ends: the scratch registers back, then resume. */
    method Leave(s0: u64, s1: u64, ghost h0: Hart)
      requires Stopped() && Sized() && |dm.t.data| == dataWords && !dm.traffic.adjacent
      requires OnlyScratch(dm.t.hart.(mem := h0.mem), h0) && WFHart(h0, xlen) && s0 == h0.x[8] && s1 == h0.x[9]
      modifies this`currentHart, dm
      ensures Ready() && Sized() && dm.t.config == old(dm.t).config && dm.t.trace == old(dm.t).trace
      ensures dm.atResume == h0.(mem := old(dm.t).hart.mem) && dm.atHalt == old(dm.atHalt)
      ensures |dm.t.data| == dataWords && Kept(dm.t.config, old(dm.t).hart.mem, dm.t.hart.mem)
      ensures LetGo()
    {
      hide ShadowAt, RegNo, SetReg, OnlyScratch;
      RestoredElsewhere(dm.t.hart, h0);
      RestoreReg(S0, s0);
      RestoreReg(S1, s1);
      Resume(currentHart);
    }

    /** Puts the read program in place and runs it for the first word. */
    method StartReading(taddr: u64, data: array<u32>, ghost n: nat)
      requires Stopped() && Sized() && ramWords >= 3 && data.Length == dataWords
      requires WordsInMemory(dm.t, taddr, n) && n > 0
      modifies dm, data
      ensures Stopped() && Sized() && Fetched(dm.t, old(dm.t).hart, old(dm.t).trace, taddr, 1)
      ensures dm.t.config == old(dm.t).config && |dm.t.data| == dataWords
      ensures SameSnapshots()
    {
      AddressOfWord(dm.t, taddr, n, 0);
      assert xlen == 32 || xlen == 64;
      hide Prepared, AccessRegister, ShadowAt, WordsOf, Fetched, WFHart, WordsInMemory, Address, LOAD, ADDI;
      var prog := [LOAD(xlen, S1, S0, 0), ADDI(S0, S0, WordImm(xlen)), EBREAK];
      Split(taddr, data);
      var command := AccessRegister(xlen, AC_TRANSFER | AC_WRITE | AC_POSTEXEC, S0);
      ghost var start := Prepared(dm.t, command, prog, data[..xlen / 32]);
      ghost var f := ReadFirst(dm.t, start, taddr);
      RunAcOrDie(command, prog, data, xlen / 32, 4, f);
    }

    /** One turn of the read loop: hands over word i and, unless it is the last,
        loads word i + 1. */
    method ReadTurn(i: nat, n: nat, taddr: u64, data: array<u32>, ghost h0: Hart, ghost tr0: seq<Event>)
      requires Stopped() && Sized() && data.Length == dataWords == |dm.t.data|
      requires WordsInMemory(dm.t, taddr, n) && i < n && Fetched(dm.t, h0, tr0, taddr, i + 1)
      modifies dm, data
      ensures Stopped() && Sized() && |dm.t.data| == dataWords && dm.t.config == old(dm.t).config
      ensures DataValue(xlen, data[..]) == old(dm.t).hart.x[9]
      ensures i + 1 < n ==> Fetched(dm.t, h0, tr0, taddr, i + 2)
      ensures i + 1 == n ==> dm.t.hart == old(dm.t).hart && dm.t.trace == old(dm.t).trace
      ensures SameSnapshots()
    {
      assert xlen == 32 || xlen == 64;
      hide Prepared, AccessRegister, ShadowAt, Fetched, WFHart, WFConfig, WordsInMemory, Address, FetchesData,
        DataValue, WordBytes;
      var flags := AC_TRANSFER;
      if i + 1 < n {
        flags := flags | AC_POSTEXEC;
      }
      var command := AccessRegister(xlen, flags, S1);
      ghost var steps, f := ReadPlan(dm.t, flags, i, n, taddr, h0, tr0, data[..xlen / 32]);
      RunAcOrDie(command, [], data, xlen / 32, steps, f);
      DataPrefix(xlen, data[..], f.data);
    }

    /** i words have been handed over; the next one, if any, waits in S1. */
    ghost predicate Reading(i: nat, n: nat, taddr: nat, h0: Hart, tr0: seq<Event>, before: seq<byte>, at: nat,
        dst: seq<byte>)
      reads this, dm
    {
      && Stopped() && Sized() && WordsInMemory(dm.t, taddr, n) && i <= n
      && Pos(xlen, i) <= Pos(xlen, n) && at + Pos(xlen, n) <= |before| && taddr + Pos(xlen, n) <= |h0.mem|
      && (i < n ==> Fetched(dm.t, h0, tr0, taddr, i + 1))
      && OnlyScratch(dm.t.hart, h0) && dm.t.hart.mem == h0.mem && dm.t.hart.csr == h0.csr
      && (i == n ==> dm.t.trace == tr0 + Loads(taddr, n, WordBytes(xlen)))
      && dst == Patch(before, at, h0.mem[taddr..taddr + Pos(xlen, i)])
    }

    /** One turn of the read loop. */
    method LoadWord(i: nat, n: nat, taddr: u64, data: array<u32>, dst: array<byte>, at: nat,
        ghost h0: Hart, ghost tr0: seq<Event>, ghost before: seq<byte>)
      requires Reading(i, n, taddr, h0, tr0, before, at, dst[..]) && i < n && data.Length == dataWords
      modifies dm, data, dst
      ensures Reading(i + 1, n, taddr, h0, tr0, before, at, dst[..]) && dm.t.config == old(dm.t).config
      ensures SameSnapshots()
    {
      hide Fetched, ShadowAt, Address, Patch, OnlyScratch, WFHart, Loads, Pos, WordBytes, Bytes, DataValue,
        Modulus;
      FetchedScratch(dm.t, h0, tr0, taddr, i + 1);
      ReadTurn(i, n, taddr, data, h0, tr0);
      if i + 1 < n { FetchedScratch(dm.t, h0, tr0, taddr, i + 2); }
      PosNext(xlen, i, n);
      PosIs(xlen, i);
      CopyOut(data, dst, at + Pos(xlen, i));
      BufferGrows(before, at, h0.mem, taddr, Pos(xlen, i), WordBytes(xlen));
    }

    /** Between saving and restoring the scratch registers: every word loaded. */
    method LoadWords(taddr: u64, n: nat, dst: array<byte>, at: nat)
      requires Stopped() && Sized() && ramWords >= 3 && dataWords == |dm.t.data|
      requires n > 0 && at + Pos(xlen, n) <= dst.Length
      requires WordsInMemory(dm.t, taddr, n) && taddr + Pos(xlen, n) <= |dm.t.hart.mem|
      modifies dm, dst
      ensures Reading(n, n, taddr, old(dm.t).hart, old(dm.t).trace, old(dst[..]), at, dst[..])
      ensures |dm.t.data| == dataWords && dm.t.config == old(dm.t).config
      ensures SameSnapshots()
    {
      hide Fetched, ShadowAt, Address, Patch, WF, WFHart, Loads, Pos;
      ghost var h0, tr0 := dm.t.hart, dm.t.trace;
      var data := new u32[dataWords];
      StartReading(taddr, data, n);
      FetchedScratch(dm.t, h0, tr0, taddr, 1);
      EmptyBuffer(dst[..], at, h0.mem, taddr, xlen);
      var i := 0;
      while i < n
        invariant i <= n && data.Length == dataWords == |dm.t.data| && dm.t.config == old(dm.t).config
        invariant Reading(i, n, taddr, h0, tr0, old(dst[..]), at, dst[..])
        invariant SameSnapshots()
      {
        LoadWord(i, n, taddr, data, dst, at, h0, tr0, old(dst[..]));
        i := i + 1;
      }
    }

    method ReadChunk(taddr: u64, len: nat, dst: array<byte>, at: nat)
      requires Ready() && Sized() && ramWords >= 3
      requires len > 0 && len % WordBytes(xlen) == 0 && at + len <= dst.Length
      requires WordsInMemory(dm.t, taddr, len / WordBytes(xlen))
      modifies this`currentHart, dm, dst
      ensures Ready() && Sized()
      ensures dm.atResume == dm.atHalt && taddr + len <= |dm.atHalt.mem|
      ensures dst[..] == Patch(old(dst[..]), at, dm.atHalt.mem[taddr..taddr + len])
      ensures dm.t.trace == old(dm.t).trace + Loads(taddr, len / WordBytes(xlen), WordBytes(xlen))
      ensures dm.t.config == old(dm.t).config && |dm.t.data| == |old(dm.t).data| && Undisturbed(old(dm.t).hart.mem)
      ensures LetGo()
    {
      hide Fetched, ShadowAt, Address, Patch, WF, WFHart, Loads, Pos, Kept, OnlyScratch;
      var s0, s1 := Enter();
      ghost var h0 := dm.t.hart;
      WordCount(xlen, len);
      var n := len * 8 / xlen;
      LoadWords(taddr, n, dst, at);
      Leave(s0, s1, h0);
    }

    /** Puts the write program in place and points S0 at taddr. */
    method SetUpWriting(taddr: u64, src: seq<byte>, data: array<u32>, ghost n: nat)
      requires Stopped() && Sized() && ramWords >= 3 && data.Length == dataWords
      requires WordsInMemory(dm.t, taddr, n) && n > 0 && taddr + |src| <= |dm.t.hart.mem|
      modifies dm, data
      ensures Stopped() && Sized() && Written(dm.t, old(dm.t).hart, old(dm.t).trace, taddr, src, 0)
      ensures dm.t.config == old(dm.t).config && |dm.t.data| == dataWords
      ensures SameSnapshots()
    {
      AddressOfWord(dm.t, taddr, n, 0);
      assert xlen == 32 || xlen == 64;
      hide Prepared, AccessRegister, ShadowAt, WordsOf, Written, WFHart, WordsInMemory, Address, STORE, ADDI;
      var prog := [STORE(xlen, S1, S0, 0), ADDI(S0, S0, WordImm(xlen)), EBREAK];
      Split(taddr, data);
      var command := AccessRegister(xlen, AC_TRANSFER | AC_WRITE, S0);
      ghost var start := Prepared(dm.t, command, prog, data[..xlen / 32]);
      ghost var f := WriteSetup(dm.t, start, taddr, src);
      RunAcOrDie(command, prog, data, xlen / 32, 1, f);
    }

    /** Stores the first word by postexec. */
    method WriteFirst(taddr: u64, src: seq<byte>, data: array<u32>, n: nat, ghost h0: Hart, ghost tr0: seq<Event>)
      requires Stopped() && Sized() && data.Length == dataWords == |dm.t.data|
      requires WordsInMemory(dm.t, taddr, n) && n > 0 && |src| == Pos(xlen, n) && Written(dm.t, h0, tr0, taddr, src, 0)
      modifies dm, data
      ensures Stopped() && Sized() && |dm.t.data| == dataWords && dm.t.config == old(dm.t).config
      ensures |dm.t.hart.mem| == |old(dm.t).hart.mem|
      ensures dm.t.command == AccessRegister(xlen, AC_TRANSFER | AC_WRITE | AC_POSTEXEC, S1)
      ensures Written(dm.t, h0, tr0, taddr, src, 1)
      ensures SameSnapshots()
    {
      hide Prepared, AccessRegister, ShadowAt, WordsOf, Written, WFHart, WordsInMemory, Value, DataValue,
        WordBytes, Pos;
      ghost var t := dm.t;
      PosNext(xlen, 0, n);
      PosIs(xlen, 0);
      CopyIn(src, 0, data);
      RegisterWritten(t, AC_TRANSFER | AC_WRITE | AC_POSTEXEC, S1, [], Value(src[0..0 + WordBytes(xlen)]));
      assert Overwrite(t.progbuf, []) == t.progbuf;
      var command := AccessRegister(xlen, AC_TRANSFER | AC_WRITE | AC_POSTEXEC, S1);
      ghost var start := Prepared(t, command, [], data[..xlen / 32]);
      ghost var f := StoreTurn(t, start, h0, tr0, taddr, src, n, 0);
      RunAcOrDie(command, [], data, xlen / 32, 4, f);
    }

    /** Stores word i by writing the data registers: autoexec repeats the command. */
    method WriteTurn(i: nat, taddr: u64, src: seq<byte>, data: array<u32>, n: nat, ghost h0: Hart,
        ghost tr0: seq<Event>)
      requires Valid() && Calm(dm.t) && Sized() && data.Length == dataWords
      requires dm.t.auto == (if i == 1 then 0 else 1) && 1 <= i < n
      requires WordsInMemory(dm.t, taddr, n) && |src| == Pos(xlen, n) && Written(dm.t, h0, tr0, taddr, src, i)
      requires dm.t.command == AccessRegister(xlen, AC_TRANSFER | AC_WRITE | AC_POSTEXEC, S1)
      modifies dm, data
      ensures Valid() && Calm(dm.t) && Sized() && dm.t.auto == 1 && dm.t.config == old(dm.t).config
      ensures |dm.t.hart.mem| == |old(dm.t).hart.mem| && dm.t.command == old(dm.t).command
      ensures Written(dm.t, h0, tr0, taddr, src, i + 1)
      ensures SameSnapshots()
    {
      hide AccessRegister, ShadowAt, Written, WFHart, WordBytes, Pos;
      ghost var t := dm.t;
      PosNext(xlen, i, n);
      if i == 1 {
        QuietAuto(dm.t, 1);
        Poke(WriteControl(Abstractauto, 1), dm.t.(auto := 1));
      }
      WrittenElsewhere(t, dm.t, h0, tr0, taddr, src, i);
      CopyIn(src, Pos(xlen, i), data);
      SendData(i, taddr, src, data, n, h0, tr0);
    }

    /** The high data word first: it is writing data0 that starts the command. */
    method SendData(i: nat, taddr: u64, src: seq<byte>, data: array<u32>, n: nat, ghost h0: Hart, ghost tr0: seq<Event>)
      requires Valid() && Calm(dm.t) && Sized() && data.Length == dataWords && dm.t.auto == 1 && i < n
      requires WordsInMemory(dm.t, taddr, n) && |src| == Pos(xlen, n) && Written(dm.t, h0, tr0, taddr, src, i)
      requires dm.t.command == AccessRegister(xlen, AC_TRANSFER | AC_WRITE | AC_POSTEXEC, S1)
      requires Pos(xlen, i) + WordBytes(xlen) <= |src|
      requires DataValue(xlen, data[..]) == Value(src[Pos(xlen, i)..Pos(xlen, i) + WordBytes(xlen)])
      modifies dm
      ensures Valid() && Calm(dm.t) && Sized() && dm.t.auto == 1 && dm.t.config == old(dm.t).config
      ensures |dm.t.hart.mem| == |old(dm.t).hart.mem| && dm.t.command == old(dm.t).command
      ensures Written(dm.t, h0, tr0, taddr, src, i + 1)
      ensures SameSnapshots()
    {
      hide AccessRegister, ShadowAt, WordsOf, Written, WFHart, WordsInMemory, Value, WordBytes, Pos;
      ghost var t := dm.t;
      if xlen == 64 {
        QuietData(dm.t, 1, data[1]);
        Poke(WriteData(1, data[1]), dm.t.(data := dm.t.data[1 := data[1]]));
      }
      AutoexecStarts(dm.t, data[0]);
      ghost var start := dm.t.(data := dm.t.data[0 := data[0]], phase := Waiting(0));
      ghost var f := StoreTurn(t, start, h0, tr0, taddr, src, n, i);
      ghost var remaining := Launch(WriteData(0, data[0]), start, 4, f);
      WaitOrDie(remaining, f);
    }

    /** Between saving and restoring the scratch registers: every word stored, autoexec off. */
    method StoreWords(taddr: u64, src: seq<byte>, n: nat)
      requires Stopped() && Sized() && ramWords >= 3 && dataWords == |dm.t.data|
      requires n > 0 && |src| == Pos(xlen, n)
      requires WordsInMemory(dm.t, taddr, n) && taddr + |src| <= |dm.t.hart.mem|
      modifies dm
      ensures Stopped() && Sized() && |dm.t.data| == dataWords && dm.t.config == old(dm.t).config
      ensures Written(dm.t, old(dm.t).hart, old(dm.t).trace, taddr, src, n)
      ensures SameSnapshots()
    {
      hide ShadowAt, Written, WF, WFHart, Pos, AccessRegister, Address, Modulus;
      ghost var h0, tr0 := dm.t.hart, dm.t.trace;
      var data := new u32[dataWords];
      SetUpWriting(taddr, src, data, n);
      WrittenScratch(dm.t, h0, tr0, taddr, src, 0);
      WriteFirst(taddr, src, data, n, h0, tr0);
      var i := 1;
      while i < n
        invariant 1 <= i <= n && data.Length == dataWords && dm.t.config == old(dm.t).config
        invariant Valid() && Calm(dm.t) && Sized() && dm.t.auto == if i == 1 then 0 else 1
        invariant WordsInMemory(dm.t, taddr, n) && Written(dm.t, h0, tr0, taddr, src, i)
        invariant dm.t.command == AccessRegister(xlen, AC_TRANSFER | AC_WRITE | AC_POSTEXEC, S1)
        invariant SameSnapshots()
      {
        WriteTurn(i, taddr, src, data, n, h0, tr0);
        i := i + 1;
      }
      if n > 1 {
        QuietAuto(dm.t, 0);
        ghost var t := dm.t;
        Poke(WriteControl(Abstractauto, 0), dm.t.(auto := 0));
        WrittenElsewhere(t, dm.t, h0, tr0, taddr, src, n);
      }
    }

    method WriteChunk(taddr: u64, len: nat, src: seq<byte>)
      requires Ready() && Sized() && ramWords >= 3
      requires len == |src| > 0 && len % WordBytes(xlen) == 0
      requires WordsInMemory(dm.t, taddr, len / WordBytes(xlen))
      modifies this`currentHart, dm
      ensures Ready() && Sized() && taddr + len <= |dm.atHalt.mem|
      ensures dm.atResume == dm.atHalt.(mem := Patch(dm.atHalt.mem, taddr, src))
      ensures dm.t.trace == old(dm.t).trace + Stores(taddr, len / WordBytes(xlen), WordBytes(xlen))
      ensures dm.t.config == old(dm.t).config && |dm.t.data| == |old(dm.t).data| && Undisturbed(old(dm.t).hart.mem)
      ensures LetGo()
    {
      hide ShadowAt, Written, Patch, WF, WFHart, Stores, Pos, Kept;
      var s0, s1 := Enter();
      ghost var h0, tr0 := dm.t.hart, dm.t.trace;
      WordCount(xlen, len);
      var n := len * 8 / xlen;
      StoreWords(taddr, src, n);
      WrittenScratch(dm.t, h0, tr0, taddr, src, n);
      assert src[..Pos(xlen, n)] == src;
      Leave(s0, s1, h0);
    }

    method PointS0(taddr: u64, data: array<u32>)
      requires Stopped() && Sized() && taddr < Modulus(xlen) && dataWords >= 2
      requires data.Length == dataWords == |dm.t.data|
      modifies dm, data
      ensures Stopped() && Sized() && |dm.t.data| == dataWords
      ensures dm.t == old(dm.t).(command := dm.t.command, data := dm.t.data, hart := WithReg(old(dm.t).hart, 8, taddr))
      ensures SameSnapshots()
    {
      SetRegIsWithReg(dm.t.hart, taddr);
      hide Prepared, AccessRegister, ShadowAt, SetReg, RegNo;
      data[0] := taddr % TWO_32;
      data[1] := taddr / TWO_32;
      var command := AccessRegister(xlen, AC_TRANSFER | AC_WRITE, S0);
      assert data[..xlen / 32] == WordsOf(xlen, taddr);
      ghost var start := Prepared(dm.t, command, [], data[..xlen / 32]);
      ghost var f := RestoreCommand(dm.t, start, S0, taddr);
      RunAcOrDie(command, [], data, xlen / 32, 1, f);
    }

    /** Both words of a 64-bit value, whatever the width of the hart. */
    method PutWords(v: u64, data: array<u32>)
      requires (xlen == 32 || xlen == 64) && data.Length >= 2
      modifies data
      ensures data[..xlen / 32] == [v % TWO_32, v / TWO_32][..xlen / 32]
    {
      data[0] := v % TWO_32;
      data[1] := v / TWO_32;
    }

    /** Points S1 behind the last word and runs the clear loop. */
    method RunClearLoop(taddr: u64, len: nat, data: array<u32>)
      requires Stopped() && Sized() && ramWords >= 4 && dataWords >= 2 && data.Length == dataWords == |dm.t.data|
      requires len > 0 && len % WordBytes(xlen) == 0 && dm.t.hart.x[8] == taddr
      requires WordsInMemory(dm.t, taddr, len / WordBytes(xlen))
      modifies dm, data
      ensures Stopped() && Sized() && dm.t.config == old(dm.t).config && |dm.t.data| == dataWords
      ensures var h0 := old(dm.t).hart; var end := Address(xlen, taddr, len / WordBytes(xlen));
        taddr + len <= |h0.mem| && dm.t.hart == WithReg(WithReg(h0, 9, end), 8,
          end).(mem := Patch(h0.mem, taddr, Zeros(len)))
      ensures dm.t.trace == old(dm.t).trace + Stores(taddr, len / WordBytes(xlen), WordBytes(xlen))
      ensures SameSnapshots()
    {
      hide Modulus, WFConfig, ShadowAt, Patch, Stores, AccessRegister, STORE, ADDI, BNE, Prepared, Pos, Address,
        WordBytes, WordsOf, WFHart, WordsInMemory, ClearProgram, Leads, WithReg, Zeros;
      ghost var n := ClearFacts(dm.t, xlen, taddr, len);
      var prog := [STORE(xlen, X0, S0, 0), ADDI(S0, S0, WordImm(xlen)), BNE(S0, S1, 0, 8), EBREAK];
      ClearProgramIs(xlen);
      PutWords((taddr + len) % TWO_64, data);
      var command := AccessRegister(xlen, AC_TRANSFER | AC_WRITE | AC_POSTEXEC, S1);
      ghost var start := Prepared(dm.t, command, prog, data[..xlen / 32]);
      ghost var f := ClearCommand(dm.t, start, taddr, n);
      RunAcOrDie(command, prog, data, xlen / 32, 3 * n + 2, f);
    }

    method ClearChunk(taddr: u64, len: nat)
      requires Ready() && Sized() && ramWords >= 4 && dataWords >= 2
      requires len > 0 && len % WordBytes(xlen) == 0
      requires WordsInMemory(dm.t, taddr, len / WordBytes(xlen))
      modifies this`currentHart, dm
      ensures Ready() && Sized() && taddr + len <= |dm.atHalt.mem|
      ensures dm.atResume == dm.atHalt.(mem := Patch(dm.atHalt.mem, taddr, Zeros(len)))
      ensures dm.t.trace == old(dm.t).trace + Stores(taddr, len / WordBytes(xlen), WordBytes(xlen))
      ensures dm.t.config == old(dm.t).config && |dm.t.data| == |old(dm.t).data| && Undisturbed(old(dm.t).hart.mem)
      ensures LetGo()
    {
      hide ShadowAt, Patch, Stores, Kept;
      var s0, s1 := Enter();
      ghost var h0 := dm.t.hart;
      var data := new u32[dataWords];
      WordsStart(dm.t, taddr, len / WordBytes(xlen));
      PointS0(taddr, data);
      RunClearLoop(taddr, len, data);
      Leave(s0, s1, h0);
    }

    // ---------------------------------------------------------------- CSR access

    /** Runs the CSR program on a halted hart; the old value ends up in the data registers. */
    method RunCsrProgram(which: bv32, data: u64, kind: bv32)
      requires Stopped() && Sized() && ramWords >= 6 && WRITE <= kind <= CLEAR && which < 4096
      modifies dm
      ensures Stopped() && Sized() && dm.t.config == old(dm.t).config && |dm.t.data| == dataWords
      ensures dm.t.hart == CsrEffect(xlen, old(dm.t).hart, kind, CsrNo(which), data % Modulus(xlen))
      ensures DataValue(xlen, dm.t.data) == CsrFound(old(dm.t).hart, CsrNo(which))
      ensures dm.t.trace == old(dm.t).trace + [DebugModule.Loaded(dm.t.config.shadow)] + [Stored(dm.t.config.shadow)]
      ensures SameSnapshots()
    {
      OperandWords(xlen, data);
      hide ShadowAt, CsrEffect, CsrFound, AccessRegister, CSRRx, LOAD, STORE, CsrNo, DataValue, WordsOf, Prepared;
      var prog := [
        CSRRx(WRITE, S0, CSR_DSCRATCH, S0),
        LOAD(xlen, S0, X0, dataBase),
        CSRRx(kind, S0, which, S0),
        STORE(xlen, S0, X0, dataBase),
        CSRRx(WRITE, S0, CSR_DSCRATCH, S0),
        EBREAK
      ];
      var adata := new u32[2];
      adata[0] := data % TWO_32;
      adata[1] := data / TWO_32;
      assert adata[..] == [data % TWO_32, data / TWO_32];
      assert adata[..][..xlen / 32] == adata[..xlen / 32];
      var command := AccessRegister(xlen, AC_TRANSFER | AC_WRITE | AC_POSTEXEC, X0);
      ghost var start := Prepared(dm.t, command, prog, adata[..xlen / 32]);
      ghost var f := CsrCommand(dm.t, start, dataBase, kind, which, data % Modulus(xlen));
      RunAcOrDie(command, prog, adata, xlen / 32, 7, f);
    }

    method ModifyCsr(which: bv32, data: u64, kind: bv32) returns (res: u64)
      requires Ready() && Sized() && ramWords >= 6 && WRITE <= kind <= CLEAR && which < 4096
      modifies this`currentHart, dm
      ensures Ready() && Sized() && WFHart(dm.atHalt, xlen) && (xlen == 32 || xlen == 64)
      ensures dm.atResume == CsrEffect(xlen, dm.atHalt, kind, CsrNo(which), data % Modulus(xlen))
      ensures res == CsrResult(xlen, CsrFound(dm.atHalt, CsrNo(which)))
      ensures dm.t.trace == old(dm.t).trace + [DebugModule.Loaded(dm.t.config.shadow)] + [Stored(dm.t.config.shadow)]
      ensures dm.t.config == old(dm.t).config && |dm.t.data| == |old(dm.t).data| && Undisturbed(old(dm.t).hart.mem)
      ensures LetGo()
    {
      hide ShadowAt, CsrEffect, CsrFound, CsrNo, Or, Kept;
      Halt(currentHart);
      RunCsrProgram(which, data, kind);
      ghost var found := CsrFound(dm.atHalt, CsrNo(which));
      WordsOfValue(xlen, dm.t.data);
      res := FetchWord(0);
      if xlen == 64 {
        var high := FetchWord(1);
        OrFits(res, high);
        res := Or(res, high);
      }
      Resume(currentHart);
    }

    method WriteCsr(which: bv32, data: u64) returns (res: u64)
      requires Ready() && Sized() && ramWords >= 6 && which < 4096
      modifies this`currentHart, dm
      ensures Ready() && Sized() && WFHart(dm.atHalt, xlen) && (xlen == 32 || xlen == 64)
      ensures dm.atResume == CsrEffect(xlen, dm.atHalt, WRITE, CsrNo(which), data % Modulus(xlen))
      ensures res == CsrResult(xlen, CsrFound(dm.atHalt, CsrNo(which)))
      ensures dm.t.trace == old(dm.t).trace + [DebugModule.Loaded(dm.t.config.shadow)] + [Stored(dm.t.config.shadow)]
      ensures dm.t.config == old(dm.t).config && |dm.t.data| == |old(dm.t).data| && Undisturbed(old(dm.t).hart.mem)
      ensures LetGo()
    {
      res := ModifyCsr(which, data, WRITE);
    }

    method SetCsr(which: bv32, data: u64) returns (res: u64)
      requires Ready() && Sized() && ramWords >= 6 && which < 4096
      modifies this`currentHart, dm
      ensures Ready() && Sized() && WFHart(dm.atHalt, xlen) && (xlen == 32 || xlen == 64)
      ensures dm.atResume == CsrEffect(xlen, dm.atHalt, SET, CsrNo(which), data % Modulus(xlen))
      ensures res == CsrResult(xlen, CsrFound(dm.atHalt, CsrNo(which)))
      ensures LetGo()
    {
      res := ModifyCsr(which, data, SET);
    }

    method ClearCsr(which: bv32, data: u64) returns (res: u64)
      requires Ready() && Sized() && ramWords >= 6 && which < 4096
      modifies this`currentHart, dm
      ensures Ready() && Sized() && WFHart(dm.atHalt, xlen) && (xlen == 32 || xlen == 64)
      ensures dm.atResume == CsrEffect(xlen, dm.atHalt, CLEAR, CsrNo(which), data % Modulus(xlen))
      ensures res == CsrResult(xlen, CsrFound(dm.atHalt, CsrNo(which)))
      ensures LetGo()
    {
      res := ModifyCsr(which, data, CLEAR);
    }

    /** Reading leaves registers, memory and every CSR but dscratch alone; dscratch
        is left holding the value read. */
    method ReadCsr(which: bv32) returns (res: u64)
      requires Ready() && Sized() && ramWords >= 6 && which < 4096
      modifies this`currentHart, dm
      ensures Ready() && Sized() && WFHart(dm.atHalt, xlen) && (xlen == 32 || xlen == 64)
      ensures dm.atResume == dm.atHalt.(csr := dm.atHalt.csr[DSCRATCH := CsrFound(dm.atHalt, CsrNo(which))])
      ensures res == CsrResult(xlen, CsrFound(dm.atHalt, CsrNo(which)))
      ensures LetGo()
    {
      res := SetCsr(which, 0);
      hide ShadowAt, CsrNo;
      ReadCsrEffect(xlen, dm.atHalt, CsrNo(which));
    }

    // --------------------------------------------------------------- set-up

    method FenceI()
      requires Ready() && Sized() && ramWords >= 2
      modifies this`currentHart, dm
      ensures Ready() && Sized() && dm.atResume == dm.atHalt && dm.t.trace == old(dm.t).trace + [Fenced]
      ensures dm.t.config == old(dm.t).config && |dm.t.data| == |old(dm.t).data| && Undisturbed(old(dm.t).hart.mem)
      ensures LetGo()
    {
      hide ShadowAt, AccessRegister, Prepared;
      Halt(currentHart);
      var prog := [FENCE_I, EBREAK];
      var command := AccessRegister(xlen, AC_TRANSFER | AC_WRITE | AC_POSTEXEC, X0);
      var none := new u32[0];
      ghost var start := Prepared(dm.t, command, prog, none[..0]);
      ghost var f := FenceCommand(dm.t, start);
      RunAcOrDie(command, prog, none, 0, 3, f);
      Resume(currentHart);
    }

    /** Offers S0 transfers of 128, 64 and 32 bits until one is accepted. */
    method GetXlen() returns (width: int)
      requires Stopped()
      modifies dm
      ensures Stopped() && width == dm.t.config.xlen && dm.t.config == old(dm.t).config
      ensures dm.t.hart == old(dm.t).hart && dm.t.trace == old(dm.t).trace && SameSnapshots()
    {
      var accepted := TrySize(128);
      if accepted {
        width := 128;
      } else {
        accepted := TrySize(64);
        if accepted {
          width := 64;
        } else {
          accepted := TrySize(32);
          width := if accepted then 32 else 0;
        }
      }
    }

    /** The width of hart 0, for which it is halted once; from here on the program runs. */
    method Measure()
      requires Ready() && !running && dm.config.hartId == 0
      modifies this, dm
      ensures Ready() && Sized() && running && dm.t.active && dm.atResume == dm.atHalt
      ensures dm.t.config == old(dm.t).config && dm.t.trace == old(dm.t).trace && Undisturbed(old(dm.t).hart.mem)
      ensures dm.traffic == Spaced(old(dm.traffic), 1)
    {
      hide ShadowAt, WF;
      Halt(0);
      xlen := GetXlen();
      Resume(0);
      running := true;
    }

    /** The beginning of producer_thread, up to the mailbox loop. It stops at its assertions
        if the target has no scratch register or no data registers in memory. */
    static method ProducerThread(dm: Module) returns (r: Option<Driver>)
      requires Initial(dm.t) && Truthful(dm.t) && dm.t.config == dm.config
      modifies dm
      ensures r.Some? <==> Suitable(old(dm.t).config)
      ensures r.Some? ==> fresh(r.value) && r.value.dm == dm && r.value.running && r.value.Ready() && r.value.Sized()
      ensures r.Some? ==> r.value.ramWords == |old(dm.t).progbuf| && r.value.dataWords == |old(dm.t).data|
      ensures r.Some? ==> dm.atResume == dm.atHalt && r.value.Undisturbed(old(dm.t).hart.mem)
      ensures r.Some? ==> dm.t.active && dm.traffic == Traffic(1, false, old(dm.traffic).crowded)
      ensures dm.t.config == old(dm.t).config && dm.t.trace == old(dm.t).trace
    {
      hide ShadowAt, GetField, ReadBits, WF;
      ReadPreset(dm.t);
      ghost var time;
      var abstractcs, hartinfo;
      abstractcs, time := dm.Read(Abstractcs);
      ReadPreset(dm.t);
      hartinfo, time := dm.Read(Hartinfo);
      if GetField(hartinfo, HARTINFO_NSCRATCH) == 0 || GetField(hartinfo, HARTINFO_DATAACCESS) == 0 {
        return None;
      }
      var ramWords := GetField(abstractcs, ABSTRACTCS_PROGSIZE) as nat;
      var dataWords := GetField(abstractcs, ABSTRACTCS_DATACOUNT) as nat;
      var d := new Driver(dm, ramWords, dataWords, GetField(hartinfo, HARTINFO_DATAADDR), 0);
      d.Activate();
      d.Measure();
      r := Some(d);
    }

    method SelectHart(hartsel: bv32)
      requires Ready() && hartsel == dm.t.config.hartId
      modifies this`currentHart, dm
      ensures Ready() && dm.atHalt == old(dm.atHalt) && dm.atResume == old(dm.atResume)
      ensures dm.t == Selected(old(dm.t), hartsel).(hart := dm.t.hart)
      ensures dm.t.config == old(dm.t).config && dm.t.trace == old(dm.t).trace && |dm.t.data| == |old(dm.t).data|
      ensures dm.traffic.adjacent && dm.traffic.crowded == old(dm.traffic).crowded
      ensures dm.traffic.dmcontrol == Selection(hartsel, old(dm.t).active)
      ensures Kept(dm.t.config, old(dm.t).hart.mem, dm.t.hart.mem)
    {
      hide Perform, Advance, SetField, ShadowAt, Selection, WFHart, WFConfig;
      var dmcontrol;
      ghost var delay, time;
      dmcontrol, time := dm.Read(Dmcontrol);
      assert dmcontrol == ReadBits(dm.t, Dmcontrol);
      dmcontrol := SetField(dmcontrol, DMCONTROL_HARTSEL, hartsel);
      DmcontrolSelects(dm.t, hartsel);
      ghost var t := dm.t;
      delay, time := dm.Access(WriteControl(Dmcontrol, dmcontrol));
      assert Perform(t, WriteControl(Dmcontrol, dmcontrol), delay) == Selected(t, hartsel);
      currentHart := hartsel;
    }

    /** With one hart: it will go on from the entry point. */
    method Reset(entry: u64)
      requires Ready() && Sized() && ramWords >= 6 && dm.t.config.hartId == 0
      modifies this`currentHart, dm
      ensures Ready() && Sized() && WFHart(dm.atHalt, xlen)
      ensures dm.atResume
        == dm.atHalt.(csr := dm.atHalt.csr[DPC := entry % Modulus(xlen)][DSCRATCH := dm.atHalt.csr[DPC]])
      ensures dm.t.trace
        == old(dm.t).trace + [Fenced] + [DebugModule.Loaded(dm.t.config.shadow)] + [Stored(dm.t.config.shadow)]
      ensures !dm.traffic.adjacent && dm.traffic.crowded == old(dm.traffic).crowded + 1
      ensures dm.t.config == old(dm.t).config && |dm.t.data| == |old(dm.t).data| && Undisturbed(old(dm.t).hart.mem)
    {
      hide ShadowAt, CsrEffect, CsrNo, WF, WFHart, Selected, CsrResult, CsrFound;
      SelectHart(0);
      FenceI();
      var was := WriteCsr(CSR_DPC, entry);
      SmallNumbers();
      CsrEffectExact(xlen, dm.atHalt, WRITE, DPC, entry % Modulus(xlen));
      SelectHart(0);
      var dmstatus;
      ghost var time;
      dmstatus, time := dm.Read(Dmstatus);
    }

    method TrySize(size: nat) returns (accepted: bool)
      requires Stopped() && (size == 128 || size == 64 || (size == 32 && dm.t.config.xlen == 32))
      modifies dm
      ensures Stopped() && accepted == (size == dm.t.config.xlen) && dm.t.config == old(dm.t).config
      ensures dm.t.hart == old(dm.t).hart && dm.t.trace == old(dm.t).trace && SameSnapshots()
    {
      hide ShadowAt, AccessRegister, RegNo, WFHart;
      var command := AccessRegister(size, AC_TRANSFER, S0);
      var none := new u32[0];
      ghost var start := dm.t.(command := command, phase := Waiting(0));
      OnlyTransfer(size);
      assert Prepared(dm.t, command, [], none[..0]) == start by { assert Overwrite(dm.t.progbuf, []) == dm.t.progbuf; }
      ghost var f := dm.t;
      if size == dm.t.config.xlen {
        f := SaveCommand(dm.t, start, S0);
      } else {
        f := WrongSizeCommand(dm.t, start, size);
      }
      var cmderr := RunAbstractCommand(command, [], none, 0, 1, f);
      accepted := cmderr == 0;
      if !accepted {
        Die(cmderr);
      }
    }
  }

  lemma ClearProgramIs(xlen: nat)
    ensures ClearProgram(xlen) == [STORE(xlen, X0, S0, 0), ADDI(S0, S0, WordImm(xlen)), BNE(S0, S1, 0, 8), EBREAK]
  {
  }

  /** The end of the range in words and in data registers. */
  lemma ClearFacts(t: Target, xlen: nat, taddr: u64, len: nat) returns (n: nat)
    requires WF(t) && xlen == t.config.xlen && len > 0 && len % WordBytes(xlen) == 0
    requires WordsInMemory(t, taddr, len / WordBytes(xlen))
    ensures n == len / WordBytes(xlen) > 0 && n * WordBytes(xlen) == len && taddr + len <= |t.hart.mem|
    ensures (xlen == 32 || xlen == 64) && WordsOf(xlen, Address(xlen, taddr, n))
      == [(taddr + len) % TWO_64 % TWO_32, (taddr + len) % TWO_64 / TWO_32][..xlen / 32]
  {
    WordCount(xlen, len);
    n := len / WordBytes(xlen);
    PosIs(xlen, n);
    EndWords(xlen, taddr, len);
  }

  lemma OverwriteNone<T>(buffer: seq<T>, words: seq<T>)
    requires |words| <= |buffer|
    ensures Overwrite(buffer, words[..0]) == buffer
  {
  }

  lemma OverwriteOne<T>(buffer: seq<T>, words: seq<T>, i: nat)
    requires i < |words| <= |buffer|
    ensures |Overwrite(buffer, words[..i])| == |buffer|
    ensures Overwrite(buffer, words[..i])[i := words[i]] == Overwrite(buffer, words[..i + 1])
  {
  }

  lemma AtRest(t: Target, n: nat, f: Target, time: nat)
    requires Leads(t, n, f) && t.run.Halted?
    ensures t.phase.Idle? ==> t == f && Steps(t, time) == f
    ensures n == 0 ==> t == f
  {
    hide Advance, WF;
    if t.phase.Idle? {
      StepsOfSettled(t, n);
      StepsOfSettled(t, time);
    }
  }
}
