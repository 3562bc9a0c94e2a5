/** From a Debug Module that the host has not touched to a hart about to run the program: the
    start of the debug driver, the loader over memif over the driver, and the reset. */
module Boot {
  import opened Wrappers
  import opened Words
  import opened Memory
  import opened DebugModule
  import opened ChunkedMem
  import DtmPrograms
  import Dtm
  import MemIf
  import Elf2Hex

  /** The transport that the driver of this target will be. */
  function DriverOutline(t: Target): Shape {
    Shape(0, |t.hart.mem|, t.config.shadow, t.config.shadow + 4 * |t.data|, t.config.xlen / 8, 4096, true)
  }

  lemma DriverShaped(t: Target)
    requires WF(t) && Aligned(8, |t.hart.mem|)
    ensures WellShaped(DriverOutline(t))
  {
    assert Pow2(2) == 4 && Pow2(3) == 8;
    assert t.config.xlen / 8 == Pow2(if t.config.xlen == 32 then 2 else 3);
  }

  /** The driver, started, is a transport with the memory of the hart. */
  lemma DriverServes(d: Dtm.Driver, m: Mem)
    requires d.Ready() && d.Sized() && d.ramWords >= 4 && d.dataWords >= 2 && d.dm.config.passive
    requires d.Undisturbed(m) && d.dm.atResume == d.dm.atHalt
    ensures Is(Debug(d), DriverOutline(d.dm.t), m)
  {
  }

  /** What a program finds that starts at entry in a hart let go as h, with memory m. */
  predicate StartsAt(h: Hart, xlen: nat, entry: u64, m: Mem) {
    && |h.csr| == 4096 && (xlen == 32 || xlen == 64)
    && h.csr[DtmPrograms.DPC] == entry % Modulus(xlen) && h.mem == m
  }

  method LoadProgram(d: Dtm.Driver, buf: seq<byte>, ph: seq<Elf2Hex.Phdr>, elf32: bool, ghost s: Shape, ghost m: Mem)
    requires Is(Debug(d), s, m) && WellShaped(s) && Elf2Hex.Loads(ph, s, buf, elf32)
    modifies d, d.dm
    ensures Is(Debug(d), s, Elf2Hex.Loaded(s, m, ph, buf, elf32))
  {
    hide WellShaped, Working, View, Outline, Elf2Hex.Loaded, Elf2Hex.Placed, Elf2Hex.WellFormed;
    ShapeSteps(s);
    var memif := new MemIf.MemIf(Debug(d));
    Elf2Hex.LoadElf(memif, buf, ph, elf32);
  }

  lemma ShapeSteps(s: Shape)
    requires WellShaped(s)
    ensures s.align > 0
  {
  }

  method RunFrom(d: Dtm.Driver, entry: u64, ghost s: Shape, ghost m: Mem)
    requires Is(Debug(d), s, m) && d.ramWords >= 6 && d.dm.config.hartId == 0
    modifies d`currentHart, d.dm
    ensures d.Ready() && d.Sized() && StartsAt(d.dm.atResume, d.dm.config.xlen, entry, m)
  {
    d.Reset(entry);
  }

  /** htif_t::start on the debug driver: load_program, then reset. */
  method Start(dm: Module, buf: seq<byte>, ph: seq<Elf2Hex.Phdr>, elf32: bool, entry: u64)
      returns (r: Option<Dtm.Driver>)
    requires Dtm.Initial(dm.t) && Dtm.Truthful(dm.t) && dm.t.config == dm.config && dm.config.passive
    requires |dm.t.progbuf| >= 6 && |dm.t.data| >= 2 && Aligned(8, |dm.t.hart.mem|)
    requires Elf2Hex.Loads(ph, DriverOutline(dm.t), buf, elf32)
    modifies dm
    ensures r.Some? <==> Dtm.Suitable(dm.config)
    ensures r.Some? ==> r.value.dm == dm && r.value.Ready() && r.value.Sized()
    ensures r.Some? ==> StartsAt(dm.atResume, dm.config.xlen, entry,
      Elf2Hex.Loaded(DriverOutline(old(dm.t)), old(dm.t).hart.mem, ph, buf, elf32))
    ensures r.Some? && AllZero(old(dm.t).hart.mem) && Elf2Hex.PairwiseDisjoint(ph) ==>
      (Elf2Hex.IsImage(dm.atResume.mem, 0, ph, buf) <==>
        Elf2Hex.NothingErased(DriverOutline(old(dm.t)), ph, buf, elf32))
    ensures r.Some? && AllZero(old(dm.t).hart.mem) && Elf2Hex.AllUnwrapped(ph, elf32) ==>
      Elf2Hex.IsImage(dm.atResume.mem, 0, ph, buf)
  {
    hide WF, Elf2Hex.Loads, Elf2Hex.Loaded, Elf2Hex.IsImage, Elf2Hex.NothingErased, Elf2Hex.PairwiseDisjoint,
      Elf2Hex.AllUnwrapped, AllZero, WellShaped, Is, StartsAt, Aligned, Dtm.Suitable;
    ghost var s, m := DriverOutline(dm.t), dm.t.hart.mem;
    DriverShaped(dm.t);
    r := Dtm.Driver.ProducerThread(dm);
    if r.Some? {
      var d := r.value;
      DriverServes(d, m);
      LoadProgram(d, buf, ph, elf32, s, m);
      RunFrom(d, entry, s, Elf2Hex.Loaded(s, m, ph, buf, elf32));
      Images(s, m, ph, buf, elf32);
    }
  }

  lemma Images(s: Shape, m: Mem, ph: seq<Elf2Hex.Phdr>, buf: seq<byte>, elf32: bool)
    requires WellShaped(s) && s.align > 0 && s.clears && s.base == 0 && |m| == s.size
    requires Elf2Hex.Loads(ph, s, buf, elf32)
    ensures var r := Elf2Hex.Loaded(s, m, ph, buf, elf32);
      && (AllZero(m) && Elf2Hex.PairwiseDisjoint(ph) ==>
        (Elf2Hex.IsImage(r, 0, ph, buf) <==> Elf2Hex.NothingErased(s, ph, buf, elf32)))
      && (AllZero(m) && Elf2Hex.AllUnwrapped(ph, elf32) ==> Elf2Hex.IsImage(r, 0, ph, buf))
  {
    hide *;
    if AllZero(m) && Elf2Hex.PairwiseDisjoint(ph) { Elf2Hex.ImageExactly(s, m, ph, buf, elf32); }
    if AllZero(m) && Elf2Hex.AllUnwrapped(ph, elf32) { Elf2Hex.LoadedIsImage(s, m, ph, buf, elf32); }
  }
}
