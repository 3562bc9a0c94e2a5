/** The fields of debug registers: contiguous masks, read with a division and written with
    a multiplication by the lowest bit of the mask. */
module Fields {
  /** The lowest bit of a contiguous mask. */
  function LowestBit(mask: bv32): bv32 { mask & !(mask << 1) }

  function Divided(x: bv32, d: bv32): bv32
    requires d != 0
  {
    x / d
  }

  /** x / d, with the powers of two told apart for the sake of proof. */
  function Quotient(x: bv32, d: bv32): bv32
    requires d != 0
  {
    match d
    case 0x1 => x / 0x1
    case 0x2 => x / 0x2
    case 0x4 => x / 0x4
    case 0x8 => x / 0x8
    case 0x10 => x / 0x10
    case 0x20 => x / 0x20
    case 0x40 => x / 0x40
    case 0x80 => x / 0x80
    case 0x100 => x / 0x100
    case 0x200 => x / 0x200
    case 0x400 => x / 0x400
    case 0x800 => x / 0x800
    case 0x1000 => x / 0x1000
    case 0x2000 => x / 0x2000
    case 0x4000 => x / 0x4000
    case 0x8000 => x / 0x8000
    case 0x10000 => x / 0x10000
    case 0x20000 => x / 0x20000
    case 0x40000 => x / 0x40000
    case 0x80000 => x / 0x80000
    case 0x100000 => x / 0x100000
    case 0x200000 => x / 0x200000
    case 0x400000 => x / 0x400000
    case 0x800000 => x / 0x800000
    case 0x1000000 => x / 0x1000000
    case 0x2000000 => x / 0x2000000
    case 0x4000000 => x / 0x4000000
    case 0x8000000 => x / 0x8000000
    case 0x10000000 => x / 0x10000000
    case 0x20000000 => x / 0x20000000
    case 0x40000000 => x / 0x40000000
    case 0x80000000 => x / 0x80000000
    case _ => Divided(x, d)
  }

  function Times(x: bv32, y: bv32): bv32 { x * y }

  /** v in place of what the mask covers. */
  function Placed(reg: bv32, mask: bv32, v: bv32): bv32 { (reg & !mask) | (v & mask) }

  function Covered(reg: bv32, mask: bv32): bv32 { reg & mask }

  function Uncovered(reg: bv32, mask: bv32): bv32 { reg & !mask }

  function GetField(reg: bv32, mask: bv32): bv32
    requires LowestBit(mask) != 0
  {
    Quotient(Covered(reg, mask), LowestBit(mask))
  }

  function SetField(reg: bv32, mask: bv32, val: bv32): bv32 {
    Placed(reg, mask, Times(val, LowestBit(mask)))
  }

  // Shifts by s places, one place at a time.

  function Double(x: bv32): bv32 { x << 1 }

  function Half(x: bv32): bv32 { x >> 1 }

  function Up(x: bv32, s: nat): bv32 {
    if s == 0 then x else Double(Up(x, s - 1))
  }

  function Down(x: bv32, s: nat): bv32 {
    if s == 0 then x else Half(Down(x, s - 1))
  }

  function Single(s: nat): bv32 { Up(1, s) }

  /** A field: as many ones as m has, s places up, none of them shifted out. */
  predicate Contiguous(m: bv32, s: nat) { s < 32 && Ones(m) && Room(m, s) }

  predicate Ones(m: bv32) { m != 0 && m & (m + 1) == 0 }

  predicate Room(m: bv32, s: nat) { s == 0 || (Room(m, s - 1) && Low(Up(m, s - 1))) }

  predicate Low(x: bv32) { x < 0x8000_0000 }

  // The facts about bits, first on bare words.

  lemma PlacedBits(reg: bv32, mask: bv32, v: bv32, p: bv32)
    requires p == (reg & !mask) | (v & mask)
    ensures p & mask == v & mask && p & !mask == reg & !mask
  {
  }

  lemma CommonBits(x: bv32, y: bv32)
    ensures (x << 1) & (y << 1) == (x & y) << 1
  {
  }

  lemma KeptBits(x: bv32, y: bv32)
    requires y < 0x8000_0000
    ensures ((x & y) << 1) >> 1 == x & y
  {
  }

  lemma LowestBits(m: bv32)
    requires m != 0 && m & (m + 1) == 0
    ensures m & !(m << 1) == 1
  {
  }

  lemma LowestShifts(x: bv32)
    ensures (x << 1) & !((x << 1) << 1) == (x & !(x << 1)) << 1
  {
  }

  // The definitions, one at a time.

  lemma PlacedIs(reg: bv32, mask: bv32, v: bv32)
    ensures Placed(reg, mask, v) == (reg & !mask) | (v & mask)
  {
  }

  lemma CoveredIs(reg: bv32, mask: bv32)
    ensures Covered(reg, mask) == reg & mask && Uncovered(reg, mask) == reg & !mask
  {
  }

  lemma DoubleIs(x: bv32)
    ensures Double(x) == x << 1
  {
  }

  lemma HalfIs(x: bv32)
    ensures Half(x) == x >> 1
  {
  }

  lemma LowestBitIs(mask: bv32)
    ensures LowestBit(mask) == mask & !(mask << 1)
  {
  }

  lemma WordsAre(m: bv32)
    ensures (Ones(m) <==> m != 0 && m & (m + 1) == 0) && (Low(m) <==> m < 0x8000_0000)
  {
  }

  // The facts again, in terms of the definitions.

  lemma PlacedIsThere(reg: bv32, mask: bv32, v: bv32)
    ensures Covered(Placed(reg, mask, v), mask) == Covered(v, mask)
    ensures Uncovered(Placed(reg, mask, v), mask) == Uncovered(reg, mask)
  {
    hide *;
    PlacedIs(reg, mask, v);
    CoveredIs(v, mask);
    CoveredIs(reg, mask);
    CoveredIs(Placed(reg, mask, v), mask);
    PlacedBits(reg, mask, v, Placed(reg, mask, v));
  }

  lemma CommonDouble(x: bv32, y: bv32)
    ensures Covered(Double(x), Double(y)) == Double(Covered(x, y))
  {
    hide *;
    DoubleIs(x);
    DoubleIs(y);
    DoubleIs(Covered(x, y));
    CoveredIs(x, y);
    CoveredIs(Double(x), Double(y));
    CommonBits(x, y);
  }

  lemma NothingLost(x: bv32, y: bv32)
    requires Low(y)
    ensures Half(Double(Covered(x, y))) == Covered(x, y)
  {
    hide *;
    WordsAre(y);
    CoveredIs(x, y);
    DoubleIs(Covered(x, y));
    HalfIs(Double(Covered(x, y)));
    KeptBits(x, y);
  }

  lemma LowestOne(m: bv32)
    requires Ones(m)
    ensures LowestBit(m) == 1
  {
    hide *;
    WordsAre(m);
    LowestBitIs(m);
    LowestBits(m);
  }

  lemma LowestDouble(x: bv32)
    ensures LowestBit(Double(x)) == Double(LowestBit(x))
  {
    hide *;
    DoubleIs(x);
    LowestBitIs(x);
    LowestBitIs(Double(x));
    DoubleIs(LowestBit(x));
    LowestShifts(x);
  }

  // Fields.

  lemma {:induction false} CoveredShifts(val: bv32, m: bv32, s: nat)
    ensures Covered(Up(val, s), Up(m, s)) == Up(Covered(val, m), s)
  {
    hide Covered, Double;
    if s > 0 {
      CoveredShifts(val, m, s - 1);
      CommonDouble(Up(val, s - 1), Up(m, s - 1));
    }
  }

  lemma {:induction false} DownInside(x: bv32, s: nat)
    requires s > 0
    ensures Down(x, s) == Down(Half(x), s - 1)
  {
    hide Half;
    if s > 1 { DownInside(x, s - 1); }
  }

  lemma {:induction false} ShiftedIsThere(val: bv32, m: bv32, s: nat)
    requires Room(m, s)
    ensures Down(Up(Covered(val, m), s), s) == Covered(val, m)
  {
    hide Covered, Double, Half, Low;
    if s > 0 {
      ShiftedIsThere(val, m, s - 1);
      CoveredShifts(val, m, s - 1);
      NothingLost(Up(val, s - 1), Up(m, s - 1));
      DownInside(Up(Covered(val, m), s), s);
    }
  }

  lemma {:induction false} LowestOfField(m: bv32, s: nat)
    requires Ones(m)
    ensures LowestBit(Up(m, s)) == Single(s)
  {
    hide Ones, LowestBit, Double;
    if s == 0 {
      LowestOne(m);
    } else {
      LowestOfField(m, s - 1);
      LowestDouble(Up(m, s - 1));
    }
  }

  /** For every contiguous mask, what was set is got back, modulo the width of the field,
      and the other bits are left alone. */
  lemma FieldRoundTrip(reg: bv32, m: bv32, s: nat, val: bv32)
    requires Contiguous(m, s)
    ensures LowestBit(Up(m, s)) != 0
    ensures GetField(SetField(reg, Up(m, s), val), Up(m, s)) == Covered(val, m)
    ensures Uncovered(SetField(reg, Up(m, s), val), Up(m, s)) == Uncovered(reg, Up(m, s))
  {
    hide Quotient, LowestBit, Times, Placed, Covered, Uncovered, Up, Down, Single, Ones, Room;
    var mask := Up(m, s);
    LowestOfField(m, s);
    TimesIsShift(val, s);
    PlacedIsThere(reg, mask, Up(val, s));
    CoveredShifts(val, m, s);
    ShiftedIsThere(val, m, s);
    QuotientIsShift(Covered(SetField(reg, mask, val), mask), s);
  }

  lemma DividedAtPowers(x: bv32)
    ensures Divided(x, 0x1) == x / 0x1
    ensures Divided(x, 0x2) == x / 0x2
    ensures Divided(x, 0x4) == x / 0x4
    ensures Divided(x, 0x8) == x / 0x8
    ensures Divided(x, 0x10) == x / 0x10
    ensures Divided(x, 0x20) == x / 0x20
    ensures Divided(x, 0x40) == x / 0x40
    ensures Divided(x, 0x80) == x / 0x80
    ensures Divided(x, 0x100) == x / 0x100
    ensures Divided(x, 0x200) == x / 0x200
    ensures Divided(x, 0x400) == x / 0x400
    ensures Divided(x, 0x800) == x / 0x800
    ensures Divided(x, 0x1000) == x / 0x1000
    ensures Divided(x, 0x2000) == x / 0x2000
    ensures Divided(x, 0x4000) == x / 0x4000
    ensures Divided(x, 0x8000) == x / 0x8000
    ensures Divided(x, 0x10000) == x / 0x10000
    ensures Divided(x, 0x20000) == x / 0x20000
    ensures Divided(x, 0x40000) == x / 0x40000
    ensures Divided(x, 0x80000) == x / 0x80000
    ensures Divided(x, 0x100000) == x / 0x100000
    ensures Divided(x, 0x200000) == x / 0x200000
    ensures Divided(x, 0x400000) == x / 0x400000
    ensures Divided(x, 0x800000) == x / 0x800000
    ensures Divided(x, 0x1000000) == x / 0x1000000
    ensures Divided(x, 0x2000000) == x / 0x2000000
    ensures Divided(x, 0x4000000) == x / 0x4000000
    ensures Divided(x, 0x8000000) == x / 0x8000000
    ensures Divided(x, 0x10000000) == x / 0x10000000
    ensures Divided(x, 0x20000000) == x / 0x20000000
    ensures Divided(x, 0x40000000) == x / 0x40000000
    ensures Divided(x, 0x80000000) == x / 0x80000000
  {
  }

  lemma QuotientIsDivided(x: bv32, d: bv32)
    requires d != 0
    ensures Quotient(x, d) == Divided(x, d)
  {
    hide Divided;
    DividedAtPowers(x);
  }

  lemma DividedIs(x: bv32, d: bv32)
    requires d != 0
    ensures Divided(x, d) == x / d
  {
  }

  /** get_field as the macro has it. */
  lemma GetFieldIsDivision(reg: bv32, mask: bv32)
    requires LowestBit(mask) != 0
    ensures mask & !(mask << 1) != 0 && GetField(reg, mask) == (reg & mask) / (mask & !(mask << 1))
  {
    LowestBitIs(mask);
    CoveredIs(reg, mask);
    GetFieldIs(reg, mask);
    hide *;
    QuotientIsDivided(Covered(reg, mask), LowestBit(mask));
    DividedIs(Covered(reg, mask), LowestBit(mask));
  }

  lemma GetFieldIs(reg: bv32, mask: bv32)
    requires LowestBit(mask) != 0
    ensures GetField(reg, mask) == Quotient(Covered(reg, mask), LowestBit(mask))
  {
  }

  function Shl(x: bv32, b: bv32): bv32
    requires b < 32
  {
    x << b
  }

  function Shr(x: bv32, b: bv32): bv32
    requires b < 32
  {
    x >> b
  }

  lemma ShiftsAre(x: bv32, b: bv32)
    requires b < 32
    ensures Shl(x, b) == x << b && Shr(x, b) == x >> b
  {
  }

  /** s as a shift amount. */
  function Places(s: nat): bv32 {
    if s == 0 then 0 else Places(s - 1) + 1
  }

  lemma PlacesValues()
    ensures Places(0) == 0 && Places(1) == 1 && Places(2) == 2 && Places(3) == 3
    ensures Places(4) == 4 && Places(5) == 5 && Places(6) == 6 && Places(7) == 7
    ensures Places(8) == 8 && Places(9) == 9 && Places(10) == 10 && Places(11) == 11
    ensures Places(12) == 12 && Places(13) == 13 && Places(14) == 14 && Places(15) == 15
    ensures Places(16) == 16 && Places(17) == 17 && Places(18) == 18 && Places(19) == 19
    ensures Places(20) == 20 && Places(21) == 21 && Places(22) == 22 && Places(23) == 23
    ensures Places(24) == 24 && Places(25) == 25 && Places(26) == 26 && Places(27) == 27
    ensures Places(28) == 28 && Places(29) == 29 && Places(30) == 30 && Places(31) == 31
  {
  }

  lemma PlacesBound(s: nat)
    requires 0 < s < 32
    ensures Places(s) == Places(s - 1) + 1 && 0 < Places(s) < 32
  {
    PlacesNext(s);
    hide Places;
    PlacesValues();
    match s
    case 1 =>
    case 2 =>
    case 3 =>
    case 4 =>
    case 5 =>
    case 6 =>
    case 7 =>
    case 8 =>
    case 9 =>
    case 10 =>
    case 11 =>
    case 12 =>
    case 13 =>
    case 14 =>
    case 15 =>
    case 16 =>
    case 17 =>
    case 18 =>
    case 19 =>
    case 20 =>
    case 21 =>
    case 22 =>
    case 23 =>
    case 24 =>
    case 25 =>
    case 26 =>
    case 27 =>
    case 28 =>
    case 29 =>
    case 30 =>
    case 31 =>
  }

  lemma PlacesNext(s: nat)
    requires s > 0
    ensures Places(s) == Places(s - 1) + 1
  {
  }

  lemma ShiftStep(x: bv32, b: bv32)
    requires 0 < b < 32
    ensures (x << (b - 1)) << 1 == x << b && (x >> (b - 1)) >> 1 == x >> b
  {
  }

  lemma ShiftZero(x: bv32)
    ensures Shl(x, 0) == x && Shr(x, 0) == x
  {
  }

  lemma ShlStep(x: bv32, b: bv32)
    requires 0 < b < 32
    ensures Double(Shl(x, b - 1)) == Shl(x, b)
  {
    hide *;
    ShiftsAre(x, b);
    ShiftsAre(x, b - 1);
    DoubleIs(Shl(x, b - 1));
    ShiftStep(x, b);
  }

  lemma ShrStep(x: bv32, b: bv32)
    requires 0 < b < 32
    ensures Half(Shr(x, b - 1)) == Shr(x, b)
  {
    hide *;
    ShiftsAre(x, b);
    ShiftsAre(x, b - 1);
    HalfIs(Shr(x, b - 1));
    ShiftStep(x, b);
  }

  lemma {:induction false} UpIsShl(x: bv32, s: nat)
    requires s < 32
    ensures Places(s) < 32 && Up(x, s) == Shl(x, Places(s))
  {
    hide Double, Shl;
    if s == 0 {
      ShiftZero(x);
    } else {
      hide Places;
      PlacesBound(s);
      UpIsShl(x, s - 1);
      ShlStep(x, Places(s));
    }
  }

  lemma {:induction false} DownIsShr(x: bv32, s: nat)
    requires s < 32
    ensures Places(s) < 32 && Down(x, s) == Shr(x, Places(s))
  {
    hide Half, Shr;
    if s == 0 {
      ShiftZero(x);
    } else {
      hide Places;
      PlacesBound(s);
      DownIsShr(x, s - 1);
      ShrStep(x, Places(s));
    }
  }

  lemma TimesPower(x: bv32, s: bv32)
    requires s < 32
    ensures Times(x, 1 << s) == x << s
  {
  }

  lemma SingleIs(s: nat)
    ensures Single(s) == Up(1, s)
  {
  }

  lemma TimesAt(x: bv32, s: bv32, d: bv32)
    requires s < 32 && d == Shl(1, s)
    ensures Times(x, d) == Shl(x, s)
  {
    hide *;
    ShiftsAre(x, s);
    ShiftsAre(1, s);
    TimesPower(x, s);
  }

  lemma TimesIsShift(x: bv32, s: nat)
    requires s < 32
    ensures Times(x, Single(s)) == Up(x, s)
  {
    hide *;
    SingleIs(s);
    UpIsShl(x, s);
    UpIsShl(1, s);
    TimesAt(x, Places(s), Single(s));
  }

  lemma QuotientLow(x: bv32, s: bv32)
    requires s < 16
    ensures (1 as bv32) << s != 0
    ensures Quotient(x, (1 as bv32) << s) == x >> s
  {
    hide Divided;
  }

  lemma QuotientHigh(x: bv32, s: bv32)
    requires 16 <= s < 32
    ensures (1 as bv32) << s != 0
    ensures Quotient(x, (1 as bv32) << s) == x >> s
  {
    hide Divided;
  }

  lemma QuotientPower(x: bv32, s: bv32)
    requires s < 32
    ensures (1 as bv32) << s != 0
    ensures Quotient(x, (1 as bv32) << s) == x >> s
  {
    hide Quotient;
    if s < 16 { QuotientLow(x, s); } else { QuotientHigh(x, s); }
  }

  lemma QuotientAt(x: bv32, s: bv32, d: bv32)
    requires s < 32 && d == Shl(1, s)
    ensures d != 0 && Quotient(x, d) == Shr(x, s)
  {
    hide *;
    ShiftsAre(x, s);
    ShiftsAre(1, s);
    QuotientPower(x, s);
  }

  lemma QuotientIsShift(x: bv32, s: nat)
    requires s < 32
    ensures Single(s) != 0 && Quotient(x, Single(s)) == Down(x, s)
  {
    hide *;
    SingleIs(s);
    UpIsShl(1, s);
    DownIsShr(x, s);
    QuotientAt(x, Places(s), Single(s));
  }
}
