/** The RISC-V instruction words and the register fields the debug driver builds,
    as the bit expressions of the source, and an independent decoder for them. */
module Encoding {
  import opened Words

  // ------------------------------------------------------------- immediates

  // RV_X(x, s, n), the n bits of x from bit s on, is written out as (x >> s) & (2^n - 1).

  function EncodeItypeImm(x: bv32): bv32 { (x & 0xfff) << 20 }

  function EncodeStypeImm(x: bv32): bv32 { ((x & 0x1f) << 7) | (((x >> 5) & 0x7f) << 25) }

  function EncodeSBtypeImm(x: bv32): bv32 {
    (((x >> 1) & 0xf) << 8) | (((x >> 5) & 0x3f) << 25) | (((x >> 11) & 0x1) << 7) | (((x >> 12) & 0x1) << 31)
  }

  function EncodeUJtypeImm(x: bv32): bv32 {
    (((x >> 1) & 0x3ff) << 21) | (((x >> 11) & 0x1) << 20) | (((x >> 12) & 0xff) << 12) | (((x >> 20) & 0x1) << 31)
  }

  // ----------------------------------------------------------- instructions

  const FENCE_I: bv32 := 0x100f
  const EBREAK: bv32 := 0x0010_0073
  const X0: bv32 := 0
  const S0: bv32 := 8
  const S1: bv32 := 9
  const CSR_DPC: bv32 := 0x7b1
  const CSR_DSCRATCH: bv32 := 0x7b2

  function LOAD(xlen: nat, dst: bv32, base: bv32, imm: bv32): bv32 {
    (if xlen == 64 then 0x3003 else 0x2003) | (dst << 7) | (base << 15) | EncodeItypeImm(imm)
  }

  function STORE(xlen: nat, src: bv32, base: bv32, imm: bv32): bv32 {
    (if xlen == 64 then 0x3023 else 0x2023) | (src << 20) | (base << 15) | EncodeStypeImm(imm)
  }

  function JUMP(there: bv32, here: bv32): bv32 { 0x6f | EncodeUJtypeImm(there - here) }

  function BNE(r1: bv32, r2: bv32, there: bv32, here: bv32): bv32 {
    0x1063 | (r1 << 15) | (r2 << 20) | EncodeSBtypeImm(there - here)
  }

  function ADDI(dst: bv32, src: bv32, imm: bv32): bv32 {
    0x13 | (dst << 7) | (src << 15) | EncodeItypeImm(imm)
  }

  // The `kind` argument of CSRRx: csrrw, csrrs and csrrc.
  const WRITE: bv32 := 1
  const SET: bv32 := 2
  const CLEAR: bv32 := 3

  function CSRRx(kind: bv32, dst: bv32, csr: bv32, src: bv32): bv32 {
    0x73 | (kind << 12) | (dst << 7) | (src << 15) | (csr << 20)
  }

  // ---------------------------------------------------------------- decoder

  /** Instructions as a hart sees them (RISC-V Unprivileged ISA, sections 2.3 to
      2.6); immediates are sign-extended to 32 bits. */
  datatype Instr =
    | Load(width: nat, rd: bv32, rs1: bv32, imm: bv32)
    | Store(width: nat, rs2: bv32, rs1: bv32, imm: bv32)
    | Addi(rd: bv32, rs1: bv32, imm: bv32)
    | Bne(rs1: bv32, rs2: bv32, imm: bv32)
    | Jal(rd: bv32, imm: bv32)
    | Csr(kind: bv32, rd: bv32, csr: bv32, rs1: bv32)
    | FenceI
    | Ebreak
    | Illegal

  /** A 32-bit pattern read as a two's-complement number. */
  function Signed(b: bv32): int {
    if b >= 0x8000_0000 then (b as int) - TWO_32 else b as int
  }

  function Rd(w: bv32): bv32 { (w >> 7) & 31 }

  function Rs1(w: bv32): bv32 { (w >> 15) & 31 }

  function Rs2(w: bv32): bv32 { (w >> 20) & 31 }

  function ItypeImm(w: bv32): bv32 {
    (if w >> 31 == 1 then 0xffff_f000 else 0) | (w >> 20)
  }

  function StypeImm(w: bv32): bv32 {
    (if w >> 31 == 1 then 0xffff_f000 else 0) | ((w >> 25) << 5) | ((w >> 7) & 31)
  }

  function BtypeImm(w: bv32): bv32 {
    (if w >> 31 == 1 then 0xffff_f000 else 0) | (((w >> 7) & 1) << 11) | (((w >> 25) & 63) << 5) |
      (((w >> 8) & 15) << 1)
  }

  function JtypeImm(w: bv32): bv32 {
    (if w >> 31 == 1 then 0xfff0_0000 else 0) | (((w >> 12) & 255) << 12) | (((w >> 20) & 1) << 11) |
      (((w >> 21) & 1023) << 1)
  }

  /** What a hart fetching the word w executes. */
  function Decode(w: bv32): Instr {
    var opcode := w & 0x7f;
    var funct3 := (w >> 12) & 7;
    if opcode == 0x03 && funct3 == 2 then Load(4, Rd(w), Rs1(w), ItypeImm(w))
    else if opcode == 0x03 && funct3 == 3 then Load(8, Rd(w), Rs1(w), ItypeImm(w))
    else if opcode == 0x23 && funct3 == 2 then Store(4, Rs2(w), Rs1(w), StypeImm(w))
    else if opcode == 0x23 && funct3 == 3 then Store(8, Rs2(w), Rs1(w), StypeImm(w))
    else if opcode == 0x13 && funct3 == 0 then Addi(Rd(w), Rs1(w), ItypeImm(w))
    else if opcode == 0x63 && funct3 == 1 then Bne(Rs1(w), Rs2(w), BtypeImm(w))
    else if opcode == 0x6f then Jal(Rd(w), JtypeImm(w))
    else if opcode == 0x73 && 1 <= funct3 <= 3 then Csr(funct3, Rd(w), w >> 20, Rs1(w))
    else if w == 0x0010_0073 then Ebreak
    else if opcode == 0x0f && funct3 == 1 then FenceI
    else Illegal
  }

  /** The low 12 bits, sign-extended: what an I- or S-type immediate can carry. */
  function SignExtend12(b: bv32): bv32 {
    ((b & 0xfff) ^ 0x800) - 0x800
  }

  /** A signed number of 12 bits. */
  predicate Immediate12(imm: bv32) { imm < 0x800 || imm >= 0xffff_f800 }

  /** In-range immediates are carried unchanged. */
  lemma SignExtendInRange(imm: bv32)
    ensures Immediate12(imm) ==> SignExtend12(imm) == imm
  {
  }

  lemma DecodeLoad(xlen: nat, dst: bv32, base: bv32, imm: bv32)
    requires dst < 32 && base < 32
    ensures Decode(LOAD(xlen, dst, base, imm)) == Load(if xlen == 64 then 8 else 4, dst, base, SignExtend12(imm))
    ensures Immediate12(imm) ==> Decode(LOAD(xlen, dst, base, imm)) == Load(if xlen == 64 then 8 else 4, dst, base, imm)
  {
    SignExtendInRange(imm);
    var w := LOAD(xlen, dst, base, imm);
    assert Rd(w) == dst && Rs1(w) == base && ItypeImm(w) == SignExtend12(imm);
    if xlen == 64 {
      assert w & 0x7f == 0x03 && (w >> 12) & 7 == 3;
    } else {
      assert w & 0x7f == 0x03 && (w >> 12) & 7 == 2;
    }
  }

  lemma DecodeStore(xlen: nat, src: bv32, base: bv32, imm: bv32)
    requires src < 32 && base < 32
    ensures Decode(STORE(xlen, src, base, imm)) == Store(if xlen == 64 then 8 else 4, src, base, SignExtend12(imm))
    ensures Immediate12(imm) ==>
      Decode(STORE(xlen, src, base, imm)) == Store(if xlen == 64 then 8 else 4, src, base, imm)
  {
    SignExtendInRange(imm);
    var w := STORE(xlen, src, base, imm);
    assert Rs2(w) == src && Rs1(w) == base && StypeImm(w) == SignExtend12(imm);
    if xlen == 64 {
      assert w & 0x7f == 0x23 && (w >> 12) & 7 == 3;
    } else {
      assert w & 0x7f == 0x23 && (w >> 12) & 7 == 2;
    }
  }

  lemma DecodeAddi(dst: bv32, src: bv32, imm: bv32)
    requires dst < 32 && src < 32
    ensures Decode(ADDI(dst, src, imm)) == Addi(dst, src, SignExtend12(imm))
    ensures Immediate12(imm) ==> Decode(ADDI(dst, src, imm)) == Addi(dst, src, imm)
  {
    SignExtendInRange(imm);
  }

  /** A conditional branch reaches every even offset of 13 bits, backward ones included. */
  lemma DecodeBne(r1: bv32, r2: bv32, there: bv32, here: bv32)
    requires r1 < 32 && r2 < 32
    requires var off := there - here; off & 1 == 0 && (off < 0x1000 || off >= 0xffff_f000)
    ensures Decode(BNE(r1, r2, there, here)) == Bne(r1, r2, there - here)
  {
  }

  lemma DecodeJump(there: bv32, here: bv32)
    requires var off := there - here; off & 1 == 0 && (off < 0x10_0000 || off >= 0xfff0_0000)
    ensures Decode(JUMP(there, here)) == Jal(0, there - here)
  {
  }

  /** One word only is the EBREAK that ends a program, and it is the one used. */
  lemma DecodeEbreak(w: bv32)
    ensures Decode(w) == Ebreak <==> w == 0x0010_0073
    ensures Decode(EBREAK) == Ebreak
  {
  }

  /** FENCE.I is told by opcode and funct3. */
  lemma DecodeFence(w: bv32)
    ensures Decode(w) == FenceI <==> w & 0x707f == 0x100f
    ensures Decode(FENCE_I) == FenceI && FENCE_I == 0x100f
  {
  }

  lemma DecodeCsr(kind: bv32, dst: bv32, csr: bv32, src: bv32)
    requires WRITE <= kind <= CLEAR && dst < 32 && src < 32 && csr < 4096
    ensures Decode(CSRRx(kind, dst, csr, src)) == Csr(kind, dst, csr, src)
    ensures kind == WRITE == 1 || kind == SET == 2 || kind == CLEAR == 3
  {
    var w := CSRRx(kind, dst, csr, src);
    assert w & 0x7f == 0x73 && (w >> 12) & 7 == kind;
  }
}
