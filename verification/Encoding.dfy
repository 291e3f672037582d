/** Assembling instructions, and the two round trips with the decoder: the
    listing is a bijection between legal words and well-formed instructions, up
    to the ignored fields of fence. */
module Encoding {
  import opened Words
  import opened Isa

  ghost predicate InBounds(f: Fields) {
    0 <= f.opcode < 128 && 0 <= f.funct3 < 8 && 0 <= f.funct7 < 128
  }

  lemma SplitJoin(f: Fields)
    requires InBounds(f)
    ensures 0 <= Join(f) < 0x1_0000_0000
    ensures Split(Join(f)) == f
  {
    var w := Join(f);
    var w1 := f.rd + 32 * (f.funct3 + 8 * (f.rs1 + 32 * (f.rs2 + 32 * f.funct7)));
    var w2 := f.funct3 + 8 * (f.rs1 + 32 * (f.rs2 + 32 * f.funct7));
    var w3 := f.rs1 + 32 * (f.rs2 + 32 * f.funct7);
    var w4 := f.rs2 + 32 * f.funct7;
    DivisionUnique(w, 0x80, w1, f.opcode);
    DivisionUnique(w1, 32, w2, f.rd);
    DivisionUnique(w2, 8, w3, f.funct3);
    DivisionUnique(w3, 32, w4, f.rs1);
    DivisionUnique(w4, 32, f.funct7, f.rs2);
    SplitModulus(w, 0x80, 32);
    SplitModulus(w, 0x1000, 8);
    SplitModulus(w, 0x8000, 32);
    SplitModulus(w, 0x10_0000, 32);
  }

  // The low part of a field is a field.
  lemma SubField(x: int, a: int, b: int)
    requires a > 0 && b > 0
    ensures x % (a * b) / a == x / a % b && x % (a * b) % a == x % a
  {
    SplitModulus(x, a, b);
    DivisionUnique(x % (a * b), a, x / a % b, x % a);
  }

  function Sign(f: Fields): int {
    f.funct7 / 64
  }

  // The immediates in terms of the register-layout fields.
  lemma SignField(w: Word)
    ensures Sign(Split(w)) == w / 0x8000_0000 == if w >= 0x8000_0000 then 1 else 0
  {
    SplitModulus(w, 0x200_0000, 64);
  }

  lemma ImmIFields(w: Word)
    ensures var f := Split(w); ImmI(w) == f.rs2 + 32 * f.funct7 - 0x1000 * Sign(f)
  {
    SignField(w);
    SplitModulus(w, 0x10_0000, 32);
    assert w / 0x10_0000 == w / 0x10_0000 % 32 + 32 * (w / 0x200_0000);
  }

  lemma ImmSFields(w: Word)
    ensures var f := Split(w); ImmS(w) == f.rd + 32 * f.funct7 - 0x1000 * Sign(f)
  {
    SignField(w);
  }

  lemma ImmBFields(w: Word)
    ensures var f := Split(w);
      ImmB(w) == 2 * (f.rd / 2) + 0x800 * (f.rd % 2) + 0x20 * (f.funct7 % 64) - 0x1000 * Sign(f)
  {
    SignField(w);
    SubField(w / 0x80, 2, 16);
    SplitModulus(w, 0x80, 2);
  }

  lemma ImmUFields(w: Word)
    ensures var f := Split(w);
      ImmU(w) == 0x1000 * (f.funct3 + 8 * f.rs1 + 0x100 * f.rs2 + 0x2000 * f.funct7)
  {
    SplitModulus(w, 0x1000, 8);
    SplitModulus(w, 0x8000, 32);
    SplitModulus(w, 0x10_0000, 32);
    assert w / 0x1000 == w / 0x1000 % 8 + 8 * (w / 0x8000);
    assert w / 0x8000 == w / 0x8000 % 32 + 32 * (w / 0x10_0000);
    assert w / 0x10_0000 == w / 0x10_0000 % 32 + 32 * (w / 0x200_0000);
  }

  lemma ImmJFields(w: Word)
    ensures var f := Split(w);
      ImmJ(w) == 2 * (f.rs2 / 2) + 0x20 * (f.funct7 % 64) + 0x800 * (f.rs2 % 2) + 0x1000 * (f.funct3 + 8 * f.rs1)
                 - 0x10_0000 * Sign(f)
  {
    SignField(w);
    JLow(w);
    JMiddle(w);
  }

  lemma JLow(w: Word)
    ensures var f := Split(w);
      w / 0x20_0000 % 1024 == f.rs2 / 2 + 16 * (f.funct7 % 64) && w / 0x10_0000 % 2 == f.rs2 % 2
  {
    SubField(w / 0x10_0000, 2, 16);
    SplitModulus(w, 0x10_0000, 2);
    SplitModulus(w / 0x20_0000, 16, 64);
    SplitModulus(w, 0x20_0000, 16);
  }

  lemma JMiddle(w: Word)
    ensures var f := Split(w); w / 0x1000 % 256 == f.funct3 + 8 * f.rs1
  {
    SplitModulus(w / 0x1000, 8, 32);
    SplitModulus(w, 0x1000, 8);
  }

  // ---------------------------------------------------------------- assembling

  predicate WellFormed(i: Instr) {
    match i
    case Lui(_, imm) => 0 <= imm < 0x1_0000_0000 && imm % 0x1000 == 0
    case Auipc(_, imm) => 0 <= imm < 0x1_0000_0000 && imm % 0x1000 == 0
    case Jal(_, off) => -0x10_0000 <= off < 0x10_0000 && off % 2 == 0
    case Jalr(_, _, off) => -0x800 <= off < 0x800
    case Branch(_, _, _, off) => -0x1000 <= off < 0x1000 && off % 2 == 0
    case Load(width, signed, _, _, off) => -0x800 <= off < 0x800 && (width == W ==> signed)
    case Store(_, _, _, off) => -0x800 <= off < 0x800
    case OpImm(op, _, _, imm) => op != Sub && if op in {Sll, Srl, Sra} then 0 <= imm < 32 else -0x800 <= imm < 0x800
    case _ => true
  }

  function CondCode(c: Cond): int {
    match c case Eq => 0 case Ne => 1 case Lt => 4 case Ge => 5 case Ltu => 6 case Geu => 7
  }

  function AluCode(op: AluOp): int {
    match op
    case Add => 0 case Sub => 0 case Sll => 1 case Slt => 2 case Sltu => 3
    case Xor => 4 case Srl => 5 case Sra => 5 case Or => 6 case And => 7
  }

  function WidthCode(width: Width): int {
    match width case B => 0 case H => 1 case W => 2
  }

  function IFields(opcode: int, rd: Reg, funct3: int, rs1: Reg, imm: int): Fields {
    Fields(opcode, rd, funct3, rs1, imm % 32, imm / 32 % 128)
  }

  function UFields(opcode: int, rd: Reg, imm: int): Fields {
    var u := imm / 0x1000;
    Fields(opcode, rd, u % 8, u / 8 % 32, u / 0x100 % 32, u / 0x2000 % 128)
  }

  function EncodeFields(i: Instr): Fields {
    match i
    case Lui(rd, imm) => UFields(0x37, rd, imm)
    case Auipc(rd, imm) => UFields(0x17, rd, imm)
    case Jal(rd, off) =>
      var h := off / 2;
      Fields(0x6F, rd, off / 0x1000 % 8, off / 0x8000 % 32,
             2 * (h % 16) + off / 0x800 % 2, off / 32 % 64 + (if off < 0 then 64 else 0))
    case Jalr(rd, rs1, off) => IFields(0x67, rd, 0, rs1, off)
    case Branch(cond, rs1, rs2, off) =>
      Fields(0x63, 2 * (off / 2 % 16) + off / 0x800 % 2, CondCode(cond), rs1, rs2,
             off / 32 % 64 + (if off < 0 then 64 else 0))
    case Load(width, signed, rd, rs1, off) =>
      IFields(0x03, rd, WidthCode(width) + (if signed then 0 else 4), rs1, off)
    case Store(width, rs1, rs2, off) => Fields(0x23, off % 32, WidthCode(width), rs1, rs2, off / 32 % 128)
    case OpImm(op, rd, rs1, imm) =>
      if op == Sra then Fields(0x13, rd, 5, rs1, imm % 32, 0x20) else IFields(0x13, rd, AluCode(op), rs1, imm)
    case Op(op, rd, rs1, rs2) =>
      Fields(0x33, rd, AluCode(op), rs1, rs2, if op == Sub || op == Sra then 0x20 else 0)
    case Fence => Fields(0x0F, 0, 0, 0, 0, 0)
    case Ecall => Fields(0x73, 0, 0, 0, 0, 0)
    case Ebreak => Fields(0x73, 0, 0, 0, 1, 0)
  }

  function Encode(i: Instr): Word {
    SplitJoin(EncodeFields(i));
    Join(EncodeFields(i))
  }

  lemma EncodedFields(i: Instr)
    ensures Split(Encode(i)) == EncodeFields(i)
  {
    SplitJoin(EncodeFields(i));
  }

  lemma IFieldsValue(imm: int)
    requires -0x800 <= imm < 0x800
    ensures imm % 32 + 32 * (imm / 32 % 128) - 0x1000 * (imm / 32 % 128 / 64) == imm
    ensures 0 <= imm < 32 ==> imm % 32 == imm && imm / 32 == 0
  {
    SplitModulus(imm, 32, 128);
    assert imm % 0x1000 == if imm < 0 then imm + 0x1000 else imm;
  }

  lemma BFieldsValue(off: int)
    requires -0x1000 <= off < 0x1000 && off % 2 == 0
    ensures var rd, f7 := 2 * (off / 2 % 16) + off / 0x800 % 2, off / 32 % 64 + (if off < 0 then 64 else 0);
      2 * (rd / 2) + 0x800 * (rd % 2) + 0x20 * (f7 % 64) - 0x1000 * (f7 / 64) == off
  {
    LowDigits(off);
    NegativeResidue(off, 0x1000);
    Pieces(off / 2 % 16, off / 0x800 % 2, off / 32 % 64, off < 0);
  }

  lemma LowDigits(off: int)
    requires off % 2 == 0
    ensures off % 0x1000 == 2 * (off / 2 % 16) + 32 * (off / 32 % 64) + 0x800 * (off / 0x800 % 2)
  {
    assert off % 32 == 2 * (off / 2 % 16) by { SplitModulus(off, 2, 16); }
    assert off % 0x800 == off % 32 + 32 * (off / 32 % 64) by { SplitModulus(off, 32, 64); }
    assert off % 0x1000 == off % 0x800 + 0x800 * (off / 0x800 % 2) by { SplitModulus(off, 0x800, 2); }
  }

  lemma JFieldsValue(off: int)
    requires -0x10_0000 <= off < 0x10_0000 && off % 2 == 0
    ensures var rs2, f7 := 2 * (off / 2 % 16) + off / 0x800 % 2, off / 32 % 64 + (if off < 0 then 64 else 0);
      2 * (rs2 / 2) + 0x20 * (f7 % 64) + 0x800 * (rs2 % 2) + 0x1000 * (off / 0x1000 % 8 + 8 * (off / 0x8000 % 32))
      - 0x10_0000 * (f7 / 64) == off
  {
    JDigits(off);
    NegativeResidue(off, 0x10_0000);
    JSum(off, off / 2 % 16, off / 32 % 64, off / 0x800 % 2, off / 0x1000 % 8, off / 0x8000 % 32);
  }

  lemma NegativeResidue(off: int, m: int)
    requires -m <= off < m
    ensures off % m == if off < 0 then off + m else off
  {
    DivisionUnique(off, m, if off < 0 then -1 else 0, if off < 0 then off + m else off);
  }

  lemma JDigits(off: int)
    requires off % 2 == 0
    ensures off % 0x10_0000 == 2 * (off / 2 % 16) + 32 * (off / 32 % 64) + 0x800 * (off / 0x800 % 2)
                               + 0x1000 * (off / 0x1000 % 8) + 0x8000 * (off / 0x8000 % 32)
  {
    LowDigits(off);
    assert off % 0x8000 == off % 0x1000 + 0x1000 * (off / 0x1000 % 8) by { SplitModulus(off, 0x1000, 8); }
    assert off % 0x10_0000 == off % 0x8000 + 0x8000 * (off / 0x8000 % 32) by { SplitModulus(off, 0x8000, 32); }
  }

  lemma JSum(off: int, low: int, middle: int, bit11: int, f3: int, rs1: int)
    requires (if off < 0 then off + 0x10_0000 else off) ==
      2 * low + 32 * middle + 0x800 * bit11 + 0x1000 * f3 + 0x8000 * rs1
    requires 0 <= middle < 64 && 0 <= bit11 < 2
    ensures var rs2, f7 := 2 * low + bit11, middle + (if off < 0 then 64 else 0);
      2 * (rs2 / 2) + 0x20 * (f7 % 64) + 0x800 * (rs2 % 2) + 0x1000 * (f3 + 8 * rs1) - 0x10_0000 * (f7 / 64) == off
  {
    Pieces(low, bit11, middle, off < 0);
  }

  // Taking a packed register field and a packed top field apart again.
  lemma Pieces(high: int, low: int, middle: int, negative: bool)
    requires 0 <= low < 2 && 0 <= middle < 64
    ensures (2 * high + low) / 2 == high && (2 * high + low) % 2 == low
    ensures var f7 := middle + (if negative then 64 else 0);
      f7 % 64 == middle && f7 / 64 == if negative then 1 else 0
  {
  }

  lemma UFieldsValue(imm: int)
    requires 0 <= imm < 0x1_0000_0000 && imm % 0x1000 == 0
    ensures var f := UFields(0, 0, imm);
      0x1000 * (f.funct3 + 8 * f.rs1 + 0x100 * f.rs2 + 0x2000 * f.funct7) == imm
  {
    UDigits(imm / 0x1000);
  }

  lemma UDigits(u: int)
    requires 0 <= u < 0x10_0000
    ensures u % 8 + 8 * (u / 8 % 32) + 0x100 * (u / 0x100 % 32) + 0x2000 * (u / 0x2000 % 128) == u
  {
    assert u % 0x100 == u % 8 + 8 * (u / 8 % 32) by { SplitModulus(u, 8, 32); }
    assert u % 0x2000 == u % 0x100 + 0x100 * (u / 0x100 % 32) by { SplitModulus(u, 0x100, 32); }
    assert u % 0x10_0000 == u % 0x2000 + 0x2000 * (u / 0x2000 % 128) by { SplitModulus(u, 0x2000, 128); }
  }

  lemma LuiRoundTrip(rd: Reg, imm: int)
    requires WellFormed(Lui(rd, imm))
    ensures Decode(Encode(Lui(rd, imm))) == Legal(Lui(rd, imm))
  {
    hide Encode, Join, Split, ImmI, ImmS, ImmB, ImmU, ImmJ;
    EncodedFields(Lui(rd, imm));
    ImmUFields(Encode(Lui(rd, imm)));
    UFieldsValue(imm);
  }

  lemma AuipcRoundTrip(rd: Reg, imm: int)
    requires WellFormed(Auipc(rd, imm))
    ensures Decode(Encode(Auipc(rd, imm))) == Legal(Auipc(rd, imm))
  {
    hide Encode, Join, Split, ImmI, ImmS, ImmB, ImmU, ImmJ;
    EncodedFields(Auipc(rd, imm));
    ImmUFields(Encode(Auipc(rd, imm)));
    UFieldsValue(imm);
  }

  lemma JalRoundTrip(rd: Reg, off: int)
    requires WellFormed(Jal(rd, off))
    ensures Decode(Encode(Jal(rd, off))) == Legal(Jal(rd, off))
  {
    hide Encode, Join, Split, ImmI, ImmS, ImmB, ImmU, ImmJ;
    EncodedFields(Jal(rd, off));
    ImmJFields(Encode(Jal(rd, off)));
    JFieldsValue(off);
    DecodeJal(Encode(Jal(rd, off)));
  }

  lemma DecodeJal(w: Word)
    requires Split(w).opcode == 0x6F
    ensures Decode(w) == Legal(Jal(Split(w).rd, ImmJ(w)))
  {
    hide Split, ImmI, ImmS, ImmB, ImmU, ImmJ;
  }

  lemma JalrRoundTrip(rd: Reg, rs1: Reg, off: int)
    requires WellFormed(Jalr(rd, rs1, off))
    ensures Decode(Encode(Jalr(rd, rs1, off))) == Legal(Jalr(rd, rs1, off))
  {
    hide Encode, Join, Split, ImmI, ImmS, ImmB, ImmU, ImmJ;
    EncodedFields(Jalr(rd, rs1, off));
    ImmIFields(Encode(Jalr(rd, rs1, off)));
    IFieldsValue(off);
  }

  lemma BranchRoundTrip(cond: Cond, rs1: Reg, rs2: Reg, off: int)
    requires WellFormed(Branch(cond, rs1, rs2, off))
    ensures Decode(Encode(Branch(cond, rs1, rs2, off))) == Legal(Branch(cond, rs1, rs2, off))
  {
    hide Encode, Join, Split, ImmI, ImmS, ImmB, ImmU, ImmJ;
    EncodedFields(Branch(cond, rs1, rs2, off));
    ImmBFields(Encode(Branch(cond, rs1, rs2, off)));
    BFieldsValue(off);
    DecodeBranch(Encode(Branch(cond, rs1, rs2, off)), cond);
  }

  lemma DecodeBranch(w: Word, cond: Cond)
    requires Split(w).opcode == 0x63 && Split(w).funct3 == CondCode(cond)
    ensures Decode(w) == Legal(Branch(cond, Split(w).rs1, Split(w).rs2, ImmB(w)))
  {
    hide Split, ImmI, ImmS, ImmB, ImmU, ImmJ;
  }

  lemma LoadRoundTrip(width: Width, signed: bool, rd: Reg, rs1: Reg, off: int)
    requires WellFormed(Load(width, signed, rd, rs1, off))
    ensures Decode(Encode(Load(width, signed, rd, rs1, off))) == Legal(Load(width, signed, rd, rs1, off))
  {
    hide Encode, Join, Split, ImmI, ImmS, ImmB, ImmU, ImmJ;
    EncodedFields(Load(width, signed, rd, rs1, off));
    ImmIFields(Encode(Load(width, signed, rd, rs1, off)));
    IFieldsValue(off);
  }

  lemma StoreRoundTrip(width: Width, rs1: Reg, rs2: Reg, off: int)
    requires WellFormed(Store(width, rs1, rs2, off))
    ensures Decode(Encode(Store(width, rs1, rs2, off))) == Legal(Store(width, rs1, rs2, off))
  {
    hide Encode, Join, Split, ImmI, ImmS, ImmB, ImmU, ImmJ;
    EncodedFields(Store(width, rs1, rs2, off));
    ImmSFields(Encode(Store(width, rs1, rs2, off)));
    IFieldsValue(off);
  }

  lemma OpImmRoundTrip(op: AluOp, rd: Reg, rs1: Reg, imm: int)
    requires WellFormed(OpImm(op, rd, rs1, imm))
    ensures Decode(Encode(OpImm(op, rd, rs1, imm))) == Legal(OpImm(op, rd, rs1, imm))
  {
    hide Encode, Join, Split, ImmI, ImmS, ImmB, ImmU, ImmJ;
    EncodedFields(OpImm(op, rd, rs1, imm));
    ImmIFields(Encode(OpImm(op, rd, rs1, imm)));
    IFieldsValue(imm);
    DecodeOpImm(Encode(OpImm(op, rd, rs1, imm)), op);
  }

  lemma DecodeOpImm(w: Word, op: AluOp)
    requires var f := Split(w);
      && f.opcode == 0x13 && f.funct3 == AluCode(op) && op != Sub
      && (op in {Sll, Srl, Sra} ==> f.funct7 == if op == Sra then 0x20 else 0)
    ensures var f := Split(w);
      Decode(w) == Legal(OpImm(op, f.rd, f.rs1, if op in {Sll, Srl, Sra} then f.rs2 else ImmI(w)))
  {
    hide Split, ImmI, ImmS, ImmB, ImmU, ImmJ;
  }

  lemma OpRoundTrip(op: AluOp, rd: Reg, rs1: Reg, rs2: Reg)
    ensures Decode(Encode(Op(op, rd, rs1, rs2))) == Legal(Op(op, rd, rs1, rs2))
  {
    hide Encode, Join, Split, ImmI, ImmS, ImmB, ImmU, ImmJ;
    EncodedFields(Op(op, rd, rs1, rs2));
    DecodeOp(Encode(Op(op, rd, rs1, rs2)), op);
  }

  lemma DecodeOp(w: Word, op: AluOp)
    requires var f := Split(w);
      f.opcode == 0x33 && f.funct3 == AluCode(op) && f.funct7 == if op == Sub || op == Sra then 0x20 else 0
    ensures var f := Split(w); Decode(w) == Legal(Op(op, f.rd, f.rs1, f.rs2))
  {
    hide Split, ImmI, ImmS, ImmB, ImmU, ImmJ;
  }

  lemma FixedWords()
    ensures Encode(Fence) == 0x0F && Encode(Ecall) == 0x73 && Encode(Ebreak) == 0x10_0073
  {
  }

  lemma FixedDecode()
    ensures Decode(0x0F) == Legal(Fence) && Decode(0x73) == Legal(Ecall) && Decode(0x10_0073) == Legal(Ebreak)
  {
    assert Split(0x0F) == Fields(0x0F, 0, 0, 0, 0, 0);
    assert Split(0x73) == Fields(0x73, 0, 0, 0, 0, 0) && Split(0x10_0073) == Fields(0x73, 0, 0, 0, 1, 0);
    hide Split, ImmI, ImmS, ImmB, ImmU, ImmJ;
  }

  lemma FixedRoundTrip()
    ensures Decode(Encode(Fence)) == Legal(Fence)
    ensures Decode(Encode(Ecall)) == Legal(Ecall)
    ensures Decode(Encode(Ebreak)) == Legal(Ebreak)
  {
    hide *;
    FixedWords();
    FixedDecode();
  }

  // Assembling a well-formed instruction and decoding the word gives it back: in
  // particular every even offset in [-4096, 4094] and [-2^20, 2^20 - 2].
  lemma DecodeOfEncode(i: Instr)
    requires WellFormed(i)
    ensures Decode(Encode(i)) == Legal(i)
  {
    hide Encode, Decode;
    match i {
      case Lui(rd, imm) => LuiRoundTrip(rd, imm);
      case Auipc(rd, imm) => AuipcRoundTrip(rd, imm);
      case Jal(rd, off) => JalRoundTrip(rd, off);
      case Jalr(rd, rs1, off) => JalrRoundTrip(rd, rs1, off);
      case Branch(cond, rs1, rs2, off) => BranchRoundTrip(cond, rs1, rs2, off);
      case Load(width, signed, rd, rs1, off) => LoadRoundTrip(width, signed, rd, rs1, off);
      case Store(width, rs1, rs2, off) => StoreRoundTrip(width, rs1, rs2, off);
      case OpImm(op, rd, rs1, imm) => OpImmRoundTrip(op, rd, rs1, imm);
      case Op(op, rd, rs1, rs2) => OpRoundTrip(op, rd, rs1, rs2);
      case _ => FixedRoundTrip();
    }
  }

  // ---------------------------------------------------------------- reassembling

  lemma IFieldsBack(low: int, f7: int)
    requires 0 <= low < 32 && 0 <= f7 < 128
    ensures var imm := low + 32 * f7 - 0x1000 * (f7 / 64);
      -0x800 <= imm < 0x800 && imm % 32 == low && imm / 32 % 128 == f7
  {
    var imm := low + 32 * f7 - 0x1000 * (f7 / 64);
    DivisionUnique(imm, 32, f7 - 128 * (f7 / 64), low);
    NegativeResidue(f7 - 128 * (f7 / 64), 128);
  }

  // The digits of an even offset with the given low parts and the given rest.
  lemma OffsetDigits(low: int, middle: int, bit11: int, rest: int)
    requires 0 <= low < 16 && 0 <= middle < 64 && 0 <= bit11 < 2
    ensures var off := 2 * low + 32 * middle + 0x800 * bit11 + 0x1000 * rest;
      && off % 2 == 0 && off / 2 % 16 == low && off / 32 % 64 == middle && off / 0x800 % 2 == bit11
      && off / 0x1000 == rest && (off < 0 <==> rest < 0)
  {
    var off := 2 * low + 32 * middle + 0x800 * bit11 + 0x1000 * rest;
    DivisionUnique(off, 2, low + 16 * middle + 0x400 * bit11 + 0x800 * rest, 0);
    DivisionUnique(off / 2, 16, middle + 64 * bit11 + 128 * rest, low);
    DivisionUnique(off, 32, middle + 64 * bit11 + 128 * rest, 2 * low);
    DivisionUnique(off / 32, 64, bit11 + 2 * rest, middle);
    DivisionUnique(off, 0x800, bit11 + 2 * rest, 2 * low + 32 * middle);
    DivisionUnique(off / 0x800, 2, rest, bit11);
    DivisionUnique(off, 0x1000, rest, 2 * low + 32 * middle + 0x800 * bit11);
  }

  lemma BFieldsBack(rd: int, f7: int)
    requires 0 <= rd < 32 && 0 <= f7 < 128
    ensures var off := 2 * (rd / 2) + 0x800 * (rd % 2) + 0x20 * (f7 % 64) - 0x1000 * (f7 / 64);
      && -0x1000 <= off < 0x1000 && off % 2 == 0
      && 2 * (off / 2 % 16) + off / 0x800 % 2 == rd
      && off / 32 % 64 + (if off < 0 then 64 else 0) == f7
  {
    OffsetDigits(rd / 2, f7 % 64, rd % 2, -(f7 / 64));
  }

  lemma JFieldsBack(f3: int, rs1: int, rs2: int, f7: int, off: int)
    requires 0 <= f3 < 8 && 0 <= rs1 < 32 && 0 <= rs2 < 32 && 0 <= f7 < 128
    requires off ==
      2 * (rs2 / 2) + 0x20 * (f7 % 64) + 0x800 * (rs2 % 2) + 0x1000 * (f3 + 8 * rs1) - 0x10_0000 * (f7 / 64)
    ensures -0x10_0000 <= off < 0x10_0000 && off % 2 == 0
    ensures off / 0x1000 % 8 == f3 && off / 0x8000 % 32 == rs1
    ensures 2 * (off / 2 % 16) + off / 0x800 % 2 == rs2
    ensures off / 32 % 64 + (if off < 0 then 64 else 0) == f7
  {
    var high := rs1 - 32 * (f7 / 64);
    var rest := f3 + 8 * high;
    OffsetDigits(rs2 / 2, f7 % 64, rs2 % 2, rest);
    DivisionUnique(rest, 8, high, f3);
    NegativeResidue(high, 32);
    assert off / 0x8000 == high by { SplitModulus(off, 0x1000, 8); }
  }

  lemma UDigitsBack(f3: int, rs1: int, rs2: int, f7: int, u: int)
    requires 0 <= f3 < 8 && 0 <= rs1 < 32 && 0 <= rs2 < 32 && 0 <= f7 < 128
    requires u == f3 + 8 * rs1 + 0x100 * rs2 + 0x2000 * f7
    ensures 0 <= u < 0x10_0000 && u % 8 == f3 && u / 8 % 32 == rs1 && u / 0x100 % 32 == rs2 && u / 0x2000 % 128 == f7
  {
    assert u % 8 == f3 && u / 8 == rs1 + 32 * (rs2 + 32 * f7) by {
      DivisionUnique(u, 8, rs1 + 32 * (rs2 + 32 * f7), f3);
    }
    assert u / 8 % 32 == rs1 by { DivisionUnique(u / 8, 32, rs2 + 32 * f7, rs1); }
    assert u / 0x100 == rs2 + 32 * f7 by { DivisionUnique(u, 0x100, rs2 + 32 * f7, f3 + 8 * rs1); }
    assert u / 0x100 % 32 == rs2 by { DivisionUnique(u / 0x100, 32, f7, rs2); }
    assert u / 0x2000 == f7 by { DivisionUnique(u, 0x2000, f7, f3 + 8 * rs1 + 0x100 * rs2); }
  }

  lemma UFieldsBack(f3: int, rs1: int, rs2: int, f7: int, imm: int)
    requires 0 <= f3 < 8 && 0 <= rs1 < 32 && 0 <= rs2 < 32 && 0 <= f7 < 128
    requires imm == 0x1000 * (f3 + 8 * rs1 + 0x100 * rs2 + 0x2000 * f7)
    ensures 0 <= imm < 0x1_0000_0000 && imm % 0x1000 == 0
    ensures forall opcode: int, rd: Reg :: UFields(opcode, rd, imm) == Fields(opcode, rd, f3, rs1, rs2, f7)
  {
    var u := f3 + 8 * rs1 + 0x100 * rs2 + 0x2000 * f7;
    DivisionUnique(imm, 0x1000, u, 0);
    UDigitsBack(f3, rs1, rs2, f7, u);
  }

  ghost predicate Restores(w: Word) {
    Decode(w).Legal? && Decode(w).i != Fence ==>
      WellFormed(Decode(w).i) && EncodeFields(Decode(w).i) == Split(w)
  }

  // Every legal word other than a fence is well-formed and reassembles to itself:
  // no bit is ignored, and every immediate is in its format's range.
  lemma EncodeOfDecode(w: Word)
    requires Decode(w).Legal?
    ensures WellFormed(Decode(w).i) && Encode(Decode(w).i) == if Decode(w).i == Fence then 0x0F else w
  {
    JoinSplit(w);
    FixedWords();
    var opcode := Split(w).opcode;
    assert Restores(w) by {
      if opcode in {0x37, 0x17} {
        UpperBack(w);
      } else if opcode == 0x6F {
        JalBack(w);
      } else if opcode == 0x63 {
        BranchBack(w);
      } else if opcode in {0x67, 0x03, 0x23} {
        AccessBack(w);
      } else if opcode == 0x13 {
        OpImmBack(w);
      } else {
        PlainBack(w);
      }
      hide Restores;
    }
    hide Split, Join, Decode, WellFormed, EncodeFields;
  }

  lemma UpperBack(w: Word)
    requires Split(w).opcode in {0x37, 0x17}
    ensures Restores(w)
  {
    var f := Split(w);
    assert 0 <= f.funct3 < 8 && 0 <= f.funct7 < 128;
    hide Split, ImmU, UFields;
    ImmUFields(w);
    UFieldsBack(f.funct3, f.rs1, f.rs2, f.funct7, ImmU(w));
  }

  lemma JalBack(w: Word)
    requires Split(w).opcode == 0x6F
    ensures Restores(w)
  {
    var f := Split(w);
    assert 0 <= f.funct3 < 8 && 0 <= f.funct7 < 128;
    hide Split, ImmJ;
    ImmJFields(w);
    JFieldsBack(f.funct3, f.rs1, f.rs2, f.funct7, ImmJ(w));
  }

  lemma BranchBack(w: Word)
    requires Split(w).opcode == 0x63
    ensures Restores(w)
  {
    var f := Split(w);
    assert 0 <= f.funct7 < 128;
    hide Split, ImmB;
    ImmBFields(w);
    BFieldsBack(f.rd, f.funct7);
  }

  lemma AccessBack(w: Word)
    requires Split(w).opcode in {0x67, 0x03, 0x23}
    ensures Restores(w)
  {
    var f := Split(w);
    assert 0 <= f.funct7 < 128;
    hide Split, ImmI, ImmS;
    ImmIFields(w);
    ImmSFields(w);
    IFieldsBack(f.rs2, f.funct7);
    IFieldsBack(f.rd, f.funct7);
  }

  lemma OpImmBack(w: Word)
    requires Split(w).opcode == 0x13
    ensures Restores(w)
  {
    var f := Split(w);
    assert 0 <= f.funct3 < 8 && 0 <= f.funct7 < 128;
    hide Split, ImmI;
    if f.funct3 == 1 || f.funct3 == 5 {
      IFieldsValue(f.rs2);
    } else {
      ImmIFields(w);
      IFieldsBack(f.rs2, f.funct7);
    }
  }

  lemma PlainBack(w: Word)
    requires Split(w).opcode !in {0x37, 0x17, 0x6F, 0x63, 0x67, 0x03, 0x23, 0x13}
    ensures Restores(w)
  {
    assert Split(0x73) == Fields(0x73, 0, 0, 0, 0, 0) && Split(0x10_0073) == Fields(0x73, 0, 0, 0, 1, 0);
    assert 0 <= Split(w).funct3 < 8;
    hide Split;
  }

  lemma JoinSplit(w: Word)
    ensures Join(Split(w)) == w
  {
    SplitModulus(w, 0x80, 0x20);
    SplitModulus(w, 0x1000, 8);
    SplitModulus(w, 0x8000, 0x20);
    SplitModulus(w, 0x10_0000, 0x20);
    assert w % 0x1000 == w % 0x80 + 0x80 * (w / 0x80 % 0x20);
    assert w % 0x8000 == w % 0x1000 + 0x1000 * (w / 0x1000 % 8);
    assert w % 0x10_0000 == w % 0x8000 + 0x8000 * (w / 0x8000 % 0x20);
    assert w % 0x200_0000 == w % 0x10_0000 + 0x10_0000 * (w / 0x10_0000 % 0x20);
  }
}
