/** The nested dispatch of RV32I::exec against the opcode listing: which words
    reach which handler, with which operands. */
module Decode {
  import opened Words
  import F = InstFmt
  import opened RV32I
  import Isa
  import Encoding

  // ---------------------------------------------------------------- fields

  lemma ShamtParts(w: Word)
    ensures F.Shamt(w) == F.Rs2(w) + 32 * (F.Funct7(w) % 2)
    ensures F.IField(w) == F.Rs2(w) + 32 * F.Funct7(w)
  {
    SplitModulus(w / 0x10_0000, 32, 2);
    SplitModulus(w, 0x10_0000, 32);
  }

  // ---------------------------------------------------------------- immediates

  lemma ImmIAgrees(w: Word)
    ensures Signed(F.ImmI(w)) == Isa.ImmI(w)
  {
    assert Pow2(11) == 0x800 by { Pow2Values(); }
    assert F.IField(w) < 0x1000;
  }

  lemma ImmSAgrees(w: Word)
    ensures Signed(F.ImmS(w)) == Isa.ImmS(w)
  {
    assert Pow2(11) == 0x800 by { Pow2Values(); }
    assert F.SField(w) < 0x1000;
    assert Isa.ImmS(w) == w / 0x80 % 32 + 32 * (Signed(w) / 0x200_0000);
  }

  lemma BHalfValue(w: Word)
    ensures Isa.ImmB(w) == 2 * F.BHalf(w) - (if w >= 0x8000_0000 then 0x2000 else 0)
  {
  }

  lemma JHalfValue(w: Word)
    ensures Isa.ImmJ(w) == 2 * F.JHalf(w) - (if w >= 0x8000_0000 then 0x20_0000 else 0)
  {
    var low, bit11, high, sign := w / 0x20_0000 % 1024, w / 0x10_0000 % 2, w / 0x1000 % 256, w / 0x8000_0000;
    assert sign == if w >= 0x8000_0000 then 1 else 0;
    assert F.JHalf(w) == low + 1024 * bit11 + 2048 * high + 0x8_0000 * sign;
    assert Isa.ImmJ(w) == -0x10_0000 * sign + 0x1000 * high + 0x800 * bit11 + 2 * low;
  }

  lemma ImmBAgrees(w: Word)
    ensures Signed(F.ImmB(w)) == Isa.ImmB(w)
  {
    BHalfValue(w);
    hide F.BHalf, Isa.ImmB;
    assert Pow2(12) == 0x1000 by { Pow2Values(); }
  }

  lemma ImmJAgrees(w: Word)
    ensures Signed(F.ImmJ(w)) == Isa.ImmJ(w)
  {
    JHalfValue(w);
    hide F.JHalf, Isa.ImmJ;
    assert Pow2(20) == 0x10_0000 by { Pow2Values(); }
  }

  // ---------------------------------------------------------------- dispatch

  // The words `exec` runs a handler for without an immediate refusal.
  predicate Accepted(w: Word) {
    IsValid(w) && Dispatch(w) != NOTHING && !(Dispatch(w) in {SLLI, SRLI, SRAI} && F.Shamt(w) >= 32)
  }

  // The accepted words outside the RV32I listing.
  predicate Extra(w: Word) {
    var f := Isa.Split(w);
    || (f.opcode == 0x0F && f.funct3 == 1)                                              // fence.i
    || (f.opcode == 0x67 && f.funct3 != 0)                                              // jalr
    || (f.opcode == 0x33 && f.funct3 in {1, 2, 3, 4, 6, 7} && f.funct7 != 0)            // sll slt sltu xor or and
    || (f.opcode == 0x13 && f.funct3 == 1 && f.funct7 != 0 && f.funct7 % 2 == 0)        // slli
    || (f.opcode == 0x73 && f.funct3 == 0 && f.rs2 <= 1 && f.funct7 == 0 && (f.rd != 0 || f.rs1 != 0))
  }

  // The listed instruction a handler implements, with the operands it extracts.
  // (For ori the listed immediate, which is not the field the handler uses.)
  function Reading(op: Op, w: Word): (r: Isa.Decoded)
    ensures r.Legal? <==> op != NOTHING && op != FENCEI
  {
    var rd, rs1, rs2, immI := F.Rd(w), F.Rs1(w), F.Rs2(w), Signed(F.ImmI(w));
    var immS, immB := Signed(F.ImmS(w)), Signed(F.ImmB(w));
    match op
    case LB => Isa.Legal(Isa.Load(Isa.B, true, rd, rs1, immI))
    case LH => Isa.Legal(Isa.Load(Isa.H, true, rd, rs1, immI))
    case LW => Isa.Legal(Isa.Load(Isa.W, true, rd, rs1, immI))
    case LBU => Isa.Legal(Isa.Load(Isa.B, false, rd, rs1, immI))
    case LHU => Isa.Legal(Isa.Load(Isa.H, false, rd, rs1, immI))
    case SB => Isa.Legal(Isa.Store(Isa.B, rs1, rs2, immS))
    case SH => Isa.Legal(Isa.Store(Isa.H, rs1, rs2, immS))
    case SW => Isa.Legal(Isa.Store(Isa.W, rs1, rs2, immS))
    case ADDI => Isa.Legal(Isa.OpImm(Isa.Add, rd, rs1, immI))
    case SLTI => Isa.Legal(Isa.OpImm(Isa.Slt, rd, rs1, immI))
    case SLTIU => Isa.Legal(Isa.OpImm(Isa.Sltu, rd, rs1, immI))
    case XORI => Isa.Legal(Isa.OpImm(Isa.Xor, rd, rs1, immI))
    case ORI => Isa.Legal(Isa.OpImm(Isa.Or, rd, rs1, immI))
    case ANDI => Isa.Legal(Isa.OpImm(Isa.And, rd, rs1, immI))
    case SLLI => Isa.Legal(Isa.OpImm(Isa.Sll, rd, rs1, F.Shamt(w)))
    case SRLI => Isa.Legal(Isa.OpImm(Isa.Srl, rd, rs1, F.Shamt(w)))
    case SRAI => Isa.Legal(Isa.OpImm(Isa.Sra, rd, rs1, F.Shamt(w)))
    case AUIPC => Isa.Legal(Isa.Auipc(rd, F.ImmU(w)))
    case LUI => Isa.Legal(Isa.Lui(rd, F.ImmU(w)))
    case ADD => Isa.Legal(Isa.Op(Isa.Add, rd, rs1, rs2))
    case SUB => Isa.Legal(Isa.Op(Isa.Sub, rd, rs1, rs2))
    case SLL => Isa.Legal(Isa.Op(Isa.Sll, rd, rs1, rs2))
    case SLT => Isa.Legal(Isa.Op(Isa.Slt, rd, rs1, rs2))
    case SLTU => Isa.Legal(Isa.Op(Isa.Sltu, rd, rs1, rs2))
    case XOR => Isa.Legal(Isa.Op(Isa.Xor, rd, rs1, rs2))
    case SRL => Isa.Legal(Isa.Op(Isa.Srl, rd, rs1, rs2))
    case SRA => Isa.Legal(Isa.Op(Isa.Sra, rd, rs1, rs2))
    case OR => Isa.Legal(Isa.Op(Isa.Or, rd, rs1, rs2))
    case AND => Isa.Legal(Isa.Op(Isa.And, rd, rs1, rs2))
    case BEQ => Isa.Legal(Isa.Branch(Isa.Eq, rs1, rs2, immB))
    case BNE => Isa.Legal(Isa.Branch(Isa.Ne, rs1, rs2, immB))
    case BLT => Isa.Legal(Isa.Branch(Isa.Lt, rs1, rs2, immB))
    case BGE => Isa.Legal(Isa.Branch(Isa.Ge, rs1, rs2, immB))
    case BLTU => Isa.Legal(Isa.Branch(Isa.Ltu, rs1, rs2, immB))
    case BGEU => Isa.Legal(Isa.Branch(Isa.Geu, rs1, rs2, immB))
    case JAL => Isa.Legal(Isa.Jal(rd, Signed(F.ImmJ(w))))
    case JALR => Isa.Legal(Isa.Jalr(rd, rs1, immI))
    case FENCE => Isa.Legal(Isa.Fence)
    case ECALL => Isa.Legal(Isa.Ecall)
    case EBREAK => Isa.Legal(Isa.Ebreak)
    case FENCEI => Isa.IllegalWord
    case NOTHING => Isa.IllegalWord
  }

  lemma SystemWords(w: Word)
    ensures w == 0x73 <==> F.Opcode(w) == 0x73 && F.Rd(w) == 0 && F.Funct3(w) == 0 && F.Rs1(w) == 0 && F.IField(w) == 0
    ensures w == 0x10_0073 <==>
      F.Opcode(w) == 0x73 && F.Rd(w) == 0 && F.Funct3(w) == 0 && F.Rs1(w) == 0 && F.IField(w) == 1
  {
    assert w == F.Opcode(w) + 0x80 * F.Rd(w) + 0x1000 * F.Funct3(w) + 0x8000 * F.Rs1(w) + 0x10_0000 * F.IField(w) by {
      Encoding.JoinSplit(w);
      ShamtParts(w);
    }
    if w == 0x73 || w == 0x10_0073 {
    } else {
      hide F.Opcode, F.Rd, F.Funct3, F.Rs1, F.IField;
    }
  }

  ghost predicate Exact(w: Word) {
    && (Accepted(w) <==> Isa.Decode(w).Legal? || Extra(w))
    && (Isa.Decode(w).Legal? ==> Isa.Decode(w) == Reading(Dispatch(w), w))
    && !(Isa.Decode(w).Legal? && Extra(w))
  }

  // Every listed word reaches its own handler with its own operands, and the words
  // accepted beyond the listing are exactly the extra ones.
  lemma ExactDecode(w: Word)
    ensures Accepted(w) <==> Isa.Decode(w).Legal? || Extra(w)
    ensures Isa.Decode(w).Legal? ==> Isa.Decode(w) == Reading(Dispatch(w), w)
    ensures !(Isa.Decode(w).Legal? && Extra(w))
  {
    hide Accepted, Extra, Isa.Decode, Reading, Dispatch, IsValid, F.Opcode;
    var opcode := F.Opcode(w);
    if opcode in {0x03, 0x23, 0x0F} {
      ExactMemory(w);
    } else if opcode in {0x13} {
      ExactImmediate(w);
    } else if opcode in {0x33} {
      ExactRegister(w);
    } else if opcode in {0x63, 0x67, 0x6F, 0x37, 0x17} {
      ExactTransfer(w);
    } else if opcode in {0x73} {
      ExactSystem(w);
    } else {
      ExactElsewhere(w);
    }
  }

  // The fields both decoders read, and how the two divide them up.
  lemma FieldFacts(w: Word)
    ensures F.Opcode(w) == F.Aa(w) + 4 * F.Bbb(w) + 32 * F.Cc(w)
    ensures 0 <= F.Aa(w) < 4 && 0 <= F.Bbb(w) < 8 && 0 <= F.Cc(w) < 4 && 0 <= F.Funct3(w) < 8 && 0 <= F.Funct7(w) < 128
    ensures Isa.Split(w) == Isa.Fields(F.Opcode(w), F.Rd(w), F.Funct3(w), F.Rs1(w), F.Rs2(w), F.Funct7(w))
    ensures F.Shamt(w) == F.Rs2(w) + 32 * (F.Funct7(w) % 2)
    ensures F.IField(w) == F.Rs2(w) + 32 * F.Funct7(w)
  {
    F.OpcodeParts(w);
    ShamtParts(w);
  }

  lemma ExactMemory(w: Word)
    requires F.Opcode(w) in {0x03, 0x23, 0x0F}
    ensures Exact(w)
  {
    FieldFacts(w);
    ImmIAgrees(w);
    ImmSAgrees(w);
    hide Isa.Split, F.Opcode, F.Rd, F.Funct3, F.Rs1, F.Rs2, F.Funct7, F.Aa, F.Bbb, F.Cc, F.Shamt, F.IField;
    hide F.ImmI, F.ImmS, F.ImmB, F.ImmJ, Isa.ImmI, Isa.ImmS, Isa.ImmB, Isa.ImmJ;
  }

  lemma ExactImmediate(w: Word)
    requires F.Opcode(w) in {0x13}
    ensures Exact(w)
  {
    FieldFacts(w);
    ImmIAgrees(w);
    hide Isa.Split, F.Opcode, F.Rd, F.Funct3, F.Rs1, F.Rs2, F.Funct7, F.Aa, F.Bbb, F.Cc, F.Shamt, F.IField;
    hide F.ImmI, F.ImmS, F.ImmB, F.ImmJ, Isa.ImmI, Isa.ImmS, Isa.ImmB, Isa.ImmJ;
  }

  lemma ExactRegister(w: Word)
    requires F.Opcode(w) in {0x33}
    ensures Exact(w)
  {
    FieldFacts(w);
    hide Isa.Split, F.Opcode, F.Rd, F.Funct3, F.Rs1, F.Rs2, F.Funct7, F.Aa, F.Bbb, F.Cc, F.Shamt, F.IField;
    hide F.ImmI, F.ImmS, F.ImmB, F.ImmJ, Isa.ImmI, Isa.ImmS, Isa.ImmB, Isa.ImmJ;
  }

  lemma ExactTransfer(w: Word)
    requires F.Opcode(w) in {0x63, 0x67, 0x6F, 0x37, 0x17}
    ensures Exact(w)
  {
    FieldFacts(w);
    ImmIAgrees(w);
    ImmBAgrees(w);
    ImmJAgrees(w);
    hide Isa.Split, F.Opcode, F.Rd, F.Funct3, F.Rs1, F.Rs2, F.Funct7, F.Aa, F.Bbb, F.Cc, F.Shamt, F.IField;
    hide F.ImmI, F.ImmS, F.ImmB, F.ImmJ, Isa.ImmI, Isa.ImmS, Isa.ImmB, Isa.ImmJ;
  }

  lemma ExactSystem(w: Word)
    requires F.Opcode(w) in {0x73}
    ensures Exact(w)
  {
    FieldFacts(w);
    SystemWords(w);
    hide Isa.Split, F.Opcode, F.Rd, F.Funct3, F.Rs1, F.Rs2, F.Funct7, F.Aa, F.Bbb, F.Cc, F.Shamt, F.IField;
    hide F.ImmI, F.ImmS, F.ImmB, F.ImmJ, Isa.ImmI, Isa.ImmS, Isa.ImmB, Isa.ImmJ;
  }

  lemma ExactElsewhere(w: Word)
    requires F.Opcode(w) !in {0x03, 0x23, 0x0F, 0x13, 0x33, 0x63, 0x67, 0x6F, 0x37, 0x17, 0x73}
    ensures Exact(w)
  {
    FieldFacts(w);
    hide Isa.Split, F.Opcode, F.Rd, F.Funct3, F.Rs1, F.Rs2, F.Funct7, F.Aa, F.Bbb, F.Cc, F.Shamt, F.IField;
    hide F.ImmI, F.ImmS, F.ImmB, F.ImmJ, Isa.ImmI, Isa.ImmS, Isa.ImmB, Isa.ImmJ;
  }

  // ---------------------------------------------------------------- beyond the listing

  // The opcodes the base set claims: bits 4:2 neither 010 nor 111, bits 6:5 not 10.
  lemma ClaimedOpcodes(w: Word)
    ensures IsValid(w) <==>
      Isa.Split(w).opcode in
      {0x03, 0x07, 0x0F, 0x13, 0x17, 0x1B, 0x23, 0x27, 0x2F, 0x33, 0x37, 0x3B, 0x63, 0x67, 0x6F, 0x73, 0x77, 0x7B}
  {
    FieldFacts(w);
    hide F.Opcode, F.Aa, F.Bbb, F.Cc;
  }

  // The listed word an extra one, fence.i aside, is taken for: without the bits the
  // dispatch does not look at.
  function TakenFor(w: Word): Isa.Fields {
    var f := Isa.Split(w);
    match f.opcode
    case 0x67 => f.(funct3 := 0)
    case 0x73 => f.(rd := 0, rs1 := 0)
    case _ => f.(funct7 := 0)
  }

  ghost predicate ReadsAs(w: Word) {
    var j := Isa.Join(TakenFor(w));
    0 <= j < 0x1_0000_0000 && Isa.Decode(j).Legal? && Isa.Decode(j) == Reading(Dispatch(w), w)
  }

  // Extra words run the handler of that word with its operands; fence.i its own.
  lemma ExtraIsTakenFor(w: Word)
    requires Extra(w)
    ensures Isa.Split(w).opcode == 0x0F ==> Dispatch(w) == FENCEI
    ensures Isa.Split(w).opcode != 0x0F ==> ReadsAs(w)
  {
    FieldFacts(w);
    hide ReadsAs, Dispatch, Isa.Split;
    match F.Opcode(w) {
      case 0x13 => ExtraShift(w);
      case 0x33 => ExtraRegister(w);
      case 0x67 => ExtraJump(w);
      case 0x73 => ExtraSystem(w);
      case _ => ExtraFence(w);
    }
  }

  lemma ExtraFence(w: Word)
    requires F.Opcode(w) == 0x0F && F.Funct3(w) == 1
    ensures Dispatch(w) == FENCEI
  {
    FieldFacts(w);
    hide F.Opcode, F.Funct3, F.Aa, F.Bbb, F.Cc;
  }

  lemma ExtraShift(w: Word)
    requires F.Opcode(w) == 0x13 && Extra(w)
    ensures ReadsAs(w)
  {
    FieldFacts(w);
    hide Isa.Split, F.Opcode, F.Rd, F.Funct3, F.Rs1, F.Rs2, F.Funct7, F.Aa, F.Bbb, F.Cc, F.Shamt, F.IField;
    hide F.ImmI, F.ImmS, F.ImmB, F.ImmJ, Isa.Join, Isa.ImmI, Isa.ImmS, Isa.ImmB, Isa.ImmJ;
    Encoding.SplitJoin(TakenFor(w));
  }

  lemma ExtraRegister(w: Word)
    requires F.Opcode(w) == 0x33 && Extra(w)
    ensures ReadsAs(w)
  {
    FieldFacts(w);
    hide Isa.Split, F.Opcode, F.Rd, F.Funct3, F.Rs1, F.Rs2, F.Funct7, F.Aa, F.Bbb, F.Cc, F.Shamt, F.IField;
    hide F.ImmI, F.ImmS, F.ImmB, F.ImmJ, Isa.Join, Isa.ImmI, Isa.ImmS, Isa.ImmB, Isa.ImmJ;
    Encoding.SplitJoin(TakenFor(w));
  }

  lemma ExtraJump(w: Word)
    requires F.Opcode(w) == 0x67 && Extra(w)
    ensures ReadsAs(w)
  {
    FieldFacts(w);
    ImmIAgrees(w);
    Encoding.ImmIFields(w);
    hide Isa.Split, F.Opcode, F.Rd, F.Funct3, F.Rs1, F.Rs2, F.Funct7, F.Aa, F.Bbb, F.Cc, F.Shamt, F.IField;
    hide F.ImmI, F.ImmS, F.ImmB, F.ImmJ, Isa.Join, Isa.ImmI, Isa.ImmS, Isa.ImmB, Isa.ImmJ;
    Encoding.SplitJoin(TakenFor(w));
    Encoding.ImmIFields(Isa.Join(TakenFor(w)));
  }

  lemma ExtraSystem(w: Word)
    requires F.Opcode(w) == 0x73 && Extra(w)
    ensures ReadsAs(w)
  {
    FieldFacts(w);
    hide Isa.Split, F.Opcode, F.Rd, F.Funct3, F.Rs1, F.Rs2, F.Funct7, F.Aa, F.Bbb, F.Cc, F.Shamt, F.IField;
    hide F.ImmI, F.ImmS, F.ImmB, F.ImmJ, Isa.Join, Isa.ImmI, Isa.ImmS, Isa.ImmB, Isa.ImmJ;
    Encoding.SplitJoin(TakenFor(w));
    assert Isa.Join(TakenFor(w)) == 0x73 + 0x10_0000 * F.Rs2(w) by { SystemJoin(TakenFor(w)); }
  }

  lemma SystemJoin(f: Isa.Fields)
    requires f.opcode == 0x73 && f.rd == 0 && f.funct3 == 0 && f.rs1 == 0 && f.funct7 == 0
    ensures Isa.Join(f) == 0x73 + 0x10_0000 * f.rs2
  {
  }
}
