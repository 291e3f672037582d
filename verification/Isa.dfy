/** A reference RV32I machine, written from chapter 2 and the opcode listing of
    chapter 24 of the RISC-V Unprivileged ISA, version 20191213: one flat memory,
    x0 constantly zero, instruction addresses multiples of two. It shares only
    word arithmetic with the model of the interpreter. */
module Isa {
  import opened Words

  datatype AluOp = Add | Sub | Sll | Slt | Sltu | Xor | Srl | Sra | Or | And
  datatype Cond = Eq | Ne | Lt | Ge | Ltu | Geu
  datatype Width = B | H | W

  // Immediates and offsets are signed values.
  datatype Instr =
    | Lui(rd: Reg, imm: int)
    | Auipc(rd: Reg, imm: int)
    | Jal(rd: Reg, off: int)
    | Jalr(rd: Reg, rs1: Reg, off: int)
    | Branch(cond: Cond, rs1: Reg, rs2: Reg, off: int)
    | Load(width: Width, signed: bool, rd: Reg, rs1: Reg, off: int)
    | Store(width: Width, rs1: Reg, rs2: Reg, off: int)
    | OpImm(op: AluOp, rd: Reg, rs1: Reg, imm: int)
    | Op(op: AluOp, rd: Reg, rs1: Reg, rs2: Reg)
    | Fence
    | Ecall
    | Ebreak

  datatype Decoded = Legal(i: Instr) | IllegalWord

  // ---------------------------------------------------------------- decoding

  // Figure 2.4: inst[31] is the sign of every immediate.
  function ImmI(w: Word): int { Signed(w) / 0x10_0000 }
  function ImmS(w: Word): int { Signed(w) / 0x200_0000 * 32 + w / 0x80 % 32 }
  function ImmB(w: Word): int {
    -0x1000 * (w / 0x8000_0000) + 0x800 * (w / 0x80 % 2) + 0x20 * (w / 0x200_0000 % 64) + 2 * (w / 0x100 % 16)
  }
  function ImmU(w: Word): int { w / 0x1000 * 0x1000 }
  function ImmJ(w: Word): int {
    -0x10_0000 * (w / 0x8000_0000) + 0x1000 * (w / 0x1000 % 256) + 0x800 * (w / 0x10_0000 % 2)
    + 2 * (w / 0x20_0000 % 1024)
  }

  datatype Fields = Fields(opcode: int, rd: Reg, funct3: int, rs1: Reg, rs2: Reg, funct7: int)

  function Split(w: Word): Fields {
    Fields(w % 128, w / 0x80 % 32, w / 0x1000 % 8, w / 0x8000 % 32, w / 0x10_0000 % 32, w / 0x200_0000)
  }

  function Join(f: Fields): int {
    f.opcode + 0x80 * f.rd + 0x1000 * f.funct3 + 0x8000 * f.rs1 + 0x10_0000 * f.rs2 + 0x200_0000 * f.funct7
  }

  function Alu3(funct3: int, alternate: bool): AluOp {
    match funct3
    case 0 => if alternate then Sub else Add
    case 1 => Sll
    case 2 => Slt
    case 3 => Sltu
    case 4 => Xor
    case 5 => if alternate then Sra else Srl
    case 6 => Or
    case _ => And
  }

  function Decode(w: Word): Decoded {
    var f := Split(w);
    match f.opcode
    case 0x37 => Legal(Lui(f.rd, ImmU(w)))
    case 0x17 => Legal(Auipc(f.rd, ImmU(w)))
    case 0x6F => Legal(Jal(f.rd, ImmJ(w)))
    case 0x67 => if f.funct3 == 0 then Legal(Jalr(f.rd, f.rs1, ImmI(w))) else IllegalWord
    case 0x63 =>
      (match f.funct3
       case 0 => Legal(Branch(Eq, f.rs1, f.rs2, ImmB(w)))
       case 1 => Legal(Branch(Ne, f.rs1, f.rs2, ImmB(w)))
       case 4 => Legal(Branch(Lt, f.rs1, f.rs2, ImmB(w)))
       case 5 => Legal(Branch(Ge, f.rs1, f.rs2, ImmB(w)))
       case 6 => Legal(Branch(Ltu, f.rs1, f.rs2, ImmB(w)))
       case 7 => Legal(Branch(Geu, f.rs1, f.rs2, ImmB(w)))
       case _ => IllegalWord)
    case 0x03 =>
      (match f.funct3
       case 0 => Legal(Load(B, true, f.rd, f.rs1, ImmI(w)))
       case 1 => Legal(Load(H, true, f.rd, f.rs1, ImmI(w)))
       case 2 => Legal(Load(W, true, f.rd, f.rs1, ImmI(w)))
       case 4 => Legal(Load(B, false, f.rd, f.rs1, ImmI(w)))
       case 5 => Legal(Load(H, false, f.rd, f.rs1, ImmI(w)))
       case _ => IllegalWord)
    case 0x23 =>
      (match f.funct3
       case 0 => Legal(Store(B, f.rs1, f.rs2, ImmS(w)))
       case 1 => Legal(Store(H, f.rs1, f.rs2, ImmS(w)))
       case 2 => Legal(Store(W, f.rs1, f.rs2, ImmS(w)))
       case _ => IllegalWord)
    case 0x13 =>
      if f.funct3 == 1 || f.funct3 == 5 then
        if f.funct7 == 0 || (f.funct3 == 5 && f.funct7 == 0x20) then
          Legal(OpImm(Alu3(f.funct3, f.funct7 == 0x20), f.rd, f.rs1, f.rs2))
        else IllegalWord
      else Legal(OpImm(Alu3(f.funct3, false), f.rd, f.rs1, ImmI(w)))
    case 0x33 =>
      if f.funct7 == 0 || (f.funct7 == 0x20 && (f.funct3 == 0 || f.funct3 == 5)) then
        Legal(Op(Alu3(f.funct3, f.funct7 == 0x20), f.rd, f.rs1, f.rs2))
      else IllegalWord
    case 0x0F => if f.funct3 == 0 then Legal(Fence) else IllegalWord
    case 0x73 => if w == 0x73 then Legal(Ecall) else if w == 0x10_0073 then Legal(Ebreak) else IllegalWord
    case _ => IllegalWord
  }

  // ---------------------------------------------------------------- state

  datatype Machine = Machine(x: seq<Word>, pc: Word, mem: map<Word, Byte>, writable: set<Word>) {
    ghost predicate Valid() {
      |x| == 32 && x[0] == 0
    }

    function Write(rd: Reg, v: Word): Machine
      requires |x| == 32
    {
      if rd == 0 then this else this.(x := x[rd := v])
    }

    function Advance(): Machine {
      this.(pc := Wrap(pc + 4))
    }
  }

  datatype Cause = FetchFault | IllegalInstruction | AccessFault | EnvironmentCall | Breakpoint

  datatype Outcome = Next(m: Machine) | Trap(cause: Cause, m: Machine)

  function Bytes(width: Width): nat {
    match width case B => 1 case H => 2 case W => 4
  }

  // The n addresses from a on, wrapping at the top.
  predicate Covers(domain: set<Word>, a: Word, n: nat)
    decreases n
  {
    n == 0 || (a in domain && Covers(domain, Wrap(a + 1), n - 1))
  }

  // The little-endian value of the n bytes at a.
  function Value(mem: map<Word, Byte>, a: Word, n: nat): nat
    requires Covers(mem.Keys, a, n)
    decreases n
  {
    if n == 0 then 0
    else mem[a] + 256 * Value(mem, Wrap(a + 1), n - 1)
  }

  function Stored(mem: map<Word, Byte>, a: Word, n: nat, v: nat): map<Word, Byte>
    decreases n
  {
    if n == 0 then mem else Stored(mem[a := v % 256], Wrap(a + 1), n - 1, v / 256)
  }

  function SignExtend(v: nat, bits: nat): Word
    requires bits > 0
  {
    Wrap(if v < Pow2(bits - 1) then v else v - Pow2(bits))
  }

  // ---------------------------------------------------------------- execution

  function Alu(op: AluOp, a: Word, b: Word): Word {
    match op
    case Add => Wrap(a + b)
    case Sub => Wrap(a - b)
    case Sll => Wrap(a * Pow2(b % 32))
    case Slt => if Signed(a) < Signed(b) then 1 else 0
    case Sltu => if a < b then 1 else 0
    case Xor => BitsOf(Differ, a, b)
    case Srl => Wrap(a / Pow2(b % 32))
    case Sra => Wrap(Signed(a) / Pow2(b % 32))
    case Or => BitsOf(Disj, a, b)
    case And => BitsOf(Conj, a, b)
  }

  predicate Holds(cond: Cond, a: Word, b: Word) {
    match cond
    case Eq => a == b
    case Ne => a != b
    case Lt => Signed(a) < Signed(b)
    case Ge => Signed(a) >= Signed(b)
    case Ltu => a < b
    case Geu => a >= b
  }

  function LoadFrom(m: Machine, rd: Reg, a: Word, n: nat, signed: bool): Outcome
    requires m.Valid() && n > 0
  {
    if !Covers(m.mem.Keys, a, n) then Trap(AccessFault, m)
    else
      var v := Value(m.mem, a, n);
      Next(m.Write(rd, if signed then SignExtend(v, 8 * n) else Wrap(v)).Advance())
  }

  function StoreTo(m: Machine, a: Word, n: nat, v: Word): Outcome {
    if !Covers(m.writable, a, n) then Trap(AccessFault, m)
    else Next(m.(mem := Stored(m.mem, a, n, v)).Advance())
  }

  function Execute(i: Instr, m: Machine): (o: Outcome)
    requires m.Valid()
    ensures o.m.Valid()
  {
    match i
    case Lui(rd, imm) => Next(m.Write(rd, Wrap(imm)).Advance())
    case Auipc(rd, imm) => Next(m.Write(rd, Wrap(m.pc + imm)).Advance())
    case Jal(rd, off) => Next(m.Write(rd, Wrap(m.pc + 4)).(pc := Wrap(m.pc + off)))
    case Jalr(rd, rs1, off) =>
      var target := Wrap(m.x[rs1] + off);
      Next(m.Write(rd, Wrap(m.pc + 4)).(pc := target - target % 2))
    case Branch(cond, rs1, rs2, off) =>
      Next(if Holds(cond, m.x[rs1], m.x[rs2]) then m.(pc := Wrap(m.pc + off)) else m.Advance())
    case Load(width, signed, rd, rs1, off) => LoadFrom(m, rd, Wrap(m.x[rs1] + off), Bytes(width), signed)
    case Store(width, rs1, rs2, off) => StoreTo(m, Wrap(m.x[rs1] + off), Bytes(width), m.x[rs2])
    case OpImm(op, rd, rs1, imm) => Next(m.Write(rd, Alu(op, m.x[rs1], Wrap(imm))).Advance())
    case Op(op, rd, rs1, rs2) => Next(m.Write(rd, Alu(op, m.x[rs1], m.x[rs2])).Advance())
    case Fence => Next(m.Advance())
    case Ecall => Trap(EnvironmentCall, m)
    case Ebreak => Trap(Breakpoint, m)
  }

  function Step(m: Machine): (o: Outcome)
    requires m.Valid()
    ensures o.m.Valid()
  {
    if !Covers(m.mem.Keys, m.pc, 4) then Trap(FetchFault, m)
    else
      match Decode(Wrap(Value(m.mem, m.pc, 4)))
      case IllegalWord => Trap(IllegalInstruction, m)
      case Legal(i) => Execute(i, m)
  }

  datatype Ending = Stepped(m: Machine) | Trapped(cause: Cause, m: Machine)

  // n steps, or fewer when one traps.
  function Steps(n: nat, m: Machine): (e: Ending)
    requires m.Valid()
    ensures e.m.Valid()
  {
    if n == 0 then Stepped(m)
    else
      match Step(m)
      case Next(m') => Steps(n - 1, m')
      case Trap(cause, m') => Trapped(cause, m')
  }
}
