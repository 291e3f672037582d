/** The machine state and the effect of the RV32I handlers, as functions. The
    methods of class `Machine` are proved against these. */
module Hart {
  import opened Words
  import opened Memory

  type CsrAddr = x: int | 0 <= x < 0x1000

  datatype State = State(x: seq<Word>, pc: Word, pcChanged: bool, csrs: map<CsrAddr, Word>, mem: Mem) {
    ghost predicate Valid() {
      |x| == 32 && mem.Valid()
    }

    function Put(rd: Reg, v: Word): State
      requires |x| == 32
    {
      this.(x := x[rd := v])
    }

    function Jump(target: Word): State {
      this.(pc := target, pcChanged := true)
    }
  }

  datatype Result = Result(err: Err, s: State)

  lemma JumpThenPut(s: State, rd: Reg, v: Word, target: Word)
    requires |s.x| == 32
    ensures |s.Jump(target).x| == 32 && s.Jump(target).Put(rd, v) == s.Put(rd, v).Jump(target)
  {
  }

  // ---------------------------------------------------------------- little-endian words

  function Le(data: seq<Byte>): (v: nat)
    ensures v < Pow2(8 * |data|)
  {
    if data == [] then 0
    else
      OneByteMore(|data| - 1);
      data[0] + 256 * Le(data[1..])
  }

  lemma OneByteMore(n: nat)
    ensures Pow2(8 * (n + 1)) == 256 * Pow2(8 * n)
  {
    Pow2Sum(8, 8 * n);
    assert Pow2(8) == 256;
  }

  function ToLe(v: nat, n: nat): (data: seq<Byte>)
    ensures |data| == n
  {
    if n == 0 then [] else [v % 256] + ToLe(v / 256, n - 1)
  }

  lemma {:induction false} LeOfToLe(v: nat, n: nat)
    ensures Le(ToLe(v, n)) == v % Pow2(8 * n)
  {
    if n > 0 {
      LeOfToLe(v / 256, n - 1);
      OneByteMore(n - 1);
      SplitModulus(v, 256, Pow2(8 * (n - 1)));
    }
  }

  function Word32(data: seq<Byte>): Word
    requires |data| <= 4
  {
    Pow2Monotone(8 * |data|, 32);
    Pow2Values();
    Le(data)
  }
}

module RV32I {
  import opened Words
  import opened InstFmt
  import opened Memory
  import opened Hart

  // One constructor per handler.
  datatype Op =
    | LB | LH | LW | LBU | LHU | FENCE | FENCEI
    | ADDI | SLTI | SLTIU | XORI | ORI | ANDI | SLLI | SRLI | SRAI | AUIPC
    | SB | SH | SW
    | ADD | SUB | SLL | SLT | SLTU | XOR | SRL | SRA | OR | AND | LUI
    | BEQ | BNE | BLT | BGE | BLTU | BGEU | JAL | JALR | ECALL | EBREAK
    | NOTHING

  // isValid looks at the opcode only.
  predicate IsValid(w: Word) {
    Aa(w) == 3 && Bbb(w) != 2 && Bbb(w) != 7 && Cc(w) != 2
  }

  // The handler `exec` selects; NOTHING where it falls through with RV_EUNDEF.
  function Dispatch(w: Word): Op {
    var f3 := Funct3(w);
    match Cc(w)
    case 0 =>
      (match Bbb(w)
       case 0 => (match f3 case 0 => LB case 1 => LH case 2 => LW case 4 => LBU case 5 => LHU case _ => NOTHING)
       case 3 => (match f3 case 0 => FENCE case 1 => FENCEI case _ => NOTHING)
       case 4 =>
         (match f3
          case 0 => ADDI case 2 => SLTI case 3 => SLTIU case 4 => XORI case 6 => ORI case 7 => ANDI case 1 => SLLI
          case _ => if Funct7(w) == 0 then SRLI else if Funct7(w) == 0x20 then SRAI else NOTHING)
       case 5 => AUIPC
       case _ => NOTHING)
    case 1 =>
      (match Bbb(w)
       case 0 => (match f3 case 0 => SB case 1 => SH case 2 => SW case _ => NOTHING)
       case 4 =>
         (match f3
          case 0 => if Funct7(w) == 0 then ADD else if Funct7(w) == 0x20 then SUB else NOTHING
          case 1 => SLL case 2 => SLT case 3 => SLTU case 4 => XOR
          case 5 => if Funct7(w) == 0 then SRL else if Funct7(w) == 0x20 then SRA else NOTHING
          case 6 => OR
          case _ => AND)
       case 5 => LUI
       case _ => NOTHING)
    case 3 =>
      (match Bbb(w)
       case 0 =>
         (match f3
          case 0 => BEQ case 1 => BNE case 4 => BLT case 5 => BGE case 6 => BLTU case 7 => BGEU
          case _ => NOTHING)
       case 1 => JALR
       case 3 => JAL
       case 4 => if f3 == 0 && IField(w) == 0 then ECALL else if f3 == 0 && IField(w) == 1 then EBREAK else NOTHING
       case _ => NOTHING)
    case _ => NOTHING
  }

  function LoadInto(s: State, rd: Reg, a: Word, n: nat, signed: bool): Result
    requires s.Valid() && 1 <= n <= 4
  {
    var r := MemRead(s.mem, a, n);
    if r.err != EOK then Result(r.err, s)
    else
      var v := Word32(r.data);
      Result(EOK, s.Put(rd, if signed then Sext(v, 8 * n - 1) else v))
  }

  function StoreFrom(s: State, a: Word, v: Word, n: nat): Result
    requires s.Valid()
  {
    var r := MemWrite(s.mem, a, ToLe(v, n));
    Result(r.err, s.(mem := r.target))
  }

  function ShiftRightSigned(a: Word, n: nat): Word
    requires n < 32
  {
    Sext(ShiftRight(a, n), 31 - n)
  }

  function ShiftRight(a: Word, n: nat): Word {
    QuotientBounds(a, Pow2(n));
    a / Pow2(n)
  }

  function ShiftLeft(a: Word, n: nat): Word {
    Wrap(a * Pow2(n))
  }

  function Flag(b: bool): Word {
    if b then 1 else 0
  }

  // The computation a register-writing handler refuses or leaves undefined.
  function Refusal(op: Op, w: Word, b: Word): Err {
    match op
    case SLLI => if Shamt(w) >= 32 then EININST else EOK
    case SRLI => if Shamt(w) >= 32 then EININST else EOK
    case SRAI => if Shamt(w) >= 32 then EININST else EOK
    case SLL => if b >= 32 then Undefined else EOK
    case SRL => if b >= 32 then Undefined else EOK
    case _ => EOK
  }

  // What a register-writing handler computes from x[rs1], x[rs2] and the pc.
  function Value(op: Op, w: Word, a: Word, b: Word, pc: Word): Word {
    match op
    case ADDI => Wrap(a + ImmI(w))
    case SLTI => Flag(a < Signed(ImmI(w)))
    case SLTIU => Flag(a < ImmI(w))
    case XORI => BitsOf(Differ, a, ImmI(w))
    case ORI => BitsOf(Disj, a, ImmOri(w))
    case ANDI => BitsOf(Conj, a, ImmI(w))
    case SLLI => ShiftLeft(a, Shamt(w))
    case SRLI => ShiftRight(a, Shamt(w))
    case SRAI => ShiftRightSigned(a, Shamt(w) % 32)
    case AUIPC => Wrap(pc + ImmU(w))
    case ADD => Wrap(a + b)
    case SUB => Wrap(a - b)
    case SLL => ShiftLeft(a, b)
    case SLT => Flag(Signed(a) < Signed(b))
    case SLTU => Flag(a < b)
    case XOR => BitsOf(Differ, a, b)
    case SRL => ShiftRight(a, b)
    case SRA => ShiftRightSigned(a, b % 32)
    case OR => BitsOf(Disj, a, b)
    case AND => BitsOf(Conj, a, b)
    case LUI => ImmU(w)
    case _ => Wrap(pc + 4)
  }

  predicate Taken(op: Op, a: Word, b: Word) {
    match op
    case BEQ => a == b
    case BNE => a != b
    case BLT => Signed(a) < Signed(b)
    case BGE => Signed(a) >= Signed(b)
    case BLTU => a < b
    case _ => a >= b
  }

  datatype Kind = Load(n: nat, signed: bool) | Store(n: nat) | Compute | Branch | Jump | Quiet | Missing

  function KindOf(op: Op): (k: Kind)
    ensures k.Load? || k.Store? ==> k.n in {1, 2, 4}
  {
    match op
    case LB => Load(1, true)
    case LH => Load(2, true)
    case LW => Load(4, false)
    case LBU => Load(1, false)
    case LHU => Load(2, false)
    case SB => Store(1)
    case SH => Store(2)
    case SW => Store(4)
    case BEQ => Branch case BNE => Branch case BLT => Branch
    case BGE => Branch case BLTU => Branch case BGEU => Branch
    case JAL => Jump case JALR => Jump
    case FENCE => Quiet case FENCEI => Quiet case ECALL => Quiet case EBREAK => Quiet
    case NOTHING => Missing
    case _ => Compute
  }

  // & ~1
  function ClearBit0(v: Word): (r: Word)
    ensures r % 2 == 0 && r == v - v % 2
  {
    v / 2 * 2
  }

  // Where a jump goes: jalr clears bit 0.
  function Target(op: Op, w: Word, a: Word, pc: Word): Word {
    if op == JAL then Wrap(pc + ImmJ(w)) else ClearBit0(Wrap(a + ImmI(w)))
  }

  // The state and error code after a handler has run.
  function Apply(op: Op, w: Word, s: State): Result
    requires s.Valid()
  {
    var rd, a, b := Rd(w), s.x[Rs1(w)], s.x[Rs2(w)];
    match KindOf(op)
    case Load(n, signed) => LoadInto(s, rd, Wrap(a + ImmI(w)), n, signed)
    case Store(n) => StoreFrom(s, Wrap(a + ImmS(w)), b, n)
    case Branch => Result(EOK, if Taken(op, a, b) then s.Jump(Wrap(s.pc + ImmB(w))) else s)
    case Jump => Result(EOK, s.Put(rd, Value(op, w, a, b, s.pc)).Jump(Target(op, w, a, s.pc)))
    case Quiet => Result(EOK, s)
    case Missing => Result(EUNDEF, s)
    case Compute =>
      if Refusal(op, w, b) != EOK then Result(Refusal(op, w, b), s)
      else Result(EOK, s.Put(rd, Value(op, w, a, b, s.pc)))
  }

  // ---------------------------------------------------------------- exec

  function Exec(w: Word, s: State): Result
    requires s.Valid()
  {
    Apply(Dispatch(w), w, s)
  }

  // A register-writing handler refuses, or writes its value.
  lemma ApplyCompute(op: Op, w: Word, s: State)
    requires s.Valid() && KindOf(op).Compute?
    ensures var a, b := s.x[Rs1(w)], s.x[Rs2(w)];
      Apply(op, w, s) ==
        if Refusal(op, w, b) != EOK then Result(Refusal(op, w, b), s)
        else Result(EOK, s.Put(Rd(w), Value(op, w, a, b, s.pc)))
  {
    hide KindOf, LoadInto, StoreFrom, Refusal, Value;
  }

  // Handlers that only report.
  lemma ApplyIdle(op: Op, w: Word, s: State)
    requires s.Valid()
    ensures op in {FENCE, FENCEI, ECALL, EBREAK} ==> Apply(op, w, s) == Result(EOK, s)
    ensures op == NOTHING ==> Apply(op, w, s) == Result(EUNDEF, s)
  {
    assert op in {FENCE, FENCEI, ECALL, EBREAK} ==> KindOf(op) == Quiet;
    assert op == NOTHING ==> KindOf(op) == Missing;
    hide KindOf, LoadInto, StoreFrom, Refusal, Value, Taken, Target, Rd, Rs1, Rs2;
  }

  lemma ApplyAccess(op: Op, w: Word, s: State)
    requires s.Valid() && (KindOf(op).Load? || KindOf(op).Store?)
    ensures var k, x := KindOf(op), s.x[Rs1(w)];
      Apply(op, w, s) ==
        if k.Load? then LoadInto(s, Rd(w), Wrap(x + ImmI(w)), k.n, k.signed)
        else StoreFrom(s, Wrap(x + ImmS(w)), s.x[Rs2(w)], k.n)
  {
    hide KindOf, LoadInto, StoreFrom, ImmI, ImmS, Wrap;
  }

  lemma SraiParts(w: Word, a: Word, b: Word, pc: Word)
    ensures KindOf(SRAI).Compute? && Refusal(SRAI, w, b) == if Shamt(w) >= 32 then EININST else EOK
    ensures Shamt(w) < 32 ==> Value(SRAI, w, a, b, pc) == Sext(ShiftRight(a, Shamt(w)), 31 - Shamt(w))
  {
    hide Sext, ShiftRight, Shamt;
    if Shamt(w) < 32 {
      assert Shamt(w) % 32 == Shamt(w);
    }
  }

  lemma ApplySrai(w: Word, s: State)
    requires s.Valid()
    ensures Apply(SRAI, w, s) ==
      if Shamt(w) >= 32 then Result(EININST, s)
      else Result(EOK, s.Put(Rd(w), Sext(ShiftRight(s.x[Rs1(w)], Shamt(w)), 31 - Shamt(w))))
  {
    assert |s.x| == 32;
    hide *;
    SraiParts(w, s.x[Rs1(w)], s.x[Rs2(w)], s.pc);
    ApplyCompute(SRAI, w, s);
  }

  lemma ApplyTransfer(op: Op, w: Word, s: State)
    requires s.Valid()
    ensures KindOf(op).Branch? ==>
      Apply(op, w, s) ==
        Result(EOK, if Taken(op, s.x[Rs1(w)], s.x[Rs2(w)]) then s.Jump(Wrap(s.pc + ImmB(w))) else s)
    ensures KindOf(op).Jump? ==>
      Apply(op, w, s) == Result(EOK, s.Put(Rd(w), Wrap(s.pc + 4)).Jump(Target(op, w, s.x[Rs1(w)], s.pc)))
  {
    hide Taken, Target, Wrap, ImmB, ImmI, ImmJ, Rs1, Rs2, Rd, LoadInto, StoreFrom, Refusal;
  }

  lemma ApplyJumps(w: Word, s: State)
    requires s.Valid()
    ensures Apply(JAL, w, s) == Result(EOK, s.Put(Rd(w), Wrap(s.pc + 4)).Jump(Wrap(s.pc + ImmJ(w))))
    ensures Apply(JALR, w, s) ==
      Result(EOK, s.Put(Rd(w), Wrap(s.pc + 4)).Jump(ClearBit0(Wrap(s.x[Rs1(w)] + ImmI(w)))))
  {
    hide Taken, Wrap, ClearBit0, ImmB, ImmI, ImmJ, Rs1, Rs2, Rd, LoadInto, StoreFrom, Refusal;
  }

  lemma TargetValue(op: Op, w: Word, a: Word, pc: Word)
    ensures Target(op, w, a, pc) == if op == JAL then Wrap(pc + ImmJ(w)) else ClearBit0(Wrap(a + ImmI(w)))
  {
    hide ImmJ, ImmI;
  }
}
