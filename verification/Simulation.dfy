/** The interpreter with the base set registered, against the reference machine:
    step by step, over whole runs, and exactly where the two part. */
module Simulation {
  import opened Words
  import F = InstFmt
  import opened Memory
  import opened Hart
  import opened RV32I
  import opened Vm
  import opened FlatMemory
  import Decode
  import Isa

  // ---------------------------------------------------------------- relation

  // What a program can see of a state: x0 reads as zero whatever the last
  // instruction left in it, and memory is the flat view.
  ghost function Abs(s: State): (m: Isa.Machine)
    requires s.Valid()
    ensures m.Valid()
  {
    Isa.Machine(s.x[0 := 0], s.pc, Flat(s.mem), Writable(s.mem))
  }

  // How the ways to leave the loop read as traps.
  ghost predicate Means(why: Stop, cause: Isa.Cause) {
    match cause
    case FetchFault => why.FetchFailed? && why.err != Undefined
    case IllegalInstruction => why == ZeroWord || (why.ExecFailed? && why.err in {EUNDEF, EININST})
    case AccessFault => why.ExecFailed? && why.err in {EFAULT, ERANGE, EACCESS}
    case _ => false
  }

  ghost predicate Agrees(o: Outcome, r: Isa.Outcome) {
    && o.s.Valid() && Abs(o.s) == r.m
    && (o.Running? <==> r.Next?)
    && (o.Stopped? && r.Trap? ==> Means(o.why, r.cause))
  }

  // ---------------------------------------------------------------- where they agree

  // x and y differ only in bits that a has set.
  ghost predicate SameUnder(a: Word, x: Word, y: Word) {
    forall k: nat | k < 32 :: Bit(a, k) || Bit(x, k) == Bit(y, k)
  }

  // What one legal instruction must avoid, in terms of the reference state. slti
  // compares a negative source as if it were unsigned; ori uses bits 31:25 of the word
  // as its immediate; sll and srl do not reduce the count; ecall and ebreak do nothing.
  ghost predicate Regular(i: Isa.Instr, m: Isa.Machine)
    requires m.Valid()
  {
    match i
    case OpImm(op, rd, rs1, imm) =>
      if op == Isa.Slt then rd == 0 || m.x[rs1] < 0x8000_0000 || Signed(m.x[rs1]) >= imm
      else if op == Isa.Or then
        rd == 0 || SameUnder(m.x[rs1], Wrap(imm), Wrap(imm) / 32 % 128)
      else true
    case Op(op, _, _, rs2) => (op == Isa.Sll || op == Isa.Srl) ==> m.x[rs2] < 32
    case Ecall => false
    case Ebreak => false
    case _ => true
  }

  // A load into x0 only has to succeed or fail alike.
  ghost predicate HonestAccess(mem: Mem, i: Isa.Instr, m: Isa.Machine)
    requires mem.Valid() && m.Valid()
  {
    match i
    case Load(width, _, rd, rs1, off) => HonestRead(mem, Wrap(m.x[rs1] + off), Isa.Bytes(width), rd != 0)
    case Store(width, rs1, rs2, off) => HonestWrite(mem, Wrap(m.x[rs1] + off), ToLe(m.x[rs2], Isa.Bytes(width)))
    case _ => true
  }

  ghost predicate HonestInstr(mem: Mem, i: Isa.Instr, m: Isa.Machine)
    requires mem.Valid() && m.Valid()
  {
    Regular(i, m) && HonestAccess(mem, i, m)
  }

  ghost function Fetched(m: Isa.Machine): Word
    requires Isa.Covers(m.mem.Keys, m.pc, 4)
  {
    Wrap(Isa.Value(m.mem, m.pc, 4))
  }

  // The outcome r is what a handler does, told on the machine m a program sees. Where
  // the result is undefined no outcome is.
  ghost predicate Does(op: Op, w: Word, mem: Mem, m: Isa.Machine, r: Isa.Outcome)
    requires mem.Valid() && m.Valid()
  {
    var rd, a, b := F.Rd(w), m.x[F.Rs1(w)], m.x[F.Rs2(w)];
    match KindOf(op)
    case Compute => !(op in {SLL, SRL} && b >= 32) && r == Isa.Next(m.Write(rd, Value(op, w, a, b, m.pc)).Advance())
    case Quiet => r == Isa.Next(m.Advance())
    case Branch => r == Isa.Next(if Taken(op, a, b) then m.(pc := Wrap(m.pc + F.ImmB(w))) else m.Advance())
    case Jump => r == Isa.Next(m.Write(rd, Wrap(m.pc + 4)).(pc := Target(op, w, a, m.pc)))
    case Load(n, signed) =>
      var f := MemRead(mem, Wrap(a + F.ImmI(w)), n);
      if f.err == EOK then
        r == Isa.Next(m.Write(rd, if signed then Sext(Word32(f.data), 8 * n - 1) else Word32(f.data)).Advance())
      else f.err != Undefined && r == Isa.Trap(Isa.AccessFault, m)
    case Store(n) =>
      var f := MemWrite(mem, Wrap(a + F.ImmS(w)), ToLe(b, n));
      if f.err == EOK then r == Isa.Next(m.(mem := Flat(f.target)).Advance())
      else f.err != Undefined && r == Isa.Trap(Isa.AccessFault, m)
    case Missing => false
  }

  // The handler the word w selects does what the instruction i should.
  ghost predicate ActsAs(s: State, w: Word, i: Isa.Instr)
    requires s.Valid()
  {
    Does(Dispatch(w), w, s.mem, Abs(s), Isa.Execute(i, Abs(s)))
  }

  // The word w the interpreter fetched, against the word the flat memory holds. A
  // straddling fetch can make them differ; then nothing but their effects ties them.
  ghost predicate HonestWord(s: State, w: Word, seen: Word)
    requires s.Valid()
  {
    match Isa.Decode(seen)
    case IllegalWord => if w == seen then !Decode.Extra(w) else !Decode.Accepted(w)
    case Legal(i) =>
      if w == seen then !Decode.Extra(w) && HonestInstr(s.mem, i, Abs(s)) else Decode.Accepted(w) && ActsAs(s, w, i)
  }

  // When one iteration is one reference step.
  ghost predicate HonestStep(s: State)
    requires s.Valid()
  {
    var f := MemRead(s.mem, s.pc, 4);
    && HonestRead(s.mem, s.pc, 4, false)
    && (f.err == EOK && Isa.Covers(Abs(s).mem.Keys, s.pc, 4) ==> HonestWord(s, Word32(f.data), Fetched(Abs(s))))
  }

  ghost function Finish(pc: Word, r: Result): Outcome {
    if r.err != EOK then Stopped(ExecFailed(r.err), r.s) else Running(NextPc(pc, r.s))
  }

  // ---------------------------------------------------------------- arithmetic

  lemma QuotientBelow(a: nat, p: nat, q: nat)
    requires p > 0
    ensures a < p * q <==> a / p < q
  {
    QuotientBounds(a, p);
    if a / p < q {
      AtLeastOnce(q - a / p, p);
      assert (q - (a / p + 1)) * p == q * p - (a / p + 1) * p;
      if a / p + 1 < q {
        AtLeastOnce(q - (a / p + 1), p);
      }
    } else {
      assert (a / p - q) * p == a / p * p - q * p;
      if a / p > q {
        AtLeastOnce(a / p - q, p);
      }
    }
  }

  // Quotients of a word and of its signed value by a power of two p, with p * q = 2^31.
  lemma SignedQuotient(a: Word, p: nat, q: nat)
    requires p > 0 && p * q == 0x8000_0000
    ensures q <= 0x8000_0000 && a / p < 2 * q
    ensures Signed(a) / p == if a / p < q then a / p else a / p - 2 * q
  {
    AtLeastOnce(p, q);
    assert p * (2 * q) == 0x1_0000_0000;
    QuotientBelow(a, p, q);
    QuotientBelow(a, p, 2 * q);
    if a >= 0x8000_0000 {
      assert (a / p - 2 * q) * p == a / p * p - p * (2 * q);
      DivisionUnique(Signed(a), p, a / p - 2 * q, a % p);
    }
  }

  lemma HalfRange(n: nat)
    requires n < 32
    ensures Pow2(n) * Pow2(31 - n) == 0x8000_0000 && Pow2(32 - n) == 2 * Pow2(31 - n)
  {
    Pow2Sum(n, 31 - n);
    Pow2Values();
  }

  lemma ShiftRightSignedCases(a: Word, n: nat)
    requires n < 32
    ensures var v, q := a / Pow2(n), Pow2(31 - n);
      v < 2 * q && ShiftRightSigned(a, n) == if v < q then v else 0x1_0000_0000 + v - 2 * q
  {
    HalfRange(n);
    SignedQuotient(a, Pow2(n), Pow2(31 - n));
    hide Pow2, Signed, Sext;
  }

  lemma WrapNegative(x: int)
    requires -0x1_0000_0000 <= x < 0x1_0000_0000
    ensures Wrap(x) == if x < 0 then x + 0x1_0000_0000 else x
  {
  }

  // Shifting right logically and extending from bit 31 - n is flooring division of
  // the signed value by 2^n.
  lemma ShiftRightSignedIsFloor(a: Word, n: nat)
    requires n < 32
    ensures ShiftRightSigned(a, n) == Wrap(Signed(a) / Pow2(n))
  {
    hide Pow2, Signed, ShiftRightSigned, Wrap;
    var v, q := a / Pow2(n), Pow2(31 - n);
    HalfRange(n);
    SignedQuotient(a, Pow2(n), q);
    ShiftRightSignedCases(a, n);
    WrapNegative(if v < q then v else v - 2 * q);
  }

  lemma LeftShiftKeepsLow(a: Word, p: nat, q: nat)
    requires p > 0 && p * q == 0x8000_0000
    ensures Wrap(a * p) == a % (2 * q) * p && a % (2 * q) * p / p == a % (2 * q)
  {
    var m := 2 * q;
    assert m * p == 0x1_0000_0000;
    assert a * p == a / m * (m * p) + a % m * p by {
      assert a == a / m * m + a % m;
      assert a / m * m * p == a / m * (m * p);
    }
    AtMost(p, a % m, m);
    DivisionUnique(a * p, 0x1_0000_0000, a / m, a % m * p);
    DivisionUnique(a % m * p, p, a % m, 0);
  }

  // slli n followed by srai n sign-extends the low 32 - n bits.
  lemma ShiftPairSignExtends(a: Word, n: nat)
    requires n < 32
    ensures ShiftRightSigned(ShiftLeft(a, n), n) == Isa.SignExtend(a % Pow2(32 - n), 32 - n)
  {
    HalfRange(n);
    LeftShiftKeepsLow(a, Pow2(n), Pow2(31 - n));
    SignedQuotient(ShiftLeft(a, n), Pow2(n), Pow2(31 - n));
    ShiftRightSignedIsFloor(ShiftLeft(a, n), n);
    hide Pow2, ShiftRightSigned;
  }

  lemma WrapSigned(v: Word, x: int)
    ensures Wrap(Signed(v)) == v
    ensures Wrap(x + Signed(v)) == Wrap(x + v)
  {
  }

  lemma OrAgreesIff(a: Word, x: Word, y: Word)
    ensures BitsOf(Disj, a, x) == BitsOf(Disj, a, y) <==> SameUnder(a, x, y)
  {
    forall k: nat | k < 32
      ensures Bit(BitsOf(Disj, a, x), k) == Bit(BitsOf(Disj, a, y), k) <==> Bit(a, k) || Bit(x, k) == Bit(y, k)
    {
      BitOfBitwise(Disj, a, x, k);
      BitOfBitwise(Disj, a, y, k);
    }
    if SameUnder(a, x, y) {
      WordBitsDetermine(BitsOf(Disj, a, x), BitsOf(Disj, a, y));
    }
  }

  lemma MiddleField(low: int, middle: int, high: int)
    requires 0 <= low < 32 && 0 <= middle < 128
    ensures (low + 32 * (middle + 128 * high)) / 32 % 128 == middle
  {
    DivisionUnique(low + 32 * (middle + 128 * high), 32, middle + 128 * high, low);
    DivisionUnique(middle + 128 * high, 128, high, middle);
  }

  lemma FieldSizes(w: Word)
    ensures F.IField(w) == F.Rs2(w) + 32 * F.Funct7(w) < 0x1000
    ensures 0 <= F.Funct7(w) < 128 && F.RField(w) == F.Funct7(w)
  {
    Decode.ShamtParts(w);
  }

  lemma OriField(w: Word)
    ensures F.ImmOri(w) == F.ImmI(w) / 32 % 128
  {
    hide F.IField, F.RField, F.Rs2, F.Funct7, Sext, Pow2;
    FieldSizes(w);
    assert Pow2(11) == 0x800 by { Pow2Values(); }
    var high := if F.IField(w) < 0x800 then 0 else 0xF_FFFF;
    assert F.ImmI(w) == F.Rs2(w) + 32 * (F.Funct7(w) + 128 * high);
    MiddleField(F.Rs2(w), F.Funct7(w), high);
  }

  // ---------------------------------------------------------------- one handler

  // What a state looks like when a handler is entered.
  ghost predicate Ready(s: State) {
    s.Valid() && s.x[0] == 0 && !s.pcChanged
  }

  lemma ReadyState(s: State)
    requires Ready(s)
    ensures s.Valid() && s.mem.Valid() && |s.x| == 32 && Abs(s).x == s.x && Abs(s).pc == s.pc
  {
    hide Flat, Writable;
  }

  lemma AbsPut(s: State, rd: Reg, v: Word)
    requires s.Valid()
    ensures Abs(s.Put(rd, v)) == Abs(s).Write(rd, v)
  {
  }

  // What the reference machine writes for the register-writing instructions.
  function RefValue(i: Isa.Instr, a: Word, b: Word, pc: Word): Word {
    match i
    case Lui(_, imm) => Wrap(imm)
    case Auipc(_, imm) => Wrap(pc + imm)
    case OpImm(op, _, _, imm) => Isa.Alu(op, a, Wrap(imm))
    case Op(op, _, _, _) => Isa.Alu(op, a, b)
    case _ => 0
  }

  // Where the value written can differ.
  ghost predicate ValueTame(i: Isa.Instr, a: Word) {
    match i
    case OpImm(op, _, _, imm) =>
      if op == Isa.Slt then a < 0x8000_0000 || Signed(a) >= imm
      else if op == Isa.Or then SameUnder(a, Wrap(imm), Wrap(imm) / 32 % 128)
      else true
    case _ => true
  }

  lemma OriValueAgrees(w: Word, a: Word, b: Word, pc: Word)
    ensures var i := Decode.Reading(ORI, w).i;
      Value(ORI, w, a, b, pc) == RefValue(i, a, b, pc) <==> ValueTame(i, a)
  {
    WrapSigned(F.ImmI(w), a);
    OriField(w);
    OrAgreesIff(a, F.ImmI(w), F.ImmOri(w));
    hide F.ImmI, F.ImmOri, F.ImmU, F.ImmS, F.ImmB, F.ImmJ, F.Rd, F.Rs1, F.Rs2, F.Shamt, SameUnder, BitsOf;
  }

  lemma SltiValueAgrees(w: Word, a: Word, b: Word, pc: Word)
    ensures var i := Decode.Reading(SLTI, w).i;
      Value(SLTI, w, a, b, pc) == RefValue(i, a, b, pc) <==> ValueTame(i, a)
  {
    WrapSigned(F.ImmI(w), a);
    hide F.ImmI, F.ImmS, F.ImmB, F.ImmJ, F.Rd, F.Rs1, F.Rs2, F.Shamt, Wrap;
  }

  lemma UpperValueAgrees(op: Op, w: Word, a: Word, b: Word, pc: Word)
    requires op in {LUI, AUIPC}
    ensures Value(op, w, a, b, pc) == RefValue(Decode.Reading(op, w).i, a, b, pc)
    ensures ValueTame(Decode.Reading(op, w).i, a)
  {
    WrapWord(F.ImmU(w));
    hide F.ImmI, F.ImmU, F.ImmS, F.ImmB, F.ImmJ, F.Rd, F.Rs1, F.Rs2, F.Shamt, Wrap;
  }

  lemma PlainValueAgrees(op: Op, w: Word, a: Word, b: Word, pc: Word)
    requires op in {ADDI, SLTIU, XORI, ANDI}
    ensures Value(op, w, a, b, pc) == RefValue(Decode.Reading(op, w).i, a, b, pc)
    ensures ValueTame(Decode.Reading(op, w).i, a)
  {
    WrapSigned(F.ImmI(w), a);
    hide F.ImmI, F.ImmU, F.ImmS, F.ImmB, F.ImmJ, F.Rd, F.Rs1, F.Rs2, F.Shamt, Signed, Wrap, BitsOf;
  }

  lemma ImmediateValueAgrees(op: Op, w: Word, a: Word, b: Word, pc: Word)
    requires op in {ADDI, SLTI, SLTIU, XORI, ORI, ANDI, LUI, AUIPC}
    ensures var i := Decode.Reading(op, w).i;
      Value(op, w, a, b, pc) == RefValue(i, a, b, pc) <==> ValueTame(i, a)
  {
    hide Value, RefValue, ValueTame, Decode.Reading;
    if op == ORI {
      OriValueAgrees(w, a, b, pc);
    } else if op == SLTI {
      SltiValueAgrees(w, a, b, pc);
    } else if op == LUI || op == AUIPC {
      UpperValueAgrees(op, w, a, b, pc);
    } else {
      PlainValueAgrees(op, w, a, b, pc);
    }
  }

  // Shifts by counts below 32, and how the reference reduces larger ones.
  lemma ShiftsAgree(a: Word, n: Word)
    ensures var k: Word := n % 32;
      && ShiftLeft(a, k) == Isa.Alu(Isa.Sll, a, n)
      && ShiftRight(a, k) == Isa.Alu(Isa.Srl, a, n)
      && ShiftRightSigned(a, k) == Isa.Alu(Isa.Sra, a, n)
  {
    hide ShiftRightSigned, Pow2, Wrap, Signed;
    ShiftRightSignedIsFloor(a, n % 32);
    QuotientBounds(a, Pow2(n % 32));
    WrapWord(a / Pow2(n % 32));
  }

  lemma RegisterValueAgrees(op: Op, w: Word, a: Word, b: Word, pc: Word)
    requires op in {ADD, SUB, SLL, SLT, SLTU, XOR, SRL, SRA, OR, AND}
    requires op in {SLL, SRL} ==> b < 32
    ensures Value(op, w, a, b, pc) == RefValue(Decode.Reading(op, w).i, a, b, pc)
  {
    hide F.ImmI, F.ImmOri, F.ImmU, F.ImmS, F.ImmB, F.ImmJ, F.Rd, F.Rs1, F.Rs2, F.Shamt;
    hide BitsOf, ShiftLeft, ShiftRight, ShiftRightSigned, Pow2;
    if op in {SLL, SRL, SRA} {
      ShiftsAgree(a, b);
      assert op != SRA ==> b % 32 == b;
      hide Isa.Alu;
    }
  }

  lemma ShiftImmediateAgrees(op: Op, w: Word, a: Word, b: Word, pc: Word)
    requires op in {SLLI, SRLI, SRAI} && F.Shamt(w) < 32
    ensures Value(op, w, a, b, pc) == RefValue(Decode.Reading(op, w).i, a, b, pc)
  {
    hide F.ImmI, F.ImmOri, F.ImmU, F.ImmS, F.ImmB, F.ImmJ, F.Rd, F.Rs1, F.Rs2, F.Shamt, Wrap;
    hide BitsOf, ShiftLeft, ShiftRight, ShiftRightSigned, Pow2, Isa.Alu;
    SmallCount(F.Shamt(w));
    ShiftsAgree(a, F.Shamt(w));
  }

  lemma SmallCount(n: int)
    requires 0 <= n < 32
    ensures n % 32 == n && Wrap(n) == n
  {
  }

  lemma FinishPut(s: State, rd: Reg, v: Word)
    requires Ready(s)
    ensures var o := Finish(s.pc, Result(EOK, s.Put(rd, v)));
      o.Running? && o.s.Valid() && Abs(o.s) == Abs(s).Write(rd, v).Advance()
  {
    AbsPut(s, rd, v);
  }

  lemma WriteDistinguishes(m: Isa.Machine, rd: Reg, v: Word, v': Word)
    requires m.Valid()
    ensures m.Write(rd, v).Advance() == m.Write(rd, v').Advance() <==> rd == 0 || v == v'
  {
    if rd != 0 {
      assert m.Write(rd, v).Advance().x[rd] == v;
    }
  }

  ghost predicate Writes(i: Isa.Instr) {
    i.Lui? || i.Auipc? || i.OpImm? || i.Op?
  }

  lemma ReadingWrites(op: Op, w: Word)
    requires KindOf(op).Compute?
    ensures Decode.Reading(op, w).Legal?
    ensures var i := Decode.Reading(op, w).i;
      && Writes(i) && i.rd == F.Rd(w)
      && (i.OpImm? ==> i.rs1 == F.Rs1(w)) && (i.Op? ==> i.rs1 == F.Rs1(w) && i.rs2 == F.Rs2(w))
  {
    hide F.ImmI, F.ImmU, F.ImmS, F.ImmB, F.ImmJ, F.Rd, F.Rs1, F.Rs2, F.Shamt;
  }

  lemma ExecuteWrites(i: Isa.Instr, m: Isa.Machine, a: Word, b: Word)
    requires m.Valid() && Writes(i)
    requires (i.OpImm? || i.Op? ==> a == m.x[i.rs1]) && (i.Op? ==> b == m.x[i.rs2])
    ensures Isa.Execute(i, m) == Isa.Next(m.Write(i.rd, RefValue(i, a, b, m.pc)).Advance())
  {
    hide Isa.Alu, Wrap;
  }

  ghost predicate ShamtOk(op: Op, w: Word) {
    op in {SLLI, SRLI, SRAI} ==> F.Shamt(w) < 32
  }

  lemma ValueAgreesIff(op: Op, w: Word, a: Word, b: Word, pc: Word)
    requires KindOf(op).Compute? && ShamtOk(op, w) && (op in {SLL, SRL} ==> b < 32)
    ensures var i := Decode.Reading(op, w).i;
      Value(op, w, a, b, pc) == RefValue(i, a, b, pc) <==> ValueTame(i, a)
  {
    hide Value, RefValue;
    if op in {ADDI, SLTI, SLTIU, XORI, ORI, ANDI, LUI, AUIPC} {
      ImmediateValueAgrees(op, w, a, b, pc);
    } else if op in {SLLI, SRLI, SRAI} {
      ShiftImmediateAgrees(op, w, a, b, pc);
    } else {
      RegisterValueAgrees(op, w, a, b, pc);
    }
  }

  lemma ReadingShift(op: Op, w: Word)
    requires KindOf(op).Compute?
    ensures var i := Decode.Reading(op, w).i; op in {SLL, SRL} <==> i.Op? && i.op in {Isa.Sll, Isa.Srl}
  {
    hide F.ImmI, F.ImmU, F.ImmS, F.ImmB, F.ImmJ, F.Rd, F.Rs1, F.Rs2, F.Shamt;
  }

  lemma RegularWrites(i: Isa.Instr, m: Isa.Machine, a: Word)
    requires m.Valid() && Writes(i) && (i.OpImm? ==> a == m.x[i.rs1])
    ensures Regular(i, m) <==>
      if i.Op? && i.op in {Isa.Sll, Isa.Srl} then m.x[i.rs2] < 32 else i.rd == 0 || ValueTame(i, a)
  {
    hide SameUnder;
  }

  lemma RegularValue(op: Op, w: Word, m: Isa.Machine)
    requires m.Valid() && KindOf(op).Compute?
    ensures var i := Decode.Reading(op, w).i;
      Regular(i, m) <==>
        if op in {SLL, SRL} then m.x[F.Rs2(w)] < 32 else F.Rd(w) == 0 || ValueTame(i, m.x[F.Rs1(w)])
  {
    hide F.Rd, F.Rs1, F.Rs2, Decode.Reading, KindOf, Regular, ValueTame;
    ReadingWrites(op, w);
    ReadingShift(op, w);
    RegularWrites(Decode.Reading(op, w).i, m, m.x[F.Rs1(w)]);
  }

  // A register-writing handler either writes its value or stops on an undefined shift.
  lemma ComputeOutcome(op: Op, w: Word, s: State)
    requires Ready(s) && KindOf(op).Compute? && ShamtOk(op, w)
    ensures var a, b := s.x[F.Rs1(w)], s.x[F.Rs2(w)];
      Finish(s.pc, Apply(op, w, s)) ==
        if op in {SLL, SRL} && b >= 32 then Stopped(ExecFailed(Undefined), s)
        else Finish(s.pc, Result(EOK, s.Put(F.Rd(w), Value(op, w, a, b, s.pc))))
  {
    hide Value, F.Rd, F.Rs1, F.Rs2, F.Shamt, LoadInto, StoreFrom;
  }

  lemma ComputeAgreesIff(op: Op, w: Word, s: State)
    requires Ready(s) && KindOf(op).Compute? && ShamtOk(op, w)
    ensures Decode.Reading(op, w).Legal?
    ensures var i := Decode.Reading(op, w).i;
      Agrees(Finish(s.pc, Apply(op, w, s)), Isa.Execute(i, Abs(s))) <==> Regular(i, Abs(s))
  {
    hide *;
    ReadyState(s);
    ReadingWrites(op, w);
    var i, m := Decode.Reading(op, w).i, Abs(s);
    var rd, a, b := F.Rd(w), s.x[F.Rs1(w)], s.x[F.Rs2(w)];
    ExecuteWrites(i, m, a, b);
    RegularValue(op, w, m);
    ComputeOutcome(op, w, s);
    if op in {SLL, SRL} && b >= 32 {
      NoAgreement(ExecFailed(Undefined), s, Isa.Execute(i, m));
    } else {
      var v, v' := Value(op, w, a, b, s.pc), RefValue(i, a, b, s.pc);
      PutAgreesIff(s, rd, v, v');
      ValueAgreesIff(op, w, a, b, s.pc);
      if op in {SLL, SRL} {
        ShiftAlwaysTame(op, w, a);
      }
    }
  }

  lemma ShiftAlwaysTame(op: Op, w: Word, a: Word)
    requires op in {SLL, SRL}
    ensures ValueTame(Decode.Reading(op, w).i, a)
  {
  }

  lemma NoAgreement(why: Stop, s: State, r: Isa.Outcome)
    requires r.Next?
    ensures !Agrees(Stopped(why, s), r)
  {
  }

  lemma PutAgreesIff(s: State, rd: Reg, v: Word, v': Word)
    requires Ready(s)
    ensures Agrees(Finish(s.pc, Result(EOK, s.Put(rd, v))), Isa.Next(Abs(s).Write(rd, v').Advance())) <==>
      rd == 0 || v == v'
  {
    FinishPut(s, rd, v);
    WriteDistinguishes(Abs(s), rd, v, v');
    hide Finish, Abs;
  }

  lemma AccessReading(op: Op, w: Word)
    ensures KindOf(op).Load? ==>
      Decode.Reading(op, w).Legal? &&
      var i := Decode.Reading(op, w).i;
      && i.Load? && i.rd == F.Rd(w) && i.rs1 == F.Rs1(w) && i.off == Signed(F.ImmI(w))
      && Isa.Bytes(i.width) == KindOf(op).n && (i.signed <==> KindOf(op).signed || KindOf(op).n == 4)
    ensures KindOf(op).Store? ==>
      Decode.Reading(op, w).Legal? &&
      var i := Decode.Reading(op, w).i;
      && i.Store? && i.rs1 == F.Rs1(w) && i.rs2 == F.Rs2(w) && i.off == Signed(F.ImmS(w))
      && Isa.Bytes(i.width) == KindOf(op).n
  {
    hide F.ImmI, F.ImmU, F.ImmS, F.ImmB, F.ImmJ, F.Rd, F.Rs1, F.Rs2, F.Shamt;
  }

  lemma SignExtendInjective(u: nat, v: nat, n: nat)
    requires 1 <= n <= 32 && u < Pow2(n) && v < Pow2(n) && Isa.SignExtend(u, n) == Isa.SignExtend(v, n)
    ensures u == v
  {
    assert Pow2(n) == 2 * Pow2(n - 1);
    Pow2Monotone(n, 32);
    Pow2Values();
    hide Pow2, Wrap;
    WrapNegative(if u < Pow2(n - 1) then u else u - Pow2(n));
    WrapNegative(if v < Pow2(n - 1) then v else v - Pow2(n));
  }

  lemma ExtensionInjective(p: seq<Byte>, v: nat, signed: bool)
    requires 1 <= |p| <= 4 && v < Pow2(8 * |p|)
    ensures var n := 8 * |p|;
      (if signed then Sext(Word32(p), n - 1) else Word32(p)) == (if signed then Isa.SignExtend(v, n) else Wrap(v)) <==>
      Le(p) == v
  {
    hide Sext, Le, Wrap, Isa.SignExtend, Pow2;
    ExtensionAgrees(p);
    Pow2Monotone(8 * |p|, 32);
    Pow2Values();
    if signed && Isa.SignExtend(Le(p), 8 * |p|) == Isa.SignExtend(v, 8 * |p|) {
      SignExtendInjective(Le(p), v, 8 * |p|);
    }
    WrapWord(v);
  }

  lemma {:induction false} ValueBound(mem: map<Word, Byte>, a: Word, n: nat)
    requires Isa.Covers(mem.Keys, a, n)
    ensures Isa.Value(mem, a, n) < Pow2(8 * n)
    decreases n
  {
    if n > 0 {
      ValueBound(mem, Wrap(a + 1), n - 1);
      OneByteMore(n - 1);
    }
  }

  lemma LoadSides(s: State, rd: Reg, a: Word, n: nat, signed: bool)
    requires Ready(s) && 1 <= n <= 4
    ensures var r, covered := MemRead(s.mem, a, n), Isa.Covers(Flat(s.mem).Keys, a, n);
      && (r.err != EOK ==> Finish(s.pc, LoadInto(s, rd, a, n, signed)) == Stopped(ExecFailed(r.err), s))
      && (r.err == EOK ==>
            Finish(s.pc, LoadInto(s, rd, a, n, signed)) ==
            Finish(s.pc, Result(EOK, s.Put(rd, if signed then Sext(Word32(r.data), 8 * n - 1) else Word32(r.data)))))
      && Isa.LoadFrom(Abs(s), rd, a, n, signed) ==
           (if covered then
              var v := Isa.Value(Flat(s.mem), a, n);
              Isa.Next(Abs(s).Write(rd, if signed then Isa.SignExtend(v, 8 * n) else Wrap(v)).Advance())
            else Isa.Trap(Isa.AccessFault, Abs(s)))
  {
    hide Flat, Writable, MemRead, Isa.Value, Pow2, Sext, Isa.SignExtend, Isa.Covers;
  }

  lemma ReadOutcome(m: Mem, a: Word, n: nat, exact: bool)
    requires m.Valid() && n > 0
    ensures var r := MemRead(m, a, n);
      && r.err in {EOK, EFAULT, ERANGE, Undefined} && (r.err == EOK ==> |r.data| == n)
      && (HonestRead(m, a, n, exact) <==>
            && r.err != Undefined && (r.err == EOK <==> Isa.Covers(Flat(m).Keys, a, n))
            && (r.err == EOK && exact ==> Isa.Value(Flat(m), a, n) == Le(r.data)))
  {
    hide HonestRead, MemRead, Flat, Isa.Covers, Isa.Value, Le;
    ReadAgreesIff(m, a, n, exact);
    ReadErrors(m, a, n);
  }

  // What a load of value u makes of rd.
  lemma LoadedAgreesIff(s: State, rd: Reg, data: seq<Byte>, u: nat, signed: bool)
    requires Ready(s) && 1 <= |data| <= 4 && u < Pow2(8 * |data|)
    ensures var n := 8 * |data|;
      Agrees(Finish(s.pc, Result(EOK, s.Put(rd, if signed then Sext(Word32(data), n - 1) else Word32(data)))),
             Isa.Next(Abs(s).Write(rd, if signed then Isa.SignExtend(u, n) else Wrap(u)).Advance())) <==>
      rd == 0 || u == Le(data)
  {
    hide *;
    ReadyState(s);
    var n := 8 * |data|;
    ExtensionInjective(data, u, signed);
    PutAgreesIff(s, rd, if signed then Sext(Word32(data), n - 1) else Word32(data),
                 if signed then Isa.SignExtend(u, n) else Wrap(u));
  }

  // A load of the interpreter is the reference's load exactly when the read is honest.
  lemma LoadIntoAgreesIff(s: State, rd: Reg, a: Word, n: nat, signed: bool)
    requires Ready(s) && 1 <= n <= 4
    ensures Agrees(Finish(s.pc, LoadInto(s, rd, a, n, signed)), Isa.LoadFrom(Abs(s), rd, a, n, signed)) <==>
      HonestRead(s.mem, a, n, rd != 0)
  {
    hide *;
    ReadyState(s);
    LoadSides(s, rd, a, n, signed);
    ReadOutcome(s.mem, a, n, rd != 0);
    var r := MemRead(s.mem, a, n);
    if r.err != EOK {
      AccessFaultMeans(r.err);
      StoppedAgrees(ExecFailed(r.err), Isa.AccessFault, s);
      NextDisagrees(ExecFailed(r.err), s);
    } else if Isa.Covers(Flat(s.mem).Keys, a, n) {
      ValueBound(Flat(s.mem), a, n);
      LoadedAgreesIff(s, rd, r.data, Isa.Value(Flat(s.mem), a, n), signed);
    } else {
      PutNeverTraps(s, rd, if signed then Sext(Word32(r.data), 8 * n - 1) else Word32(r.data));
    }
  }

  lemma ReadErrors(m: Mem, a: Word, n: nat)
    requires m.Valid()
    ensures MemRead(m, a, n).err in {EOK, EFAULT, ERANGE, Undefined}
    ensures MemRead(m, a, n).err == EOK ==> |MemRead(m, a, n).data| == n
  {
  }

  lemma AccessFaultMeans(err: Err)
    ensures Means(ExecFailed(err), Isa.AccessFault) <==> err in {EFAULT, ERANGE, EACCESS}
  {
  }

  lemma NextDisagrees(why: Stop, s: State)
    ensures forall m :: !Agrees(Stopped(why, s), Isa.Next(m))
  {
  }

  lemma PutNeverTraps(s: State, rd: Reg, v: Word)
    requires Ready(s)
    ensures forall cause, m :: !Agrees(Finish(s.pc, Result(EOK, s.Put(rd, v))), Isa.Trap(cause, m))
  {
  }

  // A store of the interpreter is the reference's store exactly when the write is honest.
  lemma StoreFromAgreesIff(s: State, a: Word, v: Word, n: nat)
    requires Ready(s) && 1 <= n <= 4
    ensures Agrees(Finish(s.pc, StoreFrom(s, a, v, n)), Isa.StoreTo(Abs(s), a, n, v)) <==>
      HonestWrite(s.mem, a, ToLe(v, n))
  {
    hide Flat, Writable, MemWrite, ToLe, Isa.Stored, Isa.Covers, HonestWrite;
    WriteAgreesIff(s.mem, a, n, v);
    WriteErrors(s.mem, a, ToLe(v, n));
  }

  lemma WriteErrors(m: Mem, a: Word, data: seq<Byte>)
    requires m.Valid()
    ensures MemWrite(m, a, data).err in {EOK, EFAULT, ERANGE, EACCESS, Undefined}
  {
  }

  lemma FinishJump(s: State, target: Word)
    requires Ready(s)
    ensures Agrees(Finish(s.pc, Result(EOK, s.Jump(target))), Isa.Next(Abs(s).(pc := target)))
    ensures Agrees(Finish(s.pc, Result(EOK, s)), Isa.Next(Abs(s).Advance()))
  {
    hide Flat, Writable;
  }

  lemma ExecuteAccess(i: Isa.Instr, mem: Mem, m: Isa.Machine)
    requires m.Valid() && mem.Valid() && (i.Load? || i.Store?)
    ensures Regular(i, m)
    ensures var n, a := Isa.Bytes(i.width), Wrap(m.x[i.rs1] + i.off);
      && (HonestAccess(mem, i, m) <==>
            if i.Load? then HonestRead(mem, a, n, i.rd != 0) else HonestWrite(mem, a, ToLe(m.x[i.rs2], n)))
      && Isa.Execute(i, m) ==
           if i.Load? then Isa.LoadFrom(m, i.rd, a, n, i.signed) else Isa.StoreTo(m, a, n, m.x[i.rs2])
  {
    hide Isa.LoadFrom, Isa.StoreTo, HonestRead, HonestWrite, Wrap, ToLe;
  }

  // Both sides of an access reduced to the operation on memory.
  lemma AccessSides(op: Op, w: Word, s: State)
    requires Ready(s) && (KindOf(op).Load? || KindOf(op).Store?)
    ensures Decode.Reading(op, w).Legal?
    ensures var k, i, x := KindOf(op), Decode.Reading(op, w).i, s.x[F.Rs1(w)];
      var a := Wrap(x + if k.Load? then F.ImmI(w) else F.ImmS(w));
      && Apply(op, w, s) ==
           (if k.Load? then LoadInto(s, F.Rd(w), a, k.n, k.signed) else StoreFrom(s, a, s.x[F.Rs2(w)], k.n))
      && (HonestAccess(s.mem, i, Abs(s)) <==>
            if k.Load? then HonestRead(s.mem, a, k.n, F.Rd(w) != 0)
            else HonestWrite(s.mem, a, ToLe(s.x[F.Rs2(w)], k.n)))
      && Regular(i, Abs(s))
      && Isa.Execute(i, Abs(s)) ==
           (if k.Load? then Isa.LoadFrom(Abs(s), F.Rd(w), a, k.n, k.signed || k.n == 4)
            else Isa.StoreTo(Abs(s), a, k.n, s.x[F.Rs2(w)]))
  {
    hide *;
    ReadyState(s);
    AccessReading(op, w);
    var i, m := Decode.Reading(op, w).i, Abs(s);
    ApplyAccess(op, w, s);
    ExecuteAccess(i, s.mem, m);
    WrapSigned(F.ImmI(w), s.x[F.Rs1(w)]);
    WrapSigned(F.ImmS(w), s.x[F.Rs1(w)]);
  }

  // A word load is the same extended or not.
  lemma WordLoad(s: State, rd: Reg, a: Word)
    requires Ready(s)
    ensures Isa.LoadFrom(Abs(s), rd, a, 4, true) == Isa.LoadFrom(Abs(s), rd, a, 4, false)
  {
    hide Flat, Writable, Isa.Value, Pow2, Isa.Covers;
    if Isa.Covers(Flat(s.mem).Keys, a, 4) {
      ValueBound(Flat(s.mem), a, 4);
      Pow2Values();
      assert Pow2(32) == 2 * Pow2(31);
    }
  }

  lemma AccessAgreesIff(op: Op, w: Word, s: State)
    requires Ready(s) && (KindOf(op).Load? || KindOf(op).Store?)
    ensures Decode.Reading(op, w).Legal?
    ensures var i := Decode.Reading(op, w).i;
      && Regular(i, Abs(s))
      && (Agrees(Finish(s.pc, Apply(op, w, s)), Isa.Execute(i, Abs(s))) <==> HonestAccess(s.mem, i, Abs(s)))
  {
    hide *;
    ReadyState(s);
    AccessSides(op, w, s);
    var k, x := KindOf(op), s.x[F.Rs1(w)];
    if k.Load? {
      var a := Wrap(x + F.ImmI(w));
      LoadIntoAgreesIff(s, F.Rd(w), a, k.n, k.signed);
      if k.n == 4 {
        WordLoad(s, F.Rd(w), a);
      }
    } else {
      StoreFromAgreesIff(s, Wrap(x + F.ImmS(w)), s.x[F.Rs2(w)], k.n);
    }
  }

  lemma TransferReading(op: Op, w: Word, a: Word, b: Word)
    ensures KindOf(op).Branch? ==>
      Decode.Reading(op, w).Legal? &&
      var i := Decode.Reading(op, w).i;
      && i.Branch? && i.rs1 == F.Rs1(w) && i.rs2 == F.Rs2(w) && i.off == Signed(F.ImmB(w))
      && (Isa.Holds(i.cond, a, b) <==> Taken(op, a, b))
    ensures KindOf(op).Jump? ==>
      Decode.Reading(op, w) ==
        Isa.Legal(if op == JAL then Isa.Jal(F.Rd(w), Signed(F.ImmJ(w)))
                  else Isa.Jalr(F.Rd(w), F.Rs1(w), Signed(F.ImmI(w))))
  {
    hide F.ImmI, F.ImmU, F.ImmS, F.ImmB, F.ImmJ, F.Rd, F.Rs1, F.Rs2, F.Shamt;
  }

  lemma ExecuteTransfer(i: Isa.Instr, m: Isa.Machine)
    requires m.Valid()
    ensures i.Branch? ==>
      Isa.Execute(i, m) ==
        Isa.Next(if Isa.Holds(i.cond, m.x[i.rs1], m.x[i.rs2]) then m.(pc := Wrap(m.pc + i.off)) else m.Advance())
    ensures i.Jal? ==>
      Isa.Execute(i, m) == Isa.Next(m.Write(i.rd, Wrap(m.pc + 4)).(pc := Wrap(m.pc + i.off)))
    ensures i.Jalr? ==>
      Isa.Execute(i, m) == Isa.Next(m.Write(i.rd, Wrap(m.pc + 4)).(pc := ClearBit0(Wrap(m.x[i.rs1] + i.off))))
  {
    hide Isa.Holds;
  }

  lemma BranchAgreesHere(op: Op, w: Word, s: State)
    requires Ready(s) && KindOf(op).Branch?
    ensures Agrees(Finish(s.pc, Apply(op, w, s)), Isa.Execute(Decode.Reading(op, w).i, Abs(s)))
  {
    hide *;
    ReadyState(s);
    TransferReading(op, w, s.x[F.Rs1(w)], s.x[F.Rs2(w)]);
    WrapSigned(F.ImmB(w), s.pc);
    ApplyTransfer(op, w, s);
    ExecuteTransfer(Decode.Reading(op, w).i, Abs(s));
    FinishJump(s, Wrap(s.pc + F.ImmB(w)));
  }

  lemma JumpAgreesHere(op: Op, w: Word, s: State)
    requires Ready(s) && KindOf(op).Jump?
    ensures Agrees(Finish(s.pc, Apply(op, w, s)), Isa.Execute(Decode.Reading(op, w).i, Abs(s)))
  {
    hide *;
    ReadyState(s);
    var x := s.x[F.Rs1(w)];
    TransferReading(op, w, x, x);
    WrapSigned(F.ImmJ(w), s.pc);
    WrapSigned(F.ImmI(w), x);
    TargetValue(op, w, x, s.pc);
    ApplyTransfer(op, w, s);
    ExecuteTransfer(Decode.Reading(op, w).i, Abs(s));
    FinishPutJump(s, F.Rd(w), Wrap(s.pc + 4), Target(op, w, x, s.pc));
  }

  lemma FinishPutJump(s: State, rd: Reg, v: Word, target: Word)
    requires Ready(s)
    ensures Agrees(Finish(s.pc, Result(EOK, s.Put(rd, v).Jump(target))), Isa.Next(Abs(s).Write(rd, v).(pc := target)))
  {
    AbsPut(s, rd, v);
    hide Flat, Writable;
  }

  // One handler against one reference instruction: they agree exactly when the
  // instruction is regular and its memory access honest.
  lemma HandlerAgreesIff(op: Op, w: Word, s: State)
    requires Ready(s) && ShamtOk(op, w) && Decode.Reading(op, w).Legal?
    ensures var i := Decode.Reading(op, w).i;
      Agrees(Finish(s.pc, Apply(op, w, s)), Isa.Execute(i, Abs(s))) <==> HonestInstr(s.mem, i, Abs(s))
  {
    hide *;
    ReadyState(s);
    HonestParts(s.mem, Decode.Reading(op, w).i, Abs(s));
    if KindOf(op).Load? || KindOf(op).Store? {
      AccessAgreesIff(op, w, s);
    } else {
      HonestOfKind(op, w, s.mem, Abs(s));
      if KindOf(op).Branch? {
        BranchAgreesHere(op, w, s);
      } else if KindOf(op).Jump? {
        JumpAgreesHere(op, w, s);
      } else if KindOf(op).Compute? {
        ComputeAgreesIff(op, w, s);
      } else {
        QuietAgreesIff(op, w, s);
      }
    }
  }

  lemma HonestParts(mem: Mem, i: Isa.Instr, m: Isa.Machine)
    requires mem.Valid() && m.Valid()
    ensures HonestInstr(mem, i, m) <==> Regular(i, m) && HonestAccess(mem, i, m)
    ensures !i.Load? && !i.Store? ==> HonestAccess(mem, i, m)
    ensures i.Branch? || i.Jal? || i.Jalr? ==> Regular(i, m)
  {
    hide HonestRead, HonestWrite, SameUnder;
  }

  // Which of the conditions matter, by kind of handler.
  lemma HonestOfKind(op: Op, w: Word, mem: Mem, m: Isa.Machine)
    requires mem.Valid() && m.Valid() && Decode.Reading(op, w).Legal?
    requires !KindOf(op).Load? && !KindOf(op).Store?
    ensures HonestAccess(mem, Decode.Reading(op, w).i, m)
    ensures KindOf(op).Branch? || KindOf(op).Jump? ==> Regular(Decode.Reading(op, w).i, m)
    ensures KindOf(op).Quiet? || KindOf(op).Missing? ==> op in {FENCE, ECALL, EBREAK}
  {
    TransferReading(op, w, 0, 0);
    if KindOf(op).Compute? {
      ReadingWrites(op, w);
    }
    if KindOf(op).Quiet? || KindOf(op).Missing? {
      QuietKinds(op, w);
    }
    hide KindOf, Decode.Reading, HonestAccess, Regular, F.Rd, F.Rs1, F.Rs2, F.ImmI, F.ImmB, F.ImmJ, Isa.Holds, Taken;
    HonestParts(mem, Decode.Reading(op, w).i, m);
  }

  lemma QuietKinds(op: Op, w: Word)
    requires (KindOf(op).Quiet? || KindOf(op).Missing?) && Decode.Reading(op, w).Legal?
    ensures op in {FENCE, ECALL, EBREAK}
    ensures var i := Decode.Reading(op, w).i; !i.Load? && !i.Store?
  {
    hide F.ImmI, F.ImmU, F.ImmS, F.ImmB, F.ImmJ, F.Rd, F.Rs1, F.Rs2, F.Shamt;
    QuietOps(op);
  }

  lemma QuietOps(op: Op)
    ensures KindOf(op).Quiet? || KindOf(op).Missing? <==> op in {FENCE, FENCEI, ECALL, EBREAK, NOTHING}
  {
  }

  // fence does nothing on both sides; ecall and ebreak trap on the reference side only.
  lemma QuietAgreesIff(op: Op, w: Word, s: State)
    requires Ready(s) && op in {FENCE, ECALL, EBREAK}
    ensures var i := Decode.Reading(op, w).i;
      Agrees(Finish(s.pc, Apply(op, w, s)), Isa.Execute(i, Abs(s))) <==> Regular(i, Abs(s))
  {
    QuietSides(op, w, s);
    FinishJump(s, 0);
    hide Finish, Abs, Apply, Decode.Reading, Isa.Execute, Regular;
  }

  lemma QuietSides(op: Op, w: Word, s: State)
    requires Ready(s) && op in {FENCE, ECALL, EBREAK}
    ensures Apply(op, w, s) == Result(EOK, s)
    ensures Decode.Reading(op, w).Legal?
    ensures var i := Decode.Reading(op, w).i;
      && (Regular(i, Abs(s)) <==> op == FENCE)
      && if op == FENCE then Isa.Execute(i, Abs(s)) == Isa.Next(Abs(s).Advance()) else Isa.Execute(i, Abs(s)).Trap?
  {
    hide Abs, F.Rd, F.Rs1, F.Rs2, F.ImmI, F.ImmS, F.ImmB;
  }

  lemma Pow2Step(n: nat)
    requires n > 0
    ensures Pow2(n) == 2 * Pow2(n - 1)
  {
  }

  lemma ExtensionAgrees(data: seq<Byte>)
    requires 1 <= |data| <= 4
    ensures Sext(Word32(data), 8 * |data| - 1) == Isa.SignExtend(Le(data), 8 * |data|)
    ensures |data| == 4 ==> Isa.SignExtend(Le(data), 32) == Word32(data)
  {
    hide Pow2, Sext, Le, Wrap;
    var n := 8 * |data|;
    Pow2Step(n);
    Pow2Values();
    Pow2Monotone(n, 32);
    WrapNegative(if Le(data) < Pow2(n - 1) then Le(data) else Le(data) - Pow2(n));
  }

  // What the handlers do where they part from the reference.
  lemma DivergentImmediates(w: Word, s: State)
    requires s.Valid()
    ensures s.x[F.Rs1(w)] >= 0x8000_0000 ==> Apply(SLTI, w, s) == Result(EOK, s.Put(F.Rd(w), 0))
    ensures Apply(ORI, w, s) ==
      Result(EOK, s.Put(F.Rd(w), BitsOf(Disj, s.x[F.Rs1(w)], F.ImmI(w) / 32 % 128)))
  {
    hide *;
    StateSize(s);
    OriField(w);
    ImmediateApplied(w, s);
    SltiValue(w, s.x[F.Rs1(w)], s.x[F.Rs2(w)], s.pc);
  }

  lemma StateSize(s: State)
    requires s.Valid()
    ensures |s.x| == 32
  {
  }

  lemma ImmediateApplied(w: Word, s: State)
    requires s.Valid()
    ensures var a, b := s.x[F.Rs1(w)], s.x[F.Rs2(w)];
      && Apply(SLTI, w, s) == Result(EOK, s.Put(F.Rd(w), Value(SLTI, w, a, b, s.pc)))
      && Apply(ORI, w, s) == Result(EOK, s.Put(F.Rd(w), BitsOf(Disj, a, F.ImmOri(w))))
  {
    hide *;
    StateSize(s);
    ImmediateParts(w, s.x[F.Rs1(w)], s.x[F.Rs2(w)], s.pc);
    ApplyCompute(SLTI, w, s);
    ApplyCompute(ORI, w, s);
  }

  lemma ImmediateParts(w: Word, a: Word, b: Word, pc: Word)
    ensures KindOf(SLTI) == Compute && KindOf(ORI) == Compute
    ensures Refusal(SLTI, w, b) == EOK && Refusal(ORI, w, b) == EOK
    ensures Value(ORI, w, a, b, pc) == BitsOf(Disj, a, F.ImmOri(w))
  {
    hide F.ImmOri, BitsOf;
  }

  lemma SltiValue(w: Word, a: Word, b: Word, pc: Word)
    ensures a >= 0x8000_0000 ==> Value(SLTI, w, a, b, pc) == 0
  {
    hide F.ImmI;
  }

  lemma DivergentOperations(op: Op, w: Word, s: State)
    requires s.Valid()
    ensures op in {SLL, SRL} && s.x[F.Rs2(w)] >= 32 ==> Apply(op, w, s) == Result(Undefined, s)
    ensures op in {ECALL, EBREAK, FENCEI} ==> Apply(op, w, s) == Result(EOK, s)
  {
    hide F.ImmI, F.Rd, F.Rs1, F.Rs2, F.Shamt, Value, LoadInto, StoreFrom;
  }

  // ---------------------------------------------------------------- one iteration

  // The iteration splits into a failed fetch, the all-zero word, a word the base set
  // does not take, and a handler run on the prepared state.
  lemma IterateOnBase(s: State)
    requires s.Valid()
    ensures var f := MemRead(s.mem, s.pc, 4);
      Iterate([BaseI], s) ==
        if f.err != EOK then Stopped(FetchFailed(f.err), s)
        else if Word32(f.data) == 0 then Stopped(ZeroWord, s)
        else if IsValid(Word32(f.data)) then
          Finish(s.pc, Apply(Dispatch(Word32(f.data)), Word32(f.data), Prepared(s)))
        else Stopped(ExecFailed(EUNDEF), Prepared(s))
  {
    var f := MemRead(s.mem, s.pc, 4);
    if f.err == EOK {
      var w := Word32(f.data);
      hide MemRead, Word32, Apply, Dispatch, IsValid, Prepared;
      assert [BaseI][1..] == [];
      assert InstExec([], w, Prepared(s)) == Result(EUNDEF, Prepared(s));
    }
  }

  lemma PreparedState(s: State)
    requires s.Valid()
    ensures Ready(Prepared(s)) && Abs(Prepared(s)) == Abs(s) && Prepared(s).pc == s.pc && Prepared(s).mem == s.mem
  {
    hide Flat, Writable;
  }

  // Words the base set does not run: a trap on both sides.
  lemma RejectedAgrees(s: State, w: Word)
    requires s.Valid() && !Decode.Accepted(w)
    ensures Isa.Decode(w) == Isa.IllegalWord && !Decode.Extra(w)
    ensures var o := if IsValid(w) then Finish(s.pc, Apply(Dispatch(w), w, Prepared(s)))
                     else Stopped(ExecFailed(EUNDEF), Prepared(s));
      Agrees(o, Isa.Trap(Isa.IllegalInstruction, Abs(s)))
  {
    hide *;
    Decode.ExactDecode(w);
    PreparedState(s);
    ReadyState(Prepared(s));
    if IsValid(w) {
      RejectedOutcome(w, Prepared(s));
    }
    StoppedAgrees(ExecFailed(EUNDEF), Isa.IllegalInstruction, Prepared(s));
    StoppedAgrees(ExecFailed(EININST), Isa.IllegalInstruction, Prepared(s));
    MeansIllegal();
  }

  lemma MeansIllegal()
    ensures Means(ExecFailed(EUNDEF), Isa.IllegalInstruction) && Means(ExecFailed(EININST), Isa.IllegalInstruction)
    ensures Means(ZeroWord, Isa.IllegalInstruction)
    ensures forall err: Err :: Means(FetchFailed(err), Isa.FetchFault) <==> err != Undefined
  {
  }

  lemma RejectedOutcome(w: Word, s: State)
    requires s.Valid() && !Decode.Accepted(w) && IsValid(w)
    ensures Finish(s.pc, Apply(Dispatch(w), w, s)) in {Stopped(ExecFailed(EUNDEF), s), Stopped(ExecFailed(EININST), s)}
  {
    hide IsValid, F.Shamt;
    var op := Dispatch(w);
    hide Dispatch, Value, LoadInto, StoreFrom;
    assert op == NOTHING || (op in {SLLI, SRLI, SRAI} && F.Shamt(w) >= 32);
    RefusedOutcome(op, w, s);
  }

  lemma RefusedOutcome(op: Op, w: Word, s: State)
    requires s.Valid() && (op == NOTHING || (op in {SLLI, SRLI, SRAI} && F.Shamt(w) >= 32))
    ensures Finish(s.pc, Apply(op, w, s)) == Stopped(ExecFailed(if op == NOTHING then EUNDEF else EININST), s)
  {
    hide F.Shamt, F.Rd, F.Rs1, F.Rs2, Value, LoadInto, StoreFrom;
    if op == NOTHING {
      assert KindOf(op) == Missing;
    } else {
      assert KindOf(op) == Compute && Refusal(op, w, s.x[F.Rs2(w)]) == EININST;
    }
    hide KindOf, Refusal;
  }

  lemma StoppedAgrees(why: Stop, cause: Isa.Cause, s: State)
    requires s.Valid()
    ensures Agrees(Stopped(why, s), Isa.Trap(cause, Abs(s))) <==> Means(why, cause)
  {
    hide Abs, Means;
  }

  // The words outside the listing run, or hit an undefined shift; the reference traps.
  lemma ExtraDisagrees(s: State, w: Word)
    requires s.Valid() && Decode.Extra(w)
    ensures IsValid(w) && Isa.Decode(w) == Isa.IllegalWord
    ensures !Agrees(Finish(s.pc, Apply(Dispatch(w), w, Prepared(s))), Isa.Trap(Isa.IllegalInstruction, Abs(s)))
  {
    hide *;
    Decode.ExactDecode(w);
    PreparedState(s);
    ReadyState(Prepared(s));
    ExtraOperations(w);
    RunsOrUndefined(Dispatch(w), w, Prepared(s));
    DisagreesWithTrap(Finish(s.pc, Apply(Dispatch(w), w, Prepared(s))), Abs(s));
  }

  lemma ExtraOperations(w: Word)
    requires Decode.Extra(w) && Decode.Accepted(w)
    ensures IsValid(w) && ShamtOk(Dispatch(w), w)
    ensures var k := KindOf(Dispatch(w)); k.Quiet? || k.Jump? || k.Compute?
  {
    Decode.FieldFacts(w);
    hide Isa.Split, F.Opcode, F.Rd, F.Funct3, F.Rs1, F.Rs2, F.Funct7, F.Aa, F.Bbb, F.Cc, F.Shamt, F.IField;
  }

  lemma RunsOrUndefined(op: Op, w: Word, s: State)
    requires s.Valid() && ShamtOk(op, w)
    requires var k := KindOf(op); k.Quiet? || k.Branch? || k.Jump? || k.Compute?
    ensures var o := Finish(s.pc, Apply(op, w, s)); o.Running? || o.why == ExecFailed(Undefined)
  {
    hide Value, Target, F.Rd, F.Rs1, F.Rs2, F.Shamt;
  }

  lemma DisagreesWithTrap(o: Outcome, m: Isa.Machine)
    requires o.Running? || o.why == ExecFailed(Undefined)
    ensures !Agrees(o, Isa.Trap(Isa.IllegalInstruction, m))
  {
  }

  // What an iteration makes of the word it fetched.
  ghost function Ran(s: State, w: Word): Outcome
    requires s.Valid()
  {
    if w == 0 then Stopped(ZeroWord, s)
    else if IsValid(w) then Finish(s.pc, Apply(Dispatch(w), w, Prepared(s)))
    else Stopped(ExecFailed(EUNDEF), Prepared(s))
  }

  // What the reference makes of the word in memory.
  function Meant(seen: Word, m: Isa.Machine): Isa.Outcome
    requires m.Valid()
  {
    match Isa.Decode(seen)
    case IllegalWord => Isa.Trap(Isa.IllegalInstruction, m)
    case Legal(i) => Isa.Execute(i, m)
  }

  // An outcome other than the two a fetched word decides on its own.
  ghost predicate Ordinary(r: Isa.Outcome) {
    r.Trap? ==> r.cause in {Isa.AccessFault, Isa.EnvironmentCall, Isa.Breakpoint}
  }

  lemma ExecuteCauses(i: Isa.Instr, m: Isa.Machine)
    requires m.Valid()
    ensures Ordinary(Isa.Execute(i, m))
  {
    hide Isa.Alu, Isa.Holds, Isa.Covers, Isa.Value, Isa.Stored, Isa.SignExtend;
  }

  lemma MeantCauses(seen: Word, m: Isa.Machine)
    requires m.Valid()
    ensures Meant(seen, m).Trap? ==> Meant(seen, m).cause != Isa.FetchFault
    ensures Isa.Decode(seen).Legal? && Meant(seen, m).Trap? ==> Meant(seen, m).cause != Isa.IllegalInstruction
  {
    hide Isa.Decode, Isa.Execute;
    if Isa.Decode(seen).Legal? {
      ExecuteCauses(Isa.Decode(seen).i, m);
    }
  }

  ghost predicate IllegalStop(why: Stop) {
    why == ZeroWord || (why.ExecFailed? && why.err in {EUNDEF, EININST})
  }

  // A stop agrees only with a trap of its own kind.
  lemma StopsApart(why: Stop, s: State, r: Isa.Outcome)
    requires s.Valid()
    ensures Agrees(Stopped(why, s), r) && why.FetchFailed? ==> r.Trap? && r.cause == Isa.FetchFault
    ensures Agrees(Stopped(why, s), r) && IllegalStop(why) ==> r.Trap? && r.cause == Isa.IllegalInstruction
    ensures Agrees(Stopped(why, s), r) && r.Trap? && r.cause == Isa.FetchFault ==> why.FetchFailed?
    ensures Agrees(Stopped(why, s), r) && r.Trap? && r.cause == Isa.IllegalInstruction ==> IllegalStop(why)
  {
    hide Abs;
  }

  lemma RunningApart(s: State, r: Isa.Outcome)
    ensures Agrees(Running(s), r) ==> r.Next?
  {
    hide Abs;
  }

  lemma RanCases(s: State, w: Word)
    requires s.Valid()
    ensures Ran(s, w).s.Valid()
    ensures !Decode.Accepted(w) ==> Ran(s, w).Stopped? && IllegalStop(Ran(s, w).why)
    ensures Decode.Accepted(w) ==> Ran(s, w) == Finish(s.pc, Apply(Dispatch(w), w, Prepared(s)))
    ensures Ran(s, w).Stopped? ==> !Ran(s, w).why.FetchFailed?
    ensures Decode.Accepted(w) && Ran(s, w).Stopped? ==> !IllegalStop(Ran(s, w).why)
  {
    hide *;
    PreparedState(s);
    ReadyState(Prepared(s));
    RanParts(s, w);
    Decode.ExactDecode(0);
    ZeroIsIllegal();
    FinishFails(s.pc, Apply(Dispatch(w), w, Prepared(s)));
    if Decode.Accepted(w) {
      AcceptedParts(w);
      AcceptedErrors(Dispatch(w), w, Prepared(s));
      IllegalErrors();
    } else {
      IllegalErrors();
      if IsValid(w) {
        RejectedOutcome(w, Prepared(s));
      }
    }
    ApplyDisciplined(Dispatch(w), w, Prepared(s));
    FinishValid(s, w);
  }

  lemma RanParts(s: State, w: Word)
    requires s.Valid()
    ensures Ran(s, w) ==
      if w == 0 then Stopped(ZeroWord, s)
      else if IsValid(w) then Finish(s.pc, Apply(Dispatch(w), w, Prepared(s)))
      else Stopped(ExecFailed(EUNDEF), Prepared(s))
  {
  }

  lemma FinishValid(s: State, w: Word)
    requires s.Valid() && Disciplined(Prepared(s), Apply(Dispatch(w), w, Prepared(s)))
    ensures Finish(s.pc, Apply(Dispatch(w), w, Prepared(s))).s.Valid()
  {
    hide Apply, Dispatch, Prepared, SameShape;
  }

  lemma FinishFails(pc: Word, r: Result)
    ensures Finish(pc, r).Stopped? <==> r.err != EOK
    ensures r.err != EOK ==> Finish(pc, r).why == ExecFailed(r.err)
  {
  }

  lemma IllegalErrors()
    ensures IllegalStop(ZeroWord)
    ensures forall err: Err :: IllegalStop(ExecFailed(err)) <==> err in {EUNDEF, EININST}
  {
  }

  lemma AccessErrors(s: State, rd: Reg, a: Word, v: Word, n: nat, signed: bool)
    requires s.Valid() && 1 <= n <= 4
    ensures LoadInto(s, rd, a, n, signed).err !in {EUNDEF, EININST}
    ensures StoreFrom(s, a, v, n).err !in {EUNDEF, EININST}
  {
    hide MemRead, MemWrite, ToLe, Sext, Word32;
    ReadErrors(s.mem, a, n);
    WriteErrors(s.mem, a, ToLe(v, n));
  }

  // What an accepted word can fail with.
  lemma AcceptedErrors(op: Op, w: Word, s: State)
    requires s.Valid() && ShamtOk(op, w) && op != NOTHING
    ensures Apply(op, w, s).err !in {EUNDEF, EININST}
  {
    hide *;
    StateSize(s);
    var k, x := KindOf(op), s.x[F.Rs1(w)];
    OnlyNothingMissing(op);
    if k.Load? || k.Store? {
      ApplyAccess(op, w, s);
      AccessErrors(s, F.Rd(w), Wrap(x + if k.Load? then F.ImmI(w) else F.ImmS(w)), s.x[F.Rs2(w)], k.n,
                   k.Load? && k.signed);
    } else {
      RunsOrUndefined(op, w, s);
      FinishFails(s.pc, Apply(op, w, s));
    }
  }

  lemma OnlyNothingMissing(op: Op)
    ensures KindOf(op).Missing? <==> op == NOTHING
  {
  }

  lemma WordParts(s: State, w: Word, seen: Word)
    requires s.Valid()
    ensures match Isa.Decode(seen)
      case IllegalWord =>
        && (HonestWord(s, w, seen) <==> if w == seen then !Decode.Extra(w) else !Decode.Accepted(w))
        && Meant(seen, Abs(s)) == Isa.Trap(Isa.IllegalInstruction, Abs(s))
      case Legal(i) =>
        && (HonestWord(s, w, seen) <==>
              if w == seen then !Decode.Extra(w) && HonestInstr(s.mem, i, Abs(s))
              else Decode.Accepted(w) && ActsAs(s, w, i))
        && Meant(seen, Abs(s)) == Isa.Execute(i, Abs(s))
  {
    hide ActsAs, Isa.Execute, Isa.Decode, HonestInstr, Abs, Decode.Extra, Decode.Accepted;
  }

  // A rejected or extra or listed word, against itself.
  lemma SameWordAgreesIff(s: State, w: Word)
    requires s.Valid()
    ensures Agrees(Ran(s, w), Meant(w, Abs(s))) <==> HonestWord(s, w, w)
  {
    hide *;
    WordParts(s, w, w);
    RanParts(s, w);
    Decode.ExactDecode(w);
    PreparedState(s);
    ReadyState(Prepared(s));
    if w == 0 {
      ZeroIsIllegal();
      MeansIllegal();
      StoppedAgrees(ZeroWord, Isa.IllegalInstruction, s);
    } else if Decode.Extra(w) {
      ExtraDisagrees(s, w);
    } else if !Decode.Accepted(w) {
      RejectedAgrees(s, w);
    } else {
      AcceptedParts(w);
      HandlerAgreesIff(Dispatch(w), w, Prepared(s));
    }
  }

  lemma HonestCauses(mem: Mem, i: Isa.Instr, m: Isa.Machine)
    requires mem.Valid() && m.Valid() && HonestInstr(mem, i, m) && Isa.Execute(i, m).Trap?
    ensures Isa.Execute(i, m) == Isa.Trap(Isa.AccessFault, m)
  {
    hide Isa.Alu, Isa.Holds, Isa.Covers, Isa.Value, Isa.Stored, Isa.SignExtend, HonestRead, HonestWrite, SameUnder;
  }

  // Agreeing with one of two outcomes is agreeing with the other exactly when they are
  // the same, for outcomes of instructions.
  lemma AgreesWithOne(o: Outcome, r: Isa.Outcome, q: Isa.Outcome, m: Isa.Machine)
    requires Agrees(o, r) && (r.Trap? ==> r == Isa.Trap(Isa.AccessFault, m)) && Ordinary(q)
    ensures Agrees(o, q) <==> q == r
  {
    hide Abs;
  }

  // A word that is itself honest acts as an instruction exactly when the reference
  // gives both the same outcome.
  lemma ActsAsIff(s: State, w: Word, i: Isa.Instr)
    requires s.Valid() && Isa.Decode(w).Legal? && HonestInstr(s.mem, Isa.Decode(w).i, Abs(s))
    ensures ActsAs(s, w, i) <==> Isa.Execute(i, Abs(s)) == Isa.Execute(Isa.Decode(w).i, Abs(s))
  {
    hide *;
    FetchParts(s);
    Decode.ExactDecode(w);
    AcceptedParts(w);
    PreparedState(s);
    ReadyState(Prepared(s));
    HandlerAgreesIff(Dispatch(w), w, Prepared(s));
    ExecuteCauses(i, Abs(s));
    var j, m := Isa.Decode(w).i, Abs(s);
    if Isa.Execute(j, m).Trap? {
      HonestCauses(s.mem, j, m);
    }
    AgreesWithOne(Finish(s.pc, Apply(Dispatch(w), w, Prepared(s))), Isa.Execute(j, m), Isa.Execute(i, m), m);
    ActsAsMeans(s, w, i);
  }

  lemma FetchParts(s: State)
    requires s.Valid()
    ensures s.mem.Valid() && |s.x| == 32
  {
  }

  // The handler of any accepted word, over any memory map, agrees with an instruction
  // exactly when the instruction's outcome is what the handler does.
  lemma ActsAsMeans(s: State, w: Word, i: Isa.Instr)
    requires s.Valid() && Decode.Accepted(w)
    ensures Agrees(Finish(s.pc, Apply(Dispatch(w), w, Prepared(s))), Isa.Execute(i, Abs(s))) <==> ActsAs(s, w, i)
  {
    hide *;
    PreparedState(s);
    ReadyState(Prepared(s));
    AcceptedParts(w);
    ExecuteCauses(i, Abs(s));
    HandlerDoes(Dispatch(w), w, Prepared(s), Isa.Execute(i, Abs(s)));
    ActsAsParts(s, w, i);
  }

  lemma ActsAsParts(s: State, w: Word, i: Isa.Instr)
    requires s.Valid()
    ensures s.mem.Valid()
    ensures ActsAs(s, w, i) <==> Does(Dispatch(w), w, s.mem, Abs(s), Isa.Execute(i, Abs(s)))
  {
    hide Does, Dispatch, Abs, Isa.Execute;
  }

  lemma UndefinedDisagrees(s: State, r: Isa.Outcome)
    requires Ordinary(r)
    ensures !Agrees(Stopped(ExecFailed(Undefined), s), r)
  {
    hide Abs;
  }

  lemma HandlerDoes(op: Op, w: Word, s: State, r: Isa.Outcome)
    requires Ready(s) && ShamtOk(op, w) && op != NOTHING && Ordinary(r)
    ensures s.mem.Valid()
    ensures Agrees(Finish(s.pc, Apply(op, w, s)), r) <==> Does(op, w, s.mem, Abs(s), r)
  {
    hide *;
    ReadyState(s);
    OnlyNothingMissing(op);
    if KindOf(op).Load? {
      LoadDoes(op, w, s, r);
    } else if KindOf(op).Store? {
      StoreDoes(op, w, s, r);
    } else if KindOf(op).Compute? {
      ComputeDoes(op, w, s, r);
    } else {
      TransferDoes(op, w, s, r);
    }
  }

  lemma ComputeDoes(op: Op, w: Word, s: State, r: Isa.Outcome)
    requires Ready(s) && ShamtOk(op, w) && Ordinary(r) && KindOf(op).Compute?
    ensures s.mem.Valid()
    ensures Agrees(Finish(s.pc, Apply(op, w, s)), r) <==> Does(op, w, s.mem, Abs(s), r)
  {
    hide *;
    ReadyState(s);
    var m, rd, a, b := Abs(s), F.Rd(w), s.x[F.Rs1(w)], s.x[F.Rs2(w)];
    var v := Value(op, w, a, b, s.pc);
    ComputeOutcome(op, w, s);
    DoesCompute(op, w, s.mem, m, r);
    if op in {SLL, SRL} && b >= 32 {
      UndefinedDisagrees(s, r);
    } else {
      PutAgreesIff(s, rd, v, v);
      AgreesWithOne(Finish(s.pc, Result(EOK, s.Put(rd, v))), Isa.Next(m.Write(rd, v).Advance()), r, m);
    }
  }

  lemma DoesCompute(op: Op, w: Word, mem: Mem, m: Isa.Machine, r: Isa.Outcome)
    requires mem.Valid() && m.Valid() && KindOf(op).Compute?
    ensures var a, b := m.x[F.Rs1(w)], m.x[F.Rs2(w)];
      Does(op, w, mem, m, r) <==>
      !(op in {SLL, SRL} && b >= 32) && r == Isa.Next(m.Write(F.Rd(w), Value(op, w, a, b, m.pc)).Advance())
  {
    hide KindOf, Value, F.Rd, F.Rs1, F.Rs2;
  }

  lemma TransferDoes(op: Op, w: Word, s: State, r: Isa.Outcome)
    requires Ready(s) && Ordinary(r) && (KindOf(op).Quiet? || KindOf(op).Branch? || KindOf(op).Jump?)
    ensures s.mem.Valid()
    ensures Agrees(Finish(s.pc, Apply(op, w, s)), r) <==> Does(op, w, s.mem, Abs(s), r)
  {
    hide *;
    ReadyState(s);
    var m, a, b := Abs(s), s.x[F.Rs1(w)], s.x[F.Rs2(w)];
    var o := Finish(s.pc, Apply(op, w, s));
    DoesTransfer(op, w, s.mem, m, r);
    if KindOf(op).Quiet? {
      OnlyNothingMissing(op);
      QuietOps(op);
      ApplyIdle(op, w, s);
      FinishJump(s, 0);
      AgreesWithOne(o, Isa.Next(m.Advance()), r, m);
    } else if KindOf(op).Jump? {
      ApplyTransfer(op, w, s);
      FinishPutJump(s, F.Rd(w), Wrap(s.pc + 4), Target(op, w, a, s.pc));
      AgreesWithOne(o, Isa.Next(m.Write(F.Rd(w), Wrap(s.pc + 4)).(pc := Target(op, w, a, s.pc))), r, m);
    } else {
      var target := Wrap(s.pc + F.ImmB(w));
      ApplyTransfer(op, w, s);
      FinishJump(s, target);
      AgreesWithOne(o, Isa.Next(if Taken(op, a, b) then m.(pc := target) else m.Advance()), r, m);
    }
  }

  lemma DoesTransfer(op: Op, w: Word, mem: Mem, m: Isa.Machine, r: Isa.Outcome)
    requires mem.Valid() && m.Valid()
    ensures KindOf(op).Quiet? ==> (Does(op, w, mem, m, r) <==> r == Isa.Next(m.Advance()))
    ensures KindOf(op).Branch? ==>
      (Does(op, w, mem, m, r) <==>
       r == Isa.Next(if Taken(op, m.x[F.Rs1(w)], m.x[F.Rs2(w)]) then m.(pc := Wrap(m.pc + F.ImmB(w))) else m.Advance()))
    ensures KindOf(op).Jump? ==>
      (Does(op, w, mem, m, r) <==>
       r == Isa.Next(m.Write(F.Rd(w), Wrap(m.pc + 4)).(pc := Target(op, w, m.x[F.Rs1(w)], m.pc))))
  {
    hide KindOf, Taken, Target, Wrap, F.ImmB, F.Rd, F.Rs1, F.Rs2;
  }

  lemma LoadDoes(op: Op, w: Word, s: State, r: Isa.Outcome)
    requires Ready(s) && Ordinary(r) && KindOf(op).Load?
    ensures s.mem.Valid()
    ensures Agrees(Finish(s.pc, Apply(op, w, s)), r) <==> Does(op, w, s.mem, Abs(s), r)
  {
    hide *;
    ReadyState(s);
    var m, rd, n, signed := Abs(s), F.Rd(w), KindOf(op).n, KindOf(op).signed;
    var a := Wrap(s.x[F.Rs1(w)] + F.ImmI(w));
    var f, o := MemRead(s.mem, a, n), Finish(s.pc, Apply(op, w, s));
    ApplyAccess(op, w, s);
    LoadSides(s, rd, a, n, signed);
    ReadErrors(s.mem, a, n);
    DoesAccess(op, w, s.mem, m, r);
    if f.err == EOK {
      var v := if signed then Sext(Word32(f.data), 8 * n - 1) else Word32(f.data);
      PutAgreesIff(s, rd, v, v);
      AgreesWithOne(o, Isa.Next(m.Write(rd, v).Advance()), r, m);
    } else {
      FailureDoes(f.err, s, r);
    }
  }

  lemma FailureDoes(err: Err, s: State, r: Isa.Outcome)
    requires s.Valid() && Ordinary(r) && err in {EFAULT, ERANGE, EACCESS, Undefined}
    ensures Agrees(Stopped(ExecFailed(err), s), r) <==> err != Undefined && r == Isa.Trap(Isa.AccessFault, Abs(s))
  {
    hide *;
    if err == Undefined {
      UndefinedDisagrees(s, r);
    } else {
      AccessFaultMeans(err);
      StoppedAgrees(ExecFailed(err), Isa.AccessFault, s);
      AgreesWithOne(Stopped(ExecFailed(err), s), Isa.Trap(Isa.AccessFault, Abs(s)), r, Abs(s));
    }
  }

  lemma StoreDoes(op: Op, w: Word, s: State, r: Isa.Outcome)
    requires Ready(s) && Ordinary(r) && KindOf(op).Store?
    ensures s.mem.Valid()
    ensures Agrees(Finish(s.pc, Apply(op, w, s)), r) <==> Does(op, w, s.mem, Abs(s), r)
  {
    hide *;
    ReadyState(s);
    var m, n, v := Abs(s), KindOf(op).n, s.x[F.Rs2(w)];
    var a := Wrap(s.x[F.Rs1(w)] + F.ImmS(w));
    var f, o := MemWrite(s.mem, a, ToLe(v, n)), Finish(s.pc, Apply(op, w, s));
    ApplyAccess(op, w, s);
    FinishStore(s, a, v, n);
    WriteErrors(s.mem, a, ToLe(v, n));
    DoesAccess(op, w, s.mem, m, r);
    if f.err == EOK {
      AgreesWithOne(o, Isa.Next(m.(mem := Flat(f.target)).Advance()), r, m);
    } else {
      FailureDoes(f.err, s, r);
    }
  }

  lemma FinishStore(s: State, a: Word, v: Word, n: nat)
    requires Ready(s)
    ensures var f, o := MemWrite(s.mem, a, ToLe(v, n)), Finish(s.pc, StoreFrom(s, a, v, n));
      && (f.err == EOK ==> f.target.Valid() && Agrees(o, Isa.Next(Abs(s).(mem := Flat(f.target)).Advance())))
      && (f.err != EOK ==> o == Stopped(ExecFailed(f.err), s))
  {
    hide Flat, Writable, MemWrite, ToLe;
    if MemWrite(s.mem, a, ToLe(v, n)).err == EOK {
      WriteKeepsWritable(s.mem, a, ToLe(v, n));
    }
  }

  lemma WriteKeepsWritable(m: Mem, a: Word, data: seq<Byte>)
    requires m.Valid() && MemWrite(m, a, data).err == EOK
    ensures var m' := MemWrite(m, a, data).target; m'.Valid() && Writable(m') == Writable(m)
  {
    hide Writable, InRam, ByteAfter, Mapped, ByteAt, MemWrite;
    var m' := MemWrite(m, a, data).target;
    forall b: Word
      ensures b in Writable(m') <==> b in Writable(m)
    {
      ByteAfterWrite(m, a, data, b);
      FlatDomain(m, b);
      FlatDomain(m', b);
    }
  }

  lemma DoesAccess(op: Op, w: Word, mem: Mem, m: Isa.Machine, r: Isa.Outcome)
    requires mem.Valid() && m.Valid()
    ensures KindOf(op).Load? ==>
      var n, signed := KindOf(op).n, KindOf(op).signed;
      var f := MemRead(mem, Wrap(m.x[F.Rs1(w)] + F.ImmI(w)), n);
      Does(op, w, mem, m, r) <==>
        if f.err == EOK then
          r == Isa.Next(m.Write(F.Rd(w), if signed then Sext(Word32(f.data), 8 * n - 1) else Word32(f.data)).Advance())
        else f.err != Undefined && r == Isa.Trap(Isa.AccessFault, m)
    ensures KindOf(op).Store? ==>
      var f := MemWrite(mem, Wrap(m.x[F.Rs1(w)] + F.ImmS(w)), ToLe(m.x[F.Rs2(w)], KindOf(op).n));
      Does(op, w, mem, m, r) <==>
        if f.err == EOK then r == Isa.Next(m.(mem := Flat(f.target)).Advance())
        else f.err != Undefined && r == Isa.Trap(Isa.AccessFault, m)
  {
    hide KindOf, MemRead, MemWrite, Flat, Sext, Word32, ToLe, Wrap, F.ImmI, F.ImmS, F.Rd, F.Rs1, F.Rs2;
  }

  // One word run against another word meant.
  lemma OtherWordAgreesIff(s: State, w: Word, seen: Word)
    requires s.Valid() && w != seen
    ensures Agrees(Ran(s, w), Meant(seen, Abs(s))) <==> HonestWord(s, w, seen)
  {
    hide *;
    WordParts(s, w, seen);
    RanCases(s, w);
    MeantCauses(seen, Abs(s));
    var o, r := Ran(s, w), Meant(seen, Abs(s));
    if o.Stopped? {
      StopsApart(o.why, o.s, r);
    } else {
      RunningApart(o.s, r);
    }
    if Decode.Accepted(w) && Isa.Decode(seen).Legal? {
      ActsAsMeans(s, w, Isa.Decode(seen).i);
    }
    if Isa.Decode(seen) == Isa.IllegalWord && !Decode.Accepted(w) {
      SameWordAgreesIff(s, w);
      WordParts(s, w, w);
      Decode.ExactDecode(w);
    }
  }

  lemma FetchOutcome(s: State)
    requires s.Valid()
    ensures var f := MemRead(s.mem, s.pc, 4);
      HonestRead(s.mem, s.pc, 4, false) <==>
      f.err != Undefined && (f.err == EOK <==> Isa.Covers(Abs(s).mem.Keys, s.pc, 4))
  {
    hide MemRead, Flat, Writable, Isa.Covers, HonestRead;
    ReadAgreesIff(s.mem, s.pc, 4, false);
  }

  lemma StepParts(s: State)
    requires s.Valid()
    ensures var m, covered := Abs(s), Isa.Covers(Abs(s).mem.Keys, s.pc, 4);
      && s.mem.Valid() && m.pc == s.pc
      && Isa.Step(m) == (if covered then Meant(Fetched(m), m) else Isa.Trap(Isa.FetchFault, m))
      && (HonestStep(s) <==>
            HonestRead(s.mem, s.pc, 4, false) &&
            var f := MemRead(s.mem, s.pc, 4);
            (f.err == EOK && covered ==> HonestWord(s, Word32(f.data), Fetched(m))))
  {
    hide MemRead, Flat, Writable, Isa.Covers, Isa.Value, HonestRead, HonestWord, Isa.Decode, Isa.Execute, Word32;
  }

  lemma IterateRan(s: State)
    requires s.Valid()
    ensures var f := MemRead(s.mem, s.pc, 4);
      Iterate([BaseI], s) == if f.err != EOK then Stopped(FetchFailed(f.err), s) else Ran(s, Word32(f.data))
  {
    hide MemRead, Word32, Iterate, Apply, Dispatch, IsValid, Prepared, Finish;
    IterateOnBase(s);
  }

  // One iteration of the loop against one reference step, from every state over every
  // memory map: they agree exactly when the step is honest.
  lemma StepAgreesIff(s: State)
    requires s.Valid()
    ensures Agrees(Iterate([BaseI], s), Isa.Step(Abs(s))) <==> HonestStep(s)
  {
    hide *;
    StepParts(s);
    FetchOutcome(s);
    IterateRan(s);
    MeansIllegal();
    var f, m := MemRead(s.mem, s.pc, 4), Abs(s);
    ReadErrors(s.mem, s.pc, 4);
    if f.err != EOK {
      StoppedAgrees(FetchFailed(f.err), Isa.FetchFault, s);
      StopsApart(FetchFailed(f.err), s, Isa.Step(m));
      if Isa.Covers(m.mem.Keys, s.pc, 4) {
        MeantCauses(Fetched(m), m);
      }
    } else {
      var w := Word32(f.data);
      if Isa.Covers(m.mem.Keys, s.pc, 4) {
        WordAgreesIff(s, w, Fetched(m));
      } else {
        RanCases(s, w);
        var o := Ran(s, w);
        if o.Stopped? {
          StopsApart(o.why, o.s, Isa.Step(m));
        } else {
          RunningApart(o.s, Isa.Step(m));
        }
      }
    }
  }

  lemma WordAgreesIff(s: State, w: Word, seen: Word)
    requires s.Valid()
    ensures Agrees(Ran(s, w), Meant(seen, Abs(s))) <==> HonestWord(s, w, seen)
  {
    hide *;
    if w == seen {
      SameWordAgreesIff(s, w);
    } else {
      OtherWordAgreesIff(s, w, seen);
    }
  }

  lemma ZeroIsIllegal()
    ensures Isa.Decode(0) == Isa.IllegalWord && !Decode.Extra(0)
  {
  }

  lemma AcceptedParts(w: Word)
    requires Decode.Accepted(w)
    ensures IsValid(w) && ShamtOk(Dispatch(w), w) && Dispatch(w) != NOTHING
  {
    hide IsValid, Dispatch, F.Shamt;
  }
}
