/** Two-instruction idioms of the base set on the interpreter: building constants
    and addresses, far jumps, and sign extension by a pair of shifts. */
module Idioms {
  import opened Words
  import opened Memory
  import opened Isa
  import opened Encoding
  import opened Programs
  import opened Runs
  import opened Simulation
  import FM = FlatMemory
  import RV32I

  // The split of a word into an upper immediate and a signed 12-bit rest.
  function Low(c: Word): int {
    (c + 0x800) % 0x1000 - 0x800
  }

  function High(c: Word): Word {
    Wrap(c - Low(c))
  }

  lemma SplitConstant(c: Word)
    ensures -0x800 <= Low(c) < 0x800 && High(c) % 0x1000 == 0
    ensures Wrap(High(c) + Low(c)) == c
    ensures forall rd: Reg, rs1: Reg :: WellFormed(OpImm(Add, rd, rs1, Low(c))) && WellFormed(Jalr(rd, rs1, Low(c)))
    ensures forall rd: Reg :: WellFormed(Lui(rd, High(c))) && WellFormed(Auipc(rd, High(c)))
  {
  }

  // The setting of a pair of instructions about to run.
  ghost predicate Placed(layout: Mem, m: Isa.Machine, i: Instr, j: Instr)
    requires layout.Valid()
  {
    CodeAt(m.mem, m.pc, [i, j]) && FM.Contained(layout, m.pc, 8) && FM.Mapped(layout, m.pc)
  }

  lemma PairGoes(layout: Mem, m: Isa.Machine, i: Instr, j: Instr, m': Isa.Machine, m'': Isa.Machine)
    requires layout.Valid() && m.Valid() && m'.Valid() && m''.Valid() && Placed(layout, m, i, j)
    requires WellFormed(i) && TameInstr(layout, i, m) && Execute(i, m) == Next(m')
    requires m'.pc == m.pc + 4 && m'.mem == m.mem
    requires WellFormed(j) && TameInstr(layout, j, m') && Execute(j, m') == Next(m'')
    ensures Goes(2, layout, m, m'')
  {
    hide *;
    PlacedParts(layout, m, i, j);
    InstrGoes(layout, m, m.pc, [i, j], 0);
    InstrGoes(layout, m', m.pc, [i, j], 1);
    GoesThen(1, 1, layout, m, m', m'');
  }

  lemma PlacedParts(layout: Mem, m: Isa.Machine, i: Instr, j: Instr)
    requires layout.Valid() && m.Valid() && Placed(layout, m, i, j)
    ensures m.pc + 8 < 0x1_0000_0000 && CodeAt(m.mem, m.pc, [i, j])
    ensures FM.Contained(layout, m.pc, 4) && FM.Contained(layout, m.pc + 4, 4)
  {
    hide FM.Contained, FM.Mapped, Image;
    ContainedPart(layout, m.pc, 8, m.pc, 4);
    ContainedPart(layout, m.pc, 8, m.pc + 4, 4);
  }

  // lui; addi leaves any given constant.
  lemma LoadConstant(layout: Mem, m: Isa.Machine, rd: Reg, c: Word)
    requires layout.Valid() && m.Valid() && rd != 0
    requires Placed(layout, m, Lui(rd, High(c)), OpImm(Add, rd, rd, Low(c)))
    ensures m.pc + 8 < 0x1_0000_0000
    ensures Goes(2, layout, m, m.(x := m.x[rd := c], pc := m.pc + 8))
  {
    hide Placed, Goes, High, Low, Execute, TameInstr, WellFormed, Wrap;
    var i, j := Lui(rd, High(c)), OpImm(Add, rd, rd, Low(c));
    PlacedParts(layout, m, i, j);
    SplitConstant(c);
    WrapWord(m.pc + 4);
    WrapWord(m.pc + 8);
    var m' := m.(x := m.x[rd := High(c)], pc := m.pc + 4);
    LuiEffect(layout, m, rd, High(c));
    AddiEffect(layout, m', rd, Low(c));
    assert m.x[rd := High(c)][rd := c] == m.x[rd := c];
    PairGoes(layout, m, i, j, m', m.(x := m.x[rd := c], pc := m.pc + 8));
  }

  // The pair `la` stands for: the address of target relative to pc.
  function AddressPair(rd: Reg, target: Word, pc: Word): seq<Instr> {
    var d := Wrap(target - pc);
    [Auipc(rd, High(d)), OpImm(Add, rd, rd, Low(d))]
  }

  lemma RelativeParts(target: Word, pc: Word)
    ensures var d := Wrap(target - pc);
      Wrap(Wrap(pc + High(d)) + Low(d)) == target
  {
    hide High, Low, Wrap;
    var d := Wrap(target - pc);
    SplitConstant(d);
    WrapInside(pc + High(d), Low(d));
    WrapInside(High(d) + Low(d), pc);
    WrapInside(target - pc, pc);
    assert Wrap(target) == target by { WrapWord(target); }
  }

  // auipc; addi leaves any given address, from wherever it runs.
  lemma LoadAddress(layout: Mem, m: Isa.Machine, rd: Reg, target: Word)
    requires layout.Valid() && m.Valid() && rd != 0
    requires var pair := AddressPair(rd, target, m.pc); Placed(layout, m, pair[0], pair[1])
    ensures m.pc + 8 < 0x1_0000_0000
    ensures Goes(2, layout, m, m.(x := m.x[rd := target], pc := m.pc + 8))
  {
    hide Placed, Goes, High, Low, Execute, TameInstr, WellFormed;
    var d := Wrap(target - m.pc);
    var i, j := Auipc(rd, High(d)), OpImm(Add, rd, rd, Low(d));
    PlacedParts(layout, m, i, j);
    SplitConstant(d);
    RelativeParts(target, m.pc);
    var base := Wrap(m.pc + High(d));
    hide Wrap;
    WrapWord(m.pc + 4);
    WrapWord(m.pc + 8);
    var m' := m.(x := m.x[rd := base], pc := m.pc + 4);
    AuipcEffect(layout, m, rd, High(d));
    AddiEffect(layout, m', rd, Low(d));
    assert m.x[rd := base][rd := target] == m.x[rd := target];
    PairGoes(layout, m, i, j, m', m.(x := m.x[rd := target], pc := m.pc + 8));
  }

  lemma FarCallParts(layout: Mem, m: Isa.Machine, rd: Reg, link: Reg, imm: Word, off: int, base: Word, target: Word)
    requires layout.Valid() && m.Valid() && rd != 0 && m.pc + 8 < 0x1_0000_0000
    requires base == Wrap(m.pc + imm) && target == Wrap(base + off)
    requires Placed(layout, m, Auipc(rd, imm), Jalr(link, rd, off))
    requires WellFormed(Auipc(rd, imm)) && WellFormed(Jalr(link, rd, off))
    ensures Goes(2, layout, m, m.(x := m.x[rd := base]).Write(link, m.pc + 8).(pc := RV32I.ClearBit0(target)))
  {
    hide Placed, Goes, Execute, TameInstr, WellFormed, Wrap;
    WrapWord(m.pc + 4);
    var m' := m.(x := m.x[rd := base], pc := m.pc + 4);
    AuipcEffect(layout, m, rd, imm);
    JalrEffect(layout, m', link, rd, off, target);
    PairGoes(layout, m, Auipc(rd, imm), Jalr(link, rd, off), m',
             m'.Write(link, m.pc + 8).(pc := RV32I.ClearBit0(target)));
  }

  // auipc; jalr reaches any given target, with bit 0 cleared, and links; d is how far.
  lemma FarCall(layout: Mem, m: Isa.Machine, rd: Reg, link: Reg, target: Word, d: Word)
    requires layout.Valid() && m.Valid() && rd != 0 && d == Wrap(target - m.pc)
    requires Placed(layout, m, Auipc(rd, High(d)), Jalr(link, rd, Low(d)))
    ensures m.pc + 8 < 0x1_0000_0000
    ensures Goes(2, layout, m,
      m.(x := m.x[rd := Wrap(m.pc + High(d))]).Write(link, m.pc + 8).(pc := RV32I.ClearBit0(target)))
  {
    hide *;
    RegisterCount(m);
    PlacedParts(layout, m, Auipc(rd, High(d)), Jalr(link, rd, Low(d)));
    SplitConstant(d);
    RelativeParts(target, m.pc);
    FarCallParts(layout, m, rd, link, High(d), Low(d), Wrap(m.pc + High(d)), target);
  }

  lemma ShiftsSignExtend(a: Word, n: nat)
    requires n < 32
    ensures Alu(Sra, Alu(Sll, a, n), n) == SignExtend(a % Pow2(32 - n), 32 - n)
  {
    hide RV32I.ShiftLeft, RV32I.ShiftRightSigned, Alu, Pow2;
    ShiftPairSignExtends(a, n);
    ShiftsAgree(a, n);
    ShiftsAgree(RV32I.ShiftLeft(a, n), n);
  }

  // slli n; srai n sign-extends the low 32 - n bits.
  lemma SignExtendLow(layout: Mem, m: Isa.Machine, rd: Reg, rs1: Reg, n: nat)
    requires layout.Valid() && m.Valid() && rd != 0 && n < 32
    requires Placed(layout, m, OpImm(Sll, rd, rs1, n), OpImm(Sra, rd, rd, n))
    ensures m.pc + 8 < 0x1_0000_0000
    ensures Goes(2, layout, m, m.(x := m.x[rd := SignExtend(m.x[rs1] % Pow2(32 - n), 32 - n)], pc := m.pc + 8))
  {
    hide Placed, Goes, Alu, Pow2, SignExtend;
    var i, j := OpImm(Sll, rd, rs1, n), OpImm(Sra, rd, rd, n);
    PlacedParts(layout, m, i, j);
    ShiftsSignExtend(m.x[rs1], n);
    var m' := m.(x := m.x[rd := Alu(Sll, m.x[rs1], n)], pc := m.pc + 4);
    PairGoes(layout, m, i, j, m',
             m.(x := m.x[rd := SignExtend(m.x[rs1] % Pow2(32 - n), 32 - n)], pc := m.pc + 8));
  }
}
