/** The bitwise instructions, bit by bit, and what programs use them for. */
module Logic {
  import opened Words
  import opened InstFmt
  import opened Memory
  import opened Hart
  import opened RV32I
  import FM = FlatMemory
  import Isa
  import opened Encoding
  import opened Runs
  import opened Simulation
  import opened Programs
  import Vm

  // ---------------------------------------------------------------- one handler

  // After the handler only rd is changed, and bit k of it is the combination of the
  // operands' bits k. (The field ori takes is not its immediate.)
  lemma LogicOnBits(op: Op, w: Word, s: State, k: nat)
    requires s.Valid() && op in {XOR, AND, OR, XORI, ANDI, ORI}
    ensures var r, a, b := Apply(op, w, s), Bit(s.x[Rs1(w)], k), Bit(s.x[Rs2(w)], k);
      && r.err == EOK && |r.s.x| == 32 && r.s == s.(x := s.x[Rd(w) := r.s.x[Rd(w)]])
      && var d := Bit(r.s.x[Rd(w)], k);
         && (op == XOR ==> (d <==> a != b)) && (op == XORI ==> (d <==> a != Bit(ImmI(w), k)))
         && (op == AND ==> (d <==> a && b)) && (op == ANDI ==> (d <==> a && Bit(ImmI(w), k)))
         && (op == OR ==> (d <==> a || b)) && (op == ORI ==> (d <==> a || Bit(w / 0x200_0000, k)))
  {
    assert |s.x| == 32;
    hide *;
    var a, b := s.x[Rs1(w)], s.x[Rs2(w)];
    ApplyCompute(op, w, s);
    LogicValue(op, w, a, b, s.pc);
    OriFieldItself(w);
    BitwiseMeans(a, b, k);
    BitwiseMeans(a, ImmI(w), k);
    BitwiseMeans(a, ImmOri(w), k);
  }

  lemma LogicValue(op: Op, w: Word, a: Word, b: Word, pc: Word)
    requires op in {XOR, AND, OR, XORI, ANDI, ORI}
    ensures KindOf(op).Compute? && Refusal(op, w, b) == EOK
    ensures Value(op, w, a, b, pc) ==
      BitsOf(if op in {XOR, XORI} then Differ else if op in {AND, ANDI} then Conj else Disj,
             a, if op in {XOR, AND, OR} then b else if op == ORI then ImmOri(w) else ImmI(w))
  {
    hide ImmI, ImmOri, BitsOf, Shamt;
  }

  lemma OriFieldItself(w: Word)
    ensures ImmOri(w) == w / 0x200_0000
  {
    Pow2Values();
    hide Pow2;
  }

  // andi with 2^n - 1 leaves the remainder by 2^n.
  lemma AndiIsRemainder(w: Word, s: State, n: nat)
    requires s.Valid() && ImmI(w) == Pow2(n) - 1
    ensures Apply(ANDI, w, s).s.x == s.x[Rd(w) := s.x[Rs1(w)] % Pow2(n)]
  {
    assert |s.x| == 32;
    hide ImmI, KindOf, Value, Refusal, Apply, Pow2, LoadInto, StoreFrom;
    var a, b := s.x[Rs1(w)], s.x[Rs2(w)];
    ApplyCompute(ANDI, w, s);
    LogicValue(ANDI, w, a, b, s.pc);
    MaskIsRemainder(a, n);
  }

  // ---------------------------------------------------------------- swapping in place

  function Swap(a: Reg, b: Reg): seq<Isa.Instr> {
    [Isa.Op(Isa.Xor, a, a, b), Isa.Op(Isa.Xor, b, a, b), Isa.Op(Isa.Xor, a, a, b)]
  }

  lemma XorEffect(layout: Mem, m: Isa.Machine, rd: Reg, rs1: Reg, rs2: Reg)
    requires layout.Valid() && m.Valid() && rd != 0
    ensures |m.x| == 32 && TameInstr(layout, Isa.Op(Isa.Xor, rd, rs1, rs2), m)
    ensures Isa.Execute(Isa.Op(Isa.Xor, rd, rs1, rs2), m) ==
      Isa.Next(m.(x := m.x[rd := BitsOf(Differ, m.x[rs1], m.x[rs2])], pc := Wrap(m.pc + 4)))
  {
    hide BitsOf;
  }

  lemma XorGoes(layout: Mem, m: Isa.Machine, p: Word, prog: seq<Isa.Instr>, k: nat, rd: Reg, rs1: Reg, rs2: Reg,
                m': Isa.Machine)
    requires layout.Valid() && At(layout, m, p, prog, k, Isa.Op(Isa.Xor, rd, rs1, rs2)) && rd != 0
    requires |m.x| == 32 && p + 4 * k + 4 < 0x1_0000_0000
    requires m' == m.(x := m.x[rd := BitsOf(Differ, m.x[rs1], m.x[rs2])], pc := p + 4 * k + 4)
    ensures Goes(1, layout, m, m')
  {
    hide *;
    AtParts(layout, m, p, prog, k, Isa.Op(Isa.Xor, rd, rs1, rs2));
    XorEffect(layout, m, rd, rs1, rs2);
    AtGoes(layout, m, p, prog, k, Isa.Op(Isa.Xor, rd, rs1, rs2), m');
  }

  lemma SwapAt(layout: Mem, m: Isa.Machine, p: Word, a: Reg, b: Reg)
    requires layout.Valid() && m.Valid() && CodeAt(m.mem, p, Swap(a, b))
    requires FM.Contained(layout, p, 12) && FM.Mapped(layout, p) && p + 12 < 0x1_0000_0000
    ensures m.pc == p ==> At(layout, m, p, Swap(a, b), 0, Isa.Op(Isa.Xor, a, a, b))
    ensures m.pc == p + 4 ==> At(layout, m, p, Swap(a, b), 1, Isa.Op(Isa.Xor, b, a, b))
    ensures m.pc == p + 8 ==> At(layout, m, p, Swap(a, b), 2, Isa.Op(Isa.Xor, a, a, b))
  {
    hide FM.Contained, FM.Mapped, CodeAt;
    ContainedPart(layout, p, 12, p, 4);
    ContainedPart(layout, p, 12, p + 4, 4);
    ContainedPart(layout, p, 12, p + 8, 4);
  }

  // Three xors exchange two registers.
  lemma SwapGoes(layout: Mem, m: Isa.Machine, a: Reg, b: Reg)
    requires layout.Valid() && m.Valid() && a != 0 && b != 0 && a != b
    requires CodeAt(m.mem, m.pc, Swap(a, b)) && FM.Contained(layout, m.pc, 12) && FM.Mapped(layout, m.pc)
    ensures m.pc + 12 < 0x1_0000_0000
    ensures Goes(3, layout, m, m.(x := m.x[a := m.x[b]][b := m.x[a]], pc := m.pc + 12))
  {
    assert m.pc + 12 < 0x1_0000_0000 && |m.x| == 32;
    var p, u, v := m.pc, m.x[a], m.x[b];
    var d := BitsOf(Differ, u, v);
    var m1 := m.(x := m.x[a := d], pc := p + 4);
    var m2 := m.(x := m.x[a := d][b := u], pc := p + 8);
    var m3 := m.(x := m.x[a := v][b := u], pc := p + 12);
    SwapStates(m, m1, m2, m3, a, b);
    hide *;
    SwapSteps(layout, m, m1, m2, m3, a, b);
  }

  lemma SwapSteps(layout: Mem, m: Isa.Machine, m1: Isa.Machine, m2: Isa.Machine, m3: Isa.Machine, a: Reg, b: Reg)
    requires layout.Valid() && m.Valid() && m1.Valid() && m2.Valid() && m3.Valid() && a != 0 && b != 0
    requires CodeAt(m.mem, m.pc, Swap(a, b)) && FM.Contained(layout, m.pc, 12) && FM.Mapped(layout, m.pc)
    requires m.pc + 12 < 0x1_0000_0000 && |m.x| == 32 && |m1.x| == 32 && |m2.x| == 32
    requires m1.mem == m.mem && m2.mem == m.mem
    requires m1 == m.(x := m.x[a := BitsOf(Differ, m.x[a], m.x[b])], pc := m.pc + 4)
    requires m2 == m1.(x := m1.x[b := BitsOf(Differ, m1.x[a], m1.x[b])], pc := m.pc + 8)
    requires m3 == m2.(x := m2.x[a := BitsOf(Differ, m2.x[a], m2.x[b])], pc := m.pc + 12)
    ensures Goes(3, layout, m, m3)
  {
    hide *;
    var p: int := m.pc;
    SwapAt(layout, m, p, a, b);
    SwapAt(layout, m1, p, a, b);
    SwapAt(layout, m2, p, a, b);
    XorGoes(layout, m, p, Swap(a, b), 0, a, a, b, m1);
    XorGoes(layout, m1, p, Swap(a, b), 1, b, a, b, m2);
    XorGoes(layout, m2, p, Swap(a, b), 2, a, a, b, m3);
    GoesThen(1, 1, layout, m, m1, m2);
    GoesThen(2, 1, layout, m, m2, m3);
  }

  // The states in between, each made of the one before by its xor.
  lemma SwapStates(m: Isa.Machine, m1: Isa.Machine, m2: Isa.Machine, m3: Isa.Machine, a: Reg, b: Reg)
    requires m.Valid() && a != 0 && b != 0 && a != b && |m.x| == 32 && m.pc + 12 < 0x1_0000_0000
    requires var d := BitsOf(Differ, m.x[a], m.x[b]);
      && m1 == m.(x := m.x[a := d], pc := m.pc + 4) && m2 == m.(x := m.x[a := d][b := m.x[a]], pc := m.pc + 8)
      && m3 == m.(x := m.x[a := m.x[b]][b := m.x[a]], pc := m.pc + 12)
    ensures m1.Valid() && m2.Valid() && m3.Valid() && |m1.x| == 32 && |m2.x| == 32
    ensures m1.mem == m.mem && m2.mem == m.mem
    ensures m1 == m.(x := m.x[a := BitsOf(Differ, m.x[a], m.x[b])], pc := m.pc + 4)
    ensures m2 == m1.(x := m1.x[b := BitsOf(Differ, m1.x[a], m1.x[b])], pc := m.pc + 8)
    ensures m3 == m2.(x := m2.x[a := BitsOf(Differ, m2.x[a], m2.x[b])], pc := m.pc + 12)
  {
    hide BitsOf;
    DifferTwice(m.x[a], m.x[b]);
    assert m2.x[a := m.x[b]] == m3.x;
  }

  // So they do on the interpreter, in three iterations of its loop.
  lemma SwapOnInterpreter(s: State, a: Reg, b: Reg)
    requires s.Valid() && FM.Unaliased(s.mem) && a != 0 && b != 0 && a != b
    requires CodeAt(Abs(s).mem, s.pc, Swap(a, b)) && FM.Contained(s.mem, s.pc, 12) && FM.Mapped(s.mem, s.pc)
    ensures var o := Vm.Run(3, [Vm.BaseI], s);
      && o.why == Vm.ExitRequested && |s.x| == 32 && |o.s.x| == 32 && o.s.x[a] == s.x[b] && o.s.x[b] == s.x[a]
      && forall i | 1 <= i < 32 && i != a && i != b :: o.s.x[i] == s.x[i]
  {
    hide CodeAt, FM.Contained, FM.Mapped, FM.Unaliased, FM.Flat, FM.Writable, Goes, Vm.Run;
    var m := Abs(s);
    SwapGoes(s.mem, m, a, b);
    var m' := m.(x := m.x[a := m.x[b]][b := m.x[a]], pc := m.pc + 12);
    GoesOnInterpreter(3, s, m');
    var x := Vm.Run(3, [Vm.BaseI], s).s.x;
    assert forall i | 1 <= i < 32 :: x[0 := 0][i] == x[i] && m'.x[i] == x[i];
  }
}
