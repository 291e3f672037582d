/** Programs placed in memory: where their words are found, and how runs of the
    interpreter over them are put together from single instructions. */
module Programs {
  import opened Words
  import opened Memory
  import opened Hart
  import opened Isa
  import opened Encoding
  import FM = FlatMemory
  import opened Runs
  import opened Simulation
  import Decoding = Decode
  import RV32I
  import Vm

  // ---------------------------------------------------------------- programs in memory

  function Image(prog: seq<Instr>): (bytes: seq<Byte>)
    ensures |bytes| == 4 * |prog|
  {
    if prog == [] then [] else ToLe(Encode(prog[0]), 4) + Image(prog[1..])
  }

  ghost predicate CodeAt(mem: map<Word, Byte>, p: Word, prog: seq<Instr>) {
    && p + 4 * |prog| < 0x1_0000_0000
    && forall b: Word | FM.InSpan(p, 4 * |prog|, b) :: b in mem && mem[b] == Image(prog)[b - p]
  }

  lemma {:induction false} ImageWord(prog: seq<Instr>, k: nat)
    requires k < |prog|
    ensures Image(prog)[4 * k..4 * k + 4] == ToLe(Encode(prog[k]), 4)
  {
    hide Encode, ToLe;
    if k > 0 {
      ImageWord(prog[1..], k - 1);
      assert Image(prog)[4 * k..4 * k + 4] == Image(prog[1..])[4 * (k - 1)..4 * (k - 1) + 4];
    }
  }

  lemma WordFromCode(mem: map<Word, Byte>, p: Word, prog: seq<Instr>, k: nat)
    requires CodeAt(mem, p, prog) && k < |prog|
    ensures Covers(mem.Keys, p + 4 * k, 4)
    ensures Wrap(Value(mem, p + 4 * k, 4)) == Encode(prog[k])
  {
    hide Encode, Value, Covers, ToLe;
    var a: Word, w := p + 4 * k, Encode(prog[k]);
    ImageWord(prog, k);
    forall b: Word | FM.InSpan(a, 4, b)
      ensures b in mem && mem[b] == ToLe(w, 4)[b - a]
    {
      assert FM.InSpan(p, 4 * |prog|, b);
      assert Image(prog)[4 * k..4 * k + 4][b - a] == Image(prog)[b - p];
    }
    FM.ValueOfBytes(mem, a, ToLe(w, 4));
    LeOfToLe(w, 4);
    Pow2Values();
  }

  lemma {:induction false} ImageFrom(prog: seq<Instr>, i: nat)
    requires i <= |prog|
    ensures Image(prog)[4 * i..] == Image(prog[i..])
  {
    hide Encode, ToLe;
    if i > 0 {
      ImageFrom(prog[1..], i - 1);
      assert prog[1..][i - 1..] == prog[i..];
      assert Image(prog)[4 * i..] == Image(prog[1..])[4 * (i - 1)..];
    }
  }

  lemma {:induction false} ImageUpTo(prog: seq<Instr>, k: nat)
    requires k <= |prog|
    ensures Image(prog)[..4 * k] == Image(prog[..k])
  {
    hide Encode, ToLe;
    if k > 0 {
      ImageUpTo(prog[1..], k - 1);
      assert prog[1..][..k - 1] == prog[..k][1..];
      assert Image(prog)[..4 * k] == ToLe(Encode(prog[0]), 4) + Image(prog[1..])[..4 * (k - 1)];
    }
  }

  // A stretch of a program in memory is a program in memory.
  lemma CodeSlice(mem: map<Word, Byte>, p: Word, prog: seq<Instr>, i: nat, k: nat)
    requires CodeAt(mem, p, prog) && i + k <= |prog|
    ensures CodeAt(mem, p + 4 * i, prog[i..i + k])
  {
    hide Image;
    ImageFrom(prog, i);
    ImageUpTo(prog[i..], k);
    assert prog[i..][..k] == prog[i..i + k];
    forall b: Word | FM.InSpan(p + 4 * i, 4 * k, b)
      ensures b in mem && mem[b] == Image(prog[i..i + k])[b - (p + 4 * i)]
    {
      assert FM.InSpan(p, 4 * |prog|, b);
      assert Image(prog[i..])[b - (p + 4 * i)] == Image(prog)[b - p];
    }
  }

  // ---------------------------------------------------------------- composing steps

  // n reference steps lead from m to m', and the interpreter follows each of them.
  ghost predicate Goes(n: nat, layout: Mem, m: Isa.Machine, m': Isa.Machine)
    requires layout.Valid() && m.Valid()
  {
    TameRun(n, layout, m) && Steps(n, m) == Stepped(m')
  }

  lemma {:induction false} GoesThen(i: nat, j: nat, layout: Mem, m: Isa.Machine, m': Isa.Machine, m'': Isa.Machine)
    requires layout.Valid() && m.Valid() && Goes(i, layout, m, m')
    requires m'.Valid() && Goes(j, layout, m', m'')
    ensures Goes(i + j, layout, m, m'')
  {
    hide Step, TameAt;
    if i > 0 {
      GoesThen(i - 1, j, layout, Step(m).m, m', m'');
    }
  }

  // A contained range contains its parts.
  lemma ContainedPart(layout: Mem, a: Word, n: nat, b: Word, k: nat)
    requires layout.Valid() && FM.Contained(layout, a, n) && FM.Mapped(layout, a)
    requires a <= b && b + k <= a + n && k > 0
    ensures FM.Contained(layout, b, k)
  {
    hide FirstMatch;
    assert FM.InSpan(a, n, b);
    assert forall c: Word | FM.InSpan(b, k, c) :: FM.InSpan(a, n, c);
  }

  lemma FetchedStep(layout: Mem, m: Isa.Machine, i: Instr)
    requires layout.Valid() && m.Valid() && FM.Contained(layout, m.pc, 4)
    requires Covers(m.mem.Keys, m.pc, 4) && Isa.Decode(Fetched(m)) == Legal(i) && !Decoding.Extra(Fetched(m))
    requires TameInstr(layout, i, m)
    ensures TameAt(layout, m) && Step(m) == Execute(i, m)
  {
    hide Execute, TameInstr, Isa.Decode, Decoding.Extra, FM.Contained, Covers, Isa.Value;
  }

  lemma GoesOne(layout: Mem, m: Isa.Machine, m': Isa.Machine)
    requires layout.Valid() && m.Valid() && m'.Valid() && TameAt(layout, m) && Step(m) == Next(m')
    ensures Goes(1, layout, m, m')
  {
    hide TameAt, Step;
    assert TameRun(0, layout, m') && Steps(0, m') == Stepped(m');
  }

  // Executing instruction k of a program in memory.
  lemma InstrGoes(layout: Mem, m: Isa.Machine, p: Word, prog: seq<Instr>, k: nat)
    requires layout.Valid() && m.Valid() && CodeAt(m.mem, p, prog) && k < |prog| && m.pc == p + 4 * k
    requires FM.Contained(layout, p + 4 * k, 4)
    requires WellFormed(prog[k]) && TameInstr(layout, prog[k], m) && Execute(prog[k], m).Next?
    ensures Goes(1, layout, m, Execute(prog[k], m).m)
  {
    hide *;
    WordFromCode(m.mem, p, prog, k);
    FetchedIs(m);
    DecodeOfEncode(prog[k]);
    Decoding.ExactDecode(Encode(prog[k]));
    FetchedStep(layout, m, prog[k]);
    GoesOne(layout, m, Execute(prog[k], m).m);
  }

  lemma FetchedIs(m: Isa.Machine)
    requires Covers(m.mem.Keys, m.pc, 4)
    ensures Fetched(m) == Wrap(Isa.Value(m.mem, m.pc, 4))
  {
  }

  // ---------------------------------------------------------------- single instructions

  lemma LuiEffect(layout: Mem, m: Isa.Machine, rd: Reg, imm: Word)
    requires layout.Valid() && m.Valid() && rd != 0
    ensures TameInstr(layout, Lui(rd, imm), m)
    ensures Execute(Lui(rd, imm), m) == Next(m.(x := m.x[rd := imm], pc := Wrap(m.pc + 4)))
  {
  }

  lemma AuipcEffect(layout: Mem, m: Isa.Machine, rd: Reg, imm: Word)
    requires layout.Valid() && m.Valid() && rd != 0
    ensures TameInstr(layout, Auipc(rd, imm), m)
    ensures Execute(Auipc(rd, imm), m) == Next(m.(x := m.x[rd := Wrap(m.pc + imm)], pc := Wrap(m.pc + 4)))
  {
  }

  lemma AddiEffect(layout: Mem, m: Isa.Machine, rd: Reg, imm: int)
    requires layout.Valid() && m.Valid() && rd != 0
    ensures TameInstr(layout, OpImm(Add, rd, rd, imm), m)
    ensures Execute(OpImm(Add, rd, rd, imm), m) ==
      Next(m.(x := m.x[rd := Wrap(m.x[rd] + imm)], pc := Wrap(m.pc + 4)))
  {
    var a: int := m.x[rd];
    assert Wrap(a + Wrap(imm)) == Wrap(a + imm) by { WrapInside(imm, a); }
  }

  lemma JalrEffect(layout: Mem, m: Isa.Machine, link: Reg, rd: Reg, off: int, target: Word)
    requires layout.Valid() && m.Valid() && m.pc + 4 < 0x1_0000_0000 && target == Wrap(m.x[rd] + off)
    ensures TameInstr(layout, Jalr(link, rd, off), m)
    ensures var m' := m.Write(link, m.pc + 4).(pc := RV32I.ClearBit0(target));
      m'.Valid() && Execute(Jalr(link, rd, off), m) == Next(m')
  {
  }

  lemma RegisterCount(m: Isa.Machine)
    requires m.Valid()
    ensures |m.x| == 32
  {
  }

  // Instruction k of the program is about to run.
  ghost predicate At(layout: Mem, m: Isa.Machine, p: Word, prog: seq<Instr>, k: nat, i: Instr)
    requires layout.Valid()
  {
    && m.Valid() && CodeAt(m.mem, p, prog) && k < |prog| && prog[k] == i && WellFormed(i)
    && m.pc == p + 4 * k && FM.Contained(layout, p + 4 * k, 4)
  }

  lemma AtParts(layout: Mem, m: Isa.Machine, p: Word, prog: seq<Instr>, k: nat, i: Instr)
    requires layout.Valid() && At(layout, m, p, prog, k, i)
    ensures |m.x| == 32 && m.Valid() && m.pc == p + 4 * k && p + 4 * k + 4 < 0x1_0000_0000
    ensures Wrap(m.pc + 4) == p + 4 * k + 4
  {
    hide Image, FM.Contained, WellFormed;
  }

  lemma AtGoes(layout: Mem, m: Isa.Machine, p: Word, prog: seq<Instr>, k: nat, i: Instr, m': Isa.Machine)
    requires layout.Valid() && At(layout, m, p, prog, k, i)
    requires TameInstr(layout, i, m) && Execute(i, m) == Next(m')
    ensures Goes(1, layout, m, m')
  {
    hide Image, FM.Contained, WellFormed, Execute, TameInstr, Goes, CodeAt;
    InstrGoes(layout, m, p, prog, k);
  }

  lemma AddiGoes(layout: Mem, m: Isa.Machine, p: Word, prog: seq<Instr>, k: nat, rd: Reg, imm: int)
    requires layout.Valid() && At(layout, m, p, prog, k, OpImm(Add, rd, rd, imm)) && rd != 0
    ensures p + 4 * k + 4 < 0x1_0000_0000 && |m.x| == 32
    ensures Goes(1, layout, m, m.(x := m.x[rd := Wrap(m.x[rd] + imm)], pc := p + 4 * k + 4))
  {
    hide *;
    AtParts(layout, m, p, prog, k, OpImm(Add, rd, rd, imm));
    AddiEffect(layout, m, rd, imm);
    AtGoes(layout, m, p, prog, k, OpImm(Add, rd, rd, imm),
           m.(x := m.x[rd := Wrap(m.x[rd] + imm)], pc := p + 4 * k + 4));
  }

  lemma LwEffect(layout: Mem, m: Isa.Machine, rd: Reg, rs1: Reg)
    requires layout.Valid() && m.Valid() && rd != 0
    requires FM.Contained(layout, m.x[rs1], 4) && Covers(m.mem.Keys, m.x[rs1], 4)
    ensures TameInstr(layout, Load(W, true, rd, rs1, 0), m)
    ensures Execute(Load(W, true, rd, rs1, 0), m) ==
      Next(m.(x := m.x[rd := SignExtend(Isa.Value(m.mem, m.x[rs1], 4), 32)], pc := Wrap(m.pc + 4)))
  {
    hide FM.Contained, Covers, Isa.Value, SignExtend;
  }

  lemma LwGoes(layout: Mem, m: Isa.Machine, p: Word, prog: seq<Instr>, k: nat, rd: Reg, rs1: Reg)
    requires layout.Valid() && At(layout, m, p, prog, k, Load(W, true, rd, rs1, 0)) && rd != 0 && |m.x| == 32
    requires FM.Contained(layout, m.x[rs1], 4) && Covers(m.mem.Keys, m.x[rs1], 4)
    ensures p + 4 * k + 4 < 0x1_0000_0000
    ensures Goes(1, layout, m,
      m.(x := m.x[rd := SignExtend(Isa.Value(m.mem, m.x[rs1], 4), 32)], pc := p + 4 * k + 4))
  {
    hide *;
    AtParts(layout, m, p, prog, k, Load(W, true, rd, rs1, 0));
    LwEffect(layout, m, rd, rs1);
    AtGoes(layout, m, p, prog, k, Load(W, true, rd, rs1, 0),
           m.(x := m.x[rd := SignExtend(Isa.Value(m.mem, m.x[rs1], 4), 32)], pc := p + 4 * k + 4));
  }

  lemma SwEffect(layout: Mem, m: Isa.Machine, rs1: Reg, rs2: Reg)
    requires layout.Valid() && m.Valid()
    requires FM.Contained(layout, m.x[rs1], 4) && Covers(m.writable, m.x[rs1], 4)
    ensures TameInstr(layout, Store(W, rs1, rs2, 0), m)
    ensures Execute(Store(W, rs1, rs2, 0), m) ==
      Next(m.(mem := Stored(m.mem, m.x[rs1], 4, m.x[rs2]), pc := Wrap(m.pc + 4)))
  {
    hide FM.Contained, Covers, Stored;
  }

  lemma SwGoes(layout: Mem, m: Isa.Machine, p: Word, prog: seq<Instr>, k: nat, rs1: Reg, rs2: Reg)
    requires layout.Valid() && At(layout, m, p, prog, k, Store(W, rs1, rs2, 0)) && |m.x| == 32
    requires FM.Contained(layout, m.x[rs1], 4) && Covers(m.writable, m.x[rs1], 4)
    ensures p + 4 * k + 4 < 0x1_0000_0000
    ensures Goes(1, layout, m, m.(mem := Stored(m.mem, m.x[rs1], 4, m.x[rs2]), pc := p + 4 * k + 4))
  {
    hide *;
    AtParts(layout, m, p, prog, k, Store(W, rs1, rs2, 0));
    SwEffect(layout, m, rs1, rs2);
    AtGoes(layout, m, p, prog, k, Store(W, rs1, rs2, 0),
           m.(mem := Stored(m.mem, m.x[rs1], 4, m.x[rs2]), pc := p + 4 * k + 4));
  }

  lemma BltuEffect(layout: Mem, m: Isa.Machine, rs1: Reg, rs2: Reg, off: int)
    requires layout.Valid() && m.Valid()
    ensures TameInstr(layout, Branch(Ltu, rs1, rs2, off), m)
    ensures Execute(Branch(Ltu, rs1, rs2, off), m) ==
      Next(m.(pc := if m.x[rs1] < m.x[rs2] then Wrap(m.pc + off) else Wrap(m.pc + 4)))
  {
  }

  lemma BltuGoes(layout: Mem, m: Isa.Machine, p: Word, prog: seq<Instr>, k: nat, rs1: Reg, rs2: Reg,
                 off: int, back: Word)
    requires layout.Valid() && At(layout, m, p, prog, k, Branch(Ltu, rs1, rs2, off)) && |m.x| == 32
    requires p + 4 * k + off == back
    ensures p + 4 * k + 4 < 0x1_0000_0000
    ensures Goes(1, layout, m, m.(pc := if m.x[rs1] < m.x[rs2] then back else p + 4 * k + 4))
  {
    hide *;
    AtParts(layout, m, p, prog, k, Branch(Ltu, rs1, rs2, off));
    BltuEffect(layout, m, rs1, rs2, off);
    WrapWord(back);
    AtGoes(layout, m, p, prog, k, Branch(Ltu, rs1, rs2, off),
           m.(pc := if m.x[rs1] < m.x[rs2] then back else p + 4 * k + 4));
  }

  // What the reference machine reaches, the interpreter reaches: n iterations of its
  // loop with the base set registered end, undisturbed, in the same state.
  lemma GoesOnInterpreter(n: nat, s: State, m': Isa.Machine)
    requires s.Valid() && FM.Unaliased(s.mem) && m'.Valid() && Goes(n, s.mem, Abs(s), m')
    ensures var o := Vm.Run(n, [Vm.BaseI], s);
      o.why == Vm.ExitRequested && o.s.Valid() && Abs(o.s) == m'
  {
    hide Abs, Vm.Run, Steps, TameRun, FM.Unaliased;
    MemOfState(s);
    RunAgrees(n, s.mem, s);
  }
}
