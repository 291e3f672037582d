/** One iteration and whole runs of the interpreter loop, as functions, and what
    every iteration keeps. */
module Vm {
  import opened Words
  import opened InstFmt
  import opened Memory
  import opened Hart
  import RV32I
  import Csr

  datatype Ext = BaseI | Zicsr | Privileged(sMode: bool)

  datatype Stop = ExitRequested | FetchFailed(err: Err) | ZeroWord | ExecFailed(err: Err)

  datatype Outcome = Running(s: State) | Stopped(why: Stop, s: State)

  // RV32Privileged::isValid; the SRET test falls through to success in supervisor mode.
  predicate PrivilegedIsValid(w: Word, sMode: bool) {
    && Aa(w) == 3 && Bbb(w) == 4 && Cc(w) == 3 && Funct3(w) == 0
    && (|| (Funct7(w) == 0x08 && (sMode || Rs2(w) == 5))
        || Funct7(w) == 0x18
        || (sMode && Funct7(w) in {0x11, 0x31, 0x13, 0x33}))
  }

  // The words the privileged set claims: SYSTEM with funct3 0 and bits 31:20 those of
  // wfi (0x105) or mret (0x302, any low five bits); in supervisor mode also those of
  // sret and wfi (any low five bits) and of the four fence families.
  lemma PrivilegedWords(w: Word, sMode: bool)
    ensures PrivilegedIsValid(w, sMode) <==>
      && w % 0x80 == 0x73 && w / 0x1000 % 8 == 0
      && var f := w / 0x10_0000;
         || f == 0x105 || 0x300 <= f < 0x320
         || (sMode && (0x100 <= f < 0x120 || f / 0x20 in {0x220 / 0x20, 0x260 / 0x20, 0x620 / 0x20, 0x660 / 0x20}))
  {
    OpcodeParts(w);
    assert w / 0x10_0000 == Rs2(w) + 32 * Funct7(w);
  }

  predicate Accepts(e: Ext, w: Word) {
    match e
    case BaseI => RV32I.IsValid(w)
    case Zicsr => Csr.IsValid(w)
    case Privileged(sMode) => PrivilegedIsValid(w, sMode)
  }

  // RV32Privileged::exec has an empty body and returns nothing.
  function Execute(e: Ext, w: Word, s: State): Result
    requires s.Valid()
  {
    match e
    case BaseI => RV32I.Exec(w, s)
    case Zicsr => Csr.Exec(w, s)
    case Privileged(_) => Result(Undefined, s)
  }

  // inst_exec: the first registered set, in name order, that accepts the word.
  function InstExec(exts: seq<Ext>, w: Word, s: State): Result
    requires s.Valid()
  {
    if exts == [] then Result(EUNDEF, s)
    else if Accepts(exts[0], w) then Execute(exts[0], w, s)
    else InstExec(exts[1..], w, s)
  }

  // The state handed to a handler: the flag is down and x0 holds 0 again.
  function Prepared(s: State): State
    requires s.Valid()
  {
    s.(pcChanged := false, x := s.x[0 := 0])
  }

  function NextPc(before: Word, s: State): State {
    if s.pc != before || s.pcChanged then s else s.(pc := Wrap(s.pc + 4))
  }

  function Iterate(exts: seq<Ext>, s: State): Outcome
    requires s.Valid()
  {
    var f := MemRead(s.mem, s.pc, 4);
    if f.err != EOK then Stopped(FetchFailed(f.err), s)
    else if Word32(f.data) == 0 then Stopped(ZeroWord, s)
    else
      var r := InstExec(exts, Word32(f.data), Prepared(s));
      if r.err != EOK then Stopped(ExecFailed(r.err), r.s) else Running(NextPc(s.pc, r.s))
  }

  // The loop when the exit request is seen after n iterations.
  function Run(n: nat, exts: seq<Ext>, s: State): (o: Outcome)
    requires s.Valid()
    ensures o.Stopped? && o.s.Valid()
  {
    IterateKeeps(exts, s);
    if n == 0 then Stopped(ExitRequested, s)
    else
      match Iterate(exts, s)
      case Running(s') => Run(n - 1, exts, s')
      case Stopped(why, s') => Stopped(why, s')
  }

  // An iteration does not end the loop by an exit request.
  lemma NeverAsked(exts: seq<Ext>, s: State)
    requires s.Valid()
    ensures Iterate(exts, s).Stopped? ==> Iterate(exts, s).why != ExitRequested
  {
    hide InstExec, MemRead, Word32, NextPc, Prepared;
  }

  // One more iteration at the end of a run.
  lemma {:induction false} RunOneMore(n: nat, exts: seq<Ext>, s: State, h: State)
    requires s.Valid() && Run(n, exts, s) == Stopped(ExitRequested, h)
    ensures h.Valid()
    ensures Run(n + 1, exts, s) ==
      match Iterate(exts, h)
      case Running(h') => Stopped(ExitRequested, h')
      case Stopped(why, h') => Stopped(why, h')
  {
    hide Iterate, SameShape;
    IterateKeeps(exts, s);
    NeverAsked(exts, s);
    var o := Iterate(exts, s);
    if n == 0 {
      assert o.Running? ==> Run(0, exts, o.s) == Stopped(ExitRequested, o.s);
    } else {
      RunOneMore(n - 1, exts, o.s, h);
    }
  }

  // ---------------------------------------------------------------- one instruction

  // Whether a memory keeps its layout: same regions, same sizes and kinds of store,
  // same read-only contents.
  ghost predicate SameShape(m: Mem, m': Mem) {
    && m'.regions == m.regions && |m'.stores| == |m.stores|
    && forall h | 0 <= h < |m.stores| ::
         && m'.stores[h].Ram? == m.stores[h].Ram? && |m'.stores[h].bytes| == |m.stores[h].bytes|
         && (m.stores[h].Rom? ==> m'.stores[h] == m.stores[h])
  }

  lemma WriteKeepsShape(m: Mem, a: Word, data: seq<Byte>)
    requires m.Valid()
    ensures SameShape(m, MemWrite(m, a, data).target)
  {
    if MemWrite(m, a, data).err == EOK {
      WriteThenRead(m, a, data);
    }
  }

  // What no base instruction does: touch a CSR, change the layout, move the pc
  // without raising the flag, or change anything when it reports an error.
  ghost predicate Disciplined(s: State, r: Result) {
    && r.s.Valid() && SameShape(s.mem, r.s.mem) && r.s.csrs.Keys == s.csrs.Keys
    && (r.err != EOK ==> r.s == s)
    && (r.s.pc != s.pc ==> r.s.pcChanged)
  }

  lemma ApplyDisciplined(op: RV32I.Op, w: Word, s: State)
    requires s.Valid()
    ensures Disciplined(s, RV32I.Apply(op, w, s))
  {
    hide RV32I.Value, RV32I.Taken, RV32I.Refusal, RV32I.Target, ImmI, ImmS, ImmB, Word32, ToLe, Sext, MemRead, MemWrite;
    var k := RV32I.KindOf(op);
    if k.Store? {
      WriteKeepsShape(s.mem, Wrap(s.x[Rs1(w)] + ImmS(w)), ToLe(s.x[Rs2(w)], k.n));
    }
  }

  lemma CsrDisciplined(w: Word, s: State)
    requires s.Valid()
    ensures Disciplined(s, Csr.Exec(w, s))
  {
    if Csr.Exec(w, s).err == EOK {
      Csr.StepReturnsOldValue(w, s);
    }
  }

  lemma {:induction false} InstExecDisciplined(exts: seq<Ext>, w: Word, s: State)
    requires s.Valid()
    ensures Disciplined(s, InstExec(exts, w, s))
  {
    if exts != [] {
      match exts[0] {
        case BaseI => ApplyDisciplined(RV32I.Dispatch(w), w, s);
        case Zicsr => CsrDisciplined(w, s);
        case Privileged(_) =>
      }
      InstExecDisciplined(exts[1..], w, s);
    }
  }

  // ---------------------------------------------------------------- who runs a word

  // The first registered set that accepts the word is e.
  predicate TakenBy(exts: seq<Ext>, e: Ext, w: Word) {
    exts != [] && if Accepts(exts[0], w) then exts[0] == e else TakenBy(exts[1..], e, w)
  }

  lemma {:induction false} InstExecTaken(exts: seq<Ext>, e: Ext, w: Word, s: State)
    requires s.Valid() && TakenBy(exts, e, w)
    ensures Accepts(e, w) && InstExec(exts, w, s) == Execute(e, w, s)
  {
    hide Accepts, Execute;
    if !Accepts(exts[0], w) {
      InstExecTaken(exts[1..], e, w, s);
    }
  }

  lemma ApplyFrame(op: RV32I.Op, w: Word, s: State)
    requires s.Valid()
    ensures RV32I.Apply(op, w, s).s.csrs == s.csrs
    ensures !RV32I.KindOf(op).Store? ==> RV32I.Apply(op, w, s).s.mem == s.mem
  {
    hide RV32I.KindOf, RV32I.Value, RV32I.Taken, RV32I.Refusal, RV32I.Target, ImmI, ImmS, ImmB, Word32, ToLe, Sext;
    hide MemRead, MemWrite;
  }

  // Only the CSR set touches CSRs, and only the base set memory.
  lemma {:induction false} InstExecFrame(exts: seq<Ext>, w: Word, s: State)
    requires s.Valid()
    ensures !TakenBy(exts, Zicsr, w) ==> InstExec(exts, w, s).s.csrs == s.csrs
    ensures !TakenBy(exts, BaseI, w) ==> InstExec(exts, w, s).s.mem == s.mem
  {
    hide Accepts, Csr.Exec, RV32I.Apply, RV32I.Dispatch;
    if exts != [] {
      if Accepts(exts[0], w) {
        ApplyFrame(RV32I.Dispatch(w), w, s);
        CsrKeepsMem(w, s);
      } else {
        InstExecFrame(exts[1..], w, s);
      }
    }
  }

  lemma CsrKeepsMem(w: Word, s: State)
    requires s.Valid()
    ensures Csr.Exec(w, s).s.mem == s.mem
  {
  }

  // The word at the pc, or the zero that ends the loop just as a failed fetch does.
  function WordAt(s: State): Word
    requires s.Valid()
  {
    var f := MemRead(s.mem, s.pc, 4);
    if f.err == EOK then Word32(f.data) else 0
  }

  // The iteration from s hands the word at the pc to the set e.
  predicate Hands(exts: seq<Ext>, e: Ext, s: State)
    requires s.Valid()
  {
    WordAt(s) != 0 && TakenBy(exts, e, WordAt(s))
  }

  lemma IterateHanded(exts: seq<Ext>, e: Ext, s: State)
    requires s.Valid() && Hands(exts, e, s)
    ensures Accepts(e, WordAt(s))
    ensures Iterate(exts, s) ==
      var r := Execute(e, WordAt(s), Prepared(s));
      if r.err != EOK then Stopped(ExecFailed(r.err), r.s) else Running(NextPc(s.pc, r.s))
  {
    hide InstExec, Accepts, Execute, MemRead, Word32, NextPc;
    InstExecTaken(exts, e, WordAt(s), Prepared(s));
  }

  lemma IterateFrame(exts: seq<Ext>, s: State)
    requires s.Valid()
    ensures !Hands(exts, Zicsr, s) ==> Iterate(exts, s).s.csrs == s.csrs
    ensures !Hands(exts, BaseI, s) ==> Iterate(exts, s).s.mem == s.mem
  {
    hide InstExec, TakenBy, MemRead, Word32;
    if WordAt(s) != 0 {
      InstExecFrame(exts, WordAt(s), Prepared(s));
    }
  }

  // ---------------------------------------------------------------- one iteration

  lemma IterateKeeps(exts: seq<Ext>, s: State)
    requires s.Valid()
    ensures var o := Iterate(exts, s);
      o.s.Valid() && SameShape(s.mem, o.s.mem) && o.s.csrs.Keys == s.csrs.Keys
  {
    var f := MemRead(s.mem, s.pc, 4);
    if f.err == EOK {
      InstExecDisciplined(exts, Word32(f.data), Prepared(s));
    }
  }

  // A stop whose effect the source leaves open.
  predicate OpenStop(why: Stop) {
    why == FetchFailed(Undefined) || why == ExecFailed(Undefined)
  }

  // When an iteration ends the loop, on whatever error path the source defines,
  // everything a program can see is as it was before the iteration.
  lemma PreciseFailure(exts: seq<Ext>, s: State)
    requires s.Valid() && Iterate(exts, s).Stopped? && !OpenStop(Iterate(exts, s).why)
    ensures var s' := Iterate(exts, s).s;
      && s'.pc == s.pc && s'.mem == s.mem && s'.csrs == s.csrs
      && |s'.x| == 32 && forall i | 1 <= i < 32 :: s'.x[i] == s.x[i]
  {
    var f := MemRead(s.mem, s.pc, 4);
    if f.err == EOK {
      InstExecDisciplined(exts, Word32(f.data), Prepared(s));
    }
  }

  // The loop's test `pc moved or flag raised` is the flag alone, so a taken jump
  // to its own address stays there and everything else advances by 4.
  lemma FlagDecidesNextPc(exts: seq<Ext>, s: State)
    requires s.Valid() && Iterate(exts, s).Running?
    ensures var r := InstExec(exts, Word32(MemRead(s.mem, s.pc, 4).data), Prepared(s));
      Iterate(exts, s).s == if r.s.pcChanged then r.s else r.s.(pc := Wrap(s.pc + 4))
  {
    hide InstExec, MemRead, Word32;
    InstExecDisciplined(exts, Word32(MemRead(s.mem, s.pc, 4).data), Prepared(s));
  }

  // ---------------------------------------------------------------- whole runs

  lemma ShapeTransitive(m: Mem, m': Mem, m'': Mem)
    requires SameShape(m, m') && SameShape(m', m'')
    ensures SameShape(m, m'')
  {
  }

  lemma {:induction false} RunKeepsCsrSet(n: nat, exts: seq<Ext>, s: State)
    requires s.Valid()
    ensures Run(n, exts, s).s.csrs.Keys == s.csrs.Keys
    ensures SameShape(s.mem, Run(n, exts, s).s.mem)
  {
    assert SameShape(s.mem, s.mem);
    hide SameShape, Iterate;
    if n > 0 {
      IterateKeeps(exts, s);
      var o := Iterate(exts, s);
      if o.Running? {
        RunKeepsCsrSet(n - 1, exts, o.s);
        ShapeTransitive(s.mem, o.s.mem, Run(n - 1, exts, o.s).s.mem);
      }
    }
  }

  // In every state a run reaches from the registers the privileged set installs, a CSR
  // instruction goes through exactly when its address is listed, the two immediate
  // set/clear forms on addresses from 0xC00 on apart.
  lemma CsrDomain(n: nat, exts: seq<Ext>, s: State, w: Word)
    requires s.Valid() && Csr.IsValid(w) && s.csrs.Keys == Csr.Installed(map[]).Keys
    ensures Csr.Exec(w, Run(n, exts, s).s).err == EOK <==>
      Csr.Listed(Csr.Address(w)) && !(Funct3(w) >= 6 && Csr.Address(w) >= 0xC00)
  {
    hide Run, Csr.Exec, Csr.Listed, Csr.ReadOnly, Csr.Address, Csr.IsValid, Bit;
    RunKeepsCsrSet(n, exts, s);
    Csr.ReadOnlyByWord(w);
    Csr.SucceedsIffInstalled(w, Run(n, exts, s).s);
  }

  lemma SextEven(v: Word, bit: nat)
    requires 0 < bit < 32 && v % 2 == 0 && v < 2 * Pow2(bit)
    ensures Sext(v, bit) % 2 == 0
  {
    assert Pow2(bit) == 2 * Pow2(bit - 1);
  }

  lemma ImmBEven(w: Word)
    ensures ImmB(w) % 2 == 0
  {
    hide BHalf;
    assert Pow2(12) == 0x1000 by { Pow2Values(); }
    SextEven(BField(w), 12);
  }

  lemma ImmJEven(w: Word)
    ensures ImmJ(w) % 2 == 0
  {
    hide JHalf;
    assert Pow2(20) == 0x10_0000 by { Pow2Values(); }
    SextEven(JField(w), 20);
  }

  lemma WrapEven(a: int, b: int)
    requires a % 2 == 0 && b % 2 == 0
    ensures Wrap(a + b) % 2 == 0
  {
  }

  // Where a handler can leave the pc.
  ghost predicate PcTarget(w: Word, s: State, pc: Word)
    requires s.Valid()
  {
    || pc == s.pc
    || pc == Wrap(s.pc + ImmB(w))
    || pc == Wrap(s.pc + ImmJ(w))
    || exists half: nat :: pc == 2 * half
  }

  lemma StraightApply(op: RV32I.Op, w: Word, s: State)
    requires s.Valid() && !RV32I.KindOf(op).Branch? && !RV32I.KindOf(op).Jump?
    ensures RV32I.Apply(op, w, s).s.pc == s.pc
  {
    hide RV32I.KindOf, RV32I.Value, RV32I.Refusal, ImmI, ImmS, Word32, ToLe, Sext, MemRead, MemWrite;
  }

  lemma TransferTargets(op: RV32I.Op, w: Word, s: State)
    requires s.Valid()
    ensures PcTarget(w, s, s.pc) && PcTarget(w, s, Wrap(s.pc + ImmB(w)))
    ensures PcTarget(w, s, RV32I.Target(op, w, s.x[Rs1(w)], s.pc))
  {
    hide ImmI, ImmB, ImmJ, Wrap;
    var t := RV32I.Target(op, w, s.x[Rs1(w)], s.pc);
    if op != RV32I.JAL {
      assert t % 2 == 0;
      assert t == 2 * (t / 2);
    }
  }

  lemma PcAfterApply(op: RV32I.Op, w: Word, s: State)
    requires s.Valid()
    ensures PcTarget(w, s, RV32I.Apply(op, w, s).s.pc)
  {
    hide RV32I.KindOf, RV32I.Apply, RV32I.Target, RV32I.Taken, ImmI, ImmB, ImmJ, Wrap, PcTarget;
    RV32I.ApplyTransfer(op, w, s);
    TransferTargets(op, w, s);
    if !RV32I.KindOf(op).Branch? && !RV32I.KindOf(op).Jump? {
      StraightApply(op, w, s);
    }
  }

  lemma PcTargetEven(w: Word, s: State, pc: Word)
    requires s.Valid() && s.pc % 2 == 0 && PcTarget(w, s, pc)
    ensures pc % 2 == 0
  {
    hide ImmB, ImmJ;
    ImmBEven(w);
    ImmJEven(w);
    WrapEven(s.pc, ImmB(w));
    WrapEven(s.pc, ImmJ(w));
  }

  lemma ApplyKeepsPcEven(op: RV32I.Op, w: Word, s: State)
    requires s.Valid() && s.pc % 2 == 0
    ensures RV32I.Apply(op, w, s).s.pc % 2 == 0
  {
    hide RV32I.Apply;
    PcAfterApply(op, w, s);
    PcTargetEven(w, s, RV32I.Apply(op, w, s).s.pc);
  }

  // The loop, started in s, reaches iteration j.
  predicate Reached(exts: seq<Ext>, s: State, j: nat)
    requires s.Valid()
  {
    Run(j, exts, s).why == ExitRequested
  }

  // A run that has ended stays as it is, and one that has not goes on with an iteration.
  lemma {:induction false} RunGoesOn(n: nat, exts: seq<Ext>, s: State)
    requires s.Valid()
    ensures var o := Run(n, exts, s);
      Run(n + 1, exts, s) ==
        if o.why != ExitRequested then o
        else
          match Iterate(exts, o.s)
          case Running(h) => Stopped(ExitRequested, h)
          case Stopped(why, h) => Stopped(why, h)
  {
    hide Iterate, SameShape;
    if Run(n, exts, s).why == ExitRequested {
      RunOneMore(n, exts, s, Run(n, exts, s).s);
    } else {
      IterateKeeps(exts, s);
      NeverAsked(exts, s);
      if Iterate(exts, s).Running? {
        RunGoesOn(n - 1, exts, Iterate(exts, s).s);
      }
    }
  }

  lemma CsrKeepsPc(w: Word, s: State)
    requires s.Valid()
    ensures Csr.Exec(w, s).s.pc == s.pc
  {
  }

  lemma {:induction false} InstExecKeepsPcEven(exts: seq<Ext>, w: Word, s: State)
    requires s.Valid() && s.pc % 2 == 0
    ensures InstExec(exts, w, s).s.pc % 2 == 0
  {
    hide RV32I.Apply, RV32I.Dispatch, RV32I.IsValid, Csr.Exec, Csr.IsValid, PrivilegedIsValid;
    if exts != [] {
      ApplyKeepsPcEven(RV32I.Dispatch(w), w, s);
      CsrKeepsPc(w, s);
      InstExecKeepsPcEven(exts[1..], w, s);
    }
  }

  lemma IterateKeepsPcEven(exts: seq<Ext>, s: State)
    requires s.Valid() && s.pc % 2 == 0
    ensures Iterate(exts, s).s.pc % 2 == 0
  {
    hide InstExec, Word32, MemRead;
    var f := MemRead(s.mem, s.pc, 4);
    if f.err == EOK {
      InstExecKeepsPcEven(exts, Word32(f.data), Prepared(s));
      assert Wrap(s.pc + 4) % 2 == 0;
    }
  }

  // From an even start address the pc is even in every reachable state.
  lemma {:induction false} PcStaysEven(n: nat, exts: seq<Ext>, s: State)
    requires s.Valid() && s.pc % 2 == 0
    ensures Run(n, exts, s).s.pc % 2 == 0
  {
    hide Iterate;
    if n > 0 {
      IterateKeepsPcEven(exts, s);
      IterateKeeps(exts, s);
      if Iterate(exts, s).Running? {
        PcStaysEven(n - 1, exts, Iterate(exts, s).s);
      }
    }
  }

  // ---------------------------------------------------------------- dispatch order

  lemma CsrWordElsewhere(w: Word, s: State)
    requires s.Valid() && Csr.IsValid(w)
    ensures RV32I.IsValid(w) && RV32I.Exec(w, s) == Result(EUNDEF, s)
    ensures forall sMode :: !PrivilegedIsValid(w, sMode)
  {
    CsrWordUndispatched(w);
    NothingApplied(w, s);
    hide RV32I.Apply, RV32I.Dispatch, Aa, Bbb, Cc, Funct3, Funct7;
  }

  lemma NothingApplied(w: Word, s: State)
    requires s.Valid()
    ensures RV32I.Apply(RV32I.NOTHING, w, s) == Result(EUNDEF, s)
  {
    hide *;
    RV32I.ApplyIdle(RV32I.NOTHING, w, s);
  }

  lemma CsrWordUndispatched(w: Word)
    requires Csr.IsValid(w)
    ensures RV32I.Dispatch(w) == RV32I.NOTHING
  {
    hide Aa, Bbb, Cc, Funct3, Funct7, IField;
  }

  // The base set accepts every SYSTEM word and reports the CSR ones as undefined,
  // so a CSR instruction takes effect exactly when no base set comes first.
  lemma {:induction false} CsrReachedIffBeforeBase(exts: seq<Ext>, w: Word, s: State)
    requires s.Valid() && Csr.IsValid(w)
    ensures InstExec(exts, w, s) ==
      if exists i :: 0 <= i < |exts| && exts[i] == Zicsr && BaseI !in exts[..i] then Csr.Exec(w, s)
      else Result(EUNDEF, s)
  {
    hide Csr.Exec, Csr.IsValid, RV32I.Exec, RV32I.IsValid, PrivilegedIsValid;
    if exts != [] {
      var rest := exts[1..];
      CsrWordElsewhere(w, s);
      CsrReachedIffBeforeBase(rest, w, s);
      if exts[0] == Zicsr {
        assert exts[0] == Zicsr && BaseI !in exts[..0];
      } else if exts[0] == BaseI {
        assert forall i | 0 < i < |exts| :: exts[..i][0] == BaseI;
      } else {
        assert forall i | 0 < i < |exts| :: exts[i] == rest[i - 1] && exts[..i] == [exts[0]] + rest[..i - 1];
        if i :| 0 <= i < |exts| && exts[i] == Zicsr && BaseI !in exts[..i] {
          assert rest[i - 1] == Zicsr && BaseI !in rest[..i - 1];
        }
        if i :| 0 <= i < |rest| && rest[i] == Zicsr && BaseI !in rest[..i] {
          assert exts[i + 1] == Zicsr && BaseI !in exts[..i + 1];
        }
      }
    }
  }
}
