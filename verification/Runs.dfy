/** Whole runs of the interpreter with the base set registered, against the reference
    machine. */
module Runs {
  import opened Words
  import opened Memory
  import opened Hart
  import opened Vm
  import opened FlatMemory
  import opened Simulation
  import Decode
  import Isa

  ghost predicate AgreesAtEnd(o: Outcome, e: Isa.Ending)
    requires o.Stopped?
  {
    && o.s.Valid() && Abs(o.s) == e.m
    && match e
       case Stepped(_) => o.why == ExitRequested
       case Trapped(cause, _) => Means(o.why, cause)
  }

  // k iterations leave what k reference steps leave, or stop where and as they trap.
  ghost predicate AgreesAfter(k: nat, s: State)
    requires s.Valid()
  {
    AgreesAtEnd(Run(k, [BaseI], s), Isa.Steps(k, Abs(s)))
  }

  // Each of the first n iterations is an honest step.
  ghost predicate HonestRun(n: nat, s: State)
    requires s.Valid()
  {
    IterateKeeps([BaseI], s);
    n == 0 || (HonestStep(s) && (Iterate([BaseI], s).Running? ==> HonestRun(n - 1, Iterate([BaseI], s).s)))
  }

  // Both runs start with their first step.
  lemma RunParts(k: nat, s: State)
    requires s.Valid()
    ensures var o := Iterate([BaseI], s);
      && o.s.Valid() && Run(0, [BaseI], s) == Stopped(ExitRequested, s)
      && Run(k + 1, [BaseI], s) == (if o.Running? then Run(k, [BaseI], o.s) else o)
      && (o.Stopped? ==> o.why != ExitRequested)
    ensures var r := Isa.Step(Abs(s));
      && Isa.Steps(0, Abs(s)) == Isa.Stepped(Abs(s))
      && Isa.Steps(k + 1, Abs(s)) == (if r.Next? then Isa.Steps(k, r.m) else Isa.Trapped(r.cause, r.m))
  {
    hide Iterate, Abs, Isa.Step, SameShape;
    IterateKeeps([BaseI], s);
    NeverAsked([BaseI], s);
  }

  lemma FirstStep(k: nat, s: State)
    requires s.Valid()
    ensures Iterate([BaseI], s).s.Valid()
    ensures AgreesAfter(0, s)
    ensures AgreesAfter(1, s) <==> Agrees(Iterate([BaseI], s), Isa.Step(Abs(s)))
    ensures Agrees(Iterate([BaseI], s), Isa.Step(Abs(s))) ==>
      var o := Iterate([BaseI], s);
      AgreesAfter(k + 1, s) <==> (o.Running? ==> AgreesAfter(k, o.s))
  {
    hide Run, Isa.Steps, Iterate, Abs, Isa.Step;
    RunParts(0, s);
    RunParts(k, s);
    if Iterate([BaseI], s).Running? {
      RunParts(0, Iterate([BaseI], s).s);
    }
    if Isa.Step(Abs(s)).Next? {
      StepsNothing(Isa.Step(Abs(s)).m);
    }
  }

  lemma StepsNothing(m: Isa.Machine)
    requires m.Valid()
    ensures Isa.Steps(0, m) == Isa.Stepped(m)
  {
  }

  lemma HonestParts(n: nat, s: State)
    requires s.Valid()
    ensures Iterate([BaseI], s).s.Valid()
    ensures HonestRun(0, s)
    ensures n > 0 ==>
      (HonestRun(n, s) <==>
         HonestStep(s) && (Iterate([BaseI], s).Running? ==> HonestRun(n - 1, Iterate([BaseI], s).s)))
  {
    hide Iterate, HonestStep, SameShape;
    IterateKeeps([BaseI], s);
  }

  lemma {:induction false} HonestRunAgrees(n: nat, k: nat, s: State)
    requires s.Valid() && k <= n && HonestRun(n, s)
    ensures AgreesAfter(k, s)
  {
    hide *;
    HonestParts(n, s);
    if k == 0 {
      FirstStep(0, s);
    } else {
      StepAgreesIff(s);
      FirstStep(k - 1, s);
      if Iterate([BaseI], s).Running? {
        HonestRunAgrees(n - 1, k - 1, Iterate([BaseI], s).s);
      }
    }
  }

  lemma {:induction false} AgreementIsHonest(n: nat, s: State)
    requires s.Valid() && forall k: nat | k <= n :: AgreesAfter(k, s)
    ensures HonestRun(n, s)
  {
    hide *;
    HonestParts(n, s);
    if n > 0 {
      assert AgreesAfter(1, s);
      FirstStep(0, s);
      StepAgreesIff(s);
      if Iterate([BaseI], s).Running? {
        AgreementShifts(n, s);
        AgreementIsHonest(n - 1, Iterate([BaseI], s).s);
      }
    }
  }

  lemma AgreementShifts(n: nat, s: State)
    requires s.Valid() && n > 0 && forall k: nat | k <= n :: AgreesAfter(k, s)
    requires Agrees(Iterate([BaseI], s), Isa.Step(Abs(s))) && Iterate([BaseI], s).Running?
    ensures Iterate([BaseI], s).s.Valid()
    ensures forall k: nat | k <= n - 1 :: AgreesAfter(k, Iterate([BaseI], s).s)
  {
    hide *;
    FirstStep(0, s);
    forall k: nat | k <= n - 1
      ensures AgreesAfter(k, Iterate([BaseI], s).s)
    {
      assert AgreesAfter(k + 1, s);
      FirstStep(k, s);
    }
  }

  // For every program, start state, memory map and n: the loop and the reference agree
  // after each number of steps up to n exactly when each of the n steps is honest.
  lemma RunAgreesIff(n: nat, s: State)
    requires s.Valid()
    ensures HonestRun(n, s) <==> forall k: nat | k <= n :: AgreesAfter(k, s)
  {
    hide HonestRun, AgreesAfter;
    if HonestRun(n, s) {
      forall k: nat | k <= n
        ensures AgreesAfter(k, s)
      {
        HonestRunAgrees(n, k, s);
      }
    } else if forall k: nat | k <= n :: AgreesAfter(k, s) {
      AgreementIsHonest(n, s);
    }
  }

  // ---------------------------------------------------------------- runs within regions

  ghost predicate TameAccess(layout: Mem, i: Isa.Instr, m: Isa.Machine)
    requires layout.Valid() && m.Valid()
  {
    match i
    case Load(width, _, _, rs1, off) => Contained(layout, Wrap(m.x[rs1] + off), Isa.Bytes(width))
    case Store(width, rs1, _, off) => Contained(layout, Wrap(m.x[rs1] + off), Isa.Bytes(width))
    case _ => true
  }

  // The condition on a step in terms of the reference state and the layout alone: its
  // accesses stay inside one region each, and the instruction is listed and regular.
  ghost predicate TameInstr(layout: Mem, i: Isa.Instr, m: Isa.Machine)
    requires layout.Valid() && m.Valid()
  {
    Regular(i, m) && TameAccess(layout, i, m)
  }

  ghost predicate TameAt(layout: Mem, m: Isa.Machine)
    requires layout.Valid() && m.Valid()
  {
    && Contained(layout, m.pc, 4)
    && (Isa.Covers(m.mem.Keys, m.pc, 4) ==>
          && !Decode.Extra(Fetched(m))
          && (Isa.Decode(Fetched(m)).Legal? ==> TameInstr(layout, Isa.Decode(Fetched(m)).i, m)))
  }

  // The part of it about accesses.
  ghost predicate AccessesTame(layout: Mem, m: Isa.Machine)
    requires layout.Valid() && m.Valid()
  {
    && Contained(layout, m.pc, 4)
    && (Isa.Covers(m.mem.Keys, m.pc, 4) && Isa.Decode(Fetched(m)).Legal? ==>
          TameAccess(layout, Isa.Decode(Fetched(m)).i, m))
  }

  ghost predicate TameRun(n: nat, layout: Mem, m: Isa.Machine)
    requires layout.Valid() && m.Valid()
  {
    n == 0 || (TameAt(layout, m) && (Isa.Step(m).Next? ==> TameRun(n - 1, layout, Isa.Step(m).m)))
  }

  ghost predicate AccessRun(n: nat, layout: Mem, m: Isa.Machine)
    requires layout.Valid() && m.Valid()
  {
    n == 0 || (AccessesTame(layout, m) && (Isa.Step(m).Next? ==> AccessRun(n - 1, layout, Isa.Step(m).m)))
  }

  lemma TameAccessIsHonest(mem: Mem, i: Isa.Instr, m: Isa.Machine)
    requires mem.Valid() && m.Valid() && Unaliased(mem) && TameAccess(mem, i, m)
    ensures HonestAccess(mem, i, m)
    ensures HonestInstr(mem, i, m) <==> TameInstr(mem, i, m)
  {
    hide Contained, HonestRead, HonestWrite, Unaliased, Regular, ToLe;
    match i {
      case Load(width, _, rd, rs1, off) =>
        ContainedReadIsHonest(mem, Wrap(m.x[rs1] + off), Isa.Bytes(width), rd != 0);
      case Store(width, rs1, rs2, off) =>
        ContainedWriteIsHonest(mem, Wrap(m.x[rs1] + off), ToLe(m.x[rs2], Isa.Bytes(width)));
      case _ =>
    }
  }

  lemma FetchedFlat(s: State)
    requires s.Valid()
    ensures s.mem.Valid() && Abs(s).mem == Flat(s.mem) && Abs(s).pc == s.pc
    ensures Isa.Covers(Flat(s.mem).Keys, s.pc, 4) ==> Fetched(Abs(s)) == Wrap(Isa.Value(Flat(s.mem), s.pc, 4))
  {
    hide Flat, Writable, Isa.Covers, Isa.Value, Wrap;
  }

  lemma WordOf(data: seq<Byte>)
    requires |data| == 4
    ensures Wrap(Le(data)) == Word32(data)
  {
    Pow2Values();
  }

  lemma ReadValue(m: Mem, a: Word, n: nat)
    requires m.Valid() && n > 0 && HonestRead(m, a, n, true) && MemRead(m, a, n).err == EOK
    ensures Isa.Covers(Flat(m).Keys, a, n) && Isa.Value(Flat(m), a, n) == Le(MemRead(m, a, n).data)
  {
    hide HonestRead, MemRead, Flat, Isa.Covers, Isa.Value, Le;
    ReadAgreesIff(m, a, n, true);
  }

  // A contained fetch gives the word the flat memory holds.
  lemma ContainedFetch(s: State)
    requires s.Valid() && s.mem.Valid() && Contained(s.mem, s.pc, 4)
    ensures HonestRead(s.mem, s.pc, 4, false)
    ensures var f := MemRead(s.mem, s.pc, 4);
      f.err == EOK && Isa.Covers(Abs(s).mem.Keys, s.pc, 4) ==> Word32(f.data) == Fetched(Abs(s))
  {
    hide *;
    FetchedFlat(s);
    ContainedReadIsHonest(s.mem, s.pc, 4, false);
    ContainedReadIsHonest(s.mem, s.pc, 4, true);
    ReadErrors(s.mem, s.pc, 4);
    if MemRead(s.mem, s.pc, 4).err == EOK {
      ReadValue(s.mem, s.pc, 4);
      WordOf(MemRead(s.mem, s.pc, 4).data);
    }
  }

  lemma TameParts(layout: Mem, m: Isa.Machine)
    requires layout.Valid() && m.Valid()
    ensures AccessesTame(layout, m) ==> Contained(layout, m.pc, 4)
    ensures AccessesTame(layout, m) && !Isa.Covers(m.mem.Keys, m.pc, 4) ==> TameAt(layout, m)
    ensures AccessesTame(layout, m) && Isa.Covers(m.mem.Keys, m.pc, 4) ==>
      match Isa.Decode(Fetched(m))
      case IllegalWord => TameAt(layout, m) <==> !Decode.Extra(Fetched(m))
      case Legal(i) =>
        TameAccess(layout, i, m) && (TameAt(layout, m) <==> !Decode.Extra(Fetched(m)) && TameInstr(layout, i, m))
    ensures TameAt(layout, m) ==> AccessesTame(layout, m)
  {
    hide Contained, Regular, TameAccess, Isa.Decode, Decode.Extra, Isa.Covers, Isa.Value;
  }

  // Within regions of their own, honest is tame.
  lemma TameStepIff(s: State)
    requires s.Valid() && Unaliased(s.mem) && AccessesTame(s.mem, Abs(s))
    ensures HonestStep(s) <==> TameAt(s.mem, Abs(s))
  {
    hide *;
    StepParts(s);
    TameParts(s.mem, Abs(s));
    ContainedFetch(s);
    FetchOutcome(s);
    var m := Abs(s);
    if Isa.Covers(m.mem.Keys, s.pc, 4) {
      var w := Fetched(m);
      WordParts(s, w, w);
      if Isa.Decode(w).Legal? {
        TameAccessIsHonest(s.mem, Isa.Decode(w).i, m);
      }
    }
  }

  lemma ShapeOfTame(layout: Mem, layout': Mem, m: Isa.Machine)
    requires layout.Valid() && layout'.Valid() && m.Valid() && SameShape(layout, layout')
    ensures TameAt(layout, m) <==> TameAt(layout', m)
    ensures AccessesTame(layout, m) <==> AccessesTame(layout', m)
  {
    forall a: Word, n: nat
      ensures Contained(layout, a, n) <==> Contained(layout', a, n)
    {
      ContainedByShape(layout, layout', a, n);
    }
    hide Contained, Regular, Isa.Decode, Isa.Covers, Decode.Extra;
  }

  lemma ShapeKeepsUnaliased(m: Mem, m': Mem)
    requires SameShape(m, m') && Unaliased(m)
    ensures Unaliased(m')
  {
  }

  lemma {:induction false} TameRunIff(n: nat, layout: Mem, s: State)
    requires layout.Valid() && s.Valid() && Unaliased(s.mem) && SameShape(layout, s.mem)
    requires AccessRun(n, layout, Abs(s))
    ensures HonestRun(n, s) <==> TameRun(n, layout, Abs(s))
  {
    hide Iterate, Abs, TameAt, AccessesTame, HonestStep, Isa.Step, Unaliased;
    if n > 0 {
      MemOfState(s);
      ShapeOfTame(layout, s.mem, Abs(s));
      TameStepIff(s);
      if HonestStep(s) {
        StepAgreesIff(s);
        IterateKeeps([BaseI], s);
        var o := Iterate([BaseI], s);
        ShapeTransitive(layout, s.mem, o.s.mem);
        ShapeKeepsUnaliased(s.mem, o.s.mem);
        if o.Running? {
          TameRunIff(n - 1, layout, o.s);
        }
      }
    }
  }

  // The condition in terms of reference states and the layout only: for runs whose
  // accesses stay inside regions of their own, agreement all along is tameness.
  lemma RunAgreesIffTame(n: nat, layout: Mem, s: State)
    requires layout.Valid() && s.Valid() && Unaliased(s.mem) && SameShape(layout, s.mem)
    requires AccessRun(n, layout, Abs(s))
    ensures TameRun(n, layout, Abs(s)) <==> forall k: nat | k <= n :: AgreesAfter(k, s)
  {
    hide HonestRun, AgreesAfter, TameRun, AccessRun, Abs, Unaliased;
    TameRunIff(n, layout, s);
    RunAgreesIff(n, s);
  }

  lemma {:induction false} TameRunAccesses(n: nat, layout: Mem, m: Isa.Machine)
    requires layout.Valid() && m.Valid() && TameRun(n, layout, m)
    ensures AccessRun(n, layout, m)
  {
    hide TameAt, AccessesTame, Isa.Step;
    if n > 0 {
      TameParts(layout, m);
      if Isa.Step(m).Next? {
        TameRunAccesses(n - 1, layout, Isa.Step(m).m);
      }
    }
  }

  // A tame run of the reference is a run of the interpreter.
  lemma RunAgrees(n: nat, layout: Mem, s: State)
    requires layout.Valid() && s.Valid() && Unaliased(s.mem) && SameShape(layout, s.mem)
    requires TameRun(n, layout, Abs(s))
    ensures AgreesAfter(n, s)
  {
    hide HonestRun, AgreesAfter, TameRun, AccessRun, Abs, Unaliased;
    TameRunAccesses(n, layout, Abs(s));
    RunAgreesIffTame(n, layout, s);
  }

  lemma MemOfState(s: State)
    requires s.Valid()
    ensures s.mem.Valid() && SameShape(s.mem, s.mem)
  {
  }
}
