/** The CSRs over runs of the loop: which iteration decides each bit. Other
    instructions may come in between, and x0 is cleared before each. */
module CsrRuns {
  import opened Words
  import opened InstFmt
  import opened Memory
  import opened Hart
  import opened Vm
  import Csr

  // The iteration from s runs a CSR instruction to its end.
  ghost predicate RunsCsr(exts: seq<Ext>, s: State)
    requires s.Valid()
  {
    Hands(exts, Zicsr, s) && Csr.Exec(WordAt(s), Prepared(s)).err == EOK
  }

  // It decides bit b of register c.
  ghost predicate Touches(exts: seq<Ext>, s: State, c: CsrAddr, b: nat)
    requires s.Valid()
  {
    RunsCsr(exts, s) && Csr.Touches(WordAt(s), Prepared(s), c, b)
  }

  ghost predicate Leaves(s: State, b: nat)
    requires s.Valid()
  {
    Csr.Leaves(WordAt(s), Prepared(s), b)
  }

  // What one iteration makes of each bit, whatever it runs and however it ends.
  lemma IterationDecidesBit(exts: seq<Ext>, s: State, c: CsrAddr, b: nat)
    requires s.Valid() && c in s.csrs
    ensures c in Iterate(exts, s).s.csrs
    ensures Bit(Iterate(exts, s).s.csrs[c], b) == if Touches(exts, s, c, b) then Leaves(s, b) else Bit(s.csrs[c], b)
  {
    hide Iterate, Hands, WordAt, Csr.Exec, Csr.Touches, Csr.Leaves, Bit;
    IterateFrame(exts, s);
    if Hands(exts, Zicsr, s) {
      IterateHanded(exts, Zicsr, s);
      if RunsCsr(exts, s) {
        Csr.StepDecidesBits(WordAt(s), Prepared(s), c, b);
      } else {
        FailureKeepsCsrs(WordAt(s), Prepared(s));
      }
    }
  }

  lemma FailureKeepsCsrs(w: Word, s: State)
    requires s.Valid() && Csr.Exec(w, s).err != EOK
    ensures Csr.Exec(w, s).s == s
  {
  }

  // A CSR instruction that is run leaves the old value in rd, also when rd is the
  // source; memory and all other registers are unchanged, and the pc advances by 4.
  lemma IterationReturnsOldValue(exts: seq<Ext>, s: State)
    requires s.Valid() && RunsCsr(exts, s)
    ensures Csr.Address(WordAt(s)) in s.csrs
    ensures var o, w := Iterate(exts, s), WordAt(s);
      && o.Running? && |o.s.x| == 32 && o.s.mem == s.mem && o.s.pc == Wrap(s.pc + 4)
      && forall i | 1 <= i < 32 :: o.s.x[i] == if i == Rd(w) then s.csrs[Csr.Address(w)] else s.x[i]
  {
    hide Iterate, Hands, WordAt, Csr.Exec;
    var w, p := WordAt(s), Prepared(s);
    IterateHanded(exts, Zicsr, s);
    Csr.StepReturnsOldValue(w, p);
    var x := Csr.Exec(w, p).s.x;
    forall i | 1 <= i < 32
      ensures x[i] == if i == Rd(w) then s.csrs[Csr.Address(w)] else s.x[i]
    {
      assert x[0 := 0][i] == x[i];
    }
  }

  // ---------------------------------------------------------------- runs

  ghost predicate TouchedIn(exts: seq<Ext>, s: State, c: CsrAddr, b: nat, j: nat)
    requires s.Valid()
  {
    Reached(exts, s, j) && Touches(exts, Run(j, exts, s).s, c, b)
  }

  // Iteration j is the last of the first n to decide the bit.
  ghost predicate LastTouched(n: nat, exts: seq<Ext>, s: State, c: CsrAddr, b: nat, j: nat)
    requires s.Valid()
  {
    j < n && TouchedIn(exts, s, c, b, j) && forall k: nat | j < k < n :: !TouchedIn(exts, s, c, b, k)
  }

  lemma RunDecidesBit(n: nat, exts: seq<Ext>, s: State, c: CsrAddr, b: nat)
    requires s.Valid() && c in s.csrs
    ensures c in Run(n, exts, s).s.csrs && c in Run(n + 1, exts, s).s.csrs
    ensures Bit(Run(n + 1, exts, s).s.csrs[c], b) ==
      if TouchedIn(exts, s, c, b, n) then Leaves(Run(n, exts, s).s, b) else Bit(Run(n, exts, s).s.csrs[c], b)
  {
    hide Run, Iterate, Touches, Leaves, Bit, SameShape;
    RunKeepsCsrSet(n, exts, s);
    RunKeepsCsrSet(n + 1, exts, s);
    RunGoesOn(n, exts, s);
    IterationDecidesBit(exts, Run(n, exts, s).s, c, b);
  }

  // After any run each bit of each CSR is what the last instruction that touched it
  // made it, over any instruction sets and with anything in between.
  lemma {:induction false} LastTouchDecides(n: nat, exts: seq<Ext>, s: State, c: CsrAddr, b: nat, j: nat)
    requires s.Valid() && c in s.csrs && LastTouched(n, exts, s, c, b, j)
    ensures c in Run(n, exts, s).s.csrs
    ensures Bit(Run(n, exts, s).s.csrs[c], b) == Leaves(Run(j, exts, s).s, b)
  {
    hide Run, TouchedIn, Leaves, Bit;
    RunDecidesBit(n - 1, exts, s, c, b);
    if j < n - 1 {
      LastTouchDecides(n - 1, exts, s, c, b, j);
    }
  }

  // And a bit that no instruction touched is unchanged.
  lemma {:induction false} UntouchedBitStays(n: nat, exts: seq<Ext>, s: State, c: CsrAddr, b: nat)
    requires s.Valid() && c in s.csrs && forall k: nat | k < n :: !TouchedIn(exts, s, c, b, k)
    ensures c in Run(n, exts, s).s.csrs
    ensures Bit(Run(n, exts, s).s.csrs[c], b) == Bit(s.csrs[c], b)
  {
    if n > 0 {
      hide Run, TouchedIn, Leaves, Bit;
      RunDecidesBit(n - 1, exts, s, c, b);
      UntouchedBitStays(n - 1, exts, s, c, b);
    }
  }
}
