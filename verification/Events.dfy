/** The event word: threads wait for bits of a mask and others set them, each under
    the event's own mutex. */
module Events {
  import opened Words

  // The test a waiter sleeps on.
  predicate Satisfied(event: Word, mask: Word, allWait: bool) {
    if allWait then BitsOf(Conj, event, mask) == mask else BitsOf(Conj, event, mask) != 0
  }

  ghost predicate BothUp(event: Word, mask: Word, k: nat) {
    k < 32 && Bit(event, k) && Bit(mask, k)
  }

  // The test in terms of bits: some bit of the mask is up, or all of them are.
  ghost predicate Waited(event: Word, mask: Word, allWait: bool) {
    if allWait then forall k: nat | k < 32 && Bit(mask, k) :: Bit(event, k) else exists k: nat :: BothUp(event, mask, k)
  }

  lemma SatisfiedIffWaited(event: Word, mask: Word, allWait: bool)
    ensures Satisfied(event, mask, allWait) <==> Waited(event, mask, allWait)
  {
    hide BitsOf, Bit;
    var both := BitsOf(Conj, event, mask);
    forall k: nat
      ensures Bit(both, k) <==> Bit(event, k) && Bit(mask, k)
      ensures !Bit(0, k)
    {
      BitwiseMeans(event, mask, k);
      ZeroHasNoBits(k);
    }
    if Waited(event, mask, true) {
      WordBitsDetermine(both, mask);
    }
    if !Waited(event, mask, false) {
      forall k: nat | k < 32
        ensures Bit(both, k) == Bit(0, k)
      {
        assert !BothUp(event, mask, k);
      }
      WordBitsDetermine(both, 0);
    } else {
      var k :| BothUp(event, mask, k);
      assert Bit(both, k);
    }
  }

  // What a completed call did: a wait got through, or ran out of time.
  datatype Act =
    | Set(mask: Word)
    | Wait(mask: Word, allWait: bool, clear: bool)
    | TimedOut(mask: Word, allWait: bool)

  predicate Enabled(event: Word, act: Act) {
    match act
    case Set(_) => true
    case Wait(mask, allWait, _) => Satisfied(event, mask, allWait)
    case TimedOut(mask, allWait) => !Satisfied(event, mask, allWait)
  }

  function Effect(event: Word, act: Act): Word {
    match act
    case Set(mask) => BitsOf(Disj, event, mask)
    case Wait(mask, _, clear) => if clear then BitsOf(Without, event, mask) else event
    case TimedOut(_, _) => event
  }

  datatype Out = Untouched | Seen(bits: Word)

  lemma BitsMeanAt(a: Word, b: Word)
    ensures forall k: nat :: Bit(BitsOf(Conj, a, b), k) <==> Bit(a, k) && Bit(b, k)
    ensures forall k: nat :: Bit(BitsOf(Disj, a, b), k) <==> Bit(a, k) || Bit(b, k)
    ensures forall k: nat :: Bit(BitsOf(Without, a, b), k) <==> Bit(a, k) && !Bit(b, k)
  {
    hide BitsOf, Bit;
    forall k: nat
      ensures Bit(BitsOf(Conj, a, b), k) <==> Bit(a, k) && Bit(b, k)
      ensures Bit(BitsOf(Disj, a, b), k) <==> Bit(a, k) || Bit(b, k)
      ensures Bit(BitsOf(Without, a, b), k) <==> Bit(a, k) && !Bit(b, k)
    {
      BitwiseMeans(a, b, k);
    }
  }

  class Event {
    var event: Word

    constructor ()
      ensures event == 0
    {
      event := 0;
    }

    method Set(mask: Word) returns (ok: bool)
      modifies this
      ensures ok && Enabled(old(event), Act.Set(mask)) && event == Effect(old(event), Act.Set(mask))
      ensures forall k: nat :: Bit(event, k) <==> Bit(old(event), k) || Bit(mask, k)
    {
      BitsMeanAt(event, mask);
      event := BitsOf(Disj, event, mask);
      ok := true;
    }

    // The part of a wait after its last wake-up. A wait without a time limit is only
    // woken for good by a satisfied test.
    method Wait(mask: Word, timed: bool, allWait: bool, clear: bool) returns (ok: bool, out: Out)
      requires timed || Satisfied(event, mask, allWait)
      modifies this
      ensures var act := if ok then Act.Wait(mask, allWait, clear) else TimedOut(mask, allWait);
        Enabled(old(event), act) && event == Effect(old(event), act)
      ensures ok <==> Waited(old(event), mask, allWait)
      ensures out.Seen? <==> ok
      ensures forall k: nat | ok :: Bit(out.bits, k) <==> Bit(old(event), k) && Bit(mask, k)
      ensures forall k: nat :: Bit(event, k) <==> Bit(old(event), k) && !(ok && clear && Bit(mask, k))
    {
      SatisfiedIffWaited(event, mask, allWait);
      BitsMeanAt(event, mask);
      hide BitsOf, Bit, Waited;
      out := Untouched;
      ok := if allWait then BitsOf(Conj, event, mask) == mask else BitsOf(Conj, event, mask) != 0;
      if !ok {
        return;
      }
      out := Seen(BitsOf(Conj, event, mask));
      if clear {
        event := BitsOf(Without, event, mask);
      }
    }
  }

  // ---------------------------------------------------------------- one bit

  ghost predicate Sets(act: Act, b: nat) {
    act.Set? && Bit(act.mask, b)
  }

  ghost predicate Clears(act: Act, b: nat) {
    act.Wait? && act.clear && Bit(act.mask, b)
  }

  lemma EffectOnBit(event: Word, act: Act, b: nat)
    ensures Bit(Effect(event, act), b) <==> Sets(act, b) || (Bit(event, b) && !Clears(act, b))
  {
    match act {
      case Set(mask) => BitOfBitwise(Disj, event, mask, b);
      case Wait(mask, _, _) => BitOfBitwise(Without, event, mask, b);
      case TimedOut(_, _) =>
    }
  }

  ghost predicate OnlyBit(mask: Word, b: nat) {
    forall k: nat | k < 32 :: Bit(mask, k) ==> k == b
  }

  // A wait whose success means that bit b was up: it waits for b alone, or for all of
  // a mask that has b.
  ghost predicate Consumes(act: Act, b: nat) {
    Clears(act, b) && (act.allWait || OnlyBit(act.mask, b))
  }

  lemma BitsAreLow(a: Word, k: nat)
    ensures Bit(a, k) ==> k < 32
  {
    BitIsDigit(a, k);
    if k >= 32 {
      Pow2Monotone(32, k);
      Pow2Values();
      assert a / Pow2(k) == 0 by { DivisionUnique(a, Pow2(k), 0, a); }
    }
  }

  lemma ConsumedBitWasSet(event: Word, act: Act, b: nat)
    requires Enabled(event, act) && Consumes(act, b)
    ensures Bit(event, b)
  {
    hide Bit, Satisfied;
    SatisfiedIffWaited(event, act.mask, act.allWait);
    BitsAreLow(act.mask, b);
  }

  // ---------------------------------------------------------------- histories

  // The event word after the acts of a history, from the initial zero.
  function After(acts: seq<Act>): Word {
    if acts == [] then 0 else Effect(After(acts[..|acts| - 1]), acts[|acts| - 1])
  }

  // Each act was possible when it happened.
  ghost predicate Possible(acts: seq<Act>) {
    forall i | 0 <= i < |acts| :: Enabled(After(acts[..i]), acts[i])
  }

  ghost predicate SetAndKept(acts: seq<Act>, b: nat, i: nat) {
    i < |acts| && Sets(acts[i], b) && forall j | i < j < |acts| :: !Clears(acts[j], b)
  }

  // In every interleaving a bit is up exactly when some set of it came after the last
  // successful clearing wait on it.
  lemma {:induction false} UpIffSetSinceCleared(acts: seq<Act>, b: nat)
    ensures Bit(After(acts), b) <==> exists i: nat :: SetAndKept(acts, b, i)
  {
    if acts == [] {
      ZeroHasNoBits(b);
    } else {
      var n := |acts| - 1;
      var init := acts[..n];
      UpIffSetSinceCleared(init, b);
      EffectOnBit(After(init), acts[n], b);
      if Sets(acts[n], b) {
        assert SetAndKept(acts, b, n);
      } else {
        forall i: nat
          ensures SetAndKept(acts, b, i) <==> SetAndKept(init, b, i) && !Clears(acts[n], b)
        {
          assert forall j | 0 <= j < n :: init[j] == acts[j];
        }
      }
    }
  }

  ghost function CountSets(acts: seq<Act>, b: nat): nat {
    if acts == [] then 0
    else CountSets(acts[..|acts| - 1], b) + if Sets(acts[|acts| - 1], b) then 1 else 0
  }

  ghost function CountConsumed(acts: seq<Act>, b: nat): nat {
    if acts == [] then 0
    else CountConsumed(acts[..|acts| - 1], b) + if Consumes(acts[|acts| - 1], b) then 1 else 0
  }

  // Waits that take bit b never outnumber the sets of it, and a bit that is still up
  // is a set nobody has taken.
  lemma {:induction false} WaitsNeverOutnumberSets(acts: seq<Act>, b: nat)
    requires Possible(acts)
    ensures CountConsumed(acts, b) + (if Bit(After(acts), b) then 1 else 0) <= CountSets(acts, b)
  {
    if acts == [] {
      ZeroHasNoBits(b);
    } else {
      var n := |acts| - 1;
      var init := acts[..n];
      assert forall i | 0 <= i < n :: init[..i] == acts[..i] && init[i] == acts[i];
      WaitsNeverOutnumberSets(init, b);
      EffectOnBit(After(init), acts[n], b);
      if Consumes(acts[n], b) {
        ConsumedBitWasSet(After(init), acts[n], b);
      }
    }
  }
}
