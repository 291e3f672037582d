/** Starting and stopping the run thread: callers of the public interface, each call
    under the interpreter's mutex, interleaved with the detached run threads. */
module Lifecycle {
  import opened Words
  import opened Memory
  import opened Events
  import Hart
  import Registry
  import Vm

  // Where a run thread is: not yet running, m_running raised, at the exit test, in an
  // iteration, out of the loop, m_running lowered, STOP announced.
  datatype Phase = Born | Announced | Testing | Working | Leaving | Quiet | Gone

  // Between m_running := true and m_running := false.
  predicate Active(p: Phase) {
    p.Announced? || p.Testing? || p.Working? || p.Leaving?
  }

  predicate Over(p: Phase) {
    p.Quiet? || p.Gone?
  }

  // A thread that has set the START event.
  predicate Signalled(p: Phase) {
    !p.Born? && !p.Announced?
  }

  // The instruction sets, and whether a log and a decompressor are set; the regions
  // and the start address are part of the machine state.
  datatype Config = Config(insts: seq<Registry.Entry>, log: bool, comprs: bool)

  datatype Call =
    | AddInst(name: string, ext: Vm.Ext) | AddMem(r: Region) | SetLog | SetCompress | SetStartAddr(addr: Word)

  // Who holds m_mutex: nobody, a start under way, a stop under way. Every other call
  // takes and releases it in one step.
  datatype Lock = Free | Starting | Stopping

  datatype State = State(
    lock: Lock, started: bool, hasThread: bool, exitReq: bool, running: bool,
    event: Word, threads: seq<Phase>, config: Config, hart: Hart.State,
    starts: nat, waits: nat)  // successful calls of start and of wait_for_start

  const START: Word := 1
  const STOP: Word := 2

  datatype Step =
    | Configure(call: Call)
    | StartRefused | StartBegin | StartEnd
    | StopRefused | StopBegin | StopEnd
    | WaitStart | WaitStop
    | Thread(k: nat)

  // A new machine over given memory objects.
  function Initial(stores: seq<Store>): State {
    State(Free, false, false, false, false, 0, [], Config([], false, false),
          Hart.State(seq(32, _ => 0), 0, false, map[], Mem([], stores)), 0, 0)
  }

  // ---------------------------------------------------------------- steps

  predicate Duplicate(c: Config, call: Call) {
    call.AddInst? && Registry.Named(c.insts, Registry.Upper(call.name))
  }

  // The effect of a configuration call that is let in.
  function ConfigAfter(c: Config, call: Call): Config {
    match call
    case AddInst(name, ext) =>
      if Duplicate(c, call) then c
      else c.(insts := Registry.Insert(c.insts, Registry.Entry(Registry.Upper(name), ext)))
    case SetLog => c.(log := true)
    case SetCompress => c.(comprs := true)
    case _ => c
  }

  function HartAfter(c: Config, h: Hart.State, call: Call): Hart.State {
    match call
    case AddInst(_, ext) => if Duplicate(c, call) then h else h.(csrs := Registry.Registered(ext, h.csrs))
    case AddMem(r) => h.(mem := h.mem.(regions := AddRegion(h.mem.regions, r)))
    case SetStartAddr(addr) => h.(pc := addr)
    case _ => h
  }

  function Configured(s: State, call: Call): State {
    s.(config := ConfigAfter(s.config, call), hart := HartAfter(s.config, s.hart, call))
  }

  ghost predicate CanStep(s: State, step: Step) {
    match step
    case Configure(call) => s.lock.Free? && (call.AddMem? ==> call.r.store < |s.hart.mem.stores|)
    case StartRefused => s.lock.Free? && (s.started || s.hasThread)
    case StartBegin => s.lock.Free? && !(s.started || s.hasThread)
    case StartEnd => s.lock.Starting?
    case StopRefused => s.lock.Free? && (!s.started || !s.hasThread)
    case StopBegin => s.lock.Free? && s.started && s.hasThread
    case StopEnd => s.lock.Stopping? && !s.running
    case WaitStart => Enabled(s.event, Wait(START, false, true))
    case WaitStop => Enabled(s.event, Wait(STOP, false, true))
    case Thread(k) => k < |s.threads| && !s.threads[k].Gone? && s.hart.Valid()
  }

  // What an iteration of the loop makes of the machine.
  ghost function Iterated(s: State): Vm.Outcome
    requires s.hart.Valid()
  {
    Vm.Iterate(Registry.Exts(s.config.insts), s.hart)
  }

  function PhaseAfter(p: Phase, exitReq: bool, ends: bool): Phase {
    match p
    case Born => Announced
    case Announced => Testing
    case Testing => if exitReq then Leaving else Working
    case Working => if ends then Leaving else Testing
    case Leaving => Quiet
    case _ => Gone
  }

  // m_running goes up first and down after the loop; START follows the one, STOP the
  // other; only an iteration touches the machine.
  ghost function ThreadStep(s: State, k: nat): State
    requires CanStep(s, Thread(k))
  {
    var p, o := s.threads[k], Iterated(s);
    s.(running := p.Born? || (s.running && !p.Leaving?),
       event := if p.Announced? then Effect(s.event, Set(START))
                else if p.Quiet? then Effect(s.event, Set(STOP)) else s.event,
       hart := if p.Working? then o.s else s.hart,
       threads := s.threads[k := PhaseAfter(p, s.exitReq, o.Stopped?)])
  }

  ghost function Next(s: State, step: Step): State
    requires CanStep(s, step)
  {
    match step
    case Configure(call) => if s.started then s else Configured(s, call)
    case StartRefused => s
    case StartBegin => s.(exitReq := false, lock := Starting)
    case StartEnd =>
      s.(threads := s.threads + [Born], hasThread := true, started := true, lock := Free, starts := s.starts + 1)
    case StopRefused => s
    case StopBegin => s.(exitReq := true, lock := Stopping)
    case StopEnd => s.(hasThread := false, started := false, lock := Free)
    case WaitStart => s.(event := Effect(s.event, Wait(START, false, true)), waits := s.waits + 1)
    case WaitStop => s.(event := Effect(s.event, Wait(STOP, false, true)))
    case Thread(k) => ThreadStep(s, k)
  }

  // The thread a started machine runs is not yet under way.
  predicate LastBorn(s: State) {
    |s.threads| > 0 && s.threads[|s.threads| - 1].Born?
  }

  // stop is not called before the new thread has raised m_running.
  predicate Patient(s: State, step: Step) {
    step.StopBegin? ==> !LastBorn(s)
  }

  // What a caller can check: stop is called only when every successful start has been
  // matched by a successful wait_for_start.
  predicate Disciplined(s: State, step: Step) {
    step.StopBegin? ==> s.waits == s.starts
  }

  // ---------------------------------------------------------------- runs

  ghost predicate Reaches(steps: seq<Step>, s: State, s': State) {
    if steps == [] then s' == s
    else CanStep(s, steps[0]) && Reaches(steps[1..], Next(s, steps[0]), s')
  }

  ghost predicate PatientRun(steps: seq<Step>, s: State) {
    steps == [] || (CanStep(s, steps[0]) && Patient(s, steps[0]) && PatientRun(steps[1..], Next(s, steps[0])))
  }

  ghost predicate DisciplinedRun(steps: seq<Step>, s: State) {
    steps == [] ||
    (CanStep(s, steps[0]) && Disciplined(s, steps[0]) && DisciplinedRun(steps[1..], Next(s, steps[0])))
  }

  // ---------------------------------------------------------------- the invariants

  ghost predicate EarlierOver(threads: seq<Phase>) {
    forall k | 0 <= k < |threads| - 1 :: Over(threads[k])
  }

  ghost predicate AllOver(threads: seq<Phase>) {
    forall k | 0 <= k < |threads| :: Over(threads[k])
  }

  // Only the newest thread can be alive, m_running says whether it is active, and
  // while stop waits it is under way; only then is it asked to end.
  ghost predicate Orderly(s: State) {
    var n := |s.threads|;
    && s.started == s.hasThread && s.hart.Valid()
    && EarlierOver(s.threads)
    && (s.running <==> n > 0 && Active(s.threads[n - 1]))
    && match s.lock
       case Free => if s.started then n > 0 && !s.exitReq else AllOver(s.threads)
       case Starting => !s.started && !s.exitReq && AllOver(s.threads)
       case Stopping => s.started && s.exitReq && n > 0 && !LastBorn(s)
  }

  ghost predicate Exclusive(s: State) {
    forall i, j | 0 <= i < j < |s.threads| :: !(Active(s.threads[i]) && Active(s.threads[j]))
  }

  lemma OrderlyIsExclusive(s: State)
    requires Orderly(s)
    ensures Exclusive(s)
  {
  }

  lemma RegionsKeepValid(s: State, r: Region)
    requires s.hart.Valid() && r.store < |s.hart.mem.stores|
    ensures Configured(s, AddMem(r)).hart.Valid()
  {
    var rs := s.hart.mem.regions;
    assert forall q | q in AddRegion(rs, r) :: q in rs || q == r;
  }

  lemma ConfiguredIsOrderly(s: State, call: Call)
    requires Orderly(s) && CanStep(s, Configure(call)) && !s.started
    ensures Orderly(Configured(s, call))
  {
    if call.AddMem? {
      RegionsKeepValid(s, call.r);
    }
  }

  lemma IteratedValid(s: State)
    requires s.hart.Valid()
    ensures Iterated(s).s.Valid()
  {
    hide Vm.Iterate, Hart.State.Valid, Vm.SameShape;
    Vm.IterateKeeps(Registry.Exts(s.config.insts), s.hart);
  }

  lemma ThreadIsOrderly(s: State, k: nat)
    requires Orderly(s) && CanStep(s, Thread(k))
    ensures Orderly(ThreadStep(s, k))
  {
    hide Iterated, Effect, Enabled, Hart.State.Valid;
    IteratedValid(s);
  }

  lemma StepIsOrderly(s: State, step: Step)
    requires Orderly(s) && CanStep(s, step) && Patient(s, step)
    ensures Orderly(Next(s, step))
  {
    hide Effect, Enabled, Configured, ThreadStep, Hart.State.Valid;
    match step {
      case Configure(call) =>
        if !s.started {
          ConfiguredIsOrderly(s, call);
        }
      case Thread(k) => ThreadIsOrderly(s, k);
      case _ =>
    }
  }

  lemma {:induction false} PatientRunIsOrderly(steps: seq<Step>, s: State, s': State)
    requires Orderly(s) && PatientRun(steps, s) && Reaches(steps, s, s')
    ensures Orderly(s')
  {
    hide Orderly, CanStep, Next;
    if steps != [] {
      StepIsOrderly(s, steps[0]);
      PatientRunIsOrderly(steps[1..], Next(s, steps[0]), s');
    }
  }

  lemma InitialIsOrderly(stores: seq<Store>)
    ensures Orderly(Initial(stores))
  {
  }

  // ---------------------------------------------------------------- exclusion

  predicate ByCaller(step: Step) {
    !step.Thread?
  }

  // In every interleaving of patient calls with the run threads, at most one thread is
  // between raising and lowering m_running, m_running says whether there is one, and
  // while there is, no call changes the configuration or anything in the machine.
  lemma RunnerExclusion(stores: seq<Store>, steps: seq<Step>, s: State)
    requires PatientRun(steps, Initial(stores)) && Reaches(steps, Initial(stores), s)
    ensures Exclusive(s)
    ensures s.running <==> exists i :: 0 <= i < |s.threads| && Active(s.threads[i])
    ensures s.running ==> forall step | CanStep(s, step) && ByCaller(step) ::
      Next(s, step).config == s.config && Next(s, step).hart == s.hart
  {
    hide Configured, Effect, Enabled, ThreadStep;
    InitialIsOrderly(stores);
    PatientRunIsOrderly(steps, Initial(stores), s);
  }

  // After a stop no thread is in the loop or still to enter it.
  lemma StoppedForGood(stores: seq<Store>, steps: seq<Step>, s: State)
    requires PatientRun(steps, Initial(stores)) && Reaches(steps, Initial(stores), s) && !s.started
    ensures AllOver(s.threads)
  {
    InitialIsOrderly(stores);
    PatientRunIsOrderly(steps, Initial(stores), s);
  }

  // How far a thread is from its end.
  function Distance(p: Phase): nat {
    match p
    case Born => 6 case Announced => 5 case Working => 4 case Testing => 3
    case Leaving => 2 case Quiet => 1 case Gone => 0
  }

  // While stop waits, the running thread can always move, every move takes it closer
  // to its end, and nobody lowers the exit request: stop returns after at most four
  // of its steps.
  lemma StopMakesProgress(stores: seq<Store>, steps: seq<Step>, s: State)
    requires PatientRun(steps, Initial(stores)) && Reaches(steps, Initial(stores), s) && s.lock.Stopping?
    ensures |s.threads| > 0 && Distance(s.threads[|s.threads| - 1]) <= 5
    ensures CanStep(s, StopEnd) || (Active(s.threads[|s.threads| - 1]) && CanStep(s, Thread(|s.threads| - 1)))
    ensures forall step | CanStep(s, step) && step != StopEnd ::
      var s' := Next(s, step);
      s'.lock.Stopping? && s'.exitReq && |s'.threads| == |s.threads|
    ensures forall step | CanStep(s, step) && step.Thread? ::
      Distance(Next(s, step).threads[step.k]) < Distance(s.threads[step.k])
  {
    hide Configured, Effect, Enabled, Iterated, Hart.State.Valid;
    InitialIsOrderly(stores);
    PatientRunIsOrderly(steps, Initial(stores), s);
  }

  // ---------------------------------------------------------------- one session

  // The thread has left the loop.
  predicate Done(p: Phase) {
    p.Leaving? || Over(p)
  }

  // Since the state s0 its new thread has made n iterations of the loop, counting the
  // one that ended it, and nothing else has touched the machine. It has left the loop
  // only if an iteration ended it or it was asked to.
  ghost predicate Session(s0: State, n: nat, s: State) {
    && s0.hart.Valid() && s.started && s.config == s0.config && |s.threads| == |s0.threads| > 0
    && var o, p := Vm.Run(n, Registry.Exts(s0.config.insts), s0.hart), s.threads[|s.threads| - 1];
    o.s == s.hart && (!Done(p) ==> o.why == Vm.ExitRequested) && (Done(p) && o.why == Vm.ExitRequested ==> s.exitReq)
  }

  lemma SessionIterates(s0: State, n: nat, s: State)
    requires Orderly(s) && Session(s0, n, s) && CanStep(s, Thread(|s.threads| - 1))
    requires s.threads[|s.threads| - 1].Working?
    ensures Session(s0, n + 1, ThreadStep(s, |s.threads| - 1))
  {
    hide Vm.Iterate, Vm.Run, Effect, Hart.State.Valid, Orderly, Registry.Exts;
    Vm.RunOneMore(n, Registry.Exts(s0.config.insts), s0.hart, s.hart);
    Vm.NeverAsked(Registry.Exts(s0.config.insts), s.hart);
  }

  // A thread step other than an iteration.
  lemma SessionMoves(s0: State, n: nat, s: State, k: nat)
    requires Orderly(s) && Session(s0, n, s) && CanStep(s, Thread(k)) && !s.threads[k].Working?
    ensures Session(s0, n, ThreadStep(s, k))
  {
    hide Vm.Run, Iterated, Effect, Enabled, Hart.State.Valid, Registry.Exts;
  }

  lemma SessionCalls(s0: State, n: nat, s: State, step: Step)
    requires Orderly(s) && Session(s0, n, s) && CanStep(s, step) && step != StopEnd && !step.Thread?
    ensures Session(s0, n, Next(s, step))
  {
    hide Vm.Run, Effect, Enabled, Configured, ThreadStep, Hart.State.Valid, Registry.Exts, Done;
  }

  lemma SessionStep(s0: State, n: nat, s: State, step: Step) returns (n': nat)
    requires Orderly(s) && Session(s0, n, s) && CanStep(s, step) && step != StopEnd
    ensures Session(s0, n', Next(s, step))
  {
    hide *;
    n' := n;
    if step.Thread? {
      ThreadParts(s, step.k);
      if s.threads[step.k].Working? {
        OnlyLastWorks(s, step.k);
        SessionIterates(s0, n, s);
        n' := n + 1;
      } else {
        SessionMoves(s0, n, s, step.k);
      }
    } else {
      SessionCalls(s0, n, s, step);
    }
  }

  lemma ThreadParts(s: State, k: nat)
    requires CanStep(s, Thread(k))
    ensures k < |s.threads| && Next(s, Thread(k)) == ThreadStep(s, k)
  {
    hide ThreadStep;
  }

  lemma OnlyLastWorks(s: State, k: nat)
    requires Orderly(s) && k < |s.threads| && s.threads[k].Working?
    ensures k == |s.threads| - 1
  {
  }

  lemma {:induction false} SessionRuns(s0: State, n: nat, s: State, steps: seq<Step>, s1: State) returns (n1: nat)
    requires Orderly(s) && Session(s0, n, s) && PatientRun(steps, s) && Reaches(steps, s, s1) && StopEnd !in steps
    ensures Session(s0, n1, s1)
    decreases |steps|
  {
    hide Orderly, CanStep, Next, Session;
    n1 := n;
    if steps != [] {
      assert steps[0] in steps;
      var n' := SessionStep(s0, n, s, steps[0]);
      StepIsOrderly(s, steps[0]);
      n1 := SessionRuns(s0, n', Next(s, steps[0]), steps[1..], s1);
    }
  }

  // Iteration n of the run from s ended it, and left the machine as it is in t.
  ghost predicate EndedItself(s: State, n: nat, t: State) {
    && s.hart.Valid() && t.hart == Vm.Run(n, Registry.Exts(s.config.insts), s.hart).s
    && Vm.Run(n, Registry.Exts(s.config.insts), s.hart).why != Vm.ExitRequested
  }

  // Without a stop the thread leaves the loop only when one of its iterations ends it.
  lemma EndsOnlyByItself(s: State, steps: seq<Step>, s1: State)
    requires Orderly(s) && CanStep(s, StartEnd) && StopBegin !in steps
    requires Reaches(steps, Next(s, StartEnd), s1)
    requires |s1.threads| == |s.threads| + 1 && Done(s1.threads[|s.threads|])
    ensures exists n: nat :: EndedItself(s, n, s1)
  {
    StepIsOrderly(s, StartEnd);
    var s0 := Next(s, StartEnd);
    assert s0.hart == s.hart && s.hart.Valid() && s0.config == s.config && s0.started && !s0.lock.Stopping?;
    assert |s0.threads| > 0 && LastBorn(s0);
    hide Reaches, PatientRun, Hart.State.Valid, Registry.Exts, Vm.Run;
    NoStopIsPatient(steps, s0, s1);
    NoStopGoesOn(steps, s0, s1);
    FirstOfRun(s0);
    var n := SessionRuns(s0, 0, s0, steps, s1);
    PatientRunIsOrderly(steps, s0, s1);
    assert !s1.exitReq;
    assert EndedItself(s, n, s1);
  }

  lemma FirstOfRun(s0: State)
    requires s0.started && s0.hart.Valid() && |s0.threads| > 0 && LastBorn(s0)
    ensures Session(s0, 0, s0)
  {
    hide Hart.State.Valid, Registry.Exts;
  }

  lemma {:induction false} NoStopGoesOn(steps: seq<Step>, s: State, s': State)
    requires Reaches(steps, s, s') && StopBegin !in steps && s.started && s.started == s.hasThread && !s.lock.Stopping?
    ensures s'.started && !s'.lock.Stopping? && StopEnd !in steps
  {
    if steps != [] {
      assert steps[0] in steps;
      NoStopHere(s, steps[0]);
      hide CanStep, Next;
      assert forall step | step in steps :: step == steps[0] || step in steps[1..];
      NoStopGoesOn(steps[1..], Next(s, steps[0]), s');
    }
  }

  lemma NoStopHere(s: State, step: Step)
    requires CanStep(s, step) && step != StopBegin && s.started && s.hasThread && !s.lock.Stopping?
    ensures step != StopEnd
    ensures var s' := Next(s, step); s'.started && s'.hasThread && !s'.lock.Stopping?
  {
    hide Effect, Enabled, Iterated, Hart.State.Valid, Configured;
  }

  // The machine went from s to t through n iterations of the loop at most, with the
  // instruction sets of s, and no thread is left in it.
  ghost predicate OneRun(s: State, n: nat, t: State) {
    && s.hart.Valid() && t.hart == Vm.Run(n, Registry.Exts(s.config.insts), s.hart).s
    && t.config == s.config && AllOver(t.threads)
  }

  // From a start to the stop that ends it, whatever patient calls come in between and
  // however the threads interleave, the machine goes through one run of the loop.
  lemma StartToStopIsOneRun(s: State, steps: seq<Step>, s1: State)
    requires Orderly(s) && CanStep(s, StartEnd)
    requires PatientRun(steps, Next(s, StartEnd)) && Reaches(steps, Next(s, StartEnd), s1) && StopEnd !in steps
    requires CanStep(s1, StopEnd)
    ensures exists n: nat :: OneRun(s, n, Next(s1, StopEnd))
  {
    StepIsOrderly(s, StartEnd);
    var s0 := Next(s, StartEnd);
    assert s0.hart == s.hart && s.hart.Valid() && s0.config == s.config && s0.started;
    assert |s0.threads| > 0 && LastBorn(s0);
    hide Reaches, PatientRun, Hart.State.Valid, Registry.Exts;
    assert Session(s0, 0, s0);
    var n := SessionRuns(s0, 0, s0, steps, s1);
    PatientRunIsOrderly(steps, s0, s1);
    assert s1.lock.Stopping?;
    StepIsOrderly(s1, StopEnd);
    assert OneRun(s, n, Next(s1, StopEnd));
  }

  // ---------------------------------------------------------------- the hasty stop

  const START_CALL := [StartBegin] + [StartEnd]

  // The first three steps of a thread: announce, signal, pass the exit test.
  function Enter(k: nat): seq<Step> {
    [Thread(k)] + [Thread(k)] + [Thread(k)]
  }

  // Finish the stop, change the configuration, and start again, which takes the exit
  // request back; then the stopped thread k and the new one go on.
  function Resume(call: Call, k: nat): seq<Step> {
    [StopEnd] + [Configure(call)] + START_CALL + Enter(k) + Enter(k + 1)
  }

  lemma {:induction false} ReachesThen(first: seq<Step>, second: seq<Step>, s: State, s': State, s'': State)
    requires Reaches(first, s, s') && Reaches(second, s', s'')
    ensures Reaches(first + second, s, s'')
  {
    hide CanStep, Next;
    if first == [] {
      assert first + second == second;
    } else {
      ReachesThen(first[1..], second, Next(s, first[0]), s', s'');
      assert (first + second)[1..] == first[1..] + second;
    }
  }

  lemma OneStep(s: State, step: Step)
    requires CanStep(s, step)
    ensures Reaches([step], s, Next(s, step))
  {
    hide Next, CanStep;
    assert [step][1..] == [];
  }

  lemma Started(s: State)
    requires s.lock.Free? && !s.started && !s.hasThread
    ensures Reaches(START_CALL, s,
              s.(exitReq := false, threads := s.threads + [Born], hasThread := true, started := true,
                 starts := s.starts + 1))
  {
    hide Reaches, ThreadStep;
    OneStep(s, StartBegin);
    OneStep(Next(s, StartBegin), StartEnd);
    ReachesThen([StartBegin], [StartEnd], s, Next(s, StartBegin), Next(Next(s, StartBegin), StartEnd));
  }

  lemma Entered(s: State, k: nat)
    requires k < |s.threads| && s.threads[k].Born? && !s.exitReq && s.hart.Valid()
    ensures Reaches(Enter(k), s,
      s.(running := true, event := Effect(s.event, Set(START)), threads := s.threads[k := Working]))
  {
    hide Effect, Enabled, Iterated, Hart.State.Valid;
    var one := Thread(k);
    var s1 := s.(running := true, threads := s.threads[k := Announced]);
    var s2 := s1.(event := Effect(s.event, Set(START)), threads := s.threads[k := Testing]);
    var s3 := s2.(threads := s.threads[k := Working]);
    assert s.threads[k := Announced][k := Testing] == s.threads[k := Testing];
    assert s.threads[k := Testing][k := Working] == s.threads[k := Working];
    assert CanStep(s, one) && CanStep(s1, one) && CanStep(s2, one);
    assert Next(s, one) == s1 && Next(s1, one) == s2 && Next(s2, one) == s3;
    hide Next, CanStep;
    OneStep(s, one);
    OneStep(s1, one);
    OneStep(s2, one);
    ReachesThen([one], [one], s, s1, s2);
    ReachesThen([one] + [one], [one], s, s2, s3);
  }

  // Both threads, after the second start.
  lemma BothEnter(s: State, k: nat) returns (s': State)
    requires k + 2 == |s.threads| && s.threads[k].Born? && s.threads[k + 1].Born? && !s.exitReq && s.hart.Valid()
    ensures Reaches(Enter(k) + Enter(k + 1), s, s')
    ensures s'.threads == s.threads[k := Working][k + 1 := Working] && s'.config == s.config && s'.hart == s.hart
  {
    hide Effect, Reaches, Hart.State.Valid, Enter;
    var s1 := s.(running := true, event := Effect(s.event, Set(START)), threads := s.threads[k := Working]);
    s' := s1.(event := Effect(s1.event, Set(START)), threads := s1.threads[k + 1 := Working]);
    Entered(s, k);
    Entered(s1, k + 1);
    ReachesThen(Enter(k), Enter(k + 1), s, s1, s');
  }

  // Two threads in the loop, over a configuration changed by the call since s.
  ghost predicate TwoRunners(s: State, call: Call, s': State) {
    var k := |s.threads| - 1;
    && k >= 0 && |s'.threads| == k + 2 && s'.threads[k].Working? && s'.threads[k + 1].Working?
    && s'.config == Configured(s, call).config && s'.hart == Configured(s, call).hart
  }

  ghost predicate LeadsTo(steps: seq<Step>, s: State, s': State) {
    PatientRun(steps, s) && Reaches(steps, s, s')
  }

  // From every orderly state, a stop before the new thread has raised m_running returns,
  // and the calls that follow lead to two threads in the loop.
  lemma HastyStopLeavesTwoRunners(s: State, call: Call)
    requires Orderly(s) && CanStep(s, StopBegin) && LastBorn(s) && CanStep(s, Configure(call))
    ensures exists s' :: LeadsTo(Resume(call, |s.threads| - 1), Next(s, StopBegin), s') && TwoRunners(s, call, s')
  {
    hide Effect, Reaches, Enter, ThreadStep, PatientRun;
    var k := |s.threads| - 1;
    var t := Next(s, StopBegin);
    var s1 := Next(t, StopEnd);
    var s2 := Next(s1, Configure(call));
    ConfiguredFrame(s1, call);
    ConfiguredAlike(s, s1, call);
    HartKept(s, s1, call);
    hide Configured, Hart.State.Valid;
    var s3 := s2.(exitReq := false, threads := s2.threads + [Born], hasThread := true, started := true,
                  starts := s2.starts + 1);
    OneStep(t, StopEnd);
    OneStep(s1, Configure(call));
    Started(s2);
    var s' := BothEnter(s3, k);
    ReachesThen([StopEnd], [Configure(call)], t, s1, s2);
    ReachesThen([StopEnd] + [Configure(call)], START_CALL, t, s2, s3);
    ReachesThen([StopEnd] + [Configure(call)] + START_CALL, Enter(k) + Enter(k + 1), t, s3, s');
    assert [StopEnd] + [Configure(call)] + START_CALL + (Enter(k) + Enter(k + 1)) == Resume(call, k);
    ResumeIsPatient(call, k, t, s');
    assert LeadsTo(Resume(call, k), t, s') && TwoRunners(s, call, s');
  }

  lemma ConfiguredFrame(s: State, call: Call)
    ensures var s' := Configured(s, call);
      s'.(config := s.config, hart := s.hart) == s
  {
    hide ConfigAfter, HartAfter;
  }

  lemma ConfiguredAlike(s: State, s': State, call: Call)
    requires s'.config == s.config && s'.hart == s.hart
    ensures Configured(s', call).config == Configured(s, call).config
    ensures Configured(s', call).hart == Configured(s, call).hart
  {
    hide ConfigAfter, HartAfter;
  }

  lemma HartKept(s: State, s': State, call: Call)
    requires Orderly(s) && CanStep(s, Configure(call)) && s'.hart == s.hart && s'.config == s.config
    ensures Configured(s', call).hart.Valid()
  {
    if call.AddMem? {
      RegionsKeepValid(s', call.r);
    }
  }

  // Steps without a stop are patient.
  lemma {:induction false} NoStopIsPatient(steps: seq<Step>, s: State, s': State)
    requires Reaches(steps, s, s') && StopBegin !in steps
    ensures PatientRun(steps, s)
  {
    hide CanStep, Next;
    if steps != [] {
      assert steps[0] in steps;
      NoStopIsPatient(steps[1..], Next(s, steps[0]), s');
    }
  }

  lemma ResumeIsPatient(call: Call, k: nat, s: State, s': State)
    requires Reaches(Resume(call, k), s, s')
    ensures PatientRun(Resume(call, k), s)
  {
    hide Reaches, PatientRun;
    NoStopIsPatient(Resume(call, k), s, s');
  }

  // A stop is safe, whatever patient calls follow, exactly when the new thread has
  // raised m_running.
  lemma StopIsSafeIff(s: State)
    requires Orderly(s) && CanStep(s, StopBegin)
    ensures !LastBorn(s) <==>
      forall more, s' | LeadsTo(more, Next(s, StopBegin), s') :: Exclusive(s')
  {
    hide Orderly, Exclusive, LeadsTo;
    var t := Next(s, StopBegin);
    if !LastBorn(s) {
      StepIsOrderly(s, StopBegin);
      forall more, s' | LeadsTo(more, t, s')
        ensures Exclusive(s')
      {
        LeadsToOrderly(more, t, s');
      }
    } else {
      HastyStopLeavesTwoRunners(s, SetLog);
      var two :| LeadsTo(Resume(SetLog, |s.threads| - 1), t, two) && TwoRunners(s, SetLog, two);
      TwoAreNotExclusive(s, SetLog, two);
    }
  }

  lemma LeadsToOrderly(steps: seq<Step>, s: State, s': State)
    requires Orderly(s) && LeadsTo(steps, s, s')
    ensures Orderly(s') && Exclusive(s')
  {
    hide Orderly, Exclusive;
    PatientRunIsOrderly(steps, s, s');
    OrderlyIsExclusive(s');
  }

  lemma TwoAreNotExclusive(s: State, call: Call, s': State)
    requires TwoRunners(s, call, s')
    ensures !Exclusive(s')
  {
    hide Configured;
    var k := |s.threads| - 1;
    assert Active(s'.threads[k]) && Active(s'.threads[k + 1]);
  }

  // For example: start a new machine, and stop at once.
  lemma HastyFromTheStart(stores: seq<Store>)
    ensures exists s ::
      && Reaches(START_CALL + [StopBegin] + Resume(SetLog, 0), Initial(stores), s)
      && s.threads == [Working, Working] && s.config == Config([], true, false)
  {
    hide Reaches, Resume, ThreadStep;
    var a := Initial(stores);
    Started(a);
    var b := a.(threads := a.threads + [Born], hasThread := true, started := true, starts := 1);
    HastyStopLeavesTwoRunners(b, SetLog);
    var s :| LeadsTo(Resume(SetLog, 0), Next(b, StopBegin), s) && TwoRunners(b, SetLog, s);
    OneStep(b, StopBegin);
    ReachesThen(START_CALL, [StopBegin], a, b, Next(b, StopBegin));
    ReachesThen(START_CALL + [StopBegin], Resume(SetLog, 0), a, Next(b, StopBegin), s);
  }

  // ---------------------------------------------------------------- the discipline

  // The START bit is 0, the STOP bit 1. A thread passes the one when it has set it.
  predicate Passed(b: nat, p: Phase) {
    if b == 0 then Signalled(p) else p.Gone?
  }

  function Waiter(b: nat): Step {
    if b == 0 then WaitStart else WaitStop
  }

  ghost function CountPassed(b: nat, threads: seq<Phase>): nat {
    if threads == [] then 0
    else CountPassed(b, threads[..|threads| - 1]) + if Passed(b, threads[|threads| - 1]) then 1 else 0
  }

  function One(p: bool): nat {
    if p then 1 else 0
  }

  lemma {:induction false} CountUpdate(b: nat, threads: seq<Phase>, k: nat, p: Phase)
    requires k < |threads| && (Passed(b, threads[k]) ==> Passed(b, p))
    ensures CountPassed(b, threads[k := p]) == CountPassed(b, threads) + One(Passed(b, p) && !Passed(b, threads[k]))
  {
    var n := |threads| - 1;
    if k < n {
      CountUpdate(b, threads[..n], k, p);
      assert threads[k := p][..n] == threads[..n][k := p];
    } else {
      assert threads[k := p][..n] == threads[..n];
    }
  }

  lemma {:induction false} CountBound(b: nat, threads: seq<Phase>)
    ensures CountPassed(b, threads) <= |threads|
    ensures CountPassed(b, threads) == |threads| ==> forall k | 0 <= k < |threads| :: Passed(b, threads[k])
  {
    if threads != [] {
      CountBound(b, threads[..|threads| - 1]);
    }
  }

  lemma CountAppend(b: nat, threads: seq<Phase>)
    ensures CountPassed(b, threads + [Born]) == CountPassed(b, threads)
  {
    assert (threads + [Born])[..|threads|] == threads;
  }

  // What the acts of this machine do to the two bits, and when its waits get through.
  lemma MaskBits(event: Word, b: nat)
    requires b < 2
    ensures var mask, other := if b == 0 then START else STOP, if b == 0 then STOP else START;
      && Bit(Effect(event, Set(mask)), b) && Bit(Effect(event, Set(other)), b) == Bit(event, b)
      && !Bit(Effect(event, Wait(mask, false, true)), b)
      && Bit(Effect(event, Wait(other, false, true)), b) == Bit(event, b)
      && (Enabled(event, Wait(mask, false, true)) <==> Bit(event, b))
  {
    hide Effect, Satisfied;
    var mask, other := if b == 0 then START else STOP, if b == 0 then STOP else START;
    OnlyOneBit(mask, b);
    OnlyOneBit(other, 1 - b);
    EffectOnBit(event, Set(mask), b);
    EffectOnBit(event, Set(other), b);
    EffectOnBit(event, Wait(mask, false, true), b);
    EffectOnBit(event, Wait(other, false, true), b);
    SatisfiedIffWaited(event, mask, false);
    hide Bit;
    assert Bit(event, b) ==> BothUp(event, mask, b);
  }

  lemma OnlyOneBit(mask: Word, b: nat)
    requires b < 2 && mask == if b == 0 then 1 else 2
    ensures forall k: nat :: Bit(mask, k) <==> k == b
  {
    forall k: nat
      ensures Bit(mask, k) <==> k == b
    {
      if k > 1 {
        ZeroHasNoBits(k - 2);
        ZeroHasNoBits(k - 1);
        assert Bit(2, k) == Bit(1, k - 1) == Bit(0, k - 2) && Bit(1, k) == Bit(0, k - 1);
      }
    }
  }

  // The step that sets a bit: the thread passes it.
  ghost predicate Signals(s: State, step: Step, b: nat) {
    step.Thread? && step.k < |s.threads| && s.threads[step.k] == if b == 0 then Announced else Quiet
  }

  // One step: who sets the bit, who takes it, and how the counts move.
  lemma StepOnBit(s: State, step: Step, b: nat)
    requires CanStep(s, step) && b < 2
    ensures step == Waiter(b) ==> Bit(s.event, b)
    ensures Bit(Next(s, step).event, b) <==> Signals(s, step, b) || (Bit(s.event, b) && step != Waiter(b))
    ensures CountPassed(b, Next(s, step).threads) == CountPassed(b, s.threads) + One(Signals(s, step, b))
  {
    hide Effect, Enabled, CountPassed, Iterated, Hart.State.Valid, Configured, Bit;
    MaskBits(s.event, b);
    if step.Thread? {
      CountUpdate(b, s.threads, step.k, Next(s, step).threads[step.k]);
    } else if step == StartEnd {
      CountAppend(b, s.threads);
    } else if step.Configure? {
      ConfiguredFrame(s, step.call);
    }
  }

  // Every wait for a bit takes it from a thread that has set it.
  lemma {:induction false} WaitsNeverOutnumberThreads(steps: seq<Step>, s: State, s': State, b: nat)
    requires Reaches(steps, s, s') && b < 2
    ensures multiset(steps)[Waiter(b)] + One(Bit(s'.event, b)) + CountPassed(b, s.threads) <=
      One(Bit(s.event, b)) + CountPassed(b, s'.threads)
  {
    hide CanStep, Next, CountPassed, Signals, Bit;
    if steps != [] {
      StepOnBit(s, steps[0], b);
      WaitsNeverOutnumberThreads(steps[1..], Next(s, steps[0]), s', b);
      assert steps == [steps[0]] + steps[1..];
    }
  }

  // A successful wait_for_start, and a START bit still up, is a thread that has signalled.
  ghost predicate Counted(s: State) {
    s.starts == |s.threads| && s.waits + One(Bit(s.event, 0)) <= CountPassed(0, s.threads)
  }

  lemma StepIsCounted(s: State, step: Step)
    requires Counted(s) && CanStep(s, step)
    ensures Counted(Next(s, step))
  {
    StepOnBit(s, step, 0);
    hide Effect, Enabled, CountPassed, Iterated, Hart.State.Valid, Signals, Bit;
    if step.Configure? {
      ConfiguredFrame(s, step.call);
    }
    hide Configured;
  }

  lemma DisciplinedIsPatient(s: State, step: Step)
    requires Counted(s) && Disciplined(s, step)
    ensures Patient(s, step)
  {
    hide CountPassed;
    CountBound(0, s.threads);
  }

  // Waiting for the start before every stop is a way to be patient.
  lemma {:induction false} DisciplinedRunIsPatient(steps: seq<Step>, s: State)
    requires Counted(s) && DisciplinedRun(steps, s)
    ensures PatientRun(steps, s)
  {
    hide Counted, CanStep, Next, Patient, Disciplined;
    if steps != [] {
      DisciplinedIsPatient(s, steps[0]);
      StepIsCounted(s, steps[0]);
      DisciplinedRunIsPatient(steps[1..], Next(s, steps[0]));
    }
  }

  // So callers who match every start by a wait_for_start before they stop get exclusion.
  lemma DisciplineExcludes(stores: seq<Store>, steps: seq<Step>, s: State)
    requires DisciplinedRun(steps, Initial(stores)) && Reaches(steps, Initial(stores), s)
    ensures PatientRun(steps, Initial(stores)) && Exclusive(s)
  {
    hide DisciplinedRun, PatientRun, Reaches, Exclusive;
    ZeroHasNoBits(0);
    DisciplinedRunIsPatient(steps, Initial(stores));
    RunnerExclusion(stores, steps, s);
  }

  // ---------------------------------------------------------------- the two events

  // The state before step i.
  ghost function Before(steps: seq<Step>, s: State, i: nat): State
    requires i <= |steps|
  {
    if i == 0 || !CanStep(s, steps[0]) then s else Before(steps[1..], Next(s, steps[0]), i - 1)
  }

  // Step i sets the bit, and nobody has waited for it since.
  ghost predicate SignalKept(steps: seq<Step>, s: State, b: nat, i: nat) {
    i < |steps| && Signals(Before(steps, s, i), steps[i], b) && Waiter(b) !in steps[i + 1..]
  }

  lemma SignalKeptLater(steps: seq<Step>, s: State, b: nat)
    requires steps != [] && CanStep(s, steps[0])
    ensures (exists i: nat :: SignalKept(steps, s, b, i)) <==>
      || (Signals(s, steps[0], b) && Waiter(b) !in steps[1..])
      || (exists i: nat :: SignalKept(steps[1..], Next(s, steps[0]), b, i))
  {
    hide CanStep, Next, Signals;
    var rest, s1 := steps[1..], Next(s, steps[0]);
    forall i: nat
      ensures SignalKept(steps, s, b, i + 1) <==> SignalKept(rest, s1, b, i)
    {
      if i < |rest| {
        assert steps[i + 2..] == rest[i + 1..];
      }
    }
    assert SignalKept(steps, s, b, 0) <==> Signals(s, steps[0], b) && Waiter(b) !in rest;
    if i: nat :| SignalKept(steps, s, b, i) {
      assert i > 0 ==> SignalKept(rest, s1, b, i - 1);
    }
    if i: nat :| SignalKept(rest, s1, b, i) {
      assert SignalKept(steps, s, b, i + 1);
    }
  }

  // In every run, from any state, an event is up exactly when a thread has set it and
  // nobody has waited for it since, or when it was up before and nobody has.
  lemma {:induction false} EventUpIff(steps: seq<Step>, s: State, s': State, b: nat)
    requires Reaches(steps, s, s') && b < 2
    ensures Bit(s'.event, b) <==>
      (exists i: nat :: SignalKept(steps, s, b, i)) || (Bit(s.event, b) && Waiter(b) !in steps)
  {
    hide CanStep, Next, Signals, Bit;
    if steps == [] {
      assert forall i: nat :: !SignalKept(steps, s, b, i);
    } else {
      var rest := steps[1..];
      StepOnBit(s, steps[0], b);
      EventUpIff(rest, Next(s, steps[0]), s', b);
      SignalKeptLater(steps, s, b);
      assert Waiter(b) in steps <==> steps[0] == Waiter(b) || Waiter(b) in rest;
    }
  }

  // On a new machine: a wait gets through exactly then.
  lemma WaitGetsThroughIff(stores: seq<Store>, steps: seq<Step>, s: State, b: nat)
    requires Reaches(steps, Initial(stores), s) && b < 2
    ensures CanStep(s, Waiter(b)) <==> exists i: nat :: SignalKept(steps, Initial(stores), b, i)
    ensures multiset(steps)[Waiter(b)] + One(Bit(s.event, b)) <= CountPassed(b, s.threads)
  {
    hide Reaches, SignalKept, Bit, Enabled;
    ZeroHasNoBits(b);
    EventUpIff(steps, Initial(stores), s, b);
    WaitsNeverOutnumberThreads(steps, Initial(stores), s, b);
    MaskBits(s.event, b);
  }

  // Between s and s' some thread has passed the bit.
  ghost predicate PassedSince(s: State, s': State, b: nat) {
    exists k :: 0 <= k < |s'.threads| && Passed(b, s'.threads[k]) && (k < |s.threads| ==> !Passed(b, s.threads[k]))
  }

  lemma StepThreads(s: State, step: Step, b: nat)
    requires CanStep(s, step) && b < 2
    ensures var ts := Next(s, step).threads;
      && |s.threads| <= |ts| <= |s.threads| + 1 && (|ts| > |s.threads| ==> !Passed(b, ts[|s.threads|]))
      && forall k | 0 <= k < |s.threads| && Passed(b, ts[k]) && !Passed(b, s.threads[k]) :: Signals(s, step, b)
  {
    hide Effect, Enabled, Iterated, Hart.State.Valid;
    if step.Configure? {
      ConfiguredFrame(s, step.call);
    }
    hide Configured;
  }

  // So when a thread has announced itself, or its end, and nobody has waited for that,
  // the wait gets through; whatever state the run began in.
  lemma {:induction false} AnnouncementIsHeard(steps: seq<Step>, s: State, s': State, b: nat)
    requires Reaches(steps, s, s') && b < 2 && PassedSince(s, s', b) && Waiter(b) !in steps
    ensures CanStep(s', Waiter(b))
  {
    hide CanStep, Next, Enabled, Bit, Passed, Signals, Reaches;
    EnabledIffUp(s', b);
    ReachesParts(steps, s, s');
    var k :| 0 <= k < |s'.threads| && Passed(b, s'.threads[k]) && (k < |s.threads| ==> !Passed(b, s.threads[k]));
    if steps != [] {
      var rest, s1 := steps[1..], Next(s, steps[0]);
      assert forall step | step in rest :: step in steps;
      EventUpIff(rest, s1, s', b);
      if k < |s1.threads| && Passed(b, s1.threads[k]) {
        PassSetsBit(s, steps[0], b, k);
      } else {
        assert PassedSince(s1, s', b);
        AnnouncementIsHeard(rest, s1, s', b);
      }
    }
  }

  lemma ReachesParts(steps: seq<Step>, s: State, s': State)
    requires Reaches(steps, s, s')
    ensures if steps == [] then s' == s else CanStep(s, steps[0]) && Reaches(steps[1..], Next(s, steps[0]), s')
  {
  }

  lemma EnabledIffUp(s: State, b: nat)
    requires b < 2
    ensures CanStep(s, Waiter(b)) <==> Bit(s.event, b)
  {
    hide Bit, Enabled;
    MaskBits(s.event, b);
  }

  lemma PassSetsBit(s: State, step: Step, b: nat, k: nat)
    requires CanStep(s, step) && b < 2 && k < |Next(s, step).threads| && Passed(b, Next(s, step).threads[k])
    requires k < |s.threads| ==> !Passed(b, s.threads[k])
    ensures Bit(Next(s, step).event, b)
  {
    hide CanStep, Next, Bit, Passed, Signals;
    StepThreads(s, step, b);
    StepOnBit(s, step, b);
  }

  // ---------------------------------------------------------------- calls that are let in

  ghost predicate Paired(s: State) {
    && s.started == s.hasThread
    && (s.lock.Starting? ==> !s.started) && (s.lock.Stopping? ==> s.started)
  }

  lemma {:induction false} CallsCounted(steps: seq<Step>, s: State, s': State)
    requires Reaches(steps, s, s') && Paired(s)
    ensures Paired(s')
    ensures multiset(steps)[StartEnd] + One(s.started) == multiset(steps)[StopEnd] + One(s'.started)
    ensures s'.starts == s.starts + multiset(steps)[StartEnd] && s'.waits == s.waits + multiset(steps)[WaitStart]
  {
    if steps != [] {
      CallCounted(s, steps[0]);
      hide CanStep, Next;
      CallsCounted(steps[1..], Next(s, steps[0]), s');
      assert steps == [steps[0]] + steps[1..];
    }
  }

  lemma CallCounted(s: State, step: Step)
    requires CanStep(s, step) && Paired(s)
    ensures var s' := Next(s, step);
      && Paired(s') && s'.starts == s.starts + One(step == StartEnd) && s'.waits == s.waits + One(step == WaitStart)
      && One(step == StartEnd) + One(s.started) == One(step == StopEnd) + One(s'.started)
  {
    hide Effect, Enabled, Iterated, Hart.State.Valid;
    if step.Configure? {
      ConfiguredFrame(s, step.call);
    }
    hide Configured;
  }

  // Starts and stops that go through alternate, whatever else is called; with nobody in
  // the middle of one, a start is let in exactly when as many have been stopped as
  // started, and a stop exactly when one has not.
  lemma StartsAndStopsAlternate(stores: seq<Store>, steps: seq<Step>, s: State)
    requires Reaches(steps, Initial(stores), s)
    ensures var starts, stops := multiset(steps)[StartEnd], multiset(steps)[StopEnd];
      && stops <= starts <= stops + 1 && s.starts == starts && s.waits == multiset(steps)[WaitStart]
      && (CanStep(s, StartBegin) <==> s.lock.Free? && starts == stops)
      && (CanStep(s, StartRefused) <==> s.lock.Free? && starts > stops)
      && (CanStep(s, StopBegin) <==> s.lock.Free? && starts > stops)
      && (CanStep(s, StopRefused) <==> s.lock.Free? && starts == stops)
  {
    hide Reaches;
    CallsCounted(steps, Initial(stores), s);
  }

  predicate FlagUp(c: Config, call: Call) {
    if call.SetLog? then c.log else c.comprs
  }

  // Step i is the call, made when the machine is not started.
  ghost predicate LetIn(steps: seq<Step>, s: State, call: Call, i: nat) {
    i < |steps| && steps[i] == Configure(call) && !Before(steps, s, i).started
  }

  // A log or a decompressor is set exactly when one was given while not started.
  lemma {:induction false} FlagUpIff(steps: seq<Step>, s: State, s': State, call: Call)
    requires Reaches(steps, s, s') && call in {SetLog, SetCompress}
    ensures FlagUp(s'.config, call) <==> FlagUp(s.config, call) || exists i: nat :: LetIn(steps, s, call, i)
  {
    if steps == [] {
      assert forall i: nat :: !LetIn(steps, s, call, i);
    } else {
      var rest, s1 := steps[1..], Next(s, steps[0]);
      FlagStep(s, steps[0], call);
      hide CanStep, Next, FlagUp;
      FlagUpIff(rest, s1, s', call);
      assert forall i: nat :: LetIn(steps, s, call, i + 1) <==> LetIn(rest, s1, call, i);
      assert LetIn(steps, s, call, 0) <==> steps[0] == Configure(call) && !s.started;
      if i: nat :| LetIn(steps, s, call, i) {
        assert i > 0 ==> LetIn(rest, s1, call, i - 1);
      }
      if i: nat :| LetIn(rest, s1, call, i) {
        assert LetIn(steps, s, call, i + 1);
      }
    }
  }

  lemma FlagStep(s: State, step: Step, call: Call)
    requires CanStep(s, step) && call in {SetLog, SetCompress}
    ensures FlagUp(Next(s, step).config, call) <==>
      FlagUp(s.config, call) || (step == Configure(call) && !s.started)
  {
    hide Effect, Enabled, Iterated, Hart.State.Valid, HartAfter;
  }
}
