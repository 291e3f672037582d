/** What a store of the running loop is good for later: the loads and the fetches that
    find it, any number of iterations on, until something writes over it. */
module Stored {
  import opened Words
  import opened InstFmt
  import opened Memory
  import opened Hart
  import opened RV32I
  import opened Vm
  import opened Access

  // ---------------------------------------------------------------- stores and loads of the loop

  // The iteration from s runs a store of the base set.
  ghost predicate Stores(exts: seq<Ext>, s: State)
    requires s.Valid()
  {
    Hands(exts, BaseI, s) && KindOf(Dispatch(WordAt(s))).Store?
  }

  ghost predicate Loads(exts: seq<Ext>, s: State)
    requires s.Valid()
  {
    Hands(exts, BaseI, s) && KindOf(Dispatch(WordAt(s))).Load?
  }

  function StoreAddress(s: State): Word
    requires s.Valid()
  {
    var w, p := WordAt(s), Prepared(s);
    Wrap(p.x[Rs1(w)] + ImmS(w))
  }

  function LoadAddress(s: State): Word
    requires s.Valid()
  {
    var w, p := WordAt(s), Prepared(s);
    Wrap(p.x[Rs1(w)] + ImmI(w))
  }

  // The bytes the access moves, none for other words.
  function Width(s: State): (n: nat)
    requires s.Valid()
    ensures var k := KindOf(Dispatch(WordAt(s))); k.Load? || k.Store? ==> n == k.n && n in {1, 2, 4}
  {
    match KindOf(Dispatch(WordAt(s)))
    case Load(n, _) => n
    case Store(n) => n
    case _ => 0
  }

  function StoreValue(s: State): Word
    requires s.Valid()
  {
    Prepared(s).x[Rs2(WordAt(s))]
  }

  lemma IterateStores(exts: seq<Ext>, s: State)
    requires s.Valid() && Stores(exts, s)
    ensures var p, t := Prepared(s), MemWrite(s.mem, StoreAddress(s), ToLe(StoreValue(s), Width(s)));
      Iterate(exts, s) ==
        if t.err != EOK then Stopped(ExecFailed(t.err), p) else Running(p.(mem := t.target, pc := Wrap(s.pc + 4)))
  {
    hide Iterate, Hands, WordAt, Dispatch, KindOf, Apply, MemWrite, ToLe, ImmS, ImmI, Rs1, Rs2, Rd, Wrap, Accepts;
    var w := WordAt(s);
    IterateHanded(exts, BaseI, s);
    ApplyAccess(Dispatch(w), w, Prepared(s));
  }

  // The state after a load has put v in its register.
  function Loaded(s: State, v: Word): State
    requires s.Valid()
  {
    Prepared(s).Put(Rd(WordAt(s)), v).(pc := Wrap(s.pc + 4))
  }

  predicate LoadsSigned(s: State)
    requires s.Valid()
  {
    var k := KindOf(Dispatch(WordAt(s)));
    k.Load? && k.signed
  }

  lemma IterateLoads(exts: seq<Ext>, s: State)
    requires s.Valid() && Loads(exts, s)
    ensures Width(s) in {1, 2, 4}
    ensures var r := MemRead(s.mem, LoadAddress(s), Width(s));
      Iterate(exts, s) ==
        if r.err != EOK then Stopped(ExecFailed(r.err), Prepared(s))
        else Running(Loaded(s, if LoadsSigned(s) then Sext(Word32(r.data), 8 * Width(s) - 1) else Word32(r.data)))
  {
    hide Iterate, Hands, WordAt, Dispatch, KindOf, Apply, MemRead, Word32, Sext, ImmS, ImmI, Rs1, Rs2, Rd, Wrap;
    hide Accepts;
    var w := WordAt(s);
    IterateHanded(exts, BaseI, s);
    ApplyAccess(Dispatch(w), w, Prepared(s));
  }

  // Nothing but a store changes memory.
  lemma OnlyStoresWrite(exts: seq<Ext>, s: State)
    requires s.Valid() && !Stores(exts, s)
    ensures Iterate(exts, s).s.mem == s.mem
  {
    hide Iterate, Hands, WordAt, Dispatch, KindOf, Apply, Accepts;
    IterateFrame(exts, s);
    if Hands(exts, BaseI, s) {
      IterateHanded(exts, BaseI, s);
      ApplyFrame(Dispatch(WordAt(s)), WordAt(s), Prepared(s));
    }
  }

  // ---------------------------------------------------------------- overwriting

  // The n bytes at a and the k bytes at b meet in a cell of one memory object.
  predicate Overlap(m: Mem, a: Word, n: nat, b: Word, k: nat) {
    var i, j := FirstMatch(a, m.regions), FirstMatch(b, m.regions);
    && i < |m.regions| && j < |m.regions| && m.regions[i].store == m.regions[j].store
    && var off, at := a - m.regions[i].addr, b - m.regions[j].addr;
       off < at + k && at < off + n
  }

  lemma WriteElsewhere(m: Mem, a: Word, n: nat, b: Word, data: seq<Byte>)
    requires m.Valid() && !Overlap(m, a, n, b, |data|)
    ensures MemRead(MemWrite(m, b, data).target, a, n) == MemRead(m, a, n)
  {
    hide FirstMatch;
    var i := FirstMatch(a, m.regions);
    if i < |m.regions| && MemWrite(m, b, data).err == EOK {
      WriteThenRead(m, b, data);
      CellsApart(m, a, n, b, data);
    }
  }

  lemma CellsApart(m: Mem, a: Word, n: nat, b: Word, data: seq<Byte>)
    requires m.Valid() && !Overlap(m, a, n, b, |data|) && MemWrite(m, b, data).err == EOK
    requires FirstMatch(a, m.regions) < |m.regions|
    ensures var m', r := MemWrite(m, b, data).target, m.regions[FirstMatch(a, m.regions)];
      StoreRead(m'.stores[r.store], a - r.addr, n) == StoreRead(m.stores[r.store], a - r.addr, n)
  {
    hide FirstMatch, MemWrite;
    WriteThenRead(m, b, data);
    var m', r := MemWrite(m, b, data).target, m.regions[FirstMatch(a, m.regions)];
    var was, now, off := m.stores[r.store].bytes, m'.stores[r.store].bytes, a - r.addr;
    if off + n <= |was| {
      assert |now| == |was|;
      assert now[off..off + n] == was[off..off + n];
    }
  }

  // The iteration from s leaves the n bytes at a alone.
  ghost predicate Spares(exts: seq<Ext>, s: State, a: Word, n: nat)
    requires s.Valid()
  {
    Stores(exts, s) ==> !Overlap(s.mem, a, n, StoreAddress(s), Width(s))
  }

  lemma IterateSpares(exts: seq<Ext>, s: State, a: Word, n: nat)
    requires s.Valid() && Spares(exts, s, a, n)
    ensures Iterate(exts, s).s.mem.Valid() && MemRead(Iterate(exts, s).s.mem, a, n) == MemRead(s.mem, a, n)
  {
    hide Iterate, MemRead, MemWrite, Overlap, ToLe, Width, StoreAddress, StoreValue, Stores;
    if Stores(exts, s) {
      IterateStores(exts, s);
      WriteElsewhere(s.mem, a, n, StoreAddress(s), ToLe(StoreValue(s), Width(s)));
    } else {
      OnlyStoresWrite(exts, s);
    }
  }

  // So does each of the first n iterations.
  ghost predicate RunSpares(n: nat, exts: seq<Ext>, s: State, a: Word, k: nat)
    requires s.Valid()
  {
    forall j: nat | j < n :: Reached(exts, s, j) ==> Spares(exts, Run(j, exts, s).s, a, k)
  }

  lemma {:induction false} RunKeepsBytes(n: nat, exts: seq<Ext>, s: State, a: Word, k: nat)
    requires s.Valid() && RunSpares(n, exts, s, a, k)
    ensures Run(n, exts, s).s.mem.Valid() && MemRead(Run(n, exts, s).s.mem, a, k) == MemRead(s.mem, a, k)
  {
    hide Iterate, MemRead, Spares;
    if n > 0 {
      var o := Run(n - 1, exts, s);
      RunKeepsBytes(n - 1, exts, s, a, k);
      RunGoesOn(n - 1, exts, s);
      hide Run;
      if o.why == ExitRequested {
        assert Reached(exts, s, n - 1);
        IterateSpares(exts, o.s, a, k);
      }
    }
  }

  // ---------------------------------------------------------------- what is found later

  // n iterations after a store went through, with its bytes left alone, s' is reached.
  ghost predicate Later(n: nat, exts: seq<Ext>, s: State, s': State)
    requires s.Valid()
  {
    IterateKeeps(exts, s);
    && Stores(exts, s) && Iterate(exts, s).Running?
    && RunSpares(n, exts, Iterate(exts, s).s, StoreAddress(s), Width(s))
    && Run(n, exts, Iterate(exts, s).s) == Stopped(ExitRequested, s')
  }

  lemma BytesLater(n: nat, exts: seq<Ext>, s: State, s': State)
    requires s.Valid() && Later(n, exts, s, s')
    ensures s'.Valid()
    ensures MemRead(s'.mem, StoreAddress(s), Width(s)) == Bytes(EOK, ToLe(StoreValue(s), Width(s)))
  {
    hide Iterate, Run, RunSpares, MemRead, MemWrite, Stores, ToLe, StoreAddress, StoreValue, Width;
    IterateKeeps(exts, s);
    IterateStores(exts, s);
    WriteThenRead(s.mem, StoreAddress(s), ToLe(StoreValue(s), Width(s)));
    RunKeepsBytes(n, exts, Iterate(exts, s).s, StoreAddress(s), Width(s));
  }

  // A later load of the same width there puts the stored low bytes, extended as the
  // load does, in its register.
  lemma StoredThenLoaded(n: nat, exts: seq<Ext>, s: State, s': State)
    requires s.Valid() && s'.Valid() && Later(n, exts, s, s')
    requires Loads(exts, s') && LoadAddress(s') == StoreAddress(s) && Width(s') == Width(s)
    ensures Width(s) in {1, 2, 4}
    ensures Iterate(exts, s') == Running(Loaded(s', Reloaded(StoreValue(s), Width(s), LoadsSigned(s'))))
  {
    hide *;
    BytesLater(n, exts, s, s');
    IterateLoads(exts, s');
    MemPart(s');
    ReloadedBytes(StoreValue(s), Width(s), LoadsSigned(s'));
  }

  lemma MemPart(s: State)
    requires s.Valid()
    ensures s.mem.Valid()
  {
  }

  // A later iteration whose pc is where a word was stored runs that word.
  lemma StoredCodeRuns(n: nat, exts: seq<Ext>, s: State, s': State)
    requires s.Valid() && Later(n, exts, s, s') && s'.pc == StoreAddress(s)
    ensures s'.Valid()
    ensures Width(s) == 4 ==>
      var v := StoreValue(s);
      Iterate(exts, s') ==
        if v == 0 then Stopped(ZeroWord, s')
        else
          var r := InstExec(exts, v, Prepared(s'));
          if r.err != EOK then Stopped(ExecFailed(r.err), r.s) else Running(NextPc(s'.pc, r.s))
  {
    BytesLater(n, exts, s, s');
    hide Later, MemRead, Stores, ToLe, Le, StoreAddress, StoreValue, InstExec, NextPc, Word32, Prepared;
    if Width(s) == 4 {
      WordBytes(StoreValue(s));
    }
  }

  lemma WordBytes(v: Word)
    ensures Word32(ToLe(v, 4)) == v
  {
    hide ToLe, Le;
    LeOfToLe(v, 4);
    Pow2Values();
  }

  // In particular a word stored right behind the store itself is run next.
  lemma NextWordRuns(exts: seq<Ext>, s: State)
    requires s.Valid() && Stores(exts, s) && Width(s) == 4 && StoreAddress(s) == Wrap(s.pc + 4)
    requires Iterate(exts, s).Running?
    ensures var s', v := Iterate(exts, s).s, StoreValue(s);
      && s'.Valid() && s'.pc == Wrap(s.pc + 4)
      && Iterate(exts, s') ==
           if v == 0 then Stopped(ZeroWord, s')
           else
             var r := InstExec(exts, v, Prepared(s'));
             if r.err != EOK then Stopped(ExecFailed(r.err), r.s) else Running(NextPc(s'.pc, r.s))
  {
    hide Iterate, MemWrite, ToLe, StoreAddress, StoreValue, InstExec, NextPc, Stores, Width;
    IterateKeeps(exts, s);
    IterateStores(exts, s);
    var s' := Iterate(exts, s).s;
    assert Run(0, exts, s') == Stopped(ExitRequested, s');
    assert Later(0, exts, s, s');
    StoredCodeRuns(0, exts, s, s');
  }
}
