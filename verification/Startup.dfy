/** The start-up code of the test firmware on the interpreter: the loop that copies
    initialised data and the loop that clears bss. */
module Startup {
  import opened Words
  import opened Memory
  import opened Hart
  import opened Isa
  import opened Encoding
  import opened Programs
  import opened Runs
  import opened Simulation
  import FM = FlatMemory

  const ZERO: Reg := 0
  const T0: Reg := 5
  const A0: Reg := 10
  const A1: Reg := 11
  const A2: Reg := 12

  // The clearing loop: guard, store a zero, advance, loop back.
  const BSS_CLEAR: seq<Instr> := [
    Branch(Geu, A0, A1, 16),
    Store(W, A0, ZERO, 0),
    OpImm(Add, A0, A0, 4),
    Branch(Ltu, A0, A1, -8)
  ]

  // The copying loop: guard, load, store, advance both pointers, loop back.
  const DATA_CLEAR: seq<Instr> := [
    Branch(Geu, A1, A2, 24),
    Load(W, true, T0, A0, 0),
    Store(W, A1, T0, 0),
    OpImm(Add, A0, A0, 4),
    OpImm(Add, A1, A1, 4),
    Branch(Ltu, A1, A2, -16)
  ]

  // The two guards are the words the repository's log of the firmware shows.
  lemma GuardsAsLogged()
    ensures Encode(DATA_CLEAR[0]) == 0x00C5_FC63 && Encode(BSS_CLEAR[0]) == 0x00B5_7863
  {
  }

  // ---------------------------------------------------------------- bss_clear

  // The set-up both loops run in: the code in one contained range, the n bytes to
  // write from lo on in another, all of them writable and none of them code.
  ghost predicate Loaded(layout: Mem, m: Isa.Machine, p: Word, prog: seq<Instr>, lo: Word, n: nat)
    requires layout.Valid()
  {
    && CodeAt(m.mem, p, prog)
    && FM.Contained(layout, p, 4 * |prog|) && FM.Mapped(layout, p)
    && lo + n < 0x1_0000_0000 && n % 4 == 0
    && FM.Contained(layout, lo, n)
    && (forall b: Word | FM.InSpan(lo, n, b) ::
          FM.Mapped(layout, b) && b in m.mem && b in m.writable && !FM.InSpan(p, 4 * |prog|, b))
  }

  // The memory with zeros in the n bytes from lo.
  function Zeroed(mem: map<Word, Byte>, lo: Word, n: nat): map<Word, Byte> {
    map b | b in mem :: if FM.InSpan(lo, n, b) then 0 else mem[b]
  }

  lemma StoreZero(mem: map<Word, Byte>, a: Word)
    requires a + 4 <= 0x1_0000_0000 && forall b: Word | FM.InSpan(a, 4, b) :: b in mem
    ensures Stored(mem, a, 4, 0) == Zeroed(mem, a, 4)
  {
    hide ToLe, Stored;
    var mem' := Stored(mem, a, 4, 0);
    forall b: Word
      ensures b in mem' <==> b in mem
      ensures b in mem ==> mem'[b] == if FM.InSpan(a, 4, b) then 0 else mem[b]
    {
      FM.StoredBytes(mem, a, 4, 0, b);
      ZeroBytes(4);
    }
  }

  lemma {:induction false} ZeroBytes(n: nat)
    ensures forall k | 0 <= k < n :: ToLe(0, n)[k] == 0
  {
    if n > 0 {
      ZeroBytes(n - 1);
    }
  }

  lemma ZeroedTwice(mem: map<Word, Byte>, lo: Word, n: nat)
    requires n >= 4 && lo + n < 0x1_0000_0000
    ensures Zeroed(Zeroed(mem, lo, 4), lo + 4, n - 4) == Zeroed(mem, lo, n)
  {
    assert forall b: Word :: FM.InSpan(lo, n, b) <==> FM.InSpan(lo, 4, b) || FM.InSpan(lo + 4, n - 4, b);
  }

  // Writing only inside the loaded range keeps the code, and leaves the rest loaded.
  lemma LoadedRest(layout: Mem, m: Isa.Machine, m': Isa.Machine, p: Word, prog: seq<Instr>, lo: Word, n: nat)
    requires layout.Valid() && Loaded(layout, m, p, prog, lo, n) && n >= 4
    requires m'.mem.Keys == m.mem.Keys && m'.writable == m.writable
    requires forall b | b in m.mem && !FM.InSpan(lo, n, b) :: m'.mem[b] == m.mem[b]
    ensures CodeAt(m'.mem, p, prog)
    ensures n > 4 ==> Loaded(layout, m', p, prog, lo + 4, n - 4)
    ensures FM.Contained(layout, lo, 4) && Covers(m.writable, lo, 4) && Covers(m.mem.Keys, lo, 4)
  {
    hide FM.Contained, FM.Mapped, Image;
    assert forall b: Word | FM.InSpan(lo + 4, n - 4, b) :: FM.InSpan(lo, n, b);
    assert forall b: Word | FM.InSpan(lo, 4, b) :: FM.InSpan(lo, n, b);
    assert FM.InSpan(lo, n, lo);
    ContainedPart(layout, lo, n, lo, 4);
    if n > 4 {
      ContainedPart(layout, lo, n, lo + 4, n - 4);
    }
    FM.CoversSpan(m.writable, lo, 4);
    FM.CoversSpan(m.mem.Keys, lo, 4);
    assert forall b: Word | FM.InSpan(p, 4 * |prog|, b) :: !FM.InSpan(lo, n, b);
  }

  // The state one round of the loop leaves.
  ghost function ClearRound(m: Isa.Machine, p: Word): (m': Isa.Machine)
    requires m.Valid() && p + 16 < 0x1_0000_0000
    ensures m'.Valid()
  {
    var cur: int := m.x[A0];
    var next := Wrap(cur + 4);
    m.(mem := Stored(m.mem, cur, 4, 0), x := m.x[A0 := next], pc := if next < m.x[A1] then p + 4 else p + 16)
  }

  // The loop's instructions are in place, whatever the registers hold.
  lemma BssAt(layout: Mem, m: Isa.Machine, p: Word)
    requires layout.Valid() && m.Valid() && CodeAt(m.mem, p, BSS_CLEAR)
    requires p + 16 < 0x1_0000_0000 && FM.Contained(layout, p, 16) && FM.Mapped(layout, p)
    ensures m.pc == p + 4 ==> At(layout, m, p, BSS_CLEAR, 1, Store(W, A0, ZERO, 0))
    ensures m.pc == p + 8 ==> At(layout, m, p, BSS_CLEAR, 2, OpImm(Add, A0, A0, 4))
    ensures m.pc == p + 12 ==> At(layout, m, p, BSS_CLEAR, 3, Branch(Ltu, A0, A1, -8))
  {
    hide FM.Contained, FM.Mapped, CodeAt;
    ContainedPart(layout, p, 16, p + 4, 4);
    ContainedPart(layout, p, 16, p + 8, 4);
    ContainedPart(layout, p, 16, p + 12, 4);
  }

  lemma ClearRoundGoes(layout: Mem, m: Isa.Machine, p: Word)
    requires layout.Valid() && m.Valid() && CodeAt(m.mem, p, BSS_CLEAR) && m.pc == p + 4
    requires p + 16 < 0x1_0000_0000 && FM.Contained(layout, p, 16) && FM.Mapped(layout, p)
    requires CodeAt(Stored(m.mem, m.x[A0], 4, 0), p, BSS_CLEAR)
    requires FM.Contained(layout, m.x[A0], 4) && Covers(m.writable, m.x[A0], 4)
    ensures Goes(3, layout, m, ClearRound(m, p))
  {
    hide FM.Contained, FM.Mapped, CodeAt, Covers, Stored, Goes, At, BSS_CLEAR, Wrap;
    var cur: int := m.x[A0];
    var m1 := m.(mem := Stored(m.mem, m.x[A0], 4, 0), pc := p + 8);
    var m2 := m1.(x := m.x[A0 := Wrap(cur + 4)], pc := p + 12);
    BssAt(layout, m, p);
    SwGoes(layout, m, p, BSS_CLEAR, 1, A0, ZERO);
    BssAt(layout, m1, p);
    AddiGoes(layout, m1, p, BSS_CLEAR, 2, A0, 4);
    BssAt(layout, m2, p);
    BltuGoes(layout, m2, p, BSS_CLEAR, 3, A0, A1, -8, p + 4);
    GoesThen(1, 1, layout, m, m1, m2);
    GoesThen(2, 1, layout, m, m2, ClearRound(m, p));
  }

  ghost function BssDone(m: Isa.Machine, p: Word, lo: Word, n: nat): Isa.Machine
    requires m.Valid() && p + 16 < 0x1_0000_0000 && lo + n < 0x1_0000_0000
  {
    m.(mem := Zeroed(m.mem, lo, n), x := m.x[A0 := lo + n], pc := p + 16)
  }

  lemma ClearRoundIs(layout: Mem, m: Isa.Machine, p: Word, n: nat)
    requires layout.Valid() && m.Valid() && n > 0
    requires Loaded(layout, m, p, BSS_CLEAR, m.x[A0], n) && m.pc == p + 4 && m.x[A1] == m.x[A0] + n
    ensures n >= 4 && m.x[A0] + n < 0x1_0000_0000 && p + 16 < 0x1_0000_0000
    ensures ClearRound(m, p) ==
      m.(mem := Zeroed(m.mem, m.x[A0], 4), x := m.x[A0 := m.x[A0] + 4], pc := if n > 4 then p + 4 else p + 16)
  {
    hide FM.Contained, FM.Mapped, Image, Stored, Zeroed;
    assert forall b: Word | FM.InSpan(m.x[A0], 4, b) :: FM.InSpan(m.x[A0], n, b);
    StoreZero(m.mem, m.x[A0]);
  }

  lemma ZeroedOutside(mem: map<Word, Byte>, lo: Word, k: nat, n: nat)
    requires k <= n
    ensures Zeroed(mem, lo, k).Keys == mem.Keys
    ensures forall b | b in mem && !FM.InSpan(lo, n, b) :: Zeroed(mem, lo, k)[b] == mem[b]
  {
  }

  lemma BssRound(layout: Mem, m: Isa.Machine, p: Word, n: nat)
    requires layout.Valid() && m.Valid() && n > 0
    requires Loaded(layout, m, p, BSS_CLEAR, m.x[A0], n) && m.pc == p + 4 && m.x[A1] == m.x[A0] + n
    ensures p + 16 < 0x1_0000_0000 && m.x[A0] + n < 0x1_0000_0000 && n >= 4
    ensures Goes(3, layout, m, ClearRound(m, p))
    ensures n > 4 ==> Loaded(layout, ClearRound(m, p), p, BSS_CLEAR, m.x[A0] + 4, n - 4)
  {
    hide Loaded, CodeAt, FM.Contained, FM.Mapped, Covers, Stored, Zeroed, Goes, ClearRound;
    var lo := m.x[A0];
    ClearRoundIs(layout, m, p, n);
    ZeroedOutside(m.mem, lo, 4, n);
    LoadedSize(layout, m, p, BSS_CLEAR, lo, n);
    LoadedRest(layout, m, ClearRound(m, p), p, BSS_CLEAR, lo, n);
    StoredIsZeroed(layout, m, p, n);
    ClearRoundGoes(layout, m, p);
  }

  lemma StoredIsZeroed(layout: Mem, m: Isa.Machine, p: Word, n: nat)
    requires layout.Valid() && m.Valid() && n > 0 && Loaded(layout, m, p, BSS_CLEAR, m.x[A0], n)
    ensures Stored(m.mem, m.x[A0], 4, 0) == Zeroed(m.mem, m.x[A0], 4)
    ensures FM.Mapped(layout, p) && FM.Contained(layout, p, 16)
  {
    hide FM.Contained, FM.Mapped, Image, Stored, Zeroed, CodeAt;
    assert forall b: Word | FM.InSpan(m.x[A0], 4, b) :: FM.InSpan(m.x[A0], n, b);
    StoreZero(m.mem, m.x[A0]);
  }

  // The loop: three steps a word, until a0 reaches a1.
  lemma {:induction false} BssLoop(layout: Mem, m: Isa.Machine, p: Word, n: nat)
    requires layout.Valid() && m.Valid() && n > 0
    requires Loaded(layout, m, p, BSS_CLEAR, m.x[A0], n) && m.pc == p + 4 && m.x[A1] == m.x[A0] + n
    ensures Goes(3 * (n / 4), layout, m, BssDone(m, p, m.x[A0], n))
    decreases n
  {
    hide Loaded, Goes, Zeroed, ClearRound;
    var lo := m.x[A0];
    BssRound(layout, m, p, n);
    ClearRoundIs(layout, m, p, n);
    var m' := ClearRound(m, p);
    LoadedSize(layout, m, p, BSS_CLEAR, lo, n);
    if n > 4 {
      BssLoop(layout, m', p, n - 4);
      ZeroedTwice(m.mem, lo, n);
      assert m.x[A0 := lo + 4][A0 := lo + n] == m.x[A0 := lo + n];
      assert BssDone(m', p, lo + 4, n - 4) == BssDone(m, p, lo, n);
      GoesThen(3, 3 * ((n - 4) / 4), layout, m, m', BssDone(m', p, lo + 4, n - 4));
    } else {
      assert m' == BssDone(m, p, lo, n);
    }
  }

  lemma LoadedSize(layout: Mem, m: Isa.Machine, p: Word, prog: seq<Instr>, lo: Word, n: nat)
    requires layout.Valid() && Loaded(layout, m, p, prog, lo, n)
    ensures n % 4 == 0 && lo + n < 0x1_0000_0000 && p + 4 * |prog| < 0x1_0000_0000
    ensures CodeAt(m.mem, p, prog)
    ensures forall k: nat | k < |prog| :: FM.Contained(layout, p + 4 * k, 4)
  {
    hide Image;
    forall k: nat | k < |prog|
      ensures FM.Contained(layout, p + 4 * k, 4)
    {
      ContainedPart(layout, p, 4 * |prog|, p + 4 * k, 4);
    }
    hide FM.Contained, FM.Mapped;
  }

  lemma BssGuard(layout: Mem, m: Isa.Machine, p: Word, n: nat)
    requires layout.Valid() && m.Valid() && p + 16 < 0x1_0000_0000
    requires m.pc == p && m.x[A0] + n < 0x1_0000_0000 && m.x[A1] == m.x[A0] + n
    ensures Execute(BSS_CLEAR[0], m) == Next(m.(pc := if n == 0 then p + 16 else p + 4))
    ensures WellFormed(BSS_CLEAR[0]) && TameInstr(layout, BSS_CLEAR[0], m)
  {
  }

  lemma LoadedAnywhere(layout: Mem, m: Isa.Machine, m': Isa.Machine, p: Word, prog: seq<Instr>, lo: Word, n: nat)
    requires layout.Valid() && Loaded(layout, m, p, prog, lo, n) && m'.mem == m.mem && m'.writable == m.writable
    ensures Loaded(layout, m', p, prog, lo, n)
  {
    hide FM.Contained, FM.Mapped, CodeAt;
  }

  // From the guard: an empty range falls straight through to init_finish.
  lemma BssClear(layout: Mem, m: Isa.Machine, p: Word, n: nat)
    requires layout.Valid() && m.Valid()
    requires Loaded(layout, m, p, BSS_CLEAR, m.x[A0], n) && m.pc == p && m.x[A1] == m.x[A0] + n
    ensures p + 16 < 0x1_0000_0000 && m.x[A0] + n < 0x1_0000_0000
    ensures Goes(1 + 3 * (n / 4), layout, m, BssDone(m, p, m.x[A0], n))
  {
    hide Loaded, FM.Contained, FM.Mapped, CodeAt, Goes, Execute, TameInstr, Encode, WellFormed, Zeroed;
    var lo := m.x[A0];
    LoadedSize(layout, m, p, BSS_CLEAR, lo, n);
    BssGuard(layout, m, p, n);
    var m' := m.(pc := if n == 0 then p + 16 else p + 4);
    InstrGoes(layout, m, p, BSS_CLEAR, 0);
    ZeroedNothing(m.mem, lo);
    if n == 0 {
      assert m.x[A0 := lo] == m.x;
      assert BssDone(m, p, lo, 0) == m';
    } else {
      LoadedAnywhere(layout, m, m', p, BSS_CLEAR, lo, n);
      BssLoop(layout, m', p, n);
      GoesThen(1, 3 * (n / 4), layout, m, m', BssDone(m', p, lo, n));
    }
  }

  lemma ZeroedNothing(mem: map<Word, Byte>, lo: Word)
    ensures Zeroed(mem, lo, 0) == mem
  {
  }

  // ---------------------------------------------------------------- data_clear

  // The memory with the n bytes from dst taken from src on.
  function Copied(mem: map<Word, Byte>, dst: Word, src: Word, n: nat): map<Word, Byte>
    requires Readable(mem, src, n)
  {
    map b: Word | b in mem :: CopiedByte(mem, dst, src, n, b)
  }

  function CopiedByte(mem: map<Word, Byte>, dst: Word, src: Word, n: nat, b: Word): Byte
    requires Readable(mem, src, n) && b in mem
  {
    if FM.InSpan(dst, n, b) then
      assert FM.InSpan(src, n, src + (b - dst));
      mem[src + (b - dst)]
    else mem[b]
  }

  predicate Readable(mem: map<Word, Byte>, src: Word, n: nat) {
    src + n < 0x1_0000_0000 && forall b: Word | FM.InSpan(src, n, b) :: b in mem
  }

  // The source range: readable, contained, and not overwritten ahead of the copy.
  ghost predicate Source(layout: Mem, m: Isa.Machine, src: Word, dst: Word, n: nat)
    requires layout.Valid()
  {
    && Readable(m.mem, src, n) && FM.Contained(layout, src, n)
    && (forall b: Word | FM.InSpan(src, n, b) :: FM.Mapped(layout, b))
    && (dst <= src || src + n <= dst)
  }

  lemma {:induction false} BytesOfValue(mem: map<Word, Byte>, a: Word, n: nat, k: nat)
    requires a + n < 0x1_0000_0000 && Covers(mem.Keys, a, n) && k < n
    ensures a + k in mem && ToLe(Isa.Value(mem, a, n), n)[k] == mem[a + k]
    decreases n
  {
    if k > 0 {
      BytesOfValue(mem, a + 1, n - 1, k - 1);
    }
  }

  lemma WordIsItself(mem: map<Word, Byte>, a: Word)
    requires Covers(mem.Keys, a, 4)
    ensures Isa.SignExtend(Isa.Value(mem, a, 4), 32) == Isa.Value(mem, a, 4)
  {
    hide Isa.Value, Covers, Pow2;
    ValueBound(mem, a, 4);
    Pow2Values();
  }

  // A word loaded from src and stored at dst copies its bytes.
  lemma StoreLoaded(mem: map<Word, Byte>, dst: Word, src: Word)
    requires Readable(mem, src, 4) && Readable(mem, dst, 4)
    ensures Covers(mem.Keys, src, 4)
    ensures Stored(mem, dst, 4, Isa.SignExtend(Isa.Value(mem, src, 4), 32)) == Copied(mem, dst, src, 4)
  {
    hide ToLe, Stored, Isa.Value, Covers, Isa.SignExtend;
    FM.CoversSpan(mem.Keys, src, 4);
    WordIsItself(mem, src);
    var v := Isa.Value(mem, src, 4);
    forall b: Word
      ensures b in Stored(mem, dst, 4, v) <==> b in mem
      ensures b in mem ==> Stored(mem, dst, 4, v)[b] == CopiedByte(mem, dst, src, 4, b)
    {
      FM.StoredBytes(mem, dst, 4, v, b);
      if FM.InSpan(dst, 4, b) {
        BytesOfValue(mem, src, 4, b - dst);
      }
    }
    assert Stored(mem, dst, 4, v) == Copied(mem, dst, src, 4);
  }

  lemma CopiedTwice(mem: map<Word, Byte>, dst: Word, src: Word, n: nat)
    requires n >= 4 && Readable(mem, src, n) && dst + n < 0x1_0000_0000 && (dst <= src || src + n <= dst)
    ensures Readable(mem, src, 4) && Readable(Copied(mem, dst, src, 4), src + 4, n - 4)
    ensures Copied(Copied(mem, dst, src, 4), dst + 4, src + 4, n - 4) == Copied(mem, dst, src, n)
  {
    assert forall b: Word | FM.InSpan(src, 4, b) || FM.InSpan(src + 4, n - 4, b) :: FM.InSpan(src, n, b);
    var once := Copied(mem, dst, src, 4);
    forall b: Word | b in mem
      ensures CopiedByte(once, dst + 4, src + 4, n - 4, b) == CopiedByte(mem, dst, src, n, b)
    {
      assert FM.InSpan(dst, n, b) <==> FM.InSpan(dst, 4, b) || FM.InSpan(dst + 4, n - 4, b);
      if FM.InSpan(dst + 4, n - 4, b) {
        assert FM.InSpan(src, n, src + (b - dst)) && !FM.InSpan(dst, 4, src + (b - dst));
      }
    }
  }

  lemma CopiedOutside(mem: map<Word, Byte>, dst: Word, src: Word, k: nat, n: nat)
    requires Readable(mem, src, k) && k <= n
    ensures Copied(mem, dst, src, k).Keys == mem.Keys
    ensures forall b | b in mem && !FM.InSpan(dst, n, b) :: Copied(mem, dst, src, k)[b] == mem[b]
  {
  }

  // The state one round of the loop leaves.
  ghost function CopyRound(m: Isa.Machine, p: Word): (m': Isa.Machine)
    requires m.Valid() && p + 24 < 0x1_0000_0000 && Covers(m.mem.Keys, m.x[A0], 4)
    ensures m'.Valid()
  {
    var src: int, dst: int := m.x[A0], m.x[A1];
    var v, next := Isa.SignExtend(Isa.Value(m.mem, src, 4), 32), Wrap(dst + 4);
    m.(mem := Stored(m.mem, dst, 4, v),
       x := m.x[T0 := v][A0 := Wrap(src + 4)][A1 := next],
       pc := if next < m.x[A2] then p + 4 else p + 24)
  }

  ghost predicate LoopContained(layout: Mem, p: Word)
    requires layout.Valid()
  {
    p + 24 < 0x1_0000_0000 && forall k: nat | k < 6 :: FM.Contained(layout, p + 4 * k, 4)
  }

  lemma DataAt(layout: Mem, m: Isa.Machine, p: Word)
    requires layout.Valid() && m.Valid() && CodeAt(m.mem, p, DATA_CLEAR) && LoopContained(layout, p)
    ensures m.pc == p + 4 ==> At(layout, m, p, DATA_CLEAR, 1, Load(W, true, T0, A0, 0))
    ensures m.pc == p + 8 ==> At(layout, m, p, DATA_CLEAR, 2, Store(W, A1, T0, 0))
    ensures m.pc == p + 12 ==> At(layout, m, p, DATA_CLEAR, 3, OpImm(Add, A0, A0, 4))
    ensures m.pc == p + 16 ==> At(layout, m, p, DATA_CLEAR, 4, OpImm(Add, A1, A1, 4))
    ensures m.pc == p + 20 ==> At(layout, m, p, DATA_CLEAR, 5, Branch(Ltu, A1, A2, -16))
  {
    hide FM.Contained, CodeAt;
    assert FM.Contained(layout, p + 4 * 1, 4) && FM.Contained(layout, p + 4 * 2, 4);
    assert FM.Contained(layout, p + 4 * 3, 4);
    assert FM.Contained(layout, p + 4 * 4, 4) && FM.Contained(layout, p + 4 * 5, 4);
  }

  lemma CopyFirstSteps(layout: Mem, m: Isa.Machine, p: Word, v: Word)
    requires layout.Valid() && m.Valid() && CodeAt(m.mem, p, DATA_CLEAR) && m.pc == p + 4
    requires LoopContained(layout, p)
    requires FM.Contained(layout, m.x[A0], 4) && Covers(m.mem.Keys, m.x[A0], 4)
    requires FM.Contained(layout, m.x[A1], 4) && Covers(m.writable, m.x[A1], 4)
    requires v == Isa.SignExtend(Isa.Value(m.mem, m.x[A0], 4), 32)
    ensures p + 24 < 0x1_0000_0000
    ensures Goes(2, layout, m, m.(mem := Stored(m.mem, m.x[A1], 4, v), x := m.x[T0 := v], pc := p + 12))
  {
    hide FM.Contained, CodeAt, Covers, Stored, Goes, Isa.Value, Isa.SignExtend, At, DATA_CLEAR;
    var m1 := m.(x := m.x[T0 := v], pc := p + 8);
    var m2 := m1.(mem := Stored(m.mem, m.x[A1], 4, v), pc := p + 12);
    DataAt(layout, m, p);
    LwGoes(layout, m, p, DATA_CLEAR, 1, T0, A0);
    DataAt(layout, m1, p);
    SwGoes(layout, m1, p, DATA_CLEAR, 2, A1, T0);
    GoesThen(1, 1, layout, m, m1, m2);
  }

  lemma CopyLastSteps(layout: Mem, m: Isa.Machine, p: Word)
    requires layout.Valid() && m.Valid() && CodeAt(m.mem, p, DATA_CLEAR) && m.pc == p + 12
    requires LoopContained(layout, p)
    ensures p + 24 < 0x1_0000_0000
    ensures var src: int, dst: int := m.x[A0], m.x[A1];
      Goes(3, layout, m,
           m.(x := m.x[A0 := Wrap(src + 4)][A1 := Wrap(dst + 4)],
              pc := if Wrap(dst + 4) < m.x[A2] then p + 4 else p + 24))
  {
    hide CodeAt, Goes, At, DATA_CLEAR, Wrap, FM.Contained;
    var src: int, dst: int := m.x[A0], m.x[A1];
    var m1 := m.(x := m.x[A0 := Wrap(src + 4)], pc := p + 16);
    var m2 := m1.(x := m1.x[A1 := Wrap(dst + 4)], pc := p + 20);
    var m3 := m2.(pc := if m2.x[A1] < m.x[A2] then p + 4 else p + 24);
    DataAt(layout, m, p);
    AddiGoes(layout, m, p, DATA_CLEAR, 3, A0, 4);
    DataAt(layout, m1, p);
    AddiGoes(layout, m1, p, DATA_CLEAR, 4, A1, 4);
    DataAt(layout, m2, p);
    BltuGoes(layout, m2, p, DATA_CLEAR, 5, A1, A2, -16, p + 4);
    GoesThen(1, 1, layout, m, m1, m2);
    GoesThen(2, 1, layout, m, m2, m3);
  }

  // What the loop needs of the word it is about to copy.
  lemma CopyWord(layout: Mem, m: Isa.Machine, p: Word, n: nat)
    requires layout.Valid() && m.Valid() && n > 0
    requires Loaded(layout, m, p, DATA_CLEAR, m.x[A1], n) && Source(layout, m, m.x[A0], m.x[A1], n)
    ensures n >= 4 && Readable(m.mem, m.x[A0], 4) && Readable(m.mem, m.x[A1], 4)
    ensures FM.Contained(layout, m.x[A0], 4) && Covers(m.mem.Keys, m.x[A0], 4)
  {
    hide FM.Contained, FM.Mapped, Image, Stored, CodeAt;
    var src, dst := m.x[A0], m.x[A1];
    assert forall b: Word | FM.InSpan(src, 4, b) :: FM.InSpan(src, n, b);
    assert forall b: Word | FM.InSpan(dst, 4, b) :: FM.InSpan(dst, n, b);
    assert FM.InSpan(src, n, src);
    ContainedPart(layout, src, n, src, 4);
    FM.CoversSpan(m.mem.Keys, src, 4);
  }

  lemma CopyRoundIs(layout: Mem, m: Isa.Machine, p: Word, n: nat)
    requires layout.Valid() && m.Valid() && n > 0
    requires Loaded(layout, m, p, DATA_CLEAR, m.x[A1], n) && Source(layout, m, m.x[A0], m.x[A1], n)
    requires m.x[A2] == m.x[A1] + n
    ensures n >= 4 && p + 24 < 0x1_0000_0000 && Covers(m.mem.Keys, m.x[A0], 4) && Readable(m.mem, m.x[A0], 4)
    ensures m.x[A0] + n < 0x1_0000_0000 && m.x[A1] + n < 0x1_0000_0000
    ensures CopyRound(m, p) ==
      m.(mem := Copied(m.mem, m.x[A1], m.x[A0], 4),
         x := m.x[T0 := Isa.Value(m.mem, m.x[A0], 4)][A0 := m.x[A0] + 4][A1 := m.x[A1] + 4],
         pc := if n > 4 then p + 4 else p + 24)
  {
    hide FM.Contained, FM.Mapped, Image, Stored, Copied, Covers, Isa.Value, Isa.SignExtend, CodeAt;
    CopyWord(layout, m, p, n);
    LoadedSize(layout, m, p, DATA_CLEAR, m.x[A1], n);
    StoreLoaded(m.mem, m.x[A1], m.x[A0]);
    WordIsItself(m.mem, m.x[A0]);
  }

  lemma SourceRest(layout: Mem, m: Isa.Machine, m': Isa.Machine, src: Word, dst: Word, n: nat)
    requires layout.Valid() && Source(layout, m, src, dst, n) && n > 4 && m'.mem.Keys == m.mem.Keys
    requires dst + n < 0x1_0000_0000
    ensures Source(layout, m', src + 4, dst + 4, n - 4)
  {
    hide FM.Contained, FM.Mapped;
    assert forall b: Word | FM.InSpan(src + 4, n - 4, b) :: FM.InSpan(src, n, b);
    assert FM.InSpan(src, n, src);
    ContainedPart(layout, src, n, src + 4, n - 4);
  }

  // The state after the load and the store of a round, and what the rest makes of it.
  lemma CopyRoundParts(m: Isa.Machine, p: Word, v: Word)
    requires m.Valid() && p + 24 < 0x1_0000_0000 && Covers(m.mem.Keys, m.x[A0], 4)
    requires v == Isa.SignExtend(Isa.Value(m.mem, m.x[A0], 4), 32)
    ensures var m' := m.(mem := Stored(m.mem, m.x[A1], 4, v), x := m.x[T0 := v], pc := p + 12);
      var src: int, dst: int := m'.x[A0], m'.x[A1];
      && m'.Valid() && m'.mem == CopyRound(m, p).mem
      && CopyRound(m, p) == m'.(x := m'.x[A0 := Wrap(src + 4)][A1 := Wrap(dst + 4)],
                                pc := if Wrap(dst + 4) < m'.x[A2] then p + 4 else p + 24)
  {
    hide Covers, Stored, Isa.Value, Isa.SignExtend;
  }

  lemma CopyRoundGoes(layout: Mem, m: Isa.Machine, p: Word)
    requires layout.Valid() && m.Valid() && CodeAt(m.mem, p, DATA_CLEAR) && m.pc == p + 4
    requires LoopContained(layout, p)
    requires FM.Contained(layout, m.x[A0], 4) && Covers(m.mem.Keys, m.x[A0], 4)
    requires FM.Contained(layout, m.x[A1], 4) && Covers(m.writable, m.x[A1], 4)
    requires p + 24 < 0x1_0000_0000 && CodeAt(CopyRound(m, p).mem, p, DATA_CLEAR)
    ensures Goes(5, layout, m, CopyRound(m, p))
  {
    hide *;
    RegisterCount(m);
    var v := Isa.SignExtend(Isa.Value(m.mem, m.x[A0], 4), 32);
    CopyRoundParts(m, p, v);
    var m' := m.(mem := Stored(m.mem, m.x[A1], 4, v), x := m.x[T0 := v], pc := p + 12);
    CopyFirstSteps(layout, m, p, v);
    CopyLastSteps(layout, m', p);
    GoesThen(2, 3, layout, m, m', CopyRound(m, p));
  }

  lemma DataRound(layout: Mem, m: Isa.Machine, p: Word, n: nat)
    requires layout.Valid() && m.Valid() && n > 0
    requires Loaded(layout, m, p, DATA_CLEAR, m.x[A1], n) && Source(layout, m, m.x[A0], m.x[A1], n)
    requires m.pc == p + 4 && m.x[A2] == m.x[A1] + n
    ensures n >= 4 && p + 24 < 0x1_0000_0000 && Covers(m.mem.Keys, m.x[A0], 4)
    ensures m.x[A0] + n < 0x1_0000_0000 && m.x[A1] + n < 0x1_0000_0000
    ensures Goes(5, layout, m, CopyRound(m, p))
    ensures n > 4 ==>
      && Loaded(layout, CopyRound(m, p), p, DATA_CLEAR, m.x[A1] + 4, n - 4)
      && Source(layout, CopyRound(m, p), m.x[A0] + 4, m.x[A1] + 4, n - 4)
  {
    hide Loaded, Source, Readable, CodeAt, FM.Contained, FM.Mapped, Covers, Stored, Copied, Goes, CopyRound, Isa.Value;
    var src, dst := m.x[A0], m.x[A1];
    CopyRoundIs(layout, m, p, n);
    CopyWord(layout, m, p, n);
    CopiedOutside(m.mem, dst, src, 4, n);
    LoadedSize(layout, m, p, DATA_CLEAR, dst, n);
    LoadedRest(layout, m, CopyRound(m, p), p, DATA_CLEAR, dst, n);
    if n > 4 {
      SourceRest(layout, m, CopyRound(m, p), src, dst, n);
    }
    LoopIsContained(layout, p);
    CopyRoundGoes(layout, m, p);
  }

  lemma LoopIsContained(layout: Mem, p: Word)
    requires layout.Valid() && p + 24 < 0x1_0000_0000
    requires forall k: nat | k < |DATA_CLEAR| :: FM.Contained(layout, p + 4 * k, 4)
    ensures LoopContained(layout, p)
  {
    hide FM.Contained;
    assert |DATA_CLEAR| == 6;
  }

  ghost function DataDone(m: Isa.Machine, p: Word, dst: Word, src: Word, n: nat): Isa.Machine
    requires m.Valid() && p + 24 < 0x1_0000_0000 && dst + n < 0x1_0000_0000
    requires Readable(m.mem, src, n) && n % 4 == 0
  {
    if n == 0 then m.(pc := p + 24)
    else
      LastWord(m.mem, src, n);
      m.(mem := Copied(m.mem, dst, src, n),
         x := m.x[T0 := Isa.Value(m.mem, src + n - 4, 4)][A0 := src + n][A1 := dst + n],
         pc := p + 24)
  }

  lemma LastWord(mem: map<Word, Byte>, src: Word, n: nat)
    requires Readable(mem, src, n) && n >= 4
    ensures Covers(mem.Keys, src + n - 4, 4) && Isa.Value(mem, src + n - 4, 4) < 0x1_0000_0000
  {
    assert forall b: Word | FM.InSpan(src + n - 4, 4, b) :: FM.InSpan(src, n, b);
    FM.CoversSpan(mem.Keys, src + n - 4, 4);
  }

  function Number(b0: int, b1: int, b2: int, b3: int): int {
    b0 + 0x100 * b1 + 0x1_0000 * b2 + 0x100_0000 * b3
  }

  lemma FourBytes(data: seq<Byte>)
    requires |data| == 4
    ensures Le(data) == Number(data[0], data[1], data[2], data[3])
  {
    LeStep(data);
    LeStep(data[1..]);
    LeStep(data[2..]);
    LeStep(data[3..]);
    hide Le;
    assert data[1..][1..] == data[2..] && data[2..][1..] == data[3..] && data[3..][1..] == [];
  }

  lemma LeStep(data: seq<Byte>)
    requires data != []
    ensures Le(data) == data[0] + 256 * Le(data[1..])
    ensures Le([]) == 0
  {
  }

  lemma ValueOfFour(mem: map<Word, Byte>, a: Word)
    requires a + 4 <= 0x1_0000_0000 && a in mem && a + 1 in mem && a + 2 in mem && a + 3 in mem
    ensures Covers(mem.Keys, a, 4) && Isa.Value(mem, a, 4) == Number(mem[a], mem[a + 1], mem[a + 2], mem[a + 3])
  {
    hide Isa.Value, Covers, Number, Le;
    var data := [mem[a], mem[a + 1], mem[a + 2], mem[a + 3]];
    FM.ValueOfBytes(mem, a, data);
    FourBytes(data);
  }

  // The word that is loaded last is still the original one.
  lemma LastWordKept(mem: map<Word, Byte>, dst: Word, src: Word, n: nat)
    requires n >= 8 && Readable(mem, src, n) && dst + n < 0x1_0000_0000 && (dst <= src || src + n <= dst)
    ensures Readable(mem, src, 4) && Readable(Copied(mem, dst, src, 4), src + 4, n - 4)
    ensures Covers(mem.Keys, src + n - 4, 4) && Covers(Copied(mem, dst, src, 4).Keys, src + n - 4, 4)
    ensures Isa.Value(Copied(mem, dst, src, 4), src + n - 4, 4) == Isa.Value(mem, src + n - 4, 4)
  {
    hide Covers, Isa.Value, Number, Copied;
    CopiedTwice(mem, dst, src, n);
    LastWord(mem, src, n);
    var last, once := src + n - 4, Copied(mem, dst, src, 4);
    LastWord(once, src + 4, n - 4);
    LastByteKept(mem, dst, src, n, last);
    LastByteKept(mem, dst, src, n, last + 1);
    LastByteKept(mem, dst, src, n, last + 2);
    LastByteKept(mem, dst, src, n, last + 3);
    ValueOfFour(mem, last);
    ValueOfFour(once, last);
  }

  lemma LastByteKept(mem: map<Word, Byte>, dst: Word, src: Word, n: nat, b: Word)
    requires n >= 8 && Readable(mem, src, n) && dst + n < 0x1_0000_0000 && (dst <= src || src + n <= dst)
    requires src + n - 4 <= b < src + n
    ensures Readable(mem, src, 4) && b in mem && b in Copied(mem, dst, src, 4) && Copied(mem, dst, src, 4)[b] == mem[b]
  {
    assert FM.InSpan(src, n, b);
    assert forall c: Word | FM.InSpan(src, 4, c) :: FM.InSpan(src, n, c);
  }

  // The loop: five steps a word, until a1 reaches a2.
  lemma {:induction false} DataLoop(layout: Mem, m: Isa.Machine, p: Word, n: nat)
    requires layout.Valid() && m.Valid() && n > 0
    requires Loaded(layout, m, p, DATA_CLEAR, m.x[A1], n) && Source(layout, m, m.x[A0], m.x[A1], n)
    requires m.pc == p + 4 && m.x[A2] == m.x[A1] + n
    ensures p + 24 < 0x1_0000_0000 && m.x[A1] + n < 0x1_0000_0000 && n % 4 == 0 && Readable(m.mem, m.x[A0], n)
    ensures Goes(5 * (n / 4), layout, m, DataDone(m, p, m.x[A1], m.x[A0], n))
    decreases n
  {
    hide Loaded, Goes, Readable, Copied, CopyRound, FM.Contained, FM.Mapped, Covers, Isa.Value;
    var src, dst := m.x[A0], m.x[A1];
    LoadedSize(layout, m, p, DATA_CLEAR, dst, n);
    DataRound(layout, m, p, n);
    CopyRoundIs(layout, m, p, n);
    WordIsItself(m.mem, src);
    var m' := CopyRound(m, p);
    if n > 4 {
      DataLoop(layout, m', p, n - 4);
      CopiedTwice(m.mem, dst, src, n);
      LastWordKept(m.mem, dst, src, n);
      DataDoneOnce(m, m', p, src, dst, n, Isa.Value(m.mem, src, 4));
      GoesThen(5, 5 * ((n - 4) / 4), layout, m, m', DataDone(m', p, dst + 4, src + 4, n - 4));
    } else {
      assert m' == DataDone(m, p, dst, src, n);
    }
  }

  lemma DataDoneOnce(m: Isa.Machine, m': Isa.Machine, p: Word, src: Word, dst: Word, n: nat, v: Word)
    requires m.Valid() && p + 24 < 0x1_0000_0000 && n > 4 && n % 4 == 0
    requires Readable(m.mem, src, n) && dst + n < 0x1_0000_0000 && (dst <= src || src + n <= dst)
    requires Readable(m.mem, src, 4)
    requires m' == m.(mem := Copied(m.mem, dst, src, 4), x := m.x[T0 := v][A0 := src + 4][A1 := dst + 4], pc := p + 4)
    ensures Readable(m'.mem, src + 4, n - 4)
    ensures DataDone(m', p, dst + 4, src + 4, n - 4) == DataDone(m, p, dst, src, n)
  {
    hide Readable, Copied, Covers, Isa.Value;
    CopiedTwice(m.mem, dst, src, n);
    LastWordKept(m.mem, dst, src, n);
    LastWord(m.mem, src, n);
    var v' := Isa.Value(m.mem, src + n - 4, 4);
    assert m.x[T0 := v][A0 := src + 4][A1 := dst + 4][T0 := v'][A0 := src + n][A1 := dst + n]
        == m.x[T0 := v'][A0 := src + n][A1 := dst + n];
  }

  lemma DataGuard(layout: Mem, m: Isa.Machine, p: Word, n: nat)
    requires layout.Valid() && m.Valid() && p + 24 < 0x1_0000_0000
    requires m.pc == p && m.x[A1] + n < 0x1_0000_0000 && m.x[A2] == m.x[A1] + n
    ensures Execute(DATA_CLEAR[0], m) == Next(m.(pc := if n == 0 then p + 24 else p + 4))
    ensures WellFormed(DATA_CLEAR[0]) && TameInstr(layout, DATA_CLEAR[0], m)
  {
  }

  // From the guard: an empty range falls straight through to bss_clear_begin.
  lemma DataClear(layout: Mem, m: Isa.Machine, p: Word, n: nat)
    requires layout.Valid() && m.Valid()
    requires Loaded(layout, m, p, DATA_CLEAR, m.x[A1], n) && Source(layout, m, m.x[A0], m.x[A1], n)
    requires m.pc == p && m.x[A2] == m.x[A1] + n
    ensures p + 24 < 0x1_0000_0000 && m.x[A1] + n < 0x1_0000_0000 && n % 4 == 0 && Readable(m.mem, m.x[A0], n)
    ensures Goes(1 + 5 * (n / 4), layout, m, DataDone(m, p, m.x[A1], m.x[A0], n))
  {
    hide Loaded, Readable, FM.Contained, FM.Mapped, CodeAt, Goes, Execute, TameInstr, Encode, WellFormed;
    hide Copied, Covers;
    LoadedSize(layout, m, p, DATA_CLEAR, m.x[A1], n);
    DataGuard(layout, m, p, n);
    var m' := m.(pc := if n == 0 then p + 24 else p + 4);
    InstrGoes(layout, m, p, DATA_CLEAR, 0);
    if n > 0 {
      LoadedAnywhere(layout, m, m', p, DATA_CLEAR, m.x[A1], n);
      DataLoop(layout, m', p, n);
      GoesThen(1, 5 * (n / 4), layout, m, m', DataDone(m', p, m.x[A1], m.x[A0], n));
    }
  }
}
