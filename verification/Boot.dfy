/** The whole start-up sequence of the test firmware, from `_start` to the call of
    main: stack pointer, copied data and cleared bss. */
module Boot {
  import opened Words
  import opened Memory
  import opened Hart
  import opened Isa
  import opened Encoding
  import opened Simulation
  import opened Programs
  import opened Idioms
  import opened Startup
  import FM = FlatMemory
  import Vm

  const SP: Reg := 2

  datatype Symbols = Symbols(estack: Word, ldata: Word, sdata: Word, edata: Word, sbss: Word, ebss: Word)

  // Every `la` as the pair auipc, addi.
  function Code(p: Word, y: Symbols): (prog: seq<Instr>)
    requires p + 88 < 0x1_0000_0000
  {
    AddressPair(SP, y.estack, p) + AddressPair(A0, y.ldata, p + 8) + AddressPair(A1, y.sdata, p + 16)
    + AddressPair(A2, y.edata, p + 24) + DATA_CLEAR
    + AddressPair(A0, y.sbss, p + 56) + AddressPair(A1, y.ebss, p + 64) + BSS_CLEAR
  }

  lemma CodeParts(p: Word, y: Symbols)
    requires p + 88 < 0x1_0000_0000
    ensures var prog := Code(p, y);
      && |prog| == 22
      && prog[0..2] == AddressPair(SP, y.estack, p) && prog[2..4] == AddressPair(A0, y.ldata, p + 8)
      && prog[4..6] == AddressPair(A1, y.sdata, p + 16) && prog[6..8] == AddressPair(A2, y.edata, p + 24)
      && prog[8..14] == DATA_CLEAR
      && prog[14..16] == AddressPair(A0, y.sbss, p + 56) && prog[16..18] == AddressPair(A1, y.ebss, p + 64)
      && prog[18..22] == BSS_CLEAR
  {
    hide High, Low;
  }

  // The pairs are the words the log shows where the linker kept them: for the stack at
  // 0x80000000, for bss at 0x8000002c and 0x80000034, all with the address 0x800.
  lemma PairsAsLogged()
    ensures var sp := AddressPair(SP, 0x800, 0x8000_0000);
      Encode(sp[0]) == 0x8000_1117 && Encode(sp[1]) == 0x8001_0113
    ensures var bss := AddressPair(A0, 0x800, 0x8000_002C);
      Encode(bss[0]) == 0x8000_0517 && Encode(bss[1]) == 0x7D45_0513
    ensures var end := AddressPair(A1, 0x800, 0x8000_0034);
      Encode(end[0]) == 0x8000_0597 && Encode(end[1]) == 0x7CC5_8593
  {
    hide AddressPair, Encode;
    PairEncoded(SP, 0x800, 0x8000_0000, -0x800, 0x8000_1000);
    PairEncoded(A0, 0x800, 0x8000_002C, 0x7D4, 0x8000_0000);
    PairEncoded(A1, 0x800, 0x8000_0034, 0x7CC, 0x8000_0000);
  }

  // The words of a pair, from the two parts of the distance.
  lemma PairEncoded(rd: Reg, target: Word, pc: Word, low: int, high: Word)
    requires -0x800 <= low < 0x800 && high % 0x1000 == 0 && Wrap(target - pc) == Wrap(high + low)
    ensures var pair := AddressPair(rd, target, pc);
      && Encode(pair[0]) == high + 0x80 * rd + 0x17
      && Encode(pair[1]) == 0x10_0000 * (low % 0x1000) + 0x8080 * rd + 0x13
  {
    LowHigh(Wrap(target - pc), low, high);
    hide Low, High, Wrap;
    EncodedAuipc(rd, high);
    EncodedAddi(rd, low);
    hide Encode;
  }

  lemma EncodedAuipc(rd: Reg, high: Word)
    requires high % 0x1000 == 0
    ensures Encode(Auipc(rd, high)) == high + 0x80 * rd + 0x17
  {
    var u := high / 0x1000;
    assert Encode(Auipc(rd, high)) ==
      0x17 + 0x80 * rd + 0x1000 * (u % 8) + 0x8000 * (u / 8 % 32) + 0x10_0000 * (u / 0x100 % 32)
      + 0x200_0000 * (u / 0x2000 % 128);
    hide *;
    UParts(u);
  }

  lemma UParts(u: int)
    requires 0 <= u < 0x10_0000
    ensures u % 8 + 8 * (u / 8 % 32) + 0x100 * (u / 0x100 % 32) + 0x2000 * (u / 0x2000 % 128) == u
  {
    SplitModulus(u, 8, 32);
    SplitModulus(u, 0x100, 32);
    assert u / 0x2000 % 128 == u / 0x2000;
  }

  lemma EncodedAddi(rd: Reg, low: int)
    requires -0x800 <= low < 0x800
    ensures Encode(OpImm(Add, rd, rd, low)) == 0x10_0000 * (low % 0x1000) + 0x8080 * rd + 0x13
  {
  }

  lemma LowHigh(d: Word, low: int, high: Word)
    requires -0x800 <= low < 0x800 && high % 0x1000 == 0 && d == Wrap(high + low)
    ensures Low(d) == low && High(d) == high
  {
    var x, q := high + low, high / 0x1000 + if high + low < 0 then 0x10_0000 else 0;
    assert d - low == q * 0x1000;
    DivisionUnique(d + 0x800, 0x1000, q, low + 0x800);
    WrapInside(x, -low);
    WrapWord(high);
    hide Wrap;
  }

  // The addresses that are zero there it turned into one addi from x0.
  lemma ShortenedAsLogged()
    ensures Encode(OpImm(Add, A0, ZERO, 0)) == 0x0000_0513
    ensures Encode(OpImm(Add, A1, ZERO, 0)) == 0x0000_0593
    ensures Encode(OpImm(Add, A2, ZERO, 0)) == 0x0000_0613
  {
  }

  // A contained range all of which is backed by memory.
  ghost predicate Resident(layout: Mem, a: Word, n: nat)
    requires layout.Valid()
  {
    FM.Contained(layout, a, n) && forall b: Word | FM.InSpan(a, n, b) :: FM.Mapped(layout, b)
  }

  lemma ResidentPart(layout: Mem, a: Word, n: nat, b: Word, k: nat)
    requires layout.Valid() && Resident(layout, a, n) && a <= b && b + k <= a + n && k > 0
    ensures Resident(layout, b, k) && FM.Mapped(layout, b)
  {
    hide FM.Contained, FM.Mapped;
    assert FM.InSpan(a, n, a) && FM.InSpan(a, n, b);
    assert forall c: Word | FM.InSpan(b, k, c) :: FM.InSpan(a, n, c);
    ContainedPart(layout, a, n, b, k);
  }

  // One `la` inside a larger program.
  lemma LaGoes(layout: Mem, m: Isa.Machine, p: Word, prog: seq<Instr>, i: nat, rd: Reg, target: Word)
    requires layout.Valid() && m.Valid() && rd != 0 && i + 2 <= |prog| && p + 4 * |prog| < 0x1_0000_0000
    requires CodeAt(m.mem, p, prog) && Resident(layout, p, 4 * |prog|) && m.pc == p + 4 * i
    requires prog[i..i + 2] == AddressPair(rd, target, p + 4 * i)
    ensures Goes(2, layout, m, m.(x := m.x[rd := target], pc := p + 4 * i + 8))
  {
    hide Resident, FM.Contained, FM.Mapped, Image, Goes, High, Low;
    CodeSlice(m.mem, p, prog, i, 2);
    ResidentPart(layout, p, 4 * |prog|, m.pc, 8);
    ResidentContained(layout, m.pc, 8);
    LoadAddress(layout, m, rd, target);
  }

  lemma ResidentContained(layout: Mem, a: Word, n: nat)
    requires layout.Valid() && Resident(layout, a, n)
    ensures FM.Contained(layout, a, n)
  {
  }

  // ---------------------------------------------------------------- the set-up

  // n writable bytes from lo on, in one region, off the code.
  ghost predicate Target(layout: Mem, m: Isa.Machine, p: Word, lo: Word, hi: Word)
    requires layout.Valid()
  {
    && lo <= hi && (hi - lo) % 4 == 0 && Resident(layout, lo, hi - lo)
    && forall b: Word | FM.InSpan(lo, hi - lo, b) :: b in m.mem && b in m.writable && !FM.InSpan(p, 88, b)
  }

  ghost predicate Linked(layout: Mem, m: Isa.Machine, p: Word, y: Symbols)
    requires layout.Valid()
  {
    && p + 88 < 0x1_0000_0000 && CodeAt(m.mem, p, Code(p, y)) && Resident(layout, p, 88)
    && Target(layout, m, p, y.sdata, y.edata) && Target(layout, m, p, y.sbss, y.ebss)
    && Source(layout, m, y.ldata, y.sdata, y.edata - y.sdata)
  }

  // A block of the program is loaded for clearing or copying [lo, hi).
  lemma BlockLoaded(layout: Mem, m: Isa.Machine, p: Word, prog: seq<Instr>, i: nat, block: seq<Instr>,
                    lo: Word, hi: Word)
    requires layout.Valid() && p + 88 < 0x1_0000_0000 && |prog| == 22 && |block| > 0
    requires CodeAt(m.mem, p, prog) && Resident(layout, p, 88) && Target(layout, m, p, lo, hi)
    requires i + |block| <= 22 && prog[i..i + |block|] == block
    ensures Loaded(layout, m, p + 4 * i, block, lo, hi - lo)
  {
    hide FM.Contained, FM.Mapped, Image;
    CodeSlice(m.mem, p, prog, i, |block|);
    ResidentPart(layout, p, 88, p + 4 * i, 4 * |block|);
    assert forall b: Word | FM.InSpan(p + 4 * i, 4 * |block|, b) :: FM.InSpan(p, 88, b);
  }

  lemma TargetKept(layout: Mem, m: Isa.Machine, m': Isa.Machine, p: Word, lo: Word, hi: Word)
    requires layout.Valid() && Target(layout, m, p, lo, hi)
    requires m'.mem.Keys == m.mem.Keys && m'.writable == m.writable
    ensures Target(layout, m', p, lo, hi)
  {
    hide Resident;
  }

  // Copying into the data range leaves the code.
  lemma CodeKept(layout: Mem, m: Isa.Machine, p: Word, y: Symbols)
    requires layout.Valid() && Linked(layout, m, p, y)
    ensures var n := y.edata - y.sdata;
      n % 4 == 0 && Readable(m.mem, y.ldata, n) && CodeAt(Copied(m.mem, y.sdata, y.ldata, n), p, Code(p, y))
    ensures var n := y.edata - y.sdata; Copied(m.mem, y.sdata, y.ldata, n).Keys == m.mem.Keys
  {
    hide Resident, Code, Image, Copied;
    var n := y.edata - y.sdata;
    CopiedOutside(m.mem, y.sdata, y.ldata, n, n);
    assert |Code(p, y)| == 22 by { CodeParts(p, y); }
    assert forall b: Word | FM.InSpan(p, 88, b) :: !FM.InSpan(y.sdata, n, b);
  }

  // ---------------------------------------------------------------- the run

  ghost function Pointers(m: Isa.Machine, p: Word, y: Symbols): (m': Isa.Machine)
    requires m.Valid() && p + 88 < 0x1_0000_0000
    ensures m'.Valid()
  {
    m.(x := m.x[SP := y.estack][A0 := y.ldata][A1 := y.sdata][A2 := y.edata], pc := p + 32)
  }

  lemma PointersGo(layout: Mem, m: Isa.Machine, p: Word, y: Symbols)
    requires layout.Valid() && m.Valid() && Linked(layout, m, p, y) && m.pc == p
    ensures Goes(8, layout, m, Pointers(m, p, y))
  {
    hide Resident, Target, Source, CodeAt, Goes, Code, AddressPair;
    CodeParts(p, y);
    var prog := Code(p, y);
    var m1 := m.(x := m.x[SP := y.estack], pc := p + 8);
    var m2 := m1.(x := m1.x[A0 := y.ldata], pc := p + 16);
    var m3 := m2.(x := m2.x[A1 := y.sdata], pc := p + 24);
    LaGoes(layout, m, p, prog, 0, SP, y.estack);
    LaGoes(layout, m1, p, prog, 2, A0, y.ldata);
    LaGoes(layout, m2, p, prog, 4, A1, y.sdata);
    LaGoes(layout, m3, p, prog, 6, A2, y.edata);
    GoesThen(2, 2, layout, m, m1, m2);
    GoesThen(4, 2, layout, m, m2, m3);
    GoesThen(6, 2, layout, m, m3, Pointers(m, p, y));
  }

  // After the copy, with the pointers set again for the clearing loop.
  ghost function Cleared(m: Isa.Machine, p: Word, y: Symbols): (m': Isa.Machine)
    requires m.Valid() && p + 88 < 0x1_0000_0000
    ensures m'.Valid()
  {
    m.(x := m.x[A0 := y.sbss][A1 := y.ebss], pc := p + 72)
  }

  lemma BssPointersGo(layout: Mem, m: Isa.Machine, p: Word, y: Symbols)
    requires layout.Valid() && m.Valid() && p + 88 < 0x1_0000_0000 && m.pc == p + 56
    requires CodeAt(m.mem, p, Code(p, y)) && Resident(layout, p, 88)
    ensures Goes(4, layout, m, Cleared(m, p, y))
  {
    hide Resident, CodeAt, Goes, Code, AddressPair;
    CodeParts(p, y);
    var m1 := m.(x := m.x[A0 := y.sbss], pc := p + 64);
    LaGoes(layout, m, p, Code(p, y), 14, A0, y.sbss);
    LaGoes(layout, m1, p, Code(p, y), 16, A1, y.ebss);
    GoesThen(2, 2, layout, m, m1, Cleared(m, p, y));
  }

  // The state after the copy.
  ghost function CopyEnd(m: Isa.Machine, p: Word, y: Symbols): Isa.Machine
    requires m.Valid() && p + 88 < 0x1_0000_0000 && y.sdata <= y.edata && (y.edata - y.sdata) % 4 == 0
    requires Readable(m.mem, y.ldata, y.edata - y.sdata)
  {
    DataDone(Pointers(m, p, y), p + 32, y.sdata, y.ldata, y.edata - y.sdata)
  }

  lemma LinkedBounds(layout: Mem, m: Isa.Machine, p: Word, y: Symbols)
    requires layout.Valid() && m.Valid() && Linked(layout, m, p, y)
    ensures y.sdata <= y.edata && (y.edata - y.sdata) % 4 == 0 && p + 88 < 0x1_0000_0000
    ensures Readable(m.mem, y.ldata, y.edata - y.sdata)
  {
    hide Resident, CodeAt, Readable;
  }

  lemma CopyBlock(layout: Mem, m: Isa.Machine, p: Word, y: Symbols)
    requires layout.Valid() && m.Valid() && Linked(layout, m, p, y)
    requires y.sdata <= y.edata && (y.edata - y.sdata) % 4 == 0 && p + 88 < 0x1_0000_0000
    requires Readable(m.mem, y.ldata, y.edata - y.sdata)
    ensures Goes(1 + 5 * ((y.edata - y.sdata) / 4), layout, Pointers(m, p, y), CopyEnd(m, p, y))
  {
    hide Resident, CodeAt, Goes, Code, Loaded, Readable, Copied;
    CodeParts(p, y);
    var n, m' := y.edata - y.sdata, Pointers(m, p, y);
    BlockLoaded(layout, m, p, Code(p, y), 8, DATA_CLEAR, y.sdata, y.edata);
    LoadedAnywhere(layout, m, m', p + 32, DATA_CLEAR, y.sdata, n);
    DataClear(layout, m', p + 32, n);
  }

  lemma CopyPhase(layout: Mem, m: Isa.Machine, p: Word, y: Symbols)
    requires layout.Valid() && m.Valid() && Linked(layout, m, p, y) && m.pc == p
    ensures y.sdata <= y.edata && (y.edata - y.sdata) % 4 == 0 && p + 88 < 0x1_0000_0000
    ensures Readable(m.mem, y.ldata, y.edata - y.sdata)
    ensures Goes(9 + 5 * ((y.edata - y.sdata) / 4), layout, m, CopyEnd(m, p, y))
  {
    hide *;
    LinkedBounds(layout, m, p, y);
    PointersGo(layout, m, p, y);
    CopyBlock(layout, m, p, y);
    GoesThen(8, 1 + 5 * ((y.edata - y.sdata) / 4), layout, m, Pointers(m, p, y), CopyEnd(m, p, y));
  }

  ghost function LastCopied(m: Isa.Machine, y: Symbols): Word
    requires m.Valid() && y.sdata <= y.edata && (y.edata - y.sdata) % 4 == 0
    requires Readable(m.mem, y.ldata, y.edata - y.sdata)
  {
    var n := y.edata - y.sdata;
    if n == 0 then m.x[T0]
    else
      LastWord(m.mem, y.ldata, n);
      Isa.Value(m.mem, y.ldata + n - 4, 4)
  }

  // What `_start` leaves at init_finish: the initialised data copied, then bss
  // cleared, every other byte as it was, and the registers the code uses.
  ghost function Booted(m: Isa.Machine, p: Word, y: Symbols): Isa.Machine
    requires m.Valid() && p + 88 < 0x1_0000_0000 && y.sdata <= y.edata && y.sbss <= y.ebss
    requires (y.edata - y.sdata) % 4 == 0 && Readable(m.mem, y.ldata, y.edata - y.sdata)
  {
    m.(mem := Zeroed(Copied(m.mem, y.sdata, y.ldata, y.edata - y.sdata), y.sbss, y.ebss - y.sbss),
       x := m.x[SP := y.estack][T0 := LastCopied(m, y)][A0 := y.ebss][A1 := y.ebss][A2 := y.edata],
       pc := p + 88)
  }

  lemma CopyNothing(mem: map<Word, Byte>, dst: Word, src: Word)
    ensures Readable(mem, src, 0) && Copied(mem, dst, src, 0) == mem
  {
  }

  lemma BootedParts(m: Isa.Machine, p: Word, y: Symbols)
    requires m.Valid() && p + 88 < 0x1_0000_0000 && y.sdata <= y.edata && y.sbss <= y.ebss
    requires (y.edata - y.sdata) % 4 == 0 && Readable(m.mem, y.ldata, y.edata - y.sdata)
    ensures var d := CopyEnd(m, p, y);
      && d.Valid() && d.pc == p + 56 && d.writable == m.writable
      && d.mem == Copied(m.mem, y.sdata, y.ldata, y.edata - y.sdata)
      && BssDone(Cleared(d, p, y), p + 72, y.sbss, y.ebss - y.sbss) == Booted(m, p, y)
  {
    hide Readable, Copied, Zeroed, Isa.Value, Covers;
    var n := y.edata - y.sdata;
    CopyNothing(m.mem, y.sdata, y.ldata);
    var d := CopyEnd(m, p, y);
    assert BssDone(Cleared(d, p, y), p + 72, y.sbss, y.ebss - y.sbss).x == Booted(m, p, y).x;
  }

  // The byte at b afterwards.
  ghost function SetUpByte(m: Isa.Machine, y: Symbols, b: Word): Byte
    requires y.sdata <= y.edata && b in m.mem && Readable(m.mem, y.ldata, y.edata - y.sdata)
  {
    if y.sbss <= b < y.ebss then 0
    else if y.sdata <= b < y.edata then
      assert FM.InSpan(y.ldata, y.edata - y.sdata, y.ldata + (b - y.sdata));
      m.mem[y.ldata + (b - y.sdata)]
    else m.mem[b]
  }

  // The same by register number and byte by byte: x2 the stack's end, x10 and x11 the
  // end of bss, x12 the end of the data, x5 the last word copied, if any.
  ghost predicate SetUp(m: Isa.Machine, y: Symbols, m': Isa.Machine)
    requires m.Valid() && m'.Valid() && y.sdata <= y.edata && Readable(m.mem, y.ldata, y.edata - y.sdata)
  {
    && m'.x[2] == y.estack && m'.x[10] == y.ebss && m'.x[11] == y.ebss && m'.x[12] == y.edata
    && (y.sdata == y.edata ==> m'.x[5] == m.x[5])
    && (forall i | 0 <= i < 32 && i !in {2, 5, 10, 11, 12} :: m'.x[i] == m.x[i])
    && m'.writable == m.writable && m'.mem.Keys == m.mem.Keys
    && forall b: Word | b in m.mem :: m'.mem[b] == SetUpByte(m, y, b)
  }

  // The word x5 holds is the last of the initial data.
  ghost predicate LastLoaded(m: Isa.Machine, y: Symbols, v: Word) {
    y.sdata < y.edata && y.ldata + (y.edata - y.sdata) < 0x1_0000_0000 ==>
      var a := y.ldata + (y.edata - y.sdata) - 4;
      && a >= 0 && {a, a + 1, a + 2, a + 3} <= m.mem.Keys
      && v == Number(m.mem[a], m.mem[a + 1], m.mem[a + 2], m.mem[a + 3])
  }

  lemma BootedIsSetUp(m: Isa.Machine, p: Word, y: Symbols)
    requires m.Valid() && p + 88 < 0x1_0000_0000 && y.sdata <= y.edata && y.sbss <= y.ebss
    requires (y.edata - y.sdata) % 4 == 0 && Readable(m.mem, y.ldata, y.edata - y.sdata)
    ensures Booted(m, p, y).Valid() && Booted(m, p, y).pc == p + 88 && SetUp(m, y, Booted(m, p, y))
    ensures LastLoaded(m, y, Booted(m, p, y).x[5])
  {
    hide Isa.Value, Covers;
    BootedValid(m, p, y);
    if y.sdata < y.edata {
      LastBytes(m, y);
    }
  }

  lemma LastBytes(m: Isa.Machine, y: Symbols)
    requires m.Valid() && y.sdata < y.edata && (y.edata - y.sdata) % 4 == 0
    requires Readable(m.mem, y.ldata, y.edata - y.sdata)
    ensures LastLoaded(m, y, LastCopied(m, y))
  {
    var n: nat := y.edata - y.sdata;
    var a: Word := y.ldata + n - 4;
    hide Isa.Value, Covers, Number;
    assert FM.InSpan(y.ldata, n, a) && FM.InSpan(y.ldata, n, a + 1);
    assert FM.InSpan(y.ldata, n, a + 2) && FM.InSpan(y.ldata, n, a + 3);
    ValueOfFour(m.mem, a);
  }

  // Eight steps set the pointers, five copy a word, four set the pointers again, three
  // clear a word, and each guard takes one.
  ghost function Length(y: Symbols): nat
    requires y.sdata <= y.edata && y.sbss <= y.ebss
  {
    14 + 5 * ((y.edata - y.sdata) / 4) + 3 * ((y.ebss - y.sbss) / 4)
  }

  // Up to the head of the clearing block.
  lemma CopiedAndPointed(layout: Mem, m: Isa.Machine, p: Word, y: Symbols)
    requires layout.Valid() && m.Valid() && Linked(layout, m, p, y) && m.pc == p
    ensures p + 88 < 0x1_0000_0000 && y.sdata <= y.edata && y.sbss <= y.ebss
    ensures (y.edata - y.sdata) % 4 == 0 && Readable(m.mem, y.ldata, y.edata - y.sdata)
    ensures var n := y.edata - y.sdata;
      var d := CopyEnd(m, p, y);
      && d.Valid() && d.mem == Copied(m.mem, y.sdata, y.ldata, n) && d.writable == m.writable
      && Goes(13 + 5 * (n / 4), layout, m, Cleared(d, p, y))
  {
    hide Resident, CodeAt, Goes, Code, Readable, Copied, CopyEnd, Cleared;
    var n := y.edata - y.sdata;
    CopyPhase(layout, m, p, y);
    CodeKept(layout, m, p, y);
    BootedParts(m, p, y);
    var d := CopyEnd(m, p, y);
    BssPointersGo(layout, d, p, y);
    GoesThen(9 + 5 * (n / 4), 4, layout, m, d, Cleared(d, p, y));
  }

  lemma ClearPhase(layout: Mem, m: Isa.Machine, d: Isa.Machine, p: Word, y: Symbols)
    requires layout.Valid() && m.Valid() && d.Valid() && Linked(layout, m, p, y)
    requires Readable(m.mem, y.ldata, y.edata - y.sdata)
    requires d.mem == Copied(m.mem, y.sdata, y.ldata, y.edata - y.sdata) && d.writable == m.writable
    ensures p + 88 < 0x1_0000_0000 && y.sbss <= y.ebss
    ensures var c, k := Cleared(d, p, y), y.ebss - y.sbss;
      Goes(1 + 3 * (k / 4), layout, c, BssDone(c, p + 72, y.sbss, k))
  {
    hide Resident, CodeAt, Goes, Code, Loaded, Readable, Copied, Zeroed;
    CodeKept(layout, m, p, y);
    CodeParts(p, y);
    var c := Cleared(d, p, y);
    TargetKept(layout, m, c, p, y.sbss, y.ebss);
    BlockLoaded(layout, c, p, Code(p, y), 18, BSS_CLEAR, y.sbss, y.ebss);
    BssClear(layout, c, p + 72, y.ebss - y.sbss);
  }

  lemma StartUp(layout: Mem, m: Isa.Machine, p: Word, y: Symbols)
    requires layout.Valid() && m.Valid() && Linked(layout, m, p, y) && m.pc == p
    ensures p + 88 < 0x1_0000_0000 && y.sdata <= y.edata && y.sbss <= y.ebss
    ensures (y.edata - y.sdata) % 4 == 0 && Readable(m.mem, y.ldata, y.edata - y.sdata)
    ensures Booted(m, p, y).Valid() && Goes(Length(y), layout, m, Booted(m, p, y))
    ensures Booted(m, p, y).pc == p + 88 && SetUp(m, y, Booted(m, p, y)) && LastLoaded(m, y, Booted(m, p, y).x[5])
  {
    hide Linked, Goes, Readable, Copied, CopyEnd, Booted, BssDone, Cleared, SetUp, LastLoaded;
    BootedIsSetUpLinked(layout, m, p, y);
    var n, k := y.edata - y.sdata, y.ebss - y.sbss;
    CopiedAndPointed(layout, m, p, y);
    var d := CopyEnd(m, p, y);
    ClearPhase(layout, m, d, p, y);
    BootedParts(m, p, y);
    BootedValid(m, p, y);
    GoesThen(13 + 5 * (n / 4), 1 + 3 * (k / 4), layout, m, Cleared(d, p, y), Booted(m, p, y));
  }

  lemma BootedIsSetUpLinked(layout: Mem, m: Isa.Machine, p: Word, y: Symbols)
    requires layout.Valid() && m.Valid() && Linked(layout, m, p, y) && m.pc == p
    ensures p + 88 < 0x1_0000_0000 && y.sdata <= y.edata && y.sbss <= y.ebss
    ensures (y.edata - y.sdata) % 4 == 0 && Readable(m.mem, y.ldata, y.edata - y.sdata)
    ensures Booted(m, p, y).Valid()
    ensures Booted(m, p, y).pc == p + 88 && SetUp(m, y, Booted(m, p, y)) && LastLoaded(m, y, Booted(m, p, y).x[5])
  {
    hide *;
    CopiedAndPointed(layout, m, p, y);
    BootedIsSetUp(m, p, y);
  }

  lemma BootedValid(m: Isa.Machine, p: Word, y: Symbols)
    requires m.Valid() && p + 88 < 0x1_0000_0000 && y.sdata <= y.edata && y.sbss <= y.ebss
    requires (y.edata - y.sdata) % 4 == 0 && Readable(m.mem, y.ldata, y.edata - y.sdata)
    ensures Booted(m, p, y).Valid()
  {
    hide Readable, Copied, Zeroed, Covers;
  }

  lemma AbsParts(s: State)
    requires s.Valid()
    ensures s.mem.Valid() && Abs(s).pc == s.pc
  {
    hide FM.Flat, FM.Writable;
  }

  // The same on the interpreter, from any state in which the firmware is linked at the pc.
  lemma StartUpOnInterpreter(s: State, y: Symbols)
    requires s.Valid() && FM.Unaliased(s.mem) && Linked(s.mem, Abs(s), s.pc, y)
    ensures s.pc + 88 < 0x1_0000_0000 && y.sdata <= y.edata && y.sbss <= y.ebss
    ensures (y.edata - y.sdata) % 4 == 0 && Readable(Abs(s).mem, y.ldata, y.edata - y.sdata)
    ensures var o := Vm.Run(Length(y), [Vm.BaseI], s);
      && o.why == Vm.ExitRequested && o.s.Valid() && Abs(o.s) == Booted(Abs(s), s.pc, y)
      && Abs(o.s).pc == s.pc + 88 && SetUp(Abs(s), y, Abs(o.s)) && LastLoaded(Abs(s), y, Abs(o.s).x[5])
  {
    hide *;
    AbsParts(s);
    StartUp(s.mem, Abs(s), s.pc, y);
    GoesOnInterpreter(Length(y), s, Booted(Abs(s), s.pc, y));
  }
}
