/** A loaded image: the linked program in a read-only store, its data and bss in RAM,
    the initial data in either. Such a state meets everything the start-up proof asks for. */
module Firmware {
  import opened Words
  import opened Memory
  import opened Hart
  import opened Simulation
  import opened Programs
  import opened Startup
  import opened Boot
  import FM = FlatMemory
  import Isa
  import Vm

  predicate Within(lo: Word, n: int, base: Word, len: nat) {
    n == 0 || (base <= lo && lo + n <= base + len)
  }

  // The n bytes of initial data lie in the file behind the read-only region, or in RAM
  // where the copy does not overwrite them ahead of itself. The linker script gives
  // .data no load address of its own, so there they lie where they are copied to.
  predicate InitialData(y: Symbols, rom: Region, size: nat, ram: Region) {
    var n := y.edata - y.sdata;
    || Within(y.ldata, n, rom.addr, size)
    || (Within(y.ldata, n, ram.addr, ram.len) && (y.sdata <= y.ldata || y.ldata + n <= y.sdata))
  }

  // A read-only region with the code from the pc on, and a RAM region apart from it for
  // data and bss.
  ghost predicate Flashed(s: State, y: Symbols) {
    && s.Valid() && |s.mem.regions| == 2 && |s.mem.stores| == 2
    && var rom, ram := s.mem.regions[0], s.mem.regions[1];
    && rom.store == 0 && ram.store == 1 && s.mem.stores[0].Rom? && s.mem.stores[1].Ram?
    && rom.addr + rom.len < 0x1_0000_0000 && ram.addr + ram.len < 0x1_0000_0000
    && (rom.addr + rom.len <= ram.addr || ram.addr + ram.len <= rom.addr)
    && |s.mem.stores[0].bytes| <= rom.len && ram.len <= |s.mem.stores[1].bytes|
    && s.pc == rom.addr && 88 <= |s.mem.stores[0].bytes| && s.pc + 88 < 0x1_0000_0000
    && s.mem.stores[0].bytes[..88] == Image(Code(s.pc, y))
    && InitialData(y, rom, |s.mem.stores[0].bytes|, ram)
    && Section(y.sdata, y.edata, ram) && Section(y.sbss, y.ebss, ram)
  }

  predicate Section(lo: Word, hi: Word, ram: Region) {
    lo <= hi && (hi - lo) % 4 == 0 && Within(lo, hi - lo, ram.addr, ram.len)
  }

  lemma Lookup(s: State, y: Symbols, a: Word)
    requires Flashed(s, y)
    ensures var rom, ram := s.mem.regions[0], s.mem.regions[1];
      && (rom.addr <= a < rom.addr + rom.len ==> FirstMatch(a, s.mem.regions) == 0)
      && (ram.addr <= a < ram.addr + ram.len ==> FirstMatch(a, s.mem.regions) == 1)
  {
    hide Image, Code;
    var rom, ram := s.mem.regions[0], s.mem.regions[1];
    assert Match(a, rom) <==> rom.addr <= a < rom.addr + rom.len;
    assert Match(a, ram) <==> ram.addr <= a < ram.addr + ram.len;
    hide FirstMatch, Match;
  }

  // What a program sees at an address of either region.
  lemma Visible(s: State, y: Symbols, a: Word)
    requires Flashed(s, y)
    ensures var rom, ram := s.mem.regions[0], s.mem.regions[1];
      && (rom.addr <= a < rom.addr + rom.len ==>
            FM.Mapped(s.mem, a) && a in FM.Flat(s.mem)
            && (a - rom.addr < |s.mem.stores[0].bytes| ==>
                  FM.Flat(s.mem)[a] == s.mem.stores[0].bytes[a - rom.addr]))
      && (ram.addr <= a < ram.addr + ram.len ==>
            FM.Mapped(s.mem, a) && a in FM.Flat(s.mem) && a in FM.Writable(s.mem))
  {
    hide Image, Code, FirstMatch, FM.Flat, FM.Writable;
    Lookup(s, y, a);
    FM.FlatDomain(s.mem, a);
  }

  lemma RomResident(s: State, y: Symbols, a: Word, n: nat)
    requires Flashed(s, y) && Within(a, n, s.mem.regions[0].addr, |s.mem.stores[0].bytes|)
    ensures Resident(s.mem, a, n)
  {
    hide Image, Code, FirstMatch, FM.Flat, FM.Writable, FM.Mapped;
    forall b: Word | FM.InSpan(a, n, b)
      ensures FM.Mapped(s.mem, b) && FirstMatch(b, s.mem.regions) == 0
    {
      Visible(s, y, b);
      Lookup(s, y, b);
    }
    Lookup(s, y, a);
  }

  lemma RamResident(s: State, y: Symbols, a: Word, n: nat)
    requires Flashed(s, y) && Within(a, n, s.mem.regions[1].addr, s.mem.regions[1].len)
    ensures Resident(s.mem, a, n)
    ensures forall b: Word | FM.InSpan(a, n, b) :: b in FM.Flat(s.mem) && b in FM.Writable(s.mem)
  {
    hide Image, Code, FirstMatch, FM.Flat, FM.Writable, FM.Mapped;
    forall b: Word | FM.InSpan(a, n, b)
      ensures FM.Mapped(s.mem, b) && FirstMatch(b, s.mem.regions) == 1
      ensures b in FM.Flat(s.mem) && b in FM.Writable(s.mem)
    {
      Visible(s, y, b);
      Lookup(s, y, b);
    }
    Lookup(s, y, a);
  }

  lemma CodeVisible(s: State, y: Symbols)
    requires Flashed(s, y)
    ensures s.pc + 88 < 0x1_0000_0000 && CodeAt(Abs(s).mem, s.pc, Code(s.pc, y))
  {
    hide Image, Code, FM.Flat, FM.Writable, FM.Mapped, FirstMatch;
    var prog := Code(s.pc, y);
    CodeParts(s.pc, y);
    forall b: Word | FM.InSpan(s.pc, 88, b)
      ensures b in Abs(s).mem && Abs(s).mem[b] == Image(prog)[b - s.pc]
    {
      Visible(s, y, b);
      assert s.mem.stores[0].bytes[..88][b - s.pc] == s.mem.stores[0].bytes[b - s.pc];
    }
  }

  lemma SectionTarget(s: State, y: Symbols, lo: Word, hi: Word)
    requires Flashed(s, y) && Section(lo, hi, s.mem.regions[1])
    ensures Target(s.mem, Abs(s), s.pc, lo, hi)
  {
    hide Image, Code, FM.Flat, FM.Writable, Resident;
    RamResident(s, y, lo, hi - lo);
  }

  lemma DataSource(s: State, y: Symbols)
    requires Flashed(s, y)
    ensures Source(s.mem, Abs(s), y.ldata, y.sdata, y.edata - y.sdata)
  {
    hide Image, Code, FM.Flat, FM.Writable, FM.Mapped, FM.Contained;
    var n := y.edata - y.sdata;
    if Within(y.ldata, n, s.mem.regions[0].addr, |s.mem.stores[0].bytes|) {
      RomResident(s, y, y.ldata, n);
    } else {
      RamResident(s, y, y.ldata, n);
    }
    forall b: Word | FM.InSpan(y.ldata, n, b)
      ensures b in Abs(s).mem
    {
      Visible(s, y, b);
    }
  }

  lemma FlashedParts(s: State, y: Symbols)
    requires Flashed(s, y)
    ensures s.Valid() && s.mem.Valid() && FM.Unaliased(s.mem) && |s.mem.regions| == 2 && |s.mem.stores| == 2
    ensures Section(y.sdata, y.edata, s.mem.regions[1]) && Section(y.sbss, y.ebss, s.mem.regions[1])
    ensures Within(s.pc, 88, s.mem.regions[0].addr, |s.mem.stores[0].bytes|) && s.pc + 88 < 0x1_0000_0000
  {
    hide Image, Code;
  }

  lemma FlashedIsLinked(s: State, y: Symbols)
    requires Flashed(s, y)
    ensures s.Valid() && FM.Unaliased(s.mem) && Linked(s.mem, Abs(s), s.pc, y)
  {
    hide Flashed, Section, Within, Abs, Code, FM.Unaliased, Resident, Target, Source, CodeAt;
    FlashedParts(s, y);
    CodeVisible(s, y);
    RomResident(s, y, s.pc, 88);
    SectionTarget(s, y, y.sdata, y.edata);
    SectionTarget(s, y, y.sbss, y.ebss);
    DataSource(s, y);
  }

  // From reset with the image in place, the interpreter reaches init_finish with the
  // initialised data copied and bss cleared.
  lemma FirmwareBoots(s: State, y: Symbols)
    requires Flashed(s, y)
    ensures s.Valid() && s.pc + 88 < 0x1_0000_0000 && y.sdata <= y.edata && y.sbss <= y.ebss
    ensures (y.edata - y.sdata) % 4 == 0 && Readable(Abs(s).mem, y.ldata, y.edata - y.sdata)
    ensures var o := Vm.Run(Length(y), [Vm.BaseI], s);
      && o.why == Vm.ExitRequested && o.s.Valid() && Abs(o.s) == Booted(Abs(s), s.pc, y)
      && SetUp(Abs(s), y, Abs(o.s))
  {
    hide *;
    FlashedIsLinked(s, y);
    StartUpOnInterpreter(s, y);
  }

  // Linked by the script, the copy goes from the data to itself: what is left is the
  // memory with bss cleared.
  lemma ScriptCopiesInPlace(s: State, y: Symbols)
    requires Flashed(s, y) && y.ldata == y.sdata
    ensures s.Valid() && s.pc + 88 < 0x1_0000_0000 && y.sdata <= y.edata && y.sbss <= y.ebss
    ensures (y.edata - y.sdata) % 4 == 0 && Readable(Abs(s).mem, y.ldata, y.edata - y.sdata)
    ensures Booted(Abs(s), s.pc, y).mem == Zeroed(Abs(s).mem, y.sbss, y.ebss - y.sbss)
  {
    hide *;
    FirmwareBoots(s, y);
    BootedMemory(Abs(s), s.pc, y);
    CopyOntoItself(Abs(s).mem, y.sdata, y.edata - y.sdata);
  }

  lemma BootedMemory(m: Isa.Machine, p: Word, y: Symbols)
    requires m.Valid() && p + 88 < 0x1_0000_0000 && y.sdata <= y.edata && y.sbss <= y.ebss
    requires (y.edata - y.sdata) % 4 == 0 && Readable(m.mem, y.ldata, y.edata - y.sdata)
    ensures Booted(m, p, y).mem == Zeroed(Copied(m.mem, y.sdata, y.ldata, y.edata - y.sdata), y.sbss, y.ebss - y.sbss)
  {
    hide Zeroed, Copied, Readable, LastCopied;
  }

  lemma CopyOntoItself(mem: map<Word, Byte>, a: Word, n: nat)
    requires Readable(mem, a, n)
    ensures Copied(mem, a, a, n) == mem
  {
  }

  // Such a state: one word of data in RAM, where the script puts it.
  lemma ScriptImageExists()
    ensures exists s, y :: Flashed(s, y) && y.sdata < y.edata && y.ldata == y.sdata
  {
    var y := Symbols(0x804, 0, 0, 4, 0x804, 0x808);
    var rom, ram := Region(0x8000_0000, 0x2_0000, 0), Region(0, 0x1_0000, 1);
    CodeParts(0x8000_0000, y);
    var image := Image(Code(0x8000_0000, y));
    var mem := Mem([rom, ram], [Rom(image), Ram(Zeros(0x1_0000))]);
    var s := State.State(seq(32, _ => 0), 0x8000_0000, false, map[], mem);
    hide Image, Code;
    assert image[..88] == image;
    assert Flashed(s, y);
  }
}
