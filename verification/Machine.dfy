/** The interpreter as it runs: register array, memory objects and CSR map updated
    in place. Every method is proved against the functions of the other modules. */
module Devices {
  import opened Words
  import opened Memory

  // rv32_loader's mem_ram: a resizable byte vector.
  class MemRam {
    var mem: seq<Byte>

    constructor ()
      ensures mem == []
    {
      mem := [];
    }

    method SetSize(sz: nat) returns (ok: bool)
      modifies this
      ensures ok && |mem| == sz
      ensures forall k | 0 <= k < sz :: mem[k] == if k < |old(mem)| then old(mem)[k] else 0
    {
      mem := if sz <= |mem| then mem[..sz] else mem + Zeros(sz - |mem|);
      ok := true;
    }

    method Read(addr: Word, len: Word) returns (err: Err, data: seq<Byte>)
      ensures err == ERANGE <==> Wrap(addr + len) > |mem|
      ensures err == EOK <==> addr + len <= |mem|
      ensures err == EOK ==> |data| == len && forall k | 0 <= k < len :: data[k] == mem[addr + k]
      ensures Bytes(err, data) == StoreRead(Ram(mem), addr, len)
    {
      if Wrap(addr + len) > |mem| {
        return ERANGE, [];
      }
      if addr + len > |mem| {
        return Undefined, [];
      }
      return EOK, mem[addr..addr + len];
    }

    method Write(addr: Word, data: seq<Byte>) returns (err: Err)
      modifies this
      ensures err == ERANGE <==> Wrap(addr + |data|) > |old(mem)|
      ensures err == EOK <==> addr + |data| <= |old(mem)|
      ensures |mem| == |old(mem)|
      ensures forall k | 0 <= k < |mem| ::
        mem[k] == if err == EOK && addr <= k < addr + |data| then data[k - addr] else old(mem)[k]
      ensures Written(err, Ram(mem)) == StoreWrite(Ram(old(mem)), addr, data)
    {
      if Wrap(addr + |data|) > |mem| {
        return ERANGE;
      }
      if addr + |data| > |mem| {
        return Undefined;
      }
      mem := Patch(mem, addr, data);
      err := EOK;
    }
  }

  // rv32_loader's mem_rom over the bytes of its file.
  class MemRom {
    const file: seq<Byte>

    constructor (file: seq<Byte>)
      ensures this.file == file
    {
      this.file := file;
    }

    method Read(addr: Word, len: Word) returns (err: Err, data: seq<Byte>)
      ensures err == EOK <==> Wrap(addr + len) > |file| || addr + len <= |file|
      ensures err == EOK ==> |data| == len && forall k | 0 <= k < len ::
        data[k] == if addr + len <= |file| then file[addr + k] else 0
      ensures Bytes(err, data) == StoreRead(Rom(file), addr, len)
    {
      if Wrap(addr + len) > |file| {
        return EOK, Zeros(len);
      }
      if addr + len > |file| {
        return Undefined, [];
      }
      return EOK, file[addr..addr + len];
    }

    method Write(addr: Word, data: seq<Byte>) returns (err: Err)
      ensures err == StoreWrite(Rom(file), addr, data).err == EACCESS
    {
      err := EACCESS;
    }
  }

  datatype Dev = RamDev(ram: MemRam) | RomDev(rom: MemRom)

  ghost function Contents(d: Dev): Store
    reads if d.RamDev? then {d.ram} else {}
  {
    match d
    case RamDev(ram) => Ram(ram.mem)
    case RomDev(rom) => Rom(rom.file)
  }
}

module Interpreter {
  import opened Words
  import opened InstFmt
  import opened Memory
  import opened Hart
  import opened Devices
  import opened RV32I
  import Csr
  import Vm
  import Registry

  class Machine {
    const x: array<Word>
    const devs: seq<Dev>
    var pc: Word
    var pcChanged: bool
    var csrs: map<CsrAddr, Word>
    var mems: seq<Region>
    var insts: seq<Registry.Entry>
    var started: bool

    ghost function Rams(): set<MemRam> {
      set i | 0 <= i < |devs| && devs[i].RamDev? :: devs[i].ram
    }

    ghost function Stores(): (st: seq<Store>)
      reads Rams()
      ensures |st| == |devs|
      ensures forall i | 0 <= i < |devs| :: st[i] == Contents(devs[i])
    {
      seq(|devs|, i requires 0 <= i < |devs| reads Rams() => Contents(devs[i]))
    }

    ghost predicate Valid()
      reads this
    {
      && x.Length == 32 && Registry.Sorted(insts) && Registry.Keyed(insts)
      && (forall r | r in mems :: r.store < |devs|)
      && (forall i, j | 0 <= i < j < |devs| && devs[i].RamDev? && devs[j].RamDev? :: devs[i].ram != devs[j].ram)
    }

    ghost function State(): (s: Hart.State)
      requires Valid()
      reads this, x, Rams()
      ensures s.Valid()
    {
      Hart.State(x[..], pc, pcChanged, csrs, Mem(mems, Stores()))
    }

    // A handler returned err and left the state its specification says.
    twostate predicate Does(op: Op, w: Word, err: Err)
      reads this, x, Rams()
    {
      && old(Valid()) && Valid()
      && Result(err, State()) == Apply(op, w, old(State()))
    }

    constructor (devs: seq<Dev>)
      requires forall i, j | 0 <= i < j < |devs| && devs[i].RamDev? && devs[j].RamDev? :: devs[i].ram != devs[j].ram
      ensures Valid() && fresh(x) && this.devs == devs && insts == [] && !started
      ensures State() == Hart.State(seq(32, _ => 0), 0, false, map[], Mem([], Stores()))
    {
      this.devs := devs;
      x := new Word[32](_ => 0);
      pc, pcChanged, csrs, mems, insts, started := 0, false, map[], [], [], false;
      new;
      assert x[..] == seq(32, _ => 0);
    }

    // regs.reg->x[rd] = v
    method Put(rd: Reg, v: Word)
      requires Valid()
      modifies x
      ensures Valid() && State() == old(State()).Put(rd, v)
    {
      x[rd] := v;
      assert x[..] == old(x[..])[rd := v];
    }

    // pc moves and ctl->pc_changed is raised
    method JumpTo(target: Word)
      requires Valid()
      modifies this`pc, this`pcChanged
      ensures Valid() && State() == old(State()).Jump(target)
    {
      pc := target;
      pcChanged := true;
    }

    // ---------------------------------------------------------------- configuration

    method AddMem(addr: Word, length: Word, h: nat) returns (ok: bool)
      requires Valid() && h < |devs|
      modifies this`mems
      ensures Valid()
      ensures mems == if old(started) then old(mems) else AddRegion(old(mems), Region(addr, length, h))
      ensures ok <==> |mems| == |old(mems)| + 1
    {
      if started {
        return false;
      }
      for i := 0 to |mems|
        invariant forall j | 0 <= j < i :: !Clashes(addr, length, mems[j])
      {
        assert mems[i] in mems;
        if mems[i].addr == addr {
          return false;
        }
        if mems[i].addr < addr < Wrap(mems[i].addr + mems[i].len) {
          return false;
        }
        if mems[i].addr < Wrap(addr + length) < Wrap(mems[i].addr + mems[i].len) {
          return false;
        }
      }
      mems := mems + [Region(addr, length, h)];
      ok := true;
    }

    method SetStartAddr(addr: Word) returns (ok: bool)
      requires Valid()
      modifies this`pc
      ensures Valid() && ok == !started
      ensures State() == if ok then old(State()).(pc := addr) else old(State())
    {
      if started {
        return false;
      }
      pc := addr;
      ok := true;
    }

    method AddInst(name: string, ext: Vm.Ext) returns (ok: bool)
      requires Valid()
      modifies this`insts, this`csrs
      ensures Valid()
      ensures ok <==> !started && forall e | e in old(insts) :: !Registry.SameName(e.name, name)
      ensures insts == if ok then Registry.Insert(old(insts), Registry.Entry(Registry.Upper(name), ext)) else old(insts)
      ensures csrs == if ok then Registry.Registered(ext, old(csrs)) else old(csrs)
    {
      var key := Registry.Upper(name);
      Registry.NamedIffSameName(insts, name);
      if started || Registry.Named(insts, key) {
        return false;
      }
      Registry.InsertKeepsOrder(insts, Registry.Entry(key, ext));
      Registry.InsertKeepsKeys(insts, name, ext);
      insts := Registry.Insert(insts, Registry.Entry(key, ext));
      match ext {
        case BaseI =>
          if Csr.MISA in csrs {
            csrs := csrs[Csr.MISA := BitsOf(Disj, csrs[Csr.MISA], 0x100)];
          }
        case Zicsr =>
        case Privileged(_) => RegistPrivileged();
      }
      ok := true;
    }

    // ---------------------------------------------------------------- memory

    method MemRead(addr: Word, n: Word) returns (err: Err, data: seq<Byte>)
      requires Valid()
      ensures Bytes(err, data) == Memory.MemRead(State().mem, addr, n)
    {
      err, data := EFAULT, [];
      for i := 0 to |mems|
        invariant err == EFAULT && data == []
        invariant i <= FirstMatch(addr, mems)
      {
        if Match(addr, mems[i]) {
          assert mems[i] in mems;
          match devs[mems[i].store] {
            case RamDev(ram) => err, data := ram.Read(addr - mems[i].addr, n);
            case RomDev(rom) => err, data := rom.Read(addr - mems[i].addr, n);
          }
          return;
        }
      }
    }

    method MemWrite(addr: Word, data: seq<Byte>) returns (err: Err)
      requires Valid()
      modifies Rams()
      ensures Valid()
      ensures var w := Memory.MemWrite(old(State()).mem, addr, data);
        err == w.err && State() == old(State()).(mem := w.target)
    {
      err := EFAULT;
      for i := 0 to |mems|
        invariant err == EFAULT && State() == old(State())
        invariant i <= FirstMatch(addr, mems)
      {
        if Match(addr, mems[i]) {
          assert mems[i] in mems;
          match devs[mems[i].store] {
            case RamDev(ram) =>
              err := ram.Write(addr - mems[i].addr, data);
              StoresAfterRam(mems[i].store, old(Stores()));
            case RomDev(rom) => err := rom.Write(addr - mems[i].addr, data);
          }
          return;
        }
      }
    }

    // Writing one memory object replaces one store.
    lemma StoresAfterRam(h: nat, before: seq<Store>)
      requires Valid() && h < |devs| && devs[h].RamDev? && |before| == |devs|
      requires forall i | 0 <= i < |devs| && i != h :: before[i] == Contents(devs[i])
      ensures Stores() == before[h := Ram(devs[h].ram.mem)]
    {
    }

    // ---------------------------------------------------------------- loads and stores

    method Lb(w: Word) returns (err: Err)
      requires Valid()
      modifies x
      ensures Does(LB, w, err)
    {
      hide Sext, ImmI, Rd, Rs1, Word32, Wrap, StoreRead, FirstMatch;
      var d: seq<Byte>;
      err, d := MemRead(Wrap(x[Rs1(w)] + ImmI(w)), 1);
      if err == EOK {
        Put(Rd(w), Sext(Word32(d), 7));
      }
    }

    method Lh(w: Word) returns (err: Err)
      requires Valid()
      modifies x
      ensures Does(LH, w, err)
    {
      hide Sext, ImmI, Rd, Rs1, Word32, Wrap, StoreRead, FirstMatch;
      var d: seq<Byte>;
      err, d := MemRead(Wrap(x[Rs1(w)] + ImmI(w)), 2);
      if err == EOK {
        Put(Rd(w), Sext(Word32(d), 15));
      }
    }

    method Lw(w: Word) returns (err: Err)
      requires Valid()
      modifies x
      ensures Does(LW, w, err)
    {
      hide Sext, ImmI, Rd, Rs1, Word32, Wrap, StoreRead, FirstMatch;
      var d: seq<Byte>;
      err, d := MemRead(Wrap(x[Rs1(w)] + ImmI(w)), 4);
      if err == EOK {
        Put(Rd(w), Word32(d));
      }
    }

    method Lbu(w: Word) returns (err: Err)
      requires Valid()
      modifies x
      ensures Does(LBU, w, err)
    {
      hide Sext, ImmI, Rd, Rs1, Word32, Wrap, StoreRead, FirstMatch;
      var d: seq<Byte>;
      err, d := MemRead(Wrap(x[Rs1(w)] + ImmI(w)), 1);
      if err == EOK {
        Put(Rd(w), Word32(d));
      }
    }

    method Lhu(w: Word) returns (err: Err)
      requires Valid()
      modifies x
      ensures Does(LHU, w, err)
    {
      hide Sext, ImmI, Rd, Rs1, Word32, Wrap, StoreRead, FirstMatch;
      var d: seq<Byte>;
      err, d := MemRead(Wrap(x[Rs1(w)] + ImmI(w)), 2);
      if err == EOK {
        Put(Rd(w), Word32(d));
      }
    }

    method Sb(w: Word) returns (err: Err)
      requires Valid()
      modifies Rams()
      ensures Does(SB, w, err)
    {
      hide ToLe, ImmS, Rs1, Rs2, Wrap, StoreWrite, FirstMatch;
      err := MemWrite(Wrap(x[Rs1(w)] + ImmS(w)), ToLe(x[Rs2(w)], 1));
    }

    method Sh(w: Word) returns (err: Err)
      requires Valid()
      modifies Rams()
      ensures Does(SH, w, err)
    {
      hide ToLe, ImmS, Rs1, Rs2, Wrap, StoreWrite, FirstMatch;
      err := MemWrite(Wrap(x[Rs1(w)] + ImmS(w)), ToLe(x[Rs2(w)], 2));
    }

    method Sw(w: Word) returns (err: Err)
      requires Valid()
      modifies Rams()
      ensures Does(SW, w, err)
    {
      hide ToLe, ImmS, Rs1, Rs2, Wrap, StoreWrite, FirstMatch;
      err := MemWrite(Wrap(x[Rs1(w)] + ImmS(w)), ToLe(x[Rs2(w)], 4));
    }

    // ---------------------------------------------------------------- computation

    method Addi(w: Word) returns (err: Err)
      requires Valid()
      modifies x
      ensures Does(ADDI, w, err)
    {
      hide ImmI, Rd, Rs1, BitsOf;
      Put(Rd(w), Wrap(x[Rs1(w)] + ImmI(w)));
      err := EOK;
    }

    method Slti(w: Word) returns (err: Err)
      requires Valid()
      modifies x
      ensures Does(SLTI, w, err)
    {
      hide ImmI, Rd, Rs1, BitsOf;
      Put(Rd(w), if x[Rs1(w)] < Signed(ImmI(w)) then 1 else 0);
      err := EOK;
    }

    method Sltiu(w: Word) returns (err: Err)
      requires Valid()
      modifies x
      ensures Does(SLTIU, w, err)
    {
      hide ImmI, Rd, Rs1, BitsOf;
      Put(Rd(w), if x[Rs1(w)] < ImmI(w) then 1 else 0);
      err := EOK;
    }

    method Xori(w: Word) returns (err: Err)
      requires Valid()
      modifies x
      ensures Does(XORI, w, err)
    {
      hide ImmI, Rd, Rs1, BitsOf;
      Put(Rd(w), BitsOf(Differ, x[Rs1(w)], ImmI(w)));
      err := EOK;
    }

    method Ori(w: Word) returns (err: Err)
      requires Valid()
      modifies x
      ensures Does(ORI, w, err)
    {
      hide ImmOri, Rd, Rs1, BitsOf;
      Put(Rd(w), BitsOf(Disj, x[Rs1(w)], ImmOri(w)));
      err := EOK;
    }

    method Andi(w: Word) returns (err: Err)
      requires Valid()
      modifies x
      ensures Does(ANDI, w, err)
    {
      hide ImmI, Rd, Rs1, BitsOf;
      Put(Rd(w), BitsOf(Conj, x[Rs1(w)], ImmI(w)));
      err := EOK;
    }

    method Slli(w: Word) returns (err: Err)
      requires Valid()
      modifies x
      ensures Does(SLLI, w, err)
    {
      if Shamt(w) >= 32 {
        return EININST;
      }
      Put(Rd(w), ShiftLeft(x[Rs1(w)], Shamt(w)));
      err := EOK;
    }

    method Srli(w: Word) returns (err: Err)
      requires Valid()
      modifies x
      ensures Does(SRLI, w, err)
    {
      if Shamt(w) >= 32 {
        return EININST;
      }
      Put(Rd(w), ShiftRight(x[Rs1(w)], Shamt(w)));
      err := EOK;
    }

    method Srai(w: Word) returns (err: Err)
      requires Valid()
      modifies x
      ensures Valid() && Result(err, State()) == Apply(SRAI, w, old(State()))
    {
      hide *;
      StateParts();
      ApplySrai(w, State());
      if Shamt(w) >= 32 {
        return EININST;
      }
      var shifted := ShiftRight(x[Rs1(w)], Shamt(w));
      Put(Rd(w), Sext(shifted, 31 - Shamt(w)));
      err := EOK;
    }

    method Auipc(w: Word) returns (err: Err)
      requires Valid()
      modifies x
      ensures Does(AUIPC, w, err)
    {
      Put(Rd(w), Wrap(pc + ImmU(w)));
      err := EOK;
    }

    method Lui(w: Word) returns (err: Err)
      requires Valid()
      modifies x
      ensures Does(LUI, w, err)
    {
      Put(Rd(w), ImmU(w));
      err := EOK;
    }

    method Add(w: Word) returns (err: Err)
      requires Valid()
      modifies x
      ensures Does(ADD, w, err)
    {
      var a: int, b: int := x[Rs1(w)], x[Rs2(w)];
      Put(Rd(w), Wrap(a + b));
      err := EOK;
    }

    method Sub(w: Word) returns (err: Err)
      requires Valid()
      modifies x
      ensures Does(SUB, w, err)
    {
      var a: int, b: int := x[Rs1(w)], x[Rs2(w)];
      Put(Rd(w), Wrap(a - b));
      err := EOK;
    }

    method Sll(w: Word) returns (err: Err)
      requires Valid()
      modifies x
      ensures Does(SLL, w, err)
    {
      if x[Rs2(w)] >= 32 {
        return Undefined;
      }
      Put(Rd(w), ShiftLeft(x[Rs1(w)], x[Rs2(w)]));
      err := EOK;
    }

    method Srl(w: Word) returns (err: Err)
      requires Valid()
      modifies x
      ensures Does(SRL, w, err)
    {
      if x[Rs2(w)] >= 32 {
        return Undefined;
      }
      Put(Rd(w), ShiftRight(x[Rs1(w)], x[Rs2(w)]));
      err := EOK;
    }

    method Slt(w: Word) returns (err: Err)
      requires Valid()
      modifies x
      ensures Does(SLT, w, err)
    {
      Put(Rd(w), if Signed(x[Rs1(w)]) < Signed(x[Rs2(w)]) then 1 else 0);
      err := EOK;
    }

    method Sltu(w: Word) returns (err: Err)
      requires Valid()
      modifies x
      ensures Does(SLTU, w, err)
    {
      Put(Rd(w), if x[Rs1(w)] < x[Rs2(w)] then 1 else 0);
      err := EOK;
    }

    method Xxor(w: Word) returns (err: Err)
      requires Valid()
      modifies x
      ensures Does(XOR, w, err)
    {
      Put(Rd(w), BitsOf(Differ, x[Rs1(w)], x[Rs2(w)]));
      err := EOK;
    }

    method Sra(w: Word) returns (err: Err)
      requires Valid()
      modifies x
      ensures Does(SRA, w, err)
    {
      hide Sext, ShiftRight, Rd, Rs1, Rs2;
      var count := x[Rs2(w)] % 32;
      var shifted := ShiftRight(x[Rs1(w)], count);
      Put(Rd(w), Sext(shifted, 31 - count));
      err := EOK;
    }

    method Orr(w: Word) returns (err: Err)
      requires Valid()
      modifies x
      ensures Does(OR, w, err)
    {
      Put(Rd(w), BitsOf(Disj, x[Rs1(w)], x[Rs2(w)]));
      err := EOK;
    }

    method Andd(w: Word) returns (err: Err)
      requires Valid()
      modifies x
      ensures Does(AND, w, err)
    {
      Put(Rd(w), BitsOf(Conj, x[Rs1(w)], x[Rs2(w)]));
      err := EOK;
    }

    // ---------------------------------------------------------------- control transfer

    method Beq(w: Word) returns (err: Err)
      requires Valid()
      modifies this`pc, this`pcChanged
      ensures Does(BEQ, w, err)
    {
      hide ImmB, Rs1, Rs2, Wrap;
      if x[Rs1(w)] == x[Rs2(w)] {
        JumpTo(Wrap(pc + ImmB(w)));
      }
      err := EOK;
    }

    method Bne(w: Word) returns (err: Err)
      requires Valid()
      modifies this`pc, this`pcChanged
      ensures Does(BNE, w, err)
    {
      hide ImmB, Rs1, Rs2, Wrap;
      if x[Rs1(w)] != x[Rs2(w)] {
        JumpTo(Wrap(pc + ImmB(w)));
      }
      err := EOK;
    }

    method Blt(w: Word) returns (err: Err)
      requires Valid()
      modifies this`pc, this`pcChanged
      ensures Does(BLT, w, err)
    {
      hide ImmB, Rs1, Rs2, Wrap;
      if Signed(x[Rs1(w)]) < Signed(x[Rs2(w)]) {
        JumpTo(Wrap(pc + ImmB(w)));
      }
      err := EOK;
    }

    method Bge(w: Word) returns (err: Err)
      requires Valid()
      modifies this`pc, this`pcChanged
      ensures Does(BGE, w, err)
    {
      hide ImmB, Rs1, Rs2, Wrap;
      if Signed(x[Rs1(w)]) >= Signed(x[Rs2(w)]) {
        JumpTo(Wrap(pc + ImmB(w)));
      }
      err := EOK;
    }

    method Bltu(w: Word) returns (err: Err)
      requires Valid()
      modifies this`pc, this`pcChanged
      ensures Does(BLTU, w, err)
    {
      hide ImmB, Rs1, Rs2, Wrap;
      if x[Rs1(w)] < x[Rs2(w)] {
        JumpTo(Wrap(pc + ImmB(w)));
      }
      err := EOK;
    }

    method Bgeu(w: Word) returns (err: Err)
      requires Valid()
      modifies this`pc, this`pcChanged
      ensures Does(BGEU, w, err)
    {
      hide ImmB, Rs1, Rs2, Wrap;
      if x[Rs1(w)] >= x[Rs2(w)] {
        JumpTo(Wrap(pc + ImmB(w)));
      }
      err := EOK;
    }

    lemma StateParts()
      requires Valid()
      ensures x.Length == 32 && |State().x| == 32 && State().x[..] == x[..] && State().pc == pc
    {
    }

    method Jal(w: Word) returns (err: Err)
      requires Valid()
      modifies x, this`pc, this`pcChanged
      ensures Valid() && Result(err, State()) == Apply(JAL, w, old(State()))
    {
      hide *;
      StateParts();
      ApplyJumps(w, State());
      var target := Wrap(pc + ImmJ(w));
      Put(Rd(w), Wrap(pc + 4));
      JumpTo(target);
      err := EOK;
    }

    method Jalr(w: Word) returns (err: Err)
      requires Valid()
      modifies x, this`pc, this`pcChanged
      ensures Valid() && Result(err, State()) == Apply(JALR, w, old(State()))
    {
      hide *;
      StateParts();
      ApplyJumps(w, State());
      var t, target := Wrap(pc + 4), ClearBit0(Wrap(x[Rs1(w)] + ImmI(w)));
      JumpThenPut(State(), Rd(w), t, target);
      JumpTo(target);
      Put(Rd(w), t);
      err := EOK;
    }

    method Fence(w: Word) returns (err: Err)
      requires Valid()
      ensures Result(err, State()) == Apply(FENCE, w, State())
    {
      hide *;
      ApplyIdle(FENCE, w, State());
      err := EOK;
    }

    method Fencei(w: Word) returns (err: Err)
      requires Valid()
      ensures Result(err, State()) == Apply(FENCEI, w, State())
    {
      hide *;
      ApplyIdle(FENCEI, w, State());
      err := EOK;
    }

    method Ecall(w: Word) returns (err: Err)
      requires Valid()
      ensures Result(err, State()) == Apply(ECALL, w, State())
    {
      hide *;
      ApplyIdle(ECALL, w, State());
      err := EOK;
    }

    method Ebreak(w: Word) returns (err: Err)
      requires Valid()
      ensures Result(err, State()) == Apply(EBREAK, w, State())
    {
      hide *;
      ApplyIdle(EBREAK, w, State());
      err := EOK;
    }

    // ---------------------------------------------------------------- dispatch

    // RV32I::exec
    method ExecBase(w: Word) returns (err: Err)
      requires Valid()
      modifies this`pc, this`pcChanged, x, Rams()
      ensures Valid() && Result(err, State()) == RV32I.Exec(w, old(State()))
    {
      hide Apply;
      ApplyIdle(NOTHING, w, State());
      err := EUNDEF;
      var f3 := Funct3(w);
      if Cc(w) == 0 {
        match Bbb(w) {
          case 0 =>
            if f3 == 0 { err := Lb(w); }
            else if f3 == 1 { err := Lh(w); }
            else if f3 == 2 { err := Lw(w); }
            else if f3 == 4 { err := Lbu(w); }
            else if f3 == 5 { err := Lhu(w); }
          case 3 =>
            if f3 == 0 { err := Fence(w); }
            else if f3 == 1 { err := Fencei(w); }
          case 4 =>
            if f3 == 0 { err := Addi(w); }
            else if f3 == 2 { err := Slti(w); }
            else if f3 == 3 { err := Sltiu(w); }
            else if f3 == 4 { err := Xori(w); }
            else if f3 == 6 { err := Ori(w); }
            else if f3 == 7 { err := Andi(w); }
            else if f3 == 1 { err := Slli(w); }
            else if f3 == 5 {
              if Funct7(w) == 0 { err := Srli(w); }
              else if Funct7(w) == 0x20 { err := Srai(w); }
            }
          case 5 => err := Auipc(w);
          case _ =>
        }
      } else if Cc(w) == 1 {
        match Bbb(w) {
          case 0 =>
            if f3 == 0 { err := Sb(w); }
            else if f3 == 1 { err := Sh(w); }
            else if f3 == 2 { err := Sw(w); }
          case 4 =>
            if f3 == 0 {
              if Funct7(w) == 0 { err := Add(w); }
              else if Funct7(w) == 0x20 { err := Sub(w); }
            }
            else if f3 == 1 { err := Sll(w); }
            else if f3 == 2 { err := Slt(w); }
            else if f3 == 3 { err := Sltu(w); }
            else if f3 == 4 { err := Xxor(w); }
            else if f3 == 5 {
              if Funct7(w) == 0 { err := Srl(w); }
              else if Funct7(w) == 0x20 { err := Sra(w); }
            }
            else if f3 == 6 { err := Orr(w); }
            else if f3 == 7 { err := Andd(w); }
          case 5 => err := Lui(w);
          case _ =>
        }
      } else if Cc(w) == 3 {
        match Bbb(w) {
          case 0 =>
            if f3 == 0 { err := Beq(w); }
            else if f3 == 1 { err := Bne(w); }
            else if f3 == 4 { err := Blt(w); }
            else if f3 == 5 { err := Bge(w); }
            else if f3 == 6 { err := Bltu(w); }
            else if f3 == 7 { err := Bgeu(w); }
          case 1 => err := Jalr(w);
          case 3 => err := Jal(w);
          case 4 =>
            if f3 == 0 {
              if IField(w) == 0 { err := Ecall(w); }
              else if IField(w) == 1 { err := Ebreak(w); }
            }
          case _ =>
        }
      }
    }

    // ---------------------------------------------------------------- CSR instructions

    method Csrrw(w: Word) returns (err: Err)
      requires Valid() && Opcode(w) == 0x73 && Funct3(w) == 1
      modifies x, this`csrs
      ensures Valid() && Result(err, State()) == Csr.Exec(w, old(State()))
    {
      hide BitsOf, Rd, Rs1, Zimm, Csr.Address;
      var c := Csr.Address(w);
      if c !in csrs {
        return EININST;
      }
      var csr := csrs[c];
      csrs := csrs[c := x[Rs1(w)]];
      if Rd(w) != 0 {
        Put(Rd(w), csr);
      }
      err := EOK;
    }

    method Csrrs(w: Word) returns (err: Err)
      requires Valid() && Opcode(w) == 0x73 && Funct3(w) == 2
      modifies x, this`csrs
      ensures Valid() && Result(err, State()) == Csr.Exec(w, old(State()))
    {
      hide BitsOf, Rd, Rs1, Zimm, Csr.Address;
      var c := Csr.Address(w);
      if c !in csrs {
        return EININST;
      }
      var csr := csrs[c];
      if Rs1(w) != 0 {
        csrs := csrs[c := BitsOf(Disj, csr, x[Rs1(w)])];
      }
      Put(Rd(w), csr);
      err := EOK;
    }

    method Csrrc(w: Word) returns (err: Err)
      requires Valid() && Opcode(w) == 0x73 && Funct3(w) == 3
      modifies x, this`csrs
      ensures Valid() && Result(err, State()) == Csr.Exec(w, old(State()))
    {
      hide BitsOf, Rd, Rs1, Zimm, Csr.Address;
      var c := Csr.Address(w);
      if c !in csrs {
        return EININST;
      }
      var csr := csrs[c];
      if Rs1(w) != 0 {
        csrs := csrs[c := BitsOf(Without, csr, x[Rs1(w)])];
      }
      Put(Rd(w), csr);
      err := EOK;
    }

    method Csrrwi(w: Word) returns (err: Err)
      requires Valid() && Opcode(w) == 0x73 && Funct3(w) == 5
      modifies x, this`csrs
      ensures Valid() && Result(err, State()) == Csr.Exec(w, old(State()))
    {
      hide BitsOf, Rd, Rs1, Zimm, Csr.Address;
      var c := Csr.Address(w);
      if c !in csrs {
        return EININST;
      }
      var csr := csrs[c];
      csrs := csrs[c := Zimm(w)];
      if Rd(w) != 0 {
        Put(Rd(w), csr);
      }
      err := EOK;
    }

    method Csrrsi(w: Word) returns (err: Err)
      requires Valid() && Opcode(w) == 0x73 && Funct3(w) == 6
      modifies x, this`csrs
      ensures Valid() && Result(err, State()) == Csr.Exec(w, old(State()))
    {
      hide BitsOf, Rd, Rs1, Zimm, Csr.Address;
      var c := Csr.Address(w);
      if c !in csrs {
        return EININST;
      }
      if c / 0x400 == 3 {
        return EACCESS;
      }
      var csr := csrs[c];
      if Zimm(w) != 0 {
        csrs := csrs[c := BitsOf(Disj, csr, Zimm(w))];
      }
      Put(Rd(w), csr);
      err := EOK;
    }

    method Csrrci(w: Word) returns (err: Err)
      requires Valid() && Opcode(w) == 0x73 && Funct3(w) == 7
      modifies x, this`csrs
      ensures Valid() && Result(err, State()) == Csr.Exec(w, old(State()))
    {
      hide BitsOf, Rd, Rs1, Zimm, Csr.Address;
      var c := Csr.Address(w);
      if c !in csrs {
        return EININST;
      }
      if c / 0x400 == 3 {
        return EACCESS;
      }
      var csr := csrs[c];
      if Zimm(w) != 0 {
        csrs := csrs[c := BitsOf(Without, csr, Zimm(w))];
      }
      Put(Rd(w), csr);
      err := EOK;
    }

    // RV32Zicsr::exec
    method ExecCsr(w: Word) returns (err: Err)
      requires Valid()
      modifies x, this`csrs
      ensures Valid() && Result(err, State()) == Csr.Exec(w, old(State()))
    {
      err := EUNDEF;
      if Opcode(w) == 0x73 {
        match Funct3(w) {
          case 1 => err := Csrrw(w);
          case 2 => err := Csrrs(w);
          case 3 => err := Csrrc(w);
          case 5 => err := Csrrwi(w);
          case 6 => err := Csrrsi(w);
          case 7 => err := Csrrci(w);
          case _ =>
        }
      }
    }

    // One of the loops of RV32Privileged::regist.
    method ZeroRange(lo: nat, hi: nat)
      requires lo <= hi <= 0x1000
      modifies this`csrs
      ensures forall c: CsrAddr :: c in csrs <==> c in old(csrs) || lo <= c < hi
      ensures forall c: CsrAddr | c in csrs :: csrs[c] == if lo <= c < hi then 0 else old(csrs)[c]
    {
      for i := lo to hi
        invariant forall c: CsrAddr :: c in csrs <==> c in old(csrs) || lo <= c < i
        invariant forall c: CsrAddr | c in csrs :: csrs[c] == if lo <= c < i then 0 else old(csrs)[c]
      {
        csrs := csrs[i := 0];
      }
    }

    // RV32Privileged::regist, its commented sections in order.
    method RegistPrivileged()
      modifies this`csrs
      ensures csrs == Csr.Installed(old(csrs))
    {
      hide Csr.UserCounter, Csr.MachineSetup, Csr.MachineTraps, Csr.Protection, Csr.MachineCounter, Csr.Debug;
      RegistUnprivileged();
      RegistMachineSetup();
      RegistMachineTraps();
      RegistProtection();
      RegistCounters();
      RegistDebug();
      Csr.MisaIsMachineSetupOnly();
    }

    method RegistUnprivileged()
      modifies this`csrs
      ensures forall c: CsrAddr :: c in csrs <==> c in old(csrs) || Csr.UserCounter(c)
      ensures forall c: CsrAddr | c in csrs :: csrs[c] == if Csr.UserCounter(c) then 0 else old(csrs)[c]
    {
      ZeroRange(0xC00, 0xC20);
      ZeroRange(0xC80, 0xCA0);
    }

    method RegistMachineSetup()
      modifies this`csrs
      ensures forall c: CsrAddr :: c in csrs <==> c in old(csrs) || Csr.MachineSetup(c)
      ensures forall c: CsrAddr | c in csrs ::
        csrs[c] == if Csr.MachineSetup(c) then (if c == Csr.MISA then 0x4000_0000 else 0) else old(csrs)[c]
    {
      csrs := csrs[0xF11 := 0][0xF12 := 0][0xF13 := 0][0xF14 := 0][0xF15 := 0];
      csrs := csrs[0x300 := 0][0x301 := 0x4000_0000][0x302 := 0][0x303 := 0][0x304 := 0][0x305 := 0][0x306 := 0];
    }

    method RegistMachineTraps()
      modifies this`csrs
      ensures forall c: CsrAddr :: c in csrs <==> c in old(csrs) || Csr.MachineTraps(c)
      ensures forall c: CsrAddr | c in csrs :: csrs[c] == if Csr.MachineTraps(c) then 0 else old(csrs)[c]
    {
      csrs := csrs[0x310 := 0][0x340 := 0][0x341 := 0][0x342 := 0][0x343 := 0][0x344 := 0];
      csrs := csrs[0x34A := 0][0x34B := 0][0x30A := 0][0x31A := 0][0x747 := 0][0x757 := 0];
    }

    method RegistProtection()
      modifies this`csrs
      ensures forall c: CsrAddr :: c in csrs <==> c in old(csrs) || Csr.Protection(c)
      ensures forall c: CsrAddr | c in csrs :: csrs[c] == if Csr.Protection(c) then 0 else old(csrs)[c]
    {
      ZeroRange(0x3A0, 0x3B0);
      ZeroRange(0x3B0, 0x3F0);
    }

    method RegistCounters()
      modifies this`csrs
      ensures forall c: CsrAddr :: c in csrs <==> c in old(csrs) || Csr.MachineCounter(c)
      ensures forall c: CsrAddr | c in csrs :: csrs[c] == if Csr.MachineCounter(c) then 0 else old(csrs)[c]
    {
      csrs := csrs[0xB00 := 0];
      ZeroRange(0xB02, 0xB20);
      csrs := csrs[0xB80 := 0];
      ZeroRange(0xB82, 0xBA0);
      csrs := csrs[0x320 := 0];
      ZeroRange(0x323, 0x340);
    }

    method RegistDebug()
      modifies this`csrs
      ensures forall c: CsrAddr :: c in csrs <==> c in old(csrs) || Csr.Debug(c)
      ensures forall c: CsrAddr | c in csrs :: csrs[c] == if Csr.Debug(c) then 0 else old(csrs)[c]
    {
      ZeroRange(0x7A0, 0x7A4);
      csrs := csrs[0x7A8 := 0];
      ZeroRange(0x7B0, 0x7B4);
    }

    // ---------------------------------------------------------------- the loop

    method Execute(e: Vm.Ext, w: Word) returns (err: Err)
      requires Valid()
      modifies this`pc, this`pcChanged, this`csrs, x, Rams()
      ensures Valid() && Result(err, State()) == Vm.Execute(e, w, old(State()))
    {
      match e {
        case BaseI => err := ExecBase(w);
        case Zicsr => err := ExecCsr(w);
        case Privileged(_) => err := Undefined;
      }
    }

    method InstExec(exts: seq<Vm.Ext>, w: Word) returns (err: Err)
      requires Valid()
      modifies this`pc, this`pcChanged, this`csrs, x, Rams()
      ensures Valid() && Result(err, State()) == Vm.InstExec(exts, w, old(State()))
    {
      hide Vm.Execute, Vm.Accepts;
      for i := 0 to |exts|
        invariant Valid() && State() == old(State())
        invariant Vm.InstExec(exts, w, old(State())) == Vm.InstExec(exts[i..], w, old(State()))
      {
        assert exts[i..][0] == exts[i] && exts[i..][1..] == exts[i + 1..];
        if Vm.Accepts(exts[i], w) {
          err := Execute(exts[i], w);
          return;
        }
      }
      assert exts[|exts|..] == [];
      err := EUNDEF;
    }

    // The uncompressed path of inst_fetch.
    method InstFetch(addr: Word) returns (err: Err, w: Word)
      requires Valid()
      ensures var f := Memory.MemRead(State().mem, addr, 4);
        err == f.err && (err == EOK ==> w == Word32(f.data))
    {
      hide Word32, StoreRead;
      w := 0;
      var found := |mems|;
      for i := 0 to |mems|
        invariant found == |mems|
        invariant i <= FirstMatch(addr, mems)
      {
        if Match(addr, mems[i]) {
          found := i;
          break;
        }
      }
      if found == |mems| {
        return EFAULT, 0;
      }
      assert mems[found] in mems;
      var data: seq<Byte>;
      match devs[mems[found].store] {
        case RamDev(ram) => err, data := ram.Read(addr - mems[found].addr, 4);
        case RomDev(rom) => err, data := rom.Read(addr - mems[found].addr, 4);
      }
      assert Bytes(err, data) == Memory.MemRead(State().mem, addr, 4);
      if err == EOK {
        w := Word32(data);
      }
    }

    // rv32::run, when the exit request is seen after n iterations.
    method Run(n: nat) returns (why: Vm.Stop)
      requires Valid()
      modifies this`pc, this`pcChanged, this`csrs, x, Rams()
      ensures Valid() && Vm.Stopped(why, State()) == Vm.Run(n, Registry.Exts(insts), old(State()))
    {
      var exts := Registry.Exts(insts);
      hide Vm.InstExec, Memory.MemRead, Word32;
      var k := 0;
      while true
        invariant k <= n && Valid()
        invariant Vm.Run(n, exts, old(State())) == Vm.Run(n - k, exts, State())
        decreases n - k
      {
        if k == n {
          return Vm.ExitRequested;
        }
        ghost var before := State();
        var err, w := InstFetch(pc);
        if err != EOK {
          return Vm.FetchFailed(err);
        }
        var pcPrv := pc;
        if w == 0 {
          return Vm.ZeroWord;
        }
        pcChanged := false;
        Put(0, 0);
        assert State() == Vm.Prepared(before);
        err := InstExec(exts, w);
        if err != EOK {
          return Vm.ExecFailed(err);
        }
        ghost var after := State();
        if !(pc != pcPrv || pcChanged) {
          pc := Wrap(pc + 4);
        }
        assert State() == Vm.NextPc(pcPrv, after);
        assert Vm.Iterate(exts, before) == Vm.Running(State());
        k := k + 1;
      }
    }
  }
}
