/** The CSR file: the six Zicsr instructions and the set of registers that
    RV32Privileged installs. */
module Csr {
  import opened Words
  import opened InstFmt
  import opened Memory
  import opened Hart

  // isValid of RV32Zicsr: the SYSTEM opcode with one of the six funct3 values.
  predicate IsValid(w: Word) {
    Aa(w) == 3 && Bbb(w) == 4 && Cc(w) == 3 && Funct3(w) != 0 && Funct3(w) != 4
  }

  function Address(w: Word): CsrAddr {
    IField(w)
  }

  // Bits 11:10 of the address: both set for a read-only register.
  predicate ReadOnly(c: CsrAddr) {
    c / 0x400 == 3
  }

  function Exec(w: Word, s: State): Result
    requires s.Valid()
  {
    var c, rd := Address(w), Rd(w);
    if Opcode(w) != 0x73 || Funct3(w) == 0 || Funct3(w) == 4 then Result(EUNDEF, s)
    else if c !in s.csrs then Result(EININST, s)
    else
      var prior, a, z := s.csrs[c], s.x[Rs1(w)], Zimm(w);
      match Funct3(w)
      case 1 => Result(EOK, (if rd != 0 then s.Put(rd, prior) else s).(csrs := s.csrs[c := a]))
      case 2 =>
        Result(EOK, s.Put(rd, prior).(csrs := if Rs1(w) != 0 then s.csrs[c := BitsOf(Disj, prior, a)] else s.csrs))
      case 3 =>
        Result(EOK, s.Put(rd, prior).(csrs := if Rs1(w) != 0 then s.csrs[c := BitsOf(Without, prior, a)] else s.csrs))
      case 5 => Result(EOK, (if rd != 0 then s.Put(rd, prior) else s).(csrs := s.csrs[c := z]))
      case 6 =>
        if ReadOnly(c) then Result(EACCESS, s)
        else Result(EOK, s.Put(rd, prior).(csrs := if z != 0 then s.csrs[c := BitsOf(Disj, prior, z)] else s.csrs))
      case _ =>
        if ReadOnly(c) then Result(EACCESS, s)
        else Result(EOK, s.Put(rd, prior).(csrs := if z != 0 then s.csrs[c := BitsOf(Without, prior, z)] else s.csrs))
  }

  // When a CSR instruction goes through: its register exists, and it is not one of the
  // two immediate set/clear forms (even with a zero immediate) with both top bits of the
  // word up, which are those of the address.
  lemma SucceedsIffInstalled(w: Word, s: State)
    requires s.Valid() && IsValid(w)
    ensures var r, refused := Exec(w, s), Funct3(w) >= 6 && Bit(w, 31) && Bit(w, 30);
      && (r.err == EOK <==> Address(w) in s.csrs && !refused)
      && (r.err == EACCESS <==> Address(w) in s.csrs && refused)
      && (r.err == EININST <==> Address(w) !in s.csrs)
      && (r.err != EOK ==> r.s == s)
  {
    OpcodeParts(w);
    ReadOnlyByWord(w);
    hide Bit;
  }

  // The read-only addresses are the ones from 0xC00 on.
  lemma ReadOnlyByWord(w: Word)
    ensures ReadOnly(Address(w)) <==> Bit(w, 31) && Bit(w, 30)
    ensures ReadOnly(Address(w)) <==> Address(w) >= 0xC00
  {
    Pow2Values();
    assert Pow2(30) == 0x4000_0000 by { assert Pow2(31) == 2 * Pow2(30); }
    BitIsDigit(w, 31);
    BitIsDigit(w, 30);
    hide Pow2, Bit;
  }

  // A CSR word put together from its fields.
  function CsrWord(c: CsrAddr, source: Reg, funct3: int, rd: Reg): Word
    requires 0 <= funct3 < 8
  {
    0x73 + 0x80 * rd + 0x1000 * funct3 + 0x8000 * source + 0x10_0000 * c
  }

  lemma FieldsOfCsrWord(c: CsrAddr, source: Reg, funct3: int, rd: Reg)
    requires 0 <= funct3 < 8
    ensures var w := CsrWord(c, source, funct3, rd);
      && Address(w) == c && Rs1(w) == source && Zimm(w) == source && Funct3(w) == funct3 && Rd(w) == rd
      && Opcode(w) == 0x73 && (IsValid(w) <==> funct3 in {1, 2, 3, 5, 6, 7})
  {
    var w := CsrWord(c, source, funct3, rd);
    CsrWordDigits(w, c, source, funct3, rd);
    OpcodeParts(w);
    hide CsrWord;
  }

  lemma CsrWordDigits(w: Word, c: CsrAddr, source: Reg, funct3: int, rd: Reg)
    requires 0 <= funct3 < 8 && w == 0x73 + 0x80 * rd + 0x1000 * funct3 + 0x8000 * source + 0x10_0000 * c
    ensures w / 0x10_0000 % 0x1000 == c && w / 0x8000 % 32 == source && w / 0x1000 % 8 == funct3
    ensures w / 0x80 % 32 == rd && w % 0x80 == 0x73
  {
    var low := 0x73 + 0x80 * rd + 0x1000 * funct3;
    FieldAt(w, 0x10_0000, 0x1000, 0, c, low + 0x8000 * source);
    FieldAt(w, 0x8000, 32, c, source, low);
    FieldAt(w, 0x1000, 8, source + 32 * c, funct3, 0x73 + 0x80 * rd);
    FieldAt(w, 0x80, 32, funct3 + 8 * source + 0x100 * c, rd, 0x73);
    FieldAt(w, 1, 0x80, rd + 32 * funct3 + 0x100 * source + 0x2000 * c, 0x73, 0);
  }

  // The digit of weight p in base m.
  lemma FieldAt(w: int, p: int, m: int, high: int, field: int, low: int)
    requires p > 0 && 0 <= low < p && 0 <= field < m && w == (high * m + field) * p + low
    ensures w / p % m == field
  {
    DivisionUnique(w, p, high * m + field, low);
    DivisionUnique(high * m + field, m, high, field);
  }

  // ---------------------------------------------------------------- bit-level meaning

  // The value an instruction combines with the register.
  function Operand(w: Word, s: State): Word
    requires s.Valid()
  {
    if Funct3(w) <= 3 then s.x[Rs1(w)] else Zimm(w)
  }

  // Whether the instruction decides bit b of register c: a write decides every
  // bit, a set or clear the bits its operand has (none through the field 0).
  ghost predicate Touches(w: Word, s: State, c: CsrAddr, b: nat)
    requires s.Valid()
  {
    c == Address(w) && (Funct3(w) % 4 == 1 || (Rs1(w) != 0 && Bit(Operand(w, s), b)))
  }

  // The value it gives that bit.
  ghost predicate Leaves(w: Word, s: State, b: nat)
    requires s.Valid()
  {
    Funct3(w) % 4 == 2 || (Funct3(w) % 4 == 1 && Bit(Operand(w, s), b))
  }

  lemma ValueAfter(w: Word, s: State, c: CsrAddr)
    requires s.Valid() && Exec(w, s).err == EOK && c in s.csrs
    ensures Funct3(w) % 4 in {1, 2, 3} && c in Exec(w, s).s.csrs
    ensures var prior, v := s.csrs[c], Operand(w, s);
      Exec(w, s).s.csrs[c] ==
        if c != Address(w) then prior
        else if Funct3(w) % 4 == 1 then v
        else if Rs1(w) == 0 then prior
        else BitsOf(if Funct3(w) % 4 == 2 then Disj else Without, prior, v)
  {
    hide BitsOf, Rd, Opcode, Address, ReadOnly;
  }

  lemma StepDecidesBits(w: Word, s: State, c: CsrAddr, b: nat)
    requires s.Valid() && Exec(w, s).err == EOK && c in s.csrs
    ensures c in Exec(w, s).s.csrs
    ensures Bit(Exec(w, s).s.csrs[c], b) == if Touches(w, s, c, b) then Leaves(w, s, b) else Bit(s.csrs[c], b)
  {
    var v := Operand(w, s);
    ValueAfter(w, s, c);
    hide Bit, BitsOf, Exec, Operand, Address, Rs1, Funct3;
    BitwiseMeans(s.csrs[c], v, b);
  }

  // The old value of the register ends up in rd, also when rd is the source; no
  // other integer register (x0 aside), no memory and no pc changes.
  lemma StepReturnsOldValue(w: Word, s: State)
    requires s.Valid() && Exec(w, s).err == EOK
    ensures var s' := Exec(w, s).s;
      && s'.Valid() && s'.csrs.Keys == s.csrs.Keys
      && Address(w) in s.csrs && s'.x[0 := 0] == s.x[Rd(w) := s.csrs[Address(w)]][0 := 0]
      && s'.mem == s.mem && s'.pc == s.pc && s'.pcChanged == s.pcChanged
  {
    var s' := Exec(w, s).s;
    assert s'.csrs.Keys == s.csrs.Keys;
  }

  // ---------------------------------------------------------------- installed registers

  const MISA: CsrAddr := 0x301

  // The addresses RV32Privileged::regist installs, section by section.
  predicate Listed(c: CsrAddr) {
    UserCounter(c) || MachineSetup(c) || MachineTraps(c) || Protection(c) || MachineCounter(c) || Debug(c)
  }

  predicate UserCounter(c: CsrAddr) {
    0xC00 <= c < 0xC20 || 0xC80 <= c < 0xCA0
  }

  // Information registers, and machine set-up with misa.
  predicate MachineSetup(c: CsrAddr) {
    0xF11 <= c <= 0xF15 || 0x300 <= c <= 0x306
  }

  // mstatush, trap handling and configuration registers.
  predicate MachineTraps(c: CsrAddr) {
    || c == 0x310 || 0x340 <= c <= 0x344 || 0x34A <= c <= 0x34B
    || c == 0x30A || c == 0x31A || c == 0x747 || c == 0x757
  }

  predicate Protection(c: CsrAddr) {
    0x3A0 <= c < 0x3F0
  }

  predicate MachineCounter(c: CsrAddr) {
    || c == 0xB00 || 0xB02 <= c < 0xB20 || c == 0xB80 || 0xB82 <= c < 0xBA0
    || c == 0x320 || 0x323 <= c < 0x340
  }

  predicate Debug(c: CsrAddr) {
    0x7A0 <= c < 0x7A4 || c == 0x7A8 || 0x7B0 <= c < 0x7B4
  }

  // How the listed counters correspond: the user's are those of the machine and the
  // timer, at the same places; low and high halves go together; there is an event
  // selector for each hardware counter. Of the listed registers the user counters and
  // the five information registers are read-only.
  lemma ListedCounters(k: nat)
    requires k < 32
    ensures Listed(0xC00 + k) && Listed(0xC80 + k)
    ensures Listed(0xB00 + k) <==> k != 1
    ensures Listed(0xB80 + k) <==> k != 1
    ensures Listed(0x320 + k) <==> k == 0 || k >= 3
  {
  }

  lemma ListedReadOnly(c: CsrAddr)
    ensures Listed(c) && c >= 0xC00 <==> c / 0x20 in {0x60, 0x64} || c in {0xF11, 0xF12, 0xF13, 0xF14, 0xF15}
  {
  }

  lemma MisaIsMachineSetupOnly()
    ensures MachineSetup(MISA)
    ensures !UserCounter(MISA) && !MachineTraps(MISA) && !Protection(MISA) && !MachineCounter(MISA) && !Debug(MISA)
  {
  }

  function Installed(csrs: map<CsrAddr, Word>): map<CsrAddr, Word> {
    map c: CsrAddr | 0 <= c < 0x1000 && (c in csrs || Listed(c)) ::
      if c == MISA then 0x4000_0000 else if Listed(c) then 0 else csrs[c]
  }

  // RV32I::regist: mark the base set in misa, if that register is there yet.
  function MarkBase(csrs: map<CsrAddr, Word>): map<CsrAddr, Word> {
    if MISA in csrs then csrs[MISA := BitsOf(Disj, csrs[MISA], 0x100)] else csrs
  }

  // Marking adds bit 8 to misa, unless it is there, and touches nothing else.
  lemma MarkingAddsBase(csrs: map<CsrAddr, Word>)
    ensures var after := MarkBase(csrs);
      && after.Keys == csrs.Keys
      && forall c | c in csrs ::
           var prior: int := csrs[c];
           after[c] == prior + if c == 0x301 && !Bit(csrs[c], 8) then 0x100 else 0
  {
    if MISA in csrs {
      SetBitAdds(csrs[MISA], 8);
      assert Pow2(8) == 0x100;
    }
    hide Bit, Pow2;
  }

  lemma MarkingSetsBit(v: Word)
    ensures Bit(BitsOf(Disj, v, 0x100), 8)
  {
    BitOfBitwise(Disj, v, 0x100, 8);
    assert Bit(0x10, 4);
    assert Bit(0x100, 8);
  }

  lemma Bit30Alone()
    ensures !Bit(0x4000_0000, 8)
  {
    assert !Bit(0x400_0000, 4);
  }
}
