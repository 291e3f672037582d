/** The bit fields of a 32-bit instruction word and the immediates the handlers
    reassemble from them. */
module InstFmt {
  import opened Words

  function Aa(w: Word): int { w % 4 }
  function Bbb(w: Word): int { w / 4 % 8 }
  function Cc(w: Word): int { w / 32 % 4 }
  function Opcode(w: Word): int { w % 128 }

  lemma OpcodeParts(w: Word)
    ensures Opcode(w) == Aa(w) + 4 * Bbb(w) + 32 * Cc(w)
  {
    SplitModulus(w, 4, 32);
    SplitModulus(w / 4, 8, 4);
    SplitModulus(w, 4, 8);
  }

  function Rd(w: Word): Reg { w / 0x80 % 32 }
  function Funct3(w: Word): int { w / 0x1000 % 8 }
  function Rs1(w: Word): Reg { w / 0x8000 % 32 }
  function Rs2(w: Word): Reg { w / 0x10_0000 % 32 }
  function Funct7(w: Word): int { w / 0x200_0000 }

  // I.imm_11_0, the 6-bit I.shamt, I.zimm_4_0, and the 7-bit field named imm_11_0 in the R layout
  function IField(w: Word): Word { w / 0x10_0000 }
  function Shamt(w: Word): (n: int)
    ensures 0 <= n < 64
  {
    w / 0x10_0000 % 64
  }
  function Zimm(w: Word): Word { w / 0x8000 % 32 }
  function RField(w: Word): Word { w / 0x200_0000 }

  // S.imm_4_0, S.imm_11_5
  function SField(w: Word): Word { w / 0x80 % 32 + 32 * (w / 0x200_0000) }

  // Half of the branch offset: B.imm_4_1, B.imm_10_5, B.imm_11, B.imm_12.
  function BHalf(w: Word): (h: int)
    ensures 0 <= h < 0x1000 && (h >= 0x800 <==> w >= 0x8000_0000)
  {
    SignDigit(w);
    var low, middle, bit11 := w / 0x100 % 16, w / 0x200_0000 % 64, w / 0x80 % 2;
    low + 16 * middle + 1024 * bit11 + 2048 * (w / 0x8000_0000)
  }

  lemma SignDigit(w: Word)
    ensures w / 0x8000_0000 == if w >= 0x8000_0000 then 1 else 0
  {
  }

  function BField(w: Word): Word { 2 * BHalf(w) }

  // U.imm_31_12
  function UField(w: Word): Word { w / 0x1000 * 0x1000 }

  // Half of the jump offset: J.imm_10_1, J.imm_11, J.imm_19_12, J.imm_20.
  function JHalf(w: Word): (h: int)
    ensures 0 <= h < 0x10_0000 && (h >= 0x8_0000 <==> w >= 0x8000_0000)
  {
    SignDigit(w);
    var low, bit11, high := w / 0x20_0000 % 1024, w / 0x10_0000 % 2, w / 0x1000 % 256;
    low + 1024 * bit11 + 2048 * high + 0x8_0000 * (w / 0x8000_0000)
  }

  function JField(w: Word): Word { 2 * JHalf(w) }

  // The sign-extended immediates.
  function ImmI(w: Word): Word { Sext(IField(w), 11) }
  function ImmOri(w: Word): Word { Sext(RField(w), 11) }
  function ImmS(w: Word): Word { Sext(SField(w), 11) }
  function ImmB(w: Word): Word { Sext(BField(w), 12) }
  function ImmJ(w: Word): Word { Sext(JField(w), 20) }
  function ImmU(w: Word): Word { UField(w) }
}
