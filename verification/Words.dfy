/** Machine words: wrap-around, two's complement reading, single bits, bitwise
    operators and the sign extension of include/ZoraGA/RVdefs.h. */
module Words {

  type Word = x: int | 0 <= x < 0x1_0000_0000
  type Byte = x: int | 0 <= x < 256
  type Reg = x: int | 0 <= x < 32

  // Truncation to 32 bits.
  function Wrap(x: int): Word {
    x % 0x1_0000_0000
  }

  lemma WrapInside(a: int, b: int)
    ensures Wrap(Wrap(a) + b) == Wrap(a + b)
  {
  }

  lemma WrapWord(w: Word)
    ensures Wrap(w) == w
  {
  }

  // The two's complement value of a word.
  function Signed(w: Word): int {
    if w < 0x8000_0000 then w else w - 0x1_0000_0000
  }

  // ---------------------------------------------------------------- division

  lemma AtLeastOnce(d: int, m: int)
    requires d >= 1 && m >= 0
    ensures d * m >= m
  {
  }

  lemma DivisionUnique(v: int, m: int, q: int, r: int)
    requires v == q * m + r && 0 <= r < m
    ensures v / m == q && v % m == r
  {
    var d := v / m - q;
    assert d * m == r - v % m;
    if d > 0 {
      AtLeastOnce(d, m);
    } else if d < 0 {
      AtLeastOnce(-d, m);
    }
  }

  lemma QuotientBounds(a: nat, p: nat)
    requires p > 0
    ensures 0 <= a / p <= a && a / p * p <= a < (a / p + 1) * p
  {
    assert a == a / p * p + a % p;
    if a / p > 0 {
      AtLeastOnce(p, a / p);
    }
  }

  // Dividing in two steps.
  lemma SplitModulus(v: int, a: int, b: int)
    requires a > 0 && b > 0
    ensures v % (a * b) == v % a + a * (v / a % b)
    ensures v / a / b == v / (a * b)
  {
    var q, r := v / a / b, v % a + a * (v / a % b);
    assert v == a * (v / a) + v % a;
    assert v / a == q * b + v / a % b;
    assert a * (v / a) == q * (a * b) + a * (v / a % b);
    AtMost(a, v / a % b, b);
    DivisionUnique(v, a * b, q, r);
  }

  lemma AtMost(a: int, r: int, b: int)
    requires a > 0 && 0 <= r < b
    ensures 0 <= a * r <= a * b - a
  {
    AtLeastOnce(b - r, a);
    assert (b - r) * a == a * b - a * r;
  }

  // ---------------------------------------------------------------- powers of two

  function Pow2(n: nat): (p: nat)
    ensures p > 0
  {
    if n == 0 then 1 else 2 * Pow2(n - 1)
  }

  lemma {:induction false} Pow2Values()
    ensures Pow2(7) == 128 && Pow2(11) == 2048 && Pow2(12) == 4096 && Pow2(15) == 0x8000
    ensures Pow2(20) == 0x10_0000 && Pow2(31) == 0x8000_0000 && Pow2(32) == 0x1_0000_0000
  {
    assert Pow2(4) == 16 && Pow2(8) == 256;
    Pow2Sum(8, 8);
    Pow2Sum(4, 16);
    Pow2Sum(16, 16);
    assert Pow2(12) == 4096 && Pow2(11) == 2048;
  }

  lemma {:induction false} Pow2Sum(m: nat, n: nat)
    ensures Pow2(m + n) == Pow2(m) * Pow2(n)
  {
    if m > 0 {
      Pow2Sum(m - 1, n);
      assert Pow2(m + n) == 2 * Pow2(m - 1 + n);
    }
  }

  lemma {:induction false} Pow2Monotone(m: nat, n: nat)
    requires m <= n
    ensures Pow2(m) <= Pow2(n)
  {
    if m < n {
      Pow2Monotone(m, n - 1);
    }
  }

  // ---------------------------------------------------------------- bits

  predicate Bit(a: nat, k: nat) {
    if k == 0 then a % 2 == 1 else Bit(a / 2, k - 1)
  }

  datatype BitOp = Conj | Disj | Differ | Without

  predicate Digit(op: BitOp, p: bool, q: bool) {
    match op
    case Conj => p && q
    case Disj => p || q
    case Differ => p != q
    case Without => p && !q
  }

  // The number whose bits are the digits of `op` applied to those of a and b.
  function Bitwise(op: BitOp, a: nat, b: nat): nat
    decreases a + b
  {
    if a == 0 && b == 0 then 0
    else (if Digit(op, a % 2 == 1, b % 2 == 1) then 1 else 0) + 2 * Bitwise(op, a / 2, b / 2)
  }

  lemma {:induction false} ZeroHasNoBits(k: nat)
    ensures !Bit(0, k)
  {
    if k > 0 {
      ZeroHasNoBits(k - 1);
    }
  }

  lemma BitwiseDigits(op: BitOp, a: nat, b: nat)
    requires a > 0 || b > 0
    ensures Bitwise(op, a, b) / 2 == Bitwise(op, a / 2, b / 2)
    ensures Bitwise(op, a, b) % 2 == if Digit(op, a % 2 == 1, b % 2 == 1) then 1 else 0
  {
    hide Digit;
  }

  lemma {:induction false} BitOfBitwise(op: BitOp, a: nat, b: nat, k: nat)
    ensures Bit(Bitwise(op, a, b), k) == Digit(op, Bit(a, k), Bit(b, k))
  {
    if a == 0 && b == 0 {
      ZeroHasNoBits(k);
    } else {
      BitwiseDigits(op, a, b);
      hide Bitwise;
      if k > 0 {
        BitOfBitwise(op, a / 2, b / 2, k - 1);
      }
    }
  }

  lemma {:induction false} BitwiseBound(op: BitOp, a: nat, b: nat, n: nat)
    requires a < Pow2(n) && b < Pow2(n)
    ensures Bitwise(op, a, b) < Pow2(n)
  {
    if n > 0 && !(a == 0 && b == 0) {
      BitwiseBound(op, a / 2, b / 2, n - 1);
    }
  }

  // A number below 2^n is determined by its n low bits.
  lemma {:induction false} BitsDetermine(a: nat, b: nat, n: nat)
    requires a < Pow2(n) && b < Pow2(n)
    requires forall k: nat | k < n :: Bit(a, k) == Bit(b, k)
    ensures a == b
  {
    if n > 0 {
      assert Bit(a, 0) == Bit(b, 0);
      forall k: nat | k < n - 1
        ensures Bit(a / 2, k) == Bit(b / 2, k)
      {
        assert Bit(a, k + 1) == Bit(b, k + 1);
      }
      BitsDetermine(a / 2, b / 2, n - 1);
    }
  }

  lemma WordBitsDetermine(a: Word, b: Word)
    requires forall k: nat | k < 32 :: Bit(a, k) == Bit(b, k)
    ensures a == b
  {
    Pow2Values();
    BitsDetermine(a, b, 32);
  }

  function BitsOf(op: BitOp, a: Word, b: Word): Word {
    Pow2Values();
    BitwiseBound(op, a, b, 32);
    Bitwise(op, a, b)
  }

  // The four operators, bit by bit.
  lemma BitwiseMeans(a: Word, b: Word, k: nat)
    ensures Bit(BitsOf(Conj, a, b), k) <==> Bit(a, k) && Bit(b, k)
    ensures Bit(BitsOf(Disj, a, b), k) <==> Bit(a, k) || Bit(b, k)
    ensures Bit(BitsOf(Differ, a, b), k) <==> Bit(a, k) != Bit(b, k)
    ensures Bit(BitsOf(Without, a, b), k) <==> Bit(a, k) && !Bit(b, k)
  {
    BitOfBitwise(Conj, a, b, k);
    BitOfBitwise(Disj, a, b, k);
    BitOfBitwise(Differ, a, b, k);
    BitOfBitwise(Without, a, b, k);
  }

  // Bit k is the binary digit of weight 2^k.
  lemma {:induction false} BitIsDigit(a: nat, k: nat)
    ensures Bit(a, k) <==> a / Pow2(k) % 2 == 1
  {
    if k > 0 {
      BitIsDigit(a / 2, k - 1);
      SplitModulus(a, 2, Pow2(k - 1));
    }
  }

  // Differing from one of the two again gives the other.
  lemma DifferTwice(a: Word, b: Word)
    ensures BitsOf(Differ, BitsOf(Differ, a, b), b) == a
    ensures BitsOf(Differ, BitsOf(Differ, a, b), a) == b
  {
    hide BitsOf, Bit;
    var d := BitsOf(Differ, a, b);
    forall k: nat | k < 32
      ensures Bit(BitsOf(Differ, d, b), k) == Bit(a, k) && Bit(BitsOf(Differ, d, a), k) == Bit(b, k)
    {
      BitwiseMeans(a, b, k);
      BitwiseMeans(d, b, k);
      BitwiseMeans(d, a, k);
    }
    WordBitsDetermine(BitsOf(Differ, d, b), a);
    WordBitsDetermine(BitsOf(Differ, d, a), b);
  }

  // Masking with n ones is the remainder by 2^n.
  lemma {:induction false} MaskIsRemainder(a: nat, n: nat)
    ensures Bitwise(Conj, a, Pow2(n) - 1) == a % Pow2(n)
    decreases n
  {
    hide Bitwise;
    if n == 0 {
      NoneInCommon(a);
    } else {
      var p := Pow2(n - 1);
      var half := a / 2;
      assert Pow2(n) == 2 * p;
      hide *;
      MaskStep(a, 2 * p - 1, p);
      MaskIsRemainder(half, n - 1);
      TwoStepRemainder(a, p);
    }
  }

  lemma TwoStepRemainder(a: nat, p: nat)
    requires p > 0
    ensures a % (2 * p) == a % 2 + 2 * (a / 2 % p)
  {
    SplitModulus(a, 2, p);
  }

  lemma MaskStep(a: nat, mask: nat, p: nat)
    requires p > 0 && mask == 2 * p - 1
    ensures Bitwise(Conj, a, mask) == 2 * Bitwise(Conj, a / 2, p - 1) + a % 2
  {
    assert mask / 2 == p - 1 && mask % 2 == 1;
    BitwiseDigits(Conj, a, mask);
    hide Bitwise;
  }

  lemma {:induction false} NoneInCommon(a: nat)
    ensures Bitwise(Conj, a, 0) == 0
  {
    if a > 0 {
      NoneInCommon(a / 2);
    }
  }

  // Setting one bit adds its weight, unless it is up already.
  lemma {:induction false} SetBitAdds(a: nat, n: nat)
    ensures Bitwise(Disj, a, Pow2(n)) == if Bit(a, n) then a else a + Pow2(n)
  {
    BitwiseDigits(Disj, a, Pow2(n));
    if n == 0 {
      NothingAdded(a / 2);
    } else {
      SetBitAdds(a / 2, n - 1);
    }
  }

  lemma {:induction false} NothingAdded(a: nat)
    ensures Bitwise(Disj, a, 0) == a
  {
    if a > 0 {
      NothingAdded(a / 2);
    }
  }

  lemma {:induction false} BitIsThreshold(v: nat, n: nat)
    requires v < Pow2(n + 1)
    ensures Bit(v, n) <==> Pow2(n) <= v
  {
    if n > 0 {
      BitIsThreshold(v / 2, n - 1);
    }
  }

  // ---------------------------------------------------------------- sign extension

  lemma {:induction false} OnesAbsorb(m: nat, h: nat)
    requires h < Pow2(m)
    ensures Bitwise(Disj, Pow2(m) - 1, h) == Pow2(m) - 1
  {
    if m > 0 {
      var ones := Pow2(m) - 1;
      assert ones == 2 * (Pow2(m - 1) - 1) + 1;
      assert ones / 2 == Pow2(m - 1) - 1 && ones % 2 == 1;
      OnesAbsorb(m - 1, h / 2);
    }
  }

  // a doubled n times.
  function Shifted(n: nat, a: nat): nat {
    if n == 0 then a else 2 * Shifted(n - 1, a)
  }

  lemma {:induction false} ShiftedIsProduct(n: nat, a: nat)
    ensures Shifted(n, a) == a * Pow2(n)
  {
    if n > 0 {
      ShiftedIsProduct(n - 1, a);
      Doubled(a, Pow2(n - 1));
    }
  }

  lemma {:induction false} HighOnesAbsorb(m: nat, n: nat, h: nat, l: nat)
    requires h < Pow2(m) && l < Pow2(n)
    ensures Bitwise(Disj, Shifted(n, Pow2(m) - 1), Shifted(n, h) + l) == Shifted(n, Pow2(m) - 1) + l
    decreases n
  {
    hide Bitwise;
    if n == 0 {
      OnesAbsorb(m, h);
    } else {
      HighOnesAbsorb(m, n - 1, h, l / 2);
      AbsorbDoubled(Shifted(n - 1, Pow2(m) - 1), Shifted(n - 1, h), l);
    }
  }

  lemma AbsorbDoubled(a: nat, b: nat, l: nat)
    requires Bitwise(Disj, a, b + l / 2) == a + l / 2
    ensures Bitwise(Disj, 2 * a, 2 * b + l) == 2 * a + l
  {
    hide Bitwise;
    var rest, digit := b + l / 2, l % 2;
    DisjDouble(a, rest, digit);
    var x := 2 * b + l;
    assert x == 2 * rest + digit;
    assert Bitwise(Disj, 2 * a, x) == Bitwise(Disj, 2 * a, 2 * rest + digit);
  }

  lemma Doubled(a: nat, p: nat)
    ensures a * (2 * p) == 2 * (a * p)
  {
  }

  lemma DisjDouble(a: nat, b: nat, digit: nat)
    requires digit < 2
    ensures Bitwise(Disj, 2 * a, 2 * b + digit) == 2 * Bitwise(Disj, a, b) + digit
  {
    assert 2 * a / 2 == a && (2 * b + digit) / 2 == b;
  }

  // rv32_sext: when the given bit is set, all bits from there up are set.
  function Sext(v: Word, bit: nat): (r: Word)
    requires bit < 32
    ensures v < Pow2(bit) ==> r == v
    ensures Pow2(bit) <= v < 2 * Pow2(bit) ==> r == 0x1_0000_0000 + v - 2 * Pow2(bit)
  {
    SextValue(v, bit);
    HighOnes(bit);
    if Bit(v, bit) then BitsOf(Disj, 0x1_0000_0000 - Pow2(bit), v) else v
  }

  lemma HighOnes(bit: nat)
    requires bit < 32
    ensures Pow2(bit) < 0x1_0000_0000
    ensures 0x1_0000_0000 - Pow2(bit) == (Pow2(32 - bit) - 1) * Pow2(bit)
  {
    Pow2Sum(32 - bit, bit);
    Pow2Monotone(bit, 31);
    Pow2Values();
    assert (Pow2(32 - bit) - 1) * Pow2(bit) == Pow2(32 - bit) * Pow2(bit) - Pow2(bit);
  }

  lemma SextValue(v: Word, bit: nat)
    requires bit < 32
    ensures v < 2 * Pow2(bit) ==> (Bit(v, bit) <==> Pow2(bit) <= v)
    ensures Pow2(bit) <= v < 2 * Pow2(bit) ==>
      Bitwise(Disj, 0x1_0000_0000 - Pow2(bit), v) == 0x1_0000_0000 + v - 2 * Pow2(bit)
  {
    HighOnes(bit);
    if v < 2 * Pow2(bit) {
      BitIsThreshold(v, bit);
    }
    if Pow2(bit) <= v < 2 * Pow2(bit) {
      Pow2Monotone(1, 32 - bit);
      HighOnesAbsorb(32 - bit, bit, 1, v - Pow2(bit));
      ShiftedIsProduct(bit, Pow2(32 - bit) - 1);
      ShiftedIsProduct(bit, 1);
    }
  }
}
