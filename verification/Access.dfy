/** Loads, stores and fetches related to each other through the memory map. */
module Access {
  import opened Words
  import opened InstFmt
  import opened Memory
  import opened Hart
  import opened RV32I
  import FM = FlatMemory
  import opened Simulation
  import Isa

  // What a load leaves in rd after v was stored with the same width.
  function Reloaded(v: Word, n: nat, signed: bool): Word
    requires n in {1, 2, 4}
  {
    Pow2Monotone(8 * n, 32);
    Pow2Values();
    if signed then Isa.SignExtend(v % Pow2(8 * n), 8 * n) else v % Pow2(8 * n)
  }

  lemma ReloadedBytes(v: Word, n: nat, signed: bool)
    requires n in {1, 2, 4}
    ensures var u := Word32(ToLe(v, n)); (if signed then Sext(u, 8 * n - 1) else u) == Reloaded(v, n, signed)
  {
    hide Pow2, Sext, Isa.SignExtend, ToLe, Le;
    LeOfToLe(v, n);
    ExtensionAgrees(ToLe(v, n));
  }

  // After a successful sb, sh or sw, the load of the same width at that address puts
  // the stored low bytes, extended as the load does, in its register.
  lemma StoreThenLoad(st: Op, ld: Op, w: Word, w': Word, s: State)
    requires s.Valid() && KindOf(st).Store? && KindOf(ld).Load? && KindOf(ld).n == KindOf(st).n
    requires Apply(st, w, s).err == EOK
    requires Wrap(s.x[Rs1(w')] + ImmI(w')) == Wrap(s.x[Rs1(w)] + ImmS(w))
    ensures var s' := Apply(st, w, s).s;
      && s'.x == s.x && s'.pc == s.pc && s'.csrs == s.csrs
      && Apply(ld, w', s') ==
           Result(EOK, s'.Put(Rd(w'), Reloaded(s.x[Rs2(w)], KindOf(ld).n, KindOf(ld).signed)))
  {
    hide KindOf, Apply, MemRead, MemWrite, Word32, ToLe, Sext, Reloaded, ImmI, ImmS, Wrap;
    var n, a, v := KindOf(st).n, Wrap(s.x[Rs1(w)] + ImmS(w)), s.x[Rs2(w)];
    ApplyAccess(st, w, s);
    WriteThenRead(s.mem, a, ToLe(v, n));
    ApplyAccess(ld, w', Apply(st, w, s).s);
    ReloadedBytes(v, n, KindOf(ld).signed);
  }

  // The byte k places after a, read on its own.
  function ByteRead(m: Mem, a: Word, k: nat): Bytes
    requires m.Valid()
  {
    MemRead(m, FM.AddressAt(a, k), 1)
  }

  // A wide read succeeds exactly when the reads of its bytes do, and is made of their
  // results in order.
  ghost predicate IsItsBytes(m: Mem, a: Word, n: nat)
    requires m.Valid()
  {
    var r := MemRead(m, a, n);
    && r.err != Undefined
    && (r.err == EOK <==> forall k: nat | k < n :: ByteRead(m, a, k).err == EOK)
    && (r.err == EOK ==> forall k: nat | k < n :: ByteRead(m, a, k).data == [r.data[k]])
  }

  lemma SingleByte(m: Mem, b: Word)
    requires m.Valid()
    ensures MemRead(m, b, 1).err == EOK <==> FM.Mapped(m, b)
    ensures FM.Mapped(m, b) ==> MemRead(m, b, 1).data == [FM.ByteAt(m, b)]
  {
    hide FirstMatch;
    var i := FirstMatch(b, m.regions);
    if i < |m.regions| {
      assert Match(b, m.regions[i]);
    }
  }

  // A wide read is its byte reads exactly when it is honest, over every map.
  lemma WideReadIsBytes(m: Mem, a: Word, n: nat)
    requires m.Valid() && n > 0
    ensures IsItsBytes(m, a, n) <==> FM.HonestRead(m, a, n, true)
  {
    hide FM.HonestRead, FM.Mapped, FM.ByteAt, FM.AddressAt, MemRead;
    FM.HonestReadMeans(m, a, n, true);
    var r := MemRead(m, a, n);
    ReadErrors(m, a, n);
    forall k: nat
      ensures ByteRead(m, a, k).err == EOK <==> FM.Mapped(m, FM.AddressAt(a, k))
      ensures FM.Mapped(m, FM.AddressAt(a, k)) ==> ByteRead(m, a, k).data == [FM.ByteAt(m, FM.AddressAt(a, k))]
    {
      SingleByte(m, FM.AddressAt(a, k));
    }
    hide ByteRead;
    if FM.AllMapped(m, a, n) && r.err == EOK {
      if IsItsBytes(m, a, n) {
        forall k: nat | k < n
          ensures FM.Shows(m, a, k, r.data[k])
        {
          assert ByteRead(m, a, k).data == [r.data[k]];
        }
      }
      if FM.ShowsAll(m, a, r.data) {
        forall k: nat | k < n
          ensures ByteRead(m, a, k).data == [r.data[k]]
        {
          assert FM.Shows(m, a, k, r.data[k]);
        }
      }
    }
  }

  // Past the end of the RAM behind its region a read fails, whatever follows there; it
  // is its byte reads exactly when some address resolves to nothing.
  lemma StraddlingReadFails(m: Mem, a: Word, n: nat)
    requires m.Valid() && n > 0 && FirstMatch(a, m.regions) < |m.regions|
    requires var r := m.regions[FirstMatch(a, m.regions)];
      m.stores[r.store].Ram? && |m.stores[r.store].bytes| < a - r.addr + n < 0x1_0000_0000
    ensures MemRead(m, a, n).err == ERANGE
    ensures IsItsBytes(m, a, n) <==> exists k: nat :: k < n && ByteRead(m, a, k).err != EOK
  {
    hide FirstMatch;
  }

  // Past the end of the file behind its region a read gives zeros only; it is its byte
  // reads exactly when every address can be read and holds zero.
  lemma ReadAcrossFileEndIsZero(m: Mem, a: Word, n: nat)
    requires m.Valid() && n > 0 && FirstMatch(a, m.regions) < |m.regions|
    requires var r := m.regions[FirstMatch(a, m.regions)];
      m.stores[r.store].Rom? && |m.stores[r.store].bytes| < a - r.addr + n < 0x1_0000_0000
    ensures MemRead(m, a, n) == Bytes(EOK, Zeros(n))
    ensures IsItsBytes(m, a, n) <==> forall k: nat | k < n :: ByteRead(m, a, k) == Bytes(EOK, [0])
  {
    FM.ReadCases(m, a, n);
    FM.ZerosValue(n);
    WrapWord(a - m.regions[FirstMatch(a, m.regions)].addr + n);
    hide FirstMatch, MemRead, Zeros;
  }

  const LOW := Region(0, 4, 0)
  const HIGH := Region(4, 4, 1)
  const ADJACENT := Mem([LOW, HIGH], [Ram([1, 2, 3, 4]), Ram([5, 6, 7, 8])])

  lemma AdjacentLookup(a: Word)
    requires a < 8
    ensures FirstMatch(a, ADJACENT.regions) == if a < 4 then 0 else 1
  {
    assert ADJACENT.regions[1..] == [HIGH];
    assert Match(a, LOW) <==> a < 4;
    assert a >= 4 ==> Match(a, HIGH);
  }

  lemma AdjacentByte(a: Word)
    requires a < 8
    ensures ADJACENT.Valid() && MemRead(ADJACENT, a, 1).err == EOK
  {
    hide FirstMatch, MemRead;
    AdjacentLookup(a);
    FM.ReadCases(ADJACENT, a, 1);
  }

  // Such a read: across two adjacent regions all of whose bytes can be read.
  lemma AdjacentReadIsNotItsBytes()
    ensures ADJACENT.Valid() && MemRead(ADJACENT, 2, 4).err == ERANGE
    ensures forall k: nat | k < 4 :: ByteRead(ADJACENT, 2, k).err == EOK
  {
    hide FirstMatch, MemRead;
    AdjacentLookup(2);
    FM.ReadCases(ADJACENT, 2, 4);
    forall k: nat | k < 4
      ensures ByteRead(ADJACENT, 2, k).err == EOK
    {
      AdjacentByte(2 + k);
    }
  }
}
