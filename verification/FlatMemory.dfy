/** The address space a program sees: which bytes the region list makes visible,
    and when a multi-byte access of the interpreter is an access to those bytes. */
module FlatMemory {
  import opened Words
  import opened Memory
  import opened Hart
  import Vm
  import Isa

  ghost predicate Mapped(m: Mem, a: Word)
    requires m.Valid()
  {
    var i := FirstMatch(a, m.regions);
    i < |m.regions| && var st := m.stores[m.regions[i].store];
    (st.Ram? ==> a - m.regions[i].addr < |st.bytes|)
  }

  ghost predicate InRam(m: Mem, a: Word)
    requires m.Valid()
  {
    Mapped(m, a) && m.stores[m.regions[FirstMatch(a, m.regions)].store].Ram?
  }

  // A read-only store continues with zeros after its end.
  ghost function ByteAt(m: Mem, a: Word): Byte
    requires m.Valid() && Mapped(m, a)
  {
    var r := m.regions[FirstMatch(a, m.regions)];
    var bytes := m.stores[r.store].bytes;
    if a - r.addr < |bytes| then bytes[a - r.addr] else 0
  }

  ghost function Flat(m: Mem): map<Word, Byte>
    requires m.Valid()
  {
    map a: Word | 0 <= a < 0x1_0000_0000 && Mapped(m, a) :: ByteAt(m, a)
  }

  ghost function Writable(m: Mem): set<Word>
    requires m.Valid()
  {
    set a: Word | 0 <= a < 0x1_0000_0000 && InRam(m, a)
  }

  // All n bytes at a have the same first region, and do not straddle the end of a
  // read-only store.
  ghost predicate Contained(m: Mem, a: Word, n: nat)
    requires m.Valid()
  {
    var i := FirstMatch(a, m.regions);
    i < |m.regions| ==>
      && a + n <= 0x1_0000_0000
      && (forall b: Word | InSpan(a, n, b) :: FirstMatch(b, m.regions) == i)
      && var st, off := m.stores[m.regions[i].store], a - m.regions[i].addr;
         (st.Rom? ==> |st.bytes| <= off || off + n <= |st.bytes|)
  }

  // Different regions have different memory objects behind them.
  ghost predicate Unaliased(m: Mem) {
    forall i, j | 0 <= i < j < |m.regions| :: m.regions[i].store != m.regions[j].store
  }

  lemma ContainedByShape(m: Mem, m': Mem, a: Word, n: nat)
    requires m.Valid() && m'.Valid() && Vm.SameShape(m, m')
    ensures Contained(m, a, n) <==> Contained(m', a, n)
  {
  }

  lemma FlatDomain(m: Mem, a: Word)
    requires m.Valid()
    ensures a in Flat(m) <==> Mapped(m, a)
    ensures a in Flat(m) ==> Flat(m)[a] == ByteAt(m, a)
    ensures a in Writable(m) <==> InRam(m, a)
  {
    hide Mapped, InRam, ByteAt;
  }

  // ---------------------------------------------------------------- bytes of an access

  // The k-th address of an access at a; it wraps at the top like the reference's.
  function AddressAt(a: Word, k: nat): Word {
    Wrap(a + k)
  }

  // How far b lies after a.
  function Past(a: Word, b: Word): Word {
    Wrap(b - a)
  }

  lemma PastAddress(a: Word, b: Word, k: nat)
    requires k < 0x1_0000_0000
    ensures Past(a, AddressAt(a, k)) == k && AddressAt(a, Past(a, b)) == b
  {
    hide Wrap;
    var base: int := a;
    WrapInside(base + k, -base);
    WrapInside(b - base, base);
    WrapWord(k);
    WrapWord(b);
  }

  lemma AddressItself(a: Word)
    ensures AddressAt(a, 0) == a
  {
  }

  lemma NextAddress(a: Word, k: nat)
    ensures AddressAt(Wrap(a + 1), k) == AddressAt(a, k + 1)
  {
    WrapInside(a + 1, k);
  }

  ghost predicate AllIn(domain: set<Word>, a: Word, n: nat) {
    forall k: nat | k < n :: AddressAt(a, k) in domain
  }

  lemma {:induction false} CoversAll(domain: set<Word>, a: Word, n: nat)
    ensures Isa.Covers(domain, a, n) <==> AllIn(domain, a, n)
    decreases n
  {
    hide AddressAt;
    if n > 0 {
      AddressItself(a);
      var next := Wrap(a + 1);
      CoversAll(domain, next, n - 1);
      forall k: nat
        ensures AddressAt(next, k) == AddressAt(a, k + 1)
      {
        NextAddress(a, k);
      }
      if AllIn(domain, next, n - 1) && a in domain {
        forall k: nat | k < n
          ensures AddressAt(a, k) in domain
        {
          assert k > 0 ==> AddressAt(next, k - 1) == AddressAt(a, k);
        }
      }
    }
  }

  lemma {:induction false} ValueOfAll(mem: map<Word, Byte>, a: Word, data: seq<Byte>)
    requires forall k: nat | k < |data| :: AddressAt(a, k) in mem && mem[AddressAt(a, k)] == data[k]
    ensures Isa.Covers(mem.Keys, a, |data|)
    ensures Isa.Value(mem, a, |data|) == Le(data)
    decreases |data|
  {
    hide Pow2, AddressAt;
    CoversAll(mem.Keys, a, |data|);
    if |data| > 0 {
      AddressItself(a);
      var next, rest := Wrap(a + 1), data[1..];
      forall k: nat | k < |rest|
        ensures AddressAt(next, k) in mem && mem[AddressAt(next, k)] == rest[k]
      {
        NextAddress(a, k);
        assert AddressAt(a, k + 1) in mem && mem[AddressAt(a, k + 1)] == data[k + 1];
      }
      ValueOfAll(mem, next, rest);
    }
  }

  lemma PastNext(a: Word, b: Word)
    ensures Past(a, b) == 0 <==> a == b
    ensures Past(a, b) > 0 ==> Past(Wrap(a + 1), b) == Past(a, b) - 1
    ensures Past(a, b) == 0 ==> Past(Wrap(a + 1), b) == 0xFFFF_FFFF
  {
  }

  lemma {:induction false} StoredAll(mem: map<Word, Byte>, a: Word, n: nat, v: nat, b: Word)
    requires n < 0x1_0000_0000
    ensures var mem' := Isa.Stored(mem, a, n, v);
      && (b in mem' <==> b in mem || Past(a, b) < n)
      && (Past(a, b) < n ==> mem'[b] == ToLe(v, n)[Past(a, b)])
      && (b in mem && Past(a, b) >= n ==> mem'[b] == mem[b])
    decreases n
  {
    hide Past;
    if n > 0 {
      PastNext(a, b);
      StoredAll(mem[a := v % 256], Wrap(a + 1), n - 1, v / 256, b);
    }
  }

  // ---------------------------------------------------------------- ranges that do not wrap

  predicate InSpan(a: Word, n: nat, b: Word) {
    a <= b < a + n
  }

  lemma SpanIsPast(a: Word, n: nat, b: Word)
    requires a + n <= 0x1_0000_0000
    ensures InSpan(a, n, b) <==> Past(a, b) < n
    ensures InSpan(a, n, b) ==> Past(a, b) == b - a
  {
  }

  lemma SpanAddress(a: Word, n: nat, k: nat)
    requires a + n <= 0x1_0000_0000 && k < n
    ensures AddressAt(a, k) == a + k && InSpan(a, n, a + k)
  {
  }

  lemma CoversSpan(domain: set<Word>, a: Word, n: nat)
    requires a + n <= 0x1_0000_0000
    ensures Isa.Covers(domain, a, n) <==> forall b: Word | InSpan(a, n, b) :: b in domain
  {
    hide AddressAt, Isa.Covers;
    CoversAll(domain, a, n);
    forall k: nat | k < n
      ensures AddressAt(a, k) == a + k && InSpan(a, n, a + k)
    {
      SpanAddress(a, n, k);
    }
    if AllIn(domain, a, n) {
      forall b: Word | InSpan(a, n, b)
        ensures b in domain
      {
        assert AddressAt(a, b - a) == b;
      }
    }
  }

  lemma ValueOfBytes(mem: map<Word, Byte>, a: Word, data: seq<Byte>)
    requires a + |data| <= 0x1_0000_0000
    requires forall b: Word | InSpan(a, |data|, b) :: b in mem && mem[b] == data[b - a]
    ensures Isa.Covers(mem.Keys, a, |data|)
    ensures Isa.Value(mem, a, |data|) == Le(data)
  {
    hide AddressAt, Isa.Covers, Isa.Value, Le;
    forall k: nat | k < |data|
      ensures AddressAt(a, k) in mem && mem[AddressAt(a, k)] == data[k]
    {
      SpanAddress(a, |data|, k);
    }
    ValueOfAll(mem, a, data);
  }

  lemma StoredBytes(mem: map<Word, Byte>, a: Word, n: nat, v: nat, b: Word)
    requires a + n <= 0x1_0000_0000 && n < 0x1_0000_0000
    ensures var mem' := Isa.Stored(mem, a, n, v);
      && (b in mem' <==> b in mem || InSpan(a, n, b))
      && (InSpan(a, n, b) ==> mem'[b] == ToLe(v, n)[b - a])
      && (b in mem && !InSpan(a, n, b) ==> mem'[b] == mem[b])
  {
    hide Isa.Stored, ToLe, Past;
    SpanIsPast(a, n, b);
    StoredAll(mem, a, n, v, b);
  }

  // ---------------------------------------------------------------- reads

  ghost predicate AllMapped(m: Mem, a: Word, n: nat)
    requires m.Valid()
  {
    forall k: nat | k < n :: Mapped(m, AddressAt(a, k))
  }

  // The byte the k-th address resolves to on its own.
  ghost predicate Shows(m: Mem, a: Word, k: nat, v: Byte)
    requires m.Valid()
  {
    Mapped(m, AddressAt(a, k)) && ByteAt(m, AddressAt(a, k)) == v
  }

  ghost predicate ShowsAll(m: Mem, a: Word, data: seq<Byte>)
    requires m.Valid()
  {
    forall k: nat | k < |data| :: Shows(m, a, k, data[k])
  }

  // When a read of n bytes is a read of the flat address space. It goes to the first
  // region of its first byte. Inside that region's store, every address must resolve
  // to the same byte on its own; past the end of RAM some address must resolve to
  // nothing; past the end of a file every address must resolve to a zero. Where the
  // 32-bit end wrapped it never is. Without `exact` only success counts.
  ghost predicate HonestRead(m: Mem, a: Word, n: nat, exact: bool)
    requires m.Valid()
  {
    var i := FirstMatch(a, m.regions);
    i < |m.regions| ==>
      var st, off := m.stores[m.regions[i].store], a - m.regions[i].addr;
      if Wrap(off + n) > |st.bytes| then
        if st.Ram? then !AllMapped(m, a, n)
        else AllMapped(m, a, n) && (exact ==> ShowsAll(m, a, Zeros(n)))
      else
        off + n <= |st.bytes| && AllMapped(m, a, n) && (exact ==> ShowsAll(m, a, st.bytes[off..off + n]))
  }

  // Agreement of a read with the little-endian read of the flat address space.
  ghost predicate ReadAgrees(m: Mem, a: Word, n: nat, exact: bool)
    requires m.Valid()
  {
    var r := MemRead(m, a, n);
    && r.err != Undefined
    && (r.err == EOK <==> Isa.Covers(Flat(m).Keys, a, n))
    && (r.err == EOK && exact ==> Isa.Value(Flat(m), a, n) == Le(r.data))
  }

  lemma {:induction false} LeInjective(p: seq<Byte>, q: seq<Byte>)
    requires |p| == |q| && Le(p) == Le(q)
    ensures p == q
  {
    hide Pow2;
    if p != [] {
      LeInjective(p[1..], q[1..]);
      assert p == [p[0]] + p[1..] && q == [q[0]] + q[1..];
    }
  }

  lemma CoversIffMapped(m: Mem, a: Word, n: nat)
    requires m.Valid()
    ensures Isa.Covers(Flat(m).Keys, a, n) <==> AllMapped(m, a, n)
  {
    hide Flat, Mapped, Isa.Covers, AddressAt;
    CoversAll(Flat(m).Keys, a, n);
    forall b: Word
      ensures b in Flat(m) <==> Mapped(m, b)
    {
      FlatDomain(m, b);
    }
  }

  lemma ValueIffShows(m: Mem, a: Word, data: seq<Byte>)
    requires m.Valid() && AllMapped(m, a, |data|)
    ensures Isa.Covers(Flat(m).Keys, a, |data|)
    ensures Isa.Value(Flat(m), a, |data|) == Le(data) <==> ShowsAll(m, a, data)
  {
    hide Flat, Mapped, ByteAt, Isa.Covers, Isa.Value, AddressAt, Le;
    var seen := seq(|data|, k requires 0 <= k < |data| => ByteAt(m, AddressAt(a, k)));
    forall k: nat | k < |data|
      ensures AddressAt(a, k) in Flat(m) && Flat(m)[AddressAt(a, k)] == seen[k]
    {
      FlatDomain(m, AddressAt(a, k));
    }
    ValueOfAll(Flat(m), a, seen);
    if Le(seen) == Le(data) {
      LeInjective(seen, data);
    }
    if ShowsAll(m, a, data) {
      assert seen == data;
    }
  }

  // The branches of a read, by where it ends.
  lemma ReadCases(m: Mem, a: Word, n: nat)
    requires m.Valid()
    ensures var r, i := MemRead(m, a, n), FirstMatch(a, m.regions);
      if i == |m.regions| then r.err == EFAULT && !Mapped(m, a)
      else
        var st, off := m.stores[m.regions[i].store], a - m.regions[i].addr;
        if Wrap(off + n) > |st.bytes| then
          if st.Ram? then r.err == ERANGE else r == Bytes(EOK, Zeros(n))
        else if off + n > |st.bytes| then r.err == Undefined
        else r == Bytes(EOK, st.bytes[off..off + n])
  {
    hide FirstMatch;
  }

  // What honesty says about the outcome.
  lemma HonestReadMeans(m: Mem, a: Word, n: nat, exact: bool)
    requires m.Valid() && n > 0
    ensures var r := MemRead(m, a, n);
      HonestRead(m, a, n, exact) <==>
      r.err != Undefined && (r.err == EOK <==> AllMapped(m, a, n)) && (r.err == EOK && exact ==> ShowsAll(m, a, r.data))
  {
    hide FirstMatch, Mapped, ByteAt, MemRead, AllMapped, ShowsAll, Zeros;
    ReadCases(m, a, n);
    if AllMapped(m, a, n) {
      FirstAddress(m, a, n);
    }
  }

  // A read agrees with the flat address space exactly when it is honest.
  lemma ReadAgreesIff(m: Mem, a: Word, n: nat, exact: bool)
    requires m.Valid() && n > 0
    ensures ReadAgrees(m, a, n, exact) <==> HonestRead(m, a, n, exact)
  {
    hide FirstMatch, Flat, HonestRead, AllMapped, ShowsAll, MemRead, Isa.Covers, Isa.Value, Le;
    HonestReadMeans(m, a, n, exact);
    CoversIffMapped(m, a, n);
    var r := MemRead(m, a, n);
    if AllMapped(m, a, n) && r.err == EOK {
      ValueIffShows(m, a, r.data);
    }
  }

  lemma FirstAddress(m: Mem, a: Word, n: nat)
    requires m.Valid() && n > 0 && AllMapped(m, a, n)
    ensures Mapped(m, a)
  {
    hide Mapped;
    assert Mapped(m, AddressAt(a, 0)) && AddressAt(a, 0) == a;
  }

  lemma ZerosValue(n: nat)
    ensures |Zeros(n)| == n && forall k: nat | k < n :: Zeros(n)[k] == 0
  {
  }

  // ---------------------------------------------------------------- writes

  ghost predicate AllInRam(m: Mem, a: Word, n: nat)
    requires m.Valid()
  {
    forall k: nat | k < n :: InRam(m, AddressAt(a, k))
  }

  // What a successful write of data at a makes of the byte b resolves to: the cells
  // from off on, in the store behind the first region of a, are replaced.
  ghost function ByteAfter(m: Mem, a: Word, data: seq<Byte>, b: Word): Byte
    requires m.Valid() && Mapped(m, b) && FirstMatch(a, m.regions) < |m.regions|
  {
    var r, q := m.regions[FirstMatch(a, m.regions)], m.regions[FirstMatch(b, m.regions)];
    var cell := b - q.addr - (a - r.addr);
    if q.store == r.store && 0 <= cell < |data| then data[cell] else ByteAt(m, b)
  }

  // What a write to the flat address space would make of it.
  ghost function ByteWanted(m: Mem, a: Word, data: seq<Byte>, b: Word): Byte
    requires m.Valid() && Mapped(m, b)
  {
    if Past(a, b) < |data| then data[Past(a, b)] else ByteAt(m, b)
  }

  ghost predicate LandsRight(m: Mem, a: Word, data: seq<Byte>)
    requires m.Valid() && FirstMatch(a, m.regions) < |m.regions|
  {
    forall b: Word | Mapped(m, b) :: ByteAfter(m, a, data, b) == ByteWanted(m, a, data, b)
  }

  // When a write of data at a is a write to the flat address space. A write to no
  // region or to a file is refused on both sides. Past the end of RAM some address
  // must not be RAM. Inside, every address must be RAM, and each mapped byte must end
  // up as wanted, whichever region and store it resolves to.
  ghost predicate HonestWrite(m: Mem, a: Word, data: seq<Byte>)
    requires m.Valid()
  {
    var i := FirstMatch(a, m.regions);
    i < |m.regions| && m.stores[m.regions[i].store].Ram? ==>
      var st, off := m.stores[m.regions[i].store], a - m.regions[i].addr;
      if Wrap(off + |data|) > |st.bytes| then !AllInRam(m, a, |data|)
      else off + |data| <= |st.bytes| && AllInRam(m, a, |data|) && LandsRight(m, a, data)
  }

  // Agreement of a write of the n low bytes of v with the reference's store.
  ghost predicate WriteAgrees(m: Mem, a: Word, n: nat, v: nat)
    requires m.Valid()
  {
    var w := MemWrite(m, a, ToLe(v, n));
    && w.err != Undefined
    && (w.err == EOK <==> Isa.Covers(Writable(m), a, n))
    && (w.err == EOK ==> Flat(w.target) == Isa.Stored(Flat(m), a, n, v) && Writable(w.target) == Writable(m))
  }

  lemma CoversIffInRam(m: Mem, a: Word, n: nat)
    requires m.Valid()
    ensures Isa.Covers(Writable(m), a, n) <==> AllInRam(m, a, n)
  {
    hide Writable, InRam, Isa.Covers, AddressAt;
    CoversAll(Writable(m), a, n);
    forall b: Word
      ensures b in Writable(m) <==> InRam(m, b)
    {
      FlatDomain(m, b);
    }
  }

  lemma WriteTarget(m: Mem, a: Word, data: seq<Byte>)
    requires m.Valid() && MemWrite(m, a, data).err == EOK
    ensures var m', i := MemWrite(m, a, data).target, FirstMatch(a, m.regions);
      && i < |m.regions| && m'.Valid() && m'.regions == m.regions && |m'.stores| == |m.stores|
      && var r := m.regions[i];
         && m.stores[r.store].Ram? && a - r.addr + |data| <= |m.stores[r.store].bytes|
         && m'.stores == m.stores[r.store := Ram(Patch(m.stores[r.store].bytes, a - r.addr, data))]
  {
    hide FirstMatch, Patch;
  }

  // After a successful write, byte by byte, over any map.
  lemma ByteAfterWrite(m: Mem, a: Word, data: seq<Byte>, b: Word)
    requires m.Valid() && MemWrite(m, a, data).err == EOK
    ensures FirstMatch(a, m.regions) < |m.regions|
    ensures var m' := MemWrite(m, a, data).target;
      && (Mapped(m', b) <==> Mapped(m, b)) && (InRam(m', b) <==> InRam(m, b))
      && (Mapped(m, b) ==> ByteAt(m', b) == ByteAfter(m, a, data, b))
  {
    hide FirstMatch, MemWrite;
    WriteTarget(m, a, data);
  }

  // The branches of a write, by where it goes.
  lemma WriteCases(m: Mem, a: Word, data: seq<Byte>)
    requires m.Valid()
    ensures var w, i := MemWrite(m, a, data), FirstMatch(a, m.regions);
      if i == |m.regions| then w.err == EFAULT && !InRam(m, a)
      else
        var st, off := m.stores[m.regions[i].store], a - m.regions[i].addr;
        if st.Rom? then w.err == EACCESS && !InRam(m, a)
        else if Wrap(off + |data|) > |st.bytes| then w.err == ERANGE
        else if off + |data| > |st.bytes| then w.err == Undefined
        else w.err == EOK
  {
    hide FirstMatch;
  }

  lemma StoredIffLands(m: Mem, a: Word, n: nat, v: nat)
    requires m.Valid() && n < 0x1_0000_0000 && MemWrite(m, a, ToLe(v, n)).err == EOK && AllInRam(m, a, n)
    ensures FirstMatch(a, m.regions) < |m.regions|
    ensures var m' := MemWrite(m, a, ToLe(v, n)).target;
      && Writable(m') == Writable(m)
      && (Flat(m') == Isa.Stored(Flat(m), a, n, v) <==> LandsRight(m, a, ToLe(v, n)))
  {
    hide FirstMatch, Flat, Writable, ByteAt, ByteAfter, MemWrite, Mapped, Isa.Stored, ToLe, Past, AddressAt;
    var data, m' := ToLe(v, n), MemWrite(m, a, ToLe(v, n)).target;
    var flat := Isa.Stored(Flat(m), a, n, v);
    WriteCases(m, a, data);
    forall b: Word
      ensures b in Writable(m') <==> b in Writable(m)
      ensures b in Flat(m') <==> Mapped(m, b)
      ensures b in flat <==> Mapped(m, b)
      ensures Mapped(m, b) ==>
        Flat(m')[b] == ByteAfter(m, a, data, b) && flat[b] == ByteWanted(m, a, data, b)
    {
      FlatDomain(m, b);
      FlatDomain(m', b);
      ByteAfterWrite(m, a, data, b);
      StoredAll(Flat(m), a, n, v, b);
      PastAddress(a, b, 0);
      assert Past(a, b) < n ==> InRam(m, AddressAt(a, Past(a, b)));
    }
    assert Writable(m') == Writable(m);
    if LandsRight(m, a, data) {
      assert Flat(m') == flat;
    }
    if Flat(m') == flat {
      assert forall b: Word | Mapped(m, b) :: Flat(m')[b] == flat[b];
    }
  }

  // A write agrees with the flat address space exactly when it is honest: over any
  // map, aliased or not.
  lemma WriteAgreesIff(m: Mem, a: Word, n: nat, v: nat)
    requires m.Valid() && 0 < n < 0x1_0000_0000
    ensures WriteAgrees(m, a, n, v) <==> HonestWrite(m, a, ToLe(v, n))
  {
    hide FirstMatch, Flat, Writable, InRam, MemWrite, LandsRight, Isa.Covers, Isa.Stored, ToLe, AllInRam;
    WriteCases(m, a, ToLe(v, n));
    CoversIffInRam(m, a, n);
    if AllInRam(m, a, n) {
      FirstInRam(m, a, n);
      if MemWrite(m, a, ToLe(v, n)).err == EOK {
        StoredIffLands(m, a, n, v);
      }
    }
  }

  lemma FirstInRam(m: Mem, a: Word, n: nat)
    requires m.Valid() && n > 0 && AllInRam(m, a, n)
    ensures InRam(m, a)
  {
    hide InRam;
    assert InRam(m, AddressAt(a, 0)) && AddressAt(a, 0) == a;
  }

  // ---------------------------------------------------------------- contained accesses

  lemma InsideRegion(m: Mem, a: Word, n: nat, b: Word)
    requires m.Valid() && Contained(m, a, n) && InSpan(a, n, b)
    requires FirstMatch(a, m.regions) < |m.regions|
    ensures var r := m.regions[FirstMatch(a, m.regions)];
      && FirstMatch(b, m.regions) == FirstMatch(a, m.regions)
      && r.addr <= a && b - r.addr < 0xFFFF_FFFF
      && (Mapped(m, b) <==> (m.stores[r.store].Ram? ==> b - r.addr < |m.stores[r.store].bytes|))
      && (InRam(m, b) <==> m.stores[r.store].Ram? && b - r.addr < |m.stores[r.store].bytes|)
  {
    hide FirstMatch;
    assert Match(b, m.regions[FirstMatch(a, m.regions)]);
  }

  lemma ContainedEnd(m: Mem, a: Word, n: nat)
    requires m.Valid() && Contained(m, a, n) && FirstMatch(a, m.regions) < |m.regions|
    ensures a + n <= 0x1_0000_0000
  {
    hide FirstMatch;
  }

  // The address, the mapping and the byte at each place of a contained access.
  lemma InsideAddress(m: Mem, a: Word, n: nat, k: nat)
    requires m.Valid() && Contained(m, a, n) && k < n
    requires FirstMatch(a, m.regions) < |m.regions|
    ensures a + n <= 0x1_0000_0000
    ensures var r, b := m.regions[FirstMatch(a, m.regions)], AddressAt(a, k);
      var st, off := m.stores[r.store], a - r.addr;
      && off + n < 0x1_0000_0000
      && (InRam(m, b) <==> st.Ram? && off + k < |st.bytes|)
      && (Mapped(m, b) <==> (st.Ram? ==> off + k < |st.bytes|))
      && (Mapped(m, b) ==> ByteAt(m, b) == if off + k < |st.bytes| then st.bytes[off + k] else 0)
  {
    hide FirstMatch, Contained, Mapped, InRam, AddressAt, InSpan;
    ContainedEnd(m, a, n);
    SpanAddress(a, n, k);
    InsideRegion(m, a, n, AddressAt(a, k));
    SpanAddress(a, n, n - 1);
    InsideRegion(m, a, n, AddressAt(a, n - 1));
  }

  lemma ContainedMapped(m: Mem, a: Word, n: nat)
    requires m.Valid() && Contained(m, a, n) && n > 0 && FirstMatch(a, m.regions) < |m.regions|
    ensures var r := m.regions[FirstMatch(a, m.regions)];
      var st, off := m.stores[r.store], a - r.addr;
      && off + n < 0x1_0000_0000 && (st.Rom? ==> |st.bytes| <= off || off + n <= |st.bytes|)
      && (AllMapped(m, a, n) <==> (st.Ram? ==> off + n <= |st.bytes|))
  {
    assert var r := m.regions[FirstMatch(a, m.regions)];
      var st, off := m.stores[r.store], a - r.addr;
      st.Rom? ==> |st.bytes| <= off || off + n <= |st.bytes|;
    hide FirstMatch, Mapped, InRam, ByteAt, Contained, AddressAt;
    forall k: nat | k < n
      ensures var r := m.regions[FirstMatch(a, m.regions)];
        Mapped(m, AddressAt(a, k)) <==> (m.stores[r.store].Ram? ==> a - r.addr + k < |m.stores[r.store].bytes|)
    {
      InsideAddress(m, a, n, k);
    }
    InsideAddress(m, a, n, n - 1);
  }

  lemma ContainedShows(m: Mem, a: Word, data: seq<Byte>)
    requires m.Valid() && Contained(m, a, |data|) && AllMapped(m, a, |data|) && FirstMatch(a, m.regions) < |m.regions|
    requires var r := m.regions[FirstMatch(a, m.regions)];
      var bytes, off := m.stores[r.store].bytes, a - r.addr;
      forall k: nat | k < |data| :: data[k] == if off + k < |bytes| then bytes[off + k] else 0
    ensures ShowsAll(m, a, data)
  {
    hide FirstMatch, Mapped, InRam, ByteAt, Contained, AddressAt;
    forall k: nat | k < |data|
      ensures Shows(m, a, k, data[k])
    {
      InsideAddress(m, a, |data|, k);
    }
  }

  lemma ContainedReadIsHonest(m: Mem, a: Word, n: nat, exact: bool)
    requires m.Valid() && Contained(m, a, n) && n > 0
    ensures HonestRead(m, a, n, exact)
  {
    hide FirstMatch, AllMapped, ShowsAll, Contained, Zeros;
    var i := FirstMatch(a, m.regions);
    if i < |m.regions| {
      var st, off := m.stores[m.regions[i].store], a - m.regions[i].addr;
      ContainedMapped(m, a, n);
      WrapWord(off + n);
      ZerosValue(n);
      if AllMapped(m, a, n) {
        ContainedShows(m, a, if off + n <= |st.bytes| then st.bytes[off..off + n] else Zeros(n));
      }
    }
  }

  lemma ContainedInRam(m: Mem, a: Word, n: nat)
    requires m.Valid() && Contained(m, a, n) && n > 0 && FirstMatch(a, m.regions) < |m.regions|
    ensures var r := m.regions[FirstMatch(a, m.regions)];
      var st, off := m.stores[r.store], a - r.addr;
      off + n < 0x1_0000_0000 && (AllInRam(m, a, n) <==> st.Ram? && off + n <= |st.bytes|)
  {
    hide FirstMatch, Mapped, InRam, ByteAt, Contained, AddressAt;
    forall k: nat | k < n
      ensures var r := m.regions[FirstMatch(a, m.regions)];
        InRam(m, AddressAt(a, k)) <==> m.stores[r.store].Ram? && a - r.addr + k < |m.stores[r.store].bytes|
    {
      InsideAddress(m, a, n, k);
    }
    InsideAddress(m, a, n, n - 1);
  }

  lemma ContainedWriteIsHonest(m: Mem, a: Word, data: seq<Byte>)
    requires m.Valid() && Contained(m, a, |data|) && Unaliased(m) && data != []
    ensures HonestWrite(m, a, data)
  {
    hide FirstMatch, Contained, Unaliased, AllInRam, LandsRight;
    var i := FirstMatch(a, m.regions);
    if i < |m.regions| {
      ContainedInRam(m, a, |data|);
      ContainedLands(m, a, data);
      WrapWord(a - m.regions[i].addr + |data|);
    }
  }

  lemma ContainedLandsByte(m: Mem, a: Word, data: seq<Byte>, b: Word)
    requires m.Valid() && Contained(m, a, |data|) && Unaliased(m) && data != [] && Mapped(m, b)
    requires FirstMatch(a, m.regions) < |m.regions|
    ensures ByteAfter(m, a, data, b) == ByteWanted(m, a, data, b)
  {
    hide FirstMatch, ByteAt, Past;
    SpanIsPast(a, |data|, b);
    var i, j := FirstMatch(a, m.regions), FirstMatch(b, m.regions);
    if j != i {
      assert m.regions[i].store != m.regions[j].store;
      assert !InSpan(a, |data|, b);
    }
  }

  lemma ContainedLands(m: Mem, a: Word, data: seq<Byte>)
    requires m.Valid() && Contained(m, a, |data|) && Unaliased(m) && data != []
    requires FirstMatch(a, m.regions) < |m.regions|
    ensures LandsRight(m, a, data)
  {
    hide FirstMatch, Contained, Unaliased, Mapped, ByteAfter, ByteWanted;
    forall b: Word | Mapped(m, b)
      ensures ByteAfter(m, a, data, b) == ByteWanted(m, a, data, b)
    {
      ContainedLandsByte(m, a, data, b);
    }
  }
}
