/** The memory map: an ordered list of regions over backing stores, searched
    for the first region that contains an address. */
module Memory {
  import opened Words

  /** The error codes the modelled code returns. `Undefined` is not one of them:
      it stands for executions that C++ gives no meaning (a copy past the end of
      a vector after the 32-bit sum `addr + len` wrapped, a shift by 32 or more). */
  datatype Err = EOK | ERANGE | EUNDEF | EININST | EACCESS | EFAULT | Undefined

  datatype Store = Ram(bytes: seq<Byte>) | Rom(bytes: seq<Byte>)

  // `store` is the handle of the memory object behind the region.
  datatype Region = Region(addr: Word, len: Word, store: nat)

  datatype Mem = Mem(regions: seq<Region>, stores: seq<Store>) {
    ghost predicate Valid() {
      forall r | r in regions :: r.store < |stores|
    }
  }

  datatype Bytes = Bytes(err: Err, data: seq<Byte>)

  // ---------------------------------------------------------------- lookup

  predicate Match(a: Word, r: Region) {
    r.addr <= a < Wrap(r.addr + r.len)
  }

  // The address after the last one `Match` accepts.
  function End(r: Region): int {
    if r.addr + r.len < 0x1_0000_0000 then r.addr + r.len else r.addr
  }

  // A region that reaches the top of the address space contains nothing at all.
  lemma MatchIsExtent(a: Word, r: Region)
    ensures Match(a, r) <==> r.addr <= a < End(r)
    ensures r.addr + r.len >= 0x1_0000_0000 ==> !Match(a, r)
  {
  }

  // The index of the first region containing `a`, or |rs|.
  function FirstMatch(a: Word, rs: seq<Region>): (i: nat)
    ensures i <= |rs|
    ensures i < |rs| ==> Match(a, rs[i])
    ensures forall j | 0 <= j < i :: !Match(a, rs[j])
  {
    if rs == [] then 0 else if Match(a, rs[0]) then 0 else 1 + FirstMatch(a, rs[1..])
  }

  // ---------------------------------------------------------------- registration

  // The test `add_mem` applies to each earlier region.
  predicate Clashes(addr: Word, len: Word, r: Region) {
    || r.addr == addr
    || r.addr < addr < Wrap(r.addr + r.len)
    || r.addr < Wrap(addr + len) < Wrap(r.addr + r.len)
  }

  function AddRegion(rs: seq<Region>, r: Region): seq<Region> {
    if exists q | q in rs :: Clashes(r.addr, r.len, q) then rs else rs + [r]
  }

  function AddRegions(rs: seq<Region>, requests: seq<Region>): seq<Region>
    decreases |requests|
  {
    if requests == [] then rs else AddRegions(AddRegion(rs, requests[0]), requests[1..])
  }

  ghost predicate Apart(p: Region, q: Region) {
    forall a: Word :: !(Match(a, p) && Match(a, q))
  }

  ghost predicate Encloses(outer: Region, inner: Region) {
    outer.addr < inner.addr && End(inner) <= End(outer)
  }

  ghost predicate Laminar(rs: seq<Region>) {
    forall i, j | 0 <= i < j < |rs| :: Apart(rs[i], rs[j]) || Encloses(rs[j], rs[i])
  }

  // What `add_mem` decides: q is let in after p only when it is disjoint from p or
  // strictly around it, and always then when both are non-empty and end below 2^32.
  lemma AdmissionIsNesting(p: Region, q: Region)
    ensures !Clashes(q.addr, q.len, p) ==> Apart(p, q) || Encloses(q, p)
    ensures 0 < p.len && p.addr + p.len < 0x1_0000_0000 && 0 < q.len && q.addr + q.len < 0x1_0000_0000 ==>
      (!Clashes(q.addr, q.len, p) <==> Apart(p, q) || Encloses(q, p))
  {
    if !Apart(p, q) {
      var a: Word :| Match(a, p) && Match(a, q);
    } else if 0 < p.len && 0 < q.len {
      assert !(Match(p.addr, p) && Match(p.addr, q));
      assert !(Match(q.addr, p) && Match(q.addr, q));
    }
  }

  lemma AddRegionLaminar(rs: seq<Region>, r: Region)
    requires Laminar(rs)
    ensures Laminar(AddRegion(rs, r))
  {
    var out := AddRegion(rs, r);
    if out != rs {
      forall i, j | 0 <= i < j < |out|
        ensures Apart(out[i], out[j]) || Encloses(out[j], out[i])
      {
        if j == |rs| {
          assert out[i] in rs;
          assert !Clashes(r.addr, r.len, out[i]);
        }
      }
    }
  }

  lemma {:induction false} AddRegionsLaminar(rs: seq<Region>, requests: seq<Region>)
    requires Laminar(rs)
    ensures Laminar(AddRegions(rs, requests))
    decreases |requests|
  {
    if requests != [] {
      AddRegionLaminar(rs, requests[0]);
      AddRegionsLaminar(AddRegion(rs, requests[0]), requests[1..]);
    }
  }

  // Whatever calls of `add_mem` built the list, wrapping requests included, the
  // region found first is strictly inside every other region containing the address.
  lemma FirstMatchIsInnermost(requests: seq<Region>, a: Word, j: nat)
    requires var rs := AddRegions([], requests);
      j < |rs| && Match(a, rs[j])
    ensures var rs := AddRegions([], requests);
      var i := FirstMatch(a, rs);
      i <= j && (i < j ==> Encloses(rs[j], rs[i]))
  {
    AddRegionsLaminar([], requests);
    var rs := AddRegions([], requests);
    var i := FirstMatch(a, rs);
    if i < j {
      assert Match(a, rs[i]) && Match(a, rs[j]);
    }
  }

  // Registration is not a disjointness test: a region around an earlier one is admitted.
  lemma NestedRegionsAdmitted()
    ensures var rs := AddRegions([], [Region(0x100, 0x10, 0), Region(0, 0x1000, 1)]);
      |rs| == 2 && Match(0x108, rs[0]) && Match(0x108, rs[1]) && !Apart(rs[0], rs[1])
  {
    var inner, outer := Region(0x100, 0x10, 0), Region(0, 0x1000, 1);
    assert AddRegion([], inner) == [inner];
    assert AddRegion([inner], outer) == [inner, outer];
    assert [inner, outer][1..] == [outer];
    assert AddRegions([inner], [outer]) == AddRegions([inner, outer], []);
    assert Match(0x108, inner) && Match(0x108, outer);
  }

  // ---------------------------------------------------------------- access

  function Zeros(n: nat): seq<Byte> {
    seq(n, _ => 0)
  }

  // mem_ram::read and mem_rom::read: the bound is tested on the 32-bit sum.
  function StoreRead(st: Store, off: Word, n: nat): Bytes {
    if Wrap(off + n) > |st.bytes| then
      if st.Ram? then Bytes(ERANGE, []) else Bytes(EOK, Zeros(n))
    else if off + n > |st.bytes| then Bytes(Undefined, [])
    else Bytes(EOK, st.bytes[off..off + n])
  }

  datatype Written<T> = Written(err: Err, target: T)

  function Patch(bytes: seq<Byte>, off: nat, data: seq<Byte>): seq<Byte>
    requires off + |data| <= |bytes|
  {
    bytes[..off] + data + bytes[off + |data|..]
  }

  function StoreWrite(st: Store, off: Word, data: seq<Byte>): Written<Store> {
    if st.Rom? then Written(EACCESS, st)
    else if Wrap(off + |data|) > |st.bytes| then Written(ERANGE, st)
    else if off + |data| > |st.bytes| then Written(Undefined, st)
    else Written(EOK, Ram(Patch(st.bytes, off, data)))
  }

  function MemRead(m: Mem, a: Word, n: nat): (r: Bytes)
    requires m.Valid()
    ensures r.err == EOK ==> |r.data| == n
  {
    var i := FirstMatch(a, m.regions);
    if i == |m.regions| then Bytes(EFAULT, [])
    else StoreRead(m.stores[m.regions[i].store], a - m.regions[i].addr, n)
  }

  function MemWrite(m: Mem, a: Word, data: seq<Byte>): (w: Written<Mem>)
    requires m.Valid()
    ensures w.target.Valid() && w.target.regions == m.regions && |w.target.stores| == |m.stores|
    ensures w.err != EOK ==> w.target == m
  {
    var i := FirstMatch(a, m.regions);
    if i == |m.regions| then Written(EFAULT, m)
    else
      var h := m.regions[i].store;
      var st := StoreWrite(m.stores[h], a - m.regions[i].addr, data);
      if st.err == EOK then Written(EOK, m.(stores := m.stores[h := st.target])) else Written(st.err, m)
  }

  // The undefined copies need a region of nearly the whole address space.
  lemma UndefinedNeedsHugeRegion(m: Mem, a: Word, n: nat)
    requires m.Valid() && n <= 4
    requires forall r | r in m.regions :: r.len <= 0xFFFF_FFFC
    ensures MemRead(m, a, n).err != Undefined
    ensures forall data: seq<Byte> | |data| == n :: MemWrite(m, a, data).err != Undefined
  {
    var i := FirstMatch(a, m.regions);
    if i < |m.regions| {
      assert m.regions[i] in m.regions;
    }
  }

  // A successful write changes exactly the addressed bytes of exactly one store,
  // and reading the same address and width gives them back.
  lemma WriteThenRead(m: Mem, a: Word, data: seq<Byte>)
    requires m.Valid() && MemWrite(m, a, data).err == EOK
    ensures var m' := MemWrite(m, a, data).target;
      var i := FirstMatch(a, m.regions);
      && i < |m.regions|
      && MemRead(m', a, |data|) == Bytes(EOK, data)
      && var h, off := m.regions[i].store, a - m.regions[i].addr;
         && (forall k | 0 <= k < |m.stores| && k != h :: m'.stores[k] == m.stores[k])
         && m.stores[h].Ram? && m'.stores[h].Ram? && |m'.stores[h].bytes| == |m.stores[h].bytes|
         && off + |data| <= |m.stores[h].bytes|
         && (forall k | 0 <= k < |m.stores[h].bytes| ::
               m'.stores[h].bytes[k] == if off <= k < off + |data| then data[k - off] else m.stores[h].bytes[k])
  {
    var m' := MemWrite(m, a, data).target;
    var i := FirstMatch(a, m.regions);
    var h, off := m.regions[i].store, a - m.regions[i].addr;
    assert m'.stores[h].bytes[off..off + |data|] == data;
  }
}
