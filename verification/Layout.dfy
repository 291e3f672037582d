/** What the layout alone decides about an access: the regions, the kinds and lengths of
    the memory objects behind them, and the contents of the read-only ones. */
module Layout {
  import opened Words
  import opened Memory
  import opened FlatMemory
  import opened Vm

  // Regions have memory objects of their own and leave room for a word below 2^32.
  // The objects may be of either kind, and shorter or longer than their regions.
  ghost predicate Roomy(m: Mem) {
    && m.Valid() && Unaliased(m)
    && forall i | 0 <= i < |m.regions| :: m.regions[i].addr + m.regions[i].len < 0xFFFF_FFFC
  }

  function Where(m: Mem, a: Word, k: nat): nat {
    FirstMatch(AddressAt(a, k), m.regions)
  }

  // The k-th address shows v, out of a read-only object or past its end.
  ghost predicate Fixed(m: Mem, a: Word, k: nat, v: Byte)
    requires m.Valid()
  {
    Shows(m, a, k, v) && m.stores[m.regions[Where(m, a, k)].store].Rom?
  }

  // No region at all. Or, past the end of RAM, a gap; past the end of a file, fixed
  // zeros. Or, inside, no address that another region takes; but for a file, another
  // may take it that shows the same fixed byte.
  ghost predicate Straight(m: Mem, a: Word, n: nat)
    requires m.Valid()
  {
    var i := FirstMatch(a, m.regions);
    i < |m.regions| ==>
      var st, off := m.stores[m.regions[i].store], a - m.regions[i].addr;
      if off + n > |st.bytes| then
        if st.Ram? then !AllMapped(m, a, n) else forall k: nat | k < n :: Fixed(m, a, k, 0)
      else
        forall k: nat | k < n :: Where(m, a, k) == i || (st.Rom? && Fixed(m, a, k, st.bytes[off..off + n][k]))
  }

  // For writes: no region or a file, which refuses; past the end of RAM, an address that
  // is not RAM; inside, no address that another region takes.
  ghost predicate StraightWrite(m: Mem, a: Word, n: nat)
    requires m.Valid()
  {
    var i := FirstMatch(a, m.regions);
    i < |m.regions| && m.stores[m.regions[i].store].Ram? ==>
      var st, off := m.stores[m.regions[i].store], a - m.regions[i].addr;
      if off + n > |st.bytes| then !AllInRam(m, a, n) else forall k: nat | k < n :: Where(m, a, k) == i
  }

  // ---------------------------------------------------------------- shapes

  lemma RoomyBounds(m: Mem, a: Word, n: nat)
    requires Roomy(m) && n <= 4 && FirstMatch(a, m.regions) < |m.regions|
    ensures var r := m.regions[FirstMatch(a, m.regions)];
      0 <= a - r.addr < r.len && Wrap(a - r.addr + n) == a - r.addr + n && a + n < 0x1_0000_0000
  {
    hide FirstMatch;
    assert Match(a, m.regions[FirstMatch(a, m.regions)]);
  }

  // With room for the end of the access, the branches of an honest read do not wrap.
  lemma RoomyRead(m: Mem, a: Word, n: nat)
    requires Roomy(m) && 0 < n <= 4 && FirstMatch(a, m.regions) < |m.regions|
    ensures var r := m.regions[FirstMatch(a, m.regions)];
      var st, off := m.stores[r.store], a - r.addr;
      && off >= 0
      && (HonestRead(m, a, n, true) <==>
          if off + n > |st.bytes| then
            if st.Ram? then !AllMapped(m, a, n) else AllMapped(m, a, n) && ShowsAll(m, a, Zeros(n))
          else AllMapped(m, a, n) && ShowsAll(m, a, st.bytes[off..off + n]))
  {
    RoomyBounds(m, a, n);
    hide FirstMatch, AllMapped, ShowsAll, Zeros, Wrap;
  }

  lemma ShapeMapped(m: Mem, m': Mem, b: Word)
    requires m.Valid() && m'.Valid() && SameShape(m, m')
    ensures Mapped(m', b) <==> Mapped(m, b)
    ensures InRam(m', b) <==> InRam(m, b)
    ensures Mapped(m, b) && m.stores[m.regions[FirstMatch(b, m.regions)].store].Rom? ==> ByteAt(m', b) == ByteAt(m, b)
  {
    hide FirstMatch;
  }

  lemma ShapeAllMapped(m: Mem, m': Mem, a: Word, n: nat)
    requires m.Valid() && m'.Valid() && SameShape(m, m')
    ensures AllMapped(m', a, n) <==> AllMapped(m, a, n)
  {
    hide Mapped, SameShape, AddressAt;
    forall k: nat
      ensures Mapped(m', AddressAt(a, k)) <==> Mapped(m, AddressAt(a, k))
    {
      ShapeMapped(m, m', AddressAt(a, k));
    }
  }

  // A fixed byte is shown whatever RAM holds.
  lemma FixedShows(m: Mem, m': Mem, a: Word, k: nat, v: Byte)
    requires m.Valid() && m'.Valid() && SameShape(m, m') && Fixed(m, a, k, v)
    ensures Shows(m', a, k, v)
  {
    hide FirstMatch, Mapped, ByteAt, SameShape, AddressAt;
    ShapeMapped(m, m', AddressAt(a, k));
  }

  // An address of the access that its own region takes shows the byte of its own store.
  lemma OwnShows(m: Mem, a: Word, n: nat, k: nat)
    requires Roomy(m) && k < n <= 4
    requires FirstMatch(a, m.regions) < |m.regions| && Where(m, a, k) == FirstMatch(a, m.regions)
    requires var r := m.regions[FirstMatch(a, m.regions)]; a - r.addr + n <= |m.stores[r.store].bytes|
    ensures var r := m.regions[FirstMatch(a, m.regions)];
      && Shows(m, a, k, m.stores[r.store].bytes[a - r.addr..a - r.addr + n][k])
      && (m.stores[r.store].Ram? ==> InRam(m, AddressAt(a, k)))
  {
    RoomyBounds(m, a, n);
    SpanAddress(a, n, k);
    hide FirstMatch, AddressAt, Roomy, Wrap;
    var r := m.regions[FirstMatch(a, m.regions)];
    var bytes, off := m.stores[r.store].bytes, a - r.addr;
    assert bytes[off..off + n][k] == bytes[off + k];
  }

  lemma RoomyShape(m: Mem, m': Mem)
    requires Roomy(m) && m'.Valid() && SameShape(m, m')
    ensures Roomy(m')
  {
  }

  // ---------------------------------------------------------------- straight reads

  // The bytes a read delivers are shown, in every memory of the shape.
  lemma StraightShows(m: Mem, m': Mem, a: Word, n: nat)
    requires Roomy(m) && m'.Valid() && SameShape(m, m') && 0 < n <= 4 && Straight(m, a, n)
    requires FirstMatch(a, m.regions) < |m.regions|
    requires var r := m.regions[FirstMatch(a, m.regions)]; a - r.addr + n <= |m.stores[r.store].bytes|
    ensures var r := m'.regions[FirstMatch(a, m'.regions)];
      && a - r.addr + n <= |m'.stores[r.store].bytes| && 0 <= a - r.addr
      && ShowsAll(m', a, m'.stores[r.store].bytes[a - r.addr..a - r.addr + n])
  {
    hide FirstMatch, AddressAt, Shows, Fixed, AllMapped;
    RoomyBounds(m, a, n);
    RoomyShape(m, m');
    var r := m.regions[FirstMatch(a, m.regions)];
    var data := m'.stores[r.store].bytes[a - r.addr..a - r.addr + n];
    forall k: nat | k < n
      ensures Shows(m', a, k, data[k])
    {
      if Where(m, a, k) == FirstMatch(a, m.regions) {
        OwnShows(m', a, n, k);
      } else {
        FixedShows(m, m', a, k, data[k]);
      }
    }
  }

  lemma StraightReads(m: Mem, m': Mem, a: Word, n: nat)
    requires Roomy(m) && m'.Valid() && SameShape(m, m') && 0 < n <= 4 && Straight(m, a, n)
    ensures HonestRead(m', a, n, true)
  {
    var i := FirstMatch(a, m.regions);
    if i < |m.regions| {
      hide FirstMatch, AddressAt, Shows, Fixed, AllMapped, ShowsAll, Zeros, HonestRead, Where;
      RoomyShape(m, m');
      RoomyRead(m', a, n);
      var st, off := m.stores[m.regions[i].store], a - m.regions[i].addr;
      if off + n <= |st.bytes| {
        StraightShows(m, m', a, n);
        ShownIsMapped(m', a, m'.stores[m.regions[i].store].bytes[off..off + n]);
      } else if st.Ram? {
        ShapeAllMapped(m, m', a, n);
      } else {
        ZerosFixed(m, m', a, n);
        ShownIsMapped(m', a, Zeros(n));
      }
    }
  }

  lemma ZerosFixed(m: Mem, m': Mem, a: Word, n: nat)
    requires m.Valid() && m'.Valid() && SameShape(m, m')
    requires forall k: nat | k < n :: Fixed(m, a, k, 0)
    ensures |Zeros(n)| == n && ShowsAll(m', a, Zeros(n))
  {
    hide Shows, Fixed, SameShape, Zeros;
    ZerosValue(n);
    forall k: nat | k < n
      ensures Shows(m', a, k, Zeros(n)[k])
    {
      FixedShows(m, m', a, k, 0);
    }
  }

  lemma ShownIsMapped(m: Mem, a: Word, data: seq<Byte>)
    requires m.Valid() && ShowsAll(m, a, data)
    ensures AllMapped(m, a, |data|)
  {
    hide AddressAt, Mapped, ByteAt;
    forall k: nat | k < |data|
      ensures Mapped(m, AddressAt(a, k))
    {
      assert Shows(m, a, k, data[k]);
    }
  }

  // ---------------------------------------------------------------- crooked reads

  function Other(v: Byte): Byte {
    (v + 1) % 256
  }

  // The same memory with one cell of a RAM object changed.
  function Disturbed(m: Mem, h: nat, at: nat, v: Byte): Mem
    requires h < |m.stores| && m.stores[h].Ram? && at < |m.stores[h].bytes|
  {
    m.(stores := m.stores[h := Ram(m.stores[h].bytes[at := v])])
  }

  lemma DisturbedShape(m: Mem, h: nat, at: nat, v: Byte)
    requires m.Valid() && h < |m.stores| && m.stores[h].Ram? && at < |m.stores[h].bytes|
    ensures var m' := Disturbed(m, h, at, v);
      && m'.Valid() && SameShape(m, m') && m'.regions == m.regions && m'.stores[h].bytes[at] == v
      && |m'.stores[h].bytes| == |m.stores[h].bytes| && m'.stores[h].Ram?
      && forall j | 0 <= j < |m.stores| && j != h :: m'.stores[j] == m.stores[j]
  {
  }

  // What an address then shows.
  lemma DisturbedByte(m: Mem, h: nat, at: nat, v: Byte, b: Word)
    requires m.Valid() && h < |m.stores| && m.stores[h].Ram? && at < |m.stores[h].bytes| && Mapped(m, b)
    ensures var m', q := Disturbed(m, h, at, v), m.regions[FirstMatch(b, m.regions)];
      && m'.Valid() && Mapped(m', b)
      && ByteAt(m', b) == if q.store == h && b - q.addr == at then v else ByteAt(m, b)
  {
    hide FirstMatch;
    DisturbedShape(m, h, at, v);
  }

  // A byte the read delivers but its address does not show.
  lemma NotShown(m: Mem, a: Word, n: nat, k: nat)
    requires Roomy(m) && k < n <= 4 && FirstMatch(a, m.regions) < |m.regions|
    requires var r := m.regions[FirstMatch(a, m.regions)];
      var bytes, off := m.stores[r.store].bytes, a - r.addr;
      off >= 0 && off + n <= |bytes| && !Shows(m, a, k, bytes[off + k])
    ensures !HonestRead(m, a, n, true)
  {
    hide FirstMatch, AddressAt, Shows, AllMapped, HonestRead;
    RoomyRead(m, a, n);
    var r := m.regions[FirstMatch(a, m.regions)];
    assert !ShowsAll(m, a, m.stores[r.store].bytes[a - r.addr..a - r.addr + n]);
    hide ShowsAll;
  }

  // Some memory of the shape makes the read dishonest.
  ghost predicate Betrays(m: Mem, m': Mem, a: Word, n: nat) {
    m'.Valid() && SameShape(m, m') && !HonestRead(m', a, n, true)
  }

  lemma SelfShape(m: Mem)
    ensures SameShape(m, m)
  {
  }

  // Inside RAM, an address that another region takes: change the cell of its own.
  lemma CrookedInRam(m: Mem, a: Word, n: nat, k: nat)
    requires Roomy(m) && k < n <= 4 && FirstMatch(a, m.regions) < |m.regions|
    requires var r := m.regions[FirstMatch(a, m.regions)];
      m.stores[r.store].Ram? && a - r.addr + n <= |m.stores[r.store].bytes|
    requires Where(m, a, k) != FirstMatch(a, m.regions)
    ensures exists m': Mem :: Betrays(m, m', a, n)
  {
    hide FirstMatch, AddressAt, Mapped, ByteAt, HonestRead, SameShape;
    RoomyBounds(m, a, n);
    var r := m.regions[FirstMatch(a, m.regions)];
    var at, b := a - r.addr + k, AddressAt(a, k);
    if Mapped(m, b) {
      var v := Other(ByteAt(m, b));
      var m' := Disturbed(m, r.store, at, v);
      DisturbedShape(m, r.store, at, v);
      DisturbedByte(m, r.store, at, v, b);
      OtherStore(m, a, b);
      RoomyShape(m, m');
      NotShown(m', a, n, k);
      assert Betrays(m, m', a, n);
    } else {
      NotShown(m, a, n, k);
      SelfShape(m);
      assert Betrays(m, m, a, n);
    }
  }

  lemma OtherStore(m: Mem, a: Word, b: Word)
    requires Roomy(m) && FirstMatch(a, m.regions) < |m.regions| && Mapped(m, b)
    ensures FirstMatch(b, m.regions) < |m.regions|
    ensures m.regions[FirstMatch(a, m.regions)].store == m.regions[FirstMatch(b, m.regions)].store ==>
      FirstMatch(a, m.regions) == FirstMatch(b, m.regions)
  {
    hide FirstMatch;
  }

  // An address of a read that must show v and is not fixed to it: in some memory of the
  // shape it does not. If RAM shows it, change that; the first region is a file's.
  lemma Unfixed(m: Mem, a: Word, k: nat, v: Byte) returns (m': Mem)
    requires m.Valid() && !Fixed(m, a, k, v)
    ensures m'.Valid() && SameShape(m, m') && m'.regions == m.regions && !Shows(m', a, k, v)
    ensures forall h | 0 <= h < |m.stores| && m.stores[h].Rom? :: m'.stores[h] == m.stores[h]
  {
    var b := AddressAt(a, k);
    if Shows(m, a, k, v) {
      var q := m.regions[FirstMatch(b, m.regions)];
      hide FirstMatch, AddressAt;
      MappedCell(m, b);
      m' := Disturbed(m, q.store, b - q.addr, Other(v));
      DisturbedShape(m, q.store, b - q.addr, Other(v));
      DisturbedByte(m, q.store, b - q.addr, Other(v), b);
      hide Mapped, ByteAt, Disturbed;
    } else {
      m' := m;
    }
  }

  lemma MappedCell(m: Mem, b: Word)
    requires m.Valid() && Mapped(m, b)
    ensures FirstMatch(b, m.regions) < |m.regions|
    ensures var q := m.regions[FirstMatch(b, m.regions)];
      b - q.addr >= 0 && (m.stores[q.store].Ram? ==> b - q.addr < |m.stores[q.store].bytes|)
  {
    hide FirstMatch;
    assert Match(b, m.regions[FirstMatch(b, m.regions)]);
  }

  lemma CrookedInFile(m: Mem, a: Word, n: nat, k: nat)
    requires Roomy(m) && k < n <= 4 && FirstMatch(a, m.regions) < |m.regions|
    requires var r := m.regions[FirstMatch(a, m.regions)];
      var st, off := m.stores[r.store], a - r.addr;
      st.Rom? && off >= 0 && off + n <= |st.bytes| && !Fixed(m, a, k, st.bytes[off + k])
    ensures exists m': Mem :: Betrays(m, m', a, n)
  {
    var r := m.regions[FirstMatch(a, m.regions)];
    hide FirstMatch, AddressAt, Shows, Fixed, HonestRead, SameShape, Where, Match, Wrap;
    var off := a - r.addr;
    assert m.Valid() && m.stores[r.store].Rom?;
    var m' := Unfixed(m, a, k, m.stores[r.store].bytes[off + k]);
    RoomyShape(m, m');
    NotShown(m', a, n, k);
    assert Betrays(m, m', a, n);
  }

  lemma CrookedPastFile(m: Mem, a: Word, n: nat, k: nat)
    requires Roomy(m) && k < n <= 4 && FirstMatch(a, m.regions) < |m.regions|
    requires var r := m.regions[FirstMatch(a, m.regions)];
      m.stores[r.store].Rom? && a - r.addr + n > |m.stores[r.store].bytes|
    requires !Fixed(m, a, k, 0)
    ensures exists m': Mem :: Betrays(m, m', a, n)
  {
    hide FirstMatch, AddressAt, Shows, Fixed, AllMapped, SameShape, Zeros, HonestRead, Match, Where;
    var m' := Unfixed(m, a, k, 0);
    RoomyShape(m, m');
    RoomyRead(m', a, n);
    ZerosValue(n);
    assert !Shows(m', a, k, Zeros(n)[k]);
    assert !ShowsAll(m', a, Zeros(n));
    hide ShowsAll;
    assert Betrays(m, m', a, n);
  }

  lemma CrookedReads(m: Mem, a: Word, n: nat)
    requires Roomy(m) && 0 < n <= 4 && !Straight(m, a, n)
    ensures exists m': Mem :: Betrays(m, m', a, n)
  {
    hide FirstMatch, AddressAt, AllMapped, Fixed, Where, SameShape, HonestRead, ShowsAll, Zeros;
    RoomyRead(m, a, n);
    var i := FirstMatch(a, m.regions);
    var st, off := m.stores[m.regions[i].store], a - m.regions[i].addr;
    if off + n > |st.bytes| {
      if st.Ram? {
        SelfShape(m);
        assert Betrays(m, m, a, n);
      } else {
        var k: nat :| k < n && !Fixed(m, a, k, 0);
        CrookedPastFile(m, a, n, k);
      }
    } else {
      var data := st.bytes[off..off + n];
      var k: nat :| k < n && Where(m, a, k) != i && !(st.Rom? && Fixed(m, a, k, data[k]));
      if st.Ram? {
        CrookedInRam(m, a, n, k);
      } else {
        CrookedInFile(m, a, n, k);
      }
    }
  }

  // Over all contents of the RAM objects, a read is honest exactly when it is straight.
  lemma ReadsHonestIffStraight(m: Mem, a: Word, n: nat)
    requires Roomy(m) && 0 < n <= 4
    ensures m.Valid()
    ensures Straight(m, a, n) <==> forall m': Mem | m'.Valid() && SameShape(m, m') :: HonestRead(m', a, n, true)
  {
    assert m.Valid();
    hide HonestRead, Straight, Roomy, SameShape;
    if Straight(m, a, n) {
      forall m': Mem | m'.Valid() && SameShape(m, m')
        ensures HonestRead(m', a, n, true)
      {
        StraightReads(m, m', a, n);
      }
    } else {
      CrookedReads(m, a, n);
    }
  }

  // ---------------------------------------------------------------- writes

  // Where every address is in the first region's own store, so is every cell.
  lemma StraightLandsByte(m: Mem, a: Word, data: seq<Byte>, b: Word)
    requires Roomy(m) && 0 < |data| <= 4 && FirstMatch(a, m.regions) < |m.regions| && Mapped(m, b)
    requires forall k: nat | k < |data| :: Where(m, a, k) == FirstMatch(a, m.regions)
    ensures ByteAfter(m, a, data, b) == ByteWanted(m, a, data, b)
  {
    hide FirstMatch, ByteAt, Match, Past, AddressAt, Wrap, Mapped;
    RoomyBounds(m, a, |data|);
    SpanIsPast(a, |data|, b);
    PastAddress(a, b, 0);
    var i, j := FirstMatch(a, m.regions), FirstMatch(b, m.regions);
    assert Past(a, b) < |data| ==> Where(m, a, Past(a, b)) == i;
    hide Where;
    OtherStore(m, a, b);
  }

  lemma StraightWrites(m: Mem, a: Word, data: seq<Byte>)
    requires Roomy(m) && 0 < |data| <= 4 && StraightWrite(m, a, |data|)
    ensures HonestWrite(m, a, data)
  {
    var i, n := FirstMatch(a, m.regions), |data|;
    if i < |m.regions| && m.stores[m.regions[i].store].Ram? {
      RoomyBounds(m, a, n);
      var st, off := m.stores[m.regions[i].store], a - m.regions[i].addr;
      if off + n <= |st.bytes| {
        assert AllInRam(m, a, n) && LandsRight(m, a, data) by {
          hide FirstMatch, AddressAt, Shows, ByteAfter, ByteWanted, Mapped, InRam;
          forall k: nat | k < n
            ensures InRam(m, AddressAt(a, k))
          {
            OwnShows(m, a, n, k);
          }
          forall b: Word | Mapped(m, b)
            ensures ByteAfter(m, a, data, b) == ByteWanted(m, a, data, b)
          {
            StraightLandsByte(m, a, data, b);
          }
        }
      }
    }
    hide FirstMatch, AddressAt, AllInRam, LandsRight, Where, Roomy;
  }

  lemma CrookedWrites(m: Mem, a: Word, n: nat)
    requires Roomy(m) && 0 < n <= 4 && !StraightWrite(m, a, n)
    ensures exists data: seq<Byte> :: |data| == n && !HonestWrite(m, a, data)
  {
    hide FirstMatch, AddressAt, AllInRam, LandsRight, Mapped, ByteAt;
    RoomyBounds(m, a, n);
    var i := FirstMatch(a, m.regions);
    var st, off := m.stores[m.regions[i].store], a - m.regions[i].addr;
    if off + n > |st.bytes| {
      ZerosValue(n);
      assert |Zeros(n)| == n && !HonestWrite(m, a, Zeros(n));
    } else {
      var k: nat :| k < n && Where(m, a, k) != i;
      var b := AddressAt(a, k);
      if Mapped(m, b) {
        var data := seq(n, _ => Other(ByteAt(m, b)));
        OtherStore(m, a, b);
        LandsElsewhere(m, a, data, k);
        assert |data| == n && !HonestWrite(m, a, data);
      } else {
        NotAllInRam(m, a, n, k);
        ZerosValue(n);
        assert |Zeros(n)| == n && !HonestWrite(m, a, Zeros(n));
      }
    }
  }

  lemma NotAllInRam(m: Mem, a: Word, n: nat, k: nat)
    requires m.Valid() && k < n && !Mapped(m, AddressAt(a, k))
    ensures !AllInRam(m, a, n)
  {
    hide Mapped, AddressAt;
    assert !InRam(m, AddressAt(a, k));
  }

  lemma LandsElsewhere(m: Mem, a: Word, data: seq<Byte>, k: nat)
    requires m.Valid() && k < |data| <= 4 && FirstMatch(a, m.regions) < |m.regions|
    requires Mapped(m, AddressAt(a, k)) && data[k] != ByteAt(m, AddressAt(a, k))
    requires m.regions[FirstMatch(AddressAt(a, k), m.regions)].store != m.regions[FirstMatch(a, m.regions)].store
    ensures !LandsRight(m, a, data)
  {
    hide FirstMatch, AddressAt, Past, Mapped, ByteAt;
    PastAddress(a, 0, k);
    assert ByteAfter(m, a, data, AddressAt(a, k)) != ByteWanted(m, a, data, AddressAt(a, k));
  }

  // Over all data, a write is honest exactly when it is straight.
  lemma WritesHonestIffStraight(m: Mem, a: Word, n: nat)
    requires Roomy(m) && 0 < n <= 4
    ensures m.Valid()
    ensures StraightWrite(m, a, n) <==> forall data: seq<Byte> | |data| == n :: HonestWrite(m, a, data)
  {
    assert m.Valid();
    hide HonestWrite, StraightWrite, Roomy;
    if StraightWrite(m, a, n) {
      forall data: seq<Byte> | |data| == n
        ensures HonestWrite(m, a, data)
      {
        StraightWrites(m, a, data);
      }
    } else {
      CrookedWrites(m, a, n);
    }
  }
}
