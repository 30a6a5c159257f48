/** Configuration mechanism 1 of PCI Local Bus 3.0 (section 3.2.2.3.2), the accessors of
    pci.c over it, BAR sizing (section 6.2.5.1) and the device search.

    Addresses add the fields that the source ORs, as they share no bit.  The hardware holds a
    byte per configuration address, reached four at a time through the CF8 latch; what a store
    leaves in a byte is up to the device (`latch`). */
module Pci {
  import opened Types

  const ALL_ONES: Dword := Dword(0xFF, 0xFF, 0xFF, 0xFF)

  /** pci_type2_config_address: the CF8 word of a register. */
  function Type2Address(bus: u8, device: u8, func: u8, offset: u8): u32 {
    0x8000_0000 + (bus % 128) * 0x1_0000 + (device % 32) * 0x800 + (func % 8) * 0x100 + (offset - offset % 4)
  }

  /** The first byte of a device's configuration space: its handle without the low byte. */
  function Space(base: u32): u32 {
    base - base % 0x100
  }

  function SlotAddress(n: nat): u32
    requires n < 0x2000
  {
    Type2Address(n / 32, n % 32, 0, 0)
  }

  lemma SlotSpace(bus: nat, device: nat)
    requires bus < 256 && device < 32
    ensures SlotAddress(32 * bus + device) == Space(Type2Address(bus, device, 0, 0))
  {
    var n := 32 * bus + device;
    assert n / 32 == bus && n % 32 == device;
    var q := 0x80_0000 + bus % 128 * 0x100 + device * 8;
    assert Type2Address(bus, device, 0, 0) == 0x100 * q;
  }

  /** offset & 0xFC */
  function Aligned(offset: u8): (r: u8)
    ensures r % 4 == 0 && r <= offset < r + 4
    ensures offset % 4 == 0 ==> r == offset
  {
    offset - offset % 4
  }

  /** The word that an offset lies in. */
  function WordOf(offset: u8): (r: u8)
    ensures r % 2 == 0 && r <= offset < r + 2
  {
    if offset % 4 >= 2 then Aligned(offset) + 2 else Aligned(offset)
  }

  /** A store of `v` at the four cells from `at` on takes `was` to `now`. */
  ghost predicate Stored(latch: (int, u8, u8) -> u8, was: int -> u8, at: int, v: Dword, now: int -> u8) {
    && now(at) == latch(at, was(at), v.b0)
    && now(at + 1) == latch(at + 1, was(at + 1), v.b1)
    && now(at + 2) == latch(at + 2, was(at + 2), v.b2)
    && now(at + 3) == latch(at + 3, was(at + 3), v.b3)
    && (forall a | !(at <= a < at + 4) :: now(a) == was(a))
  }

  /** A store of `y` in a byte `b` of a device: it may write some bits, clear others where `y` is
      one, and the rest are read-only. */
  function Next(rw: bv8, w1c: bv8, b: bv8, y: bv8): bv8 {
    (y & rw) | (b & !rw & !(y & w1c))
  }

  ghost predicate Masked(latch: (int, u8, u8) -> u8, k: int, rw: bv8, w1c: bv8) {
    rw & w1c == 0 && forall x: bv8, y: bv8 :: latch(k, x as int, y as int) == Next(rw, w1c, x, y) as int
  }

  /** No bit is set in the byte that a write would clear. */
  predicate Settled(w1c: bv8, b: u8) {
    (b as bv8) & w1c == 0
  }

  /** One lane of the dword that was there is replaced, and the dword is stored. */
  lemma LaneStored(latch: (int, u8, u8) -> u8, c: int -> u8, at: int, n: nat, b: u8, c': int -> u8)
    requires n < 4 && Stored(latch, c, at, Dword(c(at), c(at + 1), c(at + 2), c(at + 3)).WithLane(n, b), c')
    ensures c'(at + n) == latch(at + n, c(at + n), b)
    ensures forall a | a != at + n :: c'(a) == if at <= a < at + 4 then latch(a, c(a), c(a)) else c(a)
  {
  }

  lemma WordStored(latch: (int, u8, u8) -> u8, c: int -> u8, at: int, high: bool, lo: u8, hi: u8, c': int -> u8)
    requires var d := Dword(c(at), c(at + 1), c(at + 2), c(at + 3));
      Stored(latch, c, at, if high then d.(b2 := lo, b3 := hi) else d.(b0 := lo, b1 := hi), c')
    ensures var w := if high then at + 2 else at;
      && c'(w) == latch(w, c(w), lo) && c'(w + 1) == latch(w + 1, c(w + 1), hi)
      && forall a | a != w && a != w + 1 :: c'(a) == if at <= a < at + 4 then latch(a, c(a), c(a)) else c(a)
  {
  }

  class Bus {
    var cf8: u32
    var cells: int -> u8
    const latch: (int, u8, u8) -> u8

    constructor (cells: int -> u8, latch: (int, u8, u8) -> u8)
      ensures this.cells == cells && this.latch == latch
    {
      this.cf8 := 0;
      this.cells := cells;
      this.latch := latch;
    }

    /** The flat byte view of a device's 256-byte configuration space. */
    function ByteAt(base: u32, offset: u8): u8
      reads this
    {
      cells(Space(base) + offset)
    }

    function DwordAt(base: u32, offset: u8): Dword
      requires offset % 4 == 0
      reads this
    {
      DwordFrom(Space(base) + offset)
    }

    function DwordFrom(at: int): Dword
      reads this
    {
      Dword(cells(at), cells(at + 1), cells(at + 2), cells(at + 3))
    }

    // ----- the port accesses -----

    method OutAddress(v: u32)
      modifies this`cf8
      ensures cf8 == v
    {
      cf8 := v;
    }

    method InData() returns (v: Dword)
      ensures v == DwordFrom(cf8)
    {
      v := DwordFrom(cf8);
    }

    method OutData(v: Dword)
      modifies this`cells
      ensures Stored(latch, old(cells), cf8, v, cells)
    {
      var was, l := cells, latch;
      var at: int := cf8;
      cells := (a: int) =>
        (if a == at then l(a, was(a), v.b0) else if a == at + 1 then l(a, was(a), v.b1)
         else if a == at + 2 then l(a, was(a), v.b2) else if a == at + 3 then l(a, was(a), v.b3) else was(a));
    }

    // ----- dword accessors -----

    method ConfigRead(base: u32, offset: u8) returns (r: Dword)
      modifies this`cf8
      ensures r == DwordAt(base, Aligned(offset))
    {
      OutAddress(Aligned(offset) + (base - base % 0x100));
      r := InData();
    }

    method ConfigWrite(base: u32, offset: u8, data: Dword)
      modifies this`cf8, this`cells
      ensures Stored(latch, old(cells), Space(base) + Aligned(offset), data, cells)
    {
      OutAddress(Aligned(offset) + (base - base % 0x100));
      OutData(data);
    }

    // ----- sub-dword accessors, by read-modify-write -----

    method ConfigReadB(base: u32, offset: u8) returns (r: u8)
      modifies this`cf8
      ensures r == ByteAt(base, offset)
    {
      var which := offset % 4;
      var config := ConfigRead(base, Aligned(offset));
      r := config.Lane(which);
    }

    /** The byte at the offset becomes what the device makes of `data`.  The other three of its
        dword are stored back, which a byte may take or not; no other byte changes. */
    method ConfigWriteB(base: u32, offset: u8, data: u8)
      modifies this`cf8, this`cells
      ensures var at := Space(base) + offset; cells(at) == latch(at, old(cells)(at), data)
      ensures forall a | a != Space(base) + offset ::
        cells(a) == if InDword(base, offset, a) then latch(a, old(cells)(a), old(cells)(a)) else old(cells)(a)
    {
      var which := offset % 4;
      var config := ConfigRead(base, Aligned(offset));
      config := config.WithLane(which, data);
      ConfigWrite(base, Aligned(offset), config);
      LaneStored(latch, old(cells), Space(base) + Aligned(offset), which, data, cells);
    }

    predicate InDword(base: u32, offset: u8, a: int) {
      Space(base) + Aligned(offset) <= a < Space(base) + Aligned(offset) + 4
    }

    method ConfigReadW(base: u32, offset: u8) returns (lo: u8, hi: u8)
      modifies this`cf8
      ensures lo == ByteAt(base, WordOf(offset)) && hi == ByteAt(base, WordOf(offset) + 1)
    {
      var which := offset % 4 >= 2;
      var config := ConfigRead(base, Aligned(offset));
      if which {
        lo, hi := config.b2, config.b3;
      } else {
        lo, hi := config.b0, config.b1;
      }
    }

    method ConfigWriteW(base: u32, offset: u8, lo: u8, hi: u8)
      modifies this`cf8, this`cells
      ensures var at := Space(base) + WordOf(offset);
        cells(at) == latch(at, old(cells)(at), lo) && cells(at + 1) == latch(at + 1, old(cells)(at + 1), hi)
      ensures forall a | a != Space(base) + WordOf(offset) && a != Space(base) + WordOf(offset) + 1 ::
        cells(a) == if InDword(base, offset, a) then latch(a, old(cells)(a), old(cells)(a)) else old(cells)(a)
    {
      var which := offset % 4 >= 2;
      var config := ConfigRead(base, Aligned(offset));
      config := if which then config.(b2 := lo, b3 := hi) else config.(b0 := lo, b1 := hi);
      ConfigWrite(base, Aligned(offset), config);
      WordStored(latch, old(cells), Space(base) + Aligned(offset), which, lo, hi, cells);
    }

    // ----- BAR sizing -----

    /** What the register at an aligned offset would hold if `v` were stored there. */
    ghost function After(base: u32, offset: u8, v: Dword): Dword
      requires offset % 4 == 0
      reads this
    {
      AfterIn(latch, cells, base, offset, v)
    }

    /** A base address register of a window of 2^k bytes in a space of 2^m: of the `m` bits that it
        decodes those from the size on are writable and those below are zero, but for the lowest
        four, which are the register's own (type bits, or the enable bit of an expansion ROM).  Bits
        from `m` on are zero.  A window of 2^m bytes has no writable address bit. */
    ghost predicate IsWindow(base: u32, offset: u8, k: nat, m: nat)
      requires offset % 4 == 0
      reads this
    {
      && Pow2(k) > 0 && Pow2(m) > 0
      && forall v: Dword :: DecodedBy(After(base, offset, v).Value(), v.Value() % Pow2(m), Pow2(k))
    }

    method WriteThenRead(base: u32, offset: u8, v: Dword) returns (r: Dword)
      requires offset % 4 == 0
      modifies this`cf8, this`cells
      ensures r == old(After(base, offset, v))
      ensures Stored(latch, old(cells), Space(base) + offset, v, cells)
    {
      assert Aligned(offset) == offset;
      ghost var was := cells;
      ConfigWrite(base, offset, v);
      assert Stored(latch, was, Space(base) + offset, v, cells);
      r := ConfigRead(base, offset);
    }

    /** A register's four bytes end as the device makes them of their old values after all ones; no
        other byte changes. */
    method QueryBarSize(base: u32, offset: u8) returns (r: u32)
      requires offset % 4 == 0
      modifies this`cf8, this`cells
      ensures forall a :: cells(a) == if InDword(base, offset, a) then Probed(latch, a, old(cells)(a)) else old(cells)(a)
      ensures r == Sized(old(After(base, offset, ALL_ONES)).Value())
    {
      var original := ConfigRead(base, offset);
      var probed := WriteThenRead(base, offset, ALL_ONES);
      ghost var held := cells;
      ConfigWrite(base, offset, original);
      ProbedCells(latch, old(cells), Space(base) + offset, held, cells);
      r := Sized(probed.Value());
    }

    /** The first `n` registers have been sized since configuration space was `was`. */
    ghost predicate Swept(was: int -> u8, base: u32, n: nat)
      reads this
    {
      forall a :: cells(a) == if IsBar(a - Space(base), n) then Probed(latch, a, was(a)) else was(a)
    }

    method SizeNext(ghost was: int -> u8, base: u32, bar: u8, ghost n: nat) returns (size: u32)
      requires n < 7 && bar == BarOffset(n) && Swept(was, base, n)
      modifies this`cf8, this`cells
      ensures Swept(was, base, n + 1)
      ensures size == Sized(AfterIn(latch, was, base, BarOffset(n), ALL_ONES).Value())
    {
      assert After(base, bar, ALL_ONES) == AfterIn(latch, was, base, bar, ALL_ONES);
      size := QueryBarSize(base, bar);
    }

    /** The loops of pci_configure over the six BARs and the expansion ROM register. */
    method EnumerateBars(base: u32) returns (sizes: seq<u32>)
      modifies this`cf8, this`cells
      ensures Swept(old(cells), base, 7)
      ensures |sizes| == 7
      ensures forall i | 0 <= i < 7 :: sizes[i] == Sized(old(After(base, BarOffset(i), ALL_ONES)).Value())
    {
      ghost var was := cells;
      sizes := [];
      var bar := 0x10;
      while bar <= 0x24
        invariant bar == 0x10 + 4 * |sizes| && |sizes| <= 6 && Swept(was, base, |sizes|)
        invariant forall i | 0 <= i < |sizes| :: sizes[i] == Sized(AfterIn(latch, was, base, BarOffset(i), ALL_ONES).Value())
      {
        var size := SizeNext(was, base, bar, |sizes|);
        sizes := sizes + [size];
        bar := bar + 4;
      }
      var size := SizeNext(was, base, 0x30, 6);
      sizes := sizes + [size];
    }

    /** Each byte of the registers that are sized has masks. */
    ghost predicate HasMasks(base: u32, rw: int -> bv8, w1c: int -> bv8) {
      forall a | InSized(base, a) :: Masked(latch, a, rw(a), w1c(a))
    }

    predicate InSized(base: u32, a: int) {
      IsBar(a - Space(base), 7)
    }

    /** Sizing a register gives the size of its window, if that is fully decoded and has 16 bytes or
        more, and leaves configuration space as it was if the register has no bit set that a write
        clears. */
    method SizeWindow(base: u32, n: nat, ghost k: nat, ghost m: nat, ghost rw: int -> bv8, ghost w1c: int -> bv8)
      returns (r: u32)
      requires n < 7 && k <= m && 4 <= m <= 32 && IsWindow(base, BarOffset(n), k, m) && HasMasks(base, rw, w1c)
      modifies this`cf8, this`cells
      ensures r == Pow2(k) % U32 <==> k >= 4 && m == 32
      ensures (forall a :: cells(a) == old(cells)(a)) <==>
        (forall a | InDword(base, BarOffset(n), a) :: Settled(w1c(a), old(cells)(a)))
    {
      ghost var was := cells;
      SizingIsExact(this, base, BarOffset(n), k, m);
      r := QueryBarSize(base, BarOffset(n));
      forall a | InDword(base, BarOffset(n), a)
        ensures cells(a) == was(a) <==> Settled(w1c(a), was(a))
      {
        assert InSized(base, a);
        SizingRestores(latch, a, rw(a), w1c(a), was(a));
      }
    }

    /** The seven sizings leave configuration space as it was exactly when no register has a bit set
        that a write clears, and give the size of each that is a window as above. */
    method SizeWindows(base: u32, ghost k: int -> nat, ghost m: int -> nat, ghost rw: int -> bv8, ghost w1c: int -> bv8)
      returns (sizes: seq<u32>)
      requires HasMasks(base, rw, w1c) && forall i | 0 <= i < 7 :: k(i) <= m(i) && 4 <= m(i) <= 32
      modifies this`cf8, this`cells
      ensures |sizes| == 7 && forall i | 0 <= i < 7 && old(IsWindow(base, BarOffset(i), k(i), m(i))) ::
        sizes[i] == Pow2(k(i)) % U32 <==> k(i) >= 4 && m(i) == 32
      ensures (forall a :: cells(a) == old(cells)(a)) <==>
        (forall a | InSized(base, a) :: Settled(w1c(a), old(cells)(a)))
    {
      ghost var was := cells;
      forall i | 0 <= i < 7 && IsWindow(base, BarOffset(i), k(i), m(i))
        ensures Sized(After(base, BarOffset(i), ALL_ONES).Value()) == Pow2(k(i)) % U32 <==> k(i) >= 4 && m(i) == 32
      {
        SizingIsExact(this, base, BarOffset(i), k(i), m(i));
      }
      sizes := EnumerateBars(base);
      forall a | InSized(base, a)
        ensures cells(a) == was(a) <==> Settled(w1c(a), was(a))
      {
        SizingRestores(latch, a, rw(a), w1c(a), was(a));
      }
    }

    // ----- the device search -----

    method ReadId(bus: nat, device: nat, ghost ids: seq<Dword>) returns (id: Dword)
      requires bus < 256 && device < 32 && Holds(cells, ids)
      modifies this`cf8
      ensures id == ids[32 * bus + device]
    {
      var handle := Type2Address(bus, device, 0, 0);
      id := ConfigRead(handle, 0);
      assert id == ids[32 * bus + device] by {
        SlotId(cells, ids, bus, device);
      }
    }

    /** pci_find_device: the device of the given index among the matching ones, if no empty slot
        comes before it.  `ids` are the identifications of all slots, `end` is the slot where the
        search stopped. */
    method FindDevice(wanted: Dword, index: u8, ghost ids: seq<Dword>) returns (r: Option<nat>, end: nat)
      requires wanted != ALL_ONES && Holds(cells, ids)
      modifies this`cf8
      ensures SearchEnds(ids, wanted, index, r.Some?, end)
      ensures r.Some? ==> r.value == end
    {
      var bus: nat, count: nat := 0, 0;
      end := 0;
      while bus < 256
        invariant bus <= 256 && end == 32 * bus
        invariant Holds(cells, ids) && Populated(ids, end)
        invariant count == Count(ids, wanted, end) <= index
      {
        var device: nat := 0;
        while device < 32
          invariant device <= 32 && end == 32 * bus + device
          invariant Holds(cells, ids) && Populated(ids, end)
          invariant count == Count(ids, wanted, end) <= index
        {
          var id := ReadId(bus, device, ids);
          if id == ALL_ONES {
            return None, end;
          }
          if id == wanted {
            if count == index {
              return Some(end), end;
            }
            count := count + 1;
          }
          assert Populated(ids, end + 1) by {
            assert ids[end] == id != ALL_ONES;
          }
          device := device + 1;
          end := end + 1;
        }
        bus := bus + 1;
      }
      r := None;
    }
  }

  function AfterIn(latch: (int, u8, u8) -> u8, c: int -> u8, base: u32, offset: u8, v: Dword): Dword {
    var at := Space(base) + offset;
    Dword(latch(at, c(at), v.b0), latch(at + 1, c(at + 1), v.b1),
          latch(at + 2, c(at + 2), v.b2), latch(at + 3, c(at + 3), v.b3))
  }

  /** What a byte becomes when all ones and then its old value are stored in it. */
  function Probed(latch: (int, u8, u8) -> u8, a: int, b: u8): u8 {
    latch(a, latch(a, b, 0xFF), b)
  }

  /** The offset is in one of the first `n` registers that are sized. */
  predicate IsBar(offset: int, n: nat) {
    if offset < 0x28 then 0x10 <= offset < 0x10 + 4 * (if n < 6 then n else 6) else n == 7 && 0x30 <= offset < 0x34
  }

  /** A byte is as it was after sizing, and after its own value is stored in it, exactly when no bit
      was set that a write clears. */
  lemma SizingRestores(latch: (int, u8, u8) -> u8, a: int, rw: bv8, w1c: bv8, b: u8)
    requires Masked(latch, a, rw, w1c)
    ensures Probed(latch, a, b) == b <==> Settled(w1c, b)
    ensures latch(a, b, b) == b <==> Settled(w1c, b)
  {
    RoundTrip(b);
    BitsRestore(latch, a, rw, w1c, b as bv8);
  }

  lemma BitsRestore(latch: (int, u8, u8) -> u8, a: int, rw: bv8, w1c: bv8, x: bv8)
    requires Masked(latch, a, rw, w1c)
    ensures Probed(latch, a, x as int) == x as int <==> x & w1c == 0
    ensures latch(a, x as int, x as int) == x as int <==> x & w1c == 0
  {
    MaskBits(rw, w1c, x);
    ProbedBits(latch, a, rw, w1c, x);
    BitsEqual(Next(rw, w1c, Next(rw, w1c, x, 0xFF), x), x);
    BitsEqual(Next(rw, w1c, x, x), x);
  }

  lemma MaskBits(rw: bv8, w1c: bv8, x: bv8)
    requires rw & w1c == 0
    ensures Next(rw, w1c, Next(rw, w1c, x, 0xFF), x) == x <==> x & w1c == 0
    ensures Next(rw, w1c, x, x) == x <==> x & w1c == 0
  {
  }

  lemma BitsEqual(x: bv8, y: bv8)
    ensures x as int == y as int <==> x == y
  {
    assert (x as int) as bv8 == x;
    assert (y as int) as bv8 == y;
  }

  lemma ProbedBits(latch: (int, u8, u8) -> u8, a: int, rw: bv8, w1c: bv8, x: bv8)
    requires Masked(latch, a, rw, w1c)
    ensures Probed(latch, a, x as int) == Next(rw, w1c, Next(rw, w1c, x, 0xFF), x) as int
    ensures latch(a, x as int, x as int) == Next(rw, w1c, x, x) as int
  {
    assert latch(a, x as int, 0xFF as bv8 as int) == Next(rw, w1c, x, 0xFF) as int;
  }

  /** The upper byte of a bridge's secondary Status (1Fh): the DEVSEL field is read-only, the other
      bits report errors and are cleared by a write.  With an error reported, sizing loses it. */
  lemma SecondaryStatus(latch: (int, u8, u8) -> u8, a: int)
    requires Masked(latch, a, 0, 0xF9)
    ensures Probed(latch, a, 0x02) == 0x02
    ensures Probed(latch, a, 0x22) == 0x02
  {
    SizingRestores(latch, a, 0, 0xF9, 0x02);
    ProbedBits(latch, a, 0, 0xF9, 0x22);
    assert Next(0, 0xF9, Next(0, 0xF9, 0x22, 0xFF), 0x22) == 0x02;
  }

  function BarOffset(i: int): u8
    requires 0 <= i < 7
  {
    if i == 6 then 0x30 else 0x10 + 4 * i
  }

  /** ~(v & 0xFFFFFFF0) + 1 */
  function Sized(v: u32): u32 {
    var size := v - v % 16;
    (0xFFFF_FFFF - size + 1) % U32
  }

  lemma ProbedCells(latch: (int, u8, u8) -> u8, c: int -> u8, at: int, c': int -> u8, c'': int -> u8)
    requires Stored(latch, c, at, ALL_ONES, c')
    requires Stored(latch, c', at, Dword(c(at), c(at + 1), c(at + 2), c(at + 3)), c'')
    ensures forall a :: c''(a) == if at <= a < at + 4 then Probed(latch, a, c(a)) else c(a)
  {
  }

  lemma SizedLarge(size: int, space: int, t: int)
    requires 0 <= t < 16 <= size <= space <= U32 && size % 16 == 0 && space % 16 == 0
    ensures Sized(t + space - size) == (U32 - space + size) % U32
  {
    var w := t + space - size;
    assert w % 16 == t;
  }

  lemma SizedSmall(size: int, space: int, t: int)
    requires 0 <= t < size < 16 <= space <= U32 && space % 16 == 0
    ensures Sized(t + space - size) == (U32 - space + 16) % U32
  {
    var w := t + space - size;
    assert w - w % 16 == space - 16;
  }

  lemma Pow2_32()
    ensures Pow2(4) == 16 && Pow2(32) == U32
  {
    assert Pow2(8) == 0x100 by {
      assert Pow2(4) == 16;
      Pow2Sum(4, 4);
    }
    Pow2Sum(8, 8);
    Pow2Sum(16, 16);
  }

  lemma Pow2Small(k: nat)
    requires k < 4
    ensures Pow2(k) < 16
  {
    assert Pow2(1) == 2 && Pow2(2) == 4 && Pow2(3) == 8;
  }

  lemma Pow2Large(k: nat)
    requires 4 <= k <= 32
    ensures 16 <= Pow2(k) <= U32 && Pow2(k) % 16 == 0
  {
    Pow2_32();
    Pow2Sum(4, k - 4);
    Pow2Sum(k - 4, 4);
    Pow2Sum(k, 32 - k);
    Pow2Sum(32 - k, k);
    MulAtLeast(Pow2(32 - k), Pow2(k));
  }

  lemma AllOnesMod(k: nat)
    requires k <= 32
    ensures Pow2(k) > 0 && 0xFFFF_FFFF % Pow2(k) == Pow2(k) - 1
  {
    Pow2_32();
    Pow2Sum(32 - k, k);
    Pow2Sum(k, 32 - k);
    MinusOneMod(Pow2(k), Pow2(32 - k));
  }

  /** What a register of a window reads back when `y` reaches the bits that it decodes. */
  predicate DecodedBy(w: u32, y: nat, size: nat)
    requires size > 0
  {
    w % size < 16 && w - w % size == y - y % size
  }

  lemma SizingArithmetic(w: u32, k: nat, m: nat, low: int)
    requires k <= m && 4 <= m <= 32 && 0 <= low < 16 && low < Pow2(k)
    requires w == low + Pow2(m) - Pow2(k)
    ensures Sized(w) == (U32 - Pow2(m) + if k >= 4 then Pow2(k) else 16) % U32
  {
    Pow2Large(m);
    if k >= 4 {
      Pow2Large(k);
    } else {
      Pow2Small(k);
    }
    Pow2Order(k, m);
    SizedValue(w, Pow2(k), Pow2(m), low, k >= 4);
  }

  lemma SizedValue(w: u32, size: int, space: int, low: int, large: bool)
    requires 0 <= low < 16 && low < size <= space <= U32 && 16 <= space && space % 16 == 0
    requires if large then 16 <= size && size % 16 == 0 else size < 16
    requires w == low + space - size
    ensures Sized(w) == (U32 - space + if large then size else 16) % U32
  {
    if large {
      SizedLarge(size, space, low);
    } else {
      SizedSmall(size, space, low);
    }
  }

  lemma Pow2Order(k: nat, m: nat)
    requires k <= m
    ensures 0 < Pow2(k) <= Pow2(m) && (k < m ==> 2 * Pow2(k) <= Pow2(m))
  {
    Pow2Sum(m - k, k);
    Pow2Sum(k, m - k);
    MulAtLeast(Pow2(m - k), Pow2(k));
    if k < m {
      Pow2Sum(k + 1, m - k - 1);
      Pow2Sum(m - k - 1, k + 1);
      MulAtLeast(Pow2(m - k - 1), Pow2(k + 1));
    }
  }

  lemma Pow2Quotient(k: nat, m: nat) returns (q: nat)
    requires k <= m
    ensures q > 0 && Pow2(m) == q * Pow2(k)
  {
    q := Pow2(m - k);
    Pow2Sum(m - k, k);
  }

  lemma WindowValue(w: u32, p: nat, q: nat, space: nat)
    requires p > 0 && q > 0 && space == q * p && space >= 1 && DecodedBy(w, space - 1, p)
    ensures 0 <= w % p < p && w == w % p + space - p
  {
    MinusOneMod(p, q);
  }

  /** The result of sizing, for every window.  It is the window's size exactly when the register
      decodes all 32 bits and the window has 16 bytes or more. */
  lemma SizingIsExact(bus: Bus, base: u32, offset: u8, k: nat, m: nat)
    requires offset % 4 == 0 && k <= m && 4 <= m <= 32 && bus.IsWindow(base, offset, k, m)
    ensures var r := Sized(bus.After(base, offset, ALL_ONES).Value());
      && r == (U32 - Pow2(m) + if k >= 4 then Pow2(k) else 16) % U32
      && (r == Pow2(k) % U32 <==> k >= 4 && m == 32)
  {
    var w := bus.After(base, offset, ALL_ONES).Value();
    assert ALL_ONES.Value() == 0xFFFF_FFFF;
    AllOnesMod(m);
    var q := Pow2Quotient(k, m);
    WindowValue(w, Pow2(k), q, Pow2(m));
    SizingArithmetic(w, k, m, w % Pow2(k));
    SizeDiffers(k, m);
  }

  lemma SizeDiffers(k: nat, m: nat)
    requires k <= m && 4 <= m <= 32
    ensures (U32 - Pow2(m) + if k >= 4 then Pow2(k) else 16) % U32 == Pow2(k) % U32 <==> k >= 4 && m == 32
  {
    Pow2Order(k, m);
    WholeSpace(m);
    Pow2Large(m);
    if k < 4 {
      Pow2Small(k);
    }
    ResultDiffers(Pow2(k), Pow2(m), k >= 4);
  }

  lemma WholeSpace(m: nat)
    requires m <= 32
    ensures (m == 32 <==> Pow2(m) == U32) && (m < 32 ==> 2 * Pow2(m) <= U32)
  {
    Pow2_32();
    Pow2Order(m, 32);
  }

  lemma ResultDiffers(size: int, space: int, large: bool)
    requires 0 < size <= space <= U32 && 16 <= space && (!large ==> size < 16) && (space < U32 ==> 2 * space <= U32)
    ensures (U32 - space + if large then size else 16) % U32 == size % U32 <==> large && space == U32
  {
  }

  /** An I/O register that decodes 16 bits: 32 bytes are reported as FFFF0020h. */
  lemma SixteenBits(bus: Bus, base: u32, offset: u8, k: nat, m: nat)
    requires offset % 4 == 0 && 4 <= k <= m <= 32 && bus.IsWindow(base, offset, k, m)
    requires Pow2(k) == 0x20 && Pow2(m) == 0x1_0000
    ensures Sized(bus.After(base, offset, ALL_ONES).Value()) == 0xFFFF_0020
  {
    SizingIsExact(bus, base, offset, k, m);
  }

  /** The device, bus and function numbers within the fields that the address word has for them. */
  predicate InFields(bus: u8, device: u8, func: u8) {
    bus < 128 && device < 32 && func < 8
  }

  function Slot(bus: u8, device: u8, func: u8): int {
    bus * 0x100 + device * 8 + func
  }

  lemma AddressIsSlot(bus: u8, device: u8, func: u8, offset: u8)
    requires InFields(bus, device, func) && offset % 4 == 0
    ensures Type2Address(bus, device, func, offset) == 0x8000_0000 + 0x100 * Slot(bus, device, func) + offset
  {
    assert bus % 128 == bus && device % 32 == device && func % 8 == func;
  }

  /** Registers of different devices, or at different offsets, have different addresses. */
  lemma AddressInjective(b: u8, d: u8, f: u8, o: u8, b': u8, d': u8, f': u8, o': u8)
    requires InFields(b, d, f) && o % 4 == 0
    requires InFields(b', d', f') && o' % 4 == 0
    requires Type2Address(b, d, f, o) == Type2Address(b', d', f', o')
    ensures b == b' && d == d' && f == f' && o == o'
  {
    AddressIsSlot(b, d, f, o);
    AddressIsSlot(b', d', f', o');
    assert Slot(b, d, f) == Slot(b', d', f');
    assert 8 * (b * 32 + d - (b' * 32 + d')) == f' - f;
    assert b * 32 + d == b' * 32 + d';
  }

  /** The fields of the address: the enable bit 31, the bus in bits 16 to 22, the device in 11 to 15, the
      function in 8 to 10, and the offset of a dword below. */
  lemma AddressFields(bus: u8, device: u8, func: u8, offset: u8)
    ensures var a := Type2Address(bus, device, func, offset);
      && a / 0x8000_0000 == 1 && a / 0x1_0000 % 0x8000 == bus % 128 && a / 0x800 % 32 == device % 32
      && a / 0x100 % 8 == func % 8 && a % 0x100 == offset - offset % 4
  {
    var low := offset - offset % 4;
    var byte := func % 8 + 8 * (device % 32 + 32 * (bus % 128 + 0x8000));
    assert Type2Address(bus, device, func, offset) == low + 0x100 * byte;
    assert (low + 0x100 * byte) / 0x100 == byte && (low + 0x100 * byte) / 0x800 == byte / 8;
  }

  /** The registers that are sized: the six BARs and the expansion ROM. */
  lemma SizedRegisters(bus: Bus, base: u32, a: int)
    ensures BarOffset(0) == 0x10 && BarOffset(1) == 0x14 && BarOffset(2) == 0x18
    ensures BarOffset(3) == 0x1C && BarOffset(4) == 0x20 && BarOffset(5) == 0x24 && BarOffset(6) == 0x30
    ensures bus.InSized(base, a) <==> 0x10 <= a - Space(base) < 0x28 || 0x30 <= a - Space(base) < 0x34
  {
  }

  /** Without the upper bound on the bus number it fails: bus 128 is reached as bus 0. */
  lemma BusWraps()
    ensures Type2Address(128, 0, 0, 0) == Type2Address(0, 0, 0, 0)
  {
  }

  /** A device's handle plus an offset reaches that register and no other device's. */
  lemma SpaceOfDevice(b: u8, d: u8, f: u8, offset: u8)
    requires InFields(b, d, f) && offset % 4 == 0
    ensures Space(Type2Address(b, d, f, 0)) + offset == Type2Address(b, d, f, offset)
  {
    AddressIsSlot(b, d, f, 0);
    AddressIsSlot(b, d, f, offset);
  }

  /** The identification dword of slot n, 32 slots to a bus, in configuration cells `c`. */
  function Id(c: int -> u8, n: nat): Dword
    requires n < 0x2000
  {
    var at := SlotAddress(n);
    Dword(c(at), c(at + 1), c(at + 2), c(at + 3))
  }

  ghost predicate Holds(c: int -> u8, ids: seq<Dword>) {
    |ids| == 0x2000 && forall n {:trigger Id(c, n)} | 0 <= n < |ids| :: ids[n] == Id(c, n)
  }

  lemma SlotId(c: int -> u8, ids: seq<Dword>, bus: nat, device: nat)
    requires Holds(c, ids) && bus < 256 && device < 32
    ensures var at := Space(Type2Address(bus, device, 0, 0));
      ids[32 * bus + device] == Dword(c(at), c(at + 1), c(at + 2), c(at + 3))
  {
    SlotSpace(bus, device);
    assert ids[32 * bus + device] == Id(c, 32 * bus + device);
  }

  /** How many of the first n slots hold the wanted device. */
  function Count(ids: seq<Dword>, wanted: Dword, n: nat): nat
    requires n <= |ids|
  {
    if n == 0 then 0 else Count(ids, wanted, n - 1) + (if ids[n - 1] == wanted then 1 else 0)
  }

  predicate Populated(ids: seq<Dword>, n: nat) {
    n <= |ids| && forall m | 0 <= m < n :: ids[m] != ALL_ONES
  }

  /** What FindDevice promises, over the identifications of all slots. */
  ghost predicate SearchEnds(ids: seq<Dword>, wanted: Dword, index: nat, found: bool, end: nat) {
    && Populated(ids, end)
    && (found ==> end < |ids| && ids[end] == wanted && Count(ids, wanted, end) == index)
    && (!found ==> (end == |ids| || ids[end] == ALL_ONES) && Count(ids, wanted, end) <= index)
  }

  /** The search succeeds exactly when more than `index` devices match before the first empty
      slot: with a gap in front of it, a device that is there is not found. */
  lemma FoundBeforeGap(ids: seq<Dword>, wanted: Dword, index: nat, found: bool, end: nat, gap: nat)
    requires wanted != ALL_ONES && SearchEnds(ids, wanted, index, found, end)
    requires Populated(ids, gap) && (gap < |ids| ==> ids[gap] == ALL_ONES)
    ensures found <==> Count(ids, wanted, gap) > index
  {
    if found {
      CountGrows(ids, wanted, end + 1, gap);
    }
  }

  lemma {:induction false} CountGrows(ids: seq<Dword>, wanted: Dword, m: nat, n: nat)
    requires m <= n <= |ids|
    ensures Count(ids, wanted, m) <= Count(ids, wanted, n)
  {
    if m < n {
      CountGrows(ids, wanted, m, n - 1);
    }
  }

  /** A bus with two devices, the second behind an empty slot. */
  function TwoDevices(chip: Dword, card: Dword): (ids: seq<Dword>)
    ensures |ids| == 0x2000
  {
    seq(0x2000, n => if n == 0 then chip else if n == 2 then card else ALL_ONES)
  }

  /** The search reports that the second device is not there. */
  lemma GapHidesDevice(chip: Dword, card: Dword)
    requires chip != card && chip != ALL_ONES && card != ALL_ONES
    ensures var ids := TwoDevices(chip, card);
      ids[2] == card && forall found, end :: SearchEnds(ids, card, 0, found, end) ==> !found
  {
    var ids := TwoDevices(chip, card);
    assert Count(ids, card, 1) == 0;
    forall found, end | SearchEnds(ids, card, 0, found, end)
      ensures !found
    {
      assert ids[1] == ALL_ONES && Populated(ids, 1);
      FoundBeforeGap(ids, card, 0, found, end, 1);
    }
  }
}
