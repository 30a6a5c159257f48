/** ROM shadowing on the Intel 440FX (chipsets/440fx.c).

    Accesses between C0000h and FFFFFh go to DRAM or to the ROM behind it, as the PAM
    registers at configuration offsets 59h to 5Fh say.  Each of them holds two fields of two
    bits: bit 0 enables reads from DRAM, bit 1 writes to it. */
module Shadow {
  import opened Types
  import opened Pci

  const WRITE_ONLY: u8 := 2
  const READ_WRITE: u8 := 3

  // Segments are numbered as in the source: 1 is F0000 (64K), 2 to 13 are C0000 to EC000
  // (16K each).  0 stands for the reserved low nibble of the first register.
  const F0000_64 := 1
  const C0000_16 := 2
  const D0000_16 := 6
  const E0000_16 := 10

  const PAM_BASE: u8 := 0x59

  function PamOffset(segment: int): u8
    requires 0 <= segment <= 13
  {
    PAM_BASE + segment / 2
  }

  function Nibble(reg: u8, n: int): int {
    if n == 1 then reg / 16 else reg % 16
  }

  function Field(reg: u8, n: int): u8 {
    Nibble(reg, n) % 4
  }

  /** The two bits of a nibble above its field. */
  function Reserved(reg: u8, n: int): int {
    Nibble(reg, n) / 4
  }

  /** (reg & mask) | (mode << shift), where the mask keeps all but the field: CFh for the high
      nibble, FCh for the low one. */
  function WithField(reg: u8, n: int, mode: u8): u8
    requires 0 <= n < 2 && mode < 4
  {
    if n == 1 then 16 * (reg / 16 - reg / 16 % 4 + mode) + reg % 16
    else 16 * (reg / 16) + (reg % 16 - reg % 4 + mode)
  }

  lemma FieldReplaced(reg: u8, n: int, mode: u8)
    requires 0 <= n < 2 && mode < 4
    ensures var r := WithField(reg, n, mode);
      && Field(r, n) == mode && Field(r, 1 - n) == Field(reg, 1 - n)
      && Reserved(r, 0) == Reserved(reg, 0) && Reserved(r, 1) == Reserved(reg, 1)
  {
    var low, high := reg % 16, reg / 16;
    assert reg % 4 == low % 4;
    if n == 1 {
      NibbleField(high, mode);
      Nibbles(high - high % 4 + mode, low);
    } else {
      NibbleField(low, mode);
      Nibbles(high, low - low % 4 + mode);
    }
  }

  lemma Nibbles(high: int, low: int)
    requires 0 <= low < 16
    ensures (16 * high + low) % 16 == low && (16 * high + low) / 16 == high
  {
  }

  lemma NibbleField(x: int, mode: u8)
    requires 0 <= x < 16 && mode < 4
    ensures 0 <= x - x % 4 + mode < 16
    ensures (x - x % 4 + mode) % 4 == mode && (x - x % 4 + mode) / 4 == x / 4
  {
  }

  /** The PAM field of a segment, in configuration cells `c` from `space` on. */
  function FieldOf(c: int -> u8, space: int, segment: int): u8
    requires 0 <= segment <= 13
  {
    Field(c(space + PamOffset(segment)), segment % 2)
  }

  function ReservedOf(c: int -> u8, space: int, segment: int): int
    requires 0 <= segment <= 13
  {
    Reserved(c(space + PamOffset(segment)), segment % 2)
  }

  /** Configuration cells `now` are those of `was`, but that the PAM fields of the segments in
      `segments` are `mode`: every other field, the reserved bits beside the fields and every
      byte outside the PAM registers are the same. */
  ghost predicate OnlyFields(was: int -> u8, now: int -> u8, space: int, segments: int -> bool, mode: u8) {
    && (forall a | !(space + 0x59 <= a <= space + 0x5F) :: now(a) == was(a))
    && (forall s | 0 <= s <= 13 :: ReservedOf(now, space, s) == ReservedOf(was, space, s))
    && (forall s | 0 <= s <= 13 :: FieldOf(now, space, s) == if segments(s) then mode else FieldOf(was, space, s))
  }

  lemma ByteToFields(was: int -> u8, now: int -> u8, space: int, segment: int, mode: u8)
    requires 0 <= segment <= 13 && mode < 4
    requires var at := space + PamOffset(segment);
      && now(at) == WithField(was(at), segment % 2, mode)
      && (forall a | a != at :: now(a) == was(a))
    ensures OnlyFields(was, now, space, s => s == segment, mode)
  {
    var at := space + PamOffset(segment);
    FieldReplaced(was(at), segment % 2, mode);
    forall s | 0 <= s <= 13
      ensures ReservedOf(now, space, s) == ReservedOf(was, space, s)
      ensures FieldOf(now, space, s) == if s == segment then mode else FieldOf(was, space, s)
    {
      if space + PamOffset(s) == at {
        assert s == segment || s % 2 == 1 - segment % 2;
      }
    }
  }

  /** The segment that decides where an access between C0000h and FFFFFh goes. */
  function SegmentOf(a: int): int
    requires 0xC_0000 <= a < 0x10_0000
  {
    if a >= 0xF_0000 then F0000_64 else C0000_16 + (a - 0xC_0000) / 0x4000
  }

  function SegmentStart(s: int): int {
    if s == F0000_64 then 0xF_0000 else 0xC_0000 + (s - C0000_16) * 0x4000
  }

  /** The segments that start in a region. */
  function Covered(address: int, len: int): int -> bool {
    s => 1 <= s <= 13 && address <= SegmentStart(s) < address + len
  }

  /** The calls that chipset_shadow_rom_from_src does not refuse. */
  predicate Accepted(address: u32, len: u32) {
    if address == 0xF_0000 then len % 0x1_0000 == 0
    else address in {0xC_0000, 0xD_0000, 0xE_0000} && len % 0x4000 == 0 && 0 < len
         && (len <= 0x1_0000 || len == 0x2_0000)
  }

  /** These are: 16K to 64K in steps of 16K, or 128K, at C0000h, D0000h and E0000h, and multiples of 64K
      at F0000h. */
  lemma AcceptedCalls(address: u32, len: u32)
    ensures Accepted(address, len) <==>
      || (address in {0xC_0000, 0xD_0000, 0xE_0000} && len in {0x4000, 0x8000, 0xC000, 0x1_0000, 0x2_0000})
      || (address == 0xF_0000 && len % 0x1_0000 == 0)
  {
  }

  /** The layout of the registers: 59h has F0000h to FFFFFh in its upper half, and 5Ah to 5Fh have 16K
      from C0000h on in each half, the lower first.  Bit 0 of the half sends reads to DRAM, bit 1 writes. */
  lemma RegisterLayout(c: int -> u8, space: int, rom: int -> u8, dram: int -> u8, a: int)
    requires 0xC_0000 <= a < 0x10_0000
    ensures var k := (a - 0xC_0000) / 0x4000;
      var half := if a >= 0xF_0000 then c(space + 0x59) / 0x10
        else if k % 2 == 0 then c(space + 0x5A + k / 2) else c(space + 0x5A + k / 2) / 0x10;
      && ReadIn(c, space, rom, dram, a) == (if half % 2 == 1 then dram(a) else rom(a))
      && (TakesWrites(c, space, a) <==> half / 2 % 2 == 1)
  {
    var reg := c(space + PamOffset(SegmentOf(a)));
    LowerHalf(reg);
    if a < 0xF_0000 {
      var k := (a - 0xC_0000) / 0x4000;
      assert PamOffset(SegmentOf(a)) == 0x5A + k / 2;
    }
  }

  lemma LowerHalf(reg: u8)
    ensures Field(reg, 0) % 2 == reg % 2 && Field(reg, 0) / 2 == reg / 2 % 2
    ensures Field(reg, 1) % 2 == reg / 0x10 % 2 && Field(reg, 1) / 2 == reg / 0x10 / 2 % 2
  {
    FieldBits(reg);
    FieldBits(reg / 0x10);
    assert reg % 0x10 % 4 == reg % 4;
  }

  lemma FieldBits(x: u8)
    ensures x % 4 % 2 == x % 2 && x % 4 / 2 == x / 2 % 2
  {
  }

  /** An accepted region is exactly its segments. */
  lemma CoveredAddresses(address: u32, len: u32, a: int)
    requires Accepted(address, len) && (address == 0xF_0000 ==> len == 0x1_0000)
    requires 0xC_0000 <= a < 0x10_0000
    ensures Covered(address, len)(SegmentOf(a)) <==> address <= a < address + len
  {
  }

  /** What a read by the processor returns, given configuration cells and the two memories. */
  function ReadIn(c: int -> u8, space: int, rom: int -> u8, dram: int -> u8, a: int): u8 {
    if 0xC_0000 <= a < 0x10_0000 && FieldOf(c, space, SegmentOf(a)) % 2 == 0 then rom(a) else dram(a)
  }

  predicate InRun(first: int, num: int, a: int) {
    0xC_0000 <= a < 0x10_0000 && first <= SegmentOf(a) < first + num
  }

  /** What a read returns while the segments of a run are write-only. */
  function ReadPast(c: int -> u8, space: int, rom: int -> u8, dram: int -> u8, first: int, num: int, a: int): u8 {
    if InRun(first, num, a) then rom(a) else ReadIn(c, space, rom, dram, a)
  }

  /** The byte that a source address stands for: the ROM's where it lies inside the region. */
  function SourceIn(c: int -> u8, space: int, rom: int -> u8, dram: int -> u8, address: int, len: int, a: int): u8 {
    if address <= a < address + len then rom(a) else ReadIn(c, space, rom, dram, a)
  }

  predicate ReadsDram(c: int -> u8, space: int, a: int) {
    0xC_0000 <= a < 0x10_0000 ==> FieldOf(c, space, SegmentOf(a)) % 2 == 1
  }

  predicate TakesWrites(c: int -> u8, space: int, a: int) {
    0xC_0000 <= a < 0x10_0000 ==> FieldOf(c, space, SegmentOf(a)) / 2 == 1
  }

  /** Which byte of a copy to `address` an address gets; the copy may run over the end of the
      address space. */
  function Index(address: u32, a: int): int {
    if a >= address then a - address else a - address + U32
  }

  lemma IndexOf(address: u32, a: int, i: nat)
    requires 0 <= a < U32 && i < U32
    ensures 0 <= Index(address, a) < U32 && (Index(address, a) == i <==> a == Pointer(address, i))
  {
  }

  /** An address is written by a copy of `n` bytes while the segments of a run are write-only. */
  predicate InCopy(c: int -> u8, space: int, first: int, num: int, address: u32, n: nat, a: int) {
    0 <= a < U32 && Index(address, a) < n && (InRun(first, num, a) || TakesWrites(c, space, a))
  }

  /** Byte `i` of a copy that runs upwards while the segments of a run are write-only: where the
      source is a byte that the copy has already written, and reads see it, the copy of that one. */
  function CopiedIn(c: int -> u8, space: int, rom: int -> u8, dram: int -> u8, first: int, num: int,
                    address: u32, src: u32, i: nat): u8
    decreases i
  {
    var a := Pointer(src, i);
    var j := Index(address, a);
    if 0 <= j < i && !InRun(first, num, a) && ReadsDram(c, space, a) && TakesWrites(c, space, a)
    then CopiedIn(c, space, rom, dram, first, num, address, src, j)
    else ReadPast(c, space, rom, dram, first, num, a)
  }

  /** The first `n` bytes of a copy have been written since DRAM was `was`, and nothing else. */
  ghost predicate CopiedUpTo(c: int -> u8, space: int, rom: int -> u8, was: int -> u8, dram: int -> u8,
                             first: int, num: int, address: u32, src: u32, n: nat) {
    && (forall a | InCopy(c, space, first, num, address, n, a) && Index(address, a) >= 0 ::
          dram(a) == CopiedIn(c, space, rom, was, first, num, address, src, Index(address, a)))
    && (forall a | !InCopy(c, space, first, num, address, n, a) :: dram(a) == was(a))
  }

  lemma NextByte(c: int -> u8, space: int, rom: int -> u8, was: int -> u8, dram: int -> u8, dram': int -> u8,
      address: u32, src: u32, i: nat)
    requires CopiedUpTo(c, space, rom, was, dram, C0000_16, 0, address, src, i) && i < U32
    requires var at := Pointer(address, i);
      forall b :: dram'(b) ==
        if b == at && TakesWrites(c, space, at) then ReadIn(c, space, rom, dram, Pointer(src, i)) else dram(b)
    ensures CopiedUpTo(c, space, rom, was, dram', C0000_16, 0, address, src, i + 1)
  {
    var v := Pointer(src, i);
    IndexOf(address, v, i);
    assert ReadIn(c, space, rom, dram, v) == CopiedIn(c, space, rom, was, C0000_16, 0, address, src, i) by {
      if InCopy(c, space, C0000_16, 0, address, i, v) {
        assert dram(v) == CopiedIn(c, space, rom, was, C0000_16, 0, address, src, Index(address, v));
      }
    }
    forall a
      ensures InCopy(c, space, C0000_16, 0, address, i + 1, a) <==>
        InCopy(c, space, C0000_16, 0, address, i, a) || (a == Pointer(address, i) && TakesWrites(c, space, a))
      ensures InCopy(c, space, C0000_16, 0, address, i, a) ==> a != Pointer(address, i)
    {
      if 0 <= a < U32 {
        IndexOf(address, a, i);
      }
    }
    IndexOf(address, Pointer(address, i), i);
  }

  /** Making the run write-only is what the run of CopiedIn stands for. */
  lemma {:induction false} CopiedPast(c: int -> u8, c': int -> u8, space: int, rom: int -> u8, dram: int -> u8,
      first: int, num: int, address: u32, src: u32, i: nat)
    requires OnlyFields(c, c', space, s => first <= s < first + num, WRITE_ONLY)
    ensures CopiedIn(c', space, rom, dram, C0000_16, 0, address, src, i) ==
      CopiedIn(c, space, rom, dram, first, num, address, src, i)
    decreases i
  {
    var j := Index(address, Pointer(src, i));
    if 0 <= j < i {
      CopiedPast(c, c', space, rom, dram, first, num, address, src, j);
    }
  }

  lemma CopyPast(c: int -> u8, c': int -> u8, space: int, rom: int -> u8, was: int -> u8, dram: int -> u8,
      first: int, num: int, address: u32, src: u32, n: nat)
    requires OnlyFields(c, c', space, s => first <= s < first + num, WRITE_ONLY)
    requires CopiedUpTo(c', space, rom, was, dram, C0000_16, 0, address, src, n)
    ensures CopiedUpTo(c, space, rom, was, dram, first, num, address, src, n)
  {
    forall a
      ensures InCopy(c', space, C0000_16, 0, address, n, a) == InCopy(c, space, first, num, address, n, a)
    {
    }
    forall a | InCopy(c, space, first, num, address, n, a) && Index(address, a) >= 0
      ensures dram(a) == CopiedIn(c, space, rom, was, first, num, address, src, Index(address, a))
    {
      CopiedPast(c, c', space, rom, was, first, num, address, src, Index(address, a));
    }
  }

  /** A region that is all in the run gets its source. */
  lemma RunCopies(c: int -> u8, space: int, rom: int -> u8, dram: int -> u8, first: int, num: int,
                  address: u32, len: u32, src: u32, i: nat)
    requires forall a | 0xC_0000 <= a < 0x10_0000 :: InRun(first, num, a) <==> address <= a < address + len
    requires 0xC_0000 <= address && address + len <= 0x10_0000 && i < len
    ensures CopiedIn(c, space, rom, dram, first, num, address, src, i) ==
      SourceIn(c, space, rom, dram, address, len, Pointer(src, i))
  {
  }

  /** Byte `i` of a 128K region.  The copy of the whole region follows the one of its upper half,
      which it reads back where the source lies there, or overwrites before. */
  function DoubledIn(c: int -> u8, space: int, rom: int -> u8, dram: int -> u8, address: u32, src: u32, i: nat): u8
    decreases i
  {
    var a := Pointer(src, i);
    if address + 0x1_0000 <= a < address + 0x2_0000 then
      if a < address + i then DoubledIn(c, space, rom, dram, address, src, a - address)
      else SourceIn(c, space, rom, dram, address + 0x1_0000, 0x1_0000, Pointer(src, a - address))
    else SourceIn(c, space, rom, dram, address, 0x1_0000, a)
  }

  /** That is the source itself, when it is the region or keeps clear of the upper half. */
  lemma DoubledIsSource(c: int -> u8, space: int, rom: int -> u8, dram: int -> u8, address: u32, src: u32, i: nat)
    requires address in {0xC_0000, 0xD_0000, 0xE_0000} && Shadowable(address, 0x2_0000, src) && i < 0x2_0000
    ensures DoubledIn(c, space, rom, dram, address, src, i) ==
      SourceIn(c, space, rom, dram, address, 0x2_0000, Pointer(src, i))
  {
    if src == address {
      assert Pointer(src, i) == address + i;
    }
  }

  /** From a source that starts `d` bytes below the region, all that would come from the upper half repeats
      what the copy has put `d` bytes before. */
  lemma DoubledRepeats(c: int -> u8, space: int, rom: int -> u8, dram: int -> u8, address: u32, d: nat, i: nat)
    requires address in {0xC_0000, 0xD_0000, 0xE_0000} && 0 < d <= address && 0x1_0000 + d <= i < 0x2_0000
    ensures DoubledIn(c, space, rom, dram, address, address - d, i) ==
      DoubledIn(c, space, rom, dram, address, address - d, i - d)
  {
    assert Pointer(address - d, i) == address + (i - d);
  }

  /** What an accepted call leaves in byte `i` of its region. */
  function FinalByte(c: int -> u8, space: int, rom: int -> u8, dram: int -> u8,
                     address: u32, len: u32, src: u32, i: nat): u8 {
    if address == 0xF_0000 then CopiedIn(c, space, rom, dram, F0000_64, 1, address, src, i)
    else if len == 0x2_0000 then DoubledIn(c, space, rom, dram, address, src, i)
    else SourceIn(c, space, rom, dram, address, len, Pointer(src, i))
  }

  /** The addresses that an accepted call writes: the region, but at F0000h as much of a longer one as
      the other segments let through. */
  predicate Written(c: int -> u8, space: int, address: u32, len: u32, a: int) {
    if address == 0xF_0000 then InCopy(c, space, F0000_64, 1, address, len, a) else address <= a < address + len
  }

  /** Memory after an accepted call, at one address. */
  predicate FinalAt(c: int -> u8, space: int, rom: int -> u8, dram: int -> u8, dram': int -> u8,
                    address: u32, len: u32, src: u32, a: int) {
    if Written(c, space, address, len, a) && Index(address, a) >= 0
    then dram'(a) == FinalByte(c, space, rom, dram, address, len, src, Index(address, a)) else dram'(a) == dram(a)
  }

  /** That is the source byte: always, but for sources of a 128K region that overlap its upper
      half, and for regions that go on beyond 1M. */
  lemma FinalIsSource(c: int -> u8, space: int, rom: int -> u8, dram: int -> u8,
                      address: u32, len: u32, src: u32, i: nat)
    requires Accepted(address, len) && Shadowable(address, len, src) && i < len
    ensures FinalByte(c, space, rom, dram, address, len, src, i) ==
      SourceIn(c, space, rom, dram, address, len, Pointer(src, i))
    ensures Written(c, space, address, len, address + i) && Index(address, address + i) == i
  {
    if address == 0xF_0000 {
      RunCopies(c, space, rom, dram, F0000_64, 1, address, len, src, i);
    } else if len == 0x2_0000 {
      DoubledIsSource(c, space, rom, dram, address, src, i);
    }
  }

  /** With such a source the region gets it and nothing else is written. */
  lemma RegionFinal(c: int -> u8, space: int, rom: int -> u8, dram: int -> u8, dram': int -> u8,
                    address: u32, len: u32, src: u32)
    requires Accepted(address, len) && Shadowable(address, len, src)
    requires forall a :: FinalAt(c, space, rom, dram, dram', address, len, src, a)
    ensures forall a | !(address <= a < address + len) :: dram'(a) == dram(a)
    ensures forall a | address <= a < address + len ::
      dram'(a) == SourceIn(c, space, rom, dram, address, len, Pointer(src, a - address))
  {
    forall a | address <= a < address + len
      ensures dram'(a) == SourceIn(c, space, rom, dram, address, len, Pointer(src, a - address))
    {
      assert FinalAt(c, space, rom, dram, dram', address, len, src, a);
      FinalIsSource(c, space, rom, dram, address, len, src, a - address);
    }
    forall a | !(address <= a < address + len)
      ensures dram'(a) == dram(a)
    {
      assert FinalAt(c, space, rom, dram, dram', address, len, src, a);
    }
  }

  lemma SelfRegion(c: int -> u8, space: int, rom: int -> u8, dram: int -> u8, dram': int -> u8, address: u32, len: u32)
    requires Accepted(address, len) && (address == 0xF_0000 ==> len == 0x1_0000)
    requires forall a | address <= a < address + len ::
      dram'(a) == SourceIn(c, space, rom, dram, address, len, Pointer(address, a - address))
    ensures forall a | address <= a < address + len :: dram'(a) == rom(a)
  {
    forall a | address <= a < address + len
      ensures dram'(a) == rom(a)
    {
      assert Pointer(address, a - address) == a;
    }
  }

  /** What the nested call leaves: its part of the source in the upper half. */
  ghost predicate Nested(c: int -> u8, space: int, rom: int -> u8, dram: int -> u8, dram': int -> u8,
                         address: u32, src: u32) {
    && (forall a | !(address + 0x1_0000 <= a < address + 0x2_0000) :: dram'(a) == dram(a))
    && (forall a | address + 0x1_0000 <= a < address + 0x2_0000 ::
          dram'(a) == SourceIn(c, space, rom, dram, address + 0x1_0000, 0x1_0000, Pointer(src, a - address)))
  }

  /** The copy of the whole region, after the nested call. */
  lemma {:induction false} SecondCopy(c: int -> u8, c': int -> u8, space: int, rom: int -> u8, dram: int -> u8,
      dram': int -> u8, address: u32, src: u32, i: nat)
    requires address in {0xC_0000, 0xD_0000, 0xE_0000} && i < 0x2_0000
    requires OnlyFields(c, c', space, Covered(address + 0x1_0000, 0x1_0000), READ_WRITE)
    requires Nested(c, space, rom, dram, dram', address, src)
    ensures CopiedIn(c', space, rom, dram', C0000_16 + (address - 0xC_0000) / 0x4000, 4, address, src, i) ==
      DoubledIn(c, space, rom, dram, address, src, i)
    decreases i
  {
    var a := Pointer(src, i);
    if 0xC_0000 <= a < 0x10_0000 {
      UpperFields(c, c', space, address, a);
    }
    if address <= a < address + i {
      SecondCopy(c, c', space, rom, dram, dram', address, src, a - address);
    }
  }

  /** The segments that a call sets: those that start in its region.  At F0000h it is always that one. */
  function Segments(address: int, len: int): int -> bool {
    if address == 0xF_0000 then s => s == F0000_64 else Covered(address, len)
  }

  /** The run of segments of a call without recursion. */
  lemma RunOf(address: u32, len: u32, first: int, num: int)
    requires Accepted(address, len) && (address != 0xF_0000 ==> len <= 0x1_0000)
    requires if address == 0xF_0000 then first == F0000_64 && num == 1
      else first == C0000_16 + (address - 0xC_0000) / 0x4000 && num == len / 0x4000
    ensures forall s | 0 <= s <= 13 :: Segments(address, len)(s) <==> first <= s < first + num
    ensures forall a | 0xC_0000 <= a < 0x10_0000 ::
      InRun(first, num, a) <==> address <= a < address + (if address == 0xF_0000 then 0x1_0000 else len)
  {
  }

  lemma PointerTwice(src: u32, n: nat, k: nat)
    ensures Pointer(Pointer(src, n), k) == Pointer(src, n + k)
  {
  }

  /** The nested call leaves in the upper half what its own part of the source gives. */
  lemma UpperHalf(c: int -> u8, c': int -> u8, space: int, rom: int -> u8, dram: int -> u8, dram': int -> u8,
      address: u32, src: u32)
    requires address in {0xC_0000, 0xD_0000, 0xE_0000}
    requires forall a | address + 0x1_0000 <= a < address + 0x2_0000 ::
      dram'(a) == SourceIn(c, space, rom, dram, address + 0x1_0000, 0x1_0000,
                           Pointer(Pointer(src, 0x1_0000), a - (address + 0x1_0000)))
    ensures forall a | address + 0x1_0000 <= a < address + 0x2_0000 ::
      dram'(a) == SourceIn(c, space, rom, dram, address + 0x1_0000, 0x1_0000, Pointer(src, a - address))
  {
    forall a | address + 0x1_0000 <= a < address + 0x2_0000
      ensures dram'(a) == SourceIn(c, space, rom, dram, address + 0x1_0000, 0x1_0000, Pointer(src, a - address))
    {
      PointerTwice(src, 0x1_0000, a - (address + 0x1_0000));
    }
  }

  lemma FieldsCompose(was: int -> u8, mid: int -> u8, now: int -> u8, space: int, address: int, mode: u8)
    requires address in {0xC_0000, 0xD_0000, 0xE_0000}
    requires OnlyFields(was, mid, space, Covered(address + 0x1_0000, 0x1_0000), mode)
    requires var first := C0000_16 + (address - 0xC_0000) / 0x4000;
      OnlyFields(mid, now, space, s => first <= s < first + 4, mode)
    ensures OnlyFields(was, now, space, Covered(address, 0x2_0000), mode)
  {
  }

  // After the upper half of a 128K region has been shadowed, its segments are read-write.
  lemma UpperFields(c: int -> u8, c': int -> u8, space: int, address: int, a: int)
    requires address in {0xC_0000, 0xD_0000, 0xE_0000} && 0xC_0000 <= a < 0x10_0000
    requires OnlyFields(c, c', space, Covered(address + 0x1_0000, 0x1_0000), READ_WRITE)
    ensures FieldOf(c', space, SegmentOf(a)) ==
      (if address + 0x1_0000 <= a < address + 0x2_0000 then READ_WRITE else FieldOf(c, space, SegmentOf(a)))
    ensures InRun(C0000_16 + (address - 0xC_0000) / 0x4000, 4, a) <==> address <= a < address + 0x1_0000
  {
  }

  /** The outer copy writes the whole region. */
  lemma SecondWritable(c: int -> u8, c': int -> u8, space: int, address: u32, a: int)
    requires address in {0xC_0000, 0xD_0000, 0xE_0000}
    requires OnlyFields(c, c', space, Covered(address + 0x1_0000, 0x1_0000), READ_WRITE)
    ensures InCopy(c', space, C0000_16 + (address - 0xC_0000) / 0x4000, 4, address, 0x2_0000, a) <==>
      address <= a < address + 0x2_0000
  {
    if 0xC_0000 <= a < 0x10_0000 {
      UpperFields(c, c', space, address, a);
    }
  }

  /** One copy, at one address. */
  lemma OnceAt(c: int -> u8, space: int, rom: int -> u8, dram: int -> u8, dram': int -> u8, first: int, num: int,
               address: u32, len: u32, src: u32, a: int)
    requires Accepted(address, len) && (address != 0xF_0000 ==> len <= 0x1_0000)
    requires if address == 0xF_0000 then first == F0000_64 && num == 1
      else first == C0000_16 + (address - 0xC_0000) / 0x4000 && num == len / 0x4000
    requires CopiedUpTo(c, space, rom, dram, dram', first, num, address, src, len)
    ensures FinalAt(c, space, rom, dram, dram', address, len, src, a)
  {
    RunOf(address, len, first, num);
    if address != 0xF_0000 && address <= a < address + len {
      RunCopies(c, space, rom, dram, first, num, address, len, src, a - address);
    }
  }

  /** The two copies together. */
  lemma BothCopies(c: int -> u8, c': int -> u8, space: int, rom: int -> u8, dram: int -> u8, dram': int -> u8,
      dram'': int -> u8, address: u32, src: u32)
    requires address in {0xC_0000, 0xD_0000, 0xE_0000}
    requires OnlyFields(c, c', space, Covered(address + 0x1_0000, 0x1_0000), READ_WRITE)
    requires Nested(c, space, rom, dram, dram', address, src)
    requires var first := C0000_16 + (address - 0xC_0000) / 0x4000;
      CopiedUpTo(c', space, rom, dram', dram'', first, 4, address, src, 0x2_0000)
    ensures forall a :: FinalAt(c, space, rom, dram, dram'', address, 0x2_0000, src, a)
  {
    forall a
      ensures FinalAt(c, space, rom, dram, dram'', address, 0x2_0000, src, a)
    {
      BothCopiesAt(c, c', space, rom, dram, dram', dram'', address, src, a);
    }
  }

  lemma BothCopiesAt(c: int -> u8, c': int -> u8, space: int, rom: int -> u8, dram: int -> u8, dram': int -> u8,
      dram'': int -> u8, address: u32, src: u32, a: int)
    requires address in {0xC_0000, 0xD_0000, 0xE_0000}
    requires OnlyFields(c, c', space, Covered(address + 0x1_0000, 0x1_0000), READ_WRITE)
    requires Nested(c, space, rom, dram, dram', address, src)
    requires var first := C0000_16 + (address - 0xC_0000) / 0x4000;
      CopiedUpTo(c', space, rom, dram', dram'', first, 4, address, src, 0x2_0000)
    ensures FinalAt(c, space, rom, dram, dram'', address, 0x2_0000, src, a)
  {
    SecondWritable(c, c', space, address, a);
    if address <= a < address + 0x2_0000 {
      SecondCopy(c, c', space, rom, dram, dram', address, src, a - address);
    }
  }

  class Machine {
    const bus: Bus
    const base: u32
    const rom: int -> u8
    var dram: int -> u8

    constructor (bus: Bus, base: u32, rom: int -> u8, dram: int -> u8)
      ensures this.bus == bus && this.base == base && this.rom == rom && this.dram == dram
    {
      this.bus, this.base, this.rom, this.dram := bus, base, rom, dram;
    }

    /** The PAM registers take a new value for a field with the rest as it was, and they and the one
        byte that shares a dword with them, at 58h, take their own value. */
    ghost predicate Valid() {
      && (forall a, b, n, mode | 0x59 <= a - Space(base) <= 0x5F && 0 <= n < 2 && mode < 4 ::
            bus.latch(a, b, WithField(b, n, mode)) == WithField(b, n, mode))
      && (forall a, b | 0x58 <= a - Space(base) <= 0x5F :: bus.latch(a, b, b) == b)
    }

    function Mode(segment: int): u8
      requires 0 <= segment <= 13
      reads bus
    {
      FieldOf(bus.cells, Space(base), segment)
    }

    /** What a read by the processor returns. */
    function CpuRead(a: int): u8
      reads this, bus
    {
      ReadIn(bus.cells, Space(base), rom, dram, a)
    }

    method CpuWrite(a: int, v: u8)
      modifies this`dram
      ensures var dropped := 0xC_0000 <= a < 0x10_0000 && Mode(SegmentOf(a)) / 2 == 0;
        forall b :: dram(b) == if b == a && !dropped then v else old(dram)(b)
    {
      if 0xC_0000 <= a < 0x10_0000 && Mode(SegmentOf(a)) / 2 == 0 {
        return;
      }
      var was := dram;
      dram := (b: int) => (if b == a then v else was(b));
    }

    method SetMode(segment: int, mode: u8)
      requires Valid() && 0 < segment <= 13 && mode < 4
      modifies bus
      ensures OnlyFields(old(bus.cells), bus.cells, Space(base), s => s == segment, mode)
    {
      var offset := PAM_BASE + segment / 2;
      var which := segment % 2;
      var reg := bus.ConfigReadB(base, offset);
      bus.ConfigWriteB(base, offset, WithField(reg, which, mode));
      ByteToFields(old(bus.cells), bus.cells, Space(base), segment, mode);
    }

    /** The loops that set the mode of consecutive segments. */
    method SetModes(first: int, num: int, mode: u8)
      requires Valid() && 0 < first && 0 <= num && first + num <= 14 && mode < 4
      modifies bus
      ensures OnlyFields(old(bus.cells), bus.cells, Space(base), s => first <= s < first + num, mode)
    {
      for i := 0 to num
        invariant OnlyFields(old(bus.cells), bus.cells, Space(base), s => first <= s < first + i, mode)
      {
        SetMode(first + i, mode);
      }
    }

    /** region[i] = src_region[i] */
    method CopyByte(address: u32, src: u32, i: nat)
      modifies this`dram
      ensures var at := Pointer(address, i);
        forall b :: dram(b) ==
          if b == at && TakesWrites(bus.cells, Space(base), at) then old(CpuRead(Pointer(src, i))) else old(dram)(b)
    {
      var v := CpuRead(Pointer(src, i));
      CpuWrite(Pointer(address, i), v);
    }

    /** The copy, upwards. */
    method CopyRegion(address: u32, len: u32, src: u32)
      modifies this`dram
      ensures CopiedUpTo(bus.cells, Space(base), rom, old(dram), dram, C0000_16, 0, address, src, len)
      ensures len == 0 ==> dram == old(dram)
    {
      ghost var was := dram;
      for i := 0 to len
        invariant CopiedUpTo(bus.cells, Space(base), rom, was, dram, C0000_16, 0, address, src, i)
        invariant i == 0 ==> dram == was
      {
        ghost var mid := dram;
        CopyByte(address, src, i);
        NextByte(bus.cells, Space(base), rom, was, mid, dram, address, src, i);
      }
    }

    /** Both mode flips and the copy between them. */
    method ShadowRun(first: int, num: int, address: u32, len: u32, src: u32)
      requires Valid() && 0 < first && 0 <= num && first + num <= 14
      modifies this`dram, bus
      ensures OnlyFields(old(bus.cells), bus.cells, Space(base), s => first <= s < first + num, READ_WRITE)
      ensures CopiedUpTo(old(bus.cells), Space(base), rom, old(dram), dram, first, num, address, src, len)
      ensures len == 0 ==> dram == old(dram)
    {
      SetModes(first, num, WRITE_ONLY);
      ghost var cells, was := bus.cells, dram;
      CopyRegion(address, len, src);
      CopyPast(old(bus.cells), cells, Space(base), rom, was, dram, first, num, address, src, len);
      SetModes(first, num, READ_WRITE);
    }

    /** The upper half by a nested call, then the lower half with a copy of the whole region. */
    method ShadowTwice(first: int, address: u32, src: u32)
      requires Valid() && address in {0xC_0000, 0xD_0000, 0xE_0000} && first == C0000_16 + (address - 0xC_0000) / 0x4000
      modifies this`dram, bus
      ensures OnlyFields(old(bus.cells), bus.cells, Space(base), Covered(address, 0x2_0000), READ_WRITE)
      ensures forall a :: FinalAt(old(bus.cells), Space(base), rom, old(dram), dram, address, 0x2_0000, src, a)
      decreases 0x2_0000, 0
    {
      var _ := ShadowRomFromSrc(address + 0x1_0000, 0x1_0000, Pointer(src, 0x1_0000));
      ghost var cells, mid := bus.cells, dram;
      RegionFinal(old(bus.cells), Space(base), rom, old(dram), mid, address + 0x1_0000, 0x1_0000, Pointer(src, 0x1_0000));
      UpperHalf(old(bus.cells), cells, Space(base), rom, old(dram), mid, address, src);
      ShadowRun(first, 4, address, 0x2_0000, src);
      BothCopies(old(bus.cells), cells, Space(base), rom, old(dram), mid, dram, address, src);
      FieldsCompose(old(bus.cells), cells, bus.cells, Space(base), address, READ_WRITE);
    }

    /** Shadowing cannot be noticed by a reader of the region, and nothing else moves. */
    method ShadowRomFromSrc(address: u32, len: u32, src: u32) returns (ok: bool)
      requires Valid()
      modifies this`dram, bus
      ensures ok == Accepted(address, len)
      ensures !ok ==> dram == old(dram) && bus.cells == old(bus.cells)
      ensures ok ==> OnlyFields(old(bus.cells), bus.cells, Space(base), Segments(address, len), READ_WRITE)
      ensures ok ==>
        forall a :: FinalAt(old(bus.cells), Space(base), rom, old(dram), dram, address, len, src, a)
      ensures ok && len == 0 ==> dram == old(dram)
      decreases len, 1
    {
      var first, num;
      if address == 0xC_0000 || address == 0xD_0000 || address == 0xE_0000 {
        first := if address == 0xC_0000 then C0000_16 else if address == 0xD_0000 then D0000_16 else E0000_16;
        if len % 0x4000 != 0 {
          return false;
        }
        num := len / 0x4000;
        if num > 4 {
          if num == 8 {
            ShadowTwice(first, address, src);
            return true;
          }
          return false;
        }
      } else if address == 0xF_0000 {
        first := F0000_64;
        if len % 0x1_0000 != 0 {
          return false;
        }
        num := 1;
      } else {
        return false;
      }
      if num == 0 {
        return false;
      }
      ShadowOnce(first, num, address, len, src);
      ok := true;
    }

    /** The calls without recursion. */
    method ShadowOnce(first: int, num: int, address: u32, len: u32, src: u32)
      requires Valid() && Accepted(address, len) && (address != 0xF_0000 ==> len <= 0x1_0000)
      requires if address == 0xF_0000 then first == F0000_64 && num == 1
        else first == C0000_16 + (address - 0xC_0000) / 0x4000 && num == len / 0x4000
      modifies this`dram, bus
      ensures OnlyFields(old(bus.cells), bus.cells, Space(base), Segments(address, len), READ_WRITE)
      ensures forall a :: FinalAt(old(bus.cells), Space(base), rom, old(dram), dram, address, len, src, a)
      ensures len == 0 ==> dram == old(dram)
    {
      RunOf(address, len, first, num);
      ShadowRun(first, num, address, len, src);
      forall a
        ensures FinalAt(old(bus.cells), Space(base), rom, old(dram), dram, address, len, src, a)
      {
        OnceAt(old(bus.cells), Space(base), rom, old(dram), dram, first, num, address, len, src, a);
      }
    }

    /** chipset_shadow_rom: a region shadowed from itself.  Afterwards the processor reads the
        ROM's bytes in the region, from DRAM, and what it read before everywhere else. */
    method ShadowRom(address: u32, len: u32) returns (ok: bool)
      requires Valid()
      modifies this`dram, bus
      ensures ok == Accepted(address, len)
      ensures address in {0xC_0000, 0xD_0000, 0xE_0000} ==>
        (ok <==> len in {0x4000, 0x8000, 0xC000, 0x1_0000, 0x2_0000})
      ensures address == 0xF_0000 ==> (ok <==> len % 0x1_0000 == 0)
      ensures address !in {0xC_0000, 0xD_0000, 0xE_0000, 0xF_0000} ==> !ok
      ensures !ok ==> forall a :: CpuRead(a) == old(CpuRead(a))
      ensures ok && (address == 0xF_0000 ==> len == 0x1_0000) ==>
        && (forall a | address <= a < address + len :: CpuRead(a) == rom(a) == dram(a))
        && (forall a | !(address <= a < address + len) :: CpuRead(a) == old(CpuRead(a)))
    {
      AcceptedCalls(address, len);
      ok := ShadowRomFromSrc(address, len, address);
      if ok && (address == 0xF_0000 ==> len == 0x1_0000) {
        RegionFinal(old(bus.cells), Space(base), rom, old(dram), dram, address, len, address);
        SelfRegion(old(bus.cells), Space(base), rom, old(dram), dram, address, len);
        AllShadowed(old(bus.cells), bus.cells, Space(base), rom, old(dram), dram, address, len);
      }
    }

    /** An option ROM copied from elsewhere (pci_configure): the processor reads the source's
        bytes in the region, and what it read before everywhere else. */
    method ShadowFrom(address: u32, len: u32, src: u32) returns (ok: bool)
      requires Valid()
      modifies this`dram, bus
      ensures ok == Accepted(address, len)
      ensures ok && (address == 0xF_0000 ==> len == 0x1_0000) && ClearOf(src, len, address, address + len) ==>
        forall i | 0 <= i < len :: CpuRead(address + i) == old(CpuRead(Pointer(src, i)))
      ensures (address == 0xF_0000 ==> len == 0x1_0000) ==>
        forall a | !ok || !(address <= a < address + len) :: CpuRead(a) == old(CpuRead(a))
    {
      ok := ShadowRomFromSrc(address, len, src);
      if ok && (address == 0xF_0000 ==> len == 0x1_0000) {
        OutsideKept(old(bus.cells), Space(base), rom, old(dram), dram, address, len, src);
        AllShadowed(old(bus.cells), bus.cells, Space(base), rom, old(dram), dram, address, len);
        if ClearOf(src, len, address, address + len) {
          RegionFinal(old(bus.cells), Space(base), rom, old(dram), dram, address, len, src);
        }
      }
    }
  }

  lemma OutsideKept(c: int -> u8, space: int, rom: int -> u8, dram: int -> u8, dram': int -> u8,
                    address: u32, len: u32, src: u32)
    requires Accepted(address, len) && (address == 0xF_0000 ==> len == 0x1_0000)
    requires forall a :: FinalAt(c, space, rom, dram, dram', address, len, src, a)
    ensures forall a | !(address <= a < address + len) :: dram'(a) == dram(a)
  {
    forall a | !(address <= a < address + len)
      ensures dram'(a) == dram(a)
    {
      assert FinalAt(c, space, rom, dram, dram', address, len, src, a);
    }
  }

  /** Reading a region whose segments were made read-write gives the DRAM behind it; reading
      anywhere else gives what it gave before. */
  lemma ReadShadowed(c: int -> u8, c': int -> u8, space: int, rom: int -> u8, dram: int -> u8, dram': int -> u8,
      address: u32, len: u32, a: int)
    requires Accepted(address, len) && (address == 0xF_0000 ==> len == 0x1_0000)
    requires OnlyFields(c, c', space, Covered(address, len), READ_WRITE)
    requires forall b | !(address <= b < address + len) :: dram'(b) == dram(b)
    ensures ReadIn(c', space, rom, dram', a) ==
      if address <= a < address + len then dram'(a) else ReadIn(c, space, rom, dram, a)
  {
    if 0xC_0000 <= a < 0x10_0000 {
      CoveredAddresses(address, len, a);
    }
  }

  lemma AllShadowed(c: int -> u8, c': int -> u8, space: int, rom: int -> u8, dram: int -> u8, dram': int -> u8,
      address: u32, len: u32)
    requires Accepted(address, len) && (address == 0xF_0000 ==> len == 0x1_0000)
    requires OnlyFields(c, c', space, Covered(address, len), READ_WRITE)
    requires forall b | !(address <= b < address + len) :: dram'(b) == dram(b)
    ensures forall a ::
      ReadIn(c', space, rom, dram', a) ==
      if address <= a < address + len then dram'(a) else ReadIn(c, space, rom, dram, a)
  {
    forall a
      ensures ReadIn(c', space, rom, dram', a) ==
        if address <= a < address + len then dram'(a) else ReadIn(c, space, rom, dram, a)
    {
      ReadShadowed(c, c', space, rom, dram, dram', address, len, a);
    }
  }

  /** src + i, in 32 bits */
  function Pointer(src: u32, i: int): u32 {
    (src + i) % U32
  }

  ghost predicate Shadowable(address: u32, len: u32, src: u32) {
    && (address == 0xF_0000 ==> len == 0x1_0000)
    && (len == 0x2_0000 ==> src == address || ClearOf(src, len, address + 0x1_0000, address + 0x2_0000))
  }

  ghost predicate ClearOf(src: u32, len: u32, lo: int, hi: int) {
    forall i | 0 <= i < len :: !(lo <= Pointer(src, i) < hi)
  }
}
