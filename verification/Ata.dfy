/** The ATA PIO driver (ata.c) against a model of a channel with up to two drives that follows
    the PIO data-in and data-out protocols of ATA/ATAPI-6 (clauses 8 and 9). */
module Ata {
  import opened Types

  const SECTOR: nat := 512

  /** A drive: its medium and the words that IDENTIFY gives.  A packet device refuses IDENTIFY and the
      transfers of this driver. */
  class Disk {
    const bytes: array<u8>
    const capacity: nat
    const word: nat -> u16
    const packet: bool

    constructor (capacity: nat, word: nat -> u16, packet: bool)
      ensures Valid() && fresh(bytes) && this.capacity == capacity && this.word == word && this.packet == packet
      ensures forall j | 0 <= j < bytes.Length :: bytes[j] == 0
    {
      this.bytes := new u8[SECTOR * capacity](_ => 0);
      this.capacity, this.word, this.packet := capacity, word, packet;
    }

    predicate Valid() {
      bytes.Length == SECTOR * capacity
    }

    function Cylinders(): u16 {
      word(1)
    }

    function Heads(): u16 {
      word(3)
    }

    function Sectors(): u16 {
      word(6)
    }

    /** A drive with LBA says how many sectors it addresses so. */
    function Lba28(): bool {
      !packet && (word(60) != 0 || word(61) != 0)
    }

    /** Twenty words of text, two characters in each, the first in the upper byte. */
    function Model(): (r: seq<u8>)
      ensures |r| == 40
    {
      seq(40, j requires 0 <= j < 40 => if j % 2 == 0 then word(27 + j / 2) / 0x100 else word(27 + j / 2) % 0x100)
    }

    /** The number of sectors: by LBA, in the current translation, or in the default one. */
    function Blocks(): u32 {
      if Lba28() then word(60) as int + 0x1_0000 * word(61) as int
      else if word(53) % 2 == 1 then word(57) as int + 0x1_0000 * word(58) as int
      else Heads() as int * Sectors() as int * Cylinders() as int % U32
    }
  }

  /** The firmware's record of a drive; a record without a device is absent. */
  datatype AtaDrive = AtaDrive(
    dev: Channel, slave: bool, lba28: bool, cylinders: u16, heads: u16, sectors: u16, blocks: u32,
    lba48: bool, blocks48: nat, kind: u16, model: seq<u8>)

  /** The 48-bit capacity in four words. */
  function Wide(w0: u16, w1: u16, w2: u16, w3: u16): nat {
    w0 + 0x1_0000 * w1 as int + U32 * (w2 + 0x1_0000 * w3 as int)
  }

  /** What the source makes of them: the second word is shifted as an int, whose sign then fills the
      upper half. */
  function Widened(w0: u16, w1: u16, w2: u16, w3: u16): nat {
    w0 + 0x1_0000 * w1 as int + U32 * if w1 >= 0x8000 then 0xFFFF_FFFF else w2 + 0x1_0000 * w3 as int
  }

  /** The two agree exactly while bit 31 of the capacity is clear, or everything above it is set. */
  lemma WidenedExactly(w0: u16, w1: u16, w2: u16, w3: u16)
    ensures Widened(w0, w1, w2, w3) == Wide(w0, w1, w2, w3) <==> w1 < 0x8000 || (w2 == 0xFFFF && w3 == 0xFFFF)
    ensures Widened(w0, w1, w2, w3) > 0 <==> Wide(w0, w1, w2, w3) > 0
  {
  }

  datatype Phase = Ready | DataIn | DataOut | Identifying

  predicate Gives(p: Phase) {
    p == DataIn || p == Identifying
  }

  // ----- the drive/head register -----

  function LbaHead(slave: bool, nibble: bv8): bv8 {
    (0xE0 | (if slave then 0x10 else 0)) | nibble
  }

  function ChsHead(slave: bool, head: bv8): bv8 {
    (0xA0 | (if slave then 0x10 else 0)) | head
  }

  predicate SelectsSlave(driveHead: bv8) {
    driveHead & 0x10 != 0
  }

  predicate LbaMode(driveHead: bv8) {
    driveHead & 0x40 != 0
  }

  function Low(driveHead: bv8): nat {
    (driveHead & 0x0F) as int
  }

  lemma LbaHeadDecodes(slave: bool, nibble: nat)
    requires nibble < 16
    ensures var dh := LbaHead(slave, nibble as bv8);
      SelectsSlave(dh) == slave && LbaMode(dh) && Low(dh) == nibble
  {
    var n := nibble as bv8;
    assert n < 16 && n as int == nibble;
    assert (LbaHead(slave, n) & 0x0F) == n;
  }

  /** A head number of four bits is taken as it is and does not disturb the other fields; bit 4
      selects the slave, and bit 6 makes the address an LBA. */
  lemma ChsHeadDecodes(slave: bool, head: u8)
    ensures var dh := ChsHead(slave, head as bv8);
      && SelectsSlave(dh) == (slave || head / 16 % 2 == 1)
      && LbaMode(dh) == (head / 64 % 2 == 1)
      && Low(dh) == head % 16
  {
    var h := head as bv8;
    HeadBits(head);
    assert (ChsHead(slave, h) & 0x0F) == h & 0x0F;
    assert (ChsHead(slave, h) & 0x40) == h & 0x40;
  }

  lemma HeadBits(head: u8)
    ensures ((head as bv8) & 0x0F) as int == head % 16
    ensures (head as bv8) & 0x10 != 0 <==> head / 16 % 2 == 1
    ensures (head as bv8) & 0x40 != 0 <==> head / 64 % 2 == 1
  {
    RoundTrip(head);
    BitsOf(head as bv8, head, 0x0F, 0x10, 16);
    BitsOf(head as bv8, head, 0x3F, 0x40, 64);
  }

  /** The lower bits of a byte, and the next bit above them, as its value has them. */
  predicate Reads(x: bv8, n: nat, low: bv8, bit: bv8, m: nat)
    requires m > 1
  {
    (x & low) as int == n % m && (x & bit != 0 <==> n / m % 2 == 1)
  }

  /** By counting up to it. */
  lemma {:induction false} BitsOf(x: bv8, n: nat, low: bv8, bit: bv8, m: nat)
    requires x as int == n && m > 1 && low as int == m - 1
    requires (low == 0x0F && bit == 0x10) || (low == 0x3F && bit == 0x40)
    ensures Reads(x, n, low, bit, m)
  {
    if n == 0 {
      NoBits(low, bit, m);
    } else {
      Successor(x - 1);
      BitsOf(x - 1, n - 1, low, bit, m);
      ReadsNext(x - 1, n - 1, low, bit, m);
    }
  }

  lemma ReadsNext(x: bv8, n: nat, low: bv8, bit: bv8, m: nat)
    requires m > 1 && low as int == m - 1 && Reads(x, n, low, bit, m)
    requires (low == 0x0F && bit == 0x10) || (low == 0x3F && bit == 0x40)
    ensures Reads(x + 1, n + 1, low, bit, m)
  {
    CountsUp(x, low, bit);
    LowCounts(x & low, low);
    NextQuotient(n, m);
  }

  lemma NoBits(low: bv8, bit: bv8, m: nat)
    requires m > 1
    ensures Reads(0, 0, low, bit, m)
  {
    MulMod(0, 0, m, 0);
  }

  lemma NextQuotient(n: nat, m: nat)
    requires m > 1
    ensures (n + 1) % m == if n % m == m - 1 then 0 else n % m + 1
    ensures (n + 1) / m % 2 == 1 <==> (n / m % 2 == 1) != (n % m == m - 1)
  {
    var q, r := n / m, n % m;
    assert n == q * m + r;
    if r == m - 1 {
      assert (q + 1) * m == q * m + m;
      MulMod(n + 1, q + 1, m, 0);
    } else {
      MulMod(n + 1, q, m, r + 1);
    }
  }

  lemma CountsUp(x: bv8, low: bv8, bit: bv8)
    requires (low == 0x0F && bit == 0x10) || (low == 0x3F && bit == 0x40)
    ensures (x + 1) & low == (if x & low == low then 0 else (x & low) + 1)
    ensures (x + 1) & bit != 0 <==> (x & bit != 0) != (x & low == low)
    ensures x & low <= low
  {
  }

  lemma LowCounts(low: bv8, mask: bv8)
    requires low <= mask < 0x80
    ensures (low + 1) as int == low as int + 1
    ensures low == mask <==> low as int == mask as int
  {
    Successor(low);
  }

  /** Sectors number from one. */
  function ChsToLba(cylinder: nat, head: nat, sector: nat, heads: nat, sectors: nat): int {
    (cylinder * heads + head) * sectors + sector - 1
  }

  /** Where register values point to on a drive: an LBA, if it has LBA, or a head and a sector that
      its tracks have, on some cylinder.  -1 is nowhere. */
  function Located(d: Disk, dh: bv8, low: u8, mid: u8, high: u8): int {
    if LbaMode(dh) then LbaOn(d, Low(dh) * 0x100_0000 + high * 0x1_0000 + mid * 0x100 + low)
    else ChsOn(d, high * 0x100 + mid, Low(dh), low)
  }

  function LbaOn(d: Disk, lba: nat): int {
    if d.Lba28() then lba else -1
  }

  function ChsOn(d: Disk, cylinder: nat, head: nat, sector: nat): int {
    if !d.packet && head < d.Heads() && 1 <= sector <= d.Sectors()
    then ChsToLba(cylinder, head, sector, d.Heads(), d.Sectors()) else -1
  }

  lemma LbaSplit(sector: u32)
    ensures sector / 0x100_0000 % 16 * 0x100_0000 + sector / 0x1_0000 % 0x100 * 0x1_0000
      + sector / 0x100 % 0x100 * 0x100 + sector % 0x100 == sector % 0x1000_0000
  {
    var a := sector / 0x100;
    var b := a / 0x100;
    var c := b / 0x100;
    assert sector / 0x1_0000 == b;
    assert sector / 0x100_0000 == c;
    assert sector == sector % 0x100 + 0x100 * (a % 0x100 + 0x100 * (b % 0x100 + 0x100 * c));
    assert c == c % 16 + 16 * (c / 16);
  }

  lemma ChsSplit(cylinder: u32)
    ensures cylinder / 0x100 % 0x100 * 0x100 + cylinder % 0x100 == cylinder % 0x1_0000
  {
    var a := cylinder / 0x100;
    assert cylinder == cylinder % 0x100 + 0x100 * (a % 0x100 + 0x100 * (a / 0x100));
  }

  /** `s` with the bytes from `at` on replaced by `data`. */
  function Splice(s: seq<u8>, at: nat, data: seq<u8>): (r: seq<u8>)
    requires at + |data| <= |s|
    ensures |r| == |s|
    ensures forall j | 0 <= j < |s| :: r[j] == if at <= j < at + |data| then data[j - at] else s[j]
  {
    s[..at] + data + s[at + |data|..]
  }

  lemma SpliceHolds(s: seq<u8>, at: nat, data: seq<u8>)
    requires at + |data| <= |s|
    ensures Splice(s, at, data)[at..at + |data|] == data
  {
  }

  /** What a sector count register can ask for: it has eight bits, and zero means 256. */
  function Sectors(count: u16): nat {
    if count % 0x100 == 0 then 256 else count % 0x100
  }

  predicate Fits(d: Disk, first: int, count: nat) {
    0 <= first && first + count <= d.capacity
  }

  datatype Command = ReadPio | WritePio

  class Channel {
    // The hardware.  `busy` is how many more reads of the status register will show BSY;
    // `delay` gives the length of each such spell.
    const populated: bool
    const master: Disk?
    const slave: Disk?
    const delay: nat -> nat
    var count: u8
    var low: u8
    var mid: u8
    var high: u8
    var driveHead: bv8
    var phase: Phase
    var sector: nat   // of the transfer, with the sectors left and the next byte in this one
    var left: nat
    var offset: nat
    var busy: nat
    var spells: nat
    var error: bool   // the last command was refused
    ghost var looks: nat   // how often the status register has been read

    // The driver's record of the channel, and the last value it wrote to drive/head.
    var slaveSelected: bool
    ghost var lastHead: bv8

    /** A channel after power-on: the master is selected. */
    constructor (populated: bool, master: Disk?, slave: Disk?, delay: nat -> nat)
      requires (master != null ==> populated && master.Valid()) && (slave != null ==> populated && slave.Valid())
      requires master != null && slave != null ==> master.bytes != slave.bytes
      ensures Valid() && Idle() && !slaveSelected && Synced()
      ensures this.populated == populated && this.master == master && this.slave == slave && this.delay == delay
    {
      this.populated, this.master, this.slave, this.delay := populated, master, slave, delay;
      driveHead, lastHead, slaveSelected := 0, 0, false;
      phase, busy, error, looks := Ready, 0, false, 0;
    }

    function Selected(): Disk?
      reads this`driveHead
    {
      if SelectsSlave(driveHead) then slave else master
    }

    ghost predicate Valid()
      reads this
    {
      && (master != null ==> master.Valid())
      && (slave != null ==> slave.Valid())
      && (master != null && slave != null ==> master.bytes != slave.bytes)
      && (!populated ==> master == null && slave == null)
      && (busy > 0 ==> Selected() != null)
      && (phase == Identifying ==> Selected() != null && offset < SECTOR && offset % 2 == 0)
      && (phase == DataIn || phase == DataOut ==>
            && Selected() != null && 0 < left && sector + left <= Selected().capacity
            && offset < SECTOR && offset % 2 == 0)
    }

    /** Ready for a command: not transferring and not busy. */
    predicate Idle()
      reads this
    {
      phase == Ready && busy == 0
    }

    /** The cached selection is what was last written to the drive/head register. */
    ghost predicate Agrees()
      reads this
    {
      slaveSelected == SelectsSlave(lastHead)
    }

    /** ... and, as the write was not ignored, the selection in force. */
    ghost predicate Synced()
      reads this
    {
      Agrees() && lastHead == driveHead
    }

    // ----- the registers; writes while BSY or DRQ is set are ignored -----

    method Status() returns (s: u8)
      requires Valid()
      modifies this`busy, this`looks
      ensures Valid()
      ensures s / 0x80 == 1 ==> s == 0x80 && old(busy) > 0 && busy == old(busy) - 1
      ensures s / 0x80 == 0 ==> old(busy) == 0 && busy == 0
      ensures s == 0 <==> Selected() == null
      ensures s / 0x80 == 0 && s != 0 ==> (s / 8 % 2 == 1 <==> phase != Ready) && (s % 2 == 1 <==> error)
      ensures looks == old(looks) + 1
    {
      looks := looks + 1;
      if Selected() == null {
        return 0;
      }
      if busy > 0 {
        busy := busy - 1;
        return 0x80;
      }
      s := (if phase == Ready then 0x40 else 0x48) + if error then 1 else 0;
    }

    method OutDriveHead(v: bv8)
      requires Valid()
      modifies this`driveHead, this`lastHead
      ensures Valid() && lastHead == v && driveHead == if Idle() then v else old(driveHead)
    {
      lastHead := v;
      if Idle() {
        driveHead := v;
      }
    }

    method OutTaskFile(count: u8, low: u8, mid: u8, high: u8)
      requires Valid()
      modifies this`count, this`low, this`mid, this`high
      ensures Valid()
      ensures Idle() ==> this.count == count && this.low == low && this.mid == mid && this.high == high
    {
      if Idle() {
        this.count, this.low, this.mid, this.high := count, low, mid, high;
      }
    }

    /** The first sector that the registers name. */
    function First(d: Disk): int
      reads this
    {
      Located(d, driveHead, low, mid, high)
    }

    /** A count of zero means 256. */
    function Length(): nat
      reads this`count
    {
      if count == 0 then 256 else count
    }

    /** A command is rejected when a sector does not exist. */
    method OutCommand(c: Command)
      requires Valid()
      modifies this`phase, this`sector, this`left, this`offset, this`busy, this`spells, this`error
      ensures Valid()
      ensures !old(Idle()) ==> phase == old(phase) && busy == old(busy)
      ensures old(Idle()) ==>
        var d := Selected();
        if d != null && Fits(d, First(d), Length()) then
          && phase == (if c == ReadPio then DataIn else DataOut)
          && sector == First(d) && left == Length() && offset == 0
          && spells == old(spells) + 1 && busy == delay(old(spells))
        else phase == Ready && busy == 0
    {
      if !Idle() {
        return;
      }
      var d := Selected();
      error := d == null || !Fits(d, First(d), Length());
      if error {
        return;
      }
      sector, left, offset := First(d), Length(), 0;
      phase := if c == ReadPio then DataIn else DataOut;
      busy, spells := delay(spells), spells + 1;
    }

    /** The next byte of the transfer, as an offset in the medium. */
    function At(): nat
      reads this
    {
      SECTOR * sector + offset
    }

    /** One word has gone over.  At the end of a sector the device is busy again, but for the
        last sector that it had to give. */
    ghost predicate WordMoved(p: Phase, s: nat, l: nat, o: nat, b: nat, n: nat)
      reads this
    {
      if o + 2 < SECTOR then
        phase == p && sector == s && left == l && offset == o + 2 && busy == b && spells == n
      else
        && sector == s + 1 && left == l - 1 && offset == 0
        && phase == (if left == 0 then Ready else p)
        && (left == 0 && p == DataIn ==> busy == b)
        && (p == DataOut ==> spells == n + 1 && busy == delay(n))
    }

    method Transferred()
      requires Valid() && (phase == DataIn || phase == DataOut)
      modifies this`phase, this`sector, this`left, this`offset, this`busy, this`spells
      ensures Valid() && WordMoved(old(phase), old(sector), old(left), old(offset), old(busy), old(spells))
    {
      offset := offset + 2;
      if offset == SECTOR {
        sector, left, offset := sector + 1, left - 1, 0;
        if left > 0 || phase == DataOut {
          busy, spells := delay(spells), spells + 1;
        }
        if left == 0 {
          phase := Ready;
        }
      }
    }

    /** Reading the data register when the device offers nothing finds the bus floating. */
    method InData() returns (data: u16)
      requires Valid()
      modifies this`phase, this`sector, this`left, this`offset, this`busy, this`spells
      ensures Valid()
      ensures old(phase) == DataIn && old(busy) == 0 ==>
        && data % 0x100 == Selected().bytes[old(At())] && data / 0x100 == Selected().bytes[old(At()) + 1]
        && WordMoved(DataIn, old(sector), old(left), old(offset), 0, old(spells))
      ensures old(phase) == Identifying && old(busy) == 0 ==>
        && data == Selected().word(old(offset) / 2) && busy == 0
        && if old(offset) + 2 < SECTOR then phase == Identifying && offset == old(offset) + 2 else phase == Ready
      ensures !Gives(old(phase)) || old(busy) > 0 ==>
        data == 0xFFFF && phase == old(phase) && busy == old(busy)
    {
      if phase == DataIn && busy == 0 {
        var lo, hi := Selected().bytes[At()], Selected().bytes[At() + 1];
        data := lo as int + 0x100 * hi as int;
        assert data % 0x100 == lo && data / 0x100 == hi;
        Transferred();
      } else if phase == Identifying && busy == 0 {
        data := Selected().word(offset / 2);
        offset := offset + 2;
        if offset == SECTOR {
          phase := Ready;
        }
      } else {
        data := 0xFFFF;
      }
    }

    method OutDataWord(data: u16)
      requires Valid()
      modifies this`phase, this`sector, this`left, this`offset, this`busy, this`spells, Medium()
      ensures Valid()
      ensures old(phase) == DataOut && old(busy) == 0 ==>
        && Selected().bytes[old(At())] == data % 0x100 && Selected().bytes[old(At()) + 1] == data / 0x100
        && (forall j | 0 <= j < Selected().bytes.Length && j != old(At()) && j != old(At()) + 1 ::
              Selected().bytes[j] == old(Selected().bytes[j]))
        && WordMoved(DataOut, old(sector), old(left), old(offset), 0, old(spells))
      ensures old(phase) != DataOut || old(busy) > 0 ==>
        && phase == old(phase) && busy == old(busy)
        && Intact()
    {
      if phase == DataOut && busy == 0 {
        var d := Selected();
        d.bytes[At()], d.bytes[At() + 1] := data % 0x100, data / 0x100;
        Transferred();
      }
    }

    /** The medium behind the registers, for frames. */
    function Medium(): set<object>
      reads this`driveHead
    {
      if Selected() == null then {} else {Selected().bytes}
    }

    twostate predicate Intact()
      reads this, Medium()
    {
      var d := Selected();
      d != null ==> forall j | 0 <= j < d.bytes.Length :: d.bytes[j] == old(d.bytes[j])
    }

    // ----- the driver -----

    /** The polling loop of every transfer. */
    method WaitNotBusy()
      requires Valid()
      modifies this`busy, this`looks
      ensures Valid() && busy == 0
    {
      var s := Status();
      while s != 0 && s / 0x80 == 1
        invariant Valid() && (s / 0x80 == 0 ==> busy == 0)
        decreases busy, s
      {
        s := Status();
      }
    }

    /** The inner loop of the data-in transfers: one sector. */
    method SectorIn(mem: array<u8>, base: nat)
      requires Valid() && busy == 0 && base + SECTOR <= mem.Length && mem !in Medium()
      modifies this`phase, this`sector, this`left, this`offset, this`busy, this`spells, mem
      ensures Valid()
      ensures forall j | 0 <= j < mem.Length && !(base <= j < base + SECTOR) :: mem[j] == old(mem[j])
      ensures old(phase == DataIn && offset == 0) ==>
        && sector == old(sector) + 1 && left == old(left) - 1 && offset == 0
        && phase == (if left == 0 then Ready else DataIn) && (left == 0 ==> busy == 0)
        && forall j | base <= j < base + SECTOR :: mem[j] == Selected().bytes[SECTOR * old(sector) + (j - base)]
      ensures !Gives(old(phase)) ==>
        phase == old(phase) && busy == 0 && forall j | base <= j < base + SECTOR :: mem[j] == 0xFF
    {
      ghost var good, s, l := phase == DataIn && offset == 0, sector, left;
      var c := 0;
      for i := 0 to 256
        invariant Valid() && c == 2 * i
        invariant good && i < 256 ==> phase == DataIn && sector == s && left == l && offset == c && busy == 0
        invariant good && i == 256 ==> sector == s + 1 && left == l - 1 && offset == 0
        invariant good && i == 256 ==> phase == (if left == 0 then Ready else DataIn) && (left == 0 ==> busy == 0)
        invariant good ==> forall j | base <= j < base + c :: mem[j] == Selected().bytes[SECTOR * s + (j - base)]
        invariant !Gives(old(phase)) ==> phase == old(phase) && busy == 0
        invariant !Gives(old(phase)) ==> forall j | base <= j < base + c :: mem[j] == 0xFF
        invariant forall j | 0 <= j < mem.Length && !(base <= j < base + c) :: mem[j] == old(mem[j])
      {
        var data := InData();
        mem[base + c], mem[base + c + 1] := data % 0x100, data / 0x100;
        c := c + 2;
      }
    }

    /** The transfer stands before the `k`th of `count` sectors from `first` on, of which the
        earlier ones are in memory from `base` on. */
    ghost predicate InAt(mem: array<u8>, base: nat, first: nat, count: nat, k: nat)
      requires Valid() && k <= count && base + SECTOR * count <= mem.Length
      reads this, Medium(), mem
    {
      && sector == first + k && left == count - k && phase == (if left == 0 then Ready else DataIn)
      && (if left == 0 then busy == 0 else offset == 0)
      && HasSectors(mem, base, first, k) && first + count <= Selected().capacity
    }

    ghost predicate HasSectors(mem: array<u8>, base: nat, first: nat, n: nat)
      requires Valid() && base + SECTOR * n <= mem.Length
      reads this, Medium(), mem
    {
      && Selected() != null && first + n <= Selected().capacity
      && forall j | base <= j < base + SECTOR * n :: mem[j] == Selected().bytes[SECTOR * first + (j - base)]
    }

    /** One round of the loop, from a device that offers data and from one that does not. */
    method RoundIn(mem: array<u8>, base: nat, count: u16, k: nat, ghost first: nat, ghost n: nat)
      requires Valid() && base + SECTOR * count <= mem.Length && mem !in Medium() && k < count && n <= count
      modifies this`phase, this`sector, this`left, this`offset, this`busy, this`looks, this`spells, mem
      ensures Valid()
      ensures forall j | 0 <= j < mem.Length && !(base + SECTOR * k <= j < base + SECTOR * (k + 1)) ::
        mem[j] == old(mem[j])
      ensures k < n && old(InAt(mem, base, first, n, k)) ==> InAt(mem, base, first, n, k + 1)
      ensures !Gives(old(phase)) ==> phase == old(phase) && busy == 0
      ensures !Gives(old(phase)) ==> forall j | base + SECTOR * k <= j < base + SECTOR * (k + 1) :: mem[j] == 0xFF
    {
      WaitNotBusy();
      SectorIn(mem, base + SECTOR * k);
    }

    /** The data-in loop of ata_read_lba and ata_read_chs. */
    method PioIn(count: u16, mem: array<u8>, base: nat) returns (c: int)
      requires Valid() && base + SECTOR * count <= mem.Length && mem !in Medium()
      modifies this`phase, this`sector, this`left, this`offset, this`busy, this`looks, this`spells, mem
      ensures Valid() && c == SECTOR * count
      ensures forall j | 0 <= j < mem.Length && !(base <= j < base + c) :: mem[j] == old(mem[j])
      ensures old(Offers(DataIn, count)) ==>
        && Idle() && old(sector + left) <= Selected().capacity
        && (forall j | base <= j < base + SECTOR * old(left) ::
              mem[j] == Selected().bytes[SECTOR * old(sector) + (j - base)])
        && forall j | base + SECTOR * old(left) <= j < base + c :: mem[j] == 0xFF
      ensures !Gives(old(phase)) ==> forall j | base <= j < base + c :: mem[j] == 0xFF
      ensures !Gives(old(phase)) || count == 0 ==> phase == old(phase)
      ensures count == 0 ==> left == old(left)
      ensures if count == 0 then busy == old(busy) else !Gives(old(phase)) ==> busy == 0
    {
      ghost var good, first, n := Offers(DataIn, count), sector, if left <= count then left else 0;
      c := 0;
      var k := 0;
      while c < SECTOR * count
        invariant Valid() && 0 <= k <= count && c == SECTOR * k
        invariant good && k <= n ==> InAt(mem, base, first, n, k)
        invariant good && k >= n ==> Idle() && HasSectors(mem, base, first, n)
        invariant good ==> forall j | base + SECTOR * n <= j < base + c :: mem[j] == 0xFF
        invariant !Gives(old(phase)) || k == 0 ==> phase == old(phase)
        invariant k == 0 ==> left == old(left)
        invariant if k == 0 then busy == old(busy) else !Gives(old(phase)) ==> busy == 0
        invariant !Gives(old(phase)) ==> forall j | base <= j < base + c :: mem[j] == 0xFF
        invariant forall j | 0 <= j < mem.Length && !(base <= j < base + c) :: mem[j] == old(mem[j])
        decreases SECTOR * count - c
      {
        RoundIn(mem, base, count, k, first, n);
        k := k + 1;
        c := c + SECTOR;
      }
    }

    /** A transfer of whole sectors, no more than `count`, is about to begin. */
    ghost predicate Offers(p: Phase, count: u16)
      reads this
    {
      phase == p && offset == 0 && left <= count
    }

    /** The medium is `was` with the `n` bytes from `start` on replaced by those in memory from
        `base` on. */
    ghost predicate Written(was: seq<u8>, start: nat, mem: array<u8>, base: nat, n: nat)
      requires base + n <= mem.Length
      reads this, Medium(), mem
    {
      && Selected() != null && |was| == Selected().bytes.Length && start + n <= |was|
      && (forall j | start <= j < start + n :: Selected().bytes[j] == mem[base + (j - start)])
      && (forall j | 0 <= j < |was| && !(start <= j < start + n) :: Selected().bytes[j] == was[j])
    }

    /** The transfer is inside a sector, of which `c` bytes have gone over. */
    ghost predicate InsideOut(was: seq<u8>, mem: array<u8>, base: nat, s: nat, c: nat)
      requires base + c <= mem.Length
      reads this, Medium(), mem
    {
      phase == DataOut && sector == s && offset == c && busy == 0 && Written(was, SECTOR * s, mem, base, c)
    }

    /** One word of that. */
    method WordOut(ghost was: seq<u8>, mem: array<u8>, base: nat, ghost s: nat, c: nat)
      requires Valid() && base + c + 2 <= mem.Length && mem !in Medium()
      modifies this`phase, this`sector, this`left, this`offset, this`busy, this`spells, Medium()
      ensures Valid()
      ensures old(InsideOut(was, mem, base, s, c)) ==>
        Written(was, SECTOR * s, mem, base, c + 2) && WordMoved(DataOut, s, old(left), c, 0, old(spells))
      ensures old(phase) != DataOut ==> phase == old(phase) && busy == old(busy)
      ensures old(phase) != DataOut ==> Intact()
    {
      var lo, hi := mem[base + c], mem[base + c + 1];
      var word := lo as int + 0x100 * hi as int;
      assert word % 0x100 == lo && word / 0x100 == hi;
      OutDataWord(word);
    }

    /** The inner loop of the data-out transfers: one sector. */
    method SectorOut(mem: array<u8>, base: nat)
      requires Valid() && busy == 0 && base + SECTOR <= mem.Length && mem !in Medium()
      modifies this`phase, this`sector, this`left, this`offset, this`busy, this`spells, Medium()
      ensures Valid()
      ensures old(phase == DataOut && offset == 0) ==>
        && sector == old(sector) + 1 && left == old(left) - 1 && offset == 0
        && phase == (if left == 0 then Ready else DataOut)
        && Written(old(Selected().bytes[..]), SECTOR * old(sector), mem, base, SECTOR)
        && spells == old(spells) + 1 && busy == delay(old(spells))
      ensures old(phase) != DataOut ==> phase == old(phase) && busy == 0
      ensures old(phase) != DataOut ==> Intact()
    {
      ghost var good, s, l, n := phase == DataOut && offset == 0, sector, left, spells;
      ghost var was := if Selected() != null then Selected().bytes[..] else [];
      var c := 0;
      for i := 0 to 256
        invariant Valid() && c == 2 * i
        invariant good && i < 256 ==> InsideOut(was, mem, base, s, c) && left == l && spells == n
        invariant good && i == 256 ==> sector == s + 1 && left == l - 1 && offset == 0
        invariant good && i == 256 ==> phase == (if left == 0 then Ready else DataOut)
        invariant good && i == 256 ==> spells == n + 1 && busy == delay(n) && Written(was, SECTOR * s, mem, base, c)
        invariant old(phase) != DataOut ==> phase == old(phase) && busy == 0
        invariant old(phase) != DataOut ==> Intact()
      {
        WordOut(was, mem, base, s, c);
        c := c + 2;
      }
    }

    /** The transfer stands before the `k`th of `count` sectors from `first` on; the earlier ones
        are written. */
    ghost predicate OutAt(was: seq<u8>, mem: array<u8>, base: nat, first: nat, count: nat, k: nat)
      requires Valid() && k <= count && base + SECTOR * count <= mem.Length
      reads this, Medium(), mem
    {
      && sector == first + k && left == count - k && phase == (if left == 0 then Ready else DataOut) && offset == 0
      && Written(was, SECTOR * first, mem, base, SECTOR * k)
    }

    method RoundOut(ghost was: seq<u8>, mem: array<u8>, base: nat, count: u16, k: nat, ghost first: nat, ghost n: nat)
      requires Valid() && base + SECTOR * count <= mem.Length && mem !in Medium() && k < count && n <= count
      modifies this`phase, this`sector, this`left, this`offset, this`busy, this`looks, this`spells, Medium()
      ensures Valid()
      ensures k < n && old(OutAt(was, mem, base, first, n, k)) ==>
        OutAt(was, mem, base, first, n, k + 1) && spells == old(spells) + 1 && busy == delay(old(spells))
      ensures old(phase) != DataOut ==> phase == old(phase) && busy == 0
      ensures old(phase) != DataOut ==> Intact()
    {
      WaitNotBusy();
      SectorOut(mem, base + SECTOR * k);
    }

    /** The data-out loop of ata_write_lba and ata_write_chs.  It ends with the last word: the
        device may still be busy. */
    method PioOut(count: u16, mem: array<u8>, base: nat) returns (c: int)
      requires Valid() && base + SECTOR * count <= mem.Length && mem !in Medium()
      modifies this`phase, this`sector, this`left, this`offset, this`busy, this`looks, this`spells, Medium()
      ensures Valid() && c == SECTOR * count
      ensures old(Offers(DataOut, count)) ==>
        && phase == Ready && busy == (if old(left) == count then delay(old(spells) + count - 1) else 0)
        && Written(old(Selected().bytes[..]), SECTOR * old(sector), mem, base, SECTOR * old(left))
      ensures old(phase) != DataOut || count == 0 ==> phase == old(phase)
      ensures count == 0 ==> left == old(left)
      ensures if count == 0 then busy == old(busy) else old(phase) != DataOut ==> busy == 0
      ensures old(phase) != DataOut || count == 0 ==> Intact()
    {
      ghost var good, first, n := Offers(DataOut, count), sector, if left <= count then left else 0;
      ghost var was := if Selected() != null then Selected().bytes[..] else [];
      c := 0;
      var k := 0;
      while c < SECTOR * count
        invariant Valid() && 0 <= k <= count && c == SECTOR * k
        invariant good && k <= n ==> OutAt(was, mem, base, first, n, k) && spells == old(spells) + k
        invariant good && 0 < k <= n ==> busy == delay(old(spells) + k - 1)
        invariant good && k >= n ==> phase == Ready && Written(was, SECTOR * first, mem, base, SECTOR * n)
        invariant good && k > n ==> busy == 0
        invariant old(phase) != DataOut || k == 0 ==> phase == old(phase)
        invariant k == 0 ==> left == old(left)
        invariant if k == 0 then busy == old(busy) else old(phase) != DataOut ==> busy == 0
        invariant old(phase) != DataOut || k == 0 ==> Intact()
        decreases SECTOR * count - c
      {
        RoundOut(was, mem, base, count, k, first, n);
        k := k + 1;
        c := c + SECTOR;
      }
    }

    // ----- whole commands -----

    /** Everything that the channel's drives store. */
    function Media(): set<object> {
      (if master == null then {} else {master.bytes}) + (if slave == null then {} else {slave.bytes})
    }

    /** The sector that register values name on the drive that they select. */
    function Address(dh: bv8, low: u8, mid: u8, high: u8): int {
      var d := Attached(SelectsSlave(dh));
      if d == null then -1 else Located(d, dh, low, mid, high)
    }

    /** The register writes that start every transfer. */
    method Issue(dh: bv8, count: u16, low: u8, mid: u8, high: u8, c: Command, ghost first: int)
      requires Valid() && first == Address(dh, low, mid, high)
      modifies this`count, this`low, this`mid, this`high, this`driveHead, this`lastHead
      modifies this`phase, this`sector, this`left, this`offset, this`busy, this`spells, this`error
      ensures Valid() && lastHead == dh
      ensures !old(Idle()) ==> phase == old(phase) && busy == old(busy) && driveHead == old(driveHead)
      ensures old(Idle()) ==> driveHead == dh && Started(SelectsSlave(dh), first, count, c, old(spells))
    {
      OutDriveHead(dh);
      OutTaskFile(count % 0x100, low, mid, high);
      OutCommand(c);
    }

    /** The outcome of a command to an idle device. */
    ghost predicate Started(side: bool, first: int, count: u16, c: Command, n: nat)
      reads this
    {
      var d := Attached(side);
      if d != null && Fits(d, first, Sectors(count)) then
        && phase == (if c == ReadPio then DataIn else DataOut)
        && sector == first && left == Sectors(count) && offset == 0
        && spells == n + 1 && busy == delay(n)
      else
        phase == Ready && busy == 0
    }

    function Attached(side: bool): Disk? {
      if side then slave else master
    }

    /** What a read of `count` sectors of a drive from `first` on has to leave behind. */
    twostate predicate HasRead(side: bool, first: int, count: u16, mem: array<u8>, base: nat)
      requires base + SECTOR * count <= mem.Length && Valid()
      reads this, mem, Media()
    {
      var d := Attached(side);
      if old(Idle()) && d != null && Fits(d, first, Sectors(count)) then
        if count == 0 then
          phase == DataIn && left == 256
        else
          var data := SECTOR * Sectors(count);
          && Idle()
          && (forall j | base <= j < base + data :: mem[j] == d.bytes[SECTOR * first + (j - base)])
          && forall j | base + data <= j < base + SECTOR * count :: mem[j] == 0xFF
      else
        old(phase == Ready) ==>
          && phase == Ready && (old(Idle()) || count > 0 ==> Idle())
          && forall j | base <= j < base + SECTOR * count :: mem[j] == 0xFF
    }

    twostate predicate Unwritten(side: bool)
      reads this, Media()
    {
      Attached(side) != null ==>
        forall j | 0 <= j < Attached(side).bytes.Length :: Attached(side).bytes[j] == old(Attached(side).bytes[j])
    }

    /** What a write has to leave behind. */
    twostate predicate HasWritten(side: bool, first: int, count: u16, mem: array<u8>, base: nat)
      requires base + SECTOR * count <= mem.Length && Valid() && old(Valid())
      reads this, mem, Media()
    {
      var d := Attached(side);
      if old(Idle()) && d != null && Fits(d, first, Sectors(count)) then
        && Unwritten(!side)
        && if count == 0 then
             phase == DataOut && left == 256 && Unwritten(side)
           else
             var start, end := SECTOR * first, SECTOR * (first + Sectors(count));
             && phase == Ready && busy == (if count <= 256 then delay(old(spells) + count) else 0)
             && (forall j | start <= j < end :: d.bytes[j] == mem[base + (j - start)])
             && (forall j | 0 <= j < d.bytes.Length && !(start <= j < end) :: d.bytes[j] == old(d.bytes[j]))
      else
        old(phase == Ready) ==>
          Unwritten(false) && Unwritten(true) && phase == Ready && (old(Idle()) || count > 0 ==> Idle())
    }

    /** A read of at most 255 sectors fills its buffer with the sectors, if the drive has them and was
        ready for the command, else from the floating bus. */
    ghost predicate BytesRead(side: bool, first: int, count: nat, idle: bool, mem: array<u8>, base: nat)
      requires base + SECTOR * count <= mem.Length && Valid()
      reads this, mem, Media()
    {
      var d := Attached(side);
      forall j | base <= j < base + SECTOR * count ::
        mem[j] == if idle && d != null && Fits(d, first, count) then d.bytes[SECTOR * first + (j - base)] else 0xFF
    }

    /** A drive stores these bytes. */
    ghost predicate Stores(side: bool, s: seq<u8>)
      reads Media()
    {
      var d := Attached(side);
      d != null ==> |s| == d.bytes.Length && forall j | 0 <= j < |s| :: d.bytes[j] == s[j]
    }

    ghost function Contents(side: bool): (s: seq<u8>)
      reads Media()
      ensures Stores(side, s)
    {
      var d := Attached(side);
      if d == null then [] else d.bytes[..]
    }

    /** Such a write reaches byte `j` of the drive. */
    predicate WritesTo(side: bool, first: int, count: nat, idle: bool, j: int) {
      var d := Attached(side);
      idle && d != null && Fits(d, first, count) && SECTOR * first <= j < SECTOR * (first + count)
    }

    /** A write of at most 255 sectors stores the buffer, and changes no other byte of either drive. */
    ghost predicate BytesWritten(side: bool, first: int, count: nat, idle: bool, data: seq<u8>, base: nat,
                                 own: seq<u8>, other: seq<u8>)
      requires base + SECTOR * count <= |data|
      reads Media()
    {
      && Stores(!side, other)
      && var d := Attached(side);
      d != null ==>
        && |own| == d.bytes.Length
        && forall j | 0 <= j < |own| ::
             d.bytes[j] == if WritesTo(side, first, count, idle, j) then data[base + (j - SECTOR * first)] else own[j]
    }

    /** The common body of ata_read_lba and ata_read_chs. */
    method PioRead(dh: bv8, count: u16, low: u8, mid: u8, high: u8, mem: array<u8>, base: nat, ghost first: int)
      returns (r: u32)
      requires Valid() && base + SECTOR * count <= mem.Length && mem !in Media()
      requires first == Address(dh, low, mid, high)
      modifies this, mem
      ensures Valid() && r == SECTOR * count && slaveSelected == old(slaveSelected)
      ensures lastHead == dh && (old(Idle()) ==> driveHead == dh)
      ensures forall j | 0 <= j < mem.Length && !(base <= j < base + r) :: mem[j] == old(mem[j])
      ensures HasRead(SelectsSlave(dh), first, count, mem, base)
    {
      assert count > 0 ==> Sectors(count) <= count;
      ghost var d := Attached(SelectsSlave(dh));
      ghost var ok := Idle() && d != null && Fits(d, first, Sectors(count));
      Issue(dh, count, low, mid, high, ReadPio, first);
      assert ok && count > 0 ==> Offers(DataIn, count) && sector == first && left == Sectors(count);
      r := PioIn(count, mem, base);
    }

    /** The data of a write whose command has just been issued, to an idle device or not. */
    method FinishWrite(count: u16, mem: array<u8>, base: nat, ghost idle: bool, ghost first: int, ghost n: nat)
      returns (r: u32)
      requires Valid() && base + SECTOR * count <= mem.Length && mem !in Medium()
      requires idle ==> Started(SelectsSlave(driveHead), first, count, WritePio, n)
      modifies this`phase, this`sector, this`left, this`offset, this`busy, this`looks, this`spells, Medium()
      ensures Valid() && r == SECTOR * count
      ensures var d := Selected();
        if idle && d != null && Fits(d, first, Sectors(count)) then
          if count == 0 then phase == DataOut && left == 256 && Intact()
          else
            && phase == Ready && busy == (if count <= 256 then delay(n + count) else 0)
            && Written(old(Selected().bytes[..]), SECTOR * first, mem, base, SECTOR * Sectors(count))
        else old(phase) == Ready ==> Intact() && phase == Ready && (idle || count > 0 ==> busy == 0)
    {
      r := PioOut(count, mem, base);
    }

    method PioWrite(dh: bv8, count: u16, low: u8, mid: u8, high: u8, mem: array<u8>, base: nat, ghost first: int)
      returns (r: u32)
      requires Valid() && base + SECTOR * count <= mem.Length && mem !in Media()
      requires first == Address(dh, low, mid, high)
      modifies this, Media()
      ensures Valid() && r == SECTOR * count && slaveSelected == old(slaveSelected)
      ensures lastHead == dh && (old(Idle()) ==> driveHead == dh)
      ensures HasWritten(SelectsSlave(dh), first, count, mem, base)
    {
      ghost var idle, n := Idle(), spells;
      Issue(dh, count, low, mid, high, WritePio, first);
      ghost var side, d := SelectsSlave(driveHead), Selected();
      ghost var refused := !(idle && d != null && Fits(d, first, Sectors(count)));
      ghost var mine, other := Attached(side), Attached(!side);
      r := FinishWrite(count, mem, base, idle, first, n);
      assert other != null ==> forall j | 0 <= j < other.bytes.Length :: other.bytes[j] == old(other.bytes[j]);
      assert Unwritten(!side);
      if refused && old(phase) == Ready {
        assert mine != null ==> forall j | 0 <= j < mine.bytes.Length :: mine.bytes[j] == old(mine.bytes[j]);
        assert Unwritten(side);
        assert if side then Unwritten(true) && Unwritten(false) else Unwritten(false) && Unwritten(true);
      }
    }

    /** ... and byte by byte. */
    method ReadBytes(dh: bv8, count: u16, low: u8, mid: u8, high: u8, mem: array<u8>, base: nat, ghost first: int)
      returns (r: u32)
      requires Valid() && base + SECTOR * count <= mem.Length && mem !in Media()
      requires first == Address(dh, low, mid, high)
      modifies this, mem
      ensures Valid() && r == SECTOR * count && slaveSelected == old(slaveSelected)
      ensures lastHead == dh && (old(Idle()) ==> driveHead == dh)
      ensures forall j | 0 <= j < mem.Length && !(base <= j < base + r) :: mem[j] == old(mem[j])
      ensures HasRead(SelectsSlave(dh), first, count, mem, base)
      ensures count < 0x100 && old(phase == Ready) ==> BytesRead(SelectsSlave(dh), first, count, old(Idle()), mem, base)
    {
      assert 0 < count < 0x100 ==> Sectors(count) == count;
      r := PioRead(dh, count, low, mid, high, mem, base, first);
    }

    method WriteBytes(dh: bv8, count: u16, low: u8, mid: u8, high: u8, mem: array<u8>, base: nat, ghost first: int)
      returns (r: u32)
      requires Valid() && base + SECTOR * count <= mem.Length && mem !in Media()
      requires first == Address(dh, low, mid, high)
      modifies this, Media()
      ensures Valid() && r == SECTOR * count && slaveSelected == old(slaveSelected)
      ensures lastHead == dh && (old(Idle()) ==> driveHead == dh)
      ensures HasWritten(SelectsSlave(dh), first, count, mem, base)
      ensures var side := SelectsSlave(dh);
        count < 0x100 && old(phase == Ready) ==>
          BytesWritten(side, first, count, old(Idle()), mem[..], base, old(Contents(side)), old(Contents(!side)))
    {
      assert 0 < count < 0x100 ==> Sectors(count) == count;
      r := PioWrite(dh, count, low, mid, high, mem, base, first);
    }

    /** The register values name the sector. */
    lemma LbaAddress(sector: u32)
      ensures var dh := LbaHead(slaveSelected, (sector / 0x100_0000 % 16) as bv8);
        && SelectsSlave(dh) == slaveSelected
        && Address(dh, sector % 0x100, sector / 0x100 % 0x100, sector / 0x1_0000 % 0x100) == LbaTarget(sector)
    {
      LbaHeadDecodes(slaveSelected, sector / 0x100_0000 % 16);
      LbaSplit(sector);
    }

    lemma ChsAddress(cylinder: u32, head: u8, sector: u16)
      ensures var dh := ChsHead(slaveSelected, head as bv8);
        && SelectsSlave(dh) == ChsSide(slaveSelected, head)
        && Address(dh, sector % 0x100, cylinder % 0x100, cylinder / 0x100 % 0x100)
           == ChsTarget(slaveSelected, cylinder, head, sector)
    {
      ChsHeadDecodes(slaveSelected, head);
      ChsSplit(cylinder);
    }

    // ----- the driver's entry points -----

    method ReadLba(sector: u32, count: u16, mem: array<u8>, base: nat) returns (r: u32)
      requires Valid() && base + SECTOR * count <= mem.Length && mem !in Media()
      modifies this, mem
      ensures Valid() && r == SECTOR * count
      ensures forall j | 0 <= j < mem.Length && !(base <= j < base + r) :: mem[j] == old(mem[j])
      ensures HasRead(slaveSelected, LbaTarget(sector), count, mem, base)
      ensures count < 0x100 && old(phase == Ready) ==>
        BytesRead(slaveSelected, LbaTarget(sector), count, old(Idle()), mem, base)
      ensures Recorded(Lba(false, sector, count, base)) && (old(Idle()) ==> Synced())
    {
      var nibble := sector / 0x100_0000 % 16;
      var dh := LbaHead(slaveSelected, nibble as bv8);
      LbaAddress(sector);
      ghost var first := LbaTarget(sector);
      r := ReadBytes(dh, count, sector % 0x100, sector / 0x100 % 0x100, sector / 0x1_0000 % 0x100, mem, base, first);
    }

    method WriteLba(sector: u32, count: u16, mem: array<u8>, base: nat) returns (r: u32)
      requires Valid() && base + SECTOR * count <= mem.Length && mem !in Media()
      modifies this, Media()
      ensures Valid() && r == SECTOR * count
      ensures HasWritten(slaveSelected, LbaTarget(sector), count, mem, base)
      ensures var side := slaveSelected;
        count < 0x100 && old(phase == Ready) ==>
          BytesWritten(side, LbaTarget(sector), count, old(Idle()), mem[..], base, old(Contents(side)), old(Contents(!side)))
      ensures Recorded(Lba(true, sector, count, base)) && (old(Idle()) ==> Synced())
    {
      var nibble := sector / 0x100_0000 % 16;
      var dh := LbaHead(slaveSelected, nibble as bv8);
      LbaAddress(sector);
      ghost var first := LbaTarget(sector);
      r := WriteBytes(dh, count, sector % 0x100, sector / 0x100 % 0x100, sector / 0x1_0000 % 0x100, mem, base, first);
    }

    /** Heads above 15 spill into the selection and the mode. */
    method ReadChs(cylinder: u32, head: u8, sector: u16, count: u16, mem: array<u8>, base: nat) returns (r: u32)
      requires Valid() && base + SECTOR * count <= mem.Length && mem !in Media()
      modifies this, mem
      ensures Valid() && r == SECTOR * count
      ensures forall j | 0 <= j < mem.Length && !(base <= j < base + r) :: mem[j] == old(mem[j])
      ensures HasRead(ChsSide(slaveSelected, head), ChsTarget(slaveSelected, cylinder, head, sector), count, mem, base)
      ensures count < 0x100 && old(phase == Ready) ==>
        BytesRead(ChsSide(slaveSelected, head), ChsTarget(slaveSelected, cylinder, head, sector), count, old(Idle()),
                  mem, base)
      ensures Recorded(Chs(false, cylinder, head, sector, count, base))
    {
      var dh := ChsHead(slaveSelected, head as bv8);
      ChsAddress(cylinder, head, sector);
      ghost var first := ChsTarget(slaveSelected, cylinder, head, sector);
      r := ReadBytes(dh, count, sector % 0x100, cylinder % 0x100, cylinder / 0x100 % 0x100, mem, base, first);
    }

    method WriteChs(cylinder: u32, head: u8, sector: u16, count: u16, mem: array<u8>, base: nat) returns (r: u32)
      requires Valid() && base + SECTOR * count <= mem.Length && mem !in Media()
      modifies this, Media()
      ensures Valid() && r == SECTOR * count
      ensures HasWritten(ChsSide(slaveSelected, head), ChsTarget(slaveSelected, cylinder, head, sector), count, mem, base)
      ensures var side := ChsSide(slaveSelected, head);
        count < 0x100 && old(phase == Ready) ==>
          BytesWritten(side, ChsTarget(slaveSelected, cylinder, head, sector), count, old(Idle()), mem[..], base,
                       old(Contents(side)), old(Contents(!side)))
      ensures Recorded(Chs(true, cylinder, head, sector, count, base))
    {
      var dh := ChsHead(slaveSelected, head as bv8);
      ChsAddress(cylinder, head, sector);
      ghost var first := ChsTarget(slaveSelected, cylinder, head, sector);
      r := WriteBytes(dh, count, sector % 0x100, cylinder % 0x100, cylinder / 0x100 % 0x100, mem, base, first);
    }

    /** Where ata_read_lba goes: sector numbers have 28 bits, and not every drive has LBA. */
    function LbaTarget(sector: u32): int
      reads this`slaveSelected
    {
      var d := Attached(slaveSelected);
      if d == null then -1 else LbaOn(d, sector % 0x1000_0000)
    }

    /** The drive and the sector that ata_read_chs goes to, from the cached selection. */
    function ChsSide(cached: bool, head: u8): bool {
      cached || head / 16 % 2 == 1
    }

    function ChsTarget(cached: bool, cylinder: u32, head: u8, sector: u16): int {
      var d := Attached(ChsSide(cached, head));
      if d == null then -1
      else if head / 64 % 2 == 1 then LbaOn(d, head % 16 * 0x100_0000 + cylinder % 0x1_0000 * 0x100 + sector % 0x100)
      else ChsOn(d, cylinder % 0x1_0000, head % 16, sector % 0x100)
    }

    /** Selecting the drive that is already selected does nothing at all.  Otherwise the status is read
        sixteen times at least, which is the time that a drive needs to answer. */
    method DriveSelect(side: bool)
      requires Valid()
      modifies this`driveHead, this`lastHead, this`busy, this`looks, this`slaveSelected
      ensures Valid() && Recorded(Select(side))
      ensures old(slaveSelected) == side ==> unchanged(this)
      ensures old(slaveSelected) != side ==> busy == 0 && slaveSelected == side && looks >= old(looks) + 16
      ensures old(Idle()) ==> Idle() && (old(slaveSelected) != side || old(Synced()) ==> Synced())
    {
      if slaveSelected == side {
        return;
      }
      ChsHeadDecodes(side, 0);
      OutDriveHead(ChsHead(side, 0));
      var count := 0;
      while true
        invariant Valid() && (old(Idle()) ==> Idle()) && lastHead == ChsHead(side, 0)
        invariant driveHead == if old(Idle()) then lastHead else old(driveHead)
        invariant looks == old(looks) + count
        decreases busy, if count < 16 then 16 - count else 0
      {
        var s := Status();
        count := count + 1;
        if s / 0x80 == 0 && count > 15 {
          break;
        }
      }
      slaveSelected := side;
    }

    /** The sector count register of a channel without drives does not hold what is written. */
    method DetectController() returns (found: bool)
      requires Valid()
      modifies this`count
      ensures Valid() && (found ==> populated) && (populated && Idle() ==> found)
    {
      if populated && Idle() {
        count := 0xA5;
      }
      found := populated && count == 0xA5;
    }

    /** The part of ata_init that concerns one channel. */
    method Init() returns (ok: bool)
      requires Valid()
      modifies this
      ensures Valid() && (ok ==> populated) && (populated && old(Idle()) ==> ok)
      ensures ok ==> !slaveSelected && Agrees() && (old(Idle()) ==> Synced() && Idle())
      ensures !ok ==> slaveSelected == old(slaveSelected) && lastHead == old(lastHead)
    {
      ok := DetectController();
      if ok {
        slaveSelected := true;
        DriveSelect(false);
      }
    }

    /** The record of a drive, from what it says of itself. */
    function Record(side: bool): Option<AtaDrive> {
      var d := Attached(side);
      if d == null || d.packet then None
      else Some(AtaDrive(this, side, d.Lba28(), d.Cylinders(), d.Heads(), d.Sectors(), d.Blocks(),
                         Widened(d.word(100), d.word(101), d.word(102), d.word(103)) > 0,
                         Widened(d.word(100), d.word(101), d.word(102), d.word(103)), d.word(0), d.Model()))
    }

    /** Where the record comes from, in words of the IDENTIFY data. */
    lemma RecordWords(side: bool)
      requires Attached(side) != null && !Attached(side).packet
      ensures var w, r := Attached(side).word, Record(side);
        && r.Some? && r.value.dev == this && r.value.slave == side && r.value.kind == w(0)
        && r.value.cylinders == w(1) && r.value.heads == w(3) && r.value.sectors == w(6)
        && (r.value.lba28 <==> w(60) != 0 || w(61) != 0)
        && (r.value.lba48 <==> w(100) != 0 || w(101) != 0 || w(102) != 0 || w(103) != 0)
        && |r.value.model| == 40
        && forall j | 0 <= j < 20 ::
          r.value.model[2 * j] == w(27 + j) / 0x100 && r.value.model[2 * j + 1] == w(27 + j) % 0x100
    {
      var w := Attached(side).word;
      WidenedExactly(w(100), w(101), w(102), w(103));
      forall j | 0 <= j < 20
        ensures Attached(side).Model()[2 * j] == w(27 + j) / 0x100 && Attached(side).Model()[2 * j + 1] == w(27 + j) % 0x100
      {
        assert (2 * j + 1) % 2 == 1 && (2 * j + 1) / 2 == j;
      }
    }

    /** The number of sectors is the capacity that the drive gives: split over words 60 and 61 with LBA;
        without, over 57 and 58 if bit 0 of word 53 says so, else as a product. */
    lemma CapacityReported(side: bool, capacity: u32)
      requires Attached(side) != null && !Attached(side).packet
      ensures var d, blocks := Attached(side), Record(side).value.blocks;
        && (d.Lba28() && d.word(60) == capacity % 0x1_0000 && d.word(61) == capacity / 0x1_0000 ==> blocks == capacity)
        && (!d.Lba28() && d.word(53) % 2 == 1 && d.word(57) == capacity % 0x1_0000 && d.word(58) == capacity / 0x1_0000 ==>
              blocks == capacity)
        && (!d.Lba28() && d.word(53) % 2 == 0 && capacity == d.word(3) as int * d.word(6) as int * d.word(1) as int ==>
              blocks == capacity)
    {
    }

    method OutIdentify()
      requires Valid() && Idle()
      modifies this`phase, this`offset, this`busy, this`spells, this`error
      ensures Valid()
      ensures var d := Selected();
        if d == null then Idle()
        else error == d.packet && if d.packet then phase == Ready else phase == Identifying && offset == 0
    {
      var d := Selected();
      if d != null {
        error := d.packet;
        if !d.packet {
          phase, offset := Identifying, 0;
        }
        busy, spells := delay(spells), spells + 1;
      }
    }

    /** The loop that waits for data or an error. */
    method WaitForData() returns (ok: bool)
      requires Valid() && Selected() != null && error == (phase == Ready)
      modifies this`busy, this`looks
      ensures Valid() && busy == 0 && ok == (phase != Ready)
    {
      var s := Status();
      ok := false;
      while s != 0
        invariant Valid() && s != 0 && (s / 0x80 == 1 ==> s == 0x80)
        invariant s / 0x80 == 0 ==> busy == 0 && (s / 8 % 2 == 1 <==> phase != Ready) && (s % 2 == 1 <==> error)
        decreases busy, s
      {
        if s / 8 % 2 == 1 {
          return true;
        }
        if s % 2 == 1 {
          return false;
        }
        s := Status();
      }
    }

    method ReadIdentification(ident: array<u16>)
      requires Valid() && phase == Identifying && offset == 0 && busy == 0 && ident.Length == 256
      modifies this`phase, this`sector, this`left, this`offset, this`busy, this`spells, ident
      ensures Valid() && Idle() && forall i | 0 <= i < 256 :: ident[i] == Selected().word(i)
    {
      for i := 0 to 256
        invariant Valid() && busy == 0
        invariant if i < 256 then phase == Identifying && offset == 2 * i else phase == Ready
        invariant forall k | 0 <= k < i :: ident[k] == Selected().word(k)
      {
        ident[i] := InData();
      }
    }

    method IssueIdentify(side: bool) returns (present: bool)
      requires Valid() && Idle() && Synced()
      modifies this
      ensures Valid() && Synced() && slaveSelected == side
      ensures present == (Attached(side) != null)
      ensures var d := Attached(side);
        if d == null then Idle()
        else error == d.packet && if d.packet then phase == Ready else phase == Identifying && offset == 0
    {
      DriveSelect(side);
      OutTaskFile(0, 0, 0, 0);
      OutIdentify();
      WaitNotBusy();
      var s := Status();
      present := s != 0;
    }

    /** The drive's record is made of the words that it gives; none of an absent drive or of one that
        refuses. */
    method Identify(side: bool) returns (info: Option<AtaDrive>)
      requires Valid() && Idle() && Synced()
      modifies this
      ensures Valid() && Idle() && Synced() && slaveSelected == side
      ensures info == Record(side)
    {
      var present := IssueIdentify(side);
      if !present {
        return None;
      }
      var ok := WaitForData();
      if !ok {
        return None;
      }
      var ident := new u16[256];
      ReadIdentification(ident);
      var drive := FromWords(side, ident);
      info := Some(drive);
    }

    method FromWords(side: bool, ident: array<u16>) returns (info: AtaDrive)
      requires ident.Length == 256 && Attached(side) != null && !Attached(side).packet
      requires forall i | 0 <= i < 256 :: ident[i] == Attached(side).word(i)
      ensures Some(info) == Record(side)
    {
      var model := ModelFrom(ident, Attached(side));
      var blocks: u32 := ident[60] as int + 0x1_0000 * ident[61] as int;
      var blocks48 := Widened(ident[100], ident[101], ident[102], ident[103]);
      var lba := blocks > 0;
      var heads, sectors, cylinders := ident[3], ident[6], ident[1];
      if blocks == 0 {
        if ident[53] % 2 == 1 {
          blocks := ident[57] as int + 0x1_0000 * ident[58] as int;
        } else {
          blocks := heads as int * sectors as int * cylinders as int % U32;
        }
      }
      info := AtaDrive(this, side, lba, cylinders, heads, sectors, blocks, blocks48 > 0, blocks48, ident[0], model);
    }

    method ModelFrom(ident: array<u16>, d: Disk) returns (model: seq<u8>)
      requires ident.Length == 256 && forall i | 0 <= i < 256 :: ident[i] == d.word(i)
      ensures model == d.Model()
    {
      model := [];
      for i := 27 to 47
        invariant |model| == 2 * (i - 27)
        invariant forall j | 0 <= j < |model| :: model[j] == d.Model()[j]
      {
        model := model + [ident[i] / 0x100, ident[i] % 0x100];
      }
    }

    // ----- agreement over runs -----

    /** What an operation does to the cached selection and the last drive/head value. */
    twostate predicate Recorded(op: Op)
      reads this
    {
      Selection(slaveSelected, lastHead) == After(old(Selection(slaveSelected, lastHead)), op)
    }

    method Perform(op: Op, mem: array<u8>)
      requires Valid() && mem !in Media() && op.FitsIn(mem.Length)
      modifies this, mem, Media()
      ensures Valid() && Recorded(op)
    {
      var r;
      match op {
        case Select(side) => DriveSelect(side);
        case Lba(write, sector, count, base) =>
          if write { r := WriteLba(sector, count, mem, base); } else { r := ReadLba(sector, count, mem, base); }
        case Chs(write, cylinder, head, sector, count, base) =>
          if write { r := WriteChs(cylinder, head, sector, count, mem, base); }
          else { r := ReadChs(cylinder, head, sector, count, mem, base); }
      }
    }

    /** From a successful ata_init on, the cached selection is bit 4 of the last value written to
        drive/head, through any run that spares that bit. */
    method Execute(ops: seq<Op>, mem: array<u8>)
      requires Valid() && Agrees() && mem !in Media() && forall op | op in ops :: op.FitsIn(mem.Length)
      modifies this, mem, Media()
      ensures Valid()
      ensures Selection(slaveSelected, lastHead) == Outcome(old(Selection(slaveSelected, lastHead)), ops)
      ensures AlwaysSpares(old(Selection(slaveSelected, lastHead)), ops) ==> Agrees()
    {
      ghost var start := Selection(slaveSelected, lastHead);
      for n := 0 to |ops|
        invariant Valid() && Selection(slaveSelected, lastHead) == Outcome(start, ops[..n])
      {
        assert ops[..n + 1][..n] == ops[..n];
        Perform(ops[n], mem);
      }
      assert ops[..|ops|] == ops;
      AgreementExactly(start, ops);
    }

    // ----- writing and reading back -----

    /** Time passes: the device works off status periods. */
    method Elapse(periods: nat)
      requires Valid()
      modifies this`busy
      ensures Valid() && busy == if old(busy) > periods then old(busy) - periods else 0
    {
      busy := if busy > periods then busy - periods else 0;
    }

    /** A read that is issued `gap` status periods from now. */
    method ReadAfter(gap: nat, sector: u32, count: u16, mem: array<u8>, base: nat) returns (r: u32)
      requires Valid() && phase == Ready && mem !in Media() && 1 <= count <= 256 && base + SECTOR * count <= mem.Length
      requires Attached(slaveSelected) != null && sector + count <= Attached(slaveSelected).capacity
      requires sector + count <= 0x1000_0000
      modifies this, mem
      ensures Valid() && Idle() && r == SECTOR * count && slaveSelected == old(slaveSelected)
      ensures forall j | 0 <= j < mem.Length && !(base <= j < base + r) :: mem[j] == old(mem[j])
      ensures old(busy) <= gap && Attached(slaveSelected).Lba28() ==>
        mem[base..base + r] == Attached(slaveSelected).bytes[SECTOR * sector..SECTOR * (sector + count)]
      ensures old(busy) > gap || !Attached(slaveSelected).Lba28() ==> forall j | base <= j < base + r :: mem[j] == 0xFF
    {
      Elapse(gap);
      assert Sectors(count) == count;
      ghost var good, d := busy == 0 && Attached(slaveSelected).Lba28(), Attached(slaveSelected);
      r := ReadLba(sector, count, mem, base);
      ghost var got, want := mem[base..base + r], d.bytes[SECTOR * sector..SECTOR * (sector + count)];
      assert |got| == |want| && forall j | 0 <= j < |got| && good :: got[j] == want[j];
    }

    /** A write of sectors that exist, to a device that is ready for it. */
    method WriteWhole(sector: u32, count: u16, mem: array<u8>, base: nat) returns (w: u32)
      requires Valid() && Idle() && mem !in Media() && 1 <= count <= 256 && base + SECTOR * count <= mem.Length
      requires Attached(slaveSelected) != null && sector + count <= Attached(slaveSelected).capacity
      requires sector + count <= 0x1000_0000
      modifies this, Media()
      ensures Valid() && phase == Ready && w == SECTOR * count && slaveSelected == old(slaveSelected)
      ensures Unwritten(!slaveSelected)
      ensures busy == if Attached(slaveSelected).Lba28() then delay(old(spells) + count) else 0
      ensures var d, start, end := Attached(slaveSelected), SECTOR * sector, SECTOR * (sector + count);
        && (forall j | start <= j < end && d.Lba28() :: d.bytes[j] == mem[base + (j - start)])
        && (forall j | 0 <= j < d.bytes.Length && !(start <= j < end && d.Lba28()) :: d.bytes[j] == old(d.bytes[j]))
    {
      assert Sectors(count) == count && sector % 0x1000_0000 == sector;
      w := WriteLba(sector, count, mem, base);
    }

    /** ... and what the whole drive stores afterwards. */
    method WriteSpliced(sector: u32, count: u16, mem: array<u8>, base: nat) returns (w: u32)
      requires Valid() && Idle() && mem !in Media() && 1 <= count <= 256 && base + SECTOR * count <= mem.Length
      requires Attached(slaveSelected) != null && sector + count <= Attached(slaveSelected).capacity
      requires sector + count <= 0x1000_0000
      modifies this, Media()
      ensures Valid() && phase == Ready && w == SECTOR * count && slaveSelected == old(slaveSelected)
      ensures Unwritten(!slaveSelected) && (!Attached(slaveSelected).Lba28() ==> Unwritten(slaveSelected))
      ensures busy == if Attached(slaveSelected).Lba28() then delay(old(spells) + count) else 0
      ensures var d := Attached(slaveSelected);
        d.bytes[..] ==
        if d.Lba28() then Splice(old(d.bytes[..]), SECTOR * sector, old(mem[base..base + SECTOR * count]))
        else old(d.bytes[..])
    {
      ghost var d := Attached(slaveSelected);
      ghost var was, data := d.bytes[..], mem[base..base + SECTOR * count];
      ghost var want := if d.Lba28() then Splice(was, SECTOR * sector, data) else was;
      w := WriteWhole(sector, count, mem, base);
      ghost var start, end := SECTOR * sector, SECTOR * (sector + count);
      forall j | 0 <= j < d.bytes.Length
        ensures d.bytes[j] == want[j]
      {
        if start <= j < end && d.Lba28() {
          assert d.bytes[j] == mem[base + (j - start)] == data[j - start];
        } else {
          assert d.bytes[j] == was[j];
        }
      }
      assert d.bytes[..] == want;
    }

    /** Reading back what was just written gives it back exactly when the device had time to
        finish the last sector: ata_write_lba does not wait for that, ata_read_lba does not look,
        and a busy device does not take the command. */
    method WriteThenRead(sector: u32, count: u16, mem: array<u8>, src: nat, dst: nat, gap: nat)
      returns (w: u32, r: u32)
      requires Valid() && Idle() && mem !in Media() && 1 <= count <= 256
      requires src + SECTOR * count <= mem.Length && dst + SECTOR * count <= mem.Length
      requires Attached(slaveSelected) != null && sector + count <= Attached(slaveSelected).capacity
      requires sector + count <= 0x1000_0000
      modifies this, mem, Media()
      ensures Valid() && Idle() && w == r == SECTOR * count && slaveSelected == old(slaveSelected)
      ensures var d, data := Attached(slaveSelected), old(mem[src..src + SECTOR * count]);
        d.Lba28() ==> d.bytes[..] == Splice(old(d.bytes[..]), SECTOR * sector, data)
      ensures Unwritten(!slaveSelected)
      ensures forall j | 0 <= j < mem.Length && !(dst <= j < dst + r) :: mem[j] == old(mem[j])
      ensures !Attached(slaveSelected).Lba28() ==> Unwritten(slaveSelected)
      ensures var ok := Attached(slaveSelected).Lba28() && delay(old(spells) + count) <= gap;
        if ok then mem[dst..dst + r] == old(mem[src..src + SECTOR * count])
        else forall j | dst <= j < dst + r :: mem[j] == 0xFF
    {
      ghost var d := Attached(slaveSelected);
      ghost var was, data := d.bytes[..], mem[src..src + SECTOR * count];
      w := WriteSpliced(sector, count, mem, src);
      SpliceHolds(was, SECTOR * sector, data);
      ghost var now := d.bytes[..];
      assert now[SECTOR * sector..SECTOR * (sector + count)] == d.bytes[SECTOR * sector..SECTOR * (sector + count)];
      r := ReadAfter(gap, sector, count, mem, dst);
      assert d.bytes[..] == now;
    }
  }

  /** A drive that stays busy for one look at its status: a sector of zeros is written, and a
      read at once finds none of them. */
  method ReadTooSoon() returns (ch: Channel, mem: array<u8>)
    ensures ch.Valid() && ch.master != null && ch.master.capacity == 1 && mem.Length == 2 * SECTOR
    ensures forall j | 0 <= j < SECTOR :: mem[j] == ch.master.bytes[j] == 0
    ensures forall j | SECTOR <= j < 2 * SECTOR :: mem[j] == 0xFF
  {
    var disk := new Disk(1, n => if n == 60 then 1 else 0, false);
    ch := new Channel(true, disk, null, _ => 1);
    mem := new u8[2 * SECTOR](_ => 0);
    ghost var zeros := mem[..SECTOR];
    var w, r := ch.WriteThenRead(0, 1, mem, 0, SECTOR, 0);
    forall j | 0 <= j < SECTOR
      ensures mem[j] == disk.bytes[j] == 0
    {
      assert disk.bytes[..][j] == zeros[j];
    }
  }

  // ----- the cached selection -----

  datatype Op =
    | Select(side: bool)
    | Lba(write: bool, lba: u32, count: u16, base: nat)
    | Chs(write: bool, cylinder: u32, head: u8, sector: u16, count: u16, base: nat)
  {
    predicate FitsIn(n: nat) {
      Select? || base + SECTOR * count <= n
    }
  }

  /** The cached selection and the last value written to drive/head. */
  datatype Selection = Selection(cached: bool, written: bv8) {
    predicate Agrees() {
      cached == SelectsSlave(written)
    }
  }

  function After(s: Selection, op: Op): Selection {
    match op
    case Select(side) => if s.cached == side then s else Selection(side, ChsHead(side, 0))
    case Lba(_, lba, _, _) => s.(written := LbaHead(s.cached, (lba / 0x100_0000 % 16) as bv8))
    case Chs(_, _, head, _, _, _) => s.(written := ChsHead(s.cached, head as bv8))
  }

  function Outcome(s: Selection, ops: seq<Op>): Selection {
    if ops == [] then s else After(Outcome(s, ops[..|ops| - 1]), ops[|ops| - 1])
  }

  /** Operation `k` does not select the slave behind the driver's back: bit 4 of a head number
      that is written while the master is selected is clear. */
  predicate Spares(s: Selection, ops: seq<Op>, k: nat)
    requires k < |ops|
  {
    ops[k].Chs? ==> ops[k].head / 16 % 2 == 0 || Outcome(s, ops[..k]).cached
  }

  /** One step keeps the agreement exactly when it spares the bit. */
  lemma StepAgrees(s: Selection, op: Op)
    requires s.Agrees()
    ensures After(s, op).Agrees() <==> (op.Chs? ==> op.head / 16 % 2 == 0 || s.cached)
  {
    match op
    case Select(_) =>
    case Lba(_, lba, _, _) => LbaHeadDecodes(s.cached, lba / 0x100_0000 % 16);
    case Chs(_, _, head, _, _, _) =>
      ChsHeadDecodes(s.cached, head);
  }

  ghost predicate AlwaysAgrees(s: Selection, ops: seq<Op>) {
    forall k | 0 <= k <= |ops| :: Outcome(s, ops[..k]).Agrees()
  }

  ghost predicate AlwaysSpares(s: Selection, ops: seq<Op>) {
    forall k | 0 <= k < |ops| :: Spares(s, ops, k)
  }

  /** The cached selection agrees with the register at every point of a run exactly when each
      operation of the run spares the bit. */
  lemma {:induction false} AgreementExactly(s: Selection, ops: seq<Op>)
    requires s.Agrees()
    ensures AlwaysAgrees(s, ops) <==> AlwaysSpares(s, ops)
  {
    if ops != [] {
      var n := |ops| - 1;
      AgreementExactly(s, ops[..n]);
      Prefixes(s, ops);
      if Outcome(s, ops[..n]).Agrees() {
        StepAgrees(Outcome(s, ops[..n]), ops[n]);
      }
    }
  }

  lemma Prefixes(s: Selection, ops: seq<Op>)
    requires ops != []
    ensures var front := ops[..|ops| - 1];
      && (AlwaysAgrees(s, ops) <==> AlwaysAgrees(s, front) && Outcome(s, ops).Agrees())
      && (AlwaysSpares(s, ops) <==> AlwaysSpares(s, front) && Spares(s, ops, |ops| - 1))
      && (AlwaysAgrees(s, front) ==> Outcome(s, front).Agrees())
  {
    AgreesPrefix(s, ops);
    SparesPrefix(s, ops);
    var front := ops[..|ops| - 1];
    assert front[..|front|] == front;
  }

  lemma AgreesPrefix(s: Selection, ops: seq<Op>)
    requires ops != []
    ensures AlwaysAgrees(s, ops) <==> AlwaysAgrees(s, ops[..|ops| - 1]) && Outcome(s, ops).Agrees()
  {
    var front := ops[..|ops| - 1];
    if AlwaysAgrees(s, ops) {
      assert ops[..|ops|] == ops;
      forall k | 0 <= k <= |front|
        ensures Outcome(s, front[..k]).Agrees()
      {
        FrontOf(ops, k);
      }
    }
    if AlwaysAgrees(s, front) && Outcome(s, ops).Agrees() {
      forall k | 0 <= k <= |ops|
        ensures Outcome(s, ops[..k]).Agrees()
      {
        if k == |ops| {
          assert ops[..k] == ops;
        } else {
          FrontOf(ops, k);
        }
      }
    }
  }

  lemma FrontOf(ops: seq<Op>, k: nat)
    requires k < |ops|
    ensures ops[..|ops| - 1][..k] == ops[..k]
  {
  }

  lemma SparesPrefix(s: Selection, ops: seq<Op>)
    requires ops != []
    ensures AlwaysSpares(s, ops) <==> AlwaysSpares(s, ops[..|ops| - 1]) && Spares(s, ops, |ops| - 1)
  {
    var n := |ops| - 1;
    var front := ops[..n];
    assert forall k | 0 <= k <= n :: front[..k] == ops[..k];
    assert forall k | 0 <= k < n :: Spares(s, front, k) == Spares(s, ops, k);
  }
}
