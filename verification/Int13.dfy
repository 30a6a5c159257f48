/** The INT 13h handler (bios.c) and the geometry that it speaks. */
module Int13 {
  import opened Types
  import opened Frames
  import opened Ata

  /** Where the handler finds the frame, which it changes in place. */
  class FrameRef {
    var frame: Frame

    constructor (frame: Frame)
      ensures this.frame == frame
    {
      this.frame := frame;
    }
  }

  /** Cylinder and sector as they come in CH and CL. */
  function Cylinder(ch: u8, cl: u8): nat {
    ch + cl / 64 * 0x100
  }

  function Sector(cl: u8): nat {
    cl % 64
  }

  /** AH=02h and AH=03h: the sector that the registers name.  `heads` is the last head. */
  function Lba(ch: u8, cl: u8, dh: u8, heads: u16, sectors: u16): u32 {
    ChsToLba(Cylinder(ch, cl), dh, Sector(cl), heads + 1, sectors) % U32
  }

  /** a | b, of two bits each. */
  function Or(a: nat, b: nat): nat
    requires a < 4 && b < 4
  {
    (if a % 2 == 1 || b % 2 == 1 then 1 else 0) + if a >= 2 || b >= 2 then 2 else 0
  }

  /** AH=08h: the CL that reports the sectors per track, whose upper bits are not masked off, and
      the cylinders. */
  function ReportedCl(sectors: u8, cylinders: u16): u8 {
    sectors % 64 + 64 * Or(sectors / 64, cylinders / 0x100 % 4)
  }

  lemma ReportsGeometry(sectors: u8, cylinders: u16)
    requires sectors < 64
    ensures var cl := ReportedCl(sectors, cylinders);
      Sector(cl) == sectors && Cylinder(cylinders % 0x100, cl) == cylinders % 1024
  {
    var page := cylinders / 0x100;
    MulMod(sectors + 64 * (page % 4), page % 4, 64, sectors);
    MulMod(cylinders, page / 4, 1024, cylinders % 0x100 + 0x100 * (page % 4));
  }

  // ----- the caller's side -----

  datatype Place = Place(cylinder: nat, head: nat, sector: nat) {
    predicate Valid(heads: nat, sectors: nat) {
      head < heads && 1 <= sector <= sectors
    }

    predicate Before(that: Place) {
      || cylinder < that.cylinder
      || (cylinder == that.cylinder && (head < that.head || (head == that.head && sector < that.sector)))
    }

    function ToLba(heads: nat, sectors: nat): int {
      ChsToLba(cylinder, head, sector, heads, sectors)
    }

    /** CH and CL of a call; DH is the head. */
    function Ch(): u8 {
      cylinder % 0x100
    }

    function Cl(): nat {
      cylinder / 0x100 * 64 + sector
    }
  }

  function FromLba(lba: nat, heads: nat, sectors: nat): Place
    requires heads > 0 && sectors > 0
  {
    Place(lba / sectors / heads, lba / sectors % heads, lba % sectors + 1)
  }

  /** Addresses of sectors, with the intermediate track and cylinder numbers. */
  lemma Tracks(p: Place, heads: nat, sectors: nat)
    requires p.Valid(heads, sectors)
    ensures var lba, track := p.ToLba(heads, sectors), p.cylinder * heads + p.head;
      && lba == track * sectors + (p.sector - 1) && lba >= 0
      && lba / sectors == track && lba % sectors == p.sector - 1
      && track / heads == p.cylinder && track % heads == p.head
  {
    var track := p.cylinder * heads + p.head;
    MulMod(track * sectors + (p.sector - 1), track, sectors, p.sector - 1);
    MulMod(track, p.cylinder, heads, p.head);
    assert p.cylinder * heads >= 0 && track * sectors >= 0;
  }

  /** The map between LBA and CHS is a bijection: this way ... */
  lemma LbaThere(p: Place, heads: nat, sectors: nat)
    requires p.Valid(heads, sectors)
    ensures p.ToLba(heads, sectors) >= 0 && FromLba(p.ToLba(heads, sectors), heads, sectors) == p
  {
    Tracks(p, heads, sectors);
  }

  /** ... and that. */
  lemma LbaBack(lba: nat, heads: nat, sectors: nat)
    requires heads > 0 && sectors > 0
    ensures var p := FromLba(lba, heads, sectors);
      p.Valid(heads, sectors) && p.ToLba(heads, sectors) == lba
  {
    var track := lba / sectors;
    assert lba == track * sectors + lba % sectors;
    assert track == track / heads * heads + track % heads;
  }

  lemma LaterTrack(a: nat, b: nat, n: nat, i: nat, j: nat)
    requires a < b && i < n
    ensures a * n + i < b * n + j
  {
    assert b * n == a * n + n + (b - a - 1) * n;
    assert (b - a - 1) * n >= 0;
  }

  /** It keeps the lexicographic order. */
  lemma Increasing(p: Place, q: Place, heads: nat, sectors: nat)
    requires p.Valid(heads, sectors) && q.Valid(heads, sectors)
    ensures p.Before(q) <==> p.ToLba(heads, sectors) < q.ToLba(heads, sectors)
  {
    if p.Before(q) {
      Later(p, q, heads, sectors);
    } else if p != q {
      Later(q, p, heads, sectors);
    }
  }

  lemma Later(p: Place, q: Place, heads: nat, sectors: nat)
    requires p.Valid(heads, sectors) && q.Valid(heads, sectors) && p.Before(q)
    ensures p.ToLba(heads, sectors) < q.ToLba(heads, sectors)
  {
    var t, u := p.cylinder * heads + p.head, q.cylinder * heads + q.head;
    if p.cylinder < q.cylinder {
      LaterTrack(p.cylinder, q.cylinder, heads, p.head, q.head);
    }
    if t < u {
      LaterTrack(t, u, sectors, p.sector - 1, q.sector - 1);
    }
  }

  lemma PackDecodes(p: Place)
    requires p.cylinder < 1024 && p.sector < 64
    ensures p.Cl() < 0x100 && Cylinder(p.Ch(), p.Cl()) == p.cylinder && Sector(p.Cl()) == p.sector
    ensures p.Ch() + p.Cl() / 64 * 0x100 == p.cylinder && p.Cl() % 64 == p.sector
  {
    var hi := p.cylinder / 0x100;
    assert p.Cl() == hi * 64 + p.sector;
    assert p.Cl() / 64 == hi && p.Cl() % 64 == p.sector;
  }

  lemma ProductBound(a: nat, b: nat, m: nat, n: nat)
    requires a <= m && b <= n
    ensures a * b <= m * n
  {
    assert a * b + a * (n - b) + (m - a) * n == m * n;
    assert a * (n - b) >= 0 && (m - a) * n >= 0;
  }

  /** The geometry closes: a caller that takes the last head and the sectors per track from
      AH=08h, converts an LBA to cylinder, head and sector by them and packs these into CH, CL and
      DH makes the handler arrive at the same LBA. */
  lemma GeometryCloses(lba: nat, cylinders: u16, heads: u8, sectors: u8)
    requires 1 <= sectors < 64
    requires FromLba(lba, heads + 1, Sector(ReportedCl(sectors, cylinders))).cylinder < 1024
    ensures var p := FromLba(lba, heads + 1, Sector(ReportedCl(sectors, cylinders)));
      p.Cl() < 0x100 && p.head <= heads && Lba(p.Ch(), p.Cl(), p.head, heads, sectors) == lba
    ensures lba < 0x1000_0000
  {
    ReportsGeometry(sectors, cylinders);
    PackedLba(lba, heads, sectors);
  }

  lemma PackedLba(lba: nat, heads: u8, sectors: u8)
    requires 1 <= sectors < 64 && FromLba(lba, heads + 1, sectors).cylinder < 1024
    ensures var p := FromLba(lba, heads + 1, sectors);
      && p.Cl() < 0x100 && p.head <= heads && p.Valid(heads + 1, sectors)
      && Lba(p.Ch(), p.Cl(), p.head, heads, sectors) == lba < 0x1000_0000
  {
    var p := FromLba(lba, heads + 1, sectors);
    LbaBack(lba, heads + 1, sectors);
    PackDecodes(p);
    Below28(p, heads, sectors);
  }

  // ----- drives without LBA -----

  /** The caller's geometry has one head more than the drive, whose own geometry ata_read_chs
      speaks: their sector numbers agree on the first cylinder and nowhere else. */
  lemma ForeignGeometry(p: Place, heads: nat, sectors: nat)
    requires p.Valid(heads + 1, sectors)
    ensures p.ToLba(heads, sectors) == p.ToLba(heads + 1, sectors) <==> p.cylinder == 0
  {
    var t, u := p.cylinder * heads + p.head, p.cylinder * (heads + 1) + p.head;
    assert u == t + p.cylinder;
    if p.cylinder > 0 {
      MulAtLeast(p.cylinder, sectors);
      assert u * sectors == t * sectors + p.cylinder * sectors;
    }
  }

  /** The last head that the caller counts does not exist.  The place of an LBA in the caller's
      geometry is one that the drive gives the same number exactly on the first cylinder. */
  lemma FirstCylinder(lba: nat, heads: nat, sectors: nat)
    requires heads > 0 && sectors > 0
    ensures var p := FromLba(lba, heads + 1, sectors);
      && p.Valid(heads + 1, sectors) && p.ToLba(heads + 1, sectors) == lba
      && (p.cylinder == 0 && p.head < heads <==> lba < heads * sectors)
  {
    LbaBack(lba, heads + 1, sectors);
    var track := lba / sectors;
    assert lba == track * sectors + lba % sectors;
    assert track / (heads + 1) == 0 <==> track < heads + 1;
    if track < heads {
      ProductBound(track + 1, sectors, heads, sectors);
      assert (track + 1) * sectors == track * sectors + sectors;
    } else {
      ProductBound(heads, sectors, track, sectors);
    }
  }

  /** A drive without LBA is given the caller's place as it is.  Through AH=02h or AH=03h the caller
      reaches the sector of its LBA, on its drive, exactly when the LBA lies on the drive's own
      first cylinder. */
  lemma ChsReaches(lba: nat, info: AtaDrive)
    requires info.dev.Record(info.slave) == Some(info) && !info.lba28
    requires 1 <= info.heads <= 16 && 1 <= info.sectors < 64
    requires FromLba(lba, info.heads + 1, info.sectors).cylinder < 1024
    ensures var p := FromLba(lba, info.heads + 1, info.sectors);
      && p.head <= 16 && p.Cl() < 0x100
      && (info.dev.ChsSide(info.slave, p.head) == info.slave
          && info.dev.ChsTarget(info.slave, Cylinder(p.Ch(), p.Cl()), p.head, Sector(p.Cl())) == lba
          <==> lba < info.heads * info.sectors)
  {
    FirstCylinder(lba, info.heads, info.sectors);
    PlaceReaches(FromLba(lba, info.heads + 1, info.sectors), info);
  }

  lemma PlaceReaches(p: Place, info: AtaDrive)
    requires info.dev.Record(info.slave) == Some(info)
    requires p.cylinder < 1024 && p.Valid(info.heads + 1, info.sectors) && info.heads <= 16 && info.sectors < 64
    ensures p.Cl() < 0x100
    ensures info.dev.ChsSide(info.slave, p.head) == info.slave
      && info.dev.ChsTarget(info.slave, Cylinder(p.Ch(), p.Cl()), p.head, Sector(p.Cl()))
         == p.ToLba(info.heads + 1, info.sectors)
      <==> p.cylinder == 0 && p.head < info.heads
  {
    PackDecodes(p);
    NamedReaches(p, info, Cylinder(p.Ch(), p.Cl()), Sector(p.Cl()));
  }

  lemma NamedReaches(p: Place, info: AtaDrive, cylinder: nat, sector: nat)
    requires info.dev.Record(info.slave) == Some(info) && cylinder == p.cylinder && sector == p.sector
    requires p.cylinder < 1024 && p.Valid(info.heads + 1, info.sectors) && info.heads <= 16 && info.sectors < 64
    ensures info.dev.ChsSide(info.slave, p.head) == info.slave
      && info.dev.ChsTarget(info.slave, cylinder, p.head, sector) == p.ToLba(info.heads + 1, info.sectors)
      <==> p.cylinder == 0 && p.head < info.heads
  {
    SmallPlace(info.dev, info.slave, cylinder, p.head, sector);
    OwnPlace(info.dev.Attached(info.slave), p, if p.head < 16 then p.head else 0);
  }

  /** The drive's number of the place, with the head that it sees, is the caller's on the first
      cylinder only, and only if it is the caller's head. */
  lemma OwnPlace(d: Disk, p: Place, head: nat)
    requires !d.packet && p.Valid(d.Heads() + 1, d.Sectors()) && d.Heads() <= 16 && head == if p.head < 16 then p.head else 0
    ensures ChsOn(d, p.cylinder, head, p.sector) == p.ToLba(d.Heads() + 1, d.Sectors()) <==>
      p.cylinder == 0 && p.head < d.Heads()
  {
    if p.head < d.Heads() {
      ForeignGeometry(p, d.Heads(), d.Sectors());
    } else if d.Heads() == 16 {
      FirstHead(p, d.Sectors());
    } else {
      LbaThere(p, d.Heads() + 1, d.Sectors());
    }
  }

  /** What a place with a head of at most 16 comes to. */
  lemma SmallPlace(dev: Channel, cached: bool, cylinder: nat, head: nat, sector: nat)
    requires cylinder < 1024 && head <= 16 && sector < 64 && dev.Attached(cached) != null
    ensures dev.ChsSide(cached, head) == (cached || head == 16)
    ensures cached || head < 16 ==>
      dev.ChsTarget(cached, cylinder, head, sector) ==
      ChsOn(dev.Attached(cached), cylinder, if head < 16 then head else 0, sector)
  {
    assert head / 64 % 2 == 0 && head % 16 == if head < 16 then head else 0;
  }

  /** Head 16 is taken for head 0 of the slave, where the LBA is not either. */
  lemma FirstHead(p: Place, sectors: nat)
    requires p.Valid(17, sectors) && p.head == 16
    ensures p.ToLba(17, sectors) != Place(p.cylinder, 0, p.sector).ToLba(16, sectors)
  {
    var t := p.cylinder * 16;
    assert p.cylinder * 17 + 16 == t + (p.cylinder + 16);
    assert (t + (p.cylinder + 16)) * sectors == t * sectors + (p.cylinder + 16) * sectors;
    MulAtLeast(p.cylinder + 16, sectors);
  }

  /** A master of 16 heads and 63 sectors: the caller's place for LBA 1008 is head 16, which selects
      the slave. */
  lemma SixteenHeads()
    ensures FromLba(1008, 17, 63) == Place(0, 16, 1)
    ensures SelectsSlave(ChsHead(false, 16)) && !LbaMode(ChsHead(false, 16)) && Low(ChsHead(false, 16)) == 0
  {
    ChsHeadDecodes(false, 16);
  }

  // ----- the handler -----

  /** `info` is the first record of the drive table, and its drive is the selected one. */
  ghost predicate Ready(info: AtaDrive, mem: array<u8>)
    reads info.dev
  {
    && info.dev.Valid() && info.dev.phase == Ata.Ready && info.dev.slaveSelected == info.slave
    && info.dev.Record(info.slave) == Some(info)
    && mem.Length >= 0x14_0000 && mem !in info.dev.Media()
  }

  function Buffer(f: Frame): (r: nat)
    ensures r + SECTOR * 0xFF <= 0x14_0000
  {
    f.es.Value() * 16 + f.Bx()
  }

  /** The drive and the sector that AH=02h and AH=03h go to. */
  function Side(f: Frame, info: AtaDrive): bool {
    if info.lba28 then info.slave else info.dev.ChsSide(info.slave, f.Dh())
  }

  function Target(f: Frame, info: AtaDrive): int {
    if info.lba28 then Lba(f.Ch(), f.Cl(), f.Dh(), info.heads, info.sectors) % 0x1000_0000
    else info.dev.ChsTarget(info.slave, Cylinder(f.Ch(), f.Cl()), f.Dh(), Sector(f.Cl()))
  }

  /** The frame that the program gets back.  For a drive other than 80h AH=02h and AH=03h do
      nothing, not even an error return. */
  function Served(f: Frame, info: AtaDrive): Frame {
    match f.Ah()
    case 0 => f.WithAx(0, 0).WithCarry(false)
    case 2 => if f.Dl() == 0x80 then f.WithAx(f.Al(), 0).WithCarry(false) else f
    case 3 => if f.Dl() == 0x80 then f.WithAx(f.Al(), 0).WithCarry(false) else f
    case 8 =>
      if f.Dl() == 0x80 then
        f.WithAx(f.Al(), 0).WithCx(ReportedCl(info.sectors % 0x100, info.cylinders), info.cylinders % 0x100)
        .WithDx(1, info.heads % 0x100).WithCarry(false)
      else f.WithAx(1, f.Ah()).WithCarry(true)
    case _ => f.WithAx(1, f.Ah()).WithCarry(true)
  }

  /** What a program finds in AX, CX, DX and FLAGS, byte by byte, after a call with `f`.  Carry is bit 0
      of FLAGS, whose other bits stay. */
  predicate Answers(f: Frame, info: AtaDrive, eax: Dword, ecx: Dword, edx: Dword, flags: Word) {
    var ah, drive := f.eax.b1, f.edx.b0;
    && (ah in {0x02, 0x03} && drive == 0x80 ==>
          flags.lo % 2 == 0 && eax == f.eax.(b1 := 0) && ecx == f.ecx && edx == f.edx)
    && (ah in {0x02, 0x03} && drive != 0x80 ==> flags == f.flags && eax == f.eax && ecx == f.ecx && edx == f.edx)
    && (ah == 0x00 ==> flags.lo % 2 == 0 && eax == f.eax.(b0 := 0) && ecx == f.ecx && edx == f.edx)
    && (ah == 0x08 && drive == 0x80 ==>
          && flags.lo % 2 == 0 && eax == f.eax.(b1 := 0)
          && (ecx.b2 == f.ecx.b2 && ecx.b3 == f.ecx.b3 && edx.b2 == f.edx.b2 && edx.b3 == f.edx.b3)
          && edx.b0 == 1 && edx.b1 == info.heads % 0x100
          && (info.sectors < 64 ==>
                ecx.b0 % 64 == info.sectors && ecx.b1 as int + ecx.b0 / 64 * 0x100 == info.cylinders % 1024))
    && (ah !in {0x00, 0x02, 0x03, 0x08} || (ah == 0x08 && drive != 0x80) ==>
          flags.lo % 2 == 1 && eax == f.eax.(b0 := 1) && ecx == f.ecx && edx == f.edx)
    && flags.hi == f.flags.hi && flags.lo / 2 == f.flags.lo / 2
  }

  /** Only those registers change. */
  predicate Elsewhere(f: Frame, g: Frame) {
    g == f.(eax := g.eax, ecx := g.ecx, edx := g.edx, flags := g.flags)
  }

  lemma ServedAnswers(f: Frame, info: AtaDrive)
    ensures var g := Served(f, info);
      Answers(f, info, g.eax, g.ecx, g.edx, g.flags) && Elsewhere(f, g)
  {
    CarryBit(f.flags.lo);
    if f.Ah() == 8 && f.Dl() == 0x80 && info.sectors < 64 {
      assert info.sectors % 0x100 == info.sectors;
      ReportsGeometry(info.sectors, info.cylinders);
    }
  }

  lemma CarryBit(x: u8)
    ensures (x / 2 * 2) % 2 == 0 && (x / 2 * 2) / 2 == x / 2
    ensures (x / 2 * 2 + 1) % 2 == 1 && (x / 2 * 2 + 1) / 2 == x / 2
  {
  }

  /** AH=02h. */
  twostate predicate ReadDone(f: Frame, info: AtaDrive, mem: array<u8>)
    requires old(Ready(info, mem))
    reads info.dev, mem, info.dev.Media()
  {
    && info.dev.Valid() && info.dev.slaveSelected == info.slave
    && if f.Dl() != 0x80 then
         unchanged(info.dev) && unchanged(mem)
       else
         && (forall j | 0 <= j < mem.Length && !(Buffer(f) <= j < Buffer(f) + SECTOR * f.Al()) :: mem[j] == old(mem[j]))
         && info.dev.HasRead(Side(f, info), Target(f, info), f.Al(), mem, Buffer(f))
         && info.dev.BytesRead(Side(f, info), Target(f, info), f.Al(), old(info.dev.Idle()), mem, Buffer(f))
         && (info.dev.Agrees() <==> Side(f, info) == info.slave)
  }

  /** AH=03h. */
  twostate predicate WriteDone(f: Frame, info: AtaDrive, mem: array<u8>)
    requires old(Ready(info, mem))
    reads info.dev, mem, info.dev.Media()
  {
    && info.dev.Valid() && info.dev.slaveSelected == info.slave
    && if f.Dl() != 0x80 then
         unchanged(info.dev) && info.dev.Unwritten(false) && info.dev.Unwritten(true)
       else
         && info.dev.HasWritten(Side(f, info), Target(f, info), f.Al(), mem, Buffer(f))
         && info.dev.BytesWritten(Side(f, info), Target(f, info), f.Al(), old(info.dev.Idle()), mem[..], Buffer(f),
                                  old(info.dev.Contents(Side(f, info))), old(info.dev.Contents(!Side(f, info))))
         && (info.dev.Agrees() <==> Side(f, info) == info.slave)
  }

  method ReadSectors(ref: FrameRef, info: AtaDrive, mem: array<u8>)
    requires Ready(info, mem) && ref.frame.Ah() == 2
    modifies ref, info.dev, mem
    ensures ref.frame == Served(old(ref.frame), info) && ReadDone(old(ref.frame), info, mem)
  {
    var f := ref.frame;
    if f.Dl() == 0x80 {
      ReadInto(f, info, mem);
      ref.frame := ref.frame.WithCarry(false).WithAx(f.Al(), 0);
    }
  }

  /** ... whose sectors are read with LBA or without. */
  method ReadInto(f: Frame, info: AtaDrive, mem: array<u8>)
    requires Ready(info, mem) && f.Dl() == 0x80
    modifies info.dev, mem
    ensures ReadDone(f, info, mem)
  {
    var r;
    if info.lba28 {
      r := info.dev.ReadLba(Lba(f.Ch(), f.Cl(), f.Dh(), info.heads, info.sectors), f.Al(), mem, Buffer(f));
    } else {
      ChsHeadDecodes(info.slave, f.Dh());
      r := info.dev.ReadChs(Cylinder(f.Ch(), f.Cl()), f.Dh(), Sector(f.Cl()), f.Al(), mem, Buffer(f));
    }
  }

  method WriteSectors(ref: FrameRef, info: AtaDrive, mem: array<u8>)
    requires Ready(info, mem) && ref.frame.Ah() == 3
    modifies ref, info.dev, info.dev.Media()
    ensures ref.frame == Served(old(ref.frame), info) && WriteDone(old(ref.frame), info, mem)
  {
    var f := ref.frame;
    if f.Dl() == 0x80 {
      WriteFrom(f, info, mem);
      ref.frame := ref.frame.WithCarry(false).WithAx(f.Al(), 0);
    }
  }

  method WriteFrom(f: Frame, info: AtaDrive, mem: array<u8>)
    requires Ready(info, mem) && f.Dl() == 0x80
    modifies info.dev, info.dev.Media()
    ensures WriteDone(f, info, mem)
  {
    var r;
    if info.lba28 {
      r := info.dev.WriteLba(Lba(f.Ch(), f.Cl(), f.Dh(), info.heads, info.sectors), f.Al(), mem, Buffer(f));
    } else {
      ChsHeadDecodes(info.slave, f.Dh());
      r := info.dev.WriteChs(Cylinder(f.Ch(), f.Cl()), f.Dh(), Sector(f.Cl()), f.Al(), mem, Buffer(f));
    }
  }

  method GetParameters(ref: FrameRef, info: AtaDrive)
    requires ref.frame.Ah() == 8
    modifies ref
    ensures ref.frame == Served(old(ref.frame), info)
  {
    var f := ref.frame;
    if f.Dl() == 0x80 {
      f := f.WithAx(f.Al(), 0);
      f := f.WithCx(ReportedCl(info.sectors % 0x100, info.cylinders), info.cylinders % 0x100);
      ref.frame := f.WithDx(1, info.heads % 0x100).WithCarry(false);
    } else {
      ref.frame := f.WithCarry(true).WithAx(1, f.Ah());
    }
  }

  method HandleDisk(ref: FrameRef, info: AtaDrive, mem: array<u8>)
    requires Ready(info, mem)
    modifies ref, info.dev, info.dev.Media(), mem
    ensures ref.frame == Served(old(ref.frame), info) && Elsewhere(old(ref.frame), ref.frame)
    ensures Answers(old(ref.frame), info, ref.frame.eax, ref.frame.ecx, ref.frame.edx, ref.frame.flags)
    ensures old(ref.frame).Ah() == 2 ==> ReadDone(old(ref.frame), info, mem)
    ensures old(ref.frame).Ah() == 3 ==> WriteDone(old(ref.frame), info, mem)
    ensures old(ref.frame).Ah() !in {2, 3} ==> unchanged(info.dev)
    ensures old(ref.frame).Ah() != 2 ==> unchanged(mem)
    ensures old(ref.frame).Ah() != 3 ==> info.dev.Unwritten(false) && info.dev.Unwritten(true)
  {
    ServedAnswers(ref.frame, info);
    match ref.frame.Ah() {
      case 8 => GetParameters(ref, info);
      case 2 => ReadSectors(ref, info, mem);
      case 3 => WriteSectors(ref, info, mem);
      case 0 => ref.frame := ref.frame.WithCarry(false).WithAx(0, ref.frame.Ah());
      case _ => ref.frame := ref.frame.WithAx(1, ref.frame.Ah()).WithCarry(true);
    }
  }

  // ----- a program that reads by the reported geometry -----

  /** The geometry can be reported, and the sectors have cylinder numbers that can be passed. */
  ghost predicate Reachable(info: AtaDrive, lba: nat, count: u8) {
    && info.heads < 0x100 && 1 <= info.sectors < 64 && 1 <= count
    && (!info.lba28 ==> 1 <= info.heads <= 16)
    && FromLba(lba, info.heads + 1, info.sectors).cylinder < 1024
    && info.dev.Attached(info.slave) != null && lba + count <= info.dev.Attached(info.slave).capacity
  }

  /** The program's LBA is where the call goes: always with LBA, else on the first cylinder only. */
  predicate Meets(info: AtaDrive, lba: nat) {
    info.lba28 || lba < info.heads * info.sectors
  }

  ghost predicate Read(info: AtaDrive, lba: nat, count: u8, mem: array<u8>, base: nat)
    reads info.dev, mem, info.dev.Media()
  {
    && info.dev.Valid() && info.dev.Idle() && info.dev.slaveSelected == info.slave
    && var d := info.dev.Attached(info.slave);
    && d != null && lba + count <= d.capacity && base + SECTOR * count <= mem.Length
    && forall j | base <= j < base + SECTOR * count :: mem[j] == d.bytes[SECTOR * lba + (j - base)]
  }

  const ZERO_WORD := Word(0, 0)
  const ZERO_DWORD := Dword(0, 0, 0, 0)
  const ZERO_FRAME := Frame(
    ZERO_WORD, ZERO_WORD, ZERO_WORD, ZERO_DWORD, ZERO_DWORD, ZERO_DWORD, ZERO_DWORD, ZERO_DWORD, ZERO_DWORD,
    ZERO_DWORD, ZERO_DWORD, ZERO_WORD, ZERO_WORD, ZERO_WORD, ZERO_WORD, ZERO_WORD)

  method GetGeometry(info: AtaDrive) returns (heads: nat, sectors: nat)
    requires info.heads < 0x100 && info.sectors < 64
    ensures heads == info.heads + 1 && sectors == info.sectors
  {
    var ref := new FrameRef(ZERO_FRAME.WithAx(0, 8).WithDx(0x80, 0));
    var s := info.sectors % 0x100;
    assert s == info.sectors && info.heads % 0x100 == info.heads;
    ReportsGeometry(s, info.cylinders);
    GetParameters(ref, info);
    assert ref.frame.Cl() == ReportedCl(s, info.cylinders);
    heads, sectors := ref.frame.Dh() + 1, Sector(ref.frame.Cl());
  }

  /** A call for the sectors from `lba` on. */
  method ReadAt(info: AtaDrive, mem: array<u8>, ref: FrameRef, lba: nat)
    requires Ready(info, mem) && info.dev.Idle() && Reachable(info, lba, ref.frame.Al())
    requires ref.frame.Ah() == 2 && ref.frame.Dl() == 0x80
    modifies ref, info.dev, mem
    ensures old(Side(ref.frame, info)) == info.slave && old(Target(ref.frame, info)) == lba ==>
      Read(info, lba, old(ref.frame).Al(), mem, Buffer(old(ref.frame)))
    ensures ReadDone(old(ref.frame), info, mem)
  {
    assert Sectors(ref.frame.Al()) == ref.frame.Al();
    ReadSectors(ref, info, mem);
  }

  /** The call for a caller's place goes to the sector of its LBA, on its drive, exactly when LBA and
      place meet. */
  lemma CallNames(lba: nat, info: AtaDrive, count: u8, f: Frame)
    requires info.dev.Record(info.slave) == Some(info) && Reachable(info, lba, count)
    requires var p := FromLba(lba, info.heads + 1, info.sectors);
      f.Ch() == p.Ch() && f.Cl() == p.Cl() && f.Dh() == p.head
    ensures Side(f, info) == info.slave && Target(f, info) == lba <==> Meets(info, lba)
  {
    var p := FromLba(lba, info.heads + 1, info.sectors);
    if info.lba28 {
      PackedLba(lba, info.heads, info.sectors);
      assert Target(f, info) == Lba(p.Ch(), p.Cl(), p.head, info.heads, info.sectors) % 0x1000_0000;
    } else {
      ChsReaches(lba, info);
    }
  }

  lemma CallFits(lba: nat, info: AtaDrive, count: u8)
    requires Reachable(info, lba, count)
    ensures var p := FromLba(lba, info.heads + 1, info.sectors);
      p.Cl() < 0x100 && p.head <= info.heads
  {
    LbaBack(lba, info.heads + 1, info.sectors);
    PackDecodes(FromLba(lba, info.heads + 1, info.sectors));
  }

  /** A call for a place. */
  function CallFor(ah: u8, p: Place, count: u8, es: Word, bx: Word): (f: Frame)
    requires p.Cl() < 0x100 && p.head < 0x100
    ensures f.Ah() == ah && f.Al() == count && f.Dl() == 0x80
    ensures f.Ch() == p.Ch() && f.Cl() == p.Cl() && f.Dh() == p.head
    ensures Buffer(f) == es.Value() * 16 + bx.Value()
  {
    ZERO_FRAME.WithAx(count, ah).WithCx(p.Cl(), p.Ch()).WithDx(0x80, p.head).(es := es, ebx := Dword(bx.lo, bx.hi, 0, 0))
  }

  method ReadByGeometry(info: AtaDrive, mem: array<u8>, lba: nat, count: u8, es: Word, bx: Word)
    returns (ghost f: Frame)
    requires Ready(info, mem) && info.dev.Idle() && Reachable(info, lba, count)
    modifies info.dev, mem
    ensures Side(f, info) == info.slave && Target(f, info) == lba <==> Meets(info, lba)
    ensures Meets(info, lba) ==> Read(info, lba, count, mem, es.Value() * 16 + bx.Value())
  {
    var heads, sectors := GetGeometry(info);
    var p := FromLba(lba, heads, sectors);
    CallFits(lba, info, count);
    var ref := new FrameRef(CallFor(2, p, count, es, bx));
    f := ref.frame;
    CallNames(lba, info, count, f);
    ReadAt(info, mem, ref, lba);
  }

  lemma Below28(p: Place, heads: u8, sectors: u8)
    requires p.Valid(heads + 1, sectors) && p.cylinder < 1024 && sectors < 64
    ensures p.ToLba(heads + 1, sectors) < 0x1000_0000
  {
    ProductBound(p.cylinder, heads + 1, 1023, 0x100);
    ProductBound(p.cylinder * (heads + 1) + p.head, sectors, 1024 * 0x100, 63);
  }
}
