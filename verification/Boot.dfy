/** Drive discovery and the hand-off to a boot sector (main.c), with the ATA channels of ata.c. */
module Boot {
  import opened Types
  import opened Ata
  import opened Frames
  import Int13

  const BOOT_SECTOR: nat := 0x7C00

  /** The drives of a channel, the master before the slave. */
  function Present(ch: Channel): (r: seq<AtaDrive>)
    ensures |r| <= 2 && forall d | d in r :: d.dev == ch && ch.Record(d.slave) == Some(d)
  {
    Listed(ch.Record(false)) + Listed(ch.Record(true))
  }

  function Listed(info: Option<AtaDrive>): seq<AtaDrive> {
    if info == None then [] else [info.value]
  }

  /** A drive table of four entries that starts with `found`. */
  function Table(found: seq<AtaDrive>): (r: seq<Option<AtaDrive>>)
    requires |found| <= 4
    ensures |r| == 4
  {
    seq(4, i => if 0 <= i < |found| then Some(found[i]) else None)
  }

  /** How many of the first `n` drives exist. */
  function Existing(found: seq<Option<AtaDrive>>, n: nat): (r: nat)
    requires n <= |found|
    ensures r <= n
  {
    if n == 0 then 0 else Existing(found, n - 1) + if found[n - 1] == None then 0 else 1
  }

  /** Each of these drives that exists is in the table, behind as many entries as exist before it, and the
      rest of the table is empty. */
  predicate InOrder(table: seq<Option<AtaDrive>>, found: seq<Option<AtaDrive>>) {
    && |table| == |found|
    && (forall i | 0 <= i < |found| && found[i] != None :: table[Existing(found, i)] == found[i])
    && forall i | Existing(found, |found|) <= i < |table| :: table[i] == None
  }

  /** So are the drives of two channels, each channel's master first. */
  lemma TableInOrder(p: Channel, s: Channel)
    ensures InOrder(Table(Present(p) + Present(s)), [p.Record(false), p.Record(true), s.Record(false), s.Record(true)])
  {
    OrderOf(p.Record(false), p.Record(true), s.Record(false), s.Record(true));
  }

  lemma OrderOf(a: Option<AtaDrive>, b: Option<AtaDrive>, c: Option<AtaDrive>, d: Option<AtaDrive>)
    ensures InOrder(Table((Listed(a) + Listed(b)) + (Listed(c) + Listed(d))), [a, b, c, d])
  {
    var found := [a, b, c, d];
    assert Existing(found, 1) == |Listed(a)|;
    assert Existing(found, 2) == |Listed(a) + Listed(b)|;
    assert Existing(found, 3) == |Listed(a) + Listed(b) + Listed(c)|;
    assert Existing(found, 4) == |Listed(a) + Listed(b) + Listed(c) + Listed(d)|;
  }

  /** Selects a drive and reads its first sector. */
  method ReadFirst(ch: Channel, side: bool, mem: array<u8>) returns (r: int)
    requires ch.Valid() && ch.Idle() && ch.Synced() && mem !in ch.Media() && mem.Length >= 0x1_0000
    requires ch.Attached(side) != null
    modifies ch, mem
    ensures ch.Valid() && ch.Idle() && ch.Synced() && ch.slaveSelected == side && r == SECTOR
    ensures forall j | 0 <= j < mem.Length && !(BOOT_SECTOR <= j < BOOT_SECTOR + SECTOR) :: mem[j] == old(mem[j])
    ensures var d := ch.Attached(side);
      forall j | BOOT_SECTOR <= j < BOOT_SECTOR + SECTOR ::
        mem[j] == if d.Lba28() && d.capacity >= 1 then d.bytes[j - BOOT_SECTOR] else 0xFF
  {
    ch.DriveSelect(side);
    r := ch.ReadLba(0, 1, mem, BOOT_SECTOR);
  }

  class Firmware {
    const primary: Channel
    const secondary: Channel
    const mem: array<u8>
    var drives: seq<Option<AtaDrive>>
    var numDevices: nat

    constructor (primary: Channel, secondary: Channel, mem: array<u8>)
      ensures this.primary == primary && this.secondary == secondary && this.mem == mem
      ensures drives == Table([]) && numDevices == 0
    {
      this.primary, this.secondary, this.mem := primary, secondary, mem;
      drives, numDevices := Table([]), 0;
    }

    /** The two channels have nothing in common, and main memory is not on a disk. */
    ghost predicate Wired() {
      && primary != secondary && primary.Media() !! secondary.Media()
      && mem.Length >= 0x14_0000 && mem !in primary.Media() && mem !in secondary.Media()
    }

    ghost predicate Valid()
      reads this, primary, secondary
    {
      Wired() && primary.Valid() && secondary.Valid() && |drives| == 4
    }

    // ----- discovery -----

    method AtaInit(ch: Channel) returns (ok: bool)
      requires ch.Valid()
      modifies ch, this`numDevices
      ensures ch.Valid() && (ok ==> ch.populated && old(numDevices) < 4)
      ensures old(numDevices) < 4 && ch.populated && old(ch.Idle()) ==> ok
      ensures ok ==> !ch.slaveSelected && ch.Agrees() && (old(ch.Idle()) ==> ch.Synced() && ch.Idle())
      ensures numDevices == old(numDevices) + if ok then 1 else 0
    {
      if numDevices >= 4 {
        return false;
      }
      numDevices := numDevices + 1;
      ok := ch.Init();
      if !ok {
        numDevices := numDevices - 1;
      }
    }

    /** Fills the table from entry `n` on; an entry without a drive is left for the next one. */
    method ScanDevice(ch: Channel, n: nat, ghost found: seq<AtaDrive>) returns (n': nat)
      requires ch.Valid() && ch.Idle() && ch.Synced() && n == |found| <= 2 && drives == Table(found)
      modifies ch, this`drives
      ensures ch.Valid() && ch.Idle() && ch.Synced()
      ensures n' == |found + Present(ch)| && drives == Table(found + Present(ch))
    {
      n' := n;
      ghost var sofar := found;
      var info := ch.Identify(false);
      drives := drives[n' := info];
      assert drives == Table(sofar + Listed(info));
      if info != None {
        n' := n' + 1;
      }
      sofar := sofar + Listed(info);
      info := ch.Identify(true);
      drives := drives[n' := info];
      assert drives == Table(sofar + Listed(info));
      if info != None {
        n' := n' + 1;
      }
      assert found + Present(ch) == sofar + Listed(info);
    }

    /** One channel of hd_init. */
    method ScanChannel(ch: Channel, n: nat, ghost found: seq<AtaDrive>) returns (n': nat)
      requires ch.Valid() && ch.Idle() && n == |found| <= 2 && drives == Table(found) && numDevices < 4
      modifies ch, this`drives, this`numDevices
      ensures ch.Valid() && (ch.populated ==> ch.Idle() && ch.Synced())
      ensures n' == |found + Present(ch)| && drives == Table(found + Present(ch)) && numDevices <= old(numDevices) + 1
    {
      var ok := AtaInit(ch);
      if ok {
        n' := ScanDevice(ch, n, found);
      } else {
        n' := n;
        assert found + Present(ch) == found;
      }
    }

    /** Each drive ends up in the table, once, in order, and every channel that has one is ready. */
    method HdInit()
      requires Valid() && primary.Idle() && secondary.Idle()
      requires drives == Table([]) && numDevices <= 2
      modifies this, primary, secondary
      ensures Valid() && drives == Table(Present(primary) + Present(secondary))
      ensures Discovered()
    {
      var n := ScanChannel(primary, 0, []);
      assert [] + Present(primary) == Present(primary);
      n := ScanChannel(secondary, n, Present(primary));
    }

    // ----- boot -----

    /** The table names drives that exist, and their channels are ready. */
    ghost predicate Discovered()
      reads this, primary, secondary
    {
      && Valid()
      && forall i {:trigger drives[i]} | 0 <= i < 4 && drives[i] != None :: Attached(drives[i].value)
    }

    ghost predicate Attached(d: AtaDrive)
      reads this, primary, secondary
    {
      && d.dev in {primary, secondary} && d.dev.Record(d.slave) == Some(d)
      && d.dev.Idle() && d.dev.Synced()
    }

    /** The drive has a boot sector. */
    predicate Bootable(info: Option<AtaDrive>)
      reads if info == None then {} else info.value.dev.Media()
    {
      && info != None && info.value.dev.Attached(info.value.slave) != null
      && var d := info.value.dev.Attached(info.value.slave);
      && d.bytes.Length >= SECTOR && d.bytes[510] == 0x55 && d.bytes[511] == 0xAA
    }

    /** ... and it can be read as it is read, by LBA. */
    predicate Boots(info: Option<AtaDrive>)
      reads if info == None then {} else info.value.dev.Media()
    {
      Bootable(info) && info.value.lba28
    }

    /** The record that INT 13h uses is that of the drive that its channel has selected, and whose
        first sector is in memory. */
    ghost predicate HandedOff()
      reads this, primary, secondary, mem, primary.Media(), secondary.Media()
    {
      && Discovered() && drives[0] != None
      && var (info, d) := (drives[0].value, drives[0].value.dev.Attached(drives[0].value.slave));
      && info.dev.slaveSelected == info.slave && info.lba28 && d.capacity >= 1
      && forall j | BOOT_SECTOR <= j < BOOT_SECTOR + SECTOR :: mem[j] == d.bytes[j - BOOT_SECTOR]
    }

    method ReadBootSector(drive: AtaDrive) returns (r: int)
      requires Discovered() && Attached(drive)
      modifies primary, secondary, mem
      ensures Discovered() && Attached(drive) && r == SECTOR && drive.dev.slaveSelected == drive.slave
      ensures forall j | 0 <= j < mem.Length && !(BOOT_SECTOR <= j < BOOT_SECTOR + SECTOR) :: mem[j] == old(mem[j])
      ensures var d := drive.dev.Attached(drive.slave);
        forall j | BOOT_SECTOR <= j < BOOT_SECTOR + SECTOR ::
          mem[j] == if d.Lba28() && d.capacity >= 1 then d.bytes[j - BOOT_SECTOR] else 0xFF
    {
      r := ReadFirst(drive.dev, drive.slave, mem);
    }

    method BootFromHd(i: nat) returns (booted: bool)
      requires Discovered() && i < 4
      modifies this`drives, primary, secondary, mem
      ensures Discovered() && booted == Boots(old(drives[i]))
      ensures booted ==> HandedOff() && drives == old(drives[0 := drives[i]])
      ensures !booted ==> drives == old(drives)
      ensures booted <==>
        && old(drives[i]) != None && old(drives[i]).value.lba28
        && var d := old(drives[i]).value.dev.Attached(old(drives[i]).value.slave);
        d != null && d.bytes.Length >= 512 && old(d.bytes[510]) == 0x55 && old(d.bytes[511]) == 0xAA
      ensures booted ==> mem[0x7C00 + 510] == 0x55 && mem[0x7C00 + 511] == 0xAA
      ensures forall j | 0 <= j < mem.Length && !(BOOT_SECTOR <= j < BOOT_SECTOR + SECTOR) :: mem[j] == old(mem[j])
    {
      if drives[i] == None {
        return false;
      }
      var drive := drives[i].value;
      var r := ReadBootSector(drive);
      if r != 512 {
        return false;
      }
      if mem[BOOT_SECTOR + 510] != 0x55 || mem[BOOT_SECTOR + 511] != 0xAA {
        return false;
      }
      drives := drives[0 := Some(drive)];
      return true;
    }

    /** The loop of main: the first drive in the table that has LBA and a boot sector is booted. */
    method BootAll() returns (booted: bool, k: nat)
      requires Discovered()
      modifies this`drives, primary, secondary, mem
      ensures Discovered() && (!booted ==> drives == old(drives))
      ensures k <= 4 && (booted <==> k < 4) && forall j | 0 <= j < k :: !Boots(old(drives[j]))
      ensures booted ==> Boots(old(drives[k])) && drives == old(drives[0 := drives[k]]) && HandedOff()
    {
      k := 0;
      booted := false;
      while k < 4
        invariant k <= 4 && Discovered() && drives == old(drives) && !booted
        invariant forall j | 0 <= j < k :: !Boots(old(drives[j]))
      {
        booted := BootFromHd(k);
        if booted {
          return;
        }
        k := k + 1;
      }
    }

    /** What a boot sector gets that asks INT 13h for the geometry, converts an LBA by it and reads:
        the sectors of the drive that it was itself read from. */
    method ReadByGeometry(lba: nat, count: u8, es: Word, bx: Word)
      requires HandedOff() && Int13.Reachable(drives[0].value, lba, count)
      modifies primary, secondary, mem
      ensures Valid() && Int13.Read(drives[0].value, lba, count, mem, es.Value() * 16 + bx.Value())
    {
      ghost var _ := Int13.ReadByGeometry(drives[0].value, mem, lba, count, es, bx);
    }
  }

  /** A machine with one drive, which has a boot sector but no LBA. */
  method CylinderMachine() returns (firmware: Firmware)
    ensures fresh(firmware) && fresh(firmware.primary) && fresh(firmware.secondary) && fresh(firmware.mem)
    ensures firmware.Valid() && firmware.primary.Idle() && firmware.secondary.Idle() && firmware.primary.populated
    ensures firmware.drives == Table([]) && firmware.numDevices == 0
    ensures firmware.primary.Record(false).Some? && !firmware.primary.Record(false).value.lba28
    ensures Present(firmware.primary) == [firmware.primary.Record(false).value] && Present(firmware.secondary) == []
    ensures firmware.Bootable(firmware.primary.Record(false))
  {
    var disk := new Disk(1, n => if n == 1 || n == 3 || n == 6 then 1 else 0, false);
    disk.bytes[510], disk.bytes[511] := 0x55, 0xAA;
    var primary := new Channel(true, disk, null, _ => 0);
    var secondary := new Channel(false, null, null, _ => 0);
    var mem := new u8[0x14_0000];
    firmware := new Firmware(primary, secondary, mem);
  }

  /** The drive is found, but not booted: its first sector is asked for by LBA all the same. */
  method CylinderDriveIsNotBooted() returns (firmware: Firmware, booted: bool)
    ensures firmware.Discovered() && firmware.Bootable(firmware.drives[0]) && !booted
  {
    firmware := CylinderMachine();
    firmware.HdInit();
    assert firmware.drives[0] == firmware.primary.Record(false);
    assert forall j | 1 <= j < 4 :: firmware.drives[j] == None;
    var k;
    booted, k := firmware.BootAll();
  }
}
