/** INT 13h as the interrupted program sees it: through the trampoline, into the disk handler and
    back. */
module Service {
  import opened Types
  import opened Frames
  import opened Trampoline
  import Ata
  import Int13

  /** The handler's edits to the frame: AX, CX, DX and FLAGS. */
  method StoreEdits(m: Machine, f: Frame)
    requires m.Valid()
    requires var g := m.FrameIn(FRAME); f == g.(eax := f.eax, ecx := f.ecx, edx := f.edx, flags := f.flags)
    modifies m.mem
    ensures m.FrameIn(FRAME) == f && m.Only(FRAME, FRAME + FRAME_SIZE)
  {
    m.StoreDword(FRAME + 14, f.edx);
    m.StoreDword(FRAME + 18, f.ecx);
    m.StoreDword(FRAME + 26, f.eax);
    m.StoreWord(FRAME + 46, f.flags);
  }

  predicate InBuffer(f: Frame, j: int) {
    Int13.Buffer(f) <= j < Int13.Buffer(f) + Ata.SECTOR * f.Al()
  }

  predicate Transfers(f: Frame) {
    f.Ah() == 2 || f.Ah() == 3
  }

  /** A buffer that keeps clear of some memory. */
  predicate Clear(f: Frame, start: nat, len: nat) {
    Int13.Buffer(f) + Ata.SECTOR * f.Al() <= start || start + len <= Int13.Buffer(f)
  }

  /** ... of the trampoline's area and of the program's stack. */
  predicate Beside(f: Frame, segment: Word, top: u16) {
    && Clear(f, AREA, AREA_SIZE) && Clear(f, Linear(segment, top), PUSHED)
    && (top + 14 > 0x1_0000 ==> Clear(f, Linear(segment, 0), PUSHED))
  }

  lemma BesideStack(f: Frame, segment: Word, top: u16, j: int)
    requires Beside(f, segment, top) && InBuffer(f, j)
    ensures !(AREA <= j < AREA + AREA_SIZE) && !OnStack(segment, top, j)
    ensures !(Linear(segment, top) <= j < Linear(segment, top) + PUSHED)
  {
  }

  lemma NotInBuffer(f: Frame, segment: Word, top: u16, j: int)
    requires StackApart(segment, top) && (AREA <= j < FRAME || OnStack(segment, top, j))
    ensures !(FRAME <= j < FRAME + FRAME_SIZE)
    ensures Beside(f, segment, top) ==> !InBuffer(f, j)
  {
  }

  /** Memory and drives before a call. */
  datatype Before = Before(idle: bool, memory: seq<u8>, master: seq<u8>, slave: seq<u8>) {
    function Stored(side: bool): seq<u8> {
      if side then slave else master
    }
  }

  ghost predicate Buffered(f: Frame, b: Before, mem: array<u8>)
    reads mem
  {
    && mem.Length == |b.memory| == MEMORY
    && forall j | 0 <= j < MEMORY && Transfers(f) && InBuffer(f, j) :: mem[j] == b.memory[j]
  }

  ghost predicate Snapshot(f: Frame, info: Ata.AtaDrive, b: Before, mem: array<u8>)
    reads info.dev, info.dev.Media(), mem
  {
    && b.idle == info.dev.Idle() && b.master == info.dev.Contents(false) && b.slave == info.dev.Contents(true)
    && Buffered(f, b, mem)
  }

  /** After AH=02h the buffer holds the sectors if the drive has them and was ready, else what the
      floating bus gives. */
  ghost predicate Filled(f: Frame, info: Ata.AtaDrive, idle: bool, mem: array<u8>)
    requires info.dev.Valid() && mem.Length == MEMORY
    reads info.dev, info.dev.Media(), mem
  {
    info.dev.BytesRead(Int13.Side(f, info), Int13.Target(f, info), f.Al(), idle, mem, Int13.Buffer(f))
  }

  /** After AH=03h the sectors hold the buffer if the drive has them and was ready; no other byte of
      either drive has changed. */
  ghost predicate Saved(f: Frame, info: Ata.AtaDrive, b: Before)
    requires |b.memory| == MEMORY
    reads info.dev.Media()
  {
    var side := Int13.Side(f, info);
    info.dev.BytesWritten(side, Int13.Target(f, info), f.Al(), b.idle, b.memory, Int13.Buffer(f),
                          b.Stored(side), b.Stored(!side))
  }

  ghost predicate OnDrives(f: Frame, info: Ata.AtaDrive, b: Before)
    requires |b.memory| == MEMORY
    reads info.dev.Media()
  {
    if f.Dl() == 0x80 && f.Ah() == 3 then Saved(f, info, b)
    else info.dev.Stores(false, b.master) && info.dev.Stores(true, b.slave)
  }

  ghost predicate Transferred(f: Frame, info: Ata.AtaDrive, b: Before, mem: array<u8>)
    requires info.dev.Valid() && mem.Length == |b.memory| == MEMORY
    reads info.dev, info.dev.Media(), mem
  {
    (f.Dl() == 0x80 && f.Ah() == 2 ==> Filled(f, info, b.idle, mem)) && OnDrives(f, info, b)
  }

  ghost function Now(info: Ata.AtaDrive, mem: array<u8>): Before
    reads info.dev, info.dev.Media(), mem
  {
    Before(info.dev.Idle(), mem[..], info.dev.Contents(false), info.dev.Contents(true))
  }

  /** The handler's effect, byte by byte. */
  method Handle(ref: Int13.FrameRef, info: Ata.AtaDrive, mem: array<u8>, ghost b: Before)
    requires Int13.Ready(info, mem) && mem.Length == MEMORY && b == Now(info, mem)
    modifies ref, mem, info.dev, info.dev.Media()
    ensures info.dev.Valid() && ref.frame == Int13.Served(old(ref.frame), info)
    ensures Transferred(old(ref.frame), info, b, mem)
    ensures var f := old(ref.frame);
      forall j | 0 <= j < MEMORY && !(f.Ah() == 2 && InBuffer(f, j)) :: mem[j] == old(mem[j])
    ensures !Transfers(old(ref.frame)) ==> unchanged(info.dev)
  {
    Int13.HandleDisk(ref, info, mem);
  }

  /** Only the buffer matters. */
  lemma SameBuffer(f: Frame, info: Ata.AtaDrive, b: Before, c: Before, mem: array<u8>)
    requires info.dev.Valid() && mem.Length == |b.memory| == |c.memory| == MEMORY && Transferred(f, info, c, mem)
    requires b.idle == c.idle && b.master == c.master && b.slave == c.slave
    requires forall j | 0 <= j < MEMORY && Transfers(f) && InBuffer(f, j) :: b.memory[j] == c.memory[j]
    ensures Transferred(f, info, b, mem)
  {
  }

  method HandleInMemory(ref: Int13.FrameRef, info: Ata.AtaDrive, mem: array<u8>, ghost b: Before)
    requires Int13.Ready(info, mem) && mem.Length == MEMORY && Snapshot(ref.frame, info, b, mem)
    modifies ref, mem, info.dev, info.dev.Media()
    ensures info.dev.Valid() && ref.frame == Int13.Served(old(ref.frame), info)
    ensures Transferred(old(ref.frame), info, b, mem)
    ensures var f := old(ref.frame);
      forall j | 0 <= j < MEMORY && !(f.Ah() == 2 && InBuffer(f, j)) :: mem[j] == old(mem[j])
    ensures !Transfers(old(ref.frame)) ==> unchanged(info.dev)
  {
    ghost var c, f := Now(info, mem), ref.frame;
    Handle(ref, info, mem, c);
    SameBuffer(f, info, b, c, mem);
  }

  method HandleApart(ref: Int13.FrameRef, info: Ata.AtaDrive, mem: array<u8>, ghost b: Before)
    requires Int13.Ready(info, mem) && mem.Length == MEMORY && Snapshot(ref.frame, info, b, mem)
    requires ref.frame.Ah() == 2 ==> Clear(ref.frame, AREA, AREA_SIZE)
    modifies ref, mem, info.dev, info.dev.Media()
    ensures info.dev.Valid() && ref.frame == Int13.Served(old(ref.frame), info)
    ensures Transferred(old(ref.frame), info, b, mem)
    ensures forall j | AREA <= j < AREA + AREA_SIZE :: mem[j] == old(mem[j])
    ensures var f := old(ref.frame);
      forall j | 0 <= j < MEMORY && !(f.Ah() == 2 && InBuffer(f, j)) :: mem[j] == old(mem[j])
    ensures !Transfers(old(ref.frame)) ==> unchanged(info.dev)
  {
    HandleInMemory(ref, info, mem, b);
  }

  lemma ServedEdits(f: Frame, info: Ata.AtaDrive)
    ensures Int13.Elsewhere(f, Int13.Served(f, info))
  {
  }

  /** A buffer outside the trampoline's area leaves the frame alone. */
  method HandleBeside(m: Machine, ref: Int13.FrameRef, info: Ata.AtaDrive, ghost b: Before, ghost f: Frame)
    requires m.Valid() && Int13.Ready(info, m.mem) && (f.Ah() == 2 ==> Clear(f, AREA, AREA_SIZE))
    requires f == ref.frame == m.FrameIn(FRAME) && Snapshot(f, info, b, m.mem)
    modifies ref, m.mem, info.dev, info.dev.Media()
    ensures m.FrameIn(FRAME) == f
    ensures info.dev.Valid() && ref.frame == Int13.Served(f, info)
    ensures Transferred(f, info, b, m.mem)
    ensures forall j | 0 <= j < MEMORY && !(f.Ah() == 2 && InBuffer(f, j)) :: m.mem[j] == old(m.mem[j])
    ensures !Transfers(f) ==> unchanged(info.dev)
  {
    HandleApart(ref, info, m.mem, b);
  }

  /** Nor do the edits concern the buffer. */
  method StoreBeside(m: Machine, info: Ata.AtaDrive, ghost b: Before, ghost f: Frame, served: Frame)
    requires m.Valid() && info.dev.Valid() && m.mem !in info.dev.Media() && |b.memory| == MEMORY
    requires m.FrameIn(FRAME) == f && (f.Ah() == 2 ==> Clear(f, AREA, AREA_SIZE)) && Transferred(f, info, b, m.mem)
    requires served == f.(eax := served.eax, ecx := served.ecx, edx := served.edx, flags := served.flags)
    modifies m.mem
    ensures m.FrameIn(FRAME) == served && m.Only(FRAME, FRAME + FRAME_SIZE) && Transferred(f, info, b, m.mem)
  {
    StoreEdits(m, served);
  }

  /** The C side between its two halves: the frame is in memory, where the handler changes it. */
  method Serve(m: Machine, info: Ata.AtaDrive, ghost b: Before, ghost f: Frame)
    requires m.Valid() && Int13.Ready(info, m.mem) && (f.Ah() == 2 ==> Clear(f, AREA, AREA_SIZE))
    requires f == m.FrameIn(FRAME) && Snapshot(f, info, b, m.mem)
    modifies m.mem, info.dev, info.dev.Media()
    ensures info.dev.Valid() && m.FrameIn(FRAME) == Int13.Served(f, info) && Transferred(f, info, b, m.mem)
    ensures forall j | 0 <= j < MEMORY && !(FRAME <= j < FRAME + FRAME_SIZE) && !(f.Ah() == 2 && InBuffer(f, j)) ::
      m.mem[j] == old(m.mem[j])
    ensures !Transfers(f) ==> unchanged(info.dev)
  {
    var ref := new Int13.FrameRef(m.FrameIn(FRAME));
    ServedEdits(f, info);
    HandleBeside(m, ref, info, b, f);
    StoreBeside(m, info, b, f, ref.frame);
  }

  /** The buffer is beside what the way back needs, too. */
  method ServeBeside(m: Machine, info: Ata.AtaDrive, ghost b: Before, ghost f: Frame, ghost segment: Word, ghost top: u16)
    requires m.Valid() && Int13.Ready(info, m.mem) && Whole(top) && StackApart(segment, top)
    requires f == m.FrameIn(FRAME) && Snapshot(f, info, b, m.mem) && (f.Ah() == 2 ==> Beside(f, segment, top))
    modifies m.mem, info.dev, info.dev.Media()
    ensures info.dev.Valid() && m.FrameIn(FRAME) == Int13.Served(f, info) && Transferred(f, info, b, m.mem)
    ensures forall j | AREA <= j < FRAME :: m.mem[j] == old(m.mem[j])
    ensures forall j | 0 <= j < MEMORY && OnStack(segment, top, j) :: m.mem[j] == old(m.mem[j])
    ensures !Transfers(f) ==> unchanged(info.dev)
  {
    Serve(m, info, b, f);
    forall j | 0 <= j < MEMORY && (AREA <= j < FRAME || OnStack(segment, top, j))
      ensures m.mem[j] == old(m.mem[j])
    {
      NotInBuffer(f, segment, top, j);
    }
  }

  method ServeSaved(m: Machine, info: Ata.AtaDrive, ghost b: Before, ghost f: Frame, ghost c: Caller,
                    ghost esp: Dword, ghost segment: Word, ghost top: u16)
    requires m.Valid() && Int13.Ready(info, m.mem) && Whole(top) && StackApart(segment, top)
    requires f == m.FrameIn(FRAME) && Snapshot(f, info, b, m.mem) && (f.Ah() == 2 ==> Beside(f, segment, top))
    requires c == m.StackIn(segment, top) && esp == m.DwordIn(AREA) && segment == m.WordIn(AREA + 4)
    requires m.DwordIn(AREA + 8) == SENTINEL
    modifies m.mem, info.dev, info.dev.Media()
    ensures info.dev.Valid() && m.FrameIn(FRAME) == Int13.Served(f, info) && Transferred(f, info, b, m.mem)
    ensures c == m.StackIn(segment, top) && esp == m.DwordIn(AREA) && segment == m.WordIn(AREA + 4)
    ensures m.DwordIn(AREA + 8) == SENTINEL
    ensures !Transfers(f) ==> unchanged(info.dev)
  {
    StackWords(segment, top);
    ServeBeside(m, info, b, f, segment, top);
    assert m.WordIn(AREA + 4) == segment && m.DwordIn(AREA) == esp && m.DwordIn(AREA + 8) == SENTINEL;
  }

  /** A program that can be interrupted. */
  ghost predicate CanCall(m: Machine)
    reads m, m.mem
  {
    && m.Valid() && !m.halted && Pushes(m.sp) && StackApart(m.ss, Down(m.sp, 14))
    && m.Seen(0x13).vector == Word(0x13, 0)
  }

  method EnterBeside(m: Machine, info: Ata.AtaDrive, ghost b: Before, ghost f: Frame, ghost segment: Word, ghost top: u16)
    returns (prev: nat)
    requires CanCall(m) && Int13.Ready(info, m.mem) && f == m.EntryFrame() && Snapshot(f, info, b, m.mem)
    requires segment == m.ss && top == Down(m.sp, 14) && Whole(top) && (Transfers(f) ==> Beside(f, segment, top))
    modifies m, m.mem
    ensures !m.halted && prev == Linear(segment, top) && Snapshot(f, info, b, m.mem)
    ensures m.FrameIn(FRAME) == f && m.StackIn(segment, top) == old(m.Own(0x13))
    ensures m.DwordIn(AREA) == f.esp && m.WordIn(AREA + 4) == segment && m.DwordIn(AREA + 8) == SENTINEL
  {
    var v;
    prev, v := m.Enter(0x13);
    forall j | 0 <= j < MEMORY && Transfers(f) && InBuffer(f, j)
      ensures m.mem[j] == old(m.mem[j])
    {
      BesideStack(f, segment, top, j);
    }
  }

  /** From the interrupt to the end of the handler. */
  method EnterAndServe(m: Machine, info: Ata.AtaDrive, ghost b: Before, ghost f: Frame, ghost segment: Word, ghost top: u16)
    returns (prev: nat)
    requires CanCall(m) && Int13.Ready(info, m.mem) && f == m.EntryFrame() && Snapshot(f, info, b, m.mem)
    requires segment == m.ss && top == Down(m.sp, 14) && Whole(top) && (Transfers(f) ==> Beside(f, segment, top))
    modifies m, m.mem, info.dev, info.dev.Media()
    ensures !m.halted && prev == Linear(segment, top) && info.dev.Valid() && Transferred(f, info, b, m.mem)
    ensures m.FrameIn(FRAME) == Int13.Served(f, info) && m.StackIn(segment, top) == old(m.Own(0x13))
    ensures m.DwordIn(AREA) == f.esp && m.WordIn(AREA + 4) == segment && m.DwordIn(AREA + 8) == SENTINEL
    ensures !Transfers(f) ==> unchanged(info.dev)
  {
    ghost var c := m.Own(0x13);
    prev := EnterBeside(m, info, b, f, segment, top);
    ServeSaved(m, info, b, f, c, f.esp, segment, top);
  }

  /** The way back leaves a buffer beside the stack alone. */
  method LeaveBeside(m: Machine, info: Ata.AtaDrive, prev: nat, cr0High: u16, ghost b: Before, ghost f: Frame,
                     ghost g: Frame, ghost c: Caller, ghost esp: Dword, ghost segment: Word, ghost top: u16)
    requires m.Valid() && info.dev.Valid() && !m.halted && Whole(top) && prev == Linear(segment, top) && Apart(prev)
    requires m.mem !in info.dev.Media() && |b.memory| == MEMORY && Transferred(f, info, b, m.mem)
    requires Transfers(f) ==> Beside(f, segment, top)
    requires m.FrameIn(FRAME) == g && m.StackIn(segment, top) == c && m.DwordIn(AREA) == esp
    requires Word(esp.b0, esp.b1).Value() == top && m.WordIn(AREA + 4) == segment && m.DwordIn(AREA + 8) == SENTINEL
    modifies m, m.mem
    ensures !m.halted && m.ss == segment && m.sp == Up(top, 14) && m.spHigh == Word(esp.b2, esp.b3)
    ensures m.HasGeneral(g) && m.HasOwn(Merged(c, g, top)) && Transferred(f, info, b, m.mem)
  {
    m.Leave(prev, cr0High);
    forall j | 0 <= j < MEMORY && Transfers(f) && InBuffer(f, j)
      ensures m.mem[j] == old(m.mem[j])
    {
      BesideStack(f, segment, top, j);
    }
  }

  /** The interrupt from end to end. */
  method ServeAndReturn(m: Machine, info: Ata.AtaDrive, cr0High: u16)
    requires CanCall(m) && Int13.Ready(info, m.mem)
    requires Transfers(m.EntryFrame()) ==> Beside(m.EntryFrame(), m.ss, Down(m.sp, 14))
    modifies m, m.mem, info.dev, info.dev.Media()
    ensures !m.halted && m.ss == old(m.ss) && m.sp == old(m.sp) && m.spHigh == old(m.spHigh) && info.dev.Valid()
    ensures Transferred(old(m.EntryFrame()), info, old(Now(info, m.mem)), m.mem)
    ensures !Transfers(old(m.EntryFrame())) ==> unchanged(info.dev)
    ensures var g := Int13.Served(old(m.EntryFrame()), info);
      m.HasGeneral(g) && m.HasOwn(Merged(old(m.Own(0x13)), g, Down(m.sp, 14))) && (Fits(m.sp, 14) ==> m.HasAll(g))
  {
    ghost var b, f, c, segment, top := Now(info, m.mem), m.EntryFrame(), m.Own(0x13), m.ss, Down(m.sp, 14);
    PushesWhole(m.sp);
    EspValue(m.sp);
    var prev := EnterAndServe(m, info, b, f, segment, top);
    LeaveBeside(m, info, prev, cr0High, b, f, Int13.Served(f, info), c, f.esp, segment, top);
  }

  /** Every register but those that answer is as it was, except for the upper half of EBP. */
  twostate predicate Kept(m: Machine)
    reads m
  {
    && m.ebx == old(m.ebx) && m.esi == old(m.esi) && m.edi == old(m.edi)
    && m.ds == old(m.ds) && m.es == old(m.es) && m.fs == old(m.fs) && m.gs == old(m.gs)
    && m.cs == old(m.cs) && m.ip == old(m.ip) && m.ebp == Dword(old(m.ebp.b0), old(m.ebp.b1), 0, 0)
  }

  /** What the handler sets reaches the program, carry flag and all, with every other register as it
      was but for the upper half of EBP; a read has filled its buffer, and a write has stored it. */
  method DiskService(m: Machine, info: Ata.AtaDrive, cr0High: u16)
    requires CanCall(m) && Int13.Ready(info, m.mem)
    requires Transfers(m.EntryFrame()) ==> Beside(m.EntryFrame(), m.ss, Down(m.sp, 14))
    modifies m, m.mem, info.dev, info.dev.Media()
    ensures !m.halted && m.ss == old(m.ss) && m.sp == old(m.sp) && m.spHigh == old(m.spHigh) && info.dev.Valid()
    ensures Transferred(old(m.EntryFrame()), info, old(Now(info, m.mem)), m.mem)
    ensures !Transfers(old(m.EntryFrame())) ==> unchanged(info.dev)
    ensures var g := Int13.Served(old(m.EntryFrame()), info);
      m.HasGeneral(g) && m.HasOwn(Merged(old(m.Own(0x13)), g, Down(m.sp, 14))) && (Fits(m.sp, 14) ==> m.HasAll(g))
    ensures Fits(m.sp, 14) ==> Kept(m) && Int13.Answers(old(m.EntryFrame()), info, m.eax, m.ecx, m.edx, m.flags)
    ensures Fits(m.sp, 14) ==>
      var f := old(m.EntryFrame());
      f.eax == old(m.eax) && f.ecx == old(m.ecx) && f.edx == old(m.edx) && f.flags == old(m.flags)
  {
    ghost var f := m.EntryFrame();
    ServeAndReturn(m, info, cr0High);
    Int13.ServedAnswers(f, info);
  }

  // ----- a program -----

  /** A program with its stack below 7C00h. */
  method NewProgram() returns (m: Machine)
    ensures fresh(m) && fresh(m.mem) && m.Valid() && m.sp == 0x7C00 && CanCall(m)
    ensures m.ss.Value() == 0
  {
    var mem := new u8[MEMORY];
    m := new Machine(mem, Int13.ZERO_WORD, 0x7C00);
  }

  /** The buffer is at 7E00h, as 0100:6E00h is. */
  predicate At7E00(f: Frame) {
    Int13.Buffer(f) == 0x7E00
  }

  lemma StackBelow7C00(e: Frame, ss: Word)
    requires At7E00(e) && e.Al() == 1 && ss.Value() == 0
    ensures Beside(e, ss, Down(0x7C00, 14))
  {
    assert Linear(ss, Down(0x7C00, 14)) == 0x7BF2;
  }

  /** Loads the registers of a call. */
  method Request(m: Machine, f: Frame)
    requires CanCall(m)
    modifies m
    ensures CanCall(m) && m.ss == old(m.ss) && m.sp == old(m.sp) && Asks(m.EntryFrame(), f)
  {
    m.eax, m.ebx, m.ecx, m.edx, m.es := f.eax, f.ebx, f.ecx, f.edx, f.es;
  }

  /** The same call, as far as the handler looks. */
  predicate Asks(e: Frame, f: Frame) {
    e.eax == f.eax && e.ebx == f.ebx && e.ecx == f.ecx && e.edx == f.edx && e.es == f.es
  }

  /** A drive that is ready for a call for one sector that can be named. */
  ghost predicate Offers(info: Ata.AtaDrive, lba: nat)
    reads info.dev
  {
    && info.dev.Valid() && info.dev.Idle() && info.dev.slaveSelected == info.slave
    && info.dev.Record(info.slave) == Some(info) && Int13.Reachable(info, lba, 1) && Int13.Meets(info, lba)
  }

  const SEGMENT := Word(0x00, 0x01)
  const OFFSET := Word(0x00, 0x6E)

  /** The call is for the one sector and its buffer. */
  predicate Names(e: Frame, ah: u8, info: Ata.AtaDrive, lba: nat) {
    && e.Ah() == ah && e.Al() == 1 && e.Dl() == 0x80 && At7E00(e)
    && Int13.Side(e, info) == info.slave && Int13.Target(e, info) == lba
  }

  lemma AsksNames(e: Frame, f: Frame, ah: u8, info: Ata.AtaDrive, lba: nat)
    requires Asks(e, f) && Names(f, ah, info, lba)
    ensures Names(e, ah, info, lba)
  {
  }

  /** The registers of a call for a sector. */
  method SectorCall(ah: u8, info: Ata.AtaDrive, lba: nat) returns (f: Frame)
    requires Offers(info, lba)
    ensures Names(f, ah, info, lba)
  {
    var p := Int13.FromLba(lba, info.heads + 1, info.sectors);
    Int13.CallFits(lba, info, 1);
    f := Int13.CallFor(ah, p, 1, SEGMENT, OFFSET);
    Int13.CallNames(lba, info, 1, f);
  }

  method Call(m: Machine, info: Ata.AtaDrive, f: Frame) returns (ghost e: Frame)
    requires CanCall(m) && m.ss.Value() == 0 && m.sp == 0x7C00 && At7E00(f) && f.Al() == 1
    requires Int13.Ready(info, m.mem)
    modifies m, m.mem, info.dev, info.dev.Media()
    ensures info.dev.Valid() && Asks(e, f) && Transferred(e, info, old(Now(info, m.mem)), m.mem)
    ensures Int13.Answers(e, info, m.eax, m.ecx, m.edx, m.flags)
  {
    Request(m, f);
    e := m.EntryFrame();
    StackBelow7C00(e, m.ss);
    DiskService(m, info, 0);
  }

  lemma OneSectorRead(e: Frame, info: Ata.AtaDrive, mem: array<u8>, lba: nat)
    requires info.dev.Valid() && mem.Length == MEMORY && Names(e, 2, info, lba) && Filled(e, info, true, mem)
    requires var d := info.dev.Attached(info.slave); d != null && lba < d.capacity
    ensures forall j | 0x7E00 <= j < 0x8000 ::
      mem[j] == info.dev.Attached(info.slave).bytes[Ata.SECTOR * lba + (j - 0x7E00)]
  {
  }

  lemma OneSectorSaved(e: Frame, info: Ata.AtaDrive, b: Before, lba: nat)
    requires info.dev.Valid() && b.idle && |b.memory| == MEMORY && Names(e, 3, info, lba) && Saved(e, info, b)
    requires var d := info.dev.Attached(info.slave);
      d != null && lba < d.capacity && |b.Stored(info.slave)| == d.bytes.Length
    ensures var d := info.dev.Attached(info.slave);
      forall j | 0 <= j < d.bytes.Length ::
        d.bytes[j] == if Ata.SECTOR * lba <= j < Ata.SECTOR * (lba + 1) then b.memory[0x7E00 + (j - Ata.SECTOR * lba)]
                      else b.Stored(info.slave)[j]
  {
  }

  /** A program that reads a sector into 7E00h, and is told so by carry. */
  method LoadSector(info: Ata.AtaDrive, lba: nat) returns (m: Machine)
    requires Offers(info, lba)
    modifies info.dev, info.dev.Media()
    ensures m.Valid() && info.dev.Valid() && info.dev.Unwritten(info.slave) && m.flags.lo % 2 == 0
    ensures forall j | 0x7E00 <= j < 0x8000 ::
      m.mem[j] == info.dev.Attached(info.slave).bytes[Ata.SECTOR * lba + (j - 0x7E00)]
  {
    m := NewProgram();
    var f := SectorCall(2, info, lba);
    ghost var b := Now(info, m.mem);
    ghost var e := Call(m, info, f);
    AsksNames(e, f, 2, info, lba);
    OneSectorRead(e, info, m.mem, lba);
  }

  /** A program that writes a sector from 7E00h, likewise. */
  method StoreSector(info: Ata.AtaDrive, lba: nat, data: seq<u8>) returns (m: Machine)
    requires Offers(info, lba) && |data| == Ata.SECTOR
    modifies info.dev, info.dev.Media()
    ensures info.dev.Valid() && m.flags.lo % 2 == 0
    ensures var d := info.dev.Attached(info.slave);
      forall j | 0 <= j < d.bytes.Length ::
        d.bytes[j] == if Ata.SECTOR * lba <= j < Ata.SECTOR * (lba + 1) then data[j - Ata.SECTOR * lba]
                      else old(d.bytes[j])
  {
    m := ProgramWith(data);
    var f := SectorCall(3, info, lba);
    ghost var b, side := Now(info, m.mem), info.slave;
    ghost var own := info.dev.Contents(side);
    ghost var e := Call(m, info, f);
    AsksNames(e, f, 3, info, lba);
    assert b.Stored(side) == own;
    OneSectorSaved(e, info, b, lba);
  }

  method ProgramWith(data: seq<u8>) returns (m: Machine)
    requires |data| == Ata.SECTOR
    ensures fresh(m) && fresh(m.mem) && m.Valid() && m.sp == 0x7C00 && m.ss.Value() == 0 && CanCall(m)
    ensures forall j | 0x7E00 <= j < 0x8000 :: m.mem[j] == data[j - 0x7E00]
  {
    m := NewProgram();
    forall j | 0x7E00 <= j < 0x8000 {
      m.mem[j] := data[j - 0x7E00];
    }
  }

  /** A sector that a program can name on a drive that is the only one. */
  predicate Nameable(d: Ata.Disk, lba: nat) {
    && d.Valid() && !d.packet && lba < d.capacity
    && d.Heads() < 0x100 && 1 <= d.Sectors() < 64 && (!d.Lba28() ==> 1 <= d.Heads() <= 16 && lba < d.Heads() * d.Sectors())
    && Int13.FromLba(lba, d.Heads() + 1, d.Sectors()).cylinder < 1024
  }

  /** The drive after power-on. */
  method PowerOn(d: Ata.Disk, delay: nat -> nat, ghost lba: nat) returns (info: Ata.AtaDrive)
    requires Nameable(d, lba)
    ensures fresh(info.dev) && Offers(info, lba) && info.dev.Attached(info.slave) == d && info.dev.Media() == {d.bytes}
  {
    var dev := new Ata.Channel(true, d, null, delay);
    info := dev.Record(false).value;
  }

  /** What one program stores another one loads after the next power-on. */
  method StoreThenLoad(d: Ata.Disk, delay: nat -> nat, lba: nat, data: seq<u8>) returns (m: Machine)
    requires Nameable(d, lba) && |data| == Ata.SECTOR
    modifies d.bytes
    ensures m.Valid() && forall j | 0x7E00 <= j < 0x8000 :: m.mem[j] == data[j - 0x7E00]
  {
    var info := PowerOn(d, delay, lba);
    m := StoreSector(info, lba, data);
    assert forall i | 0 <= i < Ata.SECTOR :: d.bytes[Ata.SECTOR * lba + i] == data[i];
    info := PowerOn(d, delay, lba);
    m := LoadSector(info, lba);
  }

  /** It can be called: on a drive of one sector, with LBA or without. */
  method OneSector(lba28: bool, data: seq<u8>) returns (m: Machine)
    requires |data| == Ata.SECTOR
    ensures m.Valid() && forall j | 0x7E00 <= j < 0x8000 :: m.mem[j] == data[j - 0x7E00]
  {
    var d := new Ata.Disk(1, n => if n == 1 || n == 3 || n == 6 || (n == 60 && lba28) then 1 else 0, false);
    m := StoreThenLoad(d, _ => 0, 0, data);
  }
}
