/** The real-mode interrupt trampoline (interrupt.asm, and itr_real_mode_interrupt of interrupt.c):
    registers go over two stacks into the frame that a C handler edits, and back. */
module Trampoline {
  import opened Types
  import opened Frames

  const AREA: nat := 0x9_C000
  const AREA_SEGMENT := Word(0x00, 0x9C)
  const AREA_SIZE: nat := 0x1000
  const FRAME_SIZE: nat := 48
  const FRAME: nat := AREA + AREA_SIZE - FRAME_SIZE
  const MEMORY: nat := 0x14_0000
  const SENTINEL := Dword(0x78, 0x56, 0x34, 0x12)

  /** What the interrupt instruction, the vector's stub and the trampoline push. */
  const PUSHED: nat := 14

  function Linear(segment: Word, offset: u16): nat {
    segment.Value() * 16 + offset
  }

  function Down(sp: u16, n: u16): u16 {
    if sp >= n then sp - n else sp - n + 0x1_0000
  }

  function Up(sp: u16, n: u16): u16 {
    if sp + n < 0x1_0000 then sp + n else sp + n - 0x1_0000
  }

  /** A push or a pop of n bytes from here does not run over the end of the segment. */
  predicate Fits(sp: u16, n: u16) {
    sp == 0 || sp >= n
  }

  /** The pushes for an interrupt do not run over the end of the segment in the middle of a word.  Where
      they do, the processor faults. */
  predicate Pushes(sp: u16) {
    Fits(sp, 14) || sp in {2, 4, 6, 8, 10}
  }

  /** The same of the stack pointer after the pushes. */
  predicate Whole(top: u16) {
    top + 14 <= 0x1_0000 || (top % 2 == 0 && top + 4 <= 0x1_0000)
  }

  lemma PushesWhole(sp: u16)
    ensures Pushes(sp) <==> Whole(Down(sp, 14))
    ensures Up(Down(sp, 14), 14) == sp
  {
  }

  /** Byte `k` above the stack pointer: offsets wrap around in the segment. */
  function Place(segment: Word, top: u16, k: u16): nat {
    Linear(segment, Up(top, k))
  }

  /** The 14 bytes above the stack pointer. */
  predicate OnStack(segment: Word, top: u16, j: int) {
    || (Linear(segment, top) <= j < Linear(segment, top) + 14 && j < Linear(segment, 0) + 0x1_0000)
    || (Linear(segment, 0) <= j < Linear(segment, 0) + (top + 14 - 0x1_0000))
  }

  /** The lower four of the seven words do not cover a byte. */
  predicate LowerMisses(segment: Word, top: u16, j: int) {
    && !Covers(segment, top, 0, j) && !Covers(segment, top, 2, j)
    && !Covers(segment, top, 4, j) && !Covers(segment, top, 6, j)
  }

  /** The two words above a dword. */
  lemma PairPlaces(segment: Word, sp: u16)
    requires Fits(sp, 2) && Fits(Down(sp, 2), 2) && Fits(Down(sp, 4), 4)
    ensures var mid, top := Down(sp, 4), Down(sp, 8);
      && Down(mid, 4) == top && Place(segment, top, 0) == Linear(segment, top)
      && Place(segment, top, 2) == Linear(segment, top) + 2
      && Place(segment, top, 4) == Place(segment, mid, 0) && Place(segment, top, 6) == Place(segment, mid, 2)
      && (Place(segment, mid, 0) + 2 <= Linear(segment, top) || Linear(segment, top) + 4 <= Place(segment, mid, 0))
      && (Place(segment, mid, 2) + 2 <= Linear(segment, top) || Linear(segment, top) + 4 <= Place(segment, mid, 2))
  {
  }

  /** Two words in a row. */
  lemma PlacesOfTwo(segment: Word, sp: u16)
    requires Fits(sp, 2) && Fits(Down(sp, 2), 2)
    ensures var a, b := Linear(segment, Down(sp, 2)), Linear(segment, Down(sp, 4));
      && Down(Down(sp, 2), 2) == Down(sp, 4) && Place(segment, Down(sp, 4), 0) == b && Place(segment, Down(sp, 4), 2) == a
      && (a + 2 <= b || b + 2 <= a)
  {
  }

  lemma PlacesOfThree(segment: Word, sp: u16)
    requires Fits(sp, 2) && Fits(Down(sp, 2), 2) && Fits(Down(sp, 4), 2)
    ensures var top := Down(sp, 6);
      && Down(Down(sp, 2), 2) == Down(sp, 4) && Down(Down(sp, 4), 2) == top
      && Place(segment, top, 0) == Linear(segment, top) && Place(segment, top, 2) == Linear(segment, Down(sp, 4))
      && Place(segment, top, 4) == Linear(segment, Down(sp, 2))
    ensures var a, b, c := Linear(segment, Down(sp, 2)), Linear(segment, Down(sp, 4)), Linear(segment, Down(sp, 6));
      (a + 2 <= b || b + 2 <= a) && (a + 2 <= c || c + 2 <= a) && (b + 2 <= c || c + 2 <= b)
  {
  }

  predicate UpperMisses(segment: Word, mid: u16, j: int) {
    !Covers(segment, mid, 0, j) && !Covers(segment, mid, 2, j) && !Covers(segment, mid, 4, j)
  }

  /** The upper three words, seen from the stack pointer after three pushes and from the last. */
  lemma UpperPlaces(segment: Word, sp: u16)
    requires Pushes(sp)
    ensures var top, mid := Down(sp, 14), Down(sp, 6);
      && Whole(top) && Down(mid, 8) == top
      && Place(segment, mid, 0) == Place(segment, top, 8)
      && Place(segment, mid, 2) == Place(segment, top, 10)
      && Place(segment, mid, 4) == Place(segment, top, 12)
  {
  }

  lemma LowerApart(segment: Word, sp: u16, k: u16)
    requires Pushes(sp) && k in {8, 10, 12}
    ensures var top := Down(sp, 14);
      LowerMisses(segment, top, Place(segment, top, k)) && LowerMisses(segment, top, Place(segment, top, k) + 1)
  {
  }

  lemma StackCovered(segment: Word, sp: u16, j: int)
    requires Pushes(sp) && !OnStack(segment, Down(sp, 14), j)
    ensures LowerMisses(segment, Down(sp, 14), j) && UpperMisses(segment, Down(sp, 6), j)
  {
  }

  predicate Covers(segment: Word, top: u16, k: u16, j: int) {
    Place(segment, top, k) <= j < Place(segment, top, k) + 2
  }

  function WordAt(m: seq<u8>, a: nat): Word
    requires a + 2 <= |m|
  {
    Word(m[a], m[a + 1])
  }

  function DwordAt(m: seq<u8>, a: nat): Dword
    requires a + 4 <= |m|
  {
    Dword(m[a], m[a + 1], m[a + 2], m[a + 3])
  }

  function StackAt(m: seq<u8>, segment: Word, top: u16): Caller
    requires |m| == MEMORY && Whole(top)
  {
    Caller(DwordAt(m, Place(segment, top, 0)), WordAt(m, Place(segment, top, 4)), WordAt(m, Place(segment, top, 6)),
           WordAt(m, Place(segment, top, 8)), WordAt(m, Place(segment, top, 10)), WordAt(m, Place(segment, top, 12)))
  }

  /** The offsets of the fields. */
  function FrameAt(m: seq<u8>, a: nat): Frame
    requires a + FRAME_SIZE <= |m|
  {
    Frame(WordAt(m, a), WordAt(m, a + 2), WordAt(m, a + 4),
          DwordAt(m, a + 6), DwordAt(m, a + 10), DwordAt(m, a + 14), DwordAt(m, a + 18), DwordAt(m, a + 22),
          DwordAt(m, a + 26), DwordAt(m, a + 30), DwordAt(m, a + 34),
          WordAt(m, a + 38), WordAt(m, a + 40), WordAt(m, a + 42), WordAt(m, a + 44), WordAt(m, a + 46))
  }

  class Machine {
    const mem: array<u8>
    var eax: Dword
    var ebx: Dword
    var ecx: Dword
    var edx: Dword
    var esi: Dword
    var edi: Dword
    var ebp: Dword
    var spHigh: Word
    var sp: u16
    var ds: Word
    var es: Word
    var fs: Word
    var gs: Word
    var ss: Word
    var cs: Word
    var ip: Word
    var flags: Word
    var halted: bool

    /** A program with a stack; its other registers are to be set. */
    constructor (mem: array<u8>, ss: Word, sp: u16)
      ensures this.mem == mem && this.ss == ss && this.sp == sp && !halted
    {
      this.mem, this.ss, this.sp := mem, ss, sp;
      halted := false;
    }

    predicate Valid() {
      mem.Length == MEMORY
    }

    function Esp(): Dword
      reads this`sp, this`spHigh
    {
      Dword(sp % 0x100, sp / 0x100, spHigh.lo, spHigh.hi)
    }

    function Top(): nat
      reads this`sp, this`ss
    {
      Linear(ss, sp)
    }

    function WordIn(a: nat): Word
      requires Valid() && a + 2 <= MEMORY
      reads mem
    {
      Word(mem[a], mem[a + 1])
    }

    function DwordIn(a: nat): Dword
      requires Valid() && a + 4 <= MEMORY
      reads mem
    {
      Dword(mem[a], mem[a + 1], mem[a + 2], mem[a + 3])
    }

    function FrameIn(a: nat): Frame
      requires Valid() && a + FRAME_SIZE <= MEMORY
      reads mem
    {
      Frame(WordIn(a), WordIn(a + 2), WordIn(a + 4),
            DwordIn(a + 6), DwordIn(a + 10), DwordIn(a + 14), DwordIn(a + 18), DwordIn(a + 22),
            DwordIn(a + 26), DwordIn(a + 30), DwordIn(a + 34),
            WordIn(a + 38), WordIn(a + 40), WordIn(a + 42), WordIn(a + 44), WordIn(a + 46))
    }

    function CallerIn(a: nat): Caller
      requires Valid() && a + PUSHED <= MEMORY
      reads mem
    {
      Caller(DwordIn(a), WordIn(a + 4), WordIn(a + 6), WordIn(a + 8), WordIn(a + 10), WordIn(a + 12))
    }

    /** What is on a stack, as the processor sees it. */
    function StackIn(segment: Word, top: u16): Caller
      requires Valid() && Whole(top)
      reads mem
    {
      Caller(DwordIn(Place(segment, top, 0)), WordIn(Place(segment, top, 4)), WordIn(Place(segment, top, 6)),
             WordIn(Place(segment, top, 8)), WordIn(Place(segment, top, 10)), WordIn(Place(segment, top, 12)))
    }

    /** Where the saved stack pointer points to. */
    function Saved(): nat
      requires Valid()
      reads mem
    {
      Linear(WordIn(AREA + 4), Word(mem[AREA], mem[AREA + 1]).Value())
    }

    /** Memory has changed from `a` up to `b` at most. */
    twostate predicate Only(a: nat, b: nat)
      requires Valid()
      reads mem
    {
      forall j | 0 <= j < MEMORY && !(a <= j < b) :: mem[j] == old(mem[j])
    }

    method PushWord(w: Word)
      requires Valid() && Fits(sp, 2)
      modifies this`sp, mem
      ensures sp == Down(old(sp), 2) && WordIn(Top()) == w && Only(Top(), Top() + 2)
    {
      sp := Down(sp, 2);
      var a := Top();
      mem[a], mem[a + 1] := w.lo, w.hi;
    }

    method PushDword(d: Dword)
      requires Valid() && Fits(sp, 4)
      modifies this`sp, mem
      ensures sp == Down(old(sp), 4) && DwordIn(Top()) == d && Only(Top(), Top() + 4)
    {
      sp := Down(sp, 4);
      var a := Top();
      mem[a], mem[a + 1], mem[a + 2], mem[a + 3] := d.b0, d.b1, d.b2, d.b3;
    }

    method PopWord() returns (w: Word)
      requires Valid() && Top() + 2 <= MEMORY
      modifies this`sp
      ensures sp == Up(old(sp), 2) && w == WordIn(old(Top()))
    {
      w := Word(mem[Top()], mem[Top() + 1]);
      sp := Up(sp, 2);
    }

    method PopDword() returns (d: Dword)
      requires Valid() && Top() + 4 <= MEMORY
      modifies this`sp
      ensures sp == Up(old(sp), 4) && d == DwordIn(old(Top()))
    {
      d := Dword(mem[Top()], mem[Top() + 1], mem[Top() + 2], mem[Top() + 3]);
      sp := Up(sp, 4);
    }

    /** Three pushes in a row. */
    method PushWords(x: Word, y: Word, z: Word)
      requires Valid() && sp >= 6
      modifies this`sp, mem
      ensures sp == old(sp) - 6 && Only(Top(), Top() + 6)
      ensures WordIn(Top()) == z && WordIn(Top() + 2) == y && WordIn(Top() + 4) == x
    {
      ghost var top := Top();
      PushWord(x);
      assert Top() == top - 2;
      PushWord(y);
      assert Top() == top - 4;
      PushWord(z);
    }

    method PushDwords(x: Dword, y: Dword, z: Dword)
      requires Valid() && sp >= 12
      modifies this`sp, mem
      ensures sp == old(sp) - 12 && Only(Top(), Top() + 12)
      ensures DwordIn(Top()) == z && DwordIn(Top() + 4) == y && DwordIn(Top() + 8) == x
    {
      ghost var top := Top();
      PushDword(x);
      assert Top() == top - 4;
      PushDword(y);
      assert Top() == top - 8;
      PushDword(z);
    }

    method PopWords() returns (x: Word, y: Word, z: Word)
      requires Valid() && Fits(Up(sp, 6), 6)
      modifies this`sp
      ensures sp == Up(old(sp), 6)
      ensures var a := old(Top()); x == WordIn(a) && y == WordIn(a + 2) && z == WordIn(a + 4)
    {
      x := PopWord();
      y := PopWord();
      z := PopWord();
    }

    method PopDwords() returns (x: Dword, y: Dword, z: Dword)
      requires Valid() && Fits(Up(sp, 12), 12)
      modifies this`sp
      ensures sp == Up(old(sp), 12)
      ensures var a := old(Top()); x == DwordIn(a) && y == DwordIn(a + 4) && z == DwordIn(a + 8)
    {
      x := PopDword();
      y := PopDword();
      z := PopDword();
    }

    // ----- the way in -----

    /** Three words, which may lie on both ends of the segment. */
    method PushTriple(x: Word, y: Word, z: Word)
      requires Valid() && Fits(sp, 2) && Fits(Down(sp, 2), 2) && Fits(Down(sp, 4), 2)
      modifies this`sp, mem
      ensures sp == Down(old(sp), 6)
      ensures WordIn(Place(ss, sp, 0)) == z && WordIn(Place(ss, sp, 2)) == y && WordIn(Place(ss, sp, 4)) == x
      ensures forall j | 0 <= j < MEMORY && UpperMisses(ss, sp, j) :: mem[j] == old(mem[j])
    {
      ghost var top := Down(sp, 6);
      PlacesOfThree(ss, sp);
      PushWord(x);
      assert WordIn(Place(ss, top, 4)) == x;
      PushWord(y);
      assert WordIn(Place(ss, top, 4)) == x && WordIn(Place(ss, top, 2)) == y;
      PushWord(z);
    }

    /** The interrupt instruction, the vector's stub, and the first two pushes. */
    method PushCaller(vector: u8)
      requires Valid() && Pushes(sp)
      modifies this`sp, mem
      ensures sp == Down(old(sp), 14) && Whole(sp)
      ensures StackIn(ss, sp) == Caller(ebp, gs, Word(vector, 0), ip, cs, flags)
      ensures forall j | 0 <= j < MEMORY && !OnStack(ss, sp, j) :: mem[j] == old(mem[j])
    {
      ghost var sp0 := sp;
      PushesWhole(sp);
      PushUpper();
      PushRest(Word(vector, 0), sp0);
    }

    method PushUpper()
      requires Valid() && Pushes(sp)
      modifies this`sp, mem
      ensures sp == Down(old(sp), 6)
      ensures var top := Down(old(sp), 14);
        && WordIn(Place(ss, top, 8)) == ip && WordIn(Place(ss, top, 10)) == cs && WordIn(Place(ss, top, 12)) == flags
        && (forall j | 0 <= j < MEMORY && !OnStack(ss, top, j) :: mem[j] == old(mem[j]))
    {
      ghost var sp0 := sp;
      UpperPlaces(ss, sp0);
      PushTriple(flags, cs, ip);
      forall j | 0 <= j < MEMORY && !OnStack(ss, Down(sp0, 14), j)
        ensures mem[j] == old(mem[j])
      {
        StackCovered(ss, sp0, j);
      }
    }

    method PushRest(vector: Word, ghost sp0: u16)
      requires Valid() && Pushes(sp0) && sp == Down(sp0, 6)
      modifies this`sp, mem
      ensures sp == Down(sp0, 14)
      ensures DwordIn(Place(ss, sp, 0)) == ebp && WordIn(Place(ss, sp, 4)) == gs && WordIn(Place(ss, sp, 6)) == vector
      ensures var top := Down(sp0, 14);
        && WordIn(Place(ss, top, 8)) == old(WordIn(Place(ss, top, 8)))
        && WordIn(Place(ss, top, 10)) == old(WordIn(Place(ss, top, 10)))
        && WordIn(Place(ss, top, 12)) == old(WordIn(Place(ss, top, 12)))
        && (forall j | 0 <= j < MEMORY && !OnStack(ss, top, j) :: mem[j] == old(mem[j]))
    {
      UpperPlaces(ss, sp0);
      LowerApart(ss, sp0, 8);
      LowerApart(ss, sp0, 10);
      LowerApart(ss, sp0, 12);
      PushLower(vector);
      forall j | 0 <= j < MEMORY && !OnStack(ss, Down(sp0, 14), j)
        ensures mem[j] == old(mem[j])
      {
        StackCovered(ss, sp0, j);
      }
    }

    method PushPair(x: Word, y: Word)
      requires Valid() && Fits(sp, 2) && Fits(Down(sp, 2), 2)
      modifies this`sp, mem
      ensures sp == Down(old(sp), 4)
      ensures WordIn(Place(ss, sp, 0)) == y && WordIn(Place(ss, sp, 2)) == x
      ensures forall j | 0 <= j < MEMORY && !Covers(ss, sp, 0, j) && !Covers(ss, sp, 2, j) :: mem[j] == old(mem[j])
    {
      PlacesOfTwo(ss, sp);
      PushWord(x);
      assert WordIn(Place(ss, Down(old(sp), 4), 2)) == x;
      PushWord(y);
    }

    method PushLower(vector: Word)
      requires Valid() && Fits(sp, 2) && Fits(Down(sp, 2), 2) && Fits(Down(sp, 4), 4)
      modifies this`sp, mem
      ensures sp == Down(old(sp), 8)
      ensures DwordIn(Place(ss, sp, 0)) == ebp && WordIn(Place(ss, sp, 4)) == gs && WordIn(Place(ss, sp, 6)) == vector
      ensures forall j | 0 <= j < MEMORY && LowerMisses(ss, sp, j) :: mem[j] == old(mem[j])
    {
      PairPlaces(ss, sp);
      PushPair(vector, gs);
      PushDword(ebp);
    }

    method StoreWord(a: nat, w: Word)
      requires Valid() && a + 2 <= MEMORY
      modifies mem
      ensures WordIn(a) == w && Only(a, a + 2)
    {
      mem[a], mem[a + 1] := w.lo, w.hi;
    }

    method StoreDword(a: nat, d: Dword)
      requires Valid() && a + 4 <= MEMORY
      modifies mem
      ensures DwordIn(a) == d && Only(a, a + 4)
    {
      mem[a], mem[a + 1], mem[a + 2], mem[a + 3] := d.b0, d.b1, d.b2, d.b3;
    }

    /** Saves the stack pointer and goes over to the interrupt stack, below room for the fields that
        the C side fills in. */
    method SwitchStack()
      requires Valid()
      modifies this`ebp, this`gs, this`ss, this`sp, mem
      ensures ss == AREA_SEGMENT && sp == 0x1000 - 18 && Only(AREA, AREA + 12)
      ensures DwordIn(AREA) == old(Esp()) && WordIn(AREA + 4) == old(ss)
      ensures DwordIn(AREA + 8) == SENTINEL
    {
      ebp := Dword(0x00, 0x9C, 0, 0);
      gs := Word(ebp.b0, ebp.b1);
      StoreDword(Linear(gs, 0), Esp());
      StoreWord(Linear(gs, 4), ss);
      StoreDword(Linear(gs, 8), SENTINEL);
      ss := Word(ebp.b0, ebp.b1);
      sp := 0x1000;
      sp := Down(sp, 18);
    }

    method PushRegisters()
      requires Valid() && ss == AREA_SEGMENT && sp == 0x1000 - 18
      modifies this`sp, mem
      ensures sp == 0x1000 - FRAME_SIZE && Only(FRAME, FRAME + 30)
      ensures var f := FrameIn(FRAME);
        && f.eax == eax && f.ebx == ebx && f.ecx == ecx && f.edx == edx && f.esi == esi && f.edi == edi
        && f.ds == ds && f.es == es && f.fs == fs
    {
      PushDwords(eax, ebx, ecx);
      PushDwords(edx, esi, edi);
      PushWords(ds, es, fs);
    }

    /** What itr_real_mode_interrupt fills in from the interrupted program's stack; the upper half of
        EBP is dropped. */
    method FillFrame() returns (prev: nat, vector: u16)
      requires Valid() && Apart(Saved())
      modifies mem
      ensures Only(FRAME + 30, FRAME + FRAME_SIZE)
      ensures prev == old(Saved()) && vector == CallerIn(prev).vector.Value()
      ensures var (f, c) := (FrameIn(FRAME), old(CallerIn(Saved())));
        && f.esp == DwordIn(AREA) && f.ss == WordIn(AREA + 4)
        && f.ebp == Dword(c.ebp.b0, c.ebp.b1, 0, 0) && f.gs == c.gs && f.ip == c.ip && f.cs == c.cs && f.flags == c.flags
    {
      var esp, segment := DwordIn(AREA), WordIn(AREA + 4);
      prev := Linear(segment, Word(esp.b0, esp.b1).Value());
      var c := CallerIn(prev);
      vector := c.vector.Value();
      StoreDword(FRAME + 30, esp);
      StoreWord(FRAME + 38, segment);
      StoreDword(FRAME + 34, c.ebp);
      StoreWord(FRAME + 40, c.gs);
      StoreWord(FRAME + 42, c.ip);
      StoreWord(FRAME + 44, c.cs);
      StoreWord(FRAME + 46, c.flags);
      if c.ebp.b2 != 0 || c.ebp.b3 != 0 {
        StoreDword(FRAME + 34, Dword(c.ebp.b0, c.ebp.b1, 0, 0));
      }
    }

    /** What the program's registers put on its stack. */
    function Own(vector: u8): Caller
      reads this
    {
      Caller(ebp, gs, Word(vector, 0), ip, cs, flags)
    }

    /** What the C side reads of that.  It does not wrap offsets, so that from the end of the segment on
        it finds what lies behind. */
    function Seen(vector: u8): Caller
      requires Valid()
      reads this, mem
    {
      var top := Down(sp, 14);
      Through(Own(vector), CallerIn(Linear(ss, top)), top)
    }

    /** The frame that a handler is given. */
    function EntryFrame(): Frame
      requires Valid()
      reads this, mem
    {
      var at, c := Down(sp, 14), Seen(0);
      Frame(fs, es, ds, edi, esi, edx, ecx, ebx, eax, Dword(at % 0x100, at / 0x100, spHigh.lo, spHigh.hi),
            Dword(ebp.b0, ebp.b1, 0, 0), ss, c.gs, c.ip, c.cs, c.flags)
    }

    /** The trampoline after its first two pushes. */
    method SaveRegisters()
      requires Valid()
      modifies this`ebp, this`gs, this`ss, this`sp, mem
      ensures HasGeneral(FrameIn(FRAME)) && Only(AREA, AREA + AREA_SIZE)
      ensures DwordIn(AREA) == old(Esp()) && WordIn(AREA + 4) == old(ss) && DwordIn(AREA + 8) == SENTINEL
    {
      SwitchStack();
      PushRegisters();
    }

    /** From the interrupt to the call of the C side. */
    method SaveAll(vector: u8)
      requires Valid() && Pushes(sp) && StackApart(ss, Down(sp, 14))
      modifies this`ebp, this`gs, this`ss, this`sp, mem
      ensures HasGeneral(FrameIn(FRAME)) && Whole(Down(old(sp), 14))
      ensures StackIn(old(ss), Down(old(sp), 14)) == old(Own(vector))
      ensures DwordIn(AREA) == old(EntryFrame().esp) && WordIn(AREA + 4) == old(ss) && DwordIn(AREA + 8) == SENTINEL
      ensures forall j | 0 <= j < MEMORY && !(AREA <= j < AREA + AREA_SIZE) && !OnStack(old(ss), Down(old(sp), 14), j) ::
        mem[j] == old(mem[j])
    {
      ghost var segment, top := ss, Down(sp, 14);
      PushCaller(vector);
      SaveBeside(segment, top);
    }

    method SaveBeside(ghost segment: Word, ghost top: u16)
      requires Valid() && Whole(top) && StackApart(segment, top)
      modifies this`ebp, this`gs, this`ss, this`sp, mem
      ensures StackIn(segment, top) == old(StackIn(segment, top))
      ensures HasGeneral(FrameIn(FRAME)) && Only(AREA, AREA + AREA_SIZE)
      ensures DwordIn(AREA) == old(Esp()) && WordIn(AREA + 4) == old(ss) && DwordIn(AREA + 8) == SENTINEL
    {
      StackOutside(segment, top);
      SaveRegisters();
    }

    /** What the C side will read. */
    method SaveSeen(vector: u8)
      requires Valid() && Pushes(sp) && StackApart(ss, Down(sp, 14))
      modifies this`ebp, this`gs, this`ss, this`sp, mem
      ensures Saved() == old(Linear(ss, Down(sp, 14))) && CallerIn(Saved()) == old(Seen(vector))
      ensures HasGeneral(FrameIn(FRAME)) && Whole(Down(old(sp), 14))
      ensures StackIn(old(ss), Down(old(sp), 14)) == old(Own(vector))
      ensures DwordIn(AREA) == old(EntryFrame().esp) && WordIn(AREA + 4) == old(ss) && DwordIn(AREA + 8) == SENTINEL
      ensures forall j | 0 <= j < MEMORY && !(AREA <= j < AREA + AREA_SIZE) && !OnStack(old(ss), Down(old(sp), 14), j) ::
        mem[j] == old(mem[j])
    {
      ghost var segment, top := ss, Down(sp, 14);
      ghost var own, was := Own(vector), CallerIn(Linear(segment, top));
      PushesWhole(sp);
      EspValue(sp);
      SaveLost(vector);
      SeenThrough(segment, top, own, was);
    }

    lemma SeenThrough(segment: Word, top: u16, own: Caller, was: Caller)
      requires Valid() && Whole(top) && StackIn(segment, top) == own
      requires var c := CallerIn(Linear(segment, top));
        && (!Found(top, 4) ==> c.gs == was.gs) && (!Found(top, 6) ==> c.vector == was.vector)
        && (!Found(top, 8) ==> c.ip == was.ip) && (!Found(top, 10) ==> c.cs == was.cs)
        && (!Found(top, 12) ==> c.flags == was.flags)
      ensures CallerIn(Linear(segment, top)) == Through(own, was, top)
    {
      StackPlaces(segment, top);
    }

    /** What lies behind the segment is not written on the way. */
    method SaveLost(vector: u8)
      requires Valid() && Pushes(sp) && StackApart(ss, Down(sp, 14))
      modifies this`ebp, this`gs, this`ss, this`sp, mem
      ensures var top := Down(old(sp), 14);
        var c, was := CallerIn(old(Linear(ss, Down(sp, 14)))), old(CallerIn(Linear(ss, Down(sp, 14))));
        && (!Found(top, 4) ==> c.gs == was.gs) && (!Found(top, 6) ==> c.vector == was.vector)
        && (!Found(top, 8) ==> c.ip == was.ip) && (!Found(top, 10) ==> c.cs == was.cs)
        && (!Found(top, 12) ==> c.flags == was.flags)
      ensures HasGeneral(FrameIn(FRAME)) && Whole(Down(old(sp), 14))
      ensures StackIn(old(ss), Down(old(sp), 14)) == old(Own(vector))
      ensures DwordIn(AREA) == old(EntryFrame().esp) && WordIn(AREA + 4) == old(ss) && DwordIn(AREA + 8) == SENTINEL
      ensures forall j | 0 <= j < MEMORY && !(AREA <= j < AREA + AREA_SIZE) && !OnStack(old(ss), Down(old(sp), 14), j) ::
        mem[j] == old(mem[j])
    {
      ghost var segment, top := ss, Down(sp, 14);
      PushesWhole(sp);
      Behind(segment, top, 4);
      Behind(segment, top, 6);
      Behind(segment, top, 8);
      Behind(segment, top, 10);
      Behind(segment, top, 12);
      SaveAll(vector);
    }

    /** From the interrupt to the handler. */
    method Enter(vector: u8) returns (prev: nat, v: u16)
      requires Valid() && Pushes(sp) && StackApart(ss, Down(sp, 14))
      modifies this`ebp, this`gs, this`ss, this`sp, mem
      ensures prev == old(Linear(ss, Down(sp, 14))) && v == old(Seen(vector)).vector.Value()
      ensures FrameIn(FRAME) == old(EntryFrame()) && Whole(Down(old(sp), 14))
      ensures StackIn(old(ss), Down(old(sp), 14)) == old(Own(vector))
      ensures DwordIn(AREA) == old(EntryFrame().esp) && WordIn(AREA + 4) == old(ss)
      ensures DwordIn(AREA + 8) == SENTINEL
      ensures forall j | 0 <= j < MEMORY && !(AREA <= j < AREA + AREA_SIZE) && !OnStack(old(ss), Down(old(sp), 14), j) ::
        mem[j] == old(mem[j])
    {
      ghost var segment, top := ss, Down(sp, 14);
      SaveSeen(vector);
      prev, v := FillBeside(segment, top);
    }

    method FillBeside(ghost segment: Word, ghost top: u16) returns (prev: nat, vector: u16)
      requires Valid() && Apart(Saved()) && Whole(top) && StackApart(segment, top)
      modifies mem
      ensures StackIn(segment, top) == old(StackIn(segment, top))
      ensures Only(FRAME + 30, FRAME + FRAME_SIZE)
      ensures prev == old(Saved()) && vector == old(CallerIn(Saved())).vector.Value()
      ensures var f, c := FrameIn(FRAME), old(CallerIn(Saved()));
        && f.esp == DwordIn(AREA) && f.ss == WordIn(AREA + 4)
        && f.ebp == Dword(c.ebp.b0, c.ebp.b1, 0, 0) && f.gs == c.gs && f.ip == c.ip && f.cs == c.cs && f.flags == c.flags
    {
      StackOutside(segment, top);
      prev, vector := FillFrame();
    }

    // ----- the way out -----

    /** The end of itr_real_mode_interrupt. */
    method WriteBack(prev: nat)
      requires Valid() && Apart(prev)
      modifies mem
      ensures Only(prev, prev + PUSHED) && FrameIn(FRAME) == old(FrameIn(FRAME))
      ensures var f, c := old(FrameIn(FRAME)), CallerIn(prev);
        && c.ebp == f.ebp && c.gs == f.gs && c.ip == f.ip && c.cs == f.cs && c.flags == f.flags
        && c.vector == old(CallerIn(prev)).vector
    {
      var f := FrameIn(FRAME);
      StoreDword(prev, f.ebp);
      StoreWord(prev + 4, f.gs);
      StoreWord(prev + 8, f.ip);
      StoreWord(prev + 10, f.cs);
      StoreWord(prev + 12, f.flags);
    }

    /** What it writes behind the end of the segment does not reach the program's stack. */
    method CopyBack(prev: nat, ghost segment: Word, ghost top: u16)
      requires Valid() && Apart(prev) && prev == Linear(segment, top) && Whole(top)
      modifies mem
      ensures Only(prev, prev + PUSHED) && FrameIn(FRAME) == old(FrameIn(FRAME)) && Saved() == old(Saved())
      ensures DwordIn(AREA + 8) == old(DwordIn(AREA + 8)) && WordIn(AREA + 4) == old(WordIn(AREA + 4))
      ensures WordIn(AREA) == old(WordIn(AREA)) && WordIn(AREA + 2) == old(WordIn(AREA + 2))
      ensures StackIn(segment, top) == Merged(old(StackIn(segment, top)), old(FrameIn(FRAME)), top)
    {
      StackPlaces(segment, top);
      WriteBack(prev);
    }

    method PopRegisters(ghost f: Frame)
      requires Valid() && ss == AREA_SEGMENT && sp == 0x1000 - FRAME_SIZE && f == FrameIn(FRAME)
      modifies this`sp, this`fs, this`es, this`ds, this`edi, this`esi, this`edx, this`ecx, this`ebx, this`eax
      ensures HasGeneral(f)
    {
      assert Top() == FRAME;
      var s0, s1, s2 := PopWords();
      assert Top() == FRAME + 6;
      var d0, d1, d2 := PopDwords();
      assert Top() == FRAME + 18;
      var d3, d4, d5 := PopDwords();
      fs, es, ds := s0, s1, s2;
      edi, esi, edx, ecx, ebx, eax := d0, d1, d2, d3, d4, d5;
    }

    method PopCaller(ghost c: Caller)
      requires Valid() && Whole(sp) && c == StackIn(ss, sp)
      modifies this`sp, this`ebp, this`gs, this`ip, this`cs, this`flags
      ensures sp == Up(old(sp), 14) && HasOwn(c)
    {
      ghost var top := sp;
      var d := PopDword();
      assert Top() == Place(ss, top, 4);
      var s := PopWord();
      sp := Up(sp, 2);
      assert Top() == Place(ss, top, 8);
      var i := PopWord();
      assert Top() == Place(ss, top, 10);
      var k := PopWord();
      assert Top() == Place(ss, top, 12);
      var l := PopWord();
      ebp, gs, ip, cs, flags := d, s, i, k, l;
    }

    /** The stack pointer is still linear when the processor is back in real mode; what is left of
        CR0 in the upper half of EAX is shifted out of what matters. */
    method RebaseStack(esp: u32, cr0High: u16)
      requires esp == FRAME
      modifies this`ss, this`gs, this`sp
      ensures ss == AREA_SEGMENT && sp == 0x1000 - FRAME_SIZE
    {
      gs, ss := AREA_SEGMENT, AREA_SEGMENT;
      var eax' := (cr0High * 0x1_0000 + 0x9C00) * 16 % U32;
      sp := (esp - eax') % U32 % 0x1_0000;
      LowHalf(cr0High);
    }

    /** From the switch back to real mode to the interrupted program. */
    method Resume(cr0High: u16, ghost f: Frame, ghost c: Caller, ghost sp': Word, ghost high: Word, ghost ss': Word)
      requires Valid() && Whole(sp'.Value())
      requires f == FrameIn(FRAME) && c == StackIn(ss', sp'.Value())
      requires sp' == WordIn(AREA) && high == WordIn(AREA + 2) && ss' == WordIn(AREA + 4)
      modifies this
      ensures HasGeneral(f) && HasOwn(c) && halted == old(halted)
      ensures ss == ss' && sp == Up(sp'.Value(), 14) && spHigh == high
    {
      ResumeRegisters(cr0High, f);
      ResumeStack(c, sp', high, ss');
    }

    method ResumeRegisters(cr0High: u16, ghost f: Frame)
      requires Valid() && f == FrameIn(FRAME)
      modifies this`sp, this`ss, this`fs, this`es, this`ds, this`gs
      modifies this`edi, this`esi, this`edx, this`ecx, this`ebx, this`eax
      ensures HasGeneral(f)
    {
      RebaseStack(FRAME, cr0High);
      PopRegisters(f);
    }

    method ResumeStack(ghost c: Caller, ghost sp': Word, ghost high: Word, ghost ss': Word)
      requires Valid() && Whole(sp'.Value())
      requires c == StackIn(ss', sp'.Value())
      requires sp' == WordIn(AREA) && high == WordIn(AREA + 2) && ss' == WordIn(AREA + 4)
      modifies this`sp, this`spHigh, this`ss, this`ebp, this`gs, this`ip, this`cs, this`flags
      ensures HasOwn(c) && ss == ss' && sp == Up(sp'.Value(), 14) && spHigh == high
    {
      sp, spHigh := WordIn(AREA).Value(), WordIn(AREA + 2);
      ss := WordIn(AREA + 4);
      PopCaller(c);
    }

    predicate HasGeneral(f: Frame)
      reads this
    {
      && eax == f.eax && ebx == f.ebx && ecx == f.ecx && edx == f.edx && esi == f.esi && edi == f.edi
      && ds == f.ds && es == f.es && fs == f.fs
    }

    predicate HasOwn(c: Caller)
      reads this
    {
      ebp == c.ebp && gs == c.gs && ip == c.ip && cs == c.cs && flags == c.flags
    }

    /** From the handler back to the interrupted program. */
    method Leave(prev: nat, cr0High: u16)
      requires Valid() && Apart(prev) && prev == Saved() && Whole(WordIn(AREA).Value())
      modifies this, mem
      ensures Only(prev, prev + PUSHED)
      ensures old(DwordIn(AREA + 8)) != SENTINEL ==> halted
      ensures old(DwordIn(AREA + 8)) == SENTINEL ==>
        && halted == old(halted) && HasGeneral(old(FrameIn(FRAME))) && ss == old(WordIn(AREA + 4))
        && sp == Up(old(WordIn(AREA)).Value(), 14) && spHigh == old(WordIn(AREA + 2))
      ensures old(DwordIn(AREA + 8)) == SENTINEL ==>
        var top := old(WordIn(AREA)).Value();
        HasOwn(Merged(old(StackIn(WordIn(AREA + 4), top)), old(FrameIn(FRAME)), top))
    {
      ghost var f, sp', high, ss' := FrameIn(FRAME), WordIn(AREA), WordIn(AREA + 2), WordIn(AREA + 4);
      CopyBack(prev, ss', sp'.Value());
      if DwordIn(AREA + 8) != SENTINEL {
        halted := true;
        return;
      }
      Resume(cr0High, f, StackIn(ss', sp'.Value()), sp', high, ss');
    }

    /** The registers are those of a frame, which has no say in the stack pointer. */
    predicate HasAll(f: Frame)
      reads this
    {
      && eax == f.eax && ebx == f.ebx && ecx == f.ecx && edx == f.edx && esi == f.esi && edi == f.edi && ebp == f.ebp
      && ds == f.ds && es == f.es && fs == f.fs && gs == f.gs && ip == f.ip && cs == f.cs && flags == f.flags
    }

    /** A whole interrupt.  `after` is what a registered handler makes of memory: anything, as long
        as the saved stack pointer stays.  Whatever it puts in the frame reaches the program, except
        a stack pointer, and except what was pushed over the end of the segment.  If it leaves frame
        and stack alone the program gets its registers back, with EBP cut to sixteen bits. */
    method Interrupt(vector: u8, registered: bool, after: seq<u8>, cr0High: u16)
      requires Valid() && !halted && Pushes(sp) && StackApart(ss, Down(sp, 14))
      requires |after| == MEMORY && DwordAt(after, AREA) == EntryFrame().esp && WordAt(after, AREA + 4) == ss
      modifies this, mem
      ensures halted <==> if registered then DwordAt(after, AREA + 8) != SENTINEL
        else old(Seen(vector)).vector.Value() < 0x10
      ensures !halted ==> ss == old(ss) && sp == old(sp) && spHigh == old(spHigh) && Whole(Down(sp, 14))
      ensures !halted ==>
        var f := if registered then FrameAt(after, FRAME) else old(EntryFrame());
        var c := if registered then StackAt(after, ss, Down(sp, 14)) else old(Own(vector));
        HasGeneral(f) && HasOwn(Merged(c, f, Down(sp, 14)))
    {
      ghost var segment, esp := ss, EntryFrame().esp;
      PushesWhole(sp);
      EspValue(sp);
      var prev, v := Enter(vector);
      Handle(prev, v, registered, after, cr0High, segment, esp);
    }

    /** From the entry of the handler on. */
    method Handle(prev: nat, v: u16, registered: bool, after: seq<u8>, cr0High: u16, ghost segment: Word, ghost esp: Dword)
      requires Valid() && !halted && prev == Saved() && DwordIn(AREA) == esp && WordIn(AREA + 4) == segment
      requires DwordIn(AREA + 8) == SENTINEL
      requires |after| == MEMORY && DwordAt(after, AREA) == esp && WordAt(after, AREA + 4) == segment
      requires var top := Word(esp.b0, esp.b1).Value(); Whole(top) && Apart(Linear(segment, top))
      modifies this, mem
      ensures halted <==> if registered then DwordAt(after, AREA + 8) != SENTINEL else v < 0x10
      ensures !halted ==>
        var top := Word(esp.b0, esp.b1).Value();
        ss == segment && sp == Up(top, 14) && spHigh == Word(esp.b2, esp.b3)
      ensures !halted ==>
        var top := Word(esp.b0, esp.b1).Value();
        var f := if registered then FrameAt(after, FRAME) else old(FrameIn(FRAME));
        var c := if registered then StackAt(after, segment, top) else old(StackIn(segment, top));
        HasGeneral(f) && HasOwn(Merged(c, f, top))
    {
      if registered {
        SetMemory(after, Word(esp.b0, esp.b1).Value(), segment);
      } else if v < 0x10 {
        halted := true;
        return;
      }
      assert Word(esp.b0, esp.b1) == WordIn(AREA) && Word(esp.b2, esp.b3) == WordIn(AREA + 2);
      Leave(prev, cr0High);
    }

    /** With a stack that does not wrap around all edits arrive; with any stack everything is restored if
        there are none. */
    method InterruptBoth(vector: u8, registered: bool, after: seq<u8>, cr0High: u16)
      requires Valid() && !halted && Pushes(sp) && StackApart(ss, Down(sp, 14))
      requires |after| == MEMORY && DwordAt(after, AREA) == EntryFrame().esp && WordAt(after, AREA + 4) == ss
      modifies this, mem
      ensures !halted && Fits(sp, 14) ==> HasAll(if registered then FrameAt(after, FRAME) else old(EntryFrame()))
      ensures !halted ==> ss == old(ss) && sp == old(sp) && spHigh == old(spHigh) && Whole(Down(sp, 14))
      ensures !halted && (registered ==>
          FrameAt(after, FRAME) == old(EntryFrame()) && StackAt(after, ss, Down(sp, 14)) == old(Own(vector))) ==>
        && eax == old(eax) && ebx == old(ebx) && ecx == old(ecx) && edx == old(edx) && esi == old(esi) && edi == old(edi)
        && ds == old(ds) && es == old(es) && fs == old(fs) && gs == old(gs)
        && ip == old(ip) && cs == old(cs) && flags == old(flags)
        && ebp == Dword(old(ebp.b0), old(ebp.b1), 0, 0)
    {
      Interrupt(vector, registered, after, cr0High);
    }

    /** The effect of a handler. */
    method SetMemory(after: seq<u8>, ghost top: u16, ghost segment: Word)
      requires Valid() && |after| == MEMORY && Whole(top)
      modifies mem
      ensures FrameIn(FRAME) == FrameAt(after, FRAME) && StackIn(segment, top) == StackAt(after, segment, top)
      ensures DwordIn(AREA) == DwordAt(after, AREA) && WordIn(AREA + 4) == WordAt(after, AREA + 4)
      ensures DwordIn(AREA + 8) == DwordAt(after, AREA + 8)
    {
      Overwrite(after);
    }

    method Overwrite(after: seq<u8>)
      requires Valid() && |after| == MEMORY
      modifies mem
      ensures forall j | 0 <= j < MEMORY :: mem[j] == after[j]
    {
      for i := 0 to MEMORY
        invariant forall j | 0 <= j < i :: mem[j] == after[j]
      {
        mem[i] := after[i];
      }
    }
  }

  lemma EspValue(sp: u16)
    ensures Word(Down(sp, 14) % 0x100, Down(sp, 14) / 0x100).Value() == Down(sp, 14)
  {
  }

  /** The word `k` bytes above the stack pointer lies before the end of the segment, where the C side
      looks for it. */
  predicate Found(top: u16, k: u16) {
    top + k + 2 <= 0x1_0000
  }

  /** Of the words that are pushed the C side finds those exactly. */
  lemma FoundWherePushed(segment: Word, sp: u16, k: u16)
    requires Pushes(sp) && k in {0, 2, 4, 6, 8, 10, 12}
    ensures Place(segment, Down(sp, 14), k) == Linear(segment, Down(sp, 14)) + k <==> Found(Down(sp, 14), k)
    ensures Found(Down(sp, 14), k) <==> Fits(sp, 14) || k < 14 - sp
  {
  }

  /** What is found, of the stack, and the rest of what lies behind the end of the segment. */
  function Through(c: Caller, behind: Caller, top: u16): Caller {
    Caller(c.ebp,
           if Found(top, 4) then c.gs else behind.gs,
           if Found(top, 6) then c.vector else behind.vector,
           if Found(top, 8) then c.ip else behind.ip,
           if Found(top, 10) then c.cs else behind.cs,
           if Found(top, 12) then c.flags else behind.flags)
  }

  /** The stack after the C side has copied a frame back: it gets the fields that the C side finds. */
  function Merged(c: Caller, f: Frame, top: u16): Caller {
    Caller(f.ebp, if Found(top, 4) then f.gs else c.gs, c.vector, if Found(top, 8) then f.ip else c.ip,
           if Found(top, 10) then f.cs else c.cs, if Found(top, 12) then f.flags else c.flags)
  }

  /** A program with stack pointer 2 gets every edit but that of its flags, which are at offset 0 while
      the C side writes them 64K higher. */
  lemma FlagsBehindSegment(c: Caller, f: Frame, segment: Word)
    ensures Merged(c, f, Down(2, 14)) == Caller(f.ebp, f.gs, c.vector, f.ip, f.cs, c.flags)
    ensures Place(segment, Down(2, 14), 12) == Linear(segment, 0)
    ensures Linear(segment, Down(2, 14)) + 12 == Linear(segment, 0) + 0x1_0000
  {
  }

  /** The places of the words that are found, and of those that are not. */
  lemma StackPlaces(segment: Word, top: u16)
    requires Whole(top)
    ensures Place(segment, top, 0) == Linear(segment, top) && Found(top, 2)
    ensures WordPlace(segment, top, 4) && WordPlace(segment, top, 6) && WordPlace(segment, top, 8)
    ensures WordPlace(segment, top, 10) && WordPlace(segment, top, 12)
  {
  }

  /** What lies behind the end of the segment is neither stack nor area. */
  lemma Behind(segment: Word, top: u16, k: u16)
    requires Whole(top) && Apart(Linear(segment, top)) && k in {4, 6, 8, 10, 12}
    ensures var a := Linear(segment, top) + k;
      Outside(a, 2) && (!Found(top, k) ==> !OnStack(segment, top, a) && !OnStack(segment, top, a + 1))
  {
  }

  predicate WordPlace(segment: Word, top: u16, k: u16) {
    var at := Place(segment, top, k);
    if Found(top, k) then at == Linear(segment, top) + k else at + 2 <= Linear(segment, top)
  }

  /** The program's stack, on both ends of the segment if it wraps around, is not in the trampoline's own
      area. */
  predicate StackApart(segment: Word, top: u16) {
    Apart(Linear(segment, top)) && (top + 14 > 0x1_0000 ==> Apart(Linear(segment, 0)))
  }

  lemma StackOutside(segment: Word, top: u16)
    requires Whole(top) && StackApart(segment, top)
    ensures Outside(Place(segment, top, 0), 4) && Outside(Place(segment, top, 4), 2) && Outside(Place(segment, top, 6), 2)
    ensures Outside(Place(segment, top, 8), 2) && Outside(Place(segment, top, 10), 2) && Outside(Place(segment, top, 12), 2)
  {
  }

  predicate WordOnStack(segment: Word, top: u16, k: u16) {
    OnStack(segment, top, Place(segment, top, k)) && OnStack(segment, top, Place(segment, top, k) + 1)
  }

  lemma StackWords(segment: Word, top: u16)
    requires Whole(top)
    ensures WordOnStack(segment, top, 0) && WordOnStack(segment, top, 4) && WordOnStack(segment, top, 6)
    ensures OnStack(segment, top, Place(segment, top, 0) + 2) && OnStack(segment, top, Place(segment, top, 0) + 3)
    ensures WordOnStack(segment, top, 8) && WordOnStack(segment, top, 10) && WordOnStack(segment, top, 12)
  {
    OneWord(segment, top, 0);
    OneWord(segment, top, 2);
    OneWord(segment, top, 4);
    OneWord(segment, top, 6);
    OneWord(segment, top, 8);
    OneWord(segment, top, 10);
    OneWord(segment, top, 12);
    assert Place(segment, top, 2) == Place(segment, top, 0) + 2;
  }

  lemma OneWord(segment: Word, top: u16, k: u16)
    requires Whole(top) && k in {0, 2, 4, 6, 8, 10, 12}
    ensures WordOnStack(segment, top, k)
  {
  }

  predicate Outside(a: nat, n: nat) {
    a + n <= AREA || AREA + AREA_SIZE <= a
  }

  lemma LowHalf(g: u16)
    ensures (FRAME - (g * 0x1_0000 + 0x9C00) * 16 % U32) % U32 % 0x1_0000 == 0x1000 - FRAME_SIZE
  {
    var x := (g * 0x1_0000 + 0x9C00) * 16;
    var q := x / U32;
    assert x % U32 == x - q * U32;
    var y := FRAME - x % U32;
    var p := y / U32;
    assert y % U32 == y - p * U32;
    assert y - p * U32 == 0x1000 - FRAME_SIZE + 0x1_0000 * (0x1_0000 * q - 0x1_0000 * p - 16 * g);
  }

  /** The interrupted program's stack is not in the trampoline's own area. */
  predicate Apart(prev: nat) {
    prev + PUSHED <= MEMORY && (prev + PUSHED <= AREA || AREA + AREA_SIZE <= prev)
  }

  /** The 14 bytes on the interrupted program's stack. */
  datatype Caller = Caller(ebp: Dword, gs: Word, vector: Word, ip: Word, cs: Word, flags: Word)
}
