/** The buffered serial transmitter (serial.c, with putc in output.c), in buffered mode.

    One processor runs the main program, whose serial_write advances by the micro-steps of
    `Pc`, and interrupt handlers, which run to completion with interrupts off between any two of
    them.  The transmitter holding register empties at its own pace. */
module Serial {
  import opened Types

  const SIZE: nat := 1024

  /** How far the main program is in putc: the full test, the store, the advance of the head and
      the write of the interrupt enable register, or polling to send directly. */
  datatype Pc = Idle | Test(c: u8) | Store(c: u8) | Advance(c: u8) | Kick | Poll(c: u8)

  /** The last five fields record history: the bytes shifted out on the line; those written to
      the data register, and of these the ones from the ring and the ones sent directly; and
      those that were put in the ring. */
  datatype State = State(
    buf: seq<u8>, head: nat, tail: nat, txInterrupt: bool, holding: Option<u8>, interruptFlag: bool, pc: Pc,
    line: seq<u8>, written: seq<u8>, dequeued: seq<u8>, direct: seq<u8>, queued: seq<u8>)

  datatype Event = Putc(c: u8) | Writer | Interrupt | IsrPutc(c: u8) | Drain | Cli | Sti

  /** (i + 1) & (1024 - 1) */
  function Next(i: nat): (r: nat)
    requires i < SIZE
    ensures r < SIZE
  {
    if i + 1 == SIZE then 0 else i + 1
  }

  lemma NextIsMask(i: nat)
    requires i < SIZE
    ensures Next(i) == (i + 1) % SIZE
  {
  }

  /** What the ring holds, oldest first. */
  function Contents(s: State): seq<u8>
    requires |s.buf| == SIZE && s.head < SIZE && s.tail < SIZE
  {
    if s.tail <= s.head then s.buf[s.tail..s.head] else s.buf[s.tail..] + s.buf[..s.head]
  }

  function Held(h: Option<u8>): seq<u8> {
    if h.Some? then [h.value] else []
  }

  // ----- the steps -----

  /** A write of the data register. */
  function SendData(s: State, b: u8): State {
    s.(holding := Some(b), written := s.written + [b])
  }

  function SendDirect(s: State, b: u8): State {
    SendData(s, b).(direct := s.direct + [b])
  }

  function Dequeue(s: State): State
    requires |s.buf| == SIZE && s.tail < SIZE
  {
    SendData(s, s.buf[s.tail]).(tail := Next(s.tail), dequeued := s.dequeued + [s.buf[s.tail]])
  }

  /** serial_write_available_handler */
  function Handler(s: State): State
    requires |s.buf| == SIZE && s.tail < SIZE
  {
    if s.head != s.tail then
      if s.holding.None? then Dequeue(s) else s
    else
      s.(txInterrupt := false)
  }

  function PollStep(s: State, c: u8): State {
    if s.holding.None? then SendDirect(s, c).(pc := Idle) else s
  }

  /** The next micro-step of a putc in progress. */
  function WriterStep(s: State): State
    requires InRange(s)
  {
    match s.pc
    case Idle => s
    case Test(c) => if Next(s.head) == s.tail then s else s.(pc := Store(c))
    case Store(c) => s.(buf := s.buf[s.head := c], pc := Advance(c))
    case Advance(c) => s.(head := Next(s.head), queued := s.queued + [c], pc := Kick)
    case Kick => s.(txInterrupt := true, pc := Idle)
    case Poll(c) => PollStep(s, c)
  }

  predicate InRange(s: State) {
    |s.buf| == SIZE && s.head < SIZE && s.tail < SIZE
  }

  predicate Possible(pc: Pc, interruptFlag: bool, holding: Option<u8>, e: Event) {
    match e
    case Putc(_) => pc.Idle?
    case Writer => !pc.Idle?
    case Interrupt => interruptFlag
    case IsrPutc(_) => interruptFlag && holding.None?
    case Drain => holding.Some?
    case Cli => pc.Idle?
    case Sti => pc.Idle?
  }

  predicate Enabled(s: State, e: Event) {
    Possible(s.pc, s.interruptFlag, s.holding, e)
  }

  /** An event that is not enabled changes nothing. */
  function Step(s: State, e: Event): State
    requires InRange(s)
  {
    if !Enabled(s, e) then s else
    match e
    case Putc(c) => s.(pc := if s.interruptFlag then Test(c) else Poll(c))
    case Writer => WriterStep(s)
    case Interrupt => Handler(s)
    case IsrPutc(c) => SendDirect(s, c)
    case Drain => s.(line := s.line + Held(s.holding), holding := None)
    case Cli => s.(interruptFlag := false)
    case Sti => s.(interruptFlag := true)
  }

  // ----- the invariant -----

  /** Buffered mode has just been switched on: the ring is empty and so are the histories. */
  predicate Init(s: State) {
    && InRange(s) && s.head == s.tail && s.pc.Idle? && s.txInterrupt
    && s.holding.None? && s.line == [] && s.written == [] && s.dequeued == [] && s.direct == [] && s.queued == []
  }

  // The ring: nothing that it holds is lost, and the writer has room where it stores.
  predicate RingInv(s: State) {
    && InRange(s)
    && (s.pc.Store? || s.pc.Advance? ==> Next(s.head) != s.tail)
    && (s.pc.Advance? ==> s.buf[s.head] == s.pc.c)
    && s.dequeued + Contents(s) == s.queued
  }

  // The line: no write of the data register is overwritten by the next.
  predicate LineInv(s: State) {
    && s.line + Held(s.holding) == s.written
    && IsMerge(s.written, s.dequeued, s.direct)
  }

  // The wakeup: a non-empty ring has the interrupt enabled, or the writer is about to do it.
  predicate WakeInv(s: State) {
    && (!s.pc.Kick? && s.head != s.tail ==> s.txInterrupt)
    && (s.pc.Test? || s.pc.Store? || s.pc.Advance? || s.pc.Kick? ==> s.interruptFlag)
    && (s.pc.Poll? ==> !s.interruptFlag)
  }

  predicate Inv(s: State) {
    RingInv(s) && LineInv(s) && WakeInv(s)
  }

  lemma InitInv(s: State)
    requires Init(s)
    ensures Inv(s)
  {
  }

  /** `z` interleaves `x` and `y`. */
  predicate IsMerge(z: seq<u8>, x: seq<u8>, y: seq<u8>)
    decreases |z|
  {
    if z == [] then x == [] && y == [] else
    var last, z' := z[|z| - 1], z[..|z| - 1];
    || (x != [] && x[|x| - 1] == last && IsMerge(z', x[..|x| - 1], y))
    || (y != [] && y[|y| - 1] == last && IsMerge(z', x, y[..|y| - 1]))
  }

  lemma MergeAppend(z: seq<u8>, x: seq<u8>, y: seq<u8>, b: u8)
    requires IsMerge(z, x, y)
    ensures IsMerge(z + [b], x + [b], y) && IsMerge(z + [b], x, y + [b])
  {
    assert (z + [b])[..|z|] == z && (x + [b])[..|x|] == x && (y + [b])[..|y|] == y;
  }

  lemma StoreKeepsContents(s: State, c: u8)
    requires InRange(s) && Next(s.head) != s.tail
    ensures Contents(s.(buf := s.buf[s.head := c])) == Contents(s)
  {
  }

  lemma AdvancePushes(s: State)
    requires InRange(s) && Next(s.head) != s.tail
    ensures Contents(s.(head := Next(s.head))) == Contents(s) + [s.buf[s.head]]
  {
    if s.head == SIZE - 1 {
      assert s.buf[s.tail..] == s.buf[s.tail..s.head] + [s.buf[s.head]];
    }
  }

  lemma TailPops(s: State)
    requires InRange(s) && s.head != s.tail
    ensures Contents(s) == [s.buf[s.tail]] + Contents(s.(tail := Next(s.tail)))
  {
    var t, h := s.tail, s.head;
    if t < h {
      FrontOf(s.buf, t, h);
    } else {
      FrontOf(s.buf, t, SIZE);
      Regroup([s.buf[t]], s.buf[t + 1..SIZE], s.buf[..h]);
      assert s.buf[t..] == s.buf[t..SIZE] && s.buf[t + 1..] == s.buf[t + 1..SIZE];
      if t == SIZE - 1 {
        assert s.buf[t + 1..SIZE] + s.buf[..h] == s.buf[..h] == s.buf[0..h];
      }
    }
  }

  lemma FrontOf(b: seq<u8>, t: nat, h: nat)
    requires t < h <= |b|
    ensures b[t..h] == [b[t]] + b[t + 1..h]
  {
  }

  lemma Regroup(x: seq<u8>, y: seq<u8>, z: seq<u8>)
    ensures (x + y) + z == x + (y + z)
  {
  }

  lemma StepRing(s: State, e: Event)
    requires RingInv(s)
    ensures RingInv(Step(s, e))
  {
    if Enabled(s, e) {
      match e
      case Writer => WriterRing(s);
      case Interrupt => HandlerRing(s);
      case _ =>
    }
  }

  lemma WriterRing(s: State)
    requires RingInv(s)
    ensures RingInv(WriterStep(s))
  {
    match s.pc
    case Store(c) => StoreKeepsContents(s, c);
    case Advance(c) => AdvanceRing(s, c);
    case _ =>
  }

  lemma AdvanceRing(s: State, c: u8)
    requires RingInv(s) && s.pc == Advance(c)
    ensures RingInv(WriterStep(s))
  {
    var r := WriterStep(s);
    AdvancePushes(s);
    assert Contents(r) == Contents(s.(head := Next(s.head))) == Contents(s) + [c];
    assert s.dequeued + Contents(r) == (s.dequeued + Contents(s)) + [c];
  }

  lemma HandlerRing(s: State)
    requires RingInv(s)
    ensures RingInv(Handler(s))
  {
    if s.head != s.tail && s.holding.None? {
      var b, r := s.buf[s.tail], Handler(s);
      TailPops(s);
      assert Contents(r) == Contents(s.(tail := Next(s.tail)));
      assert r.dequeued + Contents(r) == s.dequeued + ([b] + Contents(r));
    }
  }

  lemma SendLine(s: State, b: u8)
    requires LineInv(s) && s.holding.None?
    ensures var r := SendData(s, b);
      && r.line + Held(r.holding) == r.written
      && IsMerge(r.written, r.dequeued + [b], r.direct) && IsMerge(r.written, r.dequeued, r.direct + [b])
  {
    MergeAppend(s.written, s.dequeued, s.direct, b);
    assert s.line + Held(s.holding) == s.line;
  }

  lemma SameLine(s: State, r: State)
    requires LineInv(s) && r.line == s.line && r.holding == s.holding && r.written == s.written
    requires r.dequeued == s.dequeued && r.direct == s.direct
    ensures LineInv(r)
  {
  }

  lemma SendDirectLine(s: State, b: u8, pc: Pc)
    requires LineInv(s) && s.holding.None?
    ensures LineInv(SendDirect(s, b).(pc := pc))
  {
    SendLine(s, b);
    SameLine(SendDirect(s, b), SendDirect(s, b).(pc := pc));
  }

  lemma HandlerLine(s: State)
    requires InRange(s) && LineInv(s)
    ensures LineInv(Handler(s))
  {
    if s.head != s.tail && s.holding.None? {
      SendLine(s, s.buf[s.tail]);
    } else {
      SameLine(s, Handler(s));
    }
  }

  lemma WriterLine(s: State)
    requires InRange(s) && LineInv(s)
    ensures LineInv(WriterStep(s))
  {
    if s.pc.Poll? && s.holding.None? {
      SendDirectLine(s, s.pc.c, Idle);
    } else {
      SameLine(s, WriterStep(s));
    }
  }

  lemma StepLine(s: State, e: Event)
    requires InRange(s) && LineInv(s)
    ensures LineInv(Step(s, e))
  {
    if !Enabled(s, e) {
      return;
    }
    match e
    case Writer => WriterLine(s);
    case Interrupt => HandlerLine(s);
    case IsrPutc(c) => SendDirectLine(s, c, s.pc);
    case Drain => DrainLine(s);
    case _ => SameLine(s, Step(s, e));
  }

  lemma DrainLine(s: State)
    requires LineInv(s) && s.holding.Some?
    ensures LineInv(s.(line := s.line + Held(s.holding), holding := None))
  {
    assert s.written + Held(None) == s.written;
  }

  /** Every step keeps the invariant. */
  lemma StepInv(s: State, e: Event)
    requires Inv(s)
    ensures Inv(Step(s, e))
  {
    StepRing(s, e);
    StepLine(s, e);
  }

  // ----- safety over whole runs -----

  function Run(s: State, es: seq<Event>): State
    requires InRange(s)
    ensures InRange(Run(s, es))
    decreases |es|
  {
    if es == [] then s else StepInRange(Run(s, es[..|es| - 1]), es[|es| - 1])
  }

  function StepInRange(s: State, e: Event): (r: State)
    requires InRange(s)
    ensures InRange(r) && r == Step(s, e)
  {
    Step(s, e)
  }

  lemma {:induction false} RunInv(s: State, es: seq<Event>)
    requires Init(s)
    ensures Inv(Run(s, es))
    decreases |es|
  {
    if es == [] {
      InitInv(s);
    } else {
      RunInv(s, es[..|es| - 1]);
      StepInv(Run(s, es[..|es| - 1]), es[|es| - 1]);
    }
  }

  /** The arguments of the putc calls that went, or are going, by way of the ring. */
  function Buffered(s: State): seq<u8> {
    match s.pc
    case Test(c) => s.queued + [c]
    case Store(c) => s.queued + [c]
    case Advance(c) => s.queued + [c]
    case _ => s.queued
  }

  /** Conservation, under every interleaving: what has left or is leaving the transmitter is a
      merge of the bytes sent directly and of a prefix of the bytes queued; the rest of them is
      in the ring, in order, and the ring never holds more than 1023. */
  lemma Conservation(s: State, es: seq<Event>)
    requires Init(s)
    ensures var r := Run(s, es);
      && IsMerge(r.line + Held(r.holding), r.dequeued, r.direct)
      && r.dequeued + Contents(r) == r.queued
      && |Contents(r)| < SIZE
  {
    RunInv(s, es);
  }

  /** At rest everything has been sent: no byte is lost, repeated or out of order. */
  lemma AtRest(s: State, es: seq<Event>)
    requires Init(s)
    ensures var r := Run(s, es);
      r.pc.Idle? && Contents(r) == [] && r.holding.None? ==> IsMerge(r.line, r.queued, r.direct)
  {
    var r := Run(s, es);
    RunInv(s, es);
    if Contents(r) == [] && r.holding.None? {
      assert r.line == r.line + Held(r.holding);
      assert r.dequeued == r.queued;
    }
  }

  /** Every call of putc is accounted for: the step that begins one adds its byte to the calls
      by way of the ring or leaves it to be polled out, and no other step adds any. */
  lemma CallsAreQueued(s: State, e: Event)
    requires InRange(s)
    ensures Buffered(Step(s, e)) == Buffered(s) +
      (if e.Putc? && s.pc.Idle? && s.interruptFlag then [e.c] else [])
    ensures e.Putc? && s.pc.Idle? && !s.interruptFlag ==> Step(s, e).pc == Poll(e.c)
  {
  }

  /** Bytes that are sent directly are those of handlers and of a writer that polls. */
  lemma DirectBytes(s: State, e: Event)
    requires InRange(s)
    ensures Step(s, e).direct == s.direct +
      (if e.IsrPutc? && s.interruptFlag && s.holding.None? then [e.c]
       else if e.Writer? && s.pc.Poll? && s.holding.None? then [s.pc.c] else [])
  {
  }

  /** No lost wakeup. */
  lemma NoLostWakeup(s: State, es: seq<Event>)
    requires Init(s)
    ensures var r := Run(s, es); !r.pc.Kick? && Contents(r) != [] ==> r.txInterrupt
  {
    RunInv(s, es);
  }

  // ----- quiescence -----

  /** The 8259 asks for the handler: IER says so, the holding register is empty and the processor
      takes interrupts. */
  predicate Request(s: State) {
    s.interruptFlag && s.txInterrupt && s.holding.None?
  }

  predicate IsQuiet(s: State) {
    s.pc.Idle? && s.head == s.tail && !s.txInterrupt
  }

  lemma {:induction false} StaysQuiet(s: State, es: seq<Event>)
    requires InRange(s) && IsQuiet(s) && forall e | e in es :: !e.Putc?
    ensures IsQuiet(Run(s, es))
  {
    if es != [] {
      StaysQuiet(s, es[..|es| - 1]);
    }
  }

  lemma {:induction false} RunAppend(s: State, es: seq<Event>, more: seq<Event>)
    requires InRange(s)
    ensures Run(s, es + more) == Run(Run(s, es), more)
  {
    if more == [] {
      assert es + more == es;
    } else {
      var all := es + more;
      assert all[..|all| - 1] == es + more[..|more| - 1] && all[|all| - 1] == more[|more| - 1];
      RunAppend(s, es, more[..|more| - 1]);
    }
  }

  /** Once the ring has run empty one interrupt more is taken, and it is the last: none is requested
      after it, whatever happens, until the next putc. */
  lemma Quiescence(s: State, es: seq<Event>, more: seq<Event>)
    requires Init(s) && forall e | e in more :: !e.Putc?
    ensures var r := Run(s, es);
      Contents(r) == [] && r.pc.Idle? && r.interruptFlag ==> !Request(Run(s, es + ([Interrupt] + more)))
  {
    var r := Run(s, es);
    RunInv(s, es);
    if Contents(r) == [] && r.pc.Idle? && r.interruptFlag {
      assert [Interrupt][..0] == [];
      assert Run(r, [Interrupt]) == Step(r, Interrupt);
      StaysQuiet(Step(r, Interrupt), more);
      RunAppend(r, [Interrupt], more);
      RunAppend(s, es, [Interrupt] + more);
    }
  }

  function One(b: bool): nat {
    if b then 1 else 0
  }

  /** The interrupts of a run that were taken on request. */
  function Taken(s: State, es: seq<Event>): nat
    requires InRange(s)
  {
    if es == [] then 0
    else
      var front := es[..|es| - 1];
      Taken(s, front) + One(es[|es| - 1].Interrupt? && Request(Run(s, front)))
  }

  /** How often the writer has enabled the interrupt. */
  function Kicks(s: State, es: seq<Event>): nat
    requires InRange(s)
  {
    if es == [] then 0
    else
      var front := es[..|es| - 1];
      Kicks(s, front) + One(es[|es| - 1].Writer? && Run(s, front).pc.Kick?)
  }

  /** Each interrupt that is taken sends a byte from the ring, but for one each time that the interrupt
      has been enabled; that is at the start and once for each byte queued. */
  lemma {:induction false} InterruptsBounded(s: State, es: seq<Event>)
    requires Init(s)
    ensures var r := Run(s, es);
      && Taken(s, es) + One(r.txInterrupt) <= |r.dequeued| + Kicks(s, es) + 1
      && Kicks(s, es) + One(r.pc.Kick?) == |r.queued|
  {
    if es != [] {
      InterruptsBounded(s, es[..|es| - 1]);
      InterruptStep(Run(s, es[..|es| - 1]), es[|es| - 1]);
    }
  }

  lemma InterruptStep(s: State, e: Event)
    requires InRange(s)
    ensures var r, kicks, taken := Step(s, e), One(e.Writer? && s.pc.Kick?), One(e.Interrupt? && Request(s));
      && taken + One(r.txInterrupt) + |s.dequeued| <= |r.dequeued| + kicks + One(s.txInterrupt)
      && kicks + One(r.pc.Kick?) + |s.queued| == |r.queued| + One(s.pc.Kick?)
  {
  }

  // ----- the code -----

  /** The variables of serial.c, the two registers of the transmitter that it uses and the
      position of the main program in putc. */
  class Port {
    const buf: array<u8>
    var bufHead: nat
    var bufTail: nat
    var interruptEnable: u8
    var holding: Option<u8>
    var interruptFlag: bool
    var pc: Pc
    var buffered: bool
    var eois: nat   // ends of interrupt that the handler has sent to the PIC
    ghost var line: seq<u8>
    ghost var written: seq<u8>
    ghost var dequeued: seq<u8>
    ghost var direct: seq<u8>
    ghost var queued: seq<u8>

    ghost predicate Valid()
      reads this
    {
      buf.Length == SIZE && bufHead < SIZE && bufTail < SIZE && interruptEnable in {0x00, 0x02}
    }

    ghost function View(): State
      reads this, buf
    {
      State(buf[..], bufHead, bufTail, interruptEnable == 0x02, holding, interruptFlag, pc,
        line, written, dequeued, direct, queued)
    }

    /** serial_set_buffered(true) at start-up: interrupts are still off. */
    constructor ()
      ensures Valid() && buffered && fresh(buf) && Init(View()) && !interruptFlag
    {
      buf := new u8[SIZE];
      bufHead, bufTail, interruptEnable := 0, 0, 0x02;
      holding, interruptFlag, pc := None, false, Idle;
      buffered, eois := true, 0;
      line, written, dequeued, direct, queued := [], [], [], [], [];
    }

    method WriteData(b: u8)
      requires holding.None?
      modifies this`holding, this`written
      ensures holding == Some(b) && written == old(written) + [b]
    {
      holding, written := Some(b), written + [b];
    }

    /** In unbuffered mode the interrupt is only ended. */
    method WriteAvailableHandler()
      requires Valid()
      modifies this`bufTail, this`interruptEnable, this`holding, this`written, this`dequeued, this`eois
      ensures Valid() && View() == (if buffered then Handler(old(View())) else old(View()))
      ensures eois == old(eois) + 1
      ensures buffered && old(bufHead == bufTail) ==> interruptEnable == 0x00 && holding == old(holding)
      ensures buffered && old(bufHead != bufTail) && old(holding).None? ==>
        holding == Some(old(buf[bufTail])) && bufTail == (old(bufTail) + 1) % 1024 && interruptEnable == old(interruptEnable)
    {
      if buffered {
        if bufHead != bufTail {
          if holding.None? {
            dequeued := dequeued + [buf[bufTail]];
            WriteData(buf[bufTail]);
            NextIsMask(bufTail);
            bufTail := (bufTail + 1) % 1024;
          }
        } else {
          interruptEnable := 0x00;
        }
      }
      eois := eois + 1;
    }

    method WriteUnbuffered(c: u8)
      requires holding.None?
      modifies this`holding, this`written, this`direct
      ensures View() == SendDirect(old(View()), c)
    {
      direct := direct + [c];
      WriteData(c);
    }

    /** One micro-step of putc, as serial_write and serial_write_unbuffered order them. */
    method Advance()
      requires Valid() && buffered
      modifies this, buf
      ensures Valid() && buffered && View() == WriterStep(old(View()))
    {
      match pc
      case Idle =>
      case Test(c) =>
        NextIsMask(bufHead);
        if (bufHead + 1) % 1024 != bufTail {
          pc := Store(c);
        }
      case Store(c) =>
        buf[bufHead] := c;
        pc := Pc.Advance(c);
      case Advance(c) =>
        NextIsMask(bufHead);
        bufHead := (bufHead + 1) % 1024;
        queued, pc := queued + [c], Kick;
      case Kick =>
        interruptEnable, pc := 0x02, Idle;
      case Poll(c) =>
        if holding.None? {
          WriteUnbuffered(c);
          pc := Idle;
        }
    }

    method Perform(e: Event)
      requires Valid() && buffered
      modifies this, buf
      ensures Valid() && buffered && View() == Step(old(View()), e)
    {
      if !Possible(pc, interruptFlag, holding, e) {
        return;
      }
      match e
      case Putc(c) => pc := if interruptFlag then Test(c) else Poll(c);
      case Writer => Advance();
      case Interrupt => WriteAvailableHandler();
      case IsrPutc(c) => WriteUnbuffered(c);
      case Drain => line, holding := line + Held(holding), None;
      case Cli => interruptFlag := false;
      case Sti => interruptFlag := true;
    }

    /** Any interleaving of the main program, the handlers and the transmitter. */
    method Execute(es: seq<Event>)
      requires Valid() && buffered
      modifies this, buf
      ensures Valid() && buffered && View() == Run(old(View()), es)
    {
      assert es[..0] == [];
      for i := 0 to |es|
        invariant Valid() && buffered && View() == Run(old(View()), es[..i])
      {
        assert es[..i + 1][..i] == es[..i];
        Perform(es[i]);
      }
      assert es[..|es|] == es;
    }
  }

  // ----- liveness -----

  /** An infinite run: the state before each event. */
  datatype Trace = Trace(states: nat -> State, events: nat -> Event)

  ghost predicate IsRun(t: Trace) {
    && Init(t.states(0))
    && (forall n: nat :: InRange(t.states(n)) && t.states(n + 1) == Step(t.states(n), t.events(n)))
  }

  ghost predicate WriterAfter(t: Trace, n: nat) {
    exists m: nat :: n <= m && t.events(m) == Writer
  }

  ghost predicate EmptyAfter(t: Trace, n: nat) {
    exists m: nat :: n <= m && t.states(m).holding.None?
  }

  ghost predicate RequestAfter(t: Trace, n: nat) {
    exists m: nat :: n <= m && Request(t.states(m))
  }

  ghost predicate ServedAfter(t: Trace, n: nat) {
    exists m: nat :: n <= m && Request(t.states(m)) && t.events(m) == Interrupt
  }

  /** The main program is given steps, the transmitter keeps emptying, and a transmit interrupt
      that is requested again and again is taken. */
  ghost predicate Fair(t: Trace) {
    && (forall n: nat :: WriterAfter(t, n))
    && (forall n: nat :: EmptyAfter(t, n))
    && (forall n: nat :: (forall m: nat | n <= m :: RequestAfter(t, m)) ==> ServedAfter(t, n))
  }

  lemma {:induction false} TraceInv(t: Trace, n: nat)
    requires IsRun(t)
    ensures Inv(t.states(n))
  {
    if n == 0 {
      InitInv(t.states(0));
    } else {
      TraceInv(t, n - 1);
      StepInv(t.states(n - 1), t.events(n - 1));
    }
  }

  function Room(s: State): bool
    requires InRange(s)
  {
    Next(s.head) != s.tail
  }

  // A writer that waits for room goes on waiting until it gets to store.
  lemma WaitStep(s: State, e: Event, c: u8)
    requires InRange(s) && s.pc == Test(c) && Step(s, e).pc != Store(c)
    ensures Step(s, e).pc == Test(c) && Step(s, e).head == s.head
    ensures Room(s) ==> Room(Step(s, e)) && e != Writer
  {
  }

  lemma {:induction false} Waits(t: Trace, n: nat, m: nat, c: u8)
    requires IsRun(t) && n <= m && t.states(n).pc == Test(c)
    requires forall p: nat | n <= p <= m :: t.states(p).pc != Store(c)
    ensures t.states(m).pc == Test(c)
    ensures Room(t.states(n)) ==> Room(t.states(m))
    decreases m - n
  {
    if n < m {
      Waits(t, n, m - 1, c);
      TraceStep(t, m - 1);
      WaitStep(t.states(m - 1), t.events(m - 1), c);
    }
  }

  lemma TraceStep(t: Trace, n: nat)
    requires IsRun(t)
    ensures InRange(t.states(n)) && t.states(n + 1) == Step(t.states(n), t.events(n))
  {
  }

  lemma Served(s: State)
    requires Inv(s) && Request(s) && s.head != s.tail
    ensures var r := Step(s, Interrupt);
      r.dequeued == s.dequeued + [s.buf[s.tail]] && r.tail == Next(s.tail) && r.head == s.head
  {
  }

  /** A full ring does not block the writer for ever. */
  lemma SpinEnds(t: Trace, n: nat, c: u8)
    requires IsRun(t) && Fair(t) && t.states(n).pc == Test(c)
    ensures exists m: nat :: n < m && t.states(m).pc == Store(c)
  {
    if forall m: nat | n < m :: t.states(m).pc != Store(c) {
      // A point at which there is room, then a step of the writer there.
      var p: nat := RoomAppears(t, n, c);
      assert WriterAfter(t, p);
      var w: nat :| p <= w && t.events(w) == Writer;
      Waits(t, n, p, c);
      Waits(t, p, w, c);
      TraceStep(t, w);
      WaitStep(t.states(w), t.events(w), c);
    }
  }

  lemma RoomAppears(t: Trace, n: nat, c: u8) returns (p: nat)
    requires IsRun(t) && Fair(t) && t.states(n).pc == Test(c)
    requires forall m: nat | n < m :: t.states(m).pc != Store(c)
    ensures n <= p && Room(t.states(p))
  {
    if forall m: nat | n <= m :: !Room(t.states(m)) {
      forall m: nat | n <= m
        ensures RequestAfter(t, m)
      {
        assert EmptyAfter(t, m);
        var q: nat :| m <= q && t.states(q).holding.None?;
        Waits(t, n, q, c);
        TraceInv(t, q);
        assert Request(t.states(q));
      }
      assert ServedAfter(t, n);
      var q: nat :| n <= q && Request(t.states(q)) && t.events(q) == Interrupt;
      TraceInv(t, q);
      Served(t.states(q));
      TraceStep(t, q);
    }
    p :| n <= p && Room(t.states(p));
  }

  /** Interrupts are on, with the holding register empty, again and again. */
  ghost predicate Open(t: Trace, n: nat) {
    exists m: nat :: n <= m && t.states(m).interruptFlag && t.states(m).holding.None?
  }

  // While nothing leaves a ring that holds something, the ring stays non-empty, and a transmit
  // interrupt that is enabled stays enabled.
  lemma HoldStep(s: State, e: Event)
    requires Inv(s) && s.head != s.tail && Step(s, e).dequeued == s.dequeued
    ensures Step(s, e).head != s.tail == Step(s, e).tail
    ensures s.txInterrupt ==> Step(s, e).txInterrupt
    ensures s.pc.Kick? && !s.txInterrupt && e != Writer ==> Step(s, e).pc.Kick? && !Step(s, e).txInterrupt
    ensures s.pc.Kick? && e == Writer ==> Step(s, e).txInterrupt
  {
  }

  lemma {:induction false} Holds(t: Trace, n: nat, m: nat)
    requires IsRun(t) && n <= m && t.states(n).head != t.states(n).tail
    requires forall p: nat | n <= p <= m :: t.states(p).dequeued == t.states(n).dequeued
    ensures t.states(m).head != t.states(m).tail
    ensures t.states(n).txInterrupt ==> t.states(m).txInterrupt
    decreases m - n
  {
    if n < m {
      Holds(t, n, m - 1);
      TraceInv(t, m - 1);
      TraceStep(t, m - 1);
      HoldStep(t.states(m - 1), t.events(m - 1));
    }
  }

  // The interrupt is enabled, or the writer is about to enable it.
  lemma EnabledSoon(t: Trace, n: nat) returns (p: nat)
    requires IsRun(t) && Fair(t) && t.states(n).head != t.states(n).tail
    requires forall p: nat | n <= p :: t.states(p).dequeued == t.states(n).dequeued
    ensures n <= p && t.states(p).txInterrupt
  {
    TraceInv(t, n);
    if t.states(n).txInterrupt {
      return n;
    }
    assert WriterAfter(t, n);
    var w: nat :| n <= w && t.events(w) == Writer;
    Holds(t, n, w);
    TraceInv(t, w);
    TraceStep(t, w);
    HoldStep(t.states(w), t.events(w));
    if t.states(w).txInterrupt {
      return w;
    }
    p := w + 1;
  }

  /** Something in the ring: something will leave it. */
  lemma RingMoves(t: Trace, n: nat)
    requires IsRun(t) && Fair(t) && t.states(n).head != t.states(n).tail
    requires forall m: nat :: Open(t, m)
    ensures exists m: nat :: n < m && t.states(m).dequeued != t.states(n).dequeued
  {
    if forall m: nat | n <= m :: t.states(m).dequeued == t.states(n).dequeued {
      var p := EnabledSoon(t, n);
      Holds(t, n, p);
      forall m: nat | p <= m
        ensures RequestAfter(t, m)
      {
        assert Open(t, m);
        var q: nat :| m <= q && t.states(q).interruptFlag && t.states(q).holding.None?;
        Holds(t, p, q);
        assert Request(t.states(q));
      }
      forall m: nat | n <= m
        ensures RequestAfter(t, m)
      {
        assert RequestAfter(t, m + p);
        var q: nat :| m + p <= q && Request(t.states(q));
      }
      assert ServedAfter(t, n);
      var q: nat :| n <= q && Request(t.states(q)) && t.events(q) == Interrupt;
      Holds(t, n, q);
      TraceInv(t, q);
      TraceStep(t, q);
      Served(t.states(q));
    }
  }

  lemma {:induction false} DequeuedGrows(t: Trace, n: nat, m: nat)
    requires IsRun(t) && n <= m
    ensures t.states(n).dequeued <= t.states(m).dequeued && t.states(n).queued <= t.states(m).queued
    decreases m - n
  {
    if n < m {
      DequeuedGrows(t, n, m - 1);
      TraceStep(t, m - 1);
    }
  }

  /** Every byte that was put in the ring is eventually sent. */
  lemma {:induction false} QueuedIsSent(t: Trace, n: nat, k: nat)
    requires IsRun(t) && Fair(t) && k <= |t.states(n).queued|
    requires forall m: nat :: Open(t, m)
    ensures exists m: nat :: n <= m && t.states(n).queued[..k] <= t.states(m).dequeued
    decreases k - |t.states(n).dequeued|
  {
    var s := t.states(n);
    TraceInv(t, n);
    if k <= |s.dequeued| {
      assert s.queued[..k] == s.dequeued[..k];
      assert s.queued[..k] <= t.states(n).dequeued;
    } else {
      RingMoves(t, n);
      var m: nat :| n < m && t.states(m).dequeued != s.dequeued;
      DequeuedGrows(t, n, m);
      QueuedIsSent(t, m, k);
      var p: nat :| m <= p && t.states(m).queued[..k] <= t.states(p).dequeued;
      assert t.states(m).queued[..k] == s.queued[..k];
      assert n <= p && s.queued[..k] <= t.states(p).dequeued;
    }
  }

  // With interrupts off only the writer fills the holding register.
  lemma PollWaits(s: State, e: Event, c: u8)
    requires Inv(s) && s.pc == Poll(c)
    ensures e == Writer && s.holding.None? ==> Step(s, e).pc.Idle? && Step(s, e).direct == s.direct + [c]
    ensures e != Writer || s.holding.Some? ==> Step(s, e).pc == Poll(c) && Step(s, e).direct == s.direct
    ensures e != Writer && s.holding.None? ==> Step(s, e).holding.None?
  {
  }

  /** The byte of a polling writer has been sent directly, at `m`. */
  predicate SentAt(t: Trace, n: nat, m: nat, c: u8) {
    n < m && t.states(m).pc.Idle? && t.states(m).direct == t.states(n).direct + [c]
  }

  predicate StillPolls(t: Trace, n: nat, m: nat, c: u8) {
    && t.states(m).pc == Poll(c) && t.states(m).direct == t.states(n).direct
    && (t.states(n).holding.None? ==> t.states(m).holding.None?)
  }

  lemma {:induction false} Polls(t: Trace, n: nat, m: nat, c: u8) returns (q: nat)
    requires IsRun(t) && n <= m && t.states(n).pc == Poll(c)
    ensures SentAt(t, n, q, c) || (StillPolls(t, n, m, c) && q == m)
    decreases m - n
  {
    q := m;
    if n < m {
      q := Polls(t, n, m - 1, c);
      if !SentAt(t, n, q, c) {
        TraceInv(t, m - 1);
        TraceStep(t, m - 1);
        PollWaits(t.states(m - 1), t.events(m - 1), c);
        q := m;
      }
    }
  }

  /** A writer that polls does not wait for ever either. */
  lemma PollEnds(t: Trace, n: nat, c: u8) returns (m: nat)
    requires IsRun(t) && Fair(t) && t.states(n).pc == Poll(c)
    ensures SentAt(t, n, m, c)
  {
    assert EmptyAfter(t, n);
    var p: nat :| n <= p && t.states(p).holding.None?;
    m := Polls(t, n, p, c);
    if !SentAt(t, n, m, c) {
      assert WriterAfter(t, p);
      var w: nat :| p <= w && t.events(w) == Writer;
      m := Polls(t, p, w, c);
      if !SentAt(t, p, m, c) {
        TraceInv(t, w);
        TraceStep(t, w);
        PollWaits(t.states(w), t.events(w), c);
        m := w + 1;
      }
    }
  }
}
