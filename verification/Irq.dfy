/** IRQ registration, dispatch and acknowledgement (interrupt.c) on two cascaded 8259s. */
module Irq {
  import opened Types
  import Serial

  /** A handler, and how many end-of-interrupt commands of its own it gives the master. */
  datatype Handler = Handler(id: nat, eois: nat)

  /** serial_write_available_handler ends its interrupt itself (SerialInterrupt, below). */
  const SERIAL := Handler(4, 1)
  type Line = n: nat | n < 16

  const CASCADE: nat := 2
  const PROTECTED_BASE: nat := 0x20

  /** The vector at which the PICs deliver in real mode, and that of the registration. */
  function RealVector(irq: nat): nat {
    if irq < 8 then 0x08 + irq else 0x70 + (irq - 8)
  }

  function RealRegistered(irq: nat): nat {
    if irq >= 8 then irq + 0x70 else irq + 0x8
  }

  /** In real mode the vectors agree for the master's lines only. */
  lemma RealModeRouting(irq: nat, other: nat)
    requires irq < 16 && other < 16
    ensures RealVector(irq) == RealRegistered(other) <==> irq == other < 8
  {
  }

  // ----- in-service bits -----

  /** The line of highest priority: the lowest number, from `k` on. */
  function Highest(s: set<nat>, k: nat): (r: nat)
    requires exists x :: x in s && k <= x
    ensures r in s && k <= r && forall x | x in s && k <= x :: r <= x
    decreases Bound(s) - k
  {
    assert k <= Bound(s);
    if k in s then k else Highest(s, k + 1)
  }

  ghost function Bound(s: set<nat>): (r: int)
    ensures forall x | x in s :: x <= r
  {
    if s == {} then 0
    else
      var x :| x in s;
      var r := Bound(s - {x});
      assert forall y | y in s :: y == x || y in s - {x};
      if x > r then x else r
  }

  /** A non-specific end of interrupt. */
  function Ended(s: set<nat>): set<nat> {
    if s == {} then {} else
    assert exists x :: x in s && 0 <= x by { var x :| x in s; assert x in s && 0 <= x; }
    s - {Highest(s, 0)}
  }

  function EndedTimes(s: set<nat>, n: nat): (r: set<nat>)
    ensures r <= s
  {
    if n == 0 then s else EndedTimes(Ended(s), n - 1)
  }

  /** Ending interrupts that are not one's own is without effect when there are none, and only then. */
  lemma ForeignEnds(s: set<nat>, n: nat)
    ensures EndedTimes(s, n) == s <==> n == 0 || s == {}
  {
    if n > 0 {
      assert EndedTimes(s, n) <= Ended(s);
    }
  }

  /** Were the serial handler to interrupt others, it would take one of them out of service. */
  lemma SerialEndsAnother(s: set<nat>)
    requires s != {}
    ensures EndedTimes(s, SERIAL.eois) == Ended(s) < s
  {
    assert EndedTimes(s, 1) == EndedTimes(Ended(s), 0);
  }

  /** A line may interrupt when nothing of its priority or a higher one is in service. */
  predicate Above(irq: nat, s: set<nat>) {
    forall x | x in s :: irq < x
  }

  lemma EndsOwn(irq: nat, s: set<nat>)
    requires Above(irq, s)
    ensures Ended(s + {irq}) == s
  {
    assert irq in s + {irq};
    assert Highest(s + {irq}, 0) == irq;
    assert s + {irq} - {irq} == s;
  }

  function MasterLine(irq: nat): nat {
    if irq < 8 then irq else CASCADE
  }

  class Controller {
    var master: set<nat>
    var slave: set<nat>
    var irqHandlers: seq<Option<Handler>>
    var vectors: map<nat, nat>   // protected-mode vectors to the IRQ that they are dispatched with
    var called: seq<Handler>

    predicate Valid()
      reads this
    {
      |irqHandlers| == 16 && forall v | v in vectors :: vectors[v] < 16 && v == PROTECTED_BASE + vectors[v]
    }

    constructor ()
      ensures Valid() && master == {} && slave == {} && called == []
      ensures forall irq | 0 <= irq < 16 :: Registered(irq) == None
    {
      master, slave, irqHandlers, vectors, called := {}, {}, seq(16, _ => None), map[], [];
    }

    /** The handler that an interrupt of a line reaches. */
    function Registered(irq: nat): Option<Handler>
      requires Valid() && irq < 16
      reads this
    {
      if PROTECTED_BASE + irq in vectors then irqHandlers[irq] else None
    }

    method SetIrqHandler(irq: nat, handler: Handler)
      requires Valid() && irq < 16
      modifies this`irqHandlers, this`vectors
      ensures Valid()
      ensures forall i | 0 <= i < 16 :: Registered(i) == if i == irq then Some(handler) else old(Registered(i))
    {
      irqHandlers := irqHandlers[irq := Some(handler)];
      vectors := vectors[irq + 0x20 := irq];
    }

    method EndMaster()
      modifies this`master
      ensures master == Ended(old(master))
    {
      master := Ended(master);
    }

    method EndMasterTimes(n: nat)
      modifies this`master
      ensures master == EndedTimes(old(master), n)
    {
      for i := 0 to n
        invariant EndedTimes(master, n - i) == EndedTimes(old(master), n)
      {
        EndMaster();
      }
    }

    method Call(handler: Handler)
      modifies this`master, this`called
      ensures master == EndedTimes(old(master), handler.eois) && called == old(called) + [handler]
    {
      called := called + [handler];
      EndMasterTimes(handler.eois);
    }

    method HandleIrq(irq: nat)
      requires Valid() && irq < 16
      modifies this`master, this`slave, this`called
      ensures var h := irqHandlers[irq];
        && master == Ended(EndedTimes(old(master), if h.Some? then h.value.eois else 0))
        && slave == (if irq >= 8 then Ended(old(slave)) else old(slave))
        && called == old(called) + if h.Some? then [h.value] else []
    {
      if irqHandlers[irq].Some? {
        Call(irqHandlers[irq].value);
      }
      if irq >= 8 {
        slave := Ended(slave);
      }
      EndMaster();
    }

    /** A line is put in service and its vector dispatched.  The line's own handler is called, once,
        and the line ends up out of service.  Interrupts that were in service stay so exactly when
        the handler ends no more than its own, or there were none on the master. */
    method Interrupt(irq: nat)
      requires Valid() && irq < 16 && PROTECTED_BASE + irq in vectors
      requires Above(MasterLine(irq), master) && (irq >= 8 ==> Above(irq - 8, slave))
      modifies this`master, this`slave, this`called
      ensures Valid() && slave == old(slave)
      ensures var h := Registered(irq);
        && called == (old(called) + if h.Some? then [h.value] else [])
        && (master == old(master) <==> h == None || h.value.eois == 0 || old(master) == {})
    {
      ghost var m, s := master, slave;
      master := master + {MasterLine(irq)};
      if irq >= 8 {
        slave := slave + {irq - 8};
        EndsOwn(irq - 8, s);
      }
      HandleIrq(vectors[PROTECTED_BASE + irq]);
      EndsOwn(MasterLine(irq), m);
      ghost var n := if irqHandlers[irq].Some? then irqHandlers[irq].value.eois else 0;
      EndsCommute(m + {MasterLine(irq)}, n);
      ForeignEnds(m, n);
    }

    /** An interrupt of the serial line with the handler of serial.c itself: it does its step, and ends
        one interrupt more than its own. */
    method SerialInterrupt(port: Serial.Port)
      requires Valid() && Registered(SERIAL.id) == Some(SERIAL) && Above(SERIAL.id, master)
      requires port.Valid() && port.buffered
      modifies this`master, this`called, port
      ensures Valid() && port.Valid() && port.View() == Serial.Handler(old(port.View()))
      ensures master == Ended(old(master)) && called == old(called) + [SERIAL]
      ensures port.eois == old(port.eois) + SERIAL.eois
    {
      ghost var m := master;
      master := master + {SERIAL.id};
      EndsOwn(SERIAL.id, m);
      called := called + [SERIAL];
      var before := port.eois;
      port.WriteAvailableHandler();
      EndMasterTimes(port.eois - before);
      assert EndedTimes(m + {SERIAL.id}, 1) == EndedTimes(m, 0);
      EndMaster();
    }

    /** Handlers run one at a time: between interrupts nothing is in service, the serial handler's
        second end of interrupt included. */
    method Serve(irqs: seq<Line>)
      requires Valid() && master == {} && slave == {}
      requires forall i | 0 <= i < |irqs| :: PROTECTED_BASE + irqs[i] in vectors
      modifies this`master, this`slave, this`called
      ensures Valid() && master == {} && slave == {}
      ensures called == old(called) + Handlers(irqHandlers, irqs)
    {
      for n := 0 to |irqs|
        invariant Valid() && master == {} && slave == {}
        invariant called == old(called) + Handlers(irqHandlers, irqs[..n])
      {
        assert irqs[..n + 1][..n] == irqs[..n];
        Interrupt(irqs[n]);
      }
      assert irqs[..|irqs|] == irqs;
    }
  }

  /** The handlers that a table has for a sequence of lines. */
  function Handlers(table: seq<Option<Handler>>, irqs: seq<Line>): seq<Handler>
    requires |table| == 16
  {
    if irqs == [] then []
    else
      var h := table[irqs[|irqs| - 1]];
      Handlers(table, irqs[..|irqs| - 1]) + if h.Some? then [h.value] else []
  }

  lemma {:induction false} EndsCommute(s: set<nat>, n: nat)
    ensures Ended(EndedTimes(s, n)) == EndedTimes(Ended(s), n)
  {
    if n > 0 {
      EndsCommute(Ended(s), n - 1);
    }
  }
}
