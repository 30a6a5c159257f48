/** The modifier flags of the BIOS data area (keyboard.c) as a summary of the scan codes so far. */
module Keyboard {
  import opened Types

  // Scan codes of the keys; a break code is the make code with the top bit set.
  const LEFT_CTRL: u8 := 0x1D
  const LEFT_SHIFT: u8 := 0x2A
  const RIGHT_SHIFT: u8 := 0x36
  const LEFT_ALT: u8 := 0x38
  const CAPS_LOCK: u8 := 0x3A
  const NUM_LOCK: u8 := 0x45
  const SCROLL_LOCK: u8 := 0x46
  const INSERT: u8 := 0x52

  function Break(key: u8): nat {
    key + 0x80
  }

  // ----- what the flags ought to say -----

  /** The last event of a key was a make. */
  ghost predicate Held(codes: seq<u8>, key: u8) {
    exists i :: LastMake(codes, key, i)
  }

  ghost predicate LastMake(codes: seq<u8>, key: u8, i: int) {
    0 <= i < |codes| && codes[i] == key && forall j | i < j < |codes| :: codes[j] != key && codes[j] != Break(key)
  }

  predicate Odd(codes: seq<u8>, key: u8) {
    multiset(codes)[key] % 2 == 1
  }

  /** The codes since the last break of a key. */
  function SinceBreak(codes: seq<u8>, key: u8): seq<u8> {
    if codes == [] || codes[|codes| - 1] == Break(key) then []
    else SinceBreak(codes[..|codes| - 1], key) + [codes[|codes| - 1]]
  }

  /** A suffix without a break of the key, which starts at the beginning or after one. */
  predicate IsSinceBreak(codes: seq<u8>, r: seq<u8>, key: u8) {
    && |r| <= |codes| && codes[|codes| - |r|..] == r && Break(key) !in r
    && (|r| < |codes| ==> codes[|codes| - |r| - 1] == Break(key))
  }

  lemma {:induction false} SinceBreakIs(codes: seq<u8>, key: u8)
    ensures IsSinceBreak(codes, SinceBreak(codes, key), key)
  {
    if codes == [] || codes[|codes| - 1] == Break(key) {
      EmptySuffix(codes, key);
    } else {
      var front, last := codes[..|codes| - 1], codes[|codes| - 1];
      SinceBreakIs(front, key);
      SuffixGrows(front, last, SinceBreak(front, key), key);
      assert front + [last] == codes;
    }
  }

  lemma EmptySuffix(codes: seq<u8>, key: u8)
    requires codes == [] || codes[|codes| - 1] == Break(key)
    ensures IsSinceBreak(codes, [], key)
  {
  }

  lemma SuffixGrows(front: seq<u8>, last: u8, r: seq<u8>, key: u8)
    requires IsSinceBreak(front, r, key) && last != Break(key)
    ensures IsSinceBreak(front + [last], r + [last], key)
  {
    var codes, n := front + [last], |front| - |r|;
    assert codes[n..] == front[n..] + [last];
    if n > 0 {
      assert codes[n - 1] == front[n - 1];
    }
  }

  // ----- what the handler does -----

  /** x ^ mask, for a byte of flags as the set of the one-bit masks that are set in it. */
  function Flipped(x: set<u8>, mask: u8): set<u8> {
    if mask in x then x - {mask} else x + {mask}
  }

  /** The two bytes of flags.  Setting, clearing and testing a mask are +, - and `in`. */
  datatype Flags = Flags(xt: set<u8>, at: set<u8>) {
    /** The masks that are in use. */
    predicate IsTwoBytes() {
      && xt <= {0x01, 0x02, 0x04, 0x08, 0x10, 0x20, 0x40, 0x80}
      && at <= {0x01, 0x02, 0x10, 0x20, 0x40}
    }

    function Released(code: u8): Flags {
      if code == LEFT_SHIFT then this.(xt := xt - {0x02})
      else if code == RIGHT_SHIFT then this.(xt := xt - {0x01})
      else if code == LEFT_CTRL then Flags(xt - {0x04}, at - {0x01})
      else if code == LEFT_ALT then Flags(xt - {0x08}, at - {0x02})
      else if code == SCROLL_LOCK then this.(at := at - {0x10})
      else if code == NUM_LOCK then this.(at := at - {0x20})
      else if code == CAPS_LOCK then this.(at := at - {0x40})
      else if code == INSERT then this.(xt := xt - {0x80})
      else this
    }

    function Pressed(code: u8): Flags {
      if code == LEFT_SHIFT then this.(xt := xt + {0x02})
      else if code == RIGHT_SHIFT then this.(xt := xt + {0x01})
      else if code == LEFT_CTRL then Flags(xt + {0x04}, at + {0x01})
      else if code == LEFT_ALT then Flags(xt + {0x08}, at + {0x02})
      else if code == SCROLL_LOCK then Flags(Flipped(xt, 0x10), at + {0x10})
      else if code == NUM_LOCK then Flags(Flipped(xt, 0x20), at + {0x20})
      else if code == CAPS_LOCK then Flags(Flipped(xt, 0x40), at + {0x40})
      else if code == INSERT then this.(xt := Flipped(xt, 0x80))
      else this
    }

    function After(code: u8): Flags {
      if code >= 0x80 then Released(code - 0x80) else Pressed(code)
    }
  }

  function FlagsOf(codes: seq<u8>): Flags {
    if codes == [] then Flags({}, {}) else FlagsOf(codes[..|codes| - 1]).After(codes[|codes| - 1])
  }

  /** By scan code: the shifts are 2Ah and 36h, control 1Dh, alt 38h, scroll lock 46h, num lock 45h, caps
      lock 3Ah and insert 52h. */
  ghost predicate HeldBits(f: Flags, codes: seq<u8>) {
    && (0x02 in f.xt <==> Held(codes, 0x2A))
    && (0x01 in f.xt <==> Held(codes, 0x36))
    && (0x04 in f.xt <==> Held(codes, 0x1D))
    && (0x08 in f.xt <==> Held(codes, 0x38))
    && (0x01 in f.at <==> Held(codes, 0x1D))
    && (0x02 in f.at <==> Held(codes, 0x38))
    && (0x10 in f.at <==> Held(codes, 0x46))
    && (0x20 in f.at <==> Held(codes, 0x45))
    && (0x40 in f.at <==> Held(codes, 0x3A))
    && f.IsTwoBytes()
  }

  predicate ToggledBits(f: Flags, codes: seq<u8>) {
    && (0x10 in f.xt <==> Odd(codes, 0x46))
    && (0x20 in f.xt <==> Odd(codes, 0x45))
    && (0x40 in f.xt <==> Odd(codes, 0x3A))
    && (0x80 in f.xt <==> Odd(SinceBreak(codes, 0x52), 0x52))
  }

  lemma HeldStep(codes: seq<u8>, code: u8, key: u8)
    requires key < 0x80
    ensures Held(codes + [code], key) <==>
      code == key || (code != Break(key) && Held(codes, key))
  {
    var now := codes + [code];
    if code == key {
      assert LastMake(now, key, |codes|);
    } else if code != Break(key) && Held(codes, key) {
      var i :| LastMake(codes, key, i);
      assert LastMake(now, key, i);
    } else if Held(now, key) {
      var i :| LastMake(now, key, i);
      assert now[|codes|] == code && i < |codes|;
      assert forall j | i < j < |codes| :: now[j] == codes[j];
      assert LastMake(codes, key, i);
    }
  }

  lemma OddStep(codes: seq<u8>, code: u8, key: u8)
    ensures Odd(codes + [code], key) == (Odd(codes, key) != (code == key))
    ensures SinceBreak(codes + [code], key) == if code == Break(key) then [] else SinceBreak(codes, key) + [code]
  {
    assert (codes + [code])[..|codes|] == codes;
  }

  /** After any scan codes from cleared flags, every flag is what the history says: shift, control
      and alt, and the pressed bits of the locks, that the key was last made; the locks, that it was
      made an odd number of times; insert, the same since its last break.  There are no other flags
      and no other key has a part in them. */
  lemma {:induction false} FlagsSummarise(codes: seq<u8>)
    ensures HeldBits(FlagsOf(codes), codes) && ToggledBits(FlagsOf(codes), codes)
  {
    if codes != [] {
      var front, code := codes[..|codes| - 1], codes[|codes| - 1];
      FlagsSummarise(front);
      assert codes == front + [code];
      StepHeld(FlagsOf(front), front, code);
      StepToggled(FlagsOf(front), front, code);
    }
  }

  /** A bit that follows its key. */
  predicate Follows(was: bool, now: bool, code: u8, key: u8) {
    now == (code == key || (code != Break(key) && was))
  }

  lemma ShiftBits(f: Flags, code: u8)
    ensures Follows(0x02 in f.xt, 0x02 in f.After(code).xt, code, LEFT_SHIFT)
    ensures Follows(0x01 in f.xt, 0x01 in f.After(code).xt, code, RIGHT_SHIFT)
  {
  }

  lemma CtrlBits(f: Flags, code: u8)
    ensures Follows(0x04 in f.xt, 0x04 in f.After(code).xt, code, LEFT_CTRL)
    ensures Follows(0x01 in f.at, 0x01 in f.After(code).at, code, LEFT_CTRL)
  {
  }

  lemma AltBits(f: Flags, code: u8)
    ensures Follows(0x08 in f.xt, 0x08 in f.After(code).xt, code, LEFT_ALT)
    ensures Follows(0x02 in f.at, 0x02 in f.After(code).at, code, LEFT_ALT)
  {
  }

  lemma PressedBits(f: Flags, code: u8)
    ensures Follows(0x10 in f.at, 0x10 in f.After(code).at, code, SCROLL_LOCK)
    ensures Follows(0x20 in f.at, 0x20 in f.After(code).at, code, NUM_LOCK)
    ensures Follows(0x40 in f.at, 0x40 in f.After(code).at, code, CAPS_LOCK)
    ensures f.IsTwoBytes() ==> f.After(code).IsTwoBytes()
  {
  }

  lemma LockBits(f: Flags, code: u8)
    ensures 0x10 in f.After(code).xt <==> (0x10 in f.xt) != (code == SCROLL_LOCK)
    ensures 0x20 in f.After(code).xt <==> (0x20 in f.xt) != (code == NUM_LOCK)
    ensures 0x40 in f.After(code).xt <==> (0x40 in f.xt) != (code == CAPS_LOCK)
  {
  }

  lemma InsertBit(f: Flags, code: u8)
    ensures 0x80 in f.After(code).xt <==> code != Break(INSERT) && (0x80 in f.xt) != (code == INSERT)
  {
  }

  lemma StepHeld(f: Flags, codes: seq<u8>, code: u8)
    requires HeldBits(f, codes)
    ensures HeldBits(f.After(code), codes + [code])
  {
    ShiftBits(f, code);
    CtrlBits(f, code);
    AltBits(f, code);
    PressedBits(f, code);
    HeldStep(codes, code, LEFT_SHIFT);
    HeldStep(codes, code, RIGHT_SHIFT);
    HeldStep(codes, code, LEFT_CTRL);
    HeldStep(codes, code, LEFT_ALT);
    HeldStep(codes, code, SCROLL_LOCK);
    HeldStep(codes, code, NUM_LOCK);
    HeldStep(codes, code, CAPS_LOCK);
  }

  lemma StepToggled(f: Flags, codes: seq<u8>, code: u8)
    requires ToggledBits(f, codes)
    ensures ToggledBits(f.After(code), codes + [code])
  {
    LockBits(f, code);
    InsertBit(f, code);
    OddStep(codes, code, SCROLL_LOCK);
    OddStep(codes, code, NUM_LOCK);
    OddStep(codes, code, CAPS_LOCK);
    OddStep(codes, code, INSERT);
    OddStep(SinceBreak(codes, INSERT), code, INSERT);
  }

  class DataArea {
    var xt: set<u8>
    var at: set<u8>

    constructor ()
      ensures Flags(xt, at) == FlagsOf([])
    {
      xt, at := {}, {};
    }

    method ProcessKeystroke(scancode: u8)
      modifies this
      ensures Flags(xt, at) == old(Flags(xt, at)).After(scancode)
    {
      if scancode >= 0x80 {
        KeyUp(scancode - 0x80);
      } else {
        KeyDown(scancode);
      }
    }

    method KeyUp(key: u8)
      modifies this
      ensures Flags(xt, at) == old(Flags(xt, at)).Released(key)
    {
      match key {
        case 0x2A => xt := xt - {0x02};
        case 0x36 => xt := xt - {0x01};
        case 0x1D =>
          xt := xt - {0x04};
          at := at - {0x01};
        case 0x38 =>
          xt := xt - {0x08};
          at := at - {0x02};
        case 0x46 => at := at - {0x10};
        case 0x45 => at := at - {0x20};
        case 0x3A => at := at - {0x40};
        case 0x52 => xt := xt - {0x80};
        case _ =>
      }
    }

    method KeyDown(key: u8)
      modifies this
      ensures Flags(xt, at) == old(Flags(xt, at)).Pressed(key)
    {
      match key {
        case 0x2A => xt := xt + {0x02};
        case 0x36 => xt := xt + {0x01};
        case 0x1D =>
          xt := xt + {0x04};
          at := at + {0x01};
        case 0x38 =>
          xt := xt + {0x08};
          at := at + {0x02};
        case 0x46 =>
          xt := Flipped(xt, 0x10);
          at := at + {0x10};
        case 0x45 =>
          xt := Flipped(xt, 0x20);
          at := at + {0x20};
        case 0x3A =>
          xt := Flipped(xt, 0x40);
          at := at + {0x40};
        case 0x52 => xt := Flipped(xt, 0x80);
        case _ =>
      }
    }

    /** Any sequence of keystrokes from cleared flags. */
    method ProcessAll(codes: seq<u8>)
      requires Flags(xt, at) == FlagsOf([])
      modifies this
      ensures HeldBits(Flags(xt, at), codes) && ToggledBits(Flags(xt, at), codes)
    {
      for n := 0 to |codes|
        invariant Flags(xt, at) == FlagsOf(codes[..n])
      {
        assert codes[..n + 1][..n] == codes[..n];
        ProcessKeystroke(codes[n]);
      }
      assert codes[..|codes|] == codes;
      FlagsSummarise(codes);
    }
  }
}
