/** Integer widths of types.h, dwords as byte lanes, and powers of two. */
module Types {
  const U32: int := 0x1_0000_0000

  type u8 = x: int | 0 <= x < 0x100
  type u16 = x: int | 0 <= x < 0x1_0000
  type u32 = x: int | 0 <= x < 0x1_0000_0000

  datatype Option<+T> = None | Some(value: T)

  /** A dword as its four byte lanes, the least significant first. */
  datatype Dword = Dword(b0: u8, b1: u8, b2: u8, b3: u8) {
    function Lane(n: nat): u8
      requires n < 4
    {
      if n == 0 then b0 else if n == 1 then b1 else if n == 2 then b2 else b3
    }

    function WithLane(n: nat, b: u8): Dword
      requires n < 4
    {
      if n == 0 then this.(b0 := b) else if n == 1 then this.(b1 := b)
      else if n == 2 then this.(b2 := b) else this.(b3 := b)
    }

    function Value(): u32 {
      b0 + 0x100 * Tail1()
    }

    function Tail1(): nat {
      b1 + 0x100 * Tail2()
    }

    function Tail2(): nat {
      b2 + 0x100 * b3
    }
  }

  /** v >> 8 * n */
  function ShiftRight(v: nat, n: nat): nat {
    if n == 0 then v else ShiftRight(v / 0x100, n - 1)
  }

  /** (v & ~(0xFF << 8 * n)) | (b << 8 * n) */
  function Replace(v: nat, n: nat, b: u8): nat {
    if n == 0 then v - v % 0x100 + b else v % 0x100 + 0x100 * Replace(v / 0x100, n - 1, b)
  }

  // Selecting and replacing lanes are the shift and the mask of the source.
  lemma LaneIsShift(d: Dword, n: nat)
    requires n < 4
    ensures ShiftRight(d.Value(), n) % 0x100 == d.Lane(n)
  {
    Tails(d);
    assert ShiftRight(d.Value(), 1) == d.Tail1();
    assert n >= 2 ==> ShiftRight(d.Value(), n) == ShiftRight(d.Tail1(), n - 1) == ShiftRight(d.Tail2(), n - 2);
    assert ShiftRight(d.Tail2(), 1) == ShiftRight(d.b3, 0);
  }

  lemma UpdateIsReplace(d: Dword, n: nat, b: u8)
    requires n < 4
    ensures Replace(d.Value(), n, b) == d.WithLane(n, b).Value()
  {
    Tails(d);
    if n > 0 {
      assert Replace(d.Value(), n, b) == d.b0 + 0x100 * Replace(d.Tail1(), n - 1, b);
      if n > 1 {
        assert Replace(d.Tail1(), n - 1, b) == d.b1 + 0x100 * Replace(d.Tail2(), n - 2, b);
        if n > 2 {
          assert Replace(d.Tail2(), n - 2, b) == d.b2 + 0x100 * Replace(d.b3, n - 3, b);
        }
      }
    }
  }

  lemma Tails(d: Dword)
    ensures d.Value() / 0x100 == d.Tail1() && d.Tail1() / 0x100 == d.Tail2() && d.Tail2() / 0x100 == d.b3
  {
  }

  function Pow2(k: nat): nat {
    if k == 0 then 1 else 2 * Pow2(k - 1)
  }

  lemma {:induction false} Pow2Sum(a: nat, b: nat)
    ensures Pow2(a + b) == Pow2(a) * Pow2(b)
    ensures Pow2(a) > 0
  {
    if a > 0 {
      Pow2Sum(a - 1, b);
      assert Pow2(a + b) == 2 * Pow2(a - 1 + b);
      assert Pow2(a) * Pow2(b) == 2 * (Pow2(a - 1) * Pow2(b));
    }
  }

  lemma MulMod(x: int, q: int, c: int, r: int)
    requires 0 <= r < c && x == q * c + r
    ensures x % c == r && x / c == q
  {
    var q' := x / c;
    assert x == q' * c + x % c;
    assert (q - q') * c == x % c - r;
    assert (q' - q) * c == r - x % c;
    if q > q' {
      MulAtLeast(q - q', c);
    } else if q < q' {
      MulAtLeast(q' - q, c);
    }
  }

  lemma MinusOneMod(p: int, q: int)
    requires p > 0 && q > 0
    ensures (q * p - 1) % p == p - 1
  {
    assert q * p - 1 == (q - 1) * p + (p - 1);
    MulMod(q * p - 1, q - 1, p, p - 1);
  }

  lemma MulAtLeast(n: int, c: int)
    requires n >= 1 && c > 0
    ensures n * c >= c
  {
    assert n * c == c + (n - 1) * c;
  }

  // ----- bytes as numbers and as bits -----

  lemma {:induction false} RoundTrip(b: nat)
    requires b < 0x100
    ensures (b as bv8) as int == b
  {
    if b > 0 {
      RoundTrip(b - 1);
      var x := (b - 1) as bv8;
      assert x != 0xFF;
      Successor(x);
      FromInt(x + 1, b);
    }
  }

  lemma Successor(x: bv8)
    requires x != 0xFF
    ensures (x + 1) as int == x as int + 1
  {
  }

  lemma FromInt(x: bv8, b: int)
    requires x as int == b
    ensures b as bv8 == x
  {
  }
}
