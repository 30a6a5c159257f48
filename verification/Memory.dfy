/** memcpy (util.h) on flat memory. */
module Memory {
  import opened Types

  /** Byte `i` of a copy that runs upwards in units of `w` bytes: where the source is a byte that an
      earlier unit has already written, the copy of that one. */
  function Copied(m: seq<u8>, dest: nat, src: nat, w: nat, i: nat): u8
    requires w > 0 && src + i < |m|
    decreases i
  {
    var a := src + i;
    if dest <= a < dest + i / w * w then
      UnitStart(i, w);
      Copied(m, dest, src, w, a - dest)
    else m[a]
  }

  lemma UnitStart(i: nat, w: nat)
    requires w > 0
    ensures 0 <= i / w * w <= i < i / w * w + w
  {
  }

  /** That is the source, unless the destination starts inside it. */
  lemma CopiedIsSource(m: seq<u8>, dest: nat, src: nat, w: nat, len: nat, i: nat)
    requires w > 0 && i < len && src + len <= |m| && (dest <= src || src + len <= dest)
    ensures Copied(m, dest, src, w, i) == m[src + i]
  {
    UnitStart(i, w);
  }

  /** When the destination starts `d` bytes inside the source, and no unit reaches into it, the copy
      repeats the first `d` bytes. */
  lemma {:induction false} CopyRepeats(m: seq<u8>, src: nat, d: nat, w: nat, i: nat)
    requires 0 < w <= d && src + i < |m|
    ensures Copied(m, src + d, src, w, i) == m[src + i % d]
    decreases i
  {
    var unit := i / w * w;
    UnitStart(i, w);
    if i >= d {
      assert src + d <= src + i < src + d + unit;
      CopyRepeats(m, src, d, w, i - d);
      assert Copied(m, src + d, src, w, i) == Copied(m, src + d, src, w, i - d);
      SameRest(i, d);
    } else {
      SmallRest(i, d);
    }
  }

  lemma SmallRest(i: nat, d: nat)
    requires i < d
    ensures i % d == i
  {
  }

  lemma SameRest(i: nat, d: nat)
    requires 0 < d <= i
    ensures (i - d) % d == i % d
  {
    var q, r := i / d, i % d;
    assert i == q * d + r;
    assert q > 0;
    assert (q - 1) * d == q * d - d;
    MulMod(i - d, q - 1, d, r);
  }

  ghost predicate CopiedUpTo(was: seq<u8>, mem: array<u8>, dest: nat, src: nat, w: nat, n: nat)
    requires w > 0 && src + n <= |was| == mem.Length
    reads mem
  {
    && (forall j | dest <= j < dest + n && j < mem.Length :: mem[j] == Copied(was, dest, src, w, j - dest))
    && (forall j | 0 <= j < mem.Length && !(dest <= j < dest + n) :: mem[j] == was[j])
  }

  /** The bytes of the next unit, as they are read. */
  lemma UnitByte(was: seq<u8>, mem: array<u8>, dest: nat, src: nat, n: nat, k: nat)
    requires n % 4 == 0 && k < 4 && dest + n + 4 <= mem.Length == |was| && src + n + 4 <= mem.Length
    requires CopiedUpTo(was, mem, dest, src, 4, n)
    ensures mem[src + n + k] == Copied(was, dest, src, 4, n + k)
  {
    assert (n + k) / 4 * 4 == n;
  }

  method CopyDword(ghost was: seq<u8>, mem: array<u8>, dest: nat, src: nat, n: nat)
    requires n % 4 == 0 && dest + n + 4 <= mem.Length == |was| && src + n + 4 <= mem.Length
    requires CopiedUpTo(was, mem, dest, src, 4, n)
    modifies mem
    ensures CopiedUpTo(was, mem, dest, src, 4, n + 4)
  {
    var s, d := src + n, dest + n;
    var b0, b1, b2, b3 := mem[s], mem[s + 1], mem[s + 2], mem[s + 3];
    UnitByte(was, mem, dest, src, n, 0);
    UnitByte(was, mem, dest, src, n, 1);
    UnitByte(was, mem, dest, src, n, 2);
    UnitByte(was, mem, dest, src, n, 3);
    mem[d], mem[d + 1], mem[d + 2], mem[d + 3] := b0, b1, b2, b3;
    forall j | dest <= j < dest + n + 4
      ensures mem[j] == Copied(was, dest, src, 4, j - dest)
    {
      if j < d {
        assert mem[j] == old(mem[j]);
      } else {
        assert j == d || j == d + 1 || j == d + 2 || j == d + 3;
      }
    }
  }

  method CopyByte(ghost was: seq<u8>, mem: array<u8>, dest: nat, src: nat, n: nat)
    requires dest + n + 1 <= mem.Length == |was| && src + n + 1 <= mem.Length
    requires CopiedUpTo(was, mem, dest, src, 1, n)
    modifies mem
    ensures CopiedUpTo(was, mem, dest, src, 1, n + 1)
  {
    mem[dest + n] := mem[src + n];
  }

  /** The copy runs upwards, by dwords or by bytes.  The halfword loop is chosen for lengths of the
      form 4k + 1 alone. */
  method MemCpy(mem: array<u8>, dest: nat, src: nat, len: u32)
    requires len % 4 != 1 && dest + len <= mem.Length && src + len <= mem.Length
    modifies mem
    ensures CopiedUpTo(old(mem[..]), mem, dest, src, if len % 4 == 0 then 4 else 1, len)
  {
    ghost var was := mem[..];
    var n: nat, left: nat := 0, len;
    if len % 4 == 0 {
      while left > 0
        invariant n + left == len && left % 4 == 0 && CopiedUpTo(was, mem, dest, src, 4, n)
      {
        CopyDword(was, mem, dest, src, n);
        n, left := n + 4, left - 4;
      }
    } else {
      while left > 0
        invariant n + left == len && CopiedUpTo(was, mem, dest, src, 1, n)
      {
        CopyByte(was, mem, dest, src, n);
        n, left := n + 1, left - 1;
      }
    }
  }

  /** In the halfword loop the unsigned counter goes down by two and never meets zero. */
  lemma HalfwordsNeverEnd(len: u32, k: nat)
    requires len % 4 == 1
    ensures (len - 2 * k) % U32 != 0
  {
    var q := (len - 2 * k) / U32;
    assert len - 2 * k == q * U32 + (len - 2 * k) % U32;
    assert len == 2 * (len / 2) + 1;
    assert q * U32 == 2 * (q * 0x8000_0000);
  }
}
