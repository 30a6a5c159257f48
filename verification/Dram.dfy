/** RAM probing (post.c) and DRAM configuration (chipsets/um82c480.c) on a board whose memory
    controller decides, by its configuration register, which cell an address reaches. */
module Dram {
  import opened Types

  const FLOATING: u32 := 0xFFFF_FFFF
  const MEGABYTE: nat := 0x10_0000
  const PROBE_DISTANCE: nat := 0x8_0000
  const SANITY: nat := 0x1000
  const PATTERN: u32 := 0xAA55_AA55
  const INVERSE: u32 := 0x55AA_55AA

  // ----- probe points -----

  /** The last dword of the `k`th stride from `start` on. */
  function Point(start: nat, stride: nat, k: nat): int {
    start + stride * k + stride - 4
  }

  /** How many consecutive points are backed by memory, from the `k`th on. */
  function Leading(backed: int -> bool, start: nat, stride: nat, k: nat): nat
    requires stride >= 4
    decreases U32 - Point(start, stride, k)
  {
    if Point(start, stride, k) >= U32 || !backed(Point(start, stride, k)) then 0
    else
      assert stride * (k + 1) == stride * k + stride;
      1 + Leading(backed, start, stride, k + 1)
  }

  /** The points end before the address space does. */
  predicate Ends(backed: int -> bool, start: nat, stride: nat)
    requires stride >= 4
  {
    Point(start, stride, Leading(backed, start, stride, 0)) < U32 - 1
  }

  lemma {:induction false} LeadingFrom(backed: int -> bool, start: nat, stride: nat, k: nat, n: nat)
    requires stride >= 4 && k <= n && Point(start, stride, n) < U32
    requires !backed(Point(start, stride, n)) && forall j | k <= j < n :: backed(Point(start, stride, j))
    ensures Leading(backed, start, stride, k) == n - k
    decreases n - k
  {
    if k < n {
      assert stride * (n - k) >= 0 && stride * n == stride * k + stride * (n - k);
      LeadingFrom(backed, start, stride, k + 1, n);
    }
  }

  /** Memory is everything below `top`, as far as whole dwords from `start` on are concerned. */
  ghost predicate RamTo(backed: int -> bool, start: nat, top: nat) {
    forall a | start <= a :: backed(a) <==> a + 4 <= top
  }

  /** On memory that ends at `top`, the points are as many as whole strides fit in. */
  lemma PointsInRam(backed: int -> bool, start: nat, stride: nat, top: nat)
    requires stride >= 4 && start <= top <= U32 - stride && RamTo(backed, start, top)
    ensures Leading(backed, start, stride, 0) == (top - start) / stride && Ends(backed, start, stride)
  {
    var n := (top - start) / stride;
    DivBounds(top - start, stride);
    forall j | 0 <= j < n
      ensures backed(Point(start, stride, j))
    {
      NextMultiple(stride, j, n);
    }
    LeadingFrom(backed, start, stride, 0, n);
  }

  lemma DivBounds(x: nat, c: nat)
    requires c > 0
    ensures 0 <= c * (x / c) <= x < c * (x / c) + c
  {
  }

  lemma NextMultiple(c: nat, j: nat, n: nat)
    requires j < n
    ensures 0 <= c * j && c * j + c <= c * n
  {
    var d := n - j - 1;
    assert c * (j + 1 + d) == c * j + c + c * d;
    assert c * j >= 0 && c * d >= 0;
  }

  // ----- the board -----

  /** The probe points of detectMirroring. */
  function Probe(k: nat): nat {
    MEGABYTE + PROBE_DISTANCE * k
  }

  class Board {
    /** The cell that an address reaches under each value of the configuration register. */
    const decode: (int, int) -> Option<int>
    /** What there is to read where there is no memory: the ROM below 1M, or nothing. */
    const fixed: int -> u32
    var config: u8
    var shadowed: bool
    var cells: int -> u32

    constructor (decode: (int, int) -> Option<int>, fixed: int -> u32, cells: int -> u32)
      ensures this.decode == decode && this.fixed == fixed && this.cells == cells && !shadowed
    {
      this.decode, this.fixed, this.cells := decode, fixed, cells;
      config, shadowed := 0, false;
    }

    ghost predicate Valid() {
      forall a | !(0xF_0000 <= a < MEGABYTE) :: fixed(a) == FLOATING
    }

    function TargetAt(config: int, shadowed: bool, a: int): Option<int> {
      if 0xF_0000 <= a < MEGABYTE && !shadowed then None else decode(config, a)
    }

    function Target(a: int): Option<int>
      reads this`config, this`shadowed
    {
      TargetAt(config, shadowed, a)
    }

    function Backing(config: int, shadowed: bool): int -> bool {
      a => TargetAt(config, shadowed, a) != None
    }

    function Backed(): int -> bool
      reads this`config, this`shadowed
    {
      Backing(config, shadowed)
    }

    function Read(a: int): u32
      reads this
    {
      ReadAt(config, shadowed, cells, a)
    }

    function ReadAt(config: int, shadowed: bool, cells: int -> u32, a: int): u32 {
      var t := TargetAt(config, shadowed, a);
      if t == None then fixed(a) else cells(t.value)
    }

    method Write(a: int, v: u32)
      modifies this`cells
      ensures Target(a) != None ==> cells(Target(a).value) == v
      ensures forall c | Target(a) != Some(c) :: cells(c) == old(cells(c))
    {
      if Target(a) != None {
        var c, was := Target(a).value, cells;
        cells := x => if x == c then v else was(x);
      }
    }

    // ----- probing -----

    /** A point answers with what was written exactly when it is backed; what was there is put back. */
    method TestPoint(a: int) returns (found: bool)
      modifies this`cells
      ensures found == (Target(a) != None)
      ensures forall c :: cells(c) == old(cells(c))
    {
      var was := Read(a);
      found := false;
      Write(a, PATTERN);
      if Read(a) == PATTERN {
        Write(a, INVERSE);
        found := Read(a) == INVERSE;
      }
      if found {
        Write(a, was);
      }
    }

    method ProbeRam(start: u32, stride: u32) returns (bytes: u32)
      requires stride >= 4 && Ends(Backed(), start, stride)
      modifies this`cells
      ensures bytes == stride * Leading(Backed(), start, stride, 0)
      ensures forall c :: cells(c) == old(cells(c))
    {
      ghost var k: nat := 0;
      ghost var n := Leading(Backed(), start, stride, 0);
      bytes := 0;
      Within(Backed(), start, stride, 0);
      var i: u32 := start + stride - 4;
      while i < 0xFFFF_FFFF
        invariant i == Point(start, stride, k) && bytes == stride * k
        invariant k + Leading(Backed(), start, stride, k) == n && Point(start, stride, n) < U32 - 1
        invariant forall c :: cells(c) == old(cells(c))
        decreases n - k
      {
        var found := TestPoint(i);
        if !found {
          return;
        }
        bytes := i + 4 - start;
        k := k + 1;
        Within(Backed(), start, stride, k);
        i := i + stride;
      }
    }

    /** RAM below `top` is measured to the stride. */
    method ProbeRamTo(start: u32, stride: u32, ghost top: nat) returns (bytes: u32)
      requires stride >= 4 && start <= top <= U32 - stride && RamTo(Backed(), start, top)
      modifies this`cells
      ensures bytes == stride * ((top - start) / stride)
      ensures forall c :: cells(c) == old(cells(c))
    {
      PointsInRam(Backed(), start, stride, top);
      bytes := ProbeRam(start, stride);
    }

    /** One region, or a step into a hole. */
    method ProbeNext(i: u32, stride: u32, ghost top: nat) returns (next: u32, ram: u32)
      requires 1 <= stride <= 1024 && i < top && top + stride <= U32 && Ends(Backed(), i, 1024)
      modifies this`cells
      ensures ram == Ram(Backed(), i) && next == Next(i, ram, stride) > i
      ensures forall c :: cells(c) == old(cells(c))
    {
      Within(Backed(), i, 1024, 0);
      Progress(Backed(), i, stride);
      ram := ProbeRam(i, 1024);
      if ram > 0 {
        next := i + (ram - ram % stride);
      } else {
        next := i + stride;
      }
    }

    method AddRegion(total: u32, i: u32, stride: u32, ghost top: nat, ghost sum: nat, ghost whole: nat)
      returns (next: u32, total': u32, ghost sum': nat)
      requires 1 <= stride <= 1024 && i < top && top + stride <= U32 && AllEnd(Backed(), top)
      requires total == sum % U32 && sum + TotalFrom(Backed(), i, stride, top) == whole
      modifies this`cells
      ensures next > i && total' == sum' % U32 && sum' + TotalFrom(Backed(), next, stride, top) == whole
      ensures forall c :: cells(c) == old(cells(c))
    {
      Unfolds(Backed(), i, stride, top);
      var ram;
      next, ram := ProbeNext(i, stride, top);
      AddMod(sum, ram);
      sum' := sum + ram;
      total' := (total + ram) % U32;
    }

    /** With a stride of up to 1024 the scan ends, without its position wrapping around, whatever
        regions there are; it returns their sum. */
    method ProbeAll(stride: u32, top: u32) returns (total: u32)
      requires 1 <= stride <= 1024 && top + stride <= U32
      requires AllEnd(Backed(), top)
      modifies this`cells
      ensures total == TotalFrom(Backed(), 0, stride, top) % U32
      ensures forall c :: cells(c) == old(cells(c))
    {
      total := 0;
      var i: u32 := 0;
      ghost var sum: nat, whole := 0, TotalFrom(Backed(), 0, stride, top);
      while i < top
        invariant total == sum % U32 && sum + TotalFrom(Backed(), i, stride, top) == whole
        invariant forall c :: cells(c) == old(cells(c))
        decreases top - i
      {
        i, total, sum := AddRegion(total, i, stride, top, sum, whole);
      }
    }

    // ----- mirroring -----

    /** The first `n` points are backed, each by a cell of its own. */
    ghost predicate Unmirrored(config: int, shadowed: bool, n: nat) {
      && (forall k: nat | k < n :: TargetAt(config, shadowed, Probe(k)) != None)
      && (forall j: nat, k: nat | j < k < n ::
            TargetAt(config, shadowed, Probe(j)) != TargetAt(config, shadowed, Probe(k)))
    }

    /** The cell of point `k` is not that of a later one of the first `n`. */
    ghost predicate Last(k: nat, n: nat)
      reads this`config, this`shadowed
    {
      forall j: nat | k < j < n :: Target(Probe(k)) != Target(Probe(j))
    }

    ghost predicate Untouched(n: nat, c: int)
      reads this`config, this`shadowed
    {
      forall k: nat | k < n :: Target(Probe(k)) != Some(c)
    }

    ghost predicate Shows(k: nat, n: nat)
      reads this
    {
      Last(k, n) && Target(Probe(k)) != None ==> cells(Target(Probe(k)).value) == Probe(k)
    }

    ghost predicate Spared(was: int -> u32, n: nat)
      reads this
    {
      forall c | Untouched(n, c) :: cells(c) == was(c)
    }

    method WriteProbe(i: u32, ghost m: nat, ghost n: nat, ghost was: int -> u32)
      requires i == Probe(m) && n == m + 1 && Spared(was, m) && forall k: nat | k < m :: Shows(k, m)
      modifies this`cells
      ensures Spared(was, n) && forall k: nat | k < n :: Shows(k, n)
    {
      Write(i, i);
      forall c | Untouched(n, c)
        ensures cells(c) == was(c)
      {
        assert Untouched(m, c) && Target(Probe(m)) != Some(c);
      }
      forall k: nat | k < m
        ensures Shows(k, n)
      {
        assert old(Shows(k, m));
        if Last(k, n) && Target(Probe(k)) != None {
          var c := Target(Probe(k)).value;
          assert Target(Probe(k)) != Target(Probe(m));
          assert cells(c) == old(cells(c));
          assert old(Last(k, m));
        }
      }
    }

    /** The first loop of detectMirroring: a later write may overwrite an earlier one. */
    method WriteProbes(size: u32, ghost n: nat)
      requires size <= U32 - PROBE_DISTANCE && n == Probes(size)
      modifies this`cells
      ensures forall k: nat | k < n :: Shows(k, n)
      ensures Spared(old(cells), n)
    {
      ghost var was := cells;
      ghost var m: nat := 0;
      var i: u32 := MEGABYTE;
      while i < size
        invariant i == Probe(m) && m <= n
        invariant forall k: nat | k < m :: Shows(k, m)
        invariant Spared(was, m)
      {
        WriteProbe(i, m, m + 1, was);
        m := m + 1;
        i := i + PROBE_DISTANCE;
      }
    }

    /** What the second loop finds says whether the points are unmirrored. */
    lemma Exact(n: nat)
      requires Valid() && forall k: nat | k < n :: Shows(k, n)
      ensures Unmirrored(config, shadowed, n) <==> forall k: nat | k < n :: Read(Probe(k)) == Probe(k)
    {
      if Unmirrored(config, shadowed, n) {
        forall k: nat | k < n
          ensures Read(Probe(k)) == Probe(k)
        {
          assert Shows(k, n) && Last(k, n);
        }
      }
    }

    /** The result is 0 exactly when every point is backed and none shares its cell with another. */
    method DetectMirroring(size: u32) returns (r: int)
      requires Valid() && size <= U32 - PROBE_DISTANCE
      modifies this`cells
      ensures r == if Unmirrored(config, shadowed, Probes(size)) then 0 else 1
      ensures Spared(old(cells), Probes(size))
    {
      ghost var n := Probes(size);
      WriteProbes(size, n);
      Exact(n);
      ghost var m: nat := 0;
      var i: u32 := MEGABYTE;
      while i < size
        invariant i == Probe(m) && m <= n
        invariant forall k: nat | k < m :: Read(Probe(k)) == Probe(k)
      {
        if Read(i) != i {
          return 1;
        }
        m := m + 1;
        i := i + PROBE_DISTANCE;
      }
      return 0;
    }

    // ----- the search -----

    /** The sanity check: a byte written to 1000h reads back. */
    method Sane() returns (sane: bool)
      requires Valid()
      modifies this`cells
      ensures sane == (Target(SANITY) != None)
    {
      var was := Read(SANITY);
      Write(SANITY, was - was % 0x100 + 0x55);
      sane := Read(SANITY) % 0x100 == 0x55;
    }

    /** What probeRam measures above 1M under a configuration. */
    function Size(config: int, shadowed: bool): nat
    {
      0x1000 * Leading(Backing(config, shadowed), MEGABYTE, 0x1000, 0)
    }

    /** The configuration has memory at 1000h and some above 1M, less than 2G, with no probe point
        mirrored. */
    ghost predicate Qualifies(config: int, shadowed: bool)
    {
      && TargetAt(config, shadowed, SANITY) != None
      && 0 < Size(config, shadowed) < 0x8000_0000
      && Unmirrored(config, shadowed, Probes(Size(config, shadowed) + MEGABYTE))
    }

    /** The memory above 1M of a configuration that qualifies, else 0. */
    ghost function Score(config: int, shadowed: bool): nat {
      if Qualifies(config, shadowed) then Size(config, shadowed) else 0
    }

    ghost function Scores(shadowed: bool): (r: seq<nat>)
      ensures |r| == 16
    {
      seq(16, c => Score(c, shadowed))
    }

    /** The probe points below `size`: one each 512K from 1M on. */
    predicate IsProbe(a: int, size: nat) {
      0x10_0000 <= a < size && a % 0x8_0000 == 0
    }

    /** Such points reach memory, and no two the same. */
    ghost predicate ProbesApart(config: int, shadowed: bool, size: nat) {
      && (forall a | IsProbe(a, size) :: TargetAt(config, shadowed, a) != None)
      && (forall a, b | IsProbe(a, size) && IsProbe(b, size) && a != b ::
            TargetAt(config, shadowed, a) != TargetAt(config, shadowed, b))
    }

    lemma ProbeAddress(a: int, size: nat) returns (k: nat)
      requires IsProbe(a, size)
      ensures a == Probe(k) && k < Probes(size)
    {
      k := (a - 0x10_0000) / 0x8_0000;
    }

    lemma ProbeIs(k: nat, size: nat)
      requires k < Probes(size)
      ensures IsProbe(Probe(k), size)
    {
    }

    lemma UnmirroredIs(config: int, shadowed: bool, size: nat)
      ensures Unmirrored(config, shadowed, Probes(size)) <==> ProbesApart(config, shadowed, size)
    {
      if Unmirrored(config, shadowed, Probes(size)) {
        forall a | IsProbe(a, size)
          ensures TargetAt(config, shadowed, a) != None
        {
          var k := ProbeAddress(a, size);
        }
        forall a, b | IsProbe(a, size) && IsProbe(b, size) && a != b
          ensures TargetAt(config, shadowed, a) != TargetAt(config, shadowed, b)
        {
          var j := ProbeAddress(a, size);
          var k := ProbeAddress(b, size);
        }
      }
      if ProbesApart(config, shadowed, size) {
        forall k: nat | k < Probes(size)
          ensures IsProbe(Probe(k), size)
        {
          ProbeIs(k, size);
        }
      }
    }

    /** Which configurations qualify, and with how much memory, in addresses: `n` is the number of 4K blocks
        from 1M on whose last dword reaches memory, before the first whose does not. */
    lemma QualifiesExactly(config: int, shadowed: bool, n: nat)
      requires 0x10_0FFC + 0x1000 * n < U32 && TargetAt(config, shadowed, 0x10_0FFC + 0x1000 * n) == None
      requires forall k: nat | k < n :: TargetAt(config, shadowed, 0x10_0FFC + 0x1000 * k) != None
      ensures Size(config, shadowed) == 0x1000 * n
      ensures Qualifies(config, shadowed) <==>
        && TargetAt(config, shadowed, 0x1000) != None && 0 < 0x1000 * n < 0x8000_0000
        && ProbesApart(config, shadowed, 0x10_0000 + 0x1000 * n)
    {
      SizeIs(config, shadowed, n);
      UnmirroredIs(config, shadowed, 0x10_0000 + 0x1000 * n);
    }

    lemma SizeIs(config: int, shadowed: bool, n: nat)
      requires 0x10_0FFC + 0x1000 * n < U32 && TargetAt(config, shadowed, 0x10_0FFC + 0x1000 * n) == None
      requires forall k: nat | k < n :: TargetAt(config, shadowed, 0x10_0FFC + 0x1000 * k) != None
      ensures Size(config, shadowed) == 0x1000 * n
    {
      assert Point(MEGABYTE, 0x1000, n) == 0x10_0FFC + 0x1000 * n;
      forall k | 0 <= k < n
        ensures Backing(config, shadowed)(Point(MEGABYTE, 0x1000, k))
      {
        assert Point(MEGABYTE, 0x1000, k) == 0x10_0FFC + 0x1000 * k;
      }
      LeadingFrom(Backing(config, shadowed), MEGABYTE, 0x1000, 0, n);
    }

    /** The best of the sixteen, and the first of those that are as good; 1 when none qualifies. */
    ghost predicate IsChosen(best: int, shadowed: bool) {
      if forall c | 0 <= c < 16 :: !Qualifies(c, shadowed) then best == 1
      else
        && 0 <= best < 16 && Qualifies(best, shadowed)
        && forall c | 0 <= c < 16 && Qualifies(c, shadowed) ::
          Size(c, shadowed) < Size(best, shadowed) || (Size(c, shadowed) == Size(best, shadowed) && best <= c)
    }

    lemma BestIsChosen(best: int, shadowed: bool)
      requires 0 <= best < 16 && IsBest(Scores(shadowed), 16, best, Scores(shadowed)[best])
      ensures IsChosen(best, shadowed)
    {
      var scores := Scores(shadowed);
      forall c | 0 <= c < 16
        ensures scores[c] == Score(c, shadowed) <= scores[best]
      {
      }
      forall c | 0 <= c < 16 && Qualifies(c, shadowed)
        ensures Size(c, shadowed) < Size(best, shadowed) || (Size(c, shadowed) == Size(best, shadowed) && best <= c)
        ensures Qualifies(best, shadowed)
      {
        assert scores[c] == Size(c, shadowed) > 0;
      }
    }

    /** One configuration: is it better than `size`? */
    method TryConfig(c: u8, size: nat, ghost score: nat) returns (better: bool, mem: int)
      requires Valid() && score == Score(c, shadowed) && Ends(Backing(c, shadowed), MEGABYTE, 0x1000)
      modifies this`cells, this`config
      ensures better <==> score > size
      ensures better ==> mem == score
    {
      config := c;
      mem := 0;
      better := Sane();
      if better {
        mem := MeasuredSize(c);
        better := mem > size;
        if better {
          var mirrored := DetectMirroring(mem + MEGABYTE);
          better := mirrored == 0;
        }
      }
    }

    method MeasuredSize(c: nat) returns (mem: int)
      requires config == c && Ends(Backing(c, shadowed), MEGABYTE, 0x1000)
      modifies this`cells
      ensures mem == Signed(Size(c, shadowed)) && mem < 0x8000_0000
    {
      var bytes := ProbeRam(MEGABYTE, 0x1000);
      mem := Signed(bytes);
    }

    /** The search ends with the first configuration of the most memory among those that qualify,
        or with 1 when none does. */
    method SearchDram(ghost scores: seq<nat>)
      requires Valid() && forall c | 0 <= c < 16 :: Ends(Backing(c, shadowed), MEGABYTE, 0x1000)
      requires |scores| == 16 && forall c {:trigger scores[c]} | 0 <= c < 16 :: scores[c] == Score(c, shadowed)
      modifies this`cells, this`config
      ensures config < 16 && IsBest(scores, 16, config, scores[config])
    {
      var bestConfig: u8, bestSize: nat := 1, 0;
      for c := 0 to 16
        invariant IsBest(scores, c, bestConfig, bestSize)
      {
        NextBest(scores, c, bestConfig, bestSize);
        var better, mem := TryConfig(c, bestSize, scores[c]);
        if better {
          bestConfig, bestSize := c, mem;
        }
      }
      config := bestConfig;
    }

    // ----- shadowing -----

    /** A cell after the first `n` dwords of a copy: the last of them that went to it, or as it was. */
    function CellAfter(config: int, shadowed: bool, was: int -> u32, dest: int, src: int, n: nat, c: int): u32
      decreases n, 0
    {
      if n == 0 then was(c)
      else if TargetAt(config, shadowed, Word(dest, n - 1)) == Some(c)
      then WordRead(config, shadowed, was, dest, src, n - 1)
      else CellAfter(config, shadowed, was, dest, src, n - 1, c)
    }

    /** What the copy reads for its `n`th dword. */
    function WordRead(config: int, shadowed: bool, was: int -> u32, dest: int, src: int, n: nat): u32
      decreases n, 1
    {
      var t := TargetAt(config, shadowed, Word(src, n));
      if t == None then fixed(Word(src, n)) else CellAfter(config, shadowed, was, dest, src, n, t.value)
    }

    /** The dword loop of memcpy, whatever addresses share cells. */
    method CopyWords(dest: u32, src: u32, len: u32)
      requires len % 4 == 0
      modifies this`cells
      ensures forall c :: cells(c) == CellAfter(config, shadowed, old(cells), dest, src, len / 4, c)
    {
      ghost var was := cells;
      var d: int, s: int, left: int := dest, src, len;
      ghost var n: nat, words := 0, len / 4;
      while left > 0
        invariant left == 4 * (words - n) && n <= words && d == Word(dest, n) && s == Word(src, n)
        invariant forall c :: cells(c) == CellAfter(config, shadowed, was, dest, src, n, c)
      {
        Write(d, Read(s));
        d, s, left := d + 4, s + 4, left - 4;
        n := n + 1;
      }
    }

    /** The dwords of a region have cells of their own. */
    ghost predicate Separate(config: int, shadowed: bool, dest: int, n: nat) {
      && (forall k | 0 <= k < n :: TargetAt(config, shadowed, Word(dest, k)) != None)
      && (forall j, k | 0 <= j < k < n ::
            TargetAt(config, shadowed, Word(dest, j)) != TargetAt(config, shadowed, Word(dest, k)))
    }

    ghost predicate Apart(config: int, shadowed: bool, dest: int, src: int, n: nat) {
      forall j, k | 0 <= j < n && 0 <= k < n ::
        TargetAt(config, shadowed, Word(dest, j)) != TargetAt(config, shadowed, Word(src, k))
    }

    /** No dword of a copy has gone to the cell. */
    lemma {:induction false} CellKept(config: int, shadowed: bool, was: int -> u32, dest: int, src: int, n: nat, c: int)
      requires forall j | 0 <= j < n :: TargetAt(config, shadowed, Word(dest, j)) != Some(c)
      ensures CellAfter(config, shadowed, was, dest, src, n, c) == was(c)
    {
      if n > 0 {
        CellKept(config, shadowed, was, dest, src, n - 1, c);
      }
    }

    /** With cells of its own, apart from the source's, each dword of the destination gets its source's
        and keeps it. */
    lemma {:induction false} CopyIsExact(config: int, shadowed: bool, was: int -> u32, dest: int, src: int, n: nat, k: nat)
      requires k < n && Separate(config, shadowed, dest, n) && Apart(config, shadowed, dest, src, n)
      ensures var t := TargetAt(config, shadowed, Word(dest, k));
        t != None && CellAfter(config, shadowed, was, dest, src, n, t.value) == ReadAt(config, shadowed, was, Word(src, k))
    {
      if k == n - 1 {
        var t := TargetAt(config, shadowed, Word(src, k));
        if t != None {
          assert forall j | 0 <= j < k :: TargetAt(config, shadowed, Word(dest, j)) != t;
          CellKept(config, shadowed, was, dest, src, k, t.value);
        }
      } else {
        CopyIsExact(config, shadowed, was, dest, src, n - 1, k);
      }
    }

    /** Dwords from 60000h and from F0000h on are memory of their own under a configuration. */
    ghost predicate Holds64K(config: int) {
      && Separate(config, true, BUFFER, WORDS) && Separate(config, true, BIOS, WORDS)
      && Apart(config, true, BIOS, BUFFER, WORDS)
    }

    /** A dword from 60000h to 6FFFFh or from F0000h to FFFFFh. */
    predicate IsMoved(a: int) {
      a % 4 == 0 && (0x6_0000 <= a < 0x7_0000 || 0xF_0000 <= a < 0x10_0000)
    }

    /** Each of these has a cell of its own. */
    ghost predicate OwnCells(config: int) {
      && (forall a | IsMoved(a) :: decode(config, a) != None)
      && (forall a, b | IsMoved(a) && IsMoved(b) && a != b :: decode(config, a) != decode(config, b))
    }

    lemma OwnCellsHold(config: int)
      requires OwnCells(config)
      ensures Holds64K(config)
    {
      assert forall k | 0 <= k < WORDS :: IsMoved(Word(BUFFER, k)) && IsMoved(Word(BIOS, k));
    }

    /** Every dword of the BIOS, by its address. */
    lemma ByAddress(a: int) returns (k: nat)
      requires 0xF_0000 <= a < 0x10_0000 && a % 4 == 0
      ensures a == Word(BIOS, k) && k < WORDS
    {
      k := (a - 0xF_0000) / 4;
    }

    /** The ROM's contents are in RAM, from F0000h to FFFFFh. */
    ghost predicate BiosInRam()
      reads this
    {
      forall a | 0xF_0000 <= a < 0x10_0000 && a % 4 == 0 :: Target(a) != None && Read(a) == fixed(a)
    }

    /** The two copies, from memory `mid` by way of `held` to `now`. */
    ghost predicate Moved(config: int, mid: int -> u32, held: int -> u32, now: int -> u32) {
      && (forall c :: held(c) == CellAfter(config, false, mid, BUFFER, BIOS, WORDS, c))
      && (forall c :: now(c) == CellAfter(config, true, held, BIOS, BUFFER, WORDS, c))
    }

    /** A configuration that has memory of its own for both regions ends up with the ROM's dwords in RAM. */
    lemma BiosMoved(config: int, mid: int -> u32, held: int -> u32, now: int -> u32, k: nat)
      requires Holds64K(config) && Moved(config, mid, held, now) && k < WORDS
      ensures var a := Word(BIOS, k); TargetAt(config, true, a) != None && ReadAt(config, true, now, a) == fixed(a)
    {
      assert forall j | 0 <= j < WORDS ::
          TargetAt(config, false, Word(BUFFER, j)) == TargetAt(config, true, Word(BUFFER, j));
      assert forall j | 0 <= j < WORDS :: TargetAt(config, false, Word(BIOS, j)) == None;
      CopyIsExact(config, false, mid, BUFFER, BIOS, WORDS, k);
      CopyIsExact(config, true, held, BIOS, BUFFER, WORDS, k);
    }

    /** After the search the BIOS goes through DRAM at 60000h into the DRAM at its own addresses.  `mid`
        is memory after the search, `held` memory after the first copy. */
    method ChipsetInit() returns (ghost mid: int -> u32, ghost held: int -> u32)
      requires Valid() && !shadowed && forall c | 0 <= c < 16 :: Ends(Backing(c, false), MEGABYTE, 0x1000)
      modifies this
      ensures shadowed && config < 16 && IsBest(Scores(false), 16, config, Scores(false)[config])
      ensures Moved(config, mid, held, cells)
      ensures IsChosen(config, false)
      ensures Holds64K(config) || OwnCells(config) ==> BiosInRam()
    {
      SearchDram(Scores(false));
      BestIsChosen(config, false);
      mid, held := MoveBios();
      AllMoved(mid, held);
    }

    method MoveBios() returns (ghost mid: int -> u32, ghost held: int -> u32)
      requires !shadowed
      modifies this`cells, this`shadowed
      ensures shadowed && Moved(config, mid, held, cells)
    {
      mid := cells;
      CopyWords(BUFFER, BIOS, 4 * WORDS);
      held := cells;
      shadowed := true;
      CopyWords(BIOS, BUFFER, 4 * WORDS);
    }

    lemma AllMoved(mid: int -> u32, held: int -> u32)
      requires shadowed && Moved(config, mid, held, cells)
      ensures Holds64K(config) || OwnCells(config) ==> BiosInRam()
    {
      if OwnCells(config) {
        OwnCellsHold(config);
      }
      if Holds64K(config) {
        forall a | 0xF_0000 <= a < 0x10_0000 && a % 4 == 0
          ensures Target(a) != None && Read(a) == fixed(a)
        {
          var k := ByAddress(a);
          BiosMoved(config, mid, held, cells, k);
        }
      }
    }
  }

  /** A board with one bank of memory, from 0 to 2M, that every configuration selects. */
  method OneBank(fixed: int -> u32) returns (board: Board)
    requires forall a | !(0xF_0000 <= a < MEGABYTE) :: fixed(a) == FLOATING
    ensures board.shadowed && board.config == 0
    ensures forall a | 0xF_0000 <= a < 0x10_0000 && a % 4 == 0 :: board.Read(a) == fixed(a)
  {
    board := NewBank(fixed);
    OneBankEnds(board);
    ghost var mid, held := board.ChipsetInit();
    AllAlike(board.Scores(false), 0x10_0000, board.config);
  }

  method NewBank(fixed: int -> u32) returns (board: Board)
    ensures fresh(board) && IsOneBank(board) && board.fixed == fixed && !board.shadowed
  {
    board := new Board((_, a) => if 0 <= a <= 0x1F_FFFC then Some(a) else None, fixed, _ => 0);
  }

  lemma AllAlike(scores: seq<nat>, size: nat, best: int)
    requires |scores| == 16 && 0 <= best < 16 && IsBest(scores, 16, best, scores[best]) && size > 0
    requires forall c | 0 <= c < 16 :: scores[c] == size
    ensures best == 0
  {
    assert scores[0] == scores[best];
  }

  ghost predicate IsOneBank(board: Board) {
    forall c, a :: board.decode(c, a) == if 0 <= a <= 0x1F_FFFC then Some(a) else None
  }

  lemma OneBankEnds(board: Board)
    requires IsOneBank(board)
    ensures forall c | 0 <= c < 16 :: Ends(board.Backing(c, false), MEGABYTE, 0x1000)
    ensures forall c | 0 <= c < 16 :: board.Scores(false)[c] == 0x10_0000
    ensures board.Holds64K(0)
  {
    forall c | 0 <= c < 16
      ensures Ends(board.Backing(c, false), MEGABYTE, 0x1000) && board.Score(c, false) == 0x10_0000
    {
      BankSize(board, c);
      BankScore(board, c);
    }
    BankHolds(board);
  }

  lemma BankSize(board: Board, c: int)
    requires IsOneBank(board)
    ensures Ends(board.Backing(c, false), MEGABYTE, 0x1000) && board.Size(c, false) == 0x10_0000
  {
    PointsInRam(board.Backing(c, false), MEGABYTE, 0x1000, 0x20_0000);
  }

  lemma BankScore(board: Board, c: int)
    requires IsOneBank(board) && board.Size(c, false) == 0x10_0000
    ensures board.Score(c, false) == 0x10_0000
  {
    assert board.Unmirrored(c, false, Probes(0x20_0000));
  }

  lemma BankHolds(board: Board)
    requires IsOneBank(board)
    ensures board.Holds64K(0)
  {
  }

  const BUFFER: nat := 0x6_0000
  const BIOS: nat := 0xF_0000
  const WORDS: nat := 0x4000

  /** `best` is the first of the `n` scores with the highest, which is `score`; it is 1 when they
      are all 0. */
  predicate IsBest(scores: seq<nat>, n: nat, best: int, score: nat)
    requires n <= |scores|
  {
    && (forall c | 0 <= c < n :: scores[c] <= score && (scores[c] == score > 0 ==> best <= c))
    && if score == 0 then best == 1 else 0 <= best < n && scores[best] == score
  }

  lemma NextBest(scores: seq<nat>, n: nat, best: int, score: nat)
    requires n < |scores| && IsBest(scores, n, best, score)
    ensures if scores[n] > score then IsBest(scores, n + 1, n, scores[n]) else IsBest(scores, n + 1, best, score)
  {
  }

  function Word(base: int, k: int): int {
    base + 4 * k
  }

  function Signed(x: u32): int {
    if x < 0x8000_0000 then x else x - U32
  }

  /** How many probe points there are below `size`. */
  function Probes(size: nat): (n: nat)
    ensures Probe(n) >= size && (n > 0 ==> Probe(n - 1) < size)
  {
    if size <= MEGABYTE then 0 else (size - MEGABYTE + PROBE_DISTANCE - 1) / PROBE_DISTANCE
  }

  // ----- probeAll -----

  /** Where probeAll goes on after finding `ram` bytes at `i`. */
  function Next(i: nat, ram: nat, stride: nat): nat
    requires stride > 0
  {
    if ram > 0 then i + (ram - ram % stride) else i + stride
  }

  /** What a probe in steps of 1024 finds at `i`. */
  function Ram(backed: int -> bool, i: nat): nat {
    1024 * Leading(backed, i, 1024, 0)
  }

  lemma Progress(backed: int -> bool, i: nat, stride: nat)
    requires 0 < stride <= 1024
    ensures i < Next(i, Ram(backed, i), stride) <= i + if Ram(backed, i) > 0 then Ram(backed, i) else stride
  {
    if Leading(backed, i, 1024, 0) > 0 {
      WholeStrides(Ram(backed, i), stride);
    }
  }

  /** The sum of the regions that a scan finds from `i` on. */
  function TotalFrom(backed: int -> bool, i: nat, stride: nat, top: nat): nat
    requires 0 < stride <= 1024
    decreases top - i
  {
    if i >= top then 0
    else
      Progress(backed, i, stride);
      Ram(backed, i) + TotalFrom(backed, Next(i, Ram(backed, i), stride), stride, top)
  }

  /** From every position below `top` memory ends before the address space does. */
  ghost predicate AllEnd(backed: int -> bool, top: nat) {
    forall i: nat | i < top :: Ends(backed, i, 1024)
  }

  lemma Unfolds(backed: int -> bool, i: nat, stride: nat, top: nat)
    requires 0 < stride <= 1024 && i < top
    ensures TotalFrom(backed, i, stride, top) ==
      Ram(backed, i) + TotalFrom(backed, Next(i, Ram(backed, i), stride), stride, top)
  {
  }

  lemma AddMod(sum: nat, ram: nat)
    ensures (sum % U32 + ram) % U32 == (sum + ram) % U32
  {
  }

  /** Strides of up to 1024 are those with which the scan gets on whatever memory there is. */
  lemma ProgressExactly(stride: nat)
    requires stride > 0
    ensures (forall backed: int -> bool, i: nat :: Next(i, Ram(backed, i), stride) > i) <==> stride <= 1024
  {
    if stride <= 1024 {
      forall backed: int -> bool, i: nat
        ensures Next(i, Ram(backed, i), stride) > i
      {
        Progress(backed, i, stride);
      }
    } else {
      StuckBelow(stride);
    }
  }

  /** One region of 1024 bytes at 0, and a longer stride: the scan stays where it is. */
  lemma StuckBelow(stride: nat)
    requires stride > 1024
    ensures Next(0, Ram(a => a + 4 <= 1024, 0), stride) == 0
  {
    PointsInRam(a => a + 4 <= 1024, 0, 1024, 1024);
  }

  lemma WholeStrides(x: nat, stride: nat)
    requires 0 < stride <= x
    ensures x - x % stride >= stride
  {
    assert x - x % stride == stride * (x / stride);
    MulAtLeast(x / stride, stride);
  }

  /** What a probe at `i` in steps of 1024 finds of memory below `end`. */
  function Found(i: nat, end: nat): nat {
    if i <= end then 1024 * ((end - i) / 1024) else 0
  }

  /** What probeAll makes of memory below `end`: it goes on at a multiple of the stride, and when a
      whole 1024 bytes are left from there on, these are counted twice. */
  function Total(stride: nat, top: nat, end: nat): nat
    requires stride > 0
  {
    var ram := Found(0, end);
    if top == 0 then 0
    else ram + if ram > 0 && Next(0, ram, stride) < top && end - Next(0, ram, stride) >= 1024 then 1024 else 0
  }

  /** The closed form of the sum, for one region from 0 on. */
  lemma ContiguousTotal(backed: int -> bool, stride: nat, top: nat, end: nat)
    requires 0 < stride <= 1024 && end <= U32 - 1024 && RamTo(backed, 0, end)
    ensures TotalFrom(backed, 0, stride, top) == Total(stride, top, end)
  {
    var ram := Found(0, end);
    RamIsFound(backed, 0, end);
    if top > 0 {
      var next := Next(0, ram, stride);
      if end < 1024 {
        NothingLeft(backed, next, stride, top, end);
      } else {
        WholeStrides(ram, stride);
        RamIsFound(backed, next, end);
        if end - next < 1024 {
          NothingLeft(backed, next, stride, top, end);
        } else if next < top {
          WholeStrides(1024, stride);
          NothingLeft(backed, Next(next, 1024, stride), stride, top, end);
        }
      }
    }
  }

  lemma RamIsFound(backed: int -> bool, i: nat, end: nat)
    requires end <= U32 - 1024 && RamTo(backed, 0, end)
    ensures Ram(backed, i) == Found(i, end)
  {
    if i <= end {
      PointsInRam(backed, i, 1024, end);
    } else if Point(i, 1024, 0) < U32 {
      LeadingFrom(backed, i, 1024, 0, 0);
    }
  }

  lemma {:induction false} NothingLeft(backed: int -> bool, i: nat, stride: nat, top: nat, end: nat)
    requires 0 < stride <= 1024 && end <= U32 - 1024 && RamTo(backed, 0, end) && end < i + 1024
    ensures TotalFrom(backed, i, stride, top) == 0
    decreases top - i
  {
    RamIsFound(backed, i, end);
    if i < top {
      NothingLeft(backed, i + stride, stride, top, end);
    }
  }

  // ----- a scan in steps of 1024 -----

  /** The probe point of the `k`th block of 1024 bytes. */
  function Block(k: nat): nat {
    1024 * k + 1020
  }

  function Blocks(backed: int -> bool, k: nat, n: nat): nat
    requires k <= n
  {
    if k == n then 0 else Blocks(backed, k, n - 1) + if backed(Block(n - 1)) then 1 else 0
  }

  lemma {:induction false} AllBlocks(backed: int -> bool, k: nat, n: nat)
    requires k <= n && forall j: nat | k <= j < n :: backed(Block(j))
    ensures Blocks(backed, k, n) == n - k
  {
    if k < n {
      AllBlocks(backed, k, n - 1);
    }
  }

  lemma {:induction false} BlocksAppend(backed: int -> bool, k: nat, m: nat, n: nat)
    requires k <= m <= n
    ensures Blocks(backed, k, n) == Blocks(backed, k, m) + Blocks(backed, m, n)
  {
    if m < n {
      BlocksAppend(backed, k, m, n - 1);
    }
  }

  lemma {:induction false} LeadingBacked(backed: int -> bool, start: nat, k: nat, j: nat)
    requires k <= j < k + Leading(backed, start, 1024, k)
    ensures backed(Point(start, 1024, j))
    decreases j - k
  {
    if k < j {
      LeadingBacked(backed, start, k + 1, j);
    }
  }

  lemma AlignedStep(backed: int -> bool, k: nat, top: nat)
    requires 1024 * k < top
    ensures var m := Leading(backed, 1024 * k, 1024, 0);
      TotalFrom(backed, 1024 * k, 1024, top) ==
      1024 * m + TotalFrom(backed, 1024 * (k + if m == 0 then 1 else m), 1024, top)
  {
    var m := Leading(backed, 1024 * k, 1024, 0);
    Unfolds(backed, 1024 * k, 1024, top);
    assert Next(1024 * k, 1024 * m, 1024) == 1024 * (k + if m == 0 then 1 else m);
  }

  /** With a stride of 1024, whatever holes there are, every block with memory is counted once and no
      other: all blocks below `top`, and those that continue the last of them. */
  lemma {:induction false} AlignedTotal(backed: int -> bool, k: nat, top: nat) returns (n: nat)
    requires AllEnd(backed, top)
    ensures k <= n && top <= 1024 * n && TotalFrom(backed, 1024 * k, 1024, top) == 1024 * Blocks(backed, k, n)
    ensures forall j: nat | k <= j < n && top <= 1024 * j :: backed(Block(j))
    decreases top - 1024 * k
  {
    if 1024 * k >= top {
      return k;
    }
    var m := Leading(backed, 1024 * k, 1024, 0);
    var step := if m == 0 then 1 else m;
    assert Ends(backed, 1024 * k, 1024);
    AlignedStep(backed, k, top);
    RegionBlocks(backed, k);
    n := AlignedTotal(backed, k + step, top);
    BlocksAppend(backed, k, k + step, n);
  }

  /** A region is so many blocks with memory, and a step into a hole is one without. */
  lemma RegionBlocks(backed: int -> bool, k: nat)
    requires Ends(backed, 1024 * k, 1024)
    ensures var m := Leading(backed, 1024 * k, 1024, 0);
      && Blocks(backed, k, k + if m == 0 then 1 else m) == m
      && (forall j: nat | k <= j < k + m :: backed(Block(j)))
  {
    var m := Leading(backed, 1024 * k, 1024, 0);
    forall j: nat | k <= j < k + m
      ensures backed(Block(j))
    {
      LeadingBacked(backed, 1024 * k, 0, j - k);
    }
    if m == 0 {
      assert !backed(Block(k));
    } else {
      AllBlocks(backed, k, k + m);
    }
  }

  lemma Within(backed: int -> bool, start: nat, stride: nat, k: nat)
    requires stride >= 4
    ensures Point(start, stride, k) <= Point(start, stride, k + Leading(backed, start, stride, k))
    ensures Point(start, stride, k + 1) == Point(start, stride, k) + stride
  {
    var n := Leading(backed, start, stride, k);
    assert stride * (k + n) == stride * k + stride * n && stride * n >= 0;
    assert stride * (k + 1) == stride * k + stride;
  }
}
