/** The kernel's own copy of the map and its uses: add_memory_region, copy_e820_map and the
    search for a PCI address range (arch/i386/kernel/setup.c:368-386, 601-634, 1229-1255). */
module E820Regions {
  import opened E820Spec
  import opened E820Sort

  const HOLE_START: int := 0xA0000
  const HOLE_END: int := 0x100000

  predicate InHole(a: int) {
    HOLE_START <= a < HOLE_END
  }

  /** What copy_e820_map makes of one entry: RAM is cut out of the 640k-1M hole. */
  function Fixed(e: Entry): (r: seq<Entry>)
    requires e.Reasonable()
  {
    if e.typ == E820_RAM && e.addr < HOLE_END && HOLE_START < e.End() then
      (if e.addr < HOLE_START then [Entry(e.addr, HOLE_START - e.addr, e.typ)] else [])
      + (if e.End() <= HOLE_END then [] else [Entry(HOLE_END, e.End() - HOLE_END, e.typ)])
    else [e]
  }

  function FixedAll(m: seq<Entry>): (r: seq<Entry>)
    requires AllReasonable(m)
  {
    if |m| == 0 then [] else FixedAll(m[..|m| - 1]) + Fixed(m[|m| - 1])
  }

  /** The type an address keeps when RAM is not believed inside the hole. */
  function Believed(t: nat, a: int): nat {
    if InHole(a) && t == E820_RAM then 0 else t
  }

  lemma FixedType(e: Entry, a: int)
    requires e.Reasonable()
    ensures MaxType(Fixed(e), a) == Believed(if e.Covers(a) then e.typ else 0, a)
  {
    var t := Believed(if e.Covers(a) then e.typ else 0, a);
    var r := Fixed(e);
    if t != 0 {
      assert exists i :: 0 <= i < |r| && r[i].Covers(a) && r[i].typ == t by {
        assert r[0].Covers(a) || r[|r| - 1].Covers(a);
      }
    }
    MaxTypeIs(r, a, t);
  }

  /** Copying keeps the type of every address, except that no RAM remains in the hole: for any
      map, overlapping or not. */
  lemma {:induction false} FixedAllType(m: seq<Entry>, a: int)
    requires AllReasonable(m)
    ensures MaxType(FixedAll(m), a) == Believed(MaxType(m, a), a)
  {
    if |m| > 0 {
      var n := |m| - 1;
      FixedAllType(m[..n], a);
      FixedType(m[n], a);
      MaxTypeConcat(FixedAll(m[..n]), Fixed(m[n]), a);
    }
  }

  ghost predicate EndsWithin(m: seq<Entry>, x: int) {
    forall i :: 0 <= i < |m| ==> m[i].End() <= x
  }

  lemma OrderedConcat(m: seq<Entry>, n: seq<Entry>, x: int)
    requires Ordered(m) && Ordered(n) && EndsWithin(m, x)
    requires forall i :: 0 <= i < |n| ==> x <= n[i].addr
    ensures Ordered(m + n)
  {
    var r := m + n;
    assert forall i :: 0 <= i < |m| ==> r[i] == m[i];
    assert forall i :: |m| <= i < |r| ==> r[i] == n[i - |m|];
  }

  lemma FixedPlace(e: Entry)
    requires e.Reasonable() && e.size > 0 && e.typ != 0
    ensures Ordered(Fixed(e))
    ensures forall i :: 0 <= i < |Fixed(e)| ==> e.addr <= Fixed(e)[i].addr && Fixed(e)[i].End() <= e.End()
  {
  }

  /** Copying an ordered map gives an ordered map. */
  lemma {:induction false} FixedAllOrdered(m: seq<Entry>, x: int)
    requires AllReasonable(m) && Ordered(m) && EndsWithin(m, x)
    ensures Ordered(FixedAll(m)) && EndsWithin(FixedAll(m), x)
  {
    if |m| > 0 {
      var n := |m| - 1;
      var e := m[n];
      assert forall i :: 0 <= i < n ==> m[i].End() <= e.addr;
      FixedAllOrdered(m[..n], e.addr);
      FixedPlace(e);
      OrderedConcat(FixedAll(m[..n]), Fixed(e), e.addr);
    }
  }

  /** As much of s as fits in `max` slots. */
  function Clip<T>(s: seq<T>, max: nat): (r: seq<T>)
    ensures |r| <= max
  {
    if |s| <= max then s else s[..max]
  }

  /** The number of leading entries whose end does not wrap around 64 bits. */
  function ReasonablePrefix(m: seq<Entry>): (n: nat)
    ensures n <= |m| && AllReasonable(m[..n])
    ensures n < |m| ==> !m[n].Reasonable()
  {
    if |m| == 0 || !m[0].Reasonable() then 0
    else
      var n := ReasonablePrefix(m[1..]);
      assert m[..n + 1] == [m[0]] + m[1..][..n];
      n + 1
  }

  lemma FixedAllSnoc(m: seq<Entry>, i: nat)
    requires i < |m| && AllReasonable(m[..i]) && m[i].Reasonable()
    ensures AllReasonable(m[..i + 1]) && FixedAll(m[..i + 1]) == FixedAll(m[..i]) + Fixed(m[i])
  {
    assert m[..i + 1] == m[..i] + [m[i]];
    assert m[..i + 1][..i] == m[..i];
  }

  lemma PrefixReasonable(m: seq<Entry>, i: nat)
    requires i < |m| && AllReasonable(m[..i])
    ensures i <= ReasonablePrefix(m) && (!m[i].Reasonable() ==> ReasonablePrefix(m) == i)
  {
    assert forall j :: 0 <= j < i ==> m[..i][j] == m[j];
    assert forall j :: 0 <= j < ReasonablePrefix(m) ==> m[..ReasonablePrefix(m)][j] == m[j];
  }

  /** The struct e820: a table of at most region.Length (E820MAX) regions. */
  class Table {
    var region: array<Entry>
    var nr: nat

    ghost predicate Valid()
      reads this
    {
      nr <= region.Length
    }

    ghost function Regions(): seq<Entry>
      reads this, region
      requires Valid()
    {
      region[..nr]
    }

    constructor (max: nat)
      ensures Valid() && fresh(region) && region.Length == max && Regions() == []
    {
      region := new Entry[max](_ => Entry(0, 0, 0));
      nr := 0;
    }

    /** add_memory_region: append, or drop the region when the table is full. */
    method AddMemoryRegion(start: u64, size: u64, typ: nat)
      requires Valid()
      modifies this`nr, region
      ensures Valid()
      ensures Regions() == Clip(old(Regions()) + [Entry(start, size, typ)], region.Length)
    {
      ghost var before := Regions();
      if nr == region.Length {
        assert Clip(before + [Entry(start, size, typ)], region.Length) == before;
        return;
      }
      region[nr] := Entry(start, size, typ);
      nr := nr + 1;
      assert Regions() == before + [Entry(start, size, typ)];
    }

    /** The loop body of copy_e820_map for an entry that does not wrap. */
    method CopyEntry(e: Entry)
      requires Valid() && e.Reasonable()
      modifies this`nr, region
      ensures Valid() && Regions() == Clip(old(Regions()) + Fixed(e), region.Length)
    {
      ghost var before := Regions();
      var start, size, end := e.addr, e.size, e.addr + e.size;
      if e.typ == E820_RAM && start < HOLE_END && end > HOLE_START {
        if start < HOLE_START {
          AddMemoryRegion(start, HOLE_START - start, e.typ);
        }
        ghost var low := if start < HOLE_START then [Entry(start, HOLE_START - start, e.typ)] else [];
        assert before + low == if start < HOLE_START then before + low else before;
        assert Regions() == Clip(before + low, region.Length);
        if end <= HOLE_END {
          assert Fixed(e) == low;
          return;
        }
        start := HOLE_END;
        size := end - start;
        ClipTwice(before, low, [Entry(start, size, e.typ)], region.Length);
        assert Fixed(e) == low + [Entry(start, size, e.typ)];
        assert before + Fixed(e) == before + low + [Entry(start, size, e.typ)];
      }
      AddMemoryRegion(start, size, e.typ);
    }

    /** copy_e820_map: appends the fixed-up entries; stops at the first one that wraps, keeping
        what was copied before it. */
    method CopyE820Map(biosmap: seq<Entry>) returns (ret: int)
      requires Valid()
      modifies this`nr, region
      ensures Valid()
      ensures ret == if |biosmap| >= 2 && AllReasonable(biosmap) then 0 else -1
      ensures |biosmap| < 2 ==> Regions() == old(Regions())
      ensures |biosmap| >= 2 ==>
                Regions() == Clip(old(Regions()) + FixedAll(biosmap[..ReasonablePrefix(biosmap)]), region.Length)
    {
      hide FixedAll, Fixed, ReasonablePrefix, Clip;
      ghost var before := Regions();
      if |biosmap| < 2 {
        return -1;
      }
      ClipStart(before, biosmap, region.Length);
      var i := 0;
      while i < |biosmap|
        invariant i <= |biosmap| && Valid() && AllReasonable(biosmap[..i])
        invariant Regions() == Clip(before + FixedAll(biosmap[..i]), region.Length)
      {
        var e := biosmap[i];
        PrefixReasonable(biosmap, i);
        if e.addr > (e.addr + e.size) % TWO64 {
          return -1;
        }
        FixedAllSnoc(biosmap, i);
        CopyEntry(e);
        ClipTwice(before, FixedAll(biosmap[..i]), Fixed(e), region.Length);
        assert before + FixedAll(biosmap[..i + 1]) == before + FixedAll(biosmap[..i]) + Fixed(e);
        i := i + 1;
      }
      assert biosmap[..i] == biosmap;
      WholePrefix(biosmap);
      return 0;
    }
  }

  lemma ClipStart(before: seq<Entry>, m: seq<Entry>, max: nat)
    requires |before| <= max
    ensures Clip(before + FixedAll(m[..0]), max) == before
  {
    assert before + [] == before;
  }

  lemma WholePrefix(m: seq<Entry>)
    requires AllReasonable(m)
    ensures m[..ReasonablePrefix(m)] == m
  {
  }

  lemma ClipTwice<T>(a: seq<T>, b: seq<T>, c: seq<T>, max: nat)
    ensures Clip(Clip(a + b, max) + c, max) == Clip(a + b + c, max)
  {
  }

  /** With room to spare, a sanitized map copied into the empty table gives every address its
      old type, RAM in the hole excepted, and stays ordered. */
  lemma CopiedMap(m: seq<Entry>, max: nat)
    requires AllReasonable(m) && Ordered(m) && |FixedAll(m)| <= max
    ensures Ordered(Clip([] + FixedAll(m), max))
    ensures forall a :: MaxType(Clip([] + FixedAll(m), max), a) == Believed(MaxType(m, a), a)
  {
    assert [] + FixedAll(m) == FixedAll(m);
    FixedAllOrdered(m, TWO64);
    forall a
      ensures MaxType(FixedAll(m), a) == Believed(MaxType(m, a), a)
    {
      FixedAllType(m, a);
    }
  }

  // ---- the search for PCI address space ----

  const FOUR_GB: int := 0x1_0000_0000
  const DEFAULT_GAP_START: int := 0x1000_0000
  const DEFAULT_GAP_SIZE: int := 0x40_0000
  const MEGABYTE: int := 0x10_0000

  /** Sorted, disjoint, without empty or wrapping entries. */
  ghost predicate Spaced(m: seq<Entry>) {
    && (forall i :: 0 <= i < |m| ==> m[i].size > 0 && m[i].Reasonable())
    && (forall i, j :: 0 <= i < j < |m| ==> m[i].End() <= m[j].addr)
  }

  /** Where the free space after entry i - 1 stops: at entry i, or at 4GB. */
  function Ceiling(m: seq<Entry>, i: nat): int
    requires i <= |m|
  {
    if i < |m| && m[i].addr < FOUR_GB then m[i].addr else FOUR_GB
  }

  function GapAfter(m: seq<Entry>, i: nat): int
    requires i < |m|
  {
    Ceiling(m, i + 1) - m[i].End()
  }

  /** What the search has found when it has looked at the entries from i on: the start and the size. */
  function Found(m: seq<Entry>, i: nat): (r: (int, int))
    requires i <= |m|
    decreases |m| - i
  {
    if i == |m| then (DEFAULT_GAP_START, DEFAULT_GAP_SIZE)
    else if GapAfter(m, i) > Found(m, i + 1).1 then (m[i].End(), GapAfter(m, i))
    else Found(m, i + 1)
  }

  /** The search finds the longest gap after an entry, the last one of that length, or else its
      default. */
  lemma {:induction false} FoundLongest(m: seq<Entry>, i: nat)
    requires i <= |m|
    ensures forall j :: i <= j < |m| ==> GapAfter(m, j) <= Found(m, i).1
    ensures Found(m, i).1 >= DEFAULT_GAP_SIZE
    ensures Found(m, i).1 == DEFAULT_GAP_SIZE ==> Found(m, i).0 == DEFAULT_GAP_START
    ensures Found(m, i).1 > DEFAULT_GAP_SIZE ==> exists k :: i <= k < |m| && FoundAt(m, i, k)
    decreases |m| - i
  {
    hide GapAfter;
    if i < |m| {
      FoundLongest(m, i + 1);
      if GapAfter(m, i) > Found(m, i + 1).1 {
        assert FoundAt(m, i, i);
      } else if Found(m, i).1 > DEFAULT_GAP_SIZE {
        var k :| i + 1 <= k < |m| && FoundAt(m, i + 1, k);
        assert FoundAt(m, i, k);
      }
    }
  }

  /** The gap found is the one after entry k, and no later entry has one as long. */
  ghost predicate FoundAt(m: seq<Entry>, i: nat, k: nat)
    requires i <= |m|
  {
    k < |m| && Found(m, i) == (m[k].End(), GapAfter(m, k)) && forall j :: k < j < |m| ==> GapAfter(m, j) < GapAfter(m, k)
  }

  lemma CeilingStart(m: seq<Entry>)
    ensures Ceiling(m, |m|) == FOUR_GB
  {
  }

  /** What one round of the search computes. */
  lemma GapStep(m: seq<Entry>, i: nat)
    requires Spaced(m) && i < |m|
    ensures var (last, start, end) := (Ceiling(m, i + 1), m[i].addr, (m[i].addr + m[i].size) % TWO64);
            end == m[i].End() && 0 < end && last <= FOUR_GB && GapAfter(m, i) == last - end &&
            (last > end ==> (last - end) % FOUR_GB == GapAfter(m, i)) &&
            Ceiling(m, i) == if start < last then start else last
  {
    assert i + 1 < |m| ==> m[i].End() <= m[i + 1].addr;
  }

  /** The search loop of register_memory, from the last entry down; 32-bit `unsigned long`. */
  method FindPciGap(m: seq<Entry>) returns (gapStart: int, gapSize: int, pciMemStart: int)
    requires Spaced(m)
    ensures (gapStart, gapSize) == Found(m, 0) && gapSize >= DEFAULT_GAP_SIZE
    ensures forall i :: 0 <= i < |m| ==> GapAfter(m, i) <= gapSize
    ensures gapSize == DEFAULT_GAP_SIZE ==> gapStart == DEFAULT_GAP_START
    ensures gapSize > DEFAULT_GAP_SIZE ==> exists k :: 0 <= k < |m| && FoundAt(m, 0, k)
    ensures pciMemStart % MEGABYTE == 0 && gapStart <= pciMemStart < gapStart + MEGABYTE
  {
    hide GapAfter, Ceiling, Spaced;
    CeilingStart(m);
    var last := FOUR_GB;
    gapStart, gapSize := DEFAULT_GAP_START, DEFAULT_GAP_SIZE;
    var i := |m|;
    while i > 0
      invariant 0 <= i <= |m| && last == Ceiling(m, i)
      invariant DEFAULT_GAP_SIZE <= gapSize && 0 <= gapStart && gapStart + gapSize <= FOUR_GB
      invariant (gapStart, gapSize) == Found(m, i)
    {
      i := i - 1;
      var start := m[i].addr;
      var end := (start + m[i].size) % TWO64;
      GapStep(m, i);
      if last > end {
        var gap := (last - end) % FOUR_GB;
        if gap > gapSize {
          gapSize := gap;
          gapStart := end;
        }
      }
      if start < last {
        last := start;
      }
    }
    FoundLongest(m, 0);
    var up := (gapStart + 0xFFFFF) % FOUR_GB;
    pciMemStart := up - up % MEGABYTE;
  }

  /** The gap after an entry holds no mapped address. */
  lemma GapUnmapped(m: seq<Entry>, i: nat, a: int)
    requires Spaced(m) && i < |m| && m[i].End() <= a < m[i].End() + GapAfter(m, i)
    ensures forall j :: 0 <= j < |m| ==> !m[j].Covers(a)
  {
    forall j | 0 <= j < |m|
      ensures !m[j].Covers(a)
    {
      if i + 1 < j {
        assert m[i + 1].End() <= m[j].addr;
      }
    }
  }

  /** No unmapped range below 4GB that follows some entry is longer than the longest gap. */
  lemma {:induction false} GapMaximal(m: seq<Entry>, lo: int, hi: int, bound: int, n: nat)
    requires Spaced(m) && n < |m| && m[n].End() <= lo < hi <= FOUR_GB
    requires forall a, j :: lo <= a < hi && 0 <= j < |m| ==> !m[j].Covers(a)
    requires forall i :: 0 <= i < |m| ==> GapAfter(m, i) <= bound
    ensures hi - lo <= bound
    decreases |m| - n
  {
    if n + 1 < |m| && m[n + 1].End() <= lo {
      GapMaximal(m, lo, hi, bound, n + 1);
    } else {
      if n + 1 < |m| {
        var a := if m[n + 1].addr <= lo then lo else m[n + 1].addr;
        assert m[n + 1].Covers(a);
      }
      assert GapAfter(m, n) <= bound;
    }
  }

  ghost predicate Unmapped(m: seq<Entry>, lo: int, hi: int) {
    forall a, j :: lo <= a < hi && 0 <= j < |m| ==> !m[j].Covers(a)
  }

  /** Every unmapped range is at most `bound` long exactly if the space below the first entry is. */
  lemma RangesBoundedIff(m: seq<Entry>, bound: int)
    requires Spaced(m) && 0 < bound && forall i :: 0 <= i < |m| ==> GapAfter(m, i) <= bound
    ensures (forall lo, hi :: 0 <= lo < hi <= FOUR_GB && Unmapped(m, lo, hi) ==> hi - lo <= bound)
            <==> Ceiling(m, 0) <= bound
  {
    var c := Ceiling(m, 0);
    assert Unmapped(m, 0, c) by {
      forall a, j | 0 <= a < c && 0 <= j < |m|
        ensures !m[j].Covers(a)
      {
        if j > 0 {
          assert m[0].End() <= m[j].addr;
        }
      }
    }
    if c <= bound {
      forall lo, hi | 0 <= lo < hi <= FOUR_GB && Unmapped(m, lo, hi)
        ensures hi - lo <= bound
      {
        if |m| > 0 && m[0].End() <= lo {
          GapMaximal(m, lo, hi, bound, 0);
        } else if |m| > 0 {
          var a := if m[0].addr <= lo then lo else m[0].addr;
          assert m[0].Covers(a);
        }
      }
    }
  }

  /** The range found is free, and no free range below 4GB is longer. */
  ghost predicate IsBiggestGap(m: seq<Entry>, gap: (int, int)) {
    Unmapped(m, gap.0, gap.0 + gap.1) &&
    forall lo, hi :: 0 <= lo < hi <= FOUR_GB && Unmapped(m, lo, hi) ==> hi - lo <= gap.1
  }

  /** Some gap after an entry exceeds the default and is no shorter than the space below the first
      entry. */
  ghost predicate LongGapAbove(m: seq<Entry>) {
    exists i :: 0 <= i < |m| && GapAfter(m, i) > DEFAULT_GAP_SIZE && Ceiling(m, 0) <= GapAfter(m, i)
  }

  /** Nothing free is longer than the default window, and that window is free. */
  ghost predicate DefaultWillDo(m: seq<Entry>) {
    (forall i :: 0 <= i < |m| ==> GapAfter(m, i) <= DEFAULT_GAP_SIZE) && Ceiling(m, 0) <= DEFAULT_GAP_SIZE &&
    Unmapped(m, DEFAULT_GAP_START, DEFAULT_GAP_START + DEFAULT_GAP_SIZE)
  }

  /** The source speaks of "the biggest gap in the low 32 bits".  The search never looks below the
      first entry, and its default may be neither free nor the biggest: it finds the biggest gap
      exactly in these two cases. */
  lemma BiggestGapIff(m: seq<Entry>)
    requires Spaced(m)
    ensures IsBiggestGap(m, Found(m, 0)) <==> LongGapAbove(m) || DefaultWillDo(m)
  {
    hide Ceiling, GapAfter, Found, Unmapped, Spaced;
    FoundLongest(m, 0);
    var (start, size) := Found(m, 0);
    RangesBoundedIff(m, size);
    if size > DEFAULT_GAP_SIZE {
      var k :| 0 <= k < |m| && FoundAt(m, 0, k);
      FoundUnmapped(m, k);
      assert LongGapAbove(m) <==> Ceiling(m, 0) <= size;
    }
  }

  lemma FoundUnmapped(m: seq<Entry>, k: nat)
    requires Spaced(m) && k < |m|
    ensures Unmapped(m, m[k].End(), m[k].End() + GapAfter(m, k))
  {
    hide GapAfter, Spaced;
    forall a, j | m[k].End() <= a < m[k].End() + GapAfter(m, k) && 0 <= j < |m|
      ensures !m[j].Covers(a)
    {
      GapUnmapped(m, k, a);
    }
  }

  /** A map for which the search settles for its 4MB default at 256MB although 3GB are free. */
  lemma LowGapIgnored()
    ensures var m := [Entry(0xC000_0000, 0x4000_0000, E820_RAM)];
            Spaced(m) && Found(m, 0) == (0x1000_0000, 0x40_0000) && Unmapped(m, 0, 0xC000_0000) &&
            !IsBiggestGap(m, Found(m, 0))
  {
    var m := [Entry(0xC000_0000, 0x4000_0000, E820_RAM)];
    assert Found(m, 1) == (DEFAULT_GAP_START, DEFAULT_GAP_SIZE);
    assert Unmapped(m, 0, 0xC000_0000);
  }

  /** A map for which the default it settles for is RAM, although 64KB at the top are free. */
  lemma RamReturned()
    ensures var m := [Entry(0, 0xFFFF_0000, E820_RAM)];
            Spaced(m) && Found(m, 0) == (0x1000_0000, 0x40_0000) && Unmapped(m, 0xFFFF_0000, FOUR_GB) &&
            (forall a :: 0x1000_0000 <= a < 0x1040_0000 ==> m[0].Covers(a)) && !IsBiggestGap(m, Found(m, 0))
  {
    var m := [Entry(0, 0xFFFF_0000, E820_RAM)];
    assert Found(m, 1) == (DEFAULT_GAP_START, DEFAULT_GAP_SIZE);
    assert m[0].Covers(0x1000_0000);
  }
}
