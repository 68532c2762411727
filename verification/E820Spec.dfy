/** The E820 memory map of arch/i386/kernel/setup.c as a value: entries, what a map says
    about an address, and the canonical form that sanitize_e820_map aims at. */
module E820Spec {

  const TWO64: int := 0x1_0000_0000_0000_0000

  type u64 = x: int | 0 <= x < 0x1_0000_0000_0000_0000

  /** Type 1 is usable RAM; larger numbers take precedence; 0 means "undefined". */
  const E820_RAM: nat := 1

  datatype Entry = Entry(addr: u64, size: u64, typ: nat) {
    function End(): int {
      addr + size
    }

    predicate Covers(a: int) {
      addr <= a < addr + size
    }

    /** The 64-bit sum addr + size does not wrap. */
    predicate Reasonable() {
      addr + size < TWO64
    }
  }

  /** The largest type among the entries covering address `a`; 0 when there is none. */
  function MaxType(m: seq<Entry>, a: int): (t: nat)
    ensures forall i :: 0 <= i < |m| && m[i].Covers(a) ==> m[i].typ <= t
    ensures t == 0 || exists i :: 0 <= i < |m| && m[i].Covers(a) && m[i].typ == t
  {
    if |m| == 0 then 0
    else
      var n := |m| - 1;
      var r := MaxType(m[..n], a);
      assert forall i :: 0 <= i < n ==> m[..n][i] == m[i];
      if m[n].Covers(a) && r < m[n].typ then m[n].typ else r
  }

  /** The two clauses of MaxType's contract determine its value. */
  lemma MaxTypeIs(m: seq<Entry>, a: int, t: nat)
    requires forall i :: 0 <= i < |m| && m[i].Covers(a) ==> m[i].typ <= t
    requires t == 0 || exists i :: 0 <= i < |m| && m[i].Covers(a) && m[i].typ == t
    ensures MaxType(m, a) == t
  {
  }

  lemma MaxTypeConcat(m: seq<Entry>, n: seq<Entry>, a: int)
    ensures MaxType(m + n, a) == if MaxType(m, a) < MaxType(n, a) then MaxType(n, a) else MaxType(m, a)
  {
    var t := if MaxType(m, a) < MaxType(n, a) then MaxType(n, a) else MaxType(m, a);
    var mn := m + n;
    forall i | 0 <= i < |mn| && mn[i].Covers(a)
      ensures mn[i].typ <= t
    {
      if i < |m| {
        assert mn[i] == m[i];
      } else {
        assert mn[i] == n[i - |m|];
      }
    }
    if t != 0 {
      if MaxType(m, a) < MaxType(n, a) {
        var i :| 0 <= i < |n| && n[i].Covers(a) && n[i].typ == t;
        assert mn[|m| + i] == n[i];
      } else {
        var i :| 0 <= i < |m| && m[i].Covers(a) && m[i].typ == t;
        assert mn[i] == m[i];
      }
    }
    MaxTypeIs(mn, a, t);
  }

  /** Sorted by address, pairwise disjoint, no empty entries and no undefined types. */
  ghost predicate Ordered(m: seq<Entry>) {
    && (forall i :: 0 <= i < |m| ==> m[i].size > 0 && m[i].typ != 0)
    && (forall i, j :: 0 <= i < j < |m| ==> m[i].End() <= m[j].addr)
  }

  /** Ordered, and entries that touch have different types: nothing is left to merge. */
  ghost predicate Canonical(m: seq<Entry>) {
    && Ordered(m)
    && (forall i, j :: 0 <= i < j < |m| && m[i].End() == m[j].addr ==> m[i].typ != m[j].typ)
  }

  /** In an ordered map the type of an address is the type of the one entry that covers it. */
  lemma OrderedTypeAt(m: seq<Entry>, i: int, a: int)
    requires Ordered(m) && 0 <= i < |m|
    ensures m[i].Covers(a) ==> MaxType(m, a) == m[i].typ
  {
    assert m[i].Covers(a) ==> forall j :: 0 <= j < |m| && m[j].Covers(a) ==> j == i;
  }

  lemma AboveAll(m: seq<Entry>, a: int)
    requires forall i :: 0 <= i < |m| ==> m[i].End() <= a
    ensures MaxType(m, a) == 0
  {
  }

  /** What a canonical map says just past an entry differs from what it says inside it. */
  lemma TypeChangesAtEnd(m: seq<Entry>, i: int)
    requires Canonical(m) && 0 <= i < |m|
    ensures MaxType(m, m[i].End()) != m[i].typ
  {
    var e := m[i].End();
    assert forall j :: 0 <= j < |m| && m[j].Covers(e) ==> i < j && m[j].addr == e;
  }

  /** Canonical maps with equal types at every address start with the same entry. */
  lemma SameFirst(m: seq<Entry>, n: seq<Entry>)
    requires Canonical(m) && Canonical(n) && |m| > 0 && |n| > 0
    requires forall a :: MaxType(m, a) == MaxType(n, a)
    ensures m[0].addr == n[0].addr && m[0].typ == n[0].typ && m[0].size <= n[0].size
  {
    StartsNoLater(m, n);
    StartsNoLater(n, m);
    OrderedTypeAt(m, 0, m[0].addr);
    OrderedTypeAt(n, 0, n[0].addr);
    TypeChangesAtEnd(n, 0);
    OrderedTypeAt(m, 0, n[0].End());
  }

  lemma StartsNoLater(m: seq<Entry>, n: seq<Entry>)
    requires Ordered(m) && Ordered(n) && |m| > 0 && |n| > 0
    requires forall a :: MaxType(m, a) == MaxType(n, a)
    ensures m[0].addr <= n[0].addr
  {
    var a := n[0].addr;
    OrderedTypeAt(n, 0, a);
    var i :| 0 <= i < |m| && m[i].Covers(a);
    assert i == 0 || m[0].End() <= m[i].addr;
  }

  /** The types of the tail of an ordered map are those of the map, past the first entry. */
  lemma TailType(m: seq<Entry>, a: int)
    requires Ordered(m) && |m| > 0
    ensures MaxType(m[1..], a) == if a < m[0].End() then 0 else MaxType(m, a)
  {
    var t := m[1..];
    assert forall i :: 0 <= i < |t| ==> t[i] == m[i + 1];
    if a < m[0].End() {
      forall i | 0 <= i < |t|
        ensures !t[i].Covers(a)
      {
        assert m[0].End() <= m[i + 1].addr;
      }
    } else {
      var v := MaxType(t, a);
      forall i | 0 <= i < |m| && m[i].Covers(a)
        ensures m[i].typ <= v
      {
        assert i > 0;
        assert t[i - 1] == m[i];
      }
      if v != 0 {
        var i :| 0 <= i < |t| && t[i].Covers(a) && t[i].typ == v;
        assert m[i + 1] == t[i];
      }
      MaxTypeIs(m, a, v);
    }
  }

  lemma TailsAgree(m: seq<Entry>, n: seq<Entry>)
    requires Ordered(m) && Ordered(n) && |m| > 0 && |n| > 0 && m[0] == n[0]
    requires forall a :: MaxType(m, a) == MaxType(n, a)
    ensures forall a :: MaxType(m[1..], a) == MaxType(n[1..], a)
  {
    forall a
      ensures MaxType(m[1..], a) == MaxType(n[1..], a)
    {
      TailType(m, a);
      TailType(n, a);
    }
  }

  lemma CanonicalTail(m: seq<Entry>)
    requires Canonical(m) && |m| > 0
    ensures Canonical(m[1..]) && m == [m[0]] + m[1..]
  {
    var t := m[1..];
    assert forall i :: 0 <= i < |t| ==> t[i] == m[i + 1];
  }

  lemma BothEmpty(m: seq<Entry>, n: seq<Entry>)
    requires Ordered(m) && Ordered(n)
    requires forall a :: MaxType(m, a) == MaxType(n, a)
    ensures |m| == 0 <==> |n| == 0
  {
    if |m| > 0 {
      OrderedTypeAt(m, 0, m[0].addr);
    }
    if |n| > 0 {
      OrderedTypeAt(n, 0, n[0].addr);
    }
  }

  /** A canonical map is determined by what it says about addresses: there is exactly one
      canonical description of a memory layout. */
  lemma {:induction false} CanonicalUnique(m: seq<Entry>, n: seq<Entry>)
    requires Canonical(m) && Canonical(n)
    requires forall a :: MaxType(m, a) == MaxType(n, a)
    ensures m == n
    decreases |m|
  {
    BothEmpty(m, n);
    if |m| > 0 {
      SameFirst(m, n);
      SameFirst(n, m);
      TailsAgree(m, n);
      CanonicalTail(m);
      CanonicalTail(n);
      CanonicalUnique(m[1..], n[1..]);
    }
  }
}
