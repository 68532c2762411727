/** The change points of sanitize_e820_map and their bubble sort
    (arch/i386/kernel/setup.c:489-525). */
module E820Sort {
  import opened Common
  import opened E820Spec

  /** An address at which entry number `entry` of the map starts or ends.  The source keeps a
      pointer to the entry; the model keeps its index. */
  datatype ChangePoint = ChangePoint(addr: u64, entry: nat)

  /** The test `addr == pbios->addr` by which the source tells starts from ends. */
  predicate IsStart(m: seq<Entry>, p: ChangePoint)
    requires p.entry < |m|
  {
    p.addr == m[p.entry].addr
  }

  /** Sort key: by address, and at one address all starts before all ends. */
  function Key(m: seq<Entry>, p: ChangePoint): int
    requires p.entry < |m|
  {
    2 * p.addr + if IsStart(m, p) then 0 else 1
  }

  ghost predicate InMap(m: seq<Entry>, s: seq<ChangePoint>) {
    forall k :: 0 <= k < |s| ==> s[k].entry < |m|
  }

  ghost predicate SortedPoints(m: seq<Entry>, s: seq<ChangePoint>)
    requires InMap(m, s)
  {
    forall j, k :: 0 <= j <= k < |s| ==> Key(m, s[j]) <= Key(m, s[k])
  }

  predicate AllReasonable(m: seq<Entry>) {
    forall e :: 0 <= e < |m| ==> m[e].Reasonable()
  }

  function StartOf(m: seq<Entry>, e: nat): ChangePoint
    requires e < |m|
  {
    ChangePoint(m[e].addr, e)
  }

  function EndOf(m: seq<Entry>, e: nat): ChangePoint
    requires e < |m| && m[e].Reasonable()
  {
    ChangePoint(m[e].addr + m[e].size, e)
  }

  /** `p` is the start or the end of a non-empty entry. */
  ghost predicate PointOf(m: seq<Entry>, p: ChangePoint)
    requires AllReasonable(m)
  {
    p.entry < |m| && m[p.entry].size != 0 && (p == StartOf(m, p.entry) || p == EndOf(m, p.entry))
  }

  /** `s` holds the start and the end of each non-empty entry among the first `n`, each once,
      and nothing else. */
  ghost predicate PointsUpTo(m: seq<Entry>, n: nat, s: seq<ChangePoint>)
    requires AllReasonable(m) && n <= |m|
  {
    && Distinct(s)
    && (forall p :: p in s ==> PointOf(m, p) && p.entry < n)
    && (forall e :: 0 <= e < n && m[e].size != 0 ==> StartOf(m, e) in s && EndOf(m, e) in s)
  }

  ghost predicate PointsOf(m: seq<Entry>, s: seq<ChangePoint>)
    requires AllReasonable(m)
    ensures PointsOf(m, s) ==> InMap(m, s)
  {
    PointsUpTo(m, |m|, s)
  }

  lemma AppendElements<T(!new)>(s: seq<T>, x: T, y: T)
    ensures forall p :: p in s + [x, y] <==> p in s || p == x || p == y
    ensures Distinct(s) && x !in s && y !in s && x != y ==> Distinct(s + [x, y])
  {
    var t := s + [x, y];
    assert t[|s|] == x && t[|s| + 1] == y;
    assert forall k :: 0 <= k < |s| ==> t[k] == s[k];
  }

  lemma AppendPoints(m: seq<Entry>, n: nat, s: seq<ChangePoint>)
    requires AllReasonable(m) && n < |m| && PointsUpTo(m, n, s) && m[n].size != 0
    ensures PointsUpTo(m, n + 1, s + [StartOf(m, n), EndOf(m, n)])
  {
    AppendElements(s, StartOf(m, n), EndOf(m, n));
  }

  /** Fills `point` with the change points of the non-empty entries and returns their number. */
  method RecordChangePoints(biosmap: array<Entry>, n: nat, point: array<ChangePoint>) returns (chgNr: nat)
    requires n <= biosmap.Length && 2 * n <= point.Length
    requires AllReasonable(biosmap[..n])
    modifies point
    ensures chgNr <= 2 * n
    ensures PointsOf(biosmap[..n], point[..chgNr])
  {
    ghost var m := biosmap[..n];
    chgNr := 0;
    for i := 0 to n
      invariant chgNr <= 2 * i
      invariant biosmap[..n] == m
      invariant PointsUpTo(m, i, point[..chgNr])
    {
      assert biosmap[i] == m[i] && m[i].Reasonable();
      if biosmap[i].size != 0 {
        ghost var before := point[..chgNr];
        AppendPoints(m, i, before);
        point[chgNr] := ChangePoint(biosmap[i].addr, i);
        point[chgNr + 1] := ChangePoint(biosmap[i].addr + biosmap[i].size, i);
        chgNr := chgNr + 2;
        assert point[..chgNr] == before + [StartOf(m, i), EndOf(m, i)];
      }
    }
  }

  // ---- the sort terminates: each exchange removes one inversion ----

  function CountBelow(s: seq<int>, x: int): nat {
    if |s| == 0 then 0 else (if s[0] < x then 1 else 0) + CountBelow(s[1..], x)
  }

  /** The number of pairs that stand in the wrong order. */
  function Inversions(s: seq<int>): nat {
    if |s| == 0 then 0 else CountBelow(s[1..], s[0]) + Inversions(s[1..])
  }

  function Exchanged<T>(s: seq<T>, i: nat): (t: seq<T>)
    requires 1 <= i < |s|
    ensures |t| == |s|
  {
    s[i - 1 := s[i]][i := s[i - 1]]
  }

  lemma {:induction false} CountBelowExchanged(s: seq<int>, i: nat, x: int)
    requires 1 <= i < |s|
    ensures CountBelow(Exchanged(s, i), x) == CountBelow(s, x)
  {
    var t := Exchanged(s, i);
    if i == 1 {
      assert t[1..][1..] == s[1..][1..];
    } else {
      CountBelowExchanged(s[1..], i - 1, x);
      assert t[1..] == Exchanged(s[1..], i - 1);
    }
  }

  lemma {:induction false} ExchangeRemovesInversion(s: seq<int>, i: nat)
    requires 1 <= i < |s| && s[i] < s[i - 1]
    ensures Inversions(Exchanged(s, i)) == Inversions(s) - 1
  {
    var t := Exchanged(s, i);
    if i == 1 {
      assert t[1..][1..] == s[1..][1..];
    } else {
      CountBelowExchanged(s[1..], i - 1, s[0]);
      ExchangeRemovesInversion(s[1..], i - 1);
      assert t[1..] == Exchanged(s[1..], i - 1);
    }
  }

  function Keys(m: seq<Entry>, s: seq<ChangePoint>): (r: seq<int>)
    requires InMap(m, s)
    ensures |r| == |s|
  {
    seq(|s|, k requires 0 <= k < |s| => Key(m, s[k]))
  }

  ghost function Disorder(m: seq<Entry>, s: seq<ChangePoint>): nat
    requires InMap(m, s)
  {
    Inversions(Keys(m, s))
  }

  lemma ExchangeElements<T(!new)>(s: seq<T>, i: nat)
    requires 1 <= i < |s|
    ensures forall p :: p in Exchanged(s, i) <==> p in s
    ensures Distinct(s) ==> Distinct(Exchanged(s, i))
  {
    var t := Exchanged(s, i);
    assert t[i] == s[i - 1] && t[i - 1] == s[i];
    assert forall k :: 0 <= k < |s| && k != i && k != i - 1 ==> t[k] == s[k];
  }

  lemma ExchangeKeepsPoints(m: seq<Entry>, s: seq<ChangePoint>, i: nat)
    requires AllReasonable(m) && PointsOf(m, s) && 1 <= i < |s|
    ensures PointsOf(m, Exchanged(s, i))
  {
    hide AllReasonable, Distinct, Exchanged, PointOf, StartOf, EndOf;
    ExchangeElements(s, i);
  }

  lemma ExchangedKeys(m: seq<Entry>, s: seq<ChangePoint>, i: nat)
    requires InMap(m, s) && 1 <= i < |s| && InMap(m, Exchanged(s, i))
    ensures Keys(m, Exchanged(s, i)) == Exchanged(Keys(m, s), i)
    ensures Keys(m, s)[i] == Key(m, s[i]) && Keys(m, s)[i - 1] == Key(m, s[i - 1])
  {
    hide Key;
  }

  lemma ExchangePoints(m: seq<Entry>, s: seq<ChangePoint>, i: nat)
    requires AllReasonable(m) && PointsOf(m, s) && 1 <= i < |s|
    requires Key(m, s[i]) < Key(m, s[i - 1])
    ensures PointsOf(m, Exchanged(s, i))
    ensures Disorder(m, Exchanged(s, i)) < Disorder(m, s)
  {
    hide Key, Inversions, PointsOf, Keys, AllReasonable;
    ExchangeKeepsPoints(m, s, i);
    ExchangedKeys(m, s, i);
    ExchangeRemovesInversion(Keys(m, s), i);
  }

  /** Points k-1 and k stand in the right order. */
  ghost predicate InOrder(m: seq<Entry>, s: seq<ChangePoint>, k: int)
    requires InMap(m, s)
  {
    1 <= k < |s| ==> Key(m, s[k - 1]) <= Key(m, s[k])
  }

  ghost predicate NoSwapBelow(m: seq<Entry>, s: seq<ChangePoint>, n: int)
    requires InMap(m, s)
  {
    forall k :: 1 <= k < n ==> InOrder(m, s, k)
  }

  lemma {:induction false} AdjacentSorted(m: seq<Entry>, s: seq<ChangePoint>, j: nat, k: nat)
    requires InMap(m, s) && j <= k < |s| && NoSwapBelow(m, s, |s|)
    ensures Key(m, s[j]) <= Key(m, s[k])
    decreases k - j
  {
    if j < k {
      AdjacentSorted(m, s, j, k - 1);
      assert InOrder(m, s, k);
    }
  }

  lemma NoSwapSorted(m: seq<Entry>, s: seq<ChangePoint>)
    requires InMap(m, s) && NoSwapBelow(m, s, |s|)
    ensures SortedPoints(m, s)
  {
    forall j, k | 0 <= j <= k < |s|
      ensures Key(m, s[j]) <= Key(m, s[k])
    {
      AdjacentSorted(m, s, j, k);
    }
  }

  /** One step of a pass: exchange points i-1 and i when they stand in the wrong order. */
  method CompareExchange(ghost m: seq<Entry>, biosmap: array<Entry>, point: array<ChangePoint>, ghost n: nat, i: nat)
    returns (changed: bool)
    requires AllReasonable(m) && |m| <= biosmap.Length && biosmap[..|m|] == m
    requires 1 <= i < n <= point.Length && PointsOf(m, point[..n])
    modifies point
    ensures PointsOf(m, point[..n])
    ensures !changed ==> point[..n] == old(point[..n]) && InOrder(m, point[..n], i)
    ensures changed ==> Disorder(m, point[..n]) < old(Disorder(m, point[..n]))
  {
    hide PointsOf, Disorder, AllReasonable;
    ghost var s := point[..n];
    assert s[i] == point[i] && s[i - 1] == point[i - 1];
    var cur, last := point[i], point[i - 1];
    assert biosmap[cur.entry] == m[cur.entry] && biosmap[last.entry] == m[last.entry];
    changed := cur.addr < last.addr
               || (cur.addr == last.addr && cur.addr == biosmap[cur.entry].addr && last.addr != biosmap[last.entry].addr);
    if changed {
      ExchangePoints(m, s, i);
      point[i], point[i - 1] := last, cur;
      assert point[..n] == Exchanged(s, i);
    }
  }

  /** One pass over the list.  Without an exchange the list was in order; with one, its
      disorder has dropped. */
  method BubblePass(ghost m: seq<Entry>, biosmap: array<Entry>, point: array<ChangePoint>, n: nat)
    returns (changed: bool)
    requires AllReasonable(m) && |m| <= biosmap.Length && biosmap[..|m|] == m
    requires n <= point.Length && PointsOf(m, point[..n])
    modifies point
    ensures PointsOf(m, point[..n])
    ensures !changed ==> point[..n] == old(point[..n]) && NoSwapBelow(m, point[..n], n)
    ensures changed ==> Disorder(m, point[..n]) < old(Disorder(m, point[..n]))
  {
    hide Disorder, PointsOf, AllReasonable, InOrder;
    changed := false;
    ghost var start := Disorder(m, point[..n]);
    var i := 1;
    while i < n
      invariant 1 <= i
      invariant PointsOf(m, point[..n])
      invariant biosmap[..|m|] == m
      invariant Disorder(m, point[..n]) <= start
      invariant changed ==> Disorder(m, point[..n]) < start
      invariant !changed ==> point[..n] == old(point[..n]) && NoSwapBelow(m, point[..n], i)
    {
      var c := CompareExchange(m, biosmap, point, n, i);
      changed := changed || c;
      i := i + 1;
    }
  }

  /** The bubble sort: passes of adjacent exchanges until a pass makes none. */
  method SortChangePoints(ghost m: seq<Entry>, biosmap: array<Entry>, point: array<ChangePoint>, n: nat)
    requires AllReasonable(m) && |m| <= biosmap.Length && biosmap[..|m|] == m
    requires n <= point.Length && PointsOf(m, point[..n])
    modifies point
    ensures PointsOf(m, point[..n]) && SortedPoints(m, point[..n])
  {
    var stillChanging := true;
    while stillChanging
      invariant PointsOf(m, point[..n])
      invariant biosmap[..|m|] == m
      invariant !stillChanging ==> NoSwapBelow(m, point[..n], n)
      decreases Disorder(m, point[..n]), stillChanging
    {
      stillChanging := BubblePass(m, biosmap, point, n);
    }
    NoSwapSorted(m, point[..n]);
  }
}
