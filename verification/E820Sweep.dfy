/** The sweep over the sorted change points: which entries overlap between two points, what
    type results, and what the map under construction says so far
    (arch/i386/kernel/setup.c:527-576). */
module E820Sweep {
  import opened E820Spec
  import opened E820Sort

  ghost predicate Ready(m: seq<Entry>, s: seq<ChangePoint>) {
    AllReasonable(m) && PointsOf(m, s) && SortedPoints(m, s)
  }

  /** After the first `k` points, entry `e` has started and not yet ended. */
  ghost predicate Active(m: seq<Entry>, s: seq<ChangePoint>, k: nat, e: nat)
    requires AllReasonable(m) && k <= |s| && e < |m|
  {
    m[e].size != 0 && StartOf(m, e) in s[..k] && EndOf(m, e) !in s[..k]
  }

  /** `t` is the largest type of an active entry, 0 when none is active. */
  ghost predicate ActiveMax(m: seq<Entry>, s: seq<ChangePoint>, k: nat, t: nat)
    requires AllReasonable(m) && k <= |s|
  {
    && (forall e :: 0 <= e < |m| && Active(m, s, k, e) ==> m[e].typ <= t)
    && (t == 0 || exists e :: 0 <= e < |m| && Active(m, s, k, e) && m[e].typ == t)
  }

  // ---- prefixes of a sorted list ----

  lemma PrefixMember<T>(s: seq<T>, k: nat, j: nat)
    requires k <= |s| && j < |s|
    ensures j < k ==> s[j] in s[..k]
  {
    if j < k {
      assert s[..k][j] == s[j];
    }
  }

  lemma KeyInPrefix(m: seq<Entry>, s: seq<ChangePoint>, k: nat, p: ChangePoint)
    requires Ready(m, s) && k <= |s| && p in s
    ensures p in s[..k] ==> k > 0 && Key(m, p) <= Key(m, s[k - 1])
    ensures p !in s[..k] ==> k < |s| && Key(m, s[k]) <= Key(m, p)
    ensures p in s[..k] ==> k > 0 && p.addr <= s[k - 1].addr
    ensures p !in s[..k] ==> k < |s| && s[k].addr <= p.addr
  {
    hide PointsOf;
    if p in s[..k] {
      var i :| 0 <= i < k && s[..k][i] == p;
      assert s[i] == p && i <= k - 1;
      assert Key(m, s[i]) <= Key(m, s[k - 1]);
    } else {
      var j :| 0 <= j < |s| && s[j] == p;
      PrefixMember(s, k, j);
      assert Key(m, s[k]) <= Key(m, s[j]);
    }
  }

  /** Between change points k-1 and k the active entries are exactly those covering the address. */
  lemma ActiveCovers(m: seq<Entry>, s: seq<ChangePoint>, k: nat, a: int, e: nat)
    requires Ready(m, s) && k <= |s| && e < |m|
    requires k == 0 || s[k - 1].addr <= a
    requires k == |s| || a < s[k].addr
    ensures Active(m, s, k, e) <==> m[e].Covers(a)
  {
    if m[e].size != 0 {
      KeyInPrefix(m, s, k, StartOf(m, e));
      KeyInPrefix(m, s, k, EndOf(m, e));
    }
  }

  lemma TypeBetween(m: seq<Entry>, s: seq<ChangePoint>, k: nat, a: int, t: nat)
    requires Ready(m, s) && k <= |s| && ActiveMax(m, s, k, t)
    requires k == 0 || s[k - 1].addr <= a
    requires k == |s| || a < s[k].addr
    ensures MaxType(m, a) == t
  {
    forall e | 0 <= e < |m|
      ensures Active(m, s, k, e) <==> m[e].Covers(a)
    {
      ActiveCovers(m, s, k, a, e);
    }
    if t != 0 {
      var e :| 0 <= e < |m| && Active(m, s, k, e) && m[e].typ == t;
      assert m[e].Covers(a);
    }
    MaxTypeIs(m, a, t);
  }

  // ---- while several points share one address ----

  /** The first k points lie at or below address x, the others at or above it. */
  ghost predicate SplitsAt(s: seq<ChangePoint>, k: nat, x: int)
    requires k <= |s|
  {
    (k == 0 || s[k - 1].addr <= x) && (k == |s| || x <= s[k].addr)
  }

  lemma ActiveNearby(m: seq<Entry>, s: seq<ChangePoint>, k: nat, x: int, e: nat)
    requires Ready(m, s) && k <= |s| && SplitsAt(s, k, x) && e < |m|
    ensures Active(m, s, k, e) ==> m[e].Covers(x - 1) || m[e].Covers(x)
  {
    if Active(m, s, k, e) {
      KeyInPrefix(m, s, k, StartOf(m, e));
      assert EndOf(m, e) in s;
      KeyInPrefix(m, s, k, EndOf(m, e));
    }
  }

  /** Starts come before ends: when `f` takes over from `e` at x, one of them is active. */
  lemma HandOver(m: seq<Entry>, s: seq<ChangePoint>, k: nat, x: int, e: nat, f: nat)
    requires Ready(m, s) && k <= |s| && SplitsAt(s, k, x) && e < |m| && f < |m|
    requires m[e].Covers(x - 1) && m[f].Covers(x)
    ensures Active(m, s, k, e) || Active(m, s, k, f)
  {
    KeyInPrefix(m, s, k, StartOf(m, e));
    KeyInPrefix(m, s, k, EndOf(m, e));
    KeyInPrefix(m, s, k, StartOf(m, f));
    KeyInPrefix(m, s, k, EndOf(m, f));
  }

  /** If x-1 and x have the same type, the sweep never leaves that type while at x. */
  lemma SteadyAt(m: seq<Entry>, s: seq<ChangePoint>, k: nat, x: int, t: nat)
    requires Ready(m, s) && k <= |s| && SplitsAt(s, k, x) && ActiveMax(m, s, k, t)
    requires MaxType(m, x - 1) == MaxType(m, x)
    ensures t == MaxType(m, x)
  {
    hide MaxType, Ready, Active, ActiveMax, SplitsAt;
    NoneAbove(m, s, k, x, t);
    NoneBelow(m, s, k, x, t);
  }

  lemma NoneAbove(m: seq<Entry>, s: seq<ChangePoint>, k: nat, x: int, t: nat)
    requires Ready(m, s) && k <= |s| && SplitsAt(s, k, x) && ActiveMax(m, s, k, t)
    requires MaxType(m, x - 1) == MaxType(m, x)
    ensures t <= MaxType(m, x)
  {
    hide MaxType, PointsOf, SortedPoints, Active, SplitsAt;
    if t != 0 {
      var e :| 0 <= e < |m| && Active(m, s, k, e) && m[e].typ == t;
      ActiveNearby(m, s, k, x, e);
    }
  }

  lemma NoneBelow(m: seq<Entry>, s: seq<ChangePoint>, k: nat, x: int, t: nat)
    requires Ready(m, s) && k <= |s| && SplitsAt(s, k, x) && ActiveMax(m, s, k, t)
    requires MaxType(m, x - 1) == MaxType(m, x)
    ensures MaxType(m, x) <= t
  {
    hide MaxType, PointsOf, SortedPoints, Active, SplitsAt;
    var c := MaxType(m, x);
    if c != 0 {
      var e :| 0 <= e < |m| && m[e].Covers(x - 1) && m[e].typ == c;
      var f :| 0 <= f < |m| && m[f].Covers(x) && m[f].typ == c;
      HandOver(m, s, k, x, e, f);
    }
  }

  lemma SplitsAtPoint(m: seq<Entry>, s: seq<ChangePoint>, k: nat)
    requires Ready(m, s) && k < |s|
    ensures SplitsAt(s, k, s[k].addr) && SplitsAt(s, k + 1, s[k].addr)
  {
    if k > 0 {
      assert Key(m, s[k - 1]) <= Key(m, s[k]);
    }
    if k + 1 < |s| {
      assert Key(m, s[k]) <= Key(m, s[k + 1]);
    }
  }

  lemma TypeChanges(m: seq<Entry>, s: seq<ChangePoint>, k: nat, t: nat, t': nat)
    requires Ready(m, s) && k < |s| && ActiveMax(m, s, k, t) && ActiveMax(m, s, k + 1, t') && t != t'
    ensures ChangesAt(m, s[k].addr)
  {
    hide ActiveMax, Ready, MaxType;
    SplitsAtPoint(m, s, k);
    if MaxType(m, s[k].addr - 1) == MaxType(m, s[k].addr) {
      SteadyAt(m, s, k, s[k].addr, t);
      SteadyAt(m, s, k + 1, s[k].addr, t');
    }
  }

  // ---- the map under construction ----

  function Reached(s: seq<ChangePoint>, k: nat): (a: int)
    requires k <= |s|
  {
    if k == 0 then 0 else s[k - 1].addr
  }

  ghost predicate ChangesAt(m: seq<Entry>, x: int) {
    MaxType(m, x - 1) != MaxType(m, x)
  }

  /** Every entry of `out` ends where the described layout really changes. */
  ghost predicate EndsAtChange(m: seq<Entry>, out: seq<Entry>) {
    forall i :: 0 <= i < |out| ==> ChangesAt(m, out[i].End())
  }

  ghost predicate EndsBy(out: seq<Entry>, x: int) {
    forall i :: 0 <= i < |out| ==> out[i].End() <= x
  }

  /** `out` is ordered, ends by x, and says what m says about every address below x. */
  ghost predicate Finished(m: seq<Entry>, out: seq<Entry>, x: int) {
    && Ordered(out) && EndsBy(out, x) && EndsAtChange(m, out)
    && (forall a :: a < x ==> MaxType(m, a) == MaxType(out, a))
  }

  /** What m says below x, given the closed entries `out` and an entry open since lastAddr. */
  ghost predicate Described(m: seq<Entry>, out: seq<Entry>, lastType: nat, lastAddr: int, x: int) {
    forall a :: a < x ==> MaxType(m, a) == if lastType != 0 && lastAddr <= a then lastType else MaxType(out, a)
  }

  ghost predicate SweepInv(m: seq<Entry>, s: seq<ChangePoint>, k: nat, out: seq<Entry>, lastType: nat, lastAddr: int) {
    && Ready(m, s) && k <= |s| && ActiveMax(m, s, k, lastType)
    && Ordered(out) && EndsAtChange(m, out)
    && (lastType != 0 ==> 0 <= lastAddr <= Reached(s, k))
    && EndsBy(out, if lastType != 0 then lastAddr else Reached(s, k))
    && Described(m, out, lastType, lastAddr, Reached(s, k))
  }

  lemma SweepStart(m: seq<Entry>, s: seq<ChangePoint>)
    requires Ready(m, s)
    ensures SweepInv(m, s, 0, [], 0, 0)
  {
  }

  /** Up to the next change point the type stays what it is. */
  lemma DescribedToNext(m: seq<Entry>, s: seq<ChangePoint>, k: nat, out: seq<Entry>, lastType: nat, lastAddr: int)
    requires SweepInv(m, s, k, out, lastType, lastAddr) && k < |s|
    ensures Reached(s, k) <= s[k].addr
    ensures Described(m, out, lastType, lastAddr, s[k].addr)
  {
    assert k > 0 ==> Key(m, s[k - 1]) <= Key(m, s[k]);
    forall a | a < s[k].addr
      ensures MaxType(m, a) == if lastType != 0 && lastAddr <= a then lastType else MaxType(out, a)
    {
      if Reached(s, k) <= a {
        TypeBetween(m, s, k, a, lastType);
        if lastType == 0 {
          AboveAll(out, a);
        }
      } else if k == 0 {
        TypeBetween(m, s, k, a, lastType);
        AboveAllNegative(out, a);
      }
    }
  }

  lemma AboveAllNegative(out: seq<Entry>, a: int)
    requires a < 0
    ensures MaxType(out, a) == 0
  {
  }

  lemma StepSame(m: seq<Entry>, s: seq<ChangePoint>, k: nat, out: seq<Entry>, lastType: nat, lastAddr: int)
    requires SweepInv(m, s, k, out, lastType, lastAddr) && k < |s| && ActiveMax(m, s, k + 1, lastType)
    ensures SweepInv(m, s, k + 1, out, lastType, lastAddr)
  {
    DescribedToNext(m, s, k, out, lastType, lastAddr);
  }

  /** The entry that was open, closed at x; nothing if it would be empty. */
  function Closed(lastType: nat, lastAddr: int, x: int): (r: seq<Entry>)
    requires 0 <= x < TWO64 && (lastType != 0 ==> 0 <= lastAddr <= x)
  {
    if lastType != 0 && lastAddr < x then [Entry(lastAddr, x - lastAddr, lastType)] else []
  }

  lemma OrderedSnoc(out: seq<Entry>, e: Entry)
    requires Ordered(out) && EndsBy(out, e.addr) && e.size > 0 && e.typ != 0
    ensures Ordered(out + [e]) && EndsBy(out + [e], e.End())
  {
    var r := out + [e];
    assert forall i :: 0 <= i < |out| ==> r[i] == out[i];
    assert r[|out|] == e;
  }

  lemma SnocType(out: seq<Entry>, e: Entry, a: int)
    requires Ordered(out) && EndsBy(out, e.addr) && a < e.End()
    ensures MaxType(out + [e], a) == if e.addr <= a then e.typ else MaxType(out, a)
  {
    assert (out + [e])[..|out|] == out;
    if e.addr <= a {
      AboveAll(out, a);
    }
  }

  lemma EndsAtChangeSnoc(m: seq<Entry>, out: seq<Entry>, e: Entry)
    requires EndsAtChange(m, out) && ChangesAt(m, e.End())
    ensures EndsAtChange(m, out + [e])
  {
    hide ChangesAt;
    var r := out + [e];
    assert forall i :: 0 <= i < |out| ==> r[i] == out[i];
    assert r[|out|] == e;
  }

  lemma FinishedSnoc(m: seq<Entry>, out: seq<Entry>, e: Entry)
    requires Ordered(out) && EndsBy(out, e.addr) && EndsAtChange(m, out) && e.size > 0 && e.typ != 0
    requires Described(m, out, e.typ, e.addr, e.End())
    requires ChangesAt(m, e.End())
    ensures Finished(m, out + [e], e.End())
  {
    hide MaxType, Ordered, EndsAtChange, EndsBy, ChangesAt;
    OrderedSnoc(out, e);
    EndsAtChangeSnoc(m, out, e);
    forall a | a < e.End()
      ensures MaxType(m, a) == MaxType(out + [e], a)
    {
      SnocType(out, e, a);
    }
  }

  /** Closing the open entry at a point where the type changes. */
  lemma CloseEntry(m: seq<Entry>, s: seq<ChangePoint>, k: nat, out: seq<Entry>, lastType: nat, lastAddr: int, t: nat)
    requires SweepInv(m, s, k, out, lastType, lastAddr) && k < |s| && ActiveMax(m, s, k + 1, t) && t != lastType
    ensures lastType != 0 ==> 0 <= lastAddr <= s[k].addr
    ensures Finished(m, out + Closed(lastType, lastAddr, s[k].addr), s[k].addr)
  {
    hide MaxType, ActiveMax, Ready, ChangesAt;
    DescribedToNext(m, s, k, out, lastType, lastAddr);
    if lastType != 0 && lastAddr < s[k].addr {
      TypeChanges(m, s, k, lastType, t);
      FinishedSnoc(m, out, Entry(lastAddr, s[k].addr - lastAddr, lastType));
    } else {
      assert out + [] == out;
    }
  }

  lemma StepChange(m: seq<Entry>, s: seq<ChangePoint>, k: nat, out: seq<Entry>, lastType: nat, lastAddr: int, t: nat)
    requires SweepInv(m, s, k, out, lastType, lastAddr) && k < |s| && ActiveMax(m, s, k + 1, t) && t != lastType
    ensures lastType != 0 ==> 0 <= lastAddr <= s[k].addr
    ensures SweepInv(m, s, k + 1, out + Closed(lastType, lastAddr, s[k].addr), t, if t != 0 then s[k].addr else lastAddr)
  {
    CloseEntry(m, s, k, out, lastType, lastAddr, t);
  }

  lemma NoneActiveAtEnd(m: seq<Entry>, s: seq<ChangePoint>, t: nat)
    requires Ready(m, s) && ActiveMax(m, s, |s|, t)
    ensures t == 0
  {
    assert s[..|s|] == s;
  }

  /** After the last point nothing is open and the map is described everywhere. */
  lemma SweepEnd(m: seq<Entry>, s: seq<ChangePoint>, out: seq<Entry>, lastType: nat, lastAddr: int)
    requires SweepInv(m, s, |s|, out, lastType, lastAddr)
    ensures forall x :: Finished(m, out, x) <==> EndsBy(out, x)
  {
    NoneActiveAtEnd(m, s, lastType);
    forall a
      ensures MaxType(m, a) == MaxType(out, a)
    {
      if Reached(s, |s|) <= a {
        TypeBetween(m, s, |s|, a, 0);
        AboveAll(out, a);
      } else if |s| == 0 {
        TypeBetween(m, s, 0, a, 0);
        AboveAllNegative(out, a);
      }
    }
  }

  lemma TouchingDiffer(m: seq<Entry>, out: seq<Entry>, i: nat, j: nat)
    requires Ordered(out) && i < j < |out| && out[i].End() == out[j].addr
    requires ChangesAt(m, out[i].End())
    requires forall a :: a < out[j].End() ==> MaxType(m, a) == MaxType(out, a)
    ensures out[i].typ != out[j].typ
  {
    OrderedTypeAt(out, i, out[i].End() - 1);
    OrderedTypeAt(out, j, out[j].addr);
  }

  /** A finished map has nothing left to merge. */
  lemma FinishedCanonical(m: seq<Entry>, out: seq<Entry>, x: int)
    requires Finished(m, out, x)
    ensures Canonical(out)
  {
    hide MaxType, ChangesAt;
    forall i, j | 0 <= i < j < |out| && out[i].End() == out[j].addr
      ensures out[i].typ != out[j].typ
    {
      TouchingDiffer(m, out, i, j);
    }
  }
}
