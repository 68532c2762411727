/** The overlap list: the entries active between two change points, added at the end and
    removed by moving the last element into the gap (arch/i386/kernel/setup.c:535-557). */
module E820Overlap {
  import opened Common
  import opened E820Spec
  import opened E820Sort
  import opened E820Sweep

  /** `list` holds the entries active after k points, each once. */
  ghost predicate Tracks(m: seq<Entry>, s: seq<ChangePoint>, k: nat, list: seq<nat>)
    requires AllReasonable(m) && k <= |s|
  {
    && Distinct(list)
    && (forall e :: e in list ==> e < |m|)
    && (forall e :: 0 <= e < |m| ==> (e in list <==> Active(m, s, k, e)))
  }

  lemma PrefixSnoc<T>(s: seq<T>, k: nat, p: T)
    requires k < |s|
    ensures p in s[..k + 1] <==> p in s[..k] || p == s[k]
  {
    assert s[..k + 1] == s[..k] + [s[k]];
  }

  /** Point k affects only the entry it belongs to. */
  lemma ActiveStep(m: seq<Entry>, s: seq<ChangePoint>, k: nat, e: nat)
    requires Ready(m, s) && k < |s| && e < |m|
    ensures s[k].entry < |m|
    ensures e != s[k].entry ==> (Active(m, s, k + 1, e) <==> Active(m, s, k, e))
    ensures e == s[k].entry && IsStart(m, s[k]) ==> !Active(m, s, k, e) && Active(m, s, k + 1, e)
    ensures e == s[k].entry && !IsStart(m, s[k]) ==> Active(m, s, k, e) && !Active(m, s, k + 1, e)
  {
    assert PointOf(m, s[k]);
    if m[e].size != 0 {
      PrefixSnoc(s, k, StartOf(m, e));
      PrefixSnoc(s, k, EndOf(m, e));
      StartsBeforeEnds(m, s, k, e);
    }
  }

  lemma StartsBeforeEnds(m: seq<Entry>, s: seq<ChangePoint>, k: nat, e: nat)
    requires Ready(m, s) && k < |s| && e < |m| && m[e].size != 0
    ensures s[k] == StartOf(m, e) ==> StartOf(m, e) !in s[..k] && EndOf(m, e) !in s[..k]
    ensures s[k] == EndOf(m, e) ==> StartOf(m, e) in s[..k] && EndOf(m, e) !in s[..k]
  {
    KeyInPrefix(m, s, k, StartOf(m, e));
    KeyInPrefix(m, s, k, EndOf(m, e));
    NotInPrefix(s, k);
    assert k > 0 ==> Key(m, s[k - 1]) <= Key(m, s[k]);
  }

  lemma NotInPrefix<T(!new)>(s: seq<T>, k: nat)
    requires Distinct(s) && k < |s|
    ensures s[k] !in s[..k]
  {
    assert forall i :: 0 <= i < k ==> s[..k][i] == s[i];
  }

  lemma SnocElements(list: seq<nat>, x: nat)
    ensures forall e :: e in list + [x] <==> e in list || e == x
    ensures Distinct(list) && x !in list ==> Distinct(list + [x])
  {
    var r := list + [x];
    assert forall i :: 0 <= i < |list| ==> r[i] == list[i];
    assert r[|list|] == x;
  }

  lemma TracksAdd(m: seq<Entry>, s: seq<ChangePoint>, k: nat, list: seq<nat>)
    requires Ready(m, s) && k < |s| && Tracks(m, s, k, list) && s[k].entry < |m| && IsStart(m, s[k])
    ensures Tracks(m, s, k + 1, list + [s[k].entry])
  {
    var x := s[k].entry;
    var list' := list + [x];
    ActiveStep(m, s, k, x);
    SnocElements(list, x);
    forall e | 0 <= e < |m|
      ensures e in list' <==> Active(m, s, k + 1, e)
    {
      ActiveStep(m, s, k, e);
    }
  }

  /** Remove the element at index p by moving the last one into its place. */
  function SwapRemove(list: seq<nat>, p: nat): (r: seq<nat>)
    requires p < |list|
    ensures |r| == |list| - 1
  {
    list[p := list[|list| - 1]][..|list| - 1]
  }

  lemma SwapRemoveElements(list: seq<nat>, p: nat)
    requires p < |list| && Distinct(list)
    ensures Distinct(SwapRemove(list, p))
    ensures forall e :: e in SwapRemove(list, p) <==> e in list && e != list[p]
  {
    var r := SwapRemove(list, p);
    var n := |list| - 1;
    assert forall i :: 0 <= i < n ==> r[i] == if i == p then list[n] else list[i];
    forall e | e in list && e != list[p]
      ensures e in r
    {
      var i :| 0 <= i < |list| && list[i] == e;
      assert r[if i == n then p else i] == e;
    }
  }

  lemma TracksRemove(m: seq<Entry>, s: seq<ChangePoint>, k: nat, list: seq<nat>, p: nat)
    requires Ready(m, s) && k < |s| && Tracks(m, s, k, list) && s[k].entry < |m| && !IsStart(m, s[k])
    requires p < |list| && list[p] == s[k].entry
    ensures Tracks(m, s, k + 1, SwapRemove(list, p))
  {
    SwapRemoveElements(list, p);
    forall e | 0 <= e < |m|
      ensures e in SwapRemove(list, p) <==> Active(m, s, k + 1, e)
    {
      ActiveStep(m, s, k, e);
    }
  }

  lemma {:induction false} DistinctBelow(list: seq<nat>, n: nat)
    requires Distinct(list) && forall e :: e in list ==> e < n
    ensures |list| <= n
    decreases n
  {
    if n == 0 {
      assert forall i :: 0 <= i < |list| ==> list[i] in list;
    } else if n - 1 in list {
      var p :| 0 <= p < |list| && list[p] == n - 1;
      SwapRemoveElements(list, p);
      DistinctBelow(SwapRemove(list, p), n - 1);
    } else {
      DistinctBelow(list, n - 1);
    }
  }

  /** A start finds room: the entry it adds is not yet on the list. */
  lemma RoomToAdd(m: seq<Entry>, s: seq<ChangePoint>, k: nat, list: seq<nat>)
    requires Ready(m, s) && k < |s| && Tracks(m, s, k, list) && s[k].entry < |m| && IsStart(m, s[k])
    ensures |list| < |m|
  {
    TracksAdd(m, s, k, list);
    DistinctBelow(list + [s[k].entry], |m|);
  }

  /** The removal loop of the source: it has no break, and still moves just one element. */
  method RemoveOverlap(overlap: array<nat>, n: nat, x: nat) returns (ghost p: nat)
    requires n <= overlap.Length && Distinct(overlap[..n]) && x in overlap[..n]
    modifies overlap
    ensures n > 0 && p < n && old(overlap[p]) == x
    ensures overlap[..n - 1] == SwapRemove(old(overlap[..n]), p)
  {
    ghost var list := overlap[..n];
    p :| p < n && list[p] == x;
    for i := 0 to n
      invariant overlap[..n] == if i <= p then list else list[p := list[n - 1]]
    {
      ghost var before := overlap[..n];
      assert overlap[i] == before[i] && overlap[n - 1] == before[n - 1];
      if overlap[i] == x {
        overlap[i] := overlap[n - 1];
      }
    }
    assert overlap[..n - 1] == overlap[..n][..n - 1];
  }

  /** The type-selection loop: the largest type on the list. */
  method CurrentType(biosmap: array<Entry>, overlap: array<nat>, n: nat) returns (t: nat)
    requires n <= overlap.Length && forall i :: 0 <= i < n ==> overlap[i] < biosmap.Length
    ensures forall i :: 0 <= i < n ==> biosmap[overlap[i]].typ <= t
    ensures t == 0 || exists i :: 0 <= i < n && biosmap[overlap[i]].typ == t
  {
    t := 0;
    for i := 0 to n
      invariant forall j :: 0 <= j < i ==> biosmap[overlap[j]].typ <= t
      invariant t == 0 || exists j :: 0 <= j < i && biosmap[overlap[j]].typ == t
    {
      if biosmap[overlap[i]].typ > t {
        t := biosmap[overlap[i]].typ;
      }
    }
  }

  lemma TrackedMax(m: seq<Entry>, s: seq<ChangePoint>, k: nat, list: seq<nat>, t: nat)
    requires AllReasonable(m) && k <= |s| && Tracks(m, s, k, list)
    requires forall i :: 0 <= i < |list| ==> list[i] in list && m[list[i]].typ <= t
    requires t == 0 || exists i :: 0 <= i < |list| && list[i] in list && m[list[i]].typ == t
    ensures ActiveMax(m, s, k, t)
  {
  }

  /** One step of the sweep: update the overlap list for point k and compute the new type. */
  method UpdateOverlap(ghost m: seq<Entry>, ghost s: seq<ChangePoint>, ghost k: nat, point: ChangePoint,
                       biosmap: array<Entry>, overlap: array<nat>, n: nat)
    returns (n': nat, t: nat)
    requires Ready(m, s) && k < |s| && point == s[k]
    requires |m| <= biosmap.Length && biosmap[..|m|] == m
    requires |m| <= overlap.Length && n <= overlap.Length && Tracks(m, s, k, overlap[..n])
    modifies overlap
    ensures n' <= overlap.Length && Tracks(m, s, k + 1, overlap[..n']) && ActiveMax(m, s, k + 1, t)
  {
    ghost var list := overlap[..n];
    ActiveStep(m, s, k, point.entry);
    assert biosmap[point.entry] == m[point.entry];
    if point.addr == biosmap[point.entry].addr {
      RoomToAdd(m, s, k, list);
      TracksAdd(m, s, k, list);
      overlap[n] := point.entry;
      n' := n + 1;
      assert overlap[..n'] == list + [point.entry];
    } else {
      ghost var p := RemoveOverlap(overlap, n, point.entry);
      TracksRemove(m, s, k, list, p);
      n' := n - 1;
    }
    t := TrackedType(m, s, k + 1, biosmap, overlap, n');
  }

  method TrackedType(ghost m: seq<Entry>, ghost s: seq<ChangePoint>, ghost k: nat,
                     biosmap: array<Entry>, overlap: array<nat>, n: nat)
    returns (t: nat)
    requires AllReasonable(m) && k <= |s| && |m| <= biosmap.Length && biosmap[..|m|] == m
    requires n <= overlap.Length && Tracks(m, s, k, overlap[..n])
    ensures ActiveMax(m, s, k, t)
  {
    ghost var list := overlap[..n];
    assert forall i :: 0 <= i < n ==> list[i] == overlap[i] && list[i] in list;
    assert forall i :: 0 <= i < n ==> biosmap[overlap[i]] == m[list[i]];
    t := CurrentType(biosmap, overlap, n);
    TrackedMax(m, s, k, list, t);
  }
}
