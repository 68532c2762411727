/** sanitize_e820_map as a whole (arch/i386/kernel/setup.c:432-583).  E820MAX comes from a header that
    is not part of this model; it is the parameter `max`. */
module E820 {
  import opened E820Spec
  import opened E820Sort
  import opened E820Sweep
  import opened E820Overlap

  /** Addresses that `out` accounts for: all of them when it has room left, otherwise those
      below the end of its last entry. */
  ghost predicate Accounted(out: seq<Entry>, max: nat, a: int) {
    |out| < max || |out| == 0 || a < out[|out| - 1].End()
  }

  /** The type changes at address `at`: close the open entry, unless it would be empty, and
      open the next one.  `full` reports that the last slot of newBios has been closed. */
  method EmitChange(newBios: array<Entry>, max: nat, newNr: nat, lastType: nat, lastAddr: u64, currentType: nat, at: u64)
    returns (newNr': nat, lastAddr': u64, full: bool)
    requires newNr < max <= newBios.Length && (lastType != 0 ==> lastAddr <= at)
    requires lastType != 0 ==> newBios[newNr].addr == lastAddr && newBios[newNr].typ == lastType
    modifies newBios
    ensures newNr' <= max && newBios[..newNr'] == old(newBios[..newNr]) + Closed(lastType, lastAddr, at)
    ensures full <==> newNr' == max
    ensures lastAddr' == if currentType != 0 && !full then at else lastAddr
    ensures !full && currentType != 0 ==> newBios[newNr'].addr == at && newBios[newNr'].typ == currentType
  {
    newNr', lastAddr', full := newNr, lastAddr, false;
    if lastType != 0 {
      newBios[newNr] := newBios[newNr].(size := at - lastAddr);
      if newBios[newNr].size != 0 {
        newNr' := newNr + 1;
        assert newBios[..newNr'] == old(newBios[..newNr]) + Closed(lastType, lastAddr, at);
        if newNr' >= max {
          full := true;
          return;
        }
      }
    }
    if currentType != 0 {
      newBios[newNr'] := newBios[newNr'].(addr := at, typ := currentType);
      lastAddr' := at;
    }
  }

  /** What holds of the arrays and counters between two change points. */
  ghost predicate Between(m: seq<Entry>, s: seq<ChangePoint>, k: nat, list: seq<nat>,
                          built: seq<Entry>, slot: Entry, lastType: nat, lastAddr: int)
  {
    && Ready(m, s) && k <= |s| && Tracks(m, s, k, list)
    && SweepInv(m, s, k, built, lastType, lastAddr)
    && (lastType != 0 ==> slot.addr == lastAddr && slot.typ == lastType)
  }

  /** The sweep's loop body for change point k. */
  method SweepStep(ghost m: seq<Entry>, ghost s: seq<ChangePoint>, ghost k: nat, p: ChangePoint,
                   biosmap: array<Entry>, overlap: array<nat>, n: nat,
                   newBios: array<Entry>, max: nat, newNr: nat, lastType: nat, lastAddr: u64)
    returns (n': nat, newNr': nat, lastType': nat, lastAddr': u64, full: bool)
    requires |m| <= biosmap.Length && biosmap[..|m|] == m && newBios != biosmap
    requires n <= overlap.Length && |m| <= overlap.Length && newNr < max <= newBios.Length
    requires Between(m, s, k, overlap[..n], newBios[..newNr], newBios[newNr], lastType, lastAddr)
    requires k < |s| && p == s[k]
    modifies overlap, newBios
    ensures full ==> newNr' == max && Finished(m, newBios[..newNr'], s[k].addr)
    ensures !full ==> n' <= overlap.Length && newNr' < max
                      && Between(m, s, k + 1, overlap[..n'], newBios[..newNr'], newBios[newNr'], lastType', lastAddr')
  {
    hide ActiveMax, Ready, Tracks, SweepInv, Finished, Closed;
    ghost var out := newBios[..newNr];
    newNr', lastType', lastAddr', full := newNr, lastType, lastAddr, false;
    var currentType;
    n', currentType := UpdateOverlap(m, s, k, p, biosmap, overlap, n);
    assert newBios[..newNr] == out;
    if currentType != lastType {
      CloseEntry(m, s, k, out, lastType, lastAddr, currentType);
      StepChange(m, s, k, out, lastType, lastAddr, currentType);
      newNr', lastAddr', full := EmitChange(newBios, max, newNr, lastType, lastAddr, currentType, p.addr);
      lastType' := currentType;
    } else {
      StepSame(m, s, k, out, lastType, lastAddr);
    }
  }

  /** The sweep: builds in newBios the entries of the sanitized map, at most `max` of them. */
  method Sweep(ghost m: seq<Entry>, biosmap: array<Entry>, point: array<ChangePoint>, chgNr: nat,
               overlap: array<nat>, newBios: array<Entry>, max: nat)
    returns (newNr: nat, ghost x: int)
    requires chgNr <= point.Length && Ready(m, point[..chgNr])
    requires |m| <= biosmap.Length && biosmap[..|m|] == m
    requires |m| <= overlap.Length && 0 < max <= newBios.Length && newBios != biosmap
    modifies overlap, newBios
    ensures newNr <= max && Finished(m, newBios[..newNr], x)
    ensures newNr < max ==> forall y :: Finished(m, newBios[..newNr], y) <==> EndsBy(newBios[..newNr], y)
  {
    hide *;
    ghost var s := point[..chgNr];
    var n: nat, lastType: nat, lastAddr: u64 := 0, 0, 0;
    newNr := 0;
    BetweenStart(m, s, newBios[0]);
    assert overlap[..0] == [] && newBios[..0] == [];
    var chgIdx := 0;
    while chgIdx < chgNr
      invariant chgIdx <= chgNr && point[..chgNr] == s && biosmap[..|m|] == m
      invariant n <= overlap.Length && newNr < max
      invariant Between(m, s, chgIdx, overlap[..n], newBios[..newNr], newBios[newNr], lastType, lastAddr)
    {
      assert point[chgIdx] == s[chgIdx];
      var full;
      n, newNr, lastType, lastAddr, full :=
        SweepStep(m, s, chgIdx, point[chgIdx], biosmap, overlap, n, newBios, max, newNr, lastType, lastAddr);
      if full {
        x := point[chgIdx].addr;
        return;
      }
      chgIdx := chgIdx + 1;
    }
    x := LastEnd(newBios[..newNr]);
    SweepDone(m, s, overlap[..n], newBios[..newNr], newBios[newNr], lastType, lastAddr);
  }

  lemma BetweenStart(m: seq<Entry>, s: seq<ChangePoint>, slot: Entry)
    requires Ready(m, s)
    ensures Between(m, s, 0, [], [], slot, 0, 0)
  {
    SweepStart(m, s);
  }

  lemma SweepDone(m: seq<Entry>, s: seq<ChangePoint>, list: seq<nat>, out: seq<Entry>, slot: Entry, lastType: nat, lastAddr: int)
    requires Between(m, s, |s|, list, out, slot, lastType, lastAddr)
    ensures Finished(m, out, LastEnd(out))
    ensures forall y :: Finished(m, out, y) <==> EndsBy(out, y)
  {
    SweepEnd(m, s, out, lastType, lastAddr);
    EndsByLast(m, s, out, lastType, lastAddr);
  }

  function LastEnd(out: seq<Entry>): int {
    if |out| == 0 then 0 else out[|out| - 1].End()
  }

  lemma EndsByLast(m: seq<Entry>, s: seq<ChangePoint>, out: seq<Entry>, lastType: nat, lastAddr: int)
    requires SweepInv(m, s, |s|, out, lastType, lastAddr)
    ensures EndsBy(out, LastEnd(out))
  {
    hide MaxType;
    forall i | 0 <= i < |out|
      ensures out[i].End() <= LastEnd(out)
    {
      if i < |out| - 1 {
        assert out[i].End() <= out[|out| - 1].addr;
      }
    }
  }

  lemma Reports(m: seq<Entry>, out: seq<Entry>, max: nat, x: int)
    requires Finished(m, out, x) && 0 < max
    requires |out| < max ==> forall y :: Finished(m, out, y) <==> EndsBy(out, y)
    ensures Canonical(out)
    ensures forall a :: Accounted(out, max, a) ==> MaxType(out, a) == MaxType(m, a)
  {
    hide MaxType, Ordered, EndsAtChange;
    FinishedCanonical(m, out, x);
    forall a | Accounted(out, max, a)
      ensures MaxType(out, a) == MaxType(m, a)
    {
      if |out| < max {
        var y := if x <= a then a + 1 else x;
        assert EndsBy(out, y);
      }
    }
  }

  /** sanitize_e820_map.  A map with fewer than two entries, or with an entry whose end wraps
      around 64 bits, is refused and left alone.  Otherwise it is replaced by the canonical map
      that gives every address the largest type among the original entries covering it.  A map
      that fills all `max` slots does so for the addresses below the end of its last entry. */
  method SanitizeE820Map(biosmap: array<Entry>, nr: int, max: nat) returns (ret: int, newNr: int)
    requires nr <= max <= biosmap.Length
    modifies biosmap
    ensures ret == if 2 <= nr && AllReasonable(old(biosmap[..nr])) then 0 else -1
    ensures ret != 0 ==> newNr == nr && biosmap[..] == old(biosmap[..])
    ensures ret == 0 ==> 0 <= newNr <= max && biosmap[newNr..] == old(biosmap[newNr..])
    ensures ret == 0 ==> Canonical(biosmap[..newNr])
    ensures ret == 0 ==> forall a :: Accounted(biosmap[..newNr], max, a) ==>
                                     MaxType(biosmap[..newNr], a) == MaxType(old(biosmap[..nr]), a)
  {
    ret, newNr := -1, nr;
    if nr < 2 {
      return;
    }
    for i := 0 to nr
      invariant AllReasonable(biosmap[..i])
    {
      if (biosmap[i].addr + biosmap[i].size) % TWO64 < biosmap[i].addr {
        assert !biosmap[..nr][i].Reasonable();
        return;
      }
      assert biosmap[..i + 1] == biosmap[..i] + [biosmap[i]];
    }
    ghost var m := biosmap[..nr];
    var default := biosmap[0];
    var point := new ChangePoint[2 * max](_ => ChangePoint(0, 0));
    var overlap := new nat[max](_ => 0);
    var newBios := new Entry[max](_ => default);
    assert biosmap[..nr] == m;
    var chgNr := RecordChangePoints(biosmap, nr, point);
    SortChangePoints(m, biosmap, point, chgNr);
    assert Ready(m, point[..chgNr]);
    hide *;
    ghost var x;
    newNr, x := Sweep(m, biosmap, point, chgNr, overlap, newBios, max);
    Reports(m, newBios[..newNr], max, x);
    CopyBack(biosmap, newBios, newNr);
    ret := 0;
  }

  /** The final memcpy. */
  method CopyBack(biosmap: array<Entry>, newBios: array<Entry>, n: nat)
    requires n <= biosmap.Length && n <= newBios.Length && biosmap != newBios
    modifies biosmap
    ensures biosmap[..n] == newBios[..n] && biosmap[n..] == old(biosmap[n..])
  {
    for i := 0 to n
      invariant biosmap[..i] == newBios[..i] && biosmap[n..] == old(biosmap[n..])
    {
      biosmap[i] := newBios[i];
    }
  }
}
