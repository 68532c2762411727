/** The private copy that con_set_unimap makes of a shared table
    (drivers/char/consolemap.c:473-499).  The code counter `l` advances over the pages that are
    present, so absent pages are squeezed out of the copy. */
module UniCopy {
  import opened Common
  import opened UniTable

  ghost predicate Present(d: Dir, n: nat)
    requires Ok(d)
  {
    n < 1024 && PageAt(d, n).Some?
  }

  /** The number of pages present below page n: where the copy puts page n. */
  ghost function Rank(d: Dir, n: nat): (r: nat)
    requires Ok(d) && n <= 1024
    ensures r <= n
  {
    if n == 0 then 0 else Rank(d, n - 1) + if Present(d, n - 1) then 1 else 0
  }

  /** Page m of d stands in q, at the place its rank gives it. */
  ghost predicate PageCopied(d: Dir, q: Dir, m: nat)
    requires Ok(d) && Ok(q) && Present(d, m)
  {
    Rank(d, m) < 1024 && forall k: nat :: k < 64 ==> Raw(q, 64 * Rank(d, m) + k) == PageAt(d, m).value[k]
  }

  /** q holds the first n pages of d, squeezed together, and nothing else. */
  ghost predicate Squeezed(d: Dir, n: nat, q: Dir)
    requires Ok(d) && n <= 1024
  {
    && Ok(q)
    && (forall m: nat :: m < n && Present(d, m) ==> PageCopied(d, q, m))
    && (forall c: ushort :: 64 * Rank(d, n) <= c ==> Raw(q, c) == NO_GLYPH)
  }

  lemma {:induction false} RankMonotone(d: Dir, m: nat, n: nat)
    requires Ok(d) && m <= n <= 1024
    ensures Rank(d, m) <= Rank(d, n) <= Rank(d, m) + (n - m)
    ensures Present(d, m) && m < n ==> Rank(d, m) < Rank(d, n)
  {
    if m < n {
      RankMonotone(d, m, n - 1);
    }
  }

  /** Each position of the copy comes from some page of the original. */
  lemma {:induction false} RankReaches(d: Dir, n: nat, r: nat) returns (m: nat)
    requires Ok(d) && n <= 1024 && r < Rank(d, n)
    ensures m < n && Present(d, m) && Rank(d, m) == r
  {
    if r < Rank(d, n - 1) {
      m := RankReaches(d, n - 1, r);
    } else {
      m := n - 1;
    }
  }

  ghost predicate HasGlyphs(d: Dir, n: nat)
    requires Ok(d)
  {
    Present(d, n) && exists k :: 0 <= k < 64 && PageAt(d, n).value[k] != NO_GLYPH
  }

  /** No page is absent below a page that has entries. */
  ghost predicate Gapless(d: Dir)
    requires Ok(d)
  {
    forall m: nat, n: nat :: m < n < 1024 && HasGlyphs(d, n) ==> Present(d, m)
  }

  lemma {:induction false} RankFull(d: Dir, n: nat)
    requires Ok(d) && n <= 1024
    ensures Rank(d, n) == n <==> forall m: nat :: m < n ==> Present(d, m)
  {
    if n > 0 {
      RankFull(d, n - 1);
    }
  }

  /** In a gapless table a page with entries is copied to its own place. */
  lemma GaplessRank(d: Dir, n: nat)
    requires Ok(d) && n < 1024 && Gapless(d) && HasGlyphs(d, n)
    ensures Rank(d, n) == n
  {
    RankFull(d, n);
  }

  lemma BlankInOriginal(d: Dir, c: ushort)
    requires Ok(d) && !HasGlyphs(d, c / 64)
    ensures Raw(d, c) == NO_GLYPH
  {
    if PageAt(d, c / 64).Some? {
      assert PageAt(d, c / 64).value[c % 64] == NO_GLYPH;
    }
  }

  /** At a place of the copy that its own page does not fill there is no entry. */
  lemma BlankInCopy(d: Dir, q: Dir, c: ushort)
    requires Ok(d) && Gapless(d) && Squeezed(d, 1024, q) && !HasGlyphs(d, c / 64)
    ensures Ok(q) && Raw(q, c) == NO_GLYPH
  {
    hide Rank, Gapless, Raw, Ok;
    var n, k := c / 64, c % 64;
    if n < Rank(d, 1024) {
      var m := RankReaches(d, 1024, n);
      if HasGlyphs(d, m) {
        GaplessRank(d, m);
      }
      assert PageCopied(d, q, m);
      assert PageAt(d, m).value[k] == NO_GLYPH;
    }
  }

  lemma CopyAgreesAt(d: Dir, q: Dir, c: ushort)
    requires Ok(d) && Gapless(d) && Squeezed(d, 1024, q)
    ensures Ok(q) && Raw(q, c) == Raw(d, c)
  {
    hide Rank, Gapless;
    if HasGlyphs(d, c / 64) {
      GaplessRank(d, c / 64);
      assert PageCopied(d, q, c / 64);
      assert Raw(q, 64 * (c / 64) + c % 64) == PageAt(d, c / 64).value[c % 64];
    } else {
      BlankInOriginal(d, c);
      BlankInCopy(d, q, c);
    }
  }

  lemma {:induction false} LastWithGlyphs(d: Dir, n: nat, from: nat) returns (m: nat)
    requires Ok(d) && n <= 1024 && from < n && HasGlyphs(d, from)
    ensures from <= m < n && HasGlyphs(d, m) && forall l: nat :: m < l < n ==> !HasGlyphs(d, l)
  {
    if HasGlyphs(d, n - 1) {
      m := n - 1;
    } else {
      m := LastWithGlyphs(d, n - 1, from);
    }
  }

  lemma RankBelow(d: Dir, gap: nat, m: nat)
    requires Ok(d) && gap < m <= 1024 && !Present(d, gap)
    ensures Rank(d, m) < m
  {
    RankFull(d, m);
  }

  lemma NotCopiedThere(d: Dir, q: Dir, m: nat, k: nat)
    requires Ok(d) && Squeezed(d, 1024, q) && m < 1024 && k < 64 && Rank(d, m) < m
    requires forall i: nat :: m < i < 1024 ==> !HasGlyphs(d, i)
    ensures Raw(q, 64 * m + k) == NO_GLYPH
  {
    hide Rank, Raw, Ok;
    if m < Rank(d, 1024) {
      var l := RankReaches(d, 1024, m);
      PastLast(d, l, m);
      assert PageCopied(d, q, l);
      assert PageAt(d, l).value[k] == NO_GLYPH;
    }
  }

  /** With a gap, the last page with entries is lost from its place. */
  lemma GapLosesPage(d: Dir, q: Dir, gap: nat, n: nat) returns (c: ushort)
    requires Ok(d) && Squeezed(d, 1024, q) && gap < n < 1024 && HasGlyphs(d, n) && !Present(d, gap)
    ensures Ok(q) && Raw(d, c) != NO_GLYPH && Raw(q, c) == NO_GLYPH
  {
    hide Rank, Ok, Squeezed;
    SqueezedOk(d, q);
    var m := LastWithGlyphs(d, 1024, n);
    var k :| 0 <= k < 64 && PageAt(d, m).value[k] != NO_GLYPH;
    c := 64 * m + k;
    RankBelow(d, gap, m);
    NotCopiedThere(d, q, m, k);
  }

  lemma SqueezedOk(d: Dir, q: Dir)
    requires Ok(d) && Squeezed(d, 1024, q)
    ensures Ok(q)
  {
  }

  lemma PastLast(d: Dir, l: nat, m: nat)
    requires Ok(d) && l < 1024 && m < 1024 && Present(d, l) && Rank(d, l) == m && Rank(d, m) < m
    requires forall i: nat :: m < i < 1024 ==> !HasGlyphs(d, i)
    ensures !HasGlyphs(d, l)
  {
    if l <= m {
      RankMonotone(d, l, m);
    }
  }

  /** The copy preserves every lookup exactly when the table is gapless. */
  lemma CopyFaithfulIff(d: Dir, q: Dir)
    requires Ok(d) && Squeezed(d, 1024, q)
    ensures (forall c: ushort :: Raw(q, c) == Raw(d, c)) <==> Gapless(d)
  {
    if Gapless(d) {
      forall c: ushort
        ensures Raw(q, c) == Raw(d, c)
      {
        CopyAgreesAt(d, q, c);
      }
    } else {
      var m: nat, n: nat :| m < n < 1024 && HasGlyphs(d, n) && !Present(d, m);
      var c := GapLosesPage(d, q, m, n);
    }
  }

  /** A shared table with the one code U+2500: its copy has lost it. */
  lemma LoneCodeLost(q: Dir)
    requires Squeezed(PutAll(Empty(), [(0x2500, 1)]), 1024, q)
    ensures Raw(PutAll(Empty(), [(0x2500, 1)]), 0x2500) == 1 && Raw(q, 0x2500) == NO_GLYPH
  {
    hide Rank, Squeezed;
    var d := PutAll(Empty(), [(0x2500, 1)]);
    LoneCode();
    RankBelow(d, 0, 148);
    NotCopiedThere(d, q, 148, 0);
  }

  lemma LoneCode()
    ensures var d := PutAll(Empty(), [(0x2500, 1)]);
            Raw(d, 0x2500) == 1 && !Present(d, 0) && forall n: nat :: n < 1024 && n != 148 ==> !HasGlyphs(d, n)
  {
    var d := PutAll(Empty(), [(0x2500, 1)]);
    assert [(0x2500, 1)][..0] == [];
    assert d == Put(Empty(), 0x2500, 1);
    PutRaw(Empty(), 0x2500, 1, 0x2500);
    forall n: nat | n < 1024
      ensures PageAt(d, n).Some? ==> n == 148
    {
      PageAtWithPage(Empty(), 148, PageOrEmpty(Empty(), 148)[0 := 1], n);
    }
  }

  // ---- the copy loop ----

  lemma SqueezedStart(d: Dir)
    requires Ok(d)
    ensures Squeezed(d, 0, Empty())
  {
    forall c: ushort
      ensures Raw(Empty(), c) == NO_GLYPH
    {
      assert PageAt(Empty(), c / 64).None?;
    }
  }

  lemma SqueezedSkip(d: Dir, n: nat, q: Dir)
    requires Ok(d) && n < 1024 && Squeezed(d, n, q) && !Present(d, n)
    ensures Squeezed(d, n + 1, q)
  {
  }

  lemma {:induction false} SqueezedSkipMany(d: Dir, n: nat, q: Dir, k: nat)
    requires Ok(d) && n + k <= 1024 && Squeezed(d, n, q) && forall m: nat :: n <= m < n + k ==> !Present(d, m)
    ensures Squeezed(d, n + k, q)
  {
    if k > 0 {
      SqueezedSkipMany(d, n, q, k - 1);
      SqueezedSkip(d, n + k - 1, q);
    }
  }

  /** q has the first n pages and the first k entries of page n. */
  ghost predicate SqueezedPart(d: Dir, n: nat, k: nat, q: Dir)
    requires Ok(d) && Present(d, n) && k <= 64
  {
    && Ok(q)
    && (forall m: nat :: m < n && Present(d, m) ==> PageCopied(d, q, m))
    && (forall i: nat :: i < k ==> Raw(q, 64 * Rank(d, n) + i) == PageAt(d, n).value[i])
    && (forall c: ushort :: 64 * Rank(d, n) + k <= c ==> Raw(q, c) == NO_GLYPH)
  }

  /** Writing entry k at code l changes only that code. */
  lemma PartStep(d: Dir, n: nat, k: nat, q: Dir, q': Dir)
    requires Ok(d) && Present(d, n) && k < 64 && SqueezedPart(d, n, k, q) && Ok(q')
    requires forall c: ushort :: Raw(q', c) == if c == 64 * Rank(d, n) + k then PageAt(d, n).value[k] else Raw(q, c)
    ensures SqueezedPart(d, n, k + 1, q')
  {
    hide Raw, Ok, PageAt;
    forall m: nat | m < n && Present(d, m)
      ensures PageCopied(d, q', m)
    {
      RankMonotone(d, m, n);
      assert PageCopied(d, q, m);
    }
  }

  lemma PartDone(d: Dir, n: nat, q: Dir)
    requires Ok(d) && Present(d, n) && SqueezedPart(d, n, 64, q)
    ensures Squeezed(d, n + 1, q)
  {
    hide Raw, Ok;
    RankNext(d, n);
    assert PageCopied(d, q, n);
  }

  lemma RankNext(d: Dir, n: nat)
    requires Ok(d) && Present(d, n)
    ensures Rank(d, n + 1) == Rank(d, n) + 1 && Rank(d, n) < 1024
  {
  }

  lemma PartStart(d: Dir, n: nat, q: Dir)
    requires Ok(d) && Present(d, n) && Squeezed(d, n, q)
    ensures SqueezedPart(d, n, 0, q)
  {
    hide Raw, Ok;
  }

  /** The innermost loop, over one page that is present; l counts on. */
  method CopyPage(d: Dir, ghost n: nat, page: Page, l: nat, q: Dir, sum: int) returns (q': Dir, l': nat, ok: bool, sum': int)
    requires Ok(d) && Present(d, n) && PageAt(d, n) == Some(page) && l == 64 * Rank(d, n) && Squeezed(d, n, q)
    ensures Ok(q')
    ensures ok ==> l' == 64 * Rank(d, n + 1) && Squeezed(d, n + 1, q')
  {
    hide Raw, Ok, Rank, Squeezed, SqueezedPart, Put;
    PartStart(d, n, q);
    RankNext(d, n);
    q', l', ok, sum' := q, l, true, sum;
    PartOk(d, n, 0, q);
    for k := 0 to 64
      invariant ok && l' == l + k && Ok(q') && SqueezedPart(d, n, k, q')
    {
      ghost var before := q';
      if page[k] != NO_GLYPH {
        q', ok := InsertUnipair(q', l', page[k]);
        if !ok {
          return;
        }
        sum' := SumWith(sum', l', page[k]);
        forall c: ushort
          ensures Raw(q', c) == if c == l' then page[k] else Raw(before, c)
        {
          PutRaw(before, l', page[k], c);
        }
      } else {
        PartBlank(d, n, k, q');
      }
      PartStep(d, n, k, before, q');
      l' := l' + 1;
    }
    PartDone(d, n, q');
  }

  lemma PartOk(d: Dir, n: nat, k: nat, q: Dir)
    requires Ok(d) && Present(d, n) && k <= 64 && SqueezedPart(d, n, k, q)
    ensures Ok(q)
  {
  }

  lemma PartBlank(d: Dir, n: nat, k: nat, q: Dir)
    requires Ok(d) && Present(d, n) && k < 64 && SqueezedPart(d, n, k, q)
    ensures Ok(q) && Rank(d, n) < 1024 && Raw(q, 64 * Rank(d, n) + k) == NO_GLYPH
  {
    RankNext(d, n);
  }

  /** The copy loop: on success the copy is the squeezed table. */
  method CopyTable(d: Dir) returns (q: Dir, ok: bool, sum: int)
    requires Ok(d)
    ensures Ok(q) && (ok ==> Squeezed(d, 1024, q))
  {
    hide Raw, Squeezed, Rank;
    q, ok, sum := Empty(), true, 0;
    var l := 0;
    SqueezedStart(d);
    RankZero(d);
    for i := 0 to 32
      invariant ok && Ok(q) && Squeezed(d, 32 * i, q) && l == 64 * Rank(d, 32 * i)
    {
      if d[i].None? {
        assert forall m: nat :: 32 * i <= m < 32 * i + 32 ==> !Present(d, m);
        SqueezedSkipMany(d, 32 * i, q, 32);
        RankSkipMany(d, 32 * i, 32);
      } else {
        q, l, ok, sum := CopyMiddle(d, i, l, q, sum);
        if !ok {
          return;
        }
      }
    }
  }

  method CopyMiddle(d: Dir, i: nat, l: nat, q: Dir, sum: int) returns (q': Dir, l': nat, ok: bool, sum': int)
    requires Ok(d) && Ok(q) && i < 32 && d[i].Some? && Squeezed(d, 32 * i, q) && l == 64 * Rank(d, 32 * i)
    ensures Ok(q') && (ok ==> Squeezed(d, 32 * i + 32, q') && l' == 64 * Rank(d, 32 * i + 32))
  {
    hide Raw, Squeezed, Rank;
    q', l', ok, sum' := q, l, true, sum;
    var p1 := d[i].value;
    for j := 0 to 32
      invariant ok && Ok(q') && Squeezed(d, 32 * i + j, q') && l' == 64 * Rank(d, 32 * i + j)
    {
      assert PageAt(d, 32 * i + j) == p1[j];
      if p1[j].Some? {
        q', l', ok, sum' := CopyPage(d, 32 * i + j, p1[j].value, l', q', sum');
        if !ok {
          return;
        }
      } else {
        SqueezedSkip(d, 32 * i + j, q');
        RankSkipMany(d, 32 * i + j, 1);
      }
    }
  }

  lemma RankZero(d: Dir)
    requires Ok(d)
    ensures Rank(d, 0) == 0
  {
  }

  lemma {:induction false} RankSkipMany(d: Dir, n: nat, k: nat)
    requires Ok(d) && n + k <= 1024 && forall m: nat :: n <= m < n + k ==> !Present(d, m)
    ensures Rank(d, n + k) == Rank(d, n)
  {
    if k > 0 {
      RankSkipMany(d, n, k - 1);
    }
  }
}
