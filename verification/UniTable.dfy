/** The three-level Unicode table of drivers/char/consolemap.c: 32 directory slots of 32 pages of
    64 glyph numbers, against the plain map from codes to glyphs that it stands for. */
module UniTable {
  import opened Common

  const MAX_GLYPH: int := 512
  const NO_GLYPH: int := 0xFFFF
  const EIO: int := 5
  const ENOMEM: int := 12

  type ushort = x: int | 0 <= x < 0x1_0000

  type Page = seq<ushort>

  type Middle = seq<Option<Page>>

  type Dir = seq<Option<Middle>>

  ghost predicate MiddleOk(m: Middle) {
    |m| == 32 && forall j :: 0 <= j < 32 && m[j].Some? ==> |m[j].value| == 64
  }

  /** 32 slots of 32 pages of 64 entries. */
  ghost predicate Ok(d: Dir) {
    |d| == 32 && forall i :: 0 <= i < 32 && d[i].Some? ==> MiddleOk(d[i].value)
  }

  function EmptyPage(): (p: Page)
    ensures |p| == 64 && forall k :: 0 <= k < 64 ==> p[k] == NO_GLYPH
  {
    seq(64, _ => 0xFFFF)
  }

  function EmptyMiddle(): (m: Middle)
    ensures |m| == 32 && forall j :: 0 <= j < 32 ==> m[j].None?
  {
    seq(32, _ => None)
  }

  /** A cleared table. */
  function Empty(): (d: Dir)
    ensures Ok(d) && forall i :: 0 <= i < 32 ==> d[i].None?
  {
    seq(32, _ => None)
  }

  /** Page number n (0 to 1023) of a table. */
  function PageAt(d: Dir, n: nat): (r: Option<Page>)
    requires Ok(d) && n < 1024
    ensures r.Some? ==> |r.value| == 64
  {
    if d[n / 32].None? then None else d[n / 32].value[n % 32]
  }

  /** The entry for a code; NO_GLYPH where there is none. */
  function Raw(d: Dir, c: ushort): ushort
    requires Ok(d)
  {
    var p := PageAt(d, c / 64);
    if p.None? then 0xFFFF else p.value[c % 64]
  }

  /** The glyph of a code, as conv_uni_to_pc and con_get_unimap see it. */
  function GlyphOf(d: Dir, c: ushort): Option<int>
    requires Ok(d)
  {
    if Raw(d, c) < MAX_GLYPH then Some(Raw(d, c)) else None
  }

  function WithPage(d: Dir, n: nat, p: Page): (r: Dir)
    requires Ok(d) && n < 1024 && |p| == 64
    ensures Ok(r)
  {
    var m := if d[n / 32].None? then EmptyMiddle() else d[n / 32].value;
    d[n / 32 := Some(m[n % 32 := Some(p)])]
  }

  lemma PageAtWithPage(d: Dir, n: nat, p: Page, k: nat)
    requires Ok(d) && n < 1024 && k < 1024 && |p| == 64
    ensures PageAt(WithPage(d, n, p), k) == if k == n then Some(p) else PageAt(d, k)
  {
  }

  function PageOrEmpty(d: Dir, n: nat): (p: Page)
    requires Ok(d) && n < 1024
    ensures |p| == 64
  {
    if PageAt(d, n).None? then EmptyPage() else PageAt(d, n).value
  }

  /** A successful insertion. */
  function Put(d: Dir, c: ushort, g: ushort): (r: Dir)
    requires Ok(d)
    ensures Ok(r)
  {
    WithPage(d, c / 64, PageOrEmpty(d, c / 64)[c % 64 := g])
  }

  lemma PutRaw(d: Dir, c: ushort, g: ushort, c': ushort)
    requires Ok(d)
    ensures Raw(Put(d, c, g), c') == if c' == c then g else Raw(d, c')
  {
    PageAtWithPage(d, c / 64, PageOrEmpty(d, c / 64)[c % 64 := g], c' / 64);
  }

  type Pairs = seq<(ushort, ushort)>

  function PutAll(d: Dir, ps: Pairs): (r: Dir)
    requires Ok(d)
    ensures Ok(r)
  {
    if |ps| == 0 then d else Put(PutAll(d, ps[..|ps| - 1]), ps[|ps| - 1].0, ps[|ps| - 1].1)
  }

  /** Reference: what a plain map holds for c after the writes ps; `before` if none is to c. */
  function LastWrite(ps: Pairs, c: ushort, before: ushort): ushort {
    if |ps| == 0 then before
    else if ps[|ps| - 1].0 == c then ps[|ps| - 1].1
    else LastWrite(ps[..|ps| - 1], c, before)
  }

  /** After any sequence of insertions, lookup is last-write-wins lookup in a plain map. */
  lemma {:induction false} PutAllRaw(d: Dir, ps: Pairs, c: ushort)
    requires Ok(d)
    ensures Raw(PutAll(d, ps), c) == LastWrite(ps, c, Raw(d, c))
  {
    if |ps| > 0 {
      var n := |ps| - 1;
      PutAllRaw(d, ps[..n], c);
      PutRaw(PutAll(d, ps[..n]), ps[n].0, ps[n].1, c);
    }
  }

  /** The checksum after inserting (c, g), in 32 bits. */
  function SumWith(sum: int, c: int, g: int): int {
    (sum + g * 0x10_0000 + c) % 0x1_0000_0000
  }

  /** The checksum adds up code and glyph, that shifted by twenty bits, in 32 bits; so the order of insertions
      plays no role. */
  lemma SumMeans(sum: int, c: int, g: int, c': int, g': int)
    ensures 0 <= SumWith(sum, c, g) < 0x1_0000_0000 && (SumWith(sum, c, g) - (sum + 1048576 * g + c)) % 0x1_0000_0000 == 0
    ensures SumWith(SumWith(sum, c, g), c', g') == SumWith(SumWith(sum, c', g'), c, g)
  {
  }

  /** con_insert_unipair, up to the checksum.  Either allocation may fail; then no lookup changes,
      though an empty middle level may stay behind. */
  method InsertUnipair(d: Dir, c: ushort, g: ushort) returns (d': Dir, ok: bool)
    requires Ok(d)
    ensures Ok(d') && (ok ==> d' == Put(d, c, g))
    ensures !ok ==> forall k: nat :: k < 1024 ==> PageAt(d', k) == PageAt(d, k)
  {
    d', ok := d, false;
    var i, j := c / 2048, c / 64 % 32;
    if d'[i].None? {
      var mem: bool := *;
      if !mem {
        return;
      }
      d' := d'[i := Some(EmptyMiddle())];
    }
    var p1 := d'[i].value;
    if p1[j].None? {
      var mem: bool := *;
      if !mem {
        return;
      }
      p1 := p1[j := Some(EmptyPage())];
    }
    var p2 := p1[j].value;
    p2 := p2[c % 64 := g];
    ghost var m := if d[i].None? then EmptyMiddle() else d[i].value;
    assert p1[j := Some(p2)] == m[j := Some(p2)];
    d' := d'[i := Some(p1[j := Some(p2)])];
    ok := true;
    assert d' == d[i := Some(m[j := Some(p2)])];
    assert i == c / 64 / 32 && p2 == PageOrEmpty(d, c / 64)[c % 64 := g];
  }

  // ---- reading a table out ----

  /** The codes below n that have glyphs, in ascending order, with their glyphs. */
  function Listing(d: Dir, n: nat): (r: Pairs)
    requires Ok(d) && n <= 0x1_0000
  {
    if n == 0 then []
    else Listing(d, n - 1) + if Raw(d, n - 1) < MAX_GLYPH then [(n - 1, Raw(d, n - 1))] else []
  }

  lemma {:induction false} ListingSkips(d: Dir, n: nat, k: nat)
    requires Ok(d) && n + k <= 0x1_0000 && forall c: ushort :: n <= c < n + k ==> Raw(d, c) >= MAX_GLYPH
    ensures Listing(d, n + k) == Listing(d, n)
  {
    if k > 0 {
      ListingSkips(d, n, k - 1);
    }
  }

  /** The listing is strictly ascending and lists exactly the codes that have glyphs. */
  lemma {:induction false} ListingExact(d: Dir, n: nat)
    requires Ok(d) && n <= 0x1_0000
    ensures forall i, j :: 0 <= i < j < |Listing(d, n)| ==> Listing(d, n)[i].0 < Listing(d, n)[j].0
    ensures forall i :: 0 <= i < |Listing(d, n)| ==>
              Listing(d, n)[i].0 < n && GlyphOf(d, Listing(d, n)[i].0) == Some(Listing(d, n)[i].1)
    ensures forall c: ushort :: c < n && GlyphOf(d, c).Some? ==> (c, GlyphOf(d, c).value) in Listing(d, n)
  {
    if n > 0 {
      ListingExact(d, n - 1);
      var before := Listing(d, n - 1);
      assert forall i :: 0 <= i < |before| ==> Listing(d, n)[i] == before[i];
    }
  }

  lemma PutAllSnoc(d: Dir, ps: Pairs, c: ushort, g: ushort, c': ushort)
    requires Ok(d)
    ensures GlyphOf(PutAll(d, ps + [(c, g)]), c') == if c' == c then (if g < MAX_GLYPH then Some(g) else None) else GlyphOf(PutAll(d, ps), c')
  {
    assert (ps + [(c, g)])[..|ps|] == ps;
    PutRaw(PutAll(d, ps), c, g, c');
  }

  lemma EmptyGlyph(c: ushort)
    ensures GlyphOf(PutAll(Empty(), []), c) == None
  {
    assert PageAt(Empty(), c / 64) == None;
  }

  lemma ListingStep(d: Dir, n: nat)
    requires Ok(d) && 0 < n <= 0x1_0000
    ensures Listing(d, n) == if Raw(d, n - 1) < MAX_GLYPH then Listing(d, n - 1) + [(n - 1, Raw(d, n - 1))] else Listing(d, n - 1)
  {
  }

  lemma {:induction false} ReloadUpTo(d: Dir, n: nat, c: ushort)
    requires Ok(d) && n <= 0x1_0000
    ensures GlyphOf(PutAll(Empty(), Listing(d, n)), c) == if c < n then GlyphOf(d, c) else None
  {
    hide PutAll, Raw, GlyphOf, Ok;
    if n == 0 {
      EmptyGlyph(c);
    } else {
      ReloadUpTo(d, n - 1, c);
      ReloadStep(d, n, c);
    }
  }

  lemma ReloadStep(d: Dir, n: nat, c: ushort)
    requires Ok(d) && 0 < n <= 0x1_0000
    requires GlyphOf(PutAll(Empty(), Listing(d, n - 1)), c) == if c < n - 1 then GlyphOf(d, c) else None
    ensures GlyphOf(PutAll(Empty(), Listing(d, n)), c) == if c < n then GlyphOf(d, c) else None
  {
    hide Listing, PutAll, Raw, Ok;
    ListingStep(d, n);
    PutAllSnoc(Empty(), Listing(d, n - 1), n - 1, Raw(d, n - 1), c);
  }

  /** Round trip: loading what con_get_unimap lists into a cleared table gives every lookup back. */
  lemma Reload(d: Dir, c: ushort)
    requires Ok(d)
    ensures GlyphOf(PutAll(Empty(), Listing(d, 0x1_0000)), c) == GlyphOf(d, c)
  {
    ReloadUpTo(d, 0x1_0000, c);
  }
}
