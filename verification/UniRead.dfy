/** Reading the Unicode table: conv_uni_to_pc and con_get_unimap
    (drivers/char/consolemap.c:583-650). */
module UniRead {
  import opened Common
  import opened UniTable

  const UNI_DIRECT_BASE: int := 0xF000
  const UNI_DIRECT_SPAN: int := 0x200

  /** conv_uni_to_pc: the font position of a code, or -1 (not printable), -2 (zero width), -3 (no
      table), -4 (not found).  Codes above 16 bits are looked up as U+FFFD. */
  function ConvUniToPc(table: Option<Dir>, ucs: int): (r: int)
    requires table.Some? ==> Ok(table.value)
    ensures r < MAX_GLYPH
    ensures 0 <= r ==> r == ucs - UNI_DIRECT_BASE
                       || (table.Some? && GlyphOf(table.value, if ucs > 0xFFFF then 0xFFFD else if ucs < 0 then 0 else ucs) == Some(r))
  {
    if ucs <= 0xFFFF && (ucs < 0x20 || ucs >= 0xFFFE) then -1
    else if ucs <= 0xFFFF && (ucs == 0xFEFF || 0x200A <= ucs <= 0x200F) then -2
    else if UNI_DIRECT_BASE <= ucs < UNI_DIRECT_BASE + UNI_DIRECT_SPAN then ucs - UNI_DIRECT_BASE
    else if table.None? then -3
    else
      var c := if ucs > 0xFFFF then 0xFFFD else ucs;
      if Raw(table.value, c) < MAX_GLYPH then Raw(table.value, c) else -4
  }

  /** Looking up a printable code outside the direct zone after any insertions gives the last glyph
      written for it, and -4 if there is none below 512. */
  lemma ConvAfterInsertions(d: Dir, ps: Pairs, c: ushort)
    requires Ok(d) && 0x20 <= c < 0xFFFE && c != 0xFEFF && !(0x200A <= c <= 0x200F)
    requires !(UNI_DIRECT_BASE <= c < UNI_DIRECT_BASE + UNI_DIRECT_SPAN)
    ensures var g := LastWrite(ps, c, Raw(d, c)); ConvUniToPc(Some(PutAll(d, ps)), c) == if g < MAX_GLYPH then g else -4
  {
    PutAllRaw(d, ps, c);
  }

  /** The answer for every code. */
  lemma ConvMeans(table: Option<Dir>, ucs: int)
    requires table.Some? ==> Ok(table.value)
    ensures ucs > 0xFFFF ==> ConvUniToPc(table, ucs) == ConvUniToPc(table, 0xFFFD)
    ensures ucs < 0x20 || ucs == 0xFFFE || ucs == 0xFFFF ==> ConvUniToPc(table, ucs) == -1
    ensures ucs == 0xFEFF || 0x200A <= ucs <= 0x200F ==> ConvUniToPc(table, ucs) == -2
    ensures 0xF000 <= ucs <= 0xF1FF ==> ConvUniToPc(table, ucs) == ucs - 0xF000
    ensures Ordinary(ucs) ==>
              ConvUniToPc(table, ucs) == match table
                                         case None => -3
                                         case Some(d) => if Raw(d, ucs) < 512 then Raw(d, ucs) else -4
  {
    hide Raw, Ok;
  }

  /** A code that is looked up. */
  predicate Ordinary(c: int) {
    0x20 <= c < 0xFFFE && c != 0xFEFF && !(0x200A <= c <= 0x200F) && !(0xF000 <= c <= 0xF1FF)
  }

  /** For every code: insertions change the answer for ordinary codes only, where it is the last glyph written
      or -4, and for codes above 16 bits, which answer as U+FFFD does. */
  lemma ConvAfterAny(d: Dir, ps: Pairs, ucs: int)
    requires Ok(d)
    ensures var (before, after) := (ConvUniToPc(Some(d), ucs), ConvUniToPc(Some(PutAll(d, ps)), ucs));
            var c := if ucs > 0xFFFF then 0xFFFD else ucs;
            if Ordinary(c) then
              var g := LastWrite(ps, c, Raw(d, c));
              after == if g < 512 then g else -4
            else after == before
  {
    hide Raw, Ok, LastWrite;
    var c := if ucs > 0xFFFF then 0xFFFD else ucs;
    if Ordinary(c) {
      PutAllRaw(d, ps, c);
    }
    ConvMeans(Some(d), ucs);
    ConvMeans(Some(PutAll(d, ps)), ucs);
  }

  function Clip(s: Pairs, n: nat): (r: Pairs) {
    if |s| <= n then s else s[..n]
  }

  lemma ClipNothing(n: nat)
    ensures Clip([], n) == []
  {
  }

  lemma ClipSnoc(s: Pairs, x: (ushort, ushort), n: nat)
    ensures Clip(s + [x], n) == if |s| < n then Clip(s, n) + [x] else Clip(s, n)
  {
  }

  /** The innermost loop of con_get_unimap, over one page. */
  method ListPage(d: Dir, n: nat, page: Page, ct: nat, ect: nat, out: Pairs) returns (ect': nat, out': Pairs)
    requires Ok(d) && n < 1024 && PageAt(d, n) == Some(page)
    requires ect == |Listing(d, 64 * n)| && out == Clip(Listing(d, 64 * n), ct)
    ensures ect' == |Listing(d, 64 * n + 64)| && out' == Clip(Listing(d, 64 * n + 64), ct)
  {
    hide Listing, Clip, Ok;
    ect', out' := ect, out;
    for k := 0 to 64
      invariant ect' == |Listing(d, 64 * n + k)| && out' == Clip(Listing(d, 64 * n + k), ct)
    {
      ListingStep(d, 64 * n + k + 1);
      assert Raw(d, 64 * n + k) == page[k];
      if page[k] < MAX_GLYPH {
        ClipSnoc(Listing(d, 64 * n + k), (64 * n + k, page[k]), ct);
        if ect' < ct {
          out' := out' + [(64 * n + k, page[k])];
        }
        ect' := ect' + 1;
      }
    }
  }

  lemma SkipPage(d: Dir, n: nat)
    requires Ok(d) && n < 1024 && PageAt(d, n).None?
    ensures Listing(d, 64 * n + 64) == Listing(d, 64 * n)
  {
    hide Listing;
    ListingSkips(d, 64 * n, 64);
  }

  lemma SkipMiddle(d: Dir, i: nat)
    requires Ok(d) && i < 32 && d[i].None?
    ensures Listing(d, 2048 * i + 2048) == Listing(d, 2048 * i)
  {
    hide Listing;
    ListingSkips(d, 2048 * i, 2048);
  }

  /** con_get_unimap: the first `ct` pairs of the listing, its length as a 16-bit number, and -ENOMEM
      when the user's array was too short. */
  method GetUnimap(table: Option<Dir>, ct: ushort) returns (ret: int, uct: ushort, out: Pairs)
    requires table.Some? ==> Ok(table.value)
    ensures table.None? ==> ret == 0 && uct == 0 && out == []
    ensures table.Some? ==>
              var l := Listing(table.value, 0x1_0000);
              uct == |l| % 0x1_0000 && out == Clip(l, ct) && ret == if |l| <= ct then 0 else -ENOMEM
  {
    hide Clip, Listing, Ok;
    var ect: nat;
    ect, out := 0, [];
    ClipNothing(ct);
    if table.Some? {
      var d := table.value;
      NothingListed(d);
      for i := 0 to 32
        invariant ect == |Listing(d, 2048 * i)| && out == Clip(Listing(d, 2048 * i), ct)
      {
        ect, out := ListMiddle(d, i, ct, ect, out);
      }
    }
    uct := ect % 0x1_0000;
    ret := if ect <= ct then 0 else -ENOMEM;
  }

  lemma NothingListed(d: Dir)
    requires Ok(d)
    ensures Listing(d, 0) == []
  {
  }

  /** The length reported is the true one exactly if some code has no glyph; a table with a glyph for
      every code is reported as empty. */
  lemma CountExactIff(d: Dir)
    requires Ok(d)
    ensures |Listing(d, 0x1_0000)| % 0x1_0000 == |Listing(d, 0x1_0000)| <==> exists c: ushort :: GlyphOf(d, c).None?
    ensures (forall c: ushort :: GlyphOf(d, c).Some?) ==> |Listing(d, 0x1_0000)| % 0x1_0000 == 0
  {
    hide Listing, GlyphOf;
    ListingFull(d, 0x1_0000);
  }

  lemma {:induction false} ListingFull(d: Dir, n: nat)
    requires Ok(d) && n <= 0x1_0000
    ensures |Listing(d, n)| <= n && (|Listing(d, n)| == n <==> forall c: ushort :: c < n ==> GlyphOf(d, c).Some?)
  {
    hide Raw;
    if n > 0 {
      ListingFull(d, n - 1);
      var c: ushort := n - 1;
      assert GlyphOf(d, c).Some? <==> Raw(d, c) < MAX_GLYPH;
    }
  }

  method ListMiddle(d: Dir, i: nat, ct: nat, ect: nat, out: Pairs) returns (ect': nat, out': Pairs)
    requires Ok(d) && i < 32
    requires ect == |Listing(d, 2048 * i)| && out == Clip(Listing(d, 2048 * i), ct)
    ensures ect' == |Listing(d, 2048 * i + 2048)| && out' == Clip(Listing(d, 2048 * i + 2048), ct)
  {
    hide Listing, Clip;
    ect', out' := ect, out;
    if d[i].None? {
      SkipMiddle(d, i);
      return;
    }
    var p1 := d[i].value;
    for j := 0 to 32
      invariant ect' == |Listing(d, 64 * (32 * i + j))| && out' == Clip(Listing(d, 64 * (32 * i + j)), ct)
    {
      assert PageAt(d, 32 * i + j) == p1[j];
      if p1[j].Some? {
        ect', out' := ListPage(d, 32 * i + j, p1[j].value, ct, ect', out');
      } else {
        SkipPage(d, 32 * i + j);
      }
    }
  }
}
