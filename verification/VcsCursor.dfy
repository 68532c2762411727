/** The soft cursor as /dev/vcs meets it (drivers/char/vt.c:195-222, drivers/char/vc_screen.c:62-77).
    What it covers is kept once per display, but is looked up by the cursor's place on whatever console
    is accessed. */
module VcsCursor {
  import opened Common
  import opened VcsView

  /** Attribute bits set and then toggled. */
  function Toggled(typ: bv32, w: Word): Word {
    (w | (((typ >> 8) & 0xFF00) as Word)) ^ ((typ & 0xFF00) as Word)
  }

  /** i with its background toggled if that would be w's. */
  function BackContrasted(i: Word, w: Word): Word {
    if w & 0x7000 == i & 0x7000 then i ^ 0x7000 else i
  }

  /** i with the colour of its character toggled if that would be its background's. */
  function ForeContrasted(i: Word): Word {
    if i & 0x0700 == (i & 0x7000) >> 4 then i ^ 0x0700 else i
  }

  function Contrasted(back: bool, fore: bool, i: Word, w: Word): Word {
    var j := if back then BackContrasted(i, w) else i;
    if fore then ForeContrasted(j) else j
  }

  /** add_softcursor's word for w, when it draws. */
  function SoftCursor(typ: bv32, w: Word): Word {
    Contrasted(typ & 0x20 != 0, typ & 0x40 != 0, Toggled(typ, w), w)
  }

  /** The cursor sets the attribute bits of the type's third byte and then toggles those of its second. */
  lemma ToggledBits(typ: bv32, w: Word)
    ensures Lo(Toggled(typ, w)) == Lo(w)
    ensures Hi(Toggled(typ, w)) == (Hi(w) | (((typ >> 16) & 0xFF) as Byte)) ^ (((typ >> 8) & 0xFF) as Byte)
  {
  }

  /** A background that is to contrast differs from the cell's, all its bits being toggled if it would not. */
  lemma BackBits(i: Word, w: Word)
    ensures BackContrasted(i, w) & 0x7000 != w & 0x7000 && BackContrasted(i, w) & 0x8FFF == i & 0x8FFF
    ensures w & 0x7000 != i & 0x7000 ==> BackContrasted(i, w) == i
  {
  }

  /** A character that is to contrast has another colour than its background, likewise. */
  lemma ForeDiffers(i: Word)
    ensures ForeContrasted(i) & 0x0700 != (ForeContrasted(i) & 0x7000) >> 4
    ensures i & 0x0700 != (i & 0x7000) >> 4 ==> ForeContrasted(i) == i
  {
  }

  lemma ForeKeeps(i: Word)
    ensures ForeContrasted(i) & 0xF8FF == i & 0xF8FF
  {
  }

  /** Bits 5 and 6 of the type ask for the one and the other. */
  lemma SoftCursorMeans(typ: bv32, w: Word)
    ensures typ & 0x60 == 0 ==> SoftCursor(typ, w) == Toggled(typ, w)
    ensures typ & 0x60 == 0x20 ==> SoftCursor(typ, w) == BackContrasted(Toggled(typ, w), w)
    ensures typ & 0x60 == 0x40 ==> SoftCursor(typ, w) == ForeContrasted(Toggled(typ, w))
    ensures typ & 0x60 == 0x60 ==> SoftCursor(typ, w) == ForeContrasted(BackContrasted(Toggled(typ, w), w))
  {
    hide Toggled, BackContrasted, ForeContrasted;
    FlagBits(typ);
  }

  lemma FlagBits(typ: bv32)
    ensures typ & 0x60 == 0 ==> typ & 0x20 == 0 && typ & 0x40 == 0
    ensures typ & 0x60 == 0x20 ==> typ & 0x20 != 0 && typ & 0x40 == 0
    ensures typ & 0x60 == 0x40 ==> typ & 0x20 == 0 && typ & 0x40 != 0
    ensures typ & 0x60 == 0x60 ==> typ & 0x20 != 0 && typ & 0x40 != 0
  {
  }

  /** A cursor is drawn exactly if bit 4 of its type is set. */
  lemma CursorDrawn(typ: bv32, w: Word)
    ensures typ & 0x10 == 0 ==> Drawn(typ, w) == w && Covering(typ, w) == None
    ensures typ & 0x10 == 0x10 ==> Drawn(typ, w) == SoftCursor(typ, w) && Covering(typ, w) == Some(w)
  {
    hide SoftCursor;
  }

  /** The cell, and what is remembered, once w has been written under the cursor. */
  function Drawn(typ: bv32, w: Word): Word {
    if typ & 0x10 != 0 then SoftCursor(typ, w) else w
  }

  function Covering(typ: bv32, w: Word): Option<Word> {
    if typ & 0x10 != 0 then Some(w) else None
  }

  /** A soft cursor changes the attributes only. */
  lemma DrawnLow(typ: bv32, w: Word)
    ensures Lo(Drawn(typ, w)) == Lo(w)
  {
  }

  /** vcs_scr_readw at the cursor: what is remembered, if anything is. */
  function Under(cover: Option<Word>, w: Word): Word {
    if cover.Some? then cover.value else w
  }

  /** The cells as vcs_scr_readw gives them. */
  function SeenAt(cells: seq<Word>, cover: Option<Word>, pos: nat): (r: seq<Word>)
    requires pos < |cells|
    ensures |r| == |cells|
  {
    cells[pos := Under(cover, cells[pos])]
  }

  /** The cursor's cell and what is remembered before (w0, c0) and after (w1, c1) some writes: either
      none of them was to that cell, or the word last written there has been drawn. */
  predicate Touch(hit: bool, typ: bv32, w0: Word, c0: Option<Word>, w1: Word, c1: Option<Word>) {
    if hit then w1 == Drawn(typ, Under(c1, w1)) && c1 == Covering(typ, Under(c1, w1)) else (w1, c1) == (w0, c0)
  }

  lemma TouchTwice(a: bool, b: bool, typ: bv32, w0: Word, c0: Option<Word>, w1: Word, c1: Option<Word>, w2: Word, c2: Option<Word>)
    requires Touch(a, typ, w0, c0, w1, c1) && Touch(b, typ, w1, c1, w2, c2)
    ensures Touch(a || b, typ, w0, c0, w2, c2)
  {
    hide Drawn;
  }

  // ---- where a cell lies in a file ----

  /** The offset of a cell's low byte. */
  function LowAt(attr: bool, i: nat): nat {
    if attr then HEADER_SIZE + 2 * i else i
  }

  predicate Within(k: nat, p: nat, n: nat) {
    p <= k < p + n
  }

  /** Whether n bytes at p have one of cell i's. */
  predicate Hits(attr: bool, p: nat, n: nat, i: nat) {
    Within(LowAt(attr, i), p, n) || (attr && Within(LowAt(attr, i) + 1, p, n))
  }

  /** The bytes of cell i, once w, after d has been written at p. */
  function WordLow(attr: bool, w: Word, i: nat, p: nat, d: seq<Byte>): Byte {
    if Within(LowAt(attr, i), p, |d|) then d[LowAt(attr, i) - p] else Lo(w)
  }

  function WordHigh(attr: bool, w: Word, i: nat, p: nat, d: seq<Byte>): Byte {
    if attr && Within(LowAt(attr, i) + 1, p, |d|) then d[LowAt(attr, i) + 1 - p] else Hi(w)
  }

  function WordAfter(attr: bool, w: Word, i: nat, p: nat, d: seq<Byte>): Word {
    Join(WordLow(attr, w, i, p, d), WordHigh(attr, w, i, p, d))
  }

  lemma PartsJoin(v: Word)
    ensures Join(Lo(v), Hi(v)) == v
  {
  }

  lemma JoinUnique(v: Word, lo: Byte, hi: Byte)
    ensures v == Join(lo, hi) <==> Lo(v) == lo && Hi(v) == hi
  {
    hide Lo, Hi, Join;
    JoinParts(lo, hi);
    PartsJoin(v);
  }

  lemma MissedWord(attr: bool, w: Word, i: nat, p: nat, d: seq<Byte>)
    requires !Hits(attr, p, |d|, i)
    ensures WordAfter(attr, w, i, p, d) == w
  {
    JoinUnique(w, Lo(w), Hi(w));
  }

  /** The cells' bytes once d has been written at p. */
  predicate WrittenTo(attr: bool, l: seq<Word>, p: nat, d: seq<Byte>, l': seq<Word>)
    requires |l| == |l'| && p + |d| <= LowAt(attr, |l|)
  {
    if attr then CellBytes(l') == AttrPatched(CellBytes(l), p, d)
    else CharBytes(l') == Patched(CharBytes(l), p, d) && HighBytes(l') == HighBytes(l)
  }

  predicate AfterAt(attr: bool, l: seq<Word>, p: nat, d: seq<Byte>, l': seq<Word>, i: int)
    requires |l| == |l'|
  {
    0 <= i < |l| && l'[i] == WordAfter(attr, l[i], i, p, d)
  }

  /** The same, cell by cell. */
  lemma WrittenCells(attr: bool, l: seq<Word>, p: nat, d: seq<Byte>, l': seq<Word>)
    requires |l| == |l'| && p + |d| <= LowAt(attr, |l|)
    ensures WrittenTo(attr, l, p, d, l') <==> forall i :: 0 <= i < |l| ==> AfterAt(attr, l, p, d, l', i)
  {
    hide Lo, Hi, Join, CellBytes, CharBytes, HighBytes, AttrPatched, Patched;
    if WrittenTo(attr, l, p, d, l') {
      forall i | 0 <= i < |l|
        ensures AfterAt(attr, l, p, d, l', i)
      {
        CellOfBytes(attr, l, p, d, l', i);
      }
    }
    if forall i :: 0 <= i < |l| ==> AfterAt(attr, l, p, d, l', i) {
      BytesOfCells(attr, l, p, d, l');
    }
  }

  lemma WordAfterIs(attr: bool, v: Word, w: Word, i: nat, p: nat, d: seq<Byte>)
    ensures v == WordAfter(attr, w, i, p, d) <==> Lo(v) == WordLow(attr, w, i, p, d) && Hi(v) == WordHigh(attr, w, i, p, d)
  {
    hide Lo, Hi, Join;
    JoinUnique(v, WordLow(attr, w, i, p, d), WordHigh(attr, w, i, p, d));
  }

  // ---- bytes by index ----

  lemma CellByte(l: seq<Word>, i: nat)
    requires i < |l|
    ensures CellBytes(l)[2 * i] == Lo(l[i]) && CellBytes(l)[2 * i + 1] == Hi(l[i])
  {
    hide Lo, Hi;
  }

  lemma CharByte(l: seq<Word>, i: nat)
    requires i < |l|
    ensures CharBytes(l)[i] == Lo(l[i]) && HighBytes(l)[i] == Hi(l[i])
  {
    hide Lo, Hi;
  }

  lemma AttrPatchedAt(bytes: seq<Byte>, p: nat, d: seq<Byte>, k: nat)
    requires p + |d| <= HEADER_SIZE + |bytes| && k < |bytes|
    ensures AttrPatched(bytes, p, d)[k] == if Within(HEADER_SIZE + k, p, |d|) then d[HEADER_SIZE + k - p] else bytes[k]
  {
  }

  lemma PatchedAt(bytes: seq<Byte>, p: nat, d: seq<Byte>, k: nat)
    requires p + |d| <= |bytes| && k < |bytes|
    ensures Patched(bytes, p, d)[k] == if Within(k, p, |d|) then d[k - p] else bytes[k]
  {
  }

  /** The bytes of cell i are those of the file after the write exactly if its word is. */
  lemma AttrCell(l: seq<Word>, p: nat, d: seq<Byte>, l': seq<Word>, i: nat)
    requires |l| == |l'| && p + |d| <= LowAt(true, |l|) && i < |l|
    ensures l'[i] == WordAfter(true, l[i], i, p, d) <==>
            CellBytes(l')[2 * i] == AttrPatched(CellBytes(l), p, d)[2 * i] &&
            CellBytes(l')[2 * i + 1] == AttrPatched(CellBytes(l), p, d)[2 * i + 1]
  {
    hide Lo, Hi, CellBytes, AttrPatched, WordAfter;
    CellByte(l, i);
    CellByte(l', i);
    AttrPatchedAt(CellBytes(l), p, d, 2 * i);
    AttrPatchedAt(CellBytes(l), p, d, 2 * i + 1);
    WordAfterIs(true, l'[i], l[i], i, p, d);
  }

  lemma CharCell(l: seq<Word>, p: nat, d: seq<Byte>, l': seq<Word>, i: nat)
    requires |l| == |l'| && p + |d| <= LowAt(false, |l|) && i < |l|
    ensures l'[i] == WordAfter(false, l[i], i, p, d) <==>
            CharBytes(l')[i] == Patched(CharBytes(l), p, d)[i] && HighBytes(l')[i] == HighBytes(l)[i]
  {
    hide Lo, Hi, CharBytes, HighBytes, Patched, WordAfter;
    CharByte(l, i);
    CharByte(l', i);
    PatchedAt(CharBytes(l), p, d, i);
    WordAfterIs(false, l'[i], l[i], i, p, d);
  }

  lemma CellOfBytes(attr: bool, l: seq<Word>, p: nat, d: seq<Byte>, l': seq<Word>, i: nat)
    requires |l| == |l'| && p + |d| <= LowAt(attr, |l|) && WrittenTo(attr, l, p, d, l') && i < |l|
    ensures AfterAt(attr, l, p, d, l', i)
  {
    hide CellBytes, CharBytes, HighBytes, Patched, AttrPatched, WordAfter;
    if attr {
      AttrCell(l, p, d, l', i);
    } else {
      CharCell(l, p, d, l', i);
    }
  }

  lemma BytesOfCells(attr: bool, l: seq<Word>, p: nat, d: seq<Byte>, l': seq<Word>)
    requires |l| == |l'| && p + |d| <= LowAt(attr, |l|)
    requires forall i :: 0 <= i < |l| ==> AfterAt(attr, l, p, d, l', i)
    ensures WrittenTo(attr, l, p, d, l')
  {
    hide CellBytes, CharBytes, HighBytes, Patched, AttrPatched, WordAfter;
    if attr {
      forall k | 0 <= k < 2 * |l|
        ensures CellBytes(l')[k] == AttrPatched(CellBytes(l), p, d)[k]
      {
        assert AfterAt(attr, l, p, d, l', k / 2);
        AttrCell(l, p, d, l', k / 2);
        assert k == 2 * (k / 2) || k == 2 * (k / 2) + 1;
      }
    } else {
      forall i | 0 <= i < |l|
        ensures CharBytes(l')[i] == Patched(CharBytes(l), p, d)[i] && HighBytes(l')[i] == HighBytes(l)[i]
      {
        assert AfterAt(attr, l, p, d, l', i);
        CharCell(l, p, d, l', i);
      }
    }
  }

  // ---- when access through the wrong cursor is harmless ----

  /** Whether the word drawn under the cursor is the one that the write asks for. */
  predicate Harmless(attr: bool, typ: bv32, w: Word, cover: Option<Word>, pos: nat, p: nat, d: seq<Byte>) {
    !Hits(attr, p, |d|, pos) ||
    Drawn(typ, WordAfter(attr, Under(cover, w), pos, p, d)) == WordAfter(attr, w, pos, p, d)
  }

  /** Cells c0 become c1 through their cursor: the write asked for has been made exactly if it misses the
      cursor's cell or the cursor drawn over it happens to be the word asked for. */
  lemma WrittenIff(attr: bool, typ: bv32, c0: seq<Word>, o0: Option<Word>, c1: seq<Word>, o1: Option<Word>, pos: nat, p: nat, d: seq<Byte>)
    requires |c0| == |c1| && pos < |c0| && p + |d| <= LowAt(attr, |c0|)
    requires WrittenTo(attr, SeenAt(c0, o0, pos), p, d, SeenAt(c1, o1, pos))
    requires Touch(Hits(attr, p, |d|, pos), typ, c0[pos], o0, c1[pos], o1)
    ensures WrittenTo(attr, c0, p, d, c1) <==> Harmless(attr, typ, c0[pos], o0, pos, p, d)
  {
    hide Drawn, WordAfter, WrittenTo, Hits, Covering;
    var (l0, l1) := (SeenAt(c0, o0, pos), SeenAt(c1, o1, pos));
    WrittenCells(attr, l0, p, d, l1);
    WrittenCells(attr, c0, p, d, c1);
    assert AfterAt(attr, l0, p, d, l1, pos);
    if !Hits(attr, p, |d|, pos) {
      MissedWord(attr, c0[pos], pos, p, d);
    }
    forall i | 0 <= i < |c0| && i != pos
      ensures AfterAt(attr, c0, p, d, c1, i)
    {
      assert AfterAt(attr, l0, p, d, l1, i);
    }
    assert AfterAt(attr, c0, p, d, c1, pos) <==> Harmless(attr, typ, c0[pos], o0, pos, p, d);
  }

  /** The low bytes come out right in any case. */
  lemma LowBytesWritten(typ: bv32, c0: seq<Word>, o0: Option<Word>, c1: seq<Word>, o1: Option<Word>, pos: nat, p: nat, d: seq<Byte>)
    requires |c0| == |c1| && pos < |c0| && p + |d| <= |c0|
    requires WrittenTo(false, SeenAt(c0, o0, pos), p, d, SeenAt(c1, o1, pos))
    requires Touch(Hits(false, p, |d|, pos), typ, c0[pos], o0, c1[pos], o1)
    ensures CharBytes(c1) == Patched(CharBytes(c0), p, d)
  {
    hide Drawn, Lo, Hi, Join, Covering;
    var (l0, l1) := (SeenAt(c0, o0, pos), SeenAt(c1, o1, pos));
    forall i | 0 <= i < |c0|
      ensures CharBytes(c1)[i] == Patched(CharBytes(c0), p, d)[i]
    {
      assert CharBytes(l1)[i] == Patched(CharBytes(l0), p, d)[i];
      DrawnLow(typ, l1[i]);
    }
  }

  /** Whether the bytes of a file that lie between p and p + n come out right although the cursor's word is
      taken from `cover`. */
  predicate Agrees(attr: bool, w: Word, cover: Option<Word>, pos: nat, p: nat, n: nat) {
    (Within(LowAt(attr, pos), p, n) ==> Lo(Under(cover, w)) == Lo(w)) &&
    (attr && Within(LowAt(attr, pos) + 1, p, n) ==> Hi(Under(cover, w)) == Hi(w))
  }

  /** The bytes of a file with header h. */
  function FileBytes(attr: bool, h: seq<Byte>, cells: seq<Word>): (r: seq<Byte>)
    requires |h| == HEADER_SIZE
    ensures |r| == LowAt(attr, |cells|)
  {
    if attr then h + CellBytes(cells) else CharBytes(cells)
  }

  lemma ReadIff(attr: bool, h: seq<Byte>, cells: seq<Word>, cover: Option<Word>, pos: nat, p: nat, n: nat)
    requires |h| == HEADER_SIZE && pos < |cells| && p + n <= LowAt(attr, |cells|)
    ensures FileBytes(attr, h, SeenAt(cells, cover, pos))[p..p + n] == FileBytes(attr, h, cells)[p..p + n]
            <==> Agrees(attr, cells[pos], cover, pos, p, n)
  {
    hide Lo, Hi, FileBytes;
    var (v, t) := (FileBytes(attr, h, SeenAt(cells, cover, pos)), FileBytes(attr, h, cells));
    var k := LowAt(attr, pos);
    FileByte(attr, h, cells, cover, pos, k);
    if attr {
      FileByte(attr, h, cells, cover, pos, k + 1);
    }
    forall j | 0 <= j < |t| && j != k && !(attr && j == k + 1)
      ensures v[j] == t[j]
    {
      FileByte(attr, h, cells, cover, pos, j);
    }
    SameSlice(v, t, p, n);
  }

  /** A byte of the file, seen through the cursor and as it is. */
  lemma FileByte(attr: bool, h: seq<Byte>, cells: seq<Word>, cover: Option<Word>, pos: nat, j: nat)
    requires |h| == HEADER_SIZE && pos < |cells| && j < LowAt(attr, |cells|)
    ensures var (v, t) := (FileBytes(attr, h, SeenAt(cells, cover, pos)), FileBytes(attr, h, cells));
            var w := cells[pos];
            if j == LowAt(attr, pos) then v[j] == Lo(Under(cover, w)) && t[j] == Lo(w)
            else if attr && j == LowAt(attr, pos) + 1 then v[j] == Hi(Under(cover, w)) && t[j] == Hi(w)
            else v[j] == t[j]
  {
    hide Lo, Hi;
  }

  lemma {:induction false} SameSlice(v: seq<Byte>, t: seq<Byte>, p: nat, n: nat)
    requires |v| == |t| && p + n <= |v|
    ensures v[p..p + n] == t[p..p + n] <==> forall j :: p <= j < p + n ==> v[j] == t[j]
  {
    if v[p..p + n] == t[p..p + n] {
      forall j | p <= j < p + n
        ensures v[j] == t[j]
      {
        assert v[p..p + n][j - p] == t[p..p + n][j - p];
      }
    }
  }

  // ---- writes piece by piece ----

  lemma UnderDrawn(typ: bv32, w: Word)
    ensures Under(Covering(typ, w), Drawn(typ, w)) == w
  {
    hide SoftCursor;
  }

  lemma NothingWritten(attr: bool, l: seq<Word>, p: nat)
    requires p <= LowAt(attr, |l|)
    ensures WrittenTo(attr, l, p, [], l)
  {
    if attr && HEADER_SIZE <= p {
      PatchedNothing(CellBytes(l), p - HEADER_SIZE);
    }
  }

  lemma MoreWritten(attr: bool, l0: seq<Word>, p: nat, d: seq<Byte>, l1: seq<Word>, e: seq<Byte>, l2: seq<Word>)
    requires |l0| == |l1| == |l2| && p + |d| + |e| <= LowAt(attr, |l0|)
    requires WrittenTo(attr, l0, p, d, l1) && WrittenTo(attr, l1, p + |d|, e, l2)
    ensures WrittenTo(attr, l0, p, d + e, l2)
  {
    hide CellBytes, CharBytes, HighBytes, Patched, AttrPatched;
    if attr {
      AttrPatchedTwice(CellBytes(l0), p, d, e);
    } else {
      PatchedTwice(CharBytes(l0), p, d, e);
    }
  }

  lemma HitsBoth(attr: bool, p: nat, n: nat, m: nat, i: nat)
    ensures Hits(attr, p, n + m, i) <==> Hits(attr, p, n, i) || Hits(attr, p + n, m, i)
  {
  }

  lemma AttrWrittenTo(l: seq<Word>, p: nat, d: seq<Byte>, l': seq<Word>)
    requires |l| == |l'| && p + |d| <= LowAt(true, |l|)
    ensures WrittenTo(true, l, p, d, l') <==> CellBytes(l') == AttrPatched(CellBytes(l), p, d)
  {
  }

  lemma CharWrittenTo(l: seq<Word>, p: nat, d: seq<Byte>, l': seq<Word>)
    requires |l| == |l'| && p + |d| <= LowAt(false, |l|)
    ensures WrittenTo(false, l, p, d, l') <==> CharBytes(l') == Patched(CharBytes(l), p, d) && HighBytes(l') == HighBytes(l)
  {
  }

  lemma FileIs(attr: bool, h: seq<Byte>, l: seq<Word>)
    requires |h| == HEADER_SIZE
    ensures FileBytes(attr, h, l) == if attr then h + CellBytes(l) else CharBytes(l)
  {
  }

  lemma NoneWithin(i: nat, p: nat)
    ensures !Within(i, p, 0)
  {
  }

  lemma OneMoreWithin(i: nat, p: nat, k: nat)
    ensures Within(i, p, k + 1) == (Within(i, p, k) || p + k == i)
  {
  }

  lemma CharHit(i: nat, p: nat, n: nat)
    ensures Hits(false, p, n, i) == Within(i, p, n)
  {
  }

  /** What n bytes at p of the file hit, the first `skip` of them being the header's. */
  lemma HeaderHit(i: nat, p: nat, n: nat, skip: nat)
    requires p < HEADER_SIZE && skip <= n && skip <= HEADER_SIZE - p && (skip == n || skip == HEADER_SIZE - p)
    ensures Hits(true, p, n, i) == (skip < n && Hits(true, HEADER_SIZE, n - skip, i))
  {
  }

  /** What n bytes from cell q on hit: `words` whole cells, and a low byte if one is left. */
  lemma CellsHit(i: nat, q: nat, n: nat, words: nat)
    requires words == n / 2
    ensures Hits(true, HEADER_SIZE + 2 * q, n, i) == (Within(i, q, words) || (2 * words < n && q + words == i))
  {
  }

  /** A run that starts with a high byte. */
  lemma LeadHits(i: nat, p: nat, n: nat)
    requires 0 < n && p % 2 == 1
    ensures Hits(true, HEADER_SIZE + p, n, i) == (p / 2 == i || Hits(true, HEADER_SIZE + p + 1, n - 1, i))
  {
  }

  // ---- header and cells ----

  /** The header after d has been written at p of the file. */
  function HeaderPatched(h: seq<Byte>, p: nat, d: seq<Byte>): (r: seq<Byte>)
    requires |h| == HEADER_SIZE
    ensures |r| == HEADER_SIZE
  {
    if HEADER_SIZE <= p then h else Patched(h, p, d[..Min(HEADER_SIZE - p, |d|)])
  }

  /** A file is patched exactly if its header and its cells are. */
  lemma FileSplit(h: seq<Byte>, b: seq<Byte>, h': seq<Byte>, b': seq<Byte>, p: nat, d: seq<Byte>)
    requires |h| == |h'| == HEADER_SIZE && |b| == |b'| && p + |d| <= HEADER_SIZE + |b|
    ensures h' + b' == Patched(h + b, p, d) <==> h' == HeaderPatched(h, p, d) && b' == AttrPatched(b, p, d)
  {
    PatchedParts(h, b, p, d);
    var v := HeaderPatched(h, p, d) + AttrPatched(b, p, d);
    if h' + b' == v {
      assert (h' + b')[..HEADER_SIZE] == h' && v[..HEADER_SIZE] == HeaderPatched(h, p, d);
      assert (h' + b')[HEADER_SIZE..] == b' && v[HEADER_SIZE..] == AttrPatched(b, p, d);
    }
  }

  lemma PatchedParts(h: seq<Byte>, b: seq<Byte>, p: nat, d: seq<Byte>)
    requires |h| == HEADER_SIZE && p + |d| <= HEADER_SIZE + |b|
    ensures Patched(h + b, p, d) == HeaderPatched(h, p, d) + AttrPatched(b, p, d)
  {
  }
}
