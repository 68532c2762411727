/** Highlighting by inversion (drivers/char/vt.c:621-703): the inversion of a screen word, of a
    range of cells, and the pointer drawn on top.  Offsets count cells; the source counts bytes,
    two per cell. */
module SelectionOverlay {

  type Word = bv16

  /** How invert_screen inverts: monochrome, 512-glyph colour, or plain colour.  The colour form
      of vgacon_invert_region is the last one. */
  datatype Mode = Mono | HiFont | Colour

  function MonoInverted(a: Word): Word {
    a ^ 0x0800
  }

  function HiFontInverted(a: Word): Word {
    (a & 0x11FF) | ((a & 0xE000) >> 4) | ((a & 0x0E00) << 4)
  }

  function ColourInverted(a: Word): Word {
    (a & 0x88FF) | ((a & 0x7000) >> 4) | ((a & 0x0700) << 4)
  }

  function Invert(m: Mode, a: Word): Word {
    match m
    case Mono => MonoInverted(a)
    case HiFont => HiFontInverted(a)
    case Colour => ColourInverted(a)
  }

  lemma MonoTwice(a: Word)
    ensures MonoInverted(MonoInverted(a)) == a
  {
  }

  lemma HiFontTwice(a: Word)
    ensures HiFontInverted(HiFontInverted(a)) == a
  {
  }

  lemma ColourTwice(a: Word)
    ensures ColourInverted(ColourInverted(a)) == a
  {
  }

  /** "Inverting the screen twice should revert to the original state." */
  lemma InvertTwice(m: Mode, a: Word)
    ensures Invert(m, Invert(m, a)) == a
  {
    hide MonoInverted, HiFontInverted, ColourInverted;
    MonoTwice(a);
    HiFontTwice(a);
    ColourTwice(a);
  }

  // ---- what inversion looks like ----

  /** The colour of the glyph and the one behind it; a 512-glyph font moves both up by a bit.  A
      monochrome word has no colours. */
  function Ink(m: Mode, a: Word): Word {
    match m
    case Mono => 0
    case HiFont => (a >> 9) & 7
    case Colour => (a >> 8) & 7
  }

  function Paper(m: Mode, a: Word): Word {
    match m
    case Mono => 0
    case HiFont => (a >> 13) & 7
    case Colour => (a >> 12) & 7
  }

  /** The other bits: the glyph, blinking and intensity, but not the bit that monochrome inversion flips. */
  function Rest(m: Mode, a: Word): Word {
    match m
    case Mono => a & 0xF7FF
    case HiFont => a & 0x11FF
    case Colour => a & 0x88FF
  }

  lemma MonoFields(a: Word)
    ensures Rest(Mono, MonoInverted(a)) == Rest(Mono, a) && MonoInverted(a) & 0x0800 != a & 0x0800 && MonoInverted(a) != a
    ensures Ink(Mono, a) == 0 == Paper(Mono, a) && Ink(Mono, MonoInverted(a)) == 0 == Paper(Mono, MonoInverted(a))
  {
  }

  lemma HiFontFields(a: Word)
    ensures var b := HiFontInverted(a);
            Ink(HiFont, b) == Paper(HiFont, a) && Paper(HiFont, b) == Ink(HiFont, a) && Rest(HiFont, b) == Rest(HiFont, a)
  {
  }

  lemma ColourFields(a: Word)
    ensures var b := ColourInverted(a);
            Ink(Colour, b) == Paper(Colour, a) && Paper(Colour, b) == Ink(Colour, a) && Rest(Colour, b) == Rest(Colour, a)
  {
  }

  /** Inversion exchanges the two colours and leaves blinking, intensity and glyph alone; in monochrome it
      flips one bit. */
  lemma InvertFields(m: Mode, a: Word)
    ensures Ink(m, Invert(m, a)) == Paper(m, a) && Paper(m, Invert(m, a)) == Ink(m, a) && Rest(m, Invert(m, a)) == Rest(m, a)
    ensures m == Mono ==> Invert(m, a) & 0x0800 != a & 0x0800
  {
    hide MonoInverted, HiFontInverted, ColourInverted, Ink, Paper, Rest;
    match m {
      case Mono => MonoFields(a);
      case HiFont => HiFontFields(a);
      case Colour => ColourFields(a);
    }
  }

  /** Words with the same fields are the same. */
  lemma FieldsMakeWord(m: Mode, a: Word, b: Word)
    requires m != Mono && Ink(m, a) == Ink(m, b) && Paper(m, a) == Paper(m, b) && Rest(m, a) == Rest(m, b)
    ensures a == b
  {
  }

  /** An inverted cell looks different exactly if its colours differ, in monochrome always. */
  lemma InvertShowsIff(m: Mode, a: Word)
    ensures Invert(m, a) != a <==> m == Mono || Ink(m, a) != Paper(m, a)
  {
    hide MonoInverted, HiFontInverted, ColourInverted, Ink, Paper, Rest;
    InvertFields(m, a);
    if m == Mono {
      MonoFields(a);
    } else if Ink(m, a) == Paper(m, a) {
      FieldsMakeWord(m, Invert(m, a), a);
    }
  }

  /** The monochrome form of vgacon_invert_region. */
  function VgaMonoInverted(a: Word): Word {
    a ^ (if a & 0x0700 == 0x0100 then 0x7000 else 0x7700)
  }

  /** That form is undone by itself exactly when the low attribute bits are not 6. */
  lemma VgaMonoTwiceIff(a: Word)
    ensures VgaMonoInverted(VgaMonoInverted(a)) == a <==> a & 0x0700 != 0x0600
  {
  }

  /** A cell that selecting and deselecting leaves changed. */
  lemma VgaMonoCellLost()
    ensures VgaMonoInverted(VgaMonoInverted(0x0641)) == 0x0141
  {
  }

  /** The glyph number in a word: eight bits, and the attribute bit a 512-glyph font borrows. */
  function Glyph(m: Mode, a: Word): Word {
    (a & 0xFF) | (if m == HiFont && a & 0x100 != 0 then 0x100 else 0)
  }

  /** Inversion changes colours, never the glyph. */
  lemma InvertKeepsGlyph(m: Mode, a: Word)
    ensures Glyph(m, Invert(m, a)) == Glyph(m, a)
  {
  }

  predicate Within(lo: int, hi: int, i: int) {
    lo <= i < hi
  }

  /** Cells lo..hi-1 inverted. */
  function InvertRange(m: Mode, s: seq<Word>, lo: int, hi: int): (r: seq<Word>)
    ensures |r| == |s|
  {
    seq(|s|, i requires 0 <= i < |s| => if Within(lo, hi, i) then Invert(m, s[i]) else s[i])
  }

  /** The screen with cells [start, end] selected; start -1 means no selection. */
  function Overlay(m: Mode, base: seq<Word>, start: int, end: int): (r: seq<Word>)
    ensures |r| == |base|
  {
    if start == -1 then base else InvertRange(m, base, start, end + 1)
  }

  /** A cell of the screen looks different from the one underneath exactly if it is selected and its
      colours differ, in monochrome if it is selected. */
  lemma SelectedShowsIff(m: Mode, base: seq<Word>, start: int, end: int, i: nat)
    requires i < |base|
    ensures Overlay(m, base, start, end)[i] != base[i]
            <==> start != -1 && start <= i <= end && (m == Mono || Ink(m, base[i]) != Paper(m, base[i]))
  {
    hide Invert, Ink, Paper;
    InvertShowsIff(m, base[i]);
  }

  /** Inverting a range of an overlay toggles the selection there: the two ranges combine to a
      third one whenever each cell is selected in exactly one of them. */
  lemma Toggle(m: Mode, base: seq<Word>, lo: int, hi: int, a: int, b: int, lo': int, hi': int)
    requires forall i :: 0 <= i < |base| ==> (Within(lo', hi', i) <==> Within(lo, hi, i) != Within(a, b, i))
    ensures InvertRange(m, InvertRange(m, base, lo, hi), a, b) == InvertRange(m, base, lo', hi')
  {
    hide Invert;
    var s := InvertRange(m, base, lo, hi);
    forall i | 0 <= i < |base|
      ensures InvertRange(m, s, a, b)[i] == InvertRange(m, base, lo', hi')[i]
    {
      InvertTwice(m, base[i]);
    }
  }

  lemma EmptyRange(m: Mode, base: seq<Word>, lo: int, hi: int)
    requires hi <= lo
    ensures InvertRange(m, base, lo, hi) == base
  {
  }

  /** The visible screen of the console holding the selection, with the statics of
      complement_pos: where the pointer is and what it covers. */
  class Display {
    const screen: array<Word>
    const mode: Mode
    const mask: Word         // vc_complement_mask
    var ptr: int             // -1: no pointer
    var covered: Word        // `old` of complement_pos

    /** `under` is what the screen shows apart from the pointer. */
    ghost predicate Shows(under: seq<Word>)
      reads this, screen
    {
      && |under| == screen.Length && -1 <= ptr < screen.Length
      && (if ptr == -1 then screen[..] == under
          else covered == under[ptr] && screen[..] == under[ptr := under[ptr] ^ mask])
    }

    constructor (s: array<Word>, m: Mode, mask: Word)
      ensures screen == s && mode == m && this.mask == mask && ptr == -1 && Shows(s[..])
    {
      screen, mode, this.mask := s, m, mask;
      ptr, covered := -1, 0;
    }

    /** invert_screen, from cell lo, for n cells. */
    method InvertScreen(ghost under: seq<Word>, lo: nat, n: nat)
      requires Shows(under) && ptr == -1 && lo + n <= screen.Length
      modifies screen
      ensures Shows(InvertRange(mode, under, lo, lo + n))
    {
      hide Invert;
      for k := 0 to n
        invariant screen[..] == InvertRange(mode, under, lo, lo + k)
      {
        InvertOneMore(mode, under, lo, lo + k);
        assert screen[lo + k] == screen[..][lo + k];
        screen[lo + k] := Invert(mode, screen[lo + k]);
      }
    }

    /** complement_pos: put back what the pointer covers, then draw it at its new place. */
    method ComplementPos(ghost under: seq<Word>, offset: int)
      requires Shows(under) && -1 <= offset < screen.Length
      modifies this`ptr, this`covered, screen
      ensures Shows(under) && ptr == offset
    {
      if ptr != -1 {
        screen[ptr] := covered;
        assert screen[..] == under;
      }
      if offset == -1 {
        ptr := -1;
      } else {
        ptr := offset;
        covered := screen[ptr];
        screen[ptr] := covered ^ mask;
      }
    }
  }

  lemma InvertOneMore(m: Mode, s: seq<Word>, lo: int, hi: int)
    requires 0 <= lo <= hi < |s|
    ensures InvertRange(m, s, lo, hi)[hi] == s[hi]
    ensures InvertRange(m, s, lo, hi)[hi := Invert(m, s[hi])] == InvertRange(m, s, lo, hi + 1)
  {
  }
}
