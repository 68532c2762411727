/** The selection of drivers/char/selection.c: choosing the range, updating the highlight step by
    step, and copying the text.  One console; offsets count cells. */
module Selection {
  import opened Common
  import opened SelectionOverlay
  import T = SelectionText

  const ENOMEM: int := 12
  const EINVAL: int := 22

  /** The selection modes of set_selection. */
  datatype SelMode = SelChar | SelWord | SelLine | SelPointer | SelClear | SelOther

  class Selector {
    const display: Display
    const rows: nat
    const cols: nat
    const charOf: Word -> int     // inverse_translate, from glyph to character
    const inWord: int -> bool     // inwordLut
    var selStart: int             // -1: no selection
    var selEnd: int
    var buffer: seq<int>          // sel_buffer[..sel_buffer_lth]
    ghost var base: seq<Word>     // the screen without selection and pointer

    ghost predicate RangeOk() reads this {
      selStart == -1 || 0 <= selStart <= selEnd < |base|
    }

    /** Exactly the cells of [selStart, selEnd] are inverted, and at most one pointer cell is
        complemented on top of that. */
    ghost predicate Drawn()
      reads this, display, display.screen
    {
      && 1 <= rows && 1 <= cols && |base| == rows * cols == display.screen.Length && RangeOk()
      && display.Shows(Overlay(display.mode, base, selStart, selEnd))
    }

    /** The characters of the underlying screen. */
    ghost function Chars(): (r: seq<int>)
      reads this`base
      ensures |r| == |base|
    {
      var b := base;
      seq(|b|, i requires 0 <= i < |b| => charOf(Glyph(display.mode, b[i])))
    }

    /** The text of cells [s, e] of the underlying screen. */
    ghost function TextOf(s: int, e: int): seq<int>
      reads this`base
      requires 0 <= s <= e < |base| && 1 <= cols
    {
      T.Text(Chars()[s..e + 1], s % cols, cols)
    }

    /** The highlight is right, and the buffer holds the text of what is highlighted. */
    ghost predicate Valid()
      reads this, display, display.screen
    {
      Drawn() && (selStart != -1 ==> buffer == TextOf(selStart, selEnd))
    }

    constructor (d: Display, rows: nat, cols: nat, charOf: Word -> int, inWord: int -> bool)
      requires 1 <= rows && 1 <= cols && d.screen.Length == rows * cols && d.ptr == -1 && d.Shows(d.screen[..])
      ensures Valid() && display == d && selStart == -1 && base == d.screen[..]
    {
      display, this.rows, this.cols, this.charOf, this.inWord := d, rows, cols, charOf, inWord;
      selStart, selEnd, buffer := -1, 0, [];
      base := d.screen[..];
    }

    /** highlight(s, e) when it turns the selection [selStart, selEnd] into [s', e']. */
    method Highlight(s: int, e: int, ghost s': int, ghost e': int)
      requires Drawn() && display.ptr == -1 && 0 <= s <= e < |base|
      requires s' == -1 || 0 <= s' <= e' < |base|
      requires Toggles(selStart, selEnd, s, e, s', e')
      modifies display.screen
      ensures display.Shows(Overlay(display.mode, base, s', e'))
    {
      hide Invert, InvertRange;
      ToggleOverlay(display.mode, base, selStart, selEnd, s, e, s', e');
      display.InvertScreen(Overlay(display.mode, base, selStart, selEnd), s, e - s + 1);
    }

    /** clear_selection: afterwards the screen is the underlying screen. */
    method ClearSelection()
      requires Drawn()
      modifies this`selStart, display, display.screen
      ensures Valid() && selStart == -1 && display.ptr == -1 && display.screen[..] == base
    {
      hide Invert, InvertRange;
      display.ComplementPos(Overlay(display.mode, base, selStart, selEnd), -1);
      if selStart != -1 {
        Highlight(selStart, selEnd, -1, selEnd);
        selStart := -1;
      }
    }

    /** The case analysis of set_selection: extend or contract at one end, or start afresh.  In
        every case exactly the new range ends up highlighted. */
    method UpdateHighlight(s: int, e: int) returns (same: bool)
      requires Drawn() && display.ptr == -1 && 0 <= s <= e < |base|
      modifies this`selStart, this`selEnd, display, display.screen
      ensures Drawn() && (selStart, selEnd) == (s, e) && display.ptr == -1
      ensures same <==> old((selStart, selEnd)) == (s, e)
    {
      hide Overlay, InvertRange, Invert;
      same := false;
      if selStart == -1 {
        Highlight(s, e, s, e);
      } else if s == selStart {
        if e == selEnd {
          return true;
        } else if e > selEnd {
          Highlight(selEnd + 1, e, s, e);
        } else {
          Highlight(e + 1, selEnd, s, e);
        }
      } else if e == selEnd {
        if s < selStart {
          Highlight(s, selStart - 1, s, e);
        } else {
          Highlight(selStart, s - 1, s, e);
        }
      } else {
        ClearSelection();
        Highlight(s, e, s, e);
      }
      selStart, selEnd := s, e;
    }

    /** sel_pos: the character seen at a cell. */
    function Seen(i: int): int
      reads display.screen
      requires 0 <= i < display.screen.Length
    {
      charOf(Glyph(display.mode, display.screen[i]))
    }

    /** Without the pointer, highlighting does not change what is read. */
    lemma SeenIsChar(i: int)
      requires Drawn() && display.ptr == -1 && 0 <= i < |base|
      ensures Seen(i) == Chars()[i]
    {
      hide Invert, Glyph;
      assert display.screen[i] == display.screen[..][i];
      InvertKeepsGlyph(display.mode, base[i]);
    }

    predicate InClass(spc: bool, c: int) {
      if spc then c == T.SPACE else inWord(c)
    }

    lemma LookIsChars()
      requires Drawn() && display.ptr == -1
      ensures Look() == Chars()
    {
      hide Overlay, Look, Chars;
      forall i | 0 <= i < |base|
        ensures Look()[i] == Chars()[i]
      {
        SeenIsChar(i);
      }
    }

    /** The whole screen as sel_pos sees it. */
    ghost function Look(): (r: seq<int>)
      reads display.screen
      ensures |r| == display.screen.Length && forall i :: 0 <= i < |r| ==> r[i] == Seen(i)
    {
      var (m, w, f) := (display.mode, display.screen[..], charOf);
      seq(|w|, i requires 0 <= i < |w| => f(Glyph(m, w[i])))
    }

    /** s is where the run of characters like the one at ps starts, within its row. */
    ghost predicate RunLeft(chars: seq<int>, ps: nat, s: nat)
      requires 1 <= cols && ps < |chars|
    {
      s <= ps && ps - s <= ps % cols &&
      var spc := chars[ps] == T.SPACE;
      if InClass(spc, chars[ps])
      then (forall i :: s <= i <= ps ==> InClass(spc, chars[i])) && (ps - s == ps % cols || !InClass(spc, chars[s - 1]))
      else s == ps
    }

    /** e is where the run of characters like the one at pe ends, within its row. */
    ghost predicate RunRight(chars: seq<int>, pe: nat, e: nat)
      requires 1 <= cols && pe < |chars|
    {
      pe <= e < |chars| && e - pe < cols - pe % cols && (e - pe != cols - pe % cols - 1 ==> e + 1 < |chars|) &&
      var spc := chars[pe] == T.SPACE;
      if InClass(spc, chars[pe])
      then (forall i :: pe <= i <= e ==> InClass(spc, chars[i])) && (e - pe == cols - pe % cols - 1 || !InClass(spc, chars[e + 1]))
      else e == pe
    }

    /** The runs spelled out: blanks from a blank, word characters from a word character, and any other
        character alone; no further than the row, and as far as they go. */
    lemma RunLeftMeans(chars: seq<int>, ps: nat, s: nat)
      requires 1 <= cols && ps < |chars| && RunLeft(chars, ps, s)
      ensures ps - s <= ps % cols
      ensures chars[ps] == 32 ==> (forall i :: s <= i <= ps ==> chars[i] == 32) && (ps - s == ps % cols || chars[s - 1] != 32)
      ensures chars[ps] != 32 && inWord(chars[ps]) ==>
                (forall i :: s <= i <= ps ==> inWord(chars[i])) && (ps - s == ps % cols || !inWord(chars[s - 1]))
      ensures chars[ps] != 32 && !inWord(chars[ps]) ==> s == ps
    {
    }

    lemma RunRightMeans(chars: seq<int>, pe: nat, e: nat)
      requires 1 <= cols && pe < |chars| && RunRight(chars, pe, e)
      ensures e - pe <= cols - pe % cols - 1
      ensures chars[pe] == 32 ==>
                (forall i :: pe <= i <= e ==> chars[i] == 32) && (e - pe == cols - pe % cols - 1 || chars[e + 1] != 32)
      ensures chars[pe] != 32 && inWord(chars[pe]) ==>
                (forall i :: pe <= i <= e ==> inWord(chars[i])) && (e - pe == cols - pe % cols - 1 || !inWord(chars[e + 1]))
      ensures chars[pe] != 32 && !inWord(chars[pe]) ==> e == pe
    {
    }

    /** The range a mode selects from cells ps <= pe, before trailing blanks are added. */
    ghost predicate Chosen(mode: SelMode, chars: seq<int>, ps: nat, pe: nat, s: nat, e: nat)
      requires 1 <= cols && ps <= pe < |chars|
    {
      match mode
      case SelChar => (s, e) == (ps, pe)
      case SelLine => s == ps - ps % cols && e == pe + cols - pe % cols - 1
      case SelWord => RunLeft(chars, ps, s) && RunRight(chars, pe, e)
      case _ => false
    }

    /** The end of the row of e, if the selection goes on to blanks that reach it; else e. */
    ghost function WithBlanks(chars: seq<int>, s: nat, e: nat): int
      requires 1 <= cols
    {
      var last := e + cols - e % cols - 1;
      if s < e && e % cols != 0 && (forall i :: e <= i <= last && i < |chars| ==> chars[i] == T.SPACE) then last else e
    }

    /** Word selection to the left: the run of like characters up to ps, within its row. */
    method WordStart(ps: nat) returns (s: nat)
      requires 1 <= cols && ps < display.screen.Length
      ensures RunLeft(Look(), ps, s)
    {
      hide T.Column, Look;
      T.ColumnIs(ps, cols);
      var spc := Seen(ps) == T.SPACE;
      s := ps;
      var p := ps;
      while true
        invariant s <= ps && 0 <= p <= ps && T.Column(ps, cols) - T.Column(p, cols) == ps - p
        invariant s == (if p == ps then ps else p + 1)
        invariant forall i :: p < i <= ps ==> InClass(spc, Seen(i))
        decreases p
      {
        if !InClass(spc, Seen(p)) {
          break;
        }
        s := p;
        T.ColumnIs(p, cols);
        if p % cols == 0 {
          break;
        }
        T.ColumnBefore(p, cols);
        p := p - 1;
      }
    }

    /** Word selection to the right. */
    method WordEnd(pe: nat) returns (e: nat)
      requires 1 <= cols && pe < rows * cols == display.screen.Length
      ensures RunRight(Look(), pe, e)
    {
      hide Look;
      var spc := Seen(pe) == T.SPACE;
      e := pe;
      var p := pe;
      while true
        invariant pe <= p && p % cols == pe % cols + (p - pe) < cols && p < rows * cols
        invariant e == (if p == pe then pe else p - 1)
        invariant forall i :: pe <= i < p ==> InClass(spc, Seen(i))
        decreases rows * cols - p
      {
        if !InClass(spc, Seen(p)) {
          break;
        }
        e := p;
        T.RowEnd(p, cols);
        if (p + 1) % cols == 0 {
          break;
        }
        SameRow(pe, p + 1 - pe, rows, cols);
        p := p + 1;
      }
      if pe % cols + (e + 1 - pe) < cols {
        SameRow(pe, e + 1 - pe, rows, cols);
      }
    }

    predicate AtEdge(p: nat)
      requires 1 <= cols
    {
      p % cols == 0 || (p + 1) % cols == 0
    }

    /** "Select to end of line if on trailing space". */
    method ToEndOfLine(s: nat, e: nat) returns (e': nat)
      requires 1 <= cols && e < rows * cols == display.screen.Length
      ensures e <= e' < rows * cols && e' == WithBlanks(Look(), s, e)
    {
      hide Look;
      e' := e;
      T.RowEnd(e, cols);
      if e > s && !AtEdge(e) && Seen(e) == T.SPACE {
        var p := e + 1;
        SameRow(e, 1, rows, cols);
        while true
          invariant e < p && p % cols == e % cols + (p - e) < cols && p < rows * cols
          invariant forall i :: e <= i < p ==> Seen(i) == T.SPACE
          decreases rows * cols - p
        {
          T.RowEnd(p, cols);
          if Seen(p) != T.SPACE || AtEdge(p) {
            break;
          }
          SameRow(e, p + 1 - e, rows, cols);
          p := p + 1;
        }
        if Seen(p) == T.SPACE {
          e' := p;
        }
      }
    }

    /** The switch over the modes. */
    method ChooseRange(mode: SelMode, ps: nat, pe: nat) returns (s: nat, e: nat)
      requires mode.SelChar? || mode.SelWord? || mode.SelLine?
      requires 1 <= cols && ps <= pe < rows * cols == display.screen.Length
      ensures s <= ps && pe <= e < rows * cols && Chosen(mode, Look(), ps, pe, s, e)
    {
      hide Look;
      match mode
      case SelWord =>
        s := WordStart(ps);
        e := WordEnd(pe);
      case SelLine =>
        s := ps - ps % cols;
        SameRow(pe, cols - pe % cols - 1, rows, cols);
        e := pe + cols - pe % cols - 1;
      case _ =>
        s, e := ps, pe;
    }

    /** The characters of cells [s, e] as sel_pos reads them. */
    method ReadChars(s: nat, e: nat) returns (chars: seq<int>)
      requires Drawn() && display.ptr == -1 && s <= e < |base|
      ensures chars == Chars()[s..e + 1]
    {
      hide Overlay, Glyph;
      chars := [];
      for i := s to e + 1
        invariant chars == Chars()[s..i]
      {
        SeenIsChar(i);
        chars := chars + [Seen(i)];
        assert Chars()[s..i + 1] == Chars()[s..i] + [Chars()[i]];
      }
    }

    /** The end of set_selection: highlight, then copy the text into a new buffer; without memory
        for it the selection is dropped. */
    method Install(s: nat, e: nat, mem: bool) returns (ret: int)
      requires Valid() && display.ptr == -1 && s <= e < |base|
      modifies this`selStart, this`selEnd, this`buffer, display, display.screen
      ensures Valid() && display.ptr == -1
      ensures ret == if mem || old((selStart, selEnd)) == (s, e) then 0 else -ENOMEM
      ensures ret == 0 ==> (selStart, selEnd) == (s, e) && buffer == TextOf(s, e)
      ensures ret != 0 ==> selStart == -1 && display.screen[..] == base && buffer == old(buffer)
    {
      hide Overlay, Chars;
      var same := UpdateHighlight(s, e);
      if same {
        return 0;
      }
      if !mem {
        ClearSelection();
        return -ENOMEM;
      }
      var chars := ReadChars(s, e);
      var bp := new int[e - s + 1];
      var length := T.CopyText(chars, s, cols, bp);
      buffer := bp[..length];
      return 0;
    }

    /** A coordinate as set_selection takes it: counted from 1, in an unsigned short, and limited
        to the screen. */
    static function Limited(v: nat, limit: nat): (r: nat)
      requires v < 0x1_0000
      ensures r <= limit
    {
      var w := (v - 1) % 0x1_0000;
      if w > limit then limit else w
    }

    /** Column or row v of a screen that has them from 1 on; 0 and what lies beyond is the last one. */
    static lemma LimitedMeans(v: nat, limit: nat)
      requires v < 0x1_0000 && limit < 0xFFFF
      ensures Limited(v, limit) == if 1 <= v <= limit + 1 then v - 1 else limit
    {
    }

    /** set_selection.  Whatever the mode, the screen afterwards shows the underlying screen with
        exactly the selected cells inverted and at most the pointer on top. */
    method SetSelection(mode: SelMode, xs: nat, ys: nat, xe: nat, ye: nat, mem: bool) returns (ret: int)
      requires Valid() && xs < 0x1_0000 && ys < 0x1_0000 && xe < 0x1_0000 && ye < 0x1_0000
      modifies this`selStart, this`selEnd, this`buffer, display, display.screen
      ensures Valid() && base == old(base)
      ensures mode.SelOther? ==> ret == -EINVAL && display.screen[..] == old(display.screen[..])
      ensures mode.SelClear? ==> ret == 0 && display.screen[..] == base
      ensures mode.SelPointer? ==> ret == 0 && (selStart, selEnd) == old((selStart, selEnd)) && display.ptr != -1
      ensures !mode.SelOther? && !mode.SelClear? && !mode.SelPointer? ==>
                display.ptr == -1 && (ret == 0 || ret == -ENOMEM) && (ret == 0 <==> selStart != -1)
      ensures ret == 0 && (mode.SelChar? || mode.SelWord? || mode.SelLine?) ==>
                var (a, b) := (OnScreen(Limited(xs, cols - 1), Limited(ys, rows - 1)), OnScreen(Limited(xe, cols - 1), Limited(ye, rows - 1)));
                && selStart <= a <= selEnd && selStart <= b <= selEnd
                && exists e :: Selects(old(Look()), mode, Min(a, b), Max(a, b), e)
    {
      hide Overlay, Chars, TextOf, Look, Selects, OnScreen, Limited;
      var x1, y1 := Limited(xs, cols - 1), Limited(ys, rows - 1);
      var x2, y2 := Limited(xe, cols - 1), Limited(ye, rows - 1);
      var ps, pe := OnScreen(x1, y1), OnScreen(x2, y2);
      if mode.SelClear? {
        ClearSelection();
        return 0;
      }
      if ps > pe {
        ps, pe := pe, ps;
      }
      assert ps == Min(OnScreen(x1, y1), OnScreen(x2, y2)) && pe == Max(OnScreen(x1, y1), OnScreen(x2, y2));
      if mode.SelPointer? {
        display.ComplementPos(Overlay(display.mode, base, selStart, selEnd), pe);
        return 0;
      }
      if mode.SelOther? {
        return -EINVAL;
      }
      ret := SelectRange(mode, ps, pe, mem);
    }

    /** set_selection from the switch on, for the modes that select. */
    method SelectRange(mode: SelMode, ps: nat, pe: nat, mem: bool) returns (ret: int)
      requires Valid() && ps <= pe < rows * cols && (mode.SelChar? || mode.SelWord? || mode.SelLine?)
      modifies this`selStart, this`selEnd, this`buffer, display, display.screen
      ensures Valid() && display.ptr == -1 && (ret == 0 || ret == -ENOMEM) && (ret == 0 <==> selStart != -1)
      ensures ret == 0 ==> selStart <= ps && pe <= selEnd && exists e :: Selects(old(Look()), mode, ps, pe, e)
    {
      hide Overlay, Chars, TextOf, Look, Chosen, WithBlanks;
      var s, e := ChooseRange(mode, ps, pe);
      display.ComplementPos(Overlay(display.mode, base, selStart, selEnd), -1);
      LookIsChars();
      var e' := ToEndOfLine(s, e);
      ret := Install(s, e', mem);
      assert ret == 0 ==> Selects(old(Look()), mode, ps, pe, e);
    }

    /** The selection is the range chosen on the screen as it was seen, up to e, with trailing blanks. */
    ghost predicate Selects(look: seq<int>, mode: SelMode, ps: nat, pe: nat, e: nat)
      reads this
      requires 1 <= cols && ps <= pe
    {
      pe < |look| && 0 <= selStart && Chosen(mode, look, ps, pe, selStart, e) && selEnd == WithBlanks(Chars(), selStart, e)
    }

    function OnScreen(x: nat, y: nat): (p: nat)
      requires x < cols && y < rows
      ensures p < rows * cols && p / cols == y && p % cols == x
    {
      T.MulGap(y, rows, cols);
      RowAndColumn(y, x, cols);
      y * cols + x
    }
  }

  /** The cell of column x and row y. */
  lemma RowAndColumn(y: nat, x: nat, cols: nat)
    requires x < cols
    ensures 0 <= y * cols && (y * cols + x) / cols == y && (y * cols + x) % cols == x
  {
    var a := y * cols + x;
    var q := a / cols;
    assert a == q * cols + a % cols;
    if q < y {
      T.MulGap(q, y, cols);
    } else if y < q {
      T.MulGap(y, q, cols);
    }
  }

  /** d cells further on in the same row is still on the screen. */
  lemma SameRow(i: nat, d: nat, rows: nat, cols: nat)
    requires 0 < cols && i < rows * cols && i % cols + d < cols
    ensures i + d < rows * cols
  {
    var q := i / cols;
    T.MulGap(q, rows, cols);
    T.MulMono(rows, q, cols);
  }

  ghost predicate Selected(s: int, e: int, i: int) {
    s != -1 && s <= i <= e
  }

  /** Inverting [a, b] turns the selection [s, e] into [s', e']. */
  ghost predicate Toggles(s: int, e: int, a: int, b: int, s': int, e': int) {
    forall i :: 0 <= i ==> (Selected(s', e', i) <==> Selected(s, e, i) != Selected(a, b, i))
  }

  lemma ToggleOverlay(m: Mode, base: seq<Word>, s: int, e: int, a: int, b: int, s': int, e': int)
    requires 0 <= a <= b && (s == -1 || 0 <= s <= e) && (s' == -1 || 0 <= s' <= e')
    requires Toggles(s, e, a, b, s', e')
    ensures InvertRange(m, Overlay(m, base, s, e), a, b + 1) == Overlay(m, base, s', e')
  {
    hide Invert, InvertRange;
    var lo, hi := if s == -1 then 0 else s, if s == -1 then 0 else e + 1;
    var lo', hi' := if s' == -1 then 0 else s', if s' == -1 then 0 else e' + 1;
    EmptyRange(m, base, 0, 0);
    forall i | 0 <= i < |base|
      ensures Within(lo', hi', i) <==> Within(lo, hi, i) != Within(a, b + 1, i)
    {
      assert Selected(s', e', i) <==> Selected(s, e, i) != Selected(a, b, i);
    }
    Toggle(m, base, lo, hi, a, b + 1, lo', hi');
  }
}
