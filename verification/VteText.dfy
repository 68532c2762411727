/** What text and editing do to the cells of the screen: text runs on over the ends of lines, line
    feeds scroll only the region, inserting and deleting shift the rest of the row
    (drivers/char/vt.c:330-361, 430-492, 1306-1347; drivers/char/decvte.c:88-121, 853-899). */
module VteText {
  import opened Screen
  import opened VteState
  import opened VteScreen
  import opened VteCommands
  import opened VteParser
  import Utf8

  // ---- text ----

  /** A byte that shows a glyph whatever the modes. */
  ghost predicate Printable(d: Driver, b: Utf8.byte) {
    32 <= b && b != 127 && b != 155 && HasGlyph(d, Glyph(d, b))
  }

  ghost predicate AllPrintable(d: Driver, bs: seq<Utf8.byte>) {
    forall i :: 0 <= i < |bs| ==> Printable(d, bs[i])
  }

  /** Autowrap on, replace mode, no sequence begun. */
  predicate Typing(vc: Vc) {
    vc.parser.state == Init && vc.modes.decawm && !vc.modes.irm
  }

  /** The cells that show a text. */
  function Image(d: Driver, attr: int, bs: seq<Utf8.byte>): (r: seq<int>)
    ensures |r| == |bs|
  {
    seq(|bs|, i requires 0 <= i < |bs| => d.compose(attr, Glyph(d, bs[i])))
  }

  function Overwritten(cells: seq<int>, at: nat, image: seq<int>): (r: seq<int>)
    requires at + |image| <= |cells|
    ensures |r| == |cells|
  {
    cells[..at] + image + cells[at + |image|..]
  }

  /** Where the next glyph goes: the cursor's cell, or the start of the next row if a wrap is pending, in
      whatever column it is (CBT moves the cursor back and leaves it pending). */
  function NextCell(d: Driver, cur: Cursor): int {
    if cur.needWrap then (cur.y + 1) * d.cols else Here(d, cur)
  }

  lemma ShowsGlyph(d: Driver, s: State, b: Utf8.byte)
    requires Inv(d, s) && Typing(s.vc) && Printable(d, b)
    ensures Step(d, s, b) == Put(d, s, Glyph(d, b))
  {
    hide Inv, Put, Emulate, Glyph, HasGlyph;
  }

  /** A glyph when no wrap is pending: it goes into the cursor's cell, the rest of the row having moved right by
      one first in insert mode; the cursor moves on, but not past the last column, where it waits to wrap if
      autowrap is on. */
  lemma PutInPlace(d: Driver, s: State, glyph: int, i: nat)
    requires Inv(d, s) && !s.vc.cur.needWrap && i < |s.cells|
    ensures var (r, cur, at) := (Put(d, s, glyph), s.vc.cur, Here(d, s.vc.cur));
            r.vc == s.vc.(cur := if cur.x == d.cols - 1 then cur.(needWrap := s.vc.modes.decawm) else cur.(x := cur.x + 1, pos := cur.pos + 2)) &&
            |r.cells| == |s.cells| && 0 <= at && (at < i < at + d.cols - cur.x ==> 0 <= i - 1) &&
            r.cells[i] == (if i == at then d.compose(s.vc.attr, glyph)
                           else if s.vc.modes.irm && at < i < at + d.cols - cur.x then s.cells[i - 1]
                           else s.cells[i])
  {
    hide Inv, VcOk, DriverOk, Here, Size, CursorOk, InsertCharacters;
    InvParts(d, s);
    HereIs(d, s.vc.cur);
    var s2 := if s.vc.modes.irm then InsertCharacters(d, s, 1) else s;
    if s.vc.modes.irm {
      InsertCell(d, s, 1, i);
      InsertKeeps(d, s);
    }
    WrittenAt(d, s2, glyph);
  }

  lemma InsertKeeps(d: Driver, s: State)
    requires Inv(d, s) && 1 <= d.cols - s.vc.cur.x
    ensures InsertCharacters(d, s, 1).vc == Unwrapped(s.vc) && Here(d, Unwrapped(s.vc).cur) == Here(d, s.vc.cur)
    ensures !s.vc.cur.needWrap ==> Unwrapped(s.vc) == s.vc
  {
    hide Inv, VcOk, DriverOk;
  }

  /** With a wrap pending the glyph goes to the start of the next line. */
  lemma PutWraps(d: Driver, s: State, glyph: int)
    requires Inv(d, s) && s.vc.cur.needWrap
    ensures Put(d, s, glyph) == Put(d, NewLine(d, s), glyph)
  {
    hide Inv, NewLine, InsertCharacters, Written, Advanced, VcOk;
  }

  /** The cursor's row lies above the bottom margin while the next cell does. */
  lemma WrapInside(d: Driver, s: State)
    requires Inv(d, s) && NextCell(d, s.vc.cur) < s.vc.bottom * d.cols
    ensures s.vc.cur.needWrap ==> s.vc.cur.y + 1 < s.vc.bottom
    ensures s.vc.cur.y < s.vc.bottom
  {
    hide Inv, VcOk, Here, DriverOk;
    InvParts(d, s);
    HereIs(d, s.vc.cur);
    var (y, b, c) := (s.vc.cur.y, s.vc.bottom, d.cols);
    MulAdd(y, 1, c);
    if s.vc.cur.needWrap && y + 1 >= b {
      MulLe(b, y + 1, c);
    }
    if y >= b {
      MulLe(b, y, c);
    }
  }

  /** Above the bottom margin a new line is a move to the start of the next row. */
  lemma NewLineMoves(d: Driver, s: State)
    requires Inv(d, s) && s.vc.cur.y + 1 < s.vc.bottom
    ensures var r := NewLine(d, s);
            r.cells == s.cells && r.vc.cur.x == 0 && r.vc.cur.y == s.vc.cur.y + 1 && !r.vc.cur.needWrap
  {
    hide Inv, VcOk, DriverOk, Size, ScrolledUp;
    InvParts(d, s);
  }

  /** One glyph goes into the next cell, and the one after it is next. */
  lemma PutNext(d: Driver, s: State, glyph: int)
    requires Inv(d, s) && Typing(s.vc) && NextCell(d, s.vc.cur) < s.vc.bottom * d.cols
    ensures var r := Put(d, s, glyph);
            r.vc == s.vc.(cur := r.vc.cur) &&
            NextCell(d, r.vc.cur) == NextCell(d, s.vc.cur) + 1 &&
            0 <= NextCell(d, s.vc.cur) < |s.cells| &&
            r.cells == s.cells[NextCell(d, s.vc.cur) := d.compose(s.vc.attr, glyph)]
  {
    hide Inv, VcOk, Here, DriverOk, Size, NewLine, Written, Advanced, InsertCharacters, CursorOk;
    WrapInside(d, s);
    var s1 := if s.vc.cur.needWrap then NewLine(d, s) else s;
    if s.vc.cur.needWrap {
      NewLineMoves(d, s);
      RowStarts(d, s1);
    }
    InvParts(d, s1);
    HereIs(d, s1.vc.cur);
    WrittenAt(d, s1, glyph);
    var s2 := Written(d, s1, glyph);
    InvRest(d, s2);
    AdvancedAt(d, s2.vc);
    assert Put(d, s, glyph) == WithVc(d, s2, Advanced(d, s2.vc));
  }

  lemma WrittenAt(d: Driver, s: State, glyph: int)
    requires Inv(d, s)
    ensures 0 <= Here(d, s.vc.cur) < |s.cells|
    ensures Written(d, s, glyph).cells == s.cells[Here(d, s.vc.cur) := d.compose(s.vc.attr, glyph)]
  {
    hide Inv, Here, DriverOk, VcOk, CursorOk;
    InvParts(d, s);
    HereIs(d, s.vc.cur);
  }

  lemma RowStarts(d: Driver, s: State)
    requires Inv(d, s) && s.vc.cur.x == 0
    ensures Here(d, s.vc.cur) == s.vc.cur.y * d.cols
  {
    hide Inv, VcOk, Here, DriverOk, Size;
    InvParts(d, s);
    HereIs(d, s.vc.cur);
  }

  lemma AdvancedAt(d: Driver, vc: Vc)
    requires DriverOk(d) && VcOk(d, vc) && !vc.cur.needWrap && vc.modes.decawm
    ensures NextCell(d, Advanced(d, vc).cur) == Here(d, vc.cur) + 1
  {
    hide DriverOk, Here, RestOk, Size;
    HereIs(d, vc.cur);
    HereIs(d, Advanced(d, vc).cur);
    MulAdd(vc.cur.y, 1, d.cols);
  }

  /** A text that fits above the bottom margin fills consecutive cells from the next one on, whatever
      line ends it runs over, and changes nothing else. */
  lemma {:induction false} TextFills(d: Driver, s: State, bs: seq<Utf8.byte>)
    requires Inv(d, s) && Typing(s.vc) && AllPrintable(d, bs)
    requires NextCell(d, s.vc.cur) + |bs| <= s.vc.bottom * d.cols
    ensures var r := Run(d, s, bs);
            r.vc == s.vc.(cur := r.vc.cur) &&
            NextCell(d, r.vc.cur) == NextCell(d, s.vc.cur) + |bs| &&
            0 <= NextCell(d, s.vc.cur) && NextCell(d, s.vc.cur) + |bs| <= |s.cells| &&
            r.cells == Overwritten(s.cells, NextCell(d, s.vc.cur), Image(d, s.vc.attr, bs))
    decreases |bs|
  {
    hide Inv, Step, Put, NextCell, Glyph, Printable, Image, Overwritten;
    NextFits(d, s);
    if |bs| == 0 {
      NothingWritten(d, s.cells, NextCell(d, s.vc.cur), s.vc.attr);
    } else {
      assert Printable(d, bs[0]);
      ShowsGlyph(d, s, bs[0]);
      PutNext(d, s, Glyph(d, bs[0]));
      var s1 := Step(d, s, bs[0]);
      TextFills(d, s1, bs[1..]);
      OneMoreWritten(d, s.cells, NextCell(d, s.vc.cur), s.vc.attr, bs);
    }
  }

  lemma NextFits(d: Driver, s: State)
    requires Inv(d, s)
    ensures 0 <= NextCell(d, s.vc.cur) <= |s.cells| && s.vc.bottom * d.cols <= |s.cells|
  {
    hide Inv, VcOk, Here, DriverOk;
    InvParts(d, s);
    HereIs(d, s.vc.cur);
    MulLe(s.vc.bottom, d.rows, d.cols);
    MulAdd(s.vc.cur.y, 1, d.cols);
  }

  lemma NothingWritten(d: Driver, cells: seq<int>, at: nat, attr: int)
    requires at <= |cells|
    ensures Overwritten(cells, at, Image(d, attr, [])) == cells
  {
  }

  lemma OneMoreWritten(d: Driver, cells: seq<int>, at: nat, attr: int, bs: seq<Utf8.byte>)
    requires |bs| > 0 && at + |bs| <= |cells|
    ensures Overwritten(cells[at := d.compose(attr, Glyph(d, bs[0]))], at + 1, Image(d, attr, bs[1..]))
            == Overwritten(cells, at, Image(d, attr, bs))
  {
    hide Glyph;
    var g := d.compose(attr, Glyph(d, bs[0]));
    assert Image(d, attr, bs) == [g] + Image(d, attr, bs[1..]);
    assert cells[at := g][..at + 1] == cells[..at] + [g];
  }

  // ---- line feeds ----

  /** A line feed on the bottom margin moves every row of the region up by one and erases the last;
      rows outside the region stay.  A region of a single row does not move. */
  lemma LineFeedCell(d: Driver, s: State, y: nat, x: nat)
    requires Inv(d, s) && s.vc.cur.y + 1 == s.vc.bottom && y < d.rows && x < d.cols
    ensures |LineFeed(d, s).cells| == |s.cells| && 0 <= y * d.cols + x < |s.cells|
    ensures s.vc.top <= y < s.vc.bottom - 1 ==> 0 <= (y + 1) * d.cols + x < |s.cells|
    ensures Cell(LineFeed(d, s).cells, d.cols, y, x)
            == if s.vc.top <= y < s.vc.bottom - 1 then Cell(s.cells, d.cols, y + 1, x)
               else if y == s.vc.bottom - 1 && s.vc.top < y then s.vc.erase
               else Cell(s.cells, d.cols, y, x)
  {
    hide Inv, VcOk, DriverOk, Cell, ShiftUp;
    InvParts(d, s);
    LinesFit(d, s.vc.top, s.vc.bottom, 1);
    ScrollUpCell(s.cells, d.rows, d.cols, s.vc.top, s.vc.bottom, Lines(d, s.vc.top, s.vc.bottom, 1), s.vc.erase, y, x);
  }

  /** A reverse line feed on the top margin, likewise. */
  lemma ReverseLineFeedCell(d: Driver, s: State, y: nat, x: nat)
    requires Inv(d, s) && s.vc.cur.y == s.vc.top && y < d.rows && x < d.cols
    ensures |ReverseLineFeed(d, s).cells| == |s.cells| && 0 <= y * d.cols + x < |s.cells|
    ensures s.vc.top < y < s.vc.bottom ==> 0 <= (y - 1) * d.cols + x < |s.cells|
    ensures Cell(ReverseLineFeed(d, s).cells, d.cols, y, x)
            == if s.vc.top < y < s.vc.bottom then Cell(s.cells, d.cols, y - 1, x)
               else if y == s.vc.top && y < s.vc.bottom - 1 then s.vc.erase
               else Cell(s.cells, d.cols, y, x)
  {
    hide Inv, VcOk, DriverOk, Cell, ShiftDown;
    InvParts(d, s);
    LinesFit(d, s.vc.top, s.vc.bottom, 1);
    ScrollDownCell(s.cells, d.rows, d.cols, s.vc.top, s.vc.bottom, Lines(d, s.vc.top, s.vc.bottom, 1), s.vc.erase, y, x);
  }

  // ---- inserting and deleting lines ----

  /** Row y is blank. */
  ghost predicate RowBlank(d: Driver, cells: seq<int>, y: nat, erase: int) {
    forall x :: 0 <= x < d.cols && 0 <= y * d.cols + x < |cells| ==> Cell(cells, d.cols, y, x) == erase
  }

  /** Inserting lines inside the region: each row of the new screen. */
  lemma InsertLinesCell(d: Driver, s: State, par: nat, y: nat, x: nat)
    requires Inv(d, s) && s.vc.cur.y < s.vc.bottom && y < d.rows && x < d.cols
    ensures 0 <= y * d.cols + x < |s.cells| == |InsertLines(d, s, par).cells|
    ensures var n := Lines(d, s.vc.cur.y, s.vc.bottom, Count(par, d.rows - s.vc.cur.y));
            (s.vc.cur.y + n <= y < s.vc.bottom ==> 0 <= (y - n) * d.cols + x < |s.cells|) &&
            Cell(InsertLines(d, s, par).cells, d.cols, y, x)
              == if s.vc.cur.y + n <= y < s.vc.bottom then Cell(s.cells, d.cols, y - n, x)
                 else if s.vc.cur.y <= y < s.vc.cur.y + n then s.vc.erase
                 else Cell(s.cells, d.cols, y, x)
  {
    hide Inv, VcOk, DriverOk, Cell, ShiftDown, Count, Lines;
    InvParts(d, s);
    var k := Count(par, d.rows - s.vc.cur.y);
    LinesFit(d, s.vc.cur.y, s.vc.bottom, k);
    ScrollDownCell(s.cells, d.rows, d.cols, s.vc.cur.y, s.vc.bottom, Lines(d, s.vc.cur.y, s.vc.bottom, k), s.vc.erase, y, x);
  }

  /** Deleting lines inside the region. */
  lemma DeleteLinesCell(d: Driver, s: State, par: nat, y: nat, x: nat)
    requires Inv(d, s) && s.vc.cur.y < s.vc.bottom && y < d.rows && x < d.cols
    ensures 0 <= y * d.cols + x < |s.cells| == |DeleteLines(d, s, par).cells|
    ensures var n := Lines(d, s.vc.cur.y, s.vc.bottom, Count(par, d.rows - s.vc.cur.y));
            (s.vc.cur.y <= y < s.vc.bottom - n ==> 0 <= (y + n) * d.cols + x < |s.cells|) &&
            Cell(DeleteLines(d, s, par).cells, d.cols, y, x)
              == if s.vc.cur.y <= y < s.vc.bottom - n then Cell(s.cells, d.cols, y + n, x)
                 else if s.vc.bottom - n <= y < s.vc.bottom then s.vc.erase
                 else Cell(s.cells, d.cols, y, x)
  {
    hide Inv, VcOk, DriverOk, Cell, ShiftUp, Count, Lines;
    InvParts(d, s);
    var k := Count(par, d.rows - s.vc.cur.y);
    LinesFit(d, s.vc.cur.y, s.vc.bottom, k);
    ScrollUpCell(s.cells, d.rows, d.cols, s.vc.cur.y, s.vc.bottom, Lines(d, s.vc.cur.y, s.vc.bottom, k), s.vc.erase, y, x);
  }

  /** IL with at least as many lines as the region has from the cursor down should leave all of them
      blank.  The scroll is clipped to one line less, so the cursor's line survives on the bottom
      margin: all is blank exactly if that line was. */
  lemma InsertLinesClearsIff(d: Driver, s: State, par: nat)
    requires Inv(d, s) && s.vc.cur.y < s.vc.bottom && par >= s.vc.bottom - s.vc.cur.y
    ensures (forall y :: s.vc.cur.y <= y < s.vc.bottom ==> RowBlank(d, InsertLines(d, s, par).cells, y, s.vc.erase))
            <==> RowBlank(d, s.cells, s.vc.cur.y, s.vc.erase)
  {
    hide Inv, VcOk, DriverOk, RowBlank, InsertLines, SameRow, Lines;
    InvParts(d, s);
    var (y0, b) := (s.vc.cur.y, s.vc.bottom);
    var r := InsertLines(d, s, par).cells;
    CursorRowSurvives(d, s, par);
    SameRowBlank(d, r, b - 1, s.cells, y0, s.vc.erase);
    forall y | y0 <= y < b - 1 ensures RowBlank(d, r, y, s.vc.erase) {
      RowsAboveBlank(d, s, par, y);
    }
  }

  ghost predicate SameCell(d: Driver, a: seq<int>, y: nat, a': seq<int>, y': nat, x: int) {
    0 <= x < d.cols && 0 <= y * d.cols + x < |a| && 0 <= y' * d.cols + x < |a'| && Cell(a, d.cols, y, x) == Cell(a', d.cols, y', x)
  }

  ghost predicate SameRow(d: Driver, a: seq<int>, y: nat, a': seq<int>, y': nat) {
    forall x :: 0 <= x < d.cols ==> SameCell(d, a, y, a', y', x)
  }

  lemma SameRowBlank(d: Driver, a: seq<int>, y: nat, a': seq<int>, y': nat, erase: int)
    requires SameRow(d, a, y, a', y')
    ensures RowBlank(d, a, y, erase) <==> RowBlank(d, a', y', erase)
  {
    hide Cell;
    forall x | 0 <= x < d.cols
      ensures 0 <= y * d.cols + x < |a| && 0 <= y' * d.cols + x < |a'|
      ensures Cell(a, d.cols, y, x) == erase <==> Cell(a', d.cols, y', x) == erase
    {
      assert SameCell(d, a, y, a', y', x);
    }
  }

  lemma AllLines(d: Driver, s: State, par: nat)
    requires Inv(d, s) && s.vc.cur.y < s.vc.bottom && par >= s.vc.bottom - s.vc.cur.y
    ensures Lines(d, s.vc.cur.y, s.vc.bottom, Count(par, d.rows - s.vc.cur.y)) == s.vc.bottom - s.vc.cur.y - 1
  {
    hide Inv, VcOk, DriverOk, Size;
    InvParts(d, s);
  }

  lemma CursorRowSurvives(d: Driver, s: State, par: nat)
    requires Inv(d, s) && s.vc.cur.y < s.vc.bottom && par >= s.vc.bottom - s.vc.cur.y
    ensures SameRow(d, InsertLines(d, s, par).cells, s.vc.bottom - 1, s.cells, s.vc.cur.y)
  {
    hide Inv, VcOk, DriverOk, Cell, InsertLines, Lines, Count, Size;
    InvParts(d, s);
    AllLines(d, s, par);
    var (r, last, y0) := (InsertLines(d, s, par).cells, s.vc.bottom - 1, s.vc.cur.y);
    forall x | 0 <= x < d.cols ensures SameCell(d, r, last, s.cells, y0, x)
    {
      InsertLinesCell(d, s, par, s.vc.cur.y, x);
      InsertLinesCell(d, s, par, s.vc.bottom - 1, x);
    }
  }

  lemma RowsAboveBlank(d: Driver, s: State, par: nat, y: nat)
    requires Inv(d, s) && s.vc.cur.y <= y < s.vc.bottom - 1 && par >= s.vc.bottom - s.vc.cur.y
    ensures RowBlank(d, InsertLines(d, s, par).cells, y, s.vc.erase)
  {
    hide Inv, VcOk, DriverOk, Cell, InsertLines, Lines, Count, Size;
    InvParts(d, s);
    AllLines(d, s, par);
    var r := InsertLines(d, s, par).cells;
    forall x | 0 <= x < d.cols && 0 <= y * d.cols + x < |r| ensures Cell(r, d.cols, y, x) == s.vc.erase {
      InsertLinesCell(d, s, par, y, x);
    }
  }

  // ---- inserting and deleting characters ----

  /** Inserting n characters at the cursor: its row, cell by cell; other rows stay. */
  lemma InsertCell(d: Driver, s: State, n: nat, i: nat)
    requires Inv(d, s) && n <= d.cols - s.vc.cur.x && i < |s.cells|
    ensures |InsertCharacters(d, s, n).cells| == |s.cells| && 0 <= Here(d, s.vc.cur)
    ensures var (at, end) := (Here(d, s.vc.cur), Here(d, s.vc.cur) + d.cols - s.vc.cur.x);
            InsertCharacters(d, s, n).cells[i]
              == if at + n <= i < end then s.cells[i - n] else if at <= i < at + n then s.vc.erase else s.cells[i]
  {
    hide Inv, VcOk, DriverOk, Here;
    InvParts(d, s);
    HereIs(d, s.vc.cur);
  }

  lemma DeleteCell(d: Driver, s: State, n: nat, i: nat)
    requires Inv(d, s) && n <= d.cols - s.vc.cur.x && i < |s.cells|
    ensures |DeleteCharacters(d, s, n).cells| == |s.cells| && Here(d, s.vc.cur) + d.cols - s.vc.cur.x <= |s.cells|
    ensures 0 <= Here(d, s.vc.cur)
    ensures var (at, end) := (Here(d, s.vc.cur), Here(d, s.vc.cur) + d.cols - s.vc.cur.x);
            DeleteCharacters(d, s, n).cells[i]
              == if at <= i < end - n then s.cells[i + n] else if end - n <= i < end then s.vc.erase else s.cells[i]
  {
    hide Inv, VcOk, DriverOk, Here;
    InvParts(d, s);
    HereIs(d, s.vc.cur);
  }

  /** Deleting undoes inserting, but for the characters pushed off the end of the row. */
  lemma DeleteUndoesInsert(d: Driver, s: State, n: nat)
    requires Inv(d, s) && n <= d.cols - s.vc.cur.x
    ensures var end := Here(d, s.vc.cur) + d.cols - s.vc.cur.x;
            0 <= end - n && end <= |s.cells| &&
            DeleteCharacters(d, InsertCharacters(d, s, n), n).cells == Filled(s.cells, end - n, n, s.vc.erase)
  {
    hide Inv, VcOk, DriverOk, Here, Filled, ShiftUp, ShiftDown;
    InvParts(d, s);
    HereIs(d, s.vc.cur);
    var s1 := InsertCharacters(d, s, n);
    SameHere(d, s.vc);
    var at := Here(d, s.vc.cur);
    ShiftsUndone(s.cells, at, at + d.cols - s.vc.cur.x, n, s.vc.erase);
  }

  lemma SameHere(d: Driver, vc: Vc)
    ensures Here(d, Unwrapped(vc).cur) == Here(d, vc.cur)
  {
  }

  lemma ShiftsUndone(m: seq<int>, lo: nat, hi: nat, n: nat, erase: int)
    requires lo + n <= hi <= |m|
    ensures ShiftUp(ShiftDown(m, lo, hi, n, erase), lo, hi, n, erase) == Filled(m, hi - n, n, erase)
  {
    var d := ShiftDown(m, lo, hi, n, erase);
    assert d[..lo] == m[..lo] && d[lo + n..hi] == m[lo..hi - n] && d[hi..] == m[hi..];
    assert m[..hi - n] == m[..lo] + m[lo..hi - n];
  }
}
