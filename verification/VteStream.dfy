/** A console from its allocation on (drivers/char/vt.c:938-948, 1002-1028): what holds after any byte
    stream has been written to it. */
module VteStream {
  import opened VteState
  import opened VteCommands
  import opened VteParser
  import opened Screen
  import opened VteScreen
  import opened VteMeaning
  import opened VteSequences
  import opened VteText
  import Utf8

  /** A console as memset, visual_init and vc_init leave it when vte_ris has set the margins. */
  function Allocated(d: Driver): (vc: Vc)
    requires DriverOk(d)
    ensures VcOk(d, vc)
  {
    var rend := Rendition(0, 0, false, false, false);
    var sets := Charsets(0, LAT1_MAP, LAT1_MAP, LAT1_MAP, LAT1_MAP);
    Vc(Cursor(0, 0, d.origin, false), 0, d.rows, rend, Colors(0x07, 0x0F, 0x08), 0, 0, sets, LAT1_MAP, LAT1_MAP,
       Saved(0, 0, rend, sets), Parser(Init, 0, NoPars(), Public),
       Modes(false, false, false, false, false, false, false, false, 0),
       seq(TabBits(d), _ => false), seq(PALETTE_BYTES, _ => 0), Utf8.State(0, 0))
  }

  /** The console that vc_allocate returns, whatever its buffer held. */
  function NewConsole(d: Driver, cells: seq<int>): (s: State)
    requires DriverOk(d) && |cells| == d.rows * d.cols
    ensures Inv(d, s)
  {
    hide VcOk, DriverOk, Allocated, Reset;
    Reset(d, State(Allocated(d), cells))
  }

  /** For every byte stream, from allocation on: the cursor is on the screen and vc_pos points at it,
      the margins are in order and hold the cursor in origin mode, there are fewer than 16 parameters,
      character sets are below 4, and palette and screen have kept their size. */
  lemma StreamSafe(d: Driver, cells: seq<int>, bs: seq<Utf8.byte>)
    requires DriverOk(d) && |cells| == d.rows * d.cols
    ensures var s := Run(d, NewConsole(d, cells), bs);
            var (cur, vc) := (s.vc.cur, s.vc);
            0 <= cur.x < d.cols && 0 <= cur.y < d.rows && cur.pos == d.origin + cur.y * (2 * d.cols) + 2 * cur.x &&
            0 <= vc.top < vc.bottom <= d.rows && (vc.modes.decom ==> vc.top <= cur.y < vc.bottom) &&
            0 <= vc.parser.npar < 16 && |vc.palette| == 48 && |s.cells| == d.rows * d.cols &&
            0 <= vc.sets.g0 < 4 && 0 <= vc.sets.g1 < 4 && 0 <= vc.sets.g2 < 4 && 0 <= vc.sets.g3 < 4 &&
            0 <= vc.gs < 4 && 0 <= vc.translate < 4
  {
    hide Run, NewConsole, DriverOk;
    assert Inv(d, Run(d, NewConsole(d, cells), bs));
  }

  // ---- inserting a screenful of lines ----

  lemma NewConsoleMeans(d: Driver, cells: seq<int>)
    requires DriverOk(d) && |cells| == d.rows * d.cols
    ensures IsReset(d, Allocated(d), NewConsole(d, cells))
  {
    hide DriverOk, Allocated, Reset, IsReset, VcOk;
    ResetMeans(d, State(Allocated(d), cells));
  }

  /** An A on a new console. */
  lemma OneLetter(d: Driver, cells: seq<int>)
    requires DriverOk(d) && |cells| == d.rows * d.cols && 2 <= d.cols && Printable(d, 65)
    ensures var (s0, s) := (NewConsole(d, cells), Run(d, NewConsole(d, cells), [65]));
            s.vc == s0.vc.(cur := s.vc.cur) && s.vc.cur.y == 0 && s.vc.top == 0 && s.vc.bottom == d.rows &&
            |s.cells| > 0 && s.cells[0] == d.compose(s0.vc.attr, Glyph(d, 65))
  {
    hide Inv, Run, NewConsole, Printable, Glyph, DriverOk, Here;
    var s0 := NewConsole(d, cells);
    NewConsoleMeans(d, cells);
    InvParts(d, s0);
    HereIs(d, s0.vc.cur);
    RowsPositive(d);
    MulLe(1, d.rows, d.cols);
    TextFills(d, s0, [65]);
    var s := Run(d, s0, [65]);
    InvParts(d, s);
    HereIs(d, s.vc.cur);
    if s.vc.cur.y > 0 {
      MulLe(1, s.vc.cur.y, d.cols);
    }
  }

  /** What IL does with one parameter. */
  lemma RunInsertLines(d: Driver, s: State, n: nat)
    requires Inv(d, s) && n < 0x1_0000_0000
    ensures Inv(d, Ready(s, Public, [n]))
    ensures Run(d, s, Sequence(Public, [n], 'L')) == InsertLines(d, Ready(s, Public, [n]), n)
  {
    hide Inv, VcOk, Run, Sequence, ParserOk, SetMode, Motion, StandardVc, InsertLines;
    SequenceParsed(d, s, Public, [n], 'L');
    var s1 := Ready(s, Public, [n]);
    InvRest(d, s1);
    ParserPart(d, s1.vc);
    assert Padded([n])[0] == n;
    assert Final(d, s1, 'L') == Editing(d, s1, 'L');
  }

  /** How to see that inserting a screenful of lines does not clear the screen: write an A on a new
      console and insert as many lines as it has; the A is in the last one. */
  lemma LetterSurvives(d: Driver, cells: seq<int>)
    requires DriverOk(d) && |cells| == d.rows * d.cols && 2 <= d.cols && Printable(d, 65)
    ensures 1 <= d.rows
    ensures var s := Run(d, NewConsole(d, cells), [65] + Sequence(Public, [d.rows], 'L'));
            0 <= (d.rows - 1) * d.cols < |s.cells| &&
            Cell(s.cells, d.cols, d.rows - 1, 0) == d.compose(NewConsole(d, cells).vc.attr, Glyph(d, 65))
  {
    hide Inv, Run, NewConsole, Printable, Glyph, DriverOk, Sequence, InsertLines;
    OneLetter(d, cells);
    var s := Run(d, NewConsole(d, cells), [65]);
    RunConcat(d, NewConsole(d, cells), [65], Sequence(Public, [d.rows], 'L'));
    RowsPositive(d);
    RowsBounded(d);
    RunInsertLines(d, s, d.rows);
    var s1 := Ready(s, Public, [d.rows]);
    InsertLinesCell(d, s1, d.rows, d.rows - 1, 0);
    assert Lines(d, 0, d.rows, Count(d.rows, d.rows)) == d.rows - 1;
  }

  lemma RowsBounded(d: Driver)
    ensures DriverOk(d) ==> d.rows < 0x1_0000
  {
  }
}
