/** Two round trips of the cursor through the emulator: the position report sent back as CUP
    (drivers/char/decvte.c:402-420, 1663-1670), and DECSC followed later by DECRC
    (drivers/char/decvte.c:901-949). */
module VteCursor {
  import opened Common
  import opened VteState
  import opened VteScreen
  import opened VteCommands
  import opened VteParser
  import opened VteSequences
  import Utf8

  // ---- position report ----

  /** The row and column that vte_cpr reports.  In origin mode it adds the top margin where the
      margin would have to be subtracted. */
  function Report(vc: Vc): (r: (int, int)) {
    (vc.cur.y + (if vc.modes.decom then vc.top + 1 else 1), vc.cur.x + 1)
  }

  lemma ReportFits(d: Driver, s: State)
    ensures Inv(d, s) ==> 1 <= Report(s.vc).0 < 0x2_0000 && 1 <= Report(s.vc).1 < 0x1_0001
  {
    hide RestOk, Size;
    InvParts(d, s);
  }

  /** The report, as the host sends it back in CUP. */
  function Reply(r: (int, int)): (ps: seq<nat>)
    requires 0 <= r.0 && 0 <= r.1
  {
    [r.0, r.1]
  }

  /** What CUP does with two parameters that are positive. */
  lemma CupMoves(d: Driver, s: State, row: nat, col: nat)
    requires Inv(d, s) && 1 <= row < 0x2_0000 && 1 <= col < 0x2_0000
    requires s.vc.parser == Parser(Init, 1, Padded([row, col]), Public)
    ensures InRest(d, s) && Final(d, s, 'H') == s.(vc := GotoAbsolute(d, s.vc, col - 1, row - 1))
  {
    hide Inv, VcOk, RestOk, ParserOk, SetMode, Editing, StandardVc, GotoAbsolute;
    InvRest(d, s);
    ParserPart(d, s.vc);
    assert Padded([row, col])[0] == row && Padded([row, col])[1] == col;
    assert Pars(s.vc.parser) == (row, col);
    assert IsMotion('H');
    assert Final(d, s, 'H') == WithVc(d, s, Motion(d, s.vc, 'H'));
  }

  ghost predicate InRest(d: Driver, s: State) {
    RestOk(d, s.vc)
  }

  lemma AbsoluteGoes(d: Driver, s: State, x: int, y: int)
    requires Inv(d, s) && 0 <= x < d.cols && 0 <= y < 0x2_0000
    ensures InRest(d, s)
    ensures var r := GotoAbsolute(d, s.vc, x, y);
            r.cur.x == x &&
            (s.vc.modes.decom ==> r.cur.y == Clamp(s.vc.top, s.vc.top + y, s.vc.bottom)) &&
            (!s.vc.modes.decom ==> r.cur.y == Clamp(0, y, d.rows))
  {
    hide RestOk, Size;
    InvParts(d, s);
  }

  /** The report sent back leaves the cursor where it was exactly when origin mode is off, the top
      margin is the first row, or the cursor is on the last row of the region. */
  lemma ReportReturnsIff(d: Driver, s: State)
    requires Inv(d, s)
    ensures Report(s.vc).0 >= 0 && Report(s.vc).1 >= 0
    ensures var r := Run(d, s, Sequence(Public, Reply(Report(s.vc)), 'H'));
            r.cells == s.cells && r.vc.cur.x == s.vc.cur.x &&
            (r.vc.cur.y == s.vc.cur.y <==> !s.vc.modes.decom || s.vc.top == 0 || s.vc.cur.y == s.vc.bottom - 1)
  {
    hide Inv, Run, Final, GotoAbsolute, Sequence, Padded, DriverOk, Size, VcOk;
    InvParts(d, s);
    ReportFits(d, s);
    var (row, col) := Report(s.vc);
    var ps := Reply((row, col));
    assert Fits(ps);
    SequenceParsed(d, s, Public, ps, 'H');
    var s1 := Ready(s, Public, ps);
    CupMoves(d, s1, row, col);
    AbsoluteGoes(d, s1, col - 1, row - 1);
  }

  /** DECSTBM with rows 2 and 3. */
  lemma MarginsSet(d: Driver, s: State)
    requires Inv(d, s) && 3 <= d.rows
    ensures var r := Run(d, s, Sequence(Public, [2, 3], 'r')); r.vc.top == 1 && r.vc.bottom == 3
  {
    hide Inv, VcOk, Run, Sequence, ParserOk, SetMargins, Final;
    SequenceParsed(d, s, Public, [2, 3], 'r');
    var s1 := Ready(s, Public, [2, 3]);
    InvRest(d, s1);
    ParserPart(d, s1.vc);
    assert Padded([2, 3])[0] == 2 && Padded([2, 3])[1] == 3;
    FinalMargins(d, s1);
    assert Pars(s1.vc.parser) == (2, 3);
    MarginsApplied(d, s1.vc, 2, 3);
  }

  lemma FinalMargins(d: Driver, s: State)
    requires Inv(d, s) && s.vc.parser.priv == Public
    ensures VcOk(d, s.vc) && Final(d, s, 'r') == s.(vc := SetMargins(d, s.vc))
  {
    hide Inv, VcOk, ParserOk, SetMode, Motion, Editing, SetMargins;
    InvRest(d, s);
  }

  lemma MarginsApplied(d: Driver, vc: Vc, t: int, b: int)
    requires VcOk(d, vc) && 0 < t < b <= d.rows && ParserOk(vc.parser) && Pars(vc.parser) == (t, b)
    ensures var r := SetMargins(d, vc); r.top == t - 1 && r.bottom == b
  {
    hide ParserOk, DriverOk, PaletteOk, SetsOk, SetOk, Utf8.Sound, GotoAbsolute, Pars;
  }

  /** DECOM set: the cursor is on the top margin. */
  lemma OriginSet(d: Driver, s: State)
    requires Inv(d, s)
    ensures var r := Run(d, s, Sequence(Question, [6], 'h'));
            r.vc.modes.decom && r.vc.top == s.vc.top && r.vc.bottom == s.vc.bottom && r.vc.cur.y == s.vc.top
  {
    hide Inv, VcOk, Run, Sequence, ParserOk, Standard, Enter, SetScreenMode, SetOriginMode;
    SequenceParsed(d, s, Question, [6], 'h');
    var s1 := Ready(s, Question, [6]);
    InvRest(d, s1);
    ParserPart(d, s1.vc);
    assert Given(s1.vc.parser) == [6];
    assert SetMode(d, s1, true, [6]) == SetModeOne(d, SetMode(d, s1, true, []), true, 6) by {
      assert [6][..0] == [];
    }
    assert Final(d, s1, 'h') == WithVc(d, s1, SetOriginMode(d, s1.vc, true));
    OriginHome(d, s1.vc);
  }

  lemma OriginHome(d: Driver, vc: Vc)
    requires VcOk(d, vc)
    ensures var r := SetOriginMode(d, vc, true);
            r.modes.decom && r.top == vc.top && r.bottom == vc.bottom && r.cur.y == vc.top
  {
    hide ParserOk, PaletteOk, SetsOk, SetOk, Utf8.Sound;
  }

  /** How to get there on any screen of three or more rows: after DECSTBM 2;3 and DECOM the cursor is
      on row 2 of the screen, is reported on row 3, and the report sends it elsewhere. */
  lemma ReportMisses(d: Driver, s: State)
    requires Inv(d, s) && 3 <= d.rows
    ensures var r := Run(d, Run(d, s, Sequence(Public, [2, 3], 'r')), Sequence(Question, [6], 'h'));
            r.vc.cur.y == 1 && Report(r.vc).0 == 3 && Report(r.vc).1 >= 0 &&
            Run(d, r, Sequence(Public, Reply(Report(r.vc)), 'H')).vc.cur.y != 1
  {
    hide Inv, Run, Sequence;
    MarginsSet(d, s);
    var s1 := Run(d, s, Sequence(Public, [2, 3], 'r'));
    OriginSet(d, s1);
    ReportReturnsIff(d, Run(d, s1, Sequence(Question, [6], 'h')));
  }

  // ---- save and restore ----

  /** Whether writing byte b in state s executes DECSC, RIS or DECSTR. */
  ghost predicate SavesAt(s: State, b: Utf8.byte) {
    var o := if s.vc.modes.utf then Utf8.Step(s.vc.decoder, b).1 else Some(b);
    s.vc.parser.state != Init && o.Some? && Saves(s.vc.parser.state, AsChar(o.value))
  }

  lemma StepKeepsSaved(d: Driver, s: State, b: Utf8.byte)
    requires Inv(d, s)
    ensures !SavesAt(s, b) ==> Step(d, s, b).vc.saved == s.vc.saved
  {
    hide Inv, VcOk, Put, Emulate, WithDecoder, Shown, HasGlyph, Glyph, Utf8.Step, Utf8.Sound, AsChar, Saves;
    InvRest(d, s);
    DecoderPart(d, s.vc);
    Utf8.StepSound(s.vc.decoder, b);
    InitSavesNothing(AsChar(b));
  }

  lemma InitSavesNothing(c: char)
    ensures !Saves(Init, c)
  {
  }

  /** No byte of the stream saves the cursor. */
  ghost predicate Quiet(d: Driver, s: State, bs: seq<Utf8.byte>)
    requires Inv(d, s)
    decreases |bs|
  {
    hide Inv, Step;
    |bs| == 0 || (!SavesAt(s, bs[0]) && Quiet(d, Step(d, s, bs[0]), bs[1..]))
  }

  lemma {:induction false} QuietKeepsSaved(d: Driver, s: State, bs: seq<Utf8.byte>)
    requires Inv(d, s) && Quiet(d, s, bs)
    ensures Run(d, s, bs).vc.saved == s.vc.saved
    decreases |bs|
  {
    hide Inv, Step, SavesAt;
    if |bs| > 0 {
      StepKeepsSaved(d, s, bs[0]);
      QuietKeepsSaved(d, Step(d, s, bs[0]), bs[1..]);
    }
  }

  /** ESC followed by a character. */
  lemma RunEscape(d: Driver, s: State, c: char)
    requires Inv(d, s) && IsAscii(c)
    ensures Inv(d, Opened(s, Init))
    ensures Run(d, s, [0x1B, c as int]) == Escape(d, Opened(s, Init), c)
  {
    hide Inv, Step, Escape, Enter;
    StepEscape(d, s);
    var s1 := Step(d, s, 0x1B);
    RunOne(d, s, 0x1B);
    assert [0x1B, c as int] == [0x1B] + [c as int];
    RunConcat(d, s, [0x1B], [c as int]);
    RunOne(d, s1, c as int);
    StepAfterEscape(d, s1, c);
    EnteredInv(d, Opened(s1, Esc), Init);
    assert Entered(Opened(s1, Esc), Init) == Opened(s, Init);
  }

  lemma StepAfterEscape(d: Driver, s: State, c: char)
    requires Inv(d, s) && s.vc.parser.state == Esc && IsAscii(c)
    ensures Inv(d, Opened(s, Esc))
    ensures Inv(d, Entered(Opened(s, Esc), Init))
    ensures Step(d, s, c as int) == Escape(d, Entered(Opened(s, Esc), Init), c)
  {
    hide Inv, VcOk, Put, C0, C1, Escape;
    InvRest(d, s);
    DecoderPart(d, s.vc);
    var b := c as int;
    if s.vc.modes.utf {
      var u := Utf8.State(0, s.vc.decoder.code);
      assert Utf8.Step(s.vc.decoder, b) == (u, Some(b));
      assert WithVc(d, s, WithDecoder(d, s.vc, u)) == Opened(s, Esc);
    } else {
      assert Opened(s, Esc) == s;
    }
    EnteredInv(d, Opened(s, Esc), Init);
  }

  /** DECSC, any bytes that do not save again, DECRC: rendition and character sets come back, the
      column too, and the row exactly when it lies within the margins that now apply.  The flag for a
      pending wrap, which DECSC is documented to save, comes back cleared. */
  lemma RestoreReturnsIff(d: Driver, s: State, bs: seq<Utf8.byte>)
    requires Inv(d, s) && Quiet(d, Run(d, s, [0x1B, '7' as int]), bs)
    ensures var s1 := Run(d, Run(d, s, [0x1B, '7' as int]), bs);
            var r := Run(d, s1, [0x1B, '8' as int]);
            r.vc.rend == s.vc.rend && r.vc.sets == s.vc.sets && r.vc.cur.x == s.vc.cur.x && !r.vc.cur.needWrap &&
            r.cells == s1.cells && r.vc.modes == s1.vc.modes &&
            (r.vc.cur.y == s.vc.cur.y <==> (s1.vc.modes.decom ==> s1.vc.top <= s.vc.cur.y < s1.vc.bottom))
  {
    hide Inv, Run, Step, Quiet, SaveCursor, RestoreCursor, Reset, DriverOk, VcOk, Size, NewLine, LineFeed;
    InvParts(d, s);
    RunEscape(d, s, '7');
    var s0 := Run(d, s, [0x1B, '7' as int]);
    QuietKeepsSaved(d, s0, bs);
    var s1 := Run(d, s0, bs);
    RunEscape(d, s1, '8');
    InvRest(d, Opened(s1, Init));
    RestoredAt(d, Opened(s1, Init).vc);
  }

  /** A pending wrap, saved and restored at once, is lost: the next glyph overwrites the last column. */
  lemma {:induction false} WrapFlagLost(d: Driver, s: State)
    requires Inv(d, s) && s.vc.cur.needWrap
    ensures var s1 := Run(d, s, [0x1B, '7' as int]);
            s1.vc.cur == s.vc.cur && Run(d, s1, [0x1B, '8' as int]).vc.cur.x == s.vc.cur.x &&
            !Run(d, s1, [0x1B, '8' as int]).vc.cur.needWrap
  {
    hide Inv, Run, Quiet, RestoreCursor, Reset, VcOk, NewLine, LineFeed;
    RunEscape(d, s, '7');
    RunNothing(d, Run(d, s, [0x1B, '7' as int]));
    RestoreReturnsIff(d, s, []);
  }

  lemma RunNothing(d: Driver, s: State)
    requires Inv(d, s)
    ensures Run(d, s, []) == s && Quiet(d, s, [])
  {
    hide Inv, Step;
  }

  lemma RestoredAt(d: Driver, vc: Vc)
    requires VcOk(d, vc)
    ensures var r := RestoreCursor(d, vc);
            !r.cur.needWrap && (0 <= vc.saved.x < d.cols ==> r.cur.x == vc.saved.x) &&
            MinY(vc) < MaxY(d, vc) && r.cur.y == Clamp(MinY(vc), vc.saved.y, MaxY(d, vc))
  {
    hide SetsOk, SetOk, RestOk, VcOk;
    VcRest(d, vc);
    SetsPart(d, vc);
  }
}
