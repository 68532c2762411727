/** Whole control sequences, from any state of the emulator and with any parameters
    (drivers/char/decvte.c:1484-1930), and the text that follows them. */
module VteSent {
  import opened Common
  import opened Screen
  import opened VteState
  import opened VteScreen
  import opened VteCommands
  import opened VteParser
  import opened VteMeaning
  import opened VteSequences
  import opened VteEffects
  import opened VteText
  import opened VteLook
  import opened VteStream
  import opened VteBytes
  import Utf8

  /** The second parameter, 0 if it is not given. */
  function Second(ps: seq<nat>): nat {
    if |ps| > 1 then ps[1] else 0
  }

  /** What the handler finds. */
  lemma ReadyParameters(d: Driver, s: State, m: Priv, ps: seq<nat>)
    requires Inv(d, s) && Fits(ps) && Inv(d, Ready(s, m, ps))
    ensures var p := Ready(s, m, ps).vc.parser;
            ParserOk(p) && Given(p) == ps && Pars(p) == (ps[0], Second(ps)) && p.npar == |ps| - 1
  {
    hide Inv, VcOk;
    var s1 := Ready(s, m, ps);
    InvRest(d, s1);
    ParserPart(d, s1.vc);
  }

  /** A sequence without a private marker, other than SM and RM. */
  lemma Sent(d: Driver, s: State, ps: seq<nat>, c: char)
    requires Inv(d, s) && Fits(ps) && Ends(c) && c != 'h' && c != 'l'
    ensures Inv(d, Ready(s, Public, ps)) && Run(d, s, Sequence(Public, ps, c)) == Standard(d, Ready(s, Public, ps), c)
  {
    hide Inv, Run, Sequence, Standard, Fits, VcOk, ParserOk, SetMode;
    FitsBound(ps);
    SequenceParsed(d, s, Public, ps, c);
  }

  /** The cursor motions. */
  lemma MotionSent(d: Driver, s: State, ps: seq<nat>, c: char)
    requires Inv(d, s) && Fits(ps) && c in "AkBeCaDjEFG`Hfd"
    ensures var (e, r) := (Ready(s, Public, ps), Run(d, s, Sequence(Public, ps, c)));
            Moves(d, e.vc, c, ps[0], Second(ps), r.vc) && r == e.(vc := r.vc)
  {
    hide Inv, VcOk, Run, Sequence, Fits, ParserOk, Motion, Editing, StandardVc, Moves, IsEditing;
    FitsBound(ps);
    AsciiFinal(c);
    Sent(d, s, ps, c);
    var e := Ready(s, Public, ps);
    InvRest(d, e);
    ReadyParameters(d, s, Public, ps);
    MotionMeans(d, e.vc, c);
    NotEditing(c);
  }

  lemma AsciiFinal(c: char)
    ensures c in "AkBeCaDjEFG`Hfd@JKLMPXYIWZg]mr" ==> Ends(c) && c != 'h' && c != 'l'
  {
  }

  lemma NotEditing(c: char)
    ensures c in "AkBeCaDjEFG`Hfd" ==> !IsEditing(c) && IsMotion(c)
    ensures c in "IWZg]mr" ==> !IsEditing(c) && !IsMotion(c)
    ensures c in "@JKLMPXY" ==> IsEditing(c)
  {
  }

  /** Erasing, inserting and deleting; CVT is as many line feeds as it says. */
  lemma EditingSent(d: Driver, s: State, ps: seq<nat>, c: char)
    requires Inv(d, s) && Fits(ps) && c in "@JKLMPXY"
    ensures var (e, r) := (Ready(s, Public, ps), Run(d, s, Sequence(Public, ps, c)));
            Inv(d, e) && Edits(d, e, c, ps[0], r) && r.vc == e.vc.(cur := r.vc.cur) &&
            (c == 'Y' ==> r == LineFeeds(d, e, Times(if ps[0] == 0 then 1 else ps[0])))
  {
    hide Inv, VcOk, Run, Sequence, Fits, ParserOk, Motion, StandardVc, Edits, LineFeeds, IsEditing, IsMotion, Ich, EraseInPage,
         EraseInLine, InsertLines, DeleteLines, Dch, EraseCharacters;
    FitsBound(ps);
    AsciiFinal(c);
    Sent(d, s, ps, c);
    var e := Ready(s, Public, ps);
    ReadyParameters(d, s, Public, ps);
    EditingMeans(d, e, c);
    NotEditing(c);
  }

  /** A sequence that changes the console only. */
  lemma StandardSent(d: Driver, s: State, ps: seq<nat>, c: char)
    requires Inv(d, s) && Fits(ps) && c in "IWZg]mr"
    ensures var (e, r) := (Ready(s, Public, ps), Run(d, s, Sequence(Public, ps, c)));
            Inv(d, e) && VcOk(d, e.vc) && r == e.(vc := StandardVc(d, e.vc, c))
  {
    hide Inv, VcOk, Run, Sequence, Fits, ParserOk, Motion, Editing, StandardVc, IsEditing, IsMotion;
    FitsBound(ps);
    AsciiFinal(c);
    Sent(d, s, ps, c);
    NotEditing(c);
    InvRest(d, Ready(s, Public, ps));
  }

  /** DECSTBM */
  lemma MarginsSent(d: Driver, s: State, ps: seq<nat>)
    requires Inv(d, s) && Fits(ps)
    ensures var (e, r) := (Ready(s, Public, ps), Run(d, s, Sequence(Public, ps, 'r')));
            MarginsSet(d, e.vc, ps[0], Second(ps), r.vc) && r == e.(vc := r.vc)
  {
    hide Inv, VcOk, Run, Sequence, Fits, ParserOk, SetMargins, MarginsSet;
    FitsBound(ps);
    StandardSent(d, s, ps, 'r');
    ReadyParameters(d, s, Public, ps);
    MarginsMean(d, Ready(s, Public, ps).vc);
  }

  // ---- SGR, and the text that follows ----

  /** The fonts: 10 takes the set in use, 11 and 12 the PC's, and control characters show with it. */
  function FontOf(vc: Vc): int -> Option<int> {
    (p: int) => if p == 10 then Some(if vc.sets.active == 0 then vc.sets.g0 else vc.sets.g1) else if p in {11, 12} then Some(2) else None
  }

  function Displays(p: int): Option<bool> {
    if p == 10 then Some(false) else if p in {11, 12} then Some(true) else None
  }

  ghost predicate FontSaid(vc: Vc, ps: seq<int>, r: Vc) {
    r.translate == LastSay(ps, FontOf(vc), vc.translate) && r.modes.dispCtrl == LastSay(ps, Displays, vc.modes.dispCtrl)
  }

  lemma {:induction false} FontMeans(d: Driver, vc: Vc, ps: seq<int>)
    ensures FontSaid(vc, ps, SgrUpTo(d, vc, ps))
  {
    hide Rendered, FontOf, Displays, SetsOk;
    if |ps| > 0 {
      var n := |ps| - 1;
      FontMeans(d, vc, ps[..n]);
      assert ps[..n] + [ps[n]] == ps;
      var mid := SgrUpTo(d, vc, ps[..n]);
      LastSaySnoc(ps[..n], ps[n], FontOf(vc), vc.translate);
      LastSaySnoc(ps[..n], ps[n], Displays, vc.modes.dispCtrl);
      OneFont(d, vc, mid, ps[n]);
    }
  }

  lemma OneFont(d: Driver, vc: Vc, mid: Vc, p: int)
    requires mid.sets == vc.sets
    ensures SgrOne(d, mid, p).translate == LastSay([p], FontOf(vc), mid.translate)
    ensures SgrOne(d, mid, p).modes.dispCtrl == LastSay([p], Displays, mid.modes.dispCtrl)
  {
    hide Rendered;
    assert [p][..0] == [];
  }

  /** SGR: the rendition and the font are what the last parameters concerning them say, the attribute is
      that of the new rendition, and nothing else has changed. */
  lemma SgrSent(d: Driver, s: State, ps: seq<nat>)
    requires Inv(d, s) && Fits(ps)
    ensures var (e, r) := (Ready(s, Public, ps), Run(d, s, Sequence(Public, ps, 'm')));
            SaidBy(d, s.vc, ps, r.vc.rend) && FontSaid(s.vc, ps, r.vc) && Current(d, r.vc) &&
            r == e.(vc := e.vc.(rend := r.vc.rend, attr := r.vc.attr, erase := r.vc.erase, translate := r.vc.translate,
                                modes := e.vc.modes.(dispCtrl := r.vc.modes.dispCtrl)))
  {
    hide Inv, VcOk, Run, Sequence, Fits, ParserOk, SgrUpTo, Given, SaidBy, FontSaid, Current;
    FitsBound(ps);
    StandardSent(d, s, ps, 'm');
    ReadyParameters(d, s, Public, ps);
    var e := Ready(s, Public, ps);
    SgrMeans(d, e.vc, ps);
    FontMeans(d, e.vc, ps);
    SgrCurrent(d, e.vc);
    SameFont(e.vc, ps, SgrUpTo(d, e.vc, ps), Sgr(d, e.vc));
    SameSaying(d, s.vc, e.vc, ps, Sgr(d, e.vc));
  }

  lemma SameFont(vc: Vc, ps: seq<int>, a: Vc, b: Vc)
    requires a.translate == b.translate && a.modes.dispCtrl == b.modes.dispCtrl
    ensures FontSaid(vc, ps, a) == FontSaid(vc, ps, b)
  {
  }

  lemma SameSaying(d: Driver, a: Vc, b: Vc, ps: seq<int>, r: Vc)
    requires a.rend == b.rend && a.colors == b.colors && a.sets == b.sets && a.translate == b.translate && a.modes == b.modes
    ensures SaidBy(d, a, ps, r.rend) == SaidBy(d, b, ps, r.rend) && FontSaid(a, ps, r) == FontSaid(b, ps, r)
  {
    assert InkOf(d, a.colors) == InkOf(d, b.colors) && PaperOf(d, a.colors) == PaperOf(d, b.colors);
  }

  /** Text after an SGR sequence, written from any state: its cells have the attribute of the rendition that
      the parameters ask for, with the screen mode, and no other cell changes. */
  lemma SgrTextShows(d: Driver, s: State, ps: seq<nat>, bs: seq<Utf8.byte>)
    requires Inv(d, s) && Fits(ps) && s.vc.modes.decawm && !s.vc.modes.irm && AllPrintable(d, bs)
    requires NextCell(d, s.vc.cur) + |bs| <= s.vc.bottom * d.cols
    ensures var mid := Run(d, s, Sequence(Public, ps, 'm'));
            var (r, look) := (Run(d, s, Sequence(Public, ps, 'm') + bs), mid.vc.rend);
            SaidBy(d, s.vc, ps, look) && 0 <= NextCell(d, s.vc.cur) && NextCell(d, s.vc.cur) + |bs| <= |s.cells| &&
            r.cells == Overwritten(s.cells, NextCell(d, s.vc.cur),
                                   Image(d, d.build(s.vc.colors, look.(reverse := look.reverse != s.vc.modes.decscnm)), bs))
  {
    hide Inv, Run, Sequence, SaidBy, FontSaid, Overwritten, Image, AllPrintable, NextCell, Fits;
    FitsBound(ps);
    SgrSent(d, s, ps);
    RunConcat(d, s, Sequence(Public, ps, 'm'), bs);
    TextFills(d, Run(d, s, Sequence(Public, ps, 'm')), bs);
  }

  // ---- modes ----

  /** SM and RM, the private marker ? included: exactly the modes named have the value. */
  lemma ModesSent(d: Driver, s: State, m: Priv, ps: seq<nat>, on: bool)
    requires Inv(d, s) && Fits(ps) && (m == Public || m == Question)
    ensures var (e, r) := (Ready(s, m, ps), Run(d, s, Sequence(m, ps, if on then 'h' else 'l')));
            ModesSet(d, e, on, ps, r) && e.vc.parser.priv == m
  {
    hide Inv, VcOk, Run, Sequence, Fits, ParserOk, SetMode, Given, ModesSet;
    FitsBound(ps);
    SequenceParsed(d, s, m, ps, if on then 'h' else 'l');
    var e := Ready(s, m, ps);
    ReadyParameters(d, s, m, ps);
    SetModeMeans(d, e, on, ps);
    FinalModes(d, e, on, ps);
  }

  lemma FinalModes(d: Driver, s: State, on: bool, ps: seq<nat>)
    requires Inv(d, s) && ParserOk(s.vc.parser) && Given(s.vc.parser) == ps
    ensures Final(d, s, if on then 'h' else 'l') == SetMode(d, s, on, ps)
  {
    hide Inv, SetMode, Given, ParserOk;
  }

  // ---- tab stops ----

  /** TBC and CTC: the stop at the cursor, or those of the first 160 columns. */
  lemma TabStopsSent(d: Driver, s: State, n: nat)
    requires Inv(d, s) && n < 0x1_0000_0000
    ensures 0 <= s.vc.cur.x < |s.vc.tabs|
    ensures var (t, x) := (s.vc.tabs, s.vc.cur.x);
            var (r, r', e) := (Run(d, s, Sequence(Public, [n], 'g')), Run(d, s, Sequence(Public, [n], 'W')), Ready(s, Public, [n]));
            var (g, w) := (r.vc.tabs, r'.vc.tabs);
            |g| == |w| == |t| && r == e.(vc := e.vc.(tabs := g)) && r' == e.(vc := e.vc.(tabs := w)) &&
            (n == 0 ==> g == t[x := false] && w == t[x := true]) && (n == 2 ==> w == t[x := false]) &&
            (n in {2, 3, 5} ==> forall i :: 0 <= i < |t| ==> g[i] == (i >= 160 && t[i])) && (n == 5 ==> w == g) &&
            (n !in {0, 2, 3, 5} ==> g == t) && (n !in {0, 2, 5} ==> w == t)
  {
    hide Inv, VcOk, Run, Sequence, ParserOk;
    StandardSent(d, s, [n], 'g');
    StandardSent(d, s, [n], 'W');
    ReadyParameters(d, s, Public, [n]);
    InvRest(d, s);
    TabsPart(d, s.vc);
  }

  /** CHT and CBT: that many stops on or back; nothing else changes. */
  lemma TabsSent(d: Driver, s: State, n: nat)
    requires Inv(d, s) && 0 < n < 0x8000_0000
    ensures 0 <= s.vc.cur.x < d.cols <= |s.vc.tabs|
    ensures var (t, x) := (s.vc.tabs, s.vc.cur.x);
            var (i, z, e) := (Run(d, s, Sequence(Public, [n], 'I')), Run(d, s, Sequence(Public, [n], 'Z')), Ready(s, Public, [n]));
            i == e.(vc := e.vc.(cur := i.vc.cur)) && z == e.(vc := e.vc.(cur := z.vc.cur)) && i.vc.cur.x == TabsForward(t, x, d.cols - 1, n) && i.vc.cur.y == s.vc.cur.y &&
            z.vc.cur.x == TabsBack(t, x, n) && z.vc.cur.y == s.vc.cur.y
  {
    hide Inv, VcOk, Run, Sequence, ParserOk, TabsForward, TabsBack, MoveTo;
    StandardSent(d, s, [n], 'I');
    StandardSent(d, s, [n], 'Z');
    ReadyParameters(d, s, Public, [n]);
    InvRest(d, s);
    TabsPart(d, s.vc);
  }

  /** One stop at a time. */
  lemma TabsStep(tabs: seq<bool>, x: int, last: int, n: nat)
    requires 0 <= x <= last < |tabs|
    ensures TabsForward(tabs, x, last, 0) == x == TabsBack(tabs, x, 0)
    ensures TabsForward(tabs, x, last, n + 1) == NextTab(tabs, TabsForward(tabs, x, last, n), last)
    ensures TabsBack(tabs, x, n + 1) == PreviousTab(tabs, TabsBack(tabs, x, n))
  {
  }

  // ---- colours ----

  /** The colour table exchanges red and blue, which are bits 0 and 2, and is its own inverse. */
  lemma TableSwapsBits(n: int)
    requires 0 <= n < 16
    ensures ColorTable(n) == 8 * (n / 8) + 4 * (n % 2) + 2 * (n / 2 % 2) + n / 4 % 2
    ensures 0 <= ColorTable(n) < 16 && ColorTable(ColorTable(n)) == n
  {
  }

  /** The commands that set the colours of underlined and of dim text, where there are colours, and the one
      that makes the attribute in force the default. */
  lemma ColorsSent(d: Driver, s: State, n: nat)
    requires Inv(d, s) && n < 16
    ensures var c := s.vc.colors;
            var n' := 8 * (n / 8) + 4 * (n % 2) + 2 * (n / 2 % 2) + n / 4 % 2;
            var (u, h, z) := (Run(d, s, Sequence(Public, [1, n], ']')).vc, Run(d, s, Sequence(Public, [2, n], ']')).vc,
                              Run(d, s, Sequence(Public, [8], ']')).vc);
            u.colors == (if d.canDoColor then c.(underlined := n') else c) && h.colors == (if d.canDoColor then c.(half := n') else c) &&
            u.rend == h.rend == s.vc.rend &&
            z.colors == c.(standard := if d.hiFontMask == 0x100 then s.vc.attr / 2 else s.vc.attr) &&
            z.rend == Rendition(if d.canDoColor then z.colors.standard else s.vc.rend.color, 1, false, false, false) && Current(d, z)
  {
    hide Inv, VcOk, Run, Sequence, ParserOk, ColorTable, Setterm;
    StandardSent(d, s, [1, n], ']');
    StandardSent(d, s, [2, n], ']');
    StandardSent(d, s, [8], ']');
    ReadyParameters(d, s, Public, [1, n]);
    ReadyParameters(d, s, Public, [2, n]);
    ReadyParameters(d, s, Public, [8]);
    SettermMeans(d, Ready(s, Public, [1, n]).vc);
    SettermMeans(d, Ready(s, Public, [2, n]).vc);
    SettermMeans(d, Ready(s, Public, [8]).vc);
  }

  lemma SettermMeans(d: Driver, vc: Vc)
    requires VcOk(d, vc)
    ensures ParserOk(vc.parser)
    ensures var ((p, n), c, r) := (Pars(vc.parser), vc.colors, Setterm(d, vc));
            (p in {1, 2} && n < 16 ==>
              var n' := 8 * (n / 8) + 4 * (n % 2) + 2 * (n / 2 % 2) + n / 4 % 2;
              r.rend == vc.rend && r.colors == if !d.canDoColor then c else if p == 1 then c.(underlined := n') else c.(half := n')) &&
            (p == 8 ==>
              r.colors == c.(standard := if d.hiFontMask == 0x100 then vc.attr / 2 else vc.attr) && Current(d, r) &&
              r.rend == Rendition(if d.canDoColor then r.colors.standard else vc.rend.color, 1, false, false, false))
  {
    hide VcOk, ParserOk, ColorTable;
    ParserPart(d, vc);
    var n := Pars(vc.parser).1;
    if n < 16 {
      TableSwapsBits(n);
    }
  }

  /** On a new console ESC [ 3 1 m A shows an A whose colour is 4, not 1, with nothing else about it. */
  lemma RedLetter(d: Driver, cells: seq<int>)
    requires DriverOk(d) && |cells| == d.rows * d.cols && 2 <= d.cols && Printable(d, 65) && d.canDoColor
    ensures |cells| > 0
    ensures Run(d, NewConsole(d, cells), Sequence(Public, [31], 'm') + [65]).cells[..1]
            == [d.compose(d.build(Colors(0x07, 0x0F, 0x08), Rendition(4, 1, false, false, false)), Glyph(d, 65))]
  {
    hide Inv, Run, NewConsole, Printable, Glyph, DriverOk, Sequence, SaidBy, Here;
    var s := NewConsole(d, cells);
    NewConsoleMeans(d, cells);
    InvParts(d, s);
    HereIs(d, s.vc.cur);
    RowsPositive(d);
    MulLe(1, d.rows, d.cols);
    SgrTextShows(d, s, [31], [65]);
    RedSaid(d, s.vc, Run(d, s, Sequence(Public, [31], 'm')).vc.rend);
  }

  lemma RedSaid(d: Driver, vc: Vc, r: Rendition)
    requires SaidBy(d, vc, [31], r) && vc.rend == Rendition(0x07, 1, false, false, false)
    ensures r == Rendition(4, 1, false, false, false)
  {
    hide ColorTable, Foreground, Background, LastSay;
    TableSwapsBits(1);
    PartsSplit(r.color);
    ColorParts(7, 0);
    OneSaid(Intensity, 1);
    OneSaid(Underline, false);
    OneSaid(Blink, false);
    OneSaid(Reverse, false);
    OneSaid(InkOf(d, vc.colors), 7);
    OneSaid(PaperOf(d, vc.colors), 0);
  }

  lemma OneSaid<T>(say: int -> Option<T>, before: T)
    ensures LastSay([31], say, before) == if say(31).Some? then say(31).value else before
  {
    assert [31][..0] == [];
  }

  // ---- glyphs ----

  /** The glyph that a byte shows: that of its code; if there is none, that of U+FFFD, or else the one the code
      numbers itself; in an 8-bit font no glyph from 256 on and for codes without one none at all. */
  lemma GlyphShown(d: Driver, s: State, b: Utf8.byte)
    requires Inv(d, s) && Typing(s.vc) && 32 <= b && b != 127 && b != 155 && d.hiFontMask == 0
    ensures 0 <= d.convert(b) < 256 ==> Run(d, s, [b]) == Put(d, s, d.convert(b))
    ensures d.convert(b) == -4 && 0 <= d.convert(0xFFFD) < 256 ==> Run(d, s, [b]) == Put(d, s, d.convert(0xFFFD))
    ensures d.convert(b) == -4 && d.convert(0xFFFD) == -4 ==> Run(d, s, [b]) == Put(d, s, b)
    ensures d.convert(b) == -3 ==> Run(d, s, [b]) == Put(d, s, b)
    ensures d.convert(b) in {-1, -2} || d.convert(b) >= 256 ==> Run(d, s, [b]) == s
  {
    hide Inv, Put, Emulate;
    RunOne(d, s, b);
  }

  /** A control character acts when no sequence has begun, or shows as a glyph, if it is not one of those that
      always act; in UTF-8 it always acts.  DEL shows only if control characters are to. */
  lemma ControlActsIff(d: Driver, s: State, b: Utf8.byte)
    requires Inv(d, s) && s.vc.parser.state == Init && (b < 32 || b == 127) && HasGlyph(d, Glyph(d, b))
    ensures var m := s.vc.modes;
            var acts := if b == 127 then !m.dispCtrl
                        else m.utf || b == 0 || b in {8, 10, 12, 13, 14, 15, 27} || (!m.dispCtrl && b in {7, 9, 11, 24, 26});
            Run(d, s, [b]) == if acts then C0(d, s, b) else Put(d, s, Glyph(d, b))
  {
    hide Inv, Put, C0, Glyph, HasGlyph;
    RunOne(d, s, b);
  }

  /** Two consoles that differ in their character sets only show text alike. */
  lemma SetsIgnored(d: Driver, s: State, r: State, bs: seq<Utf8.byte>)
    requires Inv(d, s) && Inv(d, r) && r == s.(vc := s.vc.(sets := r.vc.sets, gs := r.vc.gs, translate := r.vc.translate))
    requires Typing(s.vc) && AllPrintable(d, bs) && NextCell(d, s.vc.cur) + |bs| <= s.vc.bottom * d.cols
    ensures Run(d, s, bs).cells == Run(d, r, bs).cells
  {
    hide Inv, Run, AllPrintable, NextCell, Overwritten, Image;
    TextFills(d, s, bs);
    TextFills(d, r, bs);
  }

  /** So the graphics set, designated and in use, changes nothing of what text shows: the write loop looks
      codes up in the set only inside sequences, where nothing is shown. */
  lemma GraphicsIgnored(d: Driver, s: State, bs: seq<Utf8.byte>)
    requires Inv(d, s) && Typing(s.vc) && (s.vc.modes.utf ==> s.vc.decoder.count == 0)
    requires AllPrintable(d, bs) && NextCell(d, s.vc.cur) + |bs| <= s.vc.bottom * d.cols
    ensures Run(d, s, [0x1B, '(' as int, '0' as int] + bs).cells == Run(d, s, bs).cells
  {
    hide Inv, Run, AllPrintable, NextCell;
    DesignateG0(d, s, '0');
    var r := Run(d, s, [0x1B, '(' as int, '0' as int]);
    RunConcat(d, s, [0x1B, '(' as int, '0' as int], bs);
    assert s.vc.modes.utf ==> s.vc.decoder == Utf8.State(0, s.vc.decoder.code);
    assert Opened(s, Init) == s;
    SetsIgnored(d, s, r, bs);
  }

  // ---- 8-bit controls ----

  /** Of the 8-bit controls only CSI acts when no sequence has begun, and only if they are in use; the others
      show as glyphs. */
  lemma EightBitMeans(d: Driver, s: State, b: Utf8.byte)
    requires Inv(d, s) && s.vc.parser.state == Init
    ensures Run(d, s, [0x9B]) == if s.vc.modes.c8bit then s.(vc := s.vc.(parser := s.vc.parser.(state := Csi))) else s
    ensures 0x80 <= b < 0xA0 && b != 0x9B && HasGlyph(d, Glyph(d, b)) ==> Run(d, s, [b]) == Put(d, s, Glyph(d, b))
  {
    hide Inv, Put, VcOk, Glyph, HasGlyph;
    InvRest(d, s);
    RunOne(d, s, b);
    RunOne(d, s, 0x9B);
    assert s.vc.parser.(state := Init) == s.vc.parser;
  }

  /** Inside a sequence, with 8-bit controls in use, they act and leave the sequence open, but for SS2 and SS3,
      which belong to it. */
  lemma EightBitInside(d: Driver, s: State, b: Utf8.byte)
    requires Inv(d, s) && s.vc.parser.state != Init && !s.vc.modes.utf && s.vc.modes.c8bit && 0x80 <= b < 0xA0
    ensures 0 <= s.vc.cur.x < |s.vc.tabs|
    ensures var (r, l) := (Run(d, s, [b]), LineFeed(d, s));
            (b == 0x84 ==> r == l) && (b == 0x85 ==> CursorAt(d, l, r, 0, l.vc.cur.y)) && (b == 0x8D ==> r == ReverseLineFeed(d, s)) &&
            (b == 0x88 ==> r == s.(vc := s.vc.(tabs := s.vc.tabs[s.vc.cur.x := true]))) &&
            (b == 0x9B ==> r == s.(vc := s.vc.(parser := s.vc.parser.(state := Csi)))) &&
            (b in {0x8E, 0x8F} ==> r == ByState(d, s, '\0')) && (b !in {0x84, 0x85, 0x88, 0x8D, 0x8E, 0x8F, 0x9B} ==> r == s)
  {
    hide Inv, VcOk, RestOk, ByState, LineFeed, ReverseLineFeed, Put, C0;
    RunOne(d, s, b);
    InvRest(d, s);
    TabsPart(d, s.vc);
    if b == 0x85 {
      ReturnAt(d, LineFeed(d, s));
    }
  }

  lemma ReturnAt(d: Driver, s: State)
    requires Inv(d, s)
    ensures CursorAt(d, s, Returned(d, s), 0, s.vc.cur.y)
  {
    hide Inv, RestOk;
    InvRest(d, s);
  }

  // ---- private sequences ----

  /** With a private marker, sequences other than SM and RM change nothing but the parser; J and K, which would
      be selective erasing, leave the marker set. */
  lemma PrivateSent(d: Driver, s: State, m: Priv, ps: seq<nat>, c: char)
    requires Inv(d, s) && Fits(ps) && (m == Question || m == Greater || m == Equal) && Ends(c) && c != 'h' && c != 'l'
    ensures var (e, r) := (Ready(s, m, ps), Run(d, s, Sequence(m, ps, c)));
            var kept := if m == Question then c in "JK$" else c == 'n';
            r == e.(vc := e.vc.(parser := e.vc.parser.(priv := if kept then m else Public,
                                                       state := if m == Question && c == '$' then CsiDollar else Init)))
  {
    hide Inv, VcOk, Run, Sequence, Fits, ParserOk, SetMode, Standard;
    FitsBound(ps);
    SequenceParsed(d, s, m, ps, c);
    var e := Ready(s, m, ps);
    InvRest(d, e);
    ParserPart(d, e.vc);
  }

  // ---- levels ----

  /** DECSCL, in the form in which the source takes it. */
  lemma LevelSent(d: Driver, s: State, ps: seq<nat>)
    requires Inv(d, s) && Fits(ps)
    ensures var (m, r) := (s.vc.modes, Run(d, s, Sequence(Public, ps, '"') + ['p' as int]));
            r.vc.modes == (if ps[0] == 61 && |ps| == 2 then m.(decscl := 1, c8bit := false)
                           else if 62 <= ps[0] <= 64 && |ps| <= 3 then m.(decscl := 4, c8bit := Second(ps) != 1)
                           else m) &&
            r.cells == s.cells && r.vc.cur == s.vc.cur && r.vc.parser.state == Init
  {
    hide Inv, VcOk, Run, Sequence, Fits, ByState, Standard, Second;
    FitsBound(ps);
    IntermediateSent(d, s, ps, '"', CsiDquote, 'p');
    Sent(d, s, ps, '"');
    ReadyParameters(d, s, Public, ps);
    LevelState(d, Entered(Ready(s, Public, ps), CsiDquote), ps);
  }

  lemma LevelState(d: Driver, s: State, ps: seq<nat>)
    requires Inv(d, s) && s.vc.parser.state == CsiDquote && |ps| > 0
    requires ParserOk(s.vc.parser) && Pars(s.vc.parser) == (ps[0], Second(ps)) && s.vc.parser.npar == |ps| - 1
    ensures var (m, r) := (s.vc.modes, ByState(d, s, 'p'));
            r.vc.modes == (if ps[0] == 61 && |ps| == 2 then m.(decscl := 1, c8bit := false)
                           else if 62 <= ps[0] <= 64 && |ps| <= 3 then m.(decscl := 4, c8bit := Second(ps) != 1)
                           else m) &&
            r.cells == s.cells && r.vc.cur == s.vc.cur && r.vc.parser.state == Init
  {
    hide Inv, VcOk, ParserOk, Second;
    InvRest(d, s);
  }

  /** A control sequence with an intermediate byte, before its final one. */
  lemma IntermediateSent(d: Driver, s: State, ps: seq<nat>, c: char, es: Es, final: char)
    requires Inv(d, s) && Fits(ps) && Ends(c) && IsAscii(final) && es != Palette && es != Init
    requires c != 'h' && c != 'l' && c !in "@JKLMPXYAkBeCaDjEFG`HfdIWZg]mr" && Intermediate(c) == es
    ensures Inv(d, Entered(Ready(s, Public, ps), es))
    ensures Run(d, s, Sequence(Public, ps, c) + [final as int]) == ByState(d, Entered(Ready(s, Public, ps), es), final)
  {
    hide Inv, VcOk, Step, Run, Sequence, Fits, ByState, ParserOk, Motion, Editing, Intermediate;
    FitsBound(ps);
    Sent(d, s, ps, c);
    var e := Ready(s, Public, ps);
    InvRest(d, e);
    EnteredInv(d, e, es);
    var s1 := Run(d, s, Sequence(Public, ps, c));
    RunConcat(d, s, Sequence(Public, ps, c), [final as int]);
    RunOne(d, s1, final as int);
    StepInside(d, s1, final);
  }

  /** DECSTR resets the terminal as RIS does. */
  lemma SoftReset(d: Driver, s: State, n: nat)
    requires Inv(d, s) && n < 0x1_0000_0000
    ensures IsReset(d, Ready(s, Public, [n]).vc, Run(d, s, Sequence(Public, [n], '!') + ['p' as int]))
  {
    hide Inv, VcOk, Run, Sequence, Reset, IsReset;
    IntermediateSent(d, s, [n], '!', CsiExclam, 'p');
    var e := Entered(Ready(s, Public, [n]), CsiExclam);
    InvRest(d, e);
    assert WithVc(d, e, Enter(d, e.vc, Init)) == Ready(s, Public, [n]);
    ResetMeans(d, Ready(s, Public, [n]));
  }
}
