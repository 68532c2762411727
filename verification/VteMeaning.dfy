/** What the emulator's longer handlers amount to: SGR and set_mode with any list of parameters, and
    RIS (drivers/char/decvte.c:285-384, 504-601, 964-1028). */
module VteMeaning {
  import opened Common
  import opened VteState
  import opened VteScreen
  import opened VteCommands
  import Utf8

  // ---- SGR ----

  /** The value that the last parameter with a say gives, or the one from before. */
  function LastSay<T>(ps: seq<int>, say: int -> Option<T>, before: T): T {
    if |ps| == 0 then before
    else if say(ps[|ps| - 1]).Some? then say(ps[|ps| - 1]).value
    else LastSay(ps[..|ps| - 1], say, before)
  }

  function Intensity(p: int): Option<int> {
    if p == 1 then Some(2) else if p == 2 then Some(0) else if p in {0, 21, 22} then Some(1) else None
  }

  function Underline(p: int): Option<bool> {
    if p in {4, 38} then Some(true) else if p in {0, 24, 39} then Some(false) else None
  }

  function Blink(p: int): Option<bool> {
    if p in {5, 6} then Some(true) else if p in {0, 25} then Some(false) else None
  }

  function Reverse(p: int): Option<bool> {
    if p == 7 then Some(true) else if p in {0, 27} then Some(false) else None
  }

  /** Parameter 0 touches the colours only where there are any. */
  function InkOf(d: Driver, c: Colors): int -> Option<int> {
    (p: int) => if p in {38, 39} || (p == 0 && d.canDoColor) then Some(Foreground(c.standard))
                else if 30 <= p <= 37 then Some(ColorTable(p - 30)) else None
  }

  function PaperOf(d: Driver, c: Colors): int -> Option<int> {
    (p: int) => if p == 49 || (p == 0 && d.canDoColor) then Some(Background(c.standard))
                else if 40 <= p <= 47 then Some(16 * ColorTable(p - 40)) else None
  }

  lemma ColorParts(fg: int, bg: int)
    requires 0 <= fg < 16 && bg % 16 == 0
    ensures Foreground(fg + bg) == fg && Background(fg + bg) == bg
  {
  }

  lemma PartsSplit(color: int)
    ensures 0 <= Foreground(color) < 16 && Background(color) % 16 == 0 && Foreground(color) + Background(color) == color
  {
  }

  /** What one parameter says about each attribute is what becomes of it. */
  lemma RenderedFlags(d: Driver, vc: Vc, p: int)
    ensures var r := Rendered(d, vc, p);
            r.intensity == LastSay([p], Intensity, vc.rend.intensity) && r.underline == LastSay([p], Underline, vc.rend.underline) &&
            r.blink == LastSay([p], Blink, vc.rend.blink) && r.reverse == LastSay([p], Reverse, vc.rend.reverse)
  {
    hide ColorTable, Foreground, Background;
  }

  lemma RenderedColors(d: Driver, vc: Vc, p: int)
    ensures var r := Rendered(d, vc, p);
            Foreground(r.color) == LastSay([p], InkOf(d, vc.colors), Foreground(vc.rend.color)) &&
            Background(r.color) == LastSay([p], PaperOf(d, vc.colors), Background(vc.rend.color))
  {
    hide Foreground, Background, Rendered, ColorTable;
    var c := vc.rend.color;
    PartsSplit(c);
    PartsSplit(vc.colors.standard);
    RenderedColor(d, vc, p);
    if p == 38 || p == 39 {
      ColorParts(Foreground(vc.colors.standard), Background(c));
    } else if p == 49 {
      ColorParts(Foreground(c), Background(vc.colors.standard));
    } else if 30 <= p <= 37 {
      TableSmall(p - 30);
      ColorParts(ColorTable(p - 30), Background(c));
    } else if 40 <= p <= 47 {
      ColorParts(Foreground(c), 16 * ColorTable(p - 40));
    }
  }

  lemma TableSmall(n: int)
    requires 0 <= n < 16
    ensures 0 <= ColorTable(n) < 16
  {
  }

  /** What one parameter makes of the colour. */
  lemma RenderedColor(d: Driver, vc: Vc, p: int)
    ensures var c := vc.rend.color;
            Rendered(d, vc, p).color ==
              if p == 0 then (if d.canDoColor then vc.colors.standard else c)
              else if p == 38 || p == 39 then Foreground(vc.colors.standard) + Background(c)
              else if p == 49 then Foreground(c) + Background(vc.colors.standard)
              else if 30 <= p <= 37 then ColorTable(p - 30) + Background(c)
              else if 40 <= p <= 47 then Foreground(c) + 16 * ColorTable(p - 40)
              else c
  {
    hide Foreground, Background, ColorTable;
  }

  lemma LastSaySnoc<T>(ps: seq<int>, p: int, say: int -> Option<T>, before: T)
    ensures LastSay(ps + [p], say, before) == LastSay([p], say, LastSay(ps, say, before))
  {
    assert (ps + [p])[..|ps|] == ps;
    assert [p][..0] == [];
  }

  /** The rendition after a list of parameters. */
  ghost predicate SaidBy(d: Driver, vc: Vc, ps: seq<int>, r: Rendition) {
    r.intensity == LastSay(ps, Intensity, vc.rend.intensity) && r.underline == LastSay(ps, Underline, vc.rend.underline) &&
    r.blink == LastSay(ps, Blink, vc.rend.blink) && r.reverse == LastSay(ps, Reverse, vc.rend.reverse) &&
    Foreground(r.color) == LastSay(ps, InkOf(d, vc.colors), Foreground(vc.rend.color)) &&
    Background(r.color) == LastSay(ps, PaperOf(d, vc.colors), Background(vc.rend.color))
  }

  lemma SaidSnoc(d: Driver, vc: Vc, ps: seq<int>, p: int, mid: Vc)
    requires SaidBy(d, vc, ps, mid.rend) && mid.colors == vc.colors
    ensures SaidBy(d, vc, ps + [p], SgrOne(d, mid, p).rend)
  {
    hide Foreground, Background, Intensity, Underline, Blink, Reverse, InkOf, PaperOf, LastSay, Rendered;
    LastSaySnoc(ps, p, Intensity, vc.rend.intensity);
    LastSaySnoc(ps, p, Underline, vc.rend.underline);
    LastSaySnoc(ps, p, Blink, vc.rend.blink);
    LastSaySnoc(ps, p, Reverse, vc.rend.reverse);
    LastSaySnoc(ps, p, InkOf(d, vc.colors), Foreground(vc.rend.color));
    LastSaySnoc(ps, p, PaperOf(d, vc.colors), Background(vc.rend.color));
    if p == 10 || p == 11 || p == 12 {
      FontSaysNothing(d, mid, p);
    }
    RenderedFlags(d, mid, p);
    RenderedColors(d, mid, p);
  }

  lemma FontSaysNothing(d: Driver, vc: Vc, p: int)
    requires 10 <= p <= 12
    ensures Rendered(d, vc, p) == vc.rend
  {
  }

  /** SGR with any parameters: each attribute, and foreground and background by themselves, have the
      value that the last parameter concerning them gives; nothing else of the rendition changes. */
  lemma {:induction false} SgrMeans(d: Driver, vc: Vc, ps: seq<int>)
    ensures SaidBy(d, vc, ps, SgrUpTo(d, vc, ps).rend)
  {
    hide SgrOne, SaidBy;
    if |ps| == 0 {
      NothingSaid(d, vc);
    } else {
      var n := |ps| - 1;
      SgrMeans(d, vc, ps[..n]);
      assert ps[..n] + [ps[n]] == ps;
      SaidSnoc(d, vc, ps[..n], ps[n], SgrUpTo(d, vc, ps[..n]));
    }
  }

  lemma NothingSaid(d: Driver, vc: Vc)
    ensures SaidBy(d, vc, [], vc.rend)
  {
  }

  // ---- the attribute in force ----

  /** Glyphs to come get the attribute of the rendition in force, and erased cells that of its colours
      alone; screen mode exchanges reversed and not reversed. */
  ghost predicate Current(d: Driver, vc: Vc) {
    var (r, screen) := (vc.rend, vc.modes.decscnm);
    vc.attr == d.build(vc.colors, Rendition(r.color, r.intensity, r.underline, r.blink, r.reverse != screen)) &&
    vc.erase == 256 * d.build(vc.colors, Rendition(r.color, r.intensity, false, false, screen)) + 32
  }

  /** After SGR. */
  lemma SgrCurrent(d: Driver, vc: Vc)
    requires VcOk(d, vc)
    ensures Current(d, Sgr(d, vc))
  {
    hide VcOk, ParserOk, SgrUpTo, Given;
    ParserPart(d, vc);
  }

  /** After DECRC. */
  lemma RestoreCurrent(d: Driver, vc: Vc)
    requires VcOk(d, vc)
    ensures Current(d, RestoreCursor(d, vc))
  {
    hide VcOk, RestOk, WithSets, SetsOk, SetOk, Goto;
    VcRest(d, vc);
    SetsPart(d, vc);
  }

  /** DECRC brings back rendition and sets, and with them the set in use and the attribute; the rest, but for
      the cursor, stays. */
  lemma RestoreMeans(d: Driver, vc: Vc)
    requires VcOk(d, vc)
    ensures var (r, g) := (RestoreCursor(d, vc), vc.saved.sets);
            r == vc.(cur := r.cur, rend := vc.saved.rend, sets := g, translate := if g.active == 0 then g.g0 else g.g1,
                     attr := r.attr, erase := r.erase)
  {
    hide VcOk, RestOk, SetsOk, SetOk, Goto;
    VcRest(d, vc);
    SetsPart(d, vc);
  }

  // ---- set_mode ----

  /** The modes that DEC private parameters set. */
  function PrivateModes(m: Modes, on: bool, ps: seq<int>): Modes {
    m.(decscnm := if 5 in ps then on else m.decscnm, decom := if 6 in ps then on else m.decom,
       decawm := if 7 in ps then on else m.decawm)
  }

  function AnsiModes(m: Modes, on: bool, ps: seq<int>): Modes {
    m.(dispCtrl := if 3 in ps then on else m.dispCtrl, irm := if 4 in ps then on else m.irm,
       crlf := if 20 in ps then on else m.crlf)
  }

  /** The home position. */
  function Home(d: Driver, vc: Vc, decom: bool): Cursor {
    var y := if decom then vc.top else 0;
    Cursor(0, y, Address(d, 0, y), false)
  }

  /** The state after setting or resetting the modes ps: among it the attributes of the screen mode, if that
      has changed. */
  ghost predicate ModesSet(d: Driver, s: State, on: bool, ps: seq<int>, r: State) {
    r.vc == s.vc.(modes := r.vc.modes, cur := r.vc.cur, attr := r.vc.attr, erase := r.vc.erase) &&
    (if s.vc.modes.decscnm != r.vc.modes.decscnm then Current(d, r.vc) else r.vc.attr == s.vc.attr && r.vc.erase == s.vc.erase) &&
    if s.vc.parser.priv == Question then
      r.vc.modes == PrivateModes(s.vc.modes, on, ps) &&
      r.vc.cur == (if 6 in ps then Home(d, s.vc, on) else s.vc.cur) &&
      r.cells == (if 5 in ps && s.vc.modes.decscnm != on then Inverted(d, s.cells) else s.cells)
    else
      r.vc.modes == AnsiModes(s.vc.modes, on, ps) && r.vc.cur == s.vc.cur && r.cells == s.cells
  }

  lemma OriginModeMeans(d: Driver, vc: Vc, on: bool)
    requires VcOk(d, vc)
    ensures SetOriginMode(d, vc, on) == vc.(modes := vc.modes.(decom := on), cur := Home(d, vc, on))
  {
    hide ParserOk, PaletteOk, SetsOk, SetOk, Utf8.Sound;
  }

  lemma ScreenModeMeans(d: Driver, s: State, on: bool)
    requires Inv(d, s)
    ensures var r := SetScreenMode(d, s, on);
            r.vc.modes == s.vc.modes.(decscnm := on) && r.vc == s.vc.(modes := r.vc.modes, attr := r.vc.attr, erase := r.vc.erase) &&
            (if s.vc.modes.decscnm != on then Current(d, r.vc) else r.vc == s.vc) &&
            r.cells == if s.vc.modes.decscnm != on then Inverted(d, s.cells) else s.cells
  {
    hide Inv, VcOk, Inverted;
    InvRest(d, s);
  }

  lemma PrivateModeMeans(d: Driver, vc: Vc, on: bool, p: int)
    requires VcOk(d, vc)
    ensures vc.parser.priv == Question && p != 5 ==>
              SetPlainMode(d, vc, on, p)
              == vc.(modes := PrivateModes(vc.modes, on, [p]), cur := if p == 6 then Home(d, vc, on) else vc.cur)
  {
    hide VcOk, SetOriginMode, Home;
    OriginModeMeans(d, vc, on);
    assert 5 in [p] <==> p == 5;
    assert 6 in [p] <==> p == 6;
    assert 7 in [p] <==> p == 7;
  }

  lemma AnsiModeMeans(d: Driver, vc: Vc, on: bool, p: int)
    requires VcOk(d, vc)
    ensures vc.parser.priv != Question ==> SetPlainMode(d, vc, on, p) == vc.(modes := AnsiModes(vc.modes, on, [p]))
  {
    hide VcOk, SetOriginMode;
  }

  lemma OneScreenMode(d: Driver, s: State, on: bool)
    requires Inv(d, s) && s.vc.parser.priv == Question
    ensures ModesSet(d, s, on, [5], SetModeOne(d, s, on, 5))
  {
    hide Inv, VcOk, Inverted, SetScreenMode, SetPlainMode, Home, Current;
    ScreenModeMeans(d, s, on);
  }

  lemma OnePlainMode(d: Driver, s: State, on: bool, p: int)
    requires Inv(d, s) && (s.vc.parser.priv != Question || p != 5)
    ensures ModesSet(d, s, on, [p], SetModeOne(d, s, on, p))
  {
    hide Inv, VcOk, Inverted, SetScreenMode, SetPlainMode, Home, Current;
    InvRest(d, s);
    if s.vc.parser.priv == Question {
      PrivateModeMeans(d, s.vc, on, p);
    } else {
      AnsiModeMeans(d, s.vc, on, p);
    }
  }

  lemma OneModeMeans(d: Driver, s: State, on: bool, p: int)
    requires Inv(d, s)
    ensures ModesSet(d, s, on, [p], SetModeOne(d, s, on, p))
  {
    hide *;
    if s.vc.parser.priv == Question && p == 5 {
      OneScreenMode(d, s, on);
    } else {
      OnePlainMode(d, s, on, p);
    }
  }

  /** A mode set again to the same value changes nothing but the cursor's place. */
  lemma ModesSnoc(d: Driver, s: State, on: bool, ps: seq<int>, p: int, mid: State, r: State)
    requires ModesSet(d, s, on, ps, mid) && ModesSet(d, mid, on, [p], r)
    ensures ModesSet(d, s, on, ps + [p], r)
  {
    hide Inverted;
    assert forall n :: n in ps + [p] <==> n in ps || n == p;
  }

  /** SM and RM with any list of parameters: exactly the modes named have the value, however often they
      are named; the screen is inverted once if screen mode changed; DECOM sends the cursor home. */
  lemma {:induction false} SetModeMeans(d: Driver, s: State, on: bool, ps: seq<int>)
    requires Inv(d, s)
    ensures ModesSet(d, s, on, ps, SetMode(d, s, on, ps))
  {
    hide Inv, SetModeOne, ModesSet;
    if |ps| == 0 {
      NoModes(d, s, on);
    } else {
      var n := |ps| - 1;
      SetModeMeans(d, s, on, ps[..n]);
      var mid := SetMode(d, s, on, ps[..n]);
      OneModeMeans(d, mid, on, ps[n]);
      ModesSnoc(d, s, on, ps[..n], ps[n], mid, SetMode(d, s, on, ps));
      assert ps[..n] + [ps[n]] == ps;
    }
  }

  /** After any modes have been set or reset. */
  lemma SetModeCurrent(d: Driver, s: State, on: bool, ps: seq<int>)
    requires Inv(d, s)
    ensures Current(d, s.vc) ==> Current(d, SetMode(d, s, on, ps).vc)
  {
    hide Inv, SetMode, Inverted;
    SetModeMeans(d, s, on, ps);
  }

  lemma NoModes(d: Driver, s: State, on: bool)
    ensures ModesSet(d, s, on, [], s)
  {
  }

  /** Reverse video on and off again, by any lists that name it, restores every cell. */
  lemma ReverseVideoUndone(d: Driver, s: State, on: seq<int>, off: seq<int>)
    requires Inv(d, s) && s.vc.parser.priv == Question && !s.vc.modes.decscnm && 5 in on && 5 in off
    requires forall w :: d.invert(d.invert(w)) == w
    ensures SetMode(d, SetMode(d, s, true, on), false, off).cells == s.cells
  {
    hide Inv, SetMode;
    SetModeMeans(d, s, true, on);
    SetModeMeans(d, SetMode(d, s, true, on), false, off);
    var c := Inverted(d, Inverted(d, s.cells));
    assert forall i :: 0 <= i < |s.cells| ==> c[i] == s.cells[i];
  }

  // ---- RIS ----

  /** A freshly reset terminal: home, full-screen margins, default modes and character sets, default
      tab stops in the first 160 columns and the stops from before in the others, the saved cursor at
      home, and every cell blank in the default rendition. */
  ghost predicate IsReset(d: Driver, before: Vc, s: State) {
    s.vc.cur == Cursor(0, 0, d.origin, false) && s.vc.top == 0 && s.vc.bottom == d.rows &&
    s.vc.modes == Modes(false, false, true, false, false, false, false, false, before.modes.decscl) &&
    s.vc.sets == before.sets.(active := 0, g0 := LAT1_MAP, g1 := GRAF_MAP) && s.vc.translate == LAT1_MAP &&
    s.vc.rend == Rendition(if d.canDoColor then before.colors.standard else before.rend.color, 1, false, false, false) &&
    s.vc.saved == Saved(0, 0, s.vc.rend, s.vc.sets) &&
    s.vc.parser == before.parser.(state := Init, priv := Public) && s.vc.decoder.count == 0 &&
    s.vc.colors == before.colors && s.vc.palette == before.palette && s.vc.gs == before.gs && s.vc.decoder.code == before.decoder.code &&
    Current(d, s.vc) && s.vc.erase == 256 * d.build(before.colors, s.vc.rend) + 32 &&
    |s.vc.tabs| == |before.tabs| && (forall i :: 0 <= i < |s.vc.tabs| ==>
                                       s.vc.tabs[i] == if i < RESET_COLUMNS then i % 8 == 0 && i > 0 else before.tabs[i]) &&
    forall i :: 0 <= i < |s.cells| ==> s.cells[i] == s.vc.erase
  }

  lemma ResetVcMeans(d: Driver, vc: Vc)
    requires VcOk(d, vc)
    ensures var r := ResetVc(d, vc);
            r.cur == Cursor(0, 0, d.origin, false) && r.top == 0 && r.bottom == d.rows && r.parser == ResetParser(vc.parser) &&
            r.modes == Modes(false, false, true, false, false, false, false, false, vc.modes.decscl) &&
            r.sets == vc.sets.(active := 0, g0 := LAT1_MAP, g1 := GRAF_MAP) && r.translate == LAT1_MAP &&
            r.rend == DefaultRendition(d, vc) && r.saved == Saved(0, 0, r.rend, r.sets) && r.decoder.count == 0 &&
            r.erase == 256 * d.build(vc.colors, r.rend) + 32 && r.colors == vc.colors && r.palette == vc.palette &&
            r.gs == vc.gs && r.decoder.code == vc.decoder.code && Current(d, r) && r.tabs == DefaultTabs(vc.tabs)
  {
    hide VcOk, ParserOk, DriverOk, PaletteOk, SetsOk, SetOk, Utf8.Sound, DefaultTabs;
    VcRest(d, vc);
    RowsPositive(d);
  }

  lemma ErasedAll(d: Driver, s: State)
    requires Inv(d, s)
    ensures var r := EraseAll(d, s);
            r.vc == Unwrapped(s.vc) && forall i :: 0 <= i < |r.cells| ==> r.cells[i] == s.vc.erase
  {
    hide Inv, Unwrapped, VcOk, DriverOk;
    AllFits(d, s);
    InvParts(d, s);
  }

  /** RIS, from any state. */
  lemma ResetMeans(d: Driver, s: State)
    requires Inv(d, s)
    ensures IsReset(d, s.vc, Reset(d, s))
  {
    hide Inv, VcOk, ResetVc, EraseAll;
    InvRest(d, s);
    ResetVcMeans(d, s.vc);
    ErasedAll(d, WithVc(d, s, ResetVc(d, s.vc)));
  }

  lemma ResetCurrent(d: Driver, s: State)
    requires Inv(d, s)
    ensures Current(d, Reset(d, s).vc)
  {
    hide Inv, Reset, Current;
    ResetMeans(d, s);
  }
}
