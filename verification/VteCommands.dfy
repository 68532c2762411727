/** The emulator's functions that set modes, margins, rendition, character sets and tab stops, save and
    restore the cursor, and reset the terminal (drivers/char/decvte.c:281-1069).  Answers to the host,
    bells, blanking, console switching, the cursor's shape and the keyboard's modes other than line
    feed mode are not part of the state. */
module VteCommands {
  import opened VteState
  import opened VteScreen
  import Utf8

  // ---- replacing parts of the state ----

  function WithParser(d: Driver, vc: Vc, p: Parser): (r: Vc)
    requires VcOk(d, vc) && ParserOk(p)
    ensures VcOk(d, r) && r == vc.(parser := p)
  {
    hide ParserOk, DriverOk, PaletteOk, SetsOk, SetOk, Utf8.Sound;
    vc.(parser := p)
  }

  function Enter(d: Driver, vc: Vc, es: Es): (r: Vc)
    requires VcOk(d, vc) && es != Palette
    ensures VcOk(d, r) && r == vc.(parser := vc.parser.(state := es))
  {
    hide VcOk;
    ParserPart(d, vc);
    WithParser(d, vc, vc.parser.(state := es))
  }

  lemma ParserPart(d: Driver, vc: Vc)
    ensures VcOk(d, vc) ==> ParserOk(vc.parser)
  {
  }

  /** Modes other than origin mode. */
  function WithModes(d: Driver, vc: Vc, m: Modes): (r: Vc)
    requires VcOk(d, vc) && m.decom == vc.modes.decom
    ensures VcOk(d, r) && r == vc.(modes := m)
  {
    hide ParserOk, DriverOk, PaletteOk, SetsOk, SetOk, Utf8.Sound;
    vc.(modes := m)
  }

  function WithSets(d: Driver, vc: Vc, sets: Charsets, gs: int, translate: int): (r: Vc)
    requires VcOk(d, vc) && SetsOk(sets) && SetOk(gs) && SetOk(translate)
    ensures VcOk(d, r) && r == vc.(sets := sets, gs := gs, translate := translate)
  {
    hide ParserOk, DriverOk, PaletteOk, SetsOk, SetOk, Utf8.Sound;
    vc.(sets := sets, gs := gs, translate := translate)
  }

  lemma SetsPart(d: Driver, vc: Vc)
    ensures VcOk(d, vc) ==> SetsOk(vc.sets) && SetsOk(vc.saved.sets) && SetOk(vc.gs) && SetOk(vc.translate)
  {
  }

  function WithTabs(d: Driver, vc: Vc, tabs: seq<bool>): (r: Vc)
    requires VcOk(d, vc) && |tabs| == TabBits(d)
    ensures VcOk(d, r) && r == vc.(tabs := tabs)
  {
    hide ParserOk, DriverOk, PaletteOk, SetsOk, SetOk, Utf8.Sound;
    vc.(tabs := tabs)
  }

  lemma TabsPart(d: Driver, vc: Vc)
    ensures VcOk(d, vc) ==> |vc.tabs| == TabBits(d) >= TAB_COLUMNS && 0 <= vc.cur.x < d.cols <= |vc.tabs|
  {
  }

  function WithPalette(d: Driver, vc: Vc, p: seq<int>): (r: Vc)
    requires VcOk(d, vc) && PaletteOk(p)
    ensures VcOk(d, r) && r == vc.(palette := p)
  {
    hide ParserOk, DriverOk, PaletteOk, SetsOk, SetOk, Utf8.Sound;
    vc.(palette := p)
  }

  lemma PalettePart(d: Driver, vc: Vc)
    ensures VcOk(d, vc) ==> PaletteOk(vc.palette) && PaletteOk(d.palette)
  {
  }

  function WithDecoder(d: Driver, vc: Vc, u: Utf8.State): (r: Vc)
    requires VcOk(d, vc) && Utf8.Sound(u)
    ensures VcOk(d, r) && r == vc.(decoder := u)
  {
    hide ParserOk, DriverOk, PaletteOk, SetsOk, SetOk, Utf8.Sound;
    vc.(decoder := u)
  }

  lemma DecoderPart(d: Driver, vc: Vc)
    ensures VcOk(d, vc) ==> Utf8.Sound(vc.decoder)
  {
  }

  /** A new rendition or new colours take effect through update_attr. */
  function WithLook(d: Driver, vc: Vc, rend: Rendition, colors: Colors): (r: Vc)
    requires VcOk(d, vc)
    ensures VcOk(d, r)
    ensures r == vc.(rend := rend, colors := colors, attr := r.attr, erase := r.erase)
  {
    hide ParserOk, DriverOk, PaletteOk, SetsOk, SetOk, Utf8.Sound;
    UpdateAttr(d, vc.(rend := rend, colors := colors))
  }

  /** update_attr */
  function UpdateAttr(d: Driver, vc: Vc): (r: Vc)
    ensures r == vc.(attr := r.attr, erase := r.erase)
  {
    vc.(attr := d.build(vc.colors, vc.rend.(reverse := vc.rend.reverse != vc.modes.decscnm)),
        erase := 256 * d.build(vc.colors, vc.rend.(blink := false, underline := false, reverse := vc.modes.decscnm)) + 32)
  }

  // ---- graphic rendition ----

  /** color_table */
  function ColorTable(n: int): int
    requires 0 <= n < 16
  {
    [0, 4, 2, 6, 1, 5, 3, 7, 8, 12, 10, 14, 9, 13, 11, 15][n]
  }

  /** default_attr */
  function DefaultRendition(d: Driver, vc: Vc): Rendition {
    Rendition(if d.canDoColor then vc.colors.standard else vc.rend.color, 1, false, false, false)
  }

  function Foreground(color: int): int {
    color % 16
  }

  function Background(color: int): int {
    color - color % 16
  }

  /** What one SGR parameter does to the rendition. */
  function Rendered(d: Driver, vc: Vc, p: int): Rendition {
    var r := vc.rend;
    match p
    case 0 => DefaultRendition(d, vc)
    case 1 => r.(intensity := 2)
    case 2 => r.(intensity := 0)
    case 4 => r.(underline := true)
    case 5 => r.(blink := true)
    case 6 => r.(blink := true)
    case 7 => r.(reverse := true)
    case 21 => r.(intensity := 1)
    case 22 => r.(intensity := 1)
    case 24 => r.(underline := false)
    case 25 => r.(blink := false)
    case 27 => r.(reverse := false)
    case 38 => r.(color := Foreground(vc.colors.standard) + Background(r.color), underline := true)
    case 39 => r.(color := Foreground(vc.colors.standard) + Background(r.color), underline := false)
    case 49 => r.(color := Background(vc.colors.standard) + Foreground(r.color))
    case _ =>
      if 30 <= p <= 37 then r.(color := ColorTable(p - 30) + Background(r.color))
      else if 40 <= p <= 47 then r.(color := 16 * ColorTable(p - 40) + Foreground(r.color))
      else r
  }

  /** The character set in use when none is shifted in by SGR. */
  function ActiveSet(g: Charsets): (n: int)
    ensures SetsOk(g) ==> SetOk(n)
  {
    if g.active == 0 then g.g0 else g.g1
  }

  /** One parameter of SGR, before update_attr. */
  function SgrOne(d: Driver, vc: Vc, p: int): (r: Vc)
    ensures r == vc.(rend := r.rend, translate := r.translate, modes := vc.modes.(dispCtrl := r.modes.dispCtrl))
    ensures SetsOk(vc.sets) && SetOk(vc.translate) ==> SetOk(r.translate)
  {
    if p == 10 then vc.(translate := ActiveSet(vc.sets), modes := vc.modes.(dispCtrl := false))
    else if p == 11 || p == 12 then vc.(translate := IBMPC_MAP, modes := vc.modes.(dispCtrl := true))
    else vc.(rend := Rendered(d, vc, p))
  }

  /** Parameters 0 to n of SGR. */
  function SgrUpTo(d: Driver, vc: Vc, ps: seq<int>): (r: Vc)
    ensures r == vc.(rend := r.rend, translate := r.translate, modes := vc.modes.(dispCtrl := r.modes.dispCtrl))
    ensures SetsOk(vc.sets) && SetOk(vc.translate) ==> SetOk(r.translate)
  {
    hide SgrOne, SetsOk, SetOk;
    if |ps| == 0 then vc else SgrOne(d, SgrUpTo(d, vc, ps[..|ps| - 1]), ps[|ps| - 1])
  }

  /** The parameters given: vc_par[0] to vc_par[vc_npar]. */
  function Given(p: Parser): seq<int>
    requires ParserOk(p)
  {
    p.par[..p.npar + 1]
  }

  /** vte_sgr */
  function Sgr(d: Driver, vc: Vc): (r: Vc)
    requires VcOk(d, vc)
    ensures VcOk(d, r) && r.saved == vc.saved
  {
    hide SgrUpTo, ParserOk, DriverOk, PaletteOk, SetsOk, SetOk, Utf8.Sound, Given;
    UpdateAttr(d, SgrUpTo(d, vc, Given(vc.parser)))
  }

  /** The colour commands of setterm_command. */
  function Setterm(d: Driver, vc: Vc): (r: Vc)
    requires VcOk(d, vc)
    ensures VcOk(d, r) && r.saved == vc.saved
  {
    hide VcOk, WithLook, ParserOk;
    ParserPart(d, vc);
    var ps := Pars(vc.parser);
    var c := vc.colors;
    match ps.0
    case 1 =>
      if d.canDoColor && ps.1 < 16 then
        var c' := c.(underlined := ColorTable(ps.1));
        if vc.rend.underline then WithLook(d, vc, vc.rend, c') else WithColors(d, vc, c')
      else vc
    case 2 =>
      if d.canDoColor && ps.1 < 16 then
        var c' := c.(half := ColorTable(ps.1));
        if vc.rend.intensity == 0 then WithLook(d, vc, vc.rend, c') else WithColors(d, vc, c')
      else vc
    case 8 =>
      var vc' := WithColors(d, vc, c.(standard := if d.hiFontMask == 0x100 then vc.attr / 2 else vc.attr));
      WithLook(d, vc', DefaultRendition(d, vc'), vc'.colors)
    case _ => vc
  }

  function WithColors(d: Driver, vc: Vc, colors: Colors): (r: Vc)
    requires VcOk(d, vc)
    ensures VcOk(d, r) && r == vc.(colors := colors)
  {
    hide ParserOk, DriverOk, PaletteOk, SetsOk, SetOk, Utf8.Sound;
    vc.(colors := colors)
  }

  /** The first two parameters. */
  function Pars(p: Parser): (r: (int, int))
    requires ParserOk(p)
    ensures 0 <= r.0 && 0 <= r.1
  {
    (p.par[0], p.par[1])
  }

  // ---- modes ----

  function Inverted(d: Driver, cells: seq<int>): (r: seq<int>)
    ensures |r| == |cells|
  {
    seq(|cells|, i requires 0 <= i < |cells| => d.invert(cells[i]))
  }

  /** DECSCNM: the screen is inverted when the mode changes. */
  function SetScreenMode(d: Driver, s: State, on: bool): (r: State)
    requires Inv(d, s)
    ensures Inv(d, r) && r.vc.saved == s.vc.saved && r.vc.parser == s.vc.parser
  {
    hide Inv, VcOk, Inverted, WithModes, WithLook;
    InvRest(d, s);
    if s.vc.modes.decscnm == on then s
    else
      var vc := WithModes(d, s.vc, s.vc.modes.(decscnm := on));
      OtherCells(d, s, Inverted(d, s.cells));
      WithVc(d, s.(cells := Inverted(d, s.cells)), WithLook(d, vc, vc.rend, vc.colors))
  }

  /** DECOM: the cursor goes home. */
  function SetOriginMode(d: Driver, vc: Vc, on: bool): (r: Vc)
    requires VcOk(d, vc)
    ensures VcOk(d, r) && r.saved == vc.saved && r.parser == vc.parser
  {
    hide ParserOk, DriverOk, PaletteOk, SetsOk, SetOk, Utf8.Sound, GotoAbsolute;
    GotoAbsolute(d, vc.(modes := vc.modes.(decom := on)), 0, 0)
  }

  function SetModeOne(d: Driver, s: State, on: bool, p: int): (r: State)
    requires Inv(d, s)
    ensures Inv(d, r) && r.vc.saved == s.vc.saved && r.vc.parser == s.vc.parser
  {
    hide Inv, VcOk, SetScreenMode, SetPlainMode;
    InvRest(d, s);
    if s.vc.parser.priv == Question && p == 5 then SetScreenMode(d, s, on)
    else WithVc(d, s, SetPlainMode(d, s.vc, on, p))
  }

  /** The modes that do not touch the screen. */
  function SetPlainMode(d: Driver, vc: Vc, on: bool, p: int): (r: Vc)
    requires VcOk(d, vc)
    ensures VcOk(d, r) && r.saved == vc.saved && r.parser == vc.parser
  {
    hide VcOk, SetOriginMode, WithModes;
    if vc.parser.priv == Question then
      match p
      case 6 => SetOriginMode(d, vc, on)
      case 7 => WithModes(d, vc, vc.modes.(decawm := on))
      case _ => vc
    else
      match p
      case 3 => WithModes(d, vc, vc.modes.(dispCtrl := on))
      case 4 => WithModes(d, vc, vc.modes.(irm := on))
      case 20 => WithModes(d, vc, vc.modes.(crlf := on))
      case _ => vc
  }

  /** set_mode */
  function SetMode(d: Driver, s: State, on: bool, ps: seq<int>): (r: State)
    requires Inv(d, s)
    ensures Inv(d, r) && r.vc.saved == s.vc.saved && r.vc.parser == s.vc.parser
  {
    hide Inv, SetModeOne;
    if |ps| == 0 then s else SetModeOne(d, SetMode(d, s, on, ps[..|ps| - 1]), on, ps[|ps| - 1])
  }

  /** vte_decscl */
  function SetLevel(d: Driver, vc: Vc): (r: Vc)
    requires VcOk(d, vc)
    ensures VcOk(d, r) && r.saved == vc.saved
  {
    hide VcOk, WithModes, ParserOk;
    ParserPart(d, vc);
    var ps := Pars(vc.parser);
    var m := vc.modes;
    if ps.0 == 61 && vc.parser.npar == 1 then WithModes(d, vc, m.(decscl := 1, c8bit := false))
    else if 62 <= ps.0 <= 64 && vc.parser.npar <= 2 then WithModes(d, vc, m.(decscl := 4, c8bit := ps.1 != 1))
    else vc
  }

  /** DECSTBM: a region of at least two lines, and the cursor home. */
  function SetMargins(d: Driver, vc: Vc): (r: Vc)
    requires VcOk(d, vc)
    ensures VcOk(d, r) && r.saved == vc.saved
  {
    hide DriverOk, PaletteOk, SetsOk, SetOk, Utf8.Sound, GotoAbsolute, ParserOk;
    var ps := Pars(vc.parser);
    var t := if ps.0 == 0 then 1 else ps.0;
    var b := if ps.1 == 0 then d.rows else ps.1;
    if t < b <= d.rows then GotoAbsolute(d, vc.(top := t - 1, bottom := b), 0, 0) else vc
  }

  // ---- saving, restoring, resetting ----

  /** vte_decsc */
  function SaveCursor(d: Driver, vc: Vc): (r: Vc)
    requires VcOk(d, vc)
    ensures VcOk(d, r) && r == vc.(saved := Saved(vc.cur.x, vc.cur.y, vc.rend, vc.sets))
  {
    hide ParserOk, DriverOk, PaletteOk, SetsOk, SetOk, Utf8.Sound;
    vc.(saved := Saved(vc.cur.x, vc.cur.y, vc.rend, vc.sets))
  }

  /** vte_decrc */
  function RestoreCursor(d: Driver, vc: Vc): (r: Vc)
    requires VcOk(d, vc)
    ensures VcOk(d, r) && r.saved == vc.saved && r.modes == vc.modes
    ensures r.sets == vc.saved.sets && r.rend == vc.saved.rend
  {
    hide VcOk, WithSets, WithLook, SetsOk, SetOk;
    VcRest(d, vc);
    SetsPart(d, vc);
    var vc1 := Goto(d, vc, vc.saved.x, vc.saved.y);
    var g := vc.saved.sets;
    WithLook(d, WithSets(d, vc1, g, vc.gs, ActiveSet(g)), vc.saved.rend, vc.colors)
  }

  lemma VcRest(d: Driver, vc: Vc)
    ensures VcOk(d, vc) ==> RestOk(d, vc)
  {
  }

  lemma InvRest(d: Driver, s: State)
    ensures Inv(d, s) ==> RestOk(d, s.vc) && VcOk(d, s.vc)
  {
  }

  /** The tab stops vte_ris sets: words 0 to 4 of vc_tab_stop, every eighth column but the first. */
  function DefaultTabs(tabs: seq<bool>): (r: seq<bool>)
    ensures |r| == |tabs|
  {
    seq(|tabs|, i requires 0 <= i < |tabs| => if i < RESET_COLUMNS then i % 8 == 0 && i > 0 else tabs[i])
  }

  /** What vte_tbc clears: the same five words. */
  function ClearedTabs(tabs: seq<bool>): (r: seq<bool>)
    ensures |r| == |tabs|
  {
    seq(|tabs|, i requires 0 <= i < |tabs| => i >= RESET_COLUMNS && tabs[i])
  }

  function ResetParser(p: Parser): (r: Parser)
    ensures ParserOk(p) ==> ParserOk(r)
  {
    p.(state := Init, priv := Public)
  }

  /** vte_ris up to its call of gotoxy. */
  function ResetFields(d: Driver, vc: Vc): (r: Vc)
    requires RestOk(d, vc)
    ensures RestOk(d, r) && r == r.(cur := vc.cur, saved := vc.saved) && r.top == 0 && r.bottom == d.rows && !r.modes.decom
    ensures r.parser.state == Init
  {
    hide ParserOk, DriverOk, PaletteOk;
    var vc1 := vc.(top := 0, bottom := d.rows, parser := ResetParser(vc.parser),
                   translate := LAT1_MAP, sets := vc.sets.(active := 0, g0 := LAT1_MAP, g1 := GRAF_MAP),
                   modes := Modes(false, false, true, false, false, false, false, false, vc.modes.decscl),
                   decoder := vc.decoder.(count := 0), tabs := DefaultTabs(vc.tabs));
    assert 1 <= d.rows by { RowsPositive(d); }
    UpdateAttr(d, vc1.(rend := DefaultRendition(d, vc1)))
  }

  lemma RowsPositive(d: Driver)
    ensures DriverOk(d) ==> 1 <= d.rows && 1 <= d.cols
  {
  }

  /** vte_ris before it clears the screen: the saved cursor is the home position. */
  function ResetVc(d: Driver, vc: Vc): (r: Vc)
    requires VcOk(d, vc)
    ensures VcOk(d, r) && r.cur.x == 0 && r.cur.y == 0 && r.parser.state == Init && !r.modes.decom
  {
    hide VcOk, RestOk, ResetFields, SaveCursor;
    VcRest(d, vc);
    SaveCursor(d, Goto(d, ResetFields(d, vc), 0, 0))
  }

  /** vte_ris */
  function Reset(d: Driver, s: State): (r: State)
    requires Inv(d, s)
    ensures Inv(d, r) && r.vc.cur.x == 0 && r.vc.cur.y == 0 && r.vc.parser.state == Init && !r.vc.modes.decom
  {
    hide Inv, VcOk, ResetVc, EraseAll;
    InvRest(d, s);
    EraseAll(d, WithVc(d, s, ResetVc(d, s.vc)))
  }

  /** vte_ed(vc, 2) */
  function EraseAll(d: Driver, s: State): (r: State)
    requires Inv(d, s)
    ensures Inv(d, r) && r.vc == Unwrapped(s.vc)
  {
    hide Inv, Erased, Size, Unwrapped;
    AllFits(d, s);
    Erased(d, s, 0, Size(d))
  }

  lemma AllFits(d: Driver, s: State)
    ensures Inv(d, s) ==> 0 <= Size(d)
  {
  }

  /** DEC screen alignment test: the screen full of Es. */
  function Alignment(d: Driver, s: State): (r: State)
    requires Inv(d, s)
    ensures Inv(d, r) && r.vc.saved == s.vc.saved
  {
    hide Inv, VcOk, EraseAll, WithErase;
    InvRest(d, s);
    var byte := s.vc.erase / 256 * 256;
    var s1 := EraseAll(d, WithVc(d, s, WithErase(d, s.vc, byte + 69)));
    InvRest(d, s1);
    WithVc(d, s1, WithErase(d, s1.vc, byte + 32))
  }

  function WithErase(d: Driver, vc: Vc, erase: int): (r: Vc)
    requires VcOk(d, vc)
    ensures VcOk(d, r) && r == vc.(erase := erase)
  {
    hide ParserOk, DriverOk, PaletteOk, SetsOk, SetOk, Utf8.Sound;
    vc.(erase := erase)
  }
}
