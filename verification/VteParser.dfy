/** The DEC VT emulator's parser (drivers/char/decvte.c:1072-2049) and the loop that writes bytes to
    a console (drivers/char/vt.c:1245-1353).  Handlers overwrite vc_par[0] and vc_par[1] with the
    values they default to; no later step reads those, so the model leaves the parameters alone. */
module VteParser {
  import opened VteState
  import opened VteScreen
  import opened VteCommands
  import Utf8

  /** A code as a character to match on; codes beyond ASCII match nothing. */
  function AsChar(c: int): (r: char)
    ensures 0 < c < 128 ==> r == c as char
    ensures !(0 < c < 128) ==> r == '\0'
  {
    if 0 < c < 128 then c as char else '\0'
  }

  // ---- control characters ----

  function ShiftOut(d: Driver, vc: Vc, n: int): (r: Vc)
    requires VcOk(d, vc) && 0 <= n <= 1
    ensures VcOk(d, r) && r.saved == vc.saved
  {
    hide VcOk, WithSets, WithModes, SetOk;
    SetsPart(d, vc);
    var g := vc.sets.(active := n);
    WithModes(d, WithSets(d, vc, g, vc.gs, ActiveSet(g)), vc.modes.(dispCtrl := n == 1))
  }

  function SetTab(d: Driver, vc: Vc, on: bool): (r: Vc)
    requires VcOk(d, vc)
    ensures VcOk(d, r) && r.saved == vc.saved
  {
    hide VcOk, WithTabs;
    TabsPart(d, vc);
    WithTabs(d, vc, vc.tabs[vc.cur.x := on])
  }

  /** HT and CHT, CBT */
  function TabForward(d: Driver, vc: Vc, n: nat): (r: Vc)
    requires VcOk(d, vc)
    ensures VcOk(d, r) && r == vc.(cur := r.cur)
  {
    hide VcOk, MoveTo, TabsForward;
    TabsPart(d, vc);
    MoveTo(d, vc, TabsForward(vc.tabs, vc.cur.x, d.cols - 1, n))
  }

  function TabBack(d: Driver, vc: Vc, n: nat): (r: Vc)
    requires VcOk(d, vc)
    ensures VcOk(d, r) && r == vc.(cur := r.cur)
  {
    hide VcOk, MoveTo, TabsBack;
    TabsPart(d, vc);
    MoveTo(d, vc, TabsBack(vc.tabs, vc.cur.x, n))
  }

  /** LF, VT and FF: in line feed mode the cursor also returns. */
  function Feed(d: Driver, s: State): (r: State)
    requires Inv(d, s)
    ensures Inv(d, r) && r.vc == s.vc.(cur := r.vc.cur)
  {
    hide Inv, LineFeed, Returned, VcOk;
    if s.vc.modes.crlf then Returned(d, LineFeed(d, s)) else LineFeed(d, s)
  }

  function Returned(d: Driver, s: State): (r: State)
    requires Inv(d, s)
    ensures Inv(d, r) && r.vc == s.vc.(cur := r.vc.cur)
  {
    hide Inv, VcOk, CarriageReturn;
    InvRest(d, s);
    WithVc(d, s, CarriageReturn(d, s.vc))
  }

  predicate IsC0(c: int) {
    0 <= c < 0x20 || c == 0x7F
  }

  /** The C0 control characters other than the line feeds. */
  function C0Vc(d: Driver, vc: Vc, c: int): (r: Vc)
    requires VcOk(d, vc)
    ensures VcOk(d, r) && r.saved == vc.saved
  {
    hide VcOk, Backspace, TabForward, CarriageReturn, ShiftOut, Enter;
    match c
    case 0x08 => Backspace(d, vc)
    case 0x09 => TabForward(d, vc, 1)
    case 0x0D => CarriageReturn(d, vc)
    case 0x0E => ShiftOut(d, vc, 1)
    case 0x0F => ShiftOut(d, vc, 0)
    case 0x18 => Enter(d, vc, Init)
    case 0x1A => Enter(d, vc, Init)
    case 0x1B => Enter(d, vc, Esc)
    case _ => vc
  }

  /** The C0 control characters, which act in every state. */
  function C0(d: Driver, s: State, c: int): (r: State)
    requires Inv(d, s)
    ensures Inv(d, r) && r.vc.saved == s.vc.saved
  {
    hide Inv, VcOk, C0Vc, Feed;
    InvRest(d, s);
    if 0x0A <= c <= 0x0C then Feed(d, s) else WithVc(d, s, C0Vc(d, s.vc, c))
  }

  /** The 8-bit C1 controls; SS2 and SS3 are not among them. */
  predicate IsC1(c: int) {
    0x80 <= c <= 0x9F && c != 0x8E && c != 0x8F
  }

  function C1Vc(d: Driver, vc: Vc, c: int): (r: Vc)
    requires VcOk(d, vc)
    ensures VcOk(d, r) && r.saved == vc.saved
  {
    hide VcOk, SetTab, Enter;
    if c == 0x88 then SetTab(d, vc, true) else if c == 0x9B then Enter(d, vc, Csi) else vc
  }

  function C1(d: Driver, s: State, c: int): (r: State)
    requires Inv(d, s)
    ensures Inv(d, r) && r.vc.saved == s.vc.saved
  {
    hide Inv, VcOk, LineFeed, Returned, ReverseLineFeed, C1Vc;
    InvRest(d, s);
    match c
    case 0x84 => LineFeed(d, s)
    case 0x85 => Returned(d, LineFeed(d, s))
    case 0x8D => ReverseLineFeed(d, s)
    case _ => WithVc(d, s, C1Vc(d, s.vc, c))
  }

  // ---- escape sequences ----

  function SingleShift(d: Driver, vc: Vc, g: int): (r: Vc)
    requires VcOk(d, vc) && SetOk(g)
    ensures VcOk(d, r) && r.saved == vc.saved
  {
    hide VcOk, WithSets, SetOk;
    SetsPart(d, vc);
    WithSets(d, vc, vc.sets, g, vc.translate)
  }

  /** After ESC, what does not touch the screen; the parser is already back in its initial state. */
  function EscapeVc(d: Driver, vc: Vc, c: char): (r: Vc)
    requires VcOk(d, vc)
    ensures VcOk(d, r) && (c != '7' ==> r.saved == vc.saved)
  {
    hide VcOk, Enter, SaveCursor, RestoreCursor, SetTab, SingleShift, SetOk;
    SetsPart(d, vc);
    match c
    case ' ' => Enter(d, vc, Acs)
    case '#' => Enter(d, vc, Scf)
    case '%' => Enter(d, vc, Docs)
    case '(' => Enter(d, vc, Gzd4)
    case ')' => Enter(d, vc, G1d4)
    case '7' => SaveCursor(d, vc)
    case '8' => RestoreCursor(d, vc)
    case 'H' => SetTab(d, vc, true)
    case 'N' => SingleShift(d, vc, vc.sets.g2)
    case 'O' => SingleShift(d, vc, vc.sets.g3)
    case '[' => Enter(d, vc, Csi)
    case ']' => Enter(d, vc, Osc)
    case _ => vc
  }

  function Escape(d: Driver, s: State, c: char): (r: State)
    requires Inv(d, s)
    ensures Inv(d, r) && (c != '7' && c != 'c' ==> r.vc.saved == s.vc.saved)
  {
    hide Inv, VcOk, LineFeed, NewLine, ReverseLineFeed, Reset, EscapeVc;
    InvRest(d, s);
    if '@' <= c <= 'D' then LineFeed(d, s)
    else if c == 'E' then NewLine(d, s)
    else if c == 'M' then ReverseLineFeed(d, s)
    else if c == 'c' then Reset(d, s)
    else WithVc(d, s, EscapeVc(d, s.vc, c))
  }

  function Designated(c: char, previous: int): (r: int)
    ensures SetOk(previous) ==> SetOk(r)
  {
    match c
    case '0' => GRAF_MAP
    case 'A' => LAT1_MAP
    case 'B' => LAT1_MAP
    case 'U' => IBMPC_MAP
    case 'K' => USER_MAP
    case _ => previous
  }

  /** GZD4 and G1D4 */
  function Designate(d: Driver, vc: Vc, g: int, c: char): (r: Vc)
    requires VcOk(d, vc) && 0 <= g <= 1
    ensures VcOk(d, r) && r.saved == vc.saved
  {
    hide VcOk, WithSets, Designated, SetOk;
    SetsPart(d, vc);
    var sets := if g == 0 then vc.sets.(g0 := Designated(c, vc.sets.g0))
                else vc.sets.(g1 := Designated(c, vc.sets.g1));
    WithSets(d, vc, sets, vc.gs, if sets.active == g then ActiveSet(sets) else vc.translate)
  }

  // ---- palette ----

  function HexValue(c: char): (n: int)
    ensures -1 <= n < 16
  {
    if '0' <= c <= '9' then (c - '0') as int
    else if 'A' <= c <= 'F' then (c - 'A') as int + 10
    else if 'a' <= c <= 'f' then (c - 'a') as int + 10
    else -1
  }

  /** The palette with the colour par[0] set from the six digits that follow: the writes stay inside. */
  function Recolored(palette: seq<int>, par: seq<int>): (r: seq<int>)
    requires PaletteOk(palette) && |par| == NPAR && forall i :: 0 <= i < NPAR ==> 0 <= par[i] < 16
    ensures PaletteOk(r) && 3 * par[0] + 2 < PALETTE_BYTES
    ensures forall i :: 0 <= i < PALETTE_BYTES && i / 3 != par[0] ==> r[i] == palette[i]
  {
    var i := 3 * par[0];
    palette[i := 16 * par[1] + par[2]][i + 1 := 16 * par[3] + par[4]][i + 2 := 16 * par[5] + par[6]]
  }

  function NoPars(): (r: seq<int>)
    ensures |r| == NPAR && forall i :: 0 <= i < NPAR ==> r[i] == 0
  {
    seq(NPAR, _ => 0)
  }

  /** One more palette digit. */
  function PaletteDigit(p: Parser, n: int): (r: Parser)
    requires ParserOk(p) && p.state == Palette && 0 <= n < 16
    ensures |r.par| == NPAR && forall i :: 0 <= i < NPAR ==> 0 <= r.par[i] < 16
    ensures r.npar == p.npar + 1 <= 7 && (r.npar < 7 ==> ParserOk(r)) && ParserOk(r.(state := Init))
  {
    p.(par := p.par[p.npar := n], npar := p.npar + 1)
  }

  function InPalette(d: Driver, vc: Vc, c: char): (r: Vc)
    requires VcOk(d, vc) && vc.parser.state == Palette
    ensures VcOk(d, r) && r.saved == vc.saved
  {
    hide VcOk, Enter, WithParser, WithPalette, Recolored, ParserOk, PaletteOk;
    ParserPart(d, vc);
    PalettePart(d, vc);
    var n := HexValue(c);
    if n < 0 then Enter(d, vc, Init)
    else
      var p := PaletteDigit(vc.parser, n);
      if p.npar == 7 then WithPalette(d, WithParser(d, vc, p.(state := Init)), Recolored(vc.palette, p.par))
      else WithParser(d, vc, p)
  }

  /** After ESC ]; s is already back in the initial state. */
  function OperatingSystem(d: Driver, vc: Vc, c: char): (r: Vc)
    requires VcOk(d, vc)
    ensures VcOk(d, r) && r.saved == vc.saved
  {
    hide VcOk, WithParser, WithPalette, PaletteOk;
    PalettePart(d, vc);
    match c
    case 'P' => WithParser(d, vc, vc.parser.(state := Palette, npar := 0, par := NoPars()))
    case 'R' => WithPalette(d, vc, d.palette)
    case _ => vc
  }

  // ---- control sequences ----

  function At(n: int): int {
    if n == 0 then 1 else n
  }

  function From1(n: int): int {
    if n == 0 then 0 else n - 1
  }

  function Moved(d: Driver, vc: Vc, x: int, y: int): (r: Vc)
    requires VcOk(d, vc)
    ensures VcOk(d, r) && r == vc.(cur := r.cur)
  {
    hide VcOk, RestOk;
    VcRest(d, vc);
    Goto(d, vc, ToInt(x), ToInt(y))
  }

  function MovedAbsolute(d: Driver, vc: Vc, x: int, y: int): (r: Vc)
    requires VcOk(d, vc)
    ensures VcOk(d, r) && r == vc.(cur := r.cur)
  {
    hide VcOk, RestOk;
    VcRest(d, vc);
    GotoAbsolute(d, vc, ToInt(x), ToInt(y))
  }

  /** The cursor motions. */
  function Motion(d: Driver, vc: Vc, c: char): (r: Vc)
    requires VcOk(d, vc)
    ensures VcOk(d, r) && r == vc.(cur := r.cur)
  {
    hide VcOk, Moved, MovedAbsolute, ParserOk;
    ParserPart(d, vc);
    var (p0, p1) := Pars(vc.parser);
    var (x, y) := (vc.cur.x, vc.cur.y);
    match c
    case 'A' => Moved(d, vc, x, y - At(p0))
    case 'k' => Moved(d, vc, x, y - At(p0))
    case 'B' => Moved(d, vc, x, y + At(p0))
    case 'e' => Moved(d, vc, x, y + At(p0))
    case 'C' => Moved(d, vc, x + At(p0), y)
    case 'a' => Moved(d, vc, x + At(p0), y)
    case 'D' => Moved(d, vc, x - At(p0), y)
    case 'j' => Moved(d, vc, x - At(p0), y)
    case 'E' => Moved(d, vc, 0, y + At(p0))
    case 'F' => Moved(d, vc, 0, y - At(p0))
    case 'G' => Moved(d, vc, From1(p0), y)
    case '`' => Moved(d, vc, From1(p0), y)
    case 'H' => MovedAbsolute(d, vc, From1(p1), From1(p0))
    case 'f' => MovedAbsolute(d, vc, From1(p1), From1(p0))
    case 'd' => MovedAbsolute(d, vc, x, From1(p0))
    case _ => vc
  }

  function ClearTabs(d: Driver, vc: Vc, par: int): (r: Vc)
    requires VcOk(d, vc)
    ensures VcOk(d, r) && r.saved == vc.saved
  {
    hide VcOk, SetTab, WithTabs;
    TabsPart(d, vc);
    match par
    case 0 => SetTab(d, vc, false)
    case 2 => WithTabs(d, vc, ClearedTabs(vc.tabs))
    case 3 => WithTabs(d, vc, ClearedTabs(vc.tabs))
    case 5 => WithTabs(d, vc, ClearedTabs(vc.tabs))
    case _ => vc
  }

  /** CTC */
  function TabControl(d: Driver, vc: Vc, par: int): (r: Vc)
    requires VcOk(d, vc)
    ensures VcOk(d, r) && r.saved == vc.saved
  {
    hide VcOk, SetTab, ClearTabs;
    match par
    case 0 => SetTab(d, vc, true)
    case 2 => ClearTabs(d, vc, 0)
    case 5 => ClearTabs(d, vc, 5)
    case _ => vc
  }

  /** Erasing, inserting and deleting. */
  function Editing(d: Driver, s: State, c: char): (r: State)
    requires Inv(d, s)
    ensures Inv(d, r) && r.vc == s.vc.(cur := r.vc.cur)
  {
    hide Inv, VcOk, Ich, EraseInPage, EraseInLine, InsertLines, DeleteLines, Dch, EraseCharacters, LineFeeds, ParserOk;
    InvRest(d, s);
    ParserPart(d, s.vc);
    var (p0, p1) := Pars(s.vc.parser);
    match c
    case '@' => Ich(d, s, p0)
    case 'J' => EraseInPage(d, s, p0)
    case 'K' => EraseInLine(d, s, p0)
    case 'L' => InsertLines(d, s, p0)
    case 'M' => DeleteLines(d, s, p0)
    case 'P' => Dch(d, s, p0)
    case 'X' => EraseCharacters(d, s, p0)
    case 'Y' => LineFeeds(d, s, Times(At(p0)))
    case _ => s
  }

  /** Whether c continues the sequence with an intermediate byte, and the state it leads to. */
  function Intermediate(c: char): (r: Es)
    ensures r != Palette
  {
    match c
    case ' ' => CsiSpace
    case '!' => CsiExclam
    case '"' => CsiDquote
    case '$' => CsiDollar
    case '&' => CsiAnd
    case '*' => CsiStar
    case '+' => CsiPlus
    case _ => Init
  }

  predicate IsMotion(c: char) {
    c in "AkBeCaDjEFG`Hfd"
  }

  predicate IsEditing(c: char) {
    c in "@JKLMPXY"
  }

  /** A control sequence that does not touch the screen. */
  function StandardVc(d: Driver, vc: Vc, c: char): (r: Vc)
    requires VcOk(d, vc)
    ensures VcOk(d, r) && r.saved == vc.saved
  {
    hide VcOk, ParserOk, TabForward, TabControl, TabBack, ClearTabs, Setterm, Sgr, SetMargins, Enter, Intermediate;
    ParserPart(d, vc);
    var (p0, p1) := Pars(vc.parser);
    match c
    case 'I' => TabForward(d, vc, Times(At(p0)))
    case 'W' => TabControl(d, vc, p0)
    case 'Z' => TabBack(d, vc, Times(p0))
    case 'g' => ClearTabs(d, vc, p0)
    case ']' => Setterm(d, vc)
    case 'm' => Sgr(d, vc)
    case 'r' => SetMargins(d, vc)
    case _ => Enter(d, vc, Intermediate(c))
  }

  /** A control sequence without a private marker. */
  function Standard(d: Driver, s: State, c: char): (r: State)
    requires Inv(d, s)
    ensures Inv(d, r) && r.vc.saved == s.vc.saved
  {
    hide Inv, VcOk, Motion, Editing, StandardVc, IsMotion, IsEditing;
    InvRest(d, s);
    if IsEditing(c) then Editing(d, s, c)
    else if IsMotion(c) then WithVc(d, s, Motion(d, s.vc, c))
    else WithVc(d, s, StandardVc(d, s.vc, c))
  }

  function ClearPriv(d: Driver, vc: Vc): (r: Vc)
    requires VcOk(d, vc)
    ensures VcOk(d, r) && r == vc.(parser := vc.parser.(priv := Public))
  {
    hide VcOk;
    ParserPart(d, vc);
    WithParser(d, vc, vc.parser.(priv := Public))
  }

  /** What a private marker does to the final bytes other than h and l. */
  function PrivateVc(d: Driver, vc: Vc, c: char): (r: Vc)
    requires VcOk(d, vc)
    ensures VcOk(d, r) && r.saved == vc.saved
  {
    hide VcOk, Enter, ClearPriv;
    if vc.parser.priv == Question then
      if c == '$' then Enter(d, vc, CsiDollar) else if c == 'J' || c == 'K' then vc else ClearPriv(d, vc)
    else if c == 'n' then vc
    else ClearPriv(d, vc)
  }

  /** The final byte of a control sequence; the parser is already back in its initial state. */
  function Final(d: Driver, s: State, c: char): (r: State)
    requires Inv(d, s)
    ensures Inv(d, r) && r.vc.saved == s.vc.saved
  {
    hide Inv, VcOk, SetMode, PrivateVc, Standard, ParserOk, Given;
    InvRest(d, s);
    ParserPart(d, s.vc);
    if c == 'h' || c == 'l' then SetMode(d, s, c == 'h', Given(s.vc.parser))
    else if s.vc.parser.priv != Public then WithVc(d, s, PrivateVc(d, s.vc, c))
    else Standard(d, s, c)
  }

  /** One more digit of the current parameter, in 32-bit unsigned arithmetic. */
  function ParDigit(p: Parser, n: int): (r: Parser)
    requires ParserOk(p) && p.state != Palette && 0 <= n < 10
    ensures ParserOk(r) && r == p.(par := r.par)
  {
    p.(par := p.par[p.npar := (p.par[p.npar] * 10 + n) % 0x1_0000_0000])
  }

  function ParNext(p: Parser): (r: Parser)
    requires ParserOk(p) && p.state != Palette && p.npar < NPAR - 1
    ensures ParserOk(r) && r == p.(npar := p.npar + 1)
  {
    p.(npar := p.npar + 1)
  }

  predicate IsDigit(c: char) {
    '0' <= c <= '9'
  }

  function Digit(c: char): (n: int)
    requires IsDigit(c)
    ensures 0 <= n < 10
  {
    (c - '0') as int
  }

  predicate Continues(p: Parser, c: char) {
    (c == ';' && p.npar < NPAR - 1) || IsDigit(c)
  }

  /** A parameter digit or separator. */
  function ReadParameter(d: Driver, vc: Vc, c: char): (r: Vc)
    requires VcOk(d, vc) && vc.parser.state != Palette && Continues(vc.parser, c)
    ensures VcOk(d, r) && r == vc.(parser := r.parser)
  {
    hide VcOk, WithParser, ParserOk, ParDigit, ParNext, Digit;
    ParserPart(d, vc);
    if IsDigit(c) then WithParser(d, vc, ParDigit(vc.parser, Digit(c))) else WithParser(d, vc, ParNext(vc.parser))
  }

  /** While parameters are read. */
  function Parameters(d: Driver, s: State, c: char): (r: State)
    requires Inv(d, s) && s.vc.parser.state == Getpars
    ensures Inv(d, r) && r.vc.saved == s.vc.saved
  {
    hide Inv, VcOk, ReadParameter, Enter, Final, Continues;
    InvRest(d, s);
    if Continues(s.vc.parser, c) then WithVc(d, s, ReadParameter(d, s.vc, c))
    else Final(d, WithVc(d, s, Enter(d, s.vc, Init)), c)
  }

  function Marker(c: char): Priv {
    match c
    case '<' => Less
    case '=' => Equal
    case '>' => Greater
    case '?' => Question
    case _ => Public
  }

  /** Just after CSI: the parameters are cleared and a private marker is noted. */
  function Introduce(d: Driver, vc: Vc, c: char): (r: Vc)
    requires VcOk(d, vc)
    ensures VcOk(d, r) && r.saved == vc.saved && (Marker(c) == Public && c != '[' ==> r.parser.state == Getpars)
  {
    hide VcOk, WithParser;
    var p := vc.parser.(npar := 0, par := NoPars());
    if c == '[' then WithParser(d, vc, p.(state := Funckey))
    else WithParser(d, vc, p.(state := if c == '<' then Init else Getpars, priv := Marker(c)))
  }

  function Introduced(d: Driver, s: State, c: char): (r: State)
    requires Inv(d, s)
    ensures Inv(d, r) && r.vc.saved == s.vc.saved
  {
    hide Inv, VcOk, Introduce, Parameters;
    InvRest(d, s);
    var s1 := WithVc(d, s, Introduce(d, s.vc, c));
    if Marker(c) == Public && c != '[' then Parameters(d, s1, c) else s1
  }

  // ---- the emulator ----

  /** Announcing 7-bit or 8-bit controls. */
  function Announce(d: Driver, vc: Vc, c: char): (r: Vc)
    requires VcOk(d, vc)
    ensures VcOk(d, r) && r.saved == vc.saved
  {
    hide VcOk, WithModes;
    if (c == 'F' || c == 'G') && vc.modes.decscl != 1 then WithModes(d, vc, vc.modes.(c8bit := c == 'G')) else vc
  }

  /** Entering or leaving UTF-8. */
  function Coding(d: Driver, vc: Vc, c: char): (r: Vc)
    requires VcOk(d, vc)
    ensures VcOk(d, r) && r.saved == vc.saved
  {
    hide VcOk, WithModes;
    match c
    case '@' => WithModes(d, vc, vc.modes.(utf := false))
    case 'G' => WithModes(d, vc, vc.modes.(utf := true))
    case '8' => WithModes(d, vc, vc.modes.(utf := true))
    case _ => vc
  }

  /** Whether the step saves the cursor: DECSC, RIS or DECSTR. */
  predicate Saves(es: Es, c: char) {
    (es == Esc && (c == '7' || c == 'c')) || (es == CsiExclam && c == 'p')
  }

  /** The states whose sequences never touch the screen. */
  function ByStateVc(d: Driver, vc: Vc, c: char): (r: Vc)
    requires VcOk(d, vc)
    ensures VcOk(d, r) && r.saved == vc.saved
  {
    hide VcOk, Enter, Announce, OperatingSystem, InPalette, SetLevel, Coding, Designate;
    var vc0 := Enter(d, vc, Init);
    match vc.parser.state
    case Acs => Announce(d, vc0, c)
    case Osc => OperatingSystem(d, vc0, c)
    case Palette => InPalette(d, vc, c)
    case CsiDquote => if c == 'p' then SetLevel(d, vc0) else vc0
    case Docs => Coding(d, vc0, c)
    case Gzd4 => Designate(d, vc0, 0, c)
    case G1d4 => Designate(d, vc0, 1, c)
    case _ => vc0
  }

  /** A printing character, by the parser's state. */
  function ByState(d: Driver, s: State, c: char): (r: State)
    requires Inv(d, s)
    ensures Inv(d, r) && (!Saves(s.vc.parser.state, c) ==> r.vc.saved == s.vc.saved)
  {
    hide Inv, VcOk, Enter, Escape, Introduced, Parameters, Reset, Alignment, ByStateVc;
    InvRest(d, s);
    match s.vc.parser.state
    case Esc => Escape(d, WithVc(d, s, Enter(d, s.vc, Init)), c)
    case Csi => Introduced(d, s, c)
    case Getpars => Parameters(d, s, c)
    case CsiExclam =>
      var s0 := WithVc(d, s, Enter(d, s.vc, Init));
      if c == 'p' then Reset(d, s0) else s0
    case Scf =>
      var s0 := WithVc(d, s, Enter(d, s.vc, Init));
      if c == '8' then Alignment(d, s0) else s0
    case _ => WithVc(d, s, ByStateVc(d, s.vc, c))
  }

  /** terminal_emulation */
  function Emulate(d: Driver, s: State, c: int): (r: State)
    requires Inv(d, s)
    ensures Inv(d, r) && (!Saves(s.vc.parser.state, AsChar(c)) ==> r.vc.saved == s.vc.saved)
  {
    hide Inv, C0, C1, ByState, Saves, AsChar;
    if IsC0(c) then C0(d, s, c)
    else if s.vc.modes.c8bit && IsC1(c) then C1(d, s, c)
    else ByState(d, s, AsChar(c))
  }

  // ---- writing ----

  /** CTRL_ACTION and CTRL_ALWAYS: the control characters that are acted on, rather than shown. */
  predicate Acts(dispCtrl: bool, c: int) {
    if dispCtrl then c in [0, 8, 10, 12, 13, 14, 15, 27]
    else c in [0, 7, 8, 9, 10, 11, 12, 13, 14, 15, 24, 26, 27]
  }

  /** A byte that is shown in the initial state. */
  predicate Shown(m: Modes, c: int) {
    c != 0 && (c >= 32 || (!m.utf && !Acts(m.dispCtrl, c))) && (c != 127 || m.dispCtrl) && c != 155
  }

  /** The glyph for a code: its own, the replacement character's, or the code itself. */
  function Glyph(d: Driver, c: int): int {
    if d.convert(c) == -4 then (if d.convert(0xFFFD) == -4 then c else d.convert(0xFFFD))
    else if d.convert(c) == -3 then c
    else d.convert(c)
  }

  predicate HasGlyph(d: Driver, glyph: int) {
    0 <= glyph < (if d.hiFontMask != 0 then 512 else 256)
  }

  function Written(d: Driver, s: State, glyph: int): (r: State)
    requires Inv(d, s)
    ensures Inv(d, r) && r.vc == s.vc
  {
    hide Inv, Here, DriverOk, VcOk, CursorOk;
    InvParts(d, s);
    HereIs(d, s.vc.cur);
    var cells := s.cells[Here(d, s.vc.cur) := d.compose(s.vc.attr, glyph)];
    OtherCells(d, s, cells);
    s.(cells := cells)
  }

  /** The cursor after a glyph: one column on, or waiting to wrap in the last column. */
  function Advanced(d: Driver, vc: Vc): (r: Vc)
    requires VcOk(d, vc)
    ensures VcOk(d, r) && r == vc.(cur := r.cur)
  {
    hide RestOk;
    var cur := vc.cur;
    var cur' := if cur.x == d.cols - 1 then cur.(needWrap := vc.modes.decawm)
                else cur.(x := cur.x + 1, pos := cur.pos + 2);
    RestIgnoresCursor(d, vc, cur');
    vc.(cur := cur')
  }

  function Put(d: Driver, s: State, glyph: int): (r: State)
    requires Inv(d, s)
    ensures Inv(d, r) && r.vc == s.vc.(cur := r.vc.cur)
  {
    hide Inv, NewLine, InsertCharacters, Written, Advanced, VcOk, DriverOk, Size;
    var s1 := if s.vc.cur.needWrap then NewLine(d, s) else s;
    InvParts(d, s1);
    var s2 := if s.vc.modes.irm then InsertCharacters(d, s1, 1) else s1;
    var s3 := Written(d, s2, glyph);
    InvRest(d, s3);
    WithVc(d, s3, Advanced(d, s3.vc))
  }

  /** One round of the write loop.  Bytes are taken as they come in the initial state; in the other
      states they pass the UTF-8 decoder if the console is in UTF-8. */
  function Step(d: Driver, s: State, b: Utf8.byte): (r: State)
    requires Inv(d, s)
    ensures Inv(d, r)
  {
    hide Inv, VcOk, Put, Emulate, WithDecoder, Shown, HasGlyph, Glyph, Utf8.Step, Utf8.Sound;
    InvRest(d, s);
    DecoderPart(d, s.vc);
    if s.vc.parser.state == Init then
      if Shown(s.vc.modes, b) then
        if HasGlyph(d, Glyph(d, b)) then Put(d, s, Glyph(d, b)) else s
      else Emulate(d, s, b)
    else if s.vc.modes.utf then
      Utf8.StepSound(s.vc.decoder, b);
      var (u, o) := Utf8.Step(s.vc.decoder, b);
      var s1 := WithVc(d, s, WithDecoder(d, s.vc, u));
      if o.Some? then Emulate(d, s1, o.value) else s1
    else Emulate(d, s, b)
  }

  /** A byte stream written to the console. */
  function Run(d: Driver, s: State, bs: seq<Utf8.byte>): (r: State)
    requires Inv(d, s)
    ensures Inv(d, r)
    decreases |bs|
  {
    hide Inv, Step;
    if |bs| == 0 then s else Run(d, Step(d, s, bs[0]), bs[1..])
  }
}
