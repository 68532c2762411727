/** The state of the DEC VT emulator: the fields of struct vc_data that drivers/char/decvte.c and the
    write loop of drivers/char/vt.c work on, what must hold of them, and the cursor operations. */
module VteState {
  import opened Common
  import Utf8

  const NPAR: nat := 16
  const TAB_COLUMNS: nat := 256      // the columns that vc_tab_stop has bits for
  const RESET_COLUMNS: nat := 160    // those in the five words that vte_ris and vte_tbc write
  const PALETTE_BYTES: nat := 48
  const LAT1_MAP: int := 0
  const GRAF_MAP: int := 1
  const IBMPC_MAP: int := 2
  const USER_MAP: int := 3

  /** Graphic rendition, as set by SGR. */
  datatype Rendition = Rendition(color: int, intensity: int, underline: bool, blink: bool, reverse: bool)

  datatype Colors = Colors(standard: int, underlined: int, half: int)

  /** The console's geometry and what its low-level driver computes: the attribute of a rendition, the
      cell of an attribute and a glyph, the inverse of a cell, the glyph of a code (negative if there
      is none), and the default palette. */
  datatype Driver = Driver(cols: int, rows: int, origin: int, canDoColor: bool, hiFontMask: int,
                           build: (Colors, Rendition) -> int, compose: (int, int) -> int,
                           invert: int -> int, convert: int -> int, palette: seq<int>)

  /** The parser states that some transition enters. */
  datatype Es = Init | Esc | Acs | Scf | Gzd4 | G1d4 | Docs | Csi | Getpars | CsiSpace | CsiExclam | CsiDquote
              | CsiDollar | CsiAnd | CsiStar | CsiPlus | Osc | Palette | Funckey

  /** vc_priv1 to vc_priv4, of which at most one is set. */
  datatype Priv = Public | Less | Equal | Greater | Question

  datatype Parser = Parser(state: Es, npar: int, par: seq<int>, priv: Priv)

  datatype Cursor = Cursor(x: int, y: int, pos: int, needWrap: bool)

  datatype Charsets = Charsets(active: int, g0: int, g1: int, g2: int, g3: int)

  datatype Saved = Saved(x: int, y: int, rend: Rendition, sets: Charsets)

  datatype Modes = Modes(decscnm: bool, decom: bool, decawm: bool, irm: bool, dispCtrl: bool, crlf: bool,
                         c8bit: bool, utf: bool, decscl: int)

  datatype Vc = Vc(cur: Cursor, top: int, bottom: int, rend: Rendition, colors: Colors, attr: int, erase: int,
                   sets: Charsets, gs: int, translate: int, saved: Saved, parser: Parser, modes: Modes,
                   tabs: seq<bool>, palette: seq<int>, decoder: Utf8.State)

  /** The console and its screen buffer. */
  datatype State = State(vc: Vc, cells: seq<int>)

  // ---- what must hold ----

  /** ws_row and ws_col are 16 bits wide. */
  ghost predicate DriverOk(d: Driver) {
    1 <= d.cols < 0x1_0000 && 1 <= d.rows < 0x1_0000 && |d.palette| == PALETTE_BYTES &&
    forall i :: 0 <= i < |d.palette| ==> 0 <= d.palette[i] < 256
  }

  /** One bit for each column, from the start of vc_tab_stop on.  On a console wider than 256 columns
      the bits go on past the array, into whatever follows it. */
  function TabBits(d: Driver): int {
    if d.cols <= TAB_COLUMNS then TAB_COLUMNS else d.cols
  }

  function SizeRow(d: Driver): int {
    2 * d.cols
  }

  /** The address of a cell. */
  function Address(d: Driver, x: int, y: int): int {
    d.origin + y * SizeRow(d) + 2 * x
  }

  /** The cursor is on the screen and vc_pos is its address. */
  ghost predicate CursorOk(d: Driver, cur: Cursor) {
    0 <= cur.x < d.cols && 0 <= cur.y < d.rows && cur.pos == Address(d, cur.x, cur.y)
  }

  ghost predicate MarginsOk(d: Driver, vc: Vc) {
    0 <= vc.top < vc.bottom <= d.rows
  }

  /** In origin mode the cursor stays inside the margins. */
  ghost predicate OriginOk(vc: Vc) {
    vc.modes.decom ==> vc.top <= vc.cur.y < vc.bottom
  }

  ghost predicate ParserOk(p: Parser) {
    0 <= p.npar < NPAR && |p.par| == NPAR &&
    (forall i :: 0 <= i < NPAR ==> 0 <= p.par[i] < 0x1_0000_0000) &&
    (p.state == Palette ==> p.npar < 7 && forall i :: 0 <= i < NPAR ==> p.par[i] < 16)
  }

  predicate SetOk(n: int) {
    LAT1_MAP <= n <= USER_MAP
  }

  predicate SetsOk(g: Charsets) {
    SetOk(g.g0) && SetOk(g.g1) && SetOk(g.g2) && SetOk(g.g3) && 0 <= g.active <= 1
  }

  ghost predicate PaletteOk(p: seq<int>) {
    |p| == PALETTE_BYTES && forall i :: 0 <= i < PALETTE_BYTES ==> 0 <= p[i] < 256
  }

  /** Everything that does not depend on the cursor. */
  ghost predicate RestOk(d: Driver, vc: Vc) {
    DriverOk(d) && MarginsOk(d, vc) && ParserOk(vc.parser) &&
    SetsOk(vc.sets) && SetsOk(vc.saved.sets) && SetOk(vc.gs) && SetOk(vc.translate) &&
    |vc.tabs| == TabBits(d) && PaletteOk(vc.palette) && Utf8.Sound(vc.decoder)
  }

  ghost predicate VcOk(d: Driver, vc: Vc) {
    RestOk(d, vc) && CursorOk(d, vc.cur) && OriginOk(vc)
  }

  ghost predicate Inv(d: Driver, s: State) {
    VcOk(d, s.vc) && |s.cells| == d.rows * d.cols
  }

  // ---- the cursor ----

  /** Conversion of an unsigned sum or difference to int. */
  function ToInt(n: int): (r: int)
    ensures -0x8000_0000 <= r < 0x8000_0000
    ensures -0x8000_0000 <= n < 0x8000_0000 ==> r == n
  {
    (n + 0x8000_0000) % 0x1_0000_0000 - 0x8000_0000
  }

  /** It is the only int that differs from the number by a multiple of 2^32. */
  lemma ToIntWraps(n: int)
    ensures (ToInt(n) - n) % 0x1_0000_0000 == 0
  {
  }

  function MinY(vc: Vc): int {
    if vc.modes.decom then vc.top else 0
  }

  function MaxY(d: Driver, vc: Vc): int {
    if vc.modes.decom then vc.bottom else d.rows
  }

  /** gotoxy: the place asked for, or the nearest one within the margins that apply. */
  function Goto(d: Driver, vc: Vc, x: int, y: int): (r: Vc)
    requires RestOk(d, vc)
    ensures VcOk(d, r) && r == vc.(cur := r.cur) && !r.cur.needWrap
    ensures r.cur.x == Clamp(0, x, d.cols)
    ensures MinY(vc) < MaxY(d, vc) && r.cur.y == Clamp(MinY(vc), y, MaxY(d, vc))
  {
    var x' := Clamp(0, x, d.cols);
    var y' := Clamp(MinY(vc), y, MaxY(d, vc));
    vc.(cur := Cursor(x', y', Address(d, x', y'), false))
  }

  /** gotoxay: row numbers count from the top margin in origin mode. */
  function GotoAbsolute(d: Driver, vc: Vc, x: int, y: int): (r: Vc)
    requires RestOk(d, vc)
    ensures VcOk(d, r) && r == vc.(cur := r.cur)
  {
    hide VcOk, RestOk;
    Goto(d, vc, x, if vc.modes.decom then ToInt(vc.top + y) else y)
  }

  /** CR */
  function CarriageReturn(d: Driver, vc: Vc): (r: Vc)
    requires VcOk(d, vc)
    ensures VcOk(d, r) && r == vc.(cur := r.cur)
    ensures r.cur.x == 0 && r.cur.y == vc.cur.y && !r.cur.needWrap
  {
    hide RestOk;
    RestIgnoresCursor(d, vc, Cursor(0, vc.cur.y, vc.cur.pos - 2 * vc.cur.x, false));
    vc.(cur := Cursor(0, vc.cur.y, vc.cur.pos - 2 * vc.cur.x, false))
  }

  lemma RestIgnoresCursor(d: Driver, vc: Vc, cur: Cursor)
    ensures RestOk(d, vc) ==> RestOk(d, vc.(cur := cur))
  {
  }

  /** BS */
  function Backspace(d: Driver, vc: Vc): (r: Vc)
    requires VcOk(d, vc)
    ensures VcOk(d, r) && r == vc.(cur := r.cur)
    ensures r.cur.x == (if vc.cur.x > 0 then vc.cur.x - 1 else 0) && r.cur.y == vc.cur.y
  {
    hide RestOk;
    RestIgnoresCursor(d, vc, Cursor(vc.cur.x - 1, vc.cur.y, vc.cur.pos - 2, false));
    if vc.cur.x > 0 then vc.(cur := Cursor(vc.cur.x - 1, vc.cur.y, vc.cur.pos - 2, false)) else vc
  }

  /** Moving along the row, as the tabulation functions do; a pending wrap stays pending. */
  function MoveTo(d: Driver, vc: Vc, x: int): (r: Vc)
    requires VcOk(d, vc) && 0 <= x < d.cols
    ensures VcOk(d, r) && r == vc.(cur := r.cur)
    ensures r.cur.x == x && r.cur.y == vc.cur.y && r.cur.needWrap == vc.cur.needWrap
  {
    hide RestOk;
    RestIgnoresCursor(d, vc, vc.cur.(x := x, pos := vc.cur.pos - 2 * vc.cur.x + 2 * x));
    vc.(cur := vc.cur.(x := x, pos := vc.cur.pos - 2 * vc.cur.x + 2 * x))
  }

  // ---- tabulation ----

  /** The next tab stop after column x, or the last column. */
  function NextTab(tabs: seq<bool>, x: int, last: int): (r: int)
    requires 0 <= x <= last < |tabs|
    ensures x <= r <= last && (x < last ==> x < r)
    ensures forall k :: x < k < r ==> !tabs[k]
    ensures r < last ==> tabs[r]
    decreases last - x
  {
    if x == last then x else if tabs[x + 1] then x + 1 else NextTab(tabs, x + 1, last)
  }

  /** The tab stop before column x, or the first column. */
  function PreviousTab(tabs: seq<bool>, x: int): (r: int)
    requires 0 <= x < |tabs|
    ensures 0 <= r <= x && (x > 0 ==> r < x)
    ensures forall k :: r < k < x ==> !tabs[k]
    ensures r > 0 ==> tabs[r]
  {
    if x == 0 then 0 else if tabs[x - 1] then x - 1 else PreviousTab(tabs, x - 1)
  }

  /** n tab stops forward. */
  function TabsForward(tabs: seq<bool>, x: int, last: int, n: nat): (r: int)
    requires 0 <= x <= last < |tabs|
    ensures x <= r <= last
  {
    if n == 0 then x else NextTab(tabs, TabsForward(tabs, x, last, n - 1), last)
  }

  function TabsBack(tabs: seq<bool>, x: int, n: nat): (r: int)
    requires 0 <= x < |tabs|
    ensures 0 <= r <= x
  {
    if n == 0 then x else PreviousTab(tabs, TabsBack(tabs, x, n - 1))
  }

  /** A loop count given as an int parameter. */
  function Times(par: int): (n: nat) {
    if ToInt(par) < 0 then 0 else ToInt(par)
  }
}
