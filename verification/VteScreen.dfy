/** The emulator's functions that change the screen buffer (drivers/char/decvte.c:88-280, 853-899,
    drivers/char/vt.c:330-361, 430-492): line feeds, erasing, inserting and deleting. */
module VteScreen {
  import opened Screen
  import opened VteState

  // ---- cells ----

  /** The index of the cursor's cell in the screen buffer. */
  function Here(d: Driver, cur: Cursor): (i: int) {
    (cur.pos - d.origin) / 2
  }

  function Size(d: Driver): int {
    d.rows * d.cols
  }

  /** The cursor's cell is where its row and column say, within its own row, on the screen. */
  lemma HereIs(d: Driver, cur: Cursor)
    requires DriverOk(d) && CursorOk(d, cur)
    ensures Here(d, cur) == cur.y * d.cols + cur.x
    ensures 0 <= cur.y * d.cols <= Here(d, cur) < cur.y * d.cols + d.cols <= Size(d)
  {
    CellInRange(cur.y, cur.x, d.rows, d.cols);
    assert cur.pos - d.origin == 2 * (cur.y * d.cols + cur.x) by {
      assert cur.y * SizeRow(d) == 2 * (cur.y * d.cols);
    }
    MulLe(cur.y + 1, d.rows, d.cols);
    MulAdd(cur.y, 1, d.cols);
  }

  /** A state with the same console but other cells. */
  lemma OtherCells(d: Driver, s: State, cells: seq<int>)
    ensures Inv(d, s) && |cells| == |s.cells| ==> Inv(d, s.(cells := cells))
    ensures Inv(d, s) ==> |s.cells| == Size(d) && DriverOk(d) && CursorOk(d, s.vc.cur) && MarginsOk(d, s.vc) && VcOk(d, s.vc)
  {
    hide VcOk;
    OkParts(d, s.vc);
  }

  lemma OkParts(d: Driver, vc: Vc)
    ensures VcOk(d, vc) ==> DriverOk(d) && CursorOk(d, vc.cur) && MarginsOk(d, vc)
  {
  }

  /** The handlers leave a pending wrap cleared. */
  function Unwrapped(vc: Vc): (r: Vc)
  {
    vc.(cur := vc.cur.(needWrap := false))
  }

  lemma UnwrappedOk(d: Driver, s: State)
    ensures Inv(d, s) ==> Inv(d, s.(vc := Unwrapped(s.vc)))
  {
    hide RestOk;
    RestIgnoresCursor(d, s.vc, s.vc.cur.(needWrap := false));
  }

  /** New cells and no pending wrap: what every handler below leaves, but for the line feeds. */
  function Redrawn(d: Driver, s: State, cells: seq<int>): (r: State)
    requires Inv(d, s) && |cells| == |s.cells|
    ensures Inv(d, r) && r.cells == cells && r.vc == Unwrapped(s.vc)
  {
    hide Inv, Unwrapped;
    OtherCells(d, s, cells);
    UnwrappedOk(d, s.(cells := cells));
    State(Unwrapped(s.vc), cells)
  }

  // ---- scrolling ----

  /** How many lines a scroll of region t..b by nr moves; one line of the region always remains. */
  function Lines(d: Driver, t: int, b: int, nr: int): (n: int)
    requires 0 <= t && 0 <= nr
    ensures n >= 0 && (n > 0 ==> t + n < b <= d.rows)
  {
    if b > d.rows || t >= b then 0 else if t + nr >= b then b - t - 1 else nr
  }

  lemma LinesFit(d: Driver, t: int, b: int, nr: int)
    requires DriverOk(d) && 0 <= t < b <= d.rows && 0 <= nr
    ensures var n := Lines(d, t, b, nr); 0 <= t * d.cols && 0 <= n * d.cols && t * d.cols + n * d.cols <= b * d.cols <= Size(d)
  {
    var n := Lines(d, t, b, nr);
    RegionFits(d.rows, d.cols, t, b, n);
    MulLe(0, t, d.cols);
    MulLe(0, n, d.cols);
  }

  /** scroll_region_up */
  function ScrolledUp(d: Driver, cells: seq<int>, t: int, b: int, nr: int, erase: int): (r: seq<int>)
    requires DriverOk(d) && |cells| == Size(d) && 0 <= t && 0 <= nr
    ensures |r| == |cells|
  {
    hide Size;
    if b > d.rows || t >= b then cells
    else
      LinesFit(d, t, b, nr);
      ShiftUp(cells, t * d.cols, b * d.cols, Lines(d, t, b, nr) * d.cols, erase)
  }

  /** scroll_region_down */
  function ScrolledDown(d: Driver, cells: seq<int>, t: int, b: int, nr: int, erase: int): (r: seq<int>)
    requires DriverOk(d) && |cells| == Size(d) && 0 <= t && 0 <= nr
    ensures |r| == |cells|
  {
    hide Size;
    if b > d.rows || t >= b then cells
    else
      LinesFit(d, t, b, nr);
      ShiftDown(cells, t * d.cols, b * d.cols, Lines(d, t, b, nr) * d.cols, erase)
  }

  /** The cursor one row down or up. */
  function RowMoved(d: Driver, cur: Cursor, n: int): Cursor {
    cur.(y := cur.y + n, pos := cur.pos + n * SizeRow(d))
  }

  lemma RowMovedOk(d: Driver, s: State, n: int)
    requires Inv(d, s) && 0 <= s.vc.cur.y + n < d.rows
    requires s.vc.modes.decom ==> s.vc.top <= s.vc.cur.y + n < s.vc.bottom
    ensures Inv(d, s.(vc := s.vc.(cur := RowMoved(d, s.vc.cur, n))))
  {
    hide RestOk;
    RestIgnoresCursor(d, s.vc, RowMoved(d, s.vc.cur, n));
    assert (s.vc.cur.y + n) * SizeRow(d) == s.vc.cur.y * SizeRow(d) + n * SizeRow(d) by {
      MulAdd(s.vc.cur.y, n, SizeRow(d));
    }
  }

  lemma InvParts(d: Driver, s: State)
    ensures Inv(d, s) ==> DriverOk(d) && CursorOk(d, s.vc.cur) && MarginsOk(d, s.vc) && OriginOk(s.vc) && |s.cells| == Size(d)
    ensures Inv(d, s) ==> VcOk(d, s.vc)
  {
    hide RestOk;
    OkParts(d, s.vc);
  }

  /** vte_lf: at the bottom margin the region scrolls; elsewhere the cursor moves down, if there is a
      row below. */
  function LineFeed(d: Driver, s: State): (r: State)
    requires Inv(d, s)
    ensures Inv(d, r) && r.vc == s.vc.(cur := r.vc.cur) && r.vc.cur.x == s.vc.cur.x && !r.vc.cur.needWrap
  {
    hide Inv, VcOk, DriverOk, ScrolledUp, Size, Redrawn;
    InvParts(d, s);
    var vc := s.vc;
    if vc.cur.y + 1 == vc.bottom then Redrawn(d, s, ScrolledUp(d, s.cells, vc.top, vc.bottom, 1, vc.erase))
    else if vc.cur.y < d.rows - 1 then
      RowMovedOk(d, s, 1);
      Redrawn(d, s.(vc := vc.(cur := RowMoved(d, vc.cur, 1))), s.cells)
    else Redrawn(d, s, s.cells)
  }

  /** vte_ri */
  function ReverseLineFeed(d: Driver, s: State): (r: State)
    requires Inv(d, s)
    ensures Inv(d, r) && r.vc == s.vc.(cur := r.vc.cur) && r.vc.cur.x == s.vc.cur.x && !r.vc.cur.needWrap
  {
    hide Inv, VcOk, DriverOk, ScrolledDown, Size, Redrawn;
    InvParts(d, s);
    var vc := s.vc;
    if vc.cur.y == vc.top then Redrawn(d, s, ScrolledDown(d, s.cells, vc.top, vc.bottom, 1, vc.erase))
    else if vc.cur.y > 0 then
      RowMovedOk(d, s, -1);
      Redrawn(d, s.(vc := vc.(cur := RowMoved(d, vc.cur, -1))), s.cells)
    else Redrawn(d, s, s.cells)
  }

  /** vte_cvt: n line feeds. */
  function LineFeeds(d: Driver, s: State, n: nat): (r: State)
    requires Inv(d, s)
    ensures Inv(d, r) && r.vc == s.vc.(cur := r.vc.cur)
  {
    hide Inv, LineFeed;
    if n == 0 then s else LineFeed(d, LineFeeds(d, s, n - 1))
  }

  /** CR followed by LF, as at the end of a full line. */
  function NewLine(d: Driver, s: State): (r: State)
    requires Inv(d, s)
    ensures Inv(d, r) && r.vc == s.vc.(cur := r.vc.cur) && r.vc.cur.x == 0 && !r.vc.cur.needWrap
  {
    hide Inv, VcOk, LineFeed, CarriageReturn;
    LineFeed(d, WithVc(d, s, CarriageReturnAt(d, s)))
  }

  function CarriageReturnAt(d: Driver, s: State): (r: Vc)
    requires Inv(d, s)
    ensures VcOk(d, r) && r == s.vc.(cur := r.cur) && r.cur.x == 0 && r.cur.y == s.vc.cur.y && !r.cur.needWrap
  {
    hide VcOk, CarriageReturn;
    CarriageReturn(d, s.vc)
  }

  function WithVc(d: Driver, s: State, vc: Vc): (r: State)
    requires Inv(d, s) && VcOk(d, vc)
    ensures Inv(d, r) && r == s.(vc := vc)
  {
    hide VcOk;
    s.(vc := vc)
  }

  // ---- erasing ----

  function Erased(d: Driver, s: State, at: int, count: int): (r: State)
    requires Inv(d, s) && 0 <= at && 0 <= count && at + count <= Size(d)
    ensures Inv(d, r) && r.cells == Filled(s.cells, at, count, s.vc.erase) && r.vc == Unwrapped(s.vc)
  {
    hide Inv, Filled, Redrawn, Unwrapped, Size;
    InvParts(d, s);
    Redrawn(d, s, Filled(s.cells, at, count, s.vc.erase))
  }

  /** vte_ed */
  function EraseInPage(d: Driver, s: State, par: int): (r: State)
    requires Inv(d, s)
    ensures Inv(d, r) && r.vc == s.vc.(cur := r.vc.cur)
  {
    hide Inv, Erased, VcOk, DriverOk, CursorOk, Here, Size;
    InvParts(d, s);
    HereIs(d, s.vc.cur);
    var at := Here(d, s.vc.cur);
    if par == 0 then Erased(d, s, at, Size(d) - at)
    else if par == 1 then Erased(d, s, 0, at + 1)
    else if par == 2 then Erased(d, s, 0, Size(d))
    else s
  }

  /** vte_el */
  function EraseInLine(d: Driver, s: State, par: int): (r: State)
    requires Inv(d, s)
    ensures Inv(d, r) && r.vc == s.vc.(cur := r.vc.cur)
  {
    hide Inv, Erased, VcOk, DriverOk, Here, Size;
    InvParts(d, s);
    HereIs(d, s.vc.cur);
    var at := Here(d, s.vc.cur);
    if par == 0 then Erased(d, s, at, d.cols - s.vc.cur.x)
    else if par == 1 then Erased(d, s, at - s.vc.cur.x, s.vc.cur.x + 1)
    else if par == 2 then Erased(d, s, at - s.vc.cur.x, d.cols)
    else s
  }

  /** A count parameter: 0 means 1, and there is no more to change than room. */
  function Count(par: int, room: int): (n: int)
    requires 0 <= par && 1 <= room
    ensures 1 <= n <= room && (1 <= par <= room ==> n == par)
  {
    if par > room then room else if par == 0 then 1 else par
  }

  /** vte_ech */
  function EraseCharacters(d: Driver, s: State, par: int): (r: State)
    requires Inv(d, s) && 0 <= par
    ensures Inv(d, r) && r.vc == s.vc.(cur := r.vc.cur)
  {
    hide Inv, Erased, VcOk, DriverOk, Here, Size;
    InvParts(d, s);
    HereIs(d, s.vc.cur);
    Erased(d, s, Here(d, s.vc.cur), Count(par, d.cols - s.vc.cur.x))
  }

  // ---- inserting and deleting ----

  /** insert_char: the rest of the row moves right by n. */
  function InsertCharacters(d: Driver, s: State, n: int): (r: State)
    requires Inv(d, s) && 0 <= n <= d.cols - s.vc.cur.x
    ensures Inv(d, r) && r.vc == Unwrapped(s.vc)
  {
    hide Inv, ShiftDown, Redrawn, Unwrapped, VcOk, DriverOk, Here, Size;
    InvParts(d, s);
    HereIs(d, s.vc.cur);
    var at := Here(d, s.vc.cur);
    Redrawn(d, s, ShiftDown(s.cells, at, at + d.cols - s.vc.cur.x, n, s.vc.erase))
  }

  /** delete_char: the rest of the row moves left by n. */
  function DeleteCharacters(d: Driver, s: State, n: int): (r: State)
    requires Inv(d, s) && 0 <= n <= d.cols - s.vc.cur.x
    ensures Inv(d, r) && r.vc == Unwrapped(s.vc)
  {
    hide Inv, ShiftUp, Redrawn, Unwrapped, VcOk, DriverOk, Here, Size;
    InvParts(d, s);
    HereIs(d, s.vc.cur);
    var at := Here(d, s.vc.cur);
    Redrawn(d, s, ShiftUp(s.cells, at, at + d.cols - s.vc.cur.x, n, s.vc.erase))
  }

  /** vte_ich, vte_dch, vte_il and vte_dl */
  function Ich(d: Driver, s: State, par: int): (r: State)
    requires Inv(d, s) && 0 <= par
    ensures Inv(d, r) && r.vc == s.vc.(cur := r.vc.cur)
  {
    hide Inv, InsertCharacters, VcOk, DriverOk, Size;
    InvParts(d, s);
    InsertCharacters(d, s, Count(par, d.cols - s.vc.cur.x))
  }

  function Dch(d: Driver, s: State, par: int): (r: State)
    requires Inv(d, s) && 0 <= par
    ensures Inv(d, r) && r.vc == s.vc.(cur := r.vc.cur)
  {
    hide Inv, DeleteCharacters, VcOk, DriverOk, Size;
    InvParts(d, s);
    DeleteCharacters(d, s, Count(par, d.cols - s.vc.cur.x))
  }

  function InsertLines(d: Driver, s: State, par: int): (r: State)
    requires Inv(d, s) && 0 <= par
    ensures Inv(d, r) && r.vc == s.vc.(cur := r.vc.cur)
  {
    hide Inv, ScrolledDown, VcOk, DriverOk, Size;
    InvParts(d, s);
    Redrawn(d, s, ScrolledDown(d, s.cells, s.vc.cur.y, s.vc.bottom, Count(par, d.rows - s.vc.cur.y), s.vc.erase))
  }

  function DeleteLines(d: Driver, s: State, par: int): (r: State)
    requires Inv(d, s) && 0 <= par
    ensures Inv(d, r) && r.vc == s.vc.(cur := r.vc.cur)
  {
    hide Inv, ScrolledUp, VcOk, DriverOk, Size;
    InvParts(d, s);
    Redrawn(d, s, ScrolledUp(d, s.cells, s.vc.cur.y, s.vc.bottom, Count(par, d.rows - s.vc.cur.y), s.vc.erase))
  }
}
