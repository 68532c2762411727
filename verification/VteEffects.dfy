/** What the editing, motion, margin and tabulation commands do to a screen and its cursor
    (drivers/char/decvte.c:199-279, 853-899, 1044-1069, 1620-1763). */
module VteEffects {
  import opened Common
  import opened Screen
  import opened VteState
  import opened VteScreen
  import opened VteCommands
  import opened VteParser
  import opened VteMeaning
  import opened VteText
  import Utf8

  // ---- erasing ----

  /** Reading order on the screen. */
  lemma CellOrder(y: nat, x: nat, y': nat, x': nat, cols: nat)
    requires x < cols && x' < cols
    ensures y * cols + x < y' * cols + x' <==> y < y' || (y == y' && x < x')
  {
    if y < y' {
      MulLe(y + 1, y', cols);
      MulAdd(y, 1, cols);
    } else if y' < y {
      MulLe(y' + 1, y, cols);
      MulAdd(y', 1, cols);
    }
  }

  /** Which cells ED erases: from the cursor on, up to and including it, or all. */
  predicate InPage(cur: Cursor, par: int, y: int, x: int) {
    match par
    case 0 => y > cur.y || (y == cur.y && x >= cur.x)
    case 1 => y < cur.y || (y == cur.y && x <= cur.x)
    case 2 => true
    case _ => false
  }

  /** Which cells EL erases. */
  predicate InLine(cur: Cursor, par: int, y: int, x: int) {
    y == cur.y && match par { case 0 => x >= cur.x case 1 => x <= cur.x case 2 => true case _ => false }
  }

  /** Which cells ECH erases. */
  predicate Ahead(cur: Cursor, n: int, y: int, x: int) {
    y == cur.y && cur.x <= x < cur.x + n
  }

  /** A count of characters: 0 stands for 1, and there are none beyond the end of the row. */
  function Room(d: Driver, cur: Cursor, p: int): int {
    var n := if p == 0 then 1 else p;
    if n < d.cols - cur.x then n else d.cols - cur.x
  }

  lemma RoomIs(d: Driver, s: State, p: int)
    requires Inv(d, s) && 0 <= p
    ensures 1 <= d.cols - s.vc.cur.x && Room(d, s.vc.cur, p) == Count(p, d.cols - s.vc.cur.x)
  {
    hide Inv, VcOk, DriverOk;
    InvParts(d, s);
  }

  /** The cell is blank if it is to be erased and else as it was. */
  ghost predicate ErasedCell(d: Driver, s: State, r: State, gone: bool, y: int, x: int) {
    0 <= y && 0 <= x && 0 <= d.cols && 0 <= y * d.cols + x < |s.cells| == |r.cells| &&
    Cell(r.cells, d.cols, y, x) == if gone then s.vc.erase else Cell(s.cells, d.cols, y, x)
  }

  ghost predicate PageErased(d: Driver, s: State, par: int, r: State) {
    forall y, x :: 0 <= y < d.rows && 0 <= x < d.cols ==> ErasedCell(d, s, r, InPage(s.vc.cur, par, y, x), y, x)
  }

  ghost predicate LineErased(d: Driver, s: State, par: int, r: State) {
    forall y, x :: 0 <= y < d.rows && 0 <= x < d.cols ==> ErasedCell(d, s, r, InLine(s.vc.cur, par, y, x), y, x)
  }

  ghost predicate CharactersErased(d: Driver, s: State, n: int, r: State) {
    forall y, x :: 0 <= y < d.rows && 0 <= x < d.cols ==> ErasedCell(d, s, r, Ahead(s.vc.cur, n, y, x), y, x)
  }

  /** A fill, cell by cell. */
  lemma FilledCell(d: Driver, s: State, at: nat, n: nat, y: nat, x: nat)
    requires Inv(d, s) && y < d.rows && x < d.cols && at + n <= Size(d)
    ensures 0 <= y * d.cols + x < |s.cells|
    ensures ErasedCell(d, s, Erased(d, s, at, n), at <= y * d.cols + x < at + n, y, x)
  {
    hide Inv, VcOk, DriverOk, Filled;
    InvParts(d, s);
    CellInRange(y, x, d.rows, d.cols);
    FilledAt(s.cells, at, n, s.vc.erase, y * d.cols + x);
  }

  /** ED, for any parameter. */
  lemma EraseInPageMeans(d: Driver, s: State, par: int)
    requires Inv(d, s)
    ensures PageErased(d, s, par, EraseInPage(d, s, par))
    ensures EraseInPage(d, s, par).vc == if 0 <= par <= 2 then Unwrapped(s.vc) else s.vc
  {
    hide Inv, VcOk, DriverOk, Here, Size, ErasedCell, Erased;
    InvParts(d, s);
    HereIs(d, s.vc.cur);
    var (cur, at, r) := (s.vc.cur, Here(d, s.vc.cur), EraseInPage(d, s, par));
    forall y, x | 0 <= y < d.rows && 0 <= x < d.cols
      ensures ErasedCell(d, s, r, InPage(cur, par, y, x), y, x)
    {
      CellOrder(y, x, cur.y, cur.x, d.cols);
      CellOrder(cur.y, cur.x, y, x, d.cols);
      CellInSize(d, s, y, x);
      match par {
        case 0 => FilledCell(d, s, at, Size(d) - at, y, x);
        case 1 => FilledCell(d, s, 0, at + 1, y, x);
        case 2 => FilledCell(d, s, 0, Size(d), y, x);
        case _ => CellKept(d, s, y, x);
      }
    }
  }

  lemma CellInSize(d: Driver, s: State, y: nat, x: nat)
    requires Inv(d, s) && y < d.rows && x < d.cols
    ensures 0 <= y * d.cols + x < Size(d)
  {
    hide Inv;
    CellInRange(y, x, d.rows, d.cols);
  }

  lemma CellKept(d: Driver, s: State, y: nat, x: nat)
    requires Inv(d, s) && y < d.rows && x < d.cols
    ensures ErasedCell(d, s, s, false, y, x)
  {
    hide VcOk;
    CellInRange(y, x, d.rows, d.cols);
  }

  /** EL, for any parameter. */
  lemma EraseInLineMeans(d: Driver, s: State, par: int)
    requires Inv(d, s)
    ensures LineErased(d, s, par, EraseInLine(d, s, par))
    ensures EraseInLine(d, s, par).vc == if 0 <= par <= 2 then Unwrapped(s.vc) else s.vc
  {
    hide Inv, VcOk, DriverOk, Here, Size, ErasedCell, Erased;
    InvParts(d, s);
    HereIs(d, s.vc.cur);
    var (cur, at, r) := (s.vc.cur, Here(d, s.vc.cur), EraseInLine(d, s, par));
    forall y, x | 0 <= y < d.rows && 0 <= x < d.cols
      ensures ErasedCell(d, s, r, InLine(cur, par, y, x), y, x)
    {
      RowOrder(y, x, cur.y, d.cols);
      match par {
        case 0 => FilledCell(d, s, at, d.cols - cur.x, y, x);
        case 1 => FilledCell(d, s, at - cur.x, cur.x + 1, y, x);
        case 2 => FilledCell(d, s, at - cur.x, d.cols, y, x);
        case _ => CellKept(d, s, y, x);
      }
    }
  }

  /** Where a cell lies in relation to row y'. */
  lemma RowOrder(y: nat, x: nat, y': nat, cols: nat)
    requires x < cols
    ensures y' * cols <= y * cols + x <==> y' <= y
    ensures y * cols + x < y' * cols + cols <==> y <= y'
  {
    CellOrder(y, x, y', 0, cols);
    CellOrder(y, x, y' + 1, 0, cols);
    MulAdd(y', 1, cols);
  }

  /** ECH, for any count. */
  lemma EraseCharactersMeans(d: Driver, s: State, par: int)
    requires Inv(d, s) && 0 <= par
    ensures CharactersErased(d, s, Room(d, s.vc.cur, par), EraseCharacters(d, s, par))
    ensures EraseCharacters(d, s, par).vc == Unwrapped(s.vc)
  {
    hide Inv, VcOk, DriverOk, Here, Size, ErasedCell, Erased, Count, Room;
    InvParts(d, s);
    HereIs(d, s.vc.cur);
    var (cur, at, r) := (s.vc.cur, Here(d, s.vc.cur), EraseCharacters(d, s, par));
    var n := Count(par, d.cols - cur.x);
    RoomIs(d, s, par);
    forall y, x | 0 <= y < d.rows && 0 <= x < d.cols
      ensures ErasedCell(d, s, r, Ahead(cur, n, y, x), y, x)
    {
      RowOrder(y, x, cur.y, d.cols);
      FilledCell(d, s, at, n, y, x);
    }
  }

  // ---- inserting and deleting ----

  /** Cell i after n blanks are inserted at cell `at` of a row that ends at `end`. */
  ghost predicate InsertedAt(s: State, r: State, at: int, end: int, n: int, i: int) {
    0 <= i < |s.cells| == |r.cells| && 0 <= n && (at + n <= i < end ==> 0 <= i - n) &&
    r.cells[i] == if at + n <= i < end then s.cells[i - n] else if at <= i < at + n then s.vc.erase else s.cells[i]
  }

  /** Cell i after n cells are deleted from cell `at` of a row that ends at `end`. */
  ghost predicate DeletedAt(s: State, r: State, at: int, end: int, n: int, i: int) {
    0 <= i < |s.cells| == |r.cells| && 0 <= n && (at <= i < end - n ==> i + n < |s.cells|) &&
    r.cells[i] == if at <= i < end - n then s.cells[i + n] else if end - n <= i < end then s.vc.erase else s.cells[i]
  }

  /** The row from the cursor on has moved right by n. */
  ghost predicate RowInserted(d: Driver, s: State, n: int, r: State) {
    forall i :: 0 <= i < Size(d) ==> InsertedAt(s, r, Here(d, s.vc.cur), RowEnd(d, s.vc.cur), n, i)
  }

  /** The row from the cursor on has moved left by n. */
  ghost predicate RowDeleted(d: Driver, s: State, n: int, r: State) {
    forall i :: 0 <= i < Size(d) ==> DeletedAt(s, r, Here(d, s.vc.cur), RowEnd(d, s.vc.cur), n, i)
  }

  function RowEnd(d: Driver, cur: Cursor): int {
    Here(d, cur) + d.cols - cur.x
  }

  lemma InsertMeans(d: Driver, s: State, n: nat)
    requires Inv(d, s) && n <= d.cols - s.vc.cur.x
    ensures RowInserted(d, s, n, InsertCharacters(d, s, n))
  {
    hide Inv, VcOk, DriverOk, Here, InsertCharacters;
    InvParts(d, s);
    HereIs(d, s.vc.cur);
    var r := InsertCharacters(d, s, n);
    forall i | 0 <= i < Size(d)
      ensures InsertedAt(s, r, Here(d, s.vc.cur), RowEnd(d, s.vc.cur), n, i)
    {
      InsertCell(d, s, n, i);
    }
  }

  lemma DeleteMeans(d: Driver, s: State, n: nat)
    requires Inv(d, s) && n <= d.cols - s.vc.cur.x
    ensures RowDeleted(d, s, n, DeleteCharacters(d, s, n))
  {
    hide Inv, VcOk, DriverOk, Here, DeleteCharacters;
    InvParts(d, s);
    HereIs(d, s.vc.cur);
    var r := DeleteCharacters(d, s, n);
    forall i | 0 <= i < Size(d)
      ensures DeletedAt(s, r, Here(d, s.vc.cur), RowEnd(d, s.vc.cur), n, i)
    {
      DeleteCell(d, s, n, i);
    }
  }

  /** Cell (y, x) after n blank rows are inserted at the cursor's row, down to the bottom margin. */
  ghost predicate LineInsertedAt(d: Driver, s: State, r: State, n: int, y: int, x: int) {
    var moved := s.vc.cur.y + n <= y < s.vc.bottom;
    0 <= d.cols && 0 <= y && 0 <= x && 0 <= y * d.cols + x < |s.cells| == |r.cells| &&
    (moved ==> n <= y && 0 <= (y - n) * d.cols + x < |s.cells|) &&
    Cell(r.cells, d.cols, y, x)
    == if moved then Cell(s.cells, d.cols, y - n, x)
       else if s.vc.cur.y <= y < s.vc.cur.y + n then s.vc.erase
       else Cell(s.cells, d.cols, y, x)
  }

  /** Cell (y, x) after n rows are deleted at the cursor's row, blank ones coming in at the bottom margin. */
  ghost predicate LineDeletedAt(d: Driver, s: State, r: State, n: int, y: int, x: int) {
    var moved := s.vc.cur.y <= y < s.vc.bottom - n;
    0 <= d.cols && 0 <= y && 0 <= x && 0 <= y * d.cols + x < |s.cells| == |r.cells| &&
    (moved ==> 0 <= y + n && 0 <= (y + n) * d.cols + x < |s.cells|) &&
    Cell(r.cells, d.cols, y, x)
    == if moved then Cell(s.cells, d.cols, y + n, x)
       else if s.vc.bottom - n <= y < s.vc.bottom then s.vc.erase
       else Cell(s.cells, d.cols, y, x)
  }

  /** How many rows IL and DL move: none below the margin, and never the last one left. */
  function RowsMoved(d: Driver, vc: Vc, par: int): int {
    var n := if par == 0 then 1 else par;
    if vc.bottom <= vc.cur.y then 0 else if n < vc.bottom - vc.cur.y then n else vc.bottom - vc.cur.y - 1
  }

  ghost predicate LinesInserted(d: Driver, s: State, par: int, r: State) {
    forall y, x :: 0 <= y < d.rows && 0 <= x < d.cols ==> LineInsertedAt(d, s, r, RowsMoved(d, s.vc, par), y, x)
  }

  ghost predicate LinesDeleted(d: Driver, s: State, par: int, r: State) {
    forall y, x :: 0 <= y < d.rows && 0 <= x < d.cols ==> LineDeletedAt(d, s, r, RowsMoved(d, s.vc, par), y, x)
  }

  lemma RowsMovedIs(d: Driver, vc: Vc, par: int)
    requires VcOk(d, vc) && 0 <= par
    ensures 1 <= d.rows - vc.cur.y && 0 <= vc.cur.y
    ensures RowsMoved(d, vc, par) == Lines(d, vc.cur.y, vc.bottom, Count(par, d.rows - vc.cur.y))
  {
    hide ParserOk, PaletteOk, SetsOk, SetOk, Utf8.Sound;
  }

  lemma InsertLinesMeans(d: Driver, s: State, par: nat)
    requires Inv(d, s)
    ensures LinesInserted(d, s, par, InsertLines(d, s, par))
  {
    hide Inv, VcOk, DriverOk, InsertLines, RowsMoved, Lines, Count, Cell;
    InvRest(d, s);
    InvParts(d, s);
    RowsMovedIs(d, s.vc, par);
    var r := InsertLines(d, s, par);
    forall y, x | 0 <= y < d.rows && 0 <= x < d.cols
      ensures LineInsertedAt(d, s, r, RowsMoved(d, s.vc, par), y, x)
    {
      if s.vc.cur.y < s.vc.bottom {
        InsertLinesCell(d, s, par, y, x);
      } else {
        BelowMargin(d, s, par);
        CellInSize(d, s, y, x);
      }
    }
  }

  lemma DeleteLinesMeans(d: Driver, s: State, par: nat)
    requires Inv(d, s)
    ensures LinesDeleted(d, s, par, DeleteLines(d, s, par))
  {
    hide Inv, VcOk, DriverOk, DeleteLines, RowsMoved, Lines, Count, Cell;
    InvRest(d, s);
    InvParts(d, s);
    RowsMovedIs(d, s.vc, par);
    var r := DeleteLines(d, s, par);
    forall y, x | 0 <= y < d.rows && 0 <= x < d.cols
      ensures LineDeletedAt(d, s, r, RowsMoved(d, s.vc, par), y, x)
    {
      if s.vc.cur.y < s.vc.bottom {
        DeleteLinesCell(d, s, par, y, x);
      } else {
        BelowMargin(d, s, par);
        CellInSize(d, s, y, x);
      }
    }
  }

  /** Below the bottom margin IL and DL move nothing. */
  lemma BelowMargin(d: Driver, s: State, par: nat)
    requires Inv(d, s) && s.vc.bottom <= s.vc.cur.y
    ensures InsertLines(d, s, par).cells == s.cells == DeleteLines(d, s, par).cells
    ensures RowsMoved(d, s.vc, par) == 0
  {
    hide Inv, VcOk, DriverOk;
    InvParts(d, s);
  }

  // ---- all the editing commands ----

  /** What each editing command leaves, p being its first parameter. */
  ghost predicate Edits(d: Driver, s: State, c: char, p: int, r: State) {
    (c == '@' ==> RowInserted(d, s, Room(d, s.vc.cur, p), r)) &&
    (c == 'P' ==> RowDeleted(d, s, Room(d, s.vc.cur, p), r)) &&
    (c == 'X' ==> CharactersErased(d, s, Room(d, s.vc.cur, p), r)) &&
    (c == 'J' ==> PageErased(d, s, p, r)) && (c == 'K' ==> LineErased(d, s, p, r)) &&
    (c == 'L' ==> LinesInserted(d, s, p, r)) && (c == 'M' ==> LinesDeleted(d, s, p, r)) &&
    (c in "@PXLM" || (c in "JK" && 0 <= p <= 2) ==> r.vc == s.vc.(cur := s.vc.cur.(needWrap := false)))
  }

  /** None of them moves the cursor, and a pending wrap is forgotten. */
  lemma EditsUnwrap(d: Driver, s: State, n: nat, par: nat)
    requires Inv(d, s) && n <= d.cols - s.vc.cur.x
    ensures InsertCharacters(d, s, n).vc == Unwrapped(s.vc) == DeleteCharacters(d, s, n).vc
    ensures InsertLines(d, s, par).vc == Unwrapped(s.vc) == DeleteLines(d, s, par).vc
  {
    hide Inv, VcOk, DriverOk, ScrolledUp, ScrolledDown;
    InvParts(d, s);
  }

  lemma EditingMeans(d: Driver, s: State, c: char)
    requires Inv(d, s)
    ensures ParserOk(s.vc.parser) && Edits(d, s, c, Pars(s.vc.parser).0, Editing(d, s, c))
  {
    hide Inv, VcOk, ParserOk, DriverOk, InsertCharacters, DeleteCharacters, EraseInPage, EraseInLine, EraseCharacters,
         LineFeeds, InsertLines, DeleteLines, RowInserted, RowDeleted, CharactersErased, PageErased, LineErased,
         LinesInserted, LinesDeleted, Room, Count;
    InvRest(d, s);
    ParserPart(d, s.vc);
    var p := Pars(s.vc.parser).0;
    RoomIs(d, s, p);
    EditsUnwrap(d, s, Count(p, d.cols - s.vc.cur.x), p);
    match c {
      case '@' => InsertMeans(d, s, Count(p, d.cols - s.vc.cur.x));
      case 'J' => EraseInPageMeans(d, s, p);
      case 'K' => EraseInLineMeans(d, s, p);
      case 'L' => InsertLinesMeans(d, s, p);
      case 'M' => DeleteLinesMeans(d, s, p);
      case 'P' => DeleteMeans(d, s, Count(p, d.cols - s.vc.cur.x));
      case 'X' => EraseCharactersMeans(d, s, p);
      case _ =>
    }
  }

  // ---- margins ----

  /** DECSTBM: accepted exactly if the first row is above the last and that is on the screen; then the
      margins are those and the cursor is home, else nothing changes. */
  ghost predicate MarginsSet(d: Driver, vc: Vc, p0: int, p1: int, r: Vc) {
    var (t, b) := (if p0 == 0 then 1 else p0, if p1 == 0 then d.rows else p1);
    if t < b <= d.rows then
      r == vc.(top := t - 1, bottom := b, cur := Home(d, vc.(top := t - 1), vc.modes.decom))
    else r == vc
  }

  lemma MarginsMean(d: Driver, vc: Vc)
    requires VcOk(d, vc)
    ensures ParserOk(vc.parser) && MarginsSet(d, vc, Pars(vc.parser).0, Pars(vc.parser).1, SetMargins(d, vc))
  {
    hide PaletteOk, SetsOk, SetOk, Utf8.Sound, ParserOk, Pars;
    ParserPart(d, vc);
  }

  // ---- motion ----

  /** The cursor is at the place asked for, or the nearest within the margins that apply; nothing is
      pending and nothing else has changed. */
  ghost predicate Goes(d: Driver, vc: Vc, x: int, y: int, r: Vc) {
    var (first, end) := if vc.modes.decom then (vc.top, vc.bottom) else (0, d.rows);
    1 <= d.cols && first < end &&
    var (x', y') := (Clamp(0, x, d.cols), Clamp(first, y, end));
    r == vc.(cur := Cursor(x', y', d.origin + y' * (2 * d.cols) + 2 * x', false))
  }

  /** A row number, counted from the top margin in origin mode. */
  function Line(vc: Vc, row: int): int {
    if vc.modes.decom then ToInt(vc.top + ToInt(row)) else ToInt(row)
  }

  /** Where each motion goes, n being the first parameter or 1: sums and differences in 32 bits. */
  ghost predicate Moves(d: Driver, vc: Vc, c: char, p0: int, p1: int, r: Vc) {
    var n := if p0 == 0 then 1 else p0;
    MovesAlong(d, vc, c, n, r) && MovesRows(d, vc, c, n, r) && MovesTo(d, vc, c, n - 1, if p1 == 0 then 0 else p1 - 1, r)
  }

  /** By n rows, in the same column. */
  ghost predicate MovesRows(d: Driver, vc: Vc, c: char, n: int, r: Vc) {
    var (x, y) := (vc.cur.x, vc.cur.y);
    (c in "Ak" ==> Goes(d, vc, x, ToInt(y - n), r)) && (c in "Be" ==> Goes(d, vc, x, ToInt(y + n), r))
  }

  /** By n columns, or to the first column n rows away. */
  ghost predicate MovesAlong(d: Driver, vc: Vc, c: char, n: int, r: Vc) {
    var (x, y) := (vc.cur.x, vc.cur.y);
    (c in "Ca" ==> Goes(d, vc, ToInt(x + n), y, r)) && (c in "Dj" ==> Goes(d, vc, ToInt(x - n), y, r)) &&
    (c == 'E' ==> Goes(d, vc, 0, ToInt(y + n), r)) && (c == 'F' ==> Goes(d, vc, 0, ToInt(y - n), r))
  }

  /** To the places the parameters name, a and b counted from zero. */
  ghost predicate MovesTo(d: Driver, vc: Vc, c: char, a: int, b: int, r: Vc) {
    var (x, y) := (vc.cur.x, vc.cur.y);
    (c in "G`" ==> Goes(d, vc, ToInt(a), y, r)) && (c == 'd' ==> Goes(d, vc, x, Line(vc, a), r)) &&
    (c in "Hf" ==> Goes(d, vc, ToInt(b), Line(vc, a), r))
  }

  lemma MovedGoes(d: Driver, vc: Vc, x: int, y: int)
    requires VcOk(d, vc)
    ensures Goes(d, vc, ToInt(x), ToInt(y), Moved(d, vc, x, y))
    ensures Goes(d, vc, ToInt(x), Line(vc, y), MovedAbsolute(d, vc, x, y))
  {
    hide VcOk, RestOk, ToInt;
    VcRest(d, vc);
    ColsPositive(d, vc);
  }

  lemma ColsPositive(d: Driver, vc: Vc)
    ensures VcOk(d, vc) ==> 1 <= d.cols < 0x1_0000 && 1 <= d.rows < 0x1_0000 && 0 <= vc.cur.x < d.cols && 0 <= vc.cur.y < d.rows
  {
  }

  lemma MotionRows(d: Driver, vc: Vc, c: char)
    requires VcOk(d, vc)
    ensures ParserOk(vc.parser) && MovesRows(d, vc, c, At(Pars(vc.parser).0), Motion(d, vc, c))
  {
    hide VcOk, ParserOk, Goes, Moved, MovedAbsolute, Line, ToInt, Pars;
    ParserPart(d, vc);
    ColsPositive(d, vc);
    var (x, y, n) := (vc.cur.x, vc.cur.y, At(Pars(vc.parser).0));
    if c in "Ak" {
      MovedGoes(d, vc, x, y - n);
    } else if c in "Be" {
      MovedGoes(d, vc, x, y + n);
    }
  }

  lemma MotionAlong(d: Driver, vc: Vc, c: char)
    requires VcOk(d, vc)
    ensures ParserOk(vc.parser) && MovesAlong(d, vc, c, At(Pars(vc.parser).0), Motion(d, vc, c))
  {
    hide VcOk, ParserOk, Goes, Moved, MovedAbsolute, Line, ToInt, Pars;
    ParserPart(d, vc);
    ColsPositive(d, vc);
    var (x, y, n) := (vc.cur.x, vc.cur.y, At(Pars(vc.parser).0));
    match c {
      case 'C' => MovedGoes(d, vc, x + n, y);
      case 'a' => MovedGoes(d, vc, x + n, y);
      case 'D' => MovedGoes(d, vc, x - n, y);
      case 'j' => MovedGoes(d, vc, x - n, y);
      case 'E' => MovedGoes(d, vc, 0, y + n);
      case 'F' => MovedGoes(d, vc, 0, y - n);
      case _ =>
    }
  }

  lemma MotionTo(d: Driver, vc: Vc, c: char)
    requires VcOk(d, vc)
    ensures ParserOk(vc.parser)
    ensures MovesTo(d, vc, c, From1(Pars(vc.parser).0), From1(Pars(vc.parser).1), Motion(d, vc, c))
  {
    hide VcOk, ParserOk, Goes, Moved, MovedAbsolute, Line, ToInt, Pars;
    ParserPart(d, vc);
    ColsPositive(d, vc);
    var (p0, p1) := Pars(vc.parser);
    match c {
      case 'G' => MovedGoes(d, vc, From1(p0), vc.cur.y);
      case '`' => MovedGoes(d, vc, From1(p0), vc.cur.y);
      case 'H' => MovedGoes(d, vc, From1(p1), From1(p0));
      case 'f' => MovedGoes(d, vc, From1(p1), From1(p0));
      case 'd' => MovedGoes(d, vc, vc.cur.x, From1(p0));
      case _ =>
    }
  }

  lemma MotionMeans(d: Driver, vc: Vc, c: char)
    requires VcOk(d, vc)
    ensures ParserOk(vc.parser) && Moves(d, vc, c, Pars(vc.parser).0, Pars(vc.parser).1, Motion(d, vc, c))
  {
    hide *;
    MotionRows(d, vc, c);
    MotionAlong(d, vc, c);
    MotionTo(d, vc, c);
    MovesParts(d, vc, c, Pars(vc.parser).0, Pars(vc.parser).1, Motion(d, vc, c));
  }

  lemma MovesParts(d: Driver, vc: Vc, c: char, p0: int, p1: int, r: Vc)
    ensures MovesAlong(d, vc, c, At(p0), r) && MovesRows(d, vc, c, At(p0), r) && MovesTo(d, vc, c, From1(p0), From1(p1), r)
            <==> Moves(d, vc, c, p0, p1, r)
  {
    hide MovesRows, MovesAlong, MovesTo;
  }

  /** CUU with n moves up by n, as far as the margin allows, exactly if n is at most 2^31 + y or there is
      one row only: a larger count wraps around and moves down. */
  lemma CursorUpIff(d: Driver, vc: Vc)
    requires VcOk(d, vc)
    ensures ParserOk(vc.parser) && MinY(vc) < MaxY(d, vc)
    ensures var (y, n) := (vc.cur.y, At(Pars(vc.parser).0));
            Motion(d, vc, 'A').cur.y == Clamp(MinY(vc), y - n, MaxY(d, vc))
            <==> n <= 0x8000_0000 + y || MaxY(d, vc) == MinY(vc) + 1
  {
    hide RestOk, Motion, Pars;
    MotionMeans(d, vc, 'A');
    ParsBounded(d, vc);
    ColsPositive(d, vc);
    MarginBounds(d, vc);
  }

  lemma ParsBounded(d: Driver, vc: Vc)
    requires VcOk(d, vc)
    ensures ParserOk(vc.parser) && 0 <= Pars(vc.parser).0 < 0x1_0000_0000 && 0 <= Pars(vc.parser).1 < 0x1_0000_0000
  {
  }

  lemma MarginBounds(d: Driver, vc: Vc)
    requires VcOk(d, vc)
    ensures 0 <= MinY(vc) <= vc.cur.y < MaxY(d, vc) <= d.rows < 0x1_0000
  {
    hide ParserOk, PaletteOk, SetsOk, SetOk, Utf8.Sound;
  }

  // ---- tab stops ----

  /** TBC 2, 3 and 5 are said to clear all stops: none is left exactly if there was none beyond column
      160, since they write five words of eight. */
  lemma TabsClearedIff(d: Driver, vc: Vc, par: int)
    requires VcOk(d, vc) && par in {2, 3, 5}
    ensures |vc.tabs| >= d.cols && |ClearTabs(d, vc, par).tabs| >= d.cols
    ensures (forall i :: 0 <= i < d.cols ==> !ClearTabs(d, vc, par).tabs[i])
            <==> forall i :: RESET_COLUMNS <= i < d.cols ==> !vc.tabs[i]
  {
    hide VcOk, SetTab;
    TabsPart(d, vc);
    var r := ClearTabs(d, vc, par);
    assert r.tabs == ClearedTabs(vc.tabs);
    assert forall i :: RESET_COLUMNS <= i < d.cols ==> r.tabs[i] == vc.tabs[i];
  }

  /** After RIS there is a stop in every eighth column and no other exactly if that was so beyond column
      160 before. */
  lemma DefaultTabsIff(d: Driver, s: State)
    requires Inv(d, s)
    ensures |s.vc.tabs| >= d.cols && |Reset(d, s).vc.tabs| >= d.cols
    ensures (forall i :: 0 <= i < d.cols ==> (Reset(d, s).vc.tabs[i] <==> i % 8 == 0 && i > 0))
            <==> forall i :: RESET_COLUMNS <= i < d.cols ==> (s.vc.tabs[i] <==> i % 8 == 0)
  {
    hide Inv, VcOk, Reset;
    InvRest(d, s);
    TabsPart(d, s.vc);
    ResetMeans(d, s);
    var r := Reset(d, s);
    assert forall i :: RESET_COLUMNS <= i < d.cols ==> r.vc.tabs[i] == s.vc.tabs[i];
  }
}
