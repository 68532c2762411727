/** The emulator as it runs: a console record and a screen buffer that the handlers change in place
    (drivers/char/decvte.c, drivers/char/vt.c).  Every method is proved against its function. */
module VteTerminal {
  import opened Screen
  import opened VteState
  import opened VteScreen
  import opened VteCommands
  import opened VteParser
  import opened VteMeaning
  import opened VteEffects
  import Utf8

  // ---- in-place work on the buffer ----

  /** A scroll moves Lines rows, or nothing. */
  lemma ScrollForms(d: Driver, m: seq<int>, t: int, b: int, nr: int, c: int)
    requires DriverOk(d) && |m| == Size(d) && 0 <= t && 0 <= nr
    ensures b > d.rows || t >= b || Lines(d, t, b, nr) == 0 ==>
              ScrolledUp(d, m, t, b, nr, c) == m && ScrolledDown(d, m, t, b, nr, c) == m
    ensures t < b <= d.rows ==>
              var n := Lines(d, t, b, nr);
              0 <= t * d.cols && 0 <= n * d.cols && t * d.cols + n * d.cols <= b * d.cols <= |m| &&
              ScrolledUp(d, m, t, b, nr, c) == ShiftUp(m, t * d.cols, b * d.cols, n * d.cols, c) &&
              ScrolledDown(d, m, t, b, nr, c) == ShiftDown(m, t * d.cols, b * d.cols, n * d.cols, c)
  {
    hide DriverOk, Size, ShiftUp, ShiftDown, Lines;
    if t < b <= d.rows {
      LinesFit(d, t, b, nr);
      ShiftNothing(m, t * d.cols, b * d.cols, c);
    }
  }

  /** The loop and fill of insert_char. */
  method ShiftRight(a: array<int>, lo: nat, hi: nat, n: nat, erase: int)
    requires lo + n <= hi <= a.Length
    modifies a
    ensures a[..] == ShiftDown(old(a[..]), lo, hi, n, erase)
  {
    hide Filled, ShiftDown;
    ghost var m := a[..];
    var p := hi - n;
    while p > lo
      invariant lo <= p <= hi - n
      invariant forall i :: p + n <= i < hi ==> a[i] == m[i - n]
      invariant forall i :: 0 <= i < p + n || hi <= i < a.Length ==> a[i] == m[i]
    {
      p := p - 1;
      a[p + n] := a[p];
    }
    ghost var m1 := a[..];
    MemsetW(a, lo, erase, n);
    RightFilled(m, m1, lo, hi, n, erase);
  }

  lemma RightFilled(m: seq<int>, m1: seq<int>, lo: nat, hi: nat, n: nat, erase: int)
    requires lo + n <= hi <= |m| == |m1|
    requires forall i :: lo + n <= i < hi ==> m1[i] == m[i - n]
    requires forall i :: 0 <= i < lo + n || hi <= i < |m| ==> m1[i] == m[i]
    ensures Filled(m1, lo, n, erase) == ShiftDown(m, lo, hi, n, erase)
  {
    assert m1[..lo] == m[..lo];
    assert m1[lo + n..] == m[lo..hi - n] + m[hi..];
  }

  /** The loop and fill of delete_char. */
  method ShiftLeft(a: array<int>, lo: nat, hi: nat, n: nat, erase: int)
    requires lo + n <= hi <= a.Length
    modifies a
    ensures a[..] == ShiftUp(old(a[..]), lo, hi, n, erase)
  {
    hide Filled, ShiftUp;
    ghost var m := a[..];
    var p := lo;
    while p < hi - n
      invariant lo <= p <= hi - n
      invariant forall i :: lo <= i < p ==> a[i] == m[i + n]
      invariant forall i :: 0 <= i < lo || p <= i < a.Length ==> a[i] == m[i]
    {
      a[p] := a[p + n];
      p := p + 1;
    }
    ghost var m1 := a[..];
    MemsetW(a, p, erase, n);
    LeftFilled(m, m1, lo, hi, n, erase);
  }

  lemma LeftFilled(m: seq<int>, m1: seq<int>, lo: nat, hi: nat, n: nat, erase: int)
    requires lo + n <= hi <= |m| == |m1|
    requires forall i :: lo <= i < hi - n ==> m1[i] == m[i + n]
    requires forall i :: 0 <= i < lo || hi - n <= i < |m| ==> m1[i] == m[i]
    ensures Filled(m1, hi - n, n, erase) == ShiftUp(m, lo, hi, n, erase)
  {
    assert m1[..hi - n] == m[..lo] + m[lo + n..hi];
    assert m1[hi..] == m[hi..];
  }

  /** invert_screen over the whole buffer. */
  method InvertAll(d: Driver, a: array<int>)
    modifies a
    ensures a[..] == Inverted(d, old(a[..]))
  {
    for i := 0 to a.Length
      invariant forall k :: 0 <= k < i ==> a[k] == d.invert(old(a[k]))
      invariant forall k :: i <= k < a.Length ==> a[k] == old(a[k])
    {
      a[i] := d.invert(a[i]);
    }
  }

  // ---- tabulation ----

  /** The loop of HT. */
  method ForwardOnce(tabs: seq<bool>, x0: int, last: int) returns (x: int)
    requires 0 <= x0 <= last < |tabs|
    ensures x == NextTab(tabs, x0, last)
  {
    x := x0;
    var found := false;
    while x < last && !found
      invariant x0 <= x <= last && (!found ==> NextTab(tabs, x, last) == NextTab(tabs, x0, last))
      invariant found ==> x == NextTab(tabs, x0, last)
      decreases last - x, !found
    {
      x := x + 1;
      found := tabs[x];
    }
  }

  method BackOnce(tabs: seq<bool>, x0: int) returns (x: int)
    requires 0 <= x0 < |tabs|
    ensures x == PreviousTab(tabs, x0)
  {
    x := x0;
    var found := false;
    while x > 0 && !found
      invariant 0 <= x <= x0 && (!found ==> PreviousTab(tabs, x) == PreviousTab(tabs, x0))
      invariant found ==> x == PreviousTab(tabs, x0)
      decreases x, !found
    {
      x := x - 1;
      found := tabs[x];
    }
  }

  /** vte_cht */
  method Forward(tabs: seq<bool>, x0: int, last: int, n: nat) returns (x: int)
    requires 0 <= x0 <= last < |tabs|
    ensures x == TabsForward(tabs, x0, last, n)
  {
    hide NextTab;
    x := x0;
    for i := 0 to n
      invariant x == TabsForward(tabs, x0, last, i)
    {
      x := ForwardOnce(tabs, x, last);
    }
  }

  /** vte_cbt */
  method Back(tabs: seq<bool>, x0: int, n: nat) returns (x: int)
    requires 0 <= x0 < |tabs|
    ensures x == TabsBack(tabs, x0, n)
  {
    hide PreviousTab;
    x := x0;
    for i := 0 to n
      invariant x == TabsBack(tabs, x0, i)
    {
      x := BackOnce(tabs, x);
    }
  }

  /** The columns that vte_ris and vte_tbc set: every eighth, or none. */
  method FillTabs(tabs: array<bool>, eighths: bool)
    requires tabs.Length >= RESET_COLUMNS
    modifies tabs
    ensures tabs[..] == if eighths then DefaultTabs(old(tabs[..])) else ClearedTabs(old(tabs[..]))
  {
    for i := 0 to RESET_COLUMNS
      invariant forall k :: 0 <= k < i ==> tabs[k] == (eighths && k % 8 == 0 && k > 0)
      invariant forall k :: i <= k < tabs.Length ==> tabs[k] == old(tabs[k])
    {
      tabs[i] := eighths && i % 8 == 0 && i > 0;
    }
  }

  // ---- what replacing parts of a console keeps ----

  lemma VcInv(d: Driver, s: State, vc: Vc)
    ensures Inv(d, s) && VcOk(d, vc) ==> Inv(d, s.(vc := vc))
  {
    hide VcOk;
  }

  lemma RestIgnoresModes(d: Driver, vc: Vc, m: Modes)
    ensures RestOk(d, vc) ==> RestOk(d, vc.(modes := m))
  {
  }

  lemma RestWithMargins(d: Driver, vc: Vc, t: int, b: int)
    ensures RestOk(d, vc) && 0 <= t < b <= d.rows ==> RestOk(d, vc.(top := t, bottom := b))
  {
  }

  lemma GivenIs(p: Parser)
    ensures ParserOk(p) ==>
              0 <= p.npar < |p.par| == NPAR && |Given(p)| == p.npar + 1 && forall i :: 0 <= i <= p.npar ==> Given(p)[i] == p.par[i]
  {
  }

  /** struct vc_data, as far as the emulator works on it, and the screen buffer. */
  class Terminal {
    const d: Driver
    const screen: array<int>
    const par: array<int>
    const tabs: array<bool>
    const palette: array<int>
    var cur: Cursor
    var top: int
    var bottom: int
    var rend: Rendition
    var colors: Colors
    var attr: int
    var erase: int
    var sets: Charsets
    var gs: int
    var translate: int
    var saved: Saved
    var state: Es
    var npar: int
    var priv: Priv
    var modes: Modes
    var decoder: Utf8.State

    ghost function ParserNow(): Parser
      reads this`state, this`npar, this`priv, par
    {
      Parser(state, npar, par[..], priv)
    }

    ghost function Console(): Vc
      reads this, par, tabs, palette
    {
      Vc(cur, top, bottom, rend, colors, attr, erase, sets, gs, translate, saved, ParserNow(), modes, tabs[..], palette[..],
         decoder)
    }

    ghost function Now(): State
      reads this, par, tabs, palette, screen
    {
      State(Console(), screen[..])
    }

    ghost predicate Valid()
      reads this, par, tabs, palette, screen
    {
      Inv(d, Now()) && par != palette && par != screen && palette != screen
    }

    constructor (driver: Driver, buffer: array<int>, vc: Vc)
      requires Inv(driver, State(vc, buffer[..]))
      ensures Valid() && d == driver && screen == buffer && Now() == State(vc, buffer[..])
      ensures fresh(par) && fresh(tabs) && fresh(palette)
    {
      hide Inv;
      d, screen := driver, buffer;
      par := new int[|vc.parser.par|](i requires 0 <= i < |vc.parser.par| => vc.parser.par[i]);
      tabs := new bool[|vc.tabs|](i requires 0 <= i < |vc.tabs| => vc.tabs[i]);
      palette := new int[|vc.palette|](i requires 0 <= i < |vc.palette| => vc.palette[i]);
      cur, top, bottom, rend, colors, attr, erase := vc.cur, vc.top, vc.bottom, vc.rend, vc.colors, vc.attr, vc.erase;
      sets, gs, translate, saved := vc.sets, vc.gs, vc.translate, vc.saved;
      state, npar, priv := vc.parser.state, vc.parser.npar, vc.parser.priv;
      modes, decoder := vc.modes, vc.decoder;
      new;
      assert par[..] == vc.parser.par && tabs[..] == vc.tabs && palette[..] == vc.palette;
    }

    lemma Parts()
      ensures Valid() ==> DriverOk(d) && CursorOk(d, cur) && MarginsOk(d, Console()) && screen.Length == Size(d)
      ensures Valid() ==> VcOk(d, Console()) && RestOk(d, Console()) && ParserOk(ParserNow()) && tabs.Length >= TAB_COLUMNS
    {
      hide Size;
      InvParts(d, Now());
      InvRest(d, Now());
      ParserPart(d, Console());
      TabsPart(d, Console());
    }

    lemma TwoPars()
      ensures Valid() ==> par.Length == NPAR && ParserOk(ParserNow()) && Pars(ParserNow()) == (par[0], par[1]) && 0 <= par[0] && 0 <= par[1]
    {
      hide Inv;
      Parts();
    }

    // ---- the cursor ----

    /** gotoxy */
    method GotoXy(newX: int, newY: int)
      requires RestOk(d, Console())
      modifies this`cur
      ensures Console() == Goto(d, old(Console()), newX, newY)
    {
      hide ParserOk, PaletteOk, SetsOk, SetOk, Utf8.Sound;
      var x, y := newX, newY;
      if newX < 0 {
        x := 0;
      } else if newX >= d.cols {
        x := d.cols - 1;
      }
      var minY, maxY := 0, d.rows;
      if modes.decom {
        minY, maxY := top, bottom;
      }
      if newY < minY {
        y := minY;
      } else if newY >= maxY {
        y := maxY - 1;
      }
      cur := Cursor(x, y, d.origin + y * SizeRow(d) + 2 * x, false);
    }

    /** gotoxay */
    method GotoXay(newX: int, newY: int)
      requires RestOk(d, Console())
      modifies this`cur
      ensures Console() == GotoAbsolute(d, old(Console()), newX, newY)
    {
      hide RestOk, VcOk, Goto;
      GotoXy(newX, if modes.decom then ToInt(top + newY) else newY);
    }

    /** vte_cr */
    method Cr()
      requires Valid()
      modifies this`cur
      ensures Now() == Returned(d, old(Now())) && Valid()
    {
      hide Inv, VcOk, RestOk;
      Parts();
      cur := cur.(pos := cur.pos - 2 * cur.x);
      cur := cur.(needWrap := false, x := 0);
    }

    /** vte_bs */
    method Bs()
      requires Valid()
      modifies this`cur
      ensures Console() == Backspace(d, old(Console())) && Valid()
    {
      hide Inv, VcOk, RestOk;
      Parts();
      if cur.x != 0 {
        cur := Cursor(cur.x - 1, cur.y, cur.pos - 2, false);
      }
      VcInv(d, old(Now()), Console());
    }

    /** The loops of HT and CHT. */
    method Tab(n: nat)
      requires Valid()
      modifies this`cur
      ensures Console() == TabForward(d, old(Console()), n) && Valid()
    {
      hide Inv, VcOk, RestOk, TabsForward;
      Parts();
      TabsPart(d, Console());
      var x := Forward(tabs[..], cur.x, d.cols - 1, n);
      cur := cur.(x := x, pos := cur.pos - 2 * cur.x + 2 * x);
      VcInv(d, old(Now()), Console());
    }

    /** The loops of CBT. */
    method BackTab(n: nat)
      requires Valid()
      modifies this`cur
      ensures Console() == TabBack(d, old(Console()), n) && Valid()
    {
      hide Inv, VcOk, RestOk, TabsBack;
      Parts();
      TabsPart(d, Console());
      var x := Back(tabs[..], cur.x, n);
      cur := cur.(x := x, pos := cur.pos - 2 * cur.x + 2 * x);
      VcInv(d, old(Now()), Console());
    }

    /** HTS, and TBC at the cursor. */
    method MarkTab(on: bool)
      requires Valid()
      modifies tabs
      ensures Console() == SetTab(d, old(Console()), on) && Valid()
    {
      hide Inv, VcOk, RestOk;
      Parts();
      TabsPart(d, Console());
      tabs[cur.x] := on;
      assert tabs[..] == old(tabs[..])[cur.x := on];
      VcInv(d, old(Now()), Console());
    }

    /** vte_tbc: the five words of vc_tab_stop that it clears. */
    method Tbc(p: int)
      requires Valid()
      modifies tabs
      ensures Console() == ClearTabs(d, old(Console()), p) && Valid()
    {
      hide Inv, VcOk, RestOk, SetTab, ClearedTabs;
      Parts();
      if p == 0 {
        MarkTab(false);
      } else if p == 2 || p == 3 || p == 5 {
        FillTabs(tabs, false);
        VcInv(d, old(Now()), Console());
      }
    }

    // ---- scrolling ----

    /** scroll_region_up on a console that is not displayed, or whose driver leaves it to memory. */
    method ScrollRegionUp(t: int, b: int, nr: int)
      requires DriverOk(d) && screen.Length == Size(d) && 0 <= t && 0 <= nr
      modifies screen
      ensures screen[..] == ScrolledUp(d, old(screen[..]), t, b, nr, erase)
    {
      hide DriverOk, Size, ShiftUp, ScrolledUp;
      ScrollForms(d, screen[..], t, b, nr, erase);
      var n := nr;
      if t + n >= b {
        n := b - t - 1;
      }
      if b > d.rows || t >= b || n < 1 {
        return;
      }
      LinesFit(d, t, b, nr);
      MoveUp(screen, 0, screen.Length, t * d.cols, b * d.cols, n * d.cols, erase);
      assert screen[..][0..screen.Length] == screen[..] && old(screen[..])[0..screen.Length] == old(screen[..]);
    }

    /** scroll_region_down, likewise. */
    method ScrollRegionDown(t: int, b: int, nr: int)
      requires DriverOk(d) && screen.Length == Size(d) && 0 <= t && 0 <= nr
      modifies screen
      ensures screen[..] == ScrolledDown(d, old(screen[..]), t, b, nr, erase)
    {
      hide DriverOk, Size, ShiftDown, ScrolledDown;
      ScrollForms(d, screen[..], t, b, nr, erase);
      var n := nr;
      if t + n >= b {
        n := b - t - 1;
      }
      if b > d.rows || t >= b || n < 1 {
        return;
      }
      LinesFit(d, t, b, nr);
      MoveDown(screen, 0, screen.Length, t * d.cols, b * d.cols, n * d.cols, erase);
      assert screen[..][0..screen.Length] == screen[..] && old(screen[..])[0..screen.Length] == old(screen[..]);
    }

    /** vte_lf */
    method Lf()
      requires Valid()
      modifies this`cur, screen
      ensures Now() == LineFeed(d, old(Now())) && Valid()
    {
      hide Inv, VcOk, DriverOk, CursorOk, RestOk, ParserOk, ScrolledUp, Size;
      Parts();
      if cur.y + 1 == bottom {
        ScrollRegionUp(top, bottom, 1);
      } else if cur.y < d.rows - 1 {
        cur := cur.(y := cur.y + 1, pos := cur.pos + SizeRow(d));
      }
      cur := cur.(needWrap := false);
    }

    /** vte_ri */
    method Ri()
      requires Valid()
      modifies this`cur, screen
      ensures Now() == ReverseLineFeed(d, old(Now())) && Valid()
    {
      hide Inv, VcOk, DriverOk, CursorOk, RestOk, ParserOk, ScrolledDown, Size;
      Parts();
      if cur.y == top {
        ScrollRegionDown(top, bottom, 1);
      } else if cur.y > 0 {
        cur := cur.(y := cur.y - 1, pos := cur.pos - SizeRow(d));
      }
      cur := cur.(needWrap := false);
    }

    /** vte_cvt */
    method Cvt(n: nat)
      requires Valid()
      modifies this`cur, screen
      ensures Now() == LineFeeds(d, old(Now()), n) && Valid()
    {
      hide Inv, LineFeed;
      for i := 0 to n
        invariant Valid() && Now() == LineFeeds(d, old(Now()), i)
      {
        Lf();
      }
    }

    method Nl()
      requires Valid()
      modifies this`cur, screen
      ensures Now() == NewLine(d, old(Now())) && Valid()
    {
      hide Inv, VcOk, LineFeed, CarriageReturn;
      Cr();
      Lf();
    }

    // ---- erasing, inserting, deleting ----

    /** scr_memsetw with the erase character, and no pending wrap. */
    method Erase(at: int, count: int)
      requires Valid() && 0 <= at && 0 <= count && at + count <= Size(d)
      modifies this`cur, screen
      ensures Now() == Erased(d, old(Now()), at, count) && Valid()
    {
      hide Inv, VcOk, DriverOk, CursorOk, RestOk, ParserOk, Size, Filled;
      Parts();
      MemsetW(screen, at, erase, count);
      cur := cur.(needWrap := false);
    }

    /** vte_ed */
    method Ed(p: int)
      requires Valid()
      modifies this`cur, screen
      ensures Now() == EraseInPage(d, old(Now()), p) && Valid()
      ensures PageErased(d, old(Now()), p, Now())
    {
      hide Inv, VcOk, DriverOk, CursorOk, RestOk, ParserOk, Size, Erased, Here, PageErased;
      Parts();
      EraseInPageMeans(d, Now(), p);
      HereIs(d, cur);
      var at := Here(d, cur);
      match p {
        case 0 => Erase(at, screen.Length - at);
        case 1 => Erase(0, at + 1);
        case 2 => Erase(0, screen.Length);
        case _ =>
      }
    }

    /** vte_el */
    method El(p: int)
      requires Valid()
      modifies this`cur, screen
      ensures Now() == EraseInLine(d, old(Now()), p) && Valid()
      ensures LineErased(d, old(Now()), p, Now())
    {
      hide Inv, VcOk, DriverOk, RestOk, ParserOk, Size, Erased, Here, LineErased;
      Parts();
      EraseInLineMeans(d, Now(), p);
      HereIs(d, cur);
      var at := Here(d, cur);
      match p {
        case 0 => Erase(at, d.cols - cur.x);
        case 1 => Erase(at - cur.x, cur.x + 1);
        case 2 => Erase(at - cur.x, d.cols);
        case _ =>
      }
    }

    /** vte_ech */
    method Ech(p: int)
      requires Valid() && 0 <= p
      modifies this`cur, screen
      ensures Now() == EraseCharacters(d, old(Now()), p) && Valid()
      ensures CharactersErased(d, old(Now()), old(Room(d, cur, p)), Now())
    {
      hide Inv, VcOk, DriverOk, RestOk, ParserOk, Size, Erased, Here, CharactersErased, Room;
      Parts();
      EraseCharactersMeans(d, Now(), p);
      HereIs(d, cur);
      var count := if p == 0 then 1 else p;
      if count > d.cols - cur.x {
        count := d.cols - cur.x;
      }
      Erase(Here(d, cur), count);
    }

    /** insert_char */
    method InsertChar(n: int)
      requires Valid() && 0 <= n <= d.cols - cur.x
      modifies this`cur, screen
      ensures Now() == InsertCharacters(d, old(Now()), n) && Valid()
      ensures RowInserted(d, old(Now()), n, Now())
    {
      hide Inv, VcOk, DriverOk, RestOk, ParserOk, Size, ShiftDown, Here, RowInserted;
      Parts();
      InsertMeans(d, Now(), n);
      HereIs(d, cur);
      var q := Here(d, cur);
      ShiftRight(screen, q, q + d.cols - cur.x, n, erase);
      cur := cur.(needWrap := false);
    }

    /** delete_char */
    method DeleteChar(n: int)
      requires Valid() && 0 <= n <= d.cols - cur.x
      modifies this`cur, screen
      ensures Now() == DeleteCharacters(d, old(Now()), n) && Valid()
      ensures RowDeleted(d, old(Now()), n, Now())
    {
      hide Inv, VcOk, DriverOk, RestOk, ParserOk, Size, ShiftUp, Here, RowDeleted;
      Parts();
      DeleteMeans(d, Now(), n);
      HereIs(d, cur);
      var p := Here(d, cur);
      ShiftLeft(screen, p, p + d.cols - cur.x, n, erase);
      cur := cur.(needWrap := false);
    }

    /** vte_il and vte_dl */
    method Il(p: int)
      requires Valid() && 0 <= p
      modifies this`cur, screen
      ensures Now() == InsertLines(d, old(Now()), p) && Valid()
      ensures LinesInserted(d, old(Now()), p, Now())
    {
      hide Inv, VcOk, DriverOk, RestOk, ParserOk, Size, ScrolledDown, LinesInserted;
      Parts();
      InsertLinesMeans(d, Now(), p);
      ScrollRegionDown(cur.y, bottom, Count(p, d.rows - cur.y));
      cur := cur.(needWrap := false);
    }

    method Dl(p: int)
      requires Valid() && 0 <= p
      modifies this`cur, screen
      ensures Now() == DeleteLines(d, old(Now()), p) && Valid()
      ensures LinesDeleted(d, old(Now()), p, Now())
    {
      hide Inv, VcOk, DriverOk, RestOk, ParserOk, Size, ScrolledUp, LinesDeleted;
      Parts();
      DeleteLinesMeans(d, Now(), p);
      ScrollRegionUp(cur.y, bottom, Count(p, d.rows - cur.y));
      cur := cur.(needWrap := false);
    }

    // ---- attributes ----

    /** update_attr */
    method Update()
      modifies this`attr, this`erase
      ensures Console() == UpdateAttr(d, old(Console()))
    {
      attr := d.build(colors, rend.(reverse := rend.reverse != modes.decscnm));
      erase := 256 * d.build(colors, rend.(blink := false, underline := false, reverse := modes.decscnm)) + 32;
    }

    /** default_attr */
    method DefaultAttr()
      modifies this`rend
      ensures rend == DefaultRendition(d, old(Console()))
    {
      rend := rend.(intensity := 1, underline := false, reverse := false, blink := false);
      if d.canDoColor {
        rend := rend.(color := colors.standard);
      }
    }

    /** One parameter of SGR other than a font. */
    method SgrLook(p: int)
      modifies this`rend
      ensures rend == Rendered(d, old(Console()), p)
    {
      hide ColorTable, Foreground, Background, DefaultRendition;
      var standard, color := colors.standard, rend.color;
      match p {
        case 0 => DefaultAttr();
        case 1 => rend := rend.(intensity := 2);
        case 2 => rend := rend.(intensity := 0);
        case 4 => rend := rend.(underline := true);
        case 5 => rend := rend.(blink := true);
        case 6 => rend := rend.(blink := true);
        case 7 => rend := rend.(reverse := true);
        case 21 => rend := rend.(intensity := 1);
        case 22 => rend := rend.(intensity := 1);
        case 24 => rend := rend.(underline := false);
        case 25 => rend := rend.(blink := false);
        case 27 => rend := rend.(reverse := false);
        case 38 => rend := rend.(color := Foreground(standard) + Background(color), underline := true);
        case 39 => rend := rend.(color := Foreground(standard) + Background(color), underline := false);
        case 49 => rend := rend.(color := Background(standard) + Foreground(color));
        case _ =>
          if 30 <= p <= 37 {
            rend := rend.(color := ColorTable(p - 30) + Background(color));
          } else if 40 <= p <= 47 {
            rend := rend.(color := 16 * ColorTable(p - 40) + Foreground(color));
          }
      }
    }

    method SgrParam(p: int)
      modifies this`rend, this`translate, this`modes
      ensures Console() == SgrOne(d, old(Console()), p)
    {
      hide Rendered;
      if p == 10 {
        translate := if sets.active == 0 then sets.g0 else sets.g1;
        modes := modes.(dispCtrl := false);
      } else if p == 11 || p == 12 {
        translate := IBMPC_MAP;
        modes := modes.(dispCtrl := true);
      } else {
        SgrLook(p);
      }
    }

    /** vte_sgr: each attribute is what the last parameter concerning it says. */
    method SelectRendition()
      requires Valid()
      modifies this`rend, this`translate, this`modes, this`attr, this`erase
      ensures Console() == Sgr(d, old(Console())) && Valid()
      ensures ParserOk(old(ParserNow())) && SaidBy(d, old(Console()), Given(old(ParserNow())), rend)
      ensures Current(d, Console())
    {
      hide Inv, VcOk, RestOk, ParserOk, SgrOne, UpdateAttr, Given, SaidBy, Current;
      Parts();
      SgrCurrent(d, Console());
      GivenIs(ParserNow());
      ghost var ps := Given(ParserNow());
      SgrMeans(d, Console(), ps);
      for i := 0 to npar + 1
        invariant Console() == SgrUpTo(d, old(Console()), ps[..i])
      {
        assert ps[..i + 1][..i] == ps[..i];
        SgrParam(par[i]);
      }
      assert ps[..|ps|] == ps;
      Update();
      VcInv(d, old(Now()), Console());
    }

    /** The colour commands of setterm_command. */
    method SetColors()
      requires Valid()
      modifies this`rend, this`colors, this`attr, this`erase
      ensures Console() == Setterm(d, old(Console())) && Valid()
    {
      hide Inv, VcOk, RestOk, ParserOk, ColorTable;
      Parts();
      TwoPars();
      if par[0] == 1 && d.canDoColor && par[1] < 16 {
        colors := colors.(underlined := ColorTable(par[1]));
        if rend.underline {
          Update();
        }
      } else if par[0] == 2 && d.canDoColor && par[1] < 16 {
        colors := colors.(half := ColorTable(par[1]));
        if rend.intensity == 0 {
          Update();
        }
      } else if par[0] == 8 {
        colors := colors.(standard := if d.hiFontMask == 0x100 then attr / 2 else attr);
        DefaultAttr();
        Update();
      }
      VcInv(d, old(Now()), Console());
    }

    // ---- modes ----

    /** One parameter of set_mode. */
    method ModeParam(on: bool, p: int)
      requires Valid()
      modifies this`modes, this`attr, this`erase, this`cur, screen
      ensures Now() == SetModeOne(d, old(Now()), on, p) && Valid()
    {
      hide Inv, VcOk, RestOk, ParserOk, SetScreenMode, SetOriginMode;
      Parts();
      if priv == Question {
        match p {
          case 5 => ScreenMode(on);
          case 6 => OriginMode(on);
          case 7 => modes := modes.(decawm := on);
          case _ =>
        }
      } else {
        match p {
          case 3 => modes := modes.(dispCtrl := on);
          case 4 => modes := modes.(irm := on);
          case 20 => modes := modes.(crlf := on);
          case _ =>
        }
      }
    }

    method ScreenMode(on: bool)
      requires Valid()
      modifies this`modes, this`attr, this`erase, screen
      ensures Now() == SetScreenMode(d, old(Now()), on) && Valid()
    {
      hide Inv, VcOk, RestOk, ParserOk, Inverted;
      Parts();
      if modes.decscnm != on {
        modes := modes.(decscnm := on);
        InvertAll(d, screen);
        Update();
      }
    }

    method OriginMode(on: bool)
      requires Valid()
      modifies this`modes, this`cur
      ensures Console() == SetOriginMode(d, old(Console()), on) && Valid()
    {
      hide Inv, VcOk, RestOk, ParserOk, GotoAbsolute;
      Parts();
      RestIgnoresModes(d, Console(), modes.(decom := on));
      modes := modes.(decom := on);
      GotoXay(0, 0);
      VcInv(d, old(Now()), Console());
    }

    /** set_mode: exactly the modes named take the value. */
    method SetModes(on: bool)
      requires Valid()
      modifies this`modes, this`attr, this`erase, this`cur, screen
      ensures ParserOk(old(ParserNow())) && Now() == SetMode(d, old(Now()), on, Given(old(ParserNow()))) && Valid()
      ensures ModesSet(d, old(Now()), on, Given(old(ParserNow())), Now())
    {
      hide Inv, VcOk, RestOk, ParserOk, SetModeOne, Given, ModesSet;
      Parts();
      GivenIs(ParserNow());
      ghost var ps := Given(ParserNow());
      SetModeMeans(d, Now(), on, ps);
      for i := 0 to npar + 1
        invariant Valid() && Now() == SetMode(d, old(Now()), on, ps[..i])
      {
        assert ps[..i + 1][..i] == ps[..i];
        ModeParam(on, par[i]);
      }
      assert ps[..|ps|] == ps;
    }

    /** vte_decscl */
    method Level()
      requires Valid()
      modifies this`modes
      ensures Console() == SetLevel(d, old(Console())) && Valid()
    {
      hide Inv, VcOk, RestOk, ParserOk;
      Parts();
      TwoPars();
      if par[0] == 61 {
        if npar == 1 {
          modes := modes.(decscl := 1, c8bit := false);
        }
      } else if 62 <= par[0] <= 64 {
        if npar <= 2 {
          modes := modes.(decscl := 4, c8bit := par[1] != 1);
        }
      }
      VcInv(d, old(Now()), Console());
    }

    /** DECSTBM */
    method Decstbm()
      requires Valid()
      modifies this`top, this`bottom, this`cur
      ensures Console() == SetMargins(d, old(Console())) && Valid()
      ensures par.Length >= 2 && MarginsSet(d, old(Console()), old(par[0]), old(par[1]), Console())
    {
      hide Inv, VcOk, RestOk, ParserOk, GotoAbsolute, MarginsSet;
      Parts();
      MarginsMean(d, Console());
      TwoPars();
      var first, last := par[0], par[1];
      if first == 0 {
        first := 1;
      }
      if last == 0 {
        last := d.rows;
      }
      if first < last <= d.rows {
        RestWithMargins(d, Console(), first - 1, last);
        top, bottom := first - 1, last;
        GotoXay(0, 0);
      }
      VcInv(d, old(Now()), Console());
    }

    // ---- saving, restoring, resetting ----

    /** vte_decsc */
    method Decsc()
      requires VcOk(d, Console())
      modifies this`saved
      ensures Console() == SaveCursor(d, old(Console()))
    {
      hide VcOk;
      saved := Saved(cur.x, cur.y, rend, sets);
    }

    /** vte_decrc */
    method Decrc()
      requires Valid()
      modifies this`cur, this`rend, this`sets, this`translate, this`attr, this`erase
      ensures Console() == RestoreCursor(d, old(Console())) && Valid() && Current(d, Console())
    {
      hide Inv, VcOk, RestOk, ParserOk, Goto, Current;
      Parts();
      RestoreCurrent(d, Console());
      GotoXy(saved.x, saved.y);
      rend := saved.rend;
      sets := saved.sets;
      translate := if sets.active != 0 then sets.g1 else sets.g0;
      Update();
      VcInv(d, old(Now()), Console());
    }

    /** The assignments of vte_ris up to its call of gotoxy. */
    method ResetAll()
      requires RestOk(d, Console())
      modifies this`top, this`bottom, this`state, this`priv, this`translate, this`sets, this`decoder, this`modes, this`rend,
               this`attr, this`erase, tabs
      ensures Console() == ResetFields(d, old(Console()))
    {
      hide ParserOk, DriverOk, PaletteOk, SetsOk, SetOk, Utf8.Sound, DefaultTabs, UpdateAttr, DefaultRendition;
      ResetPlain();
      DefaultAttr();
      Update();
    }

    method ResetPlain()
      requires tabs.Length >= RESET_COLUMNS
      modifies this`top, this`bottom, this`state, this`priv, this`translate, this`sets, this`decoder, this`modes, tabs
      ensures var vc := old(Console());
              Console() == vc.(top := 0, bottom := d.rows, parser := ResetParser(vc.parser),
                               translate := LAT1_MAP, sets := vc.sets.(active := 0, g0 := LAT1_MAP, g1 := GRAF_MAP),
                               modes := Modes(false, false, true, false, false, false, false, false, vc.modes.decscl),
                               decoder := vc.decoder.(count := 0), tabs := DefaultTabs(vc.tabs))
    {
      hide DefaultTabs, ClearedTabs;
      FillTabs(tabs, true);
      top, bottom, state, priv, translate := 0, d.rows, Init, Public, LAT1_MAP;
      sets := sets.(g0 := LAT1_MAP, g1 := GRAF_MAP, active := 0);
      decoder := decoder.(count := 0);
      modes := Modes(false, false, true, false, false, false, false, false, modes.decscl);
    }

    /** vte_ris: afterwards the terminal is as IsReset says. */
    method Ris()
      requires Valid()
      modifies this, tabs, screen
      ensures Now() == Reset(d, old(Now())) && Valid() && IsReset(d, old(Console()), Now())
    {
      hide Inv, VcOk, RestOk, ParserOk, ResetFields, Goto, SaveCursor, Erased, Size, IsReset;
      Parts();
      ResetMeans(d, old(Now()));
      ResetAll();
      GotoXy(0, 0);
      Decsc();
      VcInv(d, old(Now()), Console());
      AllFits(d, Now());
      Erase(0, screen.Length);
    }

    /** The screen alignment test. */
    method Align()
      requires Valid()
      modifies this`erase, this`cur, screen
      ensures Now() == Alignment(d, old(Now())) && Valid()
    {
      hide Inv, VcOk, RestOk, ParserOk, Erased, Size;
      Parts();
      var byte := erase / 256 * 256;
      VcInv(d, Now(), WithErase(d, Console(), byte + 69));
      erase := byte + 69;
      AllFits(d, Now());
      Erase(0, screen.Length);
      Parts();
      erase := byte + 32;
    }

    // ---- character sets ----

    /** SO and SI */
    method Shift(n: int)
      requires Valid() && 0 <= n <= 1
      modifies this`sets, this`translate, this`modes
      ensures Console() == ShiftOut(d, old(Console()), n) && Valid()
    {
      hide Inv, VcOk, RestOk, ParserOk;
      Parts();
      sets := sets.(active := n);
      translate := if n == 1 then sets.g1 else sets.g0;
      modes := modes.(dispCtrl := n == 1);
      VcInv(d, old(Now()), Console());
    }

    /** GZD4 and G1D4 */
    method DesignateSet(g: int, c: char)
      requires Valid() && 0 <= g <= 1
      modifies this`sets, this`translate
      ensures Console() == Designate(d, old(Console()), g, c) && Valid()
    {
      hide Inv, VcOk, RestOk, ParserOk, Designated;
      Parts();
      var n := Designated(c, if g == 0 then sets.g0 else sets.g1);
      sets := if g == 0 then sets.(g0 := n) else sets.(g1 := n);
      if sets.active == g {
        translate := n;
      }
      VcInv(d, old(Now()), Console());
    }

    // ---- parameters and palette ----

    /** The clearing loops over vc_par. */
    method ClearPars()
      requires Valid() && state != Palette
      modifies this`npar, par
      ensures Console() == WithParser(d, old(Console()), old(ParserNow()).(npar := 0, par := NoPars())) && Valid()
    {
      hide Inv, VcOk, RestOk, ParserOk;
      Parts();
      GivenIs(ParserNow());
      ZeroOk(ParserNow());
      npar := 0;
      while npar < NPAR
        invariant 0 <= npar <= NPAR && forall i :: 0 <= i < npar ==> par[i] == 0
      {
        par[npar] := 0;
        npar := npar + 1;
      }
      npar := 0;
      assert par[..] == NoPars();
      VcInv(d, old(Now()), Console());
    }

    /** A parameter digit or separator. */
    method GetPar(c: char)
      requires Valid() && state != Palette && Continues(ParserNow(), c)
      modifies this`npar, par
      ensures Console() == ReadParameter(d, old(Console()), c) && Valid()
    {
      hide Inv, VcOk, RestOk, ParserOk, Digit;
      Parts();
      GivenIs(ParserNow());
      if IsDigit(c) {
        par[npar] := par[npar] * 10;
        par[npar] := (par[npar] + Digit(c)) % 0x1_0000_0000;
        assert par[..] == ParDigit(old(ParserNow()), Digit(c)).par;
      } else {
        npar := npar + 1;
      }
      VcInv(d, old(Now()), Console());
    }

    /** A palette digit; the seventh completes the colour. */
    method PaletteChar(c: char)
      requires Valid() && state == Palette
      modifies this`npar, this`state, par, palette
      ensures Console() == InPalette(d, old(Console()), c) && Valid()
    {
      hide Inv, VcOk, RestOk, ParserOk, PaletteOk, PaletteDigit, Recolored;
      Parts();
      PalettePart(d, Console());
      GivenIs(ParserNow());
      var n := HexValue(c);
      if n < 0 {
        state := Init;
      } else {
        DigitStored(ParserNow(), n);
        par[npar] := n;
        npar := npar + 1;
        assert ParserNow() == PaletteDigit(old(ParserNow()), n);
        if npar == 7 {
          Recolor();
          state := Init;
        }
      }
      VcInv(d, old(Now()), Console());
    }

    method Recolor()
      requires par != palette && par.Length == NPAR && PaletteOk(palette[..]) && forall i :: 0 <= i < NPAR ==> 0 <= par[i] < 16
      modifies palette
      ensures palette[..] == Recolored(old(palette[..]), par[..])
    {
      var i := 3 * par[0];
      palette[i] := 16 * par[1];
      palette[i] := palette[i] + par[2];
      palette[i + 1] := 16 * par[3];
      palette[i + 1] := palette[i + 1] + par[4];
      palette[i + 2] := 16 * par[5];
      palette[i + 2] := palette[i + 2] + par[6];
    }

    /** reset_palette */
    method ResetPalette()
      requires Valid()
      modifies palette
      ensures Console() == WithPalette(d, old(Console()), d.palette) && Valid()
    {
      hide Inv, VcOk, RestOk, ParserOk, PaletteOk;
      Parts();
      PalettePart(d, Console());
      PaletteSizes(d, palette[..]);
      for i := 0 to palette.Length
        invariant forall k :: 0 <= k < i ==> palette[k] == d.palette[k]
      {
        palette[i] := d.palette[i];
      }
      assert palette[..] == d.palette;
      VcInv(d, old(Now()), Console());
    }

    // ---- the parser ----

    method Control0(c: int)
      requires Valid()
      modifies this, screen
      ensures Now() == C0(d, old(Now()), c) && Valid()
    {
      hide Inv, VcOk, RestOk, ParserOk, TabForward, Backspace, ShiftOut, LineFeed, Returned, CarriageReturn;
      Parts();
      match c {
        case 0x08 => Bs();
        case 0x09 => Tab(1);
        case 0x0A => FeedLine();
        case 0x0B => FeedLine();
        case 0x0C => FeedLine();
        case 0x0D => ReturnedIs(d, Now()); Cr();
        case 0x0E => Shift(1);
        case 0x0F => Shift(0);
        case 0x18 => state := Init;
        case 0x1A => state := Init;
        case 0x1B => state := Esc;
        case _ =>
      }
    }

    /** LF, VT and FF */
    method FeedLine()
      requires Valid()
      modifies this`cur, screen
      ensures Now() == Feed(d, old(Now())) && Valid()
    {
      hide Inv, LineFeed, Returned;
      Lf();
      if modes.crlf {
        Cr();
      }
    }

    method Control1(c: int)
      requires Valid()
      modifies this, screen, tabs
      ensures Now() == C1(d, old(Now()), c) && Valid()
    {
      hide Inv, VcOk, RestOk, ParserOk, LineFeed, Returned, ReverseLineFeed, SetTab;
      Parts();
      match c {
        case 0x84 => Lf();
        case 0x85 => Lf(); Cr();
        case 0x88 => MarkTab(true);
        case 0x8D => Ri();
        case 0x9B => state := Csi;
        case _ =>
      }
    }

    method AfterEscape(c: char)
      requires Valid()
      modifies this, screen, tabs
      ensures Now() == Escape(d, old(Now()), c) && Valid()
    {
      hide Inv, VcOk, RestOk, ParserOk, LineFeed, NewLine, ReverseLineFeed, Reset, SetTab, SaveCursor, RestoreCursor, IsReset;
      Parts();
      if '@' <= c <= 'D' {
        Lf();
      } else if c == 'M' {
        Ri();
      } else {
        match c {
          case 'E' => Nl();
          case 'c' => Ris();
          case '7' => Decsc();
          case '8' => Decrc();
          case 'H' => MarkTab(true);
          case 'N' => gs := sets.g2;
          case 'O' => gs := sets.g3;
          case _ => state := EscapeState(c, state);
        }
      }
    }

    /** The cursor motions. */
    method Move(c: char)
      requires Valid()
      modifies this`cur
      ensures Console() == Motion(d, old(Console()), c) && Valid()
      ensures par.Length >= 2 && Moves(d, old(Console()), c, old(par[0]), old(par[1]), Console())
    {
      hide Inv, VcOk, RestOk, ParserOk, Goto, GotoAbsolute, ToInt, Moves;
      Parts();
      MotionMeans(d, Console(), c);
      TwoPars();
      var x, y, p0, p1 := cur.x, cur.y, par[0], par[1];
      match c {
        case 'A' => GotoXy(ToInt(x), ToInt(y - At(p0)));
        case 'k' => GotoXy(ToInt(x), ToInt(y - At(p0)));
        case 'B' => GotoXy(ToInt(x), ToInt(y + At(p0)));
        case 'e' => GotoXy(ToInt(x), ToInt(y + At(p0)));
        case 'C' => GotoXy(ToInt(x + At(p0)), ToInt(y));
        case 'a' => GotoXy(ToInt(x + At(p0)), ToInt(y));
        case 'D' => GotoXy(ToInt(x - At(p0)), ToInt(y));
        case 'j' => GotoXy(ToInt(x - At(p0)), ToInt(y));
        case 'E' => GotoXy(ToInt(0), ToInt(y + At(p0)));
        case 'F' => GotoXy(ToInt(0), ToInt(y - At(p0)));
        case 'G' => GotoXy(ToInt(From1(p0)), ToInt(y));
        case '`' => GotoXy(ToInt(From1(p0)), ToInt(y));
        case 'H' => GotoXay(ToInt(From1(p1)), ToInt(From1(p0)));
        case 'f' => GotoXay(ToInt(From1(p1)), ToInt(From1(p0)));
        case 'd' => GotoXay(ToInt(x), ToInt(From1(p0)));
        case _ =>
      }
      VcInv(d, old(Now()), Console());
    }

    /** The commands that edit the screen. */
    method Edit(c: char)
      requires Valid()
      modifies this`cur, screen
      ensures Now() == Editing(d, old(Now()), c) && Valid()
      ensures par.Length >= 2 && Edits(d, old(Now()), c, old(par[0]), Now())
    {
      hide Inv, VcOk, ParserOk, DriverOk, RestOk, Size, InsertCharacters, DeleteCharacters, EraseInPage, EraseInLine,
           EraseCharacters, LineFeeds, InsertLines, DeleteLines, Edits, RowInserted, RowDeleted, CharactersErased, PageErased,
           LineErased, LinesInserted, LinesDeleted;
      Parts();
      EditingMeans(d, Now(), c);
      TwoPars();
      match c {
        case '@' => InsertChar(Count(par[0], d.cols - cur.x));
        case 'J' => Ed(par[0]);
        case 'K' => El(par[0]);
        case 'L' => Il(par[0]);
        case 'M' => Dl(par[0]);
        case 'P' => DeleteChar(Count(par[0], d.cols - cur.x));
        case 'X' => Ech(par[0]);
        case 'Y' => Cvt(Times(At(par[0])));
        case _ =>
      }
    }

    /** The other control sequences without a private marker. */
    method Other(c: char)
      requires Valid()
      modifies this, tabs
      ensures Console() == StandardVc(d, old(Console()), c) && Valid()
    {
      hide Inv, VcOk, RestOk, ParserOk, TabForward, SetTab, ClearTabs, TabBack, Setterm, Sgr, SetMargins, Intermediate,
           SaidBy, Given;
      Parts();
      TwoPars();
      match c {
        case 'I' => Tab(Times(At(par[0])));
        case 'W' =>
          match par[0] {
            case 0 => MarkTab(true);
            case 2 => Tbc(0);
            case 5 => Tbc(5);
            case _ =>
          }
        case 'Z' => BackTab(Times(par[0]));
        case 'g' => Tbc(par[0]);
        case ']' => SetColors();
        case 'm' => SelectRendition();
        case 'r' => Decstbm();
        case _ =>
          state := Intermediate(c);
          VcInv(d, old(Now()), Console());
      }
    }

    method FinalByte(c: char)
      requires Valid()
      modifies this, screen, tabs
      ensures Now() == Final(d, old(Now()), c) && Valid()
    {
      hide Inv, VcOk, RestOk, ParserOk, SetMode, Editing, Motion, StandardVc, IsEditing, IsMotion, Given, ModesSet;
      Parts();
      if c == 'h' || c == 'l' {
        SetModes(c == 'h');
      } else if priv == Question && c == '$' {
        state := CsiDollar;
      } else if priv == Question && (c == 'J' || c == 'K') {
        // DECSED and DECSEL are not implemented
      } else if priv != Public && priv != Question && c == 'n' {
        // a report that is not for this marker
      } else if priv != Public {
        priv := Public;
      } else if IsEditing(c) {
        Edit(c);
      } else if IsMotion(c) {
        Move(c);
      } else {
        Other(c);
      }
    }

    method ReadParameters(c: char)
      requires Valid() && state == Getpars
      modifies this, screen, tabs, par
      ensures Now() == Parameters(d, old(Now()), c) && Valid()
    {
      hide Inv, VcOk, RestOk, ParserOk, ReadParameter, Final;
      Parts();
      if (c == ';' && npar < NPAR - 1) || IsDigit(c) {
        GetPar(c);
      } else {
        VcInv(d, Now(), Enter(d, Console(), Init));
        state := Init;
        FinalByte(c);
      }
    }

    /** The byte after CSI. */
    method Introduction(c: char)
      requires Valid() && state == Csi
      modifies this, screen, tabs, par
      ensures Now() == Introduced(d, old(Now()), c) && Valid()
    {
      hide Inv, VcOk, RestOk, ParserOk, Parameters;
      Parts();
      VcInv(d, Now(), Introduce(d, Console(), c));
      ClearPars();
      state := Getpars;
      if c == '[' {
        state := Funckey;
        return;
      }
      priv := Marker(c);
      if c == '<' {
        state := Init;
        return;
      }
      if priv == Public {
        ReadParameters(c);
      }
    }

    /** The states that touch neither screen nor tab stops. */
    method Quiet(c: char)
      requires Valid() && !(state in {Esc, Csi, Getpars, CsiExclam, Scf})
      modifies this, par, palette
      ensures Console() == ByStateVc(d, old(Console()), c) && Valid()
    {
      hide Inv, VcOk, RestOk, ParserOk, InPalette, SetLevel, Designate;
      Parts();
      var was := state;
      VcInv(d, Now(), Enter(d, Console(), Init));
      if state == Palette {
        PaletteChar(c);
        return;
      }
      state := Init;
      match was {
        case Acs =>
          if (c == 'F' || c == 'G') && modes.decscl != 1 {
            modes := modes.(c8bit := c == 'G');
          }
        case Osc =>
          if c == 'P' {
            StartPalette();
          } else if c == 'R' {
            ResetPalette();
          }
        case CsiDquote =>
          if c == 'p' {
            Level();
          }
        case Docs =>
          if c == '@' {
            modes := modes.(utf := false);
          } else if c == 'G' || c == '8' {
            modes := modes.(utf := true);
          }
        case Gzd4 => DesignateSet(0, c);
        case G1d4 => DesignateSet(1, c);
        case _ =>
      }
      VcInv(d, old(Now()), Console());
    }

    /** The start of a palette escape sequence. */
    method StartPalette()
      requires Valid() && state == Init
      modifies this`npar, this`state, par
      ensures Console() == OperatingSystem(d, old(Console()), 'P') && Valid()
    {
      hide Inv, VcOk, RestOk, ParserOk, PaletteOk;
      Parts();
      ZeroOk(ParserNow());
      ClearPars();
      state := Palette;
      VcInv(d, old(Now()), Console());
    }

    method InState(c: char)
      requires Valid()
      modifies this, screen, tabs, par, palette
      ensures Now() == ByState(d, old(Now()), c) && Valid()
    {
      hide Inv, VcOk, RestOk, ParserOk, Escape, Introduced, Parameters, Reset, Alignment, ByStateVc, IsReset;
      Parts();
      VcInv(d, Now(), Enter(d, Console(), Init));
      match state {
        case Esc =>
          state := Init;
          AfterEscape(c);
        case Csi => Introduction(c);
        case Getpars => ReadParameters(c);
        case CsiExclam =>
          state := Init;
          if c == 'p' {
            Ris();
          }
        case Scf =>
          state := Init;
          if c == '8' {
            Align();
          }
        case _ => Quiet(c);
      }
    }

    /** terminal_emulation */
    method TerminalEmulation(c: int)
      requires Valid()
      modifies this, screen, tabs, par, palette
      ensures Now() == Emulate(d, old(Now()), c) && Valid()
    {
      hide Inv, C0, C1, ByState, AsChar;
      if IsC0(c) {
        Control0(c);
      } else if modes.c8bit && IsC1(c) {
        Control1(c);
      } else {
        InState(AsChar(c));
      }
    }

    // ---- the write loop ----

    method PutGlyph(glyph: int)
      requires Valid()
      modifies this`cur, screen
      ensures Now() == Put(d, old(Now()), glyph) && Valid()
    {
      hide Inv, VcOk, RestOk, ParserOk, DriverOk, Size, NewLine, InsertCharacters, Here, CursorOk;
      if cur.needWrap {
        Nl();
      }
      RoomForOne(d, Now());
      if modes.irm {
        InsertChar(1);
      }
      Parts();
      HereIs(d, cur);
      screen[Here(d, cur)] := d.compose(attr, glyph);
      if cur.x == d.cols - 1 {
        cur := cur.(needWrap := modes.decawm);
      } else {
        cur := cur.(x := cur.x + 1, pos := cur.pos + 2);
      }
    }

    /** do_con_write */
    method DoConWrite(buf: seq<Utf8.byte>)
      requires Valid()
      modifies this, screen, tabs, par, palette
      ensures Now() == Run(d, old(Now()), buf) && Valid()
    {
      hide Inv, Step;
      for n := 0 to |buf|
        invariant Valid() && Run(d, Now(), buf[n..]) == Run(d, old(Now()), buf)
      {
        assert buf[n..][0] == buf[n] && buf[n..][1..] == buf[n + 1..];
        WriteByte(buf[n]);
      }
    }

    method WriteByte(b: Utf8.byte)
      requires Valid()
      modifies this, screen, tabs, par, palette
      ensures Now() == Step(d, old(Now()), b) && Valid()
    {
      hide Inv, VcOk, RestOk, ParserOk, Put, Emulate, Shown, HasGlyph, Glyph, Utf8.Step, Utf8.Sound;
      Parts();
      DecoderPart(d, Console());
      var c: int := b;
      if state == Init {
        if Shown(modes, c) {
          if HasGlyph(d, Glyph(d, c)) {
            PutGlyph(Glyph(d, c));
          }
          return;
        }
      } else if modes.utf {
        Utf8.StepSound(decoder, b);
        var (u, o) := Utf8.Step(decoder, b);
        VcInv(d, Now(), WithDecoder(d, Console(), u));
        decoder := u;
        if o.None? {
          return;
        }
        c := o.value;
      }
      TerminalEmulation(c);
    }
  }

  lemma RoomForOne(d: Driver, s: State)
    ensures Inv(d, s) ==> 1 <= d.cols - s.vc.cur.x
  {
    hide VcOk, Size, DriverOk;
    InvParts(d, s);
  }

  lemma ZeroOk(p: Parser)
    ensures ParserOk(p) ==> ParserOk(p.(npar := 0, par := NoPars())) && ParserOk(p.(npar := 0, par := NoPars(), state := Palette))
  {
  }

  lemma DigitStored(p: Parser, n: int)
    ensures ParserOk(p) && p.state == Palette && 0 <= n < 16 ==>
              PaletteDigit(p, n) == p.(par := p.par[p.npar := n], npar := p.npar + 1)
  {
  }

  lemma PaletteSizes(d: Driver, p: seq<int>)
    ensures PaletteOk(p) && PaletteOk(d.palette) ==> |p| == |d.palette|
  {
  }

  lemma ReturnedIs(d: Driver, s: State)
    requires Inv(d, s)
    ensures VcOk(d, s.vc) && Returned(d, s) == s.(vc := CarriageReturn(d, s.vc))
  {
    hide Inv, VcOk, CarriageReturn;
    InvRest(d, s);
  }

  /** The states that a character after ESC leads to. */
  function EscapeState(c: char, otherwise: Es): Es {
    match c
    case ' ' => Acs
    case '#' => Scf
    case '%' => Docs
    case '(' => Gzd4
    case ')' => G1d4
    case '[' => Csi
    case ']' => Osc
    case _ => otherwise
  }
}
