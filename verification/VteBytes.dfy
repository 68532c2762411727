/** What byte strings do, from any state of the emulator: control characters, escape sequences and control
    sequences with their parameters written out (drivers/char/decvte.c:1072-2049). */
module VteBytes {
  import opened VteState
  import opened VteScreen
  import opened VteCommands
  import opened VteParser
  import opened VteMeaning
  import opened VteSequences
  import opened VteEffects
  import opened VteText
  import opened VteLook
  import opened VteLimits
  import Utf8

  // ---- control characters ----

  /** The cursor has gone to (x, y) and nothing else has changed, but that the wrap is no longer pending. */
  ghost predicate CursorAt(d: Driver, s: State, r: State, x: int, y: int) {
    r == s.(vc := s.vc.(cur := Cursor(x, y, d.origin + y * (2 * d.cols) + 2 * x, false)))
  }

  /** A character that is acted on when no sequence has begun. */
  lemma ActsAlone(d: Driver, s: State, b: Utf8.byte)
    requires Inv(d, s) && s.vc.parser.state == Init && b in [8, 10, 12, 13, 14, 15]
    ensures Run(d, s, [b]) == C0(d, s, b)
  {
    hide Inv, C0, ByState, Put, C1;
    RunOne(d, s, b);
    assert !Shown(s.vc.modes, b);
  }

  /** BS and CR. */
  lemma ReturnMeans(d: Driver, s: State)
    requires Inv(d, s) && s.vc.parser.state == Init
    ensures CursorAt(d, s, Run(d, s, [13]), 0, s.vc.cur.y)
    ensures s.vc.cur.x > 0 ==> CursorAt(d, s, Run(d, s, [8]), s.vc.cur.x - 1, s.vc.cur.y)
    ensures s.vc.cur.x == 0 ==> Run(d, s, [8]) == s
  {
    hide Inv, Run, RestOk;
    InvRest(d, s);
    ActsAlone(d, s, 13);
    ActsAlone(d, s, 8);
  }

  /** HT goes to the next tab stop. */
  lemma TabMeans(d: Driver, s: State)
    requires Inv(d, s) && s.vc.parser.state == Init && (s.vc.modes.utf || !s.vc.modes.dispCtrl)
    ensures |s.vc.tabs| >= d.cols && 0 <= s.vc.cur.x < d.cols
    ensures var r := Run(d, s, [9]);
            r == s.(vc := s.vc.(cur := r.vc.cur)) && r.vc.cur.y == s.vc.cur.y &&
            r.vc.cur.x == NextTab(s.vc.tabs, s.vc.cur.x, d.cols - 1)
  {
    hide Inv, VcOk, TabForward, Put, C1, ByState, NextTab;
    InvRest(d, s);
    TabsPart(d, s.vc);
    RunOne(d, s, 9);
    assert !Shown(s.vc.modes, 9);
    OneTab(d, s.vc);
  }

  lemma OneTab(d: Driver, vc: Vc)
    requires VcOk(d, vc)
    ensures |vc.tabs| >= d.cols && 0 <= vc.cur.x < d.cols
    ensures var r := TabForward(d, vc, 1);
            r.cur.y == vc.cur.y && r.cur.x == NextTab(vc.tabs, vc.cur.x, d.cols - 1)
  {
    hide VcOk, MoveTo, NextTab;
    TabsPart(d, vc);
    var (t, x, last) := (vc.tabs, vc.cur.x, d.cols - 1);
    assert TabsForward(t, x, last, 1) == NextTab(t, TabsForward(t, x, last, 0), last);
  }

  /** SO and SI take G1 and G0 into use, and let control characters show or not. */
  lemma ShiftMeans(d: Driver, s: State)
    requires Inv(d, s) && s.vc.parser.state == Init
    ensures Run(d, s, [14]) == s.(vc := s.vc.(sets := s.vc.sets.(active := 1), translate := s.vc.sets.g1, modes := s.vc.modes.(dispCtrl := true)))
    ensures Run(d, s, [15]) == s.(vc := s.vc.(sets := s.vc.sets.(active := 0), translate := s.vc.sets.g0, modes := s.vc.modes.(dispCtrl := false)))
  {
    hide Inv, Run, VcOk, SetOk;
    InvRest(d, s);
    ActsAlone(d, s, 14);
    ActsAlone(d, s, 15);
  }

  // ---- line feeds ----

  /** The place after a line feed: one row down, but not past the bottom margin or the screen. */
  lemma LineFeedMoves(d: Driver, s: State)
    requires Inv(d, s)
    ensures var (y, r) := (s.vc.cur.y, LineFeed(d, s));
            r.vc == s.vc.(cur := r.vc.cur) && r.vc.cur.x == s.vc.cur.x && !r.vc.cur.needWrap &&
            r.vc.cur.y == (if y + 1 == s.vc.bottom || y + 1 == d.rows then y else y + 1) &&
            (y + 1 != s.vc.bottom ==> r.cells == s.cells)
  {
    hide Inv, VcOk, DriverOk, ScrolledUp, Size;
    InvParts(d, s);
  }

  lemma ReverseLineFeedMoves(d: Driver, s: State)
    requires Inv(d, s)
    ensures var (y, r) := (s.vc.cur.y, ReverseLineFeed(d, s));
            r.vc == s.vc.(cur := r.vc.cur) && r.vc.cur.x == s.vc.cur.x && !r.vc.cur.needWrap &&
            r.vc.cur.y == (if y == s.vc.top || y == 0 then y else y - 1) &&
            (y != s.vc.top ==> r.cells == s.cells)
  {
    hide Inv, VcOk, DriverOk, ScrolledDown, Size;
    InvParts(d, s);
  }

  /** LF, with the return that line feed mode adds. */
  lemma FeedMeans(d: Driver, s: State)
    requires Inv(d, s) && s.vc.parser.state == Init
    ensures var (l, r) := (LineFeed(d, s), Run(d, s, [10]));
            r == Run(d, s, [12]) && (!s.vc.modes.crlf ==> r == l) &&
            (s.vc.modes.crlf ==> CursorAt(d, l, r, 0, l.vc.cur.y))
  {
    hide Inv, Run, RestOk, LineFeed;
    ActsAlone(d, s, 10);
    ActsAlone(d, s, 12);
    InvRest(d, LineFeed(d, s));
  }

  /** IND, NEL, RI: line feed, start of the next line, line feed upwards. */
  lemma EscapeFeeds(d: Driver, s: State)
    requires Inv(d, s)
    ensures var e := Opened(s, Init);
            Inv(d, e) && Run(d, s, [0x1B, 'D' as int]) == LineFeed(d, e) && Run(d, s, [0x1B, 'M' as int]) == ReverseLineFeed(d, e) &&
            var r := Run(d, s, [0x1B, 'E' as int]);
            r.vc.cur.x == 0 && r.vc.cur.y == LineFeed(d, e).vc.cur.y && r.cells == LineFeed(d, e).cells
  {
    hide Inv, Run, LineFeed, ReverseLineFeed, NewLine;
    RunEscape(d, s, 'D');
    RunEscape(d, s, 'M');
    RunEscape(d, s, 'E');
    NewLineFeeds(d, Opened(s, Init));
  }

  lemma NewLineFeeds(d: Driver, s: State)
    requires Inv(d, s)
    ensures NewLine(d, s).vc.cur.y == LineFeed(d, s).vc.cur.y && NewLine(d, s).cells == LineFeed(d, s).cells
    ensures NewLine(d, s).vc.cur.x == 0
  {
    hide Inv, VcOk, DriverOk, ScrolledUp, Size;
    InvParts(d, s);
  }

  // ---- character sets ----

  /** ESC, an intermediate character that leads to state es, and a final one. */
  lemma RunTwo(d: Driver, s: State, c: char, es: Es, c2: char)
    requires Inv(d, s) && IsAscii(c) && IsAscii(c2) && es != Palette && es != Init
    requires Escape(d, Escaped(d, s), c) == Opened(s, es)
    ensures Inv(d, Opened(s, es)) && Run(d, s, [0x1B, c as int, c2 as int]) == ByState(d, Opened(s, es), c2)
  {
    hide Inv, Step, ByState, Escape;
    RunEscape(d, s, c);
    assert [0x1B, c as int, c2 as int] == [0x1B, c as int] + [c2 as int];
    RunConcat(d, s, [0x1B, c as int], [c2 as int]);
    RunOne(d, Opened(s, es), c2 as int);
    StepInside(d, Opened(s, es), c2);
  }

  function Escaped(d: Driver, s: State): (r: State)
    requires Inv(d, s)
    ensures Inv(d, r) && r == Opened(s, Init)
  {
    EscapedInv(d, s);
    Opened(s, Init)
  }

  /** The sets that a final character designates: 0 graphics, A and B Latin-1, U the PC's, K the user's. */
  function SetNamed(c: char): int {
    if c == '0' then 1 else if c == 'U' then 2 else if c == 'K' then 3 else 0
  }

  /** ESC ( and ESC ) designate G0 and G1; if that is the set in use, the one in use changes with it. */
  lemma DesignateG0(d: Driver, s: State, c: char)
    requires Inv(d, s) && c in "0ABUK"
    ensures var (r, e, n) := (Run(d, s, [0x1B, '(' as int, c as int]), Opened(s, Init), SetNamed(c));
            r == e.(vc := e.vc.(sets := s.vc.sets.(g0 := n), translate := if s.vc.sets.active == 0 then n else s.vc.translate))
  {
    hide Inv, VcOk, Run, ByStateVc;
    InvRest(d, Escaped(d, s));
    RunTwo(d, s, '(', Gzd4, c);
    InvRest(d, Opened(s, Gzd4));
    Designates(d, Opened(s, Gzd4).vc, c);
  }

  lemma DesignateG1(d: Driver, s: State, c: char)
    requires Inv(d, s) && c in "0ABUK"
    ensures var (r, e, n) := (Run(d, s, [0x1B, ')' as int, c as int]), Opened(s, Init), SetNamed(c));
            r == e.(vc := e.vc.(sets := s.vc.sets.(g1 := n), translate := if s.vc.sets.active == 1 then n else s.vc.translate))
  {
    hide Inv, VcOk, Run, ByStateVc;
    InvRest(d, Escaped(d, s));
    RunTwo(d, s, ')', G1d4, c);
    InvRest(d, Opened(s, G1d4));
    Designates(d, Opened(s, G1d4).vc, c);
    InvRest(d, s);
    ActiveOne(d, s.vc);
  }

  lemma ActiveOne(d: Driver, vc: Vc)
    ensures VcOk(d, vc) ==> vc.sets.active == 0 || vc.sets.active == 1
  {
  }

  lemma Designates(d: Driver, vc: Vc, c: char)
    requires VcOk(d, vc) && c in "0ABUK" && vc.parser.state in {Gzd4, G1d4}
    ensures var (r, n) := (ByStateVc(d, vc, c), SetNamed(c));
            if vc.parser.state == Gzd4 then
              r == vc.(parser := vc.parser.(state := Init), sets := vc.sets.(g0 := n),
                       translate := if vc.sets.active == 0 then n else vc.translate)
            else
              r == vc.(parser := vc.parser.(state := Init), sets := vc.sets.(g1 := n),
                       translate := if vc.sets.active == 1 then n else vc.translate)
  {
    hide VcOk, SetOk;
    SetsPart(d, vc);
    assert c == '0' || c == 'A' || c == 'B' || c == 'U' || c == 'K';
  }

  /** Entering and leaving UTF-8. */
  lemma CodingMeans(d: Driver, s: State)
    requires Inv(d, s)
    ensures var e := Opened(s, Init);
            Run(d, s, [0x1B, '%' as int, 'G' as int]) == e.(vc := e.vc.(modes := s.vc.modes.(utf := true))) &&
            Run(d, s, [0x1B, '%' as int, '@' as int]) == e.(vc := e.vc.(modes := s.vc.modes.(utf := false)))
  {
    hide Inv, VcOk, Run, ByStateVc;
    InvRest(d, Escaped(d, s));
    RunTwo(d, s, '%', Docs, 'G');
    RunTwo(d, s, '%', Docs, '@');
    InvRest(d, Opened(s, Docs));
    CodingState(d, Opened(s, Docs).vc);
  }

  lemma CodingState(d: Driver, vc: Vc)
    requires VcOk(d, vc) && vc.parser.state == Docs
    ensures ByStateVc(d, vc, 'G') == vc.(parser := vc.parser.(state := Init), modes := vc.modes.(utf := true))
    ensures ByStateVc(d, vc, '@') == vc.(parser := vc.parser.(state := Init), modes := vc.modes.(utf := false))
  {
    hide VcOk;
  }

  /** 8-bit and 7-bit controls: at the first conformance level they stay as they are. */
  lemma EightBitAnnounced(d: Driver, s: State)
    requires Inv(d, s)
    ensures var (e, m) := (Opened(s, Init), s.vc.modes);
            Run(d, s, [0x1B, ' ' as int, 'G' as int]) == e.(vc := e.vc.(modes := m.(c8bit := m.c8bit || m.decscl != 1)))
  {
    hide Inv, VcOk, Run, ByStateVc;
    InvRest(d, Escaped(d, s));
    RunTwo(d, s, ' ', Acs, 'G');
    InvRest(d, Opened(s, Acs));
    AnnounceState(d, Opened(s, Acs).vc);
  }

  lemma SevenBitAnnounced(d: Driver, s: State)
    requires Inv(d, s)
    ensures var (e, m) := (Opened(s, Init), s.vc.modes);
            Run(d, s, [0x1B, ' ' as int, 'F' as int]) == e.(vc := e.vc.(modes := m.(c8bit := m.c8bit && m.decscl == 1)))
  {
    hide Inv, VcOk, Run, ByStateVc;
    InvRest(d, Escaped(d, s));
    RunTwo(d, s, ' ', Acs, 'F');
    InvRest(d, Opened(s, Acs));
    AnnounceState(d, Opened(s, Acs).vc);
  }

  lemma AnnounceState(d: Driver, vc: Vc)
    requires VcOk(d, vc) && vc.parser.state == Acs
    ensures var m := vc.modes;
            ByStateVc(d, vc, 'G') == vc.(parser := vc.parser.(state := Init), modes := m.(c8bit := m.c8bit || m.decscl != 1)) &&
            ByStateVc(d, vc, 'F') == vc.(parser := vc.parser.(state := Init), modes := m.(c8bit := m.c8bit && m.decscl == 1))
  {
    hide VcOk;
  }

  /** The alignment test fills the screen with Es in the colours of the erase character, which stays. */
  lemma AlignmentMeans(d: Driver, s: State)
    requires Inv(d, s) && Current(d, s.vc)
    ensures var r := Run(d, s, [0x1B, '#' as int, '8' as int]);
            r.vc == Unwrapped(Opened(s, Init).vc) && |r.cells| == |s.cells| &&
            forall i :: 0 <= i < |r.cells| ==> r.cells[i] == s.vc.erase - 32 + 69
  {
    hide Inv, VcOk, Run, Alignment, Current;
    InvRest(d, Escaped(d, s));
    RunTwo(d, s, '#', Scf, '8');
    InvRest(d, Opened(s, Scf));
    var e := Escaped(d, s);
    assert WithVc(d, Opened(s, Scf), Enter(d, Opened(s, Scf).vc, Init)) == e;
    SameLook(d, s.vc, e.vc);
    KeptCurrent(d, s.vc, e.vc);
    FilledWithEs(d, e);
  }

  lemma FilledWithEs(d: Driver, s: State)
    requires Inv(d, s) && Current(d, s.vc)
    ensures var r := Alignment(d, s);
            r.vc == Unwrapped(s.vc) && |r.cells| == |s.cells| && forall i :: 0 <= i < |r.cells| ==> r.cells[i] == s.vc.erase - 32 + 69
  {
    hide Inv, VcOk, EraseAll, WithErase;
    InvRest(d, s);
    var s1 := WithVc(d, s, WithErase(d, s.vc, s.vc.erase / 256 * 256 + 69));
    ErasedAll(d, s1);
    InvCells(d, s1, EraseAll(d, s1));
  }

  lemma InvCells(d: Driver, s: State, r: State)
    requires Inv(d, s) && Inv(d, r)
    ensures |s.cells| == |r.cells|
  {
    hide VcOk;
  }

  // ---- the palette ----

  /** ESC ] P and seven digits. */
  function PaletteBytes(n: seq<nat>): seq<Utf8.byte>
    requires |n| == 7 && forall i :: 0 <= i < 7 ==> n[i] < 16
  {
    [0x1B, ']' as int, 'P' as int] + HexBytes(n)
  }

  function HexBytes(n: seq<nat>): (r: seq<Utf8.byte>)
    requires forall i :: 0 <= i < |n| ==> n[i] < 16
    ensures |r| == |n|
  {
    seq(|n|, i requires 0 <= i < |n| => HexByte(n[i]))
  }

  function HexByte(v: nat): (b: Utf8.byte)
    requires v < 16
  {
    if v < 10 then 48 + v else 55 + v
  }

  lemma HexRead(v: nat)
    requires v < 16
    ensures IsAscii(HexByte(v) as char) && HexValue(HexByte(v) as char) == v
  {
  }

  /** The palette while digits are read: k of them are in vc_par. */
  ghost predicate ReadingPalette(d: Driver, s: State, n: seq<nat>, k: nat) {
    Inv(d, s) && Plain(s) && s.vc.parser.state == Palette && s.vc.parser.npar == k <= 6 && k <= |n| && ParserOk(s.vc.parser) &&
    forall i :: 0 <= i < k ==> s.vc.parser.par[i] == n[i]
  }

  lemma PaletteDigitRead(d: Driver, s: State, n: seq<nat>, k: nat)
    requires ReadingPalette(d, s, n, k) && k < 6 && k < |n| && n[k] < 16
    ensures var r := Run(d, s, [HexByte(n[k])]);
            ReadingPalette(d, r, n, k + 1) && r.vc.palette == s.vc.palette && r.cells == s.cells
  {
    hide Inv, VcOk, Step;
    HexRead(n[k]);
    var c := HexByte(n[k]) as char;
    StepInside(d, s, c);
    RunOne(d, s, HexByte(n[k]));
    InvRest(d, s);
    var r := Step(d, s, HexByte(n[k]));
    InvRest(d, r);
    ParserPart(d, r.vc);
  }

  lemma LastDigitRead(d: Driver, s: State, n: seq<nat>)
    requires |n| == 7 && ReadingPalette(d, s, n, 6) && n[6] < 16 && n[0] < 16
    ensures var (r, i) := (Run(d, s, [HexByte(n[6])]), 3 * n[0]);
            r.vc.parser.state == Init && r.cells == s.cells && |s.vc.palette| == 48 && i + 2 < 48 &&
            r.vc.palette == s.vc.palette[i := 16 * n[1] + n[2]][i + 1 := 16 * n[3] + n[4]][i + 2 := 16 * n[5] + n[6]]
  {
    hide Inv, VcOk, Step;
    HexRead(n[6]);
    var c := HexByte(n[6]) as char;
    StepInside(d, s, c);
    RunOne(d, s, HexByte(n[6]));
    InvRest(d, s);
    PalettePart(d, s.vc);
  }

  lemma {:induction false} PaletteDigitsRead(d: Driver, s: State, n: seq<nat>, k: nat)
    requires |n| == 7 && (forall i :: 0 <= i < 7 ==> n[i] < 16) && k <= 6 && ReadingPalette(d, s, n, 0)
    ensures var r := Run(d, s, HexBytes(n[..k]));
            ReadingPalette(d, r, n, k) && r.vc.palette == s.vc.palette && r.cells == s.cells
  {
    hide Inv, VcOk, Step, Run, ReadingPalette;
    if k > 0 {
      PaletteDigitsRead(d, s, n, k - 1);
      ReadingInv2(d, s, n, 0);
      assert HexBytes(n[..k]) == HexBytes(n[..k - 1]) + [HexByte(n[k - 1])];
      RunConcat(d, s, HexBytes(n[..k - 1]), [HexByte(n[k - 1])]);
      PaletteDigitRead(d, Run(d, s, HexBytes(n[..k - 1])), n, k - 1);
    } else {
      ReadingInv2(d, s, n, 0);
      assert HexBytes(n[..0]) == [];
      RunNothing(d, s);
    }
  }

  lemma RunNothing(d: Driver, s: State)
    requires Inv(d, s)
    ensures Run(d, s, []) == s
  {
    hide Inv, Step;
  }

  lemma ReadingInv2(d: Driver, s: State, n: seq<nat>, k: nat)
    requires ReadingPalette(d, s, n, k)
    ensures Inv(d, s)
  {
  }

  /** From any state, ESC ] P n rr gg bb gives colour n the three values and no other colour anything. */
  lemma PaletteMeans(d: Driver, s: State, n: seq<nat>)
    requires Inv(d, s) && |n| == 7 && forall i :: 0 <= i < 7 ==> n[i] < 16
    ensures var (r, i) := (Run(d, s, PaletteBytes(n)), 3 * n[0]);
            r.vc.parser.state == Init && r.cells == s.cells && |s.vc.palette| == 48 && i + 2 < 48 &&
            r.vc.palette == s.vc.palette[i := 16 * n[1] + n[2]][i + 1 := 16 * n[3] + n[4]][i + 2 := 16 * n[5] + n[6]]
  {
    hide Inv, VcOk, Step, Run, ReadingPalette, HexBytes;
    PaletteBegun(d, s, n);
    var s1 := Run(d, s, [0x1B, ']' as int, 'P' as int]);
    RunConcat(d, s, [0x1B, ']' as int, 'P' as int], HexBytes(n));
    PaletteDigitsRead(d, s1, n, 6);
    LastHex(n);
    RunConcat(d, s1, HexBytes(n[..6]), [HexByte(n[6])]);
    LastDigitRead(d, Run(d, s1, HexBytes(n[..6])), n);
  }

  lemma LastHex(n: seq<nat>)
    requires |n| == 7 && forall i :: 0 <= i < 7 ==> n[i] < 16
    ensures HexBytes(n) == HexBytes(n[..6]) + [HexByte(n[6])]
  {
  }

  function PaletteOpen(s: State): State {
    var e := Opened(s, Palette);
    e.(vc := e.vc.(parser := e.vc.parser.(npar := 0, par := NoPars())))
  }

  lemma PaletteOpens(d: Driver, s: State)
    requires Inv(d, s)
    ensures Run(d, s, [0x1B, ']' as int, 'P' as int]) == PaletteOpen(s)
  {
    hide Inv, VcOk, Run, ByStateVc, NoPars;
    InvRest(d, Escaped(d, s));
    RunTwo(d, s, ']', Osc, 'P');
    InvRest(d, Opened(s, Osc));
    OscState(d, Opened(s, Osc).vc);
  }

  lemma PaletteBegun(d: Driver, s: State, n: seq<nat>)
    requires Inv(d, s)
    ensures var r := Run(d, s, [0x1B, ']' as int, 'P' as int]);
            ReadingPalette(d, r, n, 0) && r.vc.palette == s.vc.palette && r.cells == s.cells
  {
    hide Inv, VcOk, Run;
    PaletteOpens(d, s);
    var r := Run(d, s, [0x1B, ']' as int, 'P' as int]);
    InvRest(d, r);
    ParserPart(d, r.vc);
  }

  lemma OscState(d: Driver, vc: Vc)
    requires VcOk(d, vc) && vc.parser.state == Osc
    ensures ByStateVc(d, vc, 'P') == vc.(parser := vc.parser.(state := Palette, npar := 0, par := NoPars()))
    ensures ByStateVc(d, vc, 'R') == vc.(parser := vc.parser.(state := Init), palette := d.palette)
  {
    hide VcOk, NoPars;
  }

  /** ESC ] R puts the default palette back. */
  lemma PaletteReset(d: Driver, s: State)
    requires Inv(d, s)
    ensures Run(d, s, [0x1B, ']' as int, 'R' as int]) == Opened(s, Init).(vc := Opened(s, Init).vc.(palette := d.palette))
  {
    hide Inv, VcOk, Run, ByStateVc;
    InvRest(d, Escaped(d, s));
    RunTwo(d, s, ']', Osc, 'R');
    InvRest(d, Opened(s, Osc));
    OscState(d, Opened(s, Osc).vc);
  }
}
