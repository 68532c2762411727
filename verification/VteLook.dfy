/** Whether what is written looks as it should: the attribute of the glyphs to come and the cell that
    erases follow the rendition in force, over any byte stream (drivers/char/vt.c:379-424). */
module VteLook {
  import opened VteState
  import opened VteScreen
  import opened VteCommands
  import opened VteParser
  import opened VteMeaning
  import Utf8

  /** A driver for which the colour of underlined and that of dim text show only in such text. */
  ghost predicate Frugal(d: Driver) {
    forall c: Colors, c': Colors, r: Rendition ::
      (r.underline ==> c.underlined == c'.underlined) && (!r.underline && r.intensity == 0 ==> c.half == c'.half) ==>
        d.build(c, r) == d.build(c', r)
  }

  ghost predicate Keeps(d: Driver, a: Vc, b: Vc) {
    Current(d, a) ==> Current(d, b)
  }

  lemma SameLook(d: Driver, a: Vc, b: Vc)
    requires b.rend == a.rend && b.colors == a.colors && b.attr == a.attr && b.erase == a.erase && b.modes.decscnm == a.modes.decscnm
    ensures Keeps(d, a, b)
  {
  }

  lemma OnlyCursor(d: Driver, a: Vc, b: Vc)
    requires b == a.(cur := b.cur)
    ensures Keeps(d, a, b)
  {
  }

  lemma KeepsOn(d: Driver, a: Vc, b: Vc, c: Vc)
    requires Keeps(d, a, b) && Keeps(d, b, c)
    ensures Keeps(d, a, c)
  {
  }

  // ---- commands ----

  lemma SettermKeeps(d: Driver, vc: Vc)
    requires VcOk(d, vc) && Frugal(d)
    ensures Keeps(d, vc, Setterm(d, vc))
  {
    hide VcOk, ParserOk, ColorTable;
  }

  lemma SetLevelKeeps(d: Driver, vc: Vc)
    requires VcOk(d, vc)
    ensures Keeps(d, vc, SetLevel(d, vc))
  {
    hide VcOk, ParserOk, WithModes;
  }

  lemma MarginsKeep(d: Driver, vc: Vc)
    requires VcOk(d, vc)
    ensures Keeps(d, vc, SetMargins(d, vc))
  {
    hide DriverOk, PaletteOk, SetsOk, SetOk, Utf8.Sound, ParserOk, GotoAbsolute;
  }

  lemma TabsKeep(d: Driver, vc: Vc, par: int, on: bool)
    requires VcOk(d, vc)
    ensures Keeps(d, vc, SetTab(d, vc, on)) && Keeps(d, vc, ClearTabs(d, vc, par)) && Keeps(d, vc, TabControl(d, vc, par))
  {
    hide VcOk, WithTabs, ClearedTabs;
  }

  lemma AlignmentKeeps(d: Driver, s: State)
    requires Inv(d, s)
    ensures Keeps(d, s.vc, Alignment(d, s).vc)
  {
    hide Inv, VcOk, EraseAll, WithErase;
    InvRest(d, s);
  }

  lemma StandardKeeps(d: Driver, vc: Vc, c: char)
    requires VcOk(d, vc) && Frugal(d)
    ensures Keeps(d, vc, StandardVc(d, vc, c))
  {
    hide VcOk, ParserOk, TabForward, TabControl, TabBack, ClearTabs, Setterm, Sgr, SetMargins, Enter, Intermediate, Keeps;
    ParserPart(d, vc);
    var r := StandardVc(d, vc, c);
    match c {
      case 'I' => OnlyCursor(d, vc, r);
      case 'W' => TabsKeep(d, vc, Pars(vc.parser).0, true);
      case 'Z' => OnlyCursor(d, vc, r);
      case 'g' => TabsKeep(d, vc, Pars(vc.parser).0, true);
      case ']' => SettermKeeps(d, vc);
      case 'm' =>
        SgrCurrent(d, vc);
        MadeCurrent(d, vc, r);
      case 'r' => MarginsKeep(d, vc);
      case _ => SameLook(d, vc, r);
    }
  }

  lemma MadeCurrent(d: Driver, a: Vc, b: Vc)
    requires Current(d, b)
    ensures Keeps(d, a, b)
  {
  }

  lemma FinalKeeps(d: Driver, s: State, c: char)
    requires Inv(d, s) && Frugal(d)
    ensures Keeps(d, s.vc, Final(d, s, c).vc)
  {
    hide Inv, VcOk, SetMode, ParserOk, Given, Motion, Editing, StandardVc, IsMotion, IsEditing, Keeps, Current, ModesSet;
    InvRest(d, s);
    ParserPart(d, s.vc);
    var r := Final(d, s, c).vc;
    if c == 'h' || c == 'l' {
      SetModeCurrent(d, s, c == 'h', Given(s.vc.parser));
      MadeKeeps(d, s.vc, r);
    } else if s.vc.parser.priv != Public {
      SameLook(d, s.vc, r);
    } else if IsEditing(c) {
      OnlyCursor(d, s.vc, r);
    } else if IsMotion(c) {
      OnlyCursor(d, s.vc, r);
    } else {
      StandardKeeps(d, s.vc, c);
    }
  }

  lemma MadeKeeps(d: Driver, a: Vc, b: Vc)
    requires Current(d, a) ==> Current(d, b)
    ensures Keeps(d, a, b)
  {
  }

  // ---- the parser's states ----

  lemma SetsKeep(d: Driver, vc: Vc, c: char)
    requires VcOk(d, vc)
    ensures Keeps(d, vc, ShiftOut(d, vc, 0)) && Keeps(d, vc, ShiftOut(d, vc, 1))
    ensures Keeps(d, vc, Designate(d, vc, 0, c)) && Keeps(d, vc, Designate(d, vc, 1, c))
  {
    hide VcOk, WithSets, WithModes, Designated, SetOk;
  }

  lemma CodingKeeps(d: Driver, vc: Vc, c: char)
    requires VcOk(d, vc)
    ensures Keeps(d, vc, Announce(d, vc, c)) && Keeps(d, vc, Coding(d, vc, c))
  {
    hide VcOk, WithModes;
  }

  lemma PaletteKeeps(d: Driver, vc: Vc, c: char)
    requires VcOk(d, vc)
    ensures Keeps(d, vc, OperatingSystem(d, vc, c))
    ensures vc.parser.state == Palette ==> Keeps(d, vc, InPalette(d, vc, c))
  {
    hide VcOk, Enter, WithParser, WithPalette, Recolored, ParserOk, PaletteOk, PaletteDigit, NoPars, HexValue;
  }

  lemma ByStateVcKeeps(d: Driver, vc: Vc, c: char)
    requires VcOk(d, vc)
    ensures Keeps(d, vc, ByStateVc(d, vc, c))
  {
    hide VcOk, Enter, Announce, OperatingSystem, InPalette, SetLevel, Coding, Designate, Keeps;
    var vc0 := Enter(d, vc, Init);
    SameLook(d, vc, vc0);
    SetsKeep(d, vc0, c);
    CodingKeeps(d, vc0, c);
    PaletteKeeps(d, vc0, c);
    PaletteKeeps(d, vc, c);
    SetLevelKeeps(d, vc0);
    if vc.parser.state != Palette {
      var r := ByStateVc(d, vc, c);
      if r != vc0 {
        KeepsOn(d, vc, vc0, r);
      }
    }
  }

  lemma EscapeVcKeeps(d: Driver, vc: Vc, c: char)
    requires VcOk(d, vc)
    ensures Keeps(d, vc, EscapeVc(d, vc, c))
  {
    hide VcOk, Enter, SaveCursor, RestoreCursor, SetTab, SingleShift, SetOk, Keeps, Current;
    SetsPart(d, vc);
    var r := EscapeVc(d, vc, c);
    match c {
      case '8' =>
        RestoreCurrent(d, vc);
        MadeKeeps(d, vc, r);
      case 'H' => TabsKeep(d, vc, 0, true);
      case 'N' => ShiftKeeps(d, vc, vc.sets.g2);
      case 'O' => ShiftKeeps(d, vc, vc.sets.g3);
      case _ => SameLook(d, vc, r);
    }
  }

  lemma ShiftKeeps(d: Driver, vc: Vc, g: int)
    requires VcOk(d, vc) && SetOk(g)
    ensures Keeps(d, vc, SingleShift(d, vc, g))
  {
    hide VcOk, WithSets;
  }

  lemma EscapeKeeps(d: Driver, s: State, c: char)
    requires Inv(d, s)
    ensures Keeps(d, s.vc, Escape(d, s, c).vc)
  {
    hide Inv, VcOk, LineFeed, NewLine, ReverseLineFeed, Reset, EscapeVc, Keeps, Current, IsReset;
    InvRest(d, s);
    var r := Escape(d, s, c).vc;
    if c == 'c' {
      ResetCurrent(d, s);
      MadeKeeps(d, s.vc, r);
    } else if '@' <= c <= 'E' || c == 'M' {
      OnlyCursor(d, s.vc, r);
    } else {
      EscapeVcKeeps(d, s.vc, c);
    }
  }

  lemma ParametersKeep(d: Driver, s: State, c: char)
    requires Inv(d, s) && s.vc.parser.state == Getpars && Frugal(d)
    ensures Keeps(d, s.vc, Parameters(d, s, c).vc)
  {
    hide Inv, VcOk, ReadParameter, Enter, Final, Continues, Keeps;
    InvRest(d, s);
    if Continues(s.vc.parser, c) {
      SameLook(d, s.vc, Parameters(d, s, c).vc);
    } else {
      var s1 := WithVc(d, s, Enter(d, s.vc, Init));
      SameLook(d, s.vc, s1.vc);
      FinalKeeps(d, s1, c);
      KeepsOn(d, s.vc, s1.vc, Final(d, s1, c).vc);
    }
  }

  lemma IntroducedKeeps(d: Driver, s: State, c: char)
    requires Inv(d, s) && Frugal(d)
    ensures Keeps(d, s.vc, Introduced(d, s, c).vc)
  {
    hide Inv, VcOk, WithParser, Parameters, Keeps, Marker;
    InvRest(d, s);
    var s1 := WithVc(d, s, Introduce(d, s.vc, c));
    SameLook(d, s.vc, s1.vc);
    if Marker(c) == Public && c != '[' {
      ParametersKeep(d, s1, c);
      KeepsOn(d, s.vc, s1.vc, Parameters(d, s1, c).vc);
    }
  }

  lemma ByStateKeeps(d: Driver, s: State, c: char)
    requires Inv(d, s) && Frugal(d)
    ensures Keeps(d, s.vc, ByState(d, s, c).vc)
  {
    hide Inv, VcOk, Enter, Escape, Introduced, Parameters, Reset, Alignment, ByStateVc, Keeps, Current;
    InvRest(d, s);
    var s0 := WithVc(d, s, if s.vc.parser.state == Palette then s.vc else Enter(d, s.vc, Init));
    SameLook(d, s.vc, s0.vc);
    var r := ByState(d, s, c).vc;
    match s.vc.parser.state {
      case Esc =>
        EscapeKeeps(d, s0, c);
        KeepsOn(d, s.vc, s0.vc, r);
      case Csi => IntroducedKeeps(d, s, c);
      case Getpars => ParametersKeep(d, s, c);
      case CsiExclam =>
        ResetCurrent(d, s0);
        if c == 'p' {
          MadeKeeps(d, s.vc, r);
        }
      case Scf =>
        AlignmentKeeps(d, s0);
        if c == '8' {
          KeepsOn(d, s.vc, s0.vc, r);
        }
      case _ => ByStateVcKeeps(d, s.vc, c);
    }
  }

  lemma ControlsKeep(d: Driver, vc: Vc, c: int)
    requires VcOk(d, vc)
    ensures Keeps(d, vc, C0Vc(d, vc, c)) && Keeps(d, vc, C1Vc(d, vc, c))
  {
    hide VcOk, Backspace, TabForward, CarriageReturn, ShiftOut, Enter, SetTab, Keeps;
    SetsKeep(d, vc, ' ');
    TabsKeep(d, vc, 0, true);
    if c != 14 && c != 15 {
      SameLook(d, vc, C0Vc(d, vc, c));
    }
    if c != 0x88 {
      SameLook(d, vc, C1Vc(d, vc, c));
    }
  }

  lemma EmulateKeeps(d: Driver, s: State, c: int)
    requires Inv(d, s) && Frugal(d)
    ensures Keeps(d, s.vc, Emulate(d, s, c).vc)
  {
    hide Inv, VcOk, ByState, AsChar, C0Vc, C1Vc, Feed, LineFeed, Returned, ReverseLineFeed, Keeps;
    InvRest(d, s);
    ControlsKeep(d, s.vc, c);
    var r := Emulate(d, s, c).vc;
    if IsC0(c) && 0x0A <= c <= 0x0C {
      OnlyCursor(d, s.vc, r);
    } else if !IsC0(c) && s.vc.modes.c8bit && IsC1(c) {
      if c == 0x84 || c == 0x85 || c == 0x8D {
        OnlyCursor(d, s.vc, r);
      }
    } else if !IsC0(c) {
      ByStateKeeps(d, s, AsChar(c));
    }
  }

  lemma StepKeeps(d: Driver, s: State, b: Utf8.byte)
    requires Inv(d, s) && Frugal(d)
    ensures Keeps(d, s.vc, Step(d, s, b).vc)
  {
    hide Inv, VcOk, Emulate, Put, HasGlyph, Glyph, Shown, Keeps, WithDecoder, Utf8.Step;
    InvRest(d, s);
    DecoderPart(d, s.vc);
    var r := Step(d, s, b).vc;
    if s.vc.parser.state == Init && Shown(s.vc.modes, b) {
      OnlyCursor(d, s.vc, r);
    } else if s.vc.parser.state == Init || !s.vc.modes.utf {
      EmulateKeeps(d, s, b);
    } else {
      Utf8.StepSound(s.vc.decoder, b);
      var (u, o) := Utf8.Step(s.vc.decoder, b);
      var s1 := WithVc(d, s, WithDecoder(d, s.vc, u));
      SameLook(d, s.vc, s1.vc);
      if o.Some? {
        EmulateKeeps(d, s1, o.value);
        KeepsOn(d, s.vc, s1.vc, r);
      }
    }
  }

  /** Over every byte stream: once the attribute and the erase character are those of the rendition and the
      screen mode in force, they stay so, whatever is changed by SGR, the colour commands, DECSCNM, DECRC,
      the alignment test or a reset. */
  lemma {:induction false} RunCurrent(d: Driver, s: State, bs: seq<Utf8.byte>)
    requires Inv(d, s) && Frugal(d) && Current(d, s.vc)
    ensures Current(d, Run(d, s, bs).vc)
    decreases |bs|
  {
    hide Inv, Step, Current, Frugal;
    if |bs| > 0 {
      StepKeeps(d, s, bs[0]);
      KeptCurrent(d, s.vc, Step(d, s, bs[0]).vc);
      RunCurrent(d, Step(d, s, bs[0]), bs[1..]);
    }
  }

  lemma KeptCurrent(d: Driver, a: Vc, b: Vc)
    requires Keeps(d, a, b) && Current(d, a)
    ensures Current(d, b)
  {
  }

  // ---- build_attr ----

  type Byte = bv8

  function ByteOf(n: int): Byte {
    (n % 256) as Byte
  }

  /** The colours before reversing: those of underlined and of dim text take the place of the foreground. */
  function Inked(c: Colors, r: Rendition): Byte {
    var a := ByteOf(r.color);
    if r.underline then (a & 0xF0) | ByteOf(c.underlined)
    else if r.intensity == 0 then (a & 0xF0) | ByteOf(c.half)
    else a
  }

  /** Foreground and background exchanged, bright and blink bits left. */
  function Reversed(a: Byte): Byte {
    (a & 0x88) | (((a >> 4) | (a << 4)) & 0x77)
  }

  /** build_attr for a driver without a function of its own; `wide` if the font has 512 glyphs. */
  function BuildAttr(color: bool, wide: bool, c: Colors, r: Rendition): Byte {
    if !color then
      ByteOf(r.intensity) | (if r.underline then 4 else 0) | (if r.reverse then 8 else 0) | (if r.blink then 0x80 else 0)
    else
      var a := if r.reverse then Reversed(Inked(c, r)) else Inked(c, r);
      var b := if r.blink then a ^ 0x80 else a;
      var e := if r.intensity == 2 then b ^ 0x08 else b;
      if wide then e << 1 else e
  }

  /** Such a driver is one for which the attribute always follows the rendition. */
  lemma BuildAttrFrugal(d: Driver)
    requires forall c: Colors, r: Rendition :: d.build(c, r) == BuildAttr(d.canDoColor, d.hiFontMask == 0x100, c, r) as int
    ensures Frugal(d)
  {
    hide BuildAttr, Inked;
    forall c: Colors, c': Colors, r: Rendition |
      (r.underline ==> c.underlined == c'.underlined) && (!r.underline && r.intensity == 0 ==> c.half == c'.half)
      ensures d.build(c, r) == d.build(c', r)
    {
      SameInk(c, c', r);
      SameAttr(d.canDoColor, d.hiFontMask == 0x100, c, c', r);
    }
  }

  lemma SameInk(c: Colors, c': Colors, r: Rendition)
    requires (r.underline ==> c.underlined == c'.underlined) && (!r.underline && r.intensity == 0 ==> c.half == c'.half)
    ensures Inked(c, r) == Inked(c', r)
  {
    hide ByteOf;
  }

  lemma SameAttr(color: bool, wide: bool, c: Colors, c': Colors, r: Rendition)
    requires Inked(c, r) == Inked(c', r)
    ensures BuildAttr(color, wide, c, r) == BuildAttr(color, wide, c', r)
  {
    hide Inked, Reversed, ByteOf;
  }

  lemma ReversedFields(a: Byte)
    ensures Reversed(a) & 7 == (a >> 4) & 7 && (Reversed(a) >> 4) & 7 == a & 7 && Reversed(a) & 0x88 == a & 0x88
  {
  }

  /** The fields of an attribute in colour: reversing exchanges foreground and background, bright and blinking
      text have their bits toggled. */
  lemma AttrFields(c: Colors, r: Rendition)
    ensures var (a, ink) := (BuildAttr(true, false, c, r), Inked(c, r));
            a & 7 == (if r.reverse then (ink >> 4) & 7 else ink & 7) && (a >> 4) & 7 == (if r.reverse then ink & 7 else (ink >> 4) & 7) &&
            a & 0x80 == (ink & 0x80) ^ (if r.blink then 0x80 else 0) && a & 0x08 == (ink & 0x08) ^ (if r.intensity == 2 then 8 else 0)
  {
    hide Inked, Reversed;
    ReversedFields(Inked(c, r));
    TogglesKeep(if r.reverse then Reversed(Inked(c, r)) else Inked(c, r), r.blink, r.intensity == 2);
  }

  lemma TogglesKeep(a: Byte, blink: bool, bright: bool)
    ensures var b := if blink then a ^ 0x80 else a;
            var e := if bright then b ^ 0x08 else b;
            e & 7 == a & 7 && (e >> 4) & 7 == (a >> 4) & 7 &&
            e & 0x80 == (a & 0x80) ^ (if blink then 0x80 else 0) && e & 0x08 == (a & 0x08) ^ (if bright then 8 else 0)
  {
  }
}
