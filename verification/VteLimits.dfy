/** Where the emulator's fixed widths show (drivers/char/decvte.c:1018-1019, 1044-1069, 1623-1627):
    eight words of tab stops, five of them cleared, and sums in 32 bits. */
module VteLimits {
  import opened Common
  import opened VteState
  import opened VteScreen
  import opened VteCommands
  import opened VteParser
  import opened VteMeaning
  import opened VteSequences
  import opened VteStream
  import opened VteEffects
  import Utf8

  // ---- sequences ----

  lemma EscapedInv(d: Driver, s: State)
    requires Inv(d, s)
    ensures Inv(d, Opened(s, Init))
  {
    hide Inv, VcOk, Run;
    ReadIntroducer(d, s);
    EnteredInv(d, Opened(s, Csi), Init);
    assert Entered(Opened(s, Csi), Init) == Opened(s, Init);
  }

  /** ESC and a printing character. */
  lemma RunEscape(d: Driver, s: State, c: char)
    requires Inv(d, s) && IsAscii(c)
    ensures Inv(d, Opened(s, Init)) && Run(d, s, [0x1B, c as int]) == Escape(d, Opened(s, Init), c)
  {
    hide Inv, Step, Put, VcOk, Escape;
    EscapedInv(d, s);
    StepEscape(d, s);
    var s1 := Step(d, s, 0x1B);
    RunOne(d, s, 0x1B);
    assert [0x1B, c as int] == [0x1B] + [c as int];
    RunConcat(d, s, [0x1B], [c as int]);
    RunOne(d, s1, c as int);
    StepAfterEscape(d, s1, c);
    assert Opened(s1, Init) == Opened(s, Init);
  }

  lemma StepAfterEscape(d: Driver, s: State, c: char)
    requires Inv(d, s) && s.vc.parser.state == Esc && IsAscii(c)
    ensures Inv(d, Opened(s, Init)) && Step(d, s, c as int) == Escape(d, Opened(s, Init), c)
  {
    hide Inv, Put, C0, C1, Escape, VcOk;
    EscapedInv(d, s);
    var s1 := s.(vc := s.vc.(decoder := Opened(s, Init).vc.decoder));
    if s.vc.modes.utf {
      var u := Utf8.State(0, s.vc.decoder.code);
      assert Utf8.Step(s.vc.decoder, c as int) == (u, Some(c as int));
    }
    assert Entered(s1, Init) == Opened(s, Init);
  }

  /** A tab stop in column n, counted from 1: CHA and HTS. */
  function StopAt(n: nat): seq<Utf8.byte> {
    Sequence(Public, [n], 'G') + [0x1B, 'H' as int]
  }

  lemma RunColumn(d: Driver, s: State, n: nat)
    requires Inv(d, s) && 0 < n <= d.cols
    ensures var r := Run(d, s, Sequence(Public, [n], 'G')); r.vc.tabs == s.vc.tabs && r.vc.cur.x == n - 1
  {
    hide Inv, VcOk, Run, Sequence, ParserOk, SetMode, Editing, StandardVc, Motion;
    InvRest(d, s);
    ColsPositive(d, s.vc);
    SequenceParsed(d, s, Public, [n], 'G');
    var s1 := Ready(s, Public, [n]);
    InvRest(d, s1);
    ParserPart(d, s1.vc);
    assert Padded([n])[0] == n;
    assert Final(d, s1, 'G') == WithVc(d, s1, Motion(d, s1.vc, 'G'));
    MotionTo(d, s1.vc, 'G');
  }

  lemma RunStopAt(d: Driver, s: State, n: nat)
    requires Inv(d, s) && 0 < n <= d.cols
    ensures |s.vc.tabs| == TabBits(d) >= d.cols && Run(d, s, StopAt(n)).vc.tabs == s.vc.tabs[n - 1 := true]
  {
    hide Inv, VcOk, Run, Sequence;
    RunColumn(d, s, n);
    RunConcat(d, s, Sequence(Public, [n], 'G'), [0x1B, 'H' as int]);
    var s1 := Run(d, s, Sequence(Public, [n], 'G'));
    RunEscape(d, s1, 'H');
    var s2 := Opened(s1, Init);
    InvRest(d, s);
    TabsPart(d, s.vc);
    InvRest(d, s2);
    TabsPart(d, s2.vc);
  }

  // ---- tab stops ----

  /** No stop lies beyond the columns that the source keeps stops for. */
  ghost predicate TabsInside(s: State) {
    forall i :: TAB_COLUMNS <= i < |s.vc.tabs| ==> !s.vc.tabs[i]
  }

  lemma StopOutside(s: State, i: nat)
    requires TAB_COLUMNS <= i < |s.vc.tabs| && s.vc.tabs[i]
    ensures !TabsInside(s)
  {
  }

  /** Stops stay among the 256 columns there is room for, whatever is written, exactly on consoles of at
      most 256 columns. */
  lemma TabsInsideIff(d: Driver, cells: seq<int>)
    requires DriverOk(d) && |cells| == d.rows * d.cols
    ensures (forall bs :: TabsInside(Run(d, NewConsole(d, cells), bs))) <==> d.cols <= TAB_COLUMNS
  {
    hide DriverOk, Run, NewConsole, Inv, VcOk, StopAt;
    var s := NewConsole(d, cells);
    if d.cols <= TAB_COLUMNS {
      forall bs
        ensures TabsInside(Run(d, s, bs))
      {
        InvRest(d, Run(d, s, bs));
        TabsPart(d, Run(d, s, bs).vc);
      }
    } else {
      RunStopAt(d, s, TAB_COLUMNS + 1);
      StopOutside(Run(d, s, StopAt(TAB_COLUMNS + 1)), TAB_COLUMNS);
    }
  }

  /** How to see that a stop in column 201 is there for good: TBC 3 does not remove it, and neither does RIS. */
  lemma StopSurvives(d: Driver, cells: seq<int>)
    requires DriverOk(d) && |cells| == d.rows * d.cols && 201 <= d.cols
    ensures var t := Run(d, NewConsole(d, cells), StopAt(201) + Sequence(Public, [3], 'g')).vc.tabs;
            201 <= |t| && t[200]
  {
    hide DriverOk, Run, NewConsole, Inv, VcOk, StopAt, Sequence;
    var s := NewConsole(d, cells);
    RunStopAt(d, s, 201);
    RunConcat(d, s, StopAt(201), Sequence(Public, [3], 'g'));
    RunClear(d, Run(d, s, StopAt(201)));
  }

  lemma StopSurvivesReset(d: Driver, cells: seq<int>)
    requires DriverOk(d) && |cells| == d.rows * d.cols && 201 <= d.cols
    ensures var t := Run(d, NewConsole(d, cells), StopAt(201) + [0x1B, 'c' as int]).vc.tabs;
            201 <= |t| && t[200]
  {
    hide DriverOk, Run, NewConsole, Inv, VcOk, StopAt, Sequence;
    var s := NewConsole(d, cells);
    RunStopAt(d, s, 201);
    RunConcat(d, s, StopAt(201), [0x1B, 'c' as int]);
    RunReset(d, Run(d, s, StopAt(201)));
  }

  lemma RunClear(d: Driver, s: State)
    requires Inv(d, s)
    ensures Run(d, s, Sequence(Public, [3], 'g')).vc.tabs == ClearedTabs(s.vc.tabs)
  {
    hide Inv, VcOk, Run, Sequence, ParserOk, SetMode, Editing, Motion, ClearedTabs, Sgr, SetMargins, Setterm, TabControl, TabForward,
         TabBack, Enter;
    SequenceParsed(d, s, Public, [3], 'g');
    var s1 := Ready(s, Public, [3]);
    InvRest(d, s1);
    ParserPart(d, s1.vc);
    assert Padded([3])[0] == 3;
    assert Final(d, s1, 'g') == WithVc(d, s1, StandardVc(d, s1.vc, 'g'));
  }

  lemma RunReset(d: Driver, s: State)
    requires Inv(d, s)
    ensures IsReset(d, Opened(s, Init).vc, Run(d, s, [0x1B, 'c' as int]))
  {
    hide Inv, VcOk, Run, IsReset, Reset;
    RunEscape(d, s, 'c');
    ResetMeans(d, Opened(s, Init));
  }

  // ---- counts ----

  lemma RunUp(d: Driver, s: State, n: nat)
    requires Inv(d, s) && n < 0x1_0000_0000
    ensures Inv(d, Ready(s, Public, [n])) && Run(d, s, Sequence(Public, [n], 'A')).vc == Motion(d, Ready(s, Public, [n]).vc, 'A')
    ensures ParserOk(Ready(s, Public, [n]).vc.parser) && Pars(Ready(s, Public, [n]).vc.parser).0 == n
  {
    hide Inv, VcOk, Run, Sequence, ParserOk, SetMode, Editing, StandardVc, Motion;
    SequenceParsed(d, s, Public, [n], 'A');
    var s1 := Ready(s, Public, [n]);
    InvRest(d, s1);
    ParserPart(d, s1.vc);
    assert Padded([n])[0] == n;
    assert Final(d, s1, 'A') == WithVc(d, s1, Motion(d, s1.vc, 'A'));
  }

  /** How to see a count wrap around: 4294967295 rows up from the top is one row down. */
  lemma UpMovesDown(d: Driver, cells: seq<int>)
    requires DriverOk(d) && |cells| == d.rows * d.cols && 2 <= d.rows
    ensures NewConsole(d, cells).vc.cur.y == 0
    ensures Run(d, NewConsole(d, cells), Sequence(Public, [0xFFFF_FFFF], 'A')).vc.cur.y == 1
  {
    hide DriverOk, Run, NewConsole, Inv, VcOk, Sequence, Motion;
    var s := NewConsole(d, cells);
    NewConsoleMeans(d, cells);
    RunUp(d, s, 0xFFFF_FFFF);
    var s1 := Ready(s, Public, [0xFFFF_FFFF]);
    InvRest(d, s1);
    MotionRows(d, s1.vc, 'A');
  }
}
