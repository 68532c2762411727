/** The console switch handshake (drivers/char/vt_ioctl.c:638-773, 1067-1086, 1189-1238;
    drivers/char/vt.c:877-909, 1048-1061) over a fixed pool of allocated consoles.  Signals are
    answers: whether kill_proc still finds the controlling process. */
module VtSwitch {
  import opened Common

  const EPERM: int := 1
  const EINVAL: int := 22
  const VT_ACKACQ: int := 2

  datatype Mode = VtAuto | VtProcess

  /** vt_mode.mode, vc_mode == KD_GRAPHICS, vt_newvt (-1 when no switch is pending), and whether a tty is
      open on it (vc_tty). */
  datatype Console = Console(mode: Mode, graphics: bool, newvt: int, tty: bool)

  /** The display: its consoles, fg_console, last_console, want_vc and vt_dont_switch. */
  datatype Display = Display(cons: seq<Console>, fg: nat, last: nat, want: nat, locked: bool)

  ghost predicate Shape(d: Display) {
    d.fg < |d.cons| && d.want < |d.cons| && d.last < |d.cons|
  }

  /** A pending switch belongs to the foreground console, under process control, and names a
      console of the pool. */
  ghost predicate Inv(d: Display) {
    && Shape(d)
    && forall v :: 0 <= v < |d.cons| && d.cons[v].newvt >= 0 ==> v == d.fg && d.cons[v].mode == VtProcess && d.cons[v].newvt < |d.cons|
  }

  /** reset_vc */
  function Reset(d: Display, v: nat): Display
    requires v < |d.cons|
  {
    d.(cons := d.cons[v := d.cons[v].(mode := VtAuto, graphics := false, newvt := -1)])
  }

  /** complete_change_console to n; `alive` answers for n's controlling process. */
  function Complete(d: Display, n: nat, alive: bool): Display
    requires n < |d.cons|
  {
    var d1 := d.(last := d.fg, fg := n);
    if d1.cons[n].mode == VtProcess && !alive then Reset(d1, n) else d1
  }

  /** change_console from the foreground console to n; `oldAlive` answers for the controlling
      process of the console that is left. */
  function Change(d: Display, n: nat, oldAlive: bool, newAlive: bool): Display
    requires n < |d.cons| && d.fg < |d.cons|
  {
    var old_ := d.cons[d.fg];
    if old_.mode == VtProcess && oldAlive then d.(cons := d.cons[d.fg := old_.(newvt := n)])
    else
      var d1 := if old_.mode == VtProcess then Reset(d, d.fg) else d;
      if d1.cons[d1.fg].graphics then d1 else Complete(d1, n, newAlive)
  }

  datatype Step =
    | Want(n: nat)                                        // set_console
    | Callback(oldAlive: bool, newAlive: bool)            // vt_callback
    | SetMode(v: nat, mode: Option<Mode>, perm: bool)     // VT_SETMODE; None is any other value
    | SetKd(v: nat, graphics: Option<bool>, perm: bool)   // KDSETMODE, likewise
    | RelDisp(v: nat, arg: int, perm: bool, newAlive: bool) // VT_RELDISP
    | Sak(v: nat)                                         // reset_vc from the keyboard
    | SetTty(v: nat, open: bool)                          // vt_open, vt_close
    | Lock(on: bool, perm: bool)                          // VT_LOCKSWITCH, VT_UNLOCKSWITCH

  ghost predicate Enabled(d: Display, a: Step) {
    match a
    case Want(n) => n < |d.cons|
    case SetMode(v, _, _) => v < |d.cons|
    case SetKd(v, _, _) => v < |d.cons|
    case RelDisp(v, _, _, _) => v < |d.cons|
    case Sak(v) => v < |d.cons|
    case SetTty(v, _) => v < |d.cons|
    case _ => true
  }

  /** The effect of a step and the ioctl's result. */
  function Next(d: Display, a: Step): (r: (Display, int))
    requires Inv(d) && Enabled(d, a)
  {
    match a
    case Want(n) => (d.(want := n), 0)
    case Callback(oldAlive, newAlive) =>
      (if d.cons[d.want].tty && d.want != d.fg && !d.locked then Change(d, d.want, oldAlive, newAlive) else d, 0)
    case SetMode(v, mode, perm) =>
      if !perm then (d, -EPERM)
      else if mode.None? then (d, -EINVAL)
      else (d.(cons := d.cons[v := d.cons[v].(mode := mode.value, newvt := -1)]), 0)
    case SetKd(v, graphics, perm) =>
      if !perm then (d, -EPERM)
      else if graphics.None? then (d, -EINVAL)
      else (d.(cons := d.cons[v := d.cons[v].(graphics := graphics.value)]), 0)
    case RelDisp(v, arg, perm, newAlive) =>
      if !perm then (d, -EPERM)
      else if d.cons[v].mode != VtProcess then (d, -EINVAL)
      else if d.cons[v].newvt >= 0 then
        var d1 := d.(cons := d.cons[v := d.cons[v].(newvt := -1)]);
        (if arg == 0 then d1 else Complete(d1, d.cons[v].newvt, newAlive), 0)
      else (d, if arg != VT_ACKACQ then -EINVAL else 0)
    case Sak(v) => (Reset(d, v), 0)
    case SetTty(v, open) => (d.(cons := d.cons[v := d.cons[v].(tty := open)]), 0)
    case Lock(on, perm) => if !perm then (d, -EPERM) else (d.(locked := on), 0)
  }

  lemma CompleteKeepsInv(d: Display, n: nat, alive: bool)
    requires Shape(d) && n < |d.cons| && forall v :: 0 <= v < |d.cons| ==> d.cons[v].newvt < 0
    ensures Inv(Complete(d, n, alive)) && |Complete(d, n, alive).cons| == |d.cons|
  {
  }

  lemma ChangeKeepsInv(d: Display, n: nat, oldAlive: bool, newAlive: bool)
    requires Inv(d) && n < |d.cons|
    ensures Inv(Change(d, n, oldAlive, newAlive)) && |Change(d, n, oldAlive, newAlive).cons| == |d.cons|
  {
  }

  lemma NextKeepsInv(d: Display, a: Step)
    requires Inv(d) && Enabled(d, a)
    ensures Inv(Next(d, a).0) && |Next(d, a).0.cons| == |d.cons|
  {
    hide Change, Complete;
    match a {
      case Callback(oldAlive, newAlive) => ChangeKeepsInv(d, d.want, oldAlive, newAlive);
      case RelDisp(v, arg, perm, newAlive) =>
        if d.cons[v].newvt >= 0 {
          CompleteKeepsInv(d.(cons := d.cons[v := d.cons[v].(newvt := -1)]), d.cons[v].newvt, newAlive);
        }
      case _ =>
    }
  }

  /** The ways the foreground can change: to the wanted console, if a tty is open on it, from a text
      console in auto mode or from one whose owner has died and which has been reset; or to the pending
      console, when the foreground console's process releases it with a non-zero VT_RELDISP. */
  ghost predicate Justified(d: Display, a: Step, to: nat)
    requires Inv(d)
  {
    var f := d.cons[d.fg];
    || (a.Callback? && !d.locked && to == d.want && d.cons[to].tty && f.mode == VtAuto && !f.graphics)
    || (a.Callback? && !d.locked && to == d.want && d.cons[to].tty && f.mode == VtProcess && !a.oldAlive)
    || (a.RelDisp? && a.perm && a.v == d.fg && a.arg != 0 && f.mode == VtProcess && f.newvt >= 0 && to == f.newvt)
  }

  /** The foreground changes in these ways and no others, and in these ways it always does. */
  lemma ForegroundChangesIff(d: Display, a: Step)
    requires Inv(d) && Enabled(d, a)
    ensures Next(d, a).0.fg != d.fg <==> exists to :: Justified(d, a, to) && to != d.fg
    ensures forall to :: Justified(d, a, to) ==> Next(d, a).0.fg == to
    ensures Next(d, a).0.fg != d.fg ==> Next(d, a).0.last == d.fg
  {
    var r := Next(d, a).0;
    if r.fg != d.fg {
      assert Justified(d, a, r.fg);
    }
  }

  /** A console under a live process's control leaves the screen only when that process lets it:
      until then the switch stays pending on it. */
  lemma ProcessKeepsScreen(d: Display, a: Step)
    requires Inv(d) && Enabled(d, a) && d.cons[d.fg].mode == VtProcess
    requires a.Callback? ==> a.oldAlive
    requires a.RelDisp? ==> a.v != d.fg || a.arg == 0 || !a.perm || d.cons[d.fg].newvt < 0
    ensures Next(d, a).0.fg == d.fg
    ensures a.Callback? && d.cons[d.want].tty && d.want != d.fg && !d.locked ==> Next(d, a).0.cons[d.fg].newvt == d.want
  {
  }

  // ---- what each ioctl does ----

  /** Console v is the only one that differs, and nothing else of the display does. */
  ghost predicate OnlyConsole(d: Display, r: Display, v: nat) {
    |r.cons| == |d.cons| && (forall u :: 0 <= u < |d.cons| && u != v ==> r.cons[u] == d.cons[u]) &&
    r.fg == d.fg && r.last == d.last && r.want == d.want && r.locked == d.locked
  }

  /** VT_SETMODE sets the mode it is given and drops a pending switch, KDSETMODE sets text or graphics, SAK
      makes a text console in auto mode of any, opening and closing mark the tty; other consoles stay. */
  lemma ConsoleStep(d: Display, a: Step)
    requires Inv(d) && Enabled(d, a)
    ensures a.SetMode? && a.perm && a.mode.Some? ==>
              var (r, ret) := Next(d, a);
              var (was, c) := (d.cons[a.v], r.cons[a.v]);
              ret == 0 && OnlyConsole(d, r, a.v) && c.mode == a.mode.value && c.newvt == -1 && c.graphics == was.graphics && c.tty == was.tty
    ensures a.SetKd? && a.perm && a.graphics.Some? ==>
              var (r, ret) := Next(d, a);
              var (was, c) := (d.cons[a.v], r.cons[a.v]);
              ret == 0 && OnlyConsole(d, r, a.v) && c.graphics == a.graphics.value && c.mode == was.mode && c.newvt == was.newvt && c.tty == was.tty
    ensures a.Sak? ==>
              var r := Next(d, a).0;
              var (was, c) := (d.cons[a.v], r.cons[a.v]);
              OnlyConsole(d, r, a.v) && c.mode == VtAuto && !c.graphics && c.newvt == -1 && c.tty == was.tty
    ensures a.SetTty? ==>
              var r := Next(d, a).0;
              var (was, c) := (d.cons[a.v], r.cons[a.v]);
              OnlyConsole(d, r, a.v) && c.tty == a.open && c.mode == was.mode && c.graphics == was.graphics && c.newvt == was.newvt
  {
  }

  /** A refused ioctl changes nothing; the lock and the wanted console are all that locking and asking for a
      switch change. */
  lemma DisplayStep(d: Display, a: Step)
    requires Inv(d) && Enabled(d, a)
    ensures (a.SetMode? || a.SetKd? || a.RelDisp? || a.Lock?) && !a.perm ==> Next(d, a) == (d, -1)
    ensures (a.SetMode? && a.perm && a.mode.None?) || (a.SetKd? && a.perm && a.graphics.None?) ==> Next(d, a) == (d, -22)
    ensures a.RelDisp? && a.perm && d.cons[a.v].mode == VtAuto ==> Next(d, a) == (d, -22)
    ensures a.RelDisp? && a.perm && d.cons[a.v].mode == VtProcess && d.cons[a.v].newvt < 0 ==>
              Next(d, a) == (d, if a.arg == 2 then 0 else -22)
    ensures a.Lock? && a.perm ==> Next(d, a).0.locked == a.on && Next(d, a).0 == d.(locked := Next(d, a).0.locked)
    ensures a.Want? ==> Next(d, a).0.want == a.n && Next(d, a).0 == d.(want := Next(d, a).0.want)
  {
  }

  /** Releasing a console whose switch is pending: a refusal only forgets it; otherwise the other console
      comes up, reset if it is under a process that has died. */
  lemma ReleaseStep(d: Display, a: Step)
    requires Inv(d) && Enabled(d, a) && a.RelDisp? && a.perm && d.cons[a.v].mode == VtProcess && d.cons[a.v].newvt >= 0
    ensures var (r, ret) := Next(d, a);
            var n := d.cons[a.v].newvt;
            ret == 0 && |r.cons| == |d.cons| && r.cons[a.v].newvt == -1 && r.want == d.want && r.locked == d.locked &&
            (a.arg == 0 ==> OnlyConsole(d, r, a.v) && r.cons[a.v] == d.cons[a.v].(newvt := r.cons[a.v].newvt)) &&
            (a.arg != 0 ==>
              r.fg == n && r.last == d.fg &&
              (forall u :: 0 <= u < |d.cons| && u != a.v && u != n ==> r.cons[u] == d.cons[u]) &&
              (n != a.v && d.cons[n].mode == VtProcess && !a.newAlive ==> r.cons[n].mode == VtAuto && !r.cons[n].graphics) &&
              (n != a.v && !(d.cons[n].mode == VtProcess && !a.newAlive) ==> r.cons[n] == d.cons[n]))
  {
  }

  ghost function Run(d: Display, steps: seq<Step>): Display
    requires Inv(d)
    ensures Inv(Run(d, steps))
    decreases |steps|
  {
    if |steps| == 0 then d
    else
      var r := Run(d, steps[..|steps| - 1]);
      var a := steps[|steps| - 1];
      if Enabled(r, a) then NextKeepsInv(r, a); Next(r, a).0 else r
  }

  /** The display after start-up: n text consoles in auto mode. */
  function Booted(n: nat): (d: Display)
    requires n > 0
    ensures Inv(d)
  {
    Display(seq(n, _ => Console(VtAuto, false, -1, false)), 0, 0, 0, false)
  }

  lemma RunSnoc(d: Display, steps: seq<Step>, k: nat)
    requires Inv(d) && k < |steps|
    ensures var r := Run(d, steps[..k]);
            Run(d, steps[..k + 1]) == if Enabled(r, steps[k]) then Next(r, steps[k]).0 else r
    ensures k == 0 ==> Run(d, steps[..k]) == d
  {
    hide Next, Enabled, Inv;
    assert steps[..k + 1][..k] == steps[..k];
    assert steps[..0] == [];
  }

  /** The whole handshake from start-up: console 0 comes under a process's control, the switch to console 1
      waits for it, a refusal drops it, and the next one is completed when the process lets go. */
  function Handshake(): seq<Step> {
    [SetTty(1, true), SetMode(0, Some(VtProcess), true), Want(1), Callback(true, true),
     RelDisp(0, 0, true, true), Callback(true, true), RelDisp(0, 1, true, true)]
  }

  /** The consoles that take part: the one in control of a process, and the other. */
  ghost predicate Stage(d: Display, fg: nat, last: nat, want: nat, c0: Console, tty: bool) {
    Inv(d) && |d.cons| >= 2 && d.fg == fg && d.last == last && d.want == want && !d.locked && d.cons[0] == c0 &&
    d.cons[1] == Console(VtAuto, false, -1, tty)
  }

  lemma FirstSteps(d: Display, n: nat)
    requires n >= 2 && d == Booted(n)
    ensures var h := Handshake();
            var d1 := Next(d, h[0]).0;
            Enabled(d, h[0]) && Inv(d1) && Enabled(d1, h[1]) && Stage(Next(d1, h[1]).0, 0, 0, 0, Console(VtProcess, false, -1, false), true)
  {
  }

  lemma SwitchAsked(d: Display)
    requires Stage(d, 0, 0, 0, Console(VtProcess, false, -1, false), true)
    ensures Enabled(d, Want(1)) && Stage(Next(d, Want(1)).0, 0, 0, 1, Console(VtProcess, false, -1, false), true)
  {
  }

  lemma SwitchHeld(d: Display)
    requires Stage(d, 0, 0, 1, Console(VtProcess, false, -1, false), true)
    ensures Enabled(d, Callback(true, true)) && Stage(Next(d, Callback(true, true)).0, 0, 0, 1, Console(VtProcess, false, 1, false), true)
  {
  }

  lemma SwitchRefused(d: Display)
    requires Stage(d, 0, 0, 1, Console(VtProcess, false, 1, false), true)
    ensures Enabled(d, RelDisp(0, 0, true, true)) && Stage(Next(d, RelDisp(0, 0, true, true)).0, 0, 0, 1, Console(VtProcess, false, -1, false), true)
    ensures Enabled(d, RelDisp(0, 1, true, true)) && Stage(Next(d, RelDisp(0, 1, true, true)).0, 1, 0, 1, Console(VtProcess, false, -1, false), true)
  {
  }

  lemma HandshakeRuns(n: nat)
    requires n >= 2
    ensures var (d, h) := (Booted(n), Handshake());
            Stage(Run(d, h[..2]), 0, 0, 0, Console(VtProcess, false, -1, false), true) &&
            Stage(Run(d, h[..4]), 0, 0, 1, Console(VtProcess, false, 1, false), true) &&
            Stage(Run(d, h[..5]), 0, 0, 1, Console(VtProcess, false, -1, false), true) &&
            Stage(Run(d, h[..6]), 0, 0, 1, Console(VtProcess, false, 1, false), true) &&
            Stage(Run(d, h), 1, 0, 1, Console(VtProcess, false, -1, false), true)
  {
    hide Inv, Next, Run, Enabled, Stage;
    var (d, h) := (Booted(n), Handshake());
    RunSnoc(d, h, 0);
    RunSnoc(d, h, 1);
    FirstSteps(d, n);
    RunSnoc(d, h, 2);
    SwitchAsked(Run(d, h[..2]));
    RunSnoc(d, h, 3);
    SwitchHeld(Run(d, h[..3]));
    RunSnoc(d, h, 4);
    SwitchRefused(Run(d, h[..4]));
    RunSnoc(d, h, 5);
    SwitchHeld(Run(d, h[..5]));
    RunSnoc(d, h, 6);
    SwitchRefused(Run(d, h[..6]));
    assert h[..7] == h;
  }

  // ---- under whose control a console is ----

  /** What a step taken in d says about console v's mode: VT_SETMODE what it is given, SAK and the death of
      the controlling process auto mode. */
  ghost function ModeSaid(d: Display, a: Step, v: nat): Option<Mode>
    requires Inv(d) && Enabled(d, a) && v < |d.cons|
  {
    match a
    case SetMode(u, mode, perm) => if u == v && perm then mode else None
    case Sak(u) => if u == v then Some(VtAuto) else None
    case Callback(oldAlive, newAlive) =>
      var switches := d.cons[d.want].tty && d.want != d.fg && !d.locked;
      if switches && v == d.fg && !oldAlive then Some(VtAuto)
      else if switches && v == d.want && !newAlive && Lets(d.cons[d.fg], oldAlive) then Some(VtAuto)
      else None
    case RelDisp(u, arg, perm, newAlive) =>
      if perm && arg != 0 && d.cons[u].mode == VtProcess && d.cons[u].newvt == v && !newAlive then Some(VtAuto) else None
    case _ => None
  }

  /** Whether a console gives way at once. */
  predicate Lets(c: Console, alive: bool) {
    if c.mode == VtProcess then !alive else !c.graphics
  }

  lemma CallbackSaysMode(d: Display, a: Step, v: nat)
    requires Inv(d) && Enabled(d, a) && v < |d.cons| && a.Callback?
    ensures |Next(d, a).0.cons| == |d.cons|
    ensures var said := ModeSaid(d, a, v);
            Next(d, a).0.cons[v].mode == if said.Some? then said.value else d.cons[v].mode
  {
  }

  lemma StepSaysMode(d: Display, a: Step, v: nat)
    requires Inv(d) && Enabled(d, a) && v < |d.cons|
    ensures |Next(d, a).0.cons| == |d.cons|
    ensures var said := ModeSaid(d, a, v);
            Next(d, a).0.cons[v].mode == if said.Some? then said.value else d.cons[v].mode
  {
    hide Change;
    if a.Callback? {
      CallbackSaysMode(d, a, v);
    }
  }

  ghost function LastMode(d: Display, steps: seq<Step>, v: nat): Mode
    requires Inv(d) && v < |d.cons|
  {
    if |steps| == 0 then d.cons[v].mode
    else
      var n := |steps| - 1;
      var r := Run(d, steps[..n]);
      if v < |r.cons| && Enabled(r, steps[n]) && ModeSaid(r, steps[n], v).Some? then ModeSaid(r, steps[n], v).value
      else LastMode(d, steps[..n], v)
  }

  /** Over every run a console is under process control exactly if the last step that said anything about its
      mode was a VT_SETMODE to VT_PROCESS. */
  lemma {:induction false} ModeIsLastSaid(d: Display, steps: seq<Step>, v: nat)
    requires Inv(d) && v < |d.cons|
    ensures |Run(d, steps).cons| == |d.cons| && Run(d, steps).cons[v].mode == LastMode(d, steps, v)
    decreases |steps|
  {
    hide Inv, Next, Enabled, ModeSaid;
    if |steps| > 0 {
      var n := |steps| - 1;
      ModeIsLastSaid(d, steps[..n], v);
      var r := Run(d, steps[..n]);
      if Enabled(r, steps[n]) {
        StepSaysMode(r, steps[n], v);
      }
    }
  }

  /** Over every run: a switch is pending only on the foreground console, in VT_PROCESS mode. */
  lemma RunSafe(d: Display, steps: seq<Step>, v: nat)
    requires Inv(d) && v < |Run(d, steps).cons|
    ensures var r := Run(d, steps);
            r.cons[v].newvt >= 0 ==> v == r.fg && r.cons[v].mode == VtProcess && r.cons[v].newvt < |r.cons|
  {
    var r := Run(d, steps);
    assert Inv(r);
  }

  /** Every single change of the foreground along a run has one of the three causes. */
  lemma {:induction false} RunChangesJustified(d: Display, steps: seq<Step>, k: nat)
    requires Inv(d) && k < |steps| && Run(d, steps[..k + 1]).fg != Run(d, steps[..k]).fg
    ensures Enabled(Run(d, steps[..k]), steps[k])
    ensures Justified(Run(d, steps[..k]), steps[k], Run(d, steps[..k + 1]).fg)
  {
    hide Inv, Enabled, Justified, Next;
    assert steps[..k + 1][..k] == steps[..k];
    ForegroundChangesIff(Run(d, steps[..k]), steps[k]);
  }
}
