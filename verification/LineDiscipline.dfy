/** Line-discipline references (drivers/char/tty_io.c:243-578, 1680-1733) as a state machine:
    every lock-protected action is one step, any number of ttys and short-term users interleave,
    each tty has at most one discipline change in progress. */
module LineDiscipline {
  import opened Common

  const N_TTY: nat := 0
  const NR_LDISCS: nat := 16

  type Disc = d: nat | d < 16

  /** How far tty_set_ldisc, tty_open or the final close has got with a tty. */
  datatype Phase =
    | Free                                   // no tty in this slot
    | Idle                                   // open, nothing in progress
    | Got(target: Disc, old_: Disc)          // holds a reference to the new discipline
    | Busy(target: Disc, old_: Disc)         // found users, will drop it and wait
    | Cleared(target: Disc, old_: Disc)      // TTY_LDISC cleared, old discipline still assigned
    | Opening(target: Disc, old_: Disc)      // new discipline assigned and being opened
    | Rejected(old_: Disc)                   // open failed, reference to the new one dropped
    | Reopening(old_: Disc)                  // old discipline assigned again, second reference
    | Refused(old_: Disc)                    // reopening failed, second reference dropped
    | Finishing(old_: Disc)                  // about to drop the reference to the old one
    | Enabling                               // about to set TTY_LDISC
    | Closing(other: Option<nat>)            // final close, waiting for users; a pty's other half
    | Released(half: nat)                    // released, its other half still to be reset
    | Orphan(owner: nat)                     // open to users, but its files and its owner's are closed

  /** tty->ldisc.num, tty->ldisc.refcount, the TTY_LDISC flag, and the progress of the owner. */
  datatype Tty = Tty(num: Disc, users: nat, enabled: bool, phase: Phase)

  /** tty_ldiscs[]: global counts and LDISC_FLAG_DEFINED.  Bookkeeping: `leaked` counts the references
      the final close takes and never drops, `lost` the users' references that an assignment has
      discarded. */
  datatype State = State(refs: seq<int>, defined: seq<bool>, ttys: seq<Tty>, leaked: seq<nat>, lost: nat)

  ghost predicate Shape(s: State) {
    |s.refs| == NR_LDISCS && |s.defined| == NR_LDISCS && |s.leaked| == NR_LDISCS
  }

  function One(b: bool): nat {
    if b then 1 else 0
  }

  /** The references to discipline d that this tty's owner holds. */
  function Holds(t: Tty, d: Disc): nat {
    match t.phase
    case Free => 0
    case Idle => One(t.num == d)
    case Got(n, o) => One(o == d) + One(n == d)
    case Busy(n, o) => One(o == d) + One(n == d)
    case Cleared(n, o) => One(o == d) + One(n == d)
    case Opening(n, o) => One(o == d) + One(n == d)
    case Rejected(o) => One(o == d)
    case Reopening(o) => One(o == d) + One(o == d)
    case Refused(o) => One(o == d)
    case Finishing(o) => One(t.num == d) + One(o == d)
    case Enabling => One(t.num == d)
    case Closing(_) => One(t.num == d)
    case Released(_) => 0
    case Orphan(_) => One(t.num == d)
  }

  function Total(ts: seq<Tty>, d: Disc): nat {
    if |ts| == 0 then 0 else Total(ts[..|ts| - 1], d) + Holds(ts[|ts| - 1], d)
  }

  lemma {:induction false} TotalUpdate(ts: seq<Tty>, i: nat, t: Tty, d: Disc)
    requires i < |ts|
    ensures Total(ts[i := t], d) == Total(ts, d) - Holds(ts[i], d) + Holds(t, d)
  {
    var n := |ts| - 1;
    var us := ts[i := t];
    if i == n {
      assert us[..n] == ts[..n];
    } else {
      assert us[..n] == ts[..n][i := t];
      TotalUpdate(ts[..n], i, t, d);
    }
  }

  lemma {:induction false} TotalAtLeast(ts: seq<Tty>, i: nat, d: Disc)
    requires i < |ts|
    ensures Total(ts, d) >= Holds(ts[i], d)
  {
    if i < |ts| - 1 {
      TotalAtLeast(ts[..|ts| - 1], i, d);
    }
  }

  /** What each phase means for the tty: while TTY_LDISC is clear nobody uses the discipline, the
      final close excepted, which waits for its users. */
  ghost predicate TtyOk(t: Tty) {
    match t.phase
    case Free => !t.enabled && t.users == 0
    case Idle => t.enabled
    case Got(n, o) => t.enabled && t.num == o != n
    case Busy(n, o) => t.enabled && t.num == o != n
    case Cleared(n, o) => !t.enabled && t.users == 0 && t.num == o != n
    case Opening(n, o) => !t.enabled && t.users == 0 && t.num == n != o
    case Rejected(o) => !t.enabled && t.users == 0
    case Reopening(o) => !t.enabled && t.users == 0 && t.num == o
    case Refused(o) => !t.enabled && t.users == 0
    case Finishing(o) => !t.enabled && t.users == 0
    case Enabling => !t.enabled && t.users == 0
    case Closing(_) => !t.enabled
    case Released(_) => !t.enabled && t.users == 0
    case Orphan(_) => t.enabled
  }

  ghost predicate Inv(s: State) {
    && Shape(s)
    && (forall i :: 0 <= i < |s.ttys| ==> TtyOk(s.ttys[i]))
    && (forall d: Disc :: s.refs[d] == Total(s.ttys, d) + s.leaked[d])
    && (forall d: Disc :: s.refs[d] > 0 ==> s.defined[d])
  }

  /** The steps.  `i` is a tty; answers of drivers and modules are part of the step. */
  datatype Step =
    | Register(d: Disc)                       // tty_register_ldisc with a discipline
    | Unregister(d: Disc)                     // tty_register_ldisc with NULL
    | Ref(i: nat)                             // tty_ldisc_try
    | Deref(i: nat)                           // tty_ldisc_deref
    | OpenTty(i: nat)                         // first open: N_TTY, enabled
    | Get(i: nat, d: Disc, loaded: bool)      // tty_set_ldisc: take the new discipline
    | Check(i: nat)                           // look for users; if none, clear TTY_LDISC
    | BackOff(i: nat)                         // drop the new discipline again
    | Assign(i: nat)                          // close the old one, assign the new one
    | Opened(i: nat, ok: bool)                // answer of the new discipline's open
    | TakeOld(i: nat)                         // get and assign the old discipline
    | Reopened(i: nat, ok: bool)              // answer of the old discipline's open
    | TakeNTty(i: nat)                        // get and assign N_TTY
    | DropOld(i: nat)                         // tty_ldisc_put(o_ldisc.num)
    | Enable(i: nat)                          // tty_ldisc_enable
    | FinalClose(i: nat, other: Option<nat>)  // clear TTY_LDISC for good; a pty has another half
    | Release(i: nat)                         // no users left: put the discipline, reset to N_TTY
    | ReleaseOther(i: nat)                    // the same for the other half, users or not

  function Phased(s: State, i: nat, t: Tty): State
    requires i < |s.ttys|
  {
    s.(ttys := s.ttys[i := t])
  }

  /** tty_ldisc_assign: the tty gets a discipline with a reference count of zero, whatever it was. */
  function Assigned(s: State, i: nat, t: Tty): State
    requires i < |s.ttys|
  {
    s.(ttys := s.ttys[i := t], lost := s.lost + s.ttys[i].users)
  }

  /** tty_ldisc_put of t's discipline and the N_TTY reference that the final close takes. */
  function Reset(s: State, t: Tty): (r: State)
    requires Shape(s)
  {
    var s1 := Counted(Counted(s, t.num, -1), N_TTY, 1);
    s1.(leaked := s.leaked[N_TTY := s.leaked[N_TTY] + 1])
  }

  function Counted(s: State, d: Disc, delta: int): (r: State)
    requires |s.refs| == NR_LDISCS
  {
    s.(refs := s.refs[d := s.refs[d] + delta])
  }

  predicate In(s: State, i: nat) {
    i < |s.ttys|
  }

  /** Whether a step can be taken now.  The steps that get N_TTY follow a NULL pointer when it is not
      registered: they cannot be taken then. */
  ghost predicate Enabled(s: State, a: Step)
    requires Shape(s)
  {
    match a
    case Register(d) => s.refs[d] == 0
    case Unregister(d) => true
    case Ref(i) => In(s, i)
    case Deref(i) => In(s, i) && s.ttys[i].users > 0
    case OpenTty(i) => In(s, i) && s.ttys[i].phase.Free? && s.defined[N_TTY]
    case Get(i, d, _) => In(s, i) && s.ttys[i].phase.Idle?
    case Check(i) => In(s, i) && s.ttys[i].phase.Got?
    case BackOff(i) => In(s, i) && s.ttys[i].phase.Busy?
    case Assign(i) => In(s, i) && s.ttys[i].phase.Cleared?
    case Opened(i, _) => In(s, i) && s.ttys[i].phase.Opening?
    case TakeOld(i) => In(s, i) && s.ttys[i].phase.Rejected?
    case Reopened(i, _) => In(s, i) && s.ttys[i].phase.Reopening?
    case TakeNTty(i) => In(s, i) && s.ttys[i].phase.Refused? && s.defined[N_TTY]
    case DropOld(i) => In(s, i) && s.ttys[i].phase.Finishing?
    case Enable(i) => In(s, i) && s.ttys[i].phase.Enabling?
    case FinalClose(i, o) =>
      In(s, i) && s.ttys[i].phase.Idle? && (o.Some? ==> In(s, o.value) && o.value != i && s.ttys[o.value].phase.Idle?)
    case Release(i) => In(s, i) && s.ttys[i].phase.Closing? && s.ttys[i].users == 0 && s.defined[N_TTY]
    case ReleaseOther(i) =>
      In(s, i) && s.ttys[i].phase.Released? && s.defined[N_TTY] &&
      var o := s.ttys[i].phase.half; In(s, o) && o != i && s.ttys[o].phase == Orphan(i)
  }

  /** The effect of a step. */
  ghost function Next(s: State, a: Step): (r: State)
    requires Shape(s) && Enabled(s, a)
  {
    match a
    case Register(d) => s.(defined := s.defined[d := true])
    case Unregister(d) => if s.refs[d] != 0 then s else s.(defined := s.defined[d := false])
    case Ref(i) => if s.ttys[i].enabled then Phased(s, i, s.ttys[i].(users := s.ttys[i].users + 1)) else s
    case Deref(i) => Phased(s, i, s.ttys[i].(users := s.ttys[i].users - 1))
    case OpenTty(i) => Phased(Counted(s, N_TTY, 1), i, Tty(N_TTY, 0, true, Idle))
    case Get(i, d, loaded) =>
      if s.ttys[i].num == d || !s.defined[d] || !loaded then s
      else Phased(Counted(s, d, 1), i, s.ttys[i].(phase := Got(d, s.ttys[i].num)))
    case Check(i) =>
      var t := s.ttys[i];
      if t.users != 0 then Phased(s, i, t.(phase := Busy(t.phase.target, t.phase.old_)))
      else Phased(s, i, t.(enabled := false, phase := Cleared(t.phase.target, t.phase.old_)))
    case BackOff(i) => Phased(Counted(s, s.ttys[i].phase.target, -1), i, s.ttys[i].(phase := Idle))
    case Assign(i) =>
      var t := s.ttys[i];
      Assigned(s, i, Tty(t.phase.target, 0, t.enabled, Opening(t.phase.target, t.phase.old_)))
    case Opened(i, ok) =>
      var t := s.ttys[i];
      if ok then Phased(s, i, t.(phase := Finishing(t.phase.old_)))
      else Phased(Counted(s, t.phase.target, -1), i, t.(phase := Rejected(t.phase.old_)))
    case TakeOld(i) =>
      var t := s.ttys[i];
      Assigned(Counted(s, t.phase.old_, 1), i, Tty(t.phase.old_, 0, t.enabled, Reopening(t.phase.old_)))
    case Reopened(i, ok) =>
      var t := s.ttys[i];
      if ok then Phased(s, i, t.(phase := Finishing(t.phase.old_)))
      else Phased(Counted(s, t.phase.old_, -1), i, t.(phase := Refused(t.phase.old_)))
    case TakeNTty(i) =>
      var t := s.ttys[i];
      Assigned(Counted(s, N_TTY, 1), i, Tty(N_TTY, 0, t.enabled, Finishing(t.phase.old_)))
    case DropOld(i) => Phased(Counted(s, s.ttys[i].phase.old_, -1), i, s.ttys[i].(phase := Enabling))
    case Enable(i) => Phased(s, i, s.ttys[i].(enabled := true, phase := Idle))
    case FinalClose(i, o) =>
      var s1 := if o.Some? then Phased(s, o.value, s.ttys[o.value].(phase := Orphan(i))) else s;
      Phased(s1, i, s.ttys[i].(enabled := false, phase := Closing(o)))
    case Release(i) =>
      var t := s.ttys[i];
      var next := if t.phase.other.Some? then Released(t.phase.other.value) else Free;
      Assigned(Reset(s, t), i, Tty(N_TTY, 0, false, next))
    case ReleaseOther(i) =>
      var o := s.ttys[i].phase.half;
      Phased(Assigned(Reset(s, s.ttys[o]), o, Tty(N_TTY, 0, false, Free)), i, s.ttys[i].(phase := Free))
  }

  /** The discipline whose global count a step takes or drops (tty_ldisc_get, tty_ldisc_put). */
  ghost predicate Puts(s: State, a: Step, d: Disc)
    requires Shape(s) && Enabled(s, a)
  {
    match a
    case BackOff(i) => d == s.ttys[i].phase.target
    case Opened(i, ok) => !ok && d == s.ttys[i].phase.target
    case Reopened(i, ok) => !ok && d == s.ttys[i].phase.old_
    case DropOld(i) => d == s.ttys[i].phase.old_
    case Release(i) => d == s.ttys[i].num
    case ReleaseOther(i) => d == s.ttys[s.ttys[i].phase.half].num
    case _ => false
  }

  /** tty_ldisc_put never finds a count of zero, which would be a BUG. */
  lemma PutIsSafe(s: State, a: Step, d: Disc)
    requires Inv(s) && Enabled(s, a) && Puts(s, a, d)
    ensures s.refs[d] > 0
  {
    hide Total;
    TotalAtLeast(s.ttys, if a.ReleaseOther? then s.ttys[a.i].phase.half else a.i, d);
  }

  /** tty_ldisc_get of the old discipline finds it defined and still referenced, so that its module
      cannot be on the way out. */
  lemma GetIsSafe(s: State, i: nat)
    requires Inv(s) && i < |s.ttys|
    ensures s.ttys[i].phase.Rejected? ==> s.defined[s.ttys[i].phase.old_] && s.refs[s.ttys[i].phase.old_] > 0
  {
    hide Total;
    if s.ttys[i].phase.Rejected? {
      TotalAtLeast(s.ttys, i, s.ttys[i].phase.old_);
    }
  }

  /** "This driver is always present", says the source of N_TTY: a step takes it away exactly if it
      unregisters it while nothing counts it. */
  lemma NTtyStaysIff(s: State, a: Step)
    requires Inv(s) && Enabled(s, a) && s.defined[N_TTY]
    ensures Shape(Next(s, a)) && (Next(s, a).defined[N_TTY] <==> !(a == Unregister(N_TTY) && s.refs[N_TTY] == 0))
  {
    hide Total;
  }

  /** Resetting the other half of a pty while somebody uses its discipline. */
  ghost predicate Careless(s: State, a: Step)
    requires Shape(s) && Enabled(s, a)
  {
    a.ReleaseOther? && s.ttys[s.ttys[a.i].phase.half].users > 0
  }

  /** Five steps assign a discipline and so reset a reference count.  Only the one for the other half
      of a pty, which does not wait, can discard references, and it discards those there are. */
  lemma AssignDiscards(s: State, a: Step)
    requires Inv(s) && Enabled(s, a)
    ensures Next(s, a).lost - s.lost == if a.ReleaseOther? then s.ttys[s.ttys[a.i].phase.half].users else 0
    ensures Next(s, a).lost >= s.lost && (Next(s, a).lost == s.lost <==> !Careless(s, a))
  {
    hide Total;
  }

  lemma TotalPhased(s: State, i: nat, t: Tty, d: Disc)
    requires i < |s.ttys|
    ensures Total(Phased(s, i, t).ttys, d) == Total(s.ttys, d) - Holds(s.ttys[i], d) + Holds(t, d)
  {
    TotalUpdate(s.ttys, i, t, d);
  }

  /** One tty changes and the global counts change by what it takes and drops. */
  lemma TtyStep(s: State, r: State, i: nat, t: Tty)
    requires Inv(s) && Shape(r) && i < |s.ttys| && r.ttys == s.ttys[i := t] && TtyOk(t)
    requires r.defined == s.defined
    requires forall d: Disc :: r.refs[d] - r.leaked[d] - Holds(t, d) == s.refs[d] - s.leaked[d] - Holds(s.ttys[i], d)
    requires forall d: Disc :: r.refs[d] > 0 ==> s.refs[d] > 0 || s.defined[d]
    ensures Inv(r)
  {
    hide Total, Holds;
    forall d: Disc
      ensures r.refs[d] == Total(r.ttys, d) + r.leaked[d]
    {
      TotalPhased(s, i, t, d);
    }
  }

  ghost predicate Early(a: Step) {
    a.Ref? || a.Deref? || a.OpenTty? || a.Get? || a.Check? || a.BackOff?
  }

  ghost predicate Late(a: Step) {
    a.TakeNTty? || a.DropOld? || a.Enable?
  }

  lemma RegistryKeepsInv(s: State, a: Step)
    requires Inv(s) && Enabled(s, a) && (a.Register? || a.Unregister?)
    ensures Inv(Next(s, a))
  {
    hide Total;
  }

  lemma EarlyKeepsInv(s: State, a: Step)
    requires Inv(s) && Enabled(s, a) && Early(a)
    ensures Inv(Next(s, a))
  {
    hide Total;
    var r := Next(s, a);
    TtyStep(s, r, a.i, r.ttys[a.i]);
  }

  lemma AssignKeepsInv(s: State, a: Step)
    requires Inv(s) && Enabled(s, a) && (a.Assign? || a.Opened?)
    ensures Inv(Next(s, a))
  {
    hide Total;
    var r := Next(s, a);
    TtyStep(s, r, a.i, r.ttys[a.i]);
  }

  lemma FallBackKeepsInv(s: State, a: Step)
    requires Inv(s) && Enabled(s, a) && (a.TakeOld? || a.Reopened?)
    ensures Inv(Next(s, a))
  {
    hide Total;
    GetIsSafe(s, a.i);
    var r := Next(s, a);
    TtyStep(s, r, a.i, r.ttys[a.i]);
  }

  lemma LateKeepsInv(s: State, a: Step)
    requires Inv(s) && Enabled(s, a) && Late(a)
    ensures Inv(Next(s, a))
  {
    hide Total;
    var r := Next(s, a);
    TtyStep(s, r, a.i, r.ttys[a.i]);
  }

  lemma ReleaseKeepsInv(s: State, a: Step)
    requires Inv(s) && Enabled(s, a) && a.Release?
    ensures Inv(Next(s, a))
  {
    hide Total;
    var r := Next(s, a);
    TtyStep(s, r, a.i, r.ttys[a.i]);
  }

  lemma FinalCloseKeepsInv(s: State, a: Step)
    requires Inv(s) && Enabled(s, a) && a.FinalClose?
    ensures Inv(Next(s, a))
  {
    hide Total;
    var r := Next(s, a);
    if a.other.Some? {
      var o := a.other.value;
      var s1 := Phased(s, o, s.ttys[o].(phase := Orphan(a.i)));
      TtyStep(s, s1, o, s1.ttys[o]);
      TtyStep(s1, r, a.i, r.ttys[a.i]);
    } else {
      TtyStep(s, r, a.i, r.ttys[a.i]);
    }
  }

  lemma ReleaseOtherKeepsInv(s: State, a: Step)
    requires Inv(s) && Enabled(s, a) && a.ReleaseOther?
    ensures Inv(Next(s, a))
  {
    hide Total;
    var r := Next(s, a);
    var o := s.ttys[a.i].phase.half;
    var s1 := Assigned(Reset(s, s.ttys[o]), o, Tty(N_TTY, 0, false, Free));
    TtyStep(s, s1, o, s1.ttys[o]);
    TtyStep(s1, r, a.i, r.ttys[a.i]);
  }

  /** Every step keeps the invariant. */
  lemma NextKeepsInv(s: State, a: Step)
    requires Inv(s) && Enabled(s, a)
    ensures Inv(Next(s, a))
  {
    hide Inv, Enabled, Next;
    if a.Register? || a.Unregister? {
      RegistryKeepsInv(s, a);
    } else if Early(a) {
      EarlyKeepsInv(s, a);
    } else if Late(a) {
      LateKeepsInv(s, a);
    } else if a.Release? {
      ReleaseKeepsInv(s, a);
    } else if a.FinalClose? {
      FinalCloseKeepsInv(s, a);
    } else if a.ReleaseOther? {
      ReleaseOtherKeepsInv(s, a);
    } else if a.Assign? || a.Opened? {
      AssignKeepsInv(s, a);
    } else {
      FallBackKeepsInv(s, a);
    }
  }

  // ---- whole runs ----

  /** No tty open, only N_TTY registered. */
  ghost predicate Initial(s: State) {
    && Shape(s) && s.lost == 0 && (forall d: Disc :: s.refs[d] == 0 && s.leaked[d] == 0)
    && s.defined[N_TTY] && forall i :: 0 <= i < |s.ttys| ==> s.ttys[i] == Tty(N_TTY, 0, false, Free)
  }

  lemma {:induction false} NothingHeld(ts: seq<Tty>, d: Disc)
    requires forall i :: 0 <= i < |ts| ==> ts[i].phase.Free?
    ensures Total(ts, d) == 0
  {
    if |ts| > 0 {
      NothingHeld(ts[..|ts| - 1], d);
    }
  }

  lemma InitialInv(s: State)
    requires Initial(s)
    ensures Inv(s)
  {
    hide Total;
    forall d: Disc
      ensures Total(s.ttys, d) == 0
    {
      NothingHeld(s.ttys, d);
    }
  }

  /** The state after a run; steps that cannot be taken are skipped. */
  ghost function Run(s: State, steps: seq<Step>): State
    requires Shape(s)
  {
    if |steps| == 0 then s
    else
      var r := Run(s, steps[..|steps| - 1]);
      var a := steps[|steps| - 1];
      if Shape(r) && Enabled(r, a) then Next(r, a) else r
  }

  lemma {:induction false} RunInv(s: State, steps: seq<Step>)
    requires Inv(s)
    ensures Inv(Run(s, steps))
  {
    hide Total, Next, Enabled, TtyOk;
    if |steps| > 0 {
      var n := |steps| - 1;
      RunInv(s, steps[..n]);
      var r := Run(s, steps[..n]);
      if Enabled(r, steps[n]) {
        NextKeepsInv(r, steps[n]);
      }
    }
  }

  /** The ttys whose discipline d can be used now. */
  ghost function Using(ts: seq<Tty>, d: Disc): nat {
    if |ts| == 0 then 0 else Using(ts[..|ts| - 1], d) + One(ts[|ts| - 1].enabled && ts[|ts| - 1].num == d)
  }

  lemma {:induction false} TotalCoversUsing(ts: seq<Tty>, d: Disc)
    requires forall i :: 0 <= i < |ts| ==> TtyOk(ts[i])
    ensures Total(ts, d) >= Using(ts, d)
  {
    if |ts| > 0 {
      var n := |ts| - 1;
      TotalCoversUsing(ts[..n], d);
      assert TtyOk(ts[n]);
    }
  }

  /** Safety of every run, whatever the interleaving and the answers: from the moment TTY_LDISC is
      cleared until it is set again no one holds or gains a discipline reference; each
      discipline's global count covers the ttys that can use it; a counted discipline stays
      registered. */
  lemma RunSafe(s: State, steps: seq<Step>, i: nat, d: Disc)
    requires Initial(s) && i < |Run(s, steps).ttys|
    ensures var r := Run(s, steps);
            && (!r.ttys[i].enabled && !r.ttys[i].phase.Closing? ==> r.ttys[i].users == 0)
            && Shape(r) && r.refs[d] >= Using(r.ttys, d) && (r.refs[d] > 0 ==> r.defined[d])
  {
    hide Total, Next, Enabled, Using;
    InitialInv(s);
    RunInv(s, steps);
    TotalCoversUsing(Run(s, steps).ttys, d);
  }

  /** Step k of the run is taken and discards somebody's reference. */
  ghost predicate CarelessAt(s: State, steps: seq<Step>, k: nat)
    requires Shape(s) && k < |steps|
  {
    var r := Run(s, steps[..k]);
    Shape(r) && Enabled(r, steps[k]) && Careless(r, steps[k])
  }

  /** Over every run: no reference is ever discarded exactly if the other half of a pty is only reset
      while nobody uses it. */
  lemma {:induction false} RunLosesIff(s: State, steps: seq<Step>)
    requires Initial(s)
    ensures Run(s, steps).lost == 0 <==> forall k :: 0 <= k < |steps| ==> !CarelessAt(s, steps, k)
    decreases |steps|
  {
    hide Next, Enabled, Careless, Inv;
    InitialInv(s);
    if |steps| > 0 {
      var n := |steps| - 1;
      RunLosesIff(s, steps[..n]);
      RunInv(s, steps[..n]);
      var r := Run(s, steps[..n]);
      forall k | 0 <= k < n
        ensures CarelessAt(s, steps[..n], k) == CarelessAt(s, steps, k)
      {
        assert steps[..n][..k] == steps[..k];
      }
      InvShape(r);
      if Enabled(r, steps[n]) {
        AssignDiscards(r, steps[n]);
        assert Run(s, steps) == Next(r, steps[n]);
        assert CarelessAt(s, steps, n) == Careless(r, steps[n]);
        if r.lost > 0 {
          var k :| 0 <= k < n && CarelessAt(s, steps[..n], k);
          assert CarelessAt(s, steps, k);
        }
      }
    }
  }

  lemma InvShape(s: State)
    ensures Inv(s) ==> Shape(s)
  {
  }

  /** The run that loses a reference: both halves of a pty opened, a user on the slave, the master's
      final close. */
  function LosingRun(): seq<Step> {
    [OpenTty(0), OpenTty(1), Ref(1), FinalClose(0, Some(1)), Release(0), ReleaseOther(0)]
  }

  lemma ReferenceLost(s: State)
    requires Initial(s) && |s.ttys| == 2
    ensures Run(s, LosingRun()).lost == 1
  {
    hide Initial, Inv, Next, Enabled;
    var steps := LosingRun();
    InitialTtys(s);
    var s1 := RunStep(s, steps, 0);
    var s2 := RunStep(s, steps, 1);
    var s3 := RunStep(s, steps, 2);
    OpenedInUse(s);
    var s4 := RunStep(s, steps, 3);
    var s5 := RunStep(s, steps, 4);
    var s6 := RunStep(s, steps, 5);
    ClosedInUse(s3);
    assert steps[..6] == steps;
  }

  /** Two ttys opened, the second in use. */
  lemma OpenedInUse(s: State)
    requires Shape(s) && s.defined[N_TTY] && s.lost == 0 && s.ttys == [Tty(N_TTY, 0, false, Free), Tty(N_TTY, 0, false, Free)]
    ensures Enabled(s, OpenTty(0)) && Shape(Next(s, OpenTty(0)))
    ensures var s1 := Next(s, OpenTty(0));
            Enabled(s1, OpenTty(1)) && Shape(Next(s1, OpenTty(1))) && Enabled(Next(s1, OpenTty(1)), Ref(1)) &&
            var s3 := Next(Next(s1, OpenTty(1)), Ref(1));
            Shape(s3) && s3.defined[N_TTY] && s3.lost == 0 && s3.ttys == [Tty(N_TTY, 0, true, Idle), Tty(N_TTY, 1, true, Idle)]
  {
  }

  /** Both closed while the second is in use. */
  lemma ClosedInUse(s: State)
    requires Shape(s) && s.defined[N_TTY] && s.lost == 0 && s.ttys == [Tty(N_TTY, 0, true, Idle), Tty(N_TTY, 1, true, Idle)]
    ensures Enabled(s, FinalClose(0, Some(1))) && Shape(Next(s, FinalClose(0, Some(1))))
    ensures var s1 := Next(s, FinalClose(0, Some(1)));
            Enabled(s1, Release(0)) && Shape(Next(s1, Release(0))) &&
            var s2 := Next(s1, Release(0));
            Enabled(s2, ReleaseOther(0)) && Next(s2, ReleaseOther(0)).lost == 1
  {
  }

  lemma InitialTtys(s: State)
    ensures Initial(s) ==> Shape(s) && s.defined[N_TTY] && s.lost == 0 && (forall d: Disc :: s.refs[d] == 0) && forall i :: 0 <= i < |s.ttys| ==> s.ttys[i] == Tty(N_TTY, 0, false, Free)
  {
  }

  /** The state after step k of a run. */
  lemma RunStep(s: State, steps: seq<Step>, k: nat) returns (r: State)
    requires Initial(s) && k < |steps|
    ensures Shape(s) && r == Run(s, steps[..k + 1])
    ensures var q := Run(s, steps[..k]); r == if Shape(q) && Enabled(q, steps[k]) then Next(q, steps[k]) else q
    ensures k == 0 ==> Run(s, steps[..k]) == s
  {
    hide Next, Enabled;
    assert steps[..k + 1][..k] == steps[..k];
    assert steps[..0] == [];
    r := Run(s, steps[..k + 1]);
  }

  // ---- when a change goes ahead ----

  /** A change that holds the new discipline goes ahead exactly if nobody uses the old one at that moment:
      then TTY_LDISC is clear, and the flag is set again only at the end; otherwise what follows is the put of
      the new one and the tty as it was. */
  lemma CheckMeans(s: State, i: nat)
    requires Inv(s) && Enabled(s, Check(i))
    ensures var (t, r) := (s.ttys[i], Next(s, Check(i)));
            |r.ttys| == |s.ttys| && r.refs == s.refs && r.ttys[i].num == t.num && r.ttys[i].users == t.users &&
            (r.ttys[i].enabled <==> t.users > 0) && (Enabled(r, Assign(i)) <==> t.users == 0) &&
            (Enabled(r, BackOff(i)) <==> t.users > 0)
    ensures s.ttys[i].users > 0 ==>
              var r := Next(s, Check(i));
              Enabled(r, BackOff(i)) && Next(r, BackOff(i)).ttys == s.ttys[i := s.ttys[i].(phase := Idle)]
  {
    hide Total;
  }

  // ---- which discipline a tty ends with ----

  /** The last change of a tty's discipline, told by the answers it got: from o to n, what n's open said
      and, after a refusal, what o's did.  Without an answer it was backed off. */
  datatype Story = NoChange | Change(old_: Disc, new_: Disc, answer: Option<bool>, again: Option<bool>)

  /** The discipline that the answers call for: the new one if it opened, the old one if that opened
      again, N_TTY if neither did. */
  function Due(h: Story): Disc {
    match h
    case NoChange => N_TTY
    case Change(old_, new_, answer, again) =>
      if answer == None then old_
      else if answer == Some(true) then new_
      else if again == Some(true) then old_
      else N_TTY
  }

  /** The story of tty i goes on with a step taken in state s. */
  ghost function Told(s: State, a: Step, i: nat, h: Story): Story
    requires Shape(s)
  {
    match a
    case OpenTty(j) => if j == i then NoChange else h
    case Get(j, d, loaded) => if j == i && d != Due(h) && s.defined[d] && loaded then Change(Due(h), d, None, None) else h
    case Opened(j, ok) => if j == i && h.Change? then h.(answer := Some(ok)) else h
    case Reopened(j, ok) => if j == i && h.Change? then h.(again := Some(ok)) else h
    case _ => h
  }

  ghost function StoryOf(s: State, steps: seq<Step>, i: nat): Story
    requires Shape(s)
  {
    if |steps| == 0 then NoChange
    else
      var n := |steps| - 1;
      var r := Run(s, steps[..n]);
      if Shape(r) && Enabled(r, steps[n]) then Told(r, steps[n], i, StoryOf(s, steps[..n], i)) else StoryOf(s, steps[..n], i)
  }

  /** How far the story of a tty has got in each phase. */
  ghost predicate Tells(t: Tty, h: Story) {
    match t.phase
    case Idle => t.num == Due(h)
    case Got(n, o) => t.num == o && h == Change(o, n, None, None)
    case Busy(n, o) => t.num == o && h == Change(o, n, None, None)
    case Cleared(n, o) => t.num == o && h == Change(o, n, None, None)
    case Opening(n, o) => t.num == n && h == Change(o, n, None, None)
    case Rejected(o) => h.Change? && h.old_ == o && h.answer == Some(false) && h.again == None
    case Reopening(o) => t.num == o && h.Change? && h.old_ == o && h.answer == Some(false) && h.again == None
    case Refused(o) => h.Change? && h.old_ == o && h.answer == Some(false) && h.again == Some(false)
    case Finishing(o) => t.num == Due(h)
    case Enabling => t.num == Due(h)
    case _ => true
  }

  lemma StepTells(s: State, a: Step, i: nat, h: Story)
    requires Shape(s) && Enabled(s, a) && i < |s.ttys| && Tells(s.ttys[i], h)
    ensures |Next(s, a).ttys| == |s.ttys| && Tells(Next(s, a).ttys[i], Told(s, a, i, h))
  {
  }

  /** Over every run, a tty that is open and not being changed has the discipline that the answers of its
      last change call for: the new one if its open succeeded, the old one if that failed and the old one
      opened again, N_TTY if both failed; the old one if the change was backed off; N_TTY if there was none. */
  lemma {:induction false} DisciplineDue(s: State, steps: seq<Step>, i: nat)
    requires Initial(s) && i < |s.ttys|
    ensures var r := Run(s, steps);
            |r.ttys| == |s.ttys| && Tells(r.ttys[i], StoryOf(s, steps, i)) &&
            (r.ttys[i].phase.Idle? ==> r.ttys[i].num == Due(StoryOf(s, steps, i)))
    decreases |steps|
  {
    hide Inv, Next, Enabled, Told;
    InitialTtys(s);
    if |steps| > 0 {
      var n := |steps| - 1;
      DisciplineDue(s, steps[..n], i);
      var r := Run(s, steps[..n]);
      if Shape(r) && Enabled(r, steps[n]) {
        StepTells(r, steps[n], i, StoryOf(s, steps[..n], i));
      }
    }
  }

  // ---- the leak ----

  /** The final closes in a run: each releases a tty. */
  ghost function Releases(s: State, steps: seq<Step>): nat
    requires Shape(s)
  {
    if |steps| == 0 then 0
    else
      var n := |steps| - 1;
      var r := Run(s, steps[..n]);
      Releases(s, steps[..n]) + One((steps[n].Release? || steps[n].ReleaseOther?) && Shape(r) && Enabled(r, steps[n]))
  }

  lemma LeakStep(s: State, a: Step)
    requires Shape(s) && Enabled(s, a)
    ensures Shape(Next(s, a))
    ensures forall d: Disc :: Next(s, a).leaked[d] == s.leaked[d] + One(d == N_TTY && (a.Release? || a.ReleaseOther?))
  {
  }

  /** Over every run: one N_TTY reference is leaked by each tty released, and no other reference. */
  lemma {:induction false} RunLeaks(s: State, steps: seq<Step>, d: Disc)
    requires Initial(s)
    ensures Shape(Run(s, steps)) && Run(s, steps).leaked[d] == if d == N_TTY then Releases(s, steps) else 0
    decreases |steps|
  {
    hide Next, Enabled;
    if |steps| > 0 {
      var n := |steps| - 1;
      RunLeaks(s, steps[..n], d);
      var r := Run(s, steps[..n]);
      if Enabled(r, steps[n]) {
        LeakStep(r, steps[n]);
      }
    }
  }

  /** When every tty has been closed again, N_TTY's count is back to zero exactly if none was ever
      released: it is the number of releases. */
  lemma LeakedIff(s: State, steps: seq<Step>)
    requires Initial(s) && forall i :: 0 <= i < |Run(s, steps).ttys| ==> Run(s, steps).ttys[i].phase.Free?
    ensures Shape(Run(s, steps)) && Run(s, steps).refs[N_TTY] == Releases(s, steps)
    ensures Run(s, steps).refs[N_TTY] == 0 <==> Releases(s, steps) == 0
  {
    hide Total, Next, Enabled, Run, Releases, TtyOk;
    InitialInv(s);
    RunInv(s, steps);
    RunLeaks(s, steps, N_TTY);
    NothingHeld(Run(s, steps).ttys, N_TTY);
  }

  /** One tty opened and closed: nothing is open, and N_TTY is still counted. */
  lemma OpenCloseLeaks(s: State)
    requires Initial(s) && |s.ttys| == 1
    ensures var r := Run(s, [OpenTty(0), FinalClose(0, None), Release(0)]);
            r.ttys == [Tty(N_TTY, 0, false, Free)] && Shape(r) && r.refs[N_TTY] == 1
  {
    hide Initial, Inv;
    var steps := [OpenTty(0), FinalClose(0, None), Release(0)];
    var s1 := RunStep(s, steps, 0);
    var s2 := RunStep(s, steps, 1);
    var s3 := RunStep(s, steps, 2);
    InitialTtys(s);
    assert steps[..3] == steps;
  }

  /** Registering a discipline anew while it is in use resets its count and breaks the protocol;
      it keeps the invariant exactly when the discipline is unused. */
  lemma ReregisterIff(s: State, d: Disc)
    requires Inv(s)
    ensures Inv(s.(refs := s.refs[d := 0], defined := s.defined[d := true])) <==> s.refs[d] == 0
  {
    hide Total, TtyOk;
    var r := s.(refs := s.refs[d := 0], defined := s.defined[d := true]);
    assert r.refs[d] == 0 && s.refs[d] == Total(s.ttys, d) + s.leaked[d];
  }

  /** N_TTY unregistered before any tty is open: none can be opened any more. */
  lemma NTtyGone(s: State)
    requires Initial(s) && |s.ttys| == 1
    ensures var r := Run(s, [Unregister(N_TTY)]); Shape(r) && !r.defined[N_TTY] && !Enabled(r, OpenTty(0))
  {
    hide Initial, Inv;
    var s1 := RunStep(s, [Unregister(N_TTY)], 0);
    InitialTtys(s);
    assert [Unregister(N_TTY)][..1] == [Unregister(N_TTY)];
  }

  /** N_TTY with a tty open is such a discipline. */
  lemma ReregisterBreaks(s: State)
    requires Initial(s) && |s.ttys| == 1
    ensures var r := Run(s, [OpenTty(0)]);
            Inv(r) && !Inv(r.(refs := r.refs[N_TTY := 0], defined := r.defined[N_TTY := true]))
  {
    hide Initial, Inv;
    var s1 := RunStep(s, [OpenTty(0)], 0);
    InitialTtys(s);
    InitialInv(s);
    assert [OpenTty(0)][..1] == [OpenTty(0)];
    RunInv(s, [OpenTty(0)]);
    ReregisterIff(s1, N_TTY);
  }
}
