/** Several processes changing the line discipline of one tty at once (tty_set_ldisc in
    drivers/char/tty_io.c:456-578, which nothing makes exclusive), on the path where every discipline
    opens.  Each changer remembers the discipline it found as the old one when it started. */
module TwoChangers {

  const N_TTY: nat := 0

  datatype Changer =
    | Idle
    | Got(target: nat, old_: nat)        // holds the new discipline, the tty may still be in use
    | Cleared(target: nat, old_: nat)    // TTY_LDISC cleared
    | Assigned(old_: nat)                // the new discipline is the tty's; the old one is to be put

  /** Global counts of the disciplines, the tty's discipline and its users, the changers, and how many users'
      references an assignment has discarded. */
  datatype State = State(refs: map<nat, int>, num: nat, users: nat, enabled: bool, changers: seq<Changer>, lost: nat)

  datatype Step =
    | Get(i: nat, d: nat)    // tty_ldisc_get(ldisc), o_ldisc = tty->ldisc
    | BackOff(i: nat)        // users found: put the new one again
    | Clear(i: nat)          // no users: clear TTY_LDISC
    | Assign(i: nat)         // close the old one, assign the new one, open it
    | Put(i: nat)            // tty_ldisc_put(o_ldisc.num), tty_ldisc_enable
    | Ref                    // tty_ldisc_try
    | Deref                  // tty_ldisc_deref

  function One(b: bool): int {
    if b then 1 else 0
  }

  function Count(refs: map<nat, int>, d: nat): int {
    if d in refs then refs[d] else 0
  }

  function Counted(s: State, d: nat, by_: int): State {
    s.(refs := s.refs[d := Count(s.refs, d) + by_])
  }

  /** The references to discipline d that a changer holds, as it believes. */
  function Holds(c: Changer, d: nat): int {
    match c
    case Idle => 0
    case Got(n, _) => One(n == d)
    case Cleared(n, _) => One(n == d)
    case Assigned(o) => One(o == d)
  }

  function Total(cs: seq<Changer>, d: nat): int {
    if |cs| == 0 then 0 else Total(cs[..|cs| - 1], d) + Holds(cs[|cs| - 1], d)
  }

  /** Every discipline counts the tty that has it and the changers that hold it. */
  ghost predicate Accounted(s: State) {
    forall d: nat :: Count(s.refs, d) == One(s.num == d) + Total(s.changers, d)
  }

  ghost predicate Enabled(s: State, a: Step) {
    match a
    case Get(i, d) => i < |s.changers| && s.changers[i].Idle? && d != s.num
    case BackOff(i) => i < |s.changers| && s.changers[i].Got? && s.users != 0
    case Clear(i) => i < |s.changers| && s.changers[i].Got? && s.users == 0
    case Assign(i) => i < |s.changers| && s.changers[i].Cleared?
    case Put(i) => i < |s.changers| && s.changers[i].Assigned?
    case Ref => s.enabled
    case Deref => s.users > 0
  }

  function Becomes(s: State, i: nat, c: Changer): State
    requires i < |s.changers|
  {
    s.(changers := s.changers[i := c])
  }

  ghost function Next(s: State, a: Step): State
    requires Enabled(s, a)
  {
    match a
    case Get(i, d) => Becomes(Counted(s, d, 1), i, Got(d, s.num))
    case BackOff(i) => Becomes(Counted(s, s.changers[i].target, -1), i, Idle)
    case Clear(i) => Becomes(s, i, Cleared(s.changers[i].target, s.changers[i].old_)).(enabled := false)
    case Assign(i) => Becomes(s, i, Assigned(s.changers[i].old_)).(num := s.changers[i].target, users := 0, lost := s.lost + s.users)
    case Put(i) => Becomes(Counted(s, s.changers[i].old_, -1), i, Idle).(enabled := true)
    case Ref => s.(users := s.users + 1)
    case Deref => s.(users := s.users - 1)
  }

  lemma {:induction false} TotalUpdate(cs: seq<Changer>, i: nat, c: Changer, d: nat)
    requires i < |cs|
    ensures Total(cs[i := c], d) == Total(cs, d) - Holds(cs[i], d) + Holds(c, d)
  {
    var n := |cs| - 1;
    var us := cs[i := c];
    if i == n {
      assert us[..n] == cs[..n];
    } else {
      assert us[..n] == cs[..n][i := c];
      TotalUpdate(cs[..n], i, c, d);
    }
  }

  /** The changer still knows which discipline the tty has. */
  ghost predicate UpToDate(s: State, a: Step)
    requires Enabled(s, a)
  {
    a.Assign? ==> s.changers[a.i].old_ == s.num
  }

  /** A step keeps the accounting exactly if it is not an assignment by a changer that has been
      overtaken: the discipline assigned in between is then never put, the first one put twice. */
  lemma NextAccountedIff(s: State, a: Step)
    requires Accounted(s) && Enabled(s, a)
    ensures Accounted(Next(s, a)) <==> UpToDate(s, a)
  {
    hide Total;
    var r := Next(s, a);
    if !a.Ref? && !a.Deref? {
      forall d: nat
        ensures Total(r.changers, d) == Total(s.changers, d) - Holds(s.changers[a.i], d) + Holds(r.changers[a.i], d)
      {
        TotalUpdate(s.changers, a.i, r.changers[a.i], d);
      }
      if a.Assign? && s.changers[a.i].old_ != s.num {
        var o := s.changers[a.i].old_;
        assert Count(r.refs, o) != One(r.num == o) + Total(r.changers, o);
      }
    }
  }

  ghost function Run(s: State, steps: seq<Step>): State {
    if |steps| == 0 then s
    else
      var r := Run(s, steps[..|steps| - 1]);
      if Enabled(r, steps[|steps| - 1]) then Next(r, steps[|steps| - 1]) else r
  }

  /** Along a run in which no changer is overtaken the accounting holds. */
  lemma {:induction false} RunAccounted(s: State, steps: seq<Step>)
    requires Accounted(s)
    requires forall k :: 0 <= k < |steps| && Enabled(Run(s, steps[..k]), steps[k]) ==> UpToDate(Run(s, steps[..k]), steps[k])
    ensures Accounted(Run(s, steps))
    decreases |steps|
  {
    hide Enabled, Next, Accounted, UpToDate;
    if |steps| > 0 {
      var n := |steps| - 1;
      forall k | 0 <= k < n
        ensures steps[..n][..k] == steps[..k] && steps[..n][k] == steps[k]
      {
      }
      RunAccounted(s, steps[..n]);
      if Enabled(Run(s, steps[..n]), steps[n]) {
        NextAccountedIff(Run(s, steps[..n]), steps[n]);
      }
    }
  }

  /** One changer cannot be overtaken. */
  ghost predicate Current(s: State) {
    |s.changers| == 1 && ((s.changers[0].Got? || s.changers[0].Cleared?) ==> s.changers[0].old_ == s.num)
  }

  lemma OneChangerCurrent(s: State, a: Step)
    requires Current(s) && Enabled(s, a)
    ensures UpToDate(s, a) && Current(Next(s, a))
  {
  }

  /** From the clearing of TTY_LDISC to its setting there are no users, and it is set otherwise. */
  ghost predicate Quiet(s: State) {
    |s.changers| == 1 &&
    if s.changers[0].Cleared? || s.changers[0].Assigned? then !s.enabled && s.users == 0 else s.enabled
  }

  /** One changer never discards a user's reference; and what each step does to the tty. */
  lemma OneChangerLosesNothing(s: State, a: Step)
    requires Quiet(s) && Enabled(s, a)
    ensures var r := Next(s, a);
            Quiet(r) && r.lost == s.lost && r.num == (if a.Assign? then s.changers[a.i].target else s.num) &&
            r.users == (if a.Ref? then s.users + 1 else if a.Deref? then s.users - 1 else s.users)
  {
  }

  /** A tty with N_TTY, unused, and two idle changers. */
  function TwoIdle(): (s: State)
    ensures Accounted(s)
  {
    var s := State(map[N_TTY := 1], N_TTY, 0, true, [Idle, Idle], 0);
    TotalIdle();
    s
  }

  lemma TotalIdle()
    ensures forall d: nat :: Total([Idle, Idle], d) == 0
  {
    forall d: nat
      ensures Total([Idle, Idle], d) == 0
    {
      TotalTwo(Idle, Idle, d);
    }
  }

  lemma TotalTwo(a: Changer, b: Changer, d: nat)
    ensures Total([a, b], d) == Holds(a, d) + Holds(b, d)
  {
    assert [a, b][..1] == [a] && [a][..0] == [];
    assert Total([a], d) == Holds(a, d);
  }

  /** Two changers start together, to disciplines 1 and 2, and go on one after the other: the second one's
      put finds N_TTY's count at zero, which is a BUG, and discipline 1 stays counted for nobody. */
  lemma SecondPutIsABug()
    ensures var s := Run(TwoIdle(), [Get(0, 1), Get(1, 2), Clear(0), Assign(0), Put(0), Clear(1), Assign(1)]);
            Enabled(s, Put(1)) && s.changers[1].old_ == N_TTY && Count(s.refs, N_TTY) == 0 &&
            s.num == 2 && Count(s.refs, 1) == 1 && Total(s.changers, 1) == 0
  {
    hide Total, Accounted;
    var steps := [Get(0, 1), Get(1, 2), Clear(0), Assign(0), Put(0), Clear(1), Assign(1)];
    var s0 := TwoIdle();
    var s1 := Became(s0, steps, 0);
    var s2 := Became(s0, steps, 1);
    var s3 := Became(s0, steps, 2);
    var s4 := Became(s0, steps, 3);
    var s5 := Became(s0, steps, 4);
    var s6 := Became(s0, steps, 5);
    var s7 := Became(s0, steps, 6);
    assert steps[..7] == steps;
    assert s7.changers == [Idle, Assigned(0)];
    TotalTwo(Idle, Assigned(0), 1);
  }

  /** Two changers that both find no users: the first one finishes and sets TTY_LDISC, somebody takes a
      reference, and the second one's assignment discards it. */
  lemma UserDiscarded()
    ensures var s := Run(TwoIdle(), [Get(0, 1), Get(1, 2), Clear(0), Clear(1), Assign(0), Put(0), Ref, Assign(1)]);
            s.lost == 1 && s.users == 0 && s.num == 2
  {
    hide Total, Accounted;
    var steps := [Get(0, 1), Get(1, 2), Clear(0), Clear(1), Assign(0), Put(0), Ref, Assign(1)];
    var s0 := TwoIdle();
    var s1 := Became(s0, steps, 0);
    var s2 := Became(s0, steps, 1);
    var s3 := Became(s0, steps, 2);
    var s4 := Became(s0, steps, 3);
    var s5 := Became(s0, steps, 4);
    var s6 := Became(s0, steps, 5);
    var s7 := Became(s0, steps, 6);
    var s8 := Became(s0, steps, 7);
    assert steps[..8] == steps;
  }

  lemma {:induction false} Became(s: State, steps: seq<Step>, k: nat) returns (r: State)
    requires k < |steps|
    ensures r == Run(s, steps[..k + 1])
    ensures var q := Run(s, steps[..k]); r == if Enabled(q, steps[k]) then Next(q, steps[k]) else q
    ensures k == 0 ==> Run(s, steps[..k]) == s
  {
    hide Enabled, Next;
    assert steps[..k + 1][..k] == steps[..k] && steps[..0] == [];
    r := Run(s, steps[..k + 1]);
  }
}
