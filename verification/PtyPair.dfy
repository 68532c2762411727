/** Opening and closing a pty pair (drivers/char/tty_io.c: init_dev, release_dev and
    check_tty_count) as atomic steps: one table index, any interleaving of opens and closes of
    both sides. */
module PtyPair {

  const EIO: int := 5
  const ENOMEM: int := 12

  datatype Which = Master | Slave

  /** tty->count and TTY_CLOSING of one side. */
  datatype Side = Side(count: int, closing: bool)

  /** The two linked ttys, or nothing in the table slots. */
  datatype Pair = NoPair | Pair(master: Side, slave: Side)

  /** The slot, and bookkeeping: the open files on each side, pairs created and released. */
  datatype State = State(pair: Pair, masterFiles: nat, slaveFiles: nat, created: nat, released: nat)

  function Init(): State {
    State(NoPair, 0, 0, 0, 0)
  }

  function AddFile(s: State, w: Which, n: int): (r: State)
    requires 0 <= n + (if w == Master then s.masterFiles else s.slaveFiles)
  {
    match w
    case Master => s.(masterFiles := s.masterFiles + n)
    case Slave => s.(slaveFiles := s.slaveFiles + n)
  }

  /** init_dev; `mem` is what the allocator answers on a first open. */
  function Open(s: State, w: Which, mem: bool): (r: (State, int)) {
    match s.pair
    case NoPair =>
      if !mem then (s, -ENOMEM)
      else
        // Opening the master counts once on each side, opening the slave only on its own.
        var p := if w == Master then Pair(Side(1, false), Side(1, false)) else Pair(Side(0, false), Side(1, false));
        (AddFile(s.(pair := p, created := s.created + 1), w, 1), 0)
    case Pair(m, sl) =>
      if w == Master then
        if m.closing then (s, -EIO)
        else if m.count != 0 then (s, -EIO)
        else (AddFile(s.(pair := Pair(m.(count := m.count + 1), sl.(count := sl.count + 1))), Master, 1), 0)
      else
        if sl.closing then (s, -EIO)
        else (AddFile(s.(pair := Pair(m, sl.(count := sl.count + 1))), Slave, 1), 0)
  }

  function NotNegative(n: int): int {
    if n < 0 then 0 else n
  }

  /** release_dev for a file on side w. */
  function Close(s: State, w: Which): (r: State)
    requires s.pair.Pair? && (if w == Master then s.masterFiles > 0 else s.slaveFiles > 0)
  {
    var m, sl := s.pair.master, s.pair.slave;
    match w
    case Master =>
      var ttyClosing := m.count <= 1;
      var otherClosing := sl.count <= 1;
      var m' := Side(NotNegative(m.count - 1), m.closing || ttyClosing);
      var sl' := Side(NotNegative(sl.count - 1), sl.closing || otherClosing);
      var r := AddFile(s.(pair := Pair(m', sl')), Master, -1);
      if ttyClosing && otherClosing then r.(pair := NoPair, released := s.released + 1) else r
    case Slave =>
      var ttyClosing := sl.count <= 1;
      var otherClosing := m.count <= 0;
      var sl' := Side(NotNegative(sl.count - 1), sl.closing || ttyClosing);
      var m' := m.(closing := m.closing || otherClosing);
      var r := AddFile(s.(pair := Pair(m', sl')), Slave, -1);
      if ttyClosing && otherClosing then r.(pair := NoPair, released := s.released + 1) else r
  }

  datatype Step = OpenStep(w: Which, mem: bool) | CloseStep(w: Which)

  /** One step; a side without open files has none to close. */
  function Next(s: State, a: Step): State {
    match a
    case OpenStep(w, mem) => Open(s, w, mem).0
    case CloseStep(w) =>
      if s.pair.Pair? && (if w == Master then s.masterFiles > 0 else s.slaveFiles > 0) then Close(s, w) else s
  }

  /** What check_tty_count computes for the slave: its files, and one more while the master is open. */
  function ExpectedSlave(s: State): int {
    s.slaveFiles + if s.masterFiles > 0 then 1 else 0
  }

  ghost predicate Inv(s: State) {
    && s.masterFiles <= 1
    && s.created == s.released + (if s.pair.Pair? then 1 else 0)
    && match s.pair
       case NoPair => s.masterFiles == 0 && s.slaveFiles == 0
       case Pair(m, sl) =>
         && s.masterFiles + s.slaveFiles > 0
         && m.count == s.masterFiles && sl.count == ExpectedSlave(s)
         && (m.closing ==> s.masterFiles == 0) && !sl.closing
  }

  /** A step opens or closes one file, if that can be done: every other count stays. */
  lemma StepMoves(s: State, a: Step)
    requires Inv(s)
    ensures a.CloseStep? && a.w == Master ==>
              Next(s, a).slaveFiles == s.slaveFiles && Next(s, a).masterFiles == (if s.masterFiles > 0 then s.masterFiles - 1 else 0)
    ensures a.CloseStep? && a.w == Slave ==>
              Next(s, a).masterFiles == s.masterFiles && Next(s, a).slaveFiles == (if s.slaveFiles > 0 then s.slaveFiles - 1 else 0)
    ensures a.OpenStep? ==>
              var ok := Open(s, a.w, a.mem).1 == 0;
              Next(s, a).masterFiles == (if ok && a.w == Master then s.masterFiles + 1 else s.masterFiles) &&
              Next(s, a).slaveFiles == (if ok && a.w == Slave then s.slaveFiles + 1 else s.slaveFiles)
  {
  }

  lemma OpenKeepsInv(s: State, w: Which, mem: bool)
    requires Inv(s)
    ensures Inv(Open(s, w, mem).0)
  {
  }

  lemma CloseKeepsInv(s: State, w: Which)
    requires Inv(s) && s.pair.Pair? && (if w == Master then s.masterFiles > 0 else s.slaveFiles > 0)
    ensures Inv(Close(s, w))
  {
  }

  /** The close that empties both sides, and no other, releases the pair. */
  lemma ReleasedWhenEmptied(s: State, w: Which)
    requires Inv(s) && s.pair.Pair? && (if w == Master then s.masterFiles > 0 else s.slaveFiles > 0)
    ensures Close(s, w).released == s.released + 1 <==> s.masterFiles + s.slaveFiles == 1
    ensures Close(s, w).pair.NoPair? <==> s.masterFiles + s.slaveFiles == 1
  {
  }

  /** After any close that leaves the pair, the master is marked TTY_CLOSING exactly if no file is open on it,
      and the slave is not: so a master cannot be opened beside slave files that outlive it, and neither can
      one that was never open once a slave file has been closed. */
  lemma ClosingMarked(s: State, w: Which)
    requires Inv(s) && s.pair.Pair? && (if w == Master then s.masterFiles > 0 else s.slaveFiles > 0)
    requires s.masterFiles + s.slaveFiles > 1
    ensures var r := Close(s, w);
            r.pair.Pair? && (r.pair.master.closing <==> r.masterFiles == 0) && !r.pair.slave.closing &&
            (Open(r, Master, true).1 == -EIO) && Open(r, Slave, true).1 == 0 &&
            r.masterFiles == s.masterFiles - (if w == Master then 1 else 0) && r.slaveFiles == s.slaveFiles - (if w == Slave then 1 else 0)
  {
  }

  /** The "bad count" branches of release_dev are never taken. */
  lemma CountsNeverNegative(s: State, w: Which)
    requires Inv(s) && s.pair.Pair? && (if w == Master then s.masterFiles > 0 else s.slaveFiles > 0)
    ensures w == Master ==> s.pair.master.count - 1 >= 0 && s.pair.slave.count - 1 >= 0
    ensures w == Slave ==> s.pair.slave.count - 1 >= 0
  {
  }

  /** A side marked TTY_CLOSING, and a master that is open, cannot be opened; the attempt changes
      nothing.  Every other open succeeds, given memory. */
  lemma OpenOutcome(s: State, w: Which, mem: bool)
    requires Inv(s)
    ensures Open(s, w, mem).1 == (if s.pair.NoPair? then (if mem then 0 else -ENOMEM)
                                  else if w == Master && (s.pair.master.closing || s.masterFiles > 0) then -EIO
                                  else 0)
    ensures Open(s, w, mem).1 != 0 ==> Open(s, w, mem).0 == s
    ensures Open(s, w, mem).1 == 0 ==> Open(s, w, mem).0.masterFiles + Open(s, w, mem).0.slaveFiles == s.masterFiles + s.slaveFiles + 1
  {
  }

  function Run(s: State, steps: seq<Step>): State {
    if |steps| == 0 then s else Next(Run(s, steps[..|steps| - 1]), steps[|steps| - 1])
  }

  lemma {:induction false} RunInv(steps: seq<Step>)
    ensures Inv(Run(Init(), steps))
  {
    if |steps| > 0 {
      var n := |steps| - 1;
      RunInv(steps[..n]);
      var r := Run(Init(), steps[..n]);
      match steps[n]
      case OpenStep(w, mem) => OpenKeepsInv(r, w, mem);
      case CloseStep(w) =>
        if r.pair.Pair? && (if w == Master then r.masterFiles > 0 else r.slaveFiles > 0) {
          CloseKeepsInv(r, w);
        }
    }
  }

  /** Over every interleaving: each count is that side's open files, plus one on the slave while
      the master is open; pairs are released exactly once each; once a side is marked
      TTY_CLOSING it stays closed until the pair is released. */
  lemma RunSafe(steps: seq<Step>)
    ensures var r := Run(Init(), steps);
            && r.masterFiles <= 1 && r.created == r.released + (if r.pair.Pair? then 1 else 0)
            && (r.pair.Pair? <==> r.masterFiles + r.slaveFiles > 0)
            && (r.pair.Pair? ==> r.pair.master.count == r.masterFiles && r.pair.slave.count == ExpectedSlave(r))
  {
    RunInv(steps);
  }

  /** A closing master stays closed as long as the pair lives. */
  lemma {:induction false} ClosingIsFinal(s: State, steps: seq<Step>)
    requires Inv(s) && s.pair.Pair? && s.pair.master.closing
    ensures var r := Run(s, steps);
            && Inv(r) && (r.released == s.released ==> r.pair.Pair? && r.pair.master.closing && r.masterFiles == 0)
            && r.released >= s.released
  {
    if |steps| > 0 {
      var n := |steps| - 1;
      ClosingIsFinal(s, steps[..n]);
      var r := Run(s, steps[..n]);
      match steps[n]
      case OpenStep(w, mem) => OpenKeepsInv(r, w, mem);
      case CloseStep(w) =>
        if r.pair.Pair? && (if w == Master then r.masterFiles > 0 else r.slaveFiles > 0) {
          CloseKeepsInv(r, w);
        }
    }
  }
}
