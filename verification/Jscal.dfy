/** jscal's correction settings (utils/jscal.c:414-438, 551-621): printing them as a comma-separated
    list and reading such a list back into the correction array. */
module Jscal {
  import opened Common
  import opened Decimal

  const MAX_CORR: int := 1
  const COEFFICIENTS: nat := 8

  /** struct js_corr: a 16-bit type, a signed 16-bit precision, eight coefficients. */
  datatype Corr = Corr(typ: int, prec: int, coef: seq<int>)

  /** A value; a message and exit(1); or behaviour the C code leaves undefined. */
  datatype Outcome<T> = Ok(value: T) | Exit | Undefined

  /** NULL, or a pointer at a comma. */
  type Pointer = p: Option<string> | p.Some? ==> |p.value| > 0 witness None

  /** corr_coef_num */
  function CoefNum(typ: int): (n: nat)
    ensures n <= COEFFICIENTS
  {
    if typ == 1 then 4 else 0
  }

  /** Assignment to a signed 16-bit field. */
  function ToShort(n: int): int {
    (n + 32768) % 65536 - 32768
  }

  /** It is the only such number that differs by a multiple of 65536. */
  lemma ToShortWraps(n: int)
    ensures -32768 <= ToShort(n) < 32768 && (ToShort(n) - n) % 65536 == 0
    ensures -32768 <= n < 32768 ==> ToShort(n) == n
  {
  }

  /** Assignment to a signed 8-bit char: what `axes` and `buttons` hold of the driver's unsigned count. */
  function ToChar(n: int): (r: int)
    ensures -128 <= r < 128 && (-128 <= n < 128 ==> r == n) && (128 <= n < 256 ==> r == n - 256)
  {
    (n + 128) % 256 - 128
  }

  /** How often a loop up to a count runs. */
  function Loops(n: int): (k: nat)
    ensures k == n || (n < 0 && k == 0)
  {
    if n < 0 then 0 else n
  }

  predicate Shaped(c: Corr) {
    |c.coef| == COEFFICIENTS
  }

  /** A correction as the driver holds it. */
  predicate CorrOk(c: Corr) {
    Shaped(c) && 0 <= c.typ <= MAX_CORR && ToShort(c.prec) == c.prec
  }

  ghost predicate AllShaped(cs: seq<Corr>) {
    forall i :: 0 <= i < |cs| ==> Shaped(cs[i])
  }

  ghost predicate AllOk(cs: seq<Corr>) {
    forall i :: 0 <= i < |cs| ==> CorrOk(cs[i])
  }

  /** The part of a correction that is in use: the type, the precision and, of a broken line, four
      coefficients. */
  ghost predicate SameUsed(a: Corr, b: Corr) {
    a.typ == b.typ && a.prec == b.prec && (a.typ == 1 ==> 4 <= |a.coef| && 4 <= |b.coef| && a.coef[..4] == b.coef[..4])
  }

  // ---- printing ----

  function AxisNumbers(c: Corr): seq<int>
    requires Shaped(c)
  {
    [c.typ, c.prec] + c.coef[..CoefNum(c.typ)]
  }

  /** What is printed of an axis. */
  lemma AxisNumbersAre(c: Corr)
    requires CorrOk(c)
    ensures c.typ == 0 ==> AxisNumbers(c) == [0, c.prec]
    ensures c.typ == 1 ==> AxisNumbers(c) == [1, c.prec, c.coef[0], c.coef[1], c.coef[2], c.coef[3]]
    ensures -32768 <= c.prec < 32768
  {
  }

  /** The numbers of the axes from i on. */
  function NumbersFrom(cs: seq<Corr>, i: nat): seq<int>
    requires i <= |cs| && forall k :: 0 <= k < |cs| ==> Shaped(cs[k])
    decreases |cs| - i
  {
    if i == |cs| then [] else AxisNumbers(cs[i]) + NumbersFrom(cs, i + 1)
  }

  /** The axes whose settings, or the codes of a map, that are printed: the loop runs up to a count held
      in a char. */
  function Counted<T>(cs: seq<T>): (r: seq<T>)
    requires |cs| < 256
    ensures r == if |cs| < 128 then cs else []
  {
    cs[..Loops(ToChar(|cs|))]
  }

  function Settings(cs: seq<Corr>): string
    requires |cs| < 256 && forall k :: 0 <= k < |cs| ==> Shaped(cs[k])
  {
    Printed(ToChar(|cs|)) + CommaList(NumbersFrom(Counted(cs), 0))
  }

  lemma AppendNumber(ns: seq<int>, n: int)
    ensures CommaList(ns + [n]) == CommaList(ns) + "," + Printed(n)
  {
    hide Printed;
    CommaListConcat(ns, [n]);
    assert CommaList([n]) == "," + Printed(n) + CommaList([n][1..]);
    assert CommaList(ns) + ("," + Printed(n)) == CommaList(ns) + "," + Printed(n);
  }

  /** What text holds after printing head and then the numbers ns. */
  ghost predicate Holds(text: string, head: string, ns: seq<int>) {
    text == head + CommaList(ns)
  }

  /** printf(",%d", n) */
  method PrintNumber(text: string, ghost head: string, ghost ns: seq<int>, n: int) returns (r: string)
    requires Holds(text, head, ns)
    ensures Holds(r, head, ns + [n])
  {
    hide Printed, CommaList;
    AppendNumber(ns, n);
    r := text + "," + Printed(n);
    assert CommaList(ns) + "," + Printed(n) == CommaList(ns) + ("," + Printed(n));
    assert r == head + (CommaList(ns) + "," + Printed(n));
  }

  /** One round of print_settings' axis loop. */
  method PrintAxis(text: string, ghost head: string, ghost ns: seq<int>, c: Corr) returns (r: string)
    requires Shaped(c) && Holds(text, head, ns)
    ensures Holds(r, head, ns + AxisNumbers(c))
  {
    hide Holds;
    r := PrintNumber(text, head, ns, c.typ);
    r := PrintNumber(r, head, ns + [c.typ], c.prec);
    ghost var done := ns + [c.typ] + [c.prec];
    assert done + c.coef[..0] == done;
    for j := 0 to CoefNum(c.typ)
      invariant Holds(r, head, done + c.coef[..j])
    {
      r := PrintNumber(r, head, done + c.coef[..j], c.coef[j]);
      assert done + c.coef[..j + 1] == done + c.coef[..j] + [c.coef[j]];
    }
    assert done + c.coef[..CoefNum(c.typ)] == ns + AxisNumbers(c);
  }

  /** print_settings: the list that follows "jscal -s ". */
  method PrintSettings(cs: seq<Corr>) returns (text: string)
    requires |cs| < 256 && AllShaped(cs)
    ensures text == Settings(cs)
  {
    hide Printed, CommaList, Holds;
    var axes := ToChar(|cs|);
    text := Printed(axes);
    ghost var done: seq<int> := [];
    ghost var head, kept := text, Counted(cs);
    HoldsNothing(text);
    for i := 0 to Loops(axes)
      invariant Holds(text, head, done) && done + NumbersFrom(kept, i) == NumbersFrom(kept, 0)
    {
      assert done + NumbersFrom(kept, i) == done + AxisNumbers(kept[i]) + NumbersFrom(kept, i + 1);
      text := PrintAxis(text, head, done, cs[i]);
      done := done + AxisNumbers(cs[i]);
    }
    HoldsAll(text, head, done);
    assert done == NumbersFrom(kept, 0);
  }

  lemma HoldsNothing(s: string)
    ensures Holds(s, s, [])
  {
  }

  lemma HoldsAll(text: string, head: string, ns: seq<int>)
    ensures Holds(text, head, ns) ==> text == head + CommaList(ns)
  {
  }

  // ---- reading ----

  /** sscanf(++p, "%d", &n); p = strstr(p, ",") */
  function Number(p: Pointer, prev: int): (r: (int, Pointer))
    requires p.Some?
  {
    (Scanned(p.value[1..], prev), FromComma(p.value[1..]))
  }

  /** The coefficient loop, from coefficient j on. */
  function ReadCoefs(p: Pointer, coef: seq<int>, j: nat, n: nat): (r: Outcome<(Pointer, seq<int>)>)
    requires j <= n <= |coef|
    ensures r.Ok? ==> |r.value.1| == |coef|
    decreases n - j
  {
    if j == n then Ok((p, coef))
    else if p.None? then Exit
    else
      var (c, q) := Number(p, coef[j]);
      ReadCoefs(q, coef[j := c], j + 1, n)
  }

  /** One round of the axis loop; t is the variable sscanf writes.  A negative type indexes
      corr_coef_num outside its bounds. */
  function ReadAxis(p: Pointer, c: Corr, t: int): (r: Outcome<(Pointer, Corr, int)>)
    requires Shaped(c)
    ensures r.Ok? ==> Shaped(r.value.1)
  {
    if p.None? then Exit
    else
      var (typ, p1) := Number(p, t);
      if typ > MAX_CORR || p1.None? then Exit
      else
        var (prec, p2) := Number(p1, typ);
        if typ < 0 then Undefined
        else
          match ReadCoefs(p2, c.coef, 0, CoefNum(typ))
          case Ok((p3, coef)) => Ok((p3, Corr(typ, ToShort(prec), coef), prec))
          case Exit => Exit
          case Undefined => Undefined
  }

  function ReadAxes(p: Pointer, cs: seq<Corr>, t: int, i: nat, n: nat): (r: Outcome<(Pointer, seq<Corr>)>)
    requires i <= n <= |cs| && forall k :: 0 <= k < |cs| ==> Shaped(cs[k])
    ensures r.Ok? ==> |r.value.1| == |cs|
    decreases n - i
  {
    if i == n then Ok((p, cs))
    else
      match ReadAxis(p, cs[i], t)
      case Ok((p1, c, t1)) => ReadAxes(p1, cs[i := c], t1, i + 1, n)
      case Exit => Exit
      case Undefined => Undefined
  }

  /** set_correction on a joystick whose axes count is held as `axes`: the new corr array. */
  function Corrections(arg: Option<string>, axes: int, cs: seq<Corr>): (r: Outcome<seq<Corr>>)
    requires axes <= |cs| && forall k :: 0 <= k < |cs| ==> Shaped(cs[k])
  {
    if arg.None? || Scanned(arg.value, 0) != axes then Exit
    else
      match ReadAxes(FromComma(arg.value), cs, axes, 0, Loops(axes))
      case Ok((p, cs')) => if p.Some? then Exit else Ok(cs')
      case Exit => Exit
      case Undefined => Undefined
  }

  // ---- round trip ----

  /** p points at the printed list of ns. */
  ghost predicate PointsAt(p: Pointer, ns: seq<int>) {
    p == AsPointer(ns)
  }

  lemma AtEnd(p: Pointer)
    ensures PointsAt(p, []) ==> p.None?
  {
  }

  lemma ReadNext(p: Pointer, n: int, ns: seq<int>, prev: int)
    requires PointsAt(p, [n] + ns)
    ensures p.Some? && Number(p, prev).0 == n && PointsAt(Number(p, prev).1, ns)
  {
    hide Printed, Scanned, FromComma;
    assert ([n] + ns)[1..] == ns;
    var tail := Printed(n) + CommaList(ns);
    assert p.value == "," + tail;
    assert p.value[1..] == tail;
    ReadOne(n, ns, prev);
  }

  lemma {:induction false} CoefsReadBack(p: Pointer, coef: seq<int>, before: seq<int>, j: nat, n: nat, rest: seq<int>)
    requires j <= n <= |coef| == |before| && before[..j] == coef[..j]
    requires PointsAt(p, coef[j..n] + rest)
    ensures var r := ReadCoefs(p, before, j, n);
            r.Ok? && PointsAt(r.value.0, rest) && |r.value.1| == |coef| && r.value.1[..n] == coef[..n]
    decreases n - j
  {
    hide PointsAt, Number;
    if j < n {
      var ns := coef[j + 1..n] + rest;
      assert coef[j..n] + rest == [coef[j]] + ns;
      ReadNext(p, coef[j], ns, before[j]);
      var b := before[j := coef[j]];
      assert b[..j + 1] == before[..j] + [coef[j]] == coef[..j + 1];
      CoefsReadBack(Number(p, before[j]).1, coef, b, j + 1, n, rest);
    } else {
      assert coef[j..n] + rest == rest;
    }
  }

  lemma AxisReadBack(p: Pointer, c: Corr, before: Corr, t: int, rest: seq<int>)
    requires CorrOk(c) && Shaped(before) && PointsAt(p, AxisNumbers(c) + rest)
    ensures var r := ReadAxis(p, before, t);
            r.Ok? && PointsAt(r.value.0, rest) && Shaped(r.value.1) && SameUsed(c, r.value.1)
  {
    hide PointsAt, Number, ReadCoefs;
    var n := CoefNum(c.typ);
    var ns := c.coef[0..n] + rest;
    assert AxisNumbers(c) + rest == [c.typ] + ([c.prec] + ns);
    ReadNext(p, c.typ, [c.prec] + ns, t);
    var p1 := Number(p, t).1;
    ReadNext(p1, c.prec, ns, c.typ);
    CoefsReadBack(Number(p1, c.typ).1, c.coef, before.coef, 0, n, rest);
  }

  lemma {:induction false} AxesReadBack(p: Pointer, cs: seq<Corr>, before: seq<Corr>, t: int, i: nat, rest: seq<int>)
    requires i <= |cs| <= |before| && AllOk(cs) && AllShaped(before) && AllShaped(cs)
    requires forall k :: 0 <= k < i ==> SameUsed(cs[k], before[k])
    requires PointsAt(p, NumbersFrom(cs, i) + rest)
    ensures var r := ReadAxes(p, before, t, i, |cs|);
            r.Ok? && PointsAt(r.value.0, rest) && |r.value.1| == |before| &&
            (forall k :: 0 <= k < |cs| ==> SameUsed(cs[k], r.value.1[k])) && r.value.1[|cs|..] == before[|cs|..]
    decreases |cs| - i
  {
    hide PointsAt, SameUsed, ReadAxis, AxisNumbers, CorrOk, Shaped;
    if i < |cs| {
      assert CorrOk(cs[i]) && Shaped(before[i]) && Shaped(cs[i]);
      assert NumbersFrom(cs, i) + rest == AxisNumbers(cs[i]) + (NumbersFrom(cs, i + 1) + rest);
      AxisReadBack(p, cs[i], before[i], t, NumbersFrom(cs, i + 1) + rest);
      var r := ReadAxis(p, before[i], t).value;
      AxesReadBack(r.0, cs, before[i := r.1], r.2, i + 1, rest);
    } else {
      assert NumbersFrom(cs, i) + rest == rest;
    }
  }

  lemma OkShaped(cs: seq<Corr>)
    ensures AllOk(cs) ==> AllShaped(cs)
  {
  }

  /** Reading what print_settings printed restores type, precision and used coefficients of every axis,
      whatever corr held before, and nothing else of corr changes.  The count is a char: from 128 axes on
      nothing is printed and nothing is read. */
  lemma SettingsRoundTripIff(cs: seq<Corr>, before: seq<Corr>)
    requires |cs| <= |before| && |cs| < 256 && AllOk(cs) && AllShaped(before)
    ensures AllShaped(cs)
    ensures var r := Corrections(Some(Settings(cs)), ToChar(|cs|), before);
            r.Ok? && |r.value| == |before| && r.value[|cs|..] == before[|cs|..] &&
            ((forall k :: 0 <= k < |cs| ==> SameUsed(cs[k], r.value[k]))
             <==> |cs| < 128 || forall k :: 0 <= k < |cs| ==> SameUsed(cs[k], before[k]))
  {
    hide SameUsed, ReadAxes, NumbersFrom, Scanned, Printed, CommaList, FromComma, CorrOk, Shaped;
    OkShaped(cs);
    var kept := Counted(cs);
    ReadOne(ToChar(|cs|), NumbersFrom(kept, 0), 0);
    assert NumbersFrom(kept, 0) + [] == NumbersFrom(kept, 0);
    AxesReadBack(FromComma(Settings(cs)), kept, before, ToChar(|cs|), 0, []);
    var r := ReadAxes(FromComma(Settings(cs)), before, ToChar(|cs|), 0, |kept|);
    if |cs| >= 128 {
      NothingRead(FromComma(Settings(cs)), before, ToChar(|cs|));
    }
    AtEnd(r.value.0);
  }

  lemma NothingRead(p: Pointer, cs: seq<Corr>, t: int)
    requires AllShaped(cs)
    ensures ReadAxes(p, cs, t, 0, 0) == Ok((p, cs))
  {
  }

  /** Settings read for another number of axes are refused. */
  lemma SettingsForOthersRefused(cs: seq<Corr>, axes: nat, before: seq<Corr>)
    requires axes <= |before| && axes < 256 && |cs| < 256 && axes != |cs| && AllShaped(cs) && AllShaped(before)
    ensures Corrections(Some(Settings(cs)), ToChar(axes), before) == Exit
  {
    hide ReadAxes, NumbersFrom, Scanned, Printed, CommaList, FromComma, Shaped;
    ReadOne(ToChar(|cs|), NumbersFrom(Counted(cs), 0), 0);
  }

  // ---- lists that are too short or too long ----

  lemma ReadFewerCoefs(p: Pointer, coef: seq<int>, before: seq<int>, j: nat, n: nat, k: nat)
    requires j <= n <= |coef| == |before| && k < n - j
    requires PointsAt(p, coef[j..j + k])
    ensures ReadCoefs(p, before, j, n) == Exit
    decreases n - j
  {
    hide PointsAt, Number;
    if k == 0 {
      assert coef[j..j + k] == [];
      AtEnd(p);
    } else {
      assert coef[j..j + k] == [coef[j]] + coef[j + 1..j + 1 + (k - 1)];
      ReadNext(p, coef[j], coef[j + 1..j + 1 + (k - 1)], before[j]);
      ReadFewerCoefs(Number(p, before[j]).1, coef, before[j := coef[j]], j + 1, n, k - 1);
    }
  }

  lemma ReadPartAxis(p: Pointer, c: Corr, before: Corr, t: int, k: nat)
    requires CorrOk(c) && Shaped(before) && k < |AxisNumbers(c)| && PointsAt(p, AxisNumbers(c)[..k])
    ensures ReadAxis(p, before, t) == Exit
  {
    hide PointsAt, Number, ReadCoefs;
    var ns := AxisNumbers(c)[..k];
    if k == 0 {
      AtEnd(p);
    } else {
      assert ns == [c.typ] + ns[1..];
      ReadNext(p, c.typ, ns[1..], t);
      var p1 := Number(p, t).1;
      if k == 1 {
        assert ns[1..] == [];
        AtEnd(p1);
      } else {
        assert ns[1..] == [c.prec] + ns[2..];
        ReadNext(p1, c.prec, ns[2..], c.typ);
        assert ns[2..] == c.coef[0..0 + (k - 2)];
        ReadFewerCoefs(Number(p1, c.typ).1, c.coef, before.coef, 0, CoefNum(c.typ), k - 2);
      }
    }
  }

  lemma {:induction false} ReadPartAxes(p: Pointer, cs: seq<Corr>, before: seq<Corr>, t: int, i: nat, k: nat)
    requires i <= |cs| <= |before| && AllOk(cs) && AllShaped(before) && AllShaped(cs) && k < |NumbersFrom(cs, i)|
    requires PointsAt(p, NumbersFrom(cs, i)[..k])
    ensures ReadAxes(p, before, t, i, |cs|) == Exit
    decreases |cs| - i
  {
    hide PointsAt, ReadAxis, AxisNumbers, CorrOk, Shaped;
    assert CorrOk(cs[i]) && Shaped(before[i]) && Shaped(cs[i]);
    var (mine, others) := (AxisNumbers(cs[i]), NumbersFrom(cs, i + 1));
    if k < |mine| {
      assert NumbersFrom(cs, i)[..k] == mine[..k];
      ReadPartAxis(p, cs[i], before[i], t, k);
    } else {
      assert NumbersFrom(cs, i)[..k] == mine + others[..k - |mine|];
      AxisReadBack(p, cs[i], before[i], t, others[..k - |mine|]);
      var r := ReadAxis(p, before[i], t).value;
      ReadPartAxes(r.0, cs, before[i := r.1], r.2, i + 1, k - |mine|);
    }
  }

  /** A list that breaks off anywhere, or goes on, is refused with a message. */
  lemma WrongLengthRefused(cs: seq<Corr>, before: seq<Corr>, k: nat, more: seq<int>)
    requires |cs| <= |before| && |cs| < 128 && AllOk(cs) && AllShaped(before) && AllShaped(cs)
    ensures k < |NumbersFrom(cs, 0)| ==>
              Corrections(Some(Printed(|cs|) + CommaList(NumbersFrom(cs, 0)[..k])), |cs|, before) == Exit
    ensures |more| > 0 ==> Corrections(Some(Printed(|cs|) + CommaList(NumbersFrom(cs, 0) + more)), |cs|, before) == Exit
  {
    hide ReadAxes, NumbersFrom, Scanned, Printed, CommaList, FromComma, CorrOk, Shaped, SameUsed;
    var ns := NumbersFrom(cs, 0);
    if k < |ns| {
      ReadOne(|cs|, ns[..k], 0);
      ReadPartAxes(FromComma(Printed(|cs|) + CommaList(ns[..k])), cs, before, |cs|, 0, k);
    }
    if |more| > 0 {
      ReadOne(|cs|, ns + more, 0);
      AxesReadBack(FromComma(Printed(|cs|) + CommaList(ns + more)), cs, before, |cs|, 0, more);
    }
  }

  /** An unknown type is refused; a negative one indexes the table of coefficient counts before its start. */
  lemma WrongTypeRefused(typ: int, prec: int, more: seq<int>, before: seq<Corr>)
    requires |before| >= 1 && AllShaped(before)
    ensures typ > 1 ==> Corrections(Some(Printed(1) + CommaList([typ, prec] + more)), 1, before) == Exit
    ensures typ < 0 ==> Corrections(Some(Printed(1) + CommaList([typ, prec] + more)), 1, before) == Undefined
  {
    hide Scanned, Printed, CommaList, FromComma, Shaped, Number, ReadCoefs;
    ReadOne(1, [typ, prec] + more, 0);
    var p: Pointer := FromComma(Printed(1) + CommaList([typ, prec] + more));
    assert Shaped(before[0]);
    assert [typ, prec] + more == [typ] + ([prec] + more);
    ReadNext(p, typ, [prec] + more, 1);
    ReadNext(Number(p, 1).1, prec, more, typ);
    assert ReadAxes(p, before, 1, 0, 1) == match ReadAxis(p, before[0], 1)
      case Ok((p1, c, t1)) => ReadAxes(p1, before[0 := c], t1, 1, 1)
      case Exit => Exit
      case Undefined => Undefined;
  }

  // ---- the reader as jscal runs it ----

  class Settler {
    var corr: seq<Corr>

    ghost predicate Valid()
      reads this
    {
      AllShaped(corr)
    }

    constructor (cs: seq<Corr>)
      requires AllShaped(cs)
      ensures Valid() && corr == cs
    {
      corr := cs;
    }

    /** The coefficient loop for axis i. */
    method ReadCoefsInto(i: nat, p0: Pointer) returns (o: Outcome<Pointer>)
      requires Valid() && i < |corr|
      modifies this
      ensures Valid() && |corr| == |old(corr)|
      ensures match ReadCoefs(p0, old(corr)[i].coef, 0, CoefNum(old(corr)[i].typ)) {
                case Ok((p, coef)) => o == Ok(p) && corr == old(corr)[i := old(corr)[i].(coef := coef)]
                case Exit => o == Exit
                case Undefined => o == Undefined
              }
    {
      hide Number;
      var p, c := p0, corr[i];
      var n := CoefNum(c.typ);
      for j := 0 to n
        invariant Shaped(c) && c.typ == old(corr)[i].typ && c.prec == old(corr)[i].prec
        invariant ReadCoefs(p, c.coef, j, n) == ReadCoefs(p0, old(corr)[i].coef, 0, n)
      {
        if p.None? {
          o := Exit;
          return;
        }
        var (v, q) := Number(p, c.coef[j]);
        c, p := c.(coef := c.coef[j := v]), q;
      }
      corr := corr[i := c];
      o := Ok(p);
    }

    /** One round of the axis loop. */
    method ReadAxisInto(i: nat, p: Pointer, t0: int) returns (o: Outcome<Pointer>, t: int)
      requires Valid() && i < |corr|
      modifies this
      ensures Valid() && |corr| == |old(corr)|
      ensures match ReadAxis(p, old(corr)[i], t0) {
                case Ok((p1, c, t1)) => o == Ok(p1) && t == t1 && corr == old(corr)[i := c]
                case Exit => o == Exit
                case Undefined => o == Undefined
              }
    {
      hide Number, ReadCoefs;
      t := t0;
      if p.None? {
        o := Exit;
        return;
      }
      var (typ, p1) := Number(p, t);
      t := typ;
      if t > MAX_CORR {
        o := Exit;
        return;
      }
      corr := corr[i := corr[i].(typ := t)];
      if p1.None? {
        o := Exit;
        return;
      }
      var (prec, p2) := Number(p1, t);
      t := prec;
      if typ < 0 {
        o := Undefined;
        return;
      }
      corr := corr[i := corr[i].(prec := ToShort(t))];
      o := ReadCoefsInto(i, p2);
    }

    /** set_correction */
    method SetCorrection(arg: Option<string>, axes: int) returns (o: Outcome<()>)
      requires Valid() && axes <= |corr|
      modifies this
      ensures Valid()
      ensures match Corrections(arg, axes, old(corr)) {
                case Ok(cs) => o == Ok(()) && corr == cs
                case Exit => o == Exit
                case Undefined => o == Undefined
              }
    {
      hide ReadAxis, Scanned, FromComma, Shaped;
      if arg.None? {
        return Exit;
      }
      var t := Scanned(arg.value, 0);
      var p: Pointer := FromComma(arg.value);
      if t != axes {
        return Exit;
      }
      for i := 0 to Loops(axes)
        invariant Valid() && axes <= |corr|
        invariant ReadAxes(p, corr, t, i, Loops(axes)) == ReadAxes(FromComma(arg.value), old(corr), axes, 0, Loops(axes))
      {
        var r;
        r, t := ReadAxisInto(i, p, t);
        if !r.Ok? {
          return if r.Exit? then Exit else Undefined;
        }
        p := r.value;
      }
      if p.Some? {
        return Exit;
      }
      return Ok(());
    }
  }
}
