/** jscal's axis and button maps (utils/jscal.c:337-412, 442-549): printing them, reading them back,
    and moving the calibration data along when the axis map changes. */
module JscalMappings {
  import opened Common
  import opened Decimal
  import opened Jscal

  /** ABS_MAX, KEY_MAX and BTN_MISC of the input layer. */
  datatype Limits = Limits(absMax: nat, keyMax: nat, btnMisc: nat)

  /** What a map entry may be: its bounds, and the width of the array element that stores it. */
  datatype Kind = Kind(lo: Option<int>, hi: int, width: nat)

  function AxisKind(l: Limits): Kind {
    Kind(None, l.absMax + 1, 256)
  }

  function ButtonKind(l: Limits): Kind {
    Kind(Some(l.btnMisc), l.keyMax, 65536)
  }

  predicate Accepts(k: Kind, v: int) {
    v <= k.hi && (k.lo.Some? ==> k.lo.value <= v)
  }

  /** A code that the map can hold and the reader takes. */
  predicate CodeOk(k: Kind, v: int) {
    Accepts(k, v) && 0 <= v < k.width
  }

  /** Assignment to an unsigned array element. */
  function Stored(k: Kind, v: int): int
    requires k.width > 0
  {
    v % k.width
  }

  lemma StoredOk(k: Kind, v: int)
    requires k.width > 0
    ensures CodeOk(k, v) ==> Accepts(k, v) && Stored(k, v) == v
  {
  }

  ghost predicate CodesOk(k: Kind, codes: seq<int>) {
    forall i :: 0 <= i < |codes| ==> CodeOk(k, codes[i])
  }

  // ---- printing ----

  function MapNumbers(axmap: seq<int>, buttonmap: seq<int>): seq<int>
    requires |axmap| < 256 && |buttonmap| < 256
  {
    Counted(axmap) + [ToChar(|buttonmap|)] + Counted(buttonmap)
  }

  /** The list that follows "jscal -u ". */
  function MapText(axmap: seq<int>, buttonmap: seq<int>): string
    requires |axmap| < 256 && |buttonmap| < 256
  {
    Printed(ToChar(|axmap|)) + CommaList(MapNumbers(axmap, buttonmap))
  }

  method PrintCodes(text: string, ghost head: string, ghost ns: seq<int>, codes: seq<int>) returns (r: string)
    requires Holds(text, head, ns)
    ensures Holds(r, head, ns + codes)
  {
    hide Holds;
    r := text;
    assert ns + codes[..0] == ns;
    for i := 0 to |codes|
      invariant Holds(r, head, ns + codes[..i])
    {
      r := PrintNumber(r, head, ns + codes[..i], codes[i]);
      assert ns + codes[..i + 1] == ns + codes[..i] + [codes[i]];
    }
    assert codes[..|codes|] == codes;
  }

  /** print_mappings; a driver that has no button map to give yields an empty one. */
  method PrintMappings(axmap: seq<int>, buttonmap: Option<seq<int>>) returns (text: string)
    requires |axmap| < 256 && (buttonmap.Some? ==> |buttonmap.value| < 256)
    ensures text == MapText(axmap, if buttonmap.Some? then buttonmap.value else [])
  {
    hide Holds, Printed, CommaList;
    var bs := if buttonmap.Some? then buttonmap.value else [];
    var axes, buttons := ToChar(|axmap|), ToChar(|bs|);
    text := Printed(axes);
    ghost var head, shown := text, Counted(axmap);
    HoldsNothing(text);
    text := PrintCodes(text, head, [], axmap[..Loops(axes)]);
    assert [] + shown == shown;
    text := PrintNumber(text, head, shown, buttons);
    text := PrintCodes(text, head, shown + [buttons], bs[..Loops(buttons)]);
    HoldsAll(text, head, MapNumbers(axmap, bs));
  }

  // ---- reading ----

  /** The loop over a map's entries, from entry i on; v is the variable sscanf writes. */
  function ReadMap(k: Kind, p: Pointer, m: seq<int>, v: int, i: nat, n: nat): (r: Outcome<(Pointer, seq<int>)>)
    requires i <= n <= |m| && k.width > 0
    ensures r.Ok? ==> |r.value.1| == |m|
    decreases n - i
  {
    if i == n then Ok((p, m))
    else if p.None? then Exit
    else
      var (w, q) := Number(p, v);
      if Accepts(k, w) then ReadMap(k, q, m[i := Stored(k, w)], w, i + 1, n) else Exit
  }

  /** The maps read, and how many buttons the command line gave. */
  datatype Read = Read(axmap: seq<int>, buttonmap: seq<int>, btns: int)

  /** The second half of set_mappings' reading, from the button count on. */
  function ReadButtons(l: Limits, p: Pointer, buttons: int, axmap: seq<int>, buttonmap: seq<int>): (r: Outcome<Read>)
    requires buttons <= |buttonmap|
  {
    // the pointer is advanced without a test for NULL
    if p.None? then Undefined
    else
      var (btns, q) := Number(p, 0);
      if btns != buttons && btns != 0 then Exit
      else
        match ReadMap(ButtonKind(l), q, buttonmap, 0, 0, Loops(btns))
        case Ok((rest, m)) => if rest.Some? then Exit else Ok(Read(axmap, m, btns))
        case Exit => Exit
        case Undefined => Undefined
  }

  /** set_mappings up to the point where it starts to change the device. */
  function Mappings(l: Limits, arg: Option<string>, axes: int, buttons: int, axmap: seq<int>, buttonmap: seq<int>)
    : (r: Outcome<Read>)
    requires axes <= |axmap| && buttons <= |buttonmap|
  {
    if arg.None? || Scanned(arg.value, 0) != axes then Exit
    else
      match ReadMap(AxisKind(l), FromComma(arg.value), axmap, 0, 0, Loops(axes))
      case Ok((p, m)) => ReadButtons(l, p, buttons, m, buttonmap)
      case Exit => Exit
      case Undefined => Undefined
  }

  // ---- round trip ----

  lemma {:induction false} MapReadBack(k: Kind, p: Pointer, codes: seq<int>, before: seq<int>, v: int, i: nat, rest: seq<int>)
    requires i <= |codes| <= |before| && before[..i] == codes[..i] && k.width > 0
    requires CodesOk(k, codes) && PointsAt(p, codes[i..] + rest)
    ensures var r := ReadMap(k, p, before, v, i, |codes|);
            r.Ok? && PointsAt(r.value.0, rest) && |r.value.1| == |before| &&
            r.value.1[..|codes|] == codes && r.value.1[|codes|..] == before[|codes|..]
    decreases |codes| - i
  {
    hide PointsAt, Number, Stored, Accepts, CodeOk;
    if i < |codes| {
      var ns := codes[i + 1..] + rest;
      assert codes[i..] + rest == [codes[i]] + ns;
      ReadNext(p, codes[i], ns, v);
      assert CodeOk(k, codes[i]);
      StoredOk(k, codes[i]);
      var b := before[i := codes[i]];
      assert b[..i + 1] == before[..i] + [codes[i]] == codes[..i + 1];
      assert b[|codes|..] == before[|codes|..];
      MapReadBack(k, Number(p, v).1, codes, b, codes[i], i + 1, rest);
    } else {
      assert codes[i..] + rest == rest;
      assert before[..|codes|] == codes;
    }
  }

  lemma ButtonsReadBack(l: Limits, p: Pointer, buttons: int, axmap: seq<int>, count: int, bs: seq<int>, before: seq<int>)
    requires buttons <= |before| && (count == buttons || count == 0) && |bs| == Loops(count) && CodesOk(ButtonKind(l), bs)
    requires PointsAt(p, [count] + bs)
    ensures var r := ReadButtons(l, p, buttons, axmap, before);
            r.Ok? && r.value.axmap == axmap && r.value.btns == count && |r.value.buttonmap| == |before| &&
            r.value.buttonmap[..|bs|] == bs && r.value.buttonmap[|bs|..] == before[|bs|..]
  {
    hide PointsAt, Number, ReadMap;
    ReadNext(p, count, bs, 0);
    var q := Number(p, 0).1;
    assert bs[0..] + [] == bs;
    MapReadBack(ButtonKind(l), q, bs, before, 0, 0, []);
    AtEnd(ReadMap(ButtonKind(l), q, before, 0, 0, |bs|).value.0);
  }

  /** Reading what print_mappings printed is always accepted, and leaves the maps that were printed in
      front of what the arrays held; an empty button list, which print_mappings writes when it cannot
      get the map, leaves the buttons alone.  The counts are chars: a map is restored exactly if it has
      fewer than 128 entries, or was there already. */
  lemma MappingsRoundTripIff(l: Limits, axs: seq<int>, bs: seq<int>, buttons: nat, axmap: seq<int>, buttonmap: seq<int>)
    requires |axs| <= |axmap| && buttons <= |buttonmap| && (|bs| == buttons || bs == []) && |axs| < 256 && buttons < 256
    requires CodesOk(AxisKind(l), axs) && CodesOk(ButtonKind(l), bs)
    ensures var r := Mappings(l, Some(MapText(axs, bs)), ToChar(|axs|), ToChar(buttons), axmap, buttonmap);
            r.Ok? && r.value.btns == ToChar(|bs|) &&
            r.value.axmap == Counted(axs) + axmap[|Counted(axs)|..] &&
            r.value.buttonmap == Counted(bs) + buttonmap[|Counted(bs)|..] &&
            (r.value.axmap[..|axs|] == axs <==> |axs| < 128 || axmap[..|axs|] == axs) &&
            (r.value.buttonmap[..|bs|] == bs <==> |bs| < 128 || buttonmap[..|bs|] == bs)
  {
    hide ReadMap, ReadButtons, Scanned, Printed, CommaList, FromComma, Number;
    var (a, b) := (Counted(axs), Counted(bs));
    ReadOne(ToChar(|axs|), MapNumbers(axs, bs), 0);
    var p: Pointer := FromComma(MapText(axs, bs));
    var rest := [ToChar(|bs|)] + b;
    assert MapNumbers(axs, bs) == a[0..] + rest;
    MapReadBack(AxisKind(l), p, a, axmap, 0, 0, rest);
    var r := ReadMap(AxisKind(l), p, axmap, 0, 0, |a|).value;
    ButtonsReadBack(l, r.0, ToChar(buttons), r.1, ToChar(|bs|), b, buttonmap);
    var m := ReadButtons(l, r.0, ToChar(buttons), r.1, buttonmap).value;
    Front(m.axmap, a, axmap);
    Front(m.buttonmap, b, buttonmap);
  }

  lemma Front(m: seq<int>, codes: seq<int>, before: seq<int>)
    requires |codes| <= |m| == |before| && m[..|codes|] == codes && m[|codes|..] == before[|codes|..]
    ensures m == codes + before[|codes|..]
  {
  }

  /** In jscal as it starts, with its array still zero: the buttons come back exactly if there are fewer
      than 128 of them. */
  lemma ButtonsRestoredIff(l: Limits, axs: seq<int>, bs: seq<int>, axmap: seq<int>, buttonmap: seq<int>)
    requires |axs| <= |axmap| && |bs| <= |buttonmap| && |axs| < 256 && |bs| < 256 && 0 < l.btnMisc
    requires CodesOk(AxisKind(l), axs) && CodesOk(ButtonKind(l), bs) && forall i :: 0 <= i < |buttonmap| ==> buttonmap[i] == 0
    ensures var r := Mappings(l, Some(MapText(axs, bs)), ToChar(|axs|), ToChar(|bs|), axmap, buttonmap);
            r.Ok? && (r.value.buttonmap[..|bs|] == bs <==> |bs| < 128)
  {
    hide Mappings, MapText;
    MappingsRoundTripIff(l, axs, bs, |bs|, axmap, buttonmap);
    if |bs| >= 128 {
      assert CodeOk(ButtonKind(l), bs[0]) && buttonmap[..|bs|][0] == 0;
    }
  }

  /** A joystick with 128 buttons: the list printed has the count -128 and no codes, it is accepted, and
      the count is not zero, so that the array that was never filled goes to the driver. */
  lemma ManyButtonsLost(l: Limits, bs: seq<int>, buttonmap: seq<int>)
    requires |bs| == 128 && 0 < l.btnMisc && CodesOk(ButtonKind(l), bs)
    requires 128 <= |buttonmap| && forall i :: 0 <= i < |buttonmap| ==> buttonmap[i] == 0
    ensures MapText([0], bs) == Printed(1) + CommaList([0, -128])
    ensures var r := Mappings(l, Some(MapText([0], bs)), 1, ToChar(128), [0], buttonmap);
            r.Ok? && r.value.btns == -128 && r.value.buttonmap == buttonmap && buttonmap[..128] != bs
  {
    hide Mappings, Printed, CommaList;
    MappingsRoundTripIff(l, [0], bs, 128, [0], buttonmap);
    assert MapNumbers([0], bs) == [0, -128];
    assert CodeOk(ButtonKind(l), bs[0]) && buttonmap[..128][0] == 0;
  }

  // ---- lists that are refused ----

  /** An axis code is accepted exactly up to ABS_MAX + 1, one more than there are, and stored in a byte. */
  lemma OneAxisAccepted(l: Limits, v: int, buttonmap: seq<int>, before: int)
    ensures var r := Mappings(l, Some(Printed(1) + CommaList([v, 0])), 1, 0, [before], buttonmap);
            r == if v <= l.absMax + 1 then Ok(Read([v % 256], buttonmap, 0)) else Exit
  {
    hide Scanned, Printed, CommaList, FromComma, Number;
    ReadOne(1, [v, 0], 0);
    var p: Pointer := FromComma(Printed(1) + CommaList([v, 0]));
    assert [v, 0] == [v] + [0];
    ReadNext(p, v, [0], 0);
    var q := Number(p, 0).1;
    assert [0] == [0] + [];
    ReadNext(q, 0, [], 0);
    AtEnd(Number(q, 0).1);
    assert [before][0 := v % 256] == [v % 256];
    if v <= l.absMax + 1 {
      assert ReadMap(AxisKind(l), p, [before], 0, 0, 1) == ReadMap(AxisKind(l), q, [v % 256], v, 1, 1);
    }
  }

  /** A button code is accepted exactly from BTN_MISC to KEY_MAX, and stored in sixteen bits. */
  lemma OneButtonAccepted(l: Limits, v: int, before: int)
    ensures var r := Mappings(l, Some(Printed(0) + CommaList([1, v])), 0, 1, [], [before]);
            r == if l.btnMisc <= v <= l.keyMax then Ok(Read([], [v % 65536], 1)) else Exit
  {
    hide Scanned, Printed, CommaList, FromComma, Number;
    ReadOne(0, [1, v], 0);
    var p: Pointer := FromComma(Printed(0) + CommaList([1, v]));
    assert [1, v] == [1] + [v];
    ReadNext(p, 1, [v], 0);
    var q := Number(p, 0).1;
    assert [v] == [v] + [];
    ReadNext(q, v, [], 0);
    AtEnd(Number(q, 0).1);
    assert [before][0 := v % 65536] == [v % 65536];
    if l.btnMisc <= v <= l.keyMax {
      assert ReadMap(ButtonKind(l), q, [before], 0, 0, 1) == ReadMap(ButtonKind(l), Number(q, 0).1, [v % 65536], v, 1, 1);
    }
  }

  lemma {:induction false} ReadFewerCodes(k: Kind, p: Pointer, codes: seq<int>, m: seq<int>, v: int, i: nat, n: nat)
    requires i <= n <= |m| && k.width > 0 && CodesOk(k, codes) && |codes| < n - i && PointsAt(p, codes)
    ensures ReadMap(k, p, m, v, i, n) == Exit
    decreases |codes|
  {
    hide PointsAt, Number, Stored, Accepts, CodeOk;
    if |codes| == 0 {
      AtEnd(p);
    } else {
      assert codes == [codes[0]] + codes[1..];
      ReadNext(p, codes[0], codes[1..], v);
      assert CodeOk(k, codes[0]);
      StoredOk(k, codes[0]);
      ReadFewerCodes(k, Number(p, v).1, codes[1..], m[i := Stored(k, codes[0])], codes[0], i + 1, n);
    }
  }

  /** A list that breaks off among the axis codes is refused; one that ends with them makes the reader follow a
      NULL pointer; one that breaks off among the button codes or goes on after them is refused. */
  lemma WrongMapLength(l: Limits, axs: seq<int>, bs: seq<int>, k: nat, more: seq<int>, axmap: seq<int>, buttonmap: seq<int>)
    requires 0 < |axs| <= |axmap| && |axs| < 128 && 0 < |bs| <= |buttonmap| && |bs| < 128
    requires CodesOk(AxisKind(l), axs) && CodesOk(ButtonKind(l), bs)
    ensures k < |axs| ==> Mappings(l, Some(Printed(|axs|) + CommaList(axs[..k])), |axs|, |bs|, axmap, buttonmap) == Exit
    ensures Mappings(l, Some(Printed(|axs|) + CommaList(axs)), |axs|, |bs|, axmap, buttonmap) == Undefined
    ensures k < |bs| ==> Mappings(l, Some(Printed(|axs|) + CommaList(axs + ([|bs|] + bs[..k]))), |axs|, |bs|, axmap, buttonmap) == Exit
    ensures |more| > 0 ==> Mappings(l, Some(Printed(|axs|) + CommaList(axs + ([|bs|] + (bs + more)))), |axs|, |bs|, axmap, buttonmap) == Exit
  {
    hide ReadMap, Scanned, Printed, CommaList, FromComma, Number, CodeOk;
    if k < |axs| {
      ReadOne(|axs|, axs[..k], 0);
      ReadFewerCodes(AxisKind(l), FromComma(Printed(|axs|) + CommaList(axs[..k])), axs[..k], axmap, 0, 0, |axs|);
    }
    AxesThen(l, axs, [], axmap);
    assert axs + [] == axs;
    AtEnd(AfterAxes(l, axs, [], axmap));
    if k < |bs| {
      AxesThen(l, axs, [|bs|] + bs[..k], axmap);
      var p := AfterAxes(l, axs, [|bs|] + bs[..k], axmap);
      ReadNext(p, |bs|, bs[..k], 0);
      ReadFewerCodes(ButtonKind(l), Number(p, 0).1, bs[..k], buttonmap, 0, 0, |bs|);
    }
    if |more| > 0 {
      AxesThen(l, axs, [|bs|] + (bs + more), axmap);
      var p := AfterAxes(l, axs, [|bs|] + (bs + more), axmap);
      ReadNext(p, |bs|, bs + more, 0);
      assert bs[0..] + more == bs + more;
      MapReadBack(ButtonKind(l), Number(p, 0).1, bs, buttonmap, 0, 0, more);
    }
  }

  /** Where the pointer is once the axis codes have been read. */
  function AfterAxes(l: Limits, axs: seq<int>, rest: seq<int>, axmap: seq<int>): Pointer
    requires |axs| <= |axmap|
  {
    var r := ReadMap(AxisKind(l), FromComma(Printed(|axs|) + CommaList(axs + rest)), axmap, 0, 0, |axs|);
    if r.Ok? then r.value.0 else None
  }

  lemma AxesThen(l: Limits, axs: seq<int>, rest: seq<int>, axmap: seq<int>)
    requires |axs| <= |axmap| && |axs| < 128 && CodesOk(AxisKind(l), axs)
    ensures Scanned(Printed(|axs|) + CommaList(axs + rest), 0) == |axs| && PointsAt(AfterAxes(l, axs, rest, axmap), rest)
    ensures ReadMap(AxisKind(l), FromComma(Printed(|axs|) + CommaList(axs + rest)), axmap, 0, 0, |axs|).Ok?
  {
    hide ReadMap, Scanned, Printed, CommaList, FromComma, CodeOk;
    ReadOne(|axs|, axs + rest, 0);
    assert axs[0..] + rest == axs + rest;
    MapReadBack(AxisKind(l), FromComma(Printed(|axs|) + CommaList(axs + rest)), axs, axmap, 0, 0, rest);
  }

  // ---- calibration ----

  /** The last axis with the given code: the one the first loop of correct_axes leaves recorded. */
  function LastIndex(m: seq<int>, code: int): (i: nat)
    requires code in m
    ensures i < |m| && m[i] == code && forall j :: i < j < |m| ==> m[j] != code
  {
    if m[|m| - 1] == code then |m| - 1 else LastIndex(m[..|m| - 1], code)
  }

  /** Every code fits the index table and every new code is an old one. */
  predicate Remappable(l: Limits, before: seq<int>, after: seq<int>) {
    (forall i :: 0 <= i < |before| ==> 0 <= before[i] <= l.absMax) &&
    (forall i :: 0 <= i < |after| ==> after[i] in before)
  }

  /** correct_axes: the calibration each axis has under the new map. */
  function Remapped<T>(before: seq<int>, after: seq<int>, corr: seq<T>): (r: seq<T>)
    requires |corr| == |before| && forall i :: 0 <= i < |after| ==> after[i] in before
    ensures |r| == |after|
  {
    seq(|after|, i requires 0 <= i < |after| => corr[LastIndex(before, after[i])])
  }

  /** Each axis has the calibration that its code had before. */
  ghost predicate Attached<T>(before: seq<int>, corr: seq<T>, after: seq<int>, corr': seq<T>)
    requires |corr| == |before| && |corr'| == |after|
  {
    forall i, j :: 0 <= i < |after| && 0 <= j < |before| && after[i] == before[j] ==> corr'[i] == corr[j]
  }

  /** Axes that share a code share their calibration. */
  ghost predicate Unambiguous<T>(m: seq<int>, corr: seq<T>)
    requires |corr| == |m|
  {
    forall i, j :: 0 <= i < |m| && 0 <= j < |m| && m[i] == m[j] ==> corr[i] == corr[j]
  }

  lemma PermutedCodes(before: seq<int>, after: seq<int>)
    requires multiset(before) == multiset(after)
    ensures forall i :: 0 <= i < |after| ==> after[i] in before
    ensures forall i :: 0 <= i < |before| ==> before[i] in after
    ensures |before| == |after|
  {
    forall i | 0 <= i < |after| ensures after[i] in before {
      assert after[i] in multiset(after);
    }
    forall i | 0 <= i < |before| ensures before[i] in after {
      assert before[i] in multiset(before);
    }
    assert |multiset(before)| == |multiset(after)|;
  }

  /** When the new map permutes the old one, every code keeps its calibration exactly if no two
      axes shared a code with different calibrations. */
  lemma AttachedIff<T>(before: seq<int>, after: seq<int>, corr: seq<T>)
    requires |corr| == |before| && multiset(before) == multiset(after)
    requires forall i :: 0 <= i < |after| ==> after[i] in before
    ensures Attached(before, corr, after, Remapped(before, after, corr)) <==> Unambiguous(before, corr)
  {
    PermutedCodes(before, after);
    var r := Remapped(before, after, corr);
    if Attached(before, corr, after, r) {
      forall i, j | 0 <= i < |before| && 0 <= j < |before| && before[i] == before[j]
        ensures corr[i] == corr[j]
      {
        assert before[i] in after;
        var k :| 0 <= k < |after| && after[k] == before[i];
        assert r[k] == corr[i] && r[k] == corr[j];
      }
    }
  }

  /** With distinct codes the calibration always stays attached, and going back to the old map
      restores every axis's calibration. */
  lemma RemapUndone<T>(before: seq<int>, after: seq<int>, corr: seq<T>)
    requires |corr| == |before| && multiset(before) == multiset(after) && Distinct(before)
    ensures forall i :: 0 <= i < |after| ==> after[i] in before
    ensures forall i :: 0 <= i < |before| ==> before[i] in after
    ensures Attached(before, corr, after, Remapped(before, after, corr))
    ensures Remapped(after, before, Remapped(before, after, corr)) == corr
  {
    PermutedCodes(before, after);
    assert Unambiguous(before, corr);
    AttachedIff(before, after, corr);
    var r := Remapped(before, after, corr);
    forall i | 0 <= i < |before| ensures Remapped(after, before, r)[i] == corr[i] {
      assert after[LastIndex(after, before[i])] == before[i];
    }
  }

  /** Two axes of one code with different calibrations: mapping them as they are gives both the second. */
  lemma CalibrationMixed(a: Corr, b: Corr)
    requires a != b
    ensures Remapped([5, 5], [5, 5], [a, b]) == [b, b] && !Attached([5, 5], [a, b], [5, 5], Remapped([5, 5], [5, 5], [a, b]))
  {
    var r := Remapped([5, 5], [5, 5], [a, b]);
    assert LastIndex([5, 5], 5) == 1;
    assert r[0] == b && r[1] == b;
  }

  /** axmes: at each code of the map the last index with it, elsewhere nothing. */
  ghost predicate Indexed(axmes: seq<Option<nat>>, m: seq<int>) {
    (forall i :: 0 <= i < |m| ==> 0 <= m[i] < |axmes|) &&
    forall c :: 0 <= c < |axmes| ==> axmes[c] == if c in m then Some(LastIndex(m, c)) else None
  }

  lemma IndexedStart(axmes: seq<Option<nat>>)
    requires forall c :: 0 <= c < |axmes| ==> axmes[c] == None
    ensures Indexed(axmes, [])
  {
  }

  lemma IndexedStep(axmes: seq<Option<nat>>, m: seq<int>, code: int)
    requires Indexed(axmes, m) && 0 <= code < |axmes|
    ensures Indexed(axmes[code := Some(|m|)], m + [code])
  {
    var m', a' := m + [code], axmes[code := Some(|m|)];
    forall c | 0 <= c < |a'|
      ensures a'[c] == if c in m' then Some(LastIndex(m', c)) else None
    {
      if c != code && c in m {
        assert m'[..|m|] == m;
      }
    }
  }

  /** correct_axes.  A code above ABS_MAX is written or read outside the index table, and a new code
      finds no index there: what happens then is undefined. */
  method CorrectAxes(l: Limits, axmap2: seq<int>, axmap: seq<int>, corr: seq<Corr>) returns (o: Outcome<seq<Corr>>)
    requires |corr| == |axmap2|
    ensures o == if Remappable(l, axmap2, axmap) then Ok(Remapped(axmap2, axmap, corr)) else Undefined
  {
    hide LastIndex, Remapped;
    var axmes := new Option<nat>[l.absMax + 1](_ => None);
    IndexedStart(axmes[..]);
    for i := 0 to |axmap2|
      invariant Indexed(axmes[..], axmap2[..i])
      invariant forall k :: 0 <= k < i ==> 0 <= axmap2[k] <= l.absMax
    {
      if axmap2[i] < 0 || axmap2[i] > l.absMax {
        return Undefined;
      }
      IndexedStep(axmes[..], axmap2[..i], axmap2[i]);
      ghost var was := axmes[..];
      axmes[axmap2[i]] := Some(i);
      assert axmes[..] == was[axmap2[i] := Some(i)];
      assert axmap2[..i + 1] == axmap2[..i] + [axmap2[i]];
    }
    assert axmap2[..|axmap2|] == axmap2;
    var ax := ReadIndexes(axmes, axmap2, axmap);
    if ax.None? {
      return Undefined;
    }
    var tmp: seq<Corr> := [];
    for i := 0 to |axmap|
      invariant |tmp| == i && forall k :: 0 <= k < i ==> ax.value[k] < |corr| && tmp[k] == corr[ax.value[k]]
    {
      tmp := tmp + [corr[ax.value[i]]];
    }
    RemappedBy(axmap2, axmap, corr, ax.value, tmp);
    return Ok(tmp);
  }

  /** The second loop: ax[i] is read from the table. */
  method ReadIndexes(axmes: array<Option<nat>>, ghost axmap2: seq<int>, axmap: seq<int>) returns (ax: Option<seq<nat>>)
    requires Indexed(axmes[..], axmap2)
    ensures ax.Some? <==> forall i :: 0 <= i < |axmap| ==> axmap[i] in axmap2
    ensures ax.Some? ==> |ax.value| == |axmap| && forall k :: 0 <= k < |axmap| ==> ax.value[k] == LastIndex(axmap2, axmap[k])
  {
    hide LastIndex;
    var r: seq<nat> := [];
    for i := 0 to |axmap|
      invariant |r| == i && forall k :: 0 <= k < i ==> axmap[k] in axmap2 && r[k] == LastIndex(axmap2, axmap[k])
    {
      if axmap[i] < 0 || axmap[i] >= axmes.Length || axmes[axmap[i]].None? {
        return None;
      }
      assert axmes[..][axmap[i]] == axmes[axmap[i]];
      r := r + [axmes[axmap[i]].value];
    }
    return Some(r);
  }

  lemma RemappedBy(before: seq<int>, after: seq<int>, corr: seq<Corr>, ax: seq<nat>, tmp: seq<Corr>)
    requires |corr| == |before| && |ax| == |after| == |tmp|
    requires forall i :: 0 <= i < |after| ==> after[i] in before
    requires forall k :: 0 <= k < |ax| ==> ax[k] == LastIndex(before, after[k]) && tmp[k] == corr[ax[k]]
    ensures tmp == Remapped(before, after, corr)
  {
    hide LastIndex;
  }

  // ---- set_mappings as jscal runs it ----

  /** The joystick device and jscal's arrays. */
  class Mapper {
    const limits: Limits
    const nAxes: nat              // how many the driver has
    const nButtons: nat
    const axes: int               // the same in a char
    const buttons: int
    var axmap: seq<int>
    var buttonmap: seq<int>
    var deviceAxes: seq<int>
    var deviceButtons: seq<int>
    var deviceCorr: seq<Corr>

    ghost predicate Valid()
      reads this
    {
      nAxes <= |axmap| && nButtons <= |buttonmap| && nAxes < 256 && nButtons < 256 &&
      axes == ToChar(nAxes) && buttons == ToChar(nButtons) &&
      |deviceAxes| == |deviceCorr| == nAxes && |deviceButtons| == nButtons
    }

    constructor (l: Limits, axs: seq<int>, bs: seq<int>, corr: seq<Corr>, axmap0: seq<int>, buttonmap0: seq<int>)
      requires |axs| == |corr| <= |axmap0| && |bs| <= |buttonmap0| && |axs| < 256 && |bs| < 256
      ensures Valid() && limits == l && nAxes == |axs| && nButtons == |bs|
      ensures deviceAxes == axs && deviceButtons == bs && deviceCorr == corr && axmap == axmap0 && buttonmap == buttonmap0
    {
      limits, nAxes, nButtons, axes, buttons := l, |axs|, |bs|, ToChar(|axs|), ToChar(|bs|);
      axmap, buttonmap := axmap0, buttonmap0;
      deviceAxes, deviceButtons, deviceCorr := axs, bs, corr;
    }

    method ReadMapInto(k: Kind, p0: Pointer, m0: seq<int>, n: nat) returns (o: Outcome<Pointer>, m: seq<int>)
      requires n <= |m0| && k.width > 0
      ensures match ReadMap(k, p0, m0, 0, 0, n) {
                case Ok((p, m')) => o == Ok(p) && m == m'
                case Exit => o == Exit
                case Undefined => o == Undefined
              }
    {
      hide Number;
      m := m0;
      var p, v := p0, 0;
      for i := 0 to n
        invariant |m| == |m0| && ReadMap(k, p, m, v, i, n) == ReadMap(k, p0, m0, 0, 0, n)
      {
        if p.None? {
          o := Exit;
          return;
        }
        var (w, q) := Number(p, v);
        v, p := w, q;
        if !Accepts(k, v) {
          o := Exit;
          return;
        }
        m := m[i := Stored(k, v)];
      }
      o := Ok(p);
    }

    /** The reading half of set_mappings; btns is the number of buttons given. */
    method ReadMappings(arg: Option<string>) returns (o: Outcome<int>)
      requires Valid()
      modifies this`axmap, this`buttonmap
      ensures Valid()
      ensures match Mappings(limits, arg, axes, buttons, old(axmap), old(buttonmap)) {
                case Ok(r) => o == Ok(r.btns) && axmap == r.axmap && buttonmap == r.buttonmap && (r.btns == buttons || r.btns == 0)
                case Exit => o == Exit
                case Undefined => o == Undefined
              }
    {
      hide ReadMap, Scanned, FromComma, Number;
      if arg.None? || Scanned(arg.value, 0) != axes {
        return Exit;
      }
      var r, m := ReadMapInto(AxisKind(limits), FromComma(arg.value), axmap, Loops(axes));
      if !r.Ok? {
        return if r.Exit? then Exit else Undefined;
      }
      axmap := m;
      if r.value.None? {
        return Undefined;
      }
      var (btns, q) := Number(r.value, 0);
      if btns != buttons && btns != 0 {
        return Exit;
      }
      r, m := ReadMapInto(ButtonKind(limits), q, buttonmap, Loops(btns));
      if !r.Ok? {
        return if r.Exit? then Exit else Undefined;
      }
      buttonmap := m;
      if r.value.Some? {
        return Exit;
      }
      return Ok(btns);
    }

    /** set_mappings: on success the device has the entries of jscal's arrays, with its calibration moved
        along; after an error exit it is as it was.  A negative number of axes is the length of an
        array in correct_axes. */
    method SetMappings(arg: Option<string>) returns (o: Outcome<()>)
      requires Valid()
      modifies this
      ensures Valid()
      ensures match Mappings(limits, arg, axes, buttons, old(axmap), old(buttonmap)) {
                case Ok(r) =>
                  nAxes <= |r.axmap| && nButtons <= |r.buttonmap| &&
                  o == (if axes >= 0 && Remappable(limits, old(deviceAxes), r.axmap[..nAxes]) then Ok(()) else Undefined) &&
                  (o.Ok? ==>
                    deviceAxes == r.axmap[..nAxes] &&
                    deviceButtons == (if r.btns != 0 then r.buttonmap[..nButtons] else old(deviceButtons)) &&
                    deviceCorr == Remapped(old(deviceAxes), deviceAxes, old(deviceCorr)))
                case Exit => o == Exit
                case Undefined => o == Undefined
              }
      ensures o.Exit? ==> deviceAxes == old(deviceAxes) && deviceButtons == old(deviceButtons) && deviceCorr == old(deviceCorr)
    {
      hide Mappings, Remapped;
      var r := ReadMappings(arg);
      if !r.Ok? {
        return if r.Exit? then Exit else Undefined;
      }
      var axmap2 := deviceAxes;
      deviceAxes := axmap[..nAxes];
      if axes < 0 {
        return Undefined;
      }
      var c := CorrectAxes(limits, axmap2, deviceAxes, deviceCorr);
      if !c.Ok? {
        return Undefined;
      }
      deviceCorr := c.value;
      if r.value != 0 {
        deviceButtons := buttonmap[..nButtons];
      }
      return Ok(());
    }
  }
}
