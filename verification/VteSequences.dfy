/** Control sequences as byte strings: from any state of the emulator, CSI with up to sixteen decimal
    parameters reaches its handler with exactly those parameters (section 5.4 of ECMA-48). */
module VteSequences {
  import opened Common
  import opened VteState
  import opened VteScreen
  import opened VteCommands
  import opened VteParser
  import Decimal
  import Utf8

  // ---- byte strings ----

  lemma {:induction false} RunConcat(d: Driver, s: State, a: seq<Utf8.byte>, b: seq<Utf8.byte>)
    requires Inv(d, s)
    ensures Run(d, s, a + b) == Run(d, Run(d, s, a), b)
    decreases |a|
  {
    hide Inv, Step;
    if |a| == 0 {
      assert a + b == b;
    } else {
      assert (a + b)[1..] == a[1..] + b;
      RunConcat(d, Step(d, s, a[0]), a[1..], b);
    }
  }

  lemma RunOne(d: Driver, s: State, b: Utf8.byte)
    requires Inv(d, s)
    ensures Run(d, s, [b]) == Step(d, s, b)
  {
    hide Inv, Step;
    assert [b][1..] == [];
    assert Run(d, Step(d, s, b), []) == Step(d, s, b);
  }

  predicate IsAscii(c: char) {
    ' ' <= c <= '~'
  }

  function Code(c: char): (b: Utf8.byte)
    requires IsAscii(c)
  {
    c as int
  }

  function Bytes(t: string): (r: seq<Utf8.byte>)
    requires forall i :: 0 <= i < |t| ==> IsAscii(t[i])
    ensures |r| == |t| && forall i :: 0 <= i < |t| ==> r[i] == t[i] as int
  {
    seq(|t|, i requires 0 <= i < |t| && IsAscii(t[i]) => Code(t[i]))
  }

  // ---- single characters ----

  /** The decoder has nothing pending, if it is in use. */
  predicate Plain(s: State) {
    s.vc.modes.utf ==> s.vc.decoder.count == 0
  }

  /** Inside a sequence a printing character goes straight to the parser. */
  lemma StepInside(d: Driver, s: State, c: char)
    requires Inv(d, s) && Plain(s) && s.vc.parser.state != Init && IsAscii(c)
    ensures Step(d, s, c as int) == ByState(d, s, c)
  {
    hide Inv, ByState, Put, C0, C1;
    var b := c as int;
    assert Emulate(d, s, b) == ByState(d, s, c);
    if s.vc.modes.utf {
      assert Utf8.Step(s.vc.decoder, b) == (Utf8.State(0, s.vc.decoder.code), Some(b));
      assert s.vc.decoder == Utf8.State(0, s.vc.decoder.code);
      InvRest(d, s);
      DecoderPart(d, s.vc);
      assert WithDecoder(d, s.vc, s.vc.decoder) == s.vc;
    }
  }

  /** The decoder as ESC leaves it. */
  function Settled(s: State): Utf8.State {
    if s.vc.modes.utf && s.vc.parser.state != Init then Utf8.State(0, s.vc.decoder.code) else s.vc.decoder
  }

  /** ESC starts a new sequence in every state. */
  lemma StepEscape(d: Driver, s: State)
    requires Inv(d, s)
    ensures Step(d, s, 0x1B) == s.(vc := s.vc.(parser := s.vc.parser.(state := Esc), decoder := Settled(s)))
  {
    hide Inv, ByState, Put, C1;
    assert !Shown(s.vc.modes, 0x1B);
    if s.vc.parser.state != Init && s.vc.modes.utf {
      assert Utf8.Step(s.vc.decoder, 0x1B) == (Settled(s), Some(0x1B));
    }
  }

  /** CAN and SUB abandon a sequence that has begun, and change nothing else. */
  lemma CancelAborts(d: Driver, s: State, b: Utf8.byte)
    requires Inv(d, s) && (b == 0x18 || b == 0x1A) && s.vc.parser.state != Init
    ensures Run(d, s, [b]) == s.(vc := s.vc.(parser := s.vc.parser.(state := Init), decoder := Settled(s)))
  {
    hide Inv, ByState, Put, C1;
    RunOne(d, s, b);
    if s.vc.modes.utf {
      assert Utf8.Step(s.vc.decoder, b) == (Settled(s), Some(b as int));
    }
  }

  // ---- reading parameters ----

  /** A state in which parameters are being read. */
  ghost predicate Reading(d: Driver, s: State) {
    Inv(d, s) && s.vc.parser.state == Getpars && Plain(s)
  }

  function WithPars(s: State, npar: int, par: seq<int>): State {
    s.(vc := s.vc.(parser := s.vc.parser.(npar := npar, par := par)))
  }

  lemma ReadDigit(d: Driver, s: State, c: char)
    requires Reading(d, s) && IsDigit(c)
    ensures ParserOk(s.vc.parser) && Run(d, s, [c as int]) == s.(vc := s.vc.(parser := ParDigit(s.vc.parser, Digit(c))))
    ensures Reading(d, Run(d, s, [c as int]))
  {
    hide Inv, VcOk, ParserOk, ParDigit, Digit, Step;
    InvRest(d, s);
    ParserPart(d, s.vc);
    StepInside(d, s, c);
    RunOne(d, s, c as int);
  }

  /** Decimal digits in the parser add up to the number they spell. */
  lemma {:induction false} ReadNumber(d: Driver, s: State, n: nat)
    requires Reading(d, s) && n < 0x1_0000_0000
    requires ParserOk(s.vc.parser) && s.vc.parser.par[s.vc.parser.npar] == 0
    ensures AllAscii(Decimal.Digits(n))
    ensures Run(d, s, Bytes(Decimal.Digits(n))) == WithPars(s, s.vc.parser.npar, s.vc.parser.par[s.vc.parser.npar := n])
    ensures Reading(d, WithPars(s, s.vc.parser.npar, s.vc.parser.par[s.vc.parser.npar := n]))
  {
    hide Inv, VcOk, Run, Step, ParserOk;
    DigitsAscii(n);
    var t := Decimal.Digits(n);
    var k := s.vc.parser.npar;
    ParIndex(s.vc.parser);
    if n < 10 {
      assert Bytes(t) == [Decimal.Digit(n) as int];
      ReadDigit(d, s, Decimal.Digit(n));
      DigitAdded(s.vc.parser, n);
    } else {
      var front, c := Decimal.Digits(n / 10), Decimal.Digit(n % 10);
      DigitsAscii(n / 10);
      ReadNumber(d, s, n / 10);
      assert Bytes(t) == Bytes(front) + [c as int];
      RunConcat(d, s, Bytes(front), [c as int]);
      var s1 := WithPars(s, k, s.vc.parser.par[k := n / 10]);
      ReadDigit(d, s1, c);
      InvRest(d, s1);
      ParserPart(d, s1.vc);
      DigitAdded(s1.vc.parser, n % 10);
      assert s.vc.parser.par[k := n / 10][k := n] == s.vc.parser.par[k := n];
    }
  }

  predicate AllAscii(t: string) {
    forall i :: 0 <= i < |t| ==> IsAscii(t[i])
  }

  lemma DigitsAscii(n: nat)
    ensures AllAscii(Decimal.Digits(n))
  {
    hide Decimal.Digits;
    assert forall i :: 0 <= i < |Decimal.Digits(n)| ==> Decimal.IsDigit(Decimal.Digits(n)[i]);
  }

  lemma ParIndex(p: Parser)
    ensures ParserOk(p) ==> 0 <= p.npar < |p.par| == NPAR
  {
  }

  lemma DigitAdded(p: Parser, n: nat)
    requires ParserOk(p) && p.state == Getpars && n < 10
    ensures IsDigit(Decimal.Digit(n)) && Digit(Decimal.Digit(n)) == n
    ensures p.par[p.npar] * 10 + n < 0x1_0000_0000 ==>
              ParDigit(p, n) == p.(par := p.par[p.npar := p.par[p.npar] * 10 + n])
  {
  }

  // ---- parameter lists ----

  /** The parameters, separated by semicolons. */
  function Listed(ps: seq<nat>): (t: string)
    requires |ps| > 0
    ensures AllAscii(t) && |t| > 0 && IsDigit(t[0])
  {
    DigitsAscii(ps[|ps| - 1]);
    if |ps| == 1 then Decimal.Digits(ps[0])
    else Listed(ps[..|ps| - 1]) + ";" + Decimal.Digits(ps[|ps| - 1])
  }

  /** vc_par after reading ps. */
  function Padded(ps: seq<nat>): (r: seq<int>)
    requires |ps| <= NPAR
    ensures |r| == NPAR
  {
    ps + seq(NPAR - |ps|, _ => 0)
  }

  ghost predicate Fits(ps: seq<nat>) {
    1 <= |ps| <= NPAR && forall i :: 0 <= i < |ps| ==> ps[i] < 0x1_0000_0000
  }

  lemma ReadSemicolon(d: Driver, s: State)
    requires Reading(d, s) && s.vc.parser.npar < NPAR - 1
    ensures Run(d, s, [';' as int]) == WithPars(s, s.vc.parser.npar + 1, s.vc.parser.par)
    ensures Reading(d, Run(d, s, [';' as int]))
  {
    hide Inv, VcOk, ParserOk, Step;
    InvRest(d, s);
    ParserPart(d, s.vc);
    StepInside(d, s, ';');
    RunOne(d, s, ';' as int);
  }

  /** A printed list of parameters is read back exactly. */
  lemma {:induction false} ReadList(d: Driver, s: State, ps: seq<nat>)
    requires Reading(d, s) && Fits(ps) && s.vc.parser.npar == 0 && s.vc.parser.par == NoPars()
    ensures Run(d, s, Bytes(Listed(ps))) == WithPars(s, |ps| - 1, Padded(ps))
    ensures Reading(d, WithPars(s, |ps| - 1, Padded(ps)))
    decreases |ps|
  {
    hide Inv, VcOk, Run, Step, Decimal.Digits, ParserOk;
    var k := |ps| - 1;
    var n := ps[k];
    DigitsAscii(n);
    if k == 0 {
      InvRest(d, s);
      ParserPart(d, s.vc);
      ReadNumber(d, s, n);
      assert NoPars()[0 := n] == Padded(ps);
    } else {
      var front := ps[..k];
      ReadList(d, s, front);
      var s1 := WithPars(s, k - 1, Padded(front));
      ReadSemicolon(d, s1);
      var s2 := WithPars(s, k, Padded(front));
      assert Padded(front)[k] == 0;
      InvRest(d, s2);
      ParserPart(d, s2.vc);
      ReadNumber(d, s2, n);
      assert Padded(front)[k := n] == Padded(ps);
      assert Bytes(Listed(ps)) == Bytes(Listed(front)) + ([';' as int] + Bytes(Decimal.Digits(n)));
      RunConcat(d, s, Bytes(Listed(front)), [';' as int] + Bytes(Decimal.Digits(n)));
      RunConcat(d, s1, [';' as int], Bytes(Decimal.Digits(n)));
    }
  }

  // ---- whole sequences ----

  /** The character of a private marker. */
  function MarkChar(m: Priv): (c: char)
    ensures IsAscii(c)
  {
    if m == Equal then '=' else if m == Greater then '>' else '?'
  }

  /** The private marker, if any, and the parameters. */
  function Marked(m: Priv, ps: seq<nat>): (t: string)
    requires |ps| > 0
    ensures AllAscii(t)
  {
    if m == Public || m == Less then Listed(ps) else [MarkChar(m)] + Listed(ps)
  }

  /** ESC [ marker parameters final */
  function Sequence(m: Priv, ps: seq<nat>, final: char): seq<Utf8.byte>
    requires |ps| > 0 && IsAscii(final)
  {
    [0x1B, 0x5B] + Bytes(Marked(m, ps)) + [final as int]
  }

  /** The state in which the handler of a sequence finds the console. */
  function Ready(s: State, m: Priv, ps: seq<nat>): State
    requires |ps| <= NPAR
  {
    s.(vc := s.vc.(parser := Parser(Init, |ps| - 1, Padded(ps), m),
                   decoder := if s.vc.modes.utf then Utf8.State(0, s.vc.decoder.code) else s.vc.decoder))
  }

  /** A byte that ends a parameter list. */
  predicate Ends(c: char) {
    IsAscii(c) && !IsDigit(c) && c != ';'
  }

  function Opened(s: State, es: Es): State {
    s.(vc := s.vc.(parser := s.vc.parser.(state := es),
                   decoder := if s.vc.modes.utf then Utf8.State(0, s.vc.decoder.code) else s.vc.decoder))
  }

  /** CSI from any state. */
  lemma ReadIntroducer(d: Driver, s: State)
    requires Inv(d, s)
    ensures Run(d, s, [0x1B, 0x5B]) == Opened(s, Csi) && Inv(d, Opened(s, Csi))
  {
    hide Inv, Step, Put;
    StepEscape(d, s);
    var s1 := Step(d, s, 0x1B);
    RunOne(d, s, 0x1B);
    assert [0x1B, 0x5B] == [0x1B] + [0x5B];
    RunConcat(d, s, [0x1B], [0x5B]);
    RunOne(d, s1, 0x5B);
    StepBracket(d, s1);
  }

  /** The [ after ESC, whatever the decoder still awaits. */
  lemma StepBracket(d: Driver, s: State)
    requires Inv(d, s) && s.vc.parser.state == Esc
    ensures Step(d, s, 0x5B) == Opened(s, Csi)
  {
    hide Inv, Put, C0, C1;
    if s.vc.modes.utf {
      var u := Utf8.State(0, s.vc.decoder.code);
      assert Utf8.Step(s.vc.decoder, 0x5B) == (u, Some(0x5B));
    }
  }

  /** Ready to read parameters, with the marker noted. */
  function Cleared(s: State, m: Priv): State {
    s.(vc := s.vc.(parser := Parser(Getpars, 0, NoPars(), m)))
  }

  lemma ClearedReading(d: Driver, s: State, m: Priv)
    requires Inv(d, s) && Plain(s)
    ensures Reading(d, Cleared(s, m))
  {
    hide Inv, VcOk;
    InvRest(d, s);
    var r := WithVc(d, s, WithParser(d, s.vc, Parser(Getpars, 0, NoPars(), m)));
  }

  /** After CSI, a marker is taken in and a digit is read as the first of the parameters. */
  lemma AfterIntroducer(d: Driver, s: State, c: char)
    requires Inv(d, s) && Plain(s) && s.vc.parser.state == Csi && (IsDigit(c) || c == '=' || c == '>' || c == '?')
    ensures Reading(d, Cleared(s, Marker(c)))
    ensures Step(d, s, c as int) == if IsDigit(c) then Step(d, Cleared(s, Public), c as int) else Cleared(s, Marker(c))
  {
    hide Inv, Step, ParserOk;
    StepInside(d, s, c);
    ClearedReading(d, s, Marker(c));
    StepInside(d, Cleared(s, Marker(c)), c);
  }

  lemma DigitUnmarked(c: char)
    ensures IsDigit(c) ==> Marker(c) == Public
  {
  }

  lemma ReadingInv(d: Driver, s: State)
    ensures Reading(d, s) ==> Inv(d, s)
  {
  }

  lemma MarkerOf(m: Priv)
    ensures MarkChar(m) == '=' || MarkChar(m) == '>' || MarkChar(m) == '?'
    ensures m != Public && m != Less ==> Marker(MarkChar(m)) == m
  {
  }

  lemma BytesCons(c: char, t: string)
    requires IsAscii(c) && AllAscii(t)
    ensures AllAscii([c] + t) && Bytes([c] + t) == [c as int] + Bytes(t)
  {
  }

  lemma MarkedIs(m: Priv, ps: seq<nat>)
    requires |ps| > 0 && m != Less
    ensures Bytes(Marked(m, ps)) == if m == Public then Bytes(Listed(ps)) else [MarkChar(m) as int] + Bytes(Listed(ps))
  {
    hide Listed, Bytes, IsAscii, AllAscii;
    if m != Public {
      BytesCons(MarkChar(m), Listed(ps));
    }
  }

  /** A text that begins with c. */
  lemma RunFirst(d: Driver, s: State, bs: seq<Utf8.byte>)
    requires Inv(d, s) && |bs| > 0
    ensures Run(d, s, bs) == Run(d, Step(d, s, bs[0]), bs[1..])
  {
    hide Inv, Step;
  }

  lemma ReadUnmarked(d: Driver, s: State, ps: seq<nat>)
    requires Inv(d, s) && Plain(s) && s.vc.parser.state == Csi && |ps| > 0
    ensures Reading(d, Cleared(s, Public))
    ensures Inv(d, Cleared(s, Public)) && Run(d, s, Bytes(Listed(ps))) == Run(d, Cleared(s, Public), Bytes(Listed(ps)))
  {
    hide Inv, Step, Run, Listed, Reading, Cleared, Marker, Plain;
    ClearedReading(d, s, Public);
    ReadingInv(d, Cleared(s, Public));
    var t := Listed(ps);
    DigitUnmarked(t[0]);
    AfterIntroducer(d, s, t[0]);
    RunFirst(d, s, Bytes(t));
    RunFirst(d, Cleared(s, Public), Bytes(t));
  }

  lemma ReadMarker(d: Driver, s: State, m: Priv, bs: seq<Utf8.byte>)
    requires Inv(d, s) && Plain(s) && s.vc.parser.state == Csi && m != Public && m != Less
    ensures Reading(d, Cleared(s, m)) && Inv(d, Cleared(s, m))
    ensures Run(d, s, [MarkChar(m) as int] + bs) == Run(d, Cleared(s, m), bs)
  {
    hide Inv, Step, Run, Reading, Cleared, Marker, Plain;
    var c := MarkChar(m);
    MarkerOf(m);
    ClearedReading(d, s, m);
    ReadingInv(d, Cleared(s, m));
    AfterIntroducer(d, s, c);
    assert ([c as int] + bs)[1..] == bs;
    RunFirst(d, s, [c as int] + bs);
  }

  lemma ReadMarked(d: Driver, s: State, m: Priv, ps: seq<nat>)
    requires Inv(d, s) && Plain(s) && s.vc.parser.state == Csi && Fits(ps) && m != Less
    ensures Reading(d, Cleared(s, m))
    ensures Run(d, s, Bytes(Marked(m, ps))) == Run(d, Cleared(s, m), Bytes(Listed(ps)))
  {
    hide Inv, Step, Run, Reading, Cleared, Marker, Plain, Listed, Fits, Marked, Bytes, IsAscii, MarkChar;
    FitsBound(ps);
    MarkedIs(m, ps);
    ClearedReading(d, s, m);
    ReadingInv(d, Cleared(s, m));
    if m == Public {
      ReadUnmarked(d, s, ps);
    } else {
      ReadMarker(d, s, m, Bytes(Listed(ps)));
    }
  }

  function Entered(s: State, es: Es): State {
    s.(vc := s.vc.(parser := s.vc.parser.(state := es)))
  }

  lemma EnteredInv(d: Driver, s: State, es: Es)
    requires Inv(d, s) && es != Palette
    ensures Inv(d, Entered(s, es)) && VcOk(d, s.vc) && Entered(s, es) == WithVc(d, s, Enter(d, s.vc, es))
  {
    hide Inv, VcOk;
    InvRest(d, s);
    var r := WithVc(d, s, Enter(d, s.vc, es));
  }

  lemma ReadFinal(d: Driver, s: State, c: char)
    requires Reading(d, s) && Ends(c)
    ensures Inv(d, Entered(s, Init)) && Run(d, s, [c as int]) == Final(d, Entered(s, Init), c)
  {
    hide Inv, VcOk, Step, ParserOk, Final;
    EnteredInv(d, s, Init);
    StepInside(d, s, c);
    RunOne(d, s, c as int);
  }

  /** From any state, a control sequence with one to sixteen parameters below 2^32 is handled with
      exactly those parameters; nothing else has changed by then. */
  lemma SequenceParsed(d: Driver, s: State, m: Priv, ps: seq<nat>, final: char)
    requires Inv(d, s) && Fits(ps) && m != Less && Ends(final)
    ensures Inv(d, Ready(s, m, ps))
    ensures Run(d, s, Sequence(m, ps, final)) == Final(d, Ready(s, m, ps), final)
  {
    hide Inv, Run, Final, Marked, Listed, Padded, Fits;
    FitsBound(ps);
    ReadIntroducer(d, s);
    var s1 := Opened(s, Csi);
    ReadMarked(d, s1, m, ps);
    var s2 := Cleared(s1, m);
    ReadList(d, s2, ps);
    var s3 := WithPars(s2, |ps| - 1, Padded(ps));
    ReadFinal(d, s3, final);
    var body := Bytes(Marked(m, ps));
    RunConcat(d, s, [0x1B, 0x5B] + body, [final as int]);
    RunConcat(d, s, [0x1B, 0x5B], body);
    assert Entered(s3, Init) == Ready(s, m, ps);
  }

  lemma FitsBound(ps: seq<nat>)
    ensures Fits(ps) ==> 1 <= |ps| <= NPAR
  {
  }
}
