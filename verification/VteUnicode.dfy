/** UTF-8 in the write loop (drivers/char/vt.c:1252-1287).  The guard takes the initial state for a
    control state, so that text is not decoded and control sequences are: when encoded text shows as
    itself, and what becomes of encoded codes inside a sequence. */
module VteUnicode {
  import opened Common
  import opened VteState
  import opened VteScreen
  import opened VteCommands
  import opened VteParser
  import opened VteText
  import opened VteSequences
  import Utf8

  // ---- text ----

  /** The glyphs one after the other. */
  function PutEach(d: Driver, s: State, glyphs: seq<int>): (r: State)
    requires Inv(d, s)
    ensures Inv(d, r)
    decreases |glyphs|
  {
    hide Inv, Put;
    if |glyphs| == 0 then s else PutEach(d, Put(d, s, glyphs[0]), glyphs[1..])
  }

  function GlyphsOf(d: Driver, cs: seq<int>): (r: seq<int>)
    ensures |r| == |cs|
  {
    seq(|cs|, i requires 0 <= i < |cs| => Glyph(d, cs[i]))
  }

  /** Room for n more glyphs above the bottom margin. */
  ghost predicate RoomFor(d: Driver, s: State, n: nat) {
    Inv(d, s) && Typing(s.vc) && NextCell(d, s.vc.cur) + n <= s.vc.bottom * d.cols
  }

  lemma {:induction false} PutEachAdvances(d: Driver, s: State, glyphs: seq<int>)
    requires RoomFor(d, s, |glyphs|)
    ensures NextCell(d, PutEach(d, s, glyphs).vc.cur) == NextCell(d, s.vc.cur) + |glyphs|
    decreases |glyphs|
  {
    hide Inv, Put, NextCell;
    if |glyphs| > 0 {
      PutNext(d, s, glyphs[0]);
      PutEachAdvances(d, Put(d, s, glyphs[0]), glyphs[1..]);
    }
  }

  /** In the initial state every byte is shown by itself, in UTF-8 or not. */
  lemma {:induction false} BytesShown(d: Driver, s: State, bs: seq<Utf8.byte>)
    requires RoomFor(d, s, |bs|) && AllPrintable(d, bs)
    ensures Run(d, s, bs) == PutEach(d, s, GlyphsOf(d, bs))
    decreases |bs|
  {
    hide Inv, Put, Step, NextCell, Glyph, Printable;
    if |bs| > 0 {
      assert Printable(d, bs[0]);
      ShowsGlyph(d, s, bs[0]);
      PutNext(d, s, Glyph(d, bs[0]));
      BytesShown(d, Put(d, s, Glyph(d, bs[0])), bs[1..]);
      assert GlyphsOf(d, bs)[1..] == GlyphsOf(d, bs[1..]);
    }
  }

  ghost predicate AllAsciiCodes(cs: seq<Utf8.ushort>) {
    forall i :: 0 <= i < |cs| ==> cs[i] < 0x80
  }

  /** Encoding leaves ASCII alone and makes everything else longer. */
  lemma {:induction false} EncodedLength(cs: seq<Utf8.ushort>)
    ensures |Utf8.EncodeAll(cs)| >= |cs| && (|Utf8.EncodeAll(cs)| == |cs| <==> AllAsciiCodes(cs))
    ensures AllAsciiCodes(cs) ==> Utf8.EncodeAll(cs) == cs
  {
    hide Utf8.Encode, AllAsciiCodes;
    if |cs| == 0 {
      assert AllAsciiCodes(cs) by { NoCodes(); }
    } else {
      var n := |cs| - 1;
      EncodedLength(cs[..n]);
      AsciiSnoc(cs, n);
      EncodeOne(cs[n]);
    }
  }

  lemma NoCodes()
    ensures AllAsciiCodes([])
  {
  }

  lemma AsciiSnoc(cs: seq<Utf8.ushort>, n: nat)
    requires n == |cs| - 1
    ensures AllAsciiCodes(cs) <==> AllAsciiCodes(cs[..n]) && cs[n] < 0x80
    ensures cs == cs[..n] + [cs[n]]
  {
  }

  lemma EncodeOne(c: Utf8.ushort)
    ensures |Utf8.Encode(c)| >= 1 && (|Utf8.Encode(c)| == 1 <==> c < 0x80) && (c < 0x80 ==> Utf8.Encode(c) == [c])
  {
  }

  /** Encoded text written to a console shows the glyphs of its codes exactly if it is all ASCII: every
      other code fills a cell for each of its bytes. */
  lemma EncodedTextIff(d: Driver, s: State, cs: seq<Utf8.ushort>)
    requires RoomFor(d, s, |Utf8.EncodeAll(cs)|) && AllPrintable(d, Utf8.EncodeAll(cs))
    ensures NextCell(d, Run(d, s, Utf8.EncodeAll(cs)).vc.cur) == NextCell(d, s.vc.cur) + |Utf8.EncodeAll(cs)|
    ensures Run(d, s, Utf8.EncodeAll(cs)) == PutEach(d, s, GlyphsOf(d, cs)) <==> AllAsciiCodes(cs)
  {
    hide Inv, PutEach, Run, NextCell, AllPrintable, Utf8.EncodeAll;
    var bs := Utf8.EncodeAll(cs);
    EncodedLength(cs);
    BytesShown(d, s, bs);
    PutEachAdvances(d, s, GlyphsOf(d, bs));
    PutEachAdvances(d, s, GlyphsOf(d, cs));
  }

  /** U+00E9 fills two cells, with the glyphs of 0xC3 and 0xA9. */
  lemma AccentFillsTwo(d: Driver, s: State)
    requires RoomFor(d, s, 2) && s.vc.modes.utf && Printable(d, 0xC3) && Printable(d, 0xA9)
    ensures Utf8.EncodeAll([0xE9]) == [0xC3, 0xA9]
    ensures 0 <= NextCell(d, s.vc.cur) && NextCell(d, s.vc.cur) + 2 <= |s.cells|
    ensures Run(d, s, Utf8.EncodeAll([0xE9])).cells
            == Overwritten(s.cells, NextCell(d, s.vc.cur), Image(d, s.vc.attr, [0xC3, 0xA9]))
  {
    hide Inv, Run, NextCell, Printable, Image, Overwritten;
    assert [0xE9][..0] == [];
    TextFills(d, s, [0xC3, 0xA9]);
  }

  // ---- control sequences ----

  /** Inside a sequence, in UTF-8, the bytes of a code act as that one code, whatever the decoder was
      in the middle of. */
  lemma DecodedInSequence(d: Driver, s: State, c: Utf8.ushort)
    requires Inv(d, s) && s.vc.parser.state != Init && s.vc.modes.utf && c >= 0x80
    ensures Inv(d, Awaiting(s, Utf8.State(0, c)))
    ensures Run(d, s, Utf8.Encode(c)) == Emulate(d, Awaiting(s, Utf8.State(0, c)), c)
  {
    hide Inv, Run, Step, Emulate, Utf8.Step, Utf8.Encode;
    var e := Utf8.Encode(c);
    if c < 0x800 {
      Utf8.TwoBytes(s.vc.decoder, c);
      assert e == [e[0]] + [e[1]];
      DecodeMore(d, s, e[0], Utf8.State(1, c / 64));
      var s1 := Awaiting(s, Utf8.State(1, c / 64));
      RunConcat(d, s, [e[0]], [e[1]]);
      DecodeLast(d, s1, e[1], c);
    } else {
      Utf8.ThreeBytes(s.vc.decoder, c);
      assert e == [e[0]] + ([e[1]] + [e[2]]);
      DecodeMore(d, s, e[0], Utf8.State(2, c / 4096));
      var s1 := Awaiting(s, Utf8.State(2, c / 4096));
      DecodeMore(d, s1, e[1], Utf8.State(1, c / 64));
      var s2 := Awaiting(s, Utf8.State(1, c / 64));
      RunConcat(d, s, [e[0]], [e[1]] + [e[2]]);
      RunConcat(d, s1, [e[1]], [e[2]]);
      DecodeLast(d, s2, e[2], c);
    }
  }

  function Awaiting(s: State, u: Utf8.State): State {
    s.(vc := s.vc.(decoder := u))
  }

  lemma DecodeMore(d: Driver, s: State, b: Utf8.byte, u: Utf8.State)
    requires Inv(d, s) && s.vc.parser.state != Init && s.vc.modes.utf && Utf8.Step(s.vc.decoder, b) == (u, None)
    ensures Run(d, s, [b]) == Awaiting(s, u) && Inv(d, Awaiting(s, u))
  {
    hide Inv, VcOk, Put, Emulate, Utf8.Step, Utf8.Sound;
    InvRest(d, s);
    DecoderPart(d, s.vc);
    Utf8.StepSound(s.vc.decoder, b);
    RunOne(d, s, b);
    var r := WithVc(d, s, WithDecoder(d, s.vc, u));
  }

  lemma DecodeLast(d: Driver, s: State, b: Utf8.byte, c: int)
    requires Inv(d, s) && s.vc.parser.state != Init && s.vc.modes.utf
    requires Utf8.Step(s.vc.decoder, b) == (Utf8.State(0, c), Some(c))
    ensures Inv(d, Awaiting(s, Utf8.State(0, c)))
    ensures Run(d, s, [b]) == Emulate(d, Awaiting(s, Utf8.State(0, c)), c)
  {
    hide Inv, VcOk, Put, Emulate, Utf8.Step, Utf8.Sound;
    InvRest(d, s);
    DecoderPart(d, s.vc);
    Utf8.StepSound(s.vc.decoder, b);
    RunOne(d, s, b);
    var r := WithVc(d, s, WithDecoder(d, s.vc, Utf8.State(0, c)));
  }
}
