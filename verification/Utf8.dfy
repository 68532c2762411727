/** The keyboard's UTF-8 encoder (drivers/char/keyboard.c:269-284) and the console's decoder
    (drivers/char/vt.c:1254-1287).  Shifts and masks are written as division and remainder. */
module Utf8 {
  import opened Common

  type ushort = x: int | 0 <= x < 0x1_0000

  type byte = x: int | 0 <= x < 0x100

  /** The bytes to_utf8 queues for one 16-bit code. */
  function Encode(c: ushort): (r: seq<byte>)
    ensures 1 <= |r| <= 3
  {
    if c < 0x80 then [c]
    else if c < 0x800 then [0xC0 + c / 64, 0x80 + c % 64]
    else [0xE0 + c / 4096, 0x80 + c / 64 % 64, 0x80 + c % 64]
  }

  function EncodeAll(cs: seq<ushort>): seq<byte> {
    if |cs| == 0 then [] else EncodeAll(cs[..|cs| - 1]) + Encode(cs[|cs| - 1])
  }

  /** vc_utf_count and vc_utf_char. */
  datatype State = State(count: nat, code: int)

  /** One byte through the decoder: the new state and the code it completes, if any. */
  function Step(s: State, c: byte): (r: (State, Option<int>)) {
    if c > 0x7F then
      if s.count > 0 && c / 64 == 2 then
        var ch := s.code * 64 + c % 64;
        if s.count == 1 then (State(0, ch), Some(ch)) else (State(s.count - 1, ch), None)
      else if c / 32 == 6 then (State(1, c % 32), None)
      else if c / 16 == 14 then (State(2, c % 16), None)
      else if c / 8 == 30 then (State(3, c % 8), None)
      else if c / 4 == 62 then (State(4, c % 4), None)
      else if c / 2 == 126 then (State(5, c % 2), None)
      else (State(0, s.code), None)
    else (State(0, s.code), Some(c))
  }

  /** A byte string through the decoder: the final state and the codes completed. */
  function Decode(s: State, bs: seq<byte>): (r: (State, seq<int>))
    decreases |bs|
  {
    if |bs| == 0 then (s, [])
    else
      var (s1, o) := Step(s, bs[0]);
      var (s2, cs) := Decode(s1, bs[1..]);
      (s2, if o.Some? then [o.value] + cs else cs)
  }

  /** The largest unfinished value that `count` more bytes can still complete below 2^31. */
  function Room(count: nat): int {
    match count
    case 0 => 0x8000_0000
    case 1 => 0x200_0000
    case 2 => 0x8_0000
    case 3 => 0x2000
    case 4 => 0x80
    case _ => 2
  }

  /** At most five bytes are awaited and the value they complete fits in 31 bits. */
  ghost predicate Sound(s: State) {
    s.count <= 5 && 0 <= s.code < 0x8000_0000 && (s.count > 0 ==> s.code < Room(s.count))
  }

  lemma StepSound(s: State, c: byte)
    requires Sound(s)
    ensures Sound(Step(s, c).0)
    ensures Step(s, c).1.Some? ==> 0 <= Step(s, c).1.value < 0x8000_0000
  {
  }

  /** On arbitrary bytes the decoder stays sound and delivers only 31-bit codes. */
  lemma {:induction false} DecodeSound(s: State, bs: seq<byte>)
    requires Sound(s)
    ensures Sound(Decode(s, bs).0)
    ensures forall i :: 0 <= i < |Decode(s, bs).1| ==> 0 <= Decode(s, bs).1[i] < 0x8000_0000
    decreases |bs|
  {
    if |bs| > 0 {
      StepSound(s, bs[0]);
      DecodeSound(Step(s, bs[0]).0, bs[1..]);
    }
  }

  lemma {:induction false} DecodeConcat(s: State, a: seq<byte>, b: seq<byte>)
    ensures Decode(s, a + b).0 == Decode(Decode(s, a).0, b).0
    ensures Decode(s, a + b).1 == Decode(s, a).1 + Decode(Decode(s, a).0, b).1
    decreases |a|
  {
    if |a| == 0 {
      assert a + b == b;
    } else {
      assert (a + b)[1..] == a[1..] + b;
      DecodeConcat(Step(s, a[0]).0, a[1..], b);
    }
  }

  lemma DecodeOne(s: State, b: byte)
    ensures Decode(s, [b]) == (Step(s, b).0, if Step(s, b).1.Some? then [Step(s, b).1.value] else [])
  {
    assert [b][1..] == [];
    assert forall v: int :: [v] + [] == [v];
  }

  /** The steps through the bytes of a code that takes two. */
  lemma TwoBytes(s: State, c: ushort)
    requires 0x80 <= c < 0x800
    ensures var e := Encode(c);
            |e| == 2 && Step(s, e[0]) == (State(1, c / 64), None) && Step(State(1, c / 64), e[1]) == (State(0, c), Some(c as int))
  {
  }

  lemma ThreeBytes(s: State, c: ushort)
    requires 0x800 <= c
    ensures var e := Encode(c);
            |e| == 3 && Step(s, e[0]) == (State(2, c / 4096), None) &&
            Step(State(2, c / 4096), e[1]) == (State(1, c / 64), None) && Step(State(1, c / 64), e[2]) == (State(0, c), Some(c as int))
  {
  }

  lemma DecodeTwo(s: State, a: byte, b: byte)
    ensures Decode(s, [a, b]).0 == Step(Step(s, a).0, b).0
    ensures Decode(s, [a, b]).1 == Decode(s, [a]).1 + Decode(Step(s, a).0, [b]).1
  {
    hide Step;
    assert [a, b] == [a] + [b];
    DecodeConcat(s, [a], [b]);
    DecodeOne(s, a);
    DecodeOne(Step(s, a).0, b);
  }

  /** One encoded code, from any state left over by earlier bytes. */
  lemma EncodeDecodes(s: State, c: ushort)
    ensures Decode(s, Encode(c)).0.count == 0 && Decode(s, Encode(c)).1 == [c]
  {
    hide Step, Decode;
    var e := Encode(c);
    if c < 0x80 {
      AsciiByte(s, c);
      DecodeOne(s, e[0]);
    } else if c < 0x800 {
      TwoBytes(s, c);
      DecodeTwo(s, e[0], e[1]);
      DecodeOne(s, e[0]);
      DecodeOne(State(1, c / 64), e[1]);
    } else {
      ThreeBytes(s, c);
      assert e == [e[0]] + [e[1], e[2]];
      DecodeConcat(s, [e[0]], [e[1], e[2]]);
      DecodeOne(s, e[0]);
      DecodeTwo(State(2, c / 4096), e[1], e[2]);
      DecodeOne(State(2, c / 4096), e[1]);
      DecodeOne(State(1, c / 64), e[2]);
    }
  }

  // ---- the forms of RFC 2279 ----

  function Pow64(n: nat): nat {
    match n
    case 0 => 1
    case 1 => 64
    case 2 => 4096
    case 3 => 262144
    case 4 => 16777216
    case _ => 1073741824
  }

  /** The first byte for n more, without its value bits, and how many values those have. */
  function Lead(n: nat): (r: (int, nat)) {
    match n
    case 1 => (0xC0, 32)
    case 2 => (0xE0, 16)
    case 3 => (0xF0, 8)
    case 4 => (0xF8, 4)
    case _ => (0xFC, 2)
  }

  /** n bytes that carry six bits of v each, the highest first. */
  function Tail(v: nat, n: nat): (r: seq<byte>)
    requires n <= 5 && v < Pow64(n)
  {
    if n == 0 then [] else [0x80 + v / Pow64(n - 1)] + Tail(v % Pow64(n - 1), n - 1)
  }

  lemma {:induction false} TailDecodes(n: nat, p: nat, v: nat)
    requires 1 <= n <= 5 && v < Pow64(n)
    ensures Decode(State(n, p), Tail(v, n)).0.count == 0 && Decode(State(n, p), Tail(v, n)).1 == [p * Pow64(n) + v]
    decreases n
  {
    hide Decode, Step, Tail;
    var (b, rest) := (0x80 + v / Pow64(n - 1), v % Pow64(n - 1));
    TailStep(n, p, v);
    DecodeOne(State(n, p), b);
    if n > 1 {
      DecodeConcat(State(n, p), [b], Tail(rest, n - 1));
      TailDecodes(n - 1, p * 64 + v / Pow64(n - 1), rest);
    }
  }

  lemma TailStep(n: nat, p: nat, v: nat)
    requires 1 <= n <= 5 && v < Pow64(n)
    ensures var d := v / Pow64(n - 1);
            0 <= d < 64 && Tail(v, n) == [0x80 + d] + Tail(v % Pow64(n - 1), n - 1) && (n == 1 ==> Tail(v, n) == [0x80 + v]) &&
            Step(State(n, p), 0x80 + d) == (State(n - 1, p * 64 + d), if n == 1 then Some(p * 64 + d) else None)
  {
  }

  /** The form of n + 1 bytes. */
  function Form(n: nat, v: nat): (r: seq<byte>)
    requires 1 <= n <= 5 && v < Lead(n).1 * Pow64(n)
  {
    [Lead(n).0 + v / Pow64(n)] + Tail(v % Pow64(n), n)
  }

  /** Every number below 2^31, in every form of two to six bytes that has room for it, is decoded to itself
      from any left-over state. */
  lemma FormDecodes(s: State, n: nat, v: nat)
    requires 1 <= n <= 5 && v < Lead(n).1 * Pow64(n)
    ensures Decode(s, Form(n, v)).0.count == 0 && Decode(s, Form(n, v)).1 == [v]
  {
    hide Decode, Step, Tail;
    var b := Lead(n).0 + v / Pow64(n);
    LeadStep(s, n, v);
    DecodeOne(s, b);
    DecodeConcat(s, [b], Tail(v % Pow64(n), n));
    TailDecodes(n, v / Pow64(n), v % Pow64(n));
  }

  /** The keyboard sends the shortest form. */
  lemma EncodeIsForm(c: ushort)
    ensures c < 0x80 ==> Encode(c) == [c]
    ensures 0x80 <= c < 0x800 ==> Encode(c) == Form(1, c)
    ensures 0x800 <= c ==> Encode(c) == Form(2, c)
  {
    hide Tail;
    if 0x800 <= c {
      TailTwo(c % 4096);
      Digits64(c);
    } else if 0x80 <= c {
      TailOne(c % 64);
    }
  }

  lemma Digits64(c: nat)
    ensures c % 4096 / 64 == c / 64 % 64 && c % 4096 % 64 == c % 64
  {
  }

  lemma TailOne(v: nat)
    requires v < 64
    ensures Tail(v, 1) == [0x80 + v]
  {
    assert Tail(v, 1) == [0x80 + v] + Tail(0, 0);
  }

  lemma TailTwo(v: nat)
    requires v < 4096
    ensures Tail(v, 2) == [0x80 + v / 64, 0x80 + v % 64]
  {
    TailOne(v % 64);
    assert Tail(v, 2) == [0x80 + v / 64] + Tail(v % 64, 1);
  }

  lemma LeadStep(s: State, n: nat, v: nat)
    requires 1 <= n <= 5 && v < Lead(n).1 * Pow64(n)
    ensures 0 <= Lead(n).0 + v / Pow64(n) < 256
    ensures Step(s, Lead(n).0 + v / Pow64(n)) == (State(n, v / Pow64(n)), None)
  {
  }

  lemma AsciiByte(s: State, c: byte)
    requires c < 0x80
    ensures Step(s, c) == (State(0, s.code), Some(c as int))
  {
  }

  /** Round trip: whatever was decoded before, an encoded text decodes back to itself. */
  lemma {:induction false} RoundTrip(s: State, cs: seq<ushort>)
    ensures Decode(s, EncodeAll(cs)).1 == cs
  {
    if |cs| > 0 {
      var n := |cs| - 1;
      var a := EncodeAll(cs[..n]);
      RoundTrip(s, cs[..n]);
      DecodeConcat(s, a, Encode(cs[n]));
      EncodeDecodes(Decode(s, a).0, cs[n]);
      assert cs == cs[..n] + [cs[n]];
    }
  }

  /** Resynchronisation: after arbitrary bytes, an encoded text is still delivered whole. */
  lemma Resynchronises(s: State, noise: seq<byte>, cs: seq<ushort>)
    ensures Decode(s, noise + EncodeAll(cs)).1 == Decode(s, noise).1 + cs
  {
    DecodeConcat(s, noise, EncodeAll(cs));
    RoundTrip(Decode(s, noise).0, cs);
  }

  /** The tty input queue that put_queue appends to. */
  class InputQueue {
    var bytes: seq<byte>

    constructor ()
      ensures bytes == []
    {
      bytes := [];
    }

    method PutQueue(ch: byte)
      modifies this
      ensures bytes == old(bytes) + [ch]
    {
      bytes := bytes + [ch];
    }

    /** to_utf8 */
    method ToUtf8(c: ushort)
      modifies this
      ensures bytes == old(bytes) + Encode(c)
    {
      if c < 0x80 {
        PutQueue(c);
      } else if c < 0x800 {
        PutQueue(0xC0 + c / 64);
        PutQueue(0x80 + c % 64);
      } else {
        PutQueue(0xE0 + c / 4096);
        PutQueue(0x80 + c / 64 % 64);
        PutQueue(0x80 + c % 64);
      }
    }
  }

  /** The UTF-8 block of do_con_write. */
  class Decoder {
    var utfCount: nat
    var utfChar: int

    ghost function Now(): State
      reads this
    {
      State(utfCount, utfChar)
    }

    constructor ()
      ensures Now() == State(0, 0)
    {
      utfCount, utfChar := 0, 0;
    }

    /** Returns the code to display, or None where the source goes on to the next byte. */
    method Feed(c: byte) returns (tc: Option<int>)
      modifies this
      ensures (Now(), tc) == Step(old(Now()), c)
    {
      if c > 0x7F {
        if utfCount > 0 && c / 64 == 2 {
          utfChar := utfChar * 64 + c % 64;
          utfCount := utfCount - 1;
          if utfCount == 0 {
            return Some(utfChar);
          }
          return None;
        }
        if c / 32 == 6 {
          utfCount, utfChar := 1, c % 32;
        } else if c / 16 == 14 {
          utfCount, utfChar := 2, c % 16;
        } else if c / 8 == 30 {
          utfCount, utfChar := 3, c % 8;
        } else if c / 4 == 62 {
          utfCount, utfChar := 4, c % 4;
        } else if c / 2 == 126 {
          utfCount, utfChar := 5, c % 2;
        } else {
          utfCount := 0;
        }
        return None;
      }
      utfCount := 0;
      return Some(c);
    }

    /** A whole buffer through the decoder: sound on any bytes. */
    method FeedAll(bs: seq<byte>) returns (cs: seq<int>)
      requires Sound(Now())
      modifies this
      ensures (Now(), cs) == Decode(old(Now()), bs) && Sound(Now())
    {
      cs := [];
      ghost var s0 := Now();
      for i := 0 to |bs|
        invariant (Now(), cs) == Decode(s0, bs[..i])
      {
        DecodeConcat(s0, bs[..i], [bs[i]]);
        DecodeOne(Now(), bs[i]);
        assert bs[..i + 1] == bs[..i] + [bs[i]];
        assert cs + [] == cs;
        var tc := Feed(bs[i]);
        if tc.Some? {
          cs := cs + [tc.value];
        }
      }
      assert bs[..|bs|] == bs;
      DecodeSound(s0, bs);
    }
  }
}
