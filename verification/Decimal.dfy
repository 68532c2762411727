/** Decimal numbers as printf("%d") writes and sscanf("%d") reads them, and lists of them
    separated by commas.  The numbers stay within int. */
module Decimal {
  import opened Common

  function Digit(n: nat): char
    requires n < 10
  {
    '0' + n as char
  }

  predicate IsDigit(c: char) {
    '0' <= c <= '9'
  }

  function DigitValue(c: char): nat
    requires IsDigit(c)
  {
    (c - '0') as nat
  }

  function Digits(n: nat): (s: string)
    ensures |s| > 0 && forall i :: 0 <= i < |s| ==> IsDigit(s[i])
  {
    if n < 10 then [Digit(n)] else Digits(n / 10) + [Digit(n % 10)]
  }

  /** printf("%d") */
  function Printed(n: int): (s: string)
    ensures |s| > 0 && (IsDigit(s[0]) || s[0] == '-')
    ensures ',' !in s && ' ' !in s
  {
    if n < 0 then "-" + Digits(-n) else Digits(n)
  }

  /** The value of the leading digits of s, continuing a number read so far. */
  function Value(s: string, acc: int): int {
    if |s| == 0 || !IsDigit(s[0]) then acc else Value(s[1..], acc * 10 + DigitValue(s[0]))
  }

  predicate IsSpace(c: char) {
    c == ' ' || '\t' <= c <= '\r'
  }

  /** sscanf(s, "%d"): the number at the start of s, or prev if there is none. */
  function Scanned(s: string, prev: int): int {
    if |s| > 0 && IsSpace(s[0]) then Scanned(s[1..], prev)
    else if |s| > 1 && s[0] == '-' && IsDigit(s[1]) then -Value(s[1..], 0)
    else if |s| > 1 && s[0] == '+' && IsDigit(s[1]) then Value(s[1..], 0)
    else if |s| > 0 && IsDigit(s[0]) then Value(s, 0)
    else prev
  }

  lemma DigitRoundTrip(n: nat)
    requires n < 10
    ensures IsDigit(Digit(n)) && DigitValue(Digit(n)) == n
  {
  }

  lemma {:induction false} DigitsValue(n: nat, rest: string)
    ensures Value(Digits(n) + rest, 0) == Value(rest, n)
  {
    if n < 10 {
      DigitRoundTrip(n);
      assert ([Digit(n)] + rest)[1..] == rest;
    } else {
      var d := [Digit(n % 10)];
      DigitRoundTrip(n % 10);
      assert Digits(n) + rest == Digits(n / 10) + (d + rest);
      DigitsValue(n / 10, d + rest);
      assert (d + rest)[1..] == rest;
    }
  }

  lemma ValueStops(rest: string, acc: int)
    requires |rest| == 0 || !IsDigit(rest[0])
    ensures Value(rest, acc) == acc
  {
  }

  /** What was printed is read back, provided no digit follows. */
  lemma PrintedScanned(n: int, rest: string, prev: int)
    requires |rest| == 0 || !IsDigit(rest[0])
    ensures Scanned(Printed(n) + rest, prev) == n
  {
    hide Digits, Value;
    ValueStops(rest, n);
    ValueStops(rest, -n);
    if n < 0 {
      DigitsValue(-n, rest);
      var s := Printed(n) + rest;
      assert s[1..] == Digits(-n) + rest;
      assert s[1] == Digits(-n)[0];
    } else {
      DigitsValue(n, rest);
      var s := Printed(n) + rest;
      assert s[0] == Digits(n)[0];
    }
  }

  // ---- lists ----

  /** The numbers as printed by printf(",%d") for each: every one preceded by a comma. */
  function CommaList(ns: seq<int>): string {
    if |ns| == 0 then "" else "," + Printed(ns[0]) + CommaList(ns[1..])
  }

  lemma {:induction false} CommaListConcat(a: seq<int>, b: seq<int>)
    ensures CommaList(a + b) == CommaList(a) + CommaList(b)
  {
    if |a| == 0 {
      assert a + b == b;
    } else {
      assert (a + b)[1..] == a[1..] + b;
      CommaListConcat(a[1..], b);
    }
  }

  /** strstr(p, ","): the rest of the string from its first comma on. */
  function FromComma(s: string): (r: Option<string>)
    ensures r.Some? ==> |r.value| > 0 && r.value[0] == ',' && |r.value| <= |s|
  {
    if |s| == 0 then None else if s[0] == ',' then Some(s) else FromComma(s[1..])
  }

  lemma {:induction false} FromCommaSkips(a: string, b: string)
    requires ',' !in a
    ensures FromComma(a + b) == FromComma(b)
  {
    if |a| == 0 {
      assert a + b == b;
    } else {
      assert (a + b)[1..] == a[1..] + b;
      FromCommaSkips(a[1..], b);
    }
  }

  /** A pointer to the text left to read: NULL (None), or at a comma. */
  function AsPointer(ns: seq<int>): Option<string> {
    if |ns| == 0 then None else Some(CommaList(ns))
  }

  /** Reading one number of a printed list and moving on to the next comma. */
  lemma ReadOne(n: int, ns: seq<int>, prev: int)
    ensures Scanned(Printed(n) + CommaList(ns), prev) == n
    ensures FromComma(Printed(n) + CommaList(ns)) == AsPointer(ns)
  {
    var rest := CommaList(ns);
    PrintedScanned(n, rest, prev);
    FromCommaSkips(Printed(n), rest);
    if |ns| > 0 {
      assert rest[0] == ',';
    }
  }
}
