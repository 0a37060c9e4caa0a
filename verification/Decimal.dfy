/** ASCII digits: numbers to text and back, and scanning `digits.digits.digits`. */
module Decimal {
  import opened Common

  predicate IsDigit(c: char) {
    '0' <= c <= '9'
  }

  /** `\d*`. */
  predicate AllDigits(s: string) {
    forall i :: 0 <= i < |s| ==> IsDigit(s[i])
  }

  /** `\d+`. */
  predicate IsNumber(s: string) {
    s != [] && AllDigits(s)
  }

  /** `0|[1-9]\d*`. */
  predicate IsPlainNumber(s: string) {
    IsNumber(s) && (|s| == 1 || s[0] != '0')
  }

  /** `[1-9]\d*`. */
  predicate IsSerial(s: string) {
    IsNumber(s) && s[0] != '0'
  }

  /** `int(s)`. */
  function ToNat(s: string): nat
    requires AllDigits(s)
  {
    if s == [] then 0 else ToNat(s[..|s| - 1]) * 10 + (s[|s| - 1] as int - '0' as int)
  }

  function Pow10(n: nat): nat {
    if n == 0 then 1 else 10 * Pow10(n - 1)
  }

  lemma {:induction false} ToNatSnoc(s: string, c: char)
    requires AllDigits(s) && IsDigit(c)
    ensures AllDigits(s + [c]) && ToNat(s + [c]) == ToNat(s) * 10 + (c as int - '0' as int)
  {
    assert (s + [c])[..|s|] == s;
  }

  lemma {:induction false} Shifted(x: int, p: int, y: int, d: int)
    ensures (x * p + y) * 10 + d == x * (10 * p) + (y * 10 + d)
  {
    assert (x * p) * 10 == x * (10 * p);
  }

  /** Positional notation: the left part counts ten times for every digit to its right. */
  lemma {:induction false} PlaceValue(s: string, t: string)
    requires AllDigits(s) && AllDigits(t)
    ensures AllDigits(s + t) && ToNat(s + t) == ToNat(s) * Pow10(|t|) + ToNat(t)
  {
    if t == [] {
      assert s + t == s;
    } else {
      var n := |t| - 1;
      var front, c := t[..n], t[n];
      PlaceValue(s, front);
      ToNatSnoc(front, c);
      ToNatSnoc(s + front, c);
      assert front + [c] == t && (s + front) + [c] == s + t;
      Shifted(ToNat(s), Pow10(n), ToNat(front), c as int - '0' as int);
    }
  }

  function DigitChar(d: nat): char
    requires d < 10
  {
    (d + '0' as int) as char
  }

  /** `str(n)`. */
  function FromNat(n: nat): string {
    if n < 10 then [DigitChar(n)] else FromNat(n / 10) + [DigitChar(n % 10)]
  }

  lemma {:induction false} FromNatIsPlain(n: nat)
    ensures IsPlainNumber(FromNat(n))
    ensures n > 0 ==> FromNat(n)[0] != '0'
  {
    if n >= 10 {
      FromNatIsPlain(n / 10);
    }
  }

  /** Reading back a printed number gives the number. */
  lemma {:induction false} PrintThenRead(n: nat)
    ensures AllDigits(FromNat(n)) && ToNat(FromNat(n)) == n
  {
    FromNatIsPlain(n);
    if n >= 10 {
      PrintThenRead(n / 10);
      var front := FromNat(n / 10);
      assert FromNat(n)[..|front|] == front;
    } else {
      assert FromNat(n)[..0] == [];
    }
  }

  lemma {:induction false} PlainIsPositive(s: string)
    requires IsSerial(s)
    ensures ToNat(s) > 0
  {
    if |s| > 1 {
      PlainIsPositive(s[..|s| - 1]);
    }
  }

  /** Printing back a number read from text without leading zeros gives the text. */
  lemma {:induction false} ReadThenPrint(s: string)
    requires IsPlainNumber(s)
    ensures FromNat(ToNat(s)) == s
  {
    var n := |s| - 1;
    if n == 0 {
      assert s[..0] == [] && s == [s[0]];
    } else {
      var front, d := s[..n], s[n] as int - '0' as int;
      PlainIsPositive(front);
      ReadThenPrint(front);
      assert ToNat(s) == ToNat(front) * 10 + d;
      assert ToNat(s) / 10 == ToNat(front) && ToNat(s) % 10 == d;
      assert s == front + [s[n]];
    }
  }

  /** Without leading zeros, equal numbers are equal texts. */
  lemma {:induction false} PlainNumbersAreUnique(a: string, b: string)
    requires IsPlainNumber(a) && IsPlainNumber(b)
    ensures ToNat(a) == ToNat(b) <==> a == b
  {
    ReadThenPrint(a);
    ReadThenPrint(b);
  }

  // ---------------------------------------------------------------------------
  // Scanning
  // ---------------------------------------------------------------------------

  predicate NoDigitFirst(s: string) {
    s == [] || !IsDigit(s[0])
  }

  /** The longest prefix of digits, and what follows. */
  function TakeDigits(s: string): (r: (string, string))
    ensures s == r.0 + r.1 && AllDigits(r.0) && NoDigitFirst(r.1)
  {
    if NoDigitFirst(s) then ([], s)
    else
      var (digits, rest) := TakeDigits(s[1..]);
      assert s == [s[0]] + s[1..];
      ([s[0]] + digits, rest)
  }

  /** There is only one way to split text into digits and a rest without. */
  lemma {:induction false} TakeDigitsExact(digits: string, rest: string)
    requires AllDigits(digits) && NoDigitFirst(rest)
    ensures TakeDigits(digits + rest) == (digits, rest)
  {
    if digits == [] {
      assert digits + rest == rest;
    } else {
      assert (digits + rest)[1..] == digits[1..] + rest;
      TakeDigitsExact(digits[1..], rest);
      assert digits == [digits[0]] + digits[1..];
    }
  }

  datatype Triple = Triple(major: string, minor: string, patch: string, rest: string)

  function Dotted(major: string, minor: string, patch: string): string {
    major + "." + minor + "." + patch
  }

  /** `\d+\.\d+\.\d+`, and what follows. */
  function TakeTriple(s: string): Option<Triple> {
    var (a, r1) := TakeDigits(s);
    if a == [] || r1 == [] || r1[0] != '.' then None
    else
      var (b, r2) := TakeDigits(r1[1..]);
      if b == [] || r2 == [] || r2[0] != '.' then None
      else
        var (c, r3) := TakeDigits(r2[1..]);
        if c == [] then None else Some(Triple(a, b, c, r3))
  }

  lemma {:induction false} DottedThen(a: string, b: string, c: string, rest: string)
    ensures a + ("." + (b + ("." + (c + rest)))) == Dotted(a, b, c) + rest
  {
  }

  lemma {:induction false} TakeTripleSound(s: string)
    requires TakeTriple(s).Some?
    ensures var t := TakeTriple(s).value;
            && IsNumber(t.major) && IsNumber(t.minor) && IsNumber(t.patch) && NoDigitFirst(t.rest)
            && s == Dotted(t.major, t.minor, t.patch) + t.rest
  {
    var (a, r1) := TakeDigits(s);
    var (b, r2) := TakeDigits(r1[1..]);
    var (c, r3) := TakeDigits(r2[1..]);
    assert r1 == "." + r1[1..];
    assert r2 == "." + r2[1..];
    DottedThen(a, b, c, r3);
  }

  lemma {:induction false} TakeTripleExact(a: string, b: string, c: string, rest: string)
    requires IsNumber(a) && IsNumber(b) && IsNumber(c) && NoDigitFirst(rest)
    ensures TakeTriple(Dotted(a, b, c) + rest) == Some(Triple(a, b, c, rest))
  {
    var r2 := "." + (c + rest);
    var r1 := "." + (b + r2);
    DottedThen(a, b, c, rest);
    TakeDigitsExact(a, r1);
    assert r1[1..] == b + r2;
    TakeDigitsExact(b, r2);
    assert r2[1..] == c + rest;
    TakeDigitsExact(c, rest);
  }
}
