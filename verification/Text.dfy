/** JavaScript strings as sequences of UTF-16 code units, with the few string operations
    the sources use: trimming, and decimal digits in both directions. */
module Text {

  type Unit = n: int | 0 <= n < 0x1_0000
  type JsString = seq<Unit>

  const ZERO: Unit := 48
  const DOT: Unit := 46
  const MINUS: Unit := 45
  const COLON: Unit := 58
  const BAR: Unit := 124
  const NEWLINE: Unit := 10

  /** A literal of the source, unit by unit. */
  function Lit(s: string): (r: JsString)
    requires forall i :: 0 <= i < |s| ==> s[i] as int < 128
    ensures |r| == |s| && forall i :: 0 <= i < |s| ==> r[i] == s[i] as int
  {
    seq(|s|, i requires 0 <= i < |s| => s[i] as int)
  }

  // ----- White space (WhiteSpace and LineTerminator, sections 12.2 and 12.3 of ECMA-262) -----

  predicate IsSpace(c: Unit) {
    || 9 <= c <= 13 || c == 32 || c == 0xA0 || c == 0x1680 || 0x2000 <= c <= 0x200A
    || c == 0x2028 || c == 0x2029 || c == 0x202F || c == 0x205F || c == 0x3000 || c == 0xFEFF
  }

  function TrimStart(s: JsString): JsString
    decreases |s|
  {
    if s != [] && IsSpace(s[0]) then TrimStart(s[1..]) else s
  }

  function TrimEnd(s: JsString): JsString
    decreases |s|
  {
    if s != [] && IsSpace(s[|s| - 1]) then TrimEnd(s[..|s| - 1]) else s
  }

  function Trim(s: JsString): JsString {
    TrimEnd(TrimStart(s))
  }

  lemma TrimKeepsTight(s: JsString)
    requires s == [] || (!IsSpace(s[0]) && !IsSpace(s[|s| - 1]))
    ensures Trim(s) == s
  {
  }

  // ----- Decimal digits -----

  predicate IsDigit(c: Unit) {
    ZERO <= c <= ZERO + 9
  }

  predicate AllDigits(s: JsString) {
    forall i :: 0 <= i < |s| ==> IsDigit(s[i])
  }

  function ToDecimal(n: nat): (s: JsString)
    ensures |s| >= 1 && AllDigits(s)
  {
    if n < 10 then [ZERO + n] else ToDecimal(n / 10) + [ZERO + n % 10]
  }

  function FromDecimal(s: JsString): nat
    requires AllDigits(s)
    decreases |s|
  {
    if s == [] then 0 else 10 * FromDecimal(s[..|s| - 1]) + (s[|s| - 1] - ZERO)
  }

  lemma {:induction false} DecimalRoundTrip(n: nat)
    ensures FromDecimal(ToDecimal(n)) == n
  {
    if n >= 10 {
      DecimalRoundTrip(n / 10);
      assert ToDecimal(n)[..|ToDecimal(n)| - 1] == ToDecimal(n / 10);
    } else {
      assert ToDecimal(n)[..0] == [];
      assert FromDecimal([]) == 0;
    }
  }

  function Pow10(k: nat): (p: nat)
    ensures p >= 1
  {
    if k == 0 then 1 else 10 * Pow10(k - 1)
  }

  lemma {:induction false} Pow10Sum(a: nat, b: nat)
    ensures Pow10(a + b) == Pow10(a) * Pow10(b)
  {
    if a > 0 {
      Pow10Sum(a - 1, b);
      assert Pow10(a + b) == 10 * (Pow10(a - 1) * Pow10(b));
    }
  }

  lemma {:induction false} FromDecimalConcat(a: JsString, b: JsString)
    requires AllDigits(a) && AllDigits(b)
    ensures AllDigits(a + b)
    ensures FromDecimal(a + b) == FromDecimal(a) * Pow10(|b|) + FromDecimal(b)
    decreases |b|
  {
    if b == [] {
      assert a + b == a;
    } else {
      var front, last := b[..|b| - 1], b[|b| - 1];
      FromDecimalConcat(a, front);
      assert (a + b)[..|a + b| - 1] == a + front;
      ShiftDigit(FromDecimal(a), Pow10(|front|), FromDecimal(front), last - ZERO);
    }
  }

  lemma ShiftDigit(a: nat, p: nat, b: nat, d: nat)
    ensures 10 * (a * p + b) + d == a * (10 * p) + (10 * b + d)
  {
  }

  lemma {:induction false} FromDecimalBound(s: JsString)
    requires AllDigits(s)
    ensures FromDecimal(s) < Pow10(|s|)
    decreases |s|
  {
    if s != [] {
      FromDecimalBound(s[..|s| - 1]);
    }
  }

  function Zeros(k: nat): (s: JsString)
    ensures |s| == k && AllDigits(s)
  {
    seq(k, _ => ZERO)
  }

  lemma {:induction false} FromDecimalZeros(k: nat)
    ensures FromDecimal(Zeros(k)) == 0
  {
    if k > 0 {
      FromDecimalZeros(k - 1);
      assert Zeros(k)[..k - 1] == Zeros(k - 1);
    }
  }

  /** How many units at the front are digits. */
  function LeadingDigits(s: JsString): (k: nat)
    ensures k <= |s| && AllDigits(s[..k])
  {
    if s != [] && IsDigit(s[0]) then
      var k := LeadingDigits(s[1..]);
      assert s[..k + 1] == [s[0]] + s[1..][..k];
      k + 1
    else 0
  }

  lemma {:induction false} DigitsThenStop(digits: JsString, rest: JsString)
    requires AllDigits(digits) && (rest == [] || !IsDigit(rest[0]))
    ensures LeadingDigits(digits + rest) == |digits|
    decreases |digits|
  {
    if digits != [] {
      DigitsThenStop(digits[1..], rest);
      assert (digits + rest)[1..] == digits[1..] + rest;
    } else {
      assert digits + rest == rest;
    }
  }
}
