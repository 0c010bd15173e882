/** Token amounts in and out of decimal text (packages/core/src/wei.ts and funding.ts), with a
    reader that measures exactly what the printed form keeps. */
module Units {
  import opened Arithmetic
  import opened Text
  import opened Wrappers

  // ----- Wei strings -----

  predicate IsWeiString(s: JsString) {
    s != [] && AllDigits(s)
  }

  type Wei = s: JsString | IsWeiString(s) witness [ZERO]

  datatype WeiInput = BigInt(n: int) | Str(s: JsString)

  datatype WeiError = NotNonNegative | NotDecimal | NotHexadecimal

  function HexValue(c: Unit): int {
    if IsDigit(c) then c - ZERO else if 97 <= c <= 102 then c - 87 else if 65 <= c <= 70 then c - 55 else -1
  }

  predicate AllHex(s: JsString) {
    forall i :: 0 <= i < |s| ==> HexValue(s[i]) >= 0
  }

  function FromHex(s: JsString): nat
    requires AllHex(s)
    decreases |s|
  {
    if s == [] then 0 else 16 * FromHex(s[..|s| - 1]) + HexValue(s[|s| - 1])
  }

  predicate HexPrefixed(s: JsString) {
    |s| >= 2 && s[0] == ZERO && (s[1] == 120 || s[1] == 88)
  }

  function ToWei(value: WeiInput): Result<Wei, WeiError> {
    match value
    case BigInt(n) => if n < 0 then Err(NotNonNegative) else Ok(ToDecimal(n))
    case Str(s) =>
      var trimmed := Trim(s);
      if HexPrefixed(trimmed) then
        if |trimmed| > 2 && AllHex(trimmed[2..]) then Ok(ToDecimal(FromHex(trimmed[2..]))) else Err(NotHexadecimal)
      else if !IsWeiString(trimmed) then Err(NotDecimal)
      else Ok(trimmed)
  }

  function WeiToBigInt(value: Wei): nat {
    FromDecimal(value)
  }

  /** Every accepted input keeps its number, and every number has an accepted input. */
  lemma ToWeiKeepsTheNumber(value: WeiInput)
    ensures ToWei(value).Ok? ==>
            WeiToBigInt(ToWei(value).value) ==
              match value
              case BigInt(n) => n
              case Str(s) => if HexPrefixed(Trim(s)) then FromHex(Trim(s)[2..]) else FromDecimal(Trim(s))
    ensures value.BigInt? ==> (ToWei(value).Ok? <==> value.n >= 0)
  {
    match value {
      case BigInt(n) => if n >= 0 { DecimalRoundTrip(n); }
      case Str(s) =>
        if HexPrefixed(Trim(s)) && AllHex(Trim(s)[2..]) { DecimalRoundTrip(FromHex(Trim(s)[2..])); }
    }
  }

  /** Which inputs are accepted: non-negative integers, decimal digits, or hexadecimal ones after `0x`
      or `0X`, at least one of them, with any white space around. */
  lemma ToWeiAcceptsExactly(value: WeiInput)
    ensures ToWei(value).Ok? <==>
            match value
            case BigInt(n) => n >= 0
            case Str(s) =>
              var t := Trim(s);
              || (t != [] && forall i :: 0 <= i < |t| ==> 48 <= t[i] <= 57)
              || (|t| > 2 && t[0] == 48 && t[1] in {88, 120} &&
                  forall i :: 2 <= i < |t| ==> 48 <= t[i] <= 57 || 65 <= t[i] <= 70 || 97 <= t[i] <= 102)
    ensures ToWei(value).Err? ==>
              ToWei(value).error ==
              match value
              case BigInt(_) => NotNonNegative
              case Str(s) => if Lit("0x") <= Trim(s) || Lit("0X") <= Trim(s) then NotHexadecimal else NotDecimal
  {
    if value.Str? {
      var t := Trim(value.s);
      if HexPrefixed(t) {
        assert forall i :: 2 <= i < |t| ==> t[2..][i - 2] == t[i];
        assert AllHex(t[2..]) <==> forall i :: 2 <= i < |t| ==> HexValue(t[i]) >= 0;
        assert !IsDigit(t[1]);
      }
    }
  }

  /** The hexadecimal digits of n, most significant first. */
  function ToHex(n: nat, digits: JsString): (s: JsString)
    requires |digits| == 16
    ensures s != []
  {
    if n < 16 then [digits[n]] else ToHex(n / 16, digits) + [digits[n % 16]]
  }

  lemma {:induction false} HexReadsBack(n: nat, digits: JsString)
    requires digits == Lit("0123456789abcdef") || digits == Lit("0123456789ABCDEF")
    ensures AllHex(ToHex(n, digits)) && FromHex(ToHex(n, digits)) == n
  {
    assert forall d :: 0 <= d < 16 ==> HexValue(digits[d]) == d;
    if n >= 16 {
      HexReadsBack(n / 16, digits);
      var s := ToHex(n, digits);
      assert s[..|s| - 1] == ToHex(n / 16, digits);
    } else {
      assert [digits[n]][..0] == [];
    }
  }

  lemma {:induction false} HexIsTight(n: nat, digits: JsString)
    requires digits == Lit("0123456789abcdef") || digits == Lit("0123456789ABCDEF")
    ensures forall c :: c in ToHex(n, digits) ==> !IsSpace(c)
  {
    assert forall d :: 0 <= d < 16 ==> !IsSpace(digits[d]);
    if n >= 16 {
      HexIsTight(n / 16, digits);
    }
  }

  /** Every number written in hexadecimal, in either case, is read as itself. */
  lemma HexadecimalIsRead(n: nat, upper: bool)
    ensures var digits := Lit(if upper then "0123456789ABCDEF" else "0123456789abcdef");
            ToWei(Str(Lit("0x") + ToHex(n, digits))) == Ok(ToDecimal(n))
  {
    var digits := Lit(if upper then "0123456789ABCDEF" else "0123456789abcdef");
    var s := Lit("0x") + ToHex(n, digits);
    HexReadsBack(n, digits);
    HexIsTight(n, digits);
    hide ToHex, FromHex, AllHex, HexValue;
    assert s[2..] == ToHex(n, digits);
    assert s[|s| - 1] == ToHex(n, digits)[|s| - 3];
    assert Trim(s) == s by { TrimKeepsTight(s); }
    hide Trim, ToDecimal;
  }

  // ----- Printing -----

  function PadStart(s: JsString, width: nat): JsString {
    if |s| >= width then s else Zeros(width - |s|) + s
  }

  function StripTrailingZeros(s: JsString): JsString
    decreases |s|
  {
    if s != [] && s[|s| - 1] == ZERO then StripTrailingZeros(s[..|s| - 1]) else s
  }

  /** The amount's digits, at least one of them before the point. */
  function Raw(amount: nat, decimals: nat): JsString {
    PadStart(ToDecimal(amount), decimals + 1)
  }

  function FormatWei(value: Wei, decimals: nat): JsString {
    var raw := Raw(WeiToBigInt(value), decimals);
    var point := if |raw| >= decimals then |raw| - decimals else 0;
    var whole := if raw[..point] == [] then [ZERO] else raw[..point];
    var fraction := if decimals > 0 then StripTrailingZeros(raw[point..]) else [];
    if |fraction| > 0 then whole + [DOT] + fraction else whole
  }

  function FormatUnitsShort(value: int, decimals: nat, maxFraction: nat): JsString {
    var negative := value < 0;
    var raw := Raw(if negative then -value else value, decimals);
    var point := if |raw| >= decimals then |raw| - decimals else 0;
    var whole := if raw[..point] == [] then [ZERO] else raw[..point];
    var tail := raw[point..];
    var fraction := StripTrailingZeros(if |tail| <= maxFraction then tail else tail[..maxFraction]);
    (if negative then [MINUS] else []) + whole + (if |fraction| > 0 then [DOT] + fraction else [])
  }

  // ----- Reading back -----

  /** The amount, in units of 10^-decimals, that a decimal text denotes. */
  function ReadUnits(s: JsString, decimals: nat): Option<nat> {
    var k := LeadingDigits(s);
    if k == 0 then None
    else if k == |s| then Some(FromDecimal(s) * Pow10(decimals))
    else if s[k] == DOT && 0 < |s| - k - 1 <= decimals && AllDigits(s[k + 1..]) then
      Some(FromDecimal(s[..k]) * Pow10(decimals) + FromDecimal(s[k + 1..]) * Pow10(decimals - (|s| - k - 1)))
    else None
  }

  lemma PadKeepsNumber(s: JsString, width: nat)
    requires AllDigits(s)
    ensures AllDigits(PadStart(s, width)) && FromDecimal(PadStart(s, width)) == FromDecimal(s)
  {
    if |s| < width {
      FromDecimalConcat(Zeros(width - |s|), s);
      FromDecimalZeros(width - |s|);
    }
  }

  lemma {:induction false} StripKeepsNumber(s: JsString)
    requires AllDigits(s)
    ensures var t := StripTrailingZeros(s);
            AllDigits(t) && |t| <= |s| && FromDecimal(s) == FromDecimal(t) * Pow10(|s| - |t|)
    decreases |s|
  {
    if s != [] && s[|s| - 1] == ZERO {
      var front := s[..|s| - 1];
      StripKeepsNumber(front);
      var t := StripTrailingZeros(front);
      ShiftDigit(FromDecimal(t), Pow10(|front| - |t|), 0, 0);
    }
  }

  lemma StrippedValue(whole: JsString, digits: JsString, decimals: nat)
    requires AllDigits(whole) && AllDigits(digits) && |digits| <= decimals
    ensures var fraction := StripTrailingZeros(digits);
            && AllDigits(fraction) && |fraction| <= |digits| && AllDigits(whole + digits)
            && FromDecimal(whole) * Pow10(decimals) + FromDecimal(fraction) * Pow10(decimals - |fraction|) ==
               FromDecimal(whole + digits) * Pow10(decimals - |digits|)
  {
    hide FromDecimal, Pow10, StripTrailingZeros;
    var fraction := StripTrailingZeros(digits);
    StripKeepsNumber(digits);
    FromDecimalConcat(whole, digits);
    var rest := decimals - |digits|;
    Pow10Sum(|digits|, rest);
    Pow10Sum(|digits| - |fraction|, rest);
    Regroup(FromDecimal(whole), Pow10(|digits|), FromDecimal(fraction), Pow10(|digits| - |fraction|), Pow10(rest));
  }

  /** Text made of whole digits and a stripped fraction reads back as the unstripped digits,
      shifted to the full number of decimals. */
  lemma ReadsStripped(whole: JsString, digits: JsString, decimals: nat)
    requires whole != [] && AllDigits(whole) && AllDigits(digits) && |digits| <= decimals
    ensures AllDigits(whole + digits)
    ensures var fraction := StripTrailingZeros(digits);
            ReadUnits(whole + (if |fraction| > 0 then [DOT] + fraction else []), decimals) ==
            Some(FromDecimal(whole + digits) * Pow10(decimals - |digits|))
  {
    hide Pow10, StripTrailingZeros;
    var fraction := StripTrailingZeros(digits);
    StrippedValue(whole, digits, decimals);
    var s := whole + (if |fraction| > 0 then [DOT] + fraction else []);
    if |fraction| > 0 {
      DigitsThenStop(whole, [DOT] + fraction);
      assert s[..|whole|] == whole && s[|whole| + 1..] == fraction;
    } else {
      DigitsThenStop(whole, []);
      assert s == whole + [] == whole;
      assert FromDecimal(fraction) == 0;
    }
  }

  lemma Regroup(w: nat, p: nat, f: nat, q: nat, r: nat)
    ensures (w * p + f * q) * r == w * (p * r) + f * (q * r)
  {
  }

  lemma RawDigits(amount: nat, decimals: nat)
    ensures var raw := Raw(amount, decimals);
            |raw| > decimals && AllDigits(raw) && FromDecimal(raw) == amount
  {
    PadKeepsNumber(ToDecimal(amount), decimals + 1);
    DecimalRoundTrip(amount);
  }

  /** The printed amount is exact. */
  lemma FormatWeiReadsBack(value: Wei, decimals: nat)
    ensures ReadUnits(FormatWei(value, decimals), decimals) == Some(WeiToBigInt(value))
  {
    hide Raw, StripTrailingZeros, ReadUnits, LeadingDigits;
    var raw := Raw(WeiToBigInt(value), decimals);
    RawDigits(WeiToBigInt(value), decimals);
    var whole, digits := raw[..|raw| - decimals], raw[|raw| - decimals..];
    ReadsStripped(whole, digits, decimals);
    assert whole + digits == raw;
    if decimals == 0 {
      StripKeepsNumber(digits);
      assert |StripTrailingZeros(digits)| == 0;
    }
    assert whole + [] == whole;
    assert whole + ([DOT] + StripTrailingZeros(digits)) == whole + [DOT] + StripTrailingZeros(digits);
  }

  /** No padding: no leading zero but a lone one before the point, no trailing zero after it, and no
      point without a digit to follow. */
  predicate Shortest(s: JsString) {
    && s != [] && IsDigit(s[0]) && IsDigit(s[|s| - 1])
    && (s[0] == ZERO && |s| > 1 ==> s[1] == DOT)
    && (DOT in s ==> s[|s| - 1] != ZERO)
  }

  lemma {:induction false} DecimalIsShortest(n: nat)
    ensures ToDecimal(n) != [] && (ToDecimal(n)[0] == ZERO ==> n == 0 && |ToDecimal(n)| == 1)
  {
    if n >= 10 {
      DecimalIsShortest(n / 10);
    }
  }

  lemma RawStart(amount: nat, decimals: nat)
    ensures var raw := Raw(amount, decimals);
            |raw| > decimals && AllDigits(raw) && (raw[0] == ZERO ==> |raw| == decimals + 1)
  {
    RawDigits(amount, decimals);
    DecimalIsShortest(amount);
  }

  lemma {:induction false} StripEndsClean(s: JsString)
    ensures var t := StripTrailingZeros(s); t <= s && (t != [] ==> t[|t| - 1] != ZERO)
    decreases |s|
  {
    if s != [] && s[|s| - 1] == ZERO {
      StripEndsClean(s[..|s| - 1]);
    }
  }

  lemma StrippedIsShortest(whole: JsString, digits: JsString)
    requires AllDigits(whole) && AllDigits(digits) && whole != [] && (whole[0] == ZERO ==> |whole| == 1)
    ensures var fraction := StripTrailingZeros(digits);
            Shortest(whole + if |fraction| > 0 then [DOT] + fraction else [])
  {
    StripEndsClean(digits);
    var fraction := StripTrailingZeros(digits);
    if |fraction| > 0 {
      var s := whole + ([DOT] + fraction);
      assert fraction[|fraction| - 1] == digits[|fraction| - 1] == s[|s| - 1];
    } else {
      assert whole + [] == whole;
      assert forall c :: c in whole ==> IsDigit(c);
    }
  }

  /** The printed forms are as short as they can be. */
  lemma FormatWeiIsShortest(value: Wei, decimals: nat)
    ensures Shortest(FormatWei(value, decimals))
  {
    hide Raw, StripTrailingZeros, Shortest, FromDecimal;
    var raw := Raw(WeiToBigInt(value), decimals);
    RawStart(WeiToBigInt(value), decimals);
    SplitIsShortest(raw, decimals, decimals);
    var digits := raw[|raw| - decimals..];
    assert digits[..decimals] == digits;
    StripEndsClean(digits);
    var whole, fraction := raw[..|raw| - decimals], StripTrailingZeros(digits);
    assert whole + ([DOT] + fraction) == whole + [DOT] + fraction && whole + [] == whole;
  }

  lemma ShortParts(amount: int, decimals: nat, maxFraction: nat) returns (body: JsString)
    ensures var raw := Raw(Abs(amount), decimals);
            var kept := if decimals <= maxFraction then decimals else maxFraction;
            && |raw| > decimals
            && var fraction := StripTrailingZeros(raw[|raw| - decimals..][..kept]);
            && body == raw[..|raw| - decimals] + (if |fraction| > 0 then [DOT] + fraction else [])
            && FormatUnitsShort(amount, decimals, maxFraction) == if amount < 0 then [MINUS] + body else body
  {
    hide Raw, StripTrailingZeros;
    RawStart(Abs(amount), decimals);
    var raw := Raw(Abs(amount), decimals);
    var kept := if decimals <= maxFraction then decimals else maxFraction;
    var tail := raw[|raw| - decimals..];
    assert (if |tail| <= maxFraction then tail else tail[..maxFraction]) == tail[..kept];
    var fraction := StripTrailingZeros(tail[..kept]);
    body := raw[..|raw| - decimals] + if |fraction| > 0 then [DOT] + fraction else [];
    assert FormatUnitsShort(amount, decimals, maxFraction) == (if amount < 0 then [MINUS] else []) + body;
    assert [] + body == body;
  }

  lemma FormatUnitsShortIsShortest(amount: int, decimals: nat, maxFraction: nat)
    ensures var s := FormatUnitsShort(amount, decimals, maxFraction);
            s != [] && Shortest(if amount < 0 then s[1..] else s)
  {
    hide Raw, StripTrailingZeros, FormatUnitsShort;
    var body := ShortParts(amount, decimals, maxFraction);
    RawStart(Abs(amount), decimals);
    SplitIsShortest(Raw(Abs(amount), decimals), decimals, if decimals <= maxFraction then decimals else maxFraction);
    hide Shortest;
    assert ([MINUS] + body)[1..] == body;
  }

  lemma SplitIsShortest(raw: JsString, decimals: nat, kept: nat)
    requires |raw| > decimals && AllDigits(raw) && (raw[0] == ZERO ==> |raw| == decimals + 1) && kept <= decimals
    ensures var fraction := StripTrailingZeros(raw[|raw| - decimals..][..kept]);
            && raw[..|raw| - decimals] != []
            && Shortest(raw[..|raw| - decimals] + if |fraction| > 0 then [DOT] + fraction else [])
  {
    StrippedIsShortest(raw[..|raw| - decimals], raw[|raw| - decimals..][..kept]);
  }

  /** So different amounts never print alike. */
  lemma FormatWeiIsInjective(a: Wei, b: Wei, decimals: nat)
    requires FormatWei(a, decimals) == FormatWei(b, decimals)
    ensures WeiToBigInt(a) == WeiToBigInt(b)
  {
    FormatWeiReadsBack(a, decimals);
    FormatWeiReadsBack(b, decimals);
  }

  function Abs(n: int): nat { if n < 0 then -n else n }

  /** One unit of the last place that is kept. */
  function KeptPlace(decimals: nat, maxFraction: nat): (p: nat)
    ensures p >= 1
  {
    Pow10(if maxFraction <= decimals then decimals - maxFraction else 0)
  }

  /** The short form starts with a minus sign exactly for negative amounts; the rest reads back as
      the magnitude truncated toward zero to the last kept place, so the error is less than one such
      place, and there is none when every decimal is kept. */
  lemma FormatUnitsShortTruncates(value: int, decimals: nat, maxFraction: nat)
    ensures var s := FormatUnitsShort(value, decimals, maxFraction);
            var p := KeptPlace(decimals, maxFraction);
            && s != [] && (value < 0 <==> s[0] == MINUS)
            && ReadUnits(if value < 0 then s[1..] else s, decimals) == Some(Abs(value) - Abs(value) % p)
            && 0 <= Abs(value) % p < p
            && (decimals <= maxFraction ==> Abs(value) % p == 0)
  {
    hide Raw, StripTrailingZeros, ReadUnits, FromDecimal, LeadingDigits, Pow10, KeptPlace;
    var amount := Abs(value);
    var raw := Raw(amount, decimals);
    RawDigits(amount, decimals);
    var whole, tail := raw[..|raw| - decimals], raw[|raw| - decimals..];
    var kept := if decimals <= maxFraction then tail else tail[..maxFraction];
    KeptDigits(amount, whole, kept, tail[|kept|..], decimals, maxFraction);
    ReadsStripped(whole, kept, decimals);
    var fraction := StripTrailingZeros(kept);
    var body := whole + (if |fraction| > 0 then [DOT] + fraction else []);
    assert body[0] == whole[0] && IsDigit(whole[0]);
    var s := FormatUnitsShort(value, decimals, maxFraction);
    assert s == (if value < 0 then [MINUS] else []) + body;
    assert (if value < 0 then s[1..] else s) == body;
  }

  lemma KeptDigits(amount: nat, whole: JsString, kept: JsString, dropped: JsString, decimals: nat, maxFraction: nat)
    requires Raw(amount, decimals) == whole + (kept + dropped) && |kept| + |dropped| == decimals
    requires |kept| == if decimals <= maxFraction then decimals else maxFraction
    ensures AllDigits(whole + kept)
    ensures var p := KeptPlace(decimals, maxFraction);
            && p == Pow10(decimals - |kept|)
            && FromDecimal(whole + kept) * p == amount - amount % p
            && 0 <= amount % p < p
            && (decimals <= maxFraction ==> amount % p == 0)
  {
    var raw := Raw(amount, decimals);
    RawDigits(amount, decimals);
    assert raw == (whole + kept) + dropped;
    assert whole + kept == raw[..|whole + kept|] && dropped == raw[|whole + kept|..];
    FromDecimalConcat(whole + kept, dropped);
    FromDecimalBound(dropped);
    Quotient(amount, KeptPlace(decimals, maxFraction), FromDecimal(whole + kept), FromDecimal(dropped));
  }
}
