/**
 * `Number(string)`, `Number.isFinite` and `Math.trunc`, as the admin forms
 * and the `limit` query parameter use them.
 *
 * Values are exact rationals: there is no rounding to the nearest double
 * and no overflow to Infinity for huge exponents. A result of `None` stands
 * for every non-finite outcome (NaN, Infinity, -Infinity), which is all the
 * callers distinguish.
 */
module JsNumber {
  import opened Wrappers
  import opened Text

  /** `v * 10^e` for an integer exponent. */
  function Scale(v: real, e: int): real {
    if e >= 0 then v * Pow10(e) as real else v / Pow10(-e) as real
  }

  /** The value of a hexadecimal, octal or binary digit, or `radix` when `c` is not one. */
  function DigitIn(c: char, radix: nat): (d: nat)
    requires radix == 2 || radix == 8 || radix == 16
    ensures d <= radix
  {
    var v := if IsDigit(c) then c as int - '0' as int
      else if 'a' <= c <= 'f' then c as int - 'a' as int + 10
      else if 'A' <= c <= 'F' then c as int - 'A' as int + 10
      else radix;
    if v < radix then v else radix
  }

  /** The value of a non-empty digit string in the given radix, or `None` if a character is not a digit of it. */
  function RadixValue(s: string, radix: nat): (r: Option<nat>)
    requires radix == 2 || radix == 8 || radix == 16
    ensures r.Some? <==> |s| > 0 && forall i :: 0 <= i < |s| ==> DigitIn(s[i], radix) < radix
    decreases |s|
  {
    if |s| == 0 then None
    else
      var d := DigitIn(s[|s| - 1], radix);
      if d == radix then None
      else if |s| == 1 then Some(d)
      else
        match RadixValue(s[..|s| - 1], radix)
        case None => None
        case Some(v) =>
          assert forall i :: 0 <= i < |s| - 1 ==> s[..|s| - 1][i] == s[i];
          Some(v * radix + d)
  }

  /** An exponent part after `e`: an optional sign and one or more digits, nothing else. */
  function Exponent(s: string): (r: Option<int>)
    ensures r.Some? ==> DigitsOnly(s) != ""
  {
    var neg := |s| > 0 && s[0] == '-';
    var body := if |s| > 0 && (s[0] == '-' || s[0] == '+') then s[1..] else s;
    if |body| == 0 || !AllDigits(body) then None
    else
      assert IsDigit(s[|s| - 1]) by { assert s[|s| - 1] == body[|body| - 1]; }
      DigitAtKeeps(s, |s| - 1);
      var e: int := if neg then -(DecValue(body) as int) else DecValue(body);
      Some(e)
  }

  /**
   * `StrUnsignedDecimalLiteral` without `Infinity`: digits, an optional
   * point with optional digits, an optional exponent, with at least one
   * digit before the exponent, and nothing left over.
   */
  function UnsignedDecimal(s: string): (r: Option<real>)
    ensures r.Some? ==> DigitsOnly(s) != ""
  {
    var k := LeadingDigits(s);
    var w := s[..k];
    var afterWhole := s[k..];
    var dot := |afterWhole| > 0 && afterWhole[0] == '.';
    var tail := if dot then afterWhole[1..] else afterWhole;
    var f := tail[..LeadingDigits(tail)];
    var rest := tail[LeadingDigits(tail)..];
    if |w| == 0 && |f| == 0 then None
    else
      var m := DecimalValue(w, f);
      assert DigitsOnly(s) != "" by {
        if |w| > 0 { DigitAtKeeps(s, 0); }
        else { assert s[1] == f[0]; DigitAtKeeps(s, 1); }
      }
      if |rest| == 0 then Some(m)
      else if rest[0] == 'e' || rest[0] == 'E' then
        match Exponent(rest[1..])
        case None => None
        case Some(e) => Some(Scale(m, e))
      else None
  }

  /**
   * `Number(s)` when it is finite: whitespace is trimmed, blank text is 0,
   * and the rest is read by `TrimmedNumber`.
   */
  function ToNumber(s: string): (r: Option<real>)
    ensures Trim(s) == "" ==> r == Some(0.0)
    ensures r.Some? && Trim(s) != "" ==> DigitsOnly(s) != ""
  {
    TrimKeepsDigits(s);
    TrimmedNumber(Trim(s))
  }

  /**
   * `Number` on trimmed text: `0x`/`0o`/`0b` prefixes read an unsigned
   * integer in that radix, and otherwise an optionally signed decimal
   * literal must make up the whole text. Text without a single digit is
   * finite only when it is empty.
   */
  function TrimmedNumber(t: string): (r: Option<real>)
    ensures t == "" ==> r == Some(0.0)
    ensures r.Some? && t != "" ==> DigitsOnly(t) != ""
  {
    if t == "" then Some(0.0)
    else if |t| >= 2 && t[0] == '0' && (t[1] in "xXoObB") then
      DigitAtKeeps(t, 0);
      var radix := if t[1] in "xX" then 16 else if t[1] in "oO" then 8 else 2;
      match RadixValue(t[2..], radix)
      case None => None
      case Some(v) => Some(v as real)
    else if t[0] == '+' || t[0] == '-' then
      match UnsignedDecimal(t[1..])
      case None => None
      case Some(v) =>
        DigitsOnlyConcat(t[..1], t[1..]);
        assert t == t[..1] + t[1..];
        Some(if t[0] == '-' then -v else v)
    else UnsignedDecimal(t)
  }

  /** `Math.trunc`: rounding toward zero. */
  function Trunc(x: real): (r: int)
    ensures x >= 0.0 ==> 0 <= r && r as real <= x < r as real + 1.0
    ensures x < 0.0 ==> r <= 0 && r as real - 1.0 < x <= r as real
  {
    if x >= 0.0 then x.Floor else -((-x).Floor)
  }

  /** The integer truncation is the identity on integers. */
  lemma TruncInt(n: int)
    ensures Trunc(n as real) == n
  {
  }

  function Abs(x: real): real {
    if x < 0.0 then -x else x
  }

  /**
   * `toInt(s, fallback)` of the admin forms: `Number(String(s).trim())`
   * truncated toward zero when finite, else the fallback. `Number` trims
   * again, so trimming first changes nothing.
   */
  function ToInt(s: string, fallback: int): (r: int)
    ensures ToNumber(s).None? ==> r == fallback
    ensures ToNumber(s).Some? ==>
      var v := ToNumber(s).value;
      Abs(r as real) <= Abs(v) && Abs(v - r as real) < 1.0 && (r > 0 ==> v > 0.0) && (r < 0 ==> v < 0.0)
  {
    TrimTwice(s);
    match ToNumber(Trim(s))
    case None => fallback
    case Some(v) => Trunc(v)
  }

  lemma TrimTwice(s: string)
    ensures Trim(Trim(s)) == Trim(s)
    ensures ToNumber(Trim(s)) == ToNumber(s)
  {
    TrimmedFixpoint(Trim(s));
  }

  /** A plain unsigned integer numeral reads as itself. */
  lemma UnsignedWhole(w: string)
    requires |w| >= 1 && AllDigits(w)
    ensures UnsignedDecimal(w) == Some(DecValue(w) as real)
  {
    LeadingDigitsAll(w);
    DigitsNoExponent(w);
    NoFraction(w);
  }

  lemma NoFraction(w: string)
    requires AllDigits(w) && AllDigits("")
    ensures DecimalValue(w, "") == DecValue(w) as real
  {
    assert DecValue("") == 0 && Pow10(0) == 1;
  }

  /** Digits up to the end read as their value with an empty fraction. */
  lemma DigitsNoExponent(s: string)
    requires 1 <= |s| && LeadingDigits(s) == |s|
    ensures AllDigits(s) && AllDigits("")
    ensures UnsignedDecimal(s) == Some(DecimalValue(s, ""))
  {
    assert s[..|s|] == s && s[|s|..] == "";
    assert ""[..LeadingDigits("")] == "";
  }

  /** `w.f` reads as its exact value. */
  lemma UnsignedFraction(w: string, f: string)
    requires |w| >= 1 && AllDigits(w) && AllDigits(f)
    ensures UnsignedDecimal(w + "." + f) == Some(DecimalValue(w, f))
  {
    var s := w + "." + f;
    LeadingDigitsStop(w, "." + f);
    assert s[..|w|] == w && s[|w| + 1..] == f && s[|w|] == '.';
    LeadingDigitsAll(f);
    PointNoExponent(s, |w|);
  }

  /** Digits, a point and digits up to the end read without an exponent. */
  lemma PointNoExponent(s: string, k: nat)
    requires 1 <= k < |s| && LeadingDigits(s) == k && s[k] == '.'
    requires LeadingDigits(s[k + 1..]) == |s| - k - 1
    ensures AllDigits(s[..k]) && AllDigits(s[k + 1..])
    ensures UnsignedDecimal(s) == Some(DecimalValue(s[..k], s[k + 1..]))
  {
    var tail := s[k..][1..];
    assert tail == s[k + 1..];
    assert tail[..|tail|] == tail && tail[|tail|..] == "";
  }

  lemma DigitsTrimmed(w: string)
    requires |w| >= 1 && AllDigits(w)
    ensures Trim(w) == w
  {
    assert IsTrimmed(w);
    TrimmedFixpoint(w);
  }

  /** `Number(String(n))` is `n` for every natural number. */
  lemma NumberOfNat(n: nat)
    ensures ToNumber(NatToString(n)) == Some(n as real)
  {
    var w := NatToString(n);
    DigitsTrimmed(w);
    UnsignedWhole(w);
  }

  /** `Number("-" + String(n))` is `-n`. */
  lemma NumberOfNegNat(n: nat)
    ensures ToNumber("-" + NatToString(n)) == Some(-(n as real))
  {
    var w := NatToString(n);
    var s := "-" + w;
    assert s[1..] == w && s[0] == '-';
    NegTrimmed(w);
    UnsignedWhole(w);
    assert TrimmedNumber(s) == Some(-(n as real));
  }

  lemma NegTrimmed(w: string)
    requires |w| >= 1 && AllDigits(w)
    ensures Trim("-" + w) == "-" + w
  {
    var s := "-" + w;
    assert s[|s| - 1] == w[|w| - 1];
    assert IsTrimmed(s);
    TrimmedFixpoint(s);
  }

  /** Decimal fractions are finite numbers: `Number("2.5")` is 2.5. */
  lemma NumberOfDecimal(w: string, f: string)
    requires |w| >= 1 && AllDigits(w) && AllDigits(f)
    ensures ToNumber(w + "." + f) == Some(DecimalValue(w, f))
  {
    var s := w + "." + f;
    assert IsTrimmed(s) by {
      assert s[0] == w[0];
      if |f| > 0 { assert s[|s| - 1] == f[|f| - 1]; }
    }
    TrimmedFixpoint(s);
    UnsignedFraction(w, f);
    assert s[1] == '.' || IsDigit(s[1]) by {
      if |w| >= 2 { assert s[1] == w[1]; }
    }
    DecimalStart(s);
  }

  /** Text that starts with a digit and no radix letter is read as a decimal literal. */
  lemma DecimalStart(t: string)
    requires |t| >= 2 && IsDigit(t[0]) && (t[1] == '.' || IsDigit(t[1]))
    ensures TrimmedNumber(t) == UnsignedDecimal(t)
  {
    assert t[1] !in "xXoObB";
    assert t[0] != '+' && t[0] != '-';
  }

  /** `toInt` recovers every natural number written in decimal. */
  lemma ToIntOfNat(n: nat, fallback: int)
    ensures ToInt(NatToString(n), fallback) == n
  {
    var w := NatToString(n);
    NumberOfNat(n);
    TrimTwice(w);
    TruncInt(n);
  }

  /** `toInt` recovers every negative integer written in decimal. */
  lemma ToIntOfNegNat(n: nat, fallback: int)
    ensures ToInt("-" + NatToString(n), fallback) == -(n as int)
  {
    var s := "-" + NatToString(n);
    NumberOfNegNat(n);
    TrimTwice(s);
    TruncInt(-(n as int));
  }
}
