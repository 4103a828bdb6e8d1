/**
 * Per-row field extractors of the server import handler and their assembly
 * into one candidate transaction (`rowToTx`). The client preview reuses the
 * phone, amount and transaction-id extractors unchanged.
 */
module Extract {
  import opened Wrappers
  import opened Text
  import Tokenizer

  // ---------------------------------------------------------------------------
  // Phone

  /** The regex `\d{n}` matches at offset `i` of `s`. */
  predicate DigitRunAt(s: string, i: int, n: nat) {
    0 <= i && i + n <= |s| && forall k :: i <= k < i + n ==> IsDigit(s[k])
  }

  /** Offset of the leftmost match of `\d{n}` in `s`, scanning from `from`. */
  function FindDigitRun(s: string, n: nat, from: nat): (r: Option<nat>)
    requires from <= |s|
    ensures r.Some? ==> from <= r.value && DigitRunAt(s, r.value, n)
    ensures r.Some? ==> forall i :: from <= i < r.value ==> !DigitRunAt(s, i, n)
    ensures r.None? ==> forall i :: from <= i <= |s| ==> !DigitRunAt(s, i, n)
    decreases |s| - from
  {
    if from + n > |s| then None
    else if DigitRunAt(s, from, n) then Some(from)
    else if from == |s| then None
    else FindDigitRun(s, n, from + 1)
  }

  /**
   * `normalizePhone` of the server and of the preview: the first match of
   * `\d{8}` in the digits of `raw`, or "" when there is none.
   */
  function NormalizePhone(raw: string): (r: string)
    ensures r == "" || (|r| == 8 && AllDigits(r))
    ensures |DigitsOnly(raw)| >= 8 ==> r == DigitsOnly(raw)[..8]
    ensures |DigitsOnly(raw)| < 8 ==> r == ""
  {
    var digits := DigitsOnly(raw);
    match FindDigitRun(digits, 8, 0)
    case None => assert |digits| >= 8 ==> DigitRunAt(digits, 0, 8); ""
    case Some(i) => assert i == 0 by { if i > 0 { assert DigitRunAt(digits, 0, 8); } } digits[i..i + 8]
  }

  // ---------------------------------------------------------------------------
  // Amount

  /** The text matched by `-?\d+(\.\d+)?`: sign, whole digits, optional fraction digits. */
  datatype NumToken = NumToken(negative: bool, whole: string, frac: string)

  predicate WellFormedToken(t: NumToken) {
    |t.whole| >= 1 && AllDigits(t.whole) && AllDigits(t.frac)
  }

  /** `Number(m[0])`, exactly. */
  function TokenValue(t: NumToken): real
    requires WellFormedToken(t)
  {
    if t.negative then -DecimalValue(t.whole, t.frac) else DecimalValue(t.whole, t.frac)
  }

  /** The greedy match of `\d+(\.\d+)?` at the start of `c`. */
  function ReadNumber(negative: bool, c: string): (t: NumToken)
    requires |c| > 0 && IsDigit(c[0])
    ensures WellFormedToken(t)
  {
    var k := LeadingDigits(c);
    if k + 1 < |c| && c[k] == '.' && IsDigit(c[k + 1]) then
      var f := LeadingDigits(c[k + 1..]);
      NumToken(negative, c[..k], c[k + 1..][..f])
    else NumToken(negative, c[..k], "")
  }

  /** The leftmost match of `-?\d+(\.\d+)?` in `c`; there is one exactly when `c` has a digit. */
  function FindNumber(c: string): (r: Option<NumToken>)
    ensures r.Some? ==> WellFormedToken(r.value)
    ensures r.Some? <==> DigitsOnly(c) != ""
  {
    if |c| == 0 then None
    else if IsDigit(c[0]) then Some(ReadNumber(false, c))
    else if c[0] == '-' && |c| > 1 && IsDigit(c[1]) then Some(ReadNumber(true, c[1..]))
    else FindNumber(c[1..])
  }

  /** `s.replace(/\s/g, "").replace(/,/g, "")`. */
  function StripSpacesAndCommas(s: string): (r: string)
    ensures DigitsOnly(r) == DigitsOnly(s)
  {
    if |s| == 0 then ""
    else if IsSpace(s[0]) || s[0] == ',' then StripSpacesAndCommas(s[1..])
    else [s[0]] + StripSpacesAndCommas(s[1..])
  }

  /**
   * `parseAmount`: the value of the first signed decimal number in the cell
   * once whitespace and thousands commas are removed; null exactly when the
   * cell holds no digit.
   */
  function ParseAmount(raw: string): (r: Option<real>)
    ensures r.Some? <==> DigitsOnly(raw) != ""
  {
    var s := Trim(raw);
    TrimKeepsDigits(raw);
    if s == "" then None
    else
      match FindNumber(StripSpacesAndCommas(s))
      case None => None
      case Some(t) => Some(TokenValue(t))
  }

  /** On a trimmed cell without spaces or commas, `parseAmount` reads the number straight off the cell. */
  lemma ParseAmountClean(s: string)
    requires s != "" && IsTrimmed(s) && NoSpaceOrComma(s)
    ensures ParseAmount(s) == match FindNumber(s) case None => None case Some(t) => Some(TokenValue(t))
  {
    TrimmedFixpoint(s);
    CleanNoop(s);
  }

  /** A plain digit string parses to its decimal value. */
  lemma ParseAmountDigits(w: string)
    requires |w| >= 1 && AllDigits(w)
    ensures ParseAmount(w) == Some(DecValue(w) as real)
  {
    assert NoSpaceOrComma(w);
    ParseAmountClean(w);
    LeadingDigitsAll(w);
    assert w[..|w|] == w;
    var t := NumToken(false, w, "");
    assert ReadNumber(false, w) == t;
    assert FindNumber(w) == Some(t);
    TokenValueWhole(w);
  }

  lemma TokenValueWhole(w: string)
    requires |w| >= 1 && AllDigits(w)
    ensures TokenValue(NumToken(false, w, "")) == DecValue(w) as real
  {
    assert DecimalValue(w, "") == DecValue(w) as real + 0.0 / 1.0;
    assert DecValue("") == 0 && Pow10(0) == 1;
  }

  /** A decimal `w.f` parses to its exact value. */
  lemma ParseAmountDecimal(w: string, f: string)
    requires |w| >= 1 && AllDigits(w) && |f| >= 1 && AllDigits(f)
    ensures ParseAmount(w + "." + f) == Some(DecimalValue(w, f))
  {
    var s := w + "." + f;
    DecimalIsClean(w, f);
    ParseAmountClean(s);
    ReadDecimal(w, f);
    assert s[0] == w[0];
    var t := NumToken(false, w, f);
    assert FindNumber(s) == Some(t);
  }

  lemma DecimalIsClean(w: string, f: string)
    requires |w| >= 1 && AllDigits(w) && |f| >= 1 && AllDigits(f)
    ensures IsTrimmed(w + "." + f) && NoSpaceOrComma(w + "." + f)
  {
    var s := w + "." + f;
    forall i | 0 <= i < |s| ensures !IsSpace(s[i]) && s[i] != ',' {
      if i < |w| { assert s[i] == w[i]; } else if i > |w| { assert s[i] == f[i - |w| - 1]; }
    }
  }

  lemma ReadDecimal(w: string, f: string)
    requires |w| >= 1 && AllDigits(w) && |f| >= 1 && AllDigits(f)
    ensures ReadNumber(false, w + "." + f) == NumToken(false, w, f)
  {
    var s := w + "." + f;
    LeadingDigitsStop(w, "." + f);
    assert s == w + ("." + f);
    assert s[|w|] == '.' && s[|w| + 1] == f[0];
    assert s[|w| + 1..] == f;
    LeadingDigitsAll(f);
    assert f[..|f|] == f;
    assert s[..|w|] == w;
  }

  predicate NoSpaceOrComma(s: string) {
    forall i :: 0 <= i < |s| ==> !IsSpace(s[i]) && s[i] != ','
  }

  lemma {:induction false} CleanNoop(s: string)
    requires NoSpaceOrComma(s)
    ensures StripSpacesAndCommas(s) == s
  {
    if |s| > 0 {
      CleanNoop(s[1..]);
      assert s == [s[0]] + s[1..];
    }
  }

  /** A cell the amount loop accepts: it parses and is at least 10. */
  predicate Accepted(c: string) {
    ParseAmount(c).Some? && ParseAmount(c).value >= 10.0
  }

  /** An accepted cell that stops the loop: it contains a `.` or is at least 1000. */
  predicate AmountShaped(c: string) {
    Accepted(c) && ('.' in c || ParseAmount(c).value >= 1000.0)
  }

  /** The amount loop of `rowToTx`, cell by cell, with the amount found so far. */
  function PickAmount(cells: seq<string>, sofar: Option<real>): Option<real> {
    if |cells| == 0 then sofar
    else
      var a := ParseAmount(cells[0]);
      if a.None? || a.value < 10.0 then PickAmount(cells[1..], sofar)
      else if '.' in cells[0] || a.value >= 1000.0 then a
      else PickAmount(cells[1..], a)
  }

  function SelectAmount(cells: seq<string>): Option<real> {
    PickAmount(cells, None)
  }

  /** Index of the first cell satisfying `p`. */
  function FirstWhere(cells: seq<string>, p: string -> bool): (r: Option<nat>)
    ensures r.Some? ==> r.value < |cells| && p(cells[r.value])
                        && forall j :: 0 <= j < r.value ==> !p(cells[j])
    ensures r.None? ==> forall j :: 0 <= j < |cells| ==> !p(cells[j])
  {
    if |cells| == 0 then None
    else if p(cells[0]) then Some(0)
    else
      var r := FirstWhere(cells[1..], p);
      assert forall j :: 1 <= j < |cells| ==> cells[j] == cells[1..][j - 1];
      if r.Some? then Some(r.value + 1) else None
  }

  /** Index of the last cell satisfying `p`. */
  function LastWhere(cells: seq<string>, p: string -> bool): (r: Option<nat>)
    ensures r.Some? ==> r.value < |cells| && p(cells[r.value])
                        && forall j :: r.value < j < |cells| ==> !p(cells[j])
    ensures r.None? ==> forall j :: 0 <= j < |cells| ==> !p(cells[j])
  {
    if |cells| == 0 then None
    else
      var r := LastWhere(cells[1..], p);
      assert forall j :: 1 <= j < |cells| ==> cells[j] == cells[1..][j - 1];
      if r.Some? then Some(r.value + 1)
      else if p(cells[0]) then Some(0)
      else None
  }

  /**
   * The amount rule stated directly: the first amount-shaped cell's value,
   * else the LAST accepted cell's value, else `otherwise`.
   */
  function AmountByRule(cells: seq<string>, otherwise: Option<real>): Option<real> {
    match FirstWhere(cells, AmountShaped)
    case Some(i) => ParseAmount(cells[i])
    case None =>
      match LastWhere(cells, Accepted)
      case Some(j) => ParseAmount(cells[j])
      case None => otherwise
  }

  /** Past a first cell that fails `p`, the first index is found in the rest. */
  lemma FirstWhereTail(cells: seq<string>, p: string -> bool)
    requires |cells| > 0 && !p(cells[0])
    ensures FirstWhere(cells, p) == match FirstWhere(cells[1..], p) case Some(i) => Some(i + 1) case None => None
  {
  }

  /** The last index is found in the rest, or is the first cell. */
  lemma LastWhereTail(cells: seq<string>, p: string -> bool)
    requires |cells| > 0
    ensures LastWhere(cells, p) ==
      match LastWhere(cells[1..], p) case Some(j) => Some(j + 1) case None => if p(cells[0]) then Some(0) else None
  {
    assert cells != [];
  }

  /** Skipping a cell that does not stop the loop: the rule on the rest, with that cell as the fallback when accepted. */
  lemma RuleStep(cells: seq<string>, sofar: Option<real>, next: Option<real>)
    requires |cells| > 0 && !AmountShaped(cells[0])
    requires next == if Accepted(cells[0]) then ParseAmount(cells[0]) else sofar
    ensures AmountByRule(cells, sofar) == AmountByRule(cells[1..], next)
  {
    var rest := cells[1..];
    FirstWhereTail(cells, AmountShaped);
    LastWhereTail(cells, Accepted);
    match FirstWhere(rest, AmountShaped)
    case Some(i) => assert rest[i] == cells[i + 1];
    case None =>
      match LastWhere(rest, Accepted)
      case Some(j) => assert rest[j] == cells[j + 1];
      case None =>
  }

  /** One turn of the loop that does not stop it. */
  lemma PickStep(cells: seq<string>, sofar: Option<real>)
    requires |cells| > 0 && !AmountShaped(cells[0])
    ensures PickAmount(cells, sofar) == PickAmount(cells[1..], if Accepted(cells[0]) then ParseAmount(cells[0]) else sofar)
  {
  }

  lemma {:induction false} PickAmountByRule(cells: seq<string>, sofar: Option<real>)
    ensures PickAmount(cells, sofar) == AmountByRule(cells, sofar)
  {
    if |cells| > 0 && !AmountShaped(cells[0]) {
      var next := if Accepted(cells[0]) then ParseAmount(cells[0]) else sofar;
      PickStep(cells, sofar);
      PickAmountByRule(cells[1..], next);
      RuleStep(cells, sofar, next);
    }
  }

  /**
   * The amount of a row: the first amount-shaped accepted cell when there is
   * one, otherwise the LAST accepted cell, otherwise null; never below 10.
   */
  lemma AmountRule(cells: seq<string>)
    ensures SelectAmount(cells) == AmountByRule(cells, None)
    ensures SelectAmount(cells).Some? ==> SelectAmount(cells).value >= 10.0
    ensures SelectAmount(cells).None? <==> forall i :: 0 <= i < |cells| ==> !Accepted(cells[i])
  {
    PickAmountByRule(cells, None);
  }

  // ---------------------------------------------------------------------------
  // Transaction id

  /**
   * `extractTxId`: the digits of the last cell that has at least nine
   * digits, or null.
   */
  function ExtractTxId(cells: seq<string>): (r: Option<string>)
    ensures r.None? <==> forall i :: 0 <= i < |cells| ==> |DigitsOnly(cells[i])| < 9
    ensures r.Some? ==> exists i :: 0 <= i < |cells| && r.value == DigitsOnly(cells[i])
                          && forall j :: i < j < |cells| ==> |DigitsOnly(cells[j])| < 9
    ensures r.Some? ==> |r.value| >= 9 && AllDigits(r.value)
  {
    if |cells| == 0 then None
    else
      var d := DigitsOnly(cells[|cells| - 1]);
      if |d| >= 9 then Some(d)
      else
        var init := cells[..|cells| - 1];
        assert forall i :: 0 <= i < |init| ==> init[i] == cells[i];
        ExtractTxId(init)
  }

  // ---------------------------------------------------------------------------
  // Date and time

  /** `shape` matches `s` at `i`, where `#` in the shape stands for `\d`. */
  predicate ShapeAt(s: string, i: int, shape: string) {
    0 <= i && i + |shape| <= |s|
    && forall k :: 0 <= k < |shape| ==> if shape[k] == '#' then IsDigit(s[i + k]) else s[i + k] == shape[k]
  }

  predicate HasShape(s: string, shape: string) {
    exists i | 0 <= i <= |s| :: ShapeAt(s, i, shape)
  }

  predicate SpacesBetween(s: string, from: int, to: int) {
    0 <= from <= to <= |s| && forall k :: from <= k < to ==> IsSpace(s[k])
  }

  /** `/\d{4}-\d{2}-\d{2}\s+\d{2}:\d{2}:\d{2}/.test(c)`. */
  predicate HasDateTime(c: string) {
    exists i, n | 0 <= i <= |c| && 1 <= n <= |c| :: DateTimeAt(c, i, n)
  }

  /** The date, at least one space, then the time, starting at `i` with `n` spaces. */
  predicate DateTimeAt(c: string, i: int, n: int) {
    ShapeAt(c, i, "####-##-##") && SpacesBetween(c, i + 10, i + 10 + n) && ShapeAt(c, i + 10 + n, "##:##:##")
  }

  /** `/\d{4}-\d{2}-\d{2}/.test(c)`. */
  predicate HasDate(c: string) {
    HasShape(c, "####-##-##")
  }

  /** The first regex of `extractDateTime` adds nothing: it implies the second. */
  lemma DateTimeHasDate(c: string)
    ensures HasDateTime(c) ==> HasDate(c)
  {
    if HasDateTime(c) {
      var i, n :| 0 <= i <= |c| && 1 <= n <= |c| && DateTimeAt(c, i, n);
      assert ShapeAt(c, i, "####-##-##");
    }
  }

  /** `extractDateTime`: the first cell that passes either test, as raw text. */
  function ExtractDateTime(cells: seq<string>): (r: Option<string>)
    ensures r.None? <==> forall i :: 0 <= i < |cells| ==> !HasDate(cells[i])
    ensures r.Some? ==> exists i :: 0 <= i < |cells| && cells[i] == r.value && HasDate(cells[i])
                          && forall j :: 0 <= j < i ==> !HasDate(cells[j])
  {
    if |cells| == 0 then None
    else if HasDateTime(cells[0]) || HasDate(cells[0]) then
      DateTimeHasDate(cells[0]);
      Some(cells[0])
    else
      var r := ExtractDateTime(cells[1..]);
      assert forall i :: 1 <= i < |cells| ==> cells[i] == cells[1..][i - 1];
      if r.Some? then
        var k :| 0 <= k < |cells[1..]| && cells[1..][k] == r.value && HasDate(cells[1..][k])
                  && forall j :: 0 <= j < k ==> !HasDate(cells[1..][j]);
        assert cells[k + 1] == r.value;
        r
      else r
  }

  // ---------------------------------------------------------------------------
  // Description

  /** `/[^\d\s.,:+-]/.test(c)`: the cell has a character other than digits, spaces and `.,:+-`. */
  predicate HasLetters(c: string) {
    exists k :: 0 <= k < |c| && !(IsDigit(c[k]) || IsSpace(c[k]) || c[k] in ".,:+-")
  }

  /** The description loops: keep a cell that satisfies `keep` and is strictly longer than the best so far. */
  function LongestOf(cells: seq<string>, keep: string -> bool, best: string): (r: string)
    ensures r == best || (r in cells && keep(r) && |r| > |best|)
    ensures |r| >= |best|
    ensures forall i :: 0 <= i < |cells| && keep(cells[i]) ==> |cells[i]| <= |r|
  {
    if |cells| == 0 then best
    else
      var next := if keep(cells[0]) && |cells[0]| > |best| then cells[0] else best;
      var r := LongestOf(cells[1..], keep, next);
      assert forall i :: 1 <= i < |cells| ==> cells[i] == cells[1..][i - 1];
      r
  }

  /** On ties the first longest cell wins. */
  lemma {:induction false} LongestOfFirst(cells: seq<string>, keep: string -> bool, best: string)
    requires LongestOf(cells, keep, best) != best
    ensures exists i :: 0 <= i < |cells| && cells[i] == LongestOf(cells, keep, best) && keep(cells[i])
              && forall j :: 0 <= j < i && keep(cells[j]) ==> |cells[j]| < |cells[i]|
  {
    var r := LongestOf(cells, keep, best);
    var next := if keep(cells[0]) && |cells[0]| > |best| then cells[0] else best;
    if r == next {
      assert next != best;
      assert cells[0] == r && keep(cells[0]);
    } else {
      LongestOfFirst(cells[1..], keep, next);
      var k :| 0 <= k < |cells[1..]| && cells[1..][k] == r && keep(cells[1..][k])
                && forall j :: 0 <= j < k && keep(cells[1..][j]) ==> |cells[1..][j]| < |cells[1..][k]|;
      assert |r| > |next|;
      assert forall j :: 0 <= j < k + 1 && keep(cells[j]) ==> |cells[j]| < |r| by {
        forall j | 0 <= j < k + 1 && keep(cells[j]) ensures |cells[j]| < |r| {
          if j > 0 { assert cells[j] == cells[1..][j - 1]; }
        }
      }
    }
  }

  predicate LetteredCell(c: string) { c != "" && HasLetters(c) }

  predicate AnyCell(c: string) { true }

  /** The description of `rowToTx`: the longest lettered cell, else the longest cell, first on ties. */
  function Description(cells: seq<string>): (r: string)
    ensures r == "" || r in cells
    ensures (exists i :: 0 <= i < |cells| && LetteredCell(cells[i])) ==>
              LetteredCell(r) && forall i :: 0 <= i < |cells| && LetteredCell(cells[i]) ==> |cells[i]| <= |r|
    ensures forall i :: 0 <= i < |cells| ==> |cells[i]| <= |r| || LetteredCell(r)
  {
    var d := LongestOf(cells, LetteredCell, "");
    if d == "" then LongestOf(cells, AnyCell, "") else d
  }

  // ---------------------------------------------------------------------------
  // Lottery id

  const KnownCodes: seq<string> := ["L200", "HILUX", "P30", "LAND200", "LC200", "PRIUS30"]

  /** The synonym table: the Land Cruiser and Prius aliases map to their canonical ids. */
  function Canonical(id: string): string {
    if id == "LAND200" || id == "LC200" then "L200"
    else if id == "PRIUS30" then "P30"
    else id
  }

  /** The first entry of `known` that occurs in `t`. */
  function FirstKnown(t: string, known: seq<string>): (r: Option<string>)
    ensures r.None? <==> forall i :: 0 <= i < |known| ==> !Contains(t, known[i])
    ensures r.Some? ==> exists i :: 0 <= i < |known| && known[i] == r.value && Contains(t, r.value)
                          && forall j :: 0 <= j < i ==> !Contains(t, known[j])
    ensures forall i :: 0 <= i < |known| && Contains(t, known[i]) && (forall j :: 0 <= j < i ==> !Contains(t, known[j])) ==>
              r == Some(known[i])
  {
    if |known| == 0 then None
    else if Contains(t, known[0]) then Some(known[0])
    else
      var r := FirstKnown(t, known[1..]);
      assert forall i :: 1 <= i < |known| ==> known[i] == known[1..][i - 1];
      if r.Some? then
        var k :| 0 <= k < |known[1..]| && known[1..][k] == r.value && Contains(t, r.value)
                  && forall j :: 0 <= j < k ==> !Contains(t, known[1..][j]);
        assert known[k + 1] == r.value;
        r
      else r
  }

  predicate AllUpperIn(t: string, from: int, to: int) {
    0 <= from <= to <= |t| && forall k :: from <= k < to ==> IsUpperAscii(t[k])
  }

  predicate AllDigitsIn(t: string, from: int, to: int) {
    0 <= from <= to <= |t| && forall k :: from <= k < to ==> IsDigit(t[k])
  }

  /** `\b` at offset `p` where the character after it is a word character. */
  predicate BoundaryBefore(t: string, p: int) {
    0 <= p <= |t| && (p == 0 || !IsWordChar(t[p - 1]))
  }

  /** `\b` at offset `p` where the character before it is a word character. */
  predicate BoundaryAfter(t: string, p: int) {
    0 <= p <= |t| && (p == |t| || !IsWordChar(t[p]))
  }

  /**
   * The regex `\b[A-Z]{1,maxL}\d{1,maxD}\b` matches `t[p..p+n]` with `k`
   * letters: the reference reading of the pattern.
   */
  predicate CodeMatch(t: string, p: int, n: int, k: int, maxL: nat, maxD: nat) {
    && 1 <= k <= maxL && 1 <= n - k <= maxD
    && BoundaryBefore(t, p) && AllUpperIn(t, p, p + k) && AllDigitsIn(t, p + k, p + n) && BoundaryAfter(t, p + n)
  }

  predicate CodeMatchAt(t: string, p: int, n: int, maxL: nat, maxD: nat) {
    exists k | 1 <= k <= maxL :: CodeMatch(t, p, n, k, maxL, maxD)
  }

  function UpperRun(t: string, p: nat): (k: nat)
    requires p <= |t|
    ensures p + k <= |t| && AllUpperIn(t, p, p + k)
    ensures p + k < |t| ==> !IsUpperAscii(t[p + k])
    decreases |t| - p
  {
    if p < |t| && IsUpperAscii(t[p]) then 1 + UpperRun(t, p + 1) else 0
  }

  function DigitRun(t: string, p: nat): (k: nat)
    requires p <= |t|
    ensures p + k <= |t| && AllDigitsIn(t, p, p + k)
    ensures p + k < |t| ==> !IsDigit(t[p + k])
    decreases |t| - p
  {
    if p < |t| && IsDigit(t[p]) then 1 + DigitRun(t, p + 1) else 0
  }

  /** A run of capitals that ends at a non-capital is the whole run. */
  lemma {:induction false} UpperRunExact(t: string, p: nat, k: nat)
    requires AllUpperIn(t, p, p + k) && (p + k < |t| ==> !IsUpperAscii(t[p + k]))
    ensures UpperRun(t, p) == k
    decreases k
  {
    if k > 0 {
      UpperRunExact(t, p + 1, k - 1);
    }
  }

  /** A run of digits that ends at a non-digit is the whole run. */
  lemma {:induction false} DigitRunExact(t: string, p: nat, k: nat)
    requires AllDigitsIn(t, p, p + k) && (p + k < |t| ==> !IsDigit(t[p + k]))
    ensures DigitRun(t, p) == k
    decreases k
  {
    if k > 0 {
      DigitRunExact(t, p + 1, k - 1);
    }
  }

  /** The match length at `p`, read off the letter and digit runs. */
  function CodeAt(t: string, p: nat, maxL: nat, maxD: nat): (r: Option<nat>)
    requires p <= |t|
    ensures r.Some? ==> CodeMatchAt(t, p, r.value, maxL, maxD)
    ensures forall n :: CodeMatchAt(t, p, n, maxL, maxD) ==> r == Some(n)
  {
    var k := UpperRun(t, p);
    var j := DigitRun(t, p + k);
    var ok := BoundaryBefore(t, p) && 1 <= k <= maxL && 1 <= j <= maxD && BoundaryAfter(t, p + k + j);
    CodeAtComplete(t, p, maxL, maxD);
    if ok then
      assert CodeMatch(t, p, k + j, k, maxL, maxD);
      Some(k + j)
    else None
  }

  lemma CodeAtComplete(t: string, p: nat, maxL: nat, maxD: nat)
    requires p <= |t|
    ensures var k := UpperRun(t, p); var j := DigitRun(t, p + k);
      forall n :: CodeMatchAt(t, p, n, maxL, maxD) ==>
        n == k + j && BoundaryBefore(t, p) && 1 <= k <= maxL && 1 <= j <= maxD && BoundaryAfter(t, p + k + j)
  {
    var k := UpperRun(t, p);
    var j := DigitRun(t, p + k);
    forall n | CodeMatchAt(t, p, n, maxL, maxD)
      ensures n == k + j && BoundaryBefore(t, p) && 1 <= k <= maxL && 1 <= j <= maxD && BoundaryAfter(t, p + k + j)
    {
      var k' :| 1 <= k' <= maxL && CodeMatch(t, p, n, k', maxL, maxD);
      // the letters stop exactly where the digits start
      assert IsDigit(t[p + k']);
      UpperRunExact(t, p, k');
      // the digits stop exactly at the closing boundary
      DigitRunExact(t, p + k, n - k);
    }
  }

  /** Offset of the leftmost match of the code pattern, scanning from `from`. */
  function FindCode(t: string, from: nat, maxL: nat, maxD: nat): (r: Option<nat>)
    requires from <= |t|
    ensures r.Some? ==> from <= r.value <= |t| && CodeAt(t, r.value, maxL, maxD).Some?
    ensures r.Some? ==> forall q :: from <= q < r.value ==> CodeAt(t, q, maxL, maxD).None?
    ensures r.None? ==> forall q :: from <= q <= |t| ==> CodeAt(t, q, maxL, maxD).None?
    decreases |t| - from
  {
    if CodeAt(t, from, maxL, maxD).Some? then Some(from)
    else if from == |t| then None
    else FindCode(t, from + 1, maxL, maxD)
  }

  /** `t.match(/\b[A-Z]{1,maxL}\d{1,maxD}\b/)`: the text of the leftmost match. */
  function FirstCode(t: string, maxL: nat, maxD: nat): Option<string> {
    match FindCode(t, 0, maxL, maxD)
    case None => None
    case Some(p) => Some(t[p..p + CodeAt(t, p, maxL, maxD).value])
  }

  /** `FirstCode` is the regex's reading: the leftmost position that matches, with the one length matching there. */
  lemma FirstCodeIsLeftmostMatch(t: string, maxL: nat, maxD: nat)
    ensures FirstCode(t, maxL, maxD).Some? ==>
      exists p, n :: CodeMatchAt(t, p, n, maxL, maxD) && FirstCode(t, maxL, maxD).value == t[p..p + n]
        && forall q, m :: 0 <= q < p ==> !CodeMatchAt(t, q, m, maxL, maxD)
    ensures FirstCode(t, maxL, maxD).None? ==> forall q, m :: 0 <= q <= |t| ==> !CodeMatchAt(t, q, m, maxL, maxD)
  {
    match FindCode(t, 0, maxL, maxD)
    case None =>
      forall q, m | 0 <= q <= |t| ensures !CodeMatchAt(t, q, m, maxL, maxD) {
        assert CodeAt(t, q, maxL, maxD).None?;
      }
    case Some(p) =>
      var n := CodeAt(t, p, maxL, maxD).value;
      assert CodeMatchAt(t, p, n, maxL, maxD);
      forall q, m | 0 <= q < p ensures !CodeMatchAt(t, q, m, maxL, maxD) {
        assert CodeAt(t, q, maxL, maxD).None?;
      }
  }

  /**
   * Server `extractLotteryId`: a known code anywhere in the upper-cased
   * text wins, mapped through the synonym table; otherwise the first
   * `\b[A-Z]{1,8}\d{1,4}\b`; otherwise null.
   */
  function ExtractLotteryId(rawText: string): (r: Option<string>)
    ensures forall i :: 0 <= i < |KnownCodes| && Contains(Upper(rawText), KnownCodes[i])
                          && (forall j :: 0 <= j < i ==> !Contains(Upper(rawText), KnownCodes[j])) ==>
              r == Some(Canonical(KnownCodes[i]))
    ensures (exists i :: 0 <= i < |KnownCodes| && Contains(Upper(rawText), KnownCodes[i])) ==>
              r.Some? && r.value in ["L200", "HILUX", "P30"]
    ensures (forall i :: 0 <= i < |KnownCodes| ==> !Contains(Upper(rawText), KnownCodes[i])) ==>
              r == FirstCode(Upper(rawText), 8, 4)
    ensures r.None? <==> (forall i :: 0 <= i < |KnownCodes| ==> !Contains(Upper(rawText), KnownCodes[i]))
                         && FirstCode(Upper(rawText), 8, 4).None?
  {
    var t := Upper(rawText);
    match FirstKnown(t, KnownCodes)
    case Some(id) => CanonicalRange(id); Some(Canonical(id))
    case None => FirstCode(t, 8, 4)
  }

  /** Every known code, alias or not, maps to one of the three lottery ids. */
  lemma CanonicalRange(id: string)
    requires id in KnownCodes
    ensures Canonical(id) in ["L200", "HILUX", "P30"]
  {
  }

  // ---------------------------------------------------------------------------
  // Row assembly

  /** The candidate record `rowToTx` builds for one row. */
  datatype Tx = Tx(
    txId: Option<string>,
    occurredAt: Option<string>,
    amount: Option<real>,
    phone: Option<string>,
    lotteryId: Option<string>,
    desc: string,
    raw: Tokenizer.Row)

  /**
   * `rowToTx` of the import handler. `toTimestamp` (JavaScript `Date`
   * parsing and ISO formatting) is left uninterpreted.
   */
  function RowToTx(cells: Tokenizer.Row, toTimestamp: string -> Option<string>): (tx: Tx)
    ensures tx.raw == cells
    ensures tx.phone.Some? ==> |tx.phone.value| == 8 && AllDigits(tx.phone.value)
    ensures tx.phone.None? <==> |DigitsOnly(Join(cells, " "))| < 8
    ensures tx.txId.Some? ==> |tx.txId.value| >= 9 && AllDigits(tx.txId.value)
    ensures tx.amount.Some? ==> tx.amount.value >= 10.0
    ensures tx.desc == "" || tx.desc in cells
    ensures tx.phone.Some? ==> tx.phone.value == DigitsOnly(Join(cells, " "))[..8]
    ensures tx.txId == ExtractTxId(cells) && tx.amount == SelectAmount(cells) && tx.desc == Description(cells)
    ensures tx.lotteryId == ExtractLotteryId(Join(cells, " "))
    ensures ExtractDateTime(cells).None? ==> tx.occurredAt.None?
    ensures ExtractDateTime(cells).Some? ==> tx.occurredAt == toTimestamp(ExtractDateTime(cells).value)
  {
    var joined := Join(cells, " ");
    var phone := NormalizePhone(joined);
    var date := ExtractDateTime(cells);
    AmountRule(cells);
    Tx(
      ExtractTxId(cells),
      if date.Some? then toTimestamp(date.value) else None,
      SelectAmount(cells),
      if phone == "" then None else Some(phone),
      ExtractLotteryId(joined),
      Description(cells),
      cells)
  }
}
