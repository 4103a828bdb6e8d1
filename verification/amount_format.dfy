/**
 * `formatAmount`, defined identically in app.js and transactions.js:
 * `String(n)` for an integer, `n.toFixed(2)` otherwise, then a comma before
 * every digit that starts a run of a multiple of three digits and follows a
 * word character (the regular expression `\B(?=(\d{3})+(?!\d))`).
 *
 * Amounts are exact reals; `String` of an integer is its shortest decimal
 * form and `toFixed(2)` rounds the magnitude half up to cents.
 */
module AmountFormat {
  import opened Wrappers
  import opened Text
  import Extract

  // ---------------------------------------------------------------------
  // The regular expression, read literally
  // ---------------------------------------------------------------------

  /**
   * The pattern matches (an empty match) before position `i`: the character
   * before is a word character (`\B` next to a digit) and the digits from
   * `i` run for a positive multiple of three and then stop.
   */
  predicate CommaBefore(s: string, i: int)
    requires 0 <= i < |s|
  {
    0 < i && IsWordChar(s[i - 1]) && IsDigit(s[i]) && LeadingDigits(s[i..]) % 3 == 0
  }

  /** The first `i` characters of `s` with a comma inserted wherever the pattern matches. */
  function Ins(s: string, i: nat): string
    requires i <= |s|
  {
    if i == 0 then "" else Ins(s, i - 1) + (if CommaBefore(s, i - 1) then "," else "") + [s[i - 1]]
  }

  /** `s.replace(/\B(?=(\d{3})+(?!\d))/g, ",")`. */
  function InsertCommas(s: string): string {
    Ins(s, |s|)
  }

  lemma InsUnfold(s: string, i: nat)
    requires 0 < i <= |s|
    ensures CommaBefore(s, i - 1) ==> Ins(s, i) == Ins(s, i - 1) + "," + [s[i - 1]]
    ensures !CommaBefore(s, i - 1) ==> Ins(s, i) == Ins(s, i - 1) + [s[i - 1]]
  {
  }

  lemma InsComma(s: string, i: nat)
    requires 0 < i <= |s| && CommaBefore(s, i - 1)
    ensures Ins(s, i) == Ins(s, i - 1) + [',', s[i - 1]]
  {
    InsUnfold(s, i);
  }

  lemma InsNoComma(s: string, i: nat)
    requires 0 < i <= |s| && !CommaBefore(s, i - 1)
    ensures Ins(s, i) == Ins(s, i - 1) + [s[i - 1]]
  {
    InsUnfold(s, i);
  }

  /** `s` from offset `a` and `t` from the start hold the same `k` characters and matches. */
  predicate Agree(s: string, a: nat, t: string, k: nat)
    requires a + k <= |s| && k <= |t|
  {
    k == 0 || (Agree(s, a, t, k - 1) && s[a + k - 1] == t[k - 1] && CommaBefore(s, a + k - 1) == CommaBefore(t, k - 1))
  }

  lemma {:induction false} AgreeEverywhere(s: string, a: nat, t: string, k: nat)
    requires a + k <= |s| && k <= |t|
    requires forall j :: 0 <= j < k ==> s[a + j] == t[j] && CommaBefore(s, a + j) == CommaBefore(t, j)
    ensures Agree(s, a, t, k)
  {
    if k > 0 {
      AgreeEverywhere(s, a, t, k - 1);
    }
  }

  /** Where the pattern agrees on a stretch of two strings, so does the output. */
  lemma {:induction false} InsRange(s: string, a: nat, t: string, k: nat)
    requires a + k <= |s| && k <= |t|
    requires Agree(s, a, t, k)
    ensures Ins(s, a + k) == Ins(s, a) + Ins(t, k)
  {
    if k > 0 {
      InsRange(s, a, t, k - 1);
    }
  }

  /** Without matches, the output is the input. */
  lemma {:induction false} InsPlain(s: string, i: nat)
    requires i <= |s|
    requires forall j :: 0 <= j < i ==> !CommaBefore(s, j)
    ensures Ins(s, i) == s[..i]
  {
    if i > 0 {
      InsPlain(s, i - 1);
      assert s[..i] == s[..i - 1] + [s[i - 1]];
    }
  }

  /** In a digit string the pattern matches where a multiple of three digits remains. */
  lemma CommaBeforeDigits(ds: string, i: int)
    requires AllDigits(ds) && 0 <= i < |ds|
    ensures CommaBefore(ds, i) <==> 0 < i && (|ds| - i) % 3 == 0
  {
    LeadingDigitsAll(ds[i..]);
  }

  // ---------------------------------------------------------------------
  // Thousands groups, from the right
  // ---------------------------------------------------------------------

  /** The last three digits split off with a comma, as long as more than three remain. */
  function Group(ds: string): (r: string)
    requires AllDigits(ds)
    ensures |ds| >= 1 ==> |r| >= 1 && r[0] == ds[0] && r[|r| - 1] == ds[|ds| - 1]
    ensures forall i :: 0 <= i < |r| ==> IsDigit(r[i]) || r[i] == ','
    decreases |ds|
  {
    if |ds| <= 3 then ds
    else
      var r := Group(ds[..|ds| - 3]) + "," + ds[|ds| - 3..];
      assert forall i :: |r| - 3 <= i < |r| ==> r[i] == ds[|ds| - 3 + i - (|r| - 3)];
      r
  }

  /** On a digit string the regular expression groups by threes from the right. */
  lemma {:induction false} GroupIsRegex(ds: string)
    requires AllDigits(ds)
    ensures InsertCommas(ds) == Group(ds)
    decreases |ds|
  {
    if |ds| <= 3 {
      ShortUngrouped(ds);
    } else {
      var p := ds[..|ds| - 3];
      DigitsPrefix(ds);
      GroupIsRegex(p);
      InsSplitLast(ds);
      LastPiece(ds);
      SplitLastJoin(InsertCommas(ds), Group(p), ds[|ds| - 3..]);
    }
  }

  lemma DigitsPrefix(ds: string)
    requires AllDigits(ds) && |ds| > 3
    ensures AllDigits(ds[..|ds| - 3])
  {
  }

  lemma SplitLastJoin(x: string, g: string, last: string)
    requires x == g + "," + last
    ensures x == g + ([','] + last)
  {
  }

  /** The regular expression's output on a long digit string: the prefix's output, a comma, the last three digits. */
  lemma InsSplitLast(ds: string)
    requires AllDigits(ds) && |ds| > 3
    ensures InsertCommas(ds) == InsertCommas(ds[..|ds| - 3]) + "," + ds[|ds| - 3..]
  {
    InsLastThree(ds);
    InsDigitPrefix(ds);
  }

  lemma ShortUngrouped(ds: string)
    requires AllDigits(ds) && |ds| <= 3
    ensures Ins(ds, |ds|) == ds
  {
    ShortNoMatch(ds);
    InsPlain(ds, |ds|);
    assert ds[..|ds|] == ds;
  }

  lemma ShortNoMatch(ds: string)
    requires AllDigits(ds) && |ds| <= 3
    ensures forall j :: 0 <= j < |ds| ==> !CommaBefore(ds, j)
  {
    forall j | 0 <= j < |ds| ensures !CommaBefore(ds, j) {
      CommaBeforeDigits(ds, j);
    }
  }

  lemma LastThreeMatches(ds: string)
    requires AllDigits(ds) && |ds| > 3
    ensures CommaBefore(ds, |ds| - 3) && !CommaBefore(ds, |ds| - 2) && !CommaBefore(ds, |ds| - 1)
  {
    CommaBeforeDigits(ds, |ds| - 3);
    CommaBeforeDigits(ds, |ds| - 2);
    CommaBeforeDigits(ds, |ds| - 1);
  }

  lemma InsLastThree(ds: string)
    requires AllDigits(ds) && |ds| > 3
    ensures Ins(ds, |ds|) == Ins(ds, |ds| - 3) + "," + ds[|ds| - 3..]
  {
    LastThreeMatches(ds);
    InsThreeBack(ds, |ds|);
    assert ds[|ds| - 3..|ds|] == ds[|ds| - 3..];
  }

  /** A match before the third-last position and none after it: the last three characters follow one comma. */
  lemma InsThreeBack(s: string, n: nat)
    requires 3 <= n <= |s|
    requires CommaBefore(s, n - 3) && !CommaBefore(s, n - 2) && !CommaBefore(s, n - 1)
    ensures Ins(s, n) == Ins(s, n - 3) + "," + s[n - 3..n]
  {
    InsComma(s, n - 2);
    InsNoComma(s, n - 1);
    InsNoComma(s, n);
    var a := Ins(s, n - 3);
    assert Ins(s, n) == a + [',', s[n - 3]] + [s[n - 2]] + [s[n - 1]];
    assert s[n - 3..n] == [s[n - 3], s[n - 2], s[n - 1]];
  }

  lemma PrefixMatches(ds: string)
    requires AllDigits(ds) && |ds| > 3
    ensures Agree(ds, 0, ds[..|ds| - 3], |ds| - 3)
  {
    PrefixPointwise(ds);
    AgreeEverywhere(ds, 0, ds[..|ds| - 3], |ds| - 3);
  }

  lemma PrefixPointwise(ds: string)
    requires AllDigits(ds) && |ds| > 3
    ensures forall j :: 0 <= j < |ds| - 3 ==> ds[j] == ds[..|ds| - 3][j] && CommaBefore(ds, j) == CommaBefore(ds[..|ds| - 3], j)
  {
    var p := ds[..|ds| - 3];
    forall j | 0 <= j < |ds| - 3 ensures ds[j] == p[j] && CommaBefore(ds, j) == CommaBefore(p, j) {
      CommaBeforeDigits(ds, j);
      CommaBeforeDigits(p, j);
    }
  }

  lemma InsDigitPrefix(ds: string)
    requires AllDigits(ds) && |ds| > 3
    ensures Ins(ds, |ds| - 3) == Ins(ds[..|ds| - 3], |ds| - 3)
  {
    PrefixMatches(ds);
    InsRange(ds, 0, ds[..|ds| - 3], |ds| - 3);
    assert Ins(ds, 0) == "";
  }

  /** `s.replace(/,/g, "")`. */
  function RemoveCommas(s: string): (r: string)
    ensures ',' !in s ==> r == s
  {
    if |s| == 0 then "" else (if s[0] == ',' then "" else [s[0]]) + RemoveCommas(s[1..])
  }

  lemma {:induction false} RemoveCommasConcat(a: string, b: string)
    ensures RemoveCommas(a + b) == RemoveCommas(a) + RemoveCommas(b)
  {
    if |a| == 0 {
      assert a + b == b;
    } else {
      assert (a + b)[1..] == a[1..] + b;
      RemoveCommasConcat(a[1..], b);
    }
  }

  /** The pattern only inserts commas: removing them gives back a comma-free input. */
  lemma {:induction false} RemoveInserted(s: string, i: nat)
    requires i <= |s| && ',' !in s
    ensures RemoveCommas(Ins(s, i)) == s[..i]
  {
    if i > 0 {
      RemoveInserted(s, i - 1);
      RemoveInsStep(s, i);
    }
  }

  lemma RemoveInsStep(s: string, i: nat)
    requires 0 < i <= |s| && ',' !in s
    requires RemoveCommas(Ins(s, i - 1)) == s[..i - 1]
    ensures RemoveCommas(Ins(s, i)) == s[..i]
  {
    var x := s[i - 1];
    assert x in s;
    if CommaBefore(s, i - 1) {
      InsComma(s, i);
      RemoveStep(Ins(s, i - 1), [','], x, s[..i - 1]);
      assert Ins(s, i) == Ins(s, i - 1) + [','] + [x];
    } else {
      InsNoComma(s, i);
      RemoveStep(Ins(s, i - 1), [], x, s[..i - 1]);
      assert Ins(s, i) == Ins(s, i - 1) + [] + [x];
    }
    assert s[..i] == s[..i - 1] + [x];
  }

  /** One more character, after an optional comma, adds just that character once commas are removed. */
  lemma RemoveStep(prev: string, c: string, x: char, pre: string)
    requires RemoveCommas(prev) == pre && (c == [] || c == [',']) && x != ','
    ensures RemoveCommas(prev + c + [x]) == pre + [x]
  {
    assert prev + c + [x] == prev + (c + [x]);
    RemoveCommasConcat(prev, c + [x]);
    if c == [','] {
      assert (c + [x])[1..] == [x];
    } else {
      assert c + [x] == [x];
    }
  }

  /** Every comma-separated piece of a grouped number is three digits long, except the first, which has one to three. */
  lemma {:induction false} GroupPieces(ds: string)
    requires AllDigits(ds) && |ds| >= 1
    ensures var pieces := Split(Group(ds), ',');
      1 <= |pieces[0]| <= 3 && forall i :: 1 <= i < |pieces| ==> |pieces[i]| == 3
    decreases |ds|
  {
    if |ds| <= 3 {
      SplitNoSep(ds, ',');
    } else {
      var p := ds[..|ds| - 3];
      var last := ds[|ds| - 3..];
      GroupPieces(p);
      LastPiece(ds);
      SplitAround(Group(p), last, ',');
      SplitNoSep(last, ',');
    }
  }

  lemma LastPiece(ds: string)
    requires AllDigits(ds) && |ds| > 3
    ensures ',' !in ds[|ds| - 3..]
    ensures Group(ds) == Group(ds[..|ds| - 3]) + ([','] + ds[|ds| - 3..])
  {
    var last := ds[|ds| - 3..];
    assert forall i :: 0 <= i < |last| ==> IsDigit(last[i]);
  }

  lemma RemoveLeadingComma(x: string)
    ensures RemoveCommas([','] + x) == RemoveCommas(x)
  {
    assert ([','] + x)[1..] == x;
  }

  /** Removing the commas of a grouped number gives back its digits. */
  lemma {:induction false} GroupDigits(ds: string)
    requires AllDigits(ds)
    ensures RemoveCommas(Group(ds)) == ds
    decreases |ds|
  {
    if |ds| > 3 {
      var p := ds[..|ds| - 3];
      var last := ds[|ds| - 3..];
      GroupDigits(p);
      LastPiece(ds);
      JoinedRemove(Group(p), p, last);
      assert ds == p + last;
    }
  }

  /** Removing commas from a grouped prefix, a comma and a comma-free tail. */
  lemma JoinedRemove(g: string, p: string, last: string)
    requires RemoveCommas(g) == p && ',' !in last
    ensures RemoveCommas(g + ([','] + last)) == p + last
  {
    RemoveCommasConcat(g, [','] + last);
    RemoveLeadingComma(last);
  }

  /** Splitting at a separator placed between two strings splits each of them. */
  lemma {:induction false} SplitAround(a: string, b: string, d: char)
    ensures Split(a + ([d] + b), d) == Split(a, d) + Split(b, d)
  {
    if |a| == 0 {
      assert a + ([d] + b) == [d] + b;
      assert ([d] + b)[1..] == b;
    } else {
      assert (a + ([d] + b))[1..] == a[1..] + ([d] + b);
      SplitAround(a[1..], b, d);
    }
  }

  // ---------------------------------------------------------------------
  // String(n) and toFixed(2)
  // ---------------------------------------------------------------------

  /** A fixed-point rendering: optional minus, integer digits, and either nothing or `.` and two digits. */
  datatype FixedForm = FixedForm(sign: string, whole: string, fraction: string)

  function FixedString(f: FixedForm): string {
    f.sign + f.whole + f.fraction
  }

  predicate IsInteger(x: real) {
    x == x.Floor as real
  }

  function Abs(x: real): real {
    if x < 0.0 then -x else x
  }

  /** `toFixed(2)` rounding: the number of cents nearest `a`, the larger one on a tie. */
  function RoundCents(a: real): (m: nat)
    requires a >= 0.0
    ensures m as real - 0.5 <= a * 100.0 < m as real + 0.5
  {
    (a * 100.0 + 0.5).Floor
  }

  /** Two digits, with a leading zero below ten. */
  function Pad2(c: nat): (r: string)
    requires c < 100
    ensures |r| == 2 && AllDigits(r) && DecValue(r) == c
  {
    var r := [('0' as int + c / 10) as char, ('0' as int + c % 10) as char];
    assert r[..1] == [r[0]] && r[..1][..0] == "";
    assert DecValue(r[..1]) == c / 10;
    r
  }

  /** `Number.isInteger(n) ? String(n) : n.toFixed(2)`. */
  function ToFixedForm(x: real): (f: FixedForm)
    ensures f.sign == (if x < 0.0 then "-" else "")
    ensures |f.whole| >= 1 && AllDigits(f.whole)
    ensures f.fraction == "" <==> IsInteger(x)
    ensures f.fraction != "" ==> |f.fraction| == 3 && f.fraction[0] == '.' && AllDigits(f.fraction[1..])
    ensures ',' !in FixedString(f)
  {
    var sign := if x < 0.0 then "-" else "";
    var f :=
      if IsInteger(x) then
        FixedForm(sign, NatToString(if x < 0.0 then -x.Floor else x.Floor), "")
      else
        var m := RoundCents(Abs(x));
        FixedForm(sign, NatToString(m / 100), "." + Pad2(m % 100));
    assert forall i :: 0 <= i < |f.whole| ==> f.whole[i] != ',';
    assert forall i :: 0 <= i < |f.fraction| ==> f.fraction[i] != ',' by {
      if f.fraction != "" {
        assert forall i :: 1 <= i < |f.fraction| ==> f.fraction[i] == f.fraction[1..][i - 1];
      }
    }
    assert forall i :: 0 <= i < |FixedString(f)| ==> FixedString(f)[i] != ',' by {
      assert FixedString(f) == f.sign + f.whole + f.fraction;
    }
    f
  }

  lemma CentsSplit(m: nat)
    ensures (m / 100) as real + (m % 100) as real / 100.0 == m as real / 100.0
  {
    var q, r := m / 100, m % 100;
    assert m == 100 * q + r;
    assert (m as real) == 100.0 * (q as real) + (r as real);
  }

  /** The digits `toFixed`/`String` print have the value they are meant to have. */
  lemma FixedValue(x: real)
    ensures var f := ToFixedForm(x);
      IsInteger(x) ==> DecValue(f.whole) as real == Abs(x)
    ensures var f := ToFixedForm(x);
      !IsInteger(x) ==>
        var v := DecimalValue(f.whole, f.fraction[1..]);
        v * 100.0 - 0.5 <= Abs(x) * 100.0 < v * 100.0 + 0.5
  {
    var f := ToFixedForm(x);
    if !IsInteger(x) {
      var m := RoundCents(Abs(x));
      assert f.fraction[1..] == Pad2(m % 100);
      assert Pow10(2) == 100;
      CentsSplit(m);
      assert DecimalValue(f.whole, f.fraction[1..]) == m as real / 100.0;
    }
  }

  // ---------------------------------------------------------------------
  // formatAmount
  // ---------------------------------------------------------------------

  /**
   * `formatAmount(n)`: empty for null or undefined, otherwise the fixed
   * rendering with commas grouping the integer digits by threes; the sign
   * and the two decimals are never split.
   */
  function FormatAmount(n: Option<real>): (r: string)
    ensures n.None? ==> r == ""
    ensures n.Some? ==> RemoveCommas(r) == FixedString(ToFixedForm(n.value))
    ensures n.Some? ==> var f := ToFixedForm(n.value); r == f.sign + Group(f.whole) + f.fraction
  {
    match n
    case None => ""
    case Some(x) =>
      var f := ToFixedForm(x);
      RemoveInserted(FixedString(f), |FixedString(f)|);
      assert FixedString(f)[..|FixedString(f)|] == FixedString(f);
      GroupsWholeOnly(f);
      InsertCommas(FixedString(f))
  }

  /** The pattern groups only the integer digits of a fixed rendering. */
  lemma GroupsWholeOnly(f: FixedForm)
    requires f.sign == "" || f.sign == "-"
    requires |f.whole| >= 1 && AllDigits(f.whole)
    requires f.fraction == "" || (|f.fraction| == 3 && f.fraction[0] == '.' && AllDigits(f.fraction[1..]))
    ensures InsertCommas(FixedString(f)) == f.sign + Group(f.whole) + f.fraction
  {
    var s, w, post := f.sign, f.whole, f.fraction;
    SignPart(s, w, post);
    WholeOfFixed(s, w, post);
    FractionOfFixed(s, w, post);
  }

  lemma WholeOfFixed(s: string, w: string, post: string)
    requires s == "" || s == "-"
    requires AllDigits(w)
    requires post == "" || post[0] == '.'
    ensures Ins(s + w + post, |s| + |w|) == Ins(s + w + post, |s|) + Group(w)
  {
    var full, a := s + w + post, |s|;
    SuffixAfter(s, w, post);
    assert a == 0 || !IsWordChar(full[a - 1]) by {
      if a > 0 { assert full[0] == s[0]; }
    }
    WholePart(full, a, w, post);
  }

  lemma FractionOfFixed(s: string, w: string, post: string)
    requires post == "" || (|post| == 3 && post[0] == '.' && AllDigits(post[1..]))
    ensures Ins(s + w + post, |s + w + post|) == Ins(s + w + post, |s| + |w|) + post
  {
    SuffixLast(s, w, post);
    FractionPart(s + w + post, |s| + |w|, post);
  }

  lemma SuffixAfter(x: string, y: string, z: string)
    ensures |x| <= |x + y + z| && (x + y + z)[|x|..] == y + z
  {
  }

  lemma SuffixLast(x: string, y: string, z: string)
    ensures |x| + |y| + |z| == |x + y + z| && (x + y + z)[|x| + |y|..] == z
  {
  }

  lemma SignPart(s: string, w: string, post: string)
    requires s == "" || s == "-"
    ensures Ins(s + w + post, |s|) == s
  {
    var full := s + w + post;
    if s == "-" {
      assert !CommaBefore(full, 0);
      InsUnfold(full, 1);
      assert Ins(full, 0) == "";
      assert full[0] == '-';
    }
  }

  /** The integer digits, which follow the sign, are grouped as on their own. */
  lemma WholePart(full: string, a: nat, w: string, post: string)
    requires AllDigits(w) && a + |w| <= |full|
    requires full[a..] == w + post && (post == "" || !IsDigit(post[0]))
    requires a == 0 || !IsWordChar(full[a - 1])
    ensures Ins(full, a + |w|) == Ins(full, a) + Group(w)
  {
    StretchAgrees(full, a, w, post);
    InsRange(full, a, w, |w|);
    GroupIsRegex(w);
  }

  lemma StretchAgrees(full: string, a: nat, w: string, post: string)
    requires AllDigits(w) && a + |w| <= |full|
    requires full[a..] == w + post && (post == "" || !IsDigit(post[0]))
    requires a == 0 || !IsWordChar(full[a - 1])
    ensures Agree(full, a, w, |w|)
  {
    forall j | 0 <= j < |w| ensures full[a + j] == w[j] && CommaBefore(full, a + j) == CommaBefore(w, j) {
      StretchMatches(full, a, w, post, j);
    }
    AgreeEverywhere(full, a, w, |w|);
  }

  /** The cents after the point never match: the output ends with them unchanged. */
  lemma FractionPart(full: string, a: nat, post: string)
    requires a + |post| == |full| && full[a..] == post
    requires post == "" || (|post| == 3 && post[0] == '.' && AllDigits(post[1..]))
    ensures Ins(full, |full|) == Ins(full, a) + post
  {
    forall j | 0 <= j < |post| ensures full[a + j] == post[j] && !CommaBefore(full, a + j) && !CommaBefore(post, j) {
      FractionUnmatched(full, a, post, j);
    }
    AgreeEverywhere(full, a, post, |post|);
    InsRange(full, a, post, |post|);
    InsPlain(post, |post|);
    assert post[..|post|] == post;
  }

  /** A run of digits not preceded by a word character matches the pattern exactly where it would on its own. */
  lemma StretchMatches(full: string, a: nat, w: string, post: string, j: nat)
    requires AllDigits(w) && j < |w| && a + |w| <= |full|
    requires full[a..] == w + post && (post == "" || !IsDigit(post[0]))
    requires a == 0 || !IsWordChar(full[a - 1])
    ensures full[a + j] == w[j] && CommaBefore(full, a + j) == CommaBefore(w, j)
  {
    var i := a + j;
    assert full[i..] == w[j..] + post by { assert full[i..] == full[a..][j..]; }
    assert full[i] == w[j];
    if post == "" {
      assert w[j..] + post == w[j..];
    } else {
      LeadingDigitsStop(w[j..], post);
    }
    LeadingDigitsAll(w[j..]);
    assert LeadingDigits(full[i..]) == LeadingDigits(w[j..]);
    if j > 0 {
      assert full[i - 1] == w[j - 1];
    } else {
      assert !CommaBefore(full, i) && !CommaBefore(w, j);
    }
  }

  lemma FractionUnmatched(full: string, a: nat, post: string, j: nat)
    requires a + |post| == |full| && full[a..] == post
    requires post == "" || (|post| == 3 && post[0] == '.' && AllDigits(post[1..]))
    requires j < |post|
    ensures full[a + j] == post[j] && !CommaBefore(full, a + j) && !CommaBefore(post, j)
  {
    var i := a + j;
    assert full[i..] == post[j..] by { assert full[i..] == full[a..][j..]; }
    assert full[i] == post[j];
    if j == 2 {
      assert post[2..] == [post[2]];
    }
  }

  /** A natural number is printed by `String` and grouped. */
  lemma FormatOfNat(n: nat)
    ensures FormatAmount(Some(n as real)) == Group(NatToString(n))
  {
    assert IsInteger(n as real);
    var f := ToFixedForm(n as real);
    assert f == FixedForm("", NatToString(n), "");
  }

  /** The import parser reads a grouped digit string as the digits themselves. */
  lemma ParseGrouped(w: string)
    requires |w| >= 1 && AllDigits(w)
    ensures Extract.ParseAmount(Group(w)) == Extract.ParseAmount(w)
  {
    var g := Group(w);
    GroupDigits(w);
    StripCommasOnly(g);
    DigitsClean(w);
    Extract.CleanNoop(w);
    DigitEndsTrimmed(g);
    DigitEndsTrimmed(w);
    SameParse(g, w);
  }

  lemma DigitsClean(w: string)
    requires AllDigits(w)
    ensures Extract.NoSpaceOrComma(w)
  {
  }

  /** A text that starts and ends with a digit has nothing to trim. */
  lemma DigitEndsTrimmed(s: string)
    requires |s| >= 1 && IsDigit(s[0]) && IsDigit(s[|s| - 1])
    ensures IsTrimmed(s)
  {
  }

  /** `parseAmount` only sees the trimmed cell with spaces and commas removed. */
  lemma SameParse(a: string, b: string)
    requires a != "" && b != "" && IsTrimmed(a) && IsTrimmed(b)
    requires Extract.StripSpacesAndCommas(a) == Extract.StripSpacesAndCommas(b)
    ensures Extract.ParseAmount(a) == Extract.ParseAmount(b)
  {
    TrimmedFixpoint(a);
    TrimmedFixpoint(b);
  }

  /** A formatted natural number reads back, through the import parser, as itself. */
  lemma FormatParsesBack(n: nat)
    ensures Extract.ParseAmount(FormatAmount(Some(n as real))) == Some(n as real)
  {
    var w := NatToString(n);
    FormatOfNat(n);
    ParseGrouped(w);
    Extract.ParseAmountDigits(w);
  }

  /** On digits and commas, removing spaces and commas removes just the commas. */
  lemma {:induction false} StripCommasOnly(s: string)
    requires forall i :: 0 <= i < |s| ==> IsDigit(s[i]) || s[i] == ','
    ensures Extract.StripSpacesAndCommas(s) == RemoveCommas(s)
  {
    if |s| > 0 {
      StripCommasOnly(s[1..]);
    }
  }
}
