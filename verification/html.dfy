/**
 * HTML escaping and the lottery status badge.
 *
 * `escapeHtml` is defined identically in app.js, transactions.js and
 * admin-lotteries.js; `EscapeHtml` models all three copies. It is five
 * global single-character replacements applied in sequence, `&` first.
 */
module Html {
  import opened Wrappers
  import opened Text

  /** `s.replace(/c/g, rep)` for a single literal character `c`. */
  function ReplaceAll(s: string, c: char, rep: string): (r: string)
    ensures c !in s ==> r == s
    ensures c !in rep ==> c !in r
  {
    if |s| == 0 then ""
    else (if s[0] == c then rep else [s[0]]) + ReplaceAll(s[1..], c, rep)
  }

  lemma {:induction false} ReplaceAllConcat(a: string, b: string, c: char, rep: string)
    ensures ReplaceAll(a + b, c, rep) == ReplaceAll(a, c, rep) + ReplaceAll(b, c, rep)
  {
    if |a| == 0 {
      assert a + b == b;
    } else {
      assert (a + b)[1..] == a[1..] + b;
      ReplaceAllConcat(a[1..], b, c, rep);
    }
  }

  /** A character that neither the input nor the replacement holds is not in the output. */
  lemma {:induction false} ReplaceAllAbsent(s: string, c: char, rep: string, d: char)
    requires d !in s && d !in rep
    ensures d !in ReplaceAll(s, c, rep)
  {
    if |s| > 0 {
      assert d !in s[1..] by { assert forall i :: 0 <= i < |s| - 1 ==> s[1..][i] == s[i + 1]; }
      ReplaceAllAbsent(s[1..], c, rep, d);
    }
  }

  lemma ReplaceAllOne(x: char, c: char, rep: string)
    ensures ReplaceAll([x], c, rep) == if x == c then rep else [x]
  {
    assert [x][1..] == "";
  }

  /** `escapeHtml`, as the chain of five replacements the source writes. */
  function EscapeHtml(s: string): (r: string)
    ensures '<' !in r && '>' !in r && '"' !in r && '\'' !in r
    ensures '&' !in s && '<' !in s && '>' !in s && '"' !in s && '\'' !in s ==> r == s
  {
    var a := ReplaceAll(s, '&', "&amp;");
    var b := ReplaceAll(a, '<', "&lt;");
    TailClean(b);
    ReplaceAll(ReplaceAll(ReplaceAll(b, '>', "&gt;"), '"', "&quot;"), '\'', "&#039;")
  }

  /** The last three replacements leave none of `<`, `>`, `"` or `'` behind once `<` is gone. */
  lemma TailClean(b: string)
    requires '<' !in b
    ensures var r := ReplaceAll(ReplaceAll(ReplaceAll(b, '>', "&gt;"), '"', "&quot;"), '\'', "&#039;");
      '<' !in r && '>' !in r && '"' !in r && '\'' !in r
  {
    var c := ReplaceAll(b, '>', "&gt;");
    var d := ReplaceAll(c, '"', "&quot;");
    var gt, quot, apos := "&gt;", "&quot;", "&#039;";
    assert '<' !in gt && '<' !in quot && '>' !in quot && '<' !in apos && '>' !in apos && '"' !in apos;
    ReplaceAllAbsent(b, '>', gt, '<');
    ReplaceAllAbsent(c, '"', quot, '<');
    ReplaceAllAbsent(c, '"', quot, '>');
    ReplaceAllAbsent(d, '\'', apos, '<');
    ReplaceAllAbsent(d, '\'', apos, '>');
    ReplaceAllAbsent(d, '\'', apos, '"');
  }

  /** The entity for one character, or the character itself. */
  function EscChar(c: char): string {
    match c
    case '&' => "&amp;"
    case '<' => "&lt;"
    case '>' => "&gt;"
    case '"' => "&quot;"
    case '\'' => "&#039;"
    case _ => [c]
  }

  /** Escaping one character at a time: the reference reading of `escapeHtml`. */
  function Charwise(s: string): string {
    if |s| == 0 then "" else EscChar(s[0]) + Charwise(s[1..])
  }

  lemma EscapeConcat(a: string, b: string)
    ensures EscapeHtml(a + b) == EscapeHtml(a) + EscapeHtml(b)
  {
    var a1, b1 := ReplaceAll(a, '&', "&amp;"), ReplaceAll(b, '&', "&amp;");
    ReplaceAllConcat(a, b, '&', "&amp;");
    var a2, b2 := ReplaceAll(a1, '<', "&lt;"), ReplaceAll(b1, '<', "&lt;");
    ReplaceAllConcat(a1, b1, '<', "&lt;");
    var a3, b3 := ReplaceAll(a2, '>', "&gt;"), ReplaceAll(b2, '>', "&gt;");
    ReplaceAllConcat(a2, b2, '>', "&gt;");
    var a4, b4 := ReplaceAll(a3, '"', "&quot;"), ReplaceAll(b3, '"', "&quot;");
    ReplaceAllConcat(a3, b3, '"', "&quot;");
    ReplaceAllConcat(a4, b4, '\'', "&#039;");
  }

  /** Text without the last four special characters passes the rest of the chain unchanged. */
  lemma After1(x: string)
    requires '<' !in x && '>' !in x && '"' !in x && '\'' !in x
    ensures ReplaceAll(ReplaceAll(ReplaceAll(ReplaceAll(x, '<', "&lt;"), '>', "&gt;"), '"', "&quot;"), '\'', "&#039;") == x
  {
  }

  lemma After2(x: string)
    requires '>' !in x && '"' !in x && '\'' !in x
    ensures ReplaceAll(ReplaceAll(ReplaceAll(x, '>', "&gt;"), '"', "&quot;"), '\'', "&#039;") == x
  {
  }

  lemma After3(x: string)
    requires '"' !in x && '\'' !in x
    ensures ReplaceAll(ReplaceAll(x, '"', "&quot;"), '\'', "&#039;") == x
  {
  }

  lemma EscapeAmp(c: char)
    requires c == '&'
    ensures EscapeHtml([c]) == "&amp;"
  {
    ReplaceAllOne(c, '&', "&amp;");
    var e := "&amp;";
    assert '<' !in e && '>' !in e && '"' !in e && '\'' !in e;
    After1(e);
  }

  lemma EscapeLt(c: char)
    requires c == '<'
    ensures EscapeHtml([c]) == "&lt;"
  {
    ReplaceAllOne(c, '&', "&amp;");
    ReplaceAllOne(c, '<', "&lt;");
    var e := "&lt;";
    assert '>' !in e && '"' !in e && '\'' !in e;
    After2(e);
  }

  lemma EscapeGt(c: char)
    requires c == '>'
    ensures EscapeHtml([c]) == "&gt;"
  {
    ReplaceAllOne(c, '&', "&amp;");
    ReplaceAllOne(c, '<', "&lt;");
    ReplaceAllOne(c, '>', "&gt;");
    var e := "&gt;";
    assert '"' !in e && '\'' !in e;
    After3(e);
  }

  lemma EscapeQuot(c: char)
    requires c == '"'
    ensures EscapeHtml([c]) == "&quot;"
  {
    ReplaceAllOne(c, '&', "&amp;");
    ReplaceAllOne(c, '<', "&lt;");
    ReplaceAllOne(c, '>', "&gt;");
    ReplaceAllOne(c, '"', "&quot;");
    var e := "&quot;";
    assert '\'' !in e;
  }

  lemma EscapeApos(c: char)
    requires c == '\''
    ensures EscapeHtml([c]) == "&#039;"
  {
    ReplaceAllOne(c, '&', "&amp;");
    ReplaceAllOne(c, '<', "&lt;");
    ReplaceAllOne(c, '>', "&gt;");
    ReplaceAllOne(c, '"', "&quot;");
    ReplaceAllOne(c, '\'', "&#039;");
  }

  /** A special character becomes its entity and nothing after that touches the entity. */
  lemma EscapeOne(c: char)
    ensures EscapeHtml([c]) == EscChar(c)
  {
    if c == '&' { EscapeAmp(c); }
    else if c == '<' { EscapeLt(c); }
    else if c == '>' { EscapeGt(c); }
    else if c == '"' { EscapeQuot(c); }
    else if c == '\'' { EscapeApos(c); }
    else { assert c !in "&<>\"'"; }
  }

  /** Because `&` goes first, no entity is escaped twice: the chain is a per-character map. */
  lemma {:induction false} EscapeIsCharwise(s: string)
    ensures EscapeHtml(s) == Charwise(s)
  {
    if |s| > 0 {
      assert s == [s[0]] + s[1..];
      EscapeConcat([s[0]], s[1..]);
      EscapeOne(s[0]);
      EscapeIsCharwise(s[1..]);
    }
  }

  /** Decoding the five entities, left to right. */
  function Unescape(s: string): string {
    if |s| == 0 then ""
    else if StartsWith(s, "&amp;") then "&" + Unescape(s[5..])
    else if StartsWith(s, "&lt;") then "<" + Unescape(s[4..])
    else if StartsWith(s, "&gt;") then ">" + Unescape(s[4..])
    else if StartsWith(s, "&quot;") then "\"" + Unescape(s[6..])
    else if StartsWith(s, "&#039;") then "'" + Unescape(s[6..])
    else [s[0]] + Unescape(s[1..])
  }

  lemma UnescapeAmp(rest: string)
    ensures Unescape("&amp;" + rest) == "&" + Unescape(rest)
  {
    var e := "&amp;" + rest;
    assert e[..5] == "&amp;" && e[5..] == rest;
  }

  lemma UnescapeLt(rest: string)
    ensures Unescape("&lt;" + rest) == "<" + Unescape(rest)
  {
    var e := "&lt;" + rest;
    assert e[..4] == "&lt;" && e[4..] == rest;
    assert !StartsWith(e, "&amp;") by { assert e[1] == 'l'; }
  }

  lemma UnescapeGt(rest: string)
    ensures Unescape("&gt;" + rest) == ">" + Unescape(rest)
  {
    var e := "&gt;" + rest;
    assert e[..4] == "&gt;" && e[4..] == rest;
    assert !StartsWith(e, "&amp;") by { assert e[1] == 'g'; }
    assert !StartsWith(e, "&lt;") by { assert e[1] == 'g'; }
  }

  lemma UnescapeQuot(rest: string)
    ensures Unescape("&quot;" + rest) == "\"" + Unescape(rest)
  {
    var e := "&quot;" + rest;
    assert e[..6] == "&quot;" && e[6..] == rest;
    assert !StartsWith(e, "&amp;") by { assert e[1] == 'q'; }
    assert !StartsWith(e, "&lt;") by { assert e[1] == 'q'; }
    assert !StartsWith(e, "&gt;") by { assert e[1] == 'q'; }
  }

  lemma UnescapeApos(rest: string)
    ensures Unescape("&#039;" + rest) == "'" + Unescape(rest)
  {
    var e := "&#039;" + rest;
    assert e[..6] == "&#039;" && e[6..] == rest;
    assert !StartsWith(e, "&amp;") by { assert e[1] == '#'; }
    assert !StartsWith(e, "&lt;") by { assert e[1] == '#'; }
    assert !StartsWith(e, "&gt;") by { assert e[1] == '#'; }
    assert !StartsWith(e, "&quot;") by { assert e[1] == '#'; }
  }

  lemma UnescapeStep(c: char, rest: string)
    ensures Unescape(EscChar(c) + rest) == [c] + Unescape(rest)
  {
    if c == '&' { UnescapeAmp(rest); }
    else if c == '<' { UnescapeLt(rest); }
    else if c == '>' { UnescapeGt(rest); }
    else if c == '"' { UnescapeQuot(rest); }
    else if c == '\'' { UnescapeApos(rest); }
    else { UnescapePlain(c, rest); }
  }

  lemma UnescapePlain(c: char, rest: string)
    requires c != '&'
    ensures Unescape([c] + rest) == [c] + Unescape(rest)
  {
    var e := [c] + rest;
    assert e[0] == c && e[1..] == rest;
    FirstDiffers(e, "&amp;");
    FirstDiffers(e, "&lt;");
    FirstDiffers(e, "&gt;");
    FirstDiffers(e, "&quot;");
    FirstDiffers(e, "&#039;");
  }

  lemma FirstDiffers(e: string, p: string)
    requires |e| > 0 && |p| > 0 && e[0] != p[0]
    ensures !StartsWith(e, p)
  {
    if |p| <= |e| { assert e[..|p|][0] == e[0]; }
  }

  lemma {:induction false} UnescapeCharwise(s: string)
    ensures Unescape(Charwise(s)) == s
  {
    if |s| > 0 {
      UnescapeStep(s[0], Charwise(s[1..]));
      UnescapeCharwise(s[1..]);
      assert s == [s[0]] + s[1..];
    }
  }

  /** Decoding the entities recovers the input exactly. */
  lemma EscapeRoundTrip(s: string)
    ensures Unescape(EscapeHtml(s)) == s
  {
    EscapeIsCharwise(s);
    UnescapeCharwise(s);
  }

  /** Escaping is injective: two statuses never render to the same text. */
  lemma EscapeInjective(s: string, t: string)
    requires EscapeHtml(s) == EscapeHtml(t)
    ensures s == t
  {
    EscapeRoundTrip(s);
    EscapeRoundTrip(t);
  }

  const OpenTag: string := "<span class=\"tag tag--open\">Open</span>"
  const TagStart: string := "<span class=\"tag\">"
  const TagEnd: string := "</span>"

  /** A plain badge is never the Open badge: they differ after `class="tag`. */
  lemma PlainTagNotOpen(x: string)
    ensures TagStart + x + TagEnd != OpenTag
  {
    var r := TagStart + x + TagEnd;
    assert r[16] == '"';
  }

  /** The text between a plain badge's tags decodes to the status shown. */
  lemma PlainTagBody(s: string)
    ensures var r := TagStart + EscapeHtml(s) + TagEnd;
      StartsWith(r, TagStart) && EndsWith(r, TagEnd) && |r| >= |TagStart| + |TagEnd|
      && Unescape(r[|TagStart|..|r| - |TagEnd|]) == s
  {
    var r := TagStart + EscapeHtml(s) + TagEnd;
    assert r[|TagStart|..|r| - |TagEnd|] == EscapeHtml(s);
    assert r[..|TagStart|] == TagStart;
    assert r[|r| - |TagEnd|..] == TagEnd;
    EscapeRoundTrip(s);
  }

  /**
   * `formatStatus(status)`: the Open badge for any capitalisation of "open",
   * otherwise a plain badge around the escaped status. `None` stands for a
   * null, undefined or empty status.
   */
  function FormatStatus(status: Option<string>): (r: string)
    ensures r == OpenTag <==> Lower(status.GetOr("")) == "open"
    ensures r != OpenTag ==>
      StartsWith(r, TagStart) && EndsWith(r, TagEnd) && |r| >= |TagStart| + |TagEnd|
      && Unescape(r[|TagStart|..|r| - |TagEnd|]) == status.GetOr("")
  {
    var s := status.GetOr("");
    if Lower(s) == "open" then OpenTag
    else
      PlainTagNotOpen(EscapeHtml(s));
      PlainTagBody(s);
      TagStart + EscapeHtml(s) + TagEnd
  }
}
