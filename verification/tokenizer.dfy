/**
 * The line tokenizer shared, verbatim, by the server import handler and the
 * client preview: byte-order-mark and whitespace stripping, one delimiter
 * guessed for the whole text, line splitting, quote-aware comma splitting and
 * cell trimming.
 */
module Tokenizer {
  import opened Wrappers
  import opened Text

  type Row = seq<string>

  const Bom: char := '\U{FEFF}'

  /** The delimiters tried, in the order a stable sort keeps on ties. */
  const Candidates: seq<char> := ['\t', ',', ';', '|']

  /** One `\r` in front of a line break belongs to the break. */
  function DropCr(l: string): (r: string)
    ensures '\n' in r ==> '\n' in l
  {
    if |l| > 0 && l[|l| - 1] == '\r' then l[..|l| - 1] else l
  }

  /** `text.split(/\r?\n/)`. */
  function SplitLines(s: string): (r: seq<string>)
    ensures |r| == Count(s, '\n') + 1
    ensures forall i :: 0 <= i < |r| ==> '\n' !in r[i]
  {
    var parts := Split(s, '\n');
    seq(|parts|, i requires 0 <= i < |parts| => if i < |parts| - 1 then DropCr(parts[i]) else parts[i])
  }

  /** Without carriage returns the lines are the `\n`-pieces, and joining them gives the text back. */
  lemma SplitLinesPlain(s: string)
    requires '\r' !in s
    ensures SplitLines(s) == Split(s, '\n')
    ensures Join(SplitLines(s), "\n") == s
  {
    JoinSplit(s, '\n');
    SplitAbsent(s, '\n', '\r');
  }

  /** Lines joined by CRLF come back as the same lines: each `\r` goes with its break. */
  lemma SplitLinesCrlf(xs: seq<string>)
    requires |xs| >= 1
    requires forall i :: 0 <= i < |xs| ==> '\n' !in xs[i]
    ensures SplitLines(Join(xs, "\r\n")) == xs
  {
    var s := Join(xs, "\r\n");
    SplitCrlf(xs, Split(s, '\n'));
    CrPiecesLines(s, xs);
  }

  /** Pieces that carry one trailing `\r` each, except the last, give back the lines. */
  lemma CrPiecesLines(s: string, xs: seq<string>)
    requires |Split(s, '\n')| == |xs| >= 1
    requires forall i :: 0 <= i < |xs| - 1 ==> Split(s, '\n')[i] == xs[i] + ['\r']
    requires Split(s, '\n')[|xs| - 1] == xs[|xs| - 1]
    ensures SplitLines(s) == xs
  {
    var parts := Split(s, '\n');
    var r := SplitLines(s);
    forall i | 0 <= i < |xs| ensures r[i] == xs[i] {
      if i < |xs| - 1 {
        DropCrOf(xs[i], parts[i]);
      }
    }
  }

  lemma DropCrOf(x: string, p: string)
    requires p == x + ['\r']
    ensures DropCr(p) == x
  {
    assert p[..|p| - 1] == x;
  }

  /** Splitting a CRLF join on `\n` leaves the `\r` on every piece but the last. */
  lemma {:induction false} SplitCrlf(xs: seq<string>, parts: seq<string>)
    requires |xs| >= 1
    requires forall i :: 0 <= i < |xs| ==> '\n' !in xs[i]
    requires parts == Split(Join(xs, "\r\n"), '\n')
    ensures |parts| == |xs|
    ensures forall i :: 0 <= i < |xs| - 1 ==> parts[i] == xs[i] + ['\r']
    ensures parts[|xs| - 1] == xs[|xs| - 1]
  {
    if |xs| == 1 {
      SplitNoSep(xs[0], '\n');
    } else {
      var a := xs[0] + ['\r'];
      var rest := Join(xs[1..], "\r\n");
      assert forall i :: 1 <= i < |xs| ==> xs[1..][i - 1] == xs[i];
      SplitCrlf(xs[1..], Split(rest, '\n'));
      assert forall k :: 0 <= k < |xs[0]| ==> a[k] == xs[0][k];
      assert Join(xs, "\r\n") == a + (['\n'] + rest);
      SplitAppend(a, rest, '\n');
    }
  }

  /** `text.split(/\r?\n/).slice(0, 20).join("\n")`. */
  function Sample(text: string): string {
    var lines := SplitLines(text);
    Join(lines[..if |lines| < 20 then |lines| else 20], "\n")
  }

  /**
   * `guessDelimiter`: the candidate with the most occurrences in the sample;
   * the sort is stable, so ties go to the candidate listed first; tab when no
   * candidate occurs.
   */
  function GuessDelimiter(text: string): (r: char)
    ensures r in Candidates
    ensures forall c :: c in Candidates ==> Count(Sample(text), c) <= Count(Sample(text), r)
    ensures Count(Sample(text), r) == 0 ==> r == '\t'
    ensures forall i :: 0 <= i < |Candidates| && Candidates[i] == r ==>
              forall j :: 0 <= j < i ==> Count(Sample(text), Candidates[j]) < Count(Sample(text), r)
  {
    var sample := Sample(text);
    var p1 := ('\t', Count(sample, '\t'));
    var p2 := if Count(sample, ',') > p1.1 then (',', Count(sample, ',')) else p1;
    var p3 := if Count(sample, ';') > p2.1 then (';', Count(sample, ';')) else p2;
    var p4 := if Count(sample, '|') > p3.1 then ('|', Count(sample, '|')) else p3;
    if p4.1 > 0 then p4.0 else '\t'
  }

  /**
   * The quote-aware scan of `splitLine` in comma mode, one character at a
   * time: `inQuotes` is the toggle, `cur` the cell being built, `out` the
   * finished cells.
   */
  function QuotedCells(s: string, inQuotes: bool, cur: string, out: seq<string>): (r: seq<string>)
    ensures |r| > |out| && r[..|out|] == out
    decreases |s|
  {
    if |s| == 0 then out + [cur]
    else if s[0] == '"' then
      if inQuotes && |s| > 1 && s[1] == '"' then QuotedCells(s[2..], inQuotes, cur + ['"'], out)
      else QuotedCells(s[1..], !inQuotes, cur, out)
    else if !inQuotes && s[0] == ',' then
      var r := QuotedCells(s[1..], inQuotes, "", out + [cur]);
      assert r[..|out|] == (out + [cur])[..|out|];
      r
    else QuotedCells(s[1..], inQuotes, cur + [s[0]], out)
  }

  /** `splitLine(line, delim)`: plain split unless the delimiter is a comma and the line has a quote. */
  function SplitLine(line: string, delim: char): (r: Row)
    ensures |r| >= 1
    ensures (delim != ',' || '"' !in line) ==> Join(r, [delim]) == line
  {
    if delim != ',' || '"' !in line then
      JoinSplit(line, delim);
      Split(line, delim)
    else QuotedCells(line, false, "", [])
  }

  /** The loop of `splitLine` as written, index by index, computing the same cells. */
  method SplitLineLoop(line: string, delim: char) returns (cells: Row)
    ensures cells == SplitLine(line, delim)
    ensures |cells| >= 1
  {
    if delim != ',' || '"' !in line {
      return Split(line, delim);
    }
    var out: seq<string> := [];
    var cur := "";
    var inQ := false;
    var i := 0;
    while i < |line|
      invariant 0 <= i <= |line|
      invariant QuotedCells(line[i..], inQ, cur, out) == QuotedCells(line, false, "", [])
    {
      var ch := line[i];
      assert line[i..][1..] == line[i + 1..];
      if ch == '"' {
        if inQ && i + 1 < |line| && line[i + 1] == '"' {
          assert line[i..][2..] == line[i + 2..];
          cur := cur + ['"'];
          i := i + 2;
        } else {
          inQ := !inQ;
          i := i + 1;
        }
      } else if !inQ && ch == ',' {
        out := out + [cur];
        cur := "";
        i := i + 1;
      } else {
        cur := cur + [ch];
        i := i + 1;
      }
    }
    cells := out + [cur];
  }

  function TrimAll(cells: Row): (r: Row)
    ensures |r| == |cells|
    ensures forall j :: 0 <= j < |r| ==> IsTrimmed(r[j]) && r[j] == Trim(cells[j])
  {
    seq(|cells|, j requires 0 <= j < |cells| => Trim(cells[j]))
  }

  /** `lines.filter((l) => l.trim().length > 0)`. */
  function NonBlank(lines: seq<string>): (r: seq<string>)
    ensures |r| <= |lines|
    ensures forall i :: 0 <= i < |r| ==> Trim(r[i]) != "" && r[i] in lines
    ensures |lines| == 1 ==> r == (if Trim(lines[0]) != "" then lines else [])
  {
    if |lines| == 0 then []
    else
      assert forall i :: 1 <= i < |lines| ==> lines[1..][i - 1] == lines[i];
      (if Trim(lines[0]) != "" then [lines[0]] else []) + NonBlank(lines[1..])
  }

  /** The filter keeps the original order: it distributes over concatenation. */
  lemma {:induction false} NonBlankConcat(a: seq<string>, b: seq<string>)
    ensures NonBlank(a + b) == NonBlank(a) + NonBlank(b)
    decreases |a|
  {
    if |a| > 0 {
      var ab := a + b;
      assert ab[0] == a[0] && ab[1..] == a[1..] + b;
      NonBlankConcat(a[1..], b);
      assert NonBlank(ab) == (if Trim(a[0]) != "" then [a[0]] else []) + NonBlank(a[1..] + b);
    } else {
      assert a + b == b;
    }
  }

  /** Only blank lines are dropped: with none, every line is kept. */
  lemma {:induction false} NonBlankKeepsAll(lines: seq<string>)
    requires forall i :: 0 <= i < |lines| ==> Trim(lines[i]) != ""
    ensures NonBlank(lines) == lines
  {
    if |lines| > 0 {
      NonBlankKeepsAll(lines[1..]);
      assert lines == [lines[0]] + lines[1..];
    }
  }

  /** Every non-blank line survives the filter. */
  lemma {:induction false} NonBlankKeeps(lines: seq<string>, i: int)
    requires 0 <= i < |lines| && Trim(lines[i]) != ""
    ensures lines[i] in NonBlank(lines)
  {
    if i > 0 {
      assert lines[1..][i - 1] == lines[i];
      NonBlankKeeps(lines[1..], i - 1);
    }
  }

  /** One line's cells: split on the delimiter, each trimmed. */
  function LineCells(line: string, d: char): (r: Row)
    ensures |r| >= 1
    ensures forall j :: 0 <= j < |r| ==> IsTrimmed(r[j])
  {
    TrimAll(SplitLine(line, d))
  }

  function StripBom(text: string): string {
    if |text| > 0 && text[0] == Bom then text[1..] else text
  }

  /** Tokenize each line with one delimiter. */
  function TokenizeLines(lines: seq<string>, d: char): (rows: seq<Row>)
    ensures |rows| == |lines|
    ensures forall i :: 0 <= i < |rows| ==> rows[i] == LineCells(lines[i], d)
  {
    seq(|lines|, i requires 0 <= i < |lines| => LineCells(lines[i], d))
  }

  /** `parseRows`: one row of trimmed cells per non-blank line, all split on one guessed delimiter. */
  function ParseRows(text: string): (rows: seq<Row>)
    ensures Trim(StripBom(text)) == "" ==> rows == []
    ensures forall i :: 0 <= i < |rows| ==> |rows[i]| >= 1
    ensures forall i, j :: 0 <= i < |rows| && 0 <= j < |rows[i]| ==> IsTrimmed(rows[i][j])
    ensures Trim(StripBom(text)) != "" ==> |rows| == |NonBlank(SplitLines(Trim(StripBom(text))))|
    ensures Trim(StripBom(text)) != "" ==> forall i :: 0 <= i < |rows| ==>
              rows[i] == LineCells(NonBlank(SplitLines(Trim(StripBom(text))))[i], GuessDelimiter(Trim(StripBom(text))))
  {
    var t := Trim(StripBom(text));
    if t == "" then []
    else TokenizeLines(NonBlank(SplitLines(t)), GuessDelimiter(t))
  }

  // ---------------------------------------------------------------------------
  // Round trips

  /** A cell of a synthetic table: non-empty, trimmed, free of delimiters, line breaks and quotes. */
  predicate PlainCell(c: string) {
    && c != "" && IsTrimmed(c)
    && forall k :: 0 <= k < |c| ==> c[k] !in Candidates && c[k] != '\n' && c[k] != '"'
  }

  predicate PlainTable(rows: seq<Row>) {
    && |rows| >= 1 && |rows[0]| >= 2
    && (forall i :: 0 <= i < |rows| ==> |rows[i]| >= 1)
    && forall i, j :: 0 <= i < |rows| && 0 <= j < |rows[i]| ==> PlainCell(rows[i][j])
  }

  function RenderLines(rows: seq<Row>, d: char): seq<string> {
    seq(|rows|, i requires 0 <= i < |rows| => Join(rows[i], [d]))
  }

  /** Cells joined by `d`, rows joined by line breaks. */
  function Render(rows: seq<Row>, d: char): string {
    Join(RenderLines(rows, d), "\n")
  }

  lemma {:induction false} JoinEnds(xs: seq<string>, sep: string)
    requires |xs| >= 1
    ensures StartsWith(Join(xs, sep), xs[0])
    ensures EndsWith(Join(xs, sep), xs[|xs| - 1])
  {
    JoinPrefix(xs, sep);
    if |xs| > 1 {
      JoinEnds(xs[1..], sep);
      assert Join(xs, sep) == (xs[0] + sep) + Join(xs[1..], sep);
    }
  }

  /** A rendered line starts with its first cell's first character and ends with its last cell's last. */
  lemma RenderedLineEnds(row: Row, d: char)
    requires |row| >= 1 && row[0] != "" && row[|row| - 1] != ""
    ensures var l := Join(row, [d]); |l| > 0 && l[0] == row[0][0] && l[|l| - 1] == row[|row| - 1][|row[|row| - 1]| - 1]
  {
    JoinEnds(row, [d]);
  }

  lemma RenderedLineChars(rows: seq<Row>, d: char, i: int, c: char)
    requires PlainTable(rows) && d in Candidates
    requires 0 <= i < |rows| && c in Join(rows[i], [d])
    ensures c == d || (c !in Candidates && c != '\n' && c != '"')
  {
    JoinChars(rows[i], [d], c);
    if c != d {
      var j :| 0 <= j < |rows[i]| && c in rows[i][j];
      var k :| 0 <= k < |rows[i][j]| && rows[i][j][k] == c;
    }
  }

  lemma SampleOfPlain(rows: seq<Row>, d: char)
    requires PlainTable(rows) && d in Candidates
    requires SplitLines(Render(rows, d)) == RenderLines(rows, d)
    ensures forall c :: c in Candidates && c != d ==> Count(Sample(Render(rows, d)), c) == 0
    ensures Count(Sample(Render(rows, d)), d) > 0
  {
    var lines := RenderLines(rows, d);
    var take := lines[..if |lines| < 20 then |lines| else 20];
    var sample := Join(take, "\n");
    assert Sample(Render(rows, d)) == sample;
    forall c | c in Candidates && c != d
      ensures c !in sample
    {
      if c in sample {
        JoinChars(take, "\n", c);
        var i :| 0 <= i < |take| && c in take[i];
        RenderedLineChars(rows, d, i, c);
      }
    }
    JoinPrefix(take, "\n");
    JoinPrefix(rows[0], [d]);
    assert Join(rows[0], [d]) == rows[0][0] + [d] + Join(rows[0][1..], [d]);
    assert d in take[0];
    assert take[0] == sample[..|take[0]|];
  }

  lemma SplitRenderedLines(rows: seq<Row>, d: char)
    requires PlainTable(rows) && d in Candidates
    ensures SplitLines(Render(rows, d)) == RenderLines(rows, d)
  {
    var lines := RenderLines(rows, d);
    forall i | 0 <= i < |lines| ensures '\n' !in lines[i] {
      if '\n' in lines[i] {
        RenderedLineChars(rows, d, i, '\n');
      }
    }
    SplitJoin(lines, '\n');
    var parts := Split(Render(rows, d), '\n');
    assert parts == lines;
    forall i | 0 <= i < |lines| ensures DropCr(lines[i]) == lines[i] {
      RenderedLineEnds(rows[i], d);
    }
  }

  lemma RenderTrimmed(rows: seq<Row>, d: char)
    requires PlainTable(rows) && d in Candidates
    ensures Trim(StripBom(Render(rows, d))) == Render(rows, d)
    ensures Render(rows, d) != ""
  {
    var lines := RenderLines(rows, d);
    JoinEnds(lines, "\n");
    RenderedLineEnds(rows[0], d);
    var last := rows[|rows| - 1];
    RenderedLineEnds(last, d);
    var t := Render(rows, d);
    assert t[0] == lines[0][0];
    assert t[|t| - 1] == lines[|lines| - 1][|lines[|lines| - 1]| - 1];
    assert IsTrimmed(t);
    TrimmedFixpoint(t);
  }

  lemma RenderedRowCells(rows: seq<Row>, d: char, i: int)
    requires PlainTable(rows) && d in Candidates && 0 <= i < |rows|
    ensures LineCells(Join(rows[i], [d]), d) == rows[i]
  {
    var line := Join(rows[i], [d]);
    assert '"' !in line by {
      if '"' in line {
        RenderedLineChars(rows, d, i, '"');
      }
    }
    forall j | 0 <= j < |rows[i]| ensures d !in rows[i][j] {
    }
    SplitJoin(rows[i], d);
    assert SplitLine(line, d) == rows[i];
    forall j | 0 <= j < |rows[i]| ensures Trim(rows[i][j]) == rows[i][j] {
      TrimmedFixpoint(rows[i][j]);
    }
  }

  /**
   * Tokenizing a table rendered with any of the four delimiters gives the
   * table back: the delimiter is recognised and every row and cell survives.
   */
  lemma ParseRender(rows: seq<Row>, d: char)
    requires PlainTable(rows) && d in Candidates
    ensures ParseRows(Render(rows, d)) == rows
  {
    var t := Render(rows, d);
    RenderTrimmed(rows, d);
    SplitRenderedLines(rows, d);
    SampleOfPlain(rows, d);
    assert GuessDelimiter(t) == d;
    var lines := RenderLines(rows, d);
    forall i | 0 <= i < |lines| ensures Trim(lines[i]) != "" {
      RenderedLineEnds(rows[i], d);
      assert !IsSpace(lines[i][0]);
    }
    NonBlankKeepsAll(lines);
    var out := ParseRows(t);
    forall i | 0 <= i < |rows| ensures out[i] == rows[i] {
      RenderedRowCells(rows, d, i);
    }
  }

  /** Each cell quoted, inner quotes doubled, cells joined by commas. */
  function Quote(c: string): string {
    if |c| == 0 then "" else (if c[0] == '"' then "\"\"" else [c[0]]) + Quote(c[1..])
  }

  function EncodeCsv(cells: Row): string
    requires |cells| >= 1
  {
    "\"" + Quote(cells[0]) + "\"" + (if |cells| == 1 then "" else "," + EncodeCsv(cells[1..]))
  }

  lemma {:induction false} QuotedBody(c: string, rest: string, cur: string, out: seq<string>)
    requires rest == "" || rest[0] == ','
    ensures QuotedCells(Quote(c) + "\"" + rest, true, cur, out) == QuotedCells(rest, false, cur + c, out)
  {
    var s := Quote(c) + "\"" + rest;
    if |c| == 0 {
      assert s == "\"" + rest;
      assert s[1..] == rest;
      assert cur + c == cur;
    } else if c[0] == '"' {
      assert s == "\"\"" + (Quote(c[1..]) + "\"" + rest);
      assert s[2..] == Quote(c[1..]) + "\"" + rest;
      QuotedBody(c[1..], rest, cur + ['"'], out);
      assert cur + ['"'] + c[1..] == cur + c;
    } else {
      assert s == [c[0]] + (Quote(c[1..]) + "\"" + rest);
      assert s[1..] == Quote(c[1..]) + "\"" + rest;
      QuotedBody(c[1..], rest, cur + [c[0]], out);
      assert cur + [c[0]] + c[1..] == cur + c;
    }
  }

  lemma {:induction false} QuotedEncoded(cells: Row, out: seq<string>)
    requires |cells| >= 1
    ensures QuotedCells(EncodeCsv(cells), false, "", out) == out + cells
  {
    var rest := if |cells| == 1 then "" else "," + EncodeCsv(cells[1..]);
    var s := EncodeCsv(cells);
    assert s == "\"" + (Quote(cells[0]) + "\"" + rest);
    assert s[1..] == Quote(cells[0]) + "\"" + rest;
    QuotedBody(cells[0], rest, "", out);
    assert "" + cells[0] == cells[0];
    if |cells| > 1 {
      assert rest[1..] == EncodeCsv(cells[1..]);
      QuotedEncoded(cells[1..], out + [cells[0]]);
      assert out + [cells[0]] + cells[1..] == out + cells;
    }
  }

  /**
   * Quoted comma mode: commas inside quotes do not split and doubled quotes
   * inside quotes stand for one quote, so any cells survive the encoding.
   */
  lemma QuotedRoundTrip(cells: Row)
    requires |cells| >= 1
    ensures SplitLine(EncodeCsv(cells), ',') == cells
  {
    assert EncodeCsv(cells)[0] == '"';
    QuotedEncoded(cells, []);
  }

  /** An empty quoted section outside quotes vanishes without a trace. */
  lemma EmptyQuotesVanish(s: string, cur: string, out: seq<string>)
    requires s == "" || s[0] != '"'
    ensures QuotedCells("\"\"" + s, false, cur, out) == QuotedCells(s, false, cur, out)
  {
    var t := "\"\"" + s;
    assert t[1..] == "\"" + s;
    assert t[1..][1..] == s;
    if s != "" {
      assert t[1..][1] == s[0];
    }
  }
}
