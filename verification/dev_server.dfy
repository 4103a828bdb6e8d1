/**
 * The local development server's request routing: `/api/...` paths are
 * mapped to handler files, every other path has each `..` deleted, `/`
 * serves `/index.html`, and the content type comes from a fixed table
 * keyed by the lower-cased extension.
 *
 * The request path is the already parsed URL pathname. Which files exist,
 * and whether a handler throws, are parameters; `path.join` is left out,
 * so paths stay relative to the project root.
 */
module DevServer {
  import opened Wrappers
  import opened Text

  // ---------------------------------------------------------------------------
  // Deleting `..`

  /** No two neighbouring dots. */
  predicate NoDoubleDot(s: string) {
    forall i :: 0 <= i < |s| - 1 ==> !(s[i] == '.' && s[i + 1] == '.')
  }

  /** The characters of `s` other than dots, in order. */
  function NonDots(s: string): string {
    if |s| == 0 then "" else (if s[0] == '.' then "" else [s[0]]) + NonDots(s[1..])
  }

  /**
   * `s.replace(/\.\./g, "")`: pairs of dots are deleted from left to right.
   * What is left has no `..`, and only dots were deleted.
   */
  function StripDotDot(s: string): (r: string)
    ensures NoDoubleDot(r)
    ensures |r| <= |s|
    ensures |s| > 0 && s[0] != '.' ==> |r| > 0 && r[0] == s[0]
    ensures NonDots(r) == NonDots(s)
  {
    if |s| >= 2 && s[0] == '.' && s[1] == '.' then
      var r := StripDotDot(s[2..]);
      assert NonDots(s) == NonDots(s[1..]) && NonDots(s[1..]) == NonDots(s[2..]);
      r
    else if |s| == 0 then ""
    else
      var rest := StripDotDot(s[1..]);
      var r := [s[0]] + rest;
      assert r[1..] == rest;
      r
  }

  function Dots(k: nat): (r: string)
    ensures |r| == k && forall i :: 0 <= i < k ==> r[i] == '.'
  {
    if k == 0 then "" else "." + Dots(k - 1)
  }

  lemma StripPair(t: string)
    requires |t| >= 2 && t[0] == '.' && t[1] == '.'
    ensures StripDotDot(t) == StripDotDot(t[2..])
  {
  }

  lemma StripKeep(t: string)
    requires |t| >= 1 && !(|t| >= 2 && t[0] == '.' && t[1] == '.')
    ensures StripDotDot(t) == [t[0]] + StripDotDot(t[1..])
  {
  }

  /** A run of `k` dots becomes `k mod 2` dots; the text after the run is treated on its own. */
  lemma {:induction false} DotRun(k: nat, rest: string)
    requires |rest| == 0 || rest[0] != '.'
    ensures StripDotDot(Dots(k) + rest) == Dots(k % 2) + StripDotDot(rest)
  {
    if k >= 2 {
      DotPairOff(k, rest);
      DotRun(k - 2, rest);
    } else if k == 1 {
      OneDot(rest);
    } else {
      assert Dots(k) + rest == rest;
    }
  }

  lemma DotPairOff(k: nat, rest: string)
    requires k >= 2
    ensures StripDotDot(Dots(k) + rest) == StripDotDot(Dots(k - 2) + rest)
    ensures Dots(k % 2) == Dots((k - 2) % 2)
  {
    var d := Dots(k - 2);
    var s := Dots(k) + rest;
    assert Dots(k) == "." + ("." + d);
    assert s == ".." + (d + rest);
    StripPair(s);
    assert s[2..] == d + rest;
  }

  lemma OneDot(rest: string)
    requires |rest| == 0 || rest[0] != '.'
    ensures StripDotDot(Dots(1) + rest) == Dots(1) + StripDotDot(rest)
  {
    var s := Dots(1) + rest;
    assert Dots(1) == ".";
    StripKeep(s);
    assert s[1..] == rest;
  }

  /** A text without dots is left unchanged. */
  lemma {:induction false} NoDotsKept(s: string)
    requires '.' !in s
    ensures StripDotDot(s) == s
  {
    if |s| > 0 {
      StripKeep(s);
      assert '.' !in s[1..];
      NoDotsKept(s[1..]);
    }
  }

  /** A dot-free prefix is copied and the rest is treated on its own. */
  lemma {:induction false} StripAppend(a: string, b: string)
    requires '.' !in a
    ensures StripDotDot(a + b) == a + StripDotDot(b)
  {
    if |a| > 0 {
      var s := a + b;
      assert s[0] == a[0] && s[0] != '.';
      StripKeep(s);
      assert s[1..] == a[1..] + b;
      assert '.' !in a[1..];
      StripAppend(a[1..], b);
      assert a == [a[0]] + a[1..];
    } else {
      assert a + b == b;
    }
  }

  /** Each `..` of a path segment is removed: `/a/../b` becomes `/a//b`. */
  lemma StripSegment(a: string, b: string)
    requires '.' !in a && '.' !in b
    ensures StripDotDot(a + "/../" + b) == a + "//" + b
  {
    assert a + "/../" + b == a + ("/" + (".." + ("/" + b)));
    StripAppend(a, "/" + (".." + ("/" + b)));
    StripAppend("/", ".." + ("/" + b));
    var t := ".." + ("/" + b);
    StripPair(t);
    assert t[2..] == "/" + b;
    StripAppend("/", b);
    NoDotsKept(b);
  }

  // ---------------------------------------------------------------------------
  // Static files

  /** The file served for a path: `/` means `/index.html`. */
  function StaticPath(urlPath: string): (r: string)
    ensures NoDoubleDot(r)
    ensures StripDotDot(urlPath) == "/" ==> r == "/index.html"
    ensures StripDotDot(urlPath) != "/" ==> r == StripDotDot(urlPath)
  {
    var safe := StripDotDot(urlPath);
    if safe == "/" then "/index.html" else safe
  }

  /** Position of the last `c` in `s`. */
  function LastIndexOf(s: string, c: char): (r: Option<nat>)
    ensures r.None? <==> c !in s
    ensures r.Some? ==> r.value < |s| && s[r.value] == c && c !in s[r.value + 1..]
  {
    if |s| == 0 then None
    else if s[|s| - 1] == c then Some(|s| - 1)
    else
      var r := LastIndexOf(s[..|s| - 1], c);
      if r.Some? then assert s[r.value + 1..] == s[..|s| - 1][r.value + 1..] + [s[|s| - 1]]; r
      else r
  }

  /** The last path segment. */
  function Basename(p: string): (r: string)
    ensures '/' !in r
    ensures EndsWith(p, r)
    ensures |r| < |p| ==> p[|p| - |r| - 1] == '/'
  {
    match LastIndexOf(p, '/')
    case None => p
    case Some(i) => p[i + 1..]
  }

  /**
   * `path.extname` of a path that does not end in `/`: from the last dot of
   * the last segment, unless that dot starts the segment or the segment is
   * `..`.
   */
  function ExtName(p: string): (r: string)
    ensures r == "" || (r[0] == '.' && '.' !in r[1..] && '/' !in r && EndsWith(p, r))
    ensures r != "" <==> Basename(p) != ".." && exists i :: 0 < i < |Basename(p)| && Basename(p)[i] == '.'
    ensures r != "" ==> EndsWith(Basename(p), r)
  {
    var b := Basename(p);
    match LastIndexOf(b, '.')
    case None => ""
    case Some(i) =>
      LastDotBound(b, i);
      if i == 0 || b == ".." then ""
      else
        BasenameSuffix(p);
        ExtSuffix(p, b, i);
        assert b[|b| - |b[i..]|..] == b[i..];
        b[i..]
  }

  /** No dot lies after the last one, so a dot past the start means the last dot is past the start too. */
  lemma LastDotBound(b: string, i: nat)
    requires i < |b| && b[i] == '.' && '.' !in b[i + 1..]
    ensures i == 0 ==> forall k :: 0 < k < |b| ==> b[k] != '.'
  {
    if i == 0 {
      forall k | 0 < k < |b| ensures b[k] != '.' {
        assert b[k] == b[1..][k - 1];
      }
    }
  }

  /** From the last dot of a final segment on, the text is a dot, then neither dot nor slash, and ends the path. */
  lemma ExtSuffix(p: string, b: string, i: nat)
    requires EndsWith(p, b) && '/' !in b
    requires i < |b| && b[i] == '.' && '.' !in b[i + 1..]
    ensures var r := b[i..];
      r[0] == '.' && '.' !in r[1..] && '/' !in r && EndsWith(p, r)
  {
    var r := b[i..];
    assert r[1..] == b[i + 1..];
    assert p[|p| - |r|..] == b[i..];
  }

  lemma BasenameSuffix(p: string)
    ensures EndsWith(p, Basename(p))
  {
  }

  const DefaultType: string := "application/octet-stream"

  /** The content-type table. */
  const Mime: map<string, string> := map[
    ".html" := "text/html; charset=utf-8",
    ".css" := "text/css; charset=utf-8",
    ".js" := "text/javascript; charset=utf-8",
    ".svg" := "image/svg+xml",
    ".png" := "image/png",
    ".jpg" := "image/jpeg",
    ".jpeg" := "image/jpeg"]

  /**
   * `mime[ext] || "application/octet-stream"` for the lower-cased
   * extension. Lower-casing beyond ASCII cannot produce a table key, so the
   * ASCII case mapping is exact here.
   */
  function ContentType(p: string): (r: string)
    ensures Lower(ExtName(p)) in Mime ==> r == Mime[Lower(ExtName(p))]
    ensures Lower(ExtName(p)) !in Mime ==> r == DefaultType
  {
    var ext := Lower(ExtName(p));
    if ext in Mime then Mime[ext] else DefaultType
  }

  /** The extension is looked up without regard to ASCII case. */
  lemma ContentTypeIgnoresCase(base: string, ext: string)
    requires ExtName(base + ext) == ext
    requires ExtName(base + Upper(ext)) == Upper(ext)
    ensures ContentType(base + Upper(ext)) == ContentType(base + ext)
  {
    LowerUpper(ext);
  }

  lemma LowerUpper(s: string)
    ensures Lower(Upper(s)) == Lower(s)
  {
    assert forall i :: 0 <= i < |s| ==> LowerChar(UpperChar(s[i])) == LowerChar(s[i]);
  }

  // ---------------------------------------------------------------------------
  // API handlers

  const ApiPrefix: string := "/api/"

  /** `/api/X` is served by the file `api/X.js`: only the leading `/api/` is removed. */
  function ApiHandlerFile(urlPath: string): (r: string)
    requires StartsWith(urlPath, ApiPrefix)
    ensures StartsWith(r, "api/") && EndsWith(r, ".js") && |r| == |urlPath| + 2
    ensures r[4..|r| - 3] == urlPath[5..]
  {
    "api/" + urlPath[5..] + ".js"
  }

  /** Reading the request path back from a handler file. */
  function ApiPathOf(file: string): string
    requires StartsWith(file, "api/") && EndsWith(file, ".js") && |file| >= 7
  {
    ApiPrefix + file[4..|file| - 3]
  }

  /** Distinct API paths map to distinct handler files. */
  lemma ApiFileRoundTrip(urlPath: string)
    requires StartsWith(urlPath, ApiPrefix)
    ensures ApiPathOf(ApiHandlerFile(urlPath)) == urlPath
  {
    assert urlPath == urlPath[..5] + urlPath[5..];
  }

  // ---------------------------------------------------------------------------
  // Routing

  datatype Response =
    | Json(status: nat, body: string)
    | Handled(file: string)
    | Static(file: string, contentType: string)
    | Text(status: nat, body: string)

  const NotFoundJson: string := "{\"error\":\"not_found\"}"
  const ServerErrorJson: string := "{\"error\":\"server_error\"}"

  /**
   * One request: `apiFiles` and `staticFiles` are the files that exist and
   * can be read, and `handlerThrows` says whether the handler fails.
   */
  function Route(urlPath: string, apiFiles: set<string>, handlerThrows: bool, staticFiles: set<string>): (r: Response)
    ensures StartsWith(urlPath, ApiPrefix) ==>
      (r == Json(404, NotFoundJson) <==> ApiHandlerFile(urlPath) !in apiFiles) &&
      (r == Json(500, ServerErrorJson) <==> ApiHandlerFile(urlPath) in apiFiles && handlerThrows) &&
      (r.Handled? <==> ApiHandlerFile(urlPath) in apiFiles && !handlerThrows)
    ensures !StartsWith(urlPath, ApiPrefix) ==>
      (r.Static? <==> StaticPath(urlPath) in staticFiles) &&
      (r.Static? ==> r.file == StaticPath(urlPath) && NoDoubleDot(r.file) && r.contentType == ContentType(r.file)) &&
      (!r.Static? ==> r == Text(404, "Not found"))
  {
    if StartsWith(urlPath, ApiPrefix) then
      var f := ApiHandlerFile(urlPath);
      if f !in apiFiles then Json(404, NotFoundJson)
      else if handlerThrows then Json(500, ServerErrorJson)
      else Handled(f)
    else
      var p := StaticPath(urlPath);
      if p in staticFiles then Static(p, ContentType(p)) else Text(404, "Not found")
  }
}
