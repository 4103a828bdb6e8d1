/**
 * The `.env` loader of the seed script (the dev server carries an identical
 * copy): `KEY=value` lines fill in variables the environment does not
 * already have a non-empty value for. The file is given as its text, or
 * `None` when it does not exist.
 */
module DotEnv {
  import opened Wrappers
  import opened Text
  import Tokenizer
  import Db

  datatype Entry = Entry(key: string, value: string)

  /** Both ends carry the same quote character, `'` or `"`; one character counts as both ends. */
  predicate Quoted(v: string) {
    |v| >= 1 && (v[0] == '\'' || v[0] == '"') && v[|v| - 1] == v[0]
  }

  /**
   * One layer of matching quotes is removed (`val.slice(1, -1)`, which is
   * empty for a lone quote); anything else is kept.
   */
  function Unquote(v: string): (r: string)
    ensures Quoted(v) ==> |r| == (if |v| >= 2 then |v| - 2 else 0) && r == v[1..1 + |r|]
    ensures !Quoted(v) ==> r == v
  {
    if Quoted(v) then (if |v| >= 2 then v[1..|v| - 1] else "") else v
  }

  /** Quoting a value and unquoting it gives the value back, even when it is itself quoted. */
  lemma UnquoteQuoted(x: string, q: char)
    requires q == '\'' || q == '"'
    ensures Unquote([q] + x + [q]) == x
  {
    var v := [q] + x + [q];
    assert v[1..|v| - 1] == x;
  }

  /**
   * One line: ignored (`None`) when blank, a comment, or without `=`;
   * otherwise the trimmed text before the first `=` is the key and the
   * trimmed, unquoted rest is the value.
   */
  function ParseLine(line: string): (r: Option<Entry>)
    ensures r.None? <==> Trim(line) == "" || Trim(line)[0] == '#' || '=' !in Trim(line)
    ensures r.Some? ==> IsTrimmed(r.value.key) && '=' !in r.value.key
  {
    var t := Trim(line);
    if t == "" || t[0] == '#' then None
    else match IndexOf(t, '=')
      case None => None
      case Some(eq) => Some(EntryAt(t, eq))
  }

  /** The entry of a trimmed line whose first `=` is at `eq`. */
  function EntryAt(t: string, eq: nat): (e: Entry)
    requires eq < |t| && '=' !in t[..eq]
    ensures IsTrimmed(e.key) && '=' !in e.key
  {
    TrimKeeps(t[..eq], '=');
    Entry(Trim(t[..eq]), Unquote(Trim(t[eq + 1..])))
  }

  /** Trimming keeps only characters that were there. */
  lemma TrimKeeps(s: string, c: char)
    requires c !in s
    ensures c !in Trim(s)
  {
    TrimIsSlice(s);
  }

  /**
   * A `key=value` line splits at its first `=`: the value keeps any later
   * `=` characters.
   */
  lemma LineSplitsAtFirstEquals(k: string, v: string)
    requires k != "" && IsTrimmed(k) && k[0] != '#' && '=' !in k
    requires v != "" && IsTrimmed(v)
    ensures ParseLine(k + "=" + v) == Some(Entry(k, Unquote(v)))
  {
    var line := k + "=" + v;
    assert line[0] == k[0] && line[|line| - 1] == v[|v| - 1];
    TrimmedFixpoint(line);
    ParseSplitLine(line, k, v);
    TrimmedFixpoint(k);
    TrimmedFixpoint(v);
  }

  /**
   * Any line `p=q` whose key part is non-blank and not a comment: the key is
   * `p` trimmed and the value is `q` trimmed and unquoted, whatever space
   * surrounds either and whether or not `q` is empty.
   */
  lemma ParseLineParts(p: string, q: string)
    requires '=' !in p && Trim(p) != "" && Trim(p)[0] != '#'
    ensures ParseLine(p + "=" + q) == Some(Entry(Trim(p), Unquote(Trim(q))))
  {
    var P := TrimStart(p);
    KeyPart(p);
    TrimAroundEquals(p, q);
    ParseSplitLine(p + "=" + q, P, TrimEnd(q));
    assert TrimStart(P) == P;
    TrimOfTrimEnd(q);
  }

  /** The key part with its leading space removed still starts the key and holds no `=`. */
  lemma KeyPart(p: string)
    requires '=' !in p && Trim(p) != ""
    ensures TrimStart(p) != "" && TrimStart(p)[0] == Trim(p)[0] && '=' !in TrimStart(p)
  {
    var P := TrimStart(p);
    assert P != "" && P[0] == Trim(p)[0] by {
      assert Trim(p) == TrimEnd(P);
    }
    assert '=' !in P by {
      forall k | 0 <= k < |P| ensures P[k] != '=' {
        assert P[k] == p[|p| - |P| + k];
      }
    }
  }

  /** Trimming `p=q` trims the start of `p` and the end of `q` only. */
  lemma TrimAroundEquals(p: string, q: string)
    requires TrimStart(p) != ""
    ensures Trim(p + "=" + q) == TrimStart(p) + "=" + TrimEnd(q)
  {
    var P := TrimStart(p);
    assert p + "=" + q == p + ("=" + q);
    TrimStartAppend(p, "=" + q);
    assert P + ("=" + q) == (P + "=") + q;
    TrimEndPrepend(P + "=", q);
  }

  /** A line that trims to `P=Q`, with `P` a key part: the entry is `P` and `Q` trimmed. */
  lemma ParseSplitLine(line: string, P: string, Q: string)
    requires Trim(line) == P + "=" + Q
    requires P != "" && P[0] != '#' && '=' !in P
    ensures ParseLine(line) == Some(Entry(Trim(P), Unquote(Trim(Q))))
  {
    var t := Trim(line);
    SplitParts(t, P, Q);
    ParseLineAt(line, t, |P|);
    EntryAtParts(t, |P|);
  }

  /** The pieces of `P=Q` around the `=` that follows `P`. */
  lemma SplitParts(t: string, P: string, Q: string)
    requires t == P + "=" + Q && P != "" && '=' !in P
    ensures |P| < |t| && t[0] == P[0] && t[|P|] == '='
    ensures t[..|P|] == P && t[|P| + 1..] == Q
    ensures IndexOf(t, '=') == Some(|P|)
  {
    assert t[..|P|] == P;
    assert t[|P| + 1..] == Q;
    IndexOfFirst(t, '=', |P|);
  }

  /** A non-blank, non-comment line whose first `=` is at `k` parses around it. */
  lemma ParseLineAt(line: string, t: string, k: nat)
    requires t == Trim(line) && t != "" && t[0] != '#' && IndexOf(t, '=') == Some(k)
    ensures k < |t| && '=' !in t[..k]
    ensures ParseLine(line) == Some(EntryAt(t, k))
  {
  }

  /** The key is the trimmed text before the `=`, the value the trimmed, unquoted text after it. */
  lemma EntryAtParts(t: string, k: nat)
    requires k < |t| && '=' !in t[..k]
    ensures EntryAt(t, k) == Entry(Trim(t[..k]), Unquote(Trim(t[k + 1..])))
  {
  }

  /** The entries of a file, in line order. */
  function Entries(lines: seq<string>): (es: seq<Entry>)
    ensures |es| <= |lines|
    ensures |lines| == 1 && ParseLine(lines[0]).None? ==> es == []
    ensures |lines| == 1 && ParseLine(lines[0]).Some? ==> es == [ParseLine(lines[0]).value]
  {
    if |lines| == 0 then []
    else match ParseLine(lines[0])
      case None => Entries(lines[1..])
      case Some(e) => [e] + Entries(lines[1..])
  }

  /** Lines contribute their entries independently and in order. */
  lemma {:induction false} EntriesConcat(a: seq<string>, b: seq<string>)
    ensures Entries(a + b) == Entries(a) + Entries(b)
    decreases |a|
  {
    if |a| > 0 {
      EntriesCons(a[0], a[1..]);
      EntriesCons(a[0], a[1..] + b);
      EntriesConcat(a[1..], b);
      ConsAppend(a, b);
    } else {
      assert a + b == b;
    }
  }

  lemma ConsAppend(a: seq<string>, b: seq<string>)
    requires |a| > 0
    ensures a == [a[0]] + a[1..] && a + b == [a[0]] + (a[1..] + b)
  {
  }

  /** One line followed by more: its own entries come first. */
  lemma EntriesCons(x: string, rest: seq<string>)
    ensures Entries([x] + rest) == Entries([x]) + Entries(rest)
  {
    assert ([x] + rest)[0] == x && ([x] + rest)[1..] == rest;
  }

  /** `if (!process.env[key]) process.env[key] = val`. */
  function Apply(env: Db.Env, e: Entry): (r: Db.Env)
    ensures r.Keys == env.Keys + {e.key}
    ensures Db.Get(env, e.key) != "" ==> r == env
    ensures Db.Get(env, e.key) == "" ==> r == env[e.key := e.value]
  {
    if Db.Get(env, e.key) == "" then env[e.key := e.value] else env
  }

  function KeysOf(es: seq<Entry>): set<string> {
    set i | 0 <= i < |es| :: es[i].key
  }

  /** The entries applied from first to last. */
  function ApplyAll(es: seq<Entry>, env: Db.Env): (r: Db.Env)
    ensures r.Keys == env.Keys + KeysOf(es)
  {
    if |es| == 0 then env
    else
      var r := ApplyAll(es[1..], Apply(env, es[0]));
      assert KeysOf(es) == {es[0].key} + KeysOf(es[1..]) by {
        forall k | k in KeysOf(es) ensures k in {es[0].key} + KeysOf(es[1..]) {
          var i :| 0 <= i < |es| && es[i].key == k;
          if i > 0 { assert es[1..][i - 1] == es[i]; }
        }
      }
      r
  }

  /** `loadDotEnv`: a missing file leaves the environment as it is. */
  function LoadDotEnv(file: Option<string>, env: Db.Env): (r: Db.Env)
    ensures file.None? ==> r == env
    ensures env.Keys <= r.Keys
  {
    match file
    case None => env
    case Some(text) => ApplyAll(Entries(Tokenizer.SplitLines(text)), env)
  }

  /** The first non-empty value given to `k`, or "" when there is none. */
  function FirstValue(es: seq<Entry>, k: string): string {
    if |es| == 0 then ""
    else if es[0].key == k && es[0].value != "" then es[0].value
    else FirstValue(es[1..], k)
  }

  /**
   * What a variable ends up as: a non-empty value already in the
   * environment wins over the file, and otherwise the first non-empty value
   * the file gives it wins over later ones.
   */
  lemma {:induction false} ApplyAllGet(es: seq<Entry>, env: Db.Env, k: string)
    ensures Db.Get(ApplyAll(es, env), k) == if Db.Get(env, k) != "" then Db.Get(env, k) else FirstValue(es, k)
  {
    if |es| > 0 {
      ApplyAllGet(es[1..], Apply(env, es[0]), k);
    }
  }

  /** The seed script's start: `None` is its "Missing DATABASE_URL" exception. */
  function SeedUrl(file: Option<string>, env: Db.Env, encode: string -> string, formEncode: string -> string): (r: Option<string>)
    ensures var env1 := LoadDotEnv(file, env);
      r.None? <==> Db.Get(env1, "DATABASE_URL") == "" && !Db.PgVarsSet(env1)
  {
    Db.SelectUrl(LoadDotEnv(file, env), encode, formEncode)
  }
}
