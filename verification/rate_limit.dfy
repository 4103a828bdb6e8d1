/**
 * The fixed-window rate limiter of the API. Every limiter shares one
 * module-level map from client key to bucket, so the map is threaded
 * through as state; the clock reading `now` is a parameter.
 */
module RateLimit {
  import opened Wrappers
  import opened Text

  // ---------------------------------------------------------------------------
  // Client key

  /** The `x-forwarded-for` header as the request object holds it. */
  datatype Header = Absent | One(v: string) | Many(vs: seq<string>)

  /** `s.split(",")[0]`: the text before the first comma. */
  function FirstEntry(s: string): (r: string)
    ensures ',' !in r
  {
    Split(s, ',')[0]
  }

  /** The first entry is the prefix of `s` that stops at the first comma or at the end. */
  lemma {:induction false} FirstEntryIsPrefix(s: string)
    ensures |FirstEntry(s)| <= |s| && s[..|FirstEntry(s)|] == FirstEntry(s)
    ensures |FirstEntry(s)| < |s| ==> s[|FirstEntry(s)|] == ','
  {
    if |s| > 0 && s[0] != ',' {
      FirstEntryIsPrefix(s[1..]);
      assert FirstEntry(s) == [s[0]] + FirstEntry(s[1..]);
    }
  }

  /**
   * `keyFor`: the trimmed first entry of `x-forwarded-for` (of its first
   * element when it is a list), else the socket address, else "unknown".
   * `None` is the exception an empty list raises.
   */
  function KeyFor(xf: Header, remote: Option<string>): (r: Option<string>)
    ensures r.None? <==> xf == Many([])
    ensures r.Some? ==> r.value != ""
    ensures r.Some? && xf.One? && Trim(FirstEntry(xf.v)) != "" ==> r.value == Trim(FirstEntry(xf.v)) && ',' !in r.value
    ensures r.Some? && (xf.Absent? || (xf.One? && Trim(FirstEntry(xf.v)) == "")) ==>
      r.value == (if remote.GetOr("") != "" then remote.value else "unknown")
    ensures xf.Many? && |xf.vs| > 0 && Trim(FirstEntry(xf.vs[0])) != "" ==> r == Some(Trim(FirstEntry(xf.vs[0])))
    ensures xf.Many? && |xf.vs| > 0 && Trim(FirstEntry(xf.vs[0])) == "" ==>
      r == Some(if remote.GetOr("") != "" then remote.value else "unknown")
  {
    var raw :=
      match xf
      case Absent => Some("")
      case One(v) => Some(v)
      case Many(vs) => if |vs| == 0 then None else Some(vs[0]);
    match raw
    case None => None
    case Some(h) =>
      var ip := Trim(FirstEntry(h));
      TrimNoComma(FirstEntry(h));
      if ip != "" then Some(ip)
      else if remote.GetOr("") != "" then remote
      else Some("unknown")
  }

  /** Trimming keeps only characters that were there, so a comma-free text stays comma-free. */
  lemma TrimNoComma(s: string)
    requires ',' !in s
    ensures ',' !in Trim(s)
  {
    TrimIsSlice(s);
  }

  // ---------------------------------------------------------------------------
  // Buckets

  datatype Bucket = Bucket(start: int, count: nat)

  type Buckets = map<string, Bucket>

  /**
   * One request through a limiter with `windowMs` and `max`: a key seen for
   * the first time, or whose window has strictly run out, starts a fresh
   * window at `now`; the count then goes up by one whether or not the
   * request is allowed, and the request is allowed while the count is at
   * most `max`.
   */
  function Hit(buckets: Buckets, key: string, now: int, windowMs: int, max: int): (r: (Buckets, bool))
    ensures r.0.Keys == buckets.Keys + {key}
    ensures forall k :: k in buckets && k != key ==> r.0[k] == buckets[k]
    ensures key !in buckets ==> r.0[key] == Bucket(now, 1)
    ensures key in buckets && now - buckets[key].start > windowMs ==> r.0[key] == Bucket(now, 1)
    ensures key in buckets && now - buckets[key].start <= windowMs ==>
      r.0[key] == Bucket(buckets[key].start, buckets[key].count + 1)
    ensures r.1 <==> r.0[key].count <= max
  {
    var b := if key in buckets then buckets[key] else Bucket(now, 0);
    var b := if now - b.start > windowMs then Bucket(now, 0) else b;
    var b := b.(count := b.count + 1);
    (buckets[key := b], b.count <= max)
  }

  /** A key's first request is allowed exactly when `max` is at least one. */
  lemma FirstRequest(buckets: Buckets, key: string, now: int, windowMs: int, max: int)
    requires key !in buckets
    ensures Hit(buckets, key, now, windowMs, max).1 <==> max >= 1
  {
  }

  /**
   * Limiters with different settings still share one count per key: a
   * request through one limiter counts against the other.
   */
  lemma LimitersShareCount(buckets: Buckets, key: string, now: int, w1: int, m1: int, w2: int, m2: int)
    requires key !in buckets && w2 >= 0
    ensures var b1 := Hit(buckets, key, now, w1, m1).0;
      Hit(b1, key, now, w2, m2).0[key] == Bucket(now, 2)
  {
  }

  /** The limiter applied to a request: `None` when `keyFor` throws. */
  function Limit(buckets: Buckets, xf: Header, remote: Option<string>, now: int, windowMs: int, max: int): (r: Option<(Buckets, bool)>)
    ensures r.None? <==> KeyFor(xf, remote).None?
    ensures r.Some? ==> r.value == Hit(buckets, KeyFor(xf, remote).value, now, windowMs, max)
  {
    match KeyFor(xf, remote)
    case None => None
    case Some(key) => Some(Hit(buckets, key, now, windowMs, max))
  }

  // ---------------------------------------------------------------------------
  // Runs of requests

  /** Requests from one key at the given times, in order: the final map and each verdict. */
  function Replay(buckets: Buckets, key: string, times: seq<int>, windowMs: int, max: int): (r: (Buckets, seq<bool>))
    ensures |r.1| == |times|
    ensures r.0.Keys == buckets.Keys + (if |times| == 0 then {} else {key})
    ensures forall k :: k in buckets && k != key ==> r.0[k] == buckets[k]
    decreases |times|
  {
    if |times| == 0 then (buckets, [])
    else
      var (b1, ok) := Hit(buckets, key, times[0], windowMs, max);
      var (b2, oks) := Replay(b1, key, times[1..], windowMs, max);
      (b2, [ok] + oks)
  }

  /**
   * Inside one window, a bucket holding `c` requests lets the k-th further
   * request (counting from zero) through exactly when `c + k + 1 <= max`,
   * and denied requests still count.
   */
  lemma {:induction false} ReplayWithinWindow(buckets: Buckets, key: string, times: seq<int>, windowMs: int, max: int)
    requires key in buckets
    requires forall i :: 0 <= i < |times| ==> times[i] - buckets[key].start <= windowMs
    ensures var (b, oks) := Replay(buckets, key, times, windowMs, max);
      b[key] == buckets[key].(count := buckets[key].count + |times|) &&
      forall k :: 0 <= k < |times| ==> (oks[k] <==> buckets[key].count + k + 1 <= max)
  {
    if |times| > 0 {
      var (b1, ok) := Hit(buckets, key, times[0], windowMs, max);
      ReplayWithinWindow(b1, key, times[1..], windowMs, max);
      var (b2, oks) := Replay(b1, key, times[1..], windowMs, max);
      assert Replay(buckets, key, times, windowMs, max) == (b2, [ok] + oks);
    }
  }

  /**
   * A new key whose requests all fall within `windowMs` of its first one:
   * the k-th request (counting from one) is allowed exactly when `k <= max`.
   */
  lemma FreshKeyWindow(buckets: Buckets, key: string, times: seq<int>, windowMs: int, max: int)
    requires key !in buckets && |times| >= 1
    requires forall i :: 0 <= i < |times| ==> times[i] - times[0] <= windowMs
    ensures var (b, oks) := Replay(buckets, key, times, windowMs, max);
      b[key] == Bucket(times[0], |times|) &&
      forall k :: 0 <= k < |times| ==> (oks[k] <==> k + 1 <= max)
  {
    var (b1, ok) := Hit(buckets, key, times[0], windowMs, max);
    ReplayWithinWindow(b1, key, times[1..], windowMs, max);
    var (b2, oks) := Replay(b1, key, times[1..], windowMs, max);
    assert Replay(buckets, key, times, windowMs, max) == (b2, [ok] + oks);
  }
}
