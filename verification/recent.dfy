/**
 * The public "recent transactions" endpoint: the `limit` query parameter,
 * phone masking, the mapping of database rows to response rows, and the
 * order of the handler's early exits. The database query itself is not
 * modelled: the rows it returns are a parameter.
 */
module Recent {
  import opened Wrappers
  import opened Text
  import JsNumber

  // ---------------------------------------------------------------------------
  // Phone masking

  /**
   * `maskPhone`: "" unless the phone is exactly eight ASCII digits, and then
   * its first four digits followed by four asterisks.
   */
  function MaskPhone(phone: Option<string>): (r: string)
    ensures var p := phone.GetOr("");
      r == "" <==> !(|p| == 8 && AllDigits(p))
    ensures var p := phone.GetOr("");
      r != "" ==> |r| == 8 && r[..4] == p[..4] && r[4..] == "****"
  {
    var p := phone.GetOr("");
    if |p| == 8 && AllDigits(p) then p[..4] + "****" else ""
  }

  /** A masked phone never reveals the last four digits: phones sharing a prefix mask alike. */
  lemma MaskHidesSuffix(p: string, q: string)
    requires |p| == 8 && AllDigits(p) && |q| == 8 && AllDigits(q)
    requires p[..4] == q[..4]
    ensures MaskPhone(Some(p)) == MaskPhone(Some(q))
  {
  }

  // ---------------------------------------------------------------------------
  // The `limit` parameter

  /**
   * The `limit` entry of the query object: absent, one string, or anything
   * that is not a string (a repeated parameter arrives as an array).
   */
  datatype QueryValue = Missing | Text(s: string) | NotString

  const DefaultLimit: real := 20.0

  /**
   * `QuerySchema.limit`: absent or empty gives 20, other text goes through
   * `Number`, and the result must be finite and between 1 and 50; `None`
   * is the "invalid_query" rejection. Fractions are not rejected.
   */
  function Limit(q: QueryValue): (r: Option<real>)
    ensures q.Missing? || q == Text("") ==> r == Some(DefaultLimit)
    ensures q.NotString? ==> r.None?
    ensures r.Some? ==> 1.0 <= r.value <= 50.0
    ensures q.Text? && q.s != "" ==>
      (r.Some? <==> JsNumber.ToNumber(q.s).Some? && 1.0 <= JsNumber.ToNumber(q.s).value <= 50.0)
  {
    var n :=
      match q
      case Missing => Some(DefaultLimit)
      case Text(s) => if s == "" then Some(DefaultLimit) else JsNumber.ToNumber(s)
      case NotString => None;
    if n.Some? && 1.0 <= n.value <= 50.0 then n else None
  }

  /** A whole-number limit is accepted exactly in the range 1 to 50. */
  lemma LimitOfNat(n: nat)
    ensures Limit(Text(NatToString(n))) == (if 1 <= n <= 50 then Some(n as real) else None)
  {
    JsNumber.NumberOfNat(n);
  }

  /**
   * A decimal limit such as `2.5` is accepted exactly when its value lies
   * in the range: non-integers are not rejected.
   */
  lemma LimitOfDecimal(w: string, f: string)
    requires |w| >= 1 && AllDigits(w) && AllDigits(f)
    ensures var v := DecimalValue(w, f);
      Limit(Text(w + "." + f)) == (if 1.0 <= v <= 50.0 then Some(v) else None)
  {
    JsNumber.NumberOfDecimal(w, f);
  }

  // ---------------------------------------------------------------------------
  // Row mapping

  /**
   * A database row: every column may be null. `date` is kept abstract; its
   * formatting is a parameter of the mapping.
   */
  datatype DbRow<D> = DbRow(
    id: Option<string>, date: Option<D>, amount: Option<real>,
    phone: Option<string>, desc: Option<string>, lotteryId: Option<string>)

  datatype RecentRow = RecentRow(
    id: string, date: string, amount: Option<real>, phoneMasked: string, lotteryId: string, desc: string)

  /** The `r.rows.map(...)` step: nulls become "", the amount stays nullable, the phone is masked. */
  function ToRecent<D>(x: DbRow<D>, formatDate: D -> string): (r: RecentRow)
    ensures r.id == x.id.GetOr("") && r.lotteryId == x.lotteryId.GetOr("") && r.desc == x.desc.GetOr("")
    ensures x.date.None? ==> r.date == ""
    ensures x.date.Some? ==> r.date == formatDate(x.date.value)
    ensures r.amount == x.amount
    ensures r.phoneMasked == MaskPhone(x.phone)
    ensures r.phoneMasked == "" || (|r.phoneMasked| == 8 && r.phoneMasked[4..] == "****")
    ensures x.phone.Some? && |x.phone.value| == 8 && AllDigits(x.phone.value) ==>
              r.phoneMasked[..4] == x.phone.value[..4]
  {
    RecentRow(
      x.id.GetOr(""),
      match x.date case Some(d) => formatDate(d) case None => "",
      x.amount,
      MaskPhone(x.phone),
      x.lotteryId.GetOr(""),
      x.desc.GetOr(""))
  }

  // ---------------------------------------------------------------------------
  // The handler

  datatype Response =
    | MethodNotAllowed
    | RateLimited
    | InvalidQuery
    | Ok(limit: real, rows: seq<RecentRow>)

  /**
   * The handler's order of checks: method, then the rate limiter's verdict,
   * then the query; only then are the rows (the query's result, given here)
   * mapped.
   */
  function Handle<D>(httpMethod: string, allowed: bool, q: QueryValue, rows: seq<DbRow<D>>, formatDate: D -> string): (r: Response)
    ensures r.MethodNotAllowed? <==> httpMethod != "GET"
    ensures r.RateLimited? <==> httpMethod == "GET" && !allowed
    ensures r.InvalidQuery? <==> httpMethod == "GET" && allowed && Limit(q).None?
    ensures r.Ok? ==> Limit(q) == Some(r.limit) && |r.rows| == |rows|
    ensures r.Ok? ==> forall i :: 0 <= i < |rows| ==> r.rows[i] == ToRecent(rows[i], formatDate)
  {
    if httpMethod != "GET" then MethodNotAllowed
    else if !allowed then RateLimited
    else match Limit(q)
      case None => InvalidQuery
      case Some(n) => Ok(n, seq(|rows|, i requires 0 <= i < |rows| => ToRecent(rows[i], formatDate)))
  }
}
