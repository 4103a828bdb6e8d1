/**
 * The public lottery page: phone normalisation, the transfer value shown to
 * the payer, the eight-digit gate in front of the transaction lookup, the
 * filter that picks the rows shown under the phone field, and the picture
 * chosen for a lottery. DOM building, timers and `fetch` are not modelled;
 * the fetch is represented by the state transitions it causes.
 */
module App {
  import opened Wrappers
  import opened Text
  import Extract

  function Min(a: nat, b: nat): nat {
    if a <= b then a else b
  }

  // ---------------------------------------------------------------------------
  // Phone and transfer value

  /**
   * The page's `normalizePhone`: the digits of the input, cut to eight. A
   * missing input (`raw || ""`) is the empty string.
   */
  function NormalizePhone(raw: string): (r: string)
    ensures AllDigits(r) && |r| <= 8
    ensures |r| == Min(8, |DigitsOnly(raw)|)
    ensures r == DigitsOnly(raw)[..|r|]
  {
    var digits := DigitsOnly(raw);
    if |digits| <= 8 then digits else digits[..8]
  }

  /** Normalising twice is normalising once. */
  lemma NormalizeIdempotent(raw: string)
    ensures NormalizePhone(NormalizePhone(raw)) == NormalizePhone(raw)
  {
  }

  /**
   * The page agrees with the server's phone extraction whenever the server
   * finds a phone, and the server finds none exactly when the page's
   * normal form is shorter than eight digits.
   */
  lemma NormalizeAgreesWithServer(raw: string)
    ensures Extract.NormalizePhone(raw) == "" <==> |NormalizePhone(raw)| < 8
    ensures Extract.NormalizePhone(raw) != "" ==> NormalizePhone(raw) == Extract.NormalizePhone(raw)
  {
  }

  const FallbackTransfer: string := "99112233"

  /** `getTransferValue`: the normalised phone, or a fixed number when there are no digits. */
  function TransferValue(statePhone: string): (r: string)
    ensures AllDigits(r) && 1 <= |r| <= 8
    ensures DigitsOnly(statePhone) == "" ==> r == FallbackTransfer
    ensures DigitsOnly(statePhone) != "" ==> |r| <= |DigitsOnly(statePhone)| && r == DigitsOnly(statePhone)[..|r|]
    ensures DigitsOnly(statePhone) != "" ==> r == NormalizePhone(statePhone)
  {
    var p := NormalizePhone(statePhone);
    if p != "" then p else FallbackTransfer
  }

  // ---------------------------------------------------------------------------
  // Transaction lookup state

  /** One row of `/api/transactions` as the page receives it. */
  datatype TxRow = TxRow(id: string, date: string, amount: Option<real>, phone: Option<string>, desc: string)

  /** `state.tx`. */
  datatype TxState = TxState(phone: string, loading: bool, error: string, rows: seq<TxRow>)

  const EmptyTx: TxState := TxState("", false, "", [])

  /** What `scheduleFetchTransactions` decides: start a lookup for a phone after a delay, or none. */
  datatype Action = FetchAfter(phone: string, delayMs: nat) | NoFetch

  /**
   * `scheduleFetchTransactions`: a normalised phone of exactly eight digits
   * schedules a lookup and leaves the state alone; anything shorter clears
   * the lookup state.
   */
  function Schedule(phoneRaw: string, st: TxState): (r: (Action, TxState))
    ensures r.0.FetchAfter? <==> |DigitsOnly(phoneRaw)| >= 8
    ensures r.0.FetchAfter? ==> r.0.phone == DigitsOnly(phoneRaw)[..8] && r.0.delayMs == 250 && r.1 == st
    ensures r.0.NoFetch? ==> r.1 == EmptyTx
  {
    var phone := NormalizePhone(phoneRaw);
    if |phone| != 8 then (NoFetch, EmptyTx)
    else (FetchAfter(phone, 250), st)
  }

  /** The state `fetchTransactions` sets before its request. */
  function FetchStarted(phone: string): (st: TxState)
    ensures st.phone == phone && st.loading && st.rows == [] && st.error == ""
  {
    TxState(phone, true, "", [])
  }

  /** The outcome of the request, applied on top of the started state. */
  /** A failed reply carries the body's `error` field ("" when absent) and the HTTP status. */
  datatype Reply = Rows(rows: seq<TxRow>) | HttpError(bodyError: string, status: nat) | NetworkError | Aborted

  /**
   * The state after the reply: rows on success, an error message on a
   * failed reply or a network error, and no change when the request was
   * aborted by a newer one.
   */
  function FetchDone(st: TxState, reply: Reply): (r: TxState)
    ensures r.phone == st.phone
    ensures reply.Aborted? ==> r == st
    ensures !reply.Aborted? ==> !r.loading
    ensures reply.Rows? ==> r.rows == reply.rows && r.error == ""
    ensures reply.HttpError? || reply.NetworkError? ==> r.rows == []
    ensures reply.HttpError? && reply.bodyError != "" ==> r.error == reply.bodyError
    ensures reply.HttpError? && reply.bodyError == "" ==> r.error == "http_" + NatToString(reply.status)
    ensures !reply.Aborted? ==> (r.error == "" <==> reply.Rows?)
    ensures reply.NetworkError? ==> r.error == "network_error"
  {
    match reply
    case Rows(rows) => st.(loading := false, error := "", rows := rows)
    case HttpError(e, code) =>
      st.(loading := false, error := if e != "" then e else "http_" + NatToString(code), rows := [])
    case NetworkError => st.(loading := false, error := "network_error", rows := [])
    case Aborted => st
  }

  // ---------------------------------------------------------------------------
  // Rows shown under the phone field

  /** `rows.filter((r) => (r.phone || "") === phone)`. */
  function WithPhone(rows: seq<TxRow>, phone: string): (r: seq<TxRow>)
    ensures |r| <= |rows|
    ensures forall i :: 0 <= i < |r| ==> r[i].phone.GetOr("") == phone && r[i] in rows
    ensures forall i :: 0 <= i < |rows| && rows[i].phone.GetOr("") == phone ==> rows[i] in r
    ensures |rows| == 1 ==> r == (if rows[0].phone.GetOr("") == phone then rows else [])
  {
    if |rows| == 0 then []
    else if rows[0].phone.GetOr("") == phone then [rows[0]] + WithPhone(rows[1..], phone)
    else WithPhone(rows[1..], phone)
  }

  /** Filtering distributes over concatenation, so the shown rows are the earliest matches. */
  lemma {:induction false} WithPhoneConcat(a: seq<TxRow>, b: seq<TxRow>, phone: string)
    ensures WithPhone(a + b, phone) == WithPhone(a, phone) + WithPhone(b, phone)
  {
    if |a| == 0 {
      assert a + b == b;
    } else {
      assert (a + b)[1..] == a[1..] + b;
      WithPhoneConcat(a[1..], b, phone);
    }
  }

  /**
   * The `mine` list of `renderPhoneTransactions`: up to eight rows whose
   * phone equals the normalised input, and only when the lookup state
   * belongs to that phone.
   */
  function Mine(statePhone: string, tx: TxState): (r: seq<TxRow>)
    ensures |r| <= 8
    ensures forall i :: 0 <= i < |r| ==> r[i].phone.GetOr("") == NormalizePhone(statePhone) && r[i] in tx.rows
    ensures r != [] ==> NormalizePhone(statePhone) != "" && tx.phone == NormalizePhone(statePhone)
    ensures NormalizePhone(statePhone) != "" && tx.phone == NormalizePhone(statePhone) ==>
      |r| == Min(8, |WithPhone(tx.rows, tx.phone)|) && r == WithPhone(tx.rows, tx.phone)[..|r|]
  {
    var phone := NormalizePhone(statePhone);
    if phone != "" && tx.phone == phone then
      var m := WithPhone(tx.rows, phone);
      if |m| <= 8 then m else m[..8]
    else []
  }

  /** What the box under the phone field displays. */
  datatype View = Prompt | Loading | Failed(message: string) | NoRows | Table(rows: seq<TxRow>)

  /**
   * The branch order of `renderPhoneTransactions`: a prompt without a phone,
   * then the loading and error notes of a lookup for this phone, then the
   * first eight rows carrying the phone, or "no rows" when there are none or
   * the state belongs to another phone.
   */
  function Render(statePhone: string, tx: TxState): (v: View)
    ensures v.Prompt? <==> NormalizePhone(statePhone) == ""
    ensures v.Loading? || v.Failed? ==> tx.phone == NormalizePhone(statePhone)
    ensures v.Table? ==> v.rows == Mine(statePhone, tx) && v.rows != [] && !tx.loading && tx.error == ""
    ensures var phone := NormalizePhone(statePhone);
      phone != "" && tx.loading && tx.phone == phone ==> v == Loading
    ensures var phone := NormalizePhone(statePhone);
      phone != "" && !tx.loading && tx.error != "" && tx.phone == phone ==> v == Failed(tx.error)
    ensures var phone := NormalizePhone(statePhone);
      phone != "" && tx.phone != phone ==> v == NoRows
    ensures var phone := NormalizePhone(statePhone);
      phone != "" && tx.phone == phone && !tx.loading && tx.error == "" ==>
        var m := WithPhone(tx.rows, phone);
        v == (if m == [] then NoRows else Table(m[..Min(8, |m|)]))
  {
    var phone := NormalizePhone(statePhone);
    var mine := Mine(statePhone, tx);
    if phone == "" then Prompt
    else if tx.loading && tx.phone == phone then Loading
    else if tx.error != "" && tx.phone == phone then Failed(tx.error)
    else if mine == [] then NoRows
    else Table(mine)
  }

  /**
   * The gate and the filter together: once the scheduled lookup for the
   * typed phone returns rows, the page shows the first eight of them that
   * carry that phone; a phone with fewer than eight digits never shows rows.
   */
  lemma ScheduledLookupShows(phoneRaw: string, st: TxState, rows: seq<TxRow>)
    ensures var (a, st1) := Schedule(phoneRaw, st);
      a.FetchAfter? ==>
        var done := FetchDone(FetchStarted(a.phone), Rows(rows));
        var m := WithPhone(rows, a.phone);
        Mine(phoneRaw, done) == m[..Min(8, |m|)] &&
        Render(phoneRaw, done) == (if m == [] then NoRows else Table(m[..Min(8, |m|)]))
    ensures var (a, st1) := Schedule(phoneRaw, st);
      a.NoFetch? ==> Mine(phoneRaw, st1) == [] && !Render(phoneRaw, st1).Table?
  {
  }

  // ---------------------------------------------------------------------------
  // Lottery pictures

  const Land200Image: string := "./assets/car-land200.svg"
  const HiluxImage: string := "./assets/car-hilux.svg"
  const PriusImage: string := "./assets/car-prius.svg"

  /** `imgForLottery`: a picture per known lottery id, the Land 200 picture otherwise. */
  function ImageFor(id: string): (r: string)
    ensures r in {Land200Image, HiluxImage, PriusImage}
    ensures r == HiluxImage <==> id == "HILUX"
    ensures r == PriusImage <==> id == "P30"
    ensures r == Land200Image <==> id != "HILUX" && id != "P30"
  {
    if id == "L200" then Land200Image
    else if id == "HILUX" then HiluxImage
    else if id == "P30" then PriusImage
    else Land200Image
  }
}
