/**
 * The admin preview page: the client copy of the row extractors, the match
 * classifier, the "keep latest per phone" reordering and the summary
 * counters. The tokenizer, phone and amount extractors are the server's.
 */
module Preview {
  import opened Wrappers
  import opened Text
  import Tokenizer
  import Extract

  /** One previewed row; absent values are "" rather than null, except the amount. */
  datatype PreviewTx = PreviewTx(
    id: string,
    phone: string,
    amount: Option<real>,
    date: string,
    desc: string,
    lotteryId: string,
    code: string,
    raw: Tokenizer.Row)

  // ---------------------------------------------------------------------------
  // Extractors

  /** The client `extractTxId`: digits of the last cell with at least nine digits, or "". */
  function ClientTxId(cells: seq<string>): (r: string)
    ensures r == "" || (|r| >= 9 && AllDigits(r))
    ensures r == "" <==> forall i :: 0 <= i < |cells| ==> |DigitsOnly(cells[i])| < 9
    ensures r != "" ==> exists i :: 0 <= i < |cells| && r == DigitsOnly(cells[i])
                          && forall j :: i < j < |cells| ==> |DigitsOnly(cells[j])| < 9
  {
    if |cells| == 0 then ""
    else
      var d := DigitsOnly(cells[|cells| - 1]);
      if |d| >= 9 then d
      else
        var init := cells[..|cells| - 1];
        assert forall i :: 0 <= i < |init| ==> init[i] == cells[i];
        ClientTxId(init)
  }

  /** The client and server transaction ids agree, "" standing for null. */
  lemma {:induction false} ClientTxIdAgrees(cells: seq<string>)
    ensures ClientTxId(cells) == Extract.ExtractTxId(cells).GetOr("")
    decreases |cells|
  {
    if |cells| > 0 {
      ClientTxIdAgrees(cells[..|cells| - 1]);
    }
  }

  /** `/\d{4}-\d{2}-\d{2}/`, `/\d{2}\.\d{2}\.\d{4}/` or `/\d{2}\/\d{2}\/\d{4}/` matches somewhere in `c`. */
  predicate HasClientDate(c: string) {
    Extract.HasShape(c, "####-##-##") || Extract.HasShape(c, "##.##.####") || Extract.HasShape(c, "##/##/####")
  }

  /** The first cell holding a date in any of the three shapes, or "". */
  function FirstDate(cells: seq<string>): (r: string)
    ensures r == "" <==> forall i :: 0 <= i < |cells| ==> !HasClientDate(cells[i])
    ensures r != "" ==> exists i :: 0 <= i < |cells| && cells[i] == r && HasClientDate(r)
                          && forall j :: 0 <= j < i ==> !HasClientDate(cells[j])
  {
    if |cells| == 0 then ""
    else if HasClientDate(cells[0]) then
      assert |cells[0]| >= 10;
      cells[0]
    else
      var r := FirstDate(cells[1..]);
      assert forall i :: 1 <= i < |cells| ==> cells[i] == cells[1..][i - 1];
      if r != "" then
        var k :| 0 <= k < |cells[1..]| && cells[1..][k] == r && HasClientDate(r)
                  && forall j :: 0 <= j < k ==> !HasClientDate(cells[1..][j]);
        assert cells[k + 1] == r;
        r
      else r
  }

  const ClientKnownCodes: seq<string> := ["L200", "HILUX", "P30"]

  /**
   * The client `extractLotteryId`: the first of L200, HILUX, P30 found in the
   * upper-cased text, else the first `\b[A-Z]{1,5}\d{1,4}\b`, else "".
   */
  function ClientLotteryId(rawText: string): (r: string)
    ensures forall i :: 0 <= i < |ClientKnownCodes| && Contains(Upper(rawText), ClientKnownCodes[i])
                          && (forall j :: 0 <= j < i ==> !Contains(Upper(rawText), ClientKnownCodes[j])) ==>
              r == ClientKnownCodes[i]
    ensures (exists i :: 0 <= i < |ClientKnownCodes| && Contains(Upper(rawText), ClientKnownCodes[i])) ==>
              r in ClientKnownCodes && Contains(Upper(rawText), r)
    ensures (forall i :: 0 <= i < |ClientKnownCodes| ==> !Contains(Upper(rawText), ClientKnownCodes[i])) ==>
              r == Extract.FirstCode(Upper(rawText), 5, 4).GetOr("")
  {
    var t := Upper(rawText);
    match Extract.FirstKnown(t, ClientKnownCodes)
    case Some(id) => id
    case None => Extract.FirstCode(t, 5, 4).GetOr("")
  }

  /**
   * When the text names L200, HILUX or P30 the client and the server pick
   * the same id: the server's list starts with the same three codes in the
   * same order, and the synonym table leaves them unchanged.
   */
  lemma LotteryIdAgrees(rawText: string)
    requires exists i :: 0 <= i < |ClientKnownCodes| && Contains(Upper(rawText), ClientKnownCodes[i])
    ensures Extract.ExtractLotteryId(rawText) == Some(ClientLotteryId(rawText))
  {
    var t := Upper(rawText);
    var f := Extract.FirstKnown(t, ClientKnownCodes);
    var i :| 0 <= i < |ClientKnownCodes| && ClientKnownCodes[i] == f.value && Contains(t, f.value)
               && forall j :: 0 <= j < i ==> !Contains(t, ClientKnownCodes[j]);
    assert forall j :: 0 <= j < 3 ==> Extract.KnownCodes[j] == ClientKnownCodes[j];
    assert Extract.Canonical(ClientKnownCodes[i]) == ClientKnownCodes[i];
  }

  /** The client `rowToTx`. */
  function RowToPreview(cells: Tokenizer.Row): (tx: PreviewTx)
    ensures tx.code == tx.phone && tx.raw == cells
    ensures tx.phone == "" || (|tx.phone| == 8 && AllDigits(tx.phone))
    ensures tx.desc == "" || tx.desc in cells
    ensures forall i :: 0 <= i < |cells| ==> |cells[i]| <= |tx.desc|
    ensures |DigitsOnly(Join(cells, " "))| >= 8 ==> tx.phone == DigitsOnly(Join(cells, " "))[..8]
    ensures tx.date == FirstDate(cells) && tx.lotteryId == ClientLotteryId(Join(cells, " "))
  {
    var joined := Join(cells, " ");
    var phone := Extract.NormalizePhone(joined);
    PreviewTx(
      ClientTxId(cells),
      phone,
      Extract.SelectAmount(cells),
      FirstDate(cells),
      Extract.LongestOf(cells, Extract.AnyCell, ""),
      ClientLotteryId(joined),
      phone,
      cells)
  }

  /** The longest cell, the first one on ties. */
  lemma PreviewDescFirstLongest(cells: Tokenizer.Row)
    requires RowToPreview(cells).desc != ""
    ensures exists i :: 0 <= i < |cells| && cells[i] == RowToPreview(cells).desc
              && forall j :: 0 <= j < i ==> |cells[j]| < |cells[i]|
    ensures forall j :: 0 <= j < |cells| ==> |cells[j]| <= |RowToPreview(cells).desc|
  {
    Extract.LongestOfFirst(cells, Extract.AnyCell, "");
  }

  /**
   * The preview and the import agree on id, phone and amount ("" standing
   * for null), and on the description when no cell has letters.
   */
  lemma PreviewAgreesWithImport(cells: Tokenizer.Row, toTimestamp: string -> Option<string>)
    ensures var c := RowToPreview(cells); var s := Extract.RowToTx(cells, toTimestamp);
      && c.id == s.txId.GetOr("")
      && c.phone == s.phone.GetOr("")
      && c.amount == s.amount
      && c.raw == s.raw
      && ((forall i :: 0 <= i < |cells| ==> !Extract.LetteredCell(cells[i])) ==> c.desc == s.desc)
  {
    ClientTxIdAgrees(cells);
    if forall i :: 0 <= i < |cells| ==> !Extract.LetteredCell(cells[i]) {
      assert Extract.LongestOf(cells, Extract.LetteredCell, "") == "";
    }
  }

  // ---------------------------------------------------------------------------
  // Classification

  datatype Status = Matched | WrongAmount | Unmatched

  /** The fee filter: the parsed fee when it is positive, else no filter. */
  function GetFee(raw: string): (r: Option<real>)
    ensures r.Some? ==> r.value > 0.0 && r == Extract.ParseAmount(raw)
    ensures r.None? <==> Extract.ParseAmount(raw).None? || Extract.ParseAmount(raw).value <= 0.0
  {
    var n := Extract.ParseAmount(raw);
    if n.Some? && n.value > 0.0 then n else None
  }

  function Abs(x: real): real {
    if x < 0.0 then -x else x
  }

  /** `classify`: no phone means unmatched; with a fee the amount must be within 0.0001 of it. */
  function Classify(tx: PreviewTx, fee: Option<real>): (s: Status)
    ensures s == Unmatched <==> tx.phone == ""
    ensures tx.phone != "" && fee.None? ==> s == Matched
    ensures tx.phone != "" && fee.Some? ==>
      (s == Matched <==> tx.amount.Some? && Abs(tx.amount.value - fee.value) < 0.0001)
  {
    if tx.phone == "" then Unmatched
    else if fee.Some? then
      if tx.amount.Some? && Abs(tx.amount.value - fee.value) < 0.0001 then Matched else WrongAmount
    else Matched
  }

  // ---------------------------------------------------------------------------
  // "Keep latest per phone"

  /** Position of the entry for `p` in the phone-keyed map. */
  function IndexOfPhone(m: seq<PreviewTx>, p: string): (r: Option<nat>)
    ensures r.Some? ==> r.value < |m| && m[r.value].phone == p
    ensures r.None? ==> forall i :: 0 <= i < |m| ==> m[i].phone != p
  {
    if |m| == 0 then None
    else if m[0].phone == p then Some(0)
    else
      var r := IndexOfPhone(m[1..], p);
      assert forall i :: 1 <= i < |m| ==> m[i] == m[1..][i - 1];
      if r.Some? then Some(r.value + 1) else None
  }

  /** `Map.set` keyed by phone: a known key keeps its position, a new key goes last. */
  function MapSet(m: seq<PreviewTx>, r: PreviewTx): seq<PreviewTx> {
    match IndexOfPhone(m, r.phone)
    case Some(i) => m[i := r]
    case None => m + [r]
  }

  /** The loop that fills the map with every record that has a phone. */
  function LatestByPhone(rows: seq<PreviewTx>): seq<PreviewTx>
    decreases |rows|
  {
    if |rows| == 0 then []
    else
      var m := LatestByPhone(rows[..|rows| - 1]);
      var x := rows[|rows| - 1];
      if x.phone == "" then m else MapSet(m, x)
  }

  /** Index of the first record with phone `p`. */
  function FirstWith(rows: seq<PreviewTx>, p: string): (r: Option<nat>)
    ensures r.Some? ==> r.value < |rows| && rows[r.value].phone == p
                        && forall j :: 0 <= j < r.value ==> rows[j].phone != p
    ensures r.None? ==> forall j :: 0 <= j < |rows| ==> rows[j].phone != p
    decreases |rows|
  {
    if |rows| == 0 then None
    else
      var init := rows[..|rows| - 1];
      var f := FirstWith(init, p);
      assert forall j :: 0 <= j < |init| ==> init[j] == rows[j];
      if f.Some? then f
      else if rows[|rows| - 1].phone == p then Some(|rows| - 1)
      else None
  }

  /** Index of the last record with phone `p`. */
  function LastWith(rows: seq<PreviewTx>, p: string): (r: Option<nat>)
    ensures r.Some? ==> r.value < |rows| && rows[r.value].phone == p
                        && forall j :: r.value < j < |rows| ==> rows[j].phone != p
    ensures r.None? ==> forall j :: 0 <= j < |rows| ==> rows[j].phone != p
    decreases |rows|
  {
    if |rows| == 0 then None
    else if rows[|rows| - 1].phone == p then Some(|rows| - 1)
    else
      var init := rows[..|rows| - 1];
      assert forall j :: 0 <= j < |init| ==> init[j] == rows[j];
      LastWith(init, p)
  }

  /** Every entry is the last record with its phone. */
  predicate EntriesAreLatest(rows: seq<PreviewTx>, m: seq<PreviewTx>) {
    forall i :: 0 <= i < |m| ==>
      m[i].phone != "" && LastWith(rows, m[i].phone).Some? && m[i] == rows[LastWith(rows, m[i].phone).value]
  }

  /** No phone has two entries. */
  predicate PhonesDistinct(m: seq<PreviewTx>) {
    forall i, j :: 0 <= i < j < |m| ==> m[i].phone != m[j].phone
  }

  predicate HasEntry(m: seq<PreviewTx>, p: string) {
    exists i :: 0 <= i < |m| && m[i].phone == p
  }

  /** Every phone that occurs has an entry. */
  predicate EveryPhoneKept(rows: seq<PreviewTx>, m: seq<PreviewTx>) {
    forall k :: 0 <= k < |rows| && rows[k].phone != "" ==> HasEntry(m, rows[k].phone)
  }

  /** Entries are ordered by the first occurrence of their phone. */
  predicate OrderedByFirstSeen(rows: seq<PreviewTx>, m: seq<PreviewTx>) {
    forall i, j :: 0 <= i < j < |m| ==>
      FirstWith(rows, m[i].phone).Some? && FirstWith(rows, m[j].phone).Some?
      && FirstWith(rows, m[i].phone).value < FirstWith(rows, m[j].phone).value
  }

  predicate LatestSpec(rows: seq<PreviewTx>, m: seq<PreviewTx>) {
    EntriesAreLatest(rows, m) && PhonesDistinct(m) && EveryPhoneKept(rows, m) && OrderedByFirstSeen(rows, m)
  }

  /** One more record moves the first and last positions of its own phone only. */
  lemma SnocPositions(rows: seq<PreviewTx>, init: seq<PreviewTx>, x: PreviewTx)
    requires rows == init + [x]
    ensures forall p :: p != x.phone ==> LastWith(rows, p) == LastWith(init, p)
    ensures LastWith(rows, x.phone) == Some(|init|)
    ensures forall p :: FirstWith(init, p).Some? ==> FirstWith(rows, p) == FirstWith(init, p)
    ensures FirstWith(init, x.phone).None? ==> FirstWith(rows, x.phone) == Some(|init|)
  {
    assert rows[..|rows| - 1] == init;
  }

  /**
   * The map after one record with a phone: the entry at `jx` is the record,
   * every other entry is unchanged and has another phone; `jx == |m0|` is an append.
   */
  predicate SetAt(m0: seq<PreviewTx>, x: PreviewTx, jx: nat, m: seq<PreviewTx>) {
    && jx <= |m0|
    && |m| == (if jx == |m0| then |m0| + 1 else |m0|)
    && m[jx] == x
    && (jx < |m0| ==> m0[jx].phone == x.phone)
    && (forall j :: 0 <= j < |m| && j != jx ==> j < |m0| && m[j] == m0[j])
    && (forall j :: 0 <= j < |m0| && j != jx ==> m0[j].phone != x.phone)
  }

  lemma MapSetIsSetAt(m0: seq<PreviewTx>, x: PreviewTx) returns (jx: nat)
    requires PhonesDistinct(m0)
    ensures SetAt(m0, x, jx, MapSet(m0, x))
  {
    match IndexOfPhone(m0, x.phone)
    case Some(i0) => jx := i0;
    case None => jx := |m0|;
  }

  lemma StepLatest(rows: seq<PreviewTx>, init: seq<PreviewTx>, x: PreviewTx, m0: seq<PreviewTx>, jx: nat, m: seq<PreviewTx>)
    requires rows == init + [x] && x.phone != "" && SetAt(m0, x, jx, m)
    requires EntriesAreLatest(init, m0)
    ensures EntriesAreLatest(rows, m)
  {
    SnocPositions(rows, init, x);
    forall i | 0 <= i < |m|
      ensures m[i].phone != "" && LastWith(rows, m[i].phone).Some? && m[i] == rows[LastWith(rows, m[i].phone).value]
    {
      if i != jx {
        var k := LastWith(init, m0[i].phone).value;
        assert rows[k] == init[k];
      }
    }
  }

  lemma StepDistinct(m0: seq<PreviewTx>, x: PreviewTx, jx: nat, m: seq<PreviewTx>)
    requires SetAt(m0, x, jx, m) && PhonesDistinct(m0)
    ensures PhonesDistinct(m)
  {
  }

  lemma StepKept(rows: seq<PreviewTx>, init: seq<PreviewTx>, x: PreviewTx, m0: seq<PreviewTx>, jx: nat, m: seq<PreviewTx>)
    requires rows == init + [x] && SetAt(m0, x, jx, m)
    requires EveryPhoneKept(init, m0)
    ensures EveryPhoneKept(rows, m)
  {
    forall k | 0 <= k < |rows| && rows[k].phone != "" ensures HasEntry(m, rows[k].phone) {
      if k < |init| {
        assert rows[k] == init[k];
        var j :| 0 <= j < |m0| && m0[j].phone == init[k].phone;
        assert m[j].phone == rows[k].phone;
      } else {
        assert m[jx].phone == rows[k].phone;
      }
    }
  }

  lemma StepOrdered(rows: seq<PreviewTx>, init: seq<PreviewTx>, x: PreviewTx, m0: seq<PreviewTx>, jx: nat, m: seq<PreviewTx>)
    requires rows == init + [x] && x.phone != "" && SetAt(m0, x, jx, m)
    requires EntriesAreLatest(init, m0) && EveryPhoneKept(init, m0) && OrderedByFirstSeen(init, m0)
    ensures OrderedByFirstSeen(rows, m)
  {
    SnocPositions(rows, init, x);
    // every entry's phone occurs before the new record
    forall i | 0 <= i < |m0| ensures FirstWith(init, m0[i].phone).Some? {
      assert init[LastWith(init, m0[i].phone).value].phone == m0[i].phone;
    }
    if jx == |m0| {
      // a phone new to the map has not occurred before
      assert FirstWith(init, x.phone).None?;
    }
    forall i, j | 0 <= i < j < |m|
      ensures FirstWith(rows, m[i].phone).Some? && FirstWith(rows, m[j].phone).Some?
        && FirstWith(rows, m[i].phone).value < FirstWith(rows, m[j].phone).value
    {
      if i != jx && j != jx {
        assert m[i] == m0[i] && m[j] == m0[j];
      } else if jx < |m0| {
        assert m[i].phone == m0[i].phone && m[j].phone == m0[j].phone;
      } else {
        assert m[i] == m0[i];
      }
    }
  }

  /** A record without a phone changes neither the map nor what it must satisfy. */
  lemma StepNoPhone(rows: seq<PreviewTx>, init: seq<PreviewTx>, x: PreviewTx, m0: seq<PreviewTx>)
    requires rows == init + [x] && x.phone == ""
    requires LatestSpec(init, m0)
    ensures LatestSpec(rows, m0)
  {
    SnocPositions(rows, init, x);
    forall k | 0 <= k < |init| ensures rows[k] == init[k] { }
    forall i | 0 <= i < |m0| ensures FirstWith(init, m0[i].phone).Some? {
      assert init[LastWith(init, m0[i].phone).value].phone == m0[i].phone;
    }
  }

  lemma {:induction false} LatestByPhoneSpec(rows: seq<PreviewTx>)
    ensures LatestSpec(rows, LatestByPhone(rows))
    decreases |rows|
  {
    if |rows| > 0 {
      var init := rows[..|rows| - 1];
      var x := rows[|rows| - 1];
      assert rows == init + [x];
      var m0 := LatestByPhone(init);
      LatestByPhoneSpec(init);
      var m := LatestByPhone(rows);
      if x.phone == "" {
        assert m == m0;
        StepNoPhone(rows, init, x, m0);
      } else {
        var jx := MapSetIsSetAt(m0, x);
        assert m == MapSet(m0, x);
        StepLatest(rows, init, x, m0, jx, m);
        StepDistinct(m0, x, jx, m);
        StepKept(rows, init, x, m0, jx, m);
        StepOrdered(rows, init, x, m0, jx, m);
      }
    }
  }

  /** The records without a phone, in their original order. */
  function NoPhone(rows: seq<PreviewTx>): (r: seq<PreviewTx>)
    ensures forall i :: 0 <= i < |r| ==> r[i].phone == "" && r[i] in rows
    ensures forall i :: 0 <= i < |rows| && rows[i].phone == "" ==> rows[i] in r
    ensures |rows| == 1 ==> r == (if rows[0].phone == "" then rows else [])
  {
    if |rows| == 0 then []
    else
      var rest := NoPhone(rows[1..]);
      assert forall i :: 1 <= i < |rows| ==> rows[i] == rows[1..][i - 1];
      if rows[0].phone == "" then [rows[0]] + rest else rest
  }

  /** The filter keeps the original order: it distributes over concatenation. */
  lemma {:induction false} NoPhoneConcat(a: seq<PreviewTx>, b: seq<PreviewTx>)
    ensures NoPhone(a + b) == NoPhone(a) + NoPhone(b)
    decreases |a|
  {
    if |a| > 0 {
      assert (a + b)[1..] == a[1..] + b;
      NoPhoneConcat(a[1..], b);
    } else {
      assert a + b == b;
    }
  }

  /** A list where every record has a phone leaves nothing; one where none has, everything. */
  lemma {:induction false} NoPhoneExtremes(rows: seq<PreviewTx>)
    ensures (forall i :: 0 <= i < |rows| ==> rows[i].phone != "") ==> NoPhone(rows) == []
    ensures (forall i :: 0 <= i < |rows| ==> rows[i].phone == "") ==> NoPhone(rows) == rows
  {
    if |rows| > 0 {
      assert forall i :: 1 <= i < |rows| ==> rows[1..][i - 1] == rows[i];
      NoPhoneExtremes(rows[1..]);
      assert [rows[0]] + rows[1..] == rows;
    }
  }

  /** `out.filter(r => !r.phone || keptPhones.has(r.phone))`. */
  function KnownOrNoPhone(rows: seq<PreviewTx>, m: seq<PreviewTx>): seq<PreviewTx> {
    if |rows| == 0 then []
    else
      var rest := KnownOrNoPhone(rows[1..], m);
      if rows[0].phone == "" || IndexOfPhone(m, rows[0].phone).Some? then [rows[0]] + rest else rest
  }

  /** Every phone is a key of the map, so the first filter keeps every record. */
  lemma {:induction false} KnownFilterKeepsAll(rows: seq<PreviewTx>, m: seq<PreviewTx>)
    requires EveryPhoneKept(rows, m)
    ensures KnownOrNoPhone(rows, m) == rows
  {
    if |rows| > 0 {
      assert forall k :: 1 <= k < |rows| ==> rows[1..][k - 1] == rows[k];
      KnownFilterKeepsAll(rows[1..], m);
      if rows[0].phone != "" {
        var j :| 0 <= j < |m| && m[j].phone == rows[0].phone;
      }
    }
  }

  /** The dedupe select: "latest" reorders, any other value leaves the list as it is. */
  function Dedupe(rows: seq<PreviewTx>, mode: string): seq<PreviewTx> {
    if mode == "latest" then
      var m := LatestByPhone(rows);
      var out := KnownOrNoPhone(rows, m);
      m + NoPhone(out)
    else rows
  }

  /**
   * "latest": one record per distinct phone, the last one with that phone,
   * ordered by each phone's first occurrence, then every phone-less record
   * in its original order.
   */
  lemma DedupeLatest(rows: seq<PreviewTx>)
    ensures var m := LatestByPhone(rows);
      && Dedupe(rows, "latest") == m + NoPhone(rows)
      && EntriesAreLatest(rows, m) && PhonesDistinct(m) && EveryPhoneKept(rows, m) && OrderedByFirstSeen(rows, m)
  {
    LatestByPhoneSpec(rows);
    KnownFilterKeepsAll(rows, LatestByPhone(rows));
  }

  lemma DedupeOff(rows: seq<PreviewTx>, mode: string)
    requires mode != "latest"
    ensures Dedupe(rows, mode) == rows
  {
  }

  /** The distinct non-empty phones of a list. */
  function PhoneSet(rows: seq<PreviewTx>): set<string> {
    set i | 0 <= i < |rows| && rows[i].phone != "" :: rows[i].phone
  }

  /** Deduplicating never changes which phones are shown. */
  lemma DedupeKeepsPhones(rows: seq<PreviewTx>, mode: string)
    ensures PhoneSet(Dedupe(rows, mode)) == PhoneSet(rows)
  {
    if mode == "latest" {
      DedupeLatest(rows);
      var m := LatestByPhone(rows);
      var out := m + NoPhone(rows);
      forall p | p in PhoneSet(out) ensures p in PhoneSet(rows) {
        var i :| 0 <= i < |out| && out[i].phone != "" && out[i].phone == p;
        assert i < |m|;
        var k := LastWith(rows, m[i].phone).value;
        assert rows[k].phone == p;
      }
      forall p | p in PhoneSet(rows) ensures p in PhoneSet(out) {
        var k :| 0 <= k < |rows| && rows[k].phone != "" && rows[k].phone == p;
        var i :| 0 <= i < |m| && m[i].phone == p;
        assert out[i].phone == p;
      }
    }
  }

  // ---------------------------------------------------------------------------
  // Counters

  /** The number of records classified as matched. */
  function CountMatched(rows: seq<PreviewTx>, fee: Option<real>): (n: nat)
    ensures n <= |rows|
    ensures n == 0 <==> forall i :: 0 <= i < |rows| ==> Classify(rows[i], fee) != Matched
    ensures n == |rows| <==> forall i :: 0 <= i < |rows| ==> Classify(rows[i], fee) == Matched
  {
    if |rows| == 0 then 0
    else
      assert forall i :: 1 <= i < |rows| ==> rows[1..][i - 1] == rows[i];
      (if Classify(rows[0], fee) == Matched then 1 else 0) + CountMatched(rows[1..], fee)
  }

  /** Counting is additive over concatenation. */
  lemma {:induction false} CountMatchedConcat(a: seq<PreviewTx>, b: seq<PreviewTx>, fee: Option<real>)
    ensures CountMatched(a + b, fee) == CountMatched(a, fee) + CountMatched(b, fee)
    decreases |a|
  {
    if |a| > 0 {
      assert (a + b)[1..] == a[1..] + b;
      CountMatchedConcat(a[1..], b, fee);
    } else {
      assert a + b == b;
    }
  }

  /** The three counters under the table. */
  datatype Summary = Summary(rowsCount: nat, matched: nat, phones: nat)

  /**
   * `renderTable`'s counters: rows counts the input before deduplication,
   * matched is taken over the deduplicated list before the "only matched"
   * display filter, phones counts the distinct non-empty phones.
   */
  function Summarize(rows: seq<PreviewTx>, mode: string, fee: Option<real>): (s: Summary)
    ensures s.rowsCount == |rows|
    ensures s.matched == CountMatched(Dedupe(rows, mode), fee) && s.matched <= |Dedupe(rows, mode)|
    ensures s.phones == |PhoneSet(rows)|
  {
    var out := Dedupe(rows, mode);
    DedupeKeepsPhones(rows, mode);
    Summary(|rows|, CountMatched(out, fee), |PhoneSet(out)|)
  }

  /** Matched records are exactly those with a phone when there is no fee. */
  lemma {:induction false} MatchedWithoutFee(rows: seq<PreviewTx>)
    ensures CountMatched(rows, None) == |rows| - |NoPhone(rows)|
  {
    if |rows| > 0 {
      MatchedWithoutFee(rows[1..]);
    }
  }

  /**
   * Without a fee filter the matched counter is the number of records with
   * a phone; after "latest" deduplication, the number of distinct phones'
   * entries.
   */
  lemma SummaryWithoutFee(rows: seq<PreviewTx>, mode: string)
    ensures mode != "latest" ==> Summarize(rows, mode, None).matched == |rows| - |NoPhone(rows)|
    ensures mode == "latest" ==> Summarize(rows, mode, None).matched == |LatestByPhone(rows)|
  {
    MatchedWithoutFee(Dedupe(rows, mode));
    if mode == "latest" {
      DedupeLatest(rows);
      var m := LatestByPhone(rows);
      NoPhoneConcat(m, NoPhone(rows));
      NoPhoneExtremes(m);
      NoPhoneExtremes(NoPhone(rows));
    }
  }
}
