/**
 * The merge loop of the server import handler: each candidate transaction
 * is skipped as noise, upserted by its bank transaction id with partial-field
 * (`coalesce`) semantics, or appended when it has no id. The `transactions`
 * table is a map keyed by `tx_id` plus an append-only list of id-less rows.
 */
module Ledger {
  import opened Wrappers
  import opened Text
  import Tokenizer
  import Extract

  /** One row of the `transactions` table (`imported_at` is left out). */
  datatype Entry = Entry(
    txId: Option<string>,
    occurredAt: Option<string>,
    amount: Option<real>,
    phone: Option<string>,
    description: Option<string>,
    lotteryId: Option<string>,
    raw: Tokenizer.Row)

  /** Rows with a `tx_id` (unique) and the rows inserted without one, in insertion order. */
  datatype Store = Store(keyed: map<string, Entry>, appended: seq<Entry>)

  /** The fields an import writes: `null` means "no new value". */
  datatype Patch = Patch(
    occurredAt: Option<string>,
    amount: Option<real>,
    phone: Option<string>,
    description: Option<string>,
    lotteryId: Option<string>,
    raw: Tokenizer.Row)

  /** No phone, no transaction id and no amount: the row is skipped. */
  predicate IsNoise(t: Extract.Tx) {
    t.phone.None? && t.txId.None? && t.amount.None?
  }

  /** The values bound to the insert statement; `desc` is a string, never null. */
  function PatchOf(t: Extract.Tx): Patch {
    Patch(t.occurredAt, t.amount, t.phone, Some(t.desc), t.lotteryId, t.raw)
  }

  /** A freshly inserted row. */
  function NewEntry(id: Option<string>, t: Extract.Tx): Entry {
    Entry(id, t.occurredAt, t.amount, t.phone, Some(t.desc), t.lotteryId, t.raw)
  }

  /**
   * `on conflict (tx_id) do update`: every field but `raw` keeps its stored
   * value exactly when the new one is null; `raw` is always replaced.
   */
  function Overlay(e: Entry, p: Patch): (r: Entry)
    ensures r.txId == e.txId && r.raw == p.raw
    ensures r.occurredAt == (if p.occurredAt.None? then e.occurredAt else p.occurredAt)
    ensures r.amount == (if p.amount.None? then e.amount else p.amount)
    ensures r.phone == (if p.phone.None? then e.phone else p.phone)
    ensures r.description == (if p.description.None? then e.description else p.description)
    ensures r.lotteryId == (if p.lotteryId.None? then e.lotteryId else p.lotteryId)
  {
    Entry(e.txId,
      Coalesce(p.occurredAt, e.occurredAt),
      Coalesce(p.amount, e.amount),
      Coalesce(p.phone, e.phone),
      Coalesce(p.description, e.description),
      Coalesce(p.lotteryId, e.lotteryId),
      p.raw)
  }

  /** Two imports one after the other, as one patch: the later non-null value wins. */
  function Compose(p: Patch, q: Patch): Patch {
    Patch(
      Coalesce(q.occurredAt, p.occurredAt),
      Coalesce(q.amount, p.amount),
      Coalesce(q.phone, p.phone),
      Coalesce(q.description, p.description),
      Coalesce(q.lotteryId, p.lotteryId),
      q.raw)
  }

  lemma OverlayCompose(e: Entry, p: Patch, q: Patch)
    ensures Overlay(Overlay(e, p), q) == Overlay(e, Compose(p, q))
  {
  }

  lemma ComposeIdempotent(p: Patch)
    ensures Compose(p, p) == p
  {
  }

  lemma ComposeAssociative(p: Patch, q: Patch, u: Patch)
    ensures Compose(Compose(p, q), u) == Compose(p, Compose(q, u))
  {
  }

  /** The row stored under `k` after one upsert of `t`. */
  function Upsert(stored: Option<Entry>, k: string, t: Extract.Tx): (r: Entry)
    ensures stored.None? ==> r == NewEntry(Some(k), t)
    ensures stored.Some? ==> r == Overlay(stored.value, PatchOf(t))
  {
    match stored
    case None => NewEntry(Some(k), t)
    case Some(e) => Overlay(e, PatchOf(t))
  }

  /** An insert is an overlay onto an empty row. */
  lemma InsertIsOverlay(k: string, t: Extract.Tx)
    ensures NewEntry(Some(k), t) == Overlay(Entry(Some(k), None, None, None, None, None, []), PatchOf(t))
  {
  }

  function Lookup(m: map<string, Entry>, k: string): Option<Entry> {
    if k in m then Some(m[k]) else None
  }

  /** One iteration of the merge loop. */
  function Step(s: Store, t: Extract.Tx): (r: Store)
    ensures IsNoise(t) ==> r == s
    ensures t.txId.Some? ==>
      r.appended == s.appended
      && r.keyed.Keys == s.keyed.Keys + {t.txId.value}
      && r.keyed[t.txId.value] == Upsert(Lookup(s.keyed, t.txId.value), t.txId.value, t)
      && forall k :: k in s.keyed && k != t.txId.value ==> r.keyed[k] == s.keyed[k]
    ensures !IsNoise(t) && t.txId.None? ==> r.keyed == s.keyed && r.appended == s.appended + [NewEntry(None, t)]
  {
    if IsNoise(t) then s
    else
      match t.txId
      case Some(k) => Store(s.keyed[k := Upsert(Lookup(s.keyed, k), k, t)], s.appended)
      case None => Store(s.keyed, s.appended + [NewEntry(None, t)])
  }

  /** Upserting an existing id: partial-field semantics, and the description always replaced. */
  lemma UpsertExisting(s: Store, t: Extract.Tx)
    requires t.txId.Some? && t.txId.value in s.keyed
    ensures var e := s.keyed[t.txId.value]; var n := Step(s, t).keyed[t.txId.value];
      && n.txId == e.txId
      && (n.occurredAt == e.occurredAt <== t.occurredAt.None?) && (t.occurredAt.Some? ==> n.occurredAt == t.occurredAt)
      && (n.amount == e.amount <== t.amount.None?) && (t.amount.Some? ==> n.amount == t.amount)
      && (n.phone == e.phone <== t.phone.None?) && (t.phone.Some? ==> n.phone == t.phone)
      && (n.lotteryId == e.lotteryId <== t.lotteryId.None?) && (t.lotteryId.Some? ==> n.lotteryId == t.lotteryId)
      && n.description == Some(t.desc)
      && n.raw == t.raw
  {
  }

  /** The outcome of the merge loop: the store and the two counters. */
  datatype MergeResult = MergeResult(store: Store, inserted: nat, skipped: nat)

  function Merge(s: Store, txs: seq<Extract.Tx>): (r: MergeResult)
    ensures r.inserted + r.skipped == |txs|
    decreases |txs|
  {
    if |txs| == 0 then MergeResult(s, 0, 0)
    else
      var r := Merge(Step(s, txs[0]), txs[1..]);
      if IsNoise(txs[0]) then MergeResult(r.store, r.inserted, r.skipped + 1)
      else MergeResult(r.store, r.inserted + 1, r.skipped)
  }

  /** The noise rows of a batch. */
  function Noise(txs: seq<Extract.Tx>): (r: seq<Extract.Tx>)
    ensures |r| <= |txs|
    ensures forall i :: 0 <= i < |r| ==> IsNoise(r[i])
  {
    if |txs| == 0 then []
    else if IsNoise(txs[0]) then [txs[0]] + Noise(txs[1..])
    else Noise(txs[1..])
  }

  /** The batch with its noise rows removed. */
  function WithoutNoise(txs: seq<Extract.Tx>): (r: seq<Extract.Tx>)
    ensures |r| + |Noise(txs)| == |txs|
    ensures forall i :: 0 <= i < |r| ==> !IsNoise(r[i])
  {
    if |txs| == 0 then []
    else if IsNoise(txs[0]) then WithoutNoise(txs[1..])
    else [txs[0]] + WithoutNoise(txs[1..])
  }

  /** The rows a batch appends: the non-noise rows without an id, in order. */
  function Appends(txs: seq<Extract.Tx>): seq<Entry> {
    if |txs| == 0 then []
    else if !IsNoise(txs[0]) && txs[0].txId.None? then [NewEntry(None, txs[0])] + Appends(txs[1..])
    else Appends(txs[1..])
  }

  /** The rows of a batch that carry the id `k`, in order. */
  function RowsFor(txs: seq<Extract.Tx>, k: string): (r: seq<Extract.Tx>)
    ensures forall i :: 0 <= i < |r| ==> r[i].txId == Some(k)
    ensures |r| == 0 <==> forall i :: 0 <= i < |txs| ==> txs[i].txId != Some(k)
  {
    if |txs| == 0 then []
    else
      var rest := RowsFor(txs[1..], k);
      assert forall i :: 1 <= i < |txs| ==> txs[i] == txs[1..][i - 1];
      if txs[0].txId == Some(k) then [txs[0]] + rest else rest
  }

  /** The successive upserts of one id, starting from what is stored. */
  function Fold(stored: Option<Entry>, k: string, rows: seq<Extract.Tx>): Option<Entry>
    decreases |rows|
  {
    if |rows| == 0 then stored
    else Fold(Some(Upsert(stored, k, rows[0])), k, rows[1..])
  }

  /** The counters: every row is counted once, and exactly the noise rows are skipped. */
  lemma {:induction false} MergeCounts(s: Store, txs: seq<Extract.Tx>)
    ensures Merge(s, txs).skipped == |Noise(txs)|
    ensures Merge(s, txs).inserted == |WithoutNoise(txs)|
    decreases |txs|
  {
    if |txs| > 0 {
      MergeCounts(Step(s, txs[0]), txs[1..]);
    }
  }

  /** Id-less rows are appended in order, and nothing else is. */
  lemma {:induction false} MergeAppends(s: Store, txs: seq<Extract.Tx>)
    ensures Merge(s, txs).store.appended == s.appended + Appends(txs)
    decreases |txs|
  {
    if |txs| > 0 {
      MergeAppends(Step(s, txs[0]), txs[1..]);
    }
  }

  /** The keyed rows after the batch: each id's row is the fold of that id's upserts. */
  lemma {:induction false} MergeKeyed(s: Store, txs: seq<Extract.Tx>, k: string)
    ensures Lookup(Merge(s, txs).store.keyed, k) == Fold(Lookup(s.keyed, k), k, RowsFor(txs, k))
    decreases |txs|
  {
    if |txs| > 0 {
      var t := txs[0];
      MergeKeyed(Step(s, t), txs[1..], k);
    }
  }

  /** Noise rows never reach the table. */
  lemma {:induction false} NoiseNeverWritten(s: Store, txs: seq<Extract.Tx>)
    ensures Merge(s, txs).store == Merge(s, WithoutNoise(txs)).store
    decreases |txs|
  {
    if |txs| > 0 {
      NoiseNeverWritten(Step(s, txs[0]), txs[1..]);
      if !IsNoise(txs[0]) {
        var w := WithoutNoise(txs);
        assert w[0] == txs[0] && w[1..] == WithoutNoise(txs[1..]);
      }
    }
  }

  /** The composed patch of a non-empty run of upserts. */
  function Composed(rows: seq<Extract.Tx>): Patch
    requires |rows| > 0
  {
    if |rows| == 1 then PatchOf(rows[0]) else Compose(PatchOf(rows[0]), Composed(rows[1..]))
  }

  /** A run of upserts on a stored row is one overlay of the composed patch. */
  lemma {:induction false} FoldIsOverlay(e: Entry, k: string, rows: seq<Extract.Tx>)
    requires |rows| > 0
    ensures Fold(Some(e), k, rows) == Some(Overlay(e, Composed(rows)))
    decreases |rows|
  {
    if |rows| > 1 {
      FoldIsOverlay(Overlay(e, PatchOf(rows[0])), k, rows[1..]);
      OverlayCompose(e, PatchOf(rows[0]), Composed(rows[1..]));
    }
  }

  /** Replaying a run of upserts changes nothing. */
  lemma FoldIdempotent(stored: Option<Entry>, k: string, rows: seq<Extract.Tx>)
    ensures Fold(Fold(stored, k, rows), k, rows) == Fold(stored, k, rows)
  {
    if |rows| > 0 {
      var e := Upsert(stored, k, rows[0]);
      var once := Fold(stored, k, rows);
      if |rows| == 1 {
        FoldIsOverlay(e, k, rows);
        OverlayCompose(e, PatchOf(rows[0]), PatchOf(rows[0]));
        ComposeIdempotent(PatchOf(rows[0]));
      } else {
        var base := if stored.Some? then stored.value else Entry(Some(k), None, None, None, None, None, []);
        InsertIsOverlay(k, rows[0]);
        assert e == Overlay(base, PatchOf(rows[0]));
        var p := Composed(rows);
        assert Composed(rows) == Compose(PatchOf(rows[0]), Composed(rows[1..]));
        FoldIsOverlay(e, k, rows[1..]);
        OverlayCompose(base, PatchOf(rows[0]), Composed(rows[1..]));
        assert once == Some(Overlay(base, p));
        FoldIsOverlay(Overlay(base, p), k, rows);
        OverlayCompose(base, p, p);
        ComposeIdempotent(p);
      }
    }
  }

  /** Importing the same batch twice leaves the keyed rows as one import does. */
  lemma ReimportKeyed(s: Store, txs: seq<Extract.Tx>)
    ensures Merge(Merge(s, txs).store, txs).store.keyed == Merge(s, txs).store.keyed
  {
    var once := Merge(s, txs).store;
    var twice := Merge(once, txs).store;
    forall k ensures Lookup(twice.keyed, k) == Lookup(once.keyed, k) {
      MergeKeyed(once, txs, k);
      MergeKeyed(s, txs, k);
      FoldIdempotent(Lookup(s.keyed, k), k, RowsFor(txs, k));
    }
    forall k | k in twice.keyed ensures k in once.keyed { assert Lookup(twice.keyed, k).Some?; }
    forall k | k in once.keyed ensures k in twice.keyed { assert Lookup(once.keyed, k).Some?; }
    forall k | k in once.keyed ensures twice.keyed[k] == once.keyed[k] { assert Lookup(twice.keyed, k) == Lookup(once.keyed, k); }
  }

  /** The request body's `text` must hold between 1 and 2 000 000 characters. */
  const MaxBody: nat := 2_000_000

  datatype ImportOutcome = InvalidBody | Imported(store: Store, inserted: nat, skipped: nat, total: nat)

  /** One candidate record per parsed row, in row order. */
  function Candidates(text: string, toTimestamp: string -> Option<string>): (txs: seq<Extract.Tx>)
    ensures |txs| == |Tokenizer.ParseRows(text)|
    ensures forall i :: 0 <= i < |txs| ==> txs[i] == Extract.RowToTx(Tokenizer.ParseRows(text)[i], toTimestamp)
  {
    var rows := Tokenizer.ParseRows(text);
    seq(|rows|, i requires 0 <= i < |rows| => Extract.RowToTx(rows[i], toTimestamp))
  }

  /**
   * The handler after authentication: validate the body, parse the rows,
   * build one candidate per row and merge them into the table.
   */
  function Import(s: Store, text: string, toTimestamp: string -> Option<string>): (r: ImportOutcome)
    ensures r.InvalidBody? <==> |text| < 1 || |text| > MaxBody
    ensures r.Imported? ==> r.inserted + r.skipped == r.total == |Tokenizer.ParseRows(text)|
    ensures r.Imported? ==> r.store == Merge(s, Candidates(text, toTimestamp)).store
    ensures r.Imported? ==> r.skipped == |Noise(Candidates(text, toTimestamp))|
  {
    if |text| < 1 || |text| > MaxBody then InvalidBody
    else
      var txs := Candidates(text, toTimestamp);
      var m := Merge(s, txs);
      MergeCounts(s, txs);
      Imported(m.store, m.inserted, m.skipped, |txs|)
  }

  /** Importing the same statement text twice leaves the keyed rows as one import does. */
  lemma ImportTwiceKeyed(s: Store, text: string, toTimestamp: string -> Option<string>)
    requires 1 <= |text| <= MaxBody
    ensures Import(s, text, toTimestamp).Imported?
    ensures Import(Import(s, text, toTimestamp).store, text, toTimestamp).store.keyed
            == Import(s, text, toTimestamp).store.keyed
  {
    ReimportKeyed(s, Candidates(text, toTimestamp));
  }
}
