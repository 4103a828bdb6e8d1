/**
 * The lottery admin page: reading the inline editor and the "new lottery"
 * form into a lottery record, and the guard in front of the create request.
 * Escaping and the status badge of the same page are in `Html`.
 *
 * A form is given as the raw text of its ten inputs; a missing input reads
 * as "" (the `?.value ?? ""` of both readers).
 */
module AdminLotteries {
  import opened Wrappers
  import opened Text
  import JsNumber

  datatype RawFields = RawFields(
    id: string, name: string, fee: string, status: string, joined: string, total: string,
    sortOrder: string, bankAccount: string, iban: string, bankHolder: string)

  datatype Lottery = Lottery(
    id: string, name: string, fee: int, status: string, joined: int, total: int,
    sortOrder: Option<int>, bankAccount: Option<string>, iban: Option<string>, bankHolder: Option<string>)

  /** `s || null` on trimmed text. */
  function OrNull(s: string): (r: Option<string>)
    ensures r.None? <==> s == ""
    ensures r.Some? ==> r.value == s
  {
    if s == "" then None else Some(s)
  }

  /** A bank field after normalisation: blank text becomes null, anything else is trimmed. */
  predicate BankFieldNormal(raw: string, v: Option<string>) {
    (v.None? <==> Trim(raw) == "") && (v.Some? ==> v.value == Trim(raw) && v.value != "" && IsTrimmed(v.value))
  }

  /** `String(raw).trim() || null`. */
  function BankField(raw: string): (v: Option<string>)
    ensures BankFieldNormal(raw, v)
  {
    OrNull(Trim(raw))
  }

  /** `String(raw).trim() || "open"`. */
  function Status(raw: string): (r: string)
    ensures r != "" && IsTrimmed(r)
    ensures r == "open" <==> Trim(raw) == "" || Trim(raw) == "open"
    ensures Trim(raw) != "" ==> r == Trim(raw)
  {
    var st := Trim(raw);
    if st != "" then st else "open"
  }

  /** A sort order is read only from non-blank text; blank text is null. */
  function SortOrder(raw: string): (r: Option<int>)
    ensures r.None? <==> Trim(raw) == ""
    ensures r.Some? ==> r.value == JsNumber.ToInt(Trim(raw), 0)
  {
    var so := Trim(raw);
    if so != "" then Some(JsNumber.ToInt(so, 0)) else None
  }

  /** The normalisation both readers share; `id` is the already prepared id. */
  function Normalize(id: string, f: RawFields): (l: Lottery)
    ensures l.id == id
    ensures IsTrimmed(l.name) && |l.name| <= |f.name| && l.name == Trim(f.name)
    ensures l.status == Status(f.status) && l.sortOrder == SortOrder(f.sortOrder)
    ensures l.fee == JsNumber.ToInt(f.fee, 0) && l.joined == JsNumber.ToInt(f.joined, 0)
    ensures l.total == JsNumber.ToInt(f.total, 0)
    ensures l.status != "" && IsTrimmed(l.status)
    ensures l.status == "open" <==> Trim(f.status) == "" || Trim(f.status) == "open"
    ensures l.sortOrder.None? <==> Trim(f.sortOrder) == ""
    ensures JsNumber.ToNumber(f.fee).None? ==> l.fee == 0
    ensures JsNumber.ToNumber(f.joined).None? ==> l.joined == 0
    ensures JsNumber.ToNumber(f.total).None? ==> l.total == 0
    ensures BankFieldNormal(f.bankAccount, l.bankAccount)
    ensures BankFieldNormal(f.iban, l.iban)
    ensures BankFieldNormal(f.bankHolder, l.bankHolder)
  {
    Lottery(
      id, Trim(f.name), JsNumber.ToInt(f.fee, 0), Status(f.status),
      JsNumber.ToInt(f.joined, 0), JsNumber.ToInt(f.total, 0), SortOrder(f.sortOrder),
      BankField(f.bankAccount), BankField(f.iban), BankField(f.bankHolder))
  }

  /** `getEditorValues`: the inline editor keeps the id as typed, only trimmed. */
  function EditorValues(f: RawFields): (l: Lottery)
    ensures IsTrimmed(l.id) && |l.id| <= |f.id| && l.id == Trim(f.id)
    ensures l == Normalize(l.id, f)
  {
    Normalize(Trim(f.id), f)
  }

  /** `readNewLotteryForm`: the new-lottery form trims and upper-cases the id. */
  function NewLotteryForm(f: RawFields): (l: Lottery)
    ensures |l.id| == |Trim(f.id)|
    ensures forall i :: 0 <= i < |l.id| ==> l.id[i] == UpperChar(Trim(f.id)[i])
    ensures l == Normalize(l.id, f)
  {
    Normalize(Upper(Trim(f.id)), f)
  }

  /** The two readers differ only in the id. */
  lemma ReadersDifferOnlyInId(f: RawFields)
    ensures NewLotteryForm(f) == EditorValues(f).(id := Upper(EditorValues(f).id))
  {
  }

  /** Whole-number inputs, whatever whitespace surrounds them, are read as their value. */
  lemma {:induction false} NumeralsRead(f: RawFields, fee: nat, joined: nat, total: nat)
    requires Trim(f.fee) == NatToString(fee)
    requires Trim(f.joined) == NatToString(joined)
    requires Trim(f.total) == NatToString(total)
    ensures var l := NewLotteryForm(f); l.fee == fee && l.joined == joined && l.total == total
  {
    JsNumber.TrimTwice(f.fee);
    JsNumber.TrimTwice(f.joined);
    JsNumber.TrimTwice(f.total);
    JsNumber.ToIntOfNat(fee, 0);
    JsNumber.ToIntOfNat(joined, 0);
    JsNumber.ToIntOfNat(total, 0);
    assert JsNumber.ToInt(f.fee, 0) == JsNumber.ToInt(Trim(f.fee), 0);
    assert JsNumber.ToInt(f.joined, 0) == JsNumber.ToInt(Trim(f.joined), 0);
    assert JsNumber.ToInt(f.total, 0) == JsNumber.ToInt(Trim(f.total), 0);
  }

  // ---------------------------------------------------------------------------
  // The create guard

  /** `[A-Z0-9_]`. */
  predicate IdChar(c: char) {
    IsUpperAscii(c) || IsDigit(c) || c == '_'
  }

  /** `^[A-Z0-9_]+$`. */
  predicate ValidId(id: string) {
    id != "" && forall i :: 0 <= i < |id| ==> IdChar(id[i])
  }

  /** What `submitCreateLottery` does with the form. */
  datatype Outcome = BadId | MissingName | Create(data: Lottery)

  /**
   * `submitCreateLottery`: the id is checked first, then the name; only a
   * form passing both sends the create request.
   */
  function SubmitCreate(f: RawFields): (r: Outcome)
    ensures r.Create? <==> ValidId(NewLotteryForm(f).id) && NewLotteryForm(f).name != ""
    ensures r.Create? ==> r.data == NewLotteryForm(f)
    ensures r.MissingName? ==> ValidId(NewLotteryForm(f).id)
  {
    var data := NewLotteryForm(f);
    if !ValidId(data.id) then BadId
    else if data.name == "" then MissingName
    else Create(data)
  }

  /** Upper-casing turns exactly the word characters into id characters. */
  lemma UpperIdChar(c: char)
    ensures IdChar(UpperChar(c)) <==> IsWordChar(c)
  {
  }

  /** An upper-cased text is a valid id exactly when the text is non-empty and all word characters. */
  lemma UpperValidId(t: string)
    ensures ValidId(Upper(t)) <==> t != "" && forall i :: 0 <= i < |t| ==> IsWordChar(t[i])
  {
    var u := Upper(t);
    forall i | 0 <= i < |t|
      ensures IdChar(u[i]) <==> IsWordChar(t[i])
    {
      UpperIdChar(t[i]);
    }
  }

  /**
   * Because the id is upper-cased before the check, the guard accepts a
   * typed id exactly when, once trimmed, it is non-empty and made of ASCII
   * letters of either case, digits and underscores, and the name is not
   * blank.
   */
  lemma SubmitAcceptsWordIds(f: RawFields)
    ensures SubmitCreate(f).Create? <==>
      Trim(f.id) != "" && (forall i :: 0 <= i < |Trim(f.id)| ==> IsWordChar(Trim(f.id)[i])) && Trim(f.name) != ""
  {
    UpperValidId(Trim(f.id));
  }
}
