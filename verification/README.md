# aztan: bank-statement reconciliation, modelled in Dafny

aztan sells lottery entries that are paid by bank transfer. The transfer's
description carries the payer's eight-digit phone number. An administrator
pastes or uploads a bank statement as CSV or TSV text. The server import
splits it into rows and cells, extracts a candidate transaction from every
row, and merges the candidates into the `transactions` table. The merge
upserts by bank transaction id and keeps stored values when the new ones are
null. An admin page previews the same extraction before import. It classifies
each row as Matched, Wrong amount or Unmatched against a fee, and it can keep
only the latest row per phone.

Around this pipeline sit several smaller pieces:

- the public "recent transactions" endpoint, which masks phones;
- the fixed-window rate limiter shared by all endpoints;
- the choice of Postgres connection string and TLS mode;
- the `.env` loader of the seed script and dev server;
- the dev server's request routing;
- the customer page's phone lookup state machine;
- the admin lottery form readers.

The model is one Dafny module per component:

| module | file | component |
|---|---|---|
| `Wrappers` | wrappers.dfy | `Option`, and `coalesce` |
| `Text` | text.dfy | JS string primitives: `\s`, `trim`, `split`, `join`, `replace(/\D/g,"")`, ASCII case mapping |
| `JsNumber` | js_number.dfy | the decimal, hexadecimal, octal, binary and exponent subset of `Number(string)`, and `Math.trunc` |
| `Tokenizer` | tokenizer.dfy | delimiter guess, quoted-CSV line splitting, row parsing |
| `Extract` | extract.dfy | phone, amount, transaction id, date, description and lottery code of a row |
| `Ledger` | ledger.dfy | the import handler's skip / upsert / append merge |
| `Preview` | preview.dfy | the admin preview: client extractors, classifier, dedupe, counters |
| `Html` | html.dfy | `escapeHtml` and the status badge |
| `AmountFormat` | amount_format.dfy | `formatAmount`, i.e. `toFixed(2)` plus thousands separators |
| `RateLimit` | rate_limit.dfy | `keyFor` and the shared buckets |
| `Recent` | recent.dfy | `limit` validation, phone masking, the response rows |
| `Db` | db.dfy | `buildDatabaseUrlFromPgEnv`, `DATABASE_URL` precedence, `getPool` |
| `DotEnv` | dotenv.dfy | `loadDotEnv` and the seed script's URL selection |
| `DevServer` | dev_server.dfy | API handler lookup, `..` stripping, content types |
| `App` | app.dfy | the customer page's phone normalisation, lookup scheduling and rendering branch |
| `AdminLotteries` | admin_lotteries.dfy | the lottery editor and create-form readers, and the create guard |

The tokenizer and the extractors are duplicated between the server import and
the admin page. They are modelled once, in `Tokenizer` and `Extract`. The
places where the two copies differ live in `Preview`:

- missing values are "" rather than null;
- the client's date patterns differ;
- the client's description is the longest cell;
- the client has its own list of lottery codes.

Where the source's behaviour is not what its prose suggests, the model follows
the code:

- The amount is the first cell whose value is at least 10 and that has a dot
  or is at least 1000. If no cell is like that, the amount is the LAST
  accepted cell, not the first.
- The phone is the first eight digits of ALL the digits of the whole row,
  joined with spaces. It is not an eight-digit run inside one cell.
- The server's timestamp is taken from the first cell that contains a
  `YYYY-MM-DD` date. The date-and-time pattern adds nothing, because a cell
  that matches it also matches the plain date pattern.

## Model

| member | source | states |
|---|---|---|
| Tokenizer.SplitLines | api/admin/transactions/import.js:74 | splitting on `\r?\n` gives one more piece than there are newlines, and no piece holds a newline |
| Tokenizer.SplitLinesPlain | api/admin/transactions/import.js:74 | without carriage returns the lines are the `\n`-pieces, and joining them with `\n` gives the text back |
| Tokenizer.SplitLinesCrlf | api/admin/transactions/import.js:74 | lines joined with CRLF split back into exactly those lines: each `\r` before a break is dropped with it |
| Tokenizer.GuessDelimiter | api/admin/transactions/import.js:30-40 | the delimiter is one of tab, comma, semicolon, pipe, and is the most frequent of them in the first 20 lines; ties go to the earlier candidate; tab when none occurs |
| Tokenizer.SampleOfPlain | api/admin/transactions/import.js:31-39 | in a table rendered with delimiter d and no other candidate character, the sample counts d and nothing else |
| Tokenizer.SplitLine | api/admin/transactions/import.js:42-68 | at least one cell; without the quoted path, joining the cells with the delimiter gives the line back |
| Tokenizer.SplitLineLoop | api/admin/transactions/import.js:42-68 | the index loop with its quote state and `i++` skip computes the same cells as the recursive definition |
| Tokenizer.QuotedRoundTrip | api/admin/transactions/import.js:42-68 | a row written as CSV, with every cell quoted and inner quotes doubled, splits back into exactly its cells |
| Tokenizer.EmptyQuotesVanish | api/admin/transactions/import.js:50-57 | outside quotes, `""` opens and closes a quote and adds nothing to the cell |
| Tokenizer.TrimAll | api/admin/transactions/import.js:75 | every cell is trimmed, cell for cell |
| Tokenizer.NonBlank | api/admin/transactions/import.js:74 | every kept line is a non-blank input line; a single line is kept exactly when it is non-blank |
| Tokenizer.NonBlankConcat | api/admin/transactions/import.js:74 | the filter distributes over concatenation, so kept lines stay in input order |
| Tokenizer.NonBlankKeeps | api/admin/transactions/import.js:74 | every non-blank line is kept |
| Tokenizer.ParseRows | api/admin/transactions/import.js:70-76 | a blank or BOM-only text gives no rows; otherwise one row per non-blank line of the trimmed text, namely that line's trimmed cells under the delimiter guessed from the whole text; every row has a cell |
| Tokenizer.ParseRender | api/admin/transactions/import.js:70-76 | a table of plain cells rendered with any candidate delimiter parses back to the same table |
| Extract.NormalizePhone | api/admin/transactions/import.js:14-18 | the first eight digits of the text's digits, or "" when it has fewer than eight |
| Extract.StripSpacesAndCommas | api/admin/transactions/import.js:23 | removing spaces and commas keeps every digit, in order |
| Extract.ParseAmount | api/admin/transactions/import.js:20-28 | a number exactly when the text has a digit |
| Extract.ParseAmountDigits | api/admin/transactions/import.js:20-28 | a digit string reads as its decimal value |
| Extract.ParseAmountDecimal | api/admin/transactions/import.js:20-28 | `w.f` reads as w plus f over 10 to the length of f |
| Extract.AmountRule | api/admin/transactions/import.js:123-130 | `SelectAmount`, the loop, gives the first amount-shaped cell (at least 10, with a dot or at least 1000); failing that, the last accepted cell (at least 10); it is null only when no cell is accepted |
| Extract.ExtractTxId | api/admin/transactions/import.js:91-97 | null exactly when every cell has fewer than nine digits; otherwise the digits of a cell, at least nine of them |
| Extract.DateTimeHasDate | api/admin/transactions/import.js:101-102 | a cell with date and time also has a date, so the second pattern decides |
| Extract.ExtractDateTime | api/admin/transactions/import.js:99-105 | null exactly when no cell has a `YYYY-MM-DD` date; otherwise a cell with one |
| Extract.LongestOfFirst | api/admin/transactions/import.js:134-140 | the kept cell is the first cell of maximal length among the cells that pass the filter: it passes, and every earlier passing cell is strictly shorter (`LongestOf` adds that no passing cell is longer) |
| Extract.Description | api/admin/transactions/import.js:132-141 | a cell of the row or ""; the longest cell with letters when there is one, otherwise at least as long as every cell |
| Extract.FirstKnown | api/admin/transactions/import.js:81-86 | null exactly when the text contains no known code; otherwise the first code in list order that the text contains |
| Extract.CodeAt | api/admin/transactions/import.js:87 | the code match at a position is unique: 1 to 8 upper-case letters, then 1 to 4 digits, between word boundaries |
| Extract.FirstCodeIsLeftmostMatch | api/admin/transactions/import.js:87-88 | `FirstCode`, the regex result, is the leftmost match, and null means there is no match anywhere |
| Extract.ExtractLotteryId | api/admin/transactions/import.js:77-89 | the first code in list order (L200, HILUX, P30, LAND200, LC200, PRIUS30) that the upper-cased text contains, mapped through the synonym table; with none, the first code-shaped word of up to 8 letters and 4 digits; null exactly when there is neither |
| Extract.CanonicalRange | api/admin/transactions/import.js:79-85 | every known code and alias maps to L200, HILUX or P30 |
| Extract.RowToTx | api/admin/transactions/import.js:117-145 | the phone is the first eight digits of the row joined by spaces, null exactly when there are fewer than eight; id, amount, description and lottery id are those of their extractors (at least nine digits, at least 10, a cell); the timestamp is the converted first date, null without one; raw is the row |
| Ledger.Overlay | api/admin/transactions/import.js:179-186 | each stored column takes the new value unless that is null; `raw` is always replaced; the id is kept |
| Ledger.OverlayCompose | api/admin/transactions/import.js:179-186 | two upserts in a row act as one upsert of the combined patch |
| Ledger.ComposeIdempotent | api/admin/transactions/import.js:179-186 | applying a patch twice equals applying it once |
| Ledger.ComposeAssociative | api/admin/transactions/import.js:179-186 | combining patches is associative |
| Ledger.Upsert | api/admin/transactions/import.js:175-189 | a new id inserts the row; an existing id is overlaid with the row's values |
| Ledger.InsertIsOverlay | api/admin/transactions/import.js:177-188 | an insert is the overlay of the row on an empty record |
| Ledger.Step | api/admin/transactions/import.js:167-200 | a noise row changes nothing; a row with an id touches only that key; a row without one is appended and leaves the keyed rows alone |
| Ledger.UpsertExisting | api/admin/transactions/import.js:179-185 | on conflict, a null new value keeps the stored one |
| Ledger.Merge | api/admin/transactions/import.js:164-200 | inserted plus skipped is the number of candidates |
| Ledger.MergeCounts | api/admin/transactions/import.js:168-199 | skipped counts the noise rows and inserted counts all the others |
| Ledger.MergeAppends | api/admin/transactions/import.js:194-199 | the id-less rows are appended in order |
| Ledger.MergeKeyed | api/admin/transactions/import.js:175-191 | each key ends as its stored row overlaid by the batch's rows with that id, in order |
| Ledger.NoiseNeverWritten | api/admin/transactions/import.js:168-172 | dropping the noise rows first leaves the table the same |
| Ledger.FoldIsOverlay | api/admin/transactions/import.js:179-186 | the rows with one id act as one combined patch |
| Ledger.FoldIdempotent | api/admin/transactions/import.js:175-191 | upserting the same rows again changes nothing for their key |
| Ledger.ReimportKeyed | api/admin/transactions/import.js:175-191 | importing the same statement twice leaves the keyed rows as one import did |
| Ledger.Import | api/admin/transactions/import.js:160-202 | the body is rejected exactly when the text is empty or longer than 2,000,000 characters; otherwise the table is the merge of one candidate per parsed row, total is the row count, skipped counts the noise rows, and inserted the rest |
| Ledger.ImportTwiceKeyed | api/admin/transactions/import.js:160-202 | importing the same statement text twice leaves the keyed rows as one import did |
| Preview.ClientTxId | transactions.js:113-119 | "" exactly when no cell has nine digits; otherwise the digits of the last cell that has at least nine |
| Preview.ClientTxIdAgrees | transactions.js:113-119 | the client's transaction id is the server's, with "" for null |
| Preview.FirstDate | transactions.js:91-98 | "" exactly when no cell has an ISO, dotted or slashed date; otherwise a cell with one |
| Preview.ClientLotteryId | transactions.js:121-129 | the first of L200, HILUX, P30 in list order that the upper-cased text contains; otherwise the first code-shaped word with at most five letters, or "" |
| Preview.LotteryIdAgrees | transactions.js:121-129 | when the text names L200, HILUX or P30, the client's id is the server's |
| Preview.RowToPreview | transactions.js:73-111 | the code column mirrors the phone; the phone is the first eight digits of the joined row, or ""; the date is the first dated cell; the lottery id is the client extractor's on the joined row; the description is a cell at least as long as every cell |
| Preview.PreviewDescFirstLongest | transactions.js:100-104 | a non-empty description is the first longest cell: no cell is longer, and every earlier cell is strictly shorter |
| Preview.PreviewAgreesWithImport | transactions.js:73-111 | the preview's phone, amount and id are the server import's, with null as "" |
| Preview.GetFee | transactions.js:137-141 | the fee is the parsed input when it is positive, and null otherwise |
| Preview.Classify | transactions.js:143-152 | Unmatched exactly when there is no phone; Matched on phone alone without a fee; with a fee, Matched only when the amount is within 0.0001 |
| Preview.LatestByPhoneSpec | transactions.js:165-170 | `LatestByPhone` (the map of line 166-170) holds one entry per phone, holding its last row, in order of first appearance |
| Preview.KnownFilterKeepsAll | transactions.js:171-172 | the `keptPhones` filter keeps every row |
| Preview.NoPhone | transactions.js:173 | exactly the phone-less rows; a single row is kept exactly when it has no phone |
| Preview.NoPhoneConcat | transactions.js:173 | the filter distributes over concatenation, so the original order is kept |
| Preview.NoPhoneExtremes | transactions.js:173 | rows that all have phones leave nothing; rows that have none are all kept |
| Preview.DedupeLatest | transactions.js:165-174 | `Dedupe` under "latest" gives the latest row per phone, followed by all phone-less rows |
| Preview.DedupeOff | transactions.js:160-165 | `Dedupe` under any other mode leaves the rows as they are |
| Preview.DedupeKeepsPhones | transactions.js:165-181 | `Dedupe` keeps the set of phones |
| Preview.CountMatched | transactions.js:176-183 | 0 exactly when no row is Matched, the length exactly when every row is |
| Preview.CountMatchedConcat | transactions.js:176-183 | the matched count is additive over concatenation |
| Preview.Summarize | transactions.js:176-200 | rows counts the input; matched counts the Matched rows of the deduplicated list, before the display filter; phones is the number of distinct phones |
| Preview.SummaryWithoutFee | transactions.js:150-200 | without a fee, matched is the number of rows with a phone, or after "latest" the number of kept phone entries |
| Preview.MatchedWithoutFee | transactions.js:150-151 | without a fee, matched counts the rows that have a phone |
| Html.EscapeHtml | transactions.js:203-210 | the result holds none of `<`, `>`, `"`, `'`, and text without special characters is unchanged |
| Html.EscapeIsCharwise | admin-lotteries.js:27-34 | the five chained replacements equal one character-by-character escape, because `&` goes first |
| Html.EscapeRoundTrip | admin-lotteries.js:27-34 | decoding the five entities gives the original text back |
| Html.EscapeInjective | admin-lotteries.js:27-34 | different texts escape differently |
| Html.FormatStatus | admin-lotteries.js:21-25 | the Open badge exactly for "open" in any case; otherwise a plain badge whose body decodes to the status |
| AmountFormat.GroupIsRegex | transactions.js:134 | the `\B(?=(\d{3})+(?!\d))` replacement puts a comma before every group of three digits counted from the right |
| AmountFormat.GroupDigits | transactions.js:134 | removing the commas gives the digits back |
| AmountFormat.GroupPieces | transactions.js:134 | between commas there are exactly three digits, and the first group has one to three |
| AmountFormat.ToFixedForm | transactions.js:133 | an integer prints without a fraction; anything else prints a dot and two digits |
| AmountFormat.FixedValue | transactions.js:133 | the printed value is the number itself for integers, and is within half a cent otherwise |
| AmountFormat.FormatAmount | app.js:88-92 | "" for null; otherwise the fixed form with commas only in the whole part |
| AmountFormat.FormatParsesBack | transactions.js:131-135 | parsing a formatted whole amount gives the amount back |
| JsNumber.ToNumber | admin-lotteries.js:151 | blank text is 0; any other accepted text has a digit |
| JsNumber.NumberOfNat | admin-lotteries.js:151 | a decimal numeral reads as its value |
| JsNumber.NumberOfDecimal | admin-lotteries.js:151 | `w.f` reads as its decimal value |
| JsNumber.Trunc | admin-lotteries.js:152 | rounds toward zero |
| JsNumber.ToInt | admin-lotteries.js:150-153 | the fallback when the text is not a number; otherwise its truncation |
| JsNumber.ToIntOfNegNat | admin-lotteries.js:150-153 | a negative numeral reads as its negative value |
| AdminLotteries.Status | admin-lotteries.js:159 | the trimmed input when it is non-blank, else "open"; so "open" exactly when the input is blank or "open" |
| AdminLotteries.SortOrder | admin-lotteries.js:154-162 | null exactly when the input is blank; otherwise the trimmed input read by `toInt` with fallback 0 |
| AdminLotteries.Normalize | admin-lotteries.js:155-166 | the name is the trimmed input; fee, joined and total are `toInt` of their inputs, so non-numbers read as 0; status and sort order follow their readers; empty bank fields become null |
| AdminLotteries.EditorValues | admin-lotteries.js:148-167 | the editor's id is the typed id, trimmed, and the rest is the shared normalisation |
| AdminLotteries.NewLotteryForm | admin-lotteries.js:245-265 | the create form upper-cases the trimmed id |
| AdminLotteries.ReadersDifferOnlyInId | admin-lotteries.js:148-167 | the two readers agree except for the id's case |
| AdminLotteries.NumeralsRead | admin-lotteries.js:247-259 | typed whole numbers are read exactly |
| AdminLotteries.SubmitCreate | admin-lotteries.js:267-285 | the create request is sent exactly when the id matches `^[A-Z0-9_]+$` and the name is non-empty |
| AdminLotteries.UpperValidId | admin-lotteries.js:251-270 | an upper-cased id passes the guard exactly when the typed id is non-empty word characters |
| AdminLotteries.SubmitAcceptsWordIds | admin-lotteries.js:267-277 | the form is accepted exactly when the trimmed id is non-empty word characters and the trimmed name is non-empty |
| App.NormalizePhone | app.js:30-33 | the first up to eight digits of the input |
| App.NormalizeIdempotent | app.js:30-33 | normalising twice is normalising once |
| App.NormalizeAgreesWithServer | app.js:30-33 | the page has a full phone exactly when the server would find one, and then they agree |
| App.TransferValue | app.js:35-38 | the normalised phone when any digit was typed; the fallback number when none was |
| App.Schedule | app.js:47-60 | a lookup is scheduled after 250 ms exactly when there are eight digits; otherwise the lookup state is cleared |
| App.FetchStarted | app.js:62-86 | a lookup records its phone and loading state, with no rows and no error |
| App.FetchDone | app.js:62-86 | an aborted lookup changes nothing; rows are stored on success with no error; a failed reply shows the body's error or `http_<status>`, a network failure `network_error`; errors clear the rows; loading ends |
| App.WithPhone | app.js:108-112 | exactly the rows for the phone; a single row is kept exactly when it carries the phone |
| App.WithPhoneConcat | app.js:108-112 | filtering distributes over concatenation |
| App.Mine | app.js:105-112 | at most eight rows, all for the current phone, and only when the state belongs to it |
| App.Render | app.js:105-162 | a prompt exactly when there is no phone; with a phone, the loading note while this phone's lookup runs, then its error, then "no rows" when the state is another phone's or none match, else a table of the first eight rows carrying the phone |
| App.ScheduledLookupShows | app.js:47-136 | after a scheduled lookup succeeds, the page shows a table of the first eight returned rows carrying that phone, or "no rows" when none carry it; a phone with fewer than eight digits never shows a table |
| App.ImageFor | app.js:2-7 | HILUX and P30 have their own pictures; every other id gets the Land Cruiser |
| Recent.MaskPhone | api/transactions/recent.js:17-21 | "" unless the phone is exactly eight digits; otherwise the first four digits, then `****` |
| Recent.MaskHidesSuffix | api/transactions/recent.js:17-21 | phones that share their first four digits mask alike |
| Recent.Limit | api/transactions/recent.js:9-15 | absent or empty is 20; otherwise accepted exactly when `Number` gives a value from 1 to 50 |
| Recent.LimitOfNat | api/transactions/recent.js:9-15 | whole numbers are accepted exactly from 1 to 50 |
| Recent.LimitOfDecimal | api/transactions/recent.js:9-15 | fractions in range are accepted as they are |
| Recent.ToRecent | api/transactions/recent.js:42-49 | non-null id, lottery id and description pass through and nulls become ""; the date is the formatted date; the amount is kept; the phone is masked to its first four digits |
| Recent.Handle | api/transactions/recent.js:23-57 | 405, then 429, then 400 in that order; otherwise every row is mapped |
| RateLimit.FirstEntry | api/_rate_limit.js:5 | the first comma-separated entry holds no comma |
| RateLimit.FirstEntryIsPrefix | api/_rate_limit.js:5 | the first entry is the header up to its first comma |
| RateLimit.KeyFor | api/_rate_limit.js:3-7 | the trimmed first forwarded address of the header, or of the first header line when it is a list; else the socket address; else "unknown"; an empty list throws |
| RateLimit.Hit | api/_rate_limit.js:12-20 | a new or expired key starts a window at count 1; otherwise the count goes up; allowed while the count is at most max; other keys unchanged |
| RateLimit.FirstRequest | api/_rate_limit.js:13-20 | a new key's first request is allowed exactly when max is at least 1 |
| RateLimit.LimitersShareCount | api/_rate_limit.js:1-20 | two limiters count against the same bucket |
| RateLimit.Limit | api/_rate_limit.js:9-22 | the limiter fails exactly when the key cannot be formed |
| RateLimit.ReplayWithinWindow | api/_rate_limit.js:13-20 | inside one window the k-th further request is allowed exactly when count plus k plus 1 is at most max |
| RateLimit.FreshKeyWindow | api/_rate_limit.js:13-20 | for a new key within one window, exactly the first max requests are allowed |
| Db.SslMode | api/_db.js:13-14 | `verify-full` when unset or `require`, otherwise as given |
| Db.Params | api/_db.js:13-19 | `sslmode` first; `channel_binding` only when set |
| Db.BuildDatabaseUrl | api/_db.js:5-22 | null exactly when a PG variable is missing; otherwise the scheme, encoded user, password, host, database and query |
| Db.UserInfoOfBuilt | api/_db.js:21 | the encoded user and password can be read back from the URL |
| Db.QueryStartsWithSslmode | api/_db.js:17-18 | `QueryString`, the `URLSearchParams` text, opens with `sslmode=` |
| Db.ChannelBindingIff | api/_db.js:15-19 | `QueryString` names `channel_binding` exactly when it is set |
| Db.SelectUrl | api/_db.js:26-27 | `DATABASE_URL` wins; otherwise the built URL; missing exactly when neither exists |
| Db.GetPool | api/_db.js:24-38 | an existing pool is reused; a new one uses strict TLS exactly when its URL names `sslmode=` |
| Db.PoolCreatedOnce | api/_db.js:25 | once created, the pool ignores later environment changes |
| Db.BuiltUrlIsStrict | api/_db.js:26-34 | a URL built from PG variables always gets strict TLS |
| DotEnv.Unquote | scripts/seed.js:16-18 | one pair of matching quotes is removed, and a lone quote becomes "" |
| DotEnv.UnquoteQuoted | scripts/seed.js:16-18 | quoting and unquoting gives the value back |
| DotEnv.ParseLine | scripts/seed.js:10-18 | blank, comment and `=`-less lines are ignored, and only those; the key is trimmed and has no `=` (its exact text and the value are given by `ParseLineParts`) |
| DotEnv.ParseLineParts | scripts/seed.js:10-15 | a line `p=q` whose key part is non-blank and not a comment gives `p` trimmed as the key and `q` trimmed and unquoted as the value, whatever space surrounds them; `KEY=` gives an empty value |
| DotEnv.LineSplitsAtFirstEquals | scripts/seed.js:12-15 | the line splits at its first `=`, and later `=` stay in the value |
| DotEnv.Entries | scripts/seed.js:9-18 | a single line gives its parsed entry, or nothing when it is ignored |
| DotEnv.EntriesConcat | scripts/seed.js:9 | the lines are read one by one in order: the entries of joined lines are the joined entries |
| DotEnv.Apply | scripts/seed.js:19 | a variable is set only when it is unset or empty |
| DotEnv.ApplyAll | scripts/seed.js:9-20 | the keys are the old keys plus the file's keys |
| DotEnv.LoadDotEnv | scripts/seed.js:6-21 | a missing file changes nothing, and no variable is removed |
| DotEnv.ApplyAllGet | scripts/seed.js:6-21 | an existing non-empty value wins; otherwise the file's first non-empty value |
| DotEnv.SeedUrl | scripts/seed.js:24-47 | the seed script fails exactly when neither `DATABASE_URL` nor the PG variables are available after loading |
| DevServer.StripDotDot | scripts/dev-server.js:81 | the result has no `..`, is no longer than the input, and keeps every character except dots |
| DevServer.DotRun | scripts/dev-server.js:81 | a run of k dots keeps k mod 2 of them |
| DevServer.NoDotsKept | scripts/dev-server.js:81 | a text without dots is unchanged |
| DevServer.StripSegment | scripts/dev-server.js:81 | `/a/../b` becomes `/a//b` |
| DevServer.StaticPath | scripts/dev-server.js:81-82 | `/` serves `/index.html`; other paths are stripped of `..` |
| DevServer.Basename | scripts/dev-server.js:90 | the last path segment: a suffix of the path with no `/`, preceded by `/` unless it is the whole path |
| DevServer.ExtName | scripts/dev-server.js:90 | non-empty exactly when the last segment is not `..` and has a dot after its first character; then it is the segment's tail from its last dot |
| DevServer.ContentType | scripts/dev-server.js:30-38 | the table entry for the lower-cased extension, otherwise `application/octet-stream` |
| DevServer.ContentTypeIgnoresCase | scripts/dev-server.js:90-91 | the extension's case does not matter |
| DevServer.ApiHandlerFile | scripts/dev-server.js:42-43 | `/api/X` is served by `api/X.js` (no `path.join` normalisation) |
| DevServer.ApiFileRoundTrip | scripts/dev-server.js:42-43 | the API path can be read back from the handler file |
| DevServer.Route | scripts/dev-server.js:61-93 | API paths give 404 without a handler, 500 when it throws, and are handled otherwise; other paths serve the stripped file with its content type, or 404 |

## Left out

- Numbers are exact reals and integers. IEEE-754 rounding, and overflow to Infinity in `Number` and `parseAmount`, are not modelled.
- `String(n)` of values of 1e21 or more uses exponent form in JS. The model formats them positionally.
- `Math.trunc` of a negative fraction gives -0 in JS. The model gives the integer 0.
- Classify's 0.0001 tolerance is exact on reals here, so it does not suffer floating-point error.
- `toTimestamp` (`new Date(...).toISOString()`), the database's date column and its formatting are function parameters. Date parsing is not modelled.
- `encodeURIComponent` and the value encoding of `URLSearchParams` are parameters. Their escaping of `:`, `@` and `&` is assumed where a lemma needs it.
- Case mapping is ASCII only. JS also upper-cases some non-ASCII letters to ASCII ones (dotless `ı` to `I`, long `ſ` to `S`), so the create guard would accept such ids.
- `\b` and `\w` are ASCII by definition in JS regexes, so they are exact here.
- SQL execution, the pool's connections and the query's `limit` are not modelled. The rows a query returns are a parameter, and a pg numeric column is taken as a real.
- `Ledger.Merge`: every upsert counts as inserted, as `returning 1` always returns a row. A failing query, the 500 response, and partial writes before it are not modelled.
- Authentication, the method check, security headers and the import handler's rate limiter are left out of `Ledger.Import`, which starts from the request body's text. Its JSON parsing and body streaming are also left out.
- The DOM, `fetch`, timers and `AbortController` are left out. `App` models the state they update, with the reply as a parameter.
- `Date.now()` is a parameter of the rate limiter, and the buckets map is threaded state.
- `fs.existsSync`, `require` and URL parsing are parameters: the sets of existing files and whether a handler throws. `DevServer.ExtName` does not model paths that end in `/`.
- `path.join(root, safe)` is dropped rather than made a parameter: the served path is the stripped URL path itself. `path.join` also normalises the path, so a request such as `/x.html/...`, stripped to `/x.html/.`, is served from `x.html` as HTML there, while the model looks up `/x.html/.` with no extension.
- DevServer.StaticPath: the path is not normalised the way `path.join` normalises it (see the line above).
- DevServer.ApiHandlerFile: the handler file name is not normalised the way `path.join(root, "api", rel)` normalises it, so repeated slashes are kept: `/api//x` is handled by `api/x.js` in scripts/dev-server.js:42-43, while the model names `api//x.js`.
- Ledger.Import: the 2,000,000 limit counts characters, while JS `.length` counts UTF-16 code units, so text outside the Basic Multilingual Plane reaches the limit sooner in JS.
- Extract.Description: "longest" compares character counts, not UTF-16 lengths, so ties and order can differ for text outside the Basic Multilingual Plane.
- Preview.RowToPreview: the longest-cell description has the same character-count caveat as `Extract.Description`.
- Ledger.Upsert: the upsert also sets `imported_at = now()`. The import time is not part of `Ledger.Entry`, so neither this member nor `Ledger.ReimportKeyed` and `Ledger.ImportTwiceKeyed` says anything about it: a re-import does change that column.
- The seed script's SQL inserts and password hashing are not modelled.
- recent-transactions.js is a consumer of the endpoint and is not part of this model.
- `AmountFormat.FixedValue` states the two-decimal rounding only to within half a cent. JS's exact tie-breaking for binary fractions is not modelled.
