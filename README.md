# Bank-to-YNAB reconciliation, modelled in Dafny

This project models the core of a small service that copies transactions from a
Norwegian bank and from credit-card statement files into a YNAB budget. The core
covers three parts:

- **The bank sync mapper** turns a batch of bank transactions into YNAB
  "save transaction" candidates. Each candidate carries an idempotency key,
  `YNAB:<milliunits>:<day>:<occurrence>`. The occurrence counts how often the
  transaction's (date, amount) key has been seen so far in the batch. There are
  two versions: the serverless sync (`api/sync.ts`, with the day in Oslo) and
  the older script (`sync.ts`, with the day in UTC).
- **Deduplication** (`dedupeTransactions`) handles each bank transaction in one
  of these ways:
  - pending transactions are added;
  - a booked transaction whose first matching ledger entry is uncleared marks
    that entry cleared;
  - a booked transaction whose first match is already cleared is skipped;
  - a booked transaction with no match is added;
  - a booked transaction with a description makes the pass throw when its
    search reaches, before any match, a ledger entry with a `null` payee and
    the same amount.
- **The CSV upload**:
  - `cleanDate`, `getPosteringsdato`;
  - the filter on the last sync date;
  - the CSV mapper with its own occurrence counter;
  - the choice of the latest ledger date;
  - the `basicAuth` guard in front of the upload.

The files are:

- `Wrappers.dfy`: `Option` and `Result`.
- `JsText.dfy`: the JavaScript built-ins the code relies on: integer printing,
  `toLowerCase`, `includes`, `split`/`join`, `replace`, `trim` and `<` on
  strings. Integer printing has a parser it is checked against, `split` has
  `join`, and `includes`, `replace` and `trim` have index-wise
  characterisations. `toLowerCase` has only idempotence, and `<` has only the
  order laws.
- `Occurrences.dfy`: what the occurrence counter means, stated over the key
  sequence, and the step lemma the mappers' loops use.
- `Transactions.dfy`: the records (`types/bank.types.ts` and the ledger's
  transaction).
- `ImportIds.dfy`: the import id format, plus a parser that reads it back.
- `ApiSync.dfy`, `ScriptSync.dfy`, `UploadCsv.dfy`, `Middleware.dfy`: the four
  source files.

Each loop of the source that updates variables (the mappers' counter loops and
the `forEach` pass of dedupe) is a `method` with a `while` loop. The method is
proved equal to a specification function, and the lemmas are stated about those
functions. The callback-style array calls `filter` and `find` are recursive
functions: `UploadCsv.Survivors`, `UploadCsv.NonTransfers` and
`ApiSync.FindMatch`.

Some values come from library calls, the process environment or the network.
They are parameters of the model:

- the Oslo or UTC day of an epoch date: `osloDay` and `isoString`;
- `new Date(text)` followed by formatting: `csvDay`, where `None` means Invalid
  Date and the formatting throws;
- base64 decoding: `decode`;
- the account id;
- the configured user and password;
- the fetched ledger entries: a `Result`.

Exceptions are `Failure` values of the functions that can throw:

- the `RangeError` that formatting throws on an Invalid Date, which the bank
  mapper meets on a missing date;
- the `TypeError` of `toLowerCase` on a ledger payee that is `null`, which the
  search in dedupe meets when the amounts agree and the description is
  present;
- the `TypeError` of `replace` on a missing amount column.

In the guard, the `TypeError` of `Buffer.from(undefined)` is the outcome
`Throws` of `Middleware.Outcome`, beside calling `next` and sending a response.

## Model

| member | source | states |
|---|---|---|
| ApiSync.MapBankTransactionsToYnabTransactions | api/sync.ts:165-196 | The loop with its occurrence dictionary returns exactly `MappedBatch`: one candidate per transaction in order, or the exception when a transaction has no date. |
| ApiSync.MappedBatchCandidates | api/sync.ts:165-196 | The mapper throws iff some date is missing. Otherwise candidate i has the account id, the Oslo day of the date, the amount times 1000 (NaN when absent), the cleaned description as payee, `cleared` iff the transaction is BOOKED, and the import id built from that amount, day and occurrence. |
| ApiSync.ImportIdCountsRepeats | api/sync.ts:170-178 | The occurrence in candidate i's import id is the number of transactions up to and including i that have the same (date, amount) key. |
| ApiSync.FirstOfKeyGetsOne | api/sync.ts:172-176 | A candidate's occurrence is 1 exactly when no earlier transaction in the batch has its key. |
| ApiSync.SameKeyDiffersOnlyInSuffix | api/sync.ts:170-182 | Two transactions with the same key get the same amount and day. Their import ids share the stem and end in increasing occurrences, so they differ. |
| ApiSync.ImportIdCollisions | api/sync.ts:170-182 | For colon-free days, two candidates share an import id iff their keys differ but their amount, day and occurrence agree. |
| ApiSync.SameDayDifferentTimestampsCollide | api/sync.ts:170-182 | The key holds the raw timestamp but the id holds only the day. So two transactions with the same amount at different times of one Oslo day get the same import id. |
| ApiSync.MappedBatchPrefixStable | api/sync.ts:168-169 | The counter is local to one call: the candidates for a batch's first transactions do not depend on what follows them. |
| ApiSync.SingletonBatch | api/sync.ts:165-196 | Mapping a one-element list gives occurrence 1, or the exception when the date is missing. |
| ApiSync.FindMatch | api/sync.ts:233-248 | `find` returns the index of the first ledger entry whose predicate is true or throws, with no such entry before it, or nothing when there is no such entry. |
| ApiSync.MatchesIff | api/sync.ts:234-247 | The match predicate holds iff the bank amount, a non-null ledger payee and the bank description are all present, the ledger amount is the bank amount times 1000, and the lower-cased payee occurs in the lower-cased description. It throws iff the payee is `null`, the amount and description are present and the amounts agree. The two never hold together. |
| ApiSync.MatchesIgnoresCase | api/sync.ts:241-245 | Matching is insensitive to the case of the description and of the payee. |
| ApiSync.DecideCases | api/sync.ts:219-262 | Pending: added. Booked with no entry that matches or throws: added. Booked whose first match is uncleared: that entry is cleared, with only its flag changed. Booked whose first match is already cleared: nothing happens. Booked whose search meets a `null` payee first: the TypeError. |
| ApiSync.FirstFault | api/sync.ts:219-262 | There is no exception exactly when no bank transaction throws. |
| ApiSync.ReconcileThrows | api/sync.ts:219-262 | When the transactions before position i throw nothing and transaction i throws, dedupe fails with transaction i's exception. |
| ApiSync.DedupeTransactions | api/sync.ts:209-268 | The `forEach` loop that pushes onto the two lists returns exactly `Reconcile`: the clears and the one-by-one mapped adds, in bank order, or the exception of the first bank transaction that throws. |
| ApiSync.ReconcileConcat | api/sync.ts:219-262 | Reconciliation works one transaction at a time. The result for a + c is the result for a followed by the result for c. The whole call throws iff one of the halves does, and then throws what a throws, or what c throws when a does not. |
| ApiSync.ReconcileSingleton | api/sync.ts:219-262 | A single transaction gives one add candidate with occurrence 1 (or the date exception when undated), one cleared entry, nothing, or the payee TypeError, according to its decision. |
| ApiSync.PendingAlwaysAdded | api/sync.ts:221-227 | A pending transaction contributes exactly its own candidate to the adds and nothing to the clears, whatever the ledger holds and wherever it sits in the batch. |
| ApiSync.BookedSingleton | api/sync.ts:233-261 | A single booked transaction is added when no entry matches or throws. It clears its first match when that match is uncleared, yields nothing when the match is already cleared, and throws the TypeError when the search meets a `null` payee first. |
| ApiSync.SameEntryClearedTwice | api/sync.ts:233-261 | The ledger list is searched anew for each bank transaction and nothing marks an entry as used. So two booked transactions that match one uncleared entry both clear it, and neither is added. |
| ApiSync.ReconcileSize | api/sync.ts:219-262 | Each bank transaction contributes at most one item to the two outputs taken together. |
| ApiSync.AddsHaveOccurrenceOne | api/sync.ts:222-224 | Every add candidate from dedupe has occurrence 1 in its import id. |
| ApiSync.DuplicateAddsShareImportId | api/sync.ts:221-224 | Two pending transactions with the same date and amount are both added with the same import id. Mapping the same two as one batch gives them different ids. |
| ApiSync.DedupeTransactionsNumbered | api/sync.ts:209-268 | The corrected pass collects the transactions to add, still throwing on a `null` payee, and maps them in one call. It returns exactly `ReconcileNumbered`. |
| ApiSync.ReconcileNumberedAgrees | api/sync.ts:209-268 | The corrected version succeeds iff the original does and then clears the same entries. It equals the original whenever no two added transactions share a key. |
| ApiSync.NumberedAddsDistinct | api/sync.ts:221-255 | In the corrected version, two added transactions with the same key get different import ids. |
| ApiSync.FaultlessIff | api/sync.ts:219-255 | Dedupe throws nothing iff no search meets a `null` payee first and every transaction it adds has a date. |
| ScriptSync.MapBankTransactionsToYnabTransactions | sync.ts:83-115 | The older mapper's loop returns exactly `MappedBatch` with the UTC day function. |
| ScriptSync.UtcDayOfIsoText | sync.ts:79-81 | `getDateString` is the part of the ISO text before the first `T`. |
| ScriptSync.MappersAgreeOnDay | sync.ts:83-115 | On dates whose Oslo day and UTC day agree, the two mappers give the same candidates and throw on the same batches. |
| ScriptSync.ScriptCandidate | sync.ts:97-106 | A candidate's date is the ISO day, its amount is the unrounded bank amount times 1000, and its import id is `YNAB:<amount>:<day>:<occurrence>`. |
| ImportIds.ImportIdFields | api/sync.ts:182 | For a colon-free day, an import id splits on `:` into `YNAB`, the amount text, the day and the occurrence. |
| ImportIds.ImportIdRoundTrip | api/sync.ts:182 | For a colon-free day, parsing an import id gives back its amount, day and occurrence. |
| ImportIds.ImportIdInjective | api/sync.ts:182 | Import ids over colon-free days are equal iff their amounts, days and occurrences are. |
| ImportIds.ImportIdOccurrenceInjective | api/upload-csv/index.ts:104 | Two ids with the same amount and date are equal iff their occurrences are, whatever the date text holds. |
| ImportIds.ParseAmountTextRoundTrip | api/sync.ts:180-182 | `${amount}` (an integer, or `NaN`) reads back as the amount it printed. |
| ImportIds.AmountTextNoColon | api/sync.ts:182 | The printed amount holds no `:`, so the amount stays a single field of the id. |
| Occurrences.CounterStep | api/upload-csv/index.ts:92-97 | One step of the dictionary (a missing or zero entry becomes 1, any other entry is bumped) keeps it equal to the counts of the keys seen, and the entry it sets is the current key's occurrence. |
| Occurrences.CounterStepTo | api/sync.ts:172-178 | The same step, for the bank mappers' dictionary. |
| Occurrences.OccurrenceIsRank | api/sync.ts:172-178 | The occurrence of position i is the number of positions up to and including i that hold its key. |
| Occurrences.OccurrenceFromOne | api/sync.ts:172-173 | Occurrences start at 1, and a position has occurrence 1 iff no earlier position holds its key. |
| Occurrences.OccurrenceIncreases | api/sync.ts:174-175 | A later repeat of a key has a strictly larger occurrence. |
| Occurrences.OccurrencePrefix | api/sync.ts:168 | The occurrences of a prefix do not depend on what follows it. |
| Occurrences.CountIsNumberOfPositions | api/sync.ts:172-178 | The recursive count is the number of positions holding the key. |
| Occurrences.NumberedPrefixFull | api/upload-csv/index.ts:89-113 | A complete loop output, element by element, is the numbered batch. |
| UploadCsv.MapCsvTransactionsToYnabTransactions | api/upload-csv/index.ts:76-114 | The filter plus the map loop returns exactly `CsvBatch`: survivors numbered by their occurrence among survivors. It returns the filter's exception, or the exception for a survivor with no amount column. |
| UploadCsv.CsvBatchCandidates | api/upload-csv/index.ts:89-113 | Candidate i belongs to survivor i, which passed the filter and has an amount column. It is cleared, dated by the cleaned posting date, paid to the description, and its amount is that column read by `CsvAmount`. Its occurrence is the number of earlier-or-equal survivors with the same key. |
| UploadCsv.CsvBatchAmounts | api/upload-csv/index.ts:101-103 | When every surviving amount is in the form the model reads, each candidate's amount is its column's milliunits. |
| UploadCsv.DroppedRowsDoNotCount | api/upload-csv/index.ts:80-97 | Rows the filter drops take no part in the numbering: mapping only the survivors gives the same result. |
| UploadCsv.SameRowTextsDistinctIds | api/upload-csv/index.ts:90-104 | Two survivors with the same posting-date and amount texts get different import ids. |
| UploadCsv.FormatBelopRoundTrip | api/upload-csv/index.ts:101-103 | An amount written in comma form with three decimals reads back, through the row's amount, as the milliunits it was written from. |
| UploadCsv.CommaDecimal | api/upload-csv/index.ts:101-103 | An optional minus, digits, a comma and one to three digits is a well-formed amount. The row's amount is that decimal number times 1000, with its sign. |
| UploadCsv.NegativeTwoDecimals | api/upload-csv/index.ts:101-103 | The statement's two-decimal `-250,00` gives the amount -250000 milliunits. |
| UploadCsv.CleanDateFalsy | api/upload-csv/index.ts:68 | An undefined or empty date cleans to `''`. |
| UploadCsv.CleanDateUnchanged | api/upload-csv/index.ts:67-70 | A text that neither starts nor ends with a quote or white space comes back unchanged. |
| UploadCsv.CleanDateStripsQuotes | api/upload-csv/index.ts:69 | Runs of double quotes at either end are removed, however long they are. |
| UploadCsv.CleanDateQuotesInsideSpaces | api/upload-csv/index.ts:69 | Quotes are stripped before trimming. So quotes inside surrounding spaces stay, and cleaning twice differs from cleaning once. |
| UploadCsv.GetPosteringsdato | api/upload-csv/index.ts:72-74 | The capitalised column when it is truthy, otherwise the lower-case one. The result is truthy iff either column is. |
| UploadCsv.KeptIff | api/upload-csv/index.ts:81-88 | A row is kept iff it has a truthy posting date whose formatted day is greater than the last sync date. |
| UploadCsv.NotAfterLastSyncDropped | api/upload-csv/index.ts:86 | A row dated on the last sync day, or on a day that sorts before it, is dropped. |
| UploadCsv.SurvivorsConcat | api/upload-csv/index.ts:81-88 | The filter keeps order and works row by row: the survivors of a + b are those of a followed by those of b, and it throws iff one half does. |
| UploadCsv.SurvivorsKept | api/upload-csv/index.ts:81-88 | Every survivor is kept, and filtering the survivors again changes nothing. |
| UploadCsv.SurvivorsFailIff | api/upload-csv/index.ts:82-85 | The filter throws iff some row has a truthy posting date that cannot be formatted. |
| UploadCsv.NonTransfers | api/upload-csv/index.ts:129-131 | No entry that remains is a transfer. |
| UploadCsv.NoNonTransfers | api/upload-csv/index.ts:129-134 | Nothing remains iff every entry is a transfer. |
| UploadCsv.LatestIsLastNonTransfer | api/upload-csv/index.ts:129-136 | The chosen date is that of the last entry that is not a transfer, whatever transfers follow it. |
| UploadCsv.LatestFallback | api/upload-csv/index.ts:132-140 | With no non-transfer entry, or when the fetch fails, the date is `1900-01-01`. |
| Middleware.BasicAuth | api/middleware.ts:3-38 | Every response is one of three: 500 "Server configuration error" without the challenge, or 401 with the Basic challenge and "Authentication required" or "Invalid credentials". |
| Middleware.MissingConfiguration | api/middleware.ts:9-12 | Without a configured user or password the answer is 500, whatever the request. |
| Middleware.MissingHeader | api/middleware.ts:15-19 | Without an `Authorization` header the answer is 401 with the challenge. |
| Middleware.NoSpaceThrows | api/middleware.ts:22 | A header with no space has no second word, so decoding `undefined` throws. |
| Middleware.NextIff | api/middleware.ts:22-33 | The request passes iff the configuration and header are present and the header's second word decodes to `user:password`, alone or followed by another colon, with neither value holding a colon. |
| Middleware.InvalidCredentials | api/middleware.ts:22-36 | With the configuration and a header that has a second word, credentials that do not carry the configured user and password get 401 "Invalid credentials" with the challenge. |
| Middleware.ColonInPasswordNeverMatches | api/middleware.ts:22-31 | A configured password that contains a colon is never accepted. |
| Middleware.DepartsFromRfc7617 | api/middleware.ts:22-31 | RFC 7617 section 2 splits at the first colon, so credentials it accepts with a colon in the password are refused here. |
| Middleware.TrailingSegmentsAccepted | api/middleware.ts:22-33 | Extra colon-separated segments after the password are ignored. |
| Middleware.SchemeNotChecked | api/middleware.ts:22 | The scheme word before the credentials is not checked. |
| JsText.ParseIntText | api/sync.ts:182 | Printing an integer and reading it back gives the integer. |
| JsText.NatText | api/upload-csv/index.ts:104 | The printed occurrence is digits with no leading zero. |
| JsText.NatTextInjective | api/sync.ts:182 | Different occurrences print differently. |
| JsText.ToLowerIdempotent | api/sync.ts:244-245 | Lower-casing twice is the same as lower-casing once. |
| JsText.IncludesIff | api/sync.ts:245 | `includes` holds iff the needle occurs at some index. |
| JsText.JoinSplit | api/middleware.ts:22-24 | Joining the pieces of a split with the separator gives back the text. |
| JsText.SplitFirstTwo | api/middleware.ts:22-26 | The first two pieces are `u` and `p` iff neither holds the separator and the text is `u:p`, alone or followed by another separator. |
| JsText.ReplaceFirstAt | api/upload-csv/index.ts:102 | `replace` with a one-character pattern changes only the first occurrence. |
| JsText.ReplaceFirstAbsent | api/upload-csv/index.ts:102 | A text without the pattern is left alone. |
| JsText.DropLeadingSpec | api/upload-csv/index.ts:69 | Stripping a leading run keeps a suffix, removes only matching characters, and leaves no match at the front. |
| JsText.DropTrailingSpec | api/upload-csv/index.ts:69 | The mirror image at the end of the text. |
| JsText.StrLessTotal | api/upload-csv/index.ts:86 | String `<` is total on distinct strings. |
| JsText.StrLessTransitive | api/upload-csv/index.ts:86 | String `<` is transitive. |
| JsText.StrLessAsymmetric | api/upload-csv/index.ts:86 | String `<` is asymmetric. |
| JsText.StrLessIrreflexive | api/upload-csv/index.ts:86 | String `<` is irreflexive. |

## Left out

- Network and storage are not modelled:
  - the bank and YNAB HTTP calls;
  - token refresh (`scripts/set-refresh-token.ts`);
  - the FaunaDB reads and writes;
  - `api/sync.ts`'s own `getLatestYnabTransactionDate`, which is a network call.
- The request handlers, multipart upload parsing, CSV parsing, orchestration, logging and the environment checks are not modelled. They are I/O.
- `sync.js` is compiled output of an older version of the script. It holds only the token and fetch helpers and `main`, with the call that creates transactions commented out. It has no mapping logic and is not part of this model.
- `async`/`await` is not modelled: it is sequential within the functions modelled here.
- The upload handler catches exceptions into a 500 response. This is not modelled; the mappers' exceptions are `Failure` values.
- Library calls are parameters, as listed above: date formatting in the Oslo zone, `toISOString`, `new Date(text)`, and base64 decoding.
- Floating point is not modelled:
  - bank amounts are whole øre, so times 1000 is exact;
  - `toFixed(0)` rounding is the identity on those integers;
  - the comparison `ynab.amount === bank.amount * 1000` is on exact integers.
- Printing numbers covers integers only, not exponent notation from 1e21 up.
- UploadCsv.CsvAmount is weaker than `parseFloat`:
  - a column that is not an optional minus, digits and up to three decimals (after the comma becomes a dot) gives NaN;
  - `parseFloat` would instead read a leading numeric prefix such as `12abc` and accept more than three decimals, rounding them.
- UploadCsv.CsvBatchAmounts takes `UploadCsv.ReadableRows`, which says every survivor's amount is in the form above. It is a precondition of that property lemma only; the mapper and `UploadCsv.CsvBatchCandidates` handle every row.
- ApiSync.KeyOf treats the key `${date}${amount}` as the pair (date, amount). Its contracts assume that the concatenated text determines the pair. Two different pairs can print alike (for example 12 and 34 against 123 and 4), and then the source would number them together.
- JsText.LowerChar lower-cases ASCII and the Latin-1 capitals. Other scripts are left unchanged.
- ApiSync.ReconcileNumbered numbers only the transactions that one sync adds, so its ids are distinct within a sync but can shift across syncs. Take a sync of two pending transactions a and b with one key, numbered 1 and 2. In the next sync a is booked and clears its entry, b is still pending and c is new with the same key: b and c are numbered 1 and 2, so c gets b's earlier id. Numbering over the whole bank batch and keeping the added positions would keep ids stable; the correction here is not that.
- JsText.StrLess compares by code point, not by UTF-16 code unit. The two orders differ only above the Basic Multilingual Plane.
- The day functions `osloDay` and `isoString` are total. In JavaScript an epoch beyond 8.64e15 milliseconds either side of 1970 makes an Invalid Date, and formatting it throws a `RangeError`; the model does not have that failure for a date that is present.

## Findings

| source | as written | input that shows it | evidently intended | confidence | as-written member | corrected member |
|---|---|---|---|---|---|---|
| api/sync.ts:221-255 | dedupe maps each transaction to add on a one-element list, so every add gets occurrence 1 | two pending transactions with the same timestamp and amount: both are added with the same `YNAB:<amount>:<day>:1` import id, so a ledger that deduplicates by import id keeps only one of them | number the adds over the whole batch (1, 2, ...), as the mapper does for a batch | medium, not executed | ApiSync.DuplicateAddsShareImportId | ApiSync.NumberedAddsDistinct |
