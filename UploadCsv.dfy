/** The CSV import of credit-card statements (api/upload-csv/index.ts): the
    rows of a parsed statement are filtered down to those posted after the
    ledger's latest date, then mapped to ledger candidates with the same
    occurrence-numbered import ids as the bank sync.

    Turning a cleaned date text into an Oslo calendar day
    (`formatInTimeZone(new Date(text), ...)`) is a library call; it is the
    parameter `csvDay`, which gives None where `new Date` makes an Invalid
    Date and the formatting throws. */
module UploadCsv {
  import opened Wrappers
  import opened JsText
  import opened Occurrences
  import opened Transactions
  import opened ImportIds

  /** One parsed row. With a relaxed column count a row may lack any
      column, so every column is an Option. Both spellings of the posting
      date header are kept, as the parser delivers them. */
  datatype CsvRow = CsvRow(
    Kjopsdato: Option<string>,
    Posteringsdato: Option<string>,
    posteringsdato: Option<string>,
    Beskrivelse: Option<string>,
    Belop: Option<string>)

  /** The exceptions of the mapper: date formatting of an Invalid Date, and
      `replace` called on a missing amount column. */
  datatype CsvError = InvalidTimeValue | AmountMissing

  /** A template literal's rendering of an optional string. */
  function TemplateText(s: Option<string>): string {
    match s
    case Some(t) => t
    case None => "undefined"
  }

  // ---------------------------------------------------------------------
  // cleanDate and getPosteringsdato

  predicate IsQuote(c: char) {
    c == '"'
  }

  /** cleanDate: '' for a falsy text; otherwise the leading and trailing
      runs of double quotes removed, then white space trimmed. */
  function CleanDate(dateStr: Option<string>): string {
    if !Truthy(dateStr) then ""
    else Trim(DropTrailing(DropLeading(dateStr.value, IsQuote), IsQuote))
  }

  /** A falsy text cleans to ''. */
  lemma CleanDateFalsy(dateStr: Option<string>)
    requires !Truthy(dateStr)
    ensures CleanDate(dateStr) == ""
  {
  }

  /** A text that neither starts nor ends with a quote or white space comes
      back unchanged; in particular one with no quotes and no surrounding
      white space. */
  lemma CleanDateUnchanged(s: string)
    requires s != [] && !IsQuote(s[0]) && !IsQuote(s[|s| - 1])
    requires !IsJsSpace(s[0]) && !IsJsSpace(s[|s| - 1])
    ensures CleanDate(Some(s)) == s
  {
    DropLeadingRun([], s, IsQuote);
    DropTrailingRun(s, [], IsQuote);
    DropLeadingRun([], s, IsJsSpace);
    DropTrailingRun(s, [], IsJsSpace);
    assert [] + s == s && s + [] == s;
  }

  /** Runs of quotes around a text are removed, however long. */
  lemma CleanDateStripsQuotes(open: string, core: string, close: string)
    requires forall i :: 0 <= i < |open| ==> IsQuote(open[i])
    requires forall i :: 0 <= i < |close| ==> IsQuote(close[i])
    requires core != [] && !IsQuote(core[0]) && !IsQuote(core[|core| - 1])
    requires !IsJsSpace(core[0]) && !IsJsSpace(core[|core| - 1])
    ensures CleanDate(Some(open + core + close)) == core
  {
    assert open + core + close == open + (core + close);
    DropLeadingRun(open, core + close, IsQuote);
    DropTrailingRun(core, close, IsQuote);
    CleanDateUnchanged(core);
  }

  /** Trimming a text padded by one space on each side. */
  lemma TrimPadded(t: string)
    requires t != [] && !IsJsSpace(t[0]) && !IsJsSpace(t[|t| - 1])
    ensures Trim([' '] + t + [' ']) == t
  {
    assert [' '] + t + [' '] == [' '] + (t + [' ']);
    DropLeadingRun([' '], t + [' '], IsJsSpace);
    DropTrailingRun(t, [' '], IsJsSpace);
  }

  /** Quotes are stripped before white space is trimmed, so quotes inside
      surrounding spaces stay (`' "2024-01-05" '` cleans to
      `'"2024-01-05"'`), and cleaning is not idempotent. */
  lemma CleanDateQuotesInsideSpaces(core: string)
    requires core != [] && !IsQuote(core[0]) && !IsQuote(core[|core| - 1])
    requires !IsJsSpace(core[0]) && !IsJsSpace(core[|core| - 1])
    ensures CleanDate(Some([' '] + (['"'] + core + ['"']) + [' '])) == ['"'] + core + ['"']
    ensures CleanDate(Some(CleanDate(Some([' '] + (['"'] + core + ['"']) + [' '])))) == core
  {
    var quoted := ['"'] + core + ['"'];
    var s := [' '] + quoted + [' '];
    assert s[0] == ' ' && s[|s| - 1] == ' ';
    assert DropTrailing(DropLeading(s, IsQuote), IsQuote) == s;
    assert quoted[0] == '"' && quoted[|quoted| - 1] == '"';
    TrimPadded(quoted);
    CleanDateStripsQuotes(['"'], core, ['"']);
  }

  /** getPosteringsdato: the capitalised column when it is truthy, the
      lower-case one otherwise. */
  function GetPosteringsdato(row: CsvRow): (r: Option<string>)
    ensures Truthy(row.Posteringsdato) ==> r == row.Posteringsdato
    ensures !Truthy(row.Posteringsdato) ==> r == row.posteringsdato
    ensures Truthy(r) <==> Truthy(row.Posteringsdato) || Truthy(row.posteringsdato)
  {
    if Truthy(row.Posteringsdato) then row.Posteringsdato else row.posteringsdato
  }

  // ---------------------------------------------------------------------
  // The filter

  /** The filter callback: a row without a truthy posting date is dropped;
      otherwise it is kept exactly when its day string is greater than the
      last sync date. */
  function KeepRow(row: CsvRow, lastSyncDate: string, csvDay: string -> Option<string>): Result<bool, CsvError> {
    var p := GetPosteringsdato(row);
    if !Truthy(p) then Success(false)
    else
      match csvDay(CleanDate(p))
      case None => Failure(InvalidTimeValue)
      case Some(day) => Success(StrLess(lastSyncDate, day))
  }

  /** `csvTransactions.filter(...)`: the kept rows in order, or the
      exception of the first row whose date cannot be formatted. */
  function Survivors(rows: seq<CsvRow>, lastSyncDate: string, csvDay: string -> Option<string>): Result<seq<CsvRow>, CsvError>
    decreases |rows|
  {
    if rows == [] then Success([])
    else
      match KeepRow(rows[0], lastSyncDate, csvDay)
      case Failure(e) => Failure(e)
      case Success(keep) =>
        match Survivors(rows[1..], lastSyncDate, csvDay)
        case Failure(e) => Failure(e)
        case Success(rest) => Success((if keep then [rows[0]] else []) + rest)
  }

  /** A row is kept exactly when it has a truthy posting date whose day is
      strictly after the last sync date. */
  predicate Kept(row: CsvRow, lastSyncDate: string, csvDay: string -> Option<string>) {
    KeepRow(row, lastSyncDate, csvDay) == Success(true)
  }

  lemma KeptIff(row: CsvRow, lastSyncDate: string, csvDay: string -> Option<string>)
    ensures Kept(row, lastSyncDate, csvDay) <==>
              && Truthy(GetPosteringsdato(row))
              && csvDay(CleanDate(GetPosteringsdato(row))).Some?
              && StrLess(lastSyncDate, csvDay(CleanDate(GetPosteringsdato(row))).value)
  {
  }

  /** A row posted on the last sync day, or on any day that sorts before
      it, is dropped. */
  lemma NotAfterLastSyncDropped(row: CsvRow, lastSyncDate: string, csvDay: string -> Option<string>, day: string)
    requires Truthy(GetPosteringsdato(row)) && csvDay(CleanDate(GetPosteringsdato(row))) == Some(day)
    requires day == lastSyncDate || StrLess(day, lastSyncDate)
    ensures !Kept(row, lastSyncDate, csvDay)
    ensures Survivors([row], lastSyncDate, csvDay) == Success([])
  {
    if day == lastSyncDate {
      StrLessIrreflexive(day);
    } else {
      StrLessAsymmetric(day, lastSyncDate);
    }
    var rest: seq<CsvRow> := [];
    assert [row][1..] == rest;
    assert Survivors(rest, lastSyncDate, csvDay) == Success([]);
    assert [] + [] == rest;
  }

  /** The filter throws exactly when some row has a truthy posting date
      that cannot be formatted; survivors keep their order: the survivors
      of a + b are those of a followed by those of b. */
  lemma {:induction false} SurvivorsConcat(a: seq<CsvRow>, b: seq<CsvRow>, lastSyncDate: string, csvDay: string -> Option<string>)
    ensures Survivors(a + b, lastSyncDate, csvDay).Success? <==>
            Survivors(a, lastSyncDate, csvDay).Success? && Survivors(b, lastSyncDate, csvDay).Success?
    ensures Survivors(a + b, lastSyncDate, csvDay).Success? ==>
            Survivors(a + b, lastSyncDate, csvDay).value
            == Survivors(a, lastSyncDate, csvDay).value + Survivors(b, lastSyncDate, csvDay).value
    decreases |a|
  {
    if a == [] {
      assert a + b == b;
    } else {
      assert (a + b)[0] == a[0];
      assert (a + b)[1..] == a[1..] + b;
      SurvivorsConcat(a[1..], b, lastSyncDate, csvDay);
    }
  }

  /** Survivors are exactly the kept rows: each survivor is kept, and
      filtering the survivors again changes nothing. */
  lemma {:induction false} SurvivorsKept(rows: seq<CsvRow>, lastSyncDate: string, csvDay: string -> Option<string>)
    requires Survivors(rows, lastSyncDate, csvDay).Success?
    ensures var kept := Survivors(rows, lastSyncDate, csvDay).value;
            |kept| <= |rows| &&
            (forall i :: 0 <= i < |kept| ==> Kept(kept[i], lastSyncDate, csvDay)) &&
            Survivors(kept, lastSyncDate, csvDay) == Success(kept)
    decreases |rows|
  {
    if rows != [] {
      SurvivorsKept(rows[1..], lastSyncDate, csvDay);
      var rest := Survivors(rows[1..], lastSyncDate, csvDay).value;
      if Kept(rows[0], lastSyncDate, csvDay) {
        var kept := [rows[0]] + rest;
        assert kept[0] == rows[0] && kept[1..] == rest;
      } else {
        assert Survivors(rows, lastSyncDate, csvDay).value == [] + rest;
        assert [] + rest == rest;
      }
    }
  }

  /** The filter fails exactly when some row has a truthy posting date
      that cannot be formatted. */
  lemma {:induction false} SurvivorsFailIff(rows: seq<CsvRow>, lastSyncDate: string, csvDay: string -> Option<string>)
    ensures Survivors(rows, lastSyncDate, csvDay).Failure? <==>
            exists i :: 0 <= i < |rows| && KeepRow(rows[i], lastSyncDate, csvDay).Failure?
    decreases |rows|
  {
    if rows != [] {
      SurvivorsFailIff(rows[1..], lastSyncDate, csvDay);
      if exists i :: 0 <= i < |rows[1..]| && KeepRow(rows[1..][i], lastSyncDate, csvDay).Failure? {
        var i :| 0 <= i < |rows[1..]| && KeepRow(rows[1..][i], lastSyncDate, csvDay).Failure?;
        assert rows[i + 1] == rows[1..][i];
      }
      if exists i :: 0 <= i < |rows| && KeepRow(rows[i], lastSyncDate, csvDay).Failure? {
        var i :| 0 <= i < |rows| && KeepRow(rows[i], lastSyncDate, csvDay).Failure?;
        if i > 0 {
          assert rows[1..][i - 1] == rows[i];
        }
      }
    }
  }

  // ---------------------------------------------------------------------
  // The amount: `Number((parseFloat(Belop.replace(',', '.')) * 1000).toFixed(0))`

  /** The text after an optional leading minus sign. */
  function Unsigned(t: string): string {
    if t != [] && t[0] == '-' then t[1..] else t
  }

  /** The pieces of a decimal text split at its dots: at least one digit,
      and optionally one to three more digits after the single dot. */
  predicate DecimalParts(parts: seq<string>) {
    && |parts| >= 1 && parts[0] != [] && AllDigits(parts[0])
    && (|parts| == 1 || (|parts| == 2 && 1 <= |parts[1]| <= 3 && AllDigits(parts[1])))
  }

  /** The decimal texts the model reads: an optional minus sign, then
      digits with an optional dot and one to three decimals. */
  predicate DecimalText(t: string) {
    DecimalParts(Split(Unsigned(t), '.'))
  }

  function Pow10(n: nat): nat {
    if n == 0 then 1 else 10 * Pow10(n - 1)
  }

  /** The unsigned value of those pieces times 1000. */
  function PartsMilliunits(parts: seq<string>): nat
    requires DecimalParts(parts)
  {
    DigitsValue(parts[0]) * 1000 + if |parts| == 2 then DigitsValue(parts[1]) * Pow10(3 - |parts[1]|) else 0
  }

  /** The value of a decimal text times 1000; with at most three decimals
      this is an integer, so rounding leaves it alone. */
  function DecimalMilliunits(t: string): int
    requires DecimalText(t)
  {
    var magnitude: int := PartsMilliunits(Split(Unsigned(t), '.'));
    if t != [] && t[0] == '-' then -magnitude else magnitude
  }

  /** An amount column the model reads: after its first comma becomes a
      dot, a decimal text. */
  predicate WellFormedAmount(belop: string) {
    DecimalText(ReplaceFirst(belop, ',', '.'))
  }

  function CsvMilliunits(belop: string): int
    requires WellFormedAmount(belop)
  {
    DecimalMilliunits(ReplaceFirst(belop, ',', '.'))
  }

  /** Three digits, with leading zeros. */
  function Pad3(n: nat): (s: string)
    requires n < 1000
    ensures |s| == 3 && AllDigits(s)
  {
    [DigitChar(n / 100), DigitChar(n / 10 % 10), DigitChar(n % 10)]
  }

  lemma Pad3Value(n: nat)
    requires n < 1000
    ensures DigitsValue(Pad3(n)) == n
  {
    var s := Pad3(n);
    var one := [DigitChar(n / 100)];
    var two := one + [DigitChar(n / 10 % 10)];
    assert s == two + [DigitChar(n % 10)];
    assert s[..2] == two && two[..1] == one && one[..0] == [];
    assert DigitsValue(one) == n / 100;
    assert DigitsValue(two) == n / 100 * 10 + n / 10 % 10;
    assert n / 10 == n / 100 * 10 + n / 10 % 10;
    assert n == n / 10 * 10 + n % 10;
  }

  /** A text whose unsigned part splits on '.' into digits w and one to
      three digits f is read as w.f times 1000, with its sign. */
  lemma DecimalOfParts(t: string, w: string, f: string)
    requires Split(Unsigned(t), '.') == [w, f]
    requires w != [] && AllDigits(w) && 1 <= |f| <= 3 && AllDigits(f)
    ensures DecimalText(t)
    ensures var magnitude := DigitsValue(w) * 1000 + DigitsValue(f) * Pow10(3 - |f|);
            DecimalMilliunits(t) == if t != [] && t[0] == '-' then -magnitude else magnitude
  {
    assert DecimalParts([w, f]) && PartsMilliunits([w, f]) == DigitsValue(w) * 1000 + DigitsValue(f) * Pow10(3 - |f|);
  }

  /** A signed decimal text with digits w before the dot and one to three
      digits f after it is read as w.f times 1000. */
  lemma DecimalOf(negative: bool, w: string, f: string)
    requires w != [] && AllDigits(w) && 1 <= |f| <= 3 && AllDigits(f)
    ensures var t := (if negative then "-" else "") + w + "." + f;
            && DecimalText(t)
            && DecimalMilliunits(t) == (if negative then -1 else 1) * (DigitsValue(w) * 1000 + DigitsValue(f) * Pow10(3 - |f|))
  {
    var t := (if negative then "-" else "") + w + "." + f;
    SignedDecimal(negative, w, f);
    DigitsSplitAtDot(w, f);
    DecimalOfParts(t, w, f);
    var magnitude := DigitsValue(w) * 1000 + DigitsValue(f) * Pow10(3 - |f|);
    assert (if negative then -1 else 1) * magnitude == if negative then -magnitude else magnitude;
  }

  /** The sign of a signed decimal text is its leading minus, and the
      rest is the unsigned text. */
  lemma SignedDecimal(negative: bool, w: string, f: string)
    requires w != [] && AllDigits(w)
    ensures var t := (if negative then "-" else "") + w + "." + f;
            Unsigned(t) == w + ['.'] + f && (t != [] && t[0] == '-' <==> negative)
  {
    var t := (if negative then "-" else "") + w + "." + f;
    if !negative {
      assert t[0] == w[0] && IsDigit(w[0]);
    }
  }

  /** Digits, a dot and digits split at the dot into the two runs. */
  lemma DigitsSplitAtDot(w: string, f: string)
    requires AllDigits(w) && AllDigits(f)
    ensures Split(w + ['.'] + f, '.') == [w, f]
  {
    assert '.' !in w by {
      assert forall j :: 0 <= j < |w| ==> IsDigit(w[j]);
    }
    assert '.' !in f by {
      assert forall j :: 0 <= j < |f| ==> IsDigit(f[j]);
    }
    SplitAfterHead(w, '.', f);
    SplitSeparatorFree(f, '.');
  }

  /** An amount in the statement's comma form, with three decimals so that
      every milliunit shows: sign, whole units, a comma and the thousandths.
      The statement itself writes two decimals, as in `-250,00`. */
  function FormatBelop(milliunits: int): string {
    var m := if milliunits < 0 then -milliunits else milliunits;
    (if milliunits < 0 then "-" else "") + NatText(m / 1000) + "," + Pad3(m % 1000)
  }

  /** An amount in the bank's comma form, an optional minus, whole units, a
      comma and one to three decimals, reads as that decimal number of
      units. */
  lemma CommaDecimal(negative: bool, w: string, f: string)
    requires w != [] && AllDigits(w) && 1 <= |f| <= 3 && AllDigits(f)
    ensures var belop := (if negative then "-" else "") + w + "," + f;
            && WellFormedAmount(belop)
            && CsvMilliunits(belop) == (if negative then -1 else 1) * (DigitsValue(w) * 1000 + DigitsValue(f) * Pow10(3 - |f|))
            && CsvAmount(Some(belop)) == Units(CsvMilliunits(belop))
  {
    var sign := if negative then "-" else "";
    var belop := sign + w + "," + f;
    var t := sign + w + "." + f;
    assert ReplaceFirst(belop, ',', '.') == t by {
      assert belop == (sign + w) + [','] + f;
      assert ',' !in sign + w by {
        assert forall j :: 0 <= j < |w| ==> IsDigit(w[j]);
      }
      ReplaceFirstAt(sign + w, ',', '.', f);
      assert (sign + w) + ['.'] + f == t;
    }
    DecimalOf(negative, w, f);
  }

  /** Reading an amount back gives the milliunits it was written from. */
  lemma FormatBelopRoundTrip(milliunits: int)
    ensures WellFormedAmount(FormatBelop(milliunits))
    ensures CsvMilliunits(FormatBelop(milliunits)) == milliunits
    ensures CsvAmount(Some(FormatBelop(milliunits))) == Units(milliunits)
  {
    var m := if milliunits < 0 then -milliunits else milliunits;
    var w := NatText(m / 1000);
    var f := Pad3(m % 1000);
    var v := DigitsValue(w) * 1000 + DigitsValue(f) * Pow10(3 - |f|);
    assert v == m by {
      assert DigitsValue(w) == m / 1000 by { DigitsValueOfNatText(m / 1000); }
      assert DigitsValue(f) == m % 1000 by { Pad3Value(m % 1000); }
      assert Pow10(3 - |f|) == 1;
    }
    assert WellFormedAmount(FormatBelop(milliunits))
           && CsvMilliunits(FormatBelop(milliunits)) == (if milliunits < 0 then -1 else 1) * v by {
      CommaDecimal(milliunits < 0, w, f);
    }
  }

  /** The statement's usual two-decimal form: "-250,00" is -250000
      milliunits. */
  lemma NegativeTwoDecimals()
    ensures WellFormedAmount("-250,00") && CsvMilliunits("-250,00") == -250000
    ensures CsvAmount(Some("-250,00")) == Units(-250000)
  {
    var w, f := "250", "00";
    assert DigitsValue(w) == 250 by {
      assert w[..2] == "25" && "25"[..1] == "2" && "2"[..0] == "";
    }
    assert DigitsValue(f) == 0 by {
      assert f[..1] == "0" && "0"[..0] == "";
    }
    assert "-250,00" == "-" + w + "," + f;
    CommaDecimal(true, w, f);
  }

  // ---------------------------------------------------------------------
  // The map step

  /** The counter key `${posteringsdato}${Beløp}`: the raw, uncleaned
      posting date text followed by the raw amount text. */
  function CsvKey(row: CsvRow): string {
    TemplateText(GetPosteringsdato(row)) + TemplateText(row.Belop)
  }

  function CsvKeys(rows: seq<CsvRow>): (keys: seq<string>)
    ensures |keys| == |rows| && forall i :: 0 <= i < |rows| ==> keys[i] == CsvKey(rows[i])
  {
    seq(|rows|, i requires 0 <= i < |rows| => CsvKey(rows[i]))
  }

  /** Every surviving amount column that is present is one the model
      reads. */
  predicate AmountsReadable(kept: seq<CsvRow>) {
    forall i :: 0 <= i < |kept| && kept[i].Belop.Some? ==> WellFormedAmount(kept[i].Belop.value)
  }

  predicate AllHaveAmount(kept: seq<CsvRow>) {
    forall i :: 0 <= i < |kept| ==> kept[i].Belop.Some?
  }

  lemma AllHaveAmountSnoc(kept: seq<CsvRow>, i: nat)
    requires i < |kept| && AllHaveAmount(kept[..i]) && kept[i].Belop.Some?
    ensures AllHaveAmount(kept[..i + 1])
  {
    assert forall j :: 0 <= j < i ==> kept[..i + 1][j] == kept[..i][j];
  }

  /** The amount of a row: the column's milliunits when the model reads
      it, NaN otherwise. */
  function CsvAmount(belop: Option<string>): Milli {
    if belop.Some? && WellFormedAmount(belop.value) then Units(CsvMilliunits(belop.value)) else NaN
  }

  /** The candidate of one surviving row: always cleared, dated by the
      cleaned posting date, payee the description. */
  function CsvCandidate(row: CsvRow, occurrence: nat, accountId: string): SaveTransaction {
    var date := CleanDate(GetPosteringsdato(row));
    var amount := CsvAmount(row.Belop);
    SaveTransaction(accountId, date, amount, row.Beskrivelse, Cleared, ImportId(amount, date, occurrence))
  }

  function CsvCandidateOf(accountId: string): (CsvRow, nat) -> SaveTransaction {
    (row: CsvRow, occurrence: nat) => CsvCandidate(row, occurrence, accountId)
  }

  /** The rows the model reads: every survivor's amount, if present, is
      well formed. */
  predicate ReadableRows(rows: seq<CsvRow>, lastSyncDate: string, csvDay: string -> Option<string>) {
    Survivors(rows, lastSyncDate, csvDay).Success? ==> AmountsReadable(Survivors(rows, lastSyncDate, csvDay).value)
  }

  /** What mapCsvTransactionsToYnabTransactions yields: the survivors'
      candidates, numbered by the occurrence of their keys among the
      survivors; or the filter's exception; or the exception of a survivor
      without an amount. */
  function CsvBatch(rows: seq<CsvRow>, lastSyncDate: string, accountId: string, csvDay: string -> Option<string>)
    : Result<seq<SaveTransaction>, CsvError>
  {
    match Survivors(rows, lastSyncDate, csvDay)
    case Failure(e) => Failure(e)
    case Success(kept) =>
      if AllHaveAmount(kept) then Success(Numbered(kept, CsvKeys(kept), CsvCandidateOf(accountId)))
      else Failure(AmountMissing)
  }

  /** mapCsvTransactionsToYnabTransactions: filter, then one pass over the
      survivors that bumps the entry for each key and builds the
      candidate. */
  method MapCsvTransactionsToYnabTransactions(rows: seq<CsvRow>, lastSyncDate: string, accountId: string,
                                              csvDay: string -> Option<string>)
    returns (r: Result<seq<SaveTransaction>, CsvError>)
    ensures r == CsvBatch(rows, lastSyncDate, accountId, csvDay)
  {
    var filtered := Survivors(rows, lastSyncDate, csvDay);
    if filtered.Failure? {
      return Failure(filtered.error);
    }
    var kept := filtered.value;
    var occurrences: map<string, nat> := map[];
    var out: seq<SaveTransaction> := [];
    ghost var keys := CsvKeys(kept);
    ghost var make := CsvCandidateOf(accountId);
    var i := 0;
    while i < |kept|
      invariant 0 <= i <= |kept|
      invariant Counts(occurrences, keys[..i])
      invariant |out| == i && NumberedPrefix(kept, keys, make, out)
      invariant AllHaveAmount(kept[..i])
    {
      var row := kept[i];
      var key := CsvKey(row);
      assert key == keys[i];
      CounterStep(keys, i, occurrences);
      if key !in occurrences || occurrences[key] == 0 {
        occurrences := occurrences[key := 1];
      } else {
        occurrences := occurrences[key := occurrences[key] + 1];
      }
      var occurrence := occurrences[key];
      if row.Belop.None? {
        return Failure(AmountMissing);
      }
      NumberedPrefixSnoc(kept, keys, make, out);
      AllHaveAmountSnoc(kept, i);
      out := out + [CsvCandidate(row, occurrence, accountId)];
      i := i + 1;
    }
    NumberedPrefixFull(kept, keys, make, out);
    assert kept[..i] == kept;
    return Success(out);
  }

  /** One candidate per survivor, in order: cleared, dated by the cleaned
      posting date, payee the description, amount read from the column,
      and an import id made of that amount, that date and the occurrence of
      the row's key among the survivors, which is the number of survivors
      up to it with the same key. */
  lemma CsvBatchCandidates(rows: seq<CsvRow>, lastSyncDate: string, accountId: string, csvDay: string -> Option<string>, i: nat)
    requires CsvBatch(rows, lastSyncDate, accountId, csvDay).Success?
    ensures var out := CsvBatch(rows, lastSyncDate, accountId, csvDay).value;
            var kept := Survivors(rows, lastSyncDate, csvDay).value;
            |out| == |kept| &&
            (i < |kept| ==>
              && Kept(kept[i], lastSyncDate, csvDay)
              && kept[i].Belop.Some?
              && out[i].cleared == Cleared
              && out[i].date == CleanDate(GetPosteringsdato(kept[i]))
              && out[i].payeeName == kept[i].Beskrivelse
              && out[i].amount == CsvAmount(kept[i].Belop)
              && out[i].importId == ImportId(out[i].amount, out[i].date, |SameKeyUpTo(CsvKeys(kept), i)|))
  {
    SurvivorsKept(rows, lastSyncDate, csvDay);
    var kept := Survivors(rows, lastSyncDate, csvDay).value;
    if i < |kept| {
      NumberedAt(kept, CsvKeys(kept), CsvCandidateOf(accountId), i);
      OccurrenceIsRank(CsvKeys(kept), i);
    }
  }

  /** When every surviving amount is one the model reads, each candidate's
      amount is its column's milliunits. */
  lemma CsvBatchAmounts(rows: seq<CsvRow>, lastSyncDate: string, accountId: string, csvDay: string -> Option<string>, i: nat)
    requires ReadableRows(rows, lastSyncDate, csvDay) && CsvBatch(rows, lastSyncDate, accountId, csvDay).Success?
    requires i < |Survivors(rows, lastSyncDate, csvDay).value|
    ensures var out := CsvBatch(rows, lastSyncDate, accountId, csvDay).value;
            var kept := Survivors(rows, lastSyncDate, csvDay).value;
            i < |out| && kept[i].Belop.Some? && out[i].amount == Units(CsvMilliunits(kept[i].Belop.value))
  {
    CsvBatchCandidates(rows, lastSyncDate, accountId, csvDay, i);
  }

  /** Rows that the filter drops take no part in the numbering: mapping the
      survivors alone gives the same candidates. */
  lemma DroppedRowsDoNotCount(rows: seq<CsvRow>, lastSyncDate: string, accountId: string, csvDay: string -> Option<string>)
    requires Survivors(rows, lastSyncDate, csvDay).Success?
    ensures CsvBatch(Survivors(rows, lastSyncDate, csvDay).value, lastSyncDate, accountId, csvDay)
            == CsvBatch(rows, lastSyncDate, accountId, csvDay)
  {
    SurvivorsKept(rows, lastSyncDate, csvDay);
  }

  /** Two survivors with the same posting date and amount texts get
      import ids that differ, the later one numbered higher. */
  lemma SameRowTextsDistinctIds(rows: seq<CsvRow>, lastSyncDate: string, accountId: string, csvDay: string -> Option<string>,
                                i: nat, j: nat)
    requires CsvBatch(rows, lastSyncDate, accountId, csvDay).Success?
    requires i < j < |Survivors(rows, lastSyncDate, csvDay).value|
    requires var kept := Survivors(rows, lastSyncDate, csvDay).value;
             GetPosteringsdato(kept[i]) == GetPosteringsdato(kept[j]) && kept[i].Belop == kept[j].Belop
    ensures var out := CsvBatch(rows, lastSyncDate, accountId, csvDay).value;
            out[i].importId != out[j].importId
  {
    var kept := Survivors(rows, lastSyncDate, csvDay).value;
    var out := CsvBatch(rows, lastSyncDate, accountId, csvDay).value;
    var keys := CsvKeys(kept);
    OccurrenceIncreases(keys, i, j);
    NumberedAt(kept, keys, CsvCandidateOf(accountId), i);
    NumberedAt(kept, keys, CsvCandidateOf(accountId), j);
    ImportIdOccurrenceInjective(out[i].amount, out[i].date, Occurrence(keys, i), Occurrence(keys, j));
  }

  // ---------------------------------------------------------------------
  // The latest ledger date

  /** The ledger fetch failed (the exception the try block catches). */
  datatype FetchError = FetchFailed

  /** `transactions.filter((t) => !t.transfer_account_id)`. */
  function NonTransfers(ts: seq<LedgerTransaction>): (r: seq<LedgerTransaction>)
    ensures |r| <= |ts|
    ensures forall k :: 0 <= k < |r| ==> !Truthy(r[k].transferAccountId)
    decreases |ts|
  {
    if ts == [] then []
    else NonTransfers(ts[..|ts| - 1]) + if Truthy(ts[|ts| - 1].transferAccountId) then [] else [ts[|ts| - 1]]
  }

  /** The selection inside getLatestYnabTransactionDate: the date of the
      last non-transfer entry, or '1900-01-01' when there is none or the
      fetch failed. */
  function LatestYnabTransactionDate(fetched: Result<seq<LedgerTransaction>, FetchError>): string {
    match fetched
    case Failure(_) => "1900-01-01"
    case Success(ts) =>
      var kept := NonTransfers(ts);
      if |kept| == 0 then "1900-01-01" else kept[|kept| - 1].date
  }

  lemma {:induction false} NoNonTransfers(ts: seq<LedgerTransaction>)
    ensures NonTransfers(ts) == [] <==> forall k :: 0 <= k < |ts| ==> Truthy(ts[k].transferAccountId)
    decreases |ts|
  {
    if ts != [] {
      NoNonTransfers(ts[..|ts| - 1]);
      assert forall k :: 0 <= k < |ts| - 1 ==> ts[..|ts| - 1][k] == ts[k];
    }
  }

  /** The selection picks the date of the last entry that is not a
      transfer, whatever follows it; with no such entry, or when the fetch
      fails, it falls back to '1900-01-01'. */
  lemma {:induction false} LatestIsLastNonTransfer(ts: seq<LedgerTransaction>, k: nat)
    requires k < |ts| && !Truthy(ts[k].transferAccountId)
    requires forall m :: k < m < |ts| ==> Truthy(ts[m].transferAccountId)
    ensures LatestYnabTransactionDate(Success(ts)) == ts[k].date
    decreases |ts|
  {
    var init := ts[..|ts| - 1];
    if k < |ts| - 1 {
      assert forall m :: k < m < |init| ==> init[m] == ts[m];
      LatestIsLastNonTransfer(init, k);
      assert NonTransfers(ts) == NonTransfers(init) + [];
    }
  }

  lemma LatestFallback(fetched: Result<seq<LedgerTransaction>, FetchError>)
    requires fetched.Success? ==> forall k :: 0 <= k < |fetched.value| ==> Truthy(fetched.value[k].transferAccountId)
    ensures LatestYnabTransactionDate(fetched) == "1900-01-01"
  {
    if fetched.Success? {
      NoNonTransfers(fetched.value);
    }
  }
}
