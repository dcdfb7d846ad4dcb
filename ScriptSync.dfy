/** The older command-line sync script (sync.ts): the same mapper as the
    serverless sync, but the day is the calendar day in UTC, read off the
    ISO text of the date, and the amount product is not rounded (with
    amounts in øre the product is already an integer, so the two agree).

    `Date.prototype.toISOString` is a library call; it is the parameter
    `isoString`, giving the ISO text of an epoch date. */
module ScriptSync {
  import opened Wrappers
  import opened JsText
  import opened Occurrences
  import opened Transactions
  import opened ImportIds
  import opened ApiSync

  /** getDateString: the ISO text up to its first 'T'. */
  function UtcDay(isoString: int -> string, date: int): string {
    Split(isoString(date), 'T')[0]
  }

  /** The day formatting of this script, as a function of the epoch date. */
  function UtcDayOf(isoString: int -> string): int -> string {
    date => UtcDay(isoString, date)
  }

  /** For ISO text of the usual shape `<day>T<time>`, the day is the part
      before the 'T'. */
  lemma UtcDayOfIsoText(isoString: int -> string, date: int, day: string, time: string)
    requires 'T' !in day && isoString(date) == day + "T" + time
    ensures UtcDay(isoString, date) == day
    ensures UtcDayOf(isoString)(date) == day
  {
    SplitAfterHead(day, 'T', time);
  }

  /** mapBankTransactionsToYnabTransactions of sync.ts: a fresh occurrence
      dictionary and one pass over the batch, with the UTC day. */
  method MapBankTransactionsToYnabTransactions(ts: seq<BankTransaction>, accountId: string, isoString: int -> string)
    returns (r: Result<seq<SaveTransaction>, SyncError>)
    ensures r == MappedBatch(ts, accountId, UtcDayOf(isoString))
  {
    var occurrences: map<TransactionKey, nat> := map[];
    var out: seq<SaveTransaction> := [];
    ghost var keys := KeysOf(ts);
    var i := 0;
    while i < |ts|
      invariant 0 <= i <= |ts|
      invariant Counts(occurrences, keys[..i])
      invariant |out| == i && CandidatePrefix(ts, out, accountId, UtcDayOf(isoString))
    {
      var t := ts[i];
      var key := TransactionKey(t.date, t.amount);
      ghost var before := occurrences;
      if key !in occurrences || occurrences[key] == 0 {
        occurrences := occurrences[key := 1];
      } else {
        occurrences := occurrences[key := occurrences[key] + 1];
      }
      CounterStepTo(keys, i, before, occurrences);
      var occurrence := occurrences[key];
      if t.date.None? {
        return Failure(InvalidTimeValue);
      }
      CandidatePrefixSnoc(ts, out, accountId, UtcDayOf(isoString));
      out := out + [Candidate(t, occurrence, accountId, UtcDayOf(isoString))];
      i := i + 1;
    }
    MappedBatchIsCandidates(ts, out, accountId, UtcDayOf(isoString));
    return Success(out);
  }

  /** The two mappers differ only in the day: on a batch whose dates have
      the same Oslo and UTC day, they give the same candidates and import
      ids, and they throw on the same batches. */
  lemma MappersAgreeOnDay(ts: seq<BankTransaction>, accountId: string, osloDay: int -> string, isoString: int -> string)
    requires forall i :: 0 <= i < |ts| && ts[i].date.Some? ==> osloDay(ts[i].date.value) == UtcDay(isoString, ts[i].date.value)
    ensures MappedBatch(ts, accountId, osloDay) == MappedBatch(ts, accountId, UtcDayOf(isoString))
  {
    if AllDated(ts) {
      var out := MappedBatch(ts, accountId, osloDay).value;
      forall i | 0 <= i < |ts|
        ensures out[i] == Candidate(ts[i], Occurrence(KeysOf(ts), i), accountId, UtcDayOf(isoString))
      {
        assert UtcDayOf(isoString)(ts[i].date.value) == UtcDay(isoString, ts[i].date.value);
      }
      MappedBatchIsCandidates(ts, out, accountId, UtcDayOf(isoString));
    }
  }

  /** A candidate of this script: its date is the ISO day of the
      transaction, its amount the unrounded product, and the import id
      carries exactly those two fields. */
  lemma ScriptCandidate(ts: seq<BankTransaction>, accountId: string, isoString: int -> string, i: nat, day: string, time: string)
    requires MappedBatch(ts, accountId, UtcDayOf(isoString)).Success? && i < |ts|
    requires 'T' !in day && isoString(ts[i].date.value) == day + "T" + time
    ensures
      var c := MappedBatch(ts, accountId, UtcDayOf(isoString)).value[i];
      && c.date == day
      && c.amount == MilliOf(ts[i].amount)
      && c.importId == "YNAB:" + AmountText(c.amount) + ":" + day + ":" + NatText(Occurrence(KeysOf(ts), i))
  {
    MappedBatchCandidates(ts, accountId, UtcDayOf(isoString));
    UtcDayOfIsoText(isoString, ts[i].date.value, day, time);
  }
}
