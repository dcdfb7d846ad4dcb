/** The reconciliation engine of the bank-to-ledger sync (api/sync.ts):
    turning bank transactions into ledger candidates that carry an import
    id, and deciding for each bank transaction whether to add it, to mark a
    matching ledger entry cleared, or to leave it alone.

    Formatting an epoch date as an Oslo calendar day is a library call; it
    is the parameter `osloDay`. */
module ApiSync {
  import opened Wrappers
  import opened JsText
  import opened Occurrences
  import opened Transactions
  import opened ImportIds

  /** The exceptions of the sync: date formatting rejects the Invalid Date
      that `new Date(undefined)` makes of a missing date, and `toLowerCase`
      cannot be called on a ledger payee that is `null`. */
  datatype SyncError = InvalidTimeValue | PayeeTypeError

  /** The counter key `${date}${amount}`, kept as the pair it is made of. */
  datatype TransactionKey = TransactionKey(date: Option<int>, amount: Option<int>)

  function KeyOf(t: BankTransaction): TransactionKey {
    TransactionKey(t.date, t.amount)
  }

  function KeysOf(ts: seq<BankTransaction>): (keys: seq<TransactionKey>)
    ensures |keys| == |ts| && forall i :: 0 <= i < |ts| ==> keys[i] == KeyOf(ts[i])
  {
    seq(|ts|, i requires 0 <= i < |ts| => KeyOf(ts[i]))
  }

  /** The candidate's amount: the bank amount times 1000, or NaN when the
      bank left it out. */
  function MilliOf(amount: Option<int>): Milli {
    match amount
    case Some(ore) => Units(Milliunits(ore))
    case None => NaN
  }

  /** The candidate made of one dated bank transaction and its occurrence. */
  function Candidate(t: BankTransaction, occurrence: nat, accountId: string, osloDay: int -> string): SaveTransaction
    requires t.date.Some?
  {
    var date := osloDay(t.date.value);
    var amount := MilliOf(t.amount);
    SaveTransaction(
      accountId, date, amount, t.cleanedDescription,
      if t.bookingStatus == BOOKED then Cleared else Uncleared,
      ImportId(amount, date, occurrence))
  }

  /** What mapping a batch yields: one candidate per bank transaction, in
      order, numbered by the occurrence of its key; or the exception when
      some transaction has no date. */
  function MappedBatch(ts: seq<BankTransaction>, accountId: string, osloDay: int -> string)
    : Result<seq<SaveTransaction>, SyncError>
  {
    if AllDated(ts) then Success(seq(|ts|, i requires 0 <= i < |ts| => Candidate(ts[i], Occurrence(KeysOf(ts), i), accountId, osloDay)))
    else Failure(InvalidTimeValue)
  }

  predicate AllDated(ts: seq<BankTransaction>) {
    forall i :: 0 <= i < |ts| ==> ts[i].date.Some?
  }

  /** The mapper throws exactly when some transaction has no date;
      otherwise it returns one candidate per transaction, in input order,
      whose date is the transaction's Oslo day, whose amount is the bank
      amount times 1000, whose payee is the cleaned description, which is
      cleared exactly when the transaction is booked, and whose import id is
      made of that amount, that day and the occurrence of the transaction's
      key. */
  lemma MappedBatchCandidates(ts: seq<BankTransaction>, accountId: string, osloDay: int -> string)
    ensures MappedBatch(ts, accountId, osloDay).Failure? <==> exists i :: 0 <= i < |ts| && ts[i].date.None?
    ensures
      var r := MappedBatch(ts, accountId, osloDay);
      r.Success? ==>
        |r.value| == |ts| &&
        forall i :: 0 <= i < |ts| ==>
          && r.value[i].accountId == accountId
          && r.value[i].date == osloDay(ts[i].date.value)
          && r.value[i].amount == MilliOf(ts[i].amount)
          && r.value[i].payeeName == ts[i].cleanedDescription
          && (r.value[i].cleared == Cleared <==> ts[i].bookingStatus == BOOKED)
          && r.value[i].importId == ImportId(r.value[i].amount, r.value[i].date, Occurrence(KeysOf(ts), i))
  {
  }

  /** mapBankTransactionsToYnabTransactions: a fresh occurrence dictionary,
      then one pass over the batch that bumps the entry for each key and
      builds the candidate. */
  method MapBankTransactionsToYnabTransactions(ts: seq<BankTransaction>, accountId: string, osloDay: int -> string)
    returns (r: Result<seq<SaveTransaction>, SyncError>)
    ensures r == MappedBatch(ts, accountId, osloDay)
  {
    var occurrences: map<TransactionKey, nat> := map[];
    var out: seq<SaveTransaction> := [];
    ghost var keys := KeysOf(ts);
    var i := 0;
    while i < |ts|
      invariant 0 <= i <= |ts|
      invariant Counts(occurrences, keys[..i])
      invariant |out| == i && CandidatePrefix(ts, out, accountId, osloDay)
    {
      var t := ts[i];
      var key := TransactionKey(t.date, t.amount);
      ghost var before := occurrences;
      if key !in occurrences || occurrences[key] == 0 {
        occurrences := occurrences[key := 1];
      } else {
        occurrences := occurrences[key := occurrences[key] + 1];
      }
      CounterStepTo(keys, i, before, occurrences);
      var occurrence := occurrences[key];
      if t.date.None? {
        return Failure(InvalidTimeValue);
      }
      // the candidate object literal: Oslo day, amount times 1000, payee,
      // cleared flag and import id
      CandidatePrefixSnoc(ts, out, accountId, osloDay);
      out := out + [Candidate(t, occurrence, accountId, osloDay)];
      i := i + 1;
    }
    MappedBatchIsCandidates(ts, out, accountId, osloDay);
    return Success(out);
  }

  /** out holds the candidates of the first |out| transactions of ts. */
  ghost predicate CandidatePrefix(ts: seq<BankTransaction>, out: seq<SaveTransaction>, accountId: string, osloDay: int -> string) {
    |out| <= |ts| &&
    forall j :: 0 <= j < |out| ==> ts[j].date.Some? && out[j] == Candidate(ts[j], Occurrence(KeysOf(ts), j), accountId, osloDay)
  }

  lemma CandidatePrefixSnoc(ts: seq<BankTransaction>, out: seq<SaveTransaction>, accountId: string, osloDay: int -> string)
    requires CandidatePrefix(ts, out, accountId, osloDay) && |out| < |ts| && ts[|out|].date.Some?
    ensures CandidatePrefix(ts, out + [Candidate(ts[|out|], Occurrence(KeysOf(ts), |out|), accountId, osloDay)], accountId, osloDay)
  {
  }

  /** A dated batch maps to the sequence of its candidates. */
  lemma MappedBatchIsCandidates(ts: seq<BankTransaction>, out: seq<SaveTransaction>, accountId: string, osloDay: int -> string)
    requires CandidatePrefix(ts, out, accountId, osloDay) && |out| == |ts|
    ensures MappedBatch(ts, accountId, osloDay) == Success(out)
  {
    var keys := KeysOf(ts);
    assert out == seq(|ts|, i requires 0 <= i < |ts| => Candidate(ts[i], Occurrence(keys, i), accountId, osloDay));
  }

  /** The k-th transaction of a batch with a given (date, amount) key gets
      occurrence k in its import id. */
  lemma ImportIdCountsRepeats(ts: seq<BankTransaction>, accountId: string, osloDay: int -> string, i: nat)
    requires MappedBatch(ts, accountId, osloDay).Success? && i < |ts|
    ensures
      var c := MappedBatch(ts, accountId, osloDay).value[i];
      c.importId == ImportId(c.amount, c.date, |set j: nat | j <= i && KeyOf(ts[j]) == KeyOf(ts[i])|)
  {
    var keys := KeysOf(ts);
    var c := MappedBatch(ts, accountId, osloDay).value[i];
    assert c == Candidate(ts[i], Occurrence(keys, i), accountId, osloDay);
    OccurrenceIsRank(keys, i);
    assert SameKeyUpTo(keys, i) == set j: nat | j <= i && KeyOf(ts[j]) == KeyOf(ts[i]);
  }

  /** The first transaction with a key gets occurrence 1, and only it. */
  lemma FirstOfKeyGetsOne(ts: seq<BankTransaction>, accountId: string, osloDay: int -> string, i: nat)
    requires MappedBatch(ts, accountId, osloDay).Success? && i < |ts|
    ensures
      var c := MappedBatch(ts, accountId, osloDay).value[i];
      c.importId == ImportId(c.amount, c.date, 1) <==> forall j :: 0 <= j < i ==> KeyOf(ts[j]) != KeyOf(ts[i])
  {
    var c := MappedBatch(ts, accountId, osloDay).value[i];
    OccurrenceFromOne(KeysOf(ts), i);
    ImportIdOccurrenceInjective(c.amount, c.date, Occurrence(KeysOf(ts), i), 1);
  }

  /** Two transactions of a batch with the same key get candidates with the
      same amount and date whose import ids share everything but the
      occurrence suffix, and the later one's occurrence is larger. */
  lemma SameKeyDiffersOnlyInSuffix(ts: seq<BankTransaction>, accountId: string, osloDay: int -> string, i: nat, j: nat)
    requires MappedBatch(ts, accountId, osloDay).Success?
    requires i < j < |ts| && KeyOf(ts[i]) == KeyOf(ts[j])
    ensures
      var out := MappedBatch(ts, accountId, osloDay).value;
      && out[i].amount == out[j].amount
      && out[i].date == out[j].date
      && out[i].importId == ImportIdStem(out[i].amount, out[i].date) + NatText(Occurrence(KeysOf(ts), i))
      && out[j].importId == ImportIdStem(out[i].amount, out[i].date) + NatText(Occurrence(KeysOf(ts), j))
      && Occurrence(KeysOf(ts), i) < Occurrence(KeysOf(ts), j)
      && out[i].importId != out[j].importId
  {
    var out := MappedBatch(ts, accountId, osloDay).value;
    OccurrenceIncreases(KeysOf(ts), i, j);
    ImportIdOccurrenceInjective(out[i].amount, out[i].date, Occurrence(KeysOf(ts), i), Occurrence(KeysOf(ts), j));
  }

  /** When the day strings hold no colon, two candidates of one batch share
      an import id only if their transactions have different keys but the
      same amount, the same day and the same occurrence. */
  lemma ImportIdCollisions(ts: seq<BankTransaction>, accountId: string, osloDay: int -> string, i: nat, j: nat)
    requires MappedBatch(ts, accountId, osloDay).Success?
    requires i < |ts| && j < |ts| && i != j
    requires ':' !in osloDay(ts[i].date.value) && ':' !in osloDay(ts[j].date.value)
    ensures
      var out := MappedBatch(ts, accountId, osloDay).value;
      out[i].importId == out[j].importId <==>
        && KeyOf(ts[i]) != KeyOf(ts[j])
        && out[i].amount == out[j].amount
        && out[i].date == out[j].date
        && Occurrence(KeysOf(ts), i) == Occurrence(KeysOf(ts), j)
  {
    var out := MappedBatch(ts, accountId, osloDay).value;
    var keys := KeysOf(ts);
    ImportIdInjective(out[i].amount, out[i].date, Occurrence(keys, i), out[j].amount, out[j].date, Occurrence(keys, j));
    if keys[i] == keys[j] {
      if i < j { OccurrenceIncreases(keys, i, j); } else { OccurrenceIncreases(keys, j, i); }
    }
  }

  /** The key is the raw timestamp but the import id holds only the day: two
      transactions of the same amount at different times of one Oslo day
      get the same import id. */
  lemma SameDayDifferentTimestampsCollide(t1: BankTransaction, t2: BankTransaction, accountId: string, osloDay: int -> string)
    requires t1.date.Some? && t2.date.Some? && t1.date != t2.date
    requires osloDay(t1.date.value) == osloDay(t2.date.value) && t1.amount == t2.amount
    ensures
      var out := MappedBatch([t1, t2], accountId, osloDay).value;
      out[0].importId == out[1].importId
  {
    var keys := KeysOf([t1, t2]);
    OccurrenceFromOne(keys, 0);
    OccurrenceFromOne(keys, 1);
  }

  /** Mapping is stable as a batch grows: the candidates of a batch's first
      transactions, import ids included, do not depend on what follows. */
  lemma MappedBatchPrefixStable(a: seq<BankTransaction>, b: seq<BankTransaction>, accountId: string, osloDay: int -> string)
    requires MappedBatch(a + b, accountId, osloDay).Success?
    ensures MappedBatch(a, accountId, osloDay).Success?
    ensures MappedBatch(a, accountId, osloDay).value == MappedBatch(a + b, accountId, osloDay).value[..|a|]
  {
    assert forall i :: 0 <= i < |a| ==> (a + b)[i] == a[i];
    assert KeysOf(a + b) == KeysOf(a) + KeysOf(b);
    forall i | 0 <= i < |a|
      ensures Occurrence(KeysOf(a + b), i) == Occurrence(KeysOf(a), i)
    {
      OccurrencePrefix(KeysOf(a), KeysOf(b), i);
    }
  }

  /** A one-transaction batch: occurrence 1. */
  lemma SingletonBatch(t: BankTransaction, accountId: string, osloDay: int -> string)
    ensures MappedBatch([t], accountId, osloDay)
            == if t.date.Some? then Success([Candidate(t, 1, accountId, osloDay)]) else Failure(InvalidTimeValue)
  {
    var keys := KeysOf([t]);
    assert keys[..1] == [KeyOf(t)];
    assert Count([KeyOf(t)], KeyOf(t)) == 1 by {
      assert [KeyOf(t)][..0] == [];
    }
    if t.date.Some? {
      assert seq(1, i requires 0 <= i < 1 => Candidate([t][i], Occurrence(keys, i), accountId, osloDay))
             == [Candidate(t, 1, accountId, osloDay)];
    }
  }

  // ---------------------------------------------------------------------
  // Reconciliation against the ledger's recent entries

  /** The predicate given to `find` returns true: the bank amount is
      present and the ledger payee is not `undefined`, the ledger amount is
      the bank amount times 1000, and the lower-cased description contains
      the lower-cased payee. */
  predicate Matches(b: BankTransaction, e: LedgerTransaction) {
    if b.amount.None? || e.payeeName.Undefined? then false
    else
      e.amount == Milliunits(b.amount.value) &&
      match b.description
      case None => false
      case Some(d) => e.payeeName.Defined? && Includes(ToLower(d), ToLower(e.payeeName.value))
  }

  /** The predicate given to `find` throws: the `undefined` test lets a
      `null` payee through, and once the amounts agree and the description
      is present, calling `toLowerCase` on that `null` is a TypeError. */
  predicate MatchThrows(b: BankTransaction, e: LedgerTransaction) {
    if b.amount.None? || e.payeeName.Undefined? then false
    else e.amount == Milliunits(b.amount.value) && b.description.Some? && e.payeeName.Null?
  }

  /** `find` stops at an entry: its predicate is true there, or throws. */
  predicate Stops(b: BankTransaction, e: LedgerTransaction) {
    Matches(b, e) || MatchThrows(b, e)
  }

  /** The match predicate holds exactly when all four conditions do, the
      containment read as "the payee occurs at some index"; it throws
      exactly on a `null` payee whose amount agrees, with a description
      present. The two never happen together. */
  lemma MatchesIff(b: BankTransaction, e: LedgerTransaction)
    ensures Matches(b, e) <==>
      && b.amount.Some?
      && e.payeeName.Defined?
      && b.description.Some?
      && e.amount == Milliunits(b.amount.value)
      && exists k: nat :: OccursAt(ToLower(b.description.value), ToLower(e.payeeName.value), k)
    ensures MatchThrows(b, e) <==>
      b.amount.Some? && e.payeeName.Null? && b.description.Some? && e.amount == Milliunits(b.amount.value)
    ensures !(Matches(b, e) && MatchThrows(b, e))
  {
    if b.description.Some? && e.payeeName.Defined? {
      IncludesIff(ToLower(b.description.value), ToLower(e.payeeName.value));
    }
  }

  /** Matching ignores case on both sides. */
  lemma MatchesIgnoresCase(b: BankTransaction, e: LedgerTransaction)
    requires b.description.Some? && e.payeeName.Defined?
    ensures Matches(b, e) == Matches(b.(description := Some(ToLower(b.description.value))),
                                     e.(payeeName := Defined(ToLower(e.payeeName.value))))
  {
    ToLowerIdempotent(b.description.value);
    ToLowerIdempotent(e.payeeName.value);
  }

  /** `ynabTransactions.find(...)`: the index of the first ledger entry at
      which the search stops, if any; the caller tells a match from a
      throw. */
  function FindMatch(b: BankTransaction, ledger: seq<LedgerTransaction>): (r: Option<nat>)
    ensures r.Some? ==> r.value < |ledger| && Stops(b, ledger[r.value])
                        && forall k :: 0 <= k < r.value ==> !Stops(b, ledger[k])
    ensures r.None? ==> forall k :: 0 <= k < |ledger| ==> !Stops(b, ledger[k])
    decreases |ledger|
  {
    if ledger == [] then None
    else if Stops(b, ledger[0]) then Some(0)
    else
      match FindMatch(b, ledger[1..])
      case Some(k) => Some(k + 1)
      case None => None
  }

  /** What happens to one bank transaction. */
  datatype Decision = Add | Clear(entry: LedgerTransaction) | Skip | Throws

  function Decide(b: BankTransaction, ledger: seq<LedgerTransaction>): Decision {
    if b.bookingStatus == PENDING then Add
    else
      match FindMatch(b, ledger)
      case None => Add
      case Some(j) =>
        if MatchThrows(b, ledger[j]) then Throws
        else if ledger[j].cleared == Uncleared then Clear(ledger[j].(cleared := Cleared))
        else Skip
  }

  /** Entry j of the ledger is the first one that matches b, and the search
      does not throw before it. */
  ghost predicate IsFirstMatch(b: BankTransaction, ledger: seq<LedgerTransaction>, j: nat) {
    j < |ledger| && Matches(b, ledger[j]) && forall k :: 0 <= k < j ==> !Stops(b, ledger[k])
  }

  /** The search for b throws at entry j, having found no match before. */
  ghost predicate IsFirstThrow(b: BankTransaction, ledger: seq<LedgerTransaction>, j: nat) {
    j < |ledger| && MatchThrows(b, ledger[j]) && forall k :: 0 <= k < j ==> !Stops(b, ledger[k])
  }

  /** The decision, stated through the match predicate: a pending
      transaction is added; a booked one is added when no entry matches or
      throws; when the first match is uncleared, that entry is cleared with
      only its flag changed; when the first match is cleared already,
      nothing happens; when the search meets a `null` payee first, it
      throws. */
  lemma DecideCases(b: BankTransaction, ledger: seq<LedgerTransaction>)
    ensures b.bookingStatus == PENDING ==> Decide(b, ledger) == Add
    ensures b.bookingStatus == BOOKED && (forall k :: 0 <= k < |ledger| ==> !Matches(b, ledger[k]) && !MatchThrows(b, ledger[k]))
            ==> Decide(b, ledger) == Add
    ensures forall j: nat :: b.bookingStatus == BOOKED && IsFirstMatch(b, ledger, j) ==>
              Decide(b, ledger) == if ledger[j].cleared == Uncleared then Clear(ledger[j].(cleared := Cleared)) else Skip
    ensures forall j: nat :: b.bookingStatus == BOOKED && IsFirstThrow(b, ledger, j) ==> Decide(b, ledger) == Throws
  {
    forall j: nat | b.bookingStatus == BOOKED && (IsFirstMatch(b, ledger, j) || IsFirstThrow(b, ledger, j))
      ensures FindMatch(b, ledger) == Some(j)
    {
      var r := FindMatch(b, ledger);
      assert r.Some?;
    }
    forall j: nat | b.bookingStatus == BOOKED && IsFirstMatch(b, ledger, j)
      ensures !MatchThrows(b, ledger[j])
    {
      MatchesIff(b, ledger[j]);
    }
  }

  /** The two outputs of dedupeTransactions. */
  datatype Reconciliation = Reconciliation(
    transactionsToClear: seq<LedgerTransaction>,
    transactionsToAdd: seq<SaveTransaction>)

  /** The exception one bank transaction raises, if any: the TypeError of a
      `null` payee during its search, or the mapper's exception when it is
      to be added and has no date. */
  function Fault(b: BankTransaction, ledger: seq<LedgerTransaction>): Option<SyncError> {
    match Decide(b, ledger)
    case Throws => Some(PayeeTypeError)
    case Add => if b.date.None? then Some(InvalidTimeValue) else None
    case _ => None
  }

  /** No bank transaction raises an exception. */
  predicate Faultless(bank: seq<BankTransaction>, ledger: seq<LedgerTransaction>) {
    forall i :: 0 <= i < |bank| ==> Fault(bank[i], ledger).None?
  }

  /** The exception of the first bank transaction that raises one, which
      is where the `forEach` loop stops; none exactly when no transaction
      raises one. */
  function FirstFault(bank: seq<BankTransaction>, ledger: seq<LedgerTransaction>): (r: Option<SyncError>)
    ensures r.None? <==> Faultless(bank, ledger)
    decreases |bank|
  {
    if bank == [] then None
    else
      var init := bank[..|bank| - 1];
      assert forall i :: 0 <= i < |init| ==> init[i] == bank[i];
      match FirstFault(init, ledger)
      case Some(e) => Some(e)
      case None => Fault(bank[|bank| - 1], ledger)
  }

  /** The cleared entries, in bank order. */
  function ClearsOf(bank: seq<BankTransaction>, ledger: seq<LedgerTransaction>): seq<LedgerTransaction>
    decreases |bank|
  {
    if bank == [] then []
    else
      ClearsOf(bank[..|bank| - 1], ledger) +
      match Decide(bank[|bank| - 1], ledger)
      case Clear(e) => [e]
      case _ => []
  }

  /** The add candidates, in bank order, each mapped on its own. */
  function AddsOf(bank: seq<BankTransaction>, ledger: seq<LedgerTransaction>, accountId: string, osloDay: int -> string)
    : seq<SaveTransaction>
    requires Faultless(bank, ledger)
    decreases |bank|
  {
    if bank == [] then []
    else
      var init := bank[..|bank| - 1];
      assert forall i :: 0 <= i < |init| ==> init[i] == bank[i];
      AddsOf(init, ledger, accountId, osloDay) +
      if Decide(bank[|bank| - 1], ledger) == Add then [Candidate(bank[|bank| - 1], 1, accountId, osloDay)] else []
  }

  /** What dedupeTransactions yields. */
  function Reconcile(bank: seq<BankTransaction>, ledger: seq<LedgerTransaction>, accountId: string, osloDay: int -> string)
    : Result<Reconciliation, SyncError>
  {
    match FirstFault(bank, ledger)
    case Some(e) => Failure(e)
    case None => Success(Reconciliation(ClearsOf(bank, ledger), AddsOf(bank, ledger, accountId, osloDay)))
  }

  lemma ClearsOfSnoc(bank: seq<BankTransaction>, b: BankTransaction, ledger: seq<LedgerTransaction>)
    ensures ClearsOf(bank + [b], ledger)
            == ClearsOf(bank, ledger) + match Decide(b, ledger) case Clear(e) => [e] case _ => []
  {
    assert (bank + [b])[..|bank|] == bank;
  }

  lemma FaultlessSnoc(bank: seq<BankTransaction>, b: BankTransaction, ledger: seq<LedgerTransaction>)
    ensures Faultless(bank + [b], ledger) <==> Faultless(bank, ledger) && Fault(b, ledger).None?
  {
    assert forall i :: 0 <= i < |bank| ==> (bank + [b])[i] == bank[i];
    assert (bank + [b])[|bank|] == b;
  }

  lemma FirstFaultSnoc(bank: seq<BankTransaction>, b: BankTransaction, ledger: seq<LedgerTransaction>)
    ensures FirstFault(bank + [b], ledger) == match FirstFault(bank, ledger) case Some(e) => Some(e) case None => Fault(b, ledger)
  {
    assert (bank + [b])[..|bank|] == bank;
  }

  lemma AddsOfSnoc(bank: seq<BankTransaction>, b: BankTransaction, ledger: seq<LedgerTransaction>, accountId: string, osloDay: int -> string)
    requires Faultless(bank + [b], ledger)
    ensures Faultless(bank, ledger) && Fault(b, ledger).None?
    ensures AddsOf(bank + [b], ledger, accountId, osloDay)
            == AddsOf(bank, ledger, accountId, osloDay)
               + if Decide(b, ledger) == Add then [Candidate(b, 1, accountId, osloDay)] else []
  {
    FaultlessSnoc(bank, b, ledger);
    assert (bank + [b])[..|bank|] == bank;
  }

  /** After the first i bank transactions, none has thrown, and the two
      lists hold the clears and adds of those transactions. */
  ghost predicate Reconciled(bank: seq<BankTransaction>, ledger: seq<LedgerTransaction>, accountId: string, osloDay: int -> string,
                             i: nat, toClear: seq<LedgerTransaction>, toAdd: seq<SaveTransaction>)
  {
    && i <= |bank|
    && Faultless(bank[..i], ledger)
    && toClear == ClearsOf(bank[..i], ledger)
    && toAdd == AddsOf(bank[..i], ledger, accountId, osloDay)
  }

  /** The outputs after one more bank transaction: an add appends its
      one-transaction candidate, a clear appends the flipped entry, a skip
      appends nothing. */
  lemma ReconciledSnoc(bank: seq<BankTransaction>, ledger: seq<LedgerTransaction>, accountId: string, osloDay: int -> string,
                       i: nat, toClear: seq<LedgerTransaction>, toAdd: seq<SaveTransaction>)
    requires i < |bank| && Reconciled(bank, ledger, accountId, osloDay, i, toClear, toAdd)
    requires Fault(bank[i], ledger).None?
    ensures Faultless(bank[..i + 1], ledger)
    ensures ClearsOf(bank[..i + 1], ledger) == toClear + match Decide(bank[i], ledger) case Clear(e) => [e] case _ => []
    ensures AddsOf(bank[..i + 1], ledger, accountId, osloDay)
            == toAdd + if Decide(bank[i], ledger) == Add then [Candidate(bank[i], 1, accountId, osloDay)] else []
  {
    assert bank[..i + 1] == bank[..i] + [bank[i]];
    ClearsOfSnoc(bank[..i], bank[i], ledger);
    FaultlessSnoc(bank[..i], bank[i], ledger);
    AddsOfSnoc(bank[..i], bank[i], ledger, accountId, osloDay);
  }

  lemma ReconciledAdd(bank: seq<BankTransaction>, ledger: seq<LedgerTransaction>, accountId: string, osloDay: int -> string,
                      i: nat, toClear: seq<LedgerTransaction>, toAdd: seq<SaveTransaction>, added: seq<SaveTransaction>)
    requires i < |bank| && Reconciled(bank, ledger, accountId, osloDay, i, toClear, toAdd)
    requires Decide(bank[i], ledger) == Add && bank[i].date.Some?
    requires added == [Candidate(bank[i], 1, accountId, osloDay)]
    ensures Reconciled(bank, ledger, accountId, osloDay, i + 1, toClear, toAdd + added)
  {
    ReconciledSnoc(bank, ledger, accountId, osloDay, i, toClear, toAdd);
    assert toClear + [] == toClear;
  }

  lemma ReconciledClear(bank: seq<BankTransaction>, ledger: seq<LedgerTransaction>, accountId: string, osloDay: int -> string,
                        i: nat, toClear: seq<LedgerTransaction>, toAdd: seq<SaveTransaction>, e: LedgerTransaction)
    requires i < |bank| && Reconciled(bank, ledger, accountId, osloDay, i, toClear, toAdd)
    requires Decide(bank[i], ledger) == Clear(e)
    ensures Reconciled(bank, ledger, accountId, osloDay, i + 1, toClear + [e], toAdd)
  {
    ReconciledSnoc(bank, ledger, accountId, osloDay, i, toClear, toAdd);
    assert toAdd + [] == toAdd;
  }

  lemma ReconciledSkip(bank: seq<BankTransaction>, ledger: seq<LedgerTransaction>, accountId: string, osloDay: int -> string,
                       i: nat, toClear: seq<LedgerTransaction>, toAdd: seq<SaveTransaction>)
    requires i < |bank| && Reconciled(bank, ledger, accountId, osloDay, i, toClear, toAdd)
    requires Decide(bank[i], ledger) == Skip
    ensures Reconciled(bank, ledger, accountId, osloDay, i + 1, toClear, toAdd)
  {
    ReconciledSnoc(bank, ledger, accountId, osloDay, i, toClear, toAdd);
    assert toClear + [] == toClear && toAdd + [] == toAdd;
  }

  /** The exceptions of a + c are those of a, then those of c: the first
      one is a's when a has one, c's otherwise. */
  lemma {:induction false} FirstFaultConcat(a: seq<BankTransaction>, c: seq<BankTransaction>, ledger: seq<LedgerTransaction>)
    ensures FirstFault(a + c, ledger) == if FirstFault(a, ledger).Some? then FirstFault(a, ledger) else FirstFault(c, ledger)
    decreases |c|
  {
    if c == [] {
      assert a + c == a;
    } else {
      var init := c[..|c| - 1];
      var x := c[|c| - 1];
      assert c == init + [x];
      assert a + c == (a + init) + [x];
      FirstFaultConcat(a, init, ledger);
      FirstFaultSnoc(a + init, x, ledger);
      FirstFaultSnoc(init, x, ledger);
    }
  }

  /** The first bank transaction that raises an exception decides what the
      whole call throws. */
  lemma ReconcileThrows(bank: seq<BankTransaction>, ledger: seq<LedgerTransaction>, accountId: string, osloDay: int -> string, i: nat)
    requires i < |bank| && Faultless(bank[..i], ledger) && Fault(bank[i], ledger).Some?
    ensures Reconcile(bank, ledger, accountId, osloDay) == Failure(Fault(bank[i], ledger).value)
  {
    assert bank == (bank[..i] + [bank[i]]) + bank[i + 1..];
    FirstFaultSnoc(bank[..i], bank[i], ledger);
    FirstFaultConcat(bank[..i] + [bank[i]], bank[i + 1..], ledger);
  }

  lemma ReconciledDone(bank: seq<BankTransaction>, ledger: seq<LedgerTransaction>, accountId: string, osloDay: int -> string,
                       toClear: seq<LedgerTransaction>, toAdd: seq<SaveTransaction>)
    requires Reconciled(bank, ledger, accountId, osloDay, |bank|, toClear, toAdd)
    ensures Reconcile(bank, ledger, accountId, osloDay) == Success(Reconciliation(toClear, toAdd))
  {
    assert bank[..|bank|] == bank;
  }

  /** dedupeTransactions: one pass over the bank transactions, pushing
      onto the two output lists. */
  method DedupeTransactions(bank: seq<BankTransaction>, ledger: seq<LedgerTransaction>, accountId: string, osloDay: int -> string)
    returns (r: Result<Reconciliation, SyncError>)
    ensures r == Reconcile(bank, ledger, accountId, osloDay)
  {
    var transactionsToClear: seq<LedgerTransaction> := [];
    var transactionsToAdd: seq<SaveTransaction> := [];
    var i := 0;
    while i < |bank|
      invariant Reconciled(bank, ledger, accountId, osloDay, i, transactionsToClear, transactionsToAdd)
    {
      var b := bank[i];
      if b.bookingStatus == PENDING {
        var mapped := MapBankTransactionsToYnabTransactions([b], accountId, osloDay);
        if mapped.Failure? {
          assert b.date.None? by { SingletonBatch(b, accountId, osloDay); }
          ReconcileThrows(bank, ledger, accountId, osloDay, i);
          return Failure(mapped.error);
        }
        assert mapped.value == [Candidate(b, 1, accountId, osloDay)] by { SingletonBatch(b, accountId, osloDay); }
        ReconciledAdd(bank, ledger, accountId, osloDay, i, transactionsToClear, transactionsToAdd, mapped.value);
        transactionsToAdd := transactionsToAdd + mapped.value;
        assert Reconciled(bank, ledger, accountId, osloDay, i + 1, transactionsToClear, transactionsToAdd);
      } else {
        var matching := FindMatch(b, ledger);
        if matching.None? {
          var mapped := MapBankTransactionsToYnabTransactions([b], accountId, osloDay);
          if mapped.Failure? {
            assert b.date.None? by { SingletonBatch(b, accountId, osloDay); }
            ReconcileThrows(bank, ledger, accountId, osloDay, i);
            return Failure(mapped.error);
          }
          assert mapped.value == [Candidate(b, 1, accountId, osloDay)] by { SingletonBatch(b, accountId, osloDay); }
          ReconciledAdd(bank, ledger, accountId, osloDay, i, transactionsToClear, transactionsToAdd, mapped.value);
          transactionsToAdd := transactionsToAdd + mapped.value;
          assert Reconciled(bank, ledger, accountId, osloDay, i + 1, transactionsToClear, transactionsToAdd);
        } else if MatchThrows(b, ledger[matching.value]) {
          ReconcileThrows(bank, ledger, accountId, osloDay, i);
          return Failure(PayeeTypeError);
        } else if ledger[matching.value].cleared == Uncleared {
          ReconciledClear(bank, ledger, accountId, osloDay, i, transactionsToClear, transactionsToAdd,
                          ledger[matching.value].(cleared := Cleared));
          transactionsToClear := transactionsToClear + [ledger[matching.value].(cleared := Cleared)];
          assert Reconciled(bank, ledger, accountId, osloDay, i + 1, transactionsToClear, transactionsToAdd);
        } else {
          ReconciledSkip(bank, ledger, accountId, osloDay, i, transactionsToClear, transactionsToAdd);
          assert Reconciled(bank, ledger, accountId, osloDay, i + 1, transactionsToClear, transactionsToAdd);
        }
      }
      i := i + 1;
    }
    ReconciledDone(bank, ledger, accountId, osloDay, transactionsToClear, transactionsToAdd);
    return Success(Reconciliation(transactionsToClear, transactionsToAdd));
  }

  // ---------------------------------------------------------------------
  // Properties of the reconciliation

  lemma {:induction false} ClearsOfConcat(a: seq<BankTransaction>, c: seq<BankTransaction>, ledger: seq<LedgerTransaction>)
    ensures ClearsOf(a + c, ledger) == ClearsOf(a, ledger) + ClearsOf(c, ledger)
    decreases |c|
  {
    if c == [] {
      assert a + c == a;
    } else {
      var init := c[..|c| - 1];
      var x := c[|c| - 1];
      assert c == init + [x];
      assert a + c == (a + init) + [x];
      ClearsOfConcat(a, init, ledger);
      ClearsOfSnoc(a + init, x, ledger);
      ClearsOfSnoc(init, x, ledger);
    }
  }

  lemma {:induction false} AddsOfConcat(a: seq<BankTransaction>, c: seq<BankTransaction>, ledger: seq<LedgerTransaction>,
                                        accountId: string, osloDay: int -> string)
    requires Faultless(a, ledger) && Faultless(c, ledger) && Faultless(a + c, ledger)
    ensures AddsOf(a + c, ledger, accountId, osloDay) == AddsOf(a, ledger, accountId, osloDay) + AddsOf(c, ledger, accountId, osloDay)
    decreases |c|
  {
    if c == [] {
      assert a + c == a;
    } else {
      var init := c[..|c| - 1];
      var x := c[|c| - 1];
      assert c == init + [x];
      assert a + c == (a + init) + [x];
      FaultlessSnoc(a + init, x, ledger);
      FaultlessSnoc(init, x, ledger);
      AddsOfConcat(a, init, ledger, accountId, osloDay);
      AddsOfSnoc(a + init, x, ledger, accountId, osloDay);
      AddsOfSnoc(init, x, ledger, accountId, osloDay);
    }
  }

  /** Bank order is kept and every transaction is decided on its own: the
      outputs for a + c are those for a followed by those for c; the whole
      call throws exactly when one of the halves does, and then throws what
      a throws, or what c throws when a does not. */
  lemma ReconcileConcat(a: seq<BankTransaction>, c: seq<BankTransaction>, ledger: seq<LedgerTransaction>,
                        accountId: string, osloDay: int -> string)
    ensures Reconcile(a + c, ledger, accountId, osloDay).Success? <==>
            Reconcile(a, ledger, accountId, osloDay).Success? && Reconcile(c, ledger, accountId, osloDay).Success?
    ensures Reconcile(a + c, ledger, accountId, osloDay).Failure? ==>
              Reconcile(a + c, ledger, accountId, osloDay).error
              == if Reconcile(a, ledger, accountId, osloDay).Failure? then Reconcile(a, ledger, accountId, osloDay).error
                 else Reconcile(c, ledger, accountId, osloDay).error
    ensures Reconcile(a + c, ledger, accountId, osloDay).Success? ==>
              var ra := Reconcile(a, ledger, accountId, osloDay).value;
              var rc := Reconcile(c, ledger, accountId, osloDay).value;
              Reconcile(a + c, ledger, accountId, osloDay).value
              == Reconciliation(ra.transactionsToClear + rc.transactionsToClear, ra.transactionsToAdd + rc.transactionsToAdd)
  {
    FirstFaultConcat(a, c, ledger);
    ClearsOfConcat(a, c, ledger);
    if Faultless(a + c, ledger) {
      AddsOfConcat(a, c, ledger, accountId, osloDay);
    }
  }

  /** One bank transaction on its own: an add is one candidate with
      occurrence 1 (or the exception when it has no date), a clear is one
      entry, a skip is nothing, and a search that meets a `null` payee
      throws. */
  lemma ReconcileSingleton(b: BankTransaction, ledger: seq<LedgerTransaction>, accountId: string, osloDay: int -> string)
    ensures Reconcile([b], ledger, accountId, osloDay) ==
            match Decide(b, ledger)
            case Add => if b.date.Some? then Success(Reconciliation([], [Candidate(b, 1, accountId, osloDay)]))
                        else Failure(InvalidTimeValue)
            case Clear(e) => Success(Reconciliation([e], []))
            case Skip => Success(Reconciliation([], []))
            case Throws => Failure(PayeeTypeError)
  {
    var bank: seq<BankTransaction> := [];
    assert bank + [b] == [b];
    FirstFaultSnoc(bank, b, ledger);
    ClearsOfSnoc(bank, b, ledger);
    assert ClearsOf(bank, ledger) == [];
    if Faultless([b], ledger) {
      AddsOfSnoc(bank, b, ledger, accountId, osloDay);
      assert AddsOf(bank, ledger, accountId, osloDay) == [];
      match Decide(b, ledger)
      case Add => assert [] + [Candidate(b, 1, accountId, osloDay)] == [Candidate(b, 1, accountId, osloDay)];
      case Clear(e) => assert [] + [e] == [e];
      case Skip =>
    }
  }

  /** A pending transaction yields exactly one add candidate and no clear
      entry, whatever the ledger holds and whatever surrounds it. */
  lemma PendingAlwaysAdded(a: seq<BankTransaction>, b: BankTransaction, c: seq<BankTransaction>,
                           ledger: seq<LedgerTransaction>, accountId: string, osloDay: int -> string)
    requires b.bookingStatus == PENDING && b.date.Some?
    requires Reconcile(a, ledger, accountId, osloDay).Success? && Reconcile(c, ledger, accountId, osloDay).Success?
    ensures Reconcile(a + [b] + c, ledger, accountId, osloDay).Success?
    ensures
      var ra := Reconcile(a, ledger, accountId, osloDay).value;
      var rc := Reconcile(c, ledger, accountId, osloDay).value;
      Reconcile(a + [b] + c, ledger, accountId, osloDay).value
      == Reconciliation(ra.transactionsToClear + rc.transactionsToClear,
                        ra.transactionsToAdd + [Candidate(b, 1, accountId, osloDay)] + rc.transactionsToAdd)
  {
    var ra := Reconcile(a, ledger, accountId, osloDay).value;
    var cb := Candidate(b, 1, accountId, osloDay);
    assert Reconcile([b], ledger, accountId, osloDay) == Success(Reconciliation([], [cb])) by {
      ReconcileSingleton(b, ledger, accountId, osloDay);
    }
    assert Reconcile(a + [b], ledger, accountId, osloDay)
           == Success(Reconciliation(ra.transactionsToClear, ra.transactionsToAdd + [cb])) by {
      ReconcileConcat(a, [b], ledger, accountId, osloDay);
      assert ra.transactionsToClear + [] == ra.transactionsToClear;
    }
    ReconcileConcat(a + [b], c, ledger, accountId, osloDay);
  }

  /** A booked transaction on its own: when no entry matches or throws it
      is added; when its first match is uncleared, it clears that entry
      with only the flag changed; when its first match is cleared already,
      it yields nothing; when the search meets a `null` payee first, the
      call throws the TypeError. */
  lemma BookedSingleton(b: BankTransaction, ledger: seq<LedgerTransaction>, accountId: string, osloDay: int -> string)
    requires b.bookingStatus == BOOKED
    ensures (forall k :: 0 <= k < |ledger| ==> !Matches(b, ledger[k]) && !MatchThrows(b, ledger[k])) ==>
              Reconcile([b], ledger, accountId, osloDay)
              == if b.date.Some? then Success(Reconciliation([], [Candidate(b, 1, accountId, osloDay)])) else Failure(InvalidTimeValue)
    ensures forall j: nat :: IsFirstMatch(b, ledger, j) && ledger[j].cleared == Uncleared ==>
              Reconcile([b], ledger, accountId, osloDay) == Success(Reconciliation([ledger[j].(cleared := Cleared)], []))
    ensures forall j: nat :: IsFirstMatch(b, ledger, j) && ledger[j].cleared == Cleared ==>
              Reconcile([b], ledger, accountId, osloDay) == Success(Reconciliation([], []))
    ensures forall j: nat :: IsFirstThrow(b, ledger, j) ==>
              Reconcile([b], ledger, accountId, osloDay) == Failure(PayeeTypeError)
  {
    DecideCases(b, ledger);
    ReconcileSingleton(b, ledger, accountId, osloDay);
  }

  /** The ledger entries are searched again for every bank transaction, and
      nothing marks an entry as used: two booked transactions that both
      match one uncleared entry clear that entry twice, and neither of them
      is added. */
  lemma SameEntryClearedTwice(b1: BankTransaction, b2: BankTransaction, e: LedgerTransaction,
                              accountId: string, osloDay: int -> string)
    requires b1.bookingStatus == BOOKED && b2.bookingStatus == BOOKED
    requires Matches(b1, e) && Matches(b2, e) && e.cleared == Uncleared
    ensures Reconcile([b1, b2], [e], accountId, osloDay)
            == Success(Reconciliation([e.(cleared := Cleared), e.(cleared := Cleared)], []))
  {
    var e' := e.(cleared := Cleared);
    assert Reconcile([b1], [e], accountId, osloDay) == Success(Reconciliation([e'], [])) by {
      assert IsFirstMatch(b1, [e], 0);
      BookedSingleton(b1, [e], accountId, osloDay);
    }
    assert Reconcile([b2], [e], accountId, osloDay) == Success(Reconciliation([e'], [])) by {
      assert IsFirstMatch(b2, [e], 0);
      BookedSingleton(b2, [e], accountId, osloDay);
    }
    assert [b1] + [b2] == [b1, b2];
    ReconcileConcat([b1], [b2], [e], accountId, osloDay);
    assert [e'] + [e'] == [e', e'];
  }

  /** Every bank transaction contributes at most one item to the two
      outputs together. */
  lemma {:induction false} ReconcileSize(bank: seq<BankTransaction>, ledger: seq<LedgerTransaction>, accountId: string, osloDay: int -> string)
    requires Reconcile(bank, ledger, accountId, osloDay).Success?
    ensures
      var r := Reconcile(bank, ledger, accountId, osloDay).value;
      |r.transactionsToClear| + |r.transactionsToAdd| <= |bank|
    decreases |bank|
  {
    if bank != [] {
      var init := bank[..|bank| - 1];
      var x := bank[|bank| - 1];
      assert bank == init + [x];
      ReconcileConcat(init, [x], ledger, accountId, osloDay);
      ReconcileSize(init, ledger, accountId, osloDay);
      ReconcileSingleton(x, ledger, accountId, osloDay);
    }
  }

  /** Every add candidate of dedupeTransactions carries occurrence 1 in its
      import id, because each one is mapped on a list of its own. */
  lemma {:induction false} AddsHaveOccurrenceOne(bank: seq<BankTransaction>, ledger: seq<LedgerTransaction>, accountId: string, osloDay: int -> string)
    requires Reconcile(bank, ledger, accountId, osloDay).Success?
    ensures
      var adds := Reconcile(bank, ledger, accountId, osloDay).value.transactionsToAdd;
      forall k :: 0 <= k < |adds| ==> adds[k].importId == ImportId(adds[k].amount, adds[k].date, 1)
    decreases |bank|
  {
    if bank != [] {
      var init := bank[..|bank| - 1];
      var x := bank[|bank| - 1];
      assert bank == init + [x];
      ReconcileConcat(init, [x], ledger, accountId, osloDay);
      AddsHaveOccurrenceOne(init, ledger, accountId, osloDay);
      ReconcileSingleton(x, ledger, accountId, osloDay);
    }
  }

  // ---------------------------------------------------------------------
  // Adds that share a key share an import id

  /** As written: two pending transactions of one day and one amount are
      both added, and since each is mapped on a list of its own, both get
      occurrence 1 and the same import id, although mapping the two as one
      batch numbers them 1 and 2. */
  lemma DuplicateAddsShareImportId(b1: BankTransaction, b2: BankTransaction, ledger: seq<LedgerTransaction>,
                                   accountId: string, osloDay: int -> string)
    requires b1.bookingStatus == PENDING && b2.bookingStatus == PENDING
    requires b1.date.Some? && b1.date == b2.date && b1.amount == b2.amount
    ensures Reconcile([b1, b2], ledger, accountId, osloDay).Success?
    ensures
      var adds := Reconcile([b1, b2], ledger, accountId, osloDay).value.transactionsToAdd;
      |adds| == 2 && adds[0].importId == adds[1].importId
    ensures
      var batch := MappedBatch([b1, b2], accountId, osloDay).value;
      batch[0].importId != batch[1].importId
  {
    assert [b1] + [b2] == [b1, b2];
    ReconcileSingleton(b1, ledger, accountId, osloDay);
    ReconcileSingleton(b2, ledger, accountId, osloDay);
    ReconcileConcat([b1], [b2], ledger, accountId, osloDay);
    SameKeyDiffersOnlyInSuffix([b1, b2], accountId, osloDay, 0, 1);
  }

  /** The bank transactions decided Add, in bank order. */
  function AddedOf(bank: seq<BankTransaction>, ledger: seq<LedgerTransaction>): seq<BankTransaction>
    decreases |bank|
  {
    if bank == [] then []
    else AddedOf(bank[..|bank| - 1], ledger) + if Decide(bank[|bank| - 1], ledger) == Add then [bank[|bank| - 1]] else []
  }

  /** No search for a bank transaction meets a `null` payee first. */
  predicate SearchesSucceed(bank: seq<BankTransaction>, ledger: seq<LedgerTransaction>) {
    forall i :: 0 <= i < |bank| ==> Decide(bank[i], ledger) != Throws
  }

  /** Corrected reconciliation: the same pass, which still throws on a
      `null` payee, and the transactions to add mapped as one batch, so
      repeats of a key are numbered 1, 2, .... */
  function ReconcileNumbered(bank: seq<BankTransaction>, ledger: seq<LedgerTransaction>, accountId: string, osloDay: int -> string)
    : Result<Reconciliation, SyncError>
  {
    if !SearchesSucceed(bank, ledger) then Failure(PayeeTypeError)
    else
      match MappedBatch(AddedOf(bank, ledger), accountId, osloDay)
      case Success(adds) => Success(Reconciliation(ClearsOf(bank, ledger), adds))
      case Failure(e) => Failure(e)
  }

  lemma AddedOfSnoc(bank: seq<BankTransaction>, b: BankTransaction, ledger: seq<LedgerTransaction>)
    ensures AddedOf(bank + [b], ledger) == AddedOf(bank, ledger) + if Decide(b, ledger) == Add then [b] else []
  {
    assert (bank + [b])[..|bank|] == bank;
  }

  lemma SearchesSucceedSnoc(bank: seq<BankTransaction>, b: BankTransaction, ledger: seq<LedgerTransaction>)
    ensures SearchesSucceed(bank + [b], ledger) <==> SearchesSucceed(bank, ledger) && Decide(b, ledger) != Throws
  {
    assert forall i :: 0 <= i < |bank| ==> (bank + [b])[i] == bank[i];
    assert (bank + [b])[|bank|] == b;
  }

  /** After the first i bank transactions, no search has thrown, and the
      clears so far and the transactions to add so far. */
  ghost predicate Collected(bank: seq<BankTransaction>, ledger: seq<LedgerTransaction>, i: nat,
                            toClear: seq<LedgerTransaction>, added: seq<BankTransaction>)
  {
    && i <= |bank|
    && SearchesSucceed(bank[..i], ledger)
    && toClear == ClearsOf(bank[..i], ledger)
    && added == AddedOf(bank[..i], ledger)
  }

  lemma CollectedStep(bank: seq<BankTransaction>, ledger: seq<LedgerTransaction>, i: nat,
                      toClear: seq<LedgerTransaction>, added: seq<BankTransaction>,
                      toClear': seq<LedgerTransaction>, added': seq<BankTransaction>)
    requires i < |bank| && Collected(bank, ledger, i, toClear, added) && Decide(bank[i], ledger) != Throws
    requires toClear' == toClear + match Decide(bank[i], ledger) case Clear(e) => [e] case _ => []
    requires added' == added + if Decide(bank[i], ledger) == Add then [bank[i]] else []
    ensures Collected(bank, ledger, i + 1, toClear', added')
  {
    assert bank[..i + 1] == bank[..i] + [bank[i]];
    ClearsOfSnoc(bank[..i], bank[i], ledger);
    AddedOfSnoc(bank[..i], bank[i], ledger);
    SearchesSucceedSnoc(bank[..i], bank[i], ledger);
  }

  /** dedupeTransactions corrected: the same pass, collecting the
      transactions to add, then one call of the mapper on all of them. */
  method DedupeTransactionsNumbered(bank: seq<BankTransaction>, ledger: seq<LedgerTransaction>, accountId: string, osloDay: int -> string)
    returns (r: Result<Reconciliation, SyncError>)
    ensures r == ReconcileNumbered(bank, ledger, accountId, osloDay)
  {
    var transactionsToClear: seq<LedgerTransaction> := [];
    var added: seq<BankTransaction> := [];
    var i := 0;
    while i < |bank|
      invariant Collected(bank, ledger, i, transactionsToClear, added)
    {
      var b := bank[i];
      ghost var toClear, added0 := transactionsToClear, added;
      if b.bookingStatus == PENDING {
        added := added + [b];
      } else {
        var matching := FindMatch(b, ledger);
        if matching.None? {
          added := added + [b];
        } else if MatchThrows(b, ledger[matching.value]) {
          assert Decide(bank[i], ledger) == Throws;
          return Failure(PayeeTypeError);
        } else if ledger[matching.value].cleared == Uncleared {
          transactionsToClear := transactionsToClear + [ledger[matching.value].(cleared := Cleared)];
        }
      }
      CollectedStep(bank, ledger, i, toClear, added0, transactionsToClear, added);
      i := i + 1;
    }
    assert bank[..|bank|] == bank;
    var mapped := MapBankTransactionsToYnabTransactions(added, accountId, osloDay);
    if mapped.Failure? {
      return Failure(mapped.error);
    }
    return Success(Reconciliation(transactionsToClear, mapped.value));
  }

  lemma AllDatedSnoc(ts: seq<BankTransaction>, t: BankTransaction)
    ensures AllDated(ts + [t]) <==> AllDated(ts) && t.date.Some?
  {
    assert forall k :: 0 <= k < |ts| ==> (ts + [t])[k] == ts[k];
    assert (ts + [t])[|ts|] == t;
  }

  /** The original throws exactly when some search meets a `null` payee
      first or some transaction to add has no date. */
  lemma {:induction false} FaultlessIff(bank: seq<BankTransaction>, ledger: seq<LedgerTransaction>)
    ensures Faultless(bank, ledger) <==> SearchesSucceed(bank, ledger) && AllDated(AddedOf(bank, ledger))
    decreases |bank|
  {
    if bank != [] {
      var init := bank[..|bank| - 1];
      var x := bank[|bank| - 1];
      assert bank == init + [x];
      FaultlessIff(init, ledger);
      FaultlessSnoc(init, x, ledger);
      SearchesSucceedSnoc(init, x, ledger);
      AddedOfSnoc(init, x, ledger);
      AllDatedSnoc(AddedOf(init, ledger), x);
      assert AddedOf(init, ledger) + [] == AddedOf(init, ledger);
    }
  }

  /** adds holds one candidate per added transaction, numbered 1. */
  ghost predicate OneEach(added: seq<BankTransaction>, adds: seq<SaveTransaction>, accountId: string, osloDay: int -> string) {
    |adds| == |added| && forall k :: 0 <= k < |added| ==> added[k].date.Some? && adds[k] == Candidate(added[k], 1, accountId, osloDay)
  }

  lemma OneEachSnoc(added: seq<BankTransaction>, adds: seq<SaveTransaction>, b: BankTransaction, accountId: string, osloDay: int -> string)
    requires OneEach(added, adds, accountId, osloDay) && b.date.Some?
    ensures OneEach(added + [b], adds + [Candidate(b, 1, accountId, osloDay)], accountId, osloDay)
  {
  }

  /** The added transactions and the add candidates of the original, side
      by side: one candidate per added transaction, numbered 1. */
  lemma {:induction false} AddsOfAdded(bank: seq<BankTransaction>, ledger: seq<LedgerTransaction>, accountId: string, osloDay: int -> string)
    requires Faultless(bank, ledger)
    ensures AllDated(AddedOf(bank, ledger))
    ensures OneEach(AddedOf(bank, ledger), AddsOf(bank, ledger, accountId, osloDay), accountId, osloDay)
    decreases |bank|
  {
    FaultlessIff(bank, ledger);
    if bank != [] {
      var init := bank[..|bank| - 1];
      var x := bank[|bank| - 1];
      assert bank == init + [x];
      FaultlessSnoc(init, x, ledger);
      AddsOfAdded(init, ledger, accountId, osloDay);
      AddedOfSnoc(init, x, ledger);
      AddsOfSnoc(init, x, ledger, accountId, osloDay);
      var added, adds := AddedOf(init, ledger), AddsOf(init, ledger, accountId, osloDay);
      if Decide(x, ledger) == Add {
        OneEachSnoc(added, adds, x, accountId, osloDay);
      } else {
        assert added + [] == added && adds + [] == adds;
      }
    }
  }

  /** The correction throws exactly when the original does, clears the
      same entries, and differs from the original only where two added
      transactions share a key: when none do, the two agree. */
  lemma ReconcileNumberedAgrees(bank: seq<BankTransaction>, ledger: seq<LedgerTransaction>, accountId: string, osloDay: int -> string)
    ensures ReconcileNumbered(bank, ledger, accountId, osloDay).Success? <==> Reconcile(bank, ledger, accountId, osloDay).Success?
    ensures ReconcileNumbered(bank, ledger, accountId, osloDay).Success? ==>
              ReconcileNumbered(bank, ledger, accountId, osloDay).value.transactionsToClear
              == Reconcile(bank, ledger, accountId, osloDay).value.transactionsToClear
    ensures ReconcileNumbered(bank, ledger, accountId, osloDay).Success? &&
            (forall i, j :: 0 <= i < j < |AddedOf(bank, ledger)| ==> KeyOf(AddedOf(bank, ledger)[i]) != KeyOf(AddedOf(bank, ledger)[j]))
            ==> ReconcileNumbered(bank, ledger, accountId, osloDay) == Reconcile(bank, ledger, accountId, osloDay)
  {
    FaultlessIff(bank, ledger);
    var added := AddedOf(bank, ledger);
    if Faultless(bank, ledger) && forall i, j :: 0 <= i < j < |added| ==> KeyOf(added[i]) != KeyOf(added[j]) {
      assert MappedBatch(added, accountId, osloDay).value == AddsOf(bank, ledger, accountId, osloDay) by {
        var keys := KeysOf(added);
        forall k | 0 <= k < |added| ensures Occurrence(keys, k) == 1 {
          OccurrenceFromOne(keys, k);
        }
        AddsOfAdded(bank, ledger, accountId, osloDay);
        MappedBatchCandidates(added, accountId, osloDay);
      }
    }
  }

  /** Corrected: two add candidates whose transactions share a key get
      different import ids, the later one with the larger occurrence. */
  lemma NumberedAddsDistinct(bank: seq<BankTransaction>, ledger: seq<LedgerTransaction>, accountId: string, osloDay: int -> string,
                             i: nat, j: nat)
    requires ReconcileNumbered(bank, ledger, accountId, osloDay).Success?
    requires i < j < |AddedOf(bank, ledger)| && KeyOf(AddedOf(bank, ledger)[i]) == KeyOf(AddedOf(bank, ledger)[j])
    ensures
      var adds := ReconcileNumbered(bank, ledger, accountId, osloDay).value.transactionsToAdd;
      j < |adds| && adds[i].importId != adds[j].importId
  {
    var added := AddedOf(bank, ledger);
    MappedBatchCandidates(added, accountId, osloDay);
    SameKeyDiffersOnlyInSuffix(added, accountId, osloDay, i, j);
  }
}
