/** The records that flow through the reconciliation engine: the bank's
    transaction (types/bank.types.ts) and the ledger's transaction, both as
    the candidate the engine asks the ledger to create and as the entry the
    ledger already holds. */
module Transactions {
  import opened Wrappers

  datatype BookingStatus = BOOKED | PENDING

  datatype TransactionSource = RECENT | HISTORIC | ALL

  /** A transaction as the bank returns it. Every field the bank may leave
      out is an Option. The amount is an integral number of øre (hundredths
      of the currency unit), so that scaling it to the ledger's milliunits
      is exact; the date is a point in time in epoch milliseconds. */
  datatype BankTransaction = BankTransaction(
    id: string,
    description: Option<string>,
    cleanedDescription: Option<string>,
    amount: Option<int>,
    date: Option<int>,
    kidOrMessage: Option<string>,
    currencyCode: Option<string>,
    canShowDetails: bool,
    source: TransactionSource,
    bookingStatus: BookingStatus,
    accountName: Option<string>,
    accountKey: Option<string>)

  /** A bank amount times 1000: an amount of `ore` hundredths is
      `ore * 1000 / 100` milliunits. */
  function Milliunits(ore: int): int {
    ore * 10
  }

  /** The ledger's settlement flag. */
  datatype ClearedStatus = Cleared | Uncleared

  /** A ledger amount computed by JavaScript arithmetic: an integral number
      of milliunits, or NaN when the bank left the amount out
      (`undefined * 1000`). */
  datatype Milli = Units(milliunits: int) | NaN

  /** A transaction the engine asks the ledger to create. */
  datatype SaveTransaction = SaveTransaction(
    accountId: string,
    date: string,
    amount: Milli,
    payeeName: Option<string>,
    cleared: ClearedStatus,
    importId: string)

  /** A field the ledger may leave out (`undefined`) or send as `null`. */
  datatype Nullable<T> = Undefined | Null | Defined(value: T)

  /** A transaction the ledger already holds; its amount is in milliunits. */
  datatype LedgerTransaction = LedgerTransaction(
    id: string,
    accountId: string,
    date: string,
    amount: int,
    payeeName: Nullable<string>,
    cleared: ClearedStatus,
    importId: Option<string>,
    transferAccountId: Option<string>)
}
