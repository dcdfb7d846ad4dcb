/** The ledger's idempotency key, `YNAB:<amount>:<date>:<occurrence>`, and
    the parser that reads it back. The round trip shows that the text
    determines all three parts, so two keys are equal only when their
    amounts, dates and occurrences are. */
module ImportIds {
  import opened Wrappers
  import opened JsText
  import opened Transactions

  /** `${amount}` for a ledger amount. */
  function AmountText(m: Milli): string {
    match m
    case Units(n) => IntText(n)
    case NaN => "NaN"
  }

  /** The amount text holds no ':', so it stays one field of the id. */
  lemma AmountTextNoColon(m: Milli)
    ensures ':' !in AmountText(m)
  {
    if m.Units? {
      IntTextSignAndDigits(m.milliunits);
    }
  }

  function ParseAmountText(s: string): Option<Milli> {
    if s == "NaN" then Some(NaN)
    else
      match ParseInt(s)
      case Some(n) => Some(Units(n))
      case None => None
  }

  /** The text every import id of a given amount and date starts with. */
  function ImportIdStem(amount: Milli, date: string): string {
    "YNAB:" + AmountText(amount) + ":" + date + ":"
  }

  function ImportId(amount: Milli, date: string, occurrence: nat): string {
    ImportIdStem(amount, date) + NatText(occurrence)
  }

  datatype ImportIdParts = ImportIdParts(amount: Milli, date: string, occurrence: nat)

  /** Reads `YNAB:<amount>:<date>:<occurrence>` back into its parts. */
  function ParseImportId(s: string): Option<ImportIdParts> {
    var parts := Split(s, ':');
    if |parts| == 4 && parts[0] == "YNAB" then
      match (ParseAmountText(parts[1]), ParseNat(parts[3]))
      case (Some(a), Some(k)) => Some(ImportIdParts(a, parts[2], k))
      case _ => None
    else None
  }

  lemma ParseAmountTextRoundTrip(m: Milli)
    ensures ParseAmountText(AmountText(m)) == Some(m)
  {
    if m.Units? {
      var s := IntText(m.milliunits);
      IntTextSignAndDigits(m.milliunits);
      assert s[0] == '-' || IsDigit(s[0]);
      assert s != "NaN";
      ParseIntText(m.milliunits);
    }
  }

  /** An import id is its four fields, colon-separated. */
  lemma ImportIdText(amount: Milli, date: string, occurrence: nat)
    ensures ImportId(amount, date, occurrence)
            == "YNAB" + [':'] + (AmountText(amount) + [':'] + (date + [':'] + NatText(occurrence)))
  {
  }

  /** The last two fields: a colon-free date, a colon and an occurrence. */
  lemma DateOccurrenceFields(date: string, occurrence: nat)
    requires ':' !in date
    ensures Split(date + [':'] + NatText(occurrence), ':') == [date, NatText(occurrence)]
  {
    var n := NatText(occurrence);
    assert ':' !in n by {
      assert forall i :: 0 <= i < |n| ==> IsDigit(n[i]);
    }
    SplitAfterHead(date, ':', n);
    SplitSeparatorFree(n, ':');
  }

  /** For a date without a colon, an import id splits on ':' into its
      four fields. */
  lemma ImportIdFields(amount: Milli, date: string, occurrence: nat)
    requires ':' !in date
    ensures Split(ImportId(amount, date, occurrence), ':') == ["YNAB", AmountText(amount), date, NatText(occurrence)]
  {
    var a := AmountText(amount);
    var n := NatText(occurrence);
    var tail := date + [':'] + n;
    var rest := a + [':'] + tail;
    ImportIdText(amount, date, occurrence);
    assert Split(rest, ':') == [a, date, n] by {
      DateOccurrenceFields(date, occurrence);
      AmountTextNoColon(amount);
      SplitAfterHead(a, ':', tail);
    }
    var y := "YNAB";
    assert Split(y + [':'] + rest, ':') == [y] + Split(rest, ':') by {
      assert ':' !in y;
      SplitAfterHead(y, ':', rest);
    }
  }

  /** For a date without a colon, parsing an import id gives back the
      amount, the date and the occurrence it was made from. */
  lemma ImportIdRoundTrip(amount: Milli, date: string, occurrence: nat)
    requires ':' !in date
    ensures ParseImportId(ImportId(amount, date, occurrence))
            == Some(ImportIdParts(amount, date, occurrence))
  {
    ImportIdFields(amount, date, occurrence);
    ParseAmountTextRoundTrip(amount);
    ParseNatText(occurrence);
  }

  /** Import ids over colon-free dates are equal exactly when their parts
      are. */
  lemma ImportIdInjective(a1: Milli, d1: string, k1: nat, a2: Milli, d2: string, k2: nat)
    requires ':' !in d1 && ':' !in d2
    ensures ImportId(a1, d1, k1) == ImportId(a2, d2, k2) <==> a1 == a2 && d1 == d2 && k1 == k2
  {
    ImportIdRoundTrip(a1, d1, k1);
    ImportIdRoundTrip(a2, d2, k2);
  }

  /** Two import ids with the same amount and date differ exactly when
      their occurrences do, whatever the date holds. */
  lemma ImportIdOccurrenceInjective(amount: Milli, date: string, k1: nat, k2: nat)
    ensures ImportId(amount, date, k1) == ImportId(amount, date, k2) <==> k1 == k2
  {
    var stem := ImportIdStem(amount, date);
    if ImportId(amount, date, k1) == ImportId(amount, date, k2) {
      assert (stem + NatText(k1))[|stem|..] == NatText(k1);
      assert (stem + NatText(k2))[|stem|..] == NatText(k2);
      NatTextInjective(k1, k2);
    }
  }
}
