/** The Lloyds Bank statement parser: a CSV export, already split into rows
    of fields, becomes a list of transactions. */
module Statement {
  import opened Wrappers
  import opened Text

  /** A calendar date, as `datetime.strptime(..., "%d/%m/%Y").date()` yields it. */
  datatype Date = Date(day: nat, month: nat, year: nat)

  /** One statement line: its date, its description exactly as written, and
      the two amounts, kept exactly (Python `Decimal`, here `real`). */
  datatype Transaction = Transaction(date: Date, description: string, debit: real, credit: real)

  /** The header row a Lloyds export must start with. */
  const LLOYDS_STATEMENT_COLUMNS: seq<string> := [
    "Transaction Date",
    "Transaction Type",
    "Sort Code",
    "Account Number",
    "Transaction Description",
    "Debit Amount",
    "Credit Amount",
    "Balance"
  ]

  /** Why one data row could not become a transaction. */
  datatype RowError =
    | WrongFieldCount(count: nat)   // the 8-way unpacking of the row failed
    | BadDate(field: string)        // strptime rejected the date
    | BadAmount(field: string)      // Decimal rejected a debit or credit amount

  /** Why a statement could not be parsed; `line` is the index of the row in
      the file, the header being row 0. */
  datatype StatementError =
    | MissingHeader                 // the file has no row at all
    | HeaderMismatch(header: seq<string>)
    | BadRow(line: nat, reason: RowError)

  // ---------------------------------------------------------------------
  // Dates

  predicate IsLeapYear(year: nat) {
    year % 4 == 0 && (year % 100 != 0 || year % 400 == 0)
  }

  function DaysInMonth(month: nat, year: nat): nat
    requires 1 <= month <= 12
  {
    if month == 2 then (if IsLeapYear(year) then 29 else 28)
    else if month == 4 || month == 6 || month == 9 || month == 11 then 30
    else 31
  }

  /** A date that Python's `date` accepts. */
  predicate ValidDate(d: Date) {
    1 <= d.year <= 9999 && 1 <= d.month <= 12 && 1 <= d.day <= DaysInMonth(d.month, d.year)
  }

  /** `%d/%m/%Y`: a day and a month of one or two digits and a year of four,
      separated by slashes, naming a real calendar date. */
  function ParseDate(s: string): (r: Option<Date>)
    ensures r.Some? ==> ValidDate(r.value)
  {
    var fields := SplitOn(s, '/');
    if |fields| == 3
      && 1 <= |fields[0]| <= 2 && 1 <= |fields[1]| <= 2 && |fields[2]| == 4
      && AllDigits(fields[0]) && AllDigits(fields[1]) && AllDigits(fields[2])
    then
      var d := Date(DigitsValue(fields[0]), DigitsValue(fields[1]), DigitsValue(fields[2]));
      if ValidDate(d) then Some(d) else None
    else None
  }

  /** The canonical `DD/MM/YYYY` text of a date. */
  function FormatDate(d: Date): string {
    PadLeft(NatToString(d.day), 2, '0') + "/" + PadLeft(NatToString(d.month), 2, '0') + "/"
      + PadLeft(NatToString(d.year), 4, '0')
  }

  /** Every valid date is read back from its `DD/MM/YYYY` text. */
  lemma ParseFormattedDate(d: Date)
    requires ValidDate(d)
    ensures ParseDate(FormatDate(d)) == Some(d)
  {
    assert d.day < 100 && d.month < 100 && d.year < 10000;
    var dd, mm, yyyy := DateFields(d);
    SplitDateFields(FormatDate(d), dd, mm, yyyy);
    ParseDateFields(FormatDate(d), dd, mm, yyyy);
  }

  /** The three zero-padded fields of a formatted date and their values. */
  lemma DateFields(d: Date) returns (dd: string, mm: string, yyyy: string)
    requires d.day < 100 && d.month < 100 && d.year < 10000
    ensures FormatDate(d) == dd + "/" + mm + "/" + yyyy
    ensures |dd| == 2 && |mm| == 2 && |yyyy| == 4
    ensures AllDigits(dd) && AllDigits(mm) && AllDigits(yyyy)
    ensures Date(DigitsValue(dd), DigitsValue(mm), DigitsValue(yyyy)) == d
  {
    dd := PadLeft(NatToString(d.day), 2, '0');
    mm := PadLeft(NatToString(d.month), 2, '0');
    yyyy := PadLeft(NatToString(d.year), 4, '0');
    assert d.day < Pow10(2) && d.month < Pow10(2) && d.year < Pow10(4) by {
      assert Pow10(2) == 100 && Pow10(4) == 10000;
    }
    PaddedField(d.day, 2);
    PaddedField(d.month, 2);
    PaddedField(d.year, 4);
  }

  lemma SplitDateFields(s: string, dd: string, mm: string, yyyy: string)
    requires s == dd + "/" + mm + "/" + yyyy
    requires AllDigits(dd) && AllDigits(mm) && AllDigits(yyyy)
    ensures SplitOn(s, '/') == [dd, mm, yyyy]
  {
    NoSeparatorInDigits(dd, '/');
    NoSeparatorInDigits(mm, '/');
    NoSeparatorInDigits(yyyy, '/');
    JoinThree(dd, mm, yyyy, '/');
    SplitJoin([dd, mm, yyyy], '/');
  }

  /** A number below 10^width, zero-padded to `width`, is a digit string of
      exactly that width with that value. */
  lemma PaddedField(n: nat, width: nat)
    requires 1 <= width && n < Pow10(width)
    ensures |PadLeft(NatToString(n), width, '0')| == width
    ensures AllDigits(PadLeft(NatToString(n), width, '0'))
    ensures DigitsValue(PadLeft(NatToString(n), width, '0')) == n
  {
    NatToStringLength(n, width);
    ZeroPaddedValue(n, width);
  }

  lemma ParseDateFields(s: string, dd: string, mm: string, yyyy: string)
    requires SplitOn(s, '/') == [dd, mm, yyyy]
    requires 1 <= |dd| <= 2 && 1 <= |mm| <= 2 && |yyyy| == 4
    requires AllDigits(dd) && AllDigits(mm) && AllDigits(yyyy)
    requires ValidDate(Date(DigitsValue(dd), DigitsValue(mm), DigitsValue(yyyy)))
    ensures ParseDate(s) == Some(Date(DigitsValue(dd), DigitsValue(mm), DigitsValue(yyyy)))
  {
  }

  // ---------------------------------------------------------------------
  // Amounts

  /** The value of a numeral with integer digits `whole` and fraction
      digits `frac`. */
  function DecimalValue(whole: string, frac: string): (v: real)
    requires AllDigits(whole) && AllDigits(frac)
    ensures 0.0 <= v
  {
    DigitsValue(whole) as real + DigitsValue(frac) as real / Pow10(|frac|) as real
  }

  /** The exact value of an unsigned decimal numeral: digits with an
      optional fractional part (`12`, `12.50`, `12.`, `.5`); `None` for
      anything else. */
  function DecodeUnsignedDecimal(s: string): (r: Option<real>)
    ensures r.Some? ==> r.value >= 0.0
  {
    DecimalFromParts(SplitOn(s, '.'))
  }

  /** The value of a numeral given as the fields on either side of its
      decimal point. */
  function DecimalFromParts(parts: seq<string>): (r: Option<real>)
    ensures r.Some? ==> r.value >= 0.0
  {
    if |parts| == 1 && |parts[0]| >= 1 && AllDigits(parts[0]) then
      Some(DecimalValue(parts[0], ""))
    else if |parts| == 2 && |parts[0]| + |parts[1]| >= 1 && AllDigits(parts[0]) && AllDigits(parts[1]) then
      Some(DecimalValue(parts[0], parts[1]))
    else None
  }

  /** `Decimal(s)` for a numeral with an optional sign. */
  function DecodeDecimal(s: string): (r: Option<real>)
    ensures r.Some? ==> |s| >= 1
    ensures r.Some? && r.value < 0.0 ==> s[0] == '-'
    ensures r.Some? && s[0] == '-' ==> r.value <= 0.0
  {
    if |s| >= 1 && s[0] == '-' then
      match DecodeUnsignedDecimal(s[1..])
      case Some(v) => Some(-v)
      case None => None
    else if |s| >= 1 && s[0] == '+' then DecodeUnsignedDecimal(s[1..])
    else DecodeUnsignedDecimal(s)
  }

  /** A whole number of units is read back exactly. */
  lemma DecodeWholeAmount(n: nat)
    ensures DecodeDecimal(NatToString(n)) == Some(n as real)
  {
    var s := NatToString(n);
    NoSeparatorInDigits(s, '.');
    SplitJoin([s], '.');
    DigitsValueOfNatToString(n);
    assert DecimalValue(s, "") == n as real;
  }

  /** An amount written with two decimal places, as statements write pounds
      and pence, is read back exactly. */
  lemma DecodePoundsAndPence(pounds: nat, pence: nat)
    requires pence < 100
    ensures DecodeDecimal(NatToString(pounds) + "." + PadLeft(NatToString(pence), 2, '0'))
         == Some(pounds as real + pence as real / 100.0)
  {
    var whole := NatToString(pounds);
    var frac := PadLeft(NatToString(pence), 2, '0');
    assert DecimalValue(whole, frac) == pounds as real + pence as real / 100.0 by {
      assert Pow10(2) == 100;
      PaddedField(pence, 2);
      DigitsValueOfNatToString(pounds);
    }
    DecodeFraction(whole + "." + frac, whole, frac);
  }

  /** A numeral made of a non-empty digit string, a point and a digit
      string is decoded as their exact value. */
  lemma DecodeFraction(s: string, whole: string, frac: string)
    requires s == whole + "." + frac
    requires |whole| >= 1 && AllDigits(whole) && AllDigits(frac)
    ensures DecodeDecimal(s) == Some(DecimalValue(whole, frac))
  {
    var parts := [whole, frac];
    assert DecimalFromParts(parts) == Some(DecimalValue(whole, frac)) by {
      assert parts[0] == whole && parts[1] == frac;
    }
    assert SplitOn(s, '.') == parts by {
      NoSeparatorInDigits(whole, '.');
      NoSeparatorInDigits(frac, '.');
      assert parts[1..] == [frac];
      SplitJoin(parts, '.');
    }
    assert s[0] == whole[0];
  }

  /** `Decimal(field) if field else Decimal()`: an empty amount field is
      zero, any other is decoded as a decimal. */
  function AmountField(field: string): (r: Option<real>)
    ensures field == "" ==> r == Some(0.0)
    ensures field != "" ==> r == DecodeDecimal(field)
  {
    if field == "" then Some(0.0) else DecodeDecimal(field)
  }

  // ---------------------------------------------------------------------
  // Rows and statements

  /** One data row becomes one transaction: eight fields, of which the date
      (field 0), the description (field 4), and the debit and credit amounts
      (fields 5 and 6) are kept. The checks happen in the source's order:
      field count, date, debit, credit. */
  function ParseRow(row: seq<string>): (r: Result<Transaction, RowError>)
    ensures r.Ok? <==> |row| == 8 && ParseDate(row[0]).Some?
                       && AmountField(row[5]).Some? && AmountField(row[6]).Some?
    ensures |row| != 8 ==> r == Err(WrongFieldCount(|row|))
    ensures |row| == 8 && ParseDate(row[0]).None? ==> r == Err(BadDate(row[0]))
    ensures |row| == 8 && ParseDate(row[0]).Some? && AmountField(row[5]).None? ==> r == Err(BadAmount(row[5]))
    ensures |row| == 8 && ParseDate(row[0]).Some? && AmountField(row[5]).Some? && AmountField(row[6]).None? ==>
              r == Err(BadAmount(row[6]))
    ensures r.Ok? ==> Some(r.value.date) == ParseDate(row[0]) && ValidDate(r.value.date)
    ensures r.Ok? ==> r.value.description == row[4]
    ensures r.Ok? ==> Some(r.value.debit) == AmountField(row[5]) && Some(r.value.credit) == AmountField(row[6])
  {
    if |row| != 8 then Err(WrongFieldCount(|row|))
    else
      match ParseDate(row[0])
      case None => Err(BadDate(row[0]))
      case Some(date) =>
        match AmountField(row[5])
        case None => Err(BadAmount(row[5]))
        case Some(debit) =>
          match AmountField(row[6])
          case None => Err(BadAmount(row[6]))
          case Some(credit) => Ok(Transaction(date, row[4], debit, credit))
  }

  /** The text of an amount of pence as a statement writes it: pounds, a
      point, then the pence as two digits. */
  function PenceText(pence: nat): string {
    NatToString(pence / 100) + "." + PadLeft(NatToString(pence % 100), 2, '0')
  }

  /** A row written from a valid date, a description and a debit (with the
      credit field left empty, as statements leave it) reads back as that
      transaction, with a zero credit; the other fields play no part. */
  lemma ParseWrittenRow(d: Date, kind: string, sortCode: string, account: string, desc: string, debitPence: nat, balance: string)
    requires ValidDate(d)
    ensures ParseRow([FormatDate(d), kind, sortCode, account, desc, PenceText(debitPence), "", balance])
         == Ok(Transaction(d, desc, debitPence as real / 100.0, 0.0))
  {
    var row := [FormatDate(d), kind, sortCode, account, desc, PenceText(debitPence), "", balance];
    ParseFormattedDate(d);
    DecodePoundsAndPence(debitPence / 100, debitPence % 100);
    PoundsAndPence(debitPence);
    assert PenceText(debitPence) != "";
    assert AmountField(row[5]) == Some(debitPence as real / 100.0);
  }

  lemma PoundsAndPence(pence: nat)
    ensures (pence / 100) as real + (pence % 100) as real / 100.0 == pence as real / 100.0
  {
    assert pence == 100 * (pence / 100) + pence % 100;
  }

  /** `parse_lloyds_statement`: checks the header row, then turns every
      following row into a transaction, in file order, stopping at the first
      row that does not parse. */
  method ParseLloydsStatement(rows: seq<seq<string>>) returns (r: Result<seq<Transaction>, StatementError>)
    ensures rows == [] ==> r == Err(MissingHeader)
    ensures rows != [] && rows[0] != LLOYDS_STATEMENT_COLUMNS ==> r == Err(HeaderMismatch(rows[0]))
    ensures r.Ok? <==> rows != [] && rows[0] == LLOYDS_STATEMENT_COLUMNS
                       && forall i :: 1 <= i < |rows| ==> ParseRow(rows[i]).Ok?
    ensures r.Ok? ==> |r.value| == |rows| - 1
                      && forall i :: 0 <= i < |r.value| ==> ParseRow(rows[i + 1]) == Ok(r.value[i])
    ensures rows != [] && rows[0] == LLOYDS_STATEMENT_COLUMNS && r.Err? ==> r.error.BadRow?
    ensures r.Err? && r.error.BadRow? ==>
              1 <= r.error.line < |rows| && ParseRow(rows[r.error.line]) == Err(r.error.reason)
              && forall i :: 1 <= i < r.error.line ==> ParseRow(rows[i]).Ok?
  {
    if rows == [] {
      return Err(MissingHeader);
    }
    if rows[0] != LLOYDS_STATEMENT_COLUMNS {
      return Err(HeaderMismatch(rows[0]));
    }
    var transactions: seq<Transaction> := [];
    var n := 1;
    while n < |rows|
      invariant 1 <= n <= |rows|
      invariant |transactions| == n - 1
      invariant forall i :: 0 <= i < n - 1 ==> ParseRow(rows[i + 1]) == Ok(transactions[i])
      invariant forall i :: 1 <= i < n ==> ParseRow(rows[i]).Ok?
    {
      var tx := ParseRow(rows[n]);
      if tx.Err? {
        assert 1 <= n < |rows| && !ParseRow(rows[n]).Ok?;
        return Err(BadRow(n, tx.error));
      }
      transactions := transactions + [tx.value];
      n := n + 1;
    }
    return Ok(transactions);
  }
}
