/**
 * The dashboard's numeric price column `precio_num`: each `precio` cell is
 * stripped of every character outside `[0-9]` and the rest is read with
 * Python's `int`.  A cell that is not a string (a NULL read as `None`) gives
 * `None`; a string without any digit makes `int("")` raise `ValueError`,
 * which aborts loading the whole table.  The snapshot table and the history
 * table are converted with the same expression, modelled once here.
 */
module Dashboard {
  import opened Wrappers
  import opened Digits
  import opened Text
  import Cards

  /** `int()` was handed a literal it cannot read; here always the empty string. */
  datatype ValueError = InvalidLiteral(literal: string)

  /** The per-cell lambda; `None` is a cell that is not a string. */
  function PrecioNum(x: Option<string>): (r: Result<Option<nat>, ValueError>)
    ensures x.None? ==> r == Ok(None)
    ensures x.Some? ==>
      (r.Err? <==> forall i :: 0 <= i < |x.value| ==> !IsDigit(x.value[i]))
    ensures x.Some? && r.Ok? ==> r.value.Some?
  {
    match x
    case None => Ok(None)
    case Some(s) =>
      var digits := DigitsOnly(s);
      if digits == [] then Err(InvalidLiteral(digits)) else Ok(Some(DecimalValue(digits)))
  }

  /**
   * A non-digit character anywhere in a price is ignored: the value depends
   * only on the digits, in order.
   */
  lemma PrecioNumIgnoresNonDigit(a: string, c: char, b: string)
    requires !IsDigit(c)
    ensures PrecioNum(Some(a + [c] + b)) == PrecioNum(Some(a + b))
  {
    assert [c][1..] == [];
    assert DigitsOnly([c]) == [];
    DigitsOnlyAppend(a + [c], b);
    DigitsOnlyAppend(a, [c]);
    DigitsOnlyAppend(a, b);
    assert DigitsOnly(a + [c]) == DigitsOnly(a) + [] == DigitsOnly(a);
    assert DigitsOnly(a + [c] + b) == DigitsOnly(a + b);
  }

  /** Appending a digit multiplies the value of the digits so far by ten and adds the digit. */
  lemma PrecioNumAppendDigit(s: string, d: char)
    requires IsDigit(d)
    ensures PrecioNum(Some(s + [d])) == Ok(Some(
      match PrecioNum(Some(s)) case Ok(Some(v)) => 10 * v + DigitValue(d) case _ => DigitValue(d)))
  {
    assert [d][1..] == [];
    assert DigitsOnly([d]) == [d];
    DigitsOnlyAppend(s, [d]);
    var ds := DigitsOnly(s) + [d];
    assert ds[..|ds| - 1] == DigitsOnly(s);
    assert DecimalValue(ds) == 10 * DecimalValue(DigitsOnly(s)) + DigitValue(d);
  }

  /** A leading zero does not change a price. */
  lemma PrecioNumLeadingZero(s: string)
    ensures PrecioNum(Some(['0'] + s)) == Ok(Some(match PrecioNum(Some(s)) case Ok(Some(v)) => v case _ => 0))
  {
    DigitsOnlyAppend(['0'], s);
    assert DigitsOnly(['0']) == ['0'];
    DecimalValueLeadingZero(DigitsOnly(s));
  }

  /** A price written as `str` writes a number reads back as that number. */
  lemma PrecioNumOfDecimal(n: nat)
    ensures PrecioNum(Some(ToDecimal(n))) == Ok(Some(n))
  {
    DecimalValueOfToDecimal(n);
  }

  /** A canonical numeral is exactly the `str` of its price. */
  lemma PrecioNumRoundTrip(s: string)
    requires Canonical(s)
    ensures PrecioNum(Some(s)).Ok? && PrecioNum(Some(s)).value.Some?
    ensures ToDecimal(PrecioNum(Some(s)).value.value) == s
  {
    ToDecimalOfDecimalValue(s);
  }

  lemma DigitsOfDollars()
    ensures DigitsOnly("$1,234") == "1234"
  {
    assert DigitsOnly("4") == "4";
    assert DigitsOnly("34") == "34";
    assert DigitsOnly("234") == "234";
    assert DigitsOnly(",234") == "234";
    assert DigitsOnly("1,234") == "1234";
  }

  lemma ValueOf1234()
    ensures AllDigits("1234") && DecimalValue("1234") == 1234
  {
    assert DecimalValue("1") == 1;
    assert DecimalValue("12") == 12 by { assert "12"[..1] == "1"; }
    assert DecimalValue("123") == 123 by { assert "123"[..2] == "12"; }
    assert "1234"[..3] == "123";
  }

  /** Currency sign and thousands separator vanish: "$1,234" is 1234. */
  lemma PrecioNumDollars()
    ensures PrecioNum(Some("$1,234")) == Ok(Some(1234))
  {
    DigitsOfDollars();
    ValueOf1234();
  }

  lemma DigitsOfPesos()
    ensures DigitsOnly("U$S 0050") == "0050"
  {
    assert DigitsOnly("0") == "0";
    assert DigitsOnly("50") == "50";
    assert DigitsOnly("050") == "050";
    assert DigitsOnly("0050") == "0050";
    assert DigitsOnly(" 0050") == "0050";
    assert DigitsOnly("S 0050") == "0050";
    assert DigitsOnly("$S 0050") == "0050";
  }

  lemma ValueOf0050()
    ensures AllDigits("0050") && DecimalValue("0050") == 50
  {
    assert DecimalValue("5") == 5;
    assert DecimalValue("50") == 50 by { assert "50"[..1] == "5"; }
    assert ['0'] + "50" == "050" && ['0'] + "050" == "0050";
    DecimalValueLeadingZero("50");
    DecimalValueLeadingZero("050");
  }

  /** Letters, spaces and leading zeros vanish: "U$S 0050" is 50. */
  lemma PrecioNumLeadingZeros()
    ensures PrecioNum(Some("U$S 0050")) == Ok(Some(50))
  {
    DigitsOfPesos();
    ValueOf0050();
  }

  /** The scraper's "N/A" placeholder and the empty string make the conversion fail; NULL gives None. */
  lemma PrecioNumWithoutDigits()
    ensures PrecioNum(Some(NotAvailable)).Err?
    ensures PrecioNum(Some("")).Err?
    ensures PrecioNum(None) == Ok(None)
  {
    assert !IsDigit(NotAvailable[0]) && !IsDigit(NotAvailable[1]) && !IsDigit(NotAvailable[2]);
  }

  /**
   * `df['precio'].apply(...)`: every cell converted in order, or the first
   * failure, which aborts the load.
   */
  function PrecioColumn(column: seq<Option<string>>): (r: Result<seq<Option<nat>>, ValueError>)
    ensures r.Ok? <==> forall i :: 0 <= i < |column| ==> PrecioNum(column[i]).Ok?
    ensures r.Ok? ==>
      && |r.value| == |column|
      && forall i :: 0 <= i < |column| ==> r.value[i] == PrecioNum(column[i]).value
  {
    if column == [] then Ok([])
    else match PrecioNum(column[0])
      case Err(e) => Err(e)
      case Ok(v) =>
        match PrecioColumn(column[1..])
        case Err(e) => Err(e)
        case Ok(vs) => Ok([v] + vs)
  }

  /**
   * The page script and the dashboard read a number out of text the same
   * way: a labelled paragraph's `<b>` text yields a bid count exactly when
   * the dashboard's conversion accepts that text, and then the same number.
   */
  lemma BidOfAgreesWithPrecioNum(p: Cards.Paragraph)
    requires Contains(p.text, Cards.BidLabel) && p.bold.Some?
    ensures Cards.BidOf(p).Some? <==> PrecioNum(Some(p.bold.value)).Ok?
    ensures Cards.BidOf(p).Some? ==> PrecioNum(Some(p.bold.value)) == Ok(Some(Cards.BidOf(p).value))
  {
  }
}
