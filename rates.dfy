/** The rate table and the conversion rule of the converter form
    (`Converter._convert` in components/converter-form/converter.tsx).

    A rate is the worth of one reference unit in a currency: an amount is
    divided by the rate of its own currency (giving reference units) and
    multiplied by the rate of the target currency. */
module Rates {

  /** The currency codes the form offers. The enumeration itself lives in a
      file that is not part of this model; USD and RUB are the defaults. */
  datatype Currency = USD | RUB | EUR

  /** Currency code to rate, as decoded from the rate sheet. */
  type RateTable = map<Currency, real>

  /** Outcome of one conversion. Where the JavaScript arithmetic would yield
      NaN (a rate that is absent) or an infinity (division by a zero rate),
      the model names the cause instead. */
  datatype Conversion =
    | Amount(value: real)
    | MissingRate(currency: Currency)
    | ZeroRate(currency: Currency)

  /** `c` has a rate that can be divided by. */
  predicate HasRate(rates: RateTable, c: Currency)
  {
    c in rates && rates[c] != 0.0
  }

  /** A table in the shape the rate sheet is meant to have: every currency
      present with a strictly positive rate. */
  predicate Complete(rates: RateTable)
  {
    forall c: Currency :: c in rates && rates[c] > 0.0
  }

  /** `_convert(value, from, to)`: divide by the source rate, then multiply
      by the target rate. The lookups happen in that order, so an absent
      source rate is reported before an absent target rate. */
  function Convert(rates: RateTable, value: real, from: Currency, to: Currency): (r: Conversion)
    ensures r.Amount? <==> HasRate(rates, from) && to in rates
    ensures from !in rates ==> r == MissingRate(from)
    ensures from in rates && to !in rates ==> r == MissingRate(to)
    ensures from in rates && to in rates && rates[from] == 0.0 ==> r == ZeroRate(from)
  {
    if from !in rates then MissingRate(from)
    else if to !in rates then MissingRate(to)
    else if rates[from] == 0.0 then ZeroRate(from)
    else
      var reference := value / rates[from];
      Amount(reference * rates[to])
  }

  /** Converting into the same currency changes nothing. */
  lemma ConvertSameCurrency(rates: RateTable, value: real, c: Currency)
    requires HasRate(rates, c)
    ensures Convert(rates, value, c, c) == Amount(value)
  {
  }

  /** Converting a to b and then b to c is converting a to c. */
  lemma ConvertCompose(rates: RateTable, value: real, a: Currency, b: Currency, c: Currency)
    requires HasRate(rates, a) && HasRate(rates, b) && c in rates
    ensures Convert(rates, value, a, b).Amount?
    ensures Convert(rates, Convert(rates, value, a, b).value, b, c) == Convert(rates, value, a, c)
  {
    var reference := value / rates[a];
    ConvertValue(rates, value, a, b);
    ConvertValue(rates, reference * rates[b], b, c);
    ConvertValue(rates, value, a, c);
    CancelThrough(reference, rates[b], rates[c]);
  }

  /** The amount a priced conversion yields. */
  lemma ConvertValue(rates: RateTable, value: real, from: Currency, to: Currency)
    requires HasRate(rates, from) && to in rates
    ensures Convert(rates, value, from, to) == Amount(value / rates[from] * rates[to])
  {
  }

  lemma CancelThrough(x: real, y: real, z: real)
    requires y != 0.0
    ensures (x * y) / y * z == x * z
  {
    MultiplyThenDivide(x, y);
  }

  lemma MultiplyThenDivide(x: real, y: real)
    requires y != 0.0
    ensures (x * y) / y == x
  {
  }

  /** A converted amount is worth as many reference units as the original. */
  lemma ConvertKeepsWorth(rates: RateTable, value: real, from: Currency, to: Currency)
    requires Convert(rates, value, from, to).Amount?
    ensures Convert(rates, value, from, to).value * rates[from] == value * rates[to]
  {
    var reference := value / rates[from];
    assert Convert(rates, value, from, to).value == reference * rates[to];
    assert reference * rates[from] == value;
  }

  /** Converting there and back again returns the original amount exactly. */
  lemma ConvertRoundTrip(rates: RateTable, value: real, a: Currency, b: Currency)
    requires HasRate(rates, a) && HasRate(rates, b)
    ensures Convert(rates, value, a, b).Amount?
    ensures Convert(rates, Convert(rates, value, a, b).value, b, a) == Amount(value)
  {
    ConvertCompose(rates, value, a, b, a);
    ConvertSameCurrency(rates, value, a);
  }

  /** Zero is zero in every currency. */
  lemma ConvertZero(rates: RateTable, a: Currency, b: Currency)
    requires HasRate(rates, a) && b in rates
    ensures Convert(rates, 0.0, a, b) == Amount(0.0)
  {
  }

  /** The conversion is linear in the amount. */
  lemma ConvertScales(rates: RateTable, k: real, value: real, a: Currency, b: Currency)
    requires HasRate(rates, a) && b in rates
    ensures Convert(rates, k * value, a, b) == Amount(k * Convert(rates, value, a, b).value)
  {
    assert (k * value) / rates[a] == k * (value / rates[a]);
  }

  /** A complete table prices every pair of currencies. */
  lemma CompleteConvertsEverything(rates: RateTable, value: real, a: Currency, b: Currency)
    requires Complete(rates)
    ensures Convert(rates, value, a, b).Amount?
  {
  }
}
