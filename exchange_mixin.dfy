/**
 * `ExchangeMixin` of apps/money/models.py: the minimum amount converted into
 * the client's currency with the latest exchange rate, and the display symbol
 * of the client's currency. The request cookie, the current date and the
 * OFFICIAL_RATE and CURRENCY settings are explicit parameters.
 */
module ExchangeMixin {
  import opened Wrappers
  import opened MoneyModels

  // ---------------------------------------------------------------------
  // The rate query: ExchangeRate.objects.filter(currency=c)
  //                   .filter(date__lte=now).order_by('-date')[0]

  /** A row the query keeps: it belongs to currency `cid` and is dated on or before `today`. */
  predicate Qualifies(row: ExchangeRate, cid: CurrencyId, today: Date) {
    row.currency == Some(cid) && row.date <= today
  }

  /** `row` is a qualifying row with the greatest date among all qualifying rows. */
  ghost predicate IsLatest(rates: seq<ExchangeRate>, cid: CurrencyId, today: Date, row: ExchangeRate) {
    row in rates && Qualifies(row, cid, today) &&
    forall q :: q in rates && Qualifies(q, cid, today) ==> q.date <= row.date
  }

  /** `.filter(...)`: the rows that satisfy `keep`, in table order. */
  function Where(rows: seq<ExchangeRate>, keep: ExchangeRate -> bool): (r: seq<ExchangeRate>)
    ensures forall q :: q in r <==> q in rows && keep(q)
    ensures |r| <= |rows|
  {
    if |rows| == 0 then []
    else
      assert rows[0] in rows;
      if keep(rows[0]) then [rows[0]] + Where(rows[1..], keep) else Where(rows[1..], keep)
  }

  /**
   * `.order_by('-date')[0]`: a row with the greatest date, or None where the
   * index raises IndexError. Among rows of equal date the database order is
   * unspecified; this picks the first in table order.
   */
  function Newest(rows: seq<ExchangeRate>): (r: Option<ExchangeRate>)
    ensures r.None? <==> rows == []
    ensures r.Some? ==> r.value in rows && forall q :: q in rows ==> q.date <= r.value.date
  {
    if |rows| == 0 then None
    else
      match Newest(rows[1..])
      case None => Some(rows[0])
      case Some(later) =>
        assert forall q :: q in rows ==> q == rows[0] || q in rows[1..];
        if later.date <= rows[0].date then Some(rows[0]) else Some(later)
  }

  /** The row line 156 selects for currency `cid` on date `today`. */
  function LatestRate(rates: seq<ExchangeRate>, cid: CurrencyId, today: Date): (r: Option<ExchangeRate>)
    ensures r.None? <==> forall q :: q in rates ==> !Qualifies(q, cid, today)
    ensures r.Some? ==> IsLatest(rates, cid, today, r.value)
  {
    Newest(Where(Where(rates, (q: ExchangeRate) => q.currency == Some(cid)), (q: ExchangeRate) => q.date <= today))
  }

  // ---------------------------------------------------------------------
  // min_amount_currency

  /** The rate the conversion divides by: `official_rate` under OFFICIAL_RATE, else `rate`. */
  function Exchange(row: ExchangeRate, officialRate: bool): real {
    if officialRate then row.officialRate else row.rate
  }

  /** `(min_current_amount * nominal) / exchange` for a non-zero exchange value. */
  function Converted(minCurrentAmount: real, nominal: int, exchange: real): real
    requires exchange != 0.0
  {
    minCurrentAmount * nominal as real / exchange
  }

  /** Every exception the body of `min_amount_currency` can raise. */
  datatype Failure =
    | NoCookie                       // no request (AttributeError) or no 'currency' cookie (KeyError)
    | CurrencyLookup(e: LookupError) // Currency.objects.get raised
    | NoRate                         // the [0] index on an empty query (IndexError)
    | DivisionByZero                 // Decimal x / 0 with x != 0
    | DivisionUndefined              // Decimal 0 / 0 (InvalidOperation)

  /** The body of the `try` block: the converted amount, or the exception it raises. */
  function Convert(minCurrentAmount: real, cookie: Option<string>, currencies: seq<Currency>,
                   rates: seq<ExchangeRate>, today: Date, officialRate: bool): Result<real, Failure>
  {
    match cookie
    case None => Err(NoCookie)
    case Some(code) =>
      match GetCurrency(currencies, code)
      case Err(e) => Err(CurrencyLookup(e))
      case Ok(c) =>
        match LatestRate(rates, c.id, today)
        case None => Err(NoRate)
        case Some(row) =>
          var numerator := minCurrentAmount * row.nominal as real;
          var exchange := Exchange(row, officialRate);
          if exchange == 0.0 then
            Err(if numerator == 0.0 then DivisionUndefined else DivisionByZero)
          else
            Ok(Converted(minCurrentAmount, row.nominal, Exchange(row, officialRate)))
  }

  /**
   * `min_amount_currency`: total; every exception of the `try` block falls
   * back to `min_current_amount` unchanged.
   */
  function MinAmountCurrency(minCurrentAmount: real, cookie: Option<string>, currencies: seq<Currency>,
                             rates: seq<ExchangeRate>, today: Date, officialRate: bool): real
  {
    match Convert(minCurrentAmount, cookie, currencies, rates, today, officialRate)
    case Ok(v) => v
    case Err(_) => minCurrentAmount
  }

  /**
   * What the `try` block can end in: AttributeError (no request) or
   * KeyError (no cookie) exactly when the cookie is missing;
   * IndexError only for a registered currency with no row dated on or before
   * today; a value only as the conversion with a latest qualifying row of the
   * cookie's currency whose exchange value is non-zero.
   */
  lemma ConvertSound(minCurrentAmount: real, cookie: Option<string>, currencies: seq<Currency>,
                     rates: seq<ExchangeRate>, today: Date, officialRate: bool)
    ensures var r := Convert(minCurrentAmount, cookie, currencies, rates, today, officialRate);
      r == Err(NoCookie) <==> cookie.None?
    ensures var r := Convert(minCurrentAmount, cookie, currencies, rates, today, officialRate);
      r == Err(NoRate) ==> exists c :: (c in currencies && cookie == Some(c.code) &&
        forall q :: q in rates ==> !Qualifies(q, c.id, today))
    ensures var r := Convert(minCurrentAmount, cookie, currencies, rates, today, officialRate);
      r.Ok? ==> exists c, row :: (c in currencies && cookie == Some(c.code) &&
        IsLatest(rates, c.id, today, row) && Exchange(row, officialRate) != 0.0 &&
        r.value == Converted(minCurrentAmount, row.nominal, Exchange(row, officialRate)))
  {
    if cookie.Some? {
      var found := GetCurrency(currencies, cookie.value);
      if found.Ok? {
        var c := found.value;
        var chosen := LatestRate(rates, c.id, today);
        if chosen.Some? {
          assert c in currencies && IsLatest(rates, c.id, today, chosen.value);
        } else {
          assert c in currencies && forall q :: q in rates ==> !Qualifies(q, c.id, today);
        }
      }
    }
  }

  /**
   * The result is the amount unchanged, or the amount converted with a latest
   * qualifying row of the cookie's currency whose exchange value is non-zero.
   */
  lemma MinAmountCurrencySound(minCurrentAmount: real, cookie: Option<string>, currencies: seq<Currency>,
                               rates: seq<ExchangeRate>, today: Date, officialRate: bool)
    ensures var r := MinAmountCurrency(minCurrentAmount, cookie, currencies, rates, today, officialRate);
      r == minCurrentAmount || exists c, row :: (c in currencies && cookie == Some(c.code) &&
        IsLatest(rates, c.id, today, row) && Exchange(row, officialRate) != 0.0 &&
        r == Converted(minCurrentAmount, row.nominal, Exchange(row, officialRate)))
  {
    ConvertSound(minCurrentAmount, cookie, currencies, rates, today, officialRate);
  }

  /** Every latest qualifying row carries the same nominal and exchange value as `row`. */
  ghost predicate LatestRowsAgree(rates: seq<ExchangeRate>, cid: CurrencyId, today: Date,
                                  row: ExchangeRate, officialRate: bool) {
    forall q :: IsLatest(rates, cid, today, q) ==>
      q.nominal == row.nominal && Exchange(q, officialRate) == Exchange(row, officialRate)
  }

  /** The row the query picks agrees with any latest row `row` that all latest rows agree with. */
  lemma ChosenRowAgrees(rates: seq<ExchangeRate>, cid: CurrencyId, today: Date,
                        row: ExchangeRate, officialRate: bool)
    requires IsLatest(rates, cid, today, row)
    requires LatestRowsAgree(rates, cid, today, row, officialRate)
    ensures LatestRate(rates, cid, today).Some?
    ensures LatestRate(rates, cid, today).value.nominal == row.nominal
    ensures Exchange(LatestRate(rates, cid, today).value, officialRate) == Exchange(row, officialRate)
  {
    assert row in rates && Qualifies(row, cid, today);
  }

  /**
   * Once `get` has found the currency and the query a row, the result is that
   * row's conversion, or the amount unchanged when its exchange value is zero.
   */
  lemma UsesChosenRow(minCurrentAmount: real, code: string, currencies: seq<Currency>, c: Currency,
                      rates: seq<ExchangeRate>, today: Date, officialRate: bool)
    requires GetCurrency(currencies, code) == Ok(c) && LatestRate(rates, c.id, today).Some?
    ensures var row := LatestRate(rates, c.id, today).value;
      Exchange(row, officialRate) != 0.0 ==>
        MinAmountCurrency(minCurrentAmount, Some(code), currencies, rates, today, officialRate)
          == Converted(minCurrentAmount, row.nominal, Exchange(row, officialRate))
    ensures Exchange(LatestRate(rates, c.id, today).value, officialRate) == 0.0 ==>
      MinAmountCurrency(minCurrentAmount, Some(code), currencies, rates, today, officialRate)
        == minCurrentAmount
  {
  }

  /**
   * With the cookie naming a registered currency and `row` a latest
   * qualifying row (which any other latest row agrees with), the result is
   * `min_current_amount * nominal / exchange`, or the amount unchanged when
   * the exchange value is zero.
   */
  lemma ConvertsWithLatestRate(minCurrentAmount: real, currencies: seq<Currency>, c: Currency,
                               rates: seq<ExchangeRate>, today: Date, officialRate: bool, row: ExchangeRate)
    requires CurrenciesValid(currencies) && c in currencies
    requires IsLatest(rates, c.id, today, row)
    requires LatestRowsAgree(rates, c.id, today, row, officialRate)
    ensures Exchange(row, officialRate) != 0.0 ==>
      MinAmountCurrency(minCurrentAmount, Some(c.code), currencies, rates, today, officialRate)
        == Converted(minCurrentAmount, row.nominal, Exchange(row, officialRate))
    ensures Exchange(row, officialRate) == 0.0 ==>
      MinAmountCurrency(minCurrentAmount, Some(c.code), currencies, rates, today, officialRate)
        == minCurrentAmount
  {
    GetCurrencyFinds(currencies, c);
    ChosenRowAgrees(rates, c.id, today, row, officialRate);
    var chosen := LatestRate(rates, c.id, today).value;
    UsesChosenRow(minCurrentAmount, c.code, currencies, c, rates, today, officialRate);
    if Exchange(row, officialRate) != 0.0 {
      assert Converted(minCurrentAmount, chosen.nominal, Exchange(chosen, officialRate)) == Converted(minCurrentAmount, row.nominal, Exchange(row, officialRate));
    }
  }

  /** Without a cookie, or with a code no Currency row has, the amount is unchanged. */
  lemma FallsBackWithoutCurrency(minCurrentAmount: real, cookie: Option<string>, currencies: seq<Currency>,
                                 rates: seq<ExchangeRate>, today: Date, officialRate: bool)
    requires cookie.None? || forall c :: c in currencies ==> c.code != cookie.value
    ensures MinAmountCurrency(minCurrentAmount, cookie, currencies, rates, today, officialRate)
      == minCurrentAmount
  {
  }

  /** Without a qualifying row for the cookie's currency, the amount is unchanged. */
  lemma FallsBackWithoutRate(minCurrentAmount: real, c: Currency, currencies: seq<Currency>,
                             rates: seq<ExchangeRate>, today: Date, officialRate: bool)
    requires c in currencies
    requires forall q :: q in rates ==> q.currency != Some(c.id) || q.date > today
    ensures MinAmountCurrency(minCurrentAmount, Some(c.code), currencies, rates, today, officialRate)
      == minCurrentAmount
  {
  }

  /**
   * When the table holds at most one row per currency and day, the latest
   * qualifying row is unique, so the result does not depend on the order
   * the database returns equal-dated rows in.
   */
  predicate OneRowPerDay(rates: seq<ExchangeRate>) {
    forall i, j :: 0 <= i < |rates| && 0 <= j < |rates| && i != j && rates[i].currency.Some? ==>
      rates[i].currency != rates[j].currency || rates[i].date != rates[j].date
  }

  lemma LatestIsUnique(rates: seq<ExchangeRate>, cid: CurrencyId, today: Date,
                       row: ExchangeRate, other: ExchangeRate)
    requires OneRowPerDay(rates)
    requires IsLatest(rates, cid, today, row) && IsLatest(rates, cid, today, other)
    ensures row == other
  {
    var i :| 0 <= i < |rates| && rates[i] == row;
    var j :| 0 <= j < |rates| && rates[j] == other;
  }

  /** On such a table every latest qualifying row agrees with any other. */
  lemma OneRowPerDayAgrees(rates: seq<ExchangeRate>, cid: CurrencyId, today: Date,
                           row: ExchangeRate, officialRate: bool)
    requires OneRowPerDay(rates) && IsLatest(rates, cid, today, row)
    ensures LatestRowsAgree(rates, cid, today, row, officialRate)
  {
    forall q | IsLatest(rates, cid, today, q)
      ensures q.nominal == row.nominal && Exchange(q, officialRate) == Exchange(row, officialRate)
    {
      LatestIsUnique(rates, cid, today, row, q);
    }
  }

  /**
   * When the currency's rows dated on or before today are `earlier` and
   * `later`, in whatever order the table holds them, `later` is selected,
   * whatever its rates; the conversion uses it, or the amount comes back
   * unchanged when its exchange value is zero.
   */
  lemma LaterRowWins(minCurrentAmount: real, currencies: seq<Currency>, c: Currency, rates: seq<ExchangeRate>,
                     today: Date, officialRate: bool, earlier: ExchangeRate, later: ExchangeRate)
    requires CurrenciesValid(currencies) && c in currencies
    requires later in rates
    requires earlier.currency == Some(c.id) && later.currency == Some(c.id)
    requires earlier.date < later.date <= today
    requires forall q :: q in rates && Qualifies(q, c.id, today) ==> q == earlier || q == later
    ensures LatestRate(rates, c.id, today) == Some(later)
    ensures Exchange(later, officialRate) != 0.0 ==>
      MinAmountCurrency(minCurrentAmount, Some(c.code), currencies, rates, today, officialRate)
        == Converted(minCurrentAmount, later.nominal, Exchange(later, officialRate))
    ensures Exchange(later, officialRate) == 0.0 ==>
      MinAmountCurrency(minCurrentAmount, Some(c.code), currencies, rates, today, officialRate)
        == minCurrentAmount
  {
    assert IsLatest(rates, c.id, today, later);
    forall q | IsLatest(rates, c.id, today, q)
      ensures q.nominal == later.nominal && Exchange(q, officialRate) == Exchange(later, officialRate)
    {
      assert q == later;
    }
    ConvertsWithLatestRate(minCurrentAmount, currencies, c, rates, today, officialRate, later);
  }

  /**
   * A latest row still holding the field defaults (both rates 0), with which
   * every latest row agrees, makes the division raise, so the amount comes
   * back unchanged; `NewExchangeRate` builds such a row.
   */
  lemma DefaultRateFallsBack(minCurrentAmount: real, currencies: seq<Currency>, c: Currency,
                             rates: seq<ExchangeRate>, today: Date, officialRate: bool, row: ExchangeRate)
    requires CurrenciesValid(currencies) && c in currencies
    requires IsLatest(rates, c.id, today, row) && row.officialRate == 0.0 && row.rate == 0.0
    requires LatestRowsAgree(rates, c.id, today, row, officialRate)
    ensures MinAmountCurrency(minCurrentAmount, Some(c.code), currencies, rates, today, officialRate)
      == minCurrentAmount
  {
    ConvertsWithLatestRate(minCurrentAmount, currencies, c, rates, today, officialRate, row);
  }

  /** A table holding one freshly created row for the currency falls back. */
  lemma NewRateFallsBack(minCurrentAmount: real, currencies: seq<Currency>, c: Currency,
                         today: Date, officialRate: bool)
    requires CurrenciesValid(currencies) && c in currencies
    ensures MinAmountCurrency(minCurrentAmount, Some(c.code), currencies,
              [NewExchangeRate(Some(c.id), today)], today, officialRate) == minCurrentAmount
  {
    var rates := [NewExchangeRate(Some(c.id), today)];
    OneRowPerDayAgrees(rates, c.id, today, rates[0], officialRate);
    DefaultRateFallsBack(minCurrentAmount, currencies, c, rates, today, officialRate, rates[0]);
  }

  /** An example: 100 at nominal 1, official 60.0, market 61.0, flag off. */
  lemma MarketRateExample(usd: Currency, today: Date)
    requires usd.code == "USD"
    ensures MinAmountCurrency(100.0, Some("USD"), [usd],
              [ExchangeRate(Some(usd.id), today, 1, 60.0, 61.0)], today, false) == 100.0 / 61.0
  {
    var rates := [ExchangeRate(Some(usd.id), today, 1, 60.0, 61.0)];
    ConvertsWithLatestRate(100.0, [usd], usd, rates, today, false, rates[0]);
  }

  // ---------------------------------------------------------------------
  // client_currency

  /** The codes with a glyph of their own; every other code shows as "Rub". */
  const Symbols: map<string, string> := map["USD" := "$", "EUR" := "€", "JPY" := "¥", "GBP" := "£"]
  const DefaultSymbol: string := "Rub"

  /** `client_currency`: the cookie's code, or CURRENCY without one, shown as a symbol. */
  function ClientCurrency(cookie: Option<string>, defaultCurrency: string): (s: string)
    ensures var code := if cookie.Some? then cookie.value else defaultCurrency;
      s == if code in Symbols then Symbols[code] else DefaultSymbol
  {
    var currency := match cookie case Some(code) => code case None => defaultCurrency;
    if currency == "USD" then "$"
    else if currency == "EUR" then "€"
    else if currency == "JPY" then "¥"
    else if currency == "GBP" then "£"
    else "Rub"
  }

  /**
   * The symbol identifies the code: a symbol other than "Rub" comes from
   * exactly one code, and "Rub" from every code outside the table.
   */
  lemma ClientCurrencyIdentifiesCode(code: string, other: string, defaultCurrency: string)
    requires ClientCurrency(Some(code), defaultCurrency) == ClientCurrency(Some(other), defaultCurrency)
    ensures code in Symbols <==> other in Symbols
    ensures code in Symbols ==> code == other
  {
  }

  /** A missing cookie behaves exactly like a cookie holding CURRENCY. */
  lemma ClientCurrencyDefault(defaultCurrency: string)
    ensures ClientCurrency(None, defaultCurrency) == ClientCurrency(Some(defaultCurrency), defaultCurrency)
  {
  }
}
