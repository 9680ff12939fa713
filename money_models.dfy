/**
 * The reference tables of apps/money/models.py: the Currency registry and the
 * dated ExchangeRate table, the uniqueness constraints their Meta classes
 * declare, an insert that enforces them, and `Currency.objects.get(code=...)`.
 */
module MoneyModels {
  import opened Wrappers

  /** Calendar dates as day ordinals; only their order matters here. */
  type Date = int

  /** Primary keys of Currency and Country rows. */
  type CurrencyId = int
  type CountryId = int

  /** A Currency row (models.py:17-21): its primary key and fields. */
  datatype Currency = Currency(
    id: CurrencyId,
    code: string,
    country: Option<CountryId>,
    name: string,
    nameEn: string)

  /**
   * An ExchangeRate row (models.py:32-37). The currency foreign key is
   * nullable; `officialRate` and `rate` are decimals, modelled as reals.
   */
  datatype ExchangeRate = ExchangeRate(
    currency: Option<CurrencyId>,
    date: Date,
    nominal: int,
    officialRate: real,
    rate: real)

  /** Why the store refused an insert. */
  datatype Violation = DuplicateKey | DuplicateCode | DuplicateRate

  /** A row created with the field defaults: nominal 1 and both rates 0. */
  function NewExchangeRate(currency: Option<CurrencyId>, date: Date): ExchangeRate {
    ExchangeRate(currency, date, 1, 0.0, 0.0)
  }

  // ---------------------------------------------------------------------
  // Uniqueness constraints

  /** Two Currency rows clash when they share the primary key or the code. */
  predicate CurrencyClash(a: Currency, b: Currency) {
    a.id == b.id || a.code == b.code
  }

  /** The Currency table: distinct primary keys and `unique_together = ('code',)`. */
  predicate CurrenciesValid(cs: seq<Currency>) {
    forall i, j :: 0 <= i < j < |cs| ==> !CurrencyClash(cs[i], cs[j])
  }

  /**
   * Two ExchangeRate rows clash under `unique_together = ('currency', 'date',
   * 'rate')`. A NULL currency never equals anything in SQL, so a row whose
   * currency is unset clashes with no row.
   */
  predicate RateClash(a: ExchangeRate, b: ExchangeRate) {
    a.currency.Some? && a.currency == b.currency && a.date == b.date && a.rate == b.rate
  }

  /** The ExchangeRate table respects its uniqueness constraint. */
  predicate RatesValid(rs: seq<ExchangeRate>) {
    forall i, j :: 0 <= i < j < |rs| ==> !RateClash(rs[i], rs[j])
  }

  /** The first reason, if any, that `c` cannot join the Currency table `cs`. */
  function CurrencyViolation(cs: seq<Currency>, c: Currency): (v: Option<Violation>)
    ensures v.None? <==> forall d :: d in cs ==> !CurrencyClash(d, c)
    ensures v == Some(DuplicateKey) ==> exists d :: d in cs && d.id == c.id
    ensures v == Some(DuplicateCode) ==> exists d :: d in cs && d.code == c.code
    ensures v != Some(DuplicateRate)
  {
    if |cs| == 0 then None
    else
      assert cs[0] in cs;
      if cs[0].id == c.id then Some(DuplicateKey)
      else if cs[0].code == c.code then Some(DuplicateCode)
      else CurrencyViolation(cs[1..], c)
  }

  /** Whether some row of `rs` clashes with `row`. */
  function HasRateClash(rs: seq<ExchangeRate>, row: ExchangeRate): (b: bool)
    ensures b <==> exists q :: q in rs && RateClash(q, row)
  {
    if |rs| == 0 then false
    else RateClash(rs[0], row) || HasRateClash(rs[1..], row)
  }

  /** Inserting a Currency row: refused when it repeats a primary key or a code. */
  function InsertCurrency(cs: seq<Currency>, c: Currency): (r: Result<seq<Currency>, Violation>)
    ensures r.Ok? <==> forall d :: d in cs ==> !CurrencyClash(d, c)
    ensures r.Ok? ==> r.value == cs + [c]
    ensures r.Ok? && CurrenciesValid(cs) ==> CurrenciesValid(r.value)
    ensures r.Err? ==> r.error != DuplicateRate
  {
    match CurrencyViolation(cs, c)
    case Some(v) => Err(v)
    case None =>
      var t := cs + [c];
      assert forall i :: 0 <= i < |cs| ==> t[i] == cs[i] && cs[i] in cs;
      Ok(t)
  }

  /** Inserting an ExchangeRate row: refused when it repeats (currency, date, rate). */
  function InsertRate(rs: seq<ExchangeRate>, row: ExchangeRate): (r: Result<seq<ExchangeRate>, Violation>)
    ensures r.Ok? <==> forall q :: q in rs ==> !RateClash(q, row)
    ensures r.Ok? ==> r.value == rs + [row]
    ensures r.Ok? && RatesValid(rs) ==> RatesValid(r.value)
    ensures r.Err? ==> r.error == DuplicateRate
  {
    if HasRateClash(rs, row) then Err(DuplicateRate)
    else
      var t := rs + [row];
      assert forall i :: 0 <= i < |rs| ==> t[i] == rs[i] && rs[i] in rs;
      Ok(t)
  }

  // ---------------------------------------------------------------------
  // Currency.objects.get(code=...)

  /** The rows of `cs` whose code is `code`, in table order. */
  function WithCode(cs: seq<Currency>, code: string): (r: seq<Currency>)
    ensures forall c :: c in r <==> c in cs && c.code == code
    ensures r == [] <==> forall c :: c in cs ==> c.code != code
    ensures |r| <= |cs|
  {
    if |cs| == 0 then []
    else if cs[0].code == code then assert cs[0] in cs; [cs[0]] + WithCode(cs[1..], code)
    else WithCode(cs[1..], code)
  }

  /** Two distinct rows of `cs` carry `code`. */
  predicate TwoWithCode(cs: seq<Currency>, code: string) {
    exists i, j :: 0 <= i < j < |cs| && cs[i].code == code && cs[j].code == code
  }

  /** Two rows carry the code exactly when the head and a later row do, or two later rows do. */
  lemma TwoWithCodeUnfold(cs: seq<Currency>, code: string)
    requires |cs| > 0
    ensures TwoWithCode(cs, code) <==>
      (cs[0].code == code && exists d :: d in cs[1..] && d.code == code) || TwoWithCode(cs[1..], code)
  {
    var tail := cs[1..];
    if TwoWithCode(cs, code) {
      var i, j :| 0 <= i < j < |cs| && cs[i].code == code && cs[j].code == code;
      assert tail[j - 1] == cs[j] && tail[j - 1] in tail;
      if 0 < i {
        assert tail[i - 1].code == code && tail[j - 1].code == code;
      }
    }
    if cs[0].code == code && exists d :: d in tail && d.code == code {
      var d :| d in tail && d.code == code;
      var k :| 0 <= k < |tail| && tail[k] == d;
      assert cs[0].code == code && cs[k + 1].code == code;
    }
    if TwoWithCode(tail, code) {
      var i, j :| 0 <= i < j < |tail| && tail[i].code == code && tail[j].code == code;
      assert cs[i + 1].code == code && cs[j + 1].code == code;
    }
  }

  /** `WithCode` finds several rows exactly when two distinct rows carry the code. */
  lemma {:induction false} WithCodeSeveral(cs: seq<Currency>, code: string)
    ensures |WithCode(cs, code)| >= 2 <==> TwoWithCode(cs, code)
  {
    if |cs| > 0 {
      WithCodeSeveral(cs[1..], code);
      TwoWithCodeUnfold(cs, code);
    }
  }

  /** What `Currency.objects.get` raises. */
  datatype LookupError = DoesNotExist | MultipleObjectsReturned

  /**
   * `Currency.objects.get(code=code)`: the row with that code when exactly
   * one row has it; it raises DoesNotExist when there is none and
   * MultipleObjectsReturned when there are several.
   */
  function GetCurrency(cs: seq<Currency>, code: string): (r: Result<Currency, LookupError>)
    ensures r.Ok? ==> r.value in cs && r.value.code == code
    ensures r.Ok? ==> forall d :: d in cs && d.code == code ==> d == r.value
    ensures r == Err(DoesNotExist) <==> forall d :: d in cs ==> d.code != code
    ensures r == Err(MultipleObjectsReturned) <==> TwoWithCode(cs, code)
    ensures r.Ok? <==> (exists d :: d in cs && d.code == code) && !TwoWithCode(cs, code)
  {
    WithCodeSeveral(cs, code);
    var found := WithCode(cs, code);
    if |found| == 0 then Err(DoesNotExist)
    else if |found| > 1 then assert found[0] in found; Err(MultipleObjectsReturned)
    else
      assert found[0] in found;
      Ok(found[0])
  }

  /** On a table that keeps its constraints, at most one row carries a given code. */
  lemma {:induction false} WithCodeAtMostOne(cs: seq<Currency>, code: string)
    requires CurrenciesValid(cs)
    ensures |WithCode(cs, code)| <= 1
  {
    if |cs| > 0 {
      var tail := cs[1..];
      assert CurrenciesValid(tail) by {
        forall i, j | 0 <= i < j < |tail| ensures !CurrencyClash(tail[i], tail[j]) {
          assert tail[i] == cs[i + 1] && tail[j] == cs[j + 1];
        }
      }
      WithCodeAtMostOne(tail, code);
      if cs[0].code == code {
        forall d | d in tail ensures d.code != code {
          var k :| 0 <= k < |tail| && tail[k] == d;
          assert d == cs[k + 1];
          assert !CurrencyClash(cs[0], cs[k + 1]);
        }
      }
    }
  }

  /**
   * On a table that keeps its constraints, `get` finds every row by its code
   * and never raises MultipleObjectsReturned.
   */
  lemma GetCurrencyFinds(cs: seq<Currency>, c: Currency)
    requires CurrenciesValid(cs) && c in cs
    ensures GetCurrency(cs, c.code) == Ok(c)
  {
    WithCodeAtMostOne(cs, c.code);
  }

  /** On a table that keeps its constraints, `get` raises only DoesNotExist. */
  lemma GetCurrencyNeverAmbiguous(cs: seq<Currency>, code: string)
    requires CurrenciesValid(cs)
    ensures GetCurrency(cs, code) != Err(MultipleObjectsReturned)
  {
    WithCodeAtMostOne(cs, code);
  }
}
