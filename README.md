# Exchange-rate conversion of the money app

A model of the one piece of logic in `apps/money/models.py`: the
`ExchangeMixin` that monetary records mix in, with the two reference tables it reads.

- **Currency registry and exchange-rate table.** `Currency` rows have a primary key, a code, an optional country and two names. `ExchangeRate` rows have a nullable currency, a date, a nominal, an official rate and a market rate. Each table is a sequence of rows. Its Meta uniqueness constraint is a predicate on that sequence, and an insert refuses a row that would break it. `Currency.objects.get(code=...)` is modelled with both of its exceptions: DoesNotExist and MultipleObjectsReturned.
- **`min_amount_currency`.** The query `filter(currency=c).filter(date__lte=now).order_by('-date')[0]` becomes two filters and a newest-row pick. The `try` body becomes `Convert`, which returns either the converted amount or the exception it would raise. `MinAmountCurrency` catches every such exception and falls back to `min_current_amount`. Both are total functions, with no precondition.
- **`client_currency`.** This is the fixed code-to-glyph table. A missing cookie falls back to the configured default currency.

Several ambient inputs become explicit parameters:
- the request's `currency` cookie is an `Option<string>`;
- "now" is today's date, as a day ordinal;
- the `OFFICIAL_RATE` and `CURRENCY` settings are plain arguments.

`Decimal` values are exact reals.

When several rows of one currency share the latest qualifying date, the row the database returns first is unspecified. The reason is that `order_by('-date')` replaces the Meta ordering `('-date', 'currency__code')`, and that ordering would not separate rows of one currency anyway. The model therefore promises only "a qualifying row with the greatest date". The scan picks the first such row in table order. The lemmas that give an exact result require every latest row to agree on nominal and exchange value. `OneRowPerDayAgrees` shows that this holds whenever the table has at most one row per currency and day.

Division follows Python's `Decimal`. Dividing a non-zero value by zero raises DivisionByZero, and dividing zero by zero raises InvalidOperation. Both are caught, so a zero exchange value (the field default) yields the unconverted amount.

## Model

| member | source | states |
|---|---|---|
| `MoneyModels.InsertCurrency` | apps/money/models.py:17-24 | an insert succeeds exactly when no row shares the primary key or the code; on success the table is the old one plus the row, and a valid table stays valid |
| `MoneyModels.InsertRate` | apps/money/models.py:32-42 | an insert succeeds exactly when no row has the same non-NULL currency, date and rate; on success the row is appended and the uniqueness of (currency, date, rate) is preserved; a refusal is DuplicateRate |
| `MoneyModels.CurrencyViolation` | apps/money/models.py:24 | no violation exactly when the new row clashes with no existing row; a DuplicateKey or DuplicateCode report is witnessed by an existing row |
| `MoneyModels.HasRateClash` | apps/money/models.py:42 | true exactly when some existing row clashes with the new one on (currency, date, rate) |
| `MoneyModels.WithCode` | apps/money/models.py:155 | holds exactly the rows with the requested code, and is empty exactly when no row has that code |
| `MoneyModels.GetCurrency` | apps/money/models.py:155 | `get` succeeds exactly when some row has the requested code and no two rows do, and then returns a row with that code that every row with that code equals; it raises DoesNotExist exactly when no row has the code and MultipleObjectsReturned exactly when two distinct rows have it |
| `MoneyModels.WithCodeSeveral` | apps/money/models.py:155 | the matching rows number two or more exactly when two distinct positions of the table carry the code |
| `MoneyModels.TwoWithCodeUnfold` | apps/money/models.py:155 | two rows carry the code exactly when the first row and a later one do, or two later rows do |
| `MoneyModels.WithCodeAtMostOne` | apps/money/models.py:24 | under the code-uniqueness constraint at most one row matches a code |
| `MoneyModels.GetCurrencyFinds` | apps/money/models.py:155 | on a valid Currency table `get` returns every row by its own code |
| `MoneyModels.GetCurrencyNeverAmbiguous` | apps/money/models.py:155 | on a valid Currency table `get` never raises MultipleObjectsReturned |
| `ExchangeMixin.Where` | apps/money/models.py:156 | a filter keeps exactly the rows that satisfy its condition |
| `ExchangeMixin.Newest` | apps/money/models.py:156 | `order_by('-date')[0]` is absent exactly on an empty query, and otherwise is a row of the query with no later-dated row in it |
| `ExchangeMixin.LatestRate` | apps/money/models.py:156 | no row is found exactly when the currency has no row dated on or before today; a found row belongs to the currency, is dated on or before today, and no such row is dated later |
| `ExchangeMixin.Exchange` | apps/money/models.py:157-160 | the OFFICIAL_RATE choice between `official_rate` and `rate`; its use is stated by `ConvertsWithLatestRate` and `UsesChosenRow` |
| `ExchangeMixin.Convert` | apps/money/models.py:154-161 | the `try` body, returning the value or the exception raised; its behaviour is stated by `ConvertSound` |
| `ExchangeMixin.MinAmountCurrency` | apps/money/models.py:153-164 | the whole method, total, with every exception falling back to the amount; its behaviour is stated by `MinAmountCurrencySound`, `ConvertsWithLatestRate`, `FallsBackWithoutCurrency` and `FallsBackWithoutRate` |
| `ExchangeMixin.ConvertSound` | apps/money/models.py:154-161 | the `try` body raises AttributeError (no request) or KeyError (no cookie) exactly when the cookie is missing; it raises IndexError only for a registered currency with no row dated on or before today; it yields a value only as amount times nominal over the non-zero exchange value of a latest qualifying row of the cookie's currency |
| `ExchangeMixin.MinAmountCurrencySound` | apps/money/models.py:153-164 | the result is the amount unchanged, or the amount converted with a latest qualifying row of the cookie's currency whose exchange value is non-zero |
| `ExchangeMixin.UsesChosenRow` | apps/money/models.py:157-163 | once `get` has found the currency and the query a row, the result is that row's conversion with `official_rate` (flag set) or `rate` (flag clear), or the amount unchanged when that value is zero |
| `ExchangeMixin.ChosenRowAgrees` | apps/money/models.py:156 | when some latest qualifying row exists, the query finds a row, and it agrees on nominal and exchange value with every latest row that all latest rows agree with |
| `ExchangeMixin.ConvertsWithLatestRate` | apps/money/models.py:155-163 | for a registered currency and an agreed latest row, the result is exactly amount times nominal over `official_rate` (flag set) or `rate` (flag clear), or the amount unchanged when that value is zero |
| `ExchangeMixin.FallsBackWithoutCurrency` | apps/money/models.py:155-163 | a missing cookie, or a code no Currency row has, leaves the amount unchanged |
| `ExchangeMixin.FallsBackWithoutRate` | apps/money/models.py:156-163 | a registered currency with no row dated on or before today leaves the amount unchanged, on any Currency table |
| `ExchangeMixin.LatestIsUnique` | apps/money/models.py:156 | with at most one row per currency and day, the latest qualifying row is unique |
| `ExchangeMixin.OneRowPerDayAgrees` | apps/money/models.py:156-160 | with at most one row per currency and day, all latest rows agree on nominal and exchange value, so the result does not depend on database order |
| `ExchangeMixin.LaterRowWins` | apps/money/models.py:156-161 | when a currency's only rows dated on or before today are an earlier and a later one, in any table order and among any other rows, the later is selected whatever its rates; the result is the conversion with it, or the amount unchanged when its exchange value is zero |
| `ExchangeMixin.DefaultRateFallsBack` | apps/money/models.py:36-37 | a latest row left at the field defaults (both rates 0), with which every latest row agrees, makes the amount come back unchanged instead of raising |
| `ExchangeMixin.NewRateFallsBack` | apps/money/models.py:35-37 | a table holding one freshly created row (nominal 1, both rates 0) for the currency gives back the amount unchanged |
| `ExchangeMixin.MarketRateExample` | apps/money/models.py:157-161 | 100 with nominal 1, official 60 and market 61, flag clear, converts to 100/61 |
| `ExchangeMixin.ClientCurrency` | apps/money/models.py:166-180 | the symbol is the table entry for the cookie's code, or for CURRENCY without a cookie: USD "$", EUR "€", JPY "¥", GBP "£"; every other code gives "Rub" |
| `ExchangeMixin.ClientCurrencyIdentifiesCode` | apps/money/models.py:171-180 | two cookies give the same symbol only if both are outside the table or both are the same code |
| `ExchangeMixin.ClientCurrencyDefault` | apps/money/models.py:167-170 | a missing cookie gives the same symbol as a cookie holding CURRENCY |

## Left out

- `apps/money/views.py`: a list view that only adds `tab='bills'` to a template context. It imports a `Bill` model that `models.py` does not define, so it has no behaviour to model.
- `Transaction`, `MoneyBase` and `Account` (apps/money/models.py:51-146): these are field declarations only. Their generic foreign keys, the `Transaction` uniqueness constraint and the two status enumerations have no logic in this file. The constraints are enforced by the database.
- `Account.docs()`: it delegates to `Doc.objects.metalinks_for_object`. The Doc subsystem is not part of this model.
- `min_current_amount`: the attribute belongs to the class the mixin is mixed into, which this file does not define. The model assumes it is a `Decimal` or an integer, so it is a real here. A Python float would make the `Decimal` division raise TypeError, and the source would then always return the amount unconverted.
- `get_request()` and cookies: the cookie is a parameter. A missing request and a missing cookie are both `None`, because either way the code raises and falls back.
- `datetime.now()`: it is a parameter giving today's date. Comparing it with a `DateField` compares dates. The import-time `default=datetime.now()` of the field declarations is not modelled.
- `Decimal` context precision and rounding, and the 4- and 3-place quantisation of the decimal fields: the arithmetic is exact real arithmetic.
- The 16-bit range of `nominal`, the three-character limit of `code`, and any case-insensitive database collation for the code lookup: codes are compared exactly, and integers are unbounded.
- String representations (`__unicode__`) and the translation of `'Rub'` by `ugettext_lazy`: the model returns the untranslated text. The glyphs are modelled as text, not as Python 2 UTF-8 byte strings.
- `ExchangeMixin.Newest`: among rows with the same latest date, the model takes the first in sequence order. The database order is unspecified, and no contract depends on this choice.
