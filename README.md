# Expense tracker: validator, table handlers and client list view

This project models the three deterministic pieces of a personal expense tracker.
Everything else in the tracker is HTTP, database or UI plumbing.

- **The request-body validator** (`parse_expense_payload`) is shared by the create and
  update handlers. It checks the four required keys, strips the title and category,
  reads the amount as a Python `Decimal` and the date as three `-`-separated integers.
  It returns either `(record, None)` or `(None, errors)`. `Schemas.ParseExpensePayload`
  is the imperative method: a loop over the required keys, then appends to the error
  list. `Schemas.Validate` is the function it is proved equal to, and the lemmas are
  about that function.
- **The REST handlers over the `expenses` table.** The table is a map from id to row.
  - A row's amount is a whole number of hundredths, following the `Numeric(10, 2)`
    column.
  - `GET /expenses` is a pure pipeline: `Routes.ListExpenses` filters the rows, orders
    them by date descending then id descending, and takes the page window.
  - The two summaries are also pure functions: `Routes.SummaryMonth` and
    `Routes.SummaryByCategory`.
  - Create, update and delete are methods of the class `Routes.ExpenseStore`, which
    holds the table and the next id.
  - Update merges the body over the stored row, validates it again, and assigns the
    fields in a loop (`Routes.AssignFields`).
- **The client list view.**
  - `App.Visible` is the `visible` memo: a blank-aware, case-insensitive search filter,
    then one of four stable sorts over a copy. `Sorting.SortBy` is a stable insertion
    sort by an integer key. ECMA-262 requires `Array.prototype.sort` to be stable, so
    each of the four sorts is fully determined by its key.
  - The state cells (the fetched rows, the loading flag, the filters, the sort mode,
    the page counter) are fields of the class `App.ListView`. Each handler is a method.

Helper modules:

- `Text` covers Python `strip`, JavaScript `trim`, ASCII lower-casing, substring
  search, `split('-')` and `int()`.
- `Decimals` covers `Decimal(text)` for finite literals, rounding to hundredths and
  `str()` of a two-place amount.
- `Dates` covers calendar validity, `isoformat()` and day numbers.

Two behaviours of the handlers shape the model:

- `update_expense` accepts a partial body: a missing key keeps its stored value, rendered
  as text and validated again (backend/routes.py:81-86). `Routes.Merge` builds that body.
- `onCreate` resets the page only after `createExpense` resolves; a rejected create
  throws first and keeps the page (frontend--/src/App.jsx:32).

## Model

| member | source | states |
|---|---|---|
| Schemas.CollectMissing | backend/schemas.py:8-11 | the loop over `REQUIRED` yields one "Missing field: k" per absent key, in `REQUIRED` order |
| Schemas.ParseExpensePayload | backend/schemas.py:7-45 | the imperative validator returns exactly the pair `Validate` specifies |
| Schemas.MissingErrorsSpec | backend/schemas.py:9-11 | a message names a key iff that key is absent; no other message; empty iff every key is present |
| Schemas.MissingErrorsDistinct | backend/schemas.py:9-11 | over keys without repeats, such as `REQUIRED`, no message is reported twice |
| Schemas.MissingErrorsKeyOrder | backend/schemas.py:9-11 | the messages of two absent keys come in the order of the keys |
| Schemas.HasRequiredIff | backend/schemas.py:5-13 | the early return happens iff some key of `REQUIRED` is missing |
| Schemas.MissingKeysReported | backend/schemas.py:9-13 | with a key absent the result is `(None, missing-key messages)`, non-empty, and no field check contributes |
| Schemas.Validate | backend/schemas.py:7-45 | a returned record comes from a body with all four keys and has a non-empty title and category, a positive amount and a valid date |
| Schemas.ExactlyOneResult | backend/schemas.py:37-45 | exactly one half of the pair is present, and a failure carries at least one message |
| Schemas.AcceptedIff | backend/schemas.py:15-38 | success iff all keys are present, both stripped texts are non-empty, the amount parses and is > 0, and the date parses |
| Schemas.AcceptedFields | backend/schemas.py:15-45 | on success the title and category are the stripped inputs and non-empty, the amount is the parsed positive decimal, the date is the parsed valid date |
| Schemas.FieldErrorsEmptyIff | backend/schemas.py:17-35 | the field checks add nothing iff every field is acceptable |
| Schemas.FieldErrorsAccumulate | backend/schemas.py:17-35 | each field message is present iff its own condition holds, whatever the other fields hold (no short-circuit) |
| Schemas.FieldErrorsOrdered | backend/schemas.py:17-35 | the field messages appear in the order title, category, amount, date |
| Schemas.FieldErrorsConcat | backend/schemas.py:17-35 | the error list is the concatenation of the four checks' own messages |
| Schemas.FieldChecksAccumulate | backend/schemas.py:15-38 | with all keys present, each field message is reported iff its own condition holds on the stripped texts and parser outcomes, and the messages come in title, category, amount, date order |
| Schemas.ExtraKeysIgnored | backend/schemas.py:9-45 | adding keys outside `REQUIRED` does not change the result |
| Text.PyStrip | backend/schemas.py:15-16 | `strip()` never lengthens the text and leaves no white space at either end |
| Text.JsTrim | frontend--/src/App.jsx:46 | `trim()` never lengthens the text and leaves no white space at either end |
| Text.TrimBy | backend/schemas.py:15-16 | `strip()` returns the slice between a run of spaces on each side, and it neither starts nor ends with a space |
| Text.TrimEmptyIff | backend/schemas.py:17-20 | a stripped text is empty iff the text is all white space |
| Text.TrimIdempotent | backend/schemas.py:15-16 | stripping a stripped text changes nothing |
| Text.Split | backend/schemas.py:31 | `split('-')` gives at least one piece, no piece holds `-`, and joining the pieces gives the text back |
| Text.SplitJoin | backend/schemas.py:31 | splitting the join of dash-free pieces gives the pieces back |
| Text.ParseInt | backend/schemas.py:32 | `int()` of a blank text fails |
| Text.SignedDigitsIff | backend/schemas.py:32 | `int()` of a stripped piece succeeds iff it is an optional sign followed by at least one digit |
| Text.ParseIntIff | backend/schemas.py:32 | `int(s)` succeeds iff the stripped `s` is an integer literal |
| Text.ParseIntZeroPad | backend/routes.py:84 | `int()` reads back a zero-padded `isoformat()` field |
| Text.Lower | backend/routes.py:25-28 | lower-casing keeps the length and maps each character |
| Text.Contains | backend/routes.py:25-28 | a text only contains texts no longer than itself, and always contains the empty text |
| Text.ContainsIff | backend/routes.py:25-28 | the `LIKE '%q%'` / `includes` test succeeds iff the text occurs as a contiguous block |
| Decimals.ParseDecimal | backend/schemas.py:23-25 | `Decimal()` of a blank text fails, and a text whose stripped form starts with `-` never gives a positive amount |
| Decimals.ParseUnsigned | backend/schemas.py:23 | an unsigned literal reads as a non-negative coefficient |
| Decimals.ParseSigned | backend/schemas.py:23-25 | a literal starting with `-` never parses to a positive amount |
| Decimals.ToHundredths | backend/models.py:9 | storing in PostgreSQL's `Numeric(10, 2)` is exact for at most two fraction digits and otherwise rounds to the nearest hundredth |
| Decimals.FormatHundredths | backend/routes.py:83 | `str()` of a two-place amount has a point before its last two characters and starts with `-` iff the amount is negative |
| Decimals.FormatHundredthsRoundTrip | backend/routes.py:83 | `str()` of a stored amount parses back to the same number of hundredths |
| Decimals.FormatHundredthsLong | backend/routes.py:143-145 | a two-place total never prints as the bare `0` of an empty sum |
| Dates.DaysInMonth | backend/schemas.py:32 | month lengths are 28 to 31 days, and February has 29 exactly in leap years |
| Dates.ParseDate | backend/schemas.py:30-35 | an accepted date is a valid calendar date |
| Dates.ParseDateExtraPieces | backend/schemas.py:31-32 | pieces after the third `-`-separated piece do not change the parsed date |
| Dates.IsoFormat | backend/routes.py:84 | `isoformat()` of a valid date has ten characters with `-` at positions 4 and 7 |
| Dates.IsoFormatRoundTrip | backend/routes.py:84 | `isoformat()` of a stored date parses back to that date |
| Dates.EarlierTotal | backend/routes.py:33-36 | chronological order, as SQL compares dates, is a strict total order |
| Dates.DayNumberOrder | frontend--/src/App.jsx:51 | day numbers, the client's time values, order valid dates exactly as the calendar does |
| Sorting.SortByPermutation | frontend--/src/App.jsx:53-56 | the stable sort returns a permutation of its input |
| Sorting.SortBySorted | frontend--/src/App.jsx:53-56 | the sorted keys never decrease |
| Sorting.SortByStable | frontend--/src/App.jsx:53-56 | the elements of each key keep their input order |
| Sorting.SortByUnique | frontend--/src/App.jsx:53-56 | sortedness and stability determine the result: any such arrangement is the sort's result |
| Sorting.SortBySortedInput | frontend--/src/App.jsx:53-56 | an input already in key order comes back unchanged |
| Sorting.PermutationDistinctBy | backend/routes.py:167 | reordering rows whose categories are distinct keeps them distinct |
| Routes.NewerOrder | backend/routes.py:39 | `date DESC, id DESC` is a strict order, total on distinct ids |
| Routes.Listing | backend/routes.py:39 | the ordered listing holds as many rows as the table |
| Routes.ListingElements | backend/routes.py:39 | the listing holds exactly the table's rows |
| Routes.ListingSorted | backend/routes.py:39 | consecutive listed rows are in `date DESC, id DESC` order |
| Routes.Select | backend/routes.py:23-36 | the filters keep some of the table's rows, each unchanged under its id, and keep the table well formed |
| Routes.Matching | backend/routes.py:23-39 | the matched rows come newest first |
| Routes.PageSize | backend/routes.py:42-43 | `page_size` defaults to 20 and is clamped into [1, 100] |
| Routes.Window | backend/routes.py:45 | `OFFSET off LIMIT n` is the run of at most n rows starting at `off` |
| Routes.MatchingIff | backend/routes.py:23-39 | a row is matched iff it is in the table, contains `q` in its lower-cased title or category (when `q` is non-empty), and lies within the given date bounds |
| Routes.ListExpenses | backend/routes.py:41-48 | a page holds at most `page_size` rows |
| Routes.ListExpensesSpec | backend/routes.py:41-48 | a page holds at most `page_size` rows, the run starting at `(page - 1) * page_size`, each one a matched table row |
| Routes.ListExpensesOrdered | backend/routes.py:39-45 | a page is ordered by date descending, then id descending |
| Routes.PagesCover | backend/routes.py:41-45 | matched row i appears at position `i % size` of page `i / size + 1` |
| Routes.TotalRemove | backend/routes.py:130 | `SUM(amount)` does not depend on row order: any row can be taken out first |
| Routes.TotalInsert | backend/routes.py:130 | a row under a new id adds its amount to the sum |
| Routes.TotalNonNegative | backend/routes.py:130 | a sum of non-negative amounts is not negative |
| Routes.SummaryPeriod | backend/routes.py:127-141 | the given year and month are used when both are present and non-zero, otherwise the current month |
| Routes.SummaryMonth | backend/routes.py:130-145 | the month total is always a decimal literal |
| Routes.SummaryMonthValue | backend/routes.py:130-145 | the month total reads back as the sum of that month's amounts, and is the text `0` iff no row is in that month |
| Routes.MonthRowsEmptyIff | backend/routes.py:131-141 | no rows match iff no row is dated in that month |
| Routes.MonthTotalInsert | backend/routes.py:130-135 | a new row adds its amount to its own month's total and to no other |
| Routes.CategoriesSpec | backend/routes.py:167 | `GROUP BY category` names each category once and nothing else |
| Routes.Groups | backend/routes.py:158-161 | each group's total is the sum over its category |
| Routes.RangeRowsIff | backend/routes.py:162-165 | the grouped rows are exactly the table rows within the date bounds |
| Routes.CategoryGroups | backend/routes.py:158-167 | the groups come in descending order of total |
| Routes.CategoryGroupsSpec | backend/routes.py:158-167 | one group per distinct category in range, none twice, with totals in descending order |
| Routes.CategoryTotals | backend/routes.py:158-167 | each group's total is the sum of its category's amounts in range |
| Routes.SummaryByCategory | backend/routes.py:148-172 | no category appears twice in the response |
| Routes.SummaryByCategoryValue | backend/routes.py:171-172 | each response row carries its group's category and a text that reads back as its total |
| Routes.Stored | backend/routes.py:60-61 | a record with a positive amount becomes a row with a non-negative amount |
| Routes.PositiveStoredNonNegative | backend/models.py:9 | rounding a positive decimal to hundredths never gives a negative number |
| Routes.SubCentStoredAsZero | backend/models.py:9 | a positive amount below half a cent passes validation and is stored as 0 |
| Routes.AcceptedRowValid | backend/routes.py:60-61 | every accepted record is stored as a valid row: valid date, stripped non-empty texts, non-negative amount |
| Routes.Merge | backend/routes.py:81-86 | the merged body always holds the four required keys |
| Routes.MergedFields | backend/routes.py:81-95 | on an accepted update, keys in the body take the body's values and absent keys keep the stored values |
| Routes.EmptyUpdateKeepsRow | backend/routes.py:81-95 | an update with an empty body rewrites a row with a positive amount unchanged |
| Routes.ZeroRowRejected | backend/routes.py:83 | a row stored as 0.00 cannot be updated without an amount: "amount must be > 0" |
| Routes.SetAllFields | backend/routes.py:94-95 | assigning the four parsed fields in order gives the stored record under the same id |
| Routes.AssignFields | backend/routes.py:94-95 | the `setattr` loop leaves the row equal to the stored form of the parsed record |
| Routes.InsertValid | backend/routes.py:60-62 | inserting a valid row under a fresh id keeps the table valid |
| Routes.ReplaceValid | backend/routes.py:94-97 | replacing a row by a valid one with the same id keeps the table valid |
| Routes.RemoveValid | backend/routes.py:113-114 | removing a row keeps the table valid |
| Routes.UpdateOutcome | backend/routes.py:88-95 | validating a merged update gives exactly one of record or errors, and an accepted record keeps the table valid |
| Routes.ExpenseStore.Create | backend/routes.py:53-66 | a rejected body gives 400 with the messages and an unchanged table; otherwise exactly one row, the parsed record under a fresh id, is added and returned with 201 |
| Routes.ExpenseStore.Update | backend/routes.py:72-101 | unknown id gives 404 and no change; a rejected merge gives 400 and no change; otherwise only that row changes, to the stored merged record, with 200 |
| Routes.ExpenseStore.Delete | backend/routes.py:107-116 | unknown id gives 404 and no change; otherwise exactly that id is removed, with 204 |
| App.Filter | frontend--/src/App.jsx:48 | the filter never returns more rows than it is given |
| App.FilterMembers | frontend--/src/App.jsx:48 | the filter keeps exactly the rows that match |
| App.FilterAppend | frontend--/src/App.jsx:48 | filtering distributes over concatenation, so relative order is preserved |
| App.FilterAllKept | frontend--/src/App.jsx:48 | rows that all match are kept as they are |
| App.Searched | frontend--/src/App.jsx:45-49 | the search step returns at most the fetched rows, each one of them |
| App.BlankSearchKeepsAll | frontend--/src/App.jsx:46 | a whitespace-only search applies no filter |
| App.SearchMembers | frontend--/src/App.jsx:46-48 | with a non-blank search a row is kept iff its lower-cased title or category contains the lower-cased, untrimmed search |
| App.ModeKey | frontend--/src/App.jsx:52-57 | exactly the four known modes have a sort key |
| App.Arrange | frontend--/src/App.jsx:50-58 | every sort mode returns a rearrangement of its input |
| App.ArrangeByKey | frontend--/src/App.jsx:52-58 | a known mode is the stable sort by its key; an unknown mode leaves the order unchanged |
| App.Visible | frontend--/src/App.jsx:44-60 | at most the fetched rows are visible, and each visible row was fetched |
| App.VisiblePermutation | frontend--/src/App.jsx:53-56 | every sort returns a permutation of the filtered rows |
| App.VisibleOrder | frontend--/src/App.jsx:52-58 | ascending modes give non-decreasing keys, descending modes give non-increasing keys, an unknown mode gives the filtered order |
| App.VisibleChronological | frontend--/src/App.jsx:53 | with valid dates, `date_asc` lists rows in calendar order |
| App.VisibleReverseChronological | frontend--/src/App.jsx:54 | with valid dates, `date_desc` lists rows in reverse calendar order |
| App.VisibleStable | frontend--/src/App.jsx:53-56 | rows with equal keys keep their filtered order under every known mode |
| App.VisibleEmpty | frontend--/src/App.jsx:44-59 | no fetched rows, nothing visible |
| App.VisibleIdempotent | frontend--/src/App.jsx:44-60 | projecting the projection again with the same state changes nothing |
| App.ListView.constructor | frontend--/src/App.jsx:9-18 | the initial state: no rows, loading, empty filters, `date_desc`, page 1, page size 10 |
| App.ListView.Prev | frontend--/src/App.jsx:80 | Prev is `max(1, p - 1)` and nothing else changes |
| App.ListView.Next | frontend--/src/App.jsx:82 | Next is `p + 1` and nothing else changes |
| App.ListView.SetFromDate | frontend--/src/App.jsx:70 | changing the start date resets the page to 1 |
| App.ListView.SetToDate | frontend--/src/App.jsx:71 | changing the end date resets the page to 1 |
| App.ListView.SetSearch | frontend--/src/App.jsx:69 | the search input changes only the search text |
| App.ListView.SetSortBy | frontend--/src/App.jsx:72 | the sort select changes only the mode |
| App.ListView.Shown | frontend--/src/App.jsx:88-92 | nothing is shown while loading; otherwise only fetched rows, and never more than were fetched |
| App.ListView.OnCreate | frontend--/src/App.jsx:32 | a successful create resets the page to 1; a rejected one keeps the page; nothing else changes |
| App.ListView.Query | frontend--/src/App.jsx:22-26 | the fetch sends the page, page size 10, and each date filter only when it is set |
| App.ListView.BeginRefresh | frontend--/src/App.jsx:21 | a refresh first sets the loading flag |
| App.ListView.FinishRefresh | frontend--/src/App.jsx:27-28 | the fetched data is stored when it is an array and `[]` otherwise; loading ends |

## Left out

- I/O is left out: Flask routing, JSON decoding, database sessions and commits, axios,
  React rendering and effects.
- A request body is modelled as each key with the text of its value. `str()` of
  non-string JSON values (numbers, `null`, lists) is taken as given.
- The database's id assignment is modelled as a counter. The model stores a new row
  under `nextId` and then advances it; any fresh id would do.
- `func.current_date()` is the parameter `today` of `Routes.SummaryMonth`.
- The database is taken to be PostgreSQL; `backend/db.py` takes the engine from
  `DATABASE_URL`, and other backends differ in three ways the model does not follow:
  - SQLite treats a negative `OFFSET` as 0 instead of failing;
  - SQLite keeps the amount unrounded (a float) and only rounds when it is read back,
    so two rows of 0.125 sum to `0.25` rather than the model's `0.26`, and
    `Routes.SubCentStoredAsZero` and `Routes.ZeroRowRejected` do not hold there;
  - SQLite and MySQL type `coalesce(sum(amount), 0)` as `Numeric(10, 2)`, so an empty
    month prints `0.00` rather than the `0` of `Routes.SummaryMonthValue`.
- `LIKE` wildcards: the search text `q` is matched as a plain substring, so `%`, `_` and
  PostgreSQL's default escape character `\` inside `q` are not treated as patterns.
- Routes.ListExpenses requires `page >= 1`. The handler does not clamp `page`, and a
  negative offset is a database error.
- The `from` and `to` arguments are modelled as parsed dates, absent when the argument
  is missing or empty. The database's handling of malformed date text is not modelled.
- `Numeric(10, 2)` is modelled as whole hundredths, rounded half away from zero. Its
  ten-digit precision limit (an overflow error) is not modelled. Neither are the
  `String(120)` and `String(50)` limits, which the validator does not check either.
- Decimals.ParseDecimal: `Infinity`, `NaN`, `sNaN`, underscore digit groups and
  non-ASCII (Unicode) decimal digits, all of which Python's `Decimal()` accepts, are not
  accepted.
- Text.ParseInt: `_` digit separators and non-ASCII digits, which Python's `int()`
  accepts, are not accepted.
- Text.Lower: lower-casing is ASCII only. Python, JavaScript and SQL `lower` also fold
  non-ASCII letters.
- Dates.ParseDate: only years 1 to 9999 are valid, as in `datetime.date`. A `-` sign in
  front of the year is seen by `split('-')` as a separator, exactly as in the source.
- The client's sort keys are integers: an amount in hundredths, and a date's day number.
  JavaScript `Number` and `Date` floats and the NaN comparisons for malformed amount or
  date text are not modelled. An invalid date gets the key 0 (App.Time).
- Routes.CategoryGroupsSpec: SQL leaves the order of categories with equal totals
  unspecified. The model lists them in the order their categories first appear in the
  listing order, and promises only descending totals.
- `onDelete` and `onQuickEdit` (a sequence of `prompt` calls) are UI steps around
  `deleteExpense` and `updateExpense` followed by a refresh. Their meaning on the table
  is `Routes.ExpenseStore.Delete` and `Routes.ExpenseStore.Update`.
- The interleaving of concurrent asynchronous refreshes is not modelled. A refresh is
  the two steps `BeginRefresh` and `FinishRefresh`.
- Required-field checks in `ExpenseForm.jsx` and chart-data coercion in `Charts.jsx` are
  not modelled.
- Other files are not part of this model:
  - `backend/auth.py`: password hashing and tokens;
  - `backend/app.py` and `backend/db.py`: wiring;
  - `backend/util.py` beyond the `str()` and `isoformat()` renderings used above;
  - `Charts.jsx`, `ExpenseForm.jsx`, `ExpenseTable.jsx`, `Login.jsx`, `Register.jsx`
    and `api.js`.
