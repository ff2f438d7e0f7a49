/**
 * The REST handlers over the `expenses` table. The table is a map from id to row; the
 * listing and the two summaries are functions of the table and the request's query
 * arguments, and create, update and delete are methods of a class holding the table.
 */
module Routes {
  import opened Wrappers
  import opened Text
  import opened Decimals
  import opened Dates
  import opened Schemas
  import opened Sorting

  /** A stored row: its id, title, amount in hundredths (`Numeric(10, 2)`), date and category. */
  datatype Expense = Expense(id: int, title: string, amount: int, date: Date, category: string)

  /** The `expenses` table, keyed by id. */
  type Table = map<int, Expense>

  /** Every row is stored under its own id. */
  predicate WellFormed(t: Table) {
    forall k :: k in t ==> t[k].id == k
  }

  // ---------------------------------------------------------------------------
  // ORDER BY date DESC, id DESC

  /** `a` is listed before `b`: a later date, or the same date and a larger id. */
  predicate Newer(a: Expense, b: Expense) {
    Earlier(b.date, a.date) || (a.date == b.date && a.id > b.id)
  }

  /** `Newer` is a strict order, total on rows with different ids. */
  lemma NewerOrder(a: Expense, b: Expense, c: Expense)
    ensures !Newer(a, a)
    ensures Newer(a, b) ==> !Newer(b, a)
    ensures Newer(a, b) && Newer(b, c) ==> Newer(a, c)
    ensures a.id != b.id ==> Newer(a, b) || Newer(b, a)
  {
    EarlierTotal(c.date, b.date, a.date);
    EarlierTotal(b.date, a.date, c.date);
  }

  /** `k` holds the row listed first. */
  predicate IsNewest(t: Table, k: int) {
    k in t && forall j :: j in t && j != k ==> Newer(t[k], t[j])
  }

  lemma SomeKey<V>(m: map<int, V>)
    requires m != map[]
    ensures exists k :: k in m
  {
    if forall k :: k !in m {
      assert false;
    }
  }

  lemma MapRemoveSize<V>(m: map<int, V>, k: int)
    requires k in m
    ensures (m - {k}).Keys == m.Keys - {k}
    ensures |m - {k}| == |m| - 1
  {
    assert (m - {k}).Keys == m.Keys - {k};
  }

  lemma {:induction false} NewestExists(t: Table)
    requires WellFormed(t) && t != map[]
    ensures exists k :: IsNewest(t, k)
    decreases |t|
  {
    SomeKey(t);
    var j :| j in t;
    var rest := t - {j};
    MapRemoveSize(t, j);
    if rest == map[] {
      assert t.Keys == {j};
      assert IsNewest(t, j);
    } else {
      NewestExists(rest);
      var k :| IsNewest(rest, k);
      assert k in t && k != j;
      NewerOrder(t[j], t[k], t[j]);
      if Newer(t[j], t[k]) {
        forall i | i in t && i != j ensures Newer(t[j], t[i]) {
          if i != k {
            assert i in rest && rest[i] == t[i];
            NewerOrder(t[j], t[k], t[i]);
          }
        }
        assert IsNewest(t, j);
      } else {
        forall i | i in t && i != k ensures Newer(t[k], t[i]) {
          if i != j {
            assert i in rest && rest[i] == t[i];
          }
        }
        assert IsNewest(t, k);
      }
    }
  }

  lemma NewestUnique(t: Table)
    ensures forall k1, k2 :: IsNewest(t, k1) && IsNewest(t, k2) ==> k1 == k2
  {
    forall k1, k2 | IsNewest(t, k1) && IsNewest(t, k2) ensures k1 == k2 {
      if k1 != k2 {
        NewerOrder(t[k1], t[k2], t[k1]);
      }
    }
  }

  /** The rows of the table in the listing order. */
  function Listing(t: Table): (r: seq<Expense>)
    requires WellFormed(t)
    ensures |r| == |t|
    decreases |t|
  {
    if t == map[] then []
    else
      NewestExists(t);
      NewestUnique(t);
      var k :| IsNewest(t, k);
      MapRemoveSize(t, k);
      [t[k]] + Listing(t - {k})
  }

  /** The listing starts with the newest row, followed by the listing of the others. */
  lemma ListingHead(t: Table, k: int)
    requires WellFormed(t) && IsNewest(t, k)
    ensures Listing(t) == [t[k]] + Listing(t - {k})
  {
    NewestUnique(t);
  }

  /** The listing holds exactly the rows of the table. */
  lemma {:induction false} ListingElements(t: Table)
    requires WellFormed(t)
    ensures forall e :: e in Listing(t) <==> e.id in t && t[e.id] == e
    decreases |t|
  {
    if t != map[] {
      NewestExists(t);
      var k :| IsNewest(t, k);
      ListingHead(t, k);
      MapRemoveSize(t, k);
      ListingElements(t - {k});
    }
  }

  /** The listing is in the order `date DESC, id DESC`, with no row twice. */
  lemma {:induction false} ListingSorted(t: Table)
    requires WellFormed(t)
    ensures var r := Listing(t);
      forall i, j :: 0 <= i < j < |r| ==> Newer(r[i], r[j])
    decreases |t|
  {
    if t != map[] {
      NewestExists(t);
      var k :| IsNewest(t, k);
      ListingHead(t, k);
      MapRemoveSize(t, k);
      var rest := Listing(t - {k});
      ListingSorted(t - {k});
      ListingElements(t - {k});
      forall e | e in rest ensures Newer(t[k], e) {
        assert e.id in t - {k};
      }
      ConsOrdered(t[k], rest);
    }
  }

  lemma ConsOrdered(x: Expense, rest: seq<Expense>)
    requires forall i, j :: 0 <= i < j < |rest| ==> Newer(rest[i], rest[j])
    requires forall e :: e in rest ==> Newer(x, e)
    ensures var r := [x] + rest;
      forall i, j :: 0 <= i < j < |r| ==> Newer(r[i], r[j])
  {
    var r := [x] + rest;
    forall i, j | 0 <= i < j < |r| ensures Newer(r[i], r[j]) {
      assert r[j] == rest[j - 1];
      if i == 0 {
        assert rest[j - 1] in rest;
      } else {
        assert r[i] == rest[i - 1];
      }
    }
  }

  // ---------------------------------------------------------------------------
  // GET /expenses

  /** `lower(title) LIKE '%q%'` or `lower(category) LIKE '%q%'` with `q` lower-cased. */
  predicate MatchesSearch(e: Expense, q: string) {
    Contains(Lower(e.title), Lower(q)) || Contains(Lower(e.category), Lower(q))
  }

  /** `date >= from` and `date <= to`, each only when given. */
  predicate InRange(e: Expense, from: Option<Date>, to: Option<Date>) {
    (from.Some? ==> NotLater(from.value, e.date)) && (to.Some? ==> NotLater(e.date, to.value))
  }

  /** The `WHERE` clause of the listing: the search only applies when `q` is not empty. */
  predicate Selected(e: Expense, q: string, from: Option<Date>, to: Option<Date>) {
    (q != [] ==> MatchesSearch(e, q)) && InRange(e, from, to)
  }

  /** The rows of the table the `WHERE` clause keeps. */
  function Select(t: Table, q: string, from: Option<Date>, to: Option<Date>): (r: Table)
    ensures forall k :: k in r ==> k in t && r[k] == t[k]
    ensures WellFormed(t) ==> WellFormed(r)
  {
    map k | k in t && Selected(t[k], q, from, to) :: t[k]
  }

  const DefaultPageSize := 20
  const MaxPageSize := 100

  /** `min(max(page_size, 1), 100)`, with 20 when the argument is absent or not an integer. */
  function PageSize(arg: Option<int>): (n: int)
    ensures 1 <= n <= MaxPageSize
    ensures arg.None? ==> n == DefaultPageSize
    ensures arg.Some? && 1 <= arg.value <= MaxPageSize ==> n == arg.value
    ensures arg.Some? && arg.value < 1 ==> n == 1
    ensures arg.Some? && arg.value > MaxPageSize ==> n == MaxPageSize
  {
    var size := if arg.Some? then arg.value else DefaultPageSize;
    if size < 1 then 1 else if size > MaxPageSize then MaxPageSize else size
  }

  /** `OFFSET off LIMIT n`: the elements of `s` from position `off`, at most `n` of them. */
  function Window<T>(s: seq<T>, off: nat, n: nat): (r: seq<T>)
    ensures |r| == if off >= |s| then 0 else if off + n >= |s| then |s| - off else n
    ensures forall i :: 0 <= i < |r| ==> off + i < |s| && r[i] == s[off + i]
  {
    if off >= |s| then [] else if off + n >= |s| then s[off..] else s[off..off + n]
  }

  /**
   * The query arguments of the listing: `q` (empty when absent), the date bounds, and
   * `page` and `page_size` as `int()` read them (absent when missing or not integers).
   */
  datatype ListQuery = ListQuery(q: string, from: Option<Date>, to: Option<Date>, page: Option<int>, pageSize: Option<int>)

  /** `page` defaults to 1; the handler does not clamp it, so it must be positive. */
  predicate PageOk(query: ListQuery) {
    query.page.None? || query.page.value >= 1
  }

  function PageNumber(query: ListQuery): int {
    if query.page.Some? then query.page.value else 1
  }

  /** The matching rows, newest first. */
  function Matching(t: Table, query: ListQuery): (r: seq<Expense>)
    requires WellFormed(t)
    ensures forall i, j :: 0 <= i < j < |r| ==> Newer(r[i], r[j])
  {
    var s := Select(t, query.q, query.from, query.to);
    ListingSorted(s);
    assert forall i, j :: 0 <= i < j < |Listing(s)| ==> Newer(Listing(s)[i], Listing(s)[j]);
    Listing(s)
  }

  /** `OFFSET (page - 1) * page_size`. */
  function PageOffset(query: ListQuery): nat
    requires PageOk(query)
  {
    (PageNumber(query) - 1) * PageSize(query.pageSize)
  }

  /** The response of `GET /expenses`: one page of the matching rows, newest first. */
  function ListExpenses(t: Table, query: ListQuery): (r: seq<Expense>)
    requires WellFormed(t) && PageOk(query)
    ensures |r| <= PageSize(query.pageSize)
  {
    Window(Matching(t, query), PageOffset(query), PageSize(query.pageSize))
  }

  /**
   * A page holds at most `page_size` rows: the run of the matching rows that starts at
   * `(page - 1) * page_size`; each of them is a row of the table that the filters keep.
   */
  lemma ListExpensesSpec(t: Table, query: ListQuery)
    requires WellFormed(t) && PageOk(query)
    ensures var r := ListExpenses(t, query);
      var off := PageOffset(query);
      var m := Matching(t, query);
      |r| <= PageSize(query.pageSize) &&
      (forall i :: 0 <= i < |r| ==> off + i < |m| && r[i] == m[off + i]) &&
      (forall e :: e in r ==> e.id in t && t[e.id] == e && Selected(e, query.q, query.from, query.to))
  {
    WindowMembers(Matching(t, query), PageOffset(query), PageSize(query.pageSize));
    MatchingIff(t, query);
  }

  lemma WindowMembers<T>(s: seq<T>, off: nat, n: nat)
    ensures forall x :: x in Window(s, off, n) ==> x in s
  {
    forall x | x in Window(s, off, n) ensures x in s {
      var i :| 0 <= i < |Window(s, off, n)| && Window(s, off, n)[i] == x;
      assert s[off + i] == x;
    }
  }

  /** A page lists its rows by date descending, then id descending. */
  lemma ListExpensesOrdered(t: Table, query: ListQuery)
    requires WellFormed(t) && PageOk(query)
    ensures var r := ListExpenses(t, query);
      forall i, j :: 0 <= i < j < |r| ==> Newer(r[i], r[j])
  {
    var sel := Select(t, query.q, query.from, query.to);
    ListingSorted(sel);
    assert Matching(t, query) == Listing(sel);
    WindowOrdered(Matching(t, query), PageOffset(query), PageSize(query.pageSize));
  }

  lemma WindowOrdered(m: seq<Expense>, off: nat, n: nat)
    requires forall i, j :: 0 <= i < j < |m| ==> Newer(m[i], m[j])
    ensures var r := Window(m, off, n);
      forall i, j :: 0 <= i < j < |r| ==> Newer(r[i], r[j])
  {
    var r := Window(m, off, n);
    forall i, j | 0 <= i < j < |r| ensures Newer(r[i], r[j]) {
      assert r[i] == m[off + i] && r[j] == m[off + j];
    }
  }

  /** A row is matched exactly when it is in the table and the filters keep it. */
  lemma MatchingIff(t: Table, query: ListQuery)
    requires WellFormed(t)
    ensures forall e :: e in Matching(t, query) <==>
      e.id in t && t[e.id] == e && Selected(e, query.q, query.from, query.to)
  {
    ListingElements(Select(t, query.q, query.from, query.to));
  }

  /**
   * Paging covers the matching rows: the row at position `i` of the matching rows is at
   * position `i % page_size` of page `i / page_size + 1`.
   */
  lemma PagesCover(t: Table, query: ListQuery, i: int)
    requires WellFormed(t) && PageOk(query)
    requires 0 <= i < |Matching(t, query)|
    ensures var size := PageSize(query.pageSize);
      var r := ListExpenses(t, query.(page := Some(i / size + 1)));
      i % size < |r| && r[i % size] == Matching(t, query)[i]
  {
    var size := PageSize(query.pageSize);
    var q := i / size;
    var p := query.(page := Some(q + 1));
    var m := Matching(t, query);
    assert Matching(t, p) == m;
    assert PageNumber(p) - 1 == q && PageSize(p.pageSize) == size;
    assert PageOffset(p) == q * size;
    WindowCover(m, size, i);
    assert ListExpenses(t, p) == Window(m, q * size, size);
  }

  /** Position `i` of `s` is position `i % n` of the window of length `n` holding it. */
  lemma WindowCover<T>(s: seq<T>, n: nat, i: nat)
    requires n >= 1 && i < |s|
    ensures var w := Window(s, (i / n) * n, n);
      i % n < |w| && w[i % n] == s[i]
  {
  }

  // ---------------------------------------------------------------------------
  // SUM(amount)

  function SumAmounts(s: seq<Expense>): int {
    if s == [] then 0 else s[0].amount + SumAmounts(s[1..])
  }

  /** `SUM(amount)` over the rows of a table, in hundredths. */
  function Total(t: Table): int
    requires WellFormed(t)
  {
    SumAmounts(Listing(t))
  }

  /** The sum does not depend on the order of the rows: any row can be taken out first. */
  lemma {:induction false} TotalRemove(t: Table, k: int)
    requires WellFormed(t) && k in t
    ensures Total(t) == t[k].amount + Total(t - {k})
    decreases |t|
  {
    NewestExists(t);
    var n :| IsNewest(t, n);
    ListingHead(t, n);
    if n != k {
      var a, b := t - {n}, t - {k};
      MapRemoveSize(t, n);
      TotalRemove(a, k);
      NewestRemove(t, n, k);
      ListingHead(b, n);
      RemoveCommute(t, n, k);
    }
  }

  /** The newest row stays the newest when another row is removed. */
  lemma NewestRemove(t: Table, n: int, k: int)
    requires IsNewest(t, n) && k != n
    ensures IsNewest(t - {k}, n)
  {
  }

  lemma RemoveCommute<V>(m: map<int, V>, a: int, b: int)
    ensures m - {a} - {b} == m - {b} - {a}
  {
    assert (m - {a} - {b}).Keys == (m - {b} - {a}).Keys;
  }

  /** Adding a row under a new id adds its amount. */
  lemma TotalInsert(t: Table, e: Expense)
    requires WellFormed(t) && e.id !in t
    ensures WellFormed(t[e.id := e]) && Total(t[e.id := e]) == Total(t) + e.amount
  {
    var u := t[e.id := e];
    TotalRemove(u, e.id);
    assert u - {e.id} == t;
  }

  /** With no negative amounts, the sum is not negative. */
  lemma {:induction false} TotalNonNegative(t: Table)
    requires WellFormed(t) && forall k :: k in t ==> t[k].amount >= 0
    ensures Total(t) >= 0
    decreases |t|
  {
    if t != map[] {
      SomeKey(t);
      var k :| k in t;
      MapRemoveSize(t, k);
      TotalRemove(t, k);
      TotalNonNegative(t - {k});
    }
  }

  /** The sum of the empty table is 0. */
  lemma TotalEmpty(t: Table)
    requires WellFormed(t) && t == map[]
    ensures Total(t) == 0
  {
  }

  // ---------------------------------------------------------------------------
  // GET /summary/month

  /** `extract(year from date) = y AND extract(month from date) = m`. */
  predicate InMonth(e: Expense, y: int, m: int) {
    e.date.year == y && e.date.month == m
  }

  function MonthRows(t: Table, y: int, m: int): Table {
    map k | k in t && InMonth(t[k], y, m) :: t[k]
  }

  /**
   * The month the summary is for: the arguments when both are given and neither is 0
   * (`if year and month`), otherwise the database's current month.
   */
  function SummaryPeriod(year: Option<int>, month: Option<int>, today: Date): (ym: (int, int))
    ensures year.Some? && year.value != 0 && month.Some? && month.value != 0 ==> ym == (year.value, month.value)
    ensures year.None? || year.value == 0 || month.None? || month.value == 0 ==> ym == (today.year, today.month)
  {
    if year.Some? && year.value != 0 && month.Some? && month.value != 0 then (year.value, month.value)
    else (today.year, today.month)
  }

  /**
   * `str(coalesce(sum(amount), 0))`: the integer `0` prints as `0` when no row matches; a
   * sum of two-place amounts prints with two fraction digits.
   */
  function SummaryMonth(t: Table, year: Option<int>, month: Option<int>, today: Date): (r: string)
    requires WellFormed(t)
    ensures ParseDecimal(r).Some?
  {
    var (y, m) := SummaryPeriod(year, month, today);
    var rows := MonthRows(t, y, m);
    if rows == map[] then ParseZero(); "0"
    else FormatHundredthsRoundTrip(Total(rows)); FormatHundredths(Total(rows))
  }

  /**
   * The month summary reads back as the sum of the amounts dated in that month, and is
   * the text `0` exactly when no row is.
   */
  lemma SummaryMonthValue(t: Table, year: Option<int>, month: Option<int>, today: Date)
    requires WellFormed(t)
    ensures var (y, m) := SummaryPeriod(year, month, today);
      var s := SummaryMonth(t, year, month, today);
      var d := ParseDecimal(s);
      d.Some? && d.value.exp >= -2 && d.value.coef * Pow10(d.value.exp + 2) == Total(MonthRows(t, y, m)) &&
      (s == "0" <==> forall k :: k in t ==> !InMonth(t[k], y, m))
  {
    var (y, m) := SummaryPeriod(year, month, today);
    var rows := MonthRows(t, y, m);
    MonthRowsEmptyIff(t, y, m);
    if rows == map[] {
      ParseZero();
    } else {
      FormatHundredthsRoundTrip(Total(rows));
      FormatHundredthsLong(Total(rows));
    }
  }

  lemma MonthRowsEmptyIff(t: Table, y: int, m: int)
    ensures MonthRows(t, y, m) == map[] <==> forall k :: k in t ==> !InMonth(t[k], y, m)
  {
    if MonthRows(t, y, m) != map[] {
      SomeKey(MonthRows(t, y, m));
    } else {
      forall k | k in t ensures !InMonth(t[k], y, m) {
        assert k !in MonthRows(t, y, m);
      }
    }
  }

  /** A new row adds its amount to the summary of its own month and to no other. */
  lemma MonthTotalInsert(t: Table, e: Expense, y: int, m: int)
    requires WellFormed(t) && e.id !in t
    ensures WellFormed(t[e.id := e])
    ensures Total(MonthRows(t[e.id := e], y, m)) ==
      Total(MonthRows(t, y, m)) + (if InMonth(e, y, m) then e.amount else 0)
  {
    MonthRowsInsert(t, e, y, m);
    if InMonth(e, y, m) {
      TotalInsert(MonthRows(t, y, m), e);
    }
  }

  lemma MonthRowsInsert(t: Table, e: Expense, y: int, m: int)
    requires e.id !in t
    ensures MonthRows(t[e.id := e], y, m) ==
      if InMonth(e, y, m) then MonthRows(t, y, m)[e.id := e] else MonthRows(t, y, m)
  {
    var a, b := MonthRows(t[e.id := e], y, m), MonthRows(t, y, m);
    if InMonth(e, y, m) {
      assert a.Keys == b.Keys + {e.id};
    } else {
      assert a.Keys == b.Keys;
    }
  }

  // ---------------------------------------------------------------------------
  // GET /summary/by_category

  /** One row of the grouped query: a category and the sum of its amounts, in hundredths. */
  datatype CategoryTotal = CategoryTotal(category: string, total: int)

  /** One row of the response: the category and `str()` of its sum. */
  datatype CategoryRow = CategoryRow(category: string, total: string)

  /** The distinct categories of `s`, in the order they first appear. */
  function Categories(s: seq<Expense>): seq<string> {
    if s == [] then []
    else
      var c := Categories(s[..|s| - 1]);
      if s[|s| - 1].category in c then c else c + [s[|s| - 1].category]
  }

  /** `Categories` names each category of `s` once, and nothing else. */
  lemma {:induction false} CategoriesSpec(s: seq<Expense>)
    ensures var c := Categories(s);
      (forall i :: 0 <= i < |s| ==> s[i].category in c) &&
      (forall x :: x in c ==> exists i :: 0 <= i < |s| && s[i].category == x) &&
      (forall i, j :: 0 <= i < j < |c| ==> c[i] != c[j])
  {
    if s != [] {
      var init, last := s[..|s| - 1], s[|s| - 1];
      CategoriesSpec(init);
      var c0, c := Categories(init), Categories(s);
      forall i | 0 <= i < |s| ensures s[i].category in c {
        if i < |init| {
          assert s[i] == init[i];
        }
      }
      forall x | x in c ensures exists i :: 0 <= i < |s| && s[i].category == x {
        if x in c0 {
          var i :| 0 <= i < |init| && init[i].category == x;
          assert s[i] == init[i];
        } else {
          assert s[|s| - 1].category == x;
        }
      }
    }
  }

  /** `WHERE category = c`. */
  function CategoryRows(t: Table, c: string): Table {
    map k | k in t && t[k].category == c :: t[k]
  }

  /** The sums of the given categories, in that order. */
  function Groups(t: Table, cs: seq<string>): (g: seq<CategoryTotal>)
    requires WellFormed(t)
    ensures |g| == |cs|
    ensures forall i :: 0 <= i < |g| ==> g[i] == CategoryTotal(cs[i], Total(CategoryRows(t, cs[i])))
  {
    if cs == [] then []
    else [CategoryTotal(cs[0], Total(CategoryRows(t, cs[0])))] + Groups(t, cs[1..])
  }

  function CategoryOf(g: CategoryTotal): string {
    g.category
  }

  /** The sort key of `ORDER BY sum(amount) DESC`. */
  function Descending(g: CategoryTotal): int {
    -g.total
  }

  /** The rows in the date range: the `WHERE` clause of the grouped query. */
  function RangeRows(t: Table, from: Option<Date>, to: Option<Date>): Table {
    Select(t, [], from, to)
  }

  /**
   * `GROUP BY category ORDER BY sum(amount) DESC` over the rows in range. SQL leaves the
   * order of equal sums open; this model lists them in the order their categories first
   * appear in the listing order.
   */
  function CategoryGroups(t: Table, from: Option<Date>, to: Option<Date>): (r: seq<CategoryTotal>)
    requires WellFormed(t)
    ensures forall i, j :: 0 <= i < j < |r| ==> r[i].total >= r[j].total
  {
    var range := RangeRows(t, from, to);
    var gs := Groups(range, Categories(Listing(range)));
    SortBySorted(gs, Descending);
    SortBy(gs, Descending)
  }

  /** The response of `GET /summary/by_category`. */
  function SummaryByCategory(t: Table, from: Option<Date>, to: Option<Date>): (r: seq<CategoryRow>)
    requires WellFormed(t)
    ensures forall i, j :: 0 <= i < j < |r| ==> r[i].category != r[j].category
  {
    CategoryGroupsSpec(t, from, to);
    var g := CategoryGroups(t, from, to);
    seq(|g|, i requires 0 <= i < |g| => CategoryRow(g[i].category, FormatHundredths(g[i].total)))
  }

  /** The categories named by a sequence of groups. */
  function GroupNames(g: seq<CategoryTotal>): set<string> {
    set i | 0 <= i < |g| :: g[i].category
  }

  /** The categories that have a row in the table. */
  function CategoriesIn(t: Table): set<string> {
    set k | k in t :: t[k].category
  }

  /** The groups before sorting: one per category in range, each distinct. */
  lemma UnsortedGroups(range: Table)
    requires WellFormed(range)
    ensures var gs := Groups(range, Categories(Listing(range)));
      DistinctBy(gs, CategoryOf) && GroupNames(gs) == CategoriesIn(range)
  {
    var l := Listing(range);
    var cs := Categories(l);
    CategoriesSpec(l);
    ListingElements(range);
    GroupsNames(range, cs);
    ListedNames(range, l, cs);
  }

  lemma GroupsNames(range: Table, cs: seq<string>)
    requires WellFormed(range)
    ensures GroupNames(Groups(range, cs)) == set x | x in cs
    ensures (forall i, j :: 0 <= i < j < |cs| ==> cs[i] != cs[j]) ==> DistinctBy(Groups(range, cs), CategoryOf)
  {
    var gs := Groups(range, cs);
    forall x | x in cs ensures x in GroupNames(gs) {
      var i :| 0 <= i < |cs| && cs[i] == x;
      assert gs[i].category == x;
    }
  }

  /** The categories of a sequence holding exactly the rows of the table. */
  lemma ListedNames(range: Table, l: seq<Expense>, cs: seq<string>)
    requires WellFormed(range)
    requires forall i :: 0 <= i < |l| ==> l[i].category in cs
    requires forall x :: x in cs ==> exists j :: 0 <= j < |l| && l[j].category == x
    requires forall e :: e in l <==> e.id in range && range[e.id] == e
    ensures (set x | x in cs) == CategoriesIn(range)
  {
    forall x | x in cs ensures x in CategoriesIn(range) {
      var j :| 0 <= j < |l| && l[j].category == x;
      assert l[j] in l;
    }
    forall x | x in CategoriesIn(range) ensures x in cs {
      var k :| k in range && range[k].category == x;
      assert range[k] in l;
      var j :| 0 <= j < |l| && l[j] == range[k];
    }
  }

  /** A rearrangement of groups names the same categories. */
  lemma PermutedNames(gs: seq<CategoryTotal>, g: seq<CategoryTotal>)
    requires multiset(g) == multiset(gs)
    ensures GroupNames(g) == GroupNames(gs)
  {
    forall x | x in GroupNames(g) ensures x in GroupNames(gs) {
      var i :| 0 <= i < |g| && g[i].category == x;
      assert g[i] in multiset(gs);
      var j :| 0 <= j < |gs| && gs[j] == g[i];
    }
    forall x | x in GroupNames(gs) ensures x in GroupNames(g) {
      var i :| 0 <= i < |gs| && gs[i].category == x;
      assert gs[i] in multiset(g);
      var j :| 0 <= j < |g| && g[j] == gs[i];
    }
  }

  /**
   * The groups name exactly the categories with a row in the date range, none of them
   * twice, and the totals never increase along the result.
   */
  lemma CategoryGroupsSpec(t: Table, from: Option<Date>, to: Option<Date>)
    requires WellFormed(t)
    ensures var g := CategoryGroups(t, from, to);
      GroupNames(g) == CategoriesIn(RangeRows(t, from, to)) &&
      (forall i, j :: 0 <= i < j < |g| ==> g[i].category != g[j].category) &&
      (forall i, j :: 0 <= i < j < |g| ==> g[i].total >= g[j].total)
  {
    var range := RangeRows(t, from, to);
    var gs := Groups(range, Categories(Listing(range)));
    var g := SortBy(gs, Descending);
    UnsortedGroups(range);
    SortByPermutation(gs, Descending);
    SortBySorted(gs, Descending);
    PermutationDistinctBy(gs, g, CategoryOf);
    PermutedNames(gs, g);
    forall i, j | 0 <= i < j < |g| ensures g[i].category != g[j].category {
      assert CategoryOf(g[i]) != CategoryOf(g[j]);
    }
    forall i, j | 0 <= i < j < |g| ensures g[i].total >= g[j].total {
      assert Descending(g[i]) <= Descending(g[j]);
    }
  }

  /** Each group's total is the sum of the amounts of its category in the date range. */
  lemma CategoryTotals(t: Table, from: Option<Date>, to: Option<Date>)
    requires WellFormed(t)
    ensures var range := RangeRows(t, from, to);
      var g := CategoryGroups(t, from, to);
      forall i :: 0 <= i < |g| ==> g[i].total == Total(CategoryRows(range, g[i].category))
  {
    var range := RangeRows(t, from, to);
    var gs := Groups(range, Categories(Listing(range)));
    var g := SortBy(gs, Descending);
    SortByPermutation(gs, Descending);
    forall i | 0 <= i < |g| ensures g[i].total == Total(CategoryRows(range, g[i].category)) {
      assert g[i] in multiset(gs);
      var j :| 0 <= j < |gs| && gs[j] == g[i];
    }
  }

  /** The rows in range are those of the table inside the date bounds. */
  lemma RangeRowsIff(t: Table, from: Option<Date>, to: Option<Date>)
    ensures forall k :: k in RangeRows(t, from, to) <==> k in t && InRange(t[k], from, to)
  {
  }

  /** Each response row holds a group's category and a text that reads back as its total. */
  lemma SummaryByCategoryValue(t: Table, from: Option<Date>, to: Option<Date>)
    requires WellFormed(t)
    ensures var g := CategoryGroups(t, from, to);
      var out := SummaryByCategory(t, from, to);
      |out| == |g| &&
      forall i :: 0 <= i < |out| ==>
        out[i].category == g[i].category && ParseDecimal(out[i].total) == Some(Decimal(g[i].total, -2))
  {
    var g := CategoryGroups(t, from, to);
    forall i | 0 <= i < |g| ensures ParseDecimal(FormatHundredths(g[i].total)) == Some(Decimal(g[i].total, -2)) {
      FormatHundredthsRoundTrip(g[i].total);
    }
  }

  // ---------------------------------------------------------------------------
  // POST, PUT and DELETE /expenses

  /** A handler's reply; `Status` gives its HTTP status. */
  datatype Reply =
    | Created(row: Expense)
    | Updated(row: Expense)
    | Deleted
    | NotFound
    | Invalid(errors: seq<string>)

  function Status(r: Reply): int {
    match r
    case Created(_) => 201
    case Updated(_) => 200
    case Deleted => 204
    case NotFound => 404
    case Invalid(_) => 400
  }

  /** The row a validated record becomes once stored: the amount rounded to hundredths. */
  function Stored(id: int, p: Payload): (e: Expense)
    ensures IsPositive(p.amount) ==> e.amount >= 0
  {
    PositiveStoredNonNegative(p.amount);
    Expense(id, p.title, ToHundredths(p.amount), p.date, p.category)
  }

  /** What every stored row satisfies: the validator's guarantees, after rounding. */
  predicate RowValid(e: Expense) {
    ValidDate(e.date) && e.amount >= 0 &&
    e.title != [] && PyStrip(e.title) == e.title &&
    e.category != [] && PyStrip(e.category) == e.category
  }

  /** A positive amount is stored as a non-negative number of hundredths. */
  lemma PositiveStoredNonNegative(d: Decimal)
    ensures IsPositive(d) ==> ToHundredths(d) >= 0
  {
    if IsPositive(d) && d.exp >= -2 {
      assert d.coef * Pow10(d.exp + 2) >= 0;
    }
  }

  /** Any record the validator accepts is stored as a valid row. */
  lemma AcceptedRowValid(body: Body, id: int)
    requires Validate(body).0.Some?
    ensures RowValid(Stored(id, Validate(body).0.value))
  {
    var p := Validate(body).0.value;
    AcceptedFields(body);
    StrippedStable(body["title"], p.title);
    StrippedStable(body["category"], p.category);
    PositiveStoredNonNegative(p.amount);
    StoredValid(id, p);
  }

  /** A stripped text has nothing left to strip. */
  lemma StrippedStable(raw: string, s: string)
    requires s == PyStrip(raw)
    ensures PyStrip(s) == s
  {
    TrimIdempotent(raw, PyIsSpace);
  }

  lemma StoredValid(id: int, p: Payload)
    requires ValidDate(p.date) && ToHundredths(p.amount) >= 0
    requires p.title != [] && PyStrip(p.title) == p.title
    requires p.category != [] && PyStrip(p.category) == p.category
    ensures RowValid(Stored(id, p))
  {
  }

  function Get(body: Body, key: string, default: string): string {
    if key in body then body[key] else default
  }

  /**
   * The body of an update laid over the stored row: each of the four keys from the body
   * when present, otherwise the stored value as text (`str(amount)`, `date.isoformat()`).
   */
  function Merge(body: Body, e: Expense): (r: Body)
    requires ValidDate(e.date)
    ensures HasRequired(r)
  {
    map["title" := Get(body, "title", e.title),
        "amount" := Get(body, "amount", FormatHundredths(e.amount)),
        "date" := Get(body, "date", IsoFormat(e.date)),
        "category" := Get(body, "category", e.category)]
  }

  /** The keys of the validated record, in the order the update loop assigns them. */
  const PayloadKeys: seq<string> := ["title", "amount", "date", "category"]

  /** `setattr(e, key, parsed[key])`; the database rounds the amount when it is stored. */
  function SetField(e: Expense, key: string, p: Payload): Expense {
    if key == "title" then e.(title := p.title)
    else if key == "amount" then e.(amount := ToHundredths(p.amount))
    else if key == "date" then e.(date := p.date)
    else if key == "category" then e.(category := p.category)
    else e
  }

  /** The row after assigning the first `n` keys of the record in order. */
  function SetFields(e: Expense, p: Payload, n: nat): Expense
    requires n <= |PayloadKeys|
  {
    if n == 0 then e else SetField(SetFields(e, p, n - 1), PayloadKeys[n - 1], p)
  }

  /** Assigning every key of the record leaves the row's id and the record's fields. */
  lemma SetAllFields(e: Expense, p: Payload)
    ensures SetFields(e, p, |PayloadKeys|) == Stored(e.id, p)
  {
    assert SetFields(e, p, 1) == e.(title := p.title);
    assert SetFields(e, p, 2) == e.(title := p.title).(amount := ToHundredths(p.amount));
  }

  /** The `setattr` loop of the update handler: each key of the record in turn. */
  method AssignFields(e: Expense, p: Payload) returns (r: Expense)
    ensures r == Stored(e.id, p)
  {
    r := e;
    for i := 0 to |PayloadKeys|
      invariant r == SetFields(e, p, i)
    {
      r := SetField(r, PayloadKeys[i], p);
    }
    SetAllFields(e, p);
  }

  /**
   * An accepted update takes each key the body has from the body and keeps the stored
   * value of each key it lacks: the stored texts read back as the stored values.
   */
  lemma MergedFields(body: Body, e: Expense)
    requires RowValid(e) && Validate(Merge(body, e)).0.Some?
    ensures var p := Validate(Merge(body, e)).0.value;
      ("title" in body ==> p.title == PyStrip(body["title"])) &&
      ("title" !in body ==> p.title == e.title) &&
      ("amount" in body ==> ParseDecimal(body["amount"]) == Some(p.amount)) &&
      ("amount" !in body ==> p.amount == Decimal(e.amount, -2) && ToHundredths(p.amount) == e.amount) &&
      ("date" in body ==> ParseDate(body["date"]) == Some(p.date)) &&
      ("date" !in body ==> p.date == e.date) &&
      ("category" in body ==> p.category == PyStrip(body["category"])) &&
      ("category" !in body ==> p.category == e.category)
  {
    var merged := Merge(body, e);
    MergeLookup(body, e);
    AcceptedFields(merged);
    FormatHundredthsRoundTrip(e.amount);
    IsoFormatRoundTrip(e.date);
  }

  lemma MergeLookup(body: Body, e: Expense)
    requires ValidDate(e.date)
    ensures var merged := Merge(body, e);
      HasRequired(merged) &&
      merged["title"] == Get(body, "title", e.title) &&
      merged["amount"] == Get(body, "amount", FormatHundredths(e.amount)) &&
      merged["date"] == Get(body, "date", IsoFormat(e.date)) &&
      merged["category"] == Get(body, "category", e.category)
  {
  }

  /** An update whose body is empty rewrites a row with a positive amount as it was. */
  lemma EmptyUpdateKeepsRow(e: Expense)
    requires RowValid(e) && e.amount > 0
    ensures var v := Validate(Merge(map[], e));
      v.0.Some? && Stored(e.id, v.0.value) == e
  {
    var merged := Merge(map[], e);
    MergeLookup(map[], e);
    assert merged["title"] == e.title && merged["category"] == e.category;
    assert merged["amount"] == FormatHundredths(e.amount) && merged["date"] == IsoFormat(e.date);
    FormatHundredthsRoundTrip(e.amount);
    IsoFormatRoundTrip(e.date);
    AcceptedIff(merged);
    assert Validate(merged).0.Some?;
    MergedFields(map[], e);
  }

  /**
   * A row stored with 0 hundredths (an accepted amount below half a cent) can no longer
   * be updated without an amount: the stored `0.00` fails the positivity check.
   */
  lemma ZeroRowRejected(body: Body, e: Expense)
    requires RowValid(e) && e.amount == 0 && "amount" !in body
    ensures var v := Validate(Merge(body, e));
      v.0.None? && v.1.Some? && AmountNotPositive in v.1.value
  {
    var merged := Merge(body, e);
    MergeLookup(body, e);
    FormatHundredthsRoundTrip(0);
    var amount := ParseDecimal(merged["amount"]);
    assert amount == Some(Decimal(0, -2));
    FieldChecksAccumulate(merged);
    ExactlyOneResult(merged);
  }

  /** A positive amount below half a cent passes the validator and is stored as 0. */
  lemma SubCentStoredAsZero(d: Decimal)
    requires d.exp < -2 && d.coef > 0 && 2 * d.coef < Pow10(-2 - d.exp)
    ensures IsPositive(d) && ToHundredths(d) == 0
  {
    var p, h := Pow10(-2 - d.exp), ToHundredths(d);
    assert h * p < p;
    assert (h - 1) * p < 0;
  }

  /** Every row sits under its own id, with ids from 1 up to below `next`, and is valid. */
  predicate TableValid(t: Table, next: int) {
    WellFormed(t) && next >= 1 && forall k :: k in t ==> 1 <= k < next && RowValid(t[k])
  }

  /** Storing a valid row under the next id keeps the table valid with the id after it. */
  lemma InsertValid(t: Table, next: int, e: Expense)
    requires TableValid(t, next) && RowValid(e) && e.id == next
    ensures next !in t && TableValid(t[next := e], next + 1)
  {
  }

  /** Replacing a row by a valid row with the same id keeps the table valid. */
  lemma ReplaceValid(t: Table, next: int, e: Expense)
    requires TableValid(t, next) && RowValid(e) && e.id in t
    ensures TableValid(t[e.id := e], next)
  {
  }

  /** Removing a row keeps the table valid. */
  lemma RemoveValid(t: Table, next: int, id: int)
    requires TableValid(t, next)
    ensures TableValid(t - {id}, next)
  {
  }

  /**
   * The validation of an update to a stored row: it either fails with messages or gives
   * a record whose stored row keeps the table valid.
   */
  lemma UpdateOutcome(t: Table, next: int, id: int, body: Body)
    requires TableValid(t, next) && id in t
    ensures t[id].id == id && ValidDate(t[id].date)
    ensures var v := Validate(Merge(body, t[id]));
      v.0.Some? != v.1.Some? &&
      (v.0.Some? ==> TableValid(t[id := Stored(id, v.0.value)], next))
  {
    var merged := Merge(body, t[id]);
    ExactlyOneResult(merged);
    if Validate(merged).0.Some? {
      AcceptedRowValid(merged, id);
      ReplaceValid(t, next, Stored(id, Validate(merged).0.value));
    }
  }

  /** The expenses table with the id the database gives the next inserted row. */
  class ExpenseStore {
    var rows: Table
    var nextId: int

    ghost predicate Valid()
      reads this
    {
      TableValid(rows, nextId)
    }

    constructor()
      ensures Valid() && rows == map[] && nextId == 1
    {
      rows := map[];
      nextId := 1;
    }

    /**
     * `POST /expenses`: a rejected body gives 400 with the validator's messages and leaves
     * the table as it was; an accepted one is stored under a new id and returned.
     */
    method Create(body: Body) returns (reply: Reply)
      requires Valid()
      modifies this
      ensures Valid()
      ensures Validate(body).1.Some? ==>
        reply == Invalid(Validate(body).1.value) && rows == old(rows) && nextId == old(nextId)
      ensures Validate(body).0.Some? ==>
        reply == Created(Stored(old(nextId), Validate(body).0.value)) &&
        old(nextId) !in old(rows) && rows == old(rows)[old(nextId) := reply.row] &&
        nextId == old(nextId) + 1
    {
      var parsed, errors := ParseExpensePayload(body);
      ExactlyOneResult(body);
      if errors.Some? {
        return Invalid(errors.value);
      }
      var e := Stored(nextId, parsed.value);
      AcceptedRowValid(body, nextId);
      InsertValid(rows, nextId, e);
      rows := rows[nextId := e];
      nextId := nextId + 1;
      reply := Created(e);
    }

    /**
     * `PUT /expenses/<id>`: 404 for an unknown id; otherwise the body is merged over the
     * stored row and validated; a rejection gives 400 and changes nothing, an accepted
     * record replaces that one row's fields and nothing else.
     */
    method Update(id: int, body: Body) returns (reply: Reply)
      requires Valid()
      modifies this
      ensures Valid() && nextId == old(nextId)
      ensures id !in old(rows) ==> reply == NotFound && rows == old(rows)
      ensures id in old(rows) ==>
        var v := Validate(Merge(body, old(rows)[id]));
        (v.1.Some? ==> reply == Invalid(v.1.value) && rows == old(rows)) &&
        (v.0.Some? ==> reply == Updated(Stored(id, v.0.value)) && rows == old(rows)[id := reply.row])
    {
      if id !in rows {
        return NotFound;
      }
      UpdateOutcome(rows, nextId, id, body);
      var e := rows[id];
      var parsed, errors := ParseExpensePayload(Merge(body, e));
      if errors.Some? {
        return Invalid(errors.value);
      }
      var updated := AssignFields(e, parsed.value);
      rows := rows[id := updated];
      reply := Updated(updated);
    }

    /** `DELETE /expenses/<id>`: 404 and no change for an unknown id, else that row is removed. */
    method Delete(id: int) returns (reply: Reply)
      requires Valid()
      modifies this
      ensures Valid() && nextId == old(nextId)
      ensures id !in old(rows) ==> reply == NotFound && rows == old(rows)
      ensures id in old(rows) ==> reply == Deleted && rows == old(rows) - {id}
    {
      if id !in rows {
        return NotFound;
      }
      RemoveValid(rows, nextId, id);
      rows := rows - {id};
      reply := Deleted;
    }
  }
}
