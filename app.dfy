/**
 * The client's list view: the `visible` projection of the fetched rows (a search filter,
 * then one of four stable sorts over a copy) and the state cells the handlers update
 * (the page counter, the filters, the fetched rows and the loading flag).
 */
module App {
  import opened Wrappers
  import opened Text
  import opened Dates
  import opened Sorting

  /**
   * A row as the client holds it. The amount is in hundredths and the date a calendar
   * date: the sort keys `Number(amount)` and `new Date(date).getTime()` are taken as
   * these integers.
   */
  datatype Item = Item(id: int, title: string, amount: int, date: Date, category: string)

  // ---------------------------------------------------------------------------
  // The search filter

  /** `e.title.toLowerCase().includes(q) || e.category.toLowerCase().includes(q)`. */
  predicate Keep(e: Item, q: string) {
    Contains(Lower(e.title), q) || Contains(Lower(e.category), q)
  }

  /** `arr.filter(e => Keep(e, q))`. */
  function Filter(items: seq<Item>, q: string): (r: seq<Item>)
    ensures |r| <= |items|
  {
    if items == [] then [] else (if Keep(items[0], q) then [items[0]] else []) + Filter(items[1..], q)
  }

  /**
   * The filter step of `visible`: a search that is blank after `trim()` keeps every row;
   * otherwise the rows are matched against the lower-cased, untrimmed search text.
   */
  function Searched(items: seq<Item>, search: string): (r: seq<Item>)
    ensures |r| <= |items|
    ensures forall e :: e in r ==> e in items
  {
    if JsTrim(search) != [] then FilterMembers(items, Lower(search)); Filter(items, Lower(search))
    else items
  }

  /** The filter keeps exactly the rows that match. */
  lemma {:induction false} FilterMembers(items: seq<Item>, q: string)
    ensures forall e :: e in Filter(items, q) <==> e in items && Keep(e, q)
  {
    if items != [] {
      FilterMembers(items[1..], q);
      assert items == [items[0]] + items[1..];
    }
  }

  /** The filter keeps the rows' relative order: it distributes over concatenation. */
  lemma {:induction false} FilterAppend(a: seq<Item>, b: seq<Item>, q: string)
    ensures Filter(a + b, q) == Filter(a, q) + Filter(b, q)
  {
    if a == [] {
      assert a + b == b;
    } else {
      assert (a + b)[0] == a[0] && (a + b)[1..] == a[1..] + b;
      FilterAppend(a[1..], b, q);
      var h := if Keep(a[0], q) then [a[0]] else [];
      assert h + (Filter(a[1..], q) + Filter(b, q)) == (h + Filter(a[1..], q)) + Filter(b, q);
    }
  }

  /** A row is kept alone exactly when it matches. */
  lemma FilterSingle(e: Item, q: string)
    ensures Filter([e], q) == if Keep(e, q) then [e] else []
  {
    assert [e][1..] == [];
  }

  /** Rows that all match are kept as they are. */
  lemma {:induction false} FilterAllKept(items: seq<Item>, q: string)
    requires forall i :: 0 <= i < |items| ==> Keep(items[i], q)
    ensures Filter(items, q) == items
  {
    if items != [] {
      FilterAllKept(items[1..], q);
      assert items == [items[0]] + items[1..];
    }
  }

  /** A search of white space only filters nothing. */
  lemma BlankSearchKeepsAll(items: seq<Item>, search: string)
    requires forall i :: 0 <= i < |search| ==> JsIsSpace(search[i])
    ensures Searched(items, search) == items
  {
    TrimEmptyIff(search, JsIsSpace);
  }

  /**
   * With a search that is not blank, a row is kept exactly when its lower-cased title or
   * category contains the lower-cased search text, leading and trailing spaces included.
   */
  lemma SearchMembers(items: seq<Item>, search: string)
    requires exists i :: 0 <= i < |search| && !JsIsSpace(search[i])
    ensures forall e :: e in Searched(items, search) <==>
      e in items && (Contains(Lower(e.title), Lower(search)) || Contains(Lower(e.category), Lower(search)))
  {
    TrimEmptyIff(search, JsIsSpace);
    FilterMembers(items, Lower(search));
  }

  // ---------------------------------------------------------------------------
  // The four sorts

  /** The time value of a date, in days: 0 for an invalid date (JavaScript's NaN is not modelled). */
  function Time(d: Date): int {
    if ValidDate(d) then DayNumber(d) else 0
  }

  function DateKey(e: Item): int { Time(e.date) }
  function DateKeyDesc(e: Item): int { -Time(e.date) }
  function AmountKey(e: Item): int { e.amount }
  function AmountKeyDesc(e: Item): int { -e.amount }

  /**
   * The `switch (sortBy)` of `visible`. The comparator `(a, b) => k(b) - k(a)` orders like
   * `(a, b) => (-k(a)) - (-k(b))`, so a descending sort is the stable sort by the negated
   * key; an unknown mode leaves the array as it is.
   */
  function Arrange(arr: seq<Item>, sortBy: string): (r: seq<Item>)
    ensures multiset(r) == multiset(arr)
  {
    if sortBy == "date_asc" then SortByPermutation(arr, DateKey); SortBy(arr, DateKey)
    else if sortBy == "date_desc" then SortByPermutation(arr, DateKeyDesc); SortBy(arr, DateKeyDesc)
    else if sortBy == "amount_asc" then SortByPermutation(arr, AmountKey); SortBy(arr, AmountKey)
    else if sortBy == "amount_desc" then SortByPermutation(arr, AmountKeyDesc); SortBy(arr, AmountKeyDesc)
    else arr
  }

  /** The `visible` memo: the search filter, then the sort; every row shown was fetched. */
  function Visible(items: seq<Item>, search: string, sortBy: string): (r: seq<Item>)
    ensures |r| <= |items|
    ensures forall e :: e in r ==> e in items
  {
    var arr := Searched(items, search);
    var r := Arrange(arr, sortBy);
    assert forall e :: e in r ==> e in multiset(arr);
    r
  }

  /** The sort key of a known mode. */
  function ModeKey(sortBy: string): (k: Option<Item -> int>)
    ensures k.Some? <==> sortBy in {"date_asc", "date_desc", "amount_asc", "amount_desc"}
  {
    if sortBy == "date_asc" then Some(DateKey)
    else if sortBy == "date_desc" then Some(DateKeyDesc)
    else if sortBy == "amount_asc" then Some(AmountKey)
    else if sortBy == "amount_desc" then Some(AmountKeyDesc)
    else None
  }

  /** Every mode sorts by its key, or leaves the array alone when it has none. */
  lemma ArrangeByKey(arr: seq<Item>, sortBy: string)
    ensures ModeKey(sortBy).Some? ==> Arrange(arr, sortBy) == SortBy(arr, ModeKey(sortBy).value)
    ensures ModeKey(sortBy).None? ==> Arrange(arr, sortBy) == arr
  {
  }

  /** Each sort returns a rearrangement of the filtered rows. */
  lemma VisiblePermutation(items: seq<Item>, search: string, sortBy: string)
    ensures multiset(Visible(items, search, sortBy)) == multiset(Searched(items, search))
  {
    var arr := Searched(items, search);
    ArrangeByKey(arr, sortBy);
    if ModeKey(sortBy).Some? {
      SortByPermutation(arr, ModeKey(sortBy).value);
    }
  }

  /**
   * The ascending modes give non-decreasing keys, the descending modes non-increasing
   * ones, and an unknown mode the filtered order.
   */
  lemma VisibleOrder(items: seq<Item>, search: string, sortBy: string)
    ensures var r := Visible(items, search, sortBy);
      (sortBy == "date_asc" ==> forall i, j :: 0 <= i < j < |r| ==> Time(r[i].date) <= Time(r[j].date)) &&
      (sortBy == "date_desc" ==> forall i, j :: 0 <= i < j < |r| ==> Time(r[i].date) >= Time(r[j].date)) &&
      (sortBy == "amount_asc" ==> forall i, j :: 0 <= i < j < |r| ==> r[i].amount <= r[j].amount) &&
      (sortBy == "amount_desc" ==> forall i, j :: 0 <= i < j < |r| ==> r[i].amount >= r[j].amount) &&
      (ModeKey(sortBy).None? ==> r == Searched(items, search))
  {
    var arr := Searched(items, search);
    var r := Visible(items, search, sortBy);
    if sortBy == "date_asc" {
      SortBySorted(arr, DateKey);
      assert forall i, j :: 0 <= i < j < |r| ==> DateKey(r[i]) <= DateKey(r[j]);
    } else if sortBy == "date_desc" {
      SortBySorted(arr, DateKeyDesc);
      assert forall i, j :: 0 <= i < j < |r| ==> DateKeyDesc(r[i]) <= DateKeyDesc(r[j]);
    } else if sortBy == "amount_asc" {
      SortBySorted(arr, AmountKey);
      assert forall i, j :: 0 <= i < j < |r| ==> AmountKey(r[i]) <= AmountKey(r[j]);
    } else if sortBy == "amount_desc" {
      SortBySorted(arr, AmountKeyDesc);
      assert forall i, j :: 0 <= i < j < |r| ==> AmountKeyDesc(r[i]) <= AmountKeyDesc(r[j]);
    }
  }

  /** With valid dates, the ascending date sort is chronological. */
  lemma VisibleChronological(items: seq<Item>, search: string)
    requires forall i :: 0 <= i < |items| ==> ValidDate(items[i].date)
    ensures var r := Visible(items, search, "date_asc");
      forall i, j :: 0 <= i < j < |r| ==> NotLater(r[i].date, r[j].date)
  {
    var a := Visible(items, search, "date_asc");
    VisibleOrder(items, search, "date_asc");
    forall i, j | 0 <= i < j < |a| ensures NotLater(a[i].date, a[j].date) {
      assert a[i] in items && a[j] in items;
      DayNumberOrder(a[j].date, a[i].date);
    }
  }

  /** With valid dates, the descending date sort is reverse chronological. */
  lemma VisibleReverseChronological(items: seq<Item>, search: string)
    requires forall i :: 0 <= i < |items| ==> ValidDate(items[i].date)
    ensures var r := Visible(items, search, "date_desc");
      forall i, j :: 0 <= i < j < |r| ==> NotLater(r[j].date, r[i].date)
  {
    var d := Visible(items, search, "date_desc");
    VisibleOrder(items, search, "date_desc");
    forall i, j | 0 <= i < j < |d| ensures NotLater(d[j].date, d[i].date) {
      assert d[i] in items && d[j] in items;
      DayNumberOrder(d[i].date, d[j].date);
    }
  }

  /** Rows with equal keys keep their filtered order under every known mode. */
  lemma VisibleStable(items: seq<Item>, search: string, sortBy: string, k: int)
    requires ModeKey(sortBy).Some?
    ensures var key := ModeKey(sortBy).value;
      WithKey(Visible(items, search, sortBy), key, k) == WithKey(Searched(items, search), key, k)
  {
    ArrangeByKey(Searched(items, search), sortBy);
    SortByStable(Searched(items, search), ModeKey(sortBy).value, k);
  }

  /** No rows, nothing visible. */
  lemma VisibleEmpty(search: string, sortBy: string)
    ensures Visible([], search, sortBy) == []
  {
    var arr := Searched([], search);
    assert arr == [] by {
      if JsTrim(search) != [] {
        assert Filter([], Lower(search)) == [];
      }
    }
    ArrangeByKey(arr, sortBy);
    if ModeKey(sortBy).Some? {
      assert SortBy(arr, ModeKey(sortBy).value) == [];
    }
  }

  /** Applying the projection to its own result changes nothing. */
  lemma VisibleIdempotent(items: seq<Item>, search: string, sortBy: string)
    ensures Visible(Visible(items, search, sortBy), search, sortBy) == Visible(items, search, sortBy)
  {
    var arr := Searched(items, search);
    var r := Visible(items, search, sortBy);
    if JsTrim(search) != [] {
      var q := Lower(search);
      FilterMembers(items, q);
      VisiblePermutation(items, search, sortBy);
      forall i | 0 <= i < |r| ensures Keep(r[i], q) {
        assert r[i] in multiset(arr);
      }
      FilterAllKept(r, q);
    }
    ArrangeByKey(arr, sortBy);
    ArrangeByKey(r, sortBy);
    if ModeKey(sortBy).Some? {
      SortBySorted(arr, ModeKey(sortBy).value);
      SortBySortedInput(r, ModeKey(sortBy).value);
    }
  }

  // ---------------------------------------------------------------------------
  // The state cells

  /** What `listExpenses` resolved to: an array of rows, or anything else. */
  datatype Fetched = Rows(rows: seq<Item>) | NotAnArray

  /** The query `refresh` sends: the page, the page size and the date filters that are set. */
  datatype Request = Request(page: int, pageSize: int, from: Option<string>, to: Option<string>)

  class ListView {
    var items: seq<Item>
    var loading: bool
    var search: string
    var fromDate: string
    var toDate: string
    var sortBy: string
    var page: int
    var pageSize: int

    /** The page counter never drops below 1 and the page size is fixed at 10. */
    ghost predicate Valid()
      reads this
    {
      page >= 1 && pageSize == 10
    }

    constructor()
      ensures Valid()
      ensures items == [] && loading && search == "" && fromDate == "" && toDate == ""
      ensures sortBy == "date_desc" && page == 1 && pageSize == 10
    {
      items := [];
      loading := true;
      search := "";
      fromDate := "";
      toDate := "";
      sortBy := "date_desc";
      page := 1;
      pageSize := 10;
    }

    /** The rows on screen: none while loading (the "Loading…" card), else the visible rows. */
    function Shown(): (r: seq<Item>)
      reads this
      ensures |r| <= |items|
      ensures loading ==> r == []
      ensures forall e :: e in r ==> e in items
    {
      if loading then [] else Visible(items, search, sortBy)
    }

    /** Prev: `Math.max(1, p - 1)`. */
    method Prev()
      requires Valid()
      modifies this
      ensures Valid() && page == (if old(page) > 1 then old(page) - 1 else 1)
      ensures items == old(items) && loading == old(loading) && search == old(search)
      ensures fromDate == old(fromDate) && toDate == old(toDate) && sortBy == old(sortBy)
    {
      page := if page - 1 > 1 then page - 1 else 1;
    }

    /** Next: `p + 1`. */
    method Next()
      requires Valid()
      modifies this
      ensures Valid() && page == old(page) + 1
      ensures items == old(items) && loading == old(loading) && search == old(search)
      ensures fromDate == old(fromDate) && toDate == old(toDate) && sortBy == old(sortBy)
    {
      page := page + 1;
    }

    /** The `from` date input: the new value, and back to page 1. */
    method SetFromDate(value: string)
      requires Valid()
      modifies this
      ensures Valid() && fromDate == value && page == 1
      ensures items == old(items) && loading == old(loading) && search == old(search)
      ensures toDate == old(toDate) && sortBy == old(sortBy)
    {
      fromDate := value;
      page := 1;
    }

    /** The `to` date input: the new value, and back to page 1. */
    method SetToDate(value: string)
      requires Valid()
      modifies this
      ensures Valid() && toDate == value && page == 1
      ensures items == old(items) && loading == old(loading) && search == old(search)
      ensures fromDate == old(fromDate) && sortBy == old(sortBy)
    {
      toDate := value;
      page := 1;
    }

    /** The search input: only the search text changes; the page stays. */
    method SetSearch(value: string)
      requires Valid()
      modifies this
      ensures Valid() && search == value && page == old(page)
      ensures items == old(items) && loading == old(loading)
      ensures fromDate == old(fromDate) && toDate == old(toDate) && sortBy == old(sortBy)
    {
      search := value;
    }

    /** The sort select: only the mode changes; the page stays. */
    method SetSortBy(value: string)
      requires Valid()
      modifies this
      ensures Valid() && sortBy == value && page == old(page)
      ensures items == old(items) && loading == old(loading) && search == old(search)
      ensures fromDate == old(fromDate) && toDate == old(toDate)
    {
      sortBy := value;
    }

    /**
     * `onCreate`: when `createExpense` resolves, back to page 1 (the refresh follows);
     * when it rejects, the handler throws before `setPage(1)` and the page is kept.
     */
    method OnCreate(created: bool)
      requires Valid()
      modifies this
      ensures Valid() && page == (if created then 1 else old(page))
      ensures items == old(items) && loading == old(loading) && search == old(search)
      ensures fromDate == old(fromDate) && toDate == old(toDate) && sortBy == old(sortBy)
    {
      if created {
        page := 1;
      }
    }

    /** The query of `refresh`: a date filter is sent only when its input is not empty. */
    method Query() returns (r: Request)
      requires Valid()
      ensures r.page == page && r.page >= 1 && r.pageSize == 10
      ensures r.from.Some? <==> fromDate != ""
      ensures r.from.Some? ==> r.from.value == fromDate
      ensures r.to.Some? <==> toDate != ""
      ensures r.to.Some? ==> r.to.value == toDate
    {
      r := Request(page, pageSize,
                   if fromDate != "" then Some(fromDate) else None,
                   if toDate != "" then Some(toDate) else None);
    }

    /** The start of `refresh`. */
    method BeginRefresh()
      requires Valid()
      modifies this
      ensures Valid() && loading && page == old(page) && items == old(items)
      ensures search == old(search) && fromDate == old(fromDate) && toDate == old(toDate) && sortBy == old(sortBy)
    {
      loading := true;
    }

    /** The end of `refresh`: the fetched array, or `[]` for anything that is not an array. */
    method FinishRefresh(data: Fetched)
      requires Valid()
      modifies this
      ensures Valid() && !loading && page == old(page)
      ensures items == (if data.Rows? then data.rows else [])
      ensures search == old(search) && fromDate == old(fromDate) && toDate == old(toDate) && sortBy == old(sortBy)
    {
      items := if data.Rows? then data.rows else [];
      loading := false;
    }
  }
}
