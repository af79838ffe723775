/**
 * The list page (src/pages/AdsList.tsx): the query state it reads from the URL
 * search parameters, the handlers that rewrite those parameters, the new-ads
 * counter, the selection, the saved filter sets and the bulk moderation loops.
 *
 * React state cells become the values the handlers take and return; the URL
 * search parameters are an ordered list of name/value pairs, as `URLSearchParams`
 * keeps them.
 */
module AdsList {
  import opened Wrappers
  import opened Js
  import opened Types
  import opened ApiClient
  import opened Gateway

  // ================================================================ URLSearchParams

  /** The pairs of a `URLSearchParams`, in order; a name may occur several times. */
  type Params = seq<(string, string)>

  /** `getAll(name)`: the values stored under `name`, in order. */
  function Values(ps: Params, name: string): seq<string> {
    if ps == [] then []
    else if ps[0].0 == name then [ps[0].1] + Values(ps[1..], name)
    else Values(ps[1..], name)
  }

  /** `get(name)`: the first value stored under `name`, or `null`. */
  function Get(ps: Params, name: string): (r: Option<string>)
    ensures r.None? <==> Values(ps, name) == []
    ensures r.Some? ==> r.value == Values(ps, name)[0]
  {
    if ps == [] then None
    else if ps[0].0 == name then Some(ps[0].1)
    else Get(ps[1..], name)
  }

  /** `delete(name)`: removes every pair named `name`. */
  function Delete(ps: Params, name: string): Params {
    if ps == [] then []
    else if ps[0].0 == name then Delete(ps[1..], name)
    else [ps[0]] + Delete(ps[1..], name)
  }

  /**
   * `set(name, value)`: the first pair named `name` takes the new value and the
   * other pairs of that name go; without such a pair one is appended.
   */
  function Set(ps: Params, name: string, value: string): Params {
    if ps == [] then [(name, value)]
    else if ps[0].0 == name then [(name, value)] + Delete(ps[1..], name)
    else [ps[0]] + Set(ps[1..], name, value)
  }

  lemma {:induction false} DeleteValues(ps: Params, name: string, other: string)
    ensures Values(Delete(ps, name), other) == if other == name then [] else Values(ps, other)
  {
    if ps != [] {
      DeleteValues(ps[1..], name, other);
      if ps[0].0 != name {
        assert Delete(ps, name)[0] == ps[0] && Delete(ps, name)[1..] == Delete(ps[1..], name);
      }
    }
  }

  /** After `set(name, value)`, `name` holds exactly `value` and every other name what it held before. */
  lemma {:induction false} SetValues(ps: Params, name: string, value: string, other: string)
    ensures Values(Set(ps, name, value), other) == if other == name then [value] else Values(ps, other)
  {
    if ps == [] {
      assert Set(ps, name, value)[1..] == [];
    } else if ps[0].0 == name {
      DeleteValues(ps[1..], name, other);
      assert Set(ps, name, value)[1..] == Delete(ps[1..], name);
    } else {
      SetValues(ps[1..], name, value, other);
      assert Set(ps, name, value)[1..] == Set(ps[1..], name, value);
    }
  }

  /** `set` leaves the pairs of every other name in place and in order. */
  lemma {:induction false} SetKeepsOthers(ps: Params, name: string, value: string)
    ensures Delete(Set(ps, name, value), name) == Delete(ps, name)
  {
    if ps == [] {
    } else if ps[0].0 == name {
      DeleteIdempotent(ps[1..], name);
      assert Set(ps, name, value) == [(name, value)] + Delete(ps[1..], name);
      assert Delete([(name, value)] + Delete(ps[1..], name), name)
          == Delete(Delete(ps[1..], name), name) by {
        assert ([(name, value)] + Delete(ps[1..], name))[1..] == Delete(ps[1..], name);
      }
    } else {
      SetKeepsOthers(ps[1..], name, value);
      assert Set(ps, name, value)[1..] == Set(ps[1..], name, value);
    }
  }

  lemma {:induction false} DeleteIdempotent(ps: Params, name: string)
    ensures Delete(Delete(ps, name), name) == Delete(ps, name)
  {
    if ps != [] {
      DeleteIdempotent(ps[1..], name);
      if ps[0].0 != name {
        assert Delete(ps, name)[0] == ps[0] && Delete(ps, name)[1..] == Delete(ps[1..], name);
      }
    }
  }

  // ================================================================ updateParams

  /** The argument of `updateParams`: entries of a record, `None` for `undefined`. */
  type Updates = seq<(string, Option<string>)>

  /** The value a record gives `name` (its last entry for `name`), or `None` when it has no such property. */
  function Lookup(u: Updates, name: string): Option<Option<string>> {
    if u == [] then None
    else if u[|u| - 1].0 == name then Some(u[|u| - 1].1)
    else Lookup(u[..|u| - 1], name)
  }

  /** `Lookup` on a record of two entries. */
  lemma LookupPair(a: (string, Option<string>), b: (string, Option<string>), name: string)
    ensures Lookup([a, b], name) == if b.0 == name then Some(b.1) else if a.0 == name then Some(a.1) else None
  {
    var u := [a, b];
    assert u[|u| - 1] == b && u[..|u| - 1] == [a];
    assert Lookup([a], name) == if a.0 == name then Some(a.1) else Lookup([], name) by {
      assert [a][..0] == [];
    }
  }

  /** `value === undefined || value === ''`: the update deletes its parameter. */
  predicate Clears(v: Option<string>) {
    v.None? || v.value == ""
  }

  /** The body of the `forEach`, for one entry. */
  function ApplyEntry(ps: Params, e: (string, Option<string>)): Params {
    if Clears(e.1) then Delete(ps, e.0) else Set(ps, e.0, e.1.value)
  }

  /** The parameters after the `forEach` has run over all entries of `u`. */
  function ApplyEntries(ps: Params, u: Updates): Params {
    if u == [] then ps else ApplyEntry(ApplyEntries(ps, u[..|u| - 1]), u[|u| - 1])
  }

  /** The parameters `updateParams(u, resetPage)` installs. */
  function Updated(ps: Params, u: Updates, resetPage: bool): Params {
    var q := ApplyEntries(ps, u);
    if resetPage && Lookup(u, "page").None? then Set(q, "page", "1") else q
  }

  /** `updateParams` as the page runs it: copy the parameters, then edit the copy entry by entry. */
  method UpdateParams(searchParams: Params, updates: Updates, resetPage: bool) returns (newParams: Params)
    ensures newParams == Updated(searchParams, updates, resetPage)
  {
    newParams := searchParams;
    var i := 0;
    while i < |updates|
      invariant 0 <= i <= |updates|
      invariant newParams == ApplyEntries(searchParams, updates[..i])
    {
      var (key, value) := updates[i];
      if value.None? || value.value == "" {
        newParams := Delete(newParams, key);
      } else {
        newParams := Set(newParams, key, value.value);
      }
      assert updates[..i + 1][..i] == updates[..i];
      i := i + 1;
    }
    assert updates[..i] == updates;
    if resetPage && Lookup(updates, "page").None? {
      newParams := Set(newParams, "page", "1");
    }
  }

  lemma {:induction false} ApplyEntriesValues(ps: Params, u: Updates, name: string)
    ensures Values(ApplyEntries(ps, u), name) ==
              match Lookup(u, name)
              case Some(v) => if Clears(v) then [] else [v.value]
              case None => Values(ps, name)
  {
    if u != [] {
      var e := u[|u| - 1];
      ApplyEntriesValues(ps, u[..|u| - 1], name);
      if Clears(e.1) {
        DeleteValues(ApplyEntries(ps, u[..|u| - 1]), e.0, name);
      } else {
        SetValues(ApplyEntries(ps, u[..|u| - 1]), e.0, e.1.value, name);
      }
    }
  }

  /**
   * What `updateParams` does to each parameter name: a name the record gives
   * `undefined` or `''` is deleted, a name it gives another value holds exactly
   * that value, `page` becomes `'1'` when the page is reset and the record has no
   * `page` property, and every other name keeps its values.
   */
  lemma UpdatedValues(ps: Params, u: Updates, resetPage: bool, name: string)
    ensures Values(Updated(ps, u, resetPage), name) ==
              match Lookup(u, name)
              case Some(v) => if Clears(v) then [] else [v.value]
              case None => if resetPage && name == "page" then ["1"] else Values(ps, name)
  {
    ApplyEntriesValues(ps, u, name);
    if resetPage && Lookup(u, "page").None? {
      SetValues(ApplyEntries(ps, u), "page", "1", name);
    }
  }

  /** `get` after `updateParams`, read off `UpdatedValues`. */
  lemma UpdatedGet(ps: Params, u: Updates, resetPage: bool, name: string)
    ensures Get(Updated(ps, u, resetPage), name) ==
              match Lookup(u, name)
              case Some(v) => if Clears(v) then None else Some(v.value)
              case None => if resetPage && name == "page" then Some("1") else Get(ps, name)
  {
    UpdatedValues(ps, u, resetPage, name);
  }

  // ================================================================ query state

  /** What the page reads from its URL (lines 56-63). */
  datatype QueryState = QueryState(
    status: seq<string>,
    category: Option<string>,
    minPrice: Option<Num>,
    maxPrice: Option<Num>,
    search: string,
    sortBy: string,
    sortOrder: string,
    page: int)

  /** `searchParams.get(name) || fallback`. */
  function GetOr(ps: Params, name: string, fallback: string): string {
    match Get(ps, name)
    case Some(v) => if v == "" then fallback else v
    case None => fallback
  }

  /** A price bound: `get(name) ? Number(get(name)) : undefined`. */
  function PriceBound(ps: Params, name: string): Option<Num> {
    match Get(ps, name)
    case Some(v) => if v == "" then None else Some(ToNumber(v))
    case None => None
  }

  /** `Number(searchParams.get('page')) || 1`, where `Number(null)` is 0. */
  function PageOf(ps: Params): int {
    var n := match Get(ps, "page") case Some(v) => ToNumber(v) case None => Finite(0);
    if Truthy(n) then n.n else 1
  }

  function Decode(ps: Params): QueryState {
    QueryState(
      status := match Get(ps, "status") case Some(v) => Split(v, ',') case None => [],
      category := match Get(ps, "category") case Some(v) => (if v == "" then None else Some(v)) case None => None,
      minPrice := PriceBound(ps, "minPrice"),
      maxPrice := PriceBound(ps, "maxPrice"),
      search := GetOr(ps, "search", ""),
      sortBy := GetOr(ps, "sortBy", "date"),
      sortOrder := GetOr(ps, "sortOrder", "desc"),
      page := PageOf(ps))
  }

  /**
   * Decoding defaults: no status parameter is the empty list, the sort defaults
   * to `date` descending, and the page is 1 whenever its parameter is missing,
   * zero or not a number; otherwise it is the parameter's value.
   */
  lemma DecodeDefaults(ps: Params)
    ensures Get(ps, "status").None? ==> Decode(ps).status == []
    ensures Get(ps, "status").Some? ==> Decode(ps).status == Split(Get(ps, "status").value, ',')
    ensures Values(ps, "sortBy") == [] ==> Decode(ps).sortBy == "date"
    ensures Values(ps, "sortOrder") == [] ==> Decode(ps).sortOrder == "desc"
    ensures Decode(ps).page != 0
    ensures Values(ps, "page") == [] ==> Decode(ps).page == 1
    ensures Values(ps, "page") != [] && !Truthy(ToNumber(Values(ps, "page")[0])) ==> Decode(ps).page == 1
    ensures Values(ps, "page") != [] && Truthy(ToNumber(Values(ps, "page")[0])) ==>
              Decode(ps).page == ToNumber(Values(ps, "page")[0]).n
  {
  }

  /** The arguments the page passes to `getAds`. */
  function ToListParams(q: QueryState): ListParams {
    ListParams(
      status := if |q.status| > 0 then Some(q.status) else None,
      category := q.category,
      minPrice := q.minPrice,
      maxPrice := q.maxPrice,
      search := if q.search == "" then None else Some(q.search),
      sortBy := Some(q.sortBy),
      sortOrder := Some(q.sortOrder),
      page := Some(q.page),
      limit := Some(10))
  }

  /**
   * The list page never shows more than ten ads. Page `n` starts at `(n-1)*10`
   * (a page of 0 is read as page 1), and for a positive page it is the next ten
   * ads from there, fewer at the end of the list.
   */
  lemma PageOfTen(ads: seq<Ad>, q: QueryState)
    ensures |Paginate(ads, ToListParams(q))| <= 10
    ensures q.page != 0 ==> PageStart(ToListParams(q)) == (q.page - 1) * 10
    ensures q.page == 0 ==> PageStart(ToListParams(q)) == 0
    ensures q.page >= 1 ==>
              var start := (q.page - 1) * 10;
              Paginate(ads, ToListParams(q)) == if start >= |ads| then [] else ads[start..if start + 10 <= |ads| then start + 10 else |ads|]
  {
    PageAtMostLimit(ads, ToListParams(q));
    if q.page >= 1 {
      PageWindow(ads, ToListParams(q));
    }
  }

  // ================================================================ handlers

  /** Every handler that resets the page leaves the list on page 1. */
  lemma ResetPageIsOne(ps: Params, u: Updates)
    requires Lookup(u, "page").None?
    ensures Decode(Updated(ps, u, true)).page == 1
  {
    UpdatedGet(ps, u, true, "page");
    assert ToNumber("1") == Finite(1) by {
      ToNumberOfString(1);
      assert IntToString(1) == "1";
    }
  }

  /** `handleStatusChange(values)`. */
  function StatusChange(ps: Params, values: seq<AdStatus>): Params {
    var names := seq(|values|, i requires 0 <= i < |values| => StatusName(values[i]));
    Updated(ps, [("status", if |values| > 0 then Some(Join(names, ',')) else None)], true)
  }

  /** The status filter the page reads back is the list of statuses chosen, on page 1. */
  lemma StatusChangeRoundTrip(ps: Params, values: seq<AdStatus>)
    ensures Decode(StatusChange(ps, values)).status ==
              seq(|values|, i requires 0 <= i < |values| => StatusName(values[i]))
    ensures Decode(StatusChange(ps, values)).page == 1
  {
    var names := seq(|values|, i requires 0 <= i < |values| => StatusName(values[i]));
    var u := [("status", if |values| > 0 then Some(Join(names, ',')) else None)];
    UpdatedGet(ps, u, true, "status");
    if |values| > 0 {
      forall k | 0 <= k < |names| ensures ',' !in names[k] {
        assert names[k] == StatusName(values[k]);
      }
      SplitJoin(names, ',');
      assert Join(names, ',') != "" by {
        assert names[0] == StatusName(values[0]) && names[0] != "";
        assert |names| == 1 ==> Join(names, ',') == names[0];
        assert |names| > 1 ==> Join(names, ',') == names[0] + [','] + Join(names[1..], ',');
      }
    }
    ResetPageIsOne(ps, u);
  }

  /** `handleCategoryChange(value)`. */
  function CategoryChange(ps: Params, value: string): Params {
    Updated(ps, [("category", if value == "" then None else Some(value))], true)
  }

  lemma CategoryChangeRoundTrip(ps: Params, value: string)
    ensures Decode(CategoryChange(ps, value)).category == if value == "" then None else Some(value)
    ensures Decode(CategoryChange(ps, value)).page == 1
  {
    var u := [("category", if value == "" then None else Some(value))];
    UpdatedGet(ps, u, true, "category");
    ResetPageIsOne(ps, u);
  }

  /** A price bound as the number input hands it over: `null`, or a number; a bound of `0` is as good as none. */
  function PriceEntry(bound: Option<int>): Option<string> {
    if bound.Some? && bound.value != 0 then Some(IntToString(bound.value)) else None
  }

  /** `handlePriceRangeChange(min, max)`. */
  function PriceRangeChange(ps: Params, min: Option<int>, max: Option<int>): Params {
    Updated(ps, [("minPrice", PriceEntry(min)), ("maxPrice", PriceEntry(max))], true)
  }

  /** The bound the page reads back after a price change: the number entered, or no bound for `null` or 0. */
  lemma PriceRoundTrip(ps: Params, bound: Option<int>, name: string, u: Updates)
    requires Lookup(u, name) == Some(PriceEntry(bound))
    ensures PriceBound(Updated(ps, u, true), name) ==
              if bound.Some? && bound.value != 0 then Some(Finite(bound.value)) else None
  {
    UpdatedGet(ps, u, true, name);
    if bound.Some? && bound.value != 0 {
      ToNumberOfString(bound.value);
      assert IntToString(bound.value) != "" by {
        if bound.value < 0 { } else { assert |NatToString(bound.value)| >= 1; }
      }
    }
  }

  lemma PriceRangeChangeRoundTrip(ps: Params, min: Option<int>, max: Option<int>)
    ensures Decode(PriceRangeChange(ps, min, max)).minPrice ==
              if min.Some? && min.value != 0 then Some(Finite(min.value)) else None
    ensures Decode(PriceRangeChange(ps, min, max)).maxPrice ==
              if max.Some? && max.value != 0 then Some(Finite(max.value)) else None
    ensures Decode(PriceRangeChange(ps, min, max)).page == 1
  {
    var u := [("minPrice", PriceEntry(min)), ("maxPrice", PriceEntry(max))];
    LookupPair(u[0], u[1], "minPrice");
    LookupPair(u[0], u[1], "maxPrice");
    LookupPair(u[0], u[1], "page");
    PriceRoundTrip(ps, min, "minPrice", u);
    PriceRoundTrip(ps, max, "maxPrice", u);
    ResetPageIsOne(ps, u);
  }

  /** `handleSearchChange(value)`. */
  function SearchChange(ps: Params, value: string): Params {
    Updated(ps, [("search", if value == "" then None else Some(value))], true)
  }

  lemma SearchChangeRoundTrip(ps: Params, value: string)
    ensures Decode(SearchChange(ps, value)).search == value
    ensures Decode(SearchChange(ps, value)).page == 1
  {
    var u := [("search", if value == "" then None else Some(value))];
    UpdatedGet(ps, u, true, "search");
    ResetPageIsOne(ps, u);
  }

  /** `handleSortChange(newSortBy)`: the same key flips the order, another key sorts by it descending. */
  function SortChange(ps: Params, newSortBy: string): Params {
    var q := Decode(ps);
    if newSortBy == q.sortBy then
      Updated(ps, [("sortOrder", Some(if q.sortOrder == "asc" then "desc" else "asc"))], true)
    else
      Updated(ps, [("sortBy", Some(newSortBy)), ("sortOrder", Some("desc"))], true)
  }

  /**
   * Clicking the current sort key turns `asc` into `desc` and anything else into
   * `asc`, keeping the key; clicking another key sorts by it, descending. Either
   * way the list goes back to page 1.
   */
  lemma SortChangeToggles(ps: Params, newSortBy: string)
    requires newSortBy != ""
    ensures var before, after := Decode(ps), Decode(SortChange(ps, newSortBy));
            && (newSortBy == before.sortBy ==>
                  after.sortBy == before.sortBy && after.sortOrder == (if before.sortOrder == "asc" then "desc" else "asc"))
            && (newSortBy != before.sortBy ==> after.sortBy == newSortBy && after.sortOrder == "desc")
            && after.page == 1
  {
    var q := Decode(ps);
    if newSortBy == q.sortBy {
      var u := [("sortOrder", Some(if q.sortOrder == "asc" then "desc" else "asc"))];
      UpdatedGet(ps, u, true, "sortOrder");
      UpdatedGet(ps, u, true, "sortBy");
      ResetPageIsOne(ps, u);
    } else {
      var u := [("sortBy", Some(newSortBy)), ("sortOrder", Some("desc"))];
      LookupPair(u[0], u[1], "sortBy");
      LookupPair(u[0], u[1], "sortOrder");
      LookupPair(u[0], u[1], "page");
      UpdatedGet(ps, u, true, "sortOrder");
      UpdatedGet(ps, u, true, "sortBy");
      ResetPageIsOne(ps, u);
    }
  }

  /** The pagination control: `updateParams({ page: String(newPage) }, false)`. */
  function PageChange(ps: Params, newPage: int): Params {
    Updated(ps, [("page", Some(IntToString(newPage)))], false)
  }

  /** Turning the page changes no other parameter, and the page read back is the one chosen (1 for page 0). */
  lemma PageChangeOnlyPage(ps: Params, newPage: int)
    ensures forall name :: name != "page" ==> Values(PageChange(ps, newPage), name) == Values(ps, name)
    ensures Decode(PageChange(ps, newPage)).page == if newPage == 0 then 1 else newPage
  {
    var u := [("page", Some(IntToString(newPage)))];
    forall name | name != "page" ensures Values(PageChange(ps, newPage), name) == Values(ps, name) {
      UpdatedValues(ps, u, false, name);
    }
    UpdatedGet(ps, u, false, "page");
    ToNumberOfString(newPage);
    assert IntToString(newPage) != "" by {
      if newPage < 0 { } else { assert |NatToString(newPage)| >= 1; }
    }
  }

  /** `handleResetFilters`: the URL loses every parameter and the selection is emptied. */
  function ResetFilters(): (Params, seq<int>) {
    ([], [])
  }

  /** After a reset the page reads back the default query: no filters, newest first, page 1. */
  lemma ResetFiltersDefaults()
    ensures Decode(ResetFilters().0) == QueryState([], None, None, None, "", "date", "desc", 1)
    ensures ResetFilters().1 == []
  {
  }

  // ================================================================ new-ads counter

  /** The two state cells of the new-ads counter. */
  datatype Counter = Counter(newAds: int, lastChecked: int)

  /**
   * The effect run when `data.total` (or `lastCheckedCount`) changes: a total that
   * exceeds a positive last count reports the difference, and the total becomes
   * the last count. An undefined total changes nothing.
   */
  function Observe(c: Counter, total: Option<int>): Counter {
    match total
    case None => c
    case Some(t) =>
      Counter(if c.lastChecked > 0 && t > c.lastChecked then t - c.lastChecked else c.newAds, t)
  }

  /**
   * The effect settles: re-running it on the state it produced (as React does,
   * since `lastCheckedCount` is one of its dependencies) changes nothing.
   */
  lemma ObserveSettles(c: Counter, total: Option<int>)
    ensures Observe(Observe(c, total), total) == Observe(c, total)
  {
  }

  /**
   * The last count becomes the total. A total that grew past a positive last
   * count is reported as the growth; any other total leaves the reported count
   * as it was.
   */
  lemma ObserveReports(c: Counter, total: Option<int>)
    ensures var r := Observe(c, total);
            var grew := total.Some? && c.lastChecked > 0 && total.value > c.lastChecked;
            && (total.Some? ==> r.lastChecked == total.value)
            && (total.None? ==> r == c)
            && (grew ==> r.newAds == total.value - c.lastChecked && r.newAds > 0)
            && (!grew ==> r.newAds == c.newAds)
  {
  }

  /**
   * The counter compares the totals of whatever queries ran one after the other:
   * five approved ads, then the filter is cleared and twenty ads match, and the
   * page announces fifteen new ads although none arrived.
   */
  lemma ObserveAcrossFilterChange()
    ensures Observe(Observe(Counter(0, 0), Some(5)), Some(20)) == Counter(15, 20)
  {
  }

  /**
   * The "Обновить" button: the count is cleared and the list refetched. The
   * refetch comes back as a new total, which the effect then observes; the last
   * count is left as it was.
   */
  function Dismiss(c: Counter): (r: Counter)
    ensures r.newAds == 0 && r.lastChecked == c.lastChecked
  {
    c.(newAds := 0)
  }

  /** The counter after the effect has seen the totals `ts`, one after the other. */
  function ObserveAll(c: Counter, ts: seq<Option<int>>): Counter
    decreases |ts|
  {
    if ts == [] then c else Observe(ObserveAll(c, ts[..|ts| - 1]), ts[|ts| - 1])
  }

  /** The effect never takes a raised count back to zero: only the button does. */
  lemma {:induction false} ObserveAllKeepsAlarm(c: Counter, ts: seq<Option<int>>)
    requires c.newAds > 0
    ensures ObserveAll(c, ts).newAds > 0
    decreases |ts|
  {
    if ts != [] {
      ObserveAllKeepsAlarm(c, ts[..|ts| - 1]);
    }
  }

  /**
   * After any run of totals the count is either the one the run started with,
   * or the growth of one of the totals over the last count before it.
   */
  lemma {:induction false} ObserveAllReportsGrowth(c: Counter, ts: seq<Option<int>>)
    ensures var r := ObserveAll(c, ts);
            || r.newAds == c.newAds
            || exists k :: 0 <= k < |ts| && GrowthAt(c, ts, k) && r.newAds == ts[k].value - ObserveAll(c, ts[..k]).lastChecked
    decreases |ts|
  {
    if ts != [] {
      var n := |ts| - 1;
      var init := ts[..n];
      ObserveAllReportsGrowth(c, init);
      var before := ObserveAll(c, init);
      if GrowthAt(c, ts, n) {
        assert ts[..n] == init;
      } else if before.newAds != c.newAds {
        var k :| 0 <= k < n && GrowthAt(c, init, k) && before.newAds == init[k].value - ObserveAll(c, init[..k]).lastChecked;
        assert init[..k] == ts[..k] && init[k] == ts[k];
      }
    }
  }

  /** The total at step `k` grew past a positive last count. */
  predicate GrowthAt(c: Counter, ts: seq<Option<int>>, k: int)
    requires 0 <= k < |ts|
  {
    var before := ObserveAll(c, ts[..k]).lastChecked;
    ts[k].Some? && before > 0 && ts[k].value > before
  }

  /**
   * After the button, the count shows either nothing or the growth of one total
   * observed since the dismissal, never growth from before it.
   */
  lemma DismissThenObserve(c: Counter, ts: seq<Option<int>>)
    ensures var d := Dismiss(c);
            var r := ObserveAll(d, ts);
            || r.newAds == 0
            || exists k :: 0 <= k < |ts| && GrowthAt(d, ts, k) && r.newAds == ts[k].value - ObserveAll(d, ts[..k]).lastChecked
  {
    ObserveAllReportsGrowth(Dismiss(c), ts);
  }

  /** The filter part of the query state: what `total` depends on. */
  datatype FilterKey = FilterKey(
    status: seq<string>,
    category: Option<string>,
    minPrice: Option<Num>,
    maxPrice: Option<Num>,
    search: string)

  function FilterKeyOf(q: QueryState): FilterKey {
    FilterKey(q.status, q.category, q.minPrice, q.maxPrice, q.search)
  }

  /** The counter with the filter its last count belongs to. */
  datatype Monitor = Monitor(newAds: int, lastChecked: int, lastKey: Option<FilterKey>)

  /**
   * The counter as it is evidently meant to work: a total observed under another
   * filter than the last count restarts the count instead of being compared with it.
   */
  function ObserveFor(m: Monitor, key: FilterKey, total: Option<int>): Monitor {
    match total
    case None => m
    case Some(t) =>
      if m.lastKey != Some(key) then Monitor(0, t, Some(key))
      else Monitor(if m.lastChecked > 0 && t > m.lastChecked then t - m.lastChecked else m.newAds, t, Some(key))
  }

  /**
   * A new count is only ever reported as the growth of the total of one and the
   * same filter; on a filter change nothing is reported.
   */
  lemma ObserveForReportsSameFilterOnly(m: Monitor, key: FilterKey, total: Option<int>)
    ensures var r := ObserveFor(m, key, total);
            var sameFilter := total.Some? && m.lastKey == Some(key);
            var grew := sameFilter && m.lastChecked > 0 && total.value > m.lastChecked;
            && (total.None? ==> r == m)
            && (total.Some? ==> r.lastChecked == total.value && r.lastKey == Some(key))
            && (total.Some? && m.lastKey != Some(key) ==> r.newAds == 0)
            && (grew ==> r.newAds == total.value - m.lastChecked && r.newAds > 0)
            && (sameFilter && !grew ==> r.newAds == m.newAds)
  {
  }

  /** The button on the corrected counter: the count is cleared, the filter and last count kept. */
  function DismissFor(m: Monitor): (r: Monitor)
    ensures r.newAds == 0 && r.lastChecked == m.lastChecked && r.lastKey == m.lastKey
  {
    m.(newAds := 0)
  }

  /** After the button, the next total reports only growth past the last count under the same filter. */
  lemma DismissForThenObserve(m: Monitor, key: FilterKey, total: Option<int>)
    ensures var r := ObserveFor(DismissFor(m), key, total);
            var grew := total.Some? && m.lastKey == Some(key) && m.lastChecked > 0 && total.value > m.lastChecked;
            && (grew ==> r.newAds == total.value - m.lastChecked)
            && (!grew ==> r.newAds == 0)
  {
    ObserveForReportsSameFilterOnly(DismissFor(m), key, total);
  }

  /** The scenario of `ObserveAcrossFilterChange` announces nothing once the filter is taken into account. */
  lemma ObserveForAcrossFilterChange(approved: FilterKey, all: FilterKey)
    requires approved != all
    ensures ObserveFor(ObserveFor(Monitor(0, 0, None), approved, Some(5)), all, Some(20)) == Monitor(0, 20, Some(all))
  {
  }

  // ================================================================ selection

  /** `ids.filter((x) => x !== id)`. */
  function RemoveAll(ids: seq<int>, id: int): seq<int> {
    if ids == [] then []
    else if ids[0] == id then RemoveAll(ids[1..], id)
    else [ids[0]] + RemoveAll(ids[1..], id)
  }

  /** `handleSelectItem(id, checked)`. */
  function SelectItem(selected: seq<int>, id: int, checked: bool): seq<int> {
    if checked then selected + [id] else RemoveAll(selected, id)
  }

  lemma {:induction false} RemoveAllFacts(ids: seq<int>, id: int)
    ensures id !in RemoveAll(ids, id)
    ensures forall x :: x != id ==> multiset(RemoveAll(ids, id))[x] == multiset(ids)[x]
    ensures IsSubsequence(RemoveAll(ids, id), ids)
    ensures id !in ids ==> RemoveAll(ids, id) == ids
  {
    if ids != [] {
      RemoveAllFacts(ids[1..], id);
      var rest := RemoveAll(ids[1..], id);
      assert ids == [ids[0]] + ids[1..];
      if ids[0] == id {
        assert RemoveAll(ids, id) == rest;
        if rest != [] && rest[0] == ids[0] {
          assert false;
        }
      } else {
        assert RemoveAll(ids, id) == [ids[0]] + rest;
        assert RemoveAll(ids, id)[1..] == rest;
      }
    }
  }

  /**
   * Checking appends the id even when it is already selected; unchecking removes
   * every occurrence and keeps the other ids, each as often as before, in order.
   */
  lemma SelectItemFacts(selected: seq<int>, id: int)
    ensures SelectItem(selected, id, true) == selected + [id]
    ensures multiset(SelectItem(selected, id, true))[id] == multiset(selected)[id] + 1
    ensures id !in SelectItem(selected, id, false)
    ensures forall x :: x != id ==> multiset(SelectItem(selected, id, false))[x] == multiset(selected)[x]
    ensures IsSubsequence(SelectItem(selected, id, false), selected)
  {
    RemoveAllFacts(selected, id);
  }

  /** Checking an id that was not selected and unchecking it again restores the selection. */
  lemma CheckThenUncheck(selected: seq<int>, id: int)
    requires id !in selected
    ensures SelectItem(SelectItem(selected, id, true), id, false) == selected
  {
    RemoveAllAppend(selected, id);
    RemoveAllFacts(selected, id);
  }

  lemma {:induction false} RemoveAllAppend(ids: seq<int>, id: int)
    ensures RemoveAll(ids + [id], id) == RemoveAll(ids, id)
  {
    if ids == [] {
      assert RemoveAll([id], id) == [] + RemoveAll([], id);
    } else {
      RemoveAllAppend(ids[1..], id);
      assert (ids + [id])[1..] == ids[1..] + [id];
    }
  }

  // ================================================================ saved filter sets

  /** A saved filter set: its name and the parameters it restores. */
  datatype SavedFilter = SavedFilter(name: string, params: Params)

  /** `handleSaveFilter`, given what the prompt returned (`None` when it was cancelled). */
  function SaveFilter(saved: seq<SavedFilter>, input: Option<string>, ps: Params): seq<SavedFilter> {
    if input.Some? && input.value != "" && Trim(input.value) != "" then saved + [SavedFilter(Trim(input.value), ps)]
    else saved
  }

  /**
   * A set is saved exactly when the name entered is not blank; it is appended
   * after the others with the trimmed name and the current parameters.
   */
  lemma SaveFilterFacts(saved: seq<SavedFilter>, input: Option<string>, ps: Params)
    ensures var r := SaveFilter(saved, input, ps);
            && (input.None? || AllWhiteSpace(input.value) ==> r == saved)
            && (input.Some? && !AllWhiteSpace(input.value) ==>
                  |r| == |saved| + 1 && r[..|saved|] == saved
                  && r[|saved|] == SavedFilter(Trim(input.value), ps)
                  && r[|saved|].name != ""
                  && !IsWhiteSpace(r[|saved|].name[0]))
  {
    if input.Some? {
      TrimEmptyIff(input.value);
      if !AllWhiteSpace(input.value) {
        assert input.value != "";
        assert (saved + [SavedFilter(Trim(input.value), ps)])[..|saved|] == saved;
      }
    }
  }

  /** `handleLoadFilter`: the page's parameters become the ones the set holds. */
  function LoadFilter(f: SavedFilter): Params {
    f.params
  }

  /** Loading the set just saved restores the parameters that were in effect when it was saved. */
  lemma SaveThenLoad(saved: seq<SavedFilter>, name: string, ps: Params)
    requires !AllWhiteSpace(name)
    ensures var r := SaveFilter(saved, Some(name), ps);
            |r| == |saved| + 1 && Decode(LoadFilter(r[|saved|])) == Decode(ps)
  {
    SaveFilterFacts(saved, Some(name), ps);
  }

  /** `savedFilters.filter((_, i) => i !== index)`, with `index` counted from the head of `s`. */
  function DeleteAt<T>(s: seq<T>, index: int): seq<T> {
    if s == [] then []
    else if index == 0 then DeleteAt(s[1..], index - 1)
    else [s[0]] + DeleteAt(s[1..], index - 1)
  }

  /** `handleDeleteFilter(index)`. */
  function DeleteFilter(saved: seq<SavedFilter>, index: int): seq<SavedFilter> {
    DeleteAt(saved, index)
  }

  /** Deleting removes exactly the entry at `index` and keeps the others in order; another index deletes nothing. */
  lemma DeleteAtRemovesOne<T>(s: seq<T>, index: int)
    ensures DeleteAt(s, index) == if 0 <= index < |s| then s[..index] + s[index + 1..] else s
  {
    if 0 <= index < |s| {
      DeleteAtInside(s, index);
    } else {
      DeleteAtOutside(s, index);
    }
  }

  lemma {:induction false} DeleteAtOutside<T>(s: seq<T>, index: int)
    requires !(0 <= index < |s|)
    ensures DeleteAt(s, index) == s
  {
    if s != [] {
      DeleteAtOutside(s[1..], index - 1);
      assert [s[0]] + s[1..] == s;
    }
  }

  lemma {:induction false} DeleteAtInside<T>(s: seq<T>, index: int)
    requires 0 <= index < |s|
    ensures DeleteAt(s, index) == s[..index] + s[index + 1..]
  {
    if index == 0 {
      DeleteAtOutside(s[1..], -1);
      assert s[..0] + s[1..] == s[1..];
    } else {
      DeleteAtInside(s[1..], index - 1);
      var t := s[1..];
      assert t[..index - 1] == s[1..index] && t[index..] == s[index + 1..];
      assert s[..index] == [s[0]] + s[1..index];
      assert DeleteAt(s, index) == [s[0]] + (s[1..index] + s[index + 1..]);
    }
  }

  /** Saving and then deleting the new last entry gives back the saved sets. */
  lemma SaveThenDelete(saved: seq<SavedFilter>, name: string, ps: Params)
    requires !AllWhiteSpace(name)
    ensures DeleteFilter(SaveFilter(saved, Some(name), ps), |saved|) == saved
  {
    SaveFilterFacts(saved, Some(name), ps);
    DeleteAtRemovesOne(SaveFilter(saved, Some(name), ps), |saved|);
  }

  // ================================================================ bulk moderation

  datatype BulkAction = BulkApprove | BulkReject

  /** The reason and comment every bulk rejection carries. */
  const BulkRejectReason: string := "Массовое отклонение"

  function BulkCall(id: int, action: BulkAction): Call {
    match action
    case BulkApprove => ApproveCall(id)
    case BulkReject => RejectCall(id, BulkRejectReason, Some(BulkRejectReason))
  }

  function BulkCalls(ids: seq<int>, action: BulkAction): seq<Call> {
    seq(|ids|, i requires 0 <= i < |ids| => BulkCall(ids[i], action))
  }

  /** Every one of the `n` requests sent from log position `start` on succeeds. */
  predicate AllSucceed(failing: set<nat>, start: nat, n: nat) {
    forall k :: start <= k < start + n ==> k !in failing
  }

  /** How many of `n` requests a sequential loop sends from log position `start` on before one fails. */
  function Attempts(failing: set<nat>, start: nat, n: nat): (m: nat)
    ensures m <= n
    decreases n
  {
    if n == 0 then 0
    else if start in failing then 1
    else 1 + Attempts(failing, start + 1, n - 1)
  }

  /**
   * The loop stops at the first failure: without one it sends all `n` requests,
   * otherwise the last request sent is the first that failed.
   */
  lemma {:induction false} AttemptsStopAtFirstFailure(failing: set<nat>, start: nat, n: nat)
    ensures AllSucceed(failing, start, n) ==> Attempts(failing, start, n) == n
    ensures !AllSucceed(failing, start, n) ==>
              var m := Attempts(failing, start, n);
              m >= 1 && start + m - 1 in failing && AllSucceed(failing, start, m - 1)
    decreases n
  {
    if n > 0 && start !in failing {
      AttemptsStopAtFirstFailure(failing, start + 1, n - 1);
    }
  }

  lemma {:induction false} AttemptsAfterSuccesses(failing: set<nat>, start: nat, n: nat, i: nat)
    requires i <= n && AllSucceed(failing, start, i)
    ensures Attempts(failing, start, n) == i + Attempts(failing, start + i, n - i)
    decreases i
  {
    if i > 0 {
      assert start !in failing;
      AttemptsAfterSuccesses(failing, start + 1, n - 1, i - 1);
    }
  }

  /**
   * `handleBulkApprove` / `handleBulkReject`: one request per selected id, in
   * selection order, each awaited before the next; the first failure ends the
   * loop and keeps the selection, full success empties it and refetches the list.
   */
  method BulkModerate(gw: ModerationGateway, selected: seq<int>, action: BulkAction)
    returns (selection: seq<int>, refetch: bool)
    modifies gw
    ensures var start := |old(gw.log)|;
            && gw.log == old(gw.log) + BulkCalls(selected[..Attempts(gw.failing, start, |selected|)], action)
            && (AllSucceed(gw.failing, start, |selected|) ==> selection == [] && refetch)
            && (!AllSucceed(gw.failing, start, |selected|) ==> selection == selected && !refetch)
  {
    ghost var start := |gw.log|;
    var i := 0;
    while i < |selected|
      invariant 0 <= i <= |selected|
      invariant gw.log == old(gw.log) + BulkCalls(selected[..i], action)
      invariant AllSucceed(gw.failing, start, i)
    {
      var ok := gw.Send(BulkCall(selected[i], action));
      assert BulkCalls(selected[..i + 1], action) == BulkCalls(selected[..i], action) + [BulkCall(selected[i], action)];
      if !ok {
        AttemptsAfterSuccesses(gw.failing, start, |selected|, i);
        assert Attempts(gw.failing, start, |selected|) == i + 1;
        return selected, false;
      }
      i := i + 1;
    }
    AttemptsAfterSuccesses(gw.failing, start, |selected|, i);
    assert selected[..i] == selected;
    selection, refetch := [], true;
  }
}
