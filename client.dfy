/**
 * The API client of the dashboard (src/api/client.ts): the client-side
 * filter / sort / paginate pipeline that `getAds` runs over the ads the server
 * returns, the de-duplication of categories, and the map of cancel handles kept
 * per request slot.
 *
 * The HTTP transport is not modelled: the server's answer is a parameter of the
 * operations that fetch (`Success(ads)` or `Failure(error)`).
 */
module ApiClient {
  import opened Wrappers
  import opened Js
  import opened Types

  /** The parameters of `getAds`; `None` stands for an omitted (`undefined`) parameter. */
  datatype ListParams = ListParams(
    status: Option<seq<string>>,
    category: Option<string>,
    minPrice: Option<Num>,
    maxPrice: Option<Num>,
    search: Option<string>,
    sortBy: Option<string>,
    sortOrder: Option<string>,
    page: Option<int>,
    limit: Option<int>)

  // ================================================================ filtering

  /** The five filters `getAds` applies one after the other, in this order. */
  datatype Criterion = ByStatus | ByCategory | ByMinPrice | ByMaxPrice | BySearch

  /** Whether the guard in front of a filter lets it run (a non-empty list, a truthy string, a defined bound). */
  predicate Active(p: ListParams, c: Criterion) {
    match c
    case ByStatus => p.status.Some? && |p.status.value| > 0
    case ByCategory => p.category.Some? && p.category.value != ""
    case ByMinPrice => p.minPrice.Some?
    case ByMaxPrice => p.maxPrice.Some?
    case BySearch => p.search.Some? && p.search.value != ""
  }

  /** `price >= bound`; every comparison with NaN is false. */
  predicate AtLeast(price: int, bound: Num) {
    bound.Finite? && price >= bound.n
  }

  /** `price <= bound`; every comparison with NaN is false. */
  predicate AtMost(price: int, bound: Num) {
    bound.Finite? && price <= bound.n
  }

  /** The callback a filter passes to `Array.prototype.filter`. */
  predicate Accepts(p: ListParams, c: Criterion, ad: Ad)
    requires Active(p, c)
  {
    match c
    case ByStatus => StatusName(ad.status) in p.status.value
    case ByCategory => ad.category == p.category.value
    case ByMinPrice => AtLeast(ad.price, p.minPrice.value)
    case ByMaxPrice => AtMost(ad.price, p.maxPrice.value)
    case BySearch => Includes(Lower(ad.title), Lower(p.search.value))
  }

  /** `ads.filter(callback)` for the callback of criterion `c`. */
  function KeepWhere(ads: seq<Ad>, p: ListParams, c: Criterion): seq<Ad>
    requires Active(p, c)
  {
    if ads == [] then []
    else (if Accepts(p, c, ads[0]) then [ads[0]] else []) + KeepWhere(ads[1..], p, c)
  }

  /** One guarded step of the filter chain. */
  function ApplyFilter(ads: seq<Ad>, p: ListParams, c: Criterion): seq<Ad> {
    if Active(p, c) then KeepWhere(ads, p, c) else ads
  }

  /** The filter chain of `getAds`: status, category, minimum price, maximum price, title search. */
  function FilterAds(ads: seq<Ad>, p: ListParams): seq<Ad> {
    var byStatus := ApplyFilter(ads, p, ByStatus);
    var byCategory := ApplyFilter(byStatus, p, ByCategory);
    var byMin := ApplyFilter(byCategory, p, ByMinPrice);
    var byMax := ApplyFilter(byMin, p, ByMaxPrice);
    ApplyFilter(byMax, p, BySearch)
  }

  /**
   * What it means for an ad to satisfy the active filters: its status is listed
   * when the status list is non-empty, its category is the requested one when one
   * is given, its price lies within each bound that is given, and its lower-cased
   * title contains the lower-cased search text when that is non-empty.
   */
  predicate Matches(p: ListParams, ad: Ad) {
    && (p.status.Some? && |p.status.value| > 0 ==> StatusName(ad.status) in p.status.value)
    && (p.category.Some? && p.category.value != "" ==> ad.category == p.category.value)
    && (p.minPrice.Some? ==> AtLeast(ad.price, p.minPrice.value))
    && (p.maxPrice.Some? ==> AtMost(ad.price, p.maxPrice.value))
    && (p.search.Some? && p.search.value != "" ==> Includes(Lower(ad.title), Lower(p.search.value)))
  }

  /** `a` is `b` with some elements left out and the rest kept in order. */
  predicate IsSubsequence<T(==)>(a: seq<T>, b: seq<T>)
    decreases |b|
  {
    if a == [] then true
    else if b == [] then false
    else if a[0] == b[0] then IsSubsequence(a[1..], b[1..])
    else IsSubsequence(a, b[1..])
  }

  lemma {:induction false} SubsequenceDropHead<T>(a: seq<T>, b: seq<T>)
    requires a != [] && IsSubsequence(a, b)
    ensures IsSubsequence(a[1..], b)
    decreases |b|
  {
    if a[0] != b[0] {
      SubsequenceDropHead(a, b[1..]);
      if a[1..] != [] && a[1] == b[0] {
        SubsequenceDropHead(a[1..], b[1..]);
      }
    } else if a[1..] != [] && a[1] != b[0] {
      assert IsSubsequence(a[1..], b[1..]);
    } else if a[1..] != [] {
      SubsequenceDropHead(a[1..], b[1..]);
    }
  }

  lemma {:induction false} SubsequenceTransitive<T>(a: seq<T>, b: seq<T>, c: seq<T>)
    requires IsSubsequence(a, b) && IsSubsequence(b, c)
    ensures IsSubsequence(a, c)
    decreases |c|
  {
    if a != [] && b != [] {
      assert c != [];
      if b[0] == c[0] {
        if a[0] == b[0] {
          SubsequenceTransitive(a[1..], b[1..], c[1..]);
        } else {
          SubsequenceTransitive(a, b[1..], c[1..]);
        }
      } else {
        SubsequenceTransitive(a, b, c[1..]);
        if a[0] == c[0] { SubsequenceDropHead(a, c[1..]); }
      }
    }
  }

  lemma {:induction false} SubsequenceReflexive<T>(a: seq<T>)
    ensures IsSubsequence(a, a)
  {
    if a != [] { SubsequenceReflexive(a[1..]); }
  }

  /** One filter keeps each accepted ad as often as it occurs and drops every other ad. */
  lemma {:induction false} KeepWhereCount(ads: seq<Ad>, p: ListParams, c: Criterion, x: Ad)
    requires Active(p, c)
    ensures multiset(KeepWhere(ads, p, c))[x] == if Accepts(p, c, x) then multiset(ads)[x] else 0
  {
    if ads != [] {
      KeepWhereCount(ads[1..], p, c, x);
      assert ads == [ads[0]] + ads[1..];
    }
  }

  /** One filter keeps the ads it accepts in their original order. */
  lemma {:induction false} KeepWhereOrder(ads: seq<Ad>, p: ListParams, c: Criterion)
    requires Active(p, c)
    ensures IsSubsequence(KeepWhere(ads, p, c), ads)
  {
    if ads != [] {
      KeepWhereOrder(ads[1..], p, c);
      var r := KeepWhere(ads, p, c);
      var tail := KeepWhere(ads[1..], p, c);
      if Accepts(p, c, ads[0]) {
        assert r[0] == ads[0] && r[1..] == tail;
      } else {
        assert r == tail;
        if tail != [] && tail[0] == ads[0] {
          SubsequenceDropHead(tail, ads[1..]);
        }
      }
    }
  }

  lemma ApplyFilterCount(ads: seq<Ad>, p: ListParams, c: Criterion, x: Ad)
    ensures multiset(ApplyFilter(ads, p, c))[x] == if !Active(p, c) || Accepts(p, c, x) then multiset(ads)[x] else 0
  {
    if Active(p, c) { KeepWhereCount(ads, p, c, x); }
  }

  lemma ApplyFilterOrder(ads: seq<Ad>, p: ListParams, c: Criterion)
    ensures IsSubsequence(ApplyFilter(ads, p, c), ads)
  {
    if Active(p, c) { KeepWhereOrder(ads, p, c); } else { SubsequenceReflexive(ads); }
  }

  /**
   * The filter chain keeps every ad that satisfies the active filters as often as
   * it occurs in the server's answer, and drops every other ad.
   */
  lemma FilterAdsCount(ads: seq<Ad>, p: ListParams, x: Ad)
    ensures multiset(FilterAds(ads, p))[x] == if Matches(p, x) then multiset(ads)[x] else 0
  {
    var s1 := ApplyFilter(ads, p, ByStatus);
    var s2 := ApplyFilter(s1, p, ByCategory);
    var s3 := ApplyFilter(s2, p, ByMinPrice);
    var s4 := ApplyFilter(s3, p, ByMaxPrice);
    ApplyFilterCount(ads, p, ByStatus, x);
    ApplyFilterCount(s1, p, ByCategory, x);
    ApplyFilterCount(s2, p, ByMinPrice, x);
    ApplyFilterCount(s3, p, ByMaxPrice, x);
    ApplyFilterCount(s4, p, BySearch, x);
  }

  /** Every ad `getAds` keeps satisfies all active filters and came from the server's answer. */
  lemma FilterAdsSound(ads: seq<Ad>, p: ListParams)
    ensures forall x :: x in FilterAds(ads, p) ==> x in ads && Matches(p, x)
  {
    forall x | x in FilterAds(ads, p) ensures x in ads && Matches(p, x) {
      FilterAdsCount(ads, p, x);
      assert multiset(FilterAds(ads, p))[x] > 0;
    }
  }

  /** Every ad of the server's answer that satisfies all active filters is kept. */
  lemma FilterAdsComplete(ads: seq<Ad>, p: ListParams)
    ensures forall x :: x in ads && Matches(p, x) ==> x in FilterAds(ads, p)
  {
    forall x | x in ads && Matches(p, x) ensures x in FilterAds(ads, p) {
      FilterAdsCount(ads, p, x);
      assert multiset(ads)[x] > 0;
    }
  }

  /** Filtering keeps the ads in their original relative order. */
  lemma FilterAdsKeepsOrder(ads: seq<Ad>, p: ListParams)
    ensures IsSubsequence(FilterAds(ads, p), ads)
  {
    var s1 := ApplyFilter(ads, p, ByStatus);
    var s2 := ApplyFilter(s1, p, ByCategory);
    var s3 := ApplyFilter(s2, p, ByMinPrice);
    var s4 := ApplyFilter(s3, p, ByMaxPrice);
    ApplyFilterOrder(ads, p, ByStatus);
    ApplyFilterOrder(s1, p, ByCategory);
    ApplyFilterOrder(s2, p, ByMinPrice);
    ApplyFilterOrder(s3, p, ByMaxPrice);
    ApplyFilterOrder(s4, p, BySearch);
    SubsequenceTransitive(s2, s1, ads);
    SubsequenceTransitive(s3, s2, ads);
    SubsequenceTransitive(s4, s3, ads);
    SubsequenceTransitive(FilterAds(ads, p), s4, ads);
  }

  // ================================================================ sorting

  /** `filtered.sort(...)` runs only when `sortBy` is truthy. */
  predicate SortRequested(p: ListParams) {
    p.sortBy.Some? && p.sortBy.value != ""
  }

  predicate KnownSortKey(p: ListParams) {
    p.sortBy.Some? && p.sortBy.value in {"date", "price", "priority"}
  }

  /** The value the comparator reads from an ad: creation time, price, or urgent=1 / normal=0. */
  function SortKey(p: ListParams, ad: Ad): int {
    var key := p.sortBy.GetOr("");
    if key == "date" then ad.createdAt
    else if key == "price" then ad.price
    else if key == "priority" then (if ad.priority == Urgent then 1 else 0)
    else 0
  }

  predicate Descending(p: ListParams) {
    p.sortOrder == Some("desc")
  }

  /**
   * The comparator returns `Rank(a) - Rank(b)`: `bVal - aVal` when the order is
   * "desc", `aVal - bVal` for any other order, and 0 for an unknown `sortBy`.
   */
  function Rank(p: ListParams, ad: Ad): int {
    if Descending(p) then -SortKey(p, ad) else SortKey(p, ad)
  }

  /** Ranks do not decrease along `s`. */
  predicate Sorted(s: seq<Ad>, p: ListParams) {
    forall x, y :: 0 <= x < y < |s| ==> Rank(p, s[x]) <= Rank(p, s[y])
  }

  /**
   * The reference the in-place sort is proved against: `x` inserted into `s`
   * after every ad whose rank is not higher than its own, that is, after the
   * ads it ties with.
   */
  function Insert(s: seq<Ad>, x: Ad, p: ListParams): seq<Ad>
    decreases |s|
  {
    if s == [] || Rank(p, s[|s| - 1]) <= Rank(p, x) then s + [x]
    else Insert(s[..|s| - 1], x, p) + [s[|s| - 1]]
  }

  /** Stable insertion sort by rank: each ad, in list order, inserted into the sorted prefix before it. */
  function StableSort(s: seq<Ad>, p: ListParams): seq<Ad>
    decreases |s|
  {
    if s == [] then [] else Insert(StableSort(s[..|s| - 1], p), s[|s| - 1], p)
  }

  /** The ads of `s` whose sort key is `v`, in the order of `s`. */
  function WithKey(s: seq<Ad>, p: ListParams, v: int): seq<Ad>
    decreases |s|
  {
    if s == [] then []
    else WithKey(s[..|s| - 1], p, v) + (if SortKey(p, s[|s| - 1]) == v then [s[|s| - 1]] else [])
  }

  /** Inserting into a list whose last `|s| - j` ads outrank `x`, and no earlier neighbour does, puts `x` at `j`. */
  lemma {:induction false} InsertSplit(s: seq<Ad>, x: Ad, p: ListParams, j: int)
    requires 0 <= j <= |s|
    requires j == 0 || Rank(p, s[j - 1]) <= Rank(p, x)
    requires forall k :: j <= k < |s| ==> Rank(p, x) < Rank(p, s[k])
    ensures Insert(s, x, p) == s[..j] + [x] + s[j..]
    decreases |s|
  {
    if j == |s| {
      assert s[..j] == s && s[j..] == [];
    } else {
      var t := s[..|s| - 1];
      InsertSplit(t, x, p, j);
      assert t[..j] == s[..j];
      assert t[j..] + [s[|s| - 1]] == s[j..];
    }
  }

  /** Insertion passes only ads of a different key, so the ads of each key keep their order. */
  lemma {:induction false} InsertWithKey(s: seq<Ad>, x: Ad, p: ListParams, v: int)
    ensures WithKey(Insert(s, x, p), p, v) == WithKey(s, p, v) + (if SortKey(p, x) == v then [x] else [])
    decreases |s|
  {
    if s == [] || Rank(p, s[|s| - 1]) <= Rank(p, x) {
      assert (s + [x])[..|s|] == s;
    } else {
      var t, last := s[..|s| - 1], s[|s| - 1];
      InsertWithKey(t, x, p, v);
      var r := Insert(t, x, p);
      assert (r + [last])[..|r|] == r;
      assert SortKey(p, last) != SortKey(p, x);
    }
  }

  /**
   * Stability, as `Array.prototype.sort` guarantees: the ads that share a sort
   * key come out in the order they went in.
   */
  lemma {:induction false} StableSortKeepsTies(s: seq<Ad>, p: ListParams, v: int)
    ensures WithKey(StableSort(s, p), p, v) == WithKey(s, p, v)
    decreases |s|
  {
    if s != [] {
      StableSortKeepsTies(s[..|s| - 1], p, v);
      InsertWithKey(StableSort(s[..|s| - 1], p), s[|s| - 1], p, v);
    }
  }

  /** Insertion adds `x` and loses nothing. */
  lemma {:induction false} InsertPermutes(s: seq<Ad>, x: Ad, p: ListParams)
    ensures multiset(Insert(s, x, p)) == multiset(s) + multiset{x}
    decreases |s|
  {
    if s != [] && Rank(p, s[|s| - 1]) > Rank(p, x) {
      var t := s[..|s| - 1];
      InsertPermutes(t, x, p);
      assert s == t + [s[|s| - 1]];
    }
  }

  /** Inserting into a sorted list keeps it sorted. */
  lemma {:induction false} InsertSorted(s: seq<Ad>, x: Ad, p: ListParams)
    requires Sorted(s, p)
    ensures Sorted(Insert(s, x, p), p)
    decreases |s|
  {
    if s != [] && Rank(p, s[|s| - 1]) > Rank(p, x) {
      var t, last := s[..|s| - 1], s[|s| - 1];
      InsertSorted(t, x, p);
      InsertPermutes(t, x, p);
      var r := Insert(t, x, p);
      forall k | 0 <= k < |r| ensures Rank(p, r[k]) <= Rank(p, last) {
        assert r[k] in multiset(r);
        if r[k] != x {
          assert r[k] in multiset(t);
          var m :| 0 <= m < |t| && t[m] == r[k];
          assert s[m] == t[m];
        }
      }
    }
  }

  /** The reference sort orders the ads by rank. */
  lemma {:induction false} StableSortSorted(s: seq<Ad>, p: ListParams)
    ensures Sorted(StableSort(s, p), p)
    decreases |s|
  {
    if s != [] {
      StableSortSorted(s[..|s| - 1], p);
      InsertSorted(StableSort(s[..|s| - 1], p), s[|s| - 1], p);
    }
  }

  /** The reference sort only reorders. */
  lemma {:induction false} StableSortPermutes(s: seq<Ad>, p: ListParams)
    ensures multiset(StableSort(s, p)) == multiset(s)
    decreases |s|
  {
    if s != [] {
      StableSortPermutes(s[..|s| - 1], p);
      InsertPermutes(StableSort(s[..|s| - 1], p), s[|s| - 1], p);
      assert s == s[..|s| - 1] + [s[|s| - 1]];
    }
  }

  lemma UnknownKeyRank(p: ListParams, ad: Ad)
    requires !KnownSortKey(p)
    ensures Rank(p, ad) == 0
  {
    var key := p.sortBy.GetOr("");
    assert key != "date" && key != "price" && key != "priority";
  }

  /** With a `sortBy` the comparator does not know, every comparison is 0 and nothing moves. */
  lemma {:induction false} StableSortUnknownKey(s: seq<Ad>, p: ListParams)
    requires !KnownSortKey(p)
    ensures StableSort(s, p) == s
    decreases |s|
  {
    if s != [] {
      var t, x := s[..|s| - 1], s[|s| - 1];
      StableSortUnknownKey(t, p);
      UnknownKeyRank(p, x);
      if t != [] {
        UnknownKeyRank(p, t[|t| - 1]);
      }
      assert StableSort(s, p) == Insert(t, x, p) == t + [x];
      assert s == t + [x];
    }
  }

  /**
   * What the comparator promises of the reference sort: keys non-increasing for
   * "desc", non-decreasing otherwise, the same ads, and no change for an
   * unknown key.
   */
  lemma StableSortFacts(s: seq<Ad>, p: ListParams)
    ensures var r := StableSort(s, p);
            && (Descending(p) ==> forall x, y :: 0 <= x < y < |r| ==> SortKey(p, r[x]) >= SortKey(p, r[y]))
            && (!Descending(p) ==> forall x, y :: 0 <= x < y < |r| ==> SortKey(p, r[x]) <= SortKey(p, r[y]))
            && multiset(r) == multiset(s)
            && (!KnownSortKey(p) ==> r == s)
  {
    StableSortSorted(s, p);
    StableSortPermutes(s, p);
    if !KnownSortKey(p) {
      StableSortUnknownKey(s, p);
    }
  }

  /** The list `getAds` cuts its page from: the stable sort when a `sortBy` is given, else the filtered list. */
  function Ordered(filtered: seq<Ad>, p: ListParams): seq<Ad> {
    if SortRequested(p) then StableSort(filtered, p) else filtered
  }

  /**
   * The list the page is cut from holds the filtered ads, ordered by the key in
   * the requested direction when a sort is asked for, and in server order when
   * none is or the key is unknown.
   */
  lemma OrderedFacts(filtered: seq<Ad>, p: ListParams)
    ensures var r := Ordered(filtered, p);
            && multiset(r) == multiset(filtered)
            && (SortRequested(p) && Descending(p) ==>
                  forall x, y :: 0 <= x < y < |r| ==> SortKey(p, r[x]) >= SortKey(p, r[y]))
            && (SortRequested(p) && !Descending(p) ==>
                  forall x, y :: 0 <= x < y < |r| ==> SortKey(p, r[x]) <= SortKey(p, r[y]))
            && (!SortRequested(p) || !KnownSortKey(p) ==> r == filtered)
  {
    StableSortFacts(filtered, p);
  }

  /** Exchanges two neighbouring ads. */
  method Swap(a: array<Ad>, j: int)
    requires 0 < j < a.Length
    modifies a
    ensures a[j - 1] == old(a[j]) && a[j] == old(a[j - 1])
    ensures forall k :: 0 <= k < a.Length && k != j - 1 && k != j ==> a[k] == old(a[k])
  {
    a[j - 1], a[j] := a[j], a[j - 1];
  }

  /** One pass of insertion: moves `a[i]` left past every ad of strictly higher rank. */
  method InsertAt(a: array<Ad>, p: ListParams, i: int)
    requires 0 <= i < a.Length
    modifies a
    ensures a[..i + 1] == Insert(old(a[..i]), old(a[i]), p)
    ensures forall k :: i < k < a.Length ==> a[k] == old(a[k])
  {
    var j := i;
    while j > 0 && Rank(p, a[j - 1]) > Rank(p, a[j])
      invariant 0 <= j <= i
      invariant forall k :: 0 <= k < j ==> a[k] == old(a[k])
      invariant a[j] == old(a[i])
      invariant forall k :: j < k <= i ==> a[k] == old(a[k - 1])
      invariant forall k :: i < k < a.Length ==> a[k] == old(a[k])
      invariant forall k :: j <= k < i ==> Rank(p, old(a[i])) < Rank(p, old(a[k]))
    {
      Swap(a, j);
      j := j - 1;
    }
    InsertedAt(old(a[..]), a[..], p, i, j);
  }

  /** The array after the insertion pass, read as the reference `Insert`. */
  lemma InsertedAt(before: seq<Ad>, after: seq<Ad>, p: ListParams, i: int, j: int)
    requires 0 <= j <= i < |before| == |after|
    requires j == 0 || Rank(p, before[j - 1]) <= Rank(p, before[i])
    requires forall k :: j <= k < i ==> Rank(p, before[i]) < Rank(p, before[k])
    requires forall k :: 0 <= k < j ==> after[k] == before[k]
    requires after[j] == before[i]
    requires forall k :: j < k <= i ==> after[k] == before[k - 1]
    ensures after[..i + 1] == Insert(before[..i], before[i], p)
  {
    var s := before[..i];
    InsertSplit(s, before[i], p, j);
    assert after[..i + 1] == s[..j] + [before[i]] + s[j..];
  }

  /** In place, by insertion: `filtered.sort(comparator)`. */
  method SortAds(a: array<Ad>, p: ListParams)
    modifies a
    ensures a[..] == StableSort(old(a[..]), p)
  {
    ghost var o := a[..];
    var i := 0;
    while i < a.Length
      invariant 0 <= i <= a.Length
      invariant a[..i] == StableSort(o[..i], p)
      invariant forall k :: i <= k < a.Length ==> a[k] == o[k]
    {
      InsertAt(a, p, i);
      assert o[..i + 1][..i] == o[..i];
      i := i + 1;
    }
    assert a[..a.Length] == a[..] && o[..a.Length] == o;
  }

  // ================================================================ pagination

  /** `params.page || 1`. */
  function PageNumber(p: ListParams): int {
    if p.page.None? || p.page.value == 0 then 1 else p.page.value
  }

  /** `params.limit || 10`. */
  function PageSize(p: ListParams): int {
    if p.limit.None? || p.limit.value == 0 then 10 else p.limit.value
  }

  /** How `Array.prototype.slice` resolves an index against a length: negative counts from the end, then clamp. */
  function SliceIndex(k: int, n: nat): (r: nat)
    ensures r <= n
  {
    if k < 0 then (if n + k < 0 then 0 else n + k) else if k > n then n else k
  }

  /** `s.slice(start, end)`. */
  function Slice<T>(s: seq<T>, start: int, end: int): seq<T> {
    var b, e := SliceIndex(start, |s|), SliceIndex(end, |s|);
    if b < e then s[b..e] else []
  }

  function PageStart(p: ListParams): int {
    (PageNumber(p) - 1) * PageSize(p)
  }

  /** The page `getAds` cuts: `filtered.slice(start, start + limit)`. */
  function Paginate<T>(s: seq<T>, p: ListParams): seq<T> {
    Slice(s, PageStart(p), PageStart(p) + PageSize(p))
  }

  /** A window of `l` positions never yields more than `l` elements, whatever its start. */
  lemma SliceWindowBound<T>(s: seq<T>, k: int, l: int)
    requires l >= 0
    ensures |Slice(s, k, k + l)| <= l
  {
    var n := |s|;
    var b, e := SliceIndex(k, n), SliceIndex(k + l, n);
    if b < e {
      assert |Slice(s, k, k + l)| == e - b;
      if k < 0 {
        assert b >= n + k;
        assert e <= n && (k + l >= 0 ==> e <= k + l) && (k + l < 0 ==> e == (if n + k + l < 0 then 0 else n + k + l));
      } else {
        assert b == (if k > n then n else k);
      }
    }
  }

  /** With a non-negative limit a page holds at most `limit` ads, whatever the page number. */
  lemma PageAtMostLimit<T>(s: seq<T>, p: ListParams)
    ensures PageSize(p) >= 0 ==> |Paginate(s, p)| <= PageSize(p)
  {
    if PageSize(p) >= 0 {
      SliceWindowBound(s, PageStart(p), PageSize(p));
    }
  }

  /**
   * For a positive page number and limit, the page is the window
   * `[(page-1)*limit, (page-1)*limit + limit)` of the list, clipped to its length.
   */
  lemma PageWindow<T>(s: seq<T>, p: ListParams)
    requires PageNumber(p) >= 1 && PageSize(p) >= 1
    ensures PageStart(p) >= 0
    ensures Paginate(s, p) == if PageStart(p) >= |s| then []
                              else s[PageStart(p)..if PageStart(p) + PageSize(p) <= |s| then PageStart(p) + PageSize(p) else |s|]
  {
    assert PageStart(p) >= 0 by {
      var n, l := PageNumber(p) - 1, PageSize(p);
      assert n >= 0 && l >= 1;
    }
  }

  lemma DivModParts(i: int, l: int)
    requires i >= 0 && l >= 1
    ensures (i / l) * l + i % l == i && 0 <= i % l < l && i / l >= 0 && (i / l) * l >= 0
  {
  }

  /** With limit `l >= 1`, the ad at position `i` appears on page `i / l + 1`, at position `i % l`. */
  lemma EveryAdOnItsPage<T>(s: seq<T>, p: ListParams, i: int)
    requires PageSize(p) >= 1 && 0 <= i < |s|
    ensures var q := p.(page := Some(i / PageSize(p) + 1));
            i % PageSize(p) < |Paginate(s, q)| && Paginate(s, q)[i % PageSize(p)] == s[i]
  {
    var l := PageSize(p);
    var q := p.(page := Some(i / l + 1));
    var start, r := (i / l) * l, i % l;
    DivModParts(i, l);
    assert PageSize(q) == l;
    assert PageNumber(q) == i / l + 1;
    assert PageStart(q) == start;
    PageWindow(s, q);
    var end := if start + l <= |s| then start + l else |s|;
    assert Paginate(s, q) == s[start..end];
    assert r < end - start;
  }

  // ================================================================ categories

  /** The position of the first occurrence of `x` in `s`. */
  function FirstIndex<T(==)>(s: seq<T>, x: T): (k: nat)
    requires x in s
    ensures k < |s| && s[k] == x && x !in s[..k]
  {
    if s[0] == x then 0 else 1 + FirstIndex(s[1..], x)
  }

  /**
   * `Array.from(new Set(s))` continued from a set that already holds `seen`:
   * a value is emitted when it is first inserted.
   */
  function DistinctFrom<T(==)>(s: seq<T>, seen: set<T>): seq<T> {
    if s == [] then []
    else if s[0] in seen then DistinctFrom(s[1..], seen)
    else [s[0]] + DistinctFrom(s[1..], seen + {s[0]})
  }

  function Distinct<T(==)>(s: seq<T>): seq<T> {
    DistinctFrom(s, {})
  }

  /** A value is emitted exactly when it occurs and was not already in the set. */
  lemma {:induction false} DistinctFromMembers(s: seq<string>, seen: set<string>)
    ensures forall x :: x in DistinctFrom(s, seen) <==> x in s && x !in seen
  {
    if s != [] {
      var t := s[1..];
      assert s == [s[0]] + t;
      if s[0] in seen {
        DistinctFromMembers(t, seen);
      } else {
        DistinctFromMembers(t, seen + {s[0]});
      }
    }
  }

  predicate NoRepeats(r: seq<string>) {
    forall i, j :: 0 <= i < j < |r| ==> r[i] != r[j]
  }

  /** Every value of `r` occurs in `s`, and they come in the order of their first occurrences there. */
  predicate FirstOccurrenceOrder(r: seq<string>, s: seq<string>) {
    forall i, j :: 0 <= i < j < |r| ==> r[i] in s && r[j] in s && FirstIndex(s, r[i]) < FirstIndex(s, r[j])
  }

  /** No value is emitted twice. */
  lemma {:induction false} DistinctFromNoRepeats(s: seq<string>, seen: set<string>)
    ensures NoRepeats(DistinctFrom(s, seen))
  {
    if s != [] && s[0] in seen {
      DistinctFromNoRepeats(s[1..], seen);
      assert DistinctFrom(s, seen) == DistinctFrom(s[1..], seen);
    } else if s != [] {
      var r, rest := DistinctFrom(s, seen), DistinctFrom(s[1..], seen + {s[0]});
      DistinctFromNoRepeats(s[1..], seen + {s[0]});
      DistinctFromMembers(s[1..], seen + {s[0]});
      assert r == [s[0]] + rest;
      forall i, j | 0 <= i < j < |r| ensures r[i] != r[j] {
        assert r[j] == rest[j - 1];
        if i == 0 {
          assert rest[j - 1] in rest && s[0] !in rest;
        } else {
          assert r[i] == rest[i - 1];
        }
      }
    }
  }

  /** Values are emitted in the order of their first occurrences. */
  lemma {:induction false} DistinctFromOrder(s: seq<string>, seen: set<string>)
    ensures FirstOccurrenceOrder(DistinctFrom(s, seen), s)
  {
    if s != [] {
      var t := s[1..];
      if s[0] in seen {
        DistinctFromOrder(t, seen);
        DistinctFromMembers(t, seen);
        OrderAfterHead(DistinctFrom(t, seen), s);
      } else {
        DistinctFromOrder(t, seen + {s[0]});
        DistinctFromMembers(t, seen + {s[0]});
        OrderAfterHead(DistinctFrom(t, seen + {s[0]}), s);
        assert DistinctFrom(s, seen) == [s[0]] + DistinctFrom(t, seen + {s[0]});
      }
    }
  }

  /**
   * An order by first occurrence in the tail of `s`, of values other than its
   * head, is one in `s` too, and the head can go in front of it.
   */
  lemma OrderAfterHead(r: seq<string>, s: seq<string>)
    requires s != []
    requires FirstOccurrenceOrder(r, s[1..])
    requires forall x :: x in r ==> x in s[1..] && x != s[0]
    ensures FirstOccurrenceOrder(r, s)
    ensures FirstOccurrenceOrder([s[0]] + r, s)
  {
    var t := s[1..];
    forall x | x in r ensures x in s && FirstIndex(s, x) == 1 + FirstIndex(t, x) {
      assert x != s[0];
    }
    var r' := [s[0]] + r;
    forall i, j | 0 <= i < j < |r'| ensures r'[i] in s && r'[j] in s && FirstIndex(s, r'[i]) < FirstIndex(s, r'[j]) {
      assert r'[j] == r[j - 1] && r[j - 1] in r;
      if i > 0 {
        assert r'[i] == r[i - 1];
      } else {
        assert r'[i] == s[0] && FirstIndex(s, r'[i]) == 0;
      }
    }
  }

  /** `ads.map((ad) => ad.category)`. */
  function CategoryColumn(ads: seq<Ad>): seq<string> {
    seq(|ads|, i requires 0 <= i < |ads| => ads[i].category)
  }

  /** The categories of the ads, in the order `getCategories` reports them. */
  function CategoriesOf(ads: seq<Ad>): seq<string> {
    Distinct(CategoryColumn(ads))
  }

  /**
   * `getCategories` reports every category of the answer, each exactly once, in
   * the order of first occurrence.
   */
  lemma CategoriesFacts(ads: seq<Ad>)
    ensures forall c :: c in CategoriesOf(ads) <==> exists k :: 0 <= k < |ads| && ads[k].category == c
    ensures forall c :: c in CategoriesOf(ads) <==> c in CategoryColumn(ads)
    ensures forall i, j :: 0 <= i < j < |CategoriesOf(ads)| ==> CategoriesOf(ads)[i] != CategoriesOf(ads)[j]
    ensures forall i, j :: 0 <= i < j < |CategoriesOf(ads)| ==>
              FirstIndex(CategoryColumn(ads), CategoriesOf(ads)[i]) < FirstIndex(CategoryColumn(ads), CategoriesOf(ads)[j])
  {
    var cats := CategoryColumn(ads);
    DistinctFromMembers(cats, {});
    DistinctFromNoRepeats(cats, {});
    DistinctFromOrder(cats, {});
    forall c | (exists k :: 0 <= k < |ads| && ads[k].category == c) ensures c in cats {
      var k :| 0 <= k < |ads| && ads[k].category == c;
      assert cats[k] == c;
    }
  }

  // ================================================================ the client

  /** A cancel handle (`CancelTokenSource`); `id` tells handles apart. */
  datatype CancelSource = CancelSource(id: nat)

  datatype FetchError = NetworkError | ServerError(status: int) | Cancelled

  /** What `getAds` resolves to: one page and the number of ads that passed the filters. */
  datatype AdsPage = AdsPage(data: seq<Ad>, total: nat)

  /**
   * The body of `getAds` once the server has answered: the filter chain, the
   * sort (only when a `sortBy` is given) on an array copy, and the page cut
   * from the result. `sorted` is the list the page is cut from.
   */
  method ListPage(ads: seq<Ad>, params: ListParams) returns (page: AdsPage, ghost sorted: seq<Ad>)
    ensures sorted == Ordered(FilterAds(ads, params), params)
    ensures page.total == |FilterAds(ads, params)|
    ensures page.data == Paginate(Ordered(FilterAds(ads, params), params), params)
  {
    var filtered := ads;
    filtered := ApplyFilter(filtered, params, ByStatus);
    filtered := ApplyFilter(filtered, params, ByCategory);
    filtered := ApplyFilter(filtered, params, ByMinPrice);
    filtered := ApplyFilter(filtered, params, ByMaxPrice);
    filtered := ApplyFilter(filtered, params, BySearch);
    var a := new Ad[|filtered|](i requires 0 <= i < |filtered| => filtered[i]);
    assert a[..] == filtered;
    if SortRequested(params) {
      SortAds(a, params);
    }
    sorted := a[..];
    var total := a.Length;
    var paginated := Paginate(a[..], params);
    page := AdsPage(paginated, total);
  }

  /**
   * The client object. `cancelTokens` maps a slot name to its cancel handle;
   * `cancelCalls` records, in order, every handle whose `cancel` was invoked;
   * `created` counts the handles created so far, so that each new one is distinct.
   */
  class Client {
    var cancelTokens: map<string, CancelSource>
    var cancelCalls: seq<CancelSource>
    var created: nat

    constructor ()
      ensures cancelTokens == map[] && cancelCalls == [] && created == 0
    {
      cancelTokens := map[];
      cancelCalls := [];
      created := 0;
    }

    /** Cancels and forgets the handle of a slot; a slot without a handle is left alone. */
    method CancelRequest(key: string)
      modifies this
      ensures key in old(cancelTokens) ==>
                cancelCalls == old(cancelCalls) + [old(cancelTokens)[key]]
                && cancelTokens == old(cancelTokens) - {key}
      ensures key !in old(cancelTokens) ==>
                cancelCalls == old(cancelCalls) && cancelTokens == old(cancelTokens)
      ensures created == old(created)
    {
      if key in cancelTokens {
        cancelCalls := cancelCalls + [cancelTokens[key]];
        cancelTokens := cancelTokens - {key};
      }
    }

    /** Creates a new handle and stores it under `key`, replacing any handle already there. */
    method CreateCancelToken(key: string) returns (source: CancelSource)
      modifies this
      ensures source == CancelSource(old(created)) && created == old(created) + 1
      ensures cancelTokens == old(cancelTokens)[key := source]
      ensures cancelCalls == old(cancelCalls)
    {
      source := CancelSource(created);
      created := created + 1;
      cancelTokens := cancelTokens[key := source];
    }

    /**
     * `getAds(params)` given the server's answer `response`. `sorted` is the
     * filtered list after the sort, before the page is cut from it.
     */
    method GetAds(params: ListParams, response: Result<seq<Ad>, FetchError>)
      returns (r: Result<AdsPage, FetchError>, ghost sorted: seq<Ad>)
      modifies this
      ensures cancelTokens == old(cancelTokens) - {"getAds"}
      ensures cancelCalls == old(cancelCalls) && created == old(created) + 1
      ensures response.Failure? ==> r == Failure(response.error)
      ensures response.Success? ==>
                var filtered := FilterAds(response.value, params);
                && r.Success?
                && r.value.total == |filtered|
                && (SortRequested(params) ==> sorted == StableSort(filtered, params))
                && multiset(sorted) == multiset(filtered)
                && (SortRequested(params) && Descending(params) ==>
                      forall x, y :: 0 <= x < y < |sorted| ==> SortKey(params, sorted[x]) >= SortKey(params, sorted[y]))
                && (SortRequested(params) && !Descending(params) ==>
                      forall x, y :: 0 <= x < y < |sorted| ==> SortKey(params, sorted[x]) <= SortKey(params, sorted[y]))
                && (!SortRequested(params) || !KnownSortKey(params) ==> sorted == filtered)
                && r.value.data == Paginate(sorted, params)
    {
      var token := CreateCancelToken("getAds");
      if response.Failure? {
        cancelTokens := cancelTokens - {"getAds"};
        return Failure(response.error), [];
      }
      var page;
      page, sorted := ListPage(response.value, params);
      cancelTokens := cancelTokens - {"getAds"};
      r := Success(page);
      OrderedFacts(FilterAds(response.value, params), params);
    }

    /** `getCategories()` given the server's answer `response`. */
    method GetCategories(response: Result<seq<Ad>, FetchError>) returns (r: Result<seq<string>, FetchError>)
      modifies this
      ensures cancelTokens == old(cancelTokens) - {"getCategories"}
      ensures cancelCalls == old(cancelCalls) && created == old(created) + 1
      ensures response.Failure? ==> r == Failure(response.error)
      ensures response.Success? ==> r == Success(CategoriesOf(response.value))
    {
      var token := CreateCancelToken("getCategories");
      if response.Failure? {
        r := Failure(response.error);
      } else {
        r := Success(CategoriesOf(response.value));
      }
      cancelTokens := cancelTokens - {"getCategories"};
    }
  }
}
