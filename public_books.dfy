/**
 * The public catalog endpoints (backend/controllers/publicBookController.js):
 * query validation, the page arithmetic, the fixed category list and the
 * statistics accumulation. The catalog's answers are inputs.
 */
module PublicBooks {
  import opened Js
  import opened Http
  import opened Catalog

  const QueryRequired := Refusal(400, "Query pencarian (q) wajib diisi")

  /** Page size used when `limit` is absent, unparseable or zero. */
  const DefaultLimit: int := 20

  /**
   * `parseInt(limit) || 20`, where an absent `limit` is the number 20. The
   * parse has no radix, so a "0x" prefix reads hexadecimal.
   */
  function MaxResults(limit: Option<string>): (n: int)
    ensures n != 0
    ensures limit.None? ==> n == DefaultLimit
    ensures limit.Some? && ParseInt(limit.value, true).Some? && ParseInt(limit.value, true).value != 0
            ==> n == ParseInt(limit.value, true).value
    ensures limit.Some? && (ParseInt(limit.value, true).None? || ParseInt(limit.value, true).value == 0)
            ==> n == DefaultLimit
  {
    match limit
    case None => DefaultLimit
    case Some(s) =>
      match ParseInt(s, true)
      case None => DefaultLimit
      case Some(v) => if v == 0 then DefaultLimit else v
  }

  /** `parseInt(page)`, where an absent `page` is the number 1; `None` is NaN. */
  function PageNumber(page: Option<string>): (p: Option<int>)
    ensures page.None? ==> p == Some(1)
    ensures page.Some? ==> p == ParseInt(page.value, true)
  {
    match page
    case None => Some(1)
    case Some(s) => ParseInt(s, true)
  }

  /** The offset of page `p` for pages of `m` results. */
  function PageOffset(p: int, m: int): int {
    (p - 1) * m
  }

  /** `(parseInt(page) - 1) * maxResults`; `None` is NaN. */
  function StartIndex(page: Option<string>, limit: Option<string>): (r: Option<int>)
    ensures r.Some? <==> PageNumber(page).Some?
    ensures r.Some? ==> r.value == PageOffset(PageNumber(page).value, MaxResults(limit))
  {
    match PageNumber(page)
    case None => None
    case Some(p) => Some(PageOffset(p, MaxResults(limit)))
  }

  /** Page `n`, written in decimal, starts `n - 1` pages in. */
  lemma DecimalPageStart(n: nat, limit: Option<string>)
    ensures StartIndex(Some(Decimal(n)), limit) == Some(PageOffset(n, MaxResults(limit)))
  {
    ParseIntDecimal(n, true);
  }

  /** Consecutive decimal page numbers give adjacent, non-overlapping windows. */
  lemma PagesAreConsecutive(n: nat, limit: Option<string>)
    ensures StartIndex(Some(Decimal(n + 1)), limit).Some? && StartIndex(Some(Decimal(n)), limit).Some?
    ensures StartIndex(Some(Decimal(n + 1)), limit).value == StartIndex(Some(Decimal(n)), limit).value + MaxResults(limit)
  {
    DecimalPageStart(n, limit);
    DecimalPageStart(n + 1, limit);
    OnePageMore(n, MaxResults(limit));
  }

  lemma OnePageMore(n: int, m: int)
    ensures PageOffset(n + 1, m) == PageOffset(n, m) + m
  {
  }

  /** The first page, given or defaulted, starts at index 0 whatever the page size. */
  lemma FirstPageStartsAtZero(limit: Option<string>)
    ensures StartIndex(None, limit) == Some(0)
    ensures StartIndex(Some("1"), limit) == Some(0)
  {
    DecimalPageStart(1, limit);
    DecimalOne();
    assert PageOffset(1, MaxResults(limit)) == 0;
  }

  lemma DecimalOne()
    ensures Decimal(1) == "1"
  {
  }

  /** A page of results as the search and category handlers report it. */
  datatype Page = Page(page: Option<int>, limit: int, totalItems: int, items: seq<Book>)

  /**
   * `searchBooks`. `response` is the catalog's answer to the request built
   * from `q`, `MaxResults(limit)` and `StartIndex(page, limit)`, `None` when
   * that request failed.
   */
  function SearchBooks(q: Option<string>, page: Option<string>, limit: Option<string>,
                       response: Option<ListResponse>): (r: Reply<Page>)
    ensures (!Present(q) || AllWhitespace(q.value)) ==> r == Refuse(QueryRequired)
    ensures Present(q) && !AllWhitespace(q.value) && response.None? ==> r == Refused(500, SearchFailedMessage)
    ensures r.Done? <==> Present(q) && !AllWhitespace(q.value) && response.Some?
    ensures r.Done? ==> r.value == Page(PageNumber(page), MaxResults(limit),
                                        ShapeListing(response.value).totalItems, ShapeListing(response.value).items)
  {
    if !Present(q) || Trim(q.value) == [] then Refuse(QueryRequired)
    else
      match Catalog.SearchBooks(response)
      case FetchFailed(message) => Refused(500, message)
      case Fetched(listing) => Done(200, Page(PageNumber(page), MaxResults(limit), listing.totalItems, listing.items))
  }

  /** A blank query is refused whatever the catalog would have answered. */
  lemma BlankQueryIgnoresCatalog(q: string, page: Option<string>, limit: Option<string>,
                                 a: Option<ListResponse>, b: Option<ListResponse>)
    requires AllWhitespace(q)
    ensures SearchBooks(Some(q), page, limit, a) == SearchBooks(Some(q), page, limit, b) == Refuse(QueryRequired)
  {
  }

  /** `getBookDetail`: a catalog failure is a 404 here. */
  function GetBookDetail(response: Option<RawBook>): (r: Reply<Book>)
    ensures r.Refused? <==> response.None?
    ensures r.Refused? ==> r == Refused(404, BookMissingMessage)
    ensures r.Done? ==> r.value == FormatBook(response.value)
  {
    match GetBookById(response)
    case FetchFailed(message) => Refused(404, message)
    case Fetched(book) => Done(200, book)
  }

  /** `getBooksByCategory`: a catalog failure is a 500 here. */
  function BooksByCategory(page: Option<string>, limit: Option<string>, response: Option<ListResponse>): (r: Reply<Page>)
    ensures r.Refused? <==> response.None?
    ensures r.Refused? ==> r == Refused(500, CategoryFailedMessage)
    ensures r.Done? ==> r.value == Page(PageNumber(page), MaxResults(limit),
                                        ShapeListing(response.value).totalItems, ShapeListing(response.value).items)
  {
    match Catalog.BooksByCategory(response)
    case FetchFailed(message) => Refused(500, message)
    case Fetched(listing) => Done(200, Page(PageNumber(page), MaxResults(limit), listing.totalItems, listing.items))
  }

  /** The same catalog failure is a server error for lists and a not-found for a single book. */
  lemma FailureCodesDiffer(page: Option<string>, limit: Option<string>, q: string)
    requires !AllWhitespace(q)
    ensures SearchBooks(Some(q), page, limit, None).code == 500
    ensures BooksByCategory(page, limit, None).code == 500
    ensures GetBookDetail(None).code == 404
  {
  }

  // ---------------------------------------------------------------------
  // Categories
  // ---------------------------------------------------------------------

  datatype Category = Category(id: string, name: string, description: string)

  /** `getCategories`: the fixed list of ten. */
  function Categories(): (cs: seq<Category>)
    ensures |cs| == 10
    ensures forall i, j :: 0 <= i < j < |cs| ==> cs[i].id != cs[j].id
  {
    [ Category("fiction", "Fiksi", "Novel, cerita fiksi"),
      Category("science", "Sains", "Buku sains dan penelitian"),
      Category("technology", "Teknologi", "Pemrograman, IT, komputer"),
      Category("history", "Sejarah", "Sejarah dunia dan lokal"),
      Category("business", "Bisnis", "Manajemen, entrepreneurship"),
      Category("self-help", "Pengembangan Diri", "Motivasi, produktivitas"),
      Category("religion", "Religi", "Buku keagamaan"),
      Category("children", "Anak-anak", "Buku untuk anak"),
      Category("education", "Pendidikan", "Buku pelajaran, akademik"),
      Category("art", "Seni", "Seni, desain, fotografi") ]
  }

  // ---------------------------------------------------------------------
  // Statistics
  // ---------------------------------------------------------------------

  /** The categories sampled by the statistics handler, in order. */
  const StatCategories: seq<string> := ["fiction", "technology", "science", "business", "history"]

  /** Estimate used when no category reports a count. */
  const FallbackTotal: int := 40000000

  datatype CategoryStat = CategoryStat(category: string, count: int)

  datatype BookStats = BookStats(totalBooks: int, estimatedCategories: nat, averagePerCategory: int,
                                 breakdown: seq<CategoryStat>)

  /** `result.success && result.totalItems`: the lookup succeeded with a non-zero total. */
  predicate Counted(r: Fetched<Listing>) {
    r.Fetched? && r.value.totalItems != 0
  }

  /** The sum of the non-zero totals of the successful lookups. */
  function CountedSum(results: seq<Fetched<Listing>>): int {
    if results == [] then 0
    else CountedSum(results[..|results| - 1]) + (if Counted(results[|results| - 1]) then results[|results| - 1].value.totalItems else 0)
  }

  /** The breakdown entries for the counted categories, in category order. */
  function Breakdown(cats: seq<string>, results: seq<Fetched<Listing>>): (b: seq<CategoryStat>)
    requires |cats| == |results|
    ensures forall s :: s in b ==> exists i :: 0 <= i < |cats| && Counted(results[i]) && s == CategoryStat(cats[i], results[i].value.totalItems)
    ensures forall i :: 0 <= i < |cats| && Counted(results[i]) ==> CategoryStat(cats[i], results[i].value.totalItems) in b
    ensures |b| <= |cats|
  {
    if cats == [] then []
    else
      var n := |cats| - 1;
      Breakdown(cats[..n], results[..n])
        + (if Counted(results[n]) then [CategoryStat(cats[n], results[n].value.totalItems)] else [])
  }

  /** When every lookup is counted, the breakdown lists every category, in the fixed order. */
  lemma {:induction false} AllCountedInOrder(cats: seq<string>, results: seq<Fetched<Listing>>)
    requires |cats| == |results|
    requires forall i :: 0 <= i < |results| ==> Counted(results[i])
    ensures |Breakdown(cats, results)| == |cats|
    ensures forall i :: 0 <= i < |cats| ==> Breakdown(cats, results)[i] == CategoryStat(cats[i], results[i].value.totalItems)
  {
    if cats != [] {
      var n := |cats| - 1;
      var cs, rs := cats[..n], results[..n];
      assert forall i :: 0 <= i < n ==> rs[i] == results[i] && cs[i] == cats[i];
      AllCountedInOrder(cs, rs);
      var head := Breakdown(cs, rs);
      var b := Breakdown(cats, results);
      assert b == head + [CategoryStat(cats[n], results[n].value.totalItems)];
      forall i | 0 <= i < |cats| ensures b[i] == CategoryStat(cats[i], results[i].value.totalItems) {
        if i < n {
          assert b[i] == head[i];
        }
      }
    }
  }

  /** The positions of the counted lookups, in increasing order. */
  function CountedIndices(results: seq<Fetched<Listing>>): (idx: seq<nat>)
    ensures forall k :: 0 <= k < |idx| ==> idx[k] < |results| && Counted(results[idx[k]])
    ensures forall i :: 0 <= i < |results| && Counted(results[i]) ==> i in idx
    ensures forall k, l :: 0 <= k < l < |idx| ==> idx[k] < idx[l]
  {
    if results == [] then []
    else
      var n := |results| - 1;
      assert forall i :: 0 <= i < n ==> results[..n][i] == results[i];
      CountedIndices(results[..n]) + (if Counted(results[n]) then [n] else [])
  }

  /** `b` lists, entry by entry, the categories at the positions `idx` with their totals. */
  predicate ListsAt(cats: seq<string>, results: seq<Fetched<Listing>>, b: seq<CategoryStat>, idx: seq<nat>)
    requires |cats| == |results|
  {
    && |b| == |idx|
    && forall k :: 0 <= k < |idx| ==>
         idx[k] < |cats| && results[idx[k]].Fetched?
         && b[k] == CategoryStat(cats[idx[k]], results[idx[k]].value.totalItems)
  }

  /** One more lookup extends the listing of the shorter prefix. */
  lemma ListsAtExtend(cats: seq<string>, results: seq<Fetched<Listing>>, head: seq<CategoryStat>, hidx: seq<nat>,
                      b: seq<CategoryStat>, idx: seq<nat>)
    requires |cats| == |results| > 0
    requires ListsAt(cats[..|cats| - 1], results[..|cats| - 1], head, hidx)
    requires var n := |cats| - 1;
             if Counted(results[n])
             then b == head + [CategoryStat(cats[n], results[n].value.totalItems)] && idx == hidx + [n]
             else b == head && idx == hidx
    ensures ListsAt(cats, results, b, idx)
  {
    var n := |cats| - 1;
    forall k | 0 <= k < |idx|
      ensures idx[k] < |cats| && results[idx[k]].Fetched?
              && b[k] == CategoryStat(cats[idx[k]], results[idx[k]].value.totalItems)
    {
      if k < |hidx| {
        var i := hidx[k];
        assert cats[..n][i] == cats[i] && results[..n][i] == results[i];
        assert b[k] == head[k] && idx[k] == i;
      }
    }
  }

  /**
   * The breakdown has one entry per counted lookup, and its k-th entry is the
   * k-th counted category with its total: the fixed category order is kept
   * whichever lookups fail.
   */
  lemma {:induction false} BreakdownInOrder(cats: seq<string>, results: seq<Fetched<Listing>>)
    requires |cats| == |results|
    ensures |Breakdown(cats, results)| == |CountedIndices(results)|
    ensures forall k :: 0 <= k < |CountedIndices(results)| ==>
              Breakdown(cats, results)[k]
              == CategoryStat(cats[CountedIndices(results)[k]], results[CountedIndices(results)[k]].value.totalItems)
  {
    ListedInOrder(cats, results);
  }

  lemma {:induction false} ListedInOrder(cats: seq<string>, results: seq<Fetched<Listing>>)
    requires |cats| == |results|
    ensures ListsAt(cats, results, Breakdown(cats, results), CountedIndices(results))
  {
    if cats != [] {
      var n := |cats| - 1;
      ListedInOrder(cats[..n], results[..n]);
      ListsAtExtend(cats, results, Breakdown(cats[..n], results[..n]), CountedIndices(results[..n]),
                    Breakdown(cats, results), CountedIndices(results));
    }
  }

  function SumCounts(b: seq<CategoryStat>): int {
    if b == [] then 0 else SumCounts(b[..|b| - 1]) + b[|b| - 1].count
  }

  lemma {:induction false} SumCountsAppend(a: seq<CategoryStat>, b: seq<CategoryStat>)
    ensures SumCounts(a + b) == SumCounts(a) + SumCounts(b)
  {
    if b != [] {
      assert (a + b)[..|a + b| - 1] == a + b[..|b| - 1];
      SumCountsAppend(a, b[..|b| - 1]);
    } else {
      assert a + b == a;
    }
  }

  /** The breakdown's counts add up to the accumulated total. */
  lemma {:induction false} BreakdownAddsUp(cats: seq<string>, results: seq<Fetched<Listing>>)
    requires |cats| == |results|
    ensures SumCounts(Breakdown(cats, results)) == CountedSum(results)
  {
    if cats != [] {
      var n := |cats| - 1;
      BreakdownAddsUp(cats[..n], results[..n]);
      var tail := if Counted(results[n]) then [CategoryStat(cats[n], results[n].value.totalItems)] else [];
      SumCountsAppend(Breakdown(cats[..n], results[..n]), tail);
      assert SumCounts(tail) == if Counted(results[n]) then results[n].value.totalItems else 0 by {
        if Counted(results[n]) {
          assert tail[..0] == [];
        }
      }
    }
  }

  /**
   * `getBookStatistics`. `results[i]` is the catalog's answer for
   * `StatCategories[i]` (page size 1, offset 0); a lookup that throws is a
   * `FetchFailed` like one that reports failure.
   */
  method BookStatistics(results: seq<Fetched<Listing>>) returns (st: BookStats)
    requires |results| == |StatCategories|
    ensures st.breakdown == Breakdown(StatCategories, results)
    ensures st.totalBooks == if CountedSum(results) == 0 then FallbackTotal else CountedSum(results)
    ensures st.estimatedCategories == 5
    ensures st.averagePerCategory * 5 <= st.totalBooks < (st.averagePerCategory + 1) * 5
  {
    var totalBooks := 0;
    var categoryStats: seq<CategoryStat> := [];
    var i := 0;
    while i < |StatCategories|
      invariant 0 <= i <= |StatCategories|
      invariant totalBooks == CountedSum(results[..i])
      invariant categoryStats == Breakdown(StatCategories[..i], results[..i])
    {
      var result := results[i];
      if result.Fetched? && result.value.totalItems != 0 {
        totalBooks := totalBooks + result.value.totalItems;
        categoryStats := categoryStats + [CategoryStat(StatCategories[i], result.value.totalItems)];
      }
      assert results[..i + 1][..i] == results[..i];
      assert StatCategories[..i + 1][..i] == StatCategories[..i];
      i := i + 1;
    }
    assert results[..i] == results && StatCategories[..i] == StatCategories;
    if totalBooks == 0 {
      totalBooks := FallbackTotal;
    }
    st := BookStats(totalBooks, |StatCategories|, totalBooks / |StatCategories|, categoryStats);
  }

  /** When every lookup fails the estimate is the fallback, spread evenly. */
  lemma AllFailedUsesFallback(results: seq<Fetched<Listing>>)
    requires forall i :: 0 <= i < |results| ==> results[i].FetchFailed?
    ensures CountedSum(results) == 0
  {
    if results != [] {
      AllFailedUsesFallback(results[..|results| - 1]);
    }
  }
}
