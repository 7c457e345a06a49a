/**
 * What the dashboard page shows of the loaded transactions: the currency and
 * type filters, the gating of the statistics, and pagination.
 */
module TransactionView {
  import opened Wrappers
  import opened Sequences
  import opened Dashboard

  // ---------------------------------------------------------------------------
  // Filters and statistics

  /**
   * The currency step of `baseFilteredTransactions`: `"all"` keeps the list,
   * any other selection keeps the transactions in exactly that currency, and
   * a null selection (before the data has arrived) keeps none.
   */
  function FilterByCurrency(list: seq<Transaction>, selected: Option<string>): (r: seq<Transaction>)
    ensures selected == Some(All) ==> r == list
    ensures selected != Some(All) ==> forall tx {:trigger multiset(r)[tx]} ::
      multiset(r)[tx] == if Some(tx.currency) == selected then multiset(list)[tx] else 0
  {
    if selected == Some(All) then list
    else Filter(list, (tx: Transaction) => Some(tx.currency) == selected)
  }

  /** The currency filter keeps the original order: it distributes over concatenation. */
  lemma FilterByCurrencyAppend(a: seq<Transaction>, b: seq<Transaction>, selected: Option<string>)
    ensures FilterByCurrency(a + b, selected) == FilterByCurrency(a, selected) + FilterByCurrency(b, selected)
  {
    if selected != Some(All) {
      FilterAppend(a, b, (tx: Transaction) => Some(tx.currency) == selected);
    }
  }

  /** Before a currency is selected (null), the currency filter keeps nothing. */
  lemma FilterByNullCurrency(list: seq<Transaction>)
    ensures FilterByCurrency(list, None) == []
  {
    FilterNone(list, (tx: Transaction) => Some(tx.currency) == None);
  }

  /**
   * The type step of `processedTransactions`: `"all"` keeps the list, any
   * other value keeps the transactions whose kind has that name.
   */
  function FilterByType(list: seq<Transaction>, typeFilter: string): (r: seq<Transaction>)
    ensures typeFilter == All ==> r == list
    ensures typeFilter != All ==> forall tx {:trigger multiset(r)[tx]} ::
      multiset(r)[tx] == if KindName(tx.kind) == typeFilter then multiset(list)[tx] else 0
  {
    if typeFilter == All then list
    else Filter(list, (tx: Transaction) => KindName(tx.kind) == typeFilter)
  }

  /** The type filter keeps the original order: it distributes over concatenation. */
  lemma FilterByTypeAppend(a: seq<Transaction>, b: seq<Transaction>, typeFilter: string)
    ensures FilterByType(a + b, typeFilter) == FilterByType(a, typeFilter) + FilterByType(b, typeFilter)
  {
    if typeFilter != All {
      FilterAppend(a, b, (tx: Transaction) => KindName(tx.kind) == typeFilter);
    }
  }

  /** `statsAndChartsData`: nothing when all currencies are shown, else the filtered list. */
  function StatsData(baseFiltered: seq<Transaction>, selected: Option<string>): (r: seq<Transaction>)
    ensures selected == Some(All) ==> r == []
    ensures selected != Some(All) ==> r == baseFiltered
  {
    if selected == Some(All) then [] else baseFiltered
  }

  /**
   * The statistics and charts never mix currencies: they see no transaction
   * when all currencies are shown, and otherwise exactly the transactions in
   * the selected currency, each as often as in the list.
   */
  lemma StatsAreSingleCurrency(list: seq<Transaction>, selected: Option<string>)
    ensures var stats := StatsData(FilterByCurrency(list, selected), selected);
      && (selected == Some(All) ==> stats == [])
      && (forall i | 0 <= i < |stats| :: Some(stats[i].currency) == selected)
      && (selected != Some(All) ==> forall tx {:trigger multiset(stats)[tx]} ::
            multiset(stats)[tx] == if Some(tx.currency) == selected then multiset(list)[tx] else 0)
  {
    var stats := StatsData(FilterByCurrency(list, selected), selected);
    forall i | 0 <= i < |stats| ensures Some(stats[i].currency) == selected {
      assert stats[i] in multiset(stats);
    }
  }

  // ---------------------------------------------------------------------------
  // Pagination

  function Min(a: int, b: int): int {
    if a <= b then a else b
  }

  function Max(a: int, b: int): int {
    if a >= b then a else b
  }

  /** A `slice` argument resolved against a length: negative counts from the end, then clamped. */
  function RelativeIndex(i: int, length: nat): (k: nat)
    ensures k <= length
    ensures 0 <= i <= length ==> k == i
  {
    if i < 0 then Max(length + i, 0) else Min(i, length)
  }

  /**
   * `Array.prototype.slice(start, end)`: when `start <= end`, at most
   * `end - start` items; for `0 <= start <= end`, the run between the two
   * positions clamped to the length (negative positions count from the end).
   */
  function Slice<T>(s: seq<T>, start: int, end: int): (r: seq<T>)
    ensures |r| <= |s|
    ensures start <= end ==> |r| <= end - start
    ensures 0 <= start <= end ==> r == s[Min(start, |s|)..Min(end, |s|)]
  {
    var from := RelativeIndex(start, |s|);
    var to := RelativeIndex(end, |s|);
    if from < to then s[from..to] else []
  }

  /** `paginatedTransactions`: the items shown on page `page`. */
  function PageItems<T>(list: seq<T>, page: int): (r: seq<T>)
    ensures |r| <= ItemsPerPage
    ensures page >= 1 ==>
      r == list[Min((page - 1) * ItemsPerPage, |list|)..Min(page * ItemsPerPage, |list|)]
  {
    var startIndex := (page - 1) * ItemsPerPage;
    Slice(list, startIndex, startIndex + ItemsPerPage)
  }

  /** `Math.ceil(n / ITEMS_PER_PAGE)`: the fewest pages that hold `n` items. */
  function TotalPages(n: nat): (r: nat)
    ensures r * ItemsPerPage >= n
    ensures r == 0 || (r - 1) * ItemsPerPage < n
  {
    (n + ItemsPerPage - 1) / ItemsPerPage
  }

  /** The items of pages 1 to `k`, one page after another. */
  ghost function PagesUpTo<T>(list: seq<T>, k: nat): seq<T> {
    if k == 0 then [] else PagesUpTo(list, k - 1) + PageItems(list, k)
  }

  /** The first `k` pages are the first `10 k` items (or the whole list). */
  lemma {:induction false} PagesUpToPrefix<T>(list: seq<T>, k: nat)
    ensures PagesUpTo(list, k) == list[..Min(k * ItemsPerPage, |list|)]
  {
    if k > 0 {
      PagesUpToPrefix(list, k - 1);
      var a, b := Min((k - 1) * ItemsPerPage, |list|), Min(k * ItemsPerPage, |list|);
      assert list[..a] + list[a..b] == list[..b];
    }
  }

  /** Pages 1 to `totalPages`, read one after another, are the whole list. */
  lemma PagesCoverList<T>(list: seq<T>)
    ensures PagesUpTo(list, TotalPages(|list|)) == list
  {
    PagesUpToPrefix(list, TotalPages(|list|));
  }

  /** No page after the last holds an item. */
  lemma PagesBeyondLastAreEmpty<T>(list: seq<T>, page: int)
    requires page > TotalPages(|list|)
    ensures PageItems(list, page) == []
  {
  }

  /** The "previous" button: `Math.max(1, p - 1)`. */
  function PreviousPage(page: int): (r: int)
    ensures r >= 1
    ensures page > 1 ==> r == page - 1
    ensures page <= 1 ==> r == 1
  {
    Max(1, page - 1)
  }

  /** The "next" button: `Math.min(totalPages, p + 1)`. */
  function NextPage(page: int, totalPages: int): (r: int)
    ensures r <= totalPages
    ensures page < totalPages ==> r == page + 1
    ensures page >= totalPages ==> r == totalPages
  {
    Min(totalPages, page + 1)
  }

  /** From a page in `[1, totalPages]`, both buttons lead to a page in `[1, totalPages]`. */
  lemma NavigationStaysInRange(page: int, totalPages: int)
    requires 1 <= page <= totalPages
    ensures 1 <= PreviousPage(page) <= totalPages
    ensures 1 <= NextPage(page, totalPages) <= totalPages
  {
  }
}
