/**
 * The creation list of the user's dashboard: the collection mirrored from the
 * server, the list filtered by kind, pages of ten items, the window of page
 * numbers shown in the pagination bar, and the load and delete handlers.
 */
module Dashboard {
  import opened Api
  import JsArray

  /** Items shown on one page. */
  const ItemsPerPage: nat := 10
  /** Most page numbers the pagination bar shows at once. */
  const MaxVisiblePages: nat := 5
  /** The filter value that shows every kind. */
  const AllKinds: string := "all"

  function Max(a: int, b: int): int { if a < b then b else a }
  function Min(a: int, b: int): int { if a < b then a else b }

  /** The test `item.type === filter`. */
  function OfKind(kind: string): Creation -> bool
  {
    (c: Creation) => c.kind == kind
  }

  /** The test `item.id !== id`. */
  function NotId(id: CreationId): Creation -> bool
  {
    (c: Creation) => c.id != id
  }

  /**
   * The filtered list the filter effect stores: the whole collection for
   * "all", otherwise exactly the creations of that kind.
   */
  function FilterCreations(creations: seq<Creation>, filter: string): (r: seq<Creation>)
    ensures filter == AllKinds ==> r == creations
    ensures filter != AllKinds ==> forall c :: c in r <==> c in creations && c.kind == filter
  {
    if filter == AllKinds then creations else JsArray.Filter(creations, OfKind(filter))
  }

  /** A kind filter keeps the creations of that kind in their original relative order. */
  lemma FilterCreationsInOrder(creations: seq<Creation>, kind: string)
    requires kind != AllKinds
    ensures JsArray.SelectsInOrder(creations, OfKind(kind), FilterCreations(creations, kind),
                                   JsArray.KeptIndices(creations, OfKind(kind)))
  {
    JsArray.FilterSelectsInOrder(creations, OfKind(kind));
  }

  /** What a successful delete leaves: every creation except those with the id. */
  function WithoutId(creations: seq<Creation>, id: CreationId): (r: seq<Creation>)
    ensures forall c :: c in r <==> c in creations && c.id != id
  {
    JsArray.Filter(creations, NotId(id))
  }

  /** Deleting keeps the remaining creations in their original relative order. */
  lemma WithoutIdInOrder(creations: seq<Creation>, id: CreationId)
    ensures JsArray.SelectsInOrder(creations, NotId(id), WithoutId(creations, id),
                                   JsArray.KeptIndices(creations, NotId(id)))
  {
    JsArray.FilterSelectsInOrder(creations, NotId(id));
  }

  /**
   * The creations of page `page` (counted from 1): the slice from
   * `(page - 1) * 10` up to `page * 10`, cut short at the end of the list.
   */
  function PageItems(items: seq<Creation>, page: int): (r: seq<Creation>)
    ensures 1 <= page ==> |r| <= ItemsPerPage
    ensures 1 <= page ==>
      r == items[Min((page - 1) * ItemsPerPage, |items|)..Min(page * ItemsPerPage, |items|)]
  {
    var last := page * ItemsPerPage;
    var first := last - ItemsPerPage;
    JsArray.Slice(items, first, last)
  }

  /**
   * `Math.ceil(length / 10)`: the fewest pages of ten that hold `length`
   * items, which is 0 for an empty list.
   */
  function PageCount(length: nat): (n: nat)
    ensures (n - 1) * ItemsPerPage < length <= n * ItemsPerPage
    ensures n == 0 <==> length == 0
  {
    (length + ItemsPerPage - 1) / ItemsPerPage
  }

  /** The pages from 1 to `n`, one after the other. */
  function PagesUpTo(items: seq<Creation>, n: nat): seq<Creation>
  {
    if n == 0 then [] else PagesUpTo(items, n - 1) + PageItems(items, n)
  }

  /** The first `n` pages are the first `10 * n` items, or all of them. */
  lemma {:induction false} PagesUpToIsPrefix(items: seq<Creation>, n: nat)
    ensures PagesUpTo(items, n) == items[..Min(n * ItemsPerPage, |items|)]
  {
    if n > 0 {
      PagesUpToIsPrefix(items, n - 1);
      var a, b := Min((n - 1) * ItemsPerPage, |items|), Min(n * ItemsPerPage, |items|);
      assert items[..a] + items[a..b] == items[..b];
    }
  }

  /** Pages 1 to `PageCount` together give back the whole list, in order. */
  lemma PagesCoverList(items: seq<Creation>)
    ensures PagesUpTo(items, PageCount(|items|)) == items
  {
    PagesUpToIsPrefix(items, PageCount(|items|));
  }

  /** Every page past the last one is empty. */
  lemma PagesPastTheEndAreEmpty(items: seq<Creation>, page: int)
    requires page > PageCount(|items|)
    ensures PageItems(items, page) == []
  {
  }

  /** Twenty-three creations make three pages: two full ones and one of three. */
  lemma TwentyThreeItems(items: seq<Creation>)
    requires |items| == 23
    ensures PageCount(|items|) == 3
    ensures |PageItems(items, 1)| == 10 && |PageItems(items, 2)| == 10 && |PageItems(items, 3)| == 3
  {
  }

  /** More than one page's worth of items means at least two pages. */
  lemma SeveralPages(length: nat)
    requires length > ItemsPerPage
    ensures PageCount(length) >= 2
  {
  }

  /**
   * `getPageNumbers()`: a window of at most five consecutive page numbers
   * around `current`, pushed left when it would pass `total`. For a page in
   * range it holds `min(5, total)` numbers, all in `[1, total]`, and includes
   * `current`; away from both ends `current` sits in the middle.
   */
  function PageNumbers(current: int, total: int): (r: seq<int>)
    ensures total <= 0 ==> r == []
    ensures forall k :: 0 <= k < |r| ==> r[k] == r[0] + k
    ensures 1 <= current <= total ==>
      && |r| == Min(MaxVisiblePages, total)
      && 1 <= r[0] && r[|r| - 1] <= total
      && current in r
    ensures 1 + MaxVisiblePages / 2 <= current <= total - MaxVisiblePages / 2 ==>
      r[MaxVisiblePages / 2] == current
    ensures 1 <= current <= total && current <= 1 + MaxVisiblePages / 2 ==> r[0] == 1
    ensures 1 <= current <= total && current >= total - MaxVisiblePages / 2 ==> r[|r| - 1] == total
  {
    var start := Max(1, current - MaxVisiblePages / 2);
    var end := start + MaxVisiblePages - 1;
    var first, last := if end > total then Max(1, total - MaxVisiblePages + 1) else start,
                       if end > total then total else end;
    var r := seq(Max(0, last - first + 1), i => first + i);
    assert 1 <= current <= total ==> r[current - first] == current;
    r
  }

  /** A current page the page state allows: 1, or any page that exists. */
  predicate PageInRange(page: int, total: nat)
  {
    page == 1 || 1 <= page <= total
  }

  /** The dashboard's state cells and their handlers. */
  class DashboardPage {
    var creations: seq<Creation>
    var filteredCreations: seq<Creation>
    var loading: bool
    var currentPage: int
    var filter: string

    /**
     * Between handlers the filtered list is the filter effect's result for the
     * current collection and filter, and the current page is 1 or an existing page.
     */
    ghost predicate Valid()
      reads this
    {
      && filteredCreations == FilterCreations(creations, filter)
      && PageInRange(currentPage, PageCount(|filteredCreations|))
    }

    /** `totalPages`. */
    function TotalPages(): nat
      reads this
    {
      PageCount(|filteredCreations|)
    }

    /**
     * `currentItems`: at most ten creations, the run of the filtered list from
     * the page's first index up to its last index or the end of the list.
     */
    function CurrentItems(): (r: seq<Creation>)
      reads this
      requires Valid()
      ensures |r| <= ItemsPerPage
      ensures var first := Min((currentPage - 1) * ItemsPerPage, |filteredCreations|);
        && first + |r| == Min(currentPage * ItemsPerPage, |filteredCreations|)
        && r == filteredCreations[first..first + |r|]
    {
      PageItems(filteredCreations, currentPage)
    }

    /** The pagination bar is rendered once loading is over and there is more than one page's worth. */
    predicate PaginationShown(): (r: bool)
      reads this
      ensures r ==> TotalPages() >= 2
    {
      !loading && |filteredCreations| > ItemsPerPage
    }

    /** The previous-page button's `disabled` attribute. */
    predicate PrevDisabled(): (r: bool)
      reads this
      ensures Valid() ==> (r <==> currentPage - 1 < 1)
    {
      currentPage == 1
    }

    /** The next-page button's `disabled` attribute. */
    predicate NextDisabled(): (r: bool)
      reads this
      ensures Valid() && PaginationShown() ==> (r <==> currentPage + 1 > TotalPages())
    {
      currentPage == TotalPages()
    }

    /** The state on mount: nothing loaded yet, filter "all", page 1. */
    constructor ()
      ensures Valid()
      ensures creations == [] && filteredCreations == [] && loading
      ensures currentPage == 1 && filter == AllKinds
    {
      creations, filteredCreations := [], [];
      loading, currentPage, filter := true, 1, AllKinds;
    }

    /**
     * The effect that runs whenever `filter` or `creations` changes: it
     * recomputes the filtered list and goes back to page 1.
     */
    method RefreshFiltered()
      modifies this
      ensures Valid()
      ensures filteredCreations == FilterCreations(creations, filter) && currentPage == 1
      ensures creations == old(creations) && filter == old(filter) && loading == old(loading)
    {
      if filter == AllKinds {
        filteredCreations := creations;
      } else {
        filteredCreations := JsArray.Filter(creations, OfKind(filter));
      }
      currentPage := 1;
    }

    /**
     * `getDashboardData` once its request settles: a successful reply replaces
     * the collection (and the effect resets the page); a failed reply or an
     * exception keeps everything and raises a toast. Loading is over on every path.
     */
    method LoadCreations(reply: Reply<seq<Creation>>) returns (notice: Notice)
      requires Valid()
      modifies this
      ensures Valid() && !loading && filter == old(filter)
      ensures notice == ErrorNotice(reply)
      ensures reply.Success? ==> creations == reply.value && currentPage == 1
      ensures !reply.Success? ==>
        && creations == old(creations) && filteredCreations == old(filteredCreations)
        && currentPage == old(currentPage)
    {
      if reply.Success? {
        creations := reply.value;
        notice := Quiet;
        RefreshFiltered();
      } else {
        notice := ErrorToast(reply.message);
      }
      loading := false;
    }

    /**
     * `deleteCreation(id)` once its request settles. The collection changes
     * only after a successful reply, which removes every creation with the id
     * and (through the effect) resets the page; otherwise nothing changes and
     * an error toast is raised.
     */
    method DeleteCreation(id: CreationId, reply: Reply<string>) returns (notice: Notice)
      requires Valid()
      modifies this
      ensures Valid() && filter == old(filter) && loading == old(loading)
      ensures reply.Success? ==>
        && creations == WithoutId(old(creations), id) && currentPage == 1
        && notice == SuccessToast(reply.value)
      ensures !reply.Success? ==>
        && creations == old(creations) && filteredCreations == old(filteredCreations)
        && currentPage == old(currentPage) && notice == ErrorNotice(reply)
    {
      if reply.Success? {
        notice := SuccessToast(reply.value);
        creations := JsArray.Filter(creations, NotId(id));
        RefreshFiltered();
      } else {
        notice := ErrorToast(reply.message);
      }
    }

    /**
     * A filter button: a new filter value recomputes the list and resets the
     * page; choosing the filter already selected changes no state, so the
     * effect does not run and the page stays.
     */
    method SelectFilter(kind: string)
      requires Valid()
      modifies this
      ensures Valid() && filter == kind
      ensures creations == old(creations) && loading == old(loading)
      ensures kind != old(filter) ==> currentPage == 1
      ensures kind == old(filter) ==>
        filteredCreations == old(filteredCreations) && currentPage == old(currentPage)
    {
      if kind != filter {
        filter := kind;
        RefreshFiltered();
      }
    }

    /** A page-number button of the window: that page becomes current. */
    method GoToPage(num: int)
      requires Valid() && PaginationShown()
      requires num in PageNumbers(currentPage, TotalPages())
      modifies this`currentPage
      ensures Valid() && currentPage == num
    {
      SeveralPages(|filteredCreations|);
      currentPage := num;
    }

    /** The previous-page button, enabled off page 1: moves back one page. */
    method PrevPage()
      requires Valid() && PaginationShown() && !PrevDisabled()
      modifies this`currentPage
      ensures Valid() && currentPage == old(currentPage) - 1
    {
      currentPage := Max(currentPage - 1, 1);
    }

    /** The next-page button, enabled off the last page: moves on one page. */
    method NextPage()
      requires Valid() && PaginationShown() && !NextDisabled()
      modifies this`currentPage
      ensures Valid() && currentPage == old(currentPage) + 1
    {
      SeveralPages(|filteredCreations|);
      currentPage := Min(currentPage + 1, TotalPages());
    }
  }
}
