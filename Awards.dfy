/** The awards and certificates gallery: a type filter, a sort order, a
    "load more" window over the result, and the item whose details are open. */
module Awards {
  import opened Optional

  /** The window grows by this many items, and starts at this size. */
  const PageSize: nat := 12

  /** An award or certificate. `timestamp` is the instant the browser's date
      parser gives for the item's date text. */
  datatype Item = Item(id: string, title: string, timestamp: int, kind: string)

  // ---------------------------------------------------------------------
  // Filtering

  /** The items of one kind, in list order. */
  function OfKind(items: seq<Item>, kind: string): (r: seq<Item>)
    ensures |r| <= |items|
    ensures forall i :: 0 <= i < |r| ==> r[i].kind == kind
  {
    if items == [] then []
    else (if items[0].kind == kind then [items[0]] else []) + OfKind(items[1..], kind)
  }

  /** Filtering keeps every item of the kind as often as the list has it,
      and drops every other item. */
  lemma {:induction false} OfKindCounts(items: seq<Item>, kind: string, x: Item)
    ensures multiset(OfKind(items, kind))[x] == if x.kind == kind then multiset(items)[x] else 0
  {
    if items != [] {
      assert items == [items[0]] + items[1..];
      OfKindCounts(items[1..], kind, x);
    }
  }

  /** Filtering keeps list order: it commutes with concatenation. */
  lemma {:induction false} OfKindConcat(a: seq<Item>, b: seq<Item>, kind: string)
    ensures OfKind(a + b, kind) == OfKind(a, kind) + OfKind(b, kind)
  {
    if a != [] {
      var head := if a[0].kind == kind then [a[0]] else [];
      assert (a + b)[0] == a[0] && (a + b)[1..] == a[1..] + b;
      calc {
        OfKind(a + b, kind);
        head + OfKind(a[1..] + b, kind);
        { OfKindConcat(a[1..], b, kind); }
        head + (OfKind(a[1..], kind) + OfKind(b, kind));
        (head + OfKind(a[1..], kind)) + OfKind(b, kind);
        OfKind(a, kind) + OfKind(b, kind);
      }
    } else {
      assert a + b == b;
    }
  }

  /** The type filter: "all" keeps every item, any other value keeps the
      items of that kind. */
  function FilterByType(items: seq<Item>, filter: string): (r: seq<Item>)
    ensures filter == "all" ==> r == items
    ensures filter != "all" ==> forall x :: x in r <==> x in items && x.kind == filter
  {
    if filter == "all" then items
    else
      var r := OfKind(items, filter);
      assert forall x :: x in r <==> x in items && x.kind == filter by {
        forall x ensures x in r <==> x in items && x.kind == filter {
          OfKindCounts(items, filter, x);
          assert x in r <==> multiset(r)[x] > 0;
          assert x in items <==> multiset(items)[x] > 0;
        }
      }
      r
  }

  // ---------------------------------------------------------------------
  // Sorting

  /** Lexicographic order on titles by character code, standing in for the
      browser's locale-aware `localeCompare`. */
  predicate TitleLe(a: string, b: string)
    decreases |a|
  {
    a == [] || (b != [] && (a[0] < b[0] || (a[0] == b[0] && TitleLe(a[1..], b[1..]))))
  }

  lemma {:induction false} TitleLeTotal(a: string, b: string)
    ensures TitleLe(a, b) || TitleLe(b, a)
    decreases |a|
  {
    if a != [] && b != [] && a[0] == b[0] {
      TitleLeTotal(a[1..], b[1..]);
    }
  }

  lemma {:induction false} TitleLeTransitive(a: string, b: string, c: string)
    requires TitleLe(a, b) && TitleLe(b, c)
    ensures TitleLe(a, c)
    decreases |a|
  {
    if a != [] && a[0] == b[0] && b[0] == c[0] {
      TitleLeTransitive(a[1..], b[1..], c[1..]);
    }
  }

  /** May `a` come before `b` under the sort order? "alphabetical" orders
      by title ascending; otherwise by date, newest first. */
  predicate Precedes(a: Item, b: Item, sortBy: string)
  {
    if sortBy == "alphabetical" then TitleLe(a.title, b.title) else b.timestamp <= a.timestamp
  }

  lemma PrecedesTotal(a: Item, b: Item, sortBy: string)
    ensures Precedes(a, b, sortBy) || Precedes(b, a, sortBy)
  {
    TitleLeTotal(a.title, b.title);
  }

  lemma PrecedesTransitive(a: Item, b: Item, c: Item, sortBy: string)
    requires Precedes(a, b, sortBy) && Precedes(b, c, sortBy)
    ensures Precedes(a, c, sortBy)
  {
    if sortBy == "alphabetical" {
      TitleLeTransitive(a.title, b.title, c.title);
    }
  }

  predicate Sorted(s: seq<Item>, sortBy: string)
  {
    forall i, j :: 0 <= i < j < |s| ==> Precedes(s[i], s[j], sortBy)
  }

  /** Insert `x` before the first item it may precede. */
  function Insert(x: Item, s: seq<Item>, sortBy: string): (r: seq<Item>)
    ensures multiset(r) == multiset(s) + multiset{x}
    ensures |r| == |s| + 1
  {
    if s == [] then [x]
    else if Precedes(x, s[0], sortBy) then [x] + s
    else
      assert s == [s[0]] + s[1..];
      [s[0]] + Insert(x, s[1..], sortBy)
  }

  /** A stable sort (as JavaScript's `Array.prototype.sort` is) on a copy of
      the list. */
  function Sort(s: seq<Item>, sortBy: string): (r: seq<Item>)
    ensures multiset(r) == multiset(s)
    ensures |r| == |s|
  {
    if s == [] then []
    else
      assert s == [s[0]] + s[1..];
      Insert(s[0], Sort(s[1..], sortBy), sortBy)
  }

  lemma {:induction false} InsertKeepsSorted(x: Item, s: seq<Item>, sortBy: string)
    requires Sorted(s, sortBy)
    ensures Sorted(Insert(x, s, sortBy), sortBy)
  {
    if s != [] {
      var r := Insert(x, s, sortBy);
      if Precedes(x, s[0], sortBy) {
        forall j | 1 <= j < |r| ensures Precedes(x, r[j], sortBy) {
          if j > 1 {
            PrecedesTransitive(x, s[0], s[j - 1], sortBy);
          }
        }
      } else {
        var t := Insert(x, s[1..], sortBy);
        InsertKeepsSorted(x, s[1..], sortBy);
        PrecedesTotal(x, s[0], sortBy);
        forall j | 0 <= j < |t| ensures Precedes(s[0], t[j], sortBy) {
          assert t[j] in multiset(t);
          if t[j] != x {
            assert t[j] in multiset(s[1..]);
            var k :| 0 <= k < |s[1..]| && s[1..][k] == t[j];
            assert s[k + 1] == t[j];
          }
        }
        assert r == [s[0]] + t;
      }
    }
  }

  lemma {:induction false} SortIsSorted(s: seq<Item>, sortBy: string)
    ensures Sorted(Sort(s, sortBy), sortBy)
  {
    if s != [] {
      SortIsSorted(s[1..], sortBy);
      InsertKeepsSorted(s[0], Sort(s[1..], sortBy), sortBy);
    }
  }

  // ---------------------------------------------------------------------
  // The pipeline

  /** Filter, then sort on a copy for the two known sort orders; any other
      sort value leaves the filtered order. The result is a reordering of
      the filtered items, sorted for the known orders. */
  function FilteredAndSorted(catalog: seq<Item>, filter: string, sortBy: string): (r: seq<Item>)
    ensures multiset(r) == multiset(FilterByType(catalog, filter))
    ensures sortBy == "alphabetical" || sortBy == "date" ==> Sorted(r, sortBy)
    ensures sortBy != "alphabetical" && sortBy != "date" ==> r == FilterByType(catalog, filter)
  {
    var items := FilterByType(catalog, filter);
    if sortBy == "alphabetical" || sortBy == "date" then
      SortIsSorted(items, sortBy);
      Sort(items, sortBy)
    else items
  }

  /** The empty-state message shows exactly when no catalog item passes
      the filter. */
  lemma EmptyExactlyWhenNothingMatches(catalog: seq<Item>, filter: string, sortBy: string)
    ensures FilteredAndSorted(catalog, filter, sortBy) == [] <==>
      forall x :: x in catalog ==> filter != "all" && x.kind != filter
  {
    var r := FilteredAndSorted(catalog, filter, sortBy);
    var f := FilterByType(catalog, filter);
    assert r == [] <==> multiset(r) == multiset{};
    assert f == [] <==> multiset(f) == multiset{};
    if f != [] {
      assert f[0] in f;
    }
  }

  /** The displayed items: the first `visible` items, or all when fewer. */
  function Window(items: seq<Item>, visible: nat): (r: seq<Item>)
    ensures r <= items
    ensures |r| == if visible < |items| then visible else |items|
  {
    if visible < |items| then items[..visible] else items
  }

  /** "Load more": grow the window by a page, never past the list. */
  function NextVisible(visible: nat, total: nat): (r: nat)
    ensures r <= total
    ensures visible < total ==> visible < r <= visible + PageSize
    ensures r == total || r == visible + PageSize
  {
    if visible + PageSize < total then visible + PageSize else total
  }

  /** Loading more keeps what was shown and shows more after it. */
  lemma LoadMoreExtendsWindow(items: seq<Item>, visible: nat)
    requires visible < |items|
    ensures Window(items, visible) < Window(items, NextVisible(visible, |items|))
  {
  }

  // ---------------------------------------------------------------------
  // Component state

  class AwardsSection {
    /** The static list of awards and certificates; the pipeline sorts
        copies and never changes it. */
    const catalog: seq<Item>
    var filter: string
    var sortBy: string
    var visibleItems: nat
    var selected: Option<Item>

    constructor (catalog: seq<Item>)
      ensures this.catalog == catalog
      ensures filter == "all" && sortBy == "date"
      ensures visibleItems == PageSize && selected == None
    {
      this.catalog := catalog;
      filter := "all";
      sortBy := "date";
      visibleItems := PageSize;
      selected := None;
    }

    function Items(): seq<Item>
      reads this
    {
      FilteredAndSorted(catalog, filter, sortBy)
    }

    function Displayed(): (r: seq<Item>)
      reads this
      ensures r <= Items()
    {
      Window(Items(), visibleItems)
    }

    /** The "load more" button shows while items are hidden. */
    predicate ShowsLoadMore()
      reads this
      ensures ShowsLoadMore() <==> |Displayed()| < |Items()|
    {
      visibleItems < |Items()|
    }

    /** The count on the "load more" button. */
    function RemainingCount(): (r: nat)
      reads this
      requires ShowsLoadMore()
      ensures 0 < r && visibleItems + r == |Items()|
      ensures r == |Items()| - |Displayed()|
    {
      |Items()| - visibleItems
    }

    /** The empty-state message shows exactly when no catalog item passes
        the filter. */
    predicate ShowsEmptyState()
      reads this
      ensures ShowsEmptyState() <==> forall x :: x in catalog ==> filter != "all" && x.kind != filter
    {
      EmptyExactlyWhenNothingMatches(catalog, filter, sortBy);
      |Items()| == 0
    }

    /** The "load more" button (rendered only while items are hidden). */
    method LoadMore()
      requires ShowsLoadMore()
      modifies this`visibleItems
      ensures visibleItems == NextVisible(old(visibleItems), |Items()|)
      ensures old(visibleItems) < visibleItems <= |Items()|
      ensures old(Displayed()) < Displayed()
    {
      LoadMoreExtendsWindow(Items(), visibleItems);
      visibleItems := NextVisible(visibleItems, |Items()|);
    }

    /** A filter button, followed by the effect that resets the window when
        the filter or sort order has changed; choosing the current filter
        again changes no state, so the effect does not run. */
    method SetFilter(f: string)
      modifies this`filter, this`visibleItems
      ensures filter == f
      ensures visibleItems == if f == old(filter) then old(visibleItems) else PageSize
    {
      if f != filter {
        filter := f;
        visibleItems := PageSize;
      }
    }

    /** The sort selector, with the same reset effect. */
    method SetSortBy(s: string)
      modifies this`sortBy, this`visibleItems
      ensures sortBy == s
      ensures visibleItems == if s == old(sortBy) then old(visibleItems) else PageSize
    {
      if s != sortBy {
        sortBy := s;
        visibleItems := PageSize;
      }
    }

    /** Clicking a card opens its details. */
    method SelectItem(item: Item)
      modifies this`selected
      ensures selected == Some(item)
    {
      selected := Some(item);
    }

    /** Enter or Space on a focused card opens its details; other keys do
        nothing. */
    method HandleKeyDown(key: string, item: Item)
      modifies this`selected
      ensures selected == if key == "Enter" || key == " " then Some(item) else old(selected)
    {
      if key == "Enter" || key == " " {
        selected := Some(item);
      }
    }

    method CloseModal()
      modifies this`selected
      ensures selected == None
    {
      selected := None;
    }

    /** A click closes the details only when it lands on the backdrop itself
        (the event target is the element the handler is on). */
    method HandleBackdropClick(target: nat, currentTarget: nat)
      modifies this`selected
      ensures selected == if target == currentTarget then None else old(selected)
    {
      if target == currentTarget {
        selected := None;
      }
    }
  }
}
