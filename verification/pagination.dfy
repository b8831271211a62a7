/**
  The paginator behind `paginate_by` on a list view: fixed-size pages
  numbered from 1, an empty first page allowed, no orphans. A page number
  outside the valid range is a 404.
*/
module Pagination {
  import opened Basics
  import opened Queries

  /** Number of pages for `count` objects; an empty listing still has page 1. */
  function NumPages(count: nat, perPage: nat): (n: nat)
    requires perPage > 0
    ensures n >= 1
    ensures (n - 1) * perPage < count || (count == 0 && n == 1)
    ensures count <= n * perPage
  {
    if count == 0 then 1 else (count + perPage - 1) / perPage
  }

  /** Where a valid page starts: inside the listing, and a full page before
      its end unless it is the last page. */
  lemma PageBounds(count: nat, number: int, perPage: nat)
    requires perPage > 0 && 1 <= number <= NumPages(count, perPage)
    ensures 0 <= (number - 1) * perPage <= count
    ensures number < NumPages(count, perPage) ==> (number - 1) * perPage + perPage <= count
  {
    var pages := NumPages(count, perPage);
    if count > 0 {
      LemmaMulMono(number - 1, pages - 1, perPage);
    }
    if number < pages {
      LemmaMulMono(number, pages - 1, perPage);
      assert (number - 1) * perPage + perPage == number * perPage;
    }
  }

  /** `items` is page `number` of `s`: the `perPage` objects starting at
      offset `(number - 1) * perPage`, or the rest of `s` on the last page. */
  ghost predicate IsPage<T>(s: seq<T>, number: int, perPage: nat, items: seq<T>)
  {
    && 1 <= number
    && 0 <= (number - 1) * perPage
    && |items| == Min(perPage, |s| - (number - 1) * perPage)
    && forall i :: 0 <= i < |items| ==> items[i] == s[(number - 1) * perPage + i]
  }

  /** Page `number` of `s`, or `None` (404) for a number out of range. */
  function Paginate<T>(s: seq<T>, number: int, perPage: nat): (r: Option<seq<T>>)
    requires perPage > 0
    ensures r.Some? <==> 1 <= number <= NumPages(|s|, perPage)
    ensures r.Some? ==> IsPage(s, number, perPage, r.value)
    ensures r.Some? && number < NumPages(|s|, perPage) ==> |r.value| == perPage
  {
    if 1 <= number <= NumPages(|s|, perPage) then
      var bottom := (number - 1) * perPage;
      PageBounds(|s|, number, perPage);
      var top := Min(bottom + perPage, |s|);
      Some(s[bottom..top])
    else
      None
  }

  /** A page holds only listed objects. */
  lemma PageOfListing<T>(s: seq<T>, number: int, perPage: nat, items: seq<T>)
    requires IsPage(s, number, perPage, items)
    ensures forall x :: x in items ==> x in s
  {
    forall x | x in items ensures x in s {
      var i :| 0 <= i < |items| && items[i] == x;
      assert items[i] == s[(number - 1) * perPage + i];
    }
  }

  /** A page of a descending listing is itself descending. */
  lemma PageOfSortedListing<T>(s: seq<T>, number: int, perPage: nat, items: seq<T>, key: T -> Option<int>)
    requires IsPage(s, number, perPage, items) && SortedDesc(s, key)
    ensures SortedDesc(items, key)
  {
    var off := (number - 1) * perPage;
    forall i, j | 0 <= i < j < |items|
      ensures AtLeast(key(items[i]), key(items[j]))
    {
      assert items[i] == s[off + i] && items[j] == s[off + j];
    }
  }

  /** Every listed object is on its page: element `i` is item `i % perPage`
      of page `i / perPage + 1`, and that page exists. */
  lemma {:induction false} EveryItemOnItsPage<T>(s: seq<T>, perPage: nat, i: nat, items: seq<T>)
    requires perPage > 0 && i < |s|
    ensures 1 <= i / perPage + 1 <= NumPages(|s|, perPage)
    ensures IsPage(s, i / perPage + 1, perPage, items) ==>
              i % perPage < |items| && items[i % perPage] == s[i]
  {
    var n := i / perPage + 1;
    var off := (n - 1) * perPage;
    assert off + i % perPage == i;
    if IsPage(s, n, perPage, items) {
      assert i % perPage < |s| - off;
      assert items[i % perPage] == s[off + i % perPage];
    }
    var pages := NumPages(|s|, perPage);
    assert n <= pages by {
      if n > pages {
        LemmaMulMono(pages, n - 1, perPage);
      }
    }
  }

  /** The position of a listed object. */
  function IndexOf<T(==)>(s: seq<T>, x: T): (i: nat)
    requires x in s
    ensures i < |s| && s[i] == x
  {
    if s[0] == x then 0 else 1 + IndexOf(s[1..], x)
  }

  /** The page a listed object is on: it exists, and the object is on it. */
  lemma ListedItemOnItsPage<T>(s: seq<T>, perPage: nat, x: T, items: seq<T>)
    requires perPage > 0 && x in s
    ensures 1 <= IndexOf(s, x) / perPage + 1 <= NumPages(|s|, perPage)
    ensures IsPage(s, IndexOf(s, x) / perPage + 1, perPage, items) ==> x in items
  {
    var i := IndexOf(s, x);
    EveryItemOnItsPage(s, perPage, i, items);
  }

  lemma LemmaMulMono(a: nat, b: nat, c: nat)
    requires a <= b
    ensures a * c <= b * c
  {
  }
}
