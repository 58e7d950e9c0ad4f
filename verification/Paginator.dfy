// The loader's paginator over an offset/limit query.
module Paginator {
  import opened Arithmetic
  import opened Wrappers

  function Min(a: nat, b: nat): nat { if a <= b then a else b }

  // OFFSET page * size LIMIT size; a page size of zero is no limit at all.
  function Page<T>(items: seq<T>, page: nat, size: nat): seq<T> {
    if size == 0 then items
    else
      MulMonotone(0, page, size);
      var start := Min(page * size, |items|);
      items[start..Min(start + size, |items|)]
  }

  class EntityLoaderPaginator<T> {
    const items: seq<T>
    const pageSize: nat
    var page: nat

    constructor (items: seq<T>, pageSize: nat)
      ensures this.items == items && this.pageSize == pageSize && page == 0
    {
      this.items := items;
      this.pageSize := pageSize;
      page := 0;
    }

    method FetchAndNext() returns (r: Option<seq<T>>)
      modifies this
      ensures page == old(page) + 1
      ensures var fetched := Page(items, old(page), pageSize);
              r == if fetched != [] then Some(fetched) else None
    {
      var vec := Page(items, page, pageSize);
      page := page + 1;
      r := if vec != [] then Some(vec) else None;
    }

    // Dividing by a page size of zero panics.
    method ComputePagesNumber(items: nat) returns (pages: Option<nat>)
      ensures pages.None? <==> pageSize == 0
      ensures pages.Some? ==> forall k: nat :: pages.value <= k <==> items <= k * pageSize
    {
      if pageSize == 0 { return None; }
      pages := Some(NumPages(items, pageSize));
      forall k: nat ensures NumPages(items, pageSize) <= k <==> items <= k * pageSize {
        NumPagesIsCeiling(items, pageSize, k);
      }
    }

    // The caller's loop, and the offsets it asks for: they fit 64 bits whenever the items and a page do.
    method FetchAll() returns (all: seq<T>, fetches: nat)
      requires pageSize > 0 && page == 0
      modifies this
      ensures all == items && fetches == NumPages(|items|, pageSize) + 1
      ensures forall p :: 0 <= p < fetches ==> p * pageSize <= |items| + pageSize - 1
    {
      forall p | 0 <= p < NumPages(|items|, pageSize) + 1 ensures p * pageSize <= |items| + pageSize - 1 {
        OffsetBound(|items|, pageSize, p);
      }
      all, fetches := [], 0;
      var more := true;
      while more
        invariant more ==> page == fetches <= NumPages(|items|, pageSize) && all == Pages(items, fetches, pageSize)
        invariant !more ==> fetches == NumPages(|items|, pageSize) + 1 && all == items
        decreases if more then NumPages(|items|, pageSize) + 1 - fetches else 0, more
      {
        NonemptyPages(items, page, pageSize);
        PagesCover(items, pageSize);
        var r := FetchAndNext();
        fetches := fetches + 1;
        match r {
          case Some(vec) => all := all + vec;
          case None => more := false;
        }
      }
    }
  }

  function NumPages(items: nat, size: nat): nat
    requires size > 0
  {
    items / size + if items % size > 0 then 1 else 0
  }

  // The first pages, one after the other.
  function Pages<T>(items: seq<T>, count: nat, size: nat): seq<T> {
    if count == 0 then [] else Pages(items, count - 1, size) + Page(items, count - 1, size)
  }

  // The least number of pages that hold all items, never more than there are items.
  lemma NumPagesIsCeiling(items: nat, size: nat, k: nat)
    requires size > 0
    ensures NumPages(items, size) <= k <==> items <= k * size
    ensures NumPages(items, size) <= items
  {
    var q, r := items / size, items % size;
    assert items == q * size + r;
    MulMonotone(1, size, q);
    MulDistributes(q, 1, size);
    if k <= q { MulMonotone(k, q, size); } else { MulMonotone(q + 1, k, size); }
    if q <= k { MulMonotone(q, k, size); }
  }

  // The largest offset the loop uses is that of the first empty page.
  lemma OffsetBound(items: nat, size: nat, page: nat)
    requires size > 0 && page <= NumPages(items, size)
    ensures page * size <= items + size - 1
  {
    if page > 0 {
      NumPagesIsCeiling(items, size, page - 1);
      MulDistributes(page - 1, 1, size);
    }
  }

  // With page size 0 the loop never ends: every page of a one-item list is that item.
  lemma EndlessPages(page: nat)
    ensures Page([7], page, 0) == [7] && Pages([7], page + 1, 0) == Pages([7], page, 0) + [7]
  {
  }

  lemma NonemptyPages<T>(items: seq<T>, page: nat, size: nat)
    ensures size > 0 ==> (Page(items, page, size) != [] <==> page < NumPages(|items|, size))
    // Without a page size every page is the whole list, so a loop until None only ends on an empty list.
    ensures size == 0 ==> Page(items, page, size) == items
  {
    if size > 0 {
      NumPagesIsCeiling(|items|, size, page);
      MulMonotone(0, page, size);
    }
  }

  lemma {:induction false} PagesArePrefix<T>(items: seq<T>, count: nat, size: nat)
    requires size > 0
    ensures count * size >= 0 && Pages(items, count, size) == items[..Min(count * size, |items|)]
  {
    MulMonotone(0, count, size);
    if count > 0 {
      PagesArePrefix(items, count - 1, size);
      MulDistributes(count - 1, 1, size);
      NextSlice(items, (count - 1) * size, size);
    }
  }

  lemma NextSlice<T>(items: seq<T>, start: nat, size: nat)
    ensures var from, to := Min(start, |items|), Min(start + size, |items|);
            items[..from] + items[from..Min(from + size, |items|)] == items[..to]
  {
  }

  // Every item is on exactly one page, in order.
  lemma PagesCover<T>(items: seq<T>, size: nat)
    requires size > 0
    ensures Pages(items, NumPages(|items|, size), size) == items
  {
    var n := NumPages(|items|, size);
    PagesArePrefix(items, n, size);
    NumPagesIsCeiling(|items|, size, n);
  }
}
