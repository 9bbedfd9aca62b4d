/** Allocation from the free lists of a page section (kernel/mm/page_alloc.c), under the section's lock. */
module PageAlloc {
  import opened Common
  import opened PageBlocks

  ghost predicate MinOk(lists: seq<seq<nat>>, min: nat) {
    forall o | 0 <= o < |lists| && lists[o] != [] :: min <= o
  }

  ghost predicate MaxOk(lists: seq<seq<nat>>, max: nat) {
    forall o | 0 <= o < |lists| && lists[o] != [] :: o < max
  }

  class Section {
    const orders: nat  // MAX_ORDER
    var pages: seq<Page>
    var lists: seq<seq<nat>>  // freelist_list[].page_list
    var counts: seq<nat>      // freelist_list[].count
    var total: nat            // total_free
    var minOrder: nat
    var maxOrder: nat

    /** A section without free pages. */
    constructor (maxOrders: nat, n: nat)
      ensures Valid() && orders == maxOrders && |pages| == n && maxOrder == 0 && forall o | 0 <= o < orders :: lists[o] == []
    {
      orders := maxOrders;
      pages := seq(n, i => Page(InUse, 0, 0));
      lists := seq(maxOrders, i => []);
      counts := seq(maxOrders, i => 0);
      total, minOrder, maxOrder := 0, 0, 0;
      new;
      NoBlocks(pages, lists);
    }

    /** The lists, their counts and the marks on the pages agree. */
    ghost predicate Sound()
      reads this
    {
      && Blocks(pages, lists) && |lists| == |counts| == orders
      && forall o | 0 <= o < orders :: counts[o] == |lists[o]|
    }

    /** What holds between operations. */
    ghost predicate Valid()
      reads this
    {
      Sound() && total == Total(lists) && MinOk(lists, minOrder) && MaxOk(lists, maxOrder) && maxOrder <= orders
    }

    /** list_add, the marks of the head and the head links of the tails: the part common to
        add_to_freelist_order and add_to_freelist_order_from_higher. */
    method AddHead(o: nat, page: nat)
      requires o < orders && |lists| == |counts| == orders && page + Pow2(o) <= |pages|
      modifies this`pages, this`lists, this`counts
      ensures lists == old(lists)[o := [page] + old(lists)[o]] && counts == old(counts)[o := old(counts)[o] + 1]
      ensures Elsewhere(old(pages), pages, page, page + Pow2(o))
      ensures pages[page].state == FreeHead && pages[page].order == o
      ensures forall i | page < i < page + Pow2(o) :: pages[i] == old(pages)[i].(head := page)
    {
      pages := pages[page := pages[page].(state := FreeHead, order := o)];
      lists := lists[o := [page] + lists[o]];
      var end := page + Pow2(o);
      var iter := page + 1;
      while iter != end
        invariant page + 1 <= iter <= end && |pages| == |old(pages)|
        invariant pages[page].state == FreeHead && pages[page].order == o
        invariant forall i | page < i < iter :: pages[i] == old(pages)[i].(head := page)
        invariant forall i | 0 <= i < |pages| && !(page <= i < iter) :: pages[i] == old(pages)[i]
        decreases end - iter
        modifies this`pages
      {
        pages := pages[iter := pages[iter].(head := page)];
        iter := iter + 1;
      }
      counts := counts[o := counts[o] + 1];
    }

    /** add_to_freelist_order_from_higher: the tails are marked as tails already. */
    method AddFromHigher(o: nat, page: nat)
      requires Sound() && o < orders && page + Pow2(o) <= |pages| && Vacant(lists, page, page + Pow2(o))
      requires forall i | page < i < page + Pow2(o) :: pages[i].state == FreeTail
      modifies this`pages, this`lists, this`counts
      ensures Sound() && lists == old(lists)[o := [page] + old(lists)[o]]
      ensures Elsewhere(old(pages), pages, page, page + Pow2(o))
      ensures forall i: nat :: Free(lists, i) <==> old(Free(lists, i)) || Inside(o, page, i)
    {
      hide Blocks, Free, Vacant, Pow2;
      AddHead(o, page);
      AddBlock(old(pages), pages, old(lists), o, page);
    }

    /** add_to_freelist_order. */
    method AddToFreelist(o: nat, page: nat)
      requires Sound() && o < orders && page + Pow2(o) <= |pages| && Vacant(lists, page, page + Pow2(o))
      modifies this`pages, this`lists, this`counts, this`total
      ensures Sound() && lists == old(lists)[o := [page] + old(lists)[o]] && total == old(total) + Pow2(o)
      ensures Elsewhere(old(pages), pages, page, page + Pow2(o))
      ensures forall i: nat :: Free(lists, i) <==> old(Free(lists, i)) || Inside(o, page, i)
    {
      hide Blocks, Free, Vacant, Pow2;
      ghost var pages0 := pages;
      AddHead(o, page);
      var end := page + Pow2(o);
      var iter := page + 1;
      ghost var was := pages;
      while iter != end
        invariant page + 1 <= iter <= end && Elsewhere(was, pages, page + 1, end)
        invariant forall i | page < i < end :: pages[i].head == page && (i < iter ==> pages[i].state == FreeTail)
        decreases end - iter
        modifies this`pages
      {
        pages := pages[iter := pages[iter].(state := FreeTail)];
        iter := iter + 1;
      }
      total := total + Pow2(o);
      AddBlock(pages0, pages, old(lists), o, page);
    }

    /** take_off_freelist_to_add_later, for the block at position `k` of its list. */
    method TakeOff(o: nat, k: nat) returns (page: nat)
      requires Sound() && o < orders && k < |lists[o]| && MinOk(lists, minOrder)
      requires total == 0 ==> Total(lists) == Pow2(o)
      modifies this`lists, this`counts, this`minOrder, this`maxOrder
      ensures Sound() && lists == old(lists)[o := old(lists)[o][..k] + old(lists)[o][k + 1..]] && page == old(lists)[o][k]
      ensures MinOk(lists, minOrder) && (old(maxOrder) <= orders ==> maxOrder <= orders)
      ensures old(MaxOk(lists, maxOrder)) ==> MaxOk(lists, maxOrder) && (total > 0 ==> maxOrder == old(maxOrder))
      ensures Marked(pages, o, page) && Vacant(lists, page, page + Pow2(o))
      ensures forall i: nat :: Free(lists, i) <==> old(Free(lists, i)) && !Inside(o, page, i)
      ensures forall i: nat | Inside(o, page, i) :: old(Free(lists, i))
    {
      hide Blocks, Free, Vacant, Pow2, Marked;
      page := lists[o][k];
      RemoveBlock(pages, lists, o, k);
      lists := lists[o := lists[o][..k] + lists[o][k + 1..]];
      counts := counts[o := counts[o] - 1];
      TotalPlus(old(lists), o, lists[o]);
      if total == 0 {
        NothingLeft(lists);
        minOrder, maxOrder := 0, 0;
      }
      if counts[o] == 0 {
        if minOrder == o {
          var iter := o;
          while iter != orders && counts[iter] == 0
            invariant o <= iter <= orders && forall i | o <= i < iter :: counts[i] == 0
            decreases orders - iter
          {
            iter := iter + 1;
          }
          minOrder := iter;
        }
        if maxOrder == o {
          var iter := o;
          while iter != 0 && counts[iter - 1] == 0
            invariant 0 <= iter <= o && forall i | iter <= i < o :: counts[i] == 0
          {
            iter := iter - 1;
          }
          maxOrder := iter;
        }
      }
    }

    /** try_alloc_pages_from_zone, in a section whose lock it got: fails exactly when the section has no
        block of the order or above; else the pages returned were free, and they alone are not any more. */
    method AllocPages(order: nat) returns (page: Option<nat>)
      requires Valid() && order < orders
      modifies this
      ensures Valid()
      ensures page.None? <==> forall o | order <= o < orders :: old(lists)[o] == []
      ensures page.None? ==> pages == old(pages) && lists == old(lists) && counts == old(counts) && total == old(total)
      ensures page.Some? ==>
                var p := page.value;
                && p + Pow2(order) <= |pages| && total == old(total) - Pow2(order)
                && (forall i: nat | Inside(order, p, i) :: old(Free(lists, i)))
                && (forall i: nat :: Free(lists, i) <==> old(Free(lists, i)) && !Inside(order, p, i))
                && forall i | p < i < p + Pow2(order) :: pages[i].state == FreeTail
      ensures page.Some? ==> exists o | order <= o < orders :: FirstOf(old(lists), order, o, page.value)
    {
      hide Blocks, Free, Vacant, Pow2, Total;
      var a := if order < minOrder then minOrder else order;
      while a < maxOrder && counts[a] == 0
        invariant order <= a && forall o | order <= o < a && o < orders :: lists[o] == []
        invariant a < maxOrder ==> a < orders
      {
        a := a + 1;
      }
      if a >= maxOrder {
        return None;
      }
      assert FirstOf(lists, order, a, lists[a][0]);
      Shrink(lists, a, order);
      total := total - Pow2(order);
      TotalPlus(lists, a, lists[a][1..]);
      assert lists[a][..0] + lists[a][0 + 1..] == lists[a][1..];
      var p := TakeOff(a, 0);
      Split(p, a, order);
      page := Some(p);
    }

    /** The buddies of the block taken go to the lists below. */
    method Split(page: nat, from: nat, order: nat)
      requires Sound() && order <= from < orders && page + Pow2(from) <= |pages| && Vacant(lists, page, page + Pow2(from))
      requires forall i | page < i < page + Pow2(from) :: pages[i].state == FreeTail
      requires MinOk(lists, minOrder) && MaxOk(lists, maxOrder) && maxOrder <= orders && (order < from ==> from < maxOrder)
      modifies this`pages, this`lists, this`counts, this`minOrder, this`maxOrder
      ensures Sound() && MinOk(lists, minOrder) && MaxOk(lists, maxOrder) && maxOrder <= orders && |pages| == |old(pages)|
      ensures Total(lists) + Pow2(order) == Total(old(lists)) + Pow2(from) && Pow2(order) <= Pow2(from)
      ensures forall i: nat :: Free(lists, i) <==> old(Free(lists, i)) || (Inside(from, page, i) && !Inside(order, page, i))
      ensures forall i | page < i < page + Pow2(order) :: pages[i].state == FreeTail
    {
      hide Blocks, Free, Vacant, Total;
      var a := from;
      Pow2Grows(order, from);
      while a > order
        invariant order <= a <= from && Sound() && |pages| == |old(pages)| && Pow2(order) <= Pow2(a) <= Pow2(from)
        invariant forall i | page < i < page + Pow2(a) :: pages[i].state == FreeTail
        invariant forall i: nat :: Free(lists, i) <==> old(Free(lists, i)) || (Inside(from, page, i) && !Inside(a, page, i))
        invariant Total(lists) + Pow2(a) == Total(old(lists)) + Pow2(from)
        invariant forall o | 0 <= o < orders && lists[o] != [] :: (minOrder <= o || order <= o) && o < maxOrder
        modifies this`pages, this`lists, this`counts
      {
        a := a - 1;
        Pow2Grows(order, a);
        var buddy := page + Pow2(a);
        StillVacant(old(lists), lists, from, page, a + 1, buddy, a);
        TotalPlus(lists, a, [buddy] + lists[a]);
        AddFromHigher(a, buddy);
      }
      if minOrder > order {
        minOrder := order;
      }
      if maxOrder <= order {
        maxOrder := order + 1;
      }
    }

    /** setup_pages_off_freelist.  For pages to be used its loop sets the state of the first page again
        and again: all pages are marked in use exactly when there is only one. */
    method SetupPages(page: nat, order: nat, state: State)
      requires page + Pow2(order) <= |pages| && state in {InUse, SlabHead, Table, LargeHead}
      requires forall i | page < i < page + Pow2(order) :: pages[i].state == FreeTail
      modifies this`pages
      ensures Elsewhere(old(pages), pages, page, page + Pow2(order)) && pages[page].state == state
      ensures state == SlabHead ==> forall i | page < i < page + Pow2(order) :: pages[i].state == SlabTail && pages[i].head == page
      ensures state == LargeHead ==> forall i | page < i < page + Pow2(order) :: pages[i].state == LargeTail && pages[i].head == page
      ensures state == InUse ==> ((forall i | page <= i < page + Pow2(order) :: pages[i].state == InUse) <==> order == 0)
    {
      Pow2Grows(0, order);
      var end := page + Pow2(order);
      if state == InUse {
        var iter := page;
        while iter != end
          invariant page <= iter <= end && |pages| == |old(pages)|
          invariant pages == if iter == page then old(pages) else old(pages)[page := old(pages)[page].(state := InUse)]
          decreases end - iter
        {
          pages := pages[page := pages[page].(state := InUse)];
          iter := iter + 1;
        }
        assert order > 0 ==> pages[page + 1].state == FreeTail;
        return;
      }
      pages := pages[page := pages[page].(state := state)];
      if state == Table {
        return;
      }
      var tail := if state == SlabHead then SlabTail else LargeTail;
      var iter := page + 1;
      while iter != end
        invariant page + 1 <= iter <= end && |pages| == |old(pages)| && pages[page].state == state
        invariant forall i | page < i < iter :: pages[i].state == tail && pages[i].head == page
        invariant forall i | 0 <= i < |pages| && !(page <= i < iter) :: pages[i] == old(pages)[i]
        decreases end - iter
      {
        pages := pages[iter := pages[iter].(state := tail, head := page)];
        iter := iter + 1;
      }
    }

    /** free_range_of_pages: the range is cut into blocks that cover it exactly.  Only the last, lowest
        order is entered into max_order, which so bounds the orders in use exactly when it did reach
        above the highest order of the range or the range is a multiple of that order's block. */
    method FreeRange(page: nat, amount: nat)
      requires Sound() && 0 < amount && 0 < orders && page + amount <= |pages| && Vacant(lists, page, page + amount)
      requires MinOk(lists, minOrder) && maxOrder <= orders
      modifies this
      ensures Sound() && MinOk(lists, minOrder) && maxOrder <= orders
      ensures Total(lists) == Total(old(lists)) + amount && total == old(total) + amount
      ensures Elsewhere(old(pages), pages, page, page + amount)
      ensures forall i: nat :: Free(lists, i) <==> old(Free(lists, i)) || page <= i < page + amount
      ensures old(MaxOk(lists, maxOrder)) ==>
                var top := TopOrder(amount, orders);
                MaxOk(lists, maxOrder) <==> old(maxOrder) > top || amount % Pow2(top) == 0
    {
      hide Blocks, Free, Vacant, Pow2, Total, Marked, Elsewhere;
      var order: int := orders - 1;
      var avail := amount;
      while order >= 0 && avail < Pow2(order)
        invariant -1 <= order < orders && (order < orders - 1 ==> amount < Pow2(order + 1))
      {
        order := order - 1;
      }
      SmallestFits(amount, order);
      ghost var top := TopOrder(amount, orders);
      TopUnique(amount, orders, order);
      RemIsMod(amount, Pow2(top));
      ElsewhereSelf(pages, page);
      var p := page;
      while true
        invariant 0 <= order <= top && 0 < avail <= amount && Pow2(order) <= avail && p == page + (amount - avail)
        invariant |pages| == |old(pages)| && Sound() && Vacant(lists, p, p + avail) && Elsewhere(old(pages), pages, page, p)
        invariant Total(lists) == Total(old(lists)) + (amount - avail) && total == old(total) + (amount - avail)
        invariant forall i: nat :: Free(lists, i) <==> old(Free(lists, i)) || page <= i < p
        invariant forall o | 0 <= o < orders && lists[o] != [] :: old(lists)[o] != [] || order <= o <= top
        invariant forall o | 0 <= o < orders && old(lists)[o] != [] :: lists[o] != []
        invariant if avail == amount then order == top else lists[top] != []
        invariant if order == top then Rem(avail, Pow2(top)) == Rem(amount, Pow2(top)) else Rem(amount, Pow2(top)) != 0
        invariant minOrder == old(minOrder) && maxOrder == old(maxOrder)
        decreases avail
      {
        FirstPart(lists, p, Pow2(order), avail);
        TotalPlus(lists, order, [p] + lists[order]);
        ghost var before := pages;
        AddToFreelist(order, p);
        ElsewhereMore(old(pages), before, pages, page, p, p + Pow2(order));
        RestVacant(lists, old(lists), order, page, p, avail);
        ghost var last := avail;
        avail := avail - Pow2(order);
        if avail == 0 {
          assert last == Pow2(order) && Rem(last, Pow2(order)) == 0;
          assert order == top <==> Rem(amount, Pow2(top)) == 0;
          MaxAfter(old(lists), lists, old(maxOrder), order, top);
          if minOrder > order {
            minOrder := order;
          }
          if maxOrder <= order {
            maxOrder := order + 1;
          }
          break;
        }
        p := p + Pow2(order);
        order := NextOrder(avail, order, top, amount);
      }
    }

    /** get_large_from_freelist_order, with addresses counted in pages: `first` is the number of the
        section's first page.  The large page is aligned and was free; it alone leaves the free set. */
    method GetLarge(f: nat, l: nat, first: nat) returns (page: Option<nat>)
      requires Sound() && total == Total(lists) && MinOk(lists, minOrder) && maxOrder <= orders && l <= f < orders
      modifies this
      ensures Sound() && total == Total(lists) && MinOk(lists, minOrder) && maxOrder <= orders
      ensures page.None? <==> if l == f then forall h | h in old(lists)[f] :: (first + h) % Pow2(l) != 0 else old(lists)[f] == []
      ensures page.None? ==> pages == old(pages) && lists == old(lists) && total == old(total)
      ensures page.Some? ==>
                var p := page.value;
                && (first + p) % Pow2(l) == 0 && p + Pow2(l) <= |pages| && total == old(total) - Pow2(l)
                && (forall i: nat | Inside(l, p, i) :: old(Free(lists, i)))
                && (forall i: nat :: Free(lists, i) <==> old(Free(lists, i)) && !Inside(l, p, i))
                && pages[p].state == LargeHead && forall i | p < i < p + Pow2(l) :: pages[i].state == LargeTail && pages[i].head == p
      ensures page.Some? ==> if l == f then exists k | 0 <= k < |old(lists)[f]| :: FirstAligned(old(lists)[f], first, l, k, page.value)
                             else old(lists)[f] != [] && old(lists)[f][0] <= page.value < old(lists)[f][0] + Pow2(l)
    {
      hide Blocks, Free, Vacant, Pow2, Total, Marked, Elsewhere, Inside;
      if counts[f] == 0 {
        return None;
      }
      var k := 0;
      if l != f {
        var p := Carve(f, l, first);
        return Some(p);
      }
      while (first + lists[f][k]) % Pow2(l) != 0
        invariant 0 <= k < |lists[f]| && forall j | 0 <= j < k :: (first + lists[f][j]) % Pow2(l) != 0
        decreases |lists[f]| - k
      {
        k := k + 1;
        if k == |lists[f]| {
          return None;
        }
      }
      assert lists[f][k] in lists[f];
      assert FirstAligned(lists[f], first, l, k, lists[f][k]);
      var p := TakeWhole(f, k);
      return Some(p);
    }

    /** A block of the order of the large page itself. */
    method TakeWhole(f: nat, k: nat) returns (p: nat)
      requires Sound() && total == Total(lists) && MinOk(lists, minOrder) && maxOrder <= orders && f < orders && k < |lists[f]|
      modifies this
      ensures Sound() && total == Total(lists) && MinOk(lists, minOrder) && maxOrder <= orders
      ensures p == old(lists)[f][k] && p + Pow2(f) <= |pages| && total == old(total) - Pow2(f)
      ensures forall i: nat | Inside(f, p, i) :: old(Free(lists, i))
      ensures forall i: nat :: Free(lists, i) <==> old(Free(lists, i)) && !Inside(f, p, i)
      ensures pages[p].state == LargeHead && forall i | p < i < p + Pow2(f) :: pages[i].state == LargeTail && pages[i].head == p
    {
      hide Blocks, Free, Vacant, Pow2, Total;
      Shrink(lists, f, f);
      TotalPlus(lists, f, lists[f][..k] + lists[f][k + 1..]);
      total := total - Pow2(f);
      p := TakeOff(f, k);
      SetupPages(p, f, LargeHead);
      BlocksKept(old(pages), pages, lists, p, p + Pow2(f));
    }

    /** The pages behind the large page at `p`. */
    method FreeBehind(p: nat, l: nat, count: nat)
      requires Sound() && MinOk(lists, minOrder) && maxOrder <= orders && l < orders
      requires p + Pow2(l) + count <= |pages| && Vacant(lists, p + Pow2(l), p + Pow2(l) + count)
      modifies this
      ensures Sound() && MinOk(lists, minOrder) && maxOrder <= orders && |pages| == |old(pages)|
      ensures Total(lists) == Total(old(lists)) + count && total == old(total) + count
      ensures forall i: nat :: Free(lists, i) <==> old(Free(lists, i)) || p + Pow2(l) <= i < p + Pow2(l) + count
      ensures pages[p] == old(pages)[p] && forall i | p < i < p + Pow2(l) :: pages[i] == old(pages)[i]
    {
      hide Blocks, Free, Vacant, Pow2, Total, Elsewhere;
      var begin := p + Pow2(l);
      if count != 0 {
        FreeRange(begin, count);
        LargeKept(old(pages), pages, p, l, begin, count);
      }
    }

    /** The aligned large page inside a larger block; what is before and behind it goes back. */
    method Carve(f: nat, l: nat, first: nat) returns (p: nat)
      requires Sound() && total == Total(lists) && MinOk(lists, minOrder) && maxOrder <= orders && l < f < orders && lists[f] != []
      modifies this
      ensures Sound() && total == Total(lists) && MinOk(lists, minOrder) && maxOrder <= orders
      ensures old(lists)[f][0] <= p < old(lists)[f][0] + Pow2(l)
      ensures (first + p) % Pow2(l) == 0 && p + Pow2(l) <= |pages| && total == old(total) - Pow2(l)
      ensures forall i: nat | Inside(l, p, i) :: old(Free(lists, i))
      ensures forall i: nat :: Free(lists, i) <==> old(Free(lists, i)) && !Inside(l, p, i)
      ensures pages[p].state == LargeHead && forall i | p < i < p + Pow2(l) :: pages[i].state == LargeTail && pages[i].head == p
    {
      hide Blocks, Free, Vacant, Pow2, Total, Elsewhere;
      Shrink(lists, f, f);
      assert lists[f][..0] + lists[f][0 + 1..] == lists[f][1..];
      TotalPlus(lists, f, lists[f][1..]);
      total := total - Pow2(f);
      var head := TakeOff(f, 0);
      ghost var taken := lists;
      p := head;
      var off := Misaligned(first + head, Pow2(l));
      AlignedFits(f, l, off);
      if off != 0 {
        p := head + off;
        FirstPart(lists, head, off, Pow2(f));
        FreeRange(head, off);
      } else {
        ElsewhereSelf(pages, head);
      }
      ghost var lead := lists;
      LeadVacant(taken, lead, head, off, l, f);
      TailsKept(old(pages), pages, head, off, l, f);
      ghost var before := pages;
      SetupPages(p, l, LargeHead);
      BlocksKept(before, pages, lists, p, p + Pow2(l));
      FreeBehind(p, l, head + Pow2(f) - (p + Pow2(l)));
      CarvedSet(old(lists), taken, lists, head, off, l, f);
    }
  }

  lemma NothingLeft(lists: seq<seq<nat>>)
    requires Total(lists) == 0
    ensures forall o | 0 <= o < |lists| :: lists[o] == []
  {
    forall o | 0 <= o < |lists|
      ensures lists[o] == []
    {
      if lists[o] != [] {
        TotalAtLeast(lists, o);
      }
    }
  }

  /** Taking `2^order` pages out of a block of order `a`. */
  lemma Shrink(lists: seq<seq<nat>>, a: nat, order: nat)
    requires a < |lists| && lists[a] != [] && order <= a
    ensures Total(lists) >= Pow2(a) >= Pow2(order)
    ensures Total(lists) == Pow2(order) ==> a == order
  {
    hide Total, Times;
    TotalAtLeast(lists, a);
    Pow2Grows(order, a);
  }

  /** The second half of what is left of a block is vacant. */
  lemma StillVacant(was: seq<seq<nat>>, lists: seq<seq<nat>>, from: nat, page: nat, a: nat, buddy: nat, half: nat)
    requires a == half + 1 && buddy == page + Pow2(half) && Pow2(a) <= Pow2(from)
    requires Vacant(was, page, page + Pow2(from))
    requires forall i: nat :: Free(lists, i) <==> Free(was, i) || (Inside(from, page, i) && !Inside(a, page, i))
    ensures Vacant(lists, buddy, buddy + Pow2(half)) && buddy + Pow2(half) == page + Pow2(a)
    ensures forall i: nat :: Inside(a, page, i) <==> Inside(half, page, i) || Inside(half, buddy, i)
    ensures forall i: nat | Inside(half, buddy, i) :: Inside(from, page, i) && !Inside(half, page, i)
  {
    hide Free;
  }

  /** The highest order with a block no larger than `amount`. */
  function TopOrder(amount: nat, orders: nat): (r: nat)
    requires 0 < amount && 0 < orders
    ensures r < orders && Pow2(r) <= amount && (r == orders - 1 || amount < Pow2(r + 1))
    decreases orders
  {
    if orders == 1 || Pow2(orders - 1) <= amount then orders - 1 else TopOrder(amount, orders - 1)
  }

  lemma TopUnique(amount: nat, orders: nat, r: nat)
    requires 0 < amount && r < orders && Pow2(r) <= amount && (r == orders - 1 || amount < Pow2(r + 1))
    ensures r == TopOrder(amount, orders)
  {
    hide Pow2;
    var t := TopOrder(amount, orders);
    if r < t {
      Pow2Grows(r + 1, t);
    } else if t < r {
      Pow2Grows(t + 1, r);
    }
  }

  lemma SmallestFits(amount: nat, order: int)
    requires 0 < amount && -1 <= order && (order == -1 ==> amount < Pow2(0))
    ensures order >= 0
  {
  }

  lemma FirstPart(lists: seq<seq<nat>>, p: nat, n: nat, avail: nat)
    requires Vacant(lists, p, p + avail) && n <= avail
    ensures Vacant(lists, p, p + n)
  {
  }

  lemma RestVacant(lists: seq<seq<nat>>, was: seq<seq<nat>>, o: nat, page: nat, p: nat, avail: nat)
    requires page <= p && Pow2(o) <= avail && Vacant(was, page, p + avail)
    requires forall i: nat :: Free(lists, i) <==> Free(was, i) || page <= i < p || Inside(o, p, i)
    ensures Vacant(lists, p + Pow2(o), p + avail)
  {
    hide Free, Pow2;
  }

  lemma ElsewhereSelf(pages: seq<Page>, lo: nat)
    ensures Elsewhere(pages, pages, lo, lo)
  {
  }

  lemma ElsewhereMore(a: seq<Page>, b: seq<Page>, c: seq<Page>, lo: nat, mid: nat, hi: nat)
    requires lo <= mid <= hi && Elsewhere(a, b, lo, mid) && Elsewhere(b, c, mid, hi)
    ensures Elsewhere(a, c, lo, hi)
  {
  }

  /** max_order after blocks of the orders from `last` up to `top` were added and only `last` entered. */
  lemma MaxAfter(was: seq<seq<nat>>, lists: seq<seq<nat>>, max: nat, last: nat, top: nat)
    requires |was| == |lists| && last <= top < |lists| && lists[top] != []
    requires forall o | 0 <= o < |lists| && lists[o] != [] :: was[o] != [] || last <= o <= top
    requires forall o | 0 <= o < |lists| && was[o] != [] :: lists[o] != []
    ensures MaxOk(was, max) ==> (MaxOk(lists, if max <= last then last + 1 else max) <==> max > top || last == top)
  {
  }

  /** The remainder by repeated subtraction. */
  function Rem(x: nat, n: nat): (r: nat)
    requires n > 0
    ensures r < n
  {
    if x < n then x else Rem(x - n, n)
  }

  lemma {:induction false} RemIsMod(x: nat, n: nat)
    requires n > 0
    ensures Rem(x, n) == x % n
  {
    if x < n {
      ModIs(x, n, 0, x);
    } else {
      RemIsMod(x - n, n);
      var q, r := (x - n) / n, (x - n) % n;
      assert x - n == q * n + r;
      assert (q + 1) * n == q * n + n;
      ModIs(x, n, q + 1, r);
    }
  }

  /** The inner loop of free_range_of_pages: down to an order that fits what is left. */
  method NextOrder(avail: nat, order: nat, ghost top: nat, ghost amount: nat) returns (r: nat)
    requires 0 < avail && order <= top
    requires if order == top then Rem(avail, Pow2(top)) == Rem(amount, Pow2(top)) else Rem(amount, Pow2(top)) != 0
    ensures r <= order && Pow2(r) <= avail
    ensures if r == top then Rem(avail, Pow2(top)) == Rem(amount, Pow2(top)) else Rem(amount, Pow2(top)) != 0
  {
    r := order;
    while avail < Pow2(r)
      invariant r <= order
      invariant if r == top then Rem(avail, Pow2(top)) == Rem(amount, Pow2(top)) else Rem(amount, Pow2(top)) != 0
    {
      r := r - 1;
    }
  }

  lemma BlocksKept(pages: seq<Page>, pages': seq<Page>, lists: seq<seq<nat>>, lo: nat, hi: nat)
    requires Blocks(pages, lists) && Vacant(lists, lo, hi) && Elsewhere(pages, pages', lo, hi)
    ensures Blocks(pages', lists) && |pages'| == |pages|
  {
    hide Vacant, Marked, NoRepeat;
    forall o, h | Has(lists, o, h)
      ensures Marked(pages', o, h)
    {
      KeptMarked(pages, pages', lists, o, h, lo, hi);
    }
  }

  /** How far align_up moves an address: to the next multiple, by less than the alignment. */
  function Misaligned(x: nat, n: nat): (off: nat)
    requires n > 0
    ensures off < n && (x + off) % n == 0
  {
    if x % n == 0 then 0
    else
      var q := x / n;
      assert x == q * n + x % n;
      assert (q + 1) * n == q * n + n;
      ModIs((q + 1) * n, n, q + 1, 0);
      n - x % n
  }

  /** From any head address, the aligned large page lies inside a block of a higher order. */
  lemma AlignedFits(f: nat, l: nat, off: nat)
    requires l < f && off < Pow2(l)
    ensures off + Pow2(l) <= Pow2(f)
  {
    Pow2Grows(l, f);
  }

  lemma LeadVacant(taken: seq<seq<nat>>, lead: seq<seq<nat>>, head: nat, off: nat, l: nat, f: nat)
    requires Vacant(taken, head, head + Pow2(f)) && off + Pow2(l) <= Pow2(f)
    requires if off == 0 then lead == taken else forall i: nat :: Free(lead, i) <==> Free(taken, i) || head <= i < head + off
    ensures Vacant(lead, head + off, head + off + Pow2(l)) && Vacant(lead, head + off + Pow2(l), head + Pow2(f))
  {
    hide Free, Pow2;
  }

  lemma TailsKept(was: seq<Page>, pages: seq<Page>, head: nat, off: nat, l: nat, f: nat)
    requires Marked(was, f, head) && Elsewhere(was, pages, head, head + off) && off + Pow2(l) <= Pow2(f)
    ensures |pages| == |was| && head + Pow2(f) <= |pages|
    ensures forall i | head + off < i < head + off + Pow2(l) :: pages[i].state == FreeTail
  {
    hide Pow2;
  }

  lemma LargeKept(was: seq<Page>, pages: seq<Page>, p: nat, l: nat, begin: nat, count: nat)
    requires Elsewhere(was, pages, begin, begin + count) && begin == p + Pow2(l) <= |was|
    ensures |pages| == |was| && pages[p] == was[p] && forall i | p < i < p + Pow2(l) :: pages[i] == was[i]
  {
    hide Pow2;
  }

  lemma CarvedSet(was: seq<seq<nat>>, taken: seq<seq<nat>>, lists: seq<seq<nat>>, head: nat, off: nat, l: nat, f: nat)
    requires off + Pow2(l) <= Pow2(f)
    requires forall i: nat :: Free(taken, i) <==> Free(was, i) && !Inside(f, head, i)
    requires forall i: nat | Inside(f, head, i) :: Free(was, i)
    requires forall i: nat :: Free(lists, i) <==>
               Free(taken, i) || head <= i < head + off || head + off + Pow2(l) <= i < head + Pow2(f)
    ensures forall i: nat :: Free(lists, i) <==> Free(was, i) && !Inside(l, head + off, i)
    ensures forall i: nat | Inside(l, head + off, i) :: Free(was, i)
  {
    hide Free, Pow2;
    forall i: nat
      ensures Free(lists, i) <==> Free(was, i) && !Inside(l, head + off, i)
    {
      assert Inside(f, head, i) ==> Free(was, i);
    }
    forall i: nat | Inside(l, head + off, i)
      ensures Free(was, i)
    {
      assert Inside(f, head, i);
    }
  }

  lemma {:induction false} NoBlocks(pages: seq<Page>, lists: seq<seq<nat>>)
    requires forall o | 0 <= o < |lists| :: lists[o] == []
    ensures Blocks(pages, lists) && Total(lists) == 0
    decreases |lists|
  {
    if lists != [] {
      NoBlocks(pages, lists[..|lists| - 1]);
    }
  }

  /** Three pages freed into a section without free pages: a block of order 1 is listed, max_order is 1. */
  method ThreePages() returns (s: Section)
    ensures s.Sound() && !MaxOk(s.lists, s.maxOrder)
  {
    hide Blocks, Total;
    s := new Section(2, 3);
    TwoOrders();
    s.FreeRange(0, 3);
  }

  lemma TwoOrders()
    ensures Pow2(1) == 2 && TopOrder(3, 2) == 1
  {
  }

  /** The head of the first block of the lowest order, from the one asked for up, that has any. */
  ghost predicate FirstOf(lists: seq<seq<nat>>, order: nat, o: nat, page: nat) {
    order <= o < |lists| && lists[o] != [] && lists[o][0] == page && forall x | order <= x < o :: lists[x] == []
  }

  /** The first of these blocks that is aligned. */
  ghost predicate FirstAligned(list: seq<nat>, first: nat, l: nat, k: nat, page: nat) {
    k < |list| && list[k] == page && (first + page) % Pow2(l) == 0 && forall j | 0 <= j < k :: (first + list[j]) % Pow2(l) != 0
  }
}
