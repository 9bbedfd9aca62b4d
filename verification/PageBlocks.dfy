/** The free blocks of a page section (kernel/mm/page_alloc.c): per order a list of head pages, and
    for every page the metadata that says which block it belongs to. */
module PageBlocks {
  import opened Common

  datatype State = FreeHead | FreeTail | InUse | SlabHead | SlabTail | Table | LargeHead | LargeTail

  /** struct page: its state, the order of a head and the head of a tail. */
  datatype Page = Page(state: State, order: nat, head: nat)

  /** The pages of a block are marked as its head and its tails. */
  ghost predicate Marked(pages: seq<Page>, o: nat, h: nat) {
    && h + Pow2(o) <= |pages|
    && pages[h].state == FreeHead && pages[h].order == o
    && forall i | h < i < h + Pow2(o) :: pages[i].state == FreeTail && pages[i].head == h
  }

  predicate Has(lists: seq<seq<nat>>, o: nat, h: nat) {
    o < |lists| && h in lists[o]
  }

  predicate Inside(o: nat, h: nat, i: nat) {
    h <= i < h + Pow2(o)
  }

  ghost predicate Blocks(pages: seq<Page>, lists: seq<seq<nat>>) {
    && (forall o, h | Has(lists, o, h) :: Marked(pages, o, h))
    && forall o | 0 <= o < |lists| :: NoRepeat(lists[o])
  }

  /** A page is free when it lies in a listed block. */
  ghost predicate Free(lists: seq<seq<nat>>, i: nat) {
    exists o, h :: Has(lists, o, h) && Inside(o, h, i)
  }

  /** Free blocks never share a page. */
  lemma BlocksApart(pages: seq<Page>, lists: seq<seq<nat>>, o: nat, h: nat, o': nat, h': nat, i: nat)
    requires Blocks(pages, lists) && Has(lists, o, h) && Has(lists, o', h') && Inside(o, h, i) && Inside(o', h', i)
    ensures o == o' && h == h'
  {
    assert Marked(pages, o, h) && Marked(pages, o', h');
  }

  /** The pages of a block that is not listed yet. */
  ghost predicate Vacant(lists: seq<seq<nat>>, lo: nat, hi: nat) {
    forall i | lo <= i < hi :: !Free(lists, i)
  }

  ghost predicate Elsewhere(pages: seq<Page>, pages': seq<Page>, lo: nat, hi: nat) {
    |pages'| == |pages| && forall i | 0 <= i < |pages| && !(lo <= i < hi) :: pages'[i] == pages[i]
  }

  /** list_add of a block whose pages have been marked. */
  lemma AddBlock(pages: seq<Page>, pages': seq<Page>, lists: seq<seq<nat>>, o: nat, h: nat)
    requires Blocks(pages, lists) && o < |lists| && Vacant(lists, h, h + Pow2(o))
    requires Marked(pages', o, h) && Elsewhere(pages, pages', h, h + Pow2(o))
    ensures var lists' := lists[o := [h] + lists[o]];
            Blocks(pages', lists') && forall i: nat :: Free(lists', i) <==> Free(lists, i) || Inside(o, h, i)
  {
    var lists' := lists[o := [h] + lists[o]];
    assert !Has(lists, o, h) by {
      if Has(lists, o, h) {
        assert Inside(o, h, h);
        assert Free(lists, h);
      }
    }
    assert forall o', h' :: Has(lists', o', h') <==> Has(lists, o', h') || (o' == o && h' == h);
    forall o', h' | Has(lists, o', h')
      ensures Marked(pages', o', h')
    {
      KeptMarked(pages, pages', lists, o', h', h, h + Pow2(o));
    }
    FreeAdded(lists, lists', o, h);
  }

  lemma KeptMarked(pages: seq<Page>, pages': seq<Page>, lists: seq<seq<nat>>, o: nat, h: nat, lo: nat, hi: nat)
    requires Has(lists, o, h) && Marked(pages, o, h) && Vacant(lists, lo, hi) && Elsewhere(pages, pages', lo, hi)
    ensures Marked(pages', o, h)
  {
    forall i: nat | Inside(o, h, i)
      ensures pages'[i] == pages[i]
    {
      assert Free(lists, i);
    }
    assert Inside(o, h, h);
    assert forall i: nat | h < i < h + Pow2(o) :: Inside(o, h, i);
  }

  lemma FreeAdded(lists: seq<seq<nat>>, lists': seq<seq<nat>>, o: nat, h: nat)
    requires forall o', h' :: Has(lists', o', h') <==> Has(lists, o', h') || (o' == o && h' == h)
    ensures forall i: nat :: Free(lists', i) <==> Free(lists, i) || Inside(o, h, i)
  {
    forall i: nat
      ensures Free(lists', i) <==> Free(lists, i) || Inside(o, h, i)
    {
      if Free(lists', i) {
        var o', h' :| Has(lists', o', h') && Inside(o', h', i);
      }
      if Free(lists, i) {
        var o', h' :| Has(lists, o', h') && Inside(o', h', i);
        assert Has(lists', o', h');
      }
      if Inside(o, h, i) {
        assert Has(lists', o, h);
      }
    }
  }

  /** list_delete of a block: exactly its pages leave the free set. */
  lemma RemoveBlock(pages: seq<Page>, lists: seq<seq<nat>>, o: nat, k: nat)
    requires Blocks(pages, lists) && o < |lists| && k < |lists[o]|
    ensures var h := lists[o][k];
            var lists' := lists[o := lists[o][..k] + lists[o][k + 1..]];
            && Blocks(pages, lists') && Marked(pages, o, h) && Vacant(lists', h, h + Pow2(o))
            && (forall i: nat :: Free(lists', i) <==> Free(lists, i) && !Inside(o, h, i))
            && forall i: nat | Inside(o, h, i) :: Free(lists, i)
  {
    var h := lists[o][k];
    var l := lists[o][..k] + lists[o][k + 1..];
    var lists' := lists[o := l];
    RemovedFrom(lists[o], k);
    assert Has(lists, o, h);
    assert forall o', h' :: Has(lists, o', h') <==> Has(lists', o', h') || (o' == o && h' == h);
    assert forall o', h' | Has(lists', o', h') :: !(o' == o && h' == h);
    FreeAdded(lists', lists, o, h);
    forall i: nat | Inside(o, h, i)
      ensures !Free(lists', i)
    {
      if Free(lists', i) {
        var o', h' :| Has(lists', o', h') && Inside(o', h', i);
        BlocksApart(pages, lists, o, h, o', h', i);
        assert false;
      }
    }
    assert forall i: nat | h <= i < h + Pow2(o) :: Inside(o, h, i);
  }

  // ---------- counts ----------

  function Times(a: nat, p: nat): nat {
    a * p
  }

  lemma TimesNext(a: nat, p: nat)
    ensures Times(a + 1, p) == Times(a, p) + p
  {
  }

  lemma TimesSome(a: nat, p: nat)
    requires a > 0
    ensures Times(a, p) >= p
  {
    TimesNext(a - 1, p);
  }

  /** The number of free pages, order by order. */
  ghost function Total(lists: seq<seq<nat>>): nat {
    if lists == [] then 0 else Total(lists[..|lists| - 1]) + Times(|lists[|lists| - 1]|, Pow2(|lists| - 1))
  }

  lemma {:induction false} TotalUpdate(lists: seq<seq<nat>>, o: nat, l: seq<nat>)
    requires o < |lists|
    ensures Total(lists[o := l]) + Times(|lists[o]|, Pow2(o)) == Total(lists) + Times(|l|, Pow2(o))
  {
    hide Times;
    var n := |lists| - 1;
    if o == n {
      assert lists[o := l][..n] == lists[..n];
    } else {
      assert lists[o := l][..n] == lists[..n][o := l];
      TotalUpdate(lists[..n], o, l);
    }
  }

  lemma TotalPlus(lists: seq<seq<nat>>, o: nat, l: seq<nat>)
    requires o < |lists|
    ensures |l| == |lists[o]| + 1 ==> Total(lists[o := l]) == Total(lists) + Pow2(o)
    ensures |l| == |lists[o]| - 1 ==> Total(lists[o := l]) == Total(lists) - Pow2(o)
  {
    hide Times, Total;
    TotalUpdate(lists, o, l);
    TimesNext(|lists[o]|, Pow2(o));
    if |lists[o]| > 0 {
      TimesNext(|lists[o]| - 1, Pow2(o));
    }
  }

  /** A non-empty order holds at least one block's pages. */
  lemma {:induction false} TotalAtLeast(lists: seq<seq<nat>>, o: nat)
    requires o < |lists| && lists[o] != []
    ensures Total(lists) >= Pow2(o)
  {
    hide Times;
    var n := |lists| - 1;
    if o == n {
      TimesSome(|lists[n]|, Pow2(n));
    } else {
      assert lists[..n][o] == lists[o];
      TotalAtLeast(lists[..n], o);
    }
  }
}
