/** The slab allocator of kernel/mm/slab.c.  The pages come from the page allocator, whose answer is a
    parameter; between the calls the clients write to the objects they hold. */
module Slab {
  import opened Common
  import opened Bytes
  import opened FdtBuffer
  import opened SlabChain
  import FdtFormat

  /** The slab fields of the head page. */
  datatype Head = Head(free: U32, first: U32)

  /** What a client holds: a byte of the pages behind a head page. */
  datatype Pointer = Pointer(page: nat, at: nat)

  /** An object: the head page of its slab and its index there. */
  datatype Object = Object(page: nat, index: nat)

  /** The free objects of all slabs. */
  ghost function Total(heads: map<nat, Head>): nat {
    if heads == map[] then 0
    else
      var p :| p in heads;
      heads[p].free + Total(heads - {p})
  }

  lemma {:induction false} TotalTake(heads: map<nat, Head>, p: nat)
    requires p in heads
    ensures Total(heads) == heads[p].free + Total(heads - {p})
    decreases |heads|
  {
    var q :| q in heads && Total(heads) == heads[q].free + Total(heads - {q});
    if p != q {
      TotalTake(heads - {q}, p);
      TotalTake(heads - {p}, q);
      assert heads - {q} - {p} == heads - {p} - {q};
    }
  }

  lemma TotalPut(heads: map<nat, Head>, p: nat, h: Head)
    ensures Total(heads[p := h]) == h.free + Total(heads - {p})
    ensures p in heads ==> Total(heads[p := h]) == Total(heads) - heads[p].free + h.free
    ensures p !in heads ==> Total(heads[p := h]) == Total(heads) + h.free
  {
    TotalTake(heads[p := h], p);
    assert heads[p := h] - {p} == heads - {p};
    if p in heads {
      TotalTake(heads, p);
    } else {
      assert heads - {p} == heads;
    }
  }

  /** The sizes of an allocator: objects rounded up to 16 bytes, in the fewest pages, a power of two, that
      hold four of them, and as many as these pages hold. */
  ghost predicate Sized(objectSize: nat, pageSize: nat, size: nat, count: nat, bytes: nat) {
    && size % 16 == 0 && objectSize <= size < objectSize + 16
    && At(count, size) <= bytes < At(count + 1, size)
    && exists order: nat :: LeastOrder(pageSize, 4 * size, bytes, order)
  }

  method SlabSizes(objectSize: U32, pageSize: nat) returns (size: nat, count: nat, bytes: nat)
    requires 1 <= objectSize <= 0xFFFF_FFF0 && 0 < pageSize < POW32
    ensures Sized(objectSize, pageSize, size, count, bytes)
  {
    hide LeastOrder, Shifted, At, Aligned, PerSlab;
    size := Aligned(objectSize);
    AlignedIs(objectSize);
    var order := SlabOrder(pageSize, 4 * size);
    bytes := Shifted(pageSize, order);
    count := PerSlab(bytes, size);
    PerSlabIs(bytes, size);
  }

  lemma SizedFits(objectSize: nat, pageSize: nat, size: nat, count: nat, bytes: nat)
    requires Sized(objectSize, pageSize, size, count, bytes) && 1 <= objectSize <= 0xFFFF_FFF0 && 0 < pageSize < POW32
    ensures size >= 16 && 4 <= count < NONE && At(count, size) <= bytes
  {
    hide LeastOrder;
    var order: nat :| LeastOrder(pageSize, 4 * size, bytes, order);
    RoomIs(pageSize, 4 * size, bytes, order);
    CountIs(count, size, bytes, pageSize);
  }

  lemma ManyObjects(size: nat)
    requires size >= 16
    ensures At(NONE - 1, size) >= 8 * size + 16 * (NONE - 9)
  {
    assert (NONE - 1) * size == 8 * size + (NONE - 9) * size;
  }

  lemma CountIs(count: nat, size: nat, bytes: nat, pageSize: nat)
    requires size >= 16 && At(count, size) <= bytes < At(count + 1, size) && 4 * size <= bytes < pageSize + 8 * size && pageSize < POW32
    ensures 4 <= count < NONE
  {
    AtStep(count + 1, 4, size);
    assert At(4, size) == 4 * size;
    if count >= NONE {
      AtStep(NONE - 1, count, size);
      ManyObjects(size);
    }
  }

  /** The loop of slab_allocator_init over the orders. */
  method SlabOrder(pageSize: nat, least: nat) returns (order: nat)
    requires 0 < pageSize
    ensures LeastOrder(pageSize, least, Shifted(pageSize, order), order)
  {
    hide Pow2;
    order := 0;
    while Shifted(pageSize, order) < least
      invariant order > 0 ==> Shifted(pageSize, order - 1) < least
      invariant Shifted(pageSize, order) > 0
      decreases least - Shifted(pageSize, order)
    {
      order := order + 1;
    }
    ShiftedIs(pageSize, order);
    if order > 0 {
      ShiftedIs(pageSize, order - 1);
    }
  }

  class Allocator {
    const size: nat       // object_size
    const count: nat      // object_count_per_slab
    const bytes: nat      // PAGE_SIZE << slab_order
    var list: seq<nat>    // slab_head_list
    var heads: map<nat, Head>
    var memory: map<nat, seq<Byte>>
    var freeCount: U32
    var slabCount: U32
    ghost var chains: map<nat, seq<nat>>

    /** slab_allocator_init. */
    constructor (objectSize: U32, pageSize: nat)
      requires 1 <= objectSize <= 0xFFFF_FFF0 && 0 < pageSize < POW32
      ensures Valid() && heads == map[] && Sized(objectSize, pageSize, size, count, bytes)
    {
      hide Sized, At, SlabOk;
      var z, n, b := SlabSizes(objectSize, pageSize);
      SizedFits(objectSize, pageSize, z, n, b);
      size, count, bytes := z, n, b;
      list, heads, memory, chains := [], map[], map[], map[];
      freeCount, slabCount := 0, 0;
    }

    ghost predicate Configured() {
      size >= 16 && 4 <= count < NONE && At(count, size) <= bytes
    }

    ghost predicate Counted()
      reads this
    {
      CountedAs(heads, freeCount, slabCount)
    }

    /** What holds between calls; a slab without a live object is given back. */
    ghost predicate Valid()
      reads this
    {
      && Configured() && Counted() && ListedAs(list, heads)
      && Slabs(size, count, bytes, heads, memory, chains)
      && forall p | p in heads :: heads[p].free < count
    }

    ghost predicate Live(o: Object)
      reads this
    {
      o.page in heads && o.index < count && o.page in chains && o.index !in chains[o.page]
    }

    ghost predicate Has(o: Object)
      reads this
    {
      o.page in memory && At(o.index, size) + size <= |memory[o.page]|
    }

    /** The bytes of an object. */
    ghost function Contents(o: Object): seq<Byte>
      requires Has(o)
      reads this
    {
      memory[o.page][At(o.index, size)..At(o.index, size) + size]
    }

    /** The links of a new slab, written object by object. */
    method Thread(p: nat)
      requires p in memory && |memory[p]| == bytes && size >= 4 && 4 <= count < NONE && At(count, size) <= bytes
      modifies this`memory
      ensures p in memory && memory == old(memory)[p := memory[p]] && |memory[p]| == bytes
      ensures Chain(memory[p], size, count, 0, Fresh(count))
      ensures old(Blank(memory[p], size, Fresh(count))) ==> Blank(memory[p], size, Fresh(count))
    {
      hide Load32, Patch, Chain, Blank;
      var i := 0;
      var at := 0;
      ghost var m0 := memory;
      ghost var blank := Blank(memory[p], size, Fresh(count));
      while i != count - 1
        invariant 0 <= i <= count - 1 && at == At(i, size)
        invariant p in memory && memory == m0[p := memory[p]] && |memory[p]| == bytes
        invariant blank ==> Blank(memory[p], size, Fresh(count))
        invariant forall k: nat | k < i && At(k, size) + 4 <= bytes :: Next(memory[p], size, k) == k + 1
        decreases count - 1 - i
      {
        InPage(memory[p], size, count, i);
        AtStep(i, i + 1, size);
        NextStored(memory[p], size, count, i, i + 1);
        if blank {
          BlankLink(memory[p], size, count, Fresh(count), i, i + 1);
        }
        memory := memory[p := Patch(memory[p], at, Word(i + 1))];
        i := i + 1;
        at := at + size;
      }
      InPage(memory[p], size, count, i);
      NextStored(memory[p], size, count, i, NONE);
      if blank {
        BlankLink(memory[p], size, count, Fresh(count), i, NONE);
      }
      memory := memory[p := Patch(memory[p], at, Word(NONE))];
      FreshChain(memory[p], size, count, 0);
      assert seq(count - 0, i => 0 + i) == Fresh(count);
    }

    /** alloc_slab_page, given zeroed pages that no slab uses. */
    method NewSlab(p: nat)
      requires Configured() && Counted() && p !in heads
      modifies this
      ensures heads == old(heads)[p := Head(count, 0)] && list == [p] + old(list)
      ensures chains == old(chains)[p := Fresh(count)]
      ensures p in memory && memory == old(memory)[p := memory[p]] && Counted()
      ensures SlabOk(size, count, bytes, heads[p], memory[p], chains[p])
    {
      hide Load32, Patch, Chain, Total, Blank;
      list := [p] + list;
      NewTotals(heads, freeCount, slabCount, p, Head(count, 0));
      heads := heads[p := Head(count, 0)];
      slabCount := (slabCount + 1) % POW32;
      freeCount := (freeCount + count) % POW32;
      memory := memory[p := FdtFormat.Zeros(bytes)];
      chains := chains[p := Fresh(count)];
      BlankZeros(bytes, size, Fresh(count));
      Thread(p);
    }

    /** slab_alloc, once the slab is chosen. */
    method Take(p: nat) returns (r: Option<Pointer>, ghost o: Object)
      requires Configured() && Counted() && ListedAs(list, heads) && list != [] && list[0] == p
      requires Slabs(size, count, bytes, heads, memory, chains)
      requires forall q | q in heads :: if q == p then heads[q].free <= count else heads[q].free < count
      modifies this
      ensures Valid() && memory == old(memory) && p in old(heads) && old(chains[p]) != []
      ensures o == Object(p, old(heads[p].first)) && r == Some(Pointer(p, At(o.index, size)))
      ensures heads.Keys == old(heads.Keys) && chains == old(chains)[p := old(chains[p])[1..]]
      ensures o.index == old(chains[p])[0] && o.index < count
    {
      hide Load32, Total, Chain, NoRepeat, Slabs, ListedAs, CountedAs, SlabOk, Blank;
      ListedHead(list, heads);
      SlabAt(size, count, bytes, heads, memory, chains, p);
      ghost var c := chains[p];
      BlankRest(memory[p], size, c);
      var h := heads[p];
      ChainHead(memory[p], size, count, h.first, c);
      ghost var h' := Head(h.free - 1, Next(memory[p], size, h.first));
      TakeTotals(heads, freeCount, slabCount, p, h');
      ListedTake(list, heads, p, h');
      SlabIs(size, count, bytes, h', memory[p], c[1..]);
      SlabsPut(size, count, bytes, heads, memory, chains, p, h', memory[p], c[1..]);
      assert memory == memory[p := memory[p]];
      freeCount := (freeCount - 1) % POW32;
      heads := heads[p := h.(free := h.free - 1)];
      if heads[p].free == 0 {
        list := list[1..];
      }
      var next := NONE;
      r := None;
      if heads[p].first != NONE {
        r := Some(Pointer(p, At(heads[p].first, size)));
        next := Load32(memory[p], r.value.at);
      }
      heads := heads[p := heads[p].(first := next)];
      assert heads == old(heads)[p := h'];
      chains := chains[p := c[1..]];
      o := Object(p, h.first);
    }

    /** slab_alloc; `pages` is the answer of the page allocator, if it is asked.  It fails exactly when
        no slab has a free object and there are no pages. */
    method Alloc(pages: Option<nat>) returns (r: Option<Pointer>, ghost o: Object)
      requires Valid() && (pages.Some? ==> pages.value !in heads)
      modifies this
      ensures Valid()
      ensures r.None? <==> old(list) == [] && pages.None?
      ensures r.None? ==> heads == old(heads) && memory == old(memory) && chains == old(chains) && list == old(list)
      ensures r.Some? ==> r.value == Pointer(o.page, At(o.index, size)) && !old(Live(o)) && Live(o)
      ensures r.Some? ==> Has(o) && Contents(o)[4..] == FdtFormat.Zeros(size - 4)
      ensures old(list) != [] ==> heads.Keys == old(heads.Keys)
      ensures forall x :: Live(x) <==> old(Live(x)) || (r.Some? && x == o)
      ensures forall x :: old(Live(x)) ==> old(Has(x)) && Has(x) && Contents(x) == old(Contents(x))
    {
      hide Load32, Total, Chain, NoRepeat, Slabs, ListedAs, CountedAs, SlabOk, Blank, At;
      var p := Choose(pages);
      if p.None? {
        o := Object(0, 0);
        return None, o;
      }
      ListedHead(list, heads);
      SlabAt(size, count, bytes, heads, memory, chains, p.value);
      Popped(chains[p.value]);
      LiveInPage(size, count, bytes, heads, memory, chains);
      ghost var c, m := chains[p.value], memory[p.value];
      r, o := Take(p.value);
      BlankFirst(m, size, c);
    }

    /** The slab slab_alloc takes an object from: the first one listed, or a new one when none is. */
    method Choose(pages: Option<nat>) returns (p: Option<nat>)
      requires Valid() && (pages.Some? ==> pages.value !in heads)
      modifies this
      ensures Configured() && Counted() && ListedAs(list, heads) && Slabs(size, count, bytes, heads, memory, chains)
      ensures p.None? <==> old(list) == [] && pages.None?
      ensures p.Some? ==> list != [] && list[0] == p.value &&
                          forall q | q in heads :: if q == p.value then heads[q].free <= count else heads[q].free < count
      ensures p.None? || old(list) != [] ==> heads == old(heads) && memory == old(memory) && chains == old(chains) && list == old(list)
      ensures forall x :: Live(x) <==> old(Live(x))
      ensures forall x :: Live(x) ==> old(Has(x)) && Has(x) && Contents(x) == old(Contents(x))
    {
      hide Load32, Total, Chain, NoRepeat, Slabs, ListedAs, CountedAs, SlabOk, Blank, At;
      ghost var h0, m0, c0 := heads, memory, chains;
      LiveInPage(size, count, bytes, heads, memory, chains);
      if list != [] {
        return Some(list[0]);
      }
      if pages.None? {
        return None;
      }
      p := pages;
      ListedNew(heads, p.value, Head(count, 0));
      NewSlab(p.value);
      assert list == [p.value];
      SlabsPut(size, count, bytes, h0, m0, c0, p.value, heads[p.value], memory[p.value], chains[p.value]);
      AllFree(count);
    }

    /** slab_free of a live object.  The slab is given back exactly when this was its last live object. */
    method Free(mem: Pointer, ghost o: Object)
      requires Valid() && Live(o) && mem == Pointer(o.page, At(o.index, size))
      modifies this
      ensures Valid()
      ensures o.page !in heads <==> forall x | old(Live(x)) && x.page == o.page :: x == o
      ensures forall x :: Live(x) <==> old(Live(x)) && x != o
      ensures forall x :: Live(x) ==> old(Has(x)) && Has(x) && Contents(x) == old(Contents(x))
    {
      hide Load32, Total, Chain, NoRepeat, Slabs, ListedAs, CountedAs, SlabOk, Patch, At, Blank;
      var p := mem.page;
      LiveInPage(size, count, bytes, heads, memory, chains);
      SlabAt(size, count, bytes, heads, memory, chains, p);
      ghost var c := chains[p];
      LastLive(memory[p], size, count, heads[p].first, c, o.index);
      ghost var last := |c| + 1 == count;
      if last {
        assert forall x | Live(x) && x.page == o.page :: x == o;
      } else {
        var j: nat :| j < count && j !in c && j != o.index;
        assert Live(Object(p, j));
      }
      FreedPage(memory[p], size, count, heads[p].first, c, o.index);
      Release(mem, o);
      forall x | Live(x)
        ensures old(Has(x)) && Has(x) && Contents(x) == old(Contents(x))
      {
        if x.page == p {
          assert !last && x.index != o.index;
        } else {
          assert memory[x.page] == old(memory)[x.page];
        }
      }
    }

    /** The steps of slab_free. */
    method Release(mem: Pointer, ghost o: Object)
      requires Valid() && Live(o) && mem == Pointer(o.page, At(o.index, size)) && Has(o) && o.page in chains
      modifies this
      ensures Valid()
      ensures if |old(chains[o.page])| + 1 == count
              then heads.Keys == old(heads.Keys) - {o.page} && memory == old(memory) - {o.page} && chains == old(chains) - {o.page}
              else
                && heads.Keys == old(heads.Keys) && chains == old(chains)[o.page := [o.index] + old(chains[o.page])]
                && memory == old(memory)[o.page := FreePage(old(memory[o.page]), mem.at, size, old(heads[o.page].first))]
    {
      hide Load32, Total, Chain, NoRepeat, Slabs, ListedAs, CountedAs, SlabOk, Patch, At, Blank;
      var p := mem.page;
      SlabIn(size, count, bytes, heads, memory, chains, p);
      ghost var c, h, m := chains[p], heads[p], memory[p];
      ReleasedSlab(size, count, bytes, h, m, c, o.index);
      ghost var h' := Head(h.free + 1, o.index);
      FreeTotals(heads, freeCount, slabCount, p, h', count);
      ListedFree(list, heads, p, h');
      memory := memory[p := Patch(memory[p], mem.at, FdtFormat.Zeros(size))];
      freeCount := (freeCount + 1) % POW32;
      var free := heads[p].free + 1;
      heads := heads[p := heads[p].(free := free)];
      if free != 1 {
        if free == count {
          SlabsDrop(size, count, bytes, old(heads), old(memory), chains, p);
          PutTwice(old(heads), p, h.(free := free), h');
          PutTwice(old(memory), p, memory[p], m);
          GiveBack(p, old(heads));
          return;
        }
      } else {
        list := [p] + list;
      }
      SlabsPut(size, count, bytes, old(heads), old(memory), chains, p, h', FreePage(m, mem.at, size, h.first), [o.index] + c);
      PutTwice(old(heads), p, h.(free := free), h');
      PutTwice(old(memory), p, memory[p], FreePage(m, mem.at, size, h.first));
      IndexOf(o.index, size);
      memory := memory[p := Patch(memory[p], mem.at, Word(heads[p].first))];
      heads := heads[p := heads[p].(first := mem.at / size)];
      chains := chains[p := [o.index] + c];
    }

    /** The end of slab_free for a slab with all objects free. */
    method GiveBack(p: nat, ghost was: map<nat, Head>)
      requires ListedAs(list, was) && p in was && was[p].free > 0
      modifies this
      ensures heads == old(heads) - {p} && memory == old(memory) - {p} && chains == old(chains) - {p}
      ensures freeCount == (old(freeCount) - count) % POW32 && slabCount == (old(slabCount) - 1) % POW32
      ensures ListedAs(list, was - {p})
    {
      hide ListedAs;
      ListedAt(list, was, p);
      var k :| 0 <= k < |list| && list[k] == p;
      ListedDrop(list, was, p, k);
      list := list[..k] + list[k + 1..];
      freeCount := (freeCount - count) % POW32;
      slabCount := (slabCount - 1) % POW32;
      heads, memory, chains := heads - {p}, memory - {p}, chains - {p};
    }

    /** A client writes into an object it holds. */
    method Write(o: Object, at: nat, s: seq<Byte>)
      requires Valid() && Live(o) && at + |s| <= size
      modifies this`memory
      ensures Valid() && Has(o) && Contents(o) == Patch(old(Contents(o)), at, s)
      ensures forall x :: Live(x) && x != o ==> Has(x) && Contents(x) == old(Contents(x))
    {
      hide Load32, Total, Chain, NoRepeat, Slabs, ListedAs, CountedAs, SlabOk, Patch, Blank;
      LiveInPage(size, count, bytes, heads, memory, chains);
      SlabAt(size, count, bytes, heads, memory, chains, o.page);
      ghost var m, c, h := memory[o.page], chains[o.page], heads[o.page];
      var i := At(o.index, size);
      WrittenPage(m, size, count, h.first, c, o.index, at, s);
      ChainBelow(m, size, count, h.first, c);
      BlankStore(m, size, count, c, o.index, at, s);
      SlabIs(size, count, bytes, h, Patch(m, i + at, s), c);
      SlabsPut(size, count, bytes, heads, memory, chains, o.page, h, Patch(m, i + at, s), c);
      assert heads == heads[o.page := h] && chains == chains[o.page := c];
      memory := memory[o.page := Patch(memory[o.page], i + at, s)];
    }
  }

  // ---------- the invariant, as a statement about values ----------

  /** Following the links of a slab meets its free objects, each once, and as many as it counts; behind
      their links they are zero. */
  ghost predicate SlabOk(size: nat, count: nat, bytes: nat, h: Head, page: seq<Byte>, chain: seq<nat>) {
    && |page| == bytes && |chain| == h.free && NoRepeat(chain) && Chain(page, size, count, h.first, chain)
    && size >= 4 && Blank(page, size, chain)
  }

  ghost predicate Slabs(size: nat, count: nat, bytes: nat, heads: map<nat, Head>, memory: map<nat, seq<Byte>>, chains: map<nat, seq<nat>>) {
    && heads.Keys == memory.Keys == chains.Keys
    && forall p | p in heads :: SlabOk(size, count, bytes, heads[p], memory[p], chains[p])
  }

  /** A slab is listed, once, exactly when it has a free object. */
  ghost predicate ListedAs(list: seq<nat>, heads: map<nat, Head>) {
    NoRepeat(list) && forall p :: p in list <==> p in heads && heads[p].free > 0
  }

  /** The counters, in 32 bits. */
  ghost predicate CountedAs(heads: map<nat, Head>, free: U32, slabs: U32) {
    free == Total(heads) % POW32 && slabs == |heads| % POW32
  }

  lemma SlabAt(size: nat, count: nat, bytes: nat, heads: map<nat, Head>, memory: map<nat, seq<Byte>>, chains: map<nat, seq<nat>>, p: nat)
    requires p in heads && Slabs(size, count, bytes, heads, memory, chains)
    ensures p in memory && p in chains && SlabOk(size, count, bytes, heads[p], memory[p], chains[p])
    ensures |memory[p]| == bytes && |chains[p]| == heads[p].free && NoRepeat(chains[p])
    ensures Chain(memory[p], size, count, heads[p].first, chains[p])
    ensures size >= 4 && Blank(memory[p], size, chains[p])
  {
  }

  lemma SlabIs(size: nat, count: nat, bytes: nat, h: Head, page: seq<Byte>, chain: seq<nat>)
    requires |page| == bytes && |chain| == h.free && NoRepeat(chain) && Chain(page, size, count, h.first, chain)
    requires size >= 4 && Blank(page, size, chain)
    ensures SlabOk(size, count, bytes, h, page, chain)
  {
  }

  lemma ListedHead(list: seq<nat>, heads: map<nat, Head>)
    requires ListedAs(list, heads) && list != []
    ensures list[0] in heads && heads[list[0]].free > 0
  {
  }

  lemma SlabsPut(size: nat, count: nat, bytes: nat, heads: map<nat, Head>, memory: map<nat, seq<Byte>>, chains: map<nat, seq<nat>>,
                 p: nat, h: Head, page: seq<Byte>, c: seq<nat>)
    requires Slabs(size, count, bytes, heads, memory, chains) && SlabOk(size, count, bytes, h, page, c)
    ensures Slabs(size, count, bytes, heads[p := h], memory[p := page], chains[p := c])
  {
    hide SlabOk;
  }

  lemma SlabsDrop(size: nat, count: nat, bytes: nat, heads: map<nat, Head>, memory: map<nat, seq<Byte>>, chains: map<nat, seq<nat>>, p: nat)
    requires Slabs(size, count, bytes, heads, memory, chains)
    ensures Slabs(size, count, bytes, heads - {p}, memory - {p}, chains - {p})
  {
    hide SlabOk;
  }

  lemma ListedTake(list: seq<nat>, heads: map<nat, Head>, p: nat, h: Head)
    requires ListedAs(list, heads) && list != [] && list[0] == p && h.free == heads[p].free - 1
    ensures ListedAs(if h.free == 0 then list[1..] else list, heads[p := h])
  {
    assert forall q :: q in list <==> q == p || q in list[1..];
  }

  /** `x << n`. */
  function Shifted(x: nat, n: nat): nat {
    if n == 0 then x else 2 * Shifted(x, n - 1)
  }

  lemma {:induction false} ShiftedIs(x: nat, n: nat)
    ensures Shifted(x, n) == x * Pow2(n)
  {
    if n > 0 {
      ShiftedIs(x, n - 1);
      assert Pow2(n) == 2 * Pow2(n - 1);
      assert 2 * (x * Pow2(n - 1)) == x * (2 * Pow2(n - 1));
    }
  }

  /** `bytes` is the smallest power of two of pages that has room for `least` bytes. */
  ghost predicate LeastOrder(pageSize: nat, least: nat, bytes: nat, order: nat) {
    bytes == pageSize * Pow2(order) >= least && (order == 0 || pageSize * Pow2(order - 1) < least)
  }

  lemma RoomIs(pageSize: nat, least: nat, bytes: nat, order: nat)
    requires LeastOrder(pageSize, least, bytes, order) && pageSize > 0 && least > 0
    ensures least <= bytes < pageSize + 2 * least
  {
    if order > 0 {
      assert pageSize * Pow2(order) == 2 * (pageSize * Pow2(order - 1));
    }
  }

  /** align_up to 16. */
  function Aligned(n: nat): nat {
    (n + 15) / 16 * 16
  }

  lemma AlignedIs(n: nat)
    ensures Aligned(n) % 16 == 0 && n <= Aligned(n) < n + 16
  {
  }

  function PerSlab(bytes: nat, size: nat): nat
    requires size > 0
  {
    bytes / size
  }

  lemma PerSlabIs(bytes: nat, size: nat)
    requires size > 0
    ensures At(PerSlab(bytes, size), size) <= bytes < At(PerSlab(bytes, size) + 1, size)
  {
    var n := bytes / size;
    assert n * size <= bytes < n * size + size;
    AtNext(n, size);
  }

  lemma NextStored(page: seq<Byte>, size: nat, count: nat, i: nat, w: U32)
    requires Fits(page, size, count) && i < count && At(i, size) + 4 <= |page|
    ensures var page' := Patch(page, At(i, size), Word(w));
            Next(page', size, i) == w &&
            forall j: nat | j < count && j != i && At(j, size) + 4 <= |page| :: Next(page', size, j) == Next(page, size, j)
  {
    hide Patch, Load32;
    PatchLoad(page, At(i, size), Word(w), At(i, size));
    forall j: nat | j < count && j != i && At(j, size) + 4 <= |page|
      ensures Next(Patch(page, At(i, size), Word(w)), size, j) == Next(page, size, j)
    {
      StoreInside(page, size, count, i, 0, Word(w), j);
    }
  }

  /** The chain of a new slab. */
  ghost function Fresh(n: nat): (c: seq<nat>)
    ensures |c| == n && NoRepeat(c) && forall i | 0 <= i < n :: c[i] == i
  {
    seq(n, i => i)
  }

  /** The counters are kept modulo 2^32. */
  lemma NewTotals(heads: map<nat, Head>, free: U32, slabs: U32, p: nat, h: Head)
    requires p !in heads && free == Total(heads) % POW32 && slabs == |heads| % POW32
    ensures (free + h.free) % POW32 == Total(heads[p := h]) % POW32
    ensures (slabs + 1) % POW32 == |heads[p := h]| % POW32
  {
    hide Total;
    TotalPut(heads, p, h);
    ModSum(Total(heads), h.free);
    ModSum(|heads|, 1);
    assert heads[p := h].Keys == heads.Keys + {p};
    assert |heads[p := h].Keys| == |heads.Keys| + 1;
  }

  lemma ModSum(x: int, y: int)
    ensures (x % POW32 + y) % POW32 == (x + y) % POW32
  {
    var q := x / POW32;
    assert x + y == (x % POW32 + y) + q * POW32;
  }

  lemma TakeTotals(heads: map<nat, Head>, free: U32, slabs: U32, p: nat, h: Head)
    requires p in heads && h.free == heads[p].free - 1 && CountedAs(heads, free, slabs)
    ensures CountedAs(heads[p := h], (free - 1) % POW32, slabs)
  {
    hide Total;
    TotalPut(heads, p, h);
    ModSum(Total(heads), -1);
    assert heads[p := h].Keys == heads.Keys;
    assert |heads[p := h].Keys| == |heads.Keys|;
  }

  lemma ChainHead(page: seq<Byte>, size: nat, count: nat, first: U32, c: seq<nat>)
    requires Chain(page, size, count, first, c) && c != [] && count < NONE && NoRepeat(c)
    ensures first == c[0] < count && first != NONE && At(first, size) + 4 <= |page|
    ensures Chain(page, size, count, Next(page, size, first), c[1..]) && NoRepeat(c[1..])
  {
    hide Load32;
    assert forall i | 0 <= i < |c[1..]| :: c[1..][i] == c[i + 1];
  }

  lemma LiveInPage(size: nat, count: nat, bytes: nat, heads: map<nat, Head>, memory: map<nat, seq<Byte>>, chains: map<nat, seq<nat>>)
    requires Slabs(size, count, bytes, heads, memory, chains) && At(count, size) <= bytes
    ensures heads.Keys == memory.Keys == chains.Keys
    ensures forall p, i: nat | p in heads && i < count :: At(i, size) + size <= |memory[p]|
  {
    forall p, i: nat | p in heads && i < count
      ensures At(i, size) + size <= |memory[p]|
    {
      AtStep(i, count, size);
    }
  }

  lemma ListedNew(heads: map<nat, Head>, p: nat, h: Head)
    requires ListedAs([], heads) && h.free > 0
    ensures ListedAs([p], heads[p := h])
  {
    assert forall q | q in heads :: q !in [] && heads[q].free == 0;
  }

  lemma AllFree(n: nat)
    ensures forall i: nat | i < n :: i in Fresh(n)
  {
    forall i: nat | i < n
      ensures i in Fresh(n)
    {
      assert Fresh(n)[i] == i;
    }
  }

  lemma Popped(c: seq<nat>)
    requires NoRepeat(c)
    ensures c != [] ==> forall i :: i in c[1..] <==> i in c && i != c[0]
  {
    if c != [] {
      assert c == [c[0]] + c[1..];
      assert forall k | 1 <= k < |c| :: c[k] == c[1..][k - 1];
    }
  }

  lemma PutTwice<K, V>(m: map<K, V>, p: K, a: V, b: V)
    ensures m[p := a][p := b] == m[p := b] && m[p := a] - {p} == m - {p}
  {
  }

  lemma IndexOf(i: nat, size: nat)
    requires size > 0
    ensures At(i, size) / size == i
  {
    var q := At(i, size) / size;
    assert q * size <= i * size < q * size + size;
    AtStep(q, i, size);
    AtStep(i, q, size);
  }

  /** Different numbers below `n` are at most `n` many. */
  lemma {:induction false} Pigeon(s: seq<nat>, n: nat)
    requires NoRepeat(s) && forall k | 0 <= k < |s| :: s[k] < n
    ensures |s| <= n
  {
    if s != [] {
      assert 0 <= s[0] < n;
      if k :| 0 <= k < |s| && s[k] == n - 1 {
        var t := s[..k] + s[k + 1..];
        assert forall j | 0 <= j < |t| :: t[j] == if j < k then s[j] else s[j + 1];
        Pigeon(t, n - 1);
      } else {
        Pigeon(s, n - 1);
      }
    }
  }

  /** An object is the only live one of its slab exactly when all the others are counted free. */
  lemma LastLive(page: seq<Byte>, size: nat, count: nat, first: U32, c: seq<nat>, i: nat)
    requires Chain(page, size, count, first, c) && NoRepeat(c) && i < count && i !in c
    ensures |c| + 1 <= count
    ensures |c| + 1 == count <==> forall j: nat | j < count && j !in c :: j == i
  {
    forall k | 0 <= k < |c|
      ensures c[k] < count
    {
      ChainIn(page, size, count, first, c, k);
    }
    Pigeon([i] + c, count);
    if |c| + 1 == count {
      forall j: nat | j < count && j !in c
        ensures j == i
      {
        if j != i {
          Pigeon([j] + ([i] + c), count);
          assert false;
        }
      }
    } else if forall j: nat | j < count && j !in c :: j == i {
      AllTaken(c, i, count);
      assert false;
    }
  }

  /** Covering `n` numbers takes at least `n` entries. */
  lemma AllTaken(c: seq<nat>, i: nat, n: nat)
    requires forall j: nat | j < n && j !in c :: j == i
    ensures |c| + 1 >= n
  {
    var s := [i] + c;
    forall j: nat | j < n
      ensures j in s
    {
      if j != i {
        assert j in c;
      }
    }
    Covered(s, n);
  }

  lemma {:induction false} Covered(s: seq<nat>, n: nat)
    requires forall j: nat | j < n :: j in s
    ensures |s| >= n
  {
    if n > 0 {
      assert n - 1 in s;
      var k :| 0 <= k < |s| && s[k] == n - 1;
      var t := s[..k] + s[k + 1..];
      forall j: nat | j < n - 1
        ensures j in t
      {
        assert j in s;
        var x :| 0 <= x < |s| && s[x] == j;
        assert t[if x < k then x else x - 1] == j;
      }
      Covered(t, n - 1);
    }
  }

  /** The stores of slab_free: zeros, then the link. */
  function FreePage(page: seq<Byte>, at: nat, size: nat, first: U32): (r: seq<Byte>)
    requires at + size <= |page| && size >= 4
    ensures |r| == |page|
  {
    Patch(Patch(page, at, FdtFormat.Zeros(size)), at, Word(first))
  }

  /** The page after slab_free: the object heads the chain, the others are as they were. */
  lemma FreedPage(page: seq<Byte>, size: nat, count: nat, first: U32, c: seq<nat>, i: nat)
    requires Fits(page, size, count) && Chain(page, size, count, first, c) && NoRepeat(c) && i < count < NONE && i !in c
    ensures At(i, size) + size <= |page|
    ensures var page' := FreePage(page, At(i, size), size, first);
            && |page'| == |page| && Chain(page', size, count, i, [i] + c) && NoRepeat([i] + c)
            && forall j: nat | j < count && j != i && At(j, size) + size <= |page| ::
                 page'[At(j, size)..At(j, size) + size] == page[At(j, size)..At(j, size) + size]
  {
    hide Patch, Chain;
    InPage(page, size, count, i);
    var z := FdtFormat.Zeros(size);
    var blank := Patch(page, At(i, size), z);
    ChainStore(page, size, count, first, c, i, 0, z);
    ChainPush(blank, size, count, first, c, i);
    forall j: nat | j < count && j != i && At(j, size) + size <= |page|
      ensures Patch(blank, At(i, size), Word(first))[At(j, size)..At(j, size) + size] == page[At(j, size)..At(j, size) + size]
    {
      StoreInside(page, size, count, i, 0, z, j);
      StoreInside(blank, size, count, i, 0, Word(first), j);
    }
  }

  /** The slab after slab_free, unless it is given back. */
  lemma ReleasedSlab(size: nat, count: nat, bytes: nat, h: Head, m: seq<Byte>, c: seq<nat>, i: nat)
    requires SlabOk(size, count, bytes, h, m, c) && i < count < NONE && i !in c && At(count, size) <= bytes
    ensures At(i, size) + size <= |m| && |c| == h.free && |c| + 1 <= count && size >= 4
    ensures SlabOk(size, count, bytes, Head(h.free + 1, i), FreePage(m, At(i, size), size, h.first), [i] + c)
  {
    hide Patch, Chain, Blank, At, NoRepeat, FreePage;
    FreedPage(m, size, count, h.first, c, i);
    FreedBlank(m, size, count, h.first, c, i);
    LastLive(m, size, count, h.first, c, i);
  }

  lemma SlabIn(size: nat, count: nat, bytes: nat, heads: map<nat, Head>, memory: map<nat, seq<Byte>>, chains: map<nat, seq<nat>>, p: nat)
    requires p in heads && Slabs(size, count, bytes, heads, memory, chains)
    ensures heads.Keys == memory.Keys == chains.Keys && SlabOk(size, count, bytes, heads[p], memory[p], chains[p])
  {
    hide SlabOk;
  }

  lemma FreedBlank(page: seq<Byte>, size: nat, count: nat, first: U32, c: seq<nat>, i: nat)
    requires Fits(page, size, count) && Chain(page, size, count, first, c) && i < count && i !in c && Blank(page, size, c)
    requires At(i, size) + size <= |page|
    ensures Blank(FreePage(page, At(i, size), size, first), size, [i] + c)
  {
    hide Patch, Chain, Blank, At;
    ChainBelow(page, size, count, first, c);
    var blank := Patch(page, At(i, size), FdtFormat.Zeros(size));
    PatchAt(page, At(i, size), FdtFormat.Zeros(size));
    BlankClear(page, size, count, c, i);
    BlankLink(blank, size, count, [i] + c, i, first);
  }

  lemma BlankRest(page: seq<Byte>, size: nat, c: seq<nat>)
    requires size >= 4 && Blank(page, size, c)
    ensures c != [] ==> Blank(page, size, c[1..])
  {
    if c != [] {
      assert forall i | i in c[1..] :: i in c;
    }
  }

  lemma BlankFirst(page: seq<Byte>, size: nat, c: seq<nat>)
    requires size >= 4 && Blank(page, size, c) && c != [] && At(c[0], size) + size <= |page|
    ensures page[At(c[0], size)..At(c[0], size) + size][4..] == FdtFormat.Zeros(size - 4)
  {
    assert c[0] in c;
    SliceOfSlice(page, At(c[0], size), At(c[0], size) + size, 4, size);
  }

  lemma WrittenPage(page: seq<Byte>, size: nat, count: nat, first: U32, c: seq<nat>, i: nat, at: nat, s: seq<Byte>)
    requires Fits(page, size, count) && Chain(page, size, count, first, c) && i < count && i !in c && at + |s| <= size
    ensures At(i, size) + size <= |page|
    ensures var page' := Patch(page, At(i, size) + at, s);
            && |page'| == |page| && Chain(page', size, count, first, c)
            && page'[At(i, size)..At(i, size) + size] == Patch(page[At(i, size)..At(i, size) + size], at, s)
            && forall j: nat | j < count && j != i && At(j, size) + size <= |page| ::
                 page'[At(j, size)..At(j, size) + size] == page[At(j, size)..At(j, size) + size]
  {
    hide Patch, Chain;
    InPage(page, size, count, i);
    ChainStore(page, size, count, first, c, i, at, s);
    PatchSlice(page, At(i, size) + at, s, At(i, size), At(i, size) + size);
    forall j: nat | j < count && j != i && At(j, size) + size <= |page|
      ensures Patch(page, At(i, size) + at, s)[At(j, size)..At(j, size) + size] == page[At(j, size)..At(j, size) + size]
    {
      StoreInside(page, size, count, i, at, s, j);
    }
  }

  /** The counters after one more free object, and after the slab is given back as well. */
  lemma FreeTotals(heads: map<nat, Head>, free: U32, slabs: U32, p: nat, h: Head, count: nat)
    requires p in heads && h.free == heads[p].free + 1 && CountedAs(heads, free, slabs)
    ensures CountedAs(heads[p := h], (free + 1) % POW32, slabs)
    ensures h.free == count ==> CountedAs(heads - {p}, ((free + 1) % POW32 - count) % POW32, (slabs - 1) % POW32)
  {
    hide Total;
    TotalPut(heads, p, h);
    TotalTake(heads, p);
    ModSum(Total(heads), 1);
    ModSum(Total(heads) + 1, -(count as int));
    ModSum(|heads|, -1);
    assert heads[p := h].Keys == heads.Keys;
    assert |heads[p := h].Keys| == |heads.Keys|;
    assert (heads - {p}).Keys == heads.Keys - {p};
    assert |(heads - {p}).Keys| == |heads.Keys| - 1;
  }

  lemma ListedFree(list: seq<nat>, heads: map<nat, Head>, p: nat, h: Head)
    requires ListedAs(list, heads) && p in heads && h.free == heads[p].free + 1
    ensures ListedAs(if heads[p].free == 0 then [p] + list else list, heads[p := h])
  {
    assert forall q :: q in [p] + list <==> q == p || q in list;
  }

  lemma ListedAt(list: seq<nat>, heads: map<nat, Head>, p: nat)
    requires ListedAs(list, heads) && p in heads && heads[p].free > 0
    ensures p in list
  {
  }

  lemma ListedDrop(list: seq<nat>, heads: map<nat, Head>, p: nat, k: nat)
    requires ListedAs(list, heads) && k < |list| && list[k] == p
    ensures ListedAs(list[..k] + list[k + 1..], heads - {p})
  {
    var t := list[..k] + list[k + 1..];
    assert forall j | 0 <= j < |t| :: t[j] == if j < k then list[j] else list[j + 1];
    forall q
      ensures q in t <==> q in list && q != p
    {
      if q in list && q != p {
        var x :| 0 <= x < |list| && list[x] == q;
        assert t[if x < k then x else x - 1] == q;
      }
    }
  }

  /** Two objects of a slab share no byte. */
  lemma ObjectsApart(o: Object, x: Object, size: nat)
    requires o.page == x.page && o != x
    ensures At(o.index, size) + size <= At(x.index, size) || At(x.index, size) + size <= At(o.index, size)
  {
    AtStep(o.index, x.index, size);
    AtStep(x.index, o.index, size);
  }

  /** slab_allocator_init aligns the size in 64 bits and stores it in 32; what is stored is the size
      aligned, and not zero, exactly for these arguments. */
  lemma ObjectSizeStored(objectSize: U32)
    ensures Aligned(objectSize) % POW32 == Aligned(objectSize) && Aligned(objectSize) > 0 <==> 1 <= objectSize <= 0xFFFF_FFF0
  {
  }
}
