/** One slab of kernel/mm/slab.c: pages cut into objects of equal size, the free ones chained by an
    index stored in their own first four bytes. */
module SlabChain {
  import opened Bytes
  import opened FdtFormat
  import opened FdtBuffer

  const NONE: U32 := 0xFFFF_FFFF

  function At(i: nat, size: nat): nat {
    i * size
  }

  lemma AtNext(i: nat, size: nat)
    ensures At(i + 1, size) == At(i, size) + size
  {
  }

  lemma {:induction false} AtStep(i: nat, j: nat, size: nat)
    ensures i < j ==> At(i, size) + size <= At(j, size)
    ensures At(i + 1, size) == At(i, size) + size
    decreases j
  {
    AtNext(i, size);
    if i + 1 < j {
      AtStep(i, j - 1, size);
      AtNext(j - 1, size);
    }
  }

  /** Room for `count` objects, each with its link. */
  predicate Fits(page: seq<Byte>, size: nat, count: nat) {
    size >= 4 && At(count, size) <= |page|
  }

  function Next(page: seq<Byte>, size: nat, i: nat): U32
    requires At(i, size) + 4 <= |page|
  {
    Load32(page, At(i, size))
  }

  lemma InPage(page: seq<Byte>, size: nat, count: nat, i: nat)
    requires Fits(page, size, count) && i < count
    ensures At(i, size) + size <= |page|
  {
    AtStep(i, count, size);
  }

  /** The indices met when following the links from `first` to the end mark. */
  ghost predicate Chain(page: seq<Byte>, size: nat, count: nat, first: U32, chain: seq<nat>)
    decreases |chain|
  {
    if chain == [] then first == NONE
    else
      && first == chain[0] < count && At(first, size) + 4 <= |page|
      && Chain(page, size, count, Next(page, size, first), chain[1..])
  }

  /** The memory decides the chain. */
  lemma {:induction false} ChainUnique(page: seq<Byte>, size: nat, count: nat, first: U32, c: seq<nat>, d: seq<nat>)
    requires count < NONE && Chain(page, size, count, first, c) && Chain(page, size, count, first, d)
    ensures c == d
    decreases |c|
  {
    if c != [] && d != [] {
      ChainUnique(page, size, count, Next(page, size, first), c[1..], d[1..]);
    }
  }

  lemma {:induction false} ChainIn(page: seq<Byte>, size: nat, count: nat, first: U32, c: seq<nat>, k: nat)
    requires Chain(page, size, count, first, c) && k < |c|
    ensures c[k] < count
    decreases |c|
  {
    if k > 0 {
      ChainIn(page, size, count, Next(page, size, first), c[1..], k - 1);
    }
  }

  /** A chain whose links were not written to. */
  lemma {:induction false} ChainKept(page: seq<Byte>, page': seq<Byte>, size: nat, count: nat, first: U32, c: seq<nat>)
    requires Chain(page, size, count, first, c) && |page'| == |page|
    requires forall i: nat | i in c && At(i, size) + 4 <= |page| :: Next(page', size, i) == Next(page, size, i)
    ensures Chain(page', size, count, first, c)
    decreases |c|
  {
    if c != [] {
      assert c[0] in c;
      assert forall i | i in c[1..] :: i in c;
      ChainKept(page, page', size, count, Next(page, size, first), c[1..]);
    }
  }

  /** A store inside object `i` leaves the other objects, and their links, as they were. */
  lemma StoreInside(page: seq<Byte>, size: nat, count: nat, i: nat, at: nat, s: seq<Byte>, j: nat)
    requires Fits(page, size, count) && i < count && at + |s| <= size && j < count && j != i
    requires At(i, size) + at + |s| <= |page|
    ensures At(j, size) + size <= |page|
    ensures var p := Patch(page, At(i, size) + at, s);
            p[At(j, size)..At(j, size) + size] == page[At(j, size)..At(j, size) + size] && Next(p, size, j) == Next(page, size, j)
  {
    hide Patch, Load32;
    AtStep(i, j, size);
    AtStep(j, i, size);
    InPage(page, size, count, j);
    PatchSlice(page, At(i, size) + at, s, At(j, size), At(j, size) + size);
    PatchLoad(page, At(i, size) + at, s, At(j, size));
  }

  /** Writing to an object that is not on the chain. */
  lemma ChainStore(page: seq<Byte>, size: nat, count: nat, first: U32, c: seq<nat>, i: nat, at: nat, s: seq<Byte>)
    requires Fits(page, size, count) && Chain(page, size, count, first, c) && i < count && i !in c
    requires at + |s| <= size && At(i, size) + at + |s| <= |page|
    ensures Chain(Patch(page, At(i, size) + at, s), size, count, first, c)
  {
    hide Patch, Load32, Next, Chain;
    var p := Patch(page, At(i, size) + at, s);
    forall j: nat | j in c && At(j, size) + 4 <= |page|
      ensures Next(p, size, j) == Next(page, size, j)
    {
      var k :| 0 <= k < |c| && c[k] == j;
      ChainIn(page, size, count, first, c, k);
      StoreInside(page, size, count, i, at, s, j);
    }
    ChainKept(page, p, size, count, first, c);
  }

  /** Putting an object in front of the chain. */
  lemma ChainPush(page: seq<Byte>, size: nat, count: nat, first: U32, c: seq<nat>, i: nat)
    requires Fits(page, size, count) && Chain(page, size, count, first, c) && i < count < NONE && i !in c
    ensures At(i, size) + 4 <= |page|
    ensures Chain(Patch(page, At(i, size), Word(first)), size, count, i, [i] + c)
  {
    hide Patch, Load32;
    InPage(page, size, count, i);
    ChainStore(page, size, count, first, c, i, 0, Word(first));
    PatchLoad(page, At(i, size), Word(first), At(i, size));
    assert ([i] + c)[1..] == c;
  }

  /** The links written by alloc_slab_page, from object `k` on. */
  lemma {:induction false} FreshChain(page: seq<Byte>, size: nat, count: nat, k: nat)
    requires Fits(page, size, count) && k < count < NONE
    requires forall i: nat | i < count && At(i, size) + 4 <= |page| ::
               Next(page, size, i) == if i + 1 < count then i + 1 else NONE
    ensures Chain(page, size, count, k, seq(count - k, i => k + i))
    decreases count - k
  {
    var c := seq(count - k, i => k + i);
    InPage(page, size, count, k);
    if k + 1 < count {
      FreshChain(page, size, count, k + 1);
      assert c[1..] == seq(count - (k + 1), i => k + 1 + i);
    } else {
      assert c[1..] == [];
    }
  }

  /** Behind their links, these objects are zero. */
  ghost predicate Blank(page: seq<Byte>, size: nat, c: seq<nat>)
    requires size >= 4
  {
    forall i: nat | i in c && At(i, size) + size <= |page| :: page[At(i, size) + 4..At(i, size) + size] == Zeros(size - 4)
  }

  /** An object that was not written to stays zero behind its link. */
  lemma TailKept(page: seq<Byte>, page': seq<Byte>, lo: nat, size: nat)
    requires |page'| == |page| && lo + size <= |page| && size >= 4 && page'[lo..lo + size] == page[lo..lo + size]
    ensures page'[lo + 4..lo + size] == page[lo + 4..lo + size]
  {
    SliceOfSlice(page, lo, lo + size, 4, size);
    SliceOfSlice(page', lo, lo + size, 4, size);
  }

  /** Writing to an object that is not among them. */
  lemma BlankStore(page: seq<Byte>, size: nat, count: nat, c: seq<nat>, i: nat, at: nat, s: seq<Byte>)
    requires Fits(page, size, count) && Blank(page, size, c) && i < count && i !in c && (forall k: nat | k in c :: k < count)
    requires at + |s| <= size && At(i, size) + at + |s| <= |page|
    ensures Blank(Patch(page, At(i, size) + at, s), size, c)
  {
    hide Patch, At;
    var p := Patch(page, At(i, size) + at, s);
    PatchAt(page, At(i, size) + at, s);
    forall j: nat | j in c && At(j, size) + size <= |page|
      ensures p[At(j, size) + 4..At(j, size) + size] == Zeros(size - 4)
    {
      StoreInside(page, size, count, i, at, s, j);
      TailKept(page, p, At(j, size), size);
    }
  }

  /** Storing the link of any object. */
  lemma BlankLink(page: seq<Byte>, size: nat, count: nat, c: seq<nat>, i: nat, w: U32)
    requires Fits(page, size, count) && Blank(page, size, c) && i < count && (forall k: nat | k in c :: k < count)
    requires At(i, size) + 4 <= |page|
    ensures Blank(Patch(page, At(i, size), Word(w)), size, c)
  {
    hide Patch, At;
    var p := Patch(page, At(i, size), Word(w));
    PatchAt(page, At(i, size), Word(w));
    forall j: nat | j in c && At(j, size) + size <= |page|
      ensures p[At(j, size) + 4..At(j, size) + size] == Zeros(size - 4)
    {
      if j == i {
        PatchSlice(page, At(i, size), Word(w), At(i, size) + 4, At(i, size) + size);
      } else {
        StoreInside(page, size, count, i, 0, Word(w), j);
        TailKept(page, p, At(j, size), size);
      }
    }
  }

  /** Clearing an object adds it to them. */
  lemma BlankClear(page: seq<Byte>, size: nat, count: nat, c: seq<nat>, i: nat)
    requires Fits(page, size, count) && Blank(page, size, c) && i < count && i !in c && (forall k: nat | k in c :: k < count)
    requires At(i, size) + size <= |page|
    ensures Blank(Patch(page, At(i, size), Zeros(size)), size, [i] + c)
  {
    hide Patch, At;
    var p := Patch(page, At(i, size), Zeros(size));
    PatchAt(page, At(i, size), Zeros(size));
    BlankStore(page, size, count, c, i, 0, Zeros(size));
    PatchSlice(page, At(i, size), Zeros(size), At(i, size), At(i, size) + size);
    SliceOfSlice(p, At(i, size), At(i, size) + size, 4, size);
    ZerosTail(size);
  }

  lemma ZerosTail(n: nat)
    requires n >= 4
    ensures Zeros(n)[4..n] == Zeros(n - 4)
  {
  }

  lemma BlankZeros(n: nat, size: nat, c: seq<nat>)
    requires size >= 4
    ensures Blank(Zeros(n), size, c)
  {
    forall i: nat | i in c && At(i, size) + size <= n
      ensures Zeros(n)[At(i, size) + 4..At(i, size) + size] == Zeros(size - 4)
    {
    }
  }

  lemma ChainBelow(page: seq<Byte>, size: nat, count: nat, first: U32, c: seq<nat>)
    requires Chain(page, size, count, first, c)
    ensures forall k: nat | k in c :: k < count
  {
    forall k: nat | k in c
      ensures k < count
    {
      var j :| 0 <= j < |c| && c[j] == k;
      ChainIn(page, size, count, first, c, j);
    }
  }
}
