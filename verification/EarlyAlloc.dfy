/** The early page allocator of kernel/mm/early.c: areas of free pages, held in one list by address and
    in another by size.  Addresses are counted in pages. */
module EarlyAlloc {
  import opened Common

  type Areas = map<nat, nat>  // first page of an area, and its number of pages

  /** early_alloc_large_page shifts a 32-bit amount by PAGE_SHIFT; from here on the result is zero. */
  const SHIFT_LIMIT: nat := 0x10_0000

  datatype Answer = Pages(first: nat) | NoMemory | Panic

  predicate InArea(areas: Areas, a: nat, x: nat) {
    a in areas && a <= x < a + areas[a]
  }

  ghost predicate Free(areas: Areas, x: nat) {
    exists a :: InArea(areas, a, x)
  }

  ghost predicate Lists(s: seq<nat>, areas: Areas) {
    NoRepeat(s) && forall a :: a in s <==> a in areas
  }

  ghost predicate AddressesUp(addr: seq<nat>, areas: Areas) {
    && (forall i | 0 <= i < |addr| :: addr[i] in areas)
    && forall i, j | 0 <= i < j < |addr| :: addr[i] + areas[addr[i]] <= addr[j]
  }

  ghost predicate SizesUp(asc: seq<nat>, areas: Areas) {
    && (forall i | 0 <= i < |asc| :: asc[i] in areas)
    && forall i, j | 0 <= i < j < |asc| :: areas[asc[i]] <= areas[asc[j]]
  }

  /** The list by address: every area once, each ending before the next begins. */
  ghost predicate ByAddress(addr: seq<nat>, areas: Areas) {
    Lists(addr, areas) && AddressesUp(addr, areas)
  }

  /** The list by size: every area once, the smallest first. */
  ghost predicate BySize(asc: seq<nat>, areas: Areas) {
    Lists(asc, areas) && SizesUp(asc, areas)
  }

  ghost function Total(areas: Areas): nat {
    if areas == map[] then 0
    else
      var a :| a in areas;
      areas[a] + Total(areas - {a})
  }

  lemma {:induction false} TotalTake(areas: Areas, a: nat)
    requires a in areas
    ensures Total(areas) == areas[a] + Total(areas - {a})
    decreases |areas|
  {
    var b :| b in areas && Total(areas) == areas[b] + Total(areas - {b});
    if a != b {
      TotalTake(areas - {b}, a);
      TotalTake(areas - {a}, b);
      assert areas - {b} - {a} == areas - {a} - {b};
    }
  }

  lemma TotalPut(areas: Areas, a: nat, c: nat)
    ensures Total(areas[a := c]) == Total(areas - {a}) + c
    ensures a in areas ==> Total(areas[a := c]) == Total(areas) - areas[a] + c
    ensures a !in areas ==> Total(areas[a := c]) == Total(areas) + c
  {
    TotalTake(areas[a := c], a);
    assert areas[a := c] - {a} == areas - {a};
    if a in areas {
      TotalTake(areas, a);
    } else {
      assert areas - {a} == areas;
    }
  }

  lemma AreasApart(addr: seq<nat>, areas: Areas, a: nat, b: nat, x: nat)
    requires ByAddress(addr, areas) && InArea(areas, a, x) && InArea(areas, b, x)
    ensures a == b
  {
    assert a in addr && b in addr;
    var i :| 0 <= i < |addr| && addr[i] == a;
    var j :| 0 <= j < |addr| && addr[j] == b;
  }

  // ---------- what the list operations keep ----------

  /** An area that got smaller, still not empty. */
  lemma AddressShrink(addr: seq<nat>, areas: Areas, a: nat, c: nat)
    requires ByAddress(addr, areas) && a in areas && c <= areas[a]
    ensures ByAddress(addr, areas[a := c])
  {
  }

  lemma ListsDrop(s: seq<nat>, areas: Areas, k: nat)
    requires Lists(s, areas) && k < |s|
    ensures Lists(Without(s, k), areas - {s[k]})
  {
    RemovedFrom(s, k);
    hide Without, NoRepeat;
  }

  lemma ListsAdd(s: seq<nat>, areas: Areas, k: nat, b: nat, c: nat)
    requires Lists(s, areas) && k <= |s| && b !in areas
    ensures Lists(Inserted(s, k, b), areas[b := c])
  {
    InsertedInto(s, k, b);
    hide Inserted, NoRepeat;
  }

  lemma WithoutAt(s: seq<nat>, k: nat, j: nat)
    requires k < |s| && j < |s| - 1
    ensures |Without(s, k)| == |s| - 1 && Without(s, k)[j] == if j < k then s[j] else s[j + 1]
  {
  }

  lemma InsertedAt(s: seq<nat>, k: nat, b: nat, j: nat)
    requires k <= |s| && j <= |s|
    ensures |Inserted(s, k, b)| == |s| + 1 && Inserted(s, k, b)[j] == if j < k then s[j] else if j == k then b else s[j - 1]
  {
  }

  lemma AddressDrop(addr: seq<nat>, areas: Areas, k: nat)
    requires ByAddress(addr, areas) && k < |addr|
    ensures ByAddress(Without(addr, k), areas - {addr[k]})
  {
    ListsDrop(addr, areas, k);
    var t, m := Without(addr, k), areas - {addr[k]};
    hide Lists;
    forall i | 0 <= i < |t|
      ensures t[i] in m && m[t[i]] == areas[t[i]]
    {
      WithoutAt(addr, k, i);
      Member(addr, areas, t, m, i, k);
    }
    forall i, j | 0 <= i < j < |t|
      ensures t[i] + m[t[i]] <= t[j]
    {
      WithoutAt(addr, k, i);
      WithoutAt(addr, k, j);
    }
  }

  lemma Member(s: seq<nat>, areas: Areas, t: seq<nat>, m: Areas, i: nat, k: nat)
    requires k < |s| && i < |t| == |s| - 1 && t[i] == (if i < k then s[i] else s[i + 1])
    requires m == areas - {s[k]} && Lists(t, m)
    ensures t[i] in m && t[i] in areas && m[t[i]] == areas[t[i]]
  {
    assert t[i] in t;
  }

  /** At position `k` of the list, `c` pages from `b` on stand between what is before and what is behind. */
  ghost predicate FitsBehind(addr: seq<nat>, areas: Areas, k: nat, b: nat, c: nat) {
    && k <= |addr| && (forall i | 0 <= i < k :: addr[i] in areas && addr[i] + areas[addr[i]] <= b)
    && forall i | k <= i < |addr| :: b + c <= addr[i]
  }

  lemma AddressAdd(addr: seq<nat>, areas: Areas, k: nat, b: nat, c: nat)
    requires ByAddress(addr, areas) && b !in areas && FitsBehind(addr, areas, k, b, c)
    ensures ByAddress(Inserted(addr, k, b), areas[b := c])
  {
    ListsAdd(addr, areas, k, b, c);
    var t, m := Inserted(addr, k, b), areas[b := c];
    hide Lists;
    forall i | 0 <= i < |t|
      ensures t[i] in m
    {
      InsertedAt(addr, k, b, i);
    }
    forall i, j | 0 <= i < j < |t|
      ensures t[i] + m[t[i]] <= t[j]
    {
      InsertedAt(addr, k, b, i);
      InsertedAt(addr, k, b, j);
    }
  }

  lemma SizeDrop(asc: seq<nat>, areas: Areas, k: nat)
    requires BySize(asc, areas) && k < |asc|
    ensures BySize(Without(asc, k), areas - {asc[k]})
  {
    ListsDrop(asc, areas, k);
    var t, m := Without(asc, k), areas - {asc[k]};
    hide Lists;
    forall i | 0 <= i < |t|
      ensures t[i] in m && m[t[i]] == areas[t[i]]
    {
      WithoutAt(asc, k, i);
      Member(asc, areas, t, m, i, k);
    }
    forall i, j | 0 <= i < j < |t|
      ensures m[t[i]] <= m[t[j]]
    {
      WithoutAt(asc, k, i);
      WithoutAt(asc, k, j);
    }
  }

  lemma SizeAdd(asc: seq<nat>, areas: Areas, k: nat, b: nat, c: nat)
    requires BySize(asc, areas) && k <= |asc| && b !in areas
    requires forall i | 0 <= i < k :: areas[asc[i]] <= c
    requires forall i | k <= i < |asc| :: c <= areas[asc[i]]
    ensures BySize(Inserted(asc, k, b), areas[b := c])
  {
    ListsAdd(asc, areas, k, b, c);
    var t, m := Inserted(asc, k, b), areas[b := c];
    hide Lists;
    forall i | 0 <= i < |t|
      ensures t[i] in m
    {
      InsertedAt(asc, k, b, i);
    }
    forall i, j | 0 <= i < j < |t|
      ensures m[t[i]] <= m[t[j]]
    {
      InsertedAt(asc, k, b, i);
      InsertedAt(asc, k, b, j);
    }
  }

  /** A smaller area may stay where it is when the one before is no larger. */
  lemma SizeStay(asc: seq<nat>, areas: Areas, k: nat, c: nat)
    requires BySize(asc, areas) && k < |asc| && c <= areas[asc[k]] && (k > 0 ==> areas[asc[k - 1]] <= c)
    ensures BySize(asc, areas[asc[k] := c])
  {
  }

  lemma SizeIn(asc: seq<nat>, areas: Areas, k: nat)
    requires BySize(asc, areas) && k < |asc|
    ensures asc[k] in areas
  {
  }

  lemma AddressIn(addr: seq<nat>, areas: Areas, a: nat)
    requires ByAddress(addr, areas) && a in areas
    ensures a in addr
  {
  }

  class Early {
    var areas: Areas       // avail_page_count of every freepages_info
    var addr: seq<nat>     // g_freepage_list
    var asc: seq<nat>      // g_asc_freelist
    var remaining: nat     // g_total_free_pages_remaining

    /** One area. */
    constructor (a: nat, c: nat)
      requires c > 0
      ensures Valid() && areas == map[a := c]
    {
      areas, addr, asc, remaining := map[a := c], [a], [a], c;
      new;
      TotalPut(map[], a, c);
    }

    ghost predicate Valid()
      reads this
    {
      && ByAddress(addr, areas) && BySize(asc, areas) && remaining == Total(areas)
      && forall a | a in areas :: areas[a] > 0
    }

    /** add_to_asc_list, for an area that is not in the list. */
    method AddAsc(b: nat, c: nat)
      requires BySize(asc, areas) && b !in areas
      modifies this`asc
      ensures BySize(asc, areas[b := c])
    {
      var k := 0;
      while k < |asc| && !(c < areas[asc[k]])
        invariant 0 <= k <= |asc| && forall i | 0 <= i < k :: areas[asc[i]] <= c
      {
        k := k + 1;
      }
      SizeAdd(asc, areas, k, b, c);
      asc := Inserted(asc, k, b);
    }

    /** The area at position `k` of the list by size keeps `c` pages; an empty one leaves both lists.  The
        result is the position behind `prev` in the list by address: behind the area, or where it was. */
    method Shrink(k: nat, c: nat) returns (behind: nat)
      requires ByAddress(addr, areas) && BySize(asc, areas) && k < |asc| && asc[k] in areas && c < areas[asc[k]]
      modifies this`areas, this`addr, this`asc
      ensures ByAddress(addr, areas) && BySize(asc, areas)
      ensures var a := old(asc)[k];
              if c == 0 then areas == old(areas) - {a} && behind < |old(addr)| && old(addr)[behind] == a && addr == Without(old(addr), behind)
              else areas == old(areas)[a := c] && addr == old(addr) && 0 < behind <= |addr| && addr[behind - 1] == a
    {
      hide ByAddress, BySize, Lists, Without;
      SizeIn(asc, areas, k);
      var a := asc[k];
      AddressIn(addr, areas, a);
      var i :| 0 <= i < |addr| && addr[i] == a;
      behind := if c == 0 then i else i + 1;
      if c != 0 {
        AddressShrink(addr, areas, a, c);
        if k > 0 { SizeIn(asc, areas, k - 1); }
        if k > 0 && areas[asc[k - 1]] > c {
          SizeDrop(asc, areas, k);
          asc := Without(asc, k);
          areas := areas - {a};
          AddAsc(a, c);
          areas := areas[a := c];
          assert areas == old(areas)[a := c];
        } else {
          SizeStay(asc, areas, k, c);
          areas := areas[a := c];
        }
      } else {
        SizeDrop(asc, areas, k);
        AddressDrop(addr, areas, i);
        asc := Without(asc, k);
        addr := Without(addr, i);
        areas := areas - {a};
      }
    }

    /** early_alloc_page: the last page of the smallest area. */
    method AllocPage() returns (r: Answer)
      requires Valid()
      modifies this
      ensures Valid()
      ensures r != Panic && (r == NoMemory <==> old(areas) == map[])
      ensures r == NoMemory ==> areas == old(areas)
      ensures r.Pages? ==> old(Free(areas, r.first)) && remaining == old(remaining) - 1
      ensures r.Pages? ==> forall x: nat :: Free(areas, x) <==> old(Free(areas, x)) && x != r.first
      ensures r.Pages? ==> exists a | a in old(areas) :: Smallest(old(areas), a) && r.first + 1 == a + old(areas)[a]
    {
      hide ByAddress, BySize, Total;
      if asc == [] {
        NoneListed(asc, areas);
        return NoMemory;
      }
      SizeIn(asc, areas, 0);
      var a := asc[0];
      var c := areas[a] - 1;
      SmallestFirst(asc, areas);
      Taken(addr, areas, a, a + c, 1);
      var _ := Shrink(0, c);
      ghost var was := old(areas);
      TotalPut(was, a, c);
      TotalTake(was, a);
      remaining := remaining - 1;
      return Pages(a + c);
    }

    /** The pages behind those taken become an area of their own, put in the list by address directly
        behind `prev`. */
    method AddRest(behind: nat, b: nat, c: nat)
      requires ByAddress(addr, areas) && BySize(asc, areas) && b !in areas && FitsBehind(addr, areas, behind, b, c)
      modifies this`areas, this`addr, this`asc
      ensures ByAddress(addr, areas) && BySize(asc, areas) && areas == old(areas)[b := c]
      ensures addr == Inserted(old(addr), behind, b)
    {
      hide BySize, SizesUp, ByAddress, Inserted;
      AddressAdd(addr, areas, behind, b, c);
      addr := Inserted(addr, behind, b);
      AddAsc(b, c);
      areas := areas[b := c];
    }

    /** early_alloc_large_page, for a power of two.  Its alignment is computed in 32 bits: it panics
        exactly when the amount has 2^20 pages or more and some area is large enough. */
    method AllocLarge(amount: nat) returns (r: Answer)
      requires Valid() && exists k: nat :: amount == Pow2(k)
      modifies this
      ensures r == Panic <==> amount >= SHIFT_LIMIT && exists a :: a in old(areas) && old(areas)[a] >= amount
      ensures r == NoMemory <==> forall a | a in old(areas) :: old(areas)[a] < amount || (amount < SHIFT_LIMIT && AlignDown(a + old(areas)[a] - amount, amount) < a)
      ensures Valid() && (!r.Pages? ==> areas == old(areas))
      ensures r.Pages? ==> r.first % amount == 0 && remaining == old(remaining) - amount
      ensures r.Pages? ==> forall x: nat | r.first <= x < r.first + amount :: old(Free(areas, x))
      ensures r.Pages? ==> forall x: nat :: Free(areas, x) <==> old(Free(areas, x)) && !(r.first <= x < r.first + amount)
      ensures r.Pages? ==> exists a | a in old(areas) :: Chosen(old(areas), a, r.first, amount)
    {
      hide ByAddress, BySize, Total, AlignDown, Pow2, Boundary;
      ghost var e :| amount == Pow2(e);
      var k := 0;
      while k < |asc|
        invariant 0 <= k <= |asc| && Valid() && areas == old(areas) && asc == old(asc) && remaining == old(remaining)
        invariant forall i | 0 <= i < k :: asc[i] in areas && Unfit(areas, asc[i], amount)
      {
        SizeIn(asc, areas, k);
        var a := asc[k];
        if areas[a] >= amount {
          var boundary := Boundary(amount);
          BoundaryOf(e);
          if boundary == 0 {
            // has_align asserts that the boundary is not zero
            return Panic;
          }
          var p := AlignDown(a + areas[a] - amount, amount);
          if p >= a {
            ChosenHere(asc, areas, k, p, amount);
            Carve(k, p, amount);
            return Pages(p);
          }
        }
        k := k + 1;
      }
      AllUnfit(asc, areas, amount);
      return NoMemory;
    }

    /** Taking `n` pages from `p` on out of the area at position `k` of the list by size. */
    method Carve(k: nat, p: nat, n: nat)
      requires Valid() && k < |asc| && asc[k] in areas && asc[k] <= p && p + n <= asc[k] + areas[asc[k]] && n > 0
      modifies this
      ensures Valid() && areas == Carved(old(areas), old(asc)[k], p, n) && remaining == old(remaining) - n
      ensures forall x: nat :: Free(areas, x) <==> old(Free(areas, x)) && !(p <= x < p + n)
      ensures forall x: nat | p <= x < p + n :: old(Free(areas, x))
    {
      hide ByAddress, BySize, Total;
      var a := asc[k];
      var c := areas[a];
      Taken(addr, areas, a, p, n);
      CarvedTotal(areas, a, p, n);
      ghost var before := addr;
      var behind := Shrink(k, p - a);
      var rest := a + c - (p + n);
      if rest != 0 {
        if p == a {
          DroppedFits(before, old(areas), behind, p + n);
        } else {
          ShrunkFits(before, old(areas), behind, p - a, p + n);
        }
        AddRest(behind, p + n, rest);
      }
      remaining := remaining - n;
    }
  }

  lemma NoneListed(asc: seq<nat>, areas: Areas)
    requires BySize(asc, areas)
    ensures asc == [] <==> areas == map[]
  {
    if asc == [] {
      assert areas.Keys == {};
    } else {
      assert asc[0] in asc;
    }
  }

  /** The areas after `n` pages from `p` on are taken out of the area at `a`. */
  ghost function Carved(areas: Areas, a: nat, p: nat, n: nat): Areas
    requires a in areas && a <= p && p + n <= a + areas[a]
  {
    var low := if p == a then areas - {a} else areas[a := p - a];
    if p + n == a + areas[a] then low else low[p + n := a + areas[a] - (p + n)]
  }

  lemma Taken(addr: seq<nat>, areas: Areas, a: nat, p: nat, n: nat)
    requires ByAddress(addr, areas) && a in areas && a <= p && p + n <= a + areas[a] && n > 0
    ensures forall x: nat :: Free(Carved(areas, a, p, n), x) <==> Free(areas, x) && !(p <= x < p + n)
    ensures forall x: nat | p <= x < p + n :: Free(areas, x)
    ensures p + n < a + areas[a] ==> p + n !in areas
  {
    hide ByAddress, Free;
    var m, e := Carved(areas, a, p, n), p + n;
    if e < a + areas[a] {
      NonEmptyOther(addr, areas, a, e);
    }
    forall x: nat
      ensures Free(m, x) <==> Free(areas, x) && !(p <= x < p + n)
    {
      TakenAt(addr, areas, a, p, n, x);
    }
    forall x: nat | p <= x < p + n
      ensures Free(areas, x)
    {
      FreeIn(areas, a, x);
    }
  }

  lemma FreeIn(areas: Areas, a: nat, x: nat)
    requires InArea(areas, a, x)
    ensures Free(areas, x)
  {
  }

  /** No area begins inside another. */
  lemma NonEmptyOther(addr: seq<nat>, areas: Areas, a: nat, e: nat)
    requires ByAddress(addr, areas) && a in areas && a < e < a + areas[a]
    ensures e !in areas
  {
  }

  lemma TakenAt(addr: seq<nat>, areas: Areas, a: nat, p: nat, n: nat, x: nat)
    requires ByAddress(addr, areas) && a in areas && a <= p && p + n <= a + areas[a] && n > 0
    requires p + n < a + areas[a] ==> p + n !in areas
    ensures Free(Carved(areas, a, p, n), x) <==> Free(areas, x) && !(p <= x < p + n)
  {
    var m, e := Carved(areas, a, p, n), p + n;
    if Free(m, x) {
      var b :| InArea(m, b, x);
      if b == a || (b == e && e < a + areas[a]) {
        assert InArea(areas, a, x);
      } else {
        assert InArea(areas, b, x);
        if p <= x < p + n {
          AreasApart(addr, areas, a, b, x);
          assert false;
        }
      }
    }
    if Free(areas, x) && !(p <= x < p + n) {
      var b :| InArea(areas, b, x);
      if b == a {
        assert InArea(m, if x < p then a else e, x);
      } else {
        assert InArea(m, b, x);
      }
    }
  }

  lemma AddressPair(addr: seq<nat>, areas: Areas, i: nat, j: nat)
    requires ByAddress(addr, areas) && i < j < |addr|
    ensures addr[i] in areas && addr[j] in areas && addr[i] != addr[j] && addr[i] + areas[addr[i]] <= addr[j]
  {
  }

  /** Where an area was, there is room for its end. */
  lemma DroppedFits(addr: seq<nat>, areas: Areas, i: nat, b: nat)
    requires ByAddress(addr, areas) && i < |addr| && addr[i] in areas && addr[i] < b <= addr[i] + areas[addr[i]]
    ensures FitsBehind(Without(addr, i), areas - {addr[i]}, i, b, addr[i] + areas[addr[i]] - b)
  {
    var t, m := Without(addr, i), areas - {addr[i]};
    assert |t| == |addr| - 1;
    hide ByAddress, Without;
    forall j | 0 <= j < i
      ensures t[j] in m && t[j] + m[t[j]] <= b
    {
      WithoutAt(addr, i, j);
      AddressPair(addr, areas, j, i);
    }
    forall j | i <= j < |t|
      ensures b + (addr[i] + areas[addr[i]] - b) <= t[j]
    {
      WithoutAt(addr, i, j);
      AddressPair(addr, areas, i, j + 1);
    }
  }

  /** Behind what is left of an area, there is room for its end. */
  lemma ShrunkFits(addr: seq<nat>, areas: Areas, k: nat, c: nat, b: nat)
    requires ByAddress(addr, areas) && 0 < k <= |addr| && addr[k - 1] in areas
    requires addr[k - 1] + c <= b <= addr[k - 1] + areas[addr[k - 1]]
    ensures FitsBehind(addr, areas[addr[k - 1] := c], k, b, addr[k - 1] + areas[addr[k - 1]] - b)
  {
  }

  /** The area cannot give the pages, for want of size or of an aligned place. */
  ghost predicate Unfit(areas: Areas, a: nat, amount: nat)
    requires a in areas && amount > 0
  {
    areas[a] < amount || (amount < SHIFT_LIMIT && AlignDown(a + areas[a] - amount, amount) < a)
  }

  /** An area is unfit exactly when no aligned run of so many pages lies in it. */
  lemma UnfitMeans(areas: Areas, a: nat, amount: nat)
    requires a in areas && 0 < amount < SHIFT_LIMIT
    ensures Unfit(areas, a, amount) <==> forall p: nat | a <= p && p + amount <= a + areas[a] :: p % amount != 0
  {
    if areas[a] >= amount {
      var x := a + areas[a] - amount;
      var q := AlignDown(x, amount);
      hide AlignDown;
      forall p: nat | a <= p && p + amount <= a + areas[a] && p % amount == 0
        ensures p <= q
      {
        LastMultiple(p, q, x, amount);
      }
    }
  }

  lemma LastMultiple(p: nat, q: nat, x: nat, n: nat)
    requires n > 0 && p <= x < q + n && p % n == 0 && q % n == 0
    ensures p <= q
  {
    var i, j := p / n, q / n;
    assert p == i * n && q == j * n;
    if i > j {
      OneMore(i, j, n);
    } else {
      NoMore(i, j, n);
    }
  }

  lemma OneMore(i: nat, j: nat, n: nat)
    requires i > j
    ensures i * n >= j * n + n
  {
    assert i * n == j * n + n + (i - j - 1) * n;
  }

  lemma NoMore(i: nat, j: nat, n: nat)
    requires i <= j
    ensures i * n <= j * n
  {
    assert j * n == i * n + (j - i) * n;
  }

  ghost predicate Smallest(areas: Areas, a: nat) {
    a in areas && forall x | x in areas :: areas[a] <= areas[x]
  }

  lemma SmallestFirst(asc: seq<nat>, areas: Areas)
    requires BySize(asc, areas) && asc != []
    ensures Smallest(areas, asc[0])
  {
    forall x | x in areas
      ensures areas[asc[0]] <= areas[x]
    {
      assert x in asc;
      var k :| 0 <= k < |asc| && asc[k] == x;
    }
  }

  /** The pages taken are the last aligned ones of their area, and every smaller area is unfit. */
  ghost predicate Chosen(areas: Areas, a: nat, p: nat, amount: nat) {
    && a in areas && amount > 0 && a <= p && p + amount <= a + areas[a] < p + 2 * amount
    && forall x | x in areas && areas[x] < areas[a] :: Unfit(areas, x, amount)
  }

  lemma ChosenHere(asc: seq<nat>, areas: Areas, k: nat, p: nat, amount: nat)
    requires BySize(asc, areas) && k < |asc| && asc[k] in areas && amount > 0 && areas[asc[k]] >= amount
    requires p == AlignDown(asc[k] + areas[asc[k]] - amount, amount) >= asc[k]
    requires forall i | 0 <= i < k :: asc[i] in areas && Unfit(areas, asc[i], amount)
    ensures Chosen(areas, asc[k], p, amount)
  {
    hide Unfit, AlignDown;
    var a := asc[k];
    forall x | x in areas && areas[x] < areas[a]
      ensures Unfit(areas, x, amount)
    {
      assert x in asc;
      var i :| 0 <= i < |asc| && asc[i] == x;
      assert i < k;
    }
  }

  lemma AllUnfit(asc: seq<nat>, areas: Areas, amount: nat)
    requires BySize(asc, areas) && amount > 0 && forall i | 0 <= i < |asc| :: asc[i] in areas && Unfit(areas, asc[i], amount)
    ensures forall a | a in areas :: Unfit(areas, a, amount)
  {
    forall a | a in areas
      ensures Unfit(areas, a, amount)
    {
      assert a in asc;
    }
  }

  lemma CarvedTotal(areas: Areas, a: nat, p: nat, n: nat)
    requires a in areas && a <= p && p + n <= a + areas[a] && n > 0 && (p + n < a + areas[a] ==> p + n !in areas)
    ensures Total(Carved(areas, a, p, n)) == Total(areas) - n
  {
    hide Total;
    var low := if p == a then areas - {a} else areas[a := p - a];
    TotalTake(areas, a);
    TotalPut(areas, a, p - a);
    TotalPut(low, p + n, a + areas[a] - (p + n));
  }

  /** Exactly 2^20 pages, and an area of that size: the boundary is zero in 32 bits. */
  method LargePanics() returns (r: Answer)
    ensures r == Panic
  {
    hide ByAddress, BySize, Total;
    var e := new Early(0, SHIFT_LIMIT);
    TwentyBits();
    assert 0 in e.areas && e.areas[0] >= SHIFT_LIMIT;
    r := e.AllocLarge(SHIFT_LIMIT);
  }

  /** `alloc_amount << PAGE_SHIFT`, in 32 bits. */
  function Boundary(amount: nat): nat {
    amount * 4096 % 0x1_0000_0000
  }

  /** For a power of two the boundary is that many pages in bytes, or zero from 2^20 pages on. */
  lemma BoundaryOf(k: nat)
    ensures Boundary(Pow2(k)) == if Pow2(k) < SHIFT_LIMIT then Pow2(k) * 4096 else 0
    ensures Boundary(Pow2(k)) == 0 <==> Pow2(k) >= SHIFT_LIMIT
  {
    TwentyBits();
    if k >= 20 {
      Pow2Grows(20, k);
      Pow2Sum(20, k - 20);
      hide Pow2;
      ModIs(Pow2(k) * 4096, 0x1_0000_0000, Pow2(k - 20), 0);
    } else {
      Pow2Grows(k, 20);
      hide Pow2;
      ModIs(Pow2(k) * 4096, 0x1_0000_0000, 0, Pow2(k) * 4096);
    }
  }

  lemma {:induction false} Pow2Sum(a: nat, b: nat)
    ensures Pow2(a + b) == Pow2(a) * Pow2(b)
  {
    if b > 0 {
      Pow2Sum(a, b - 1);
      assert Pow2(a) * (2 * Pow2(b - 1)) == 2 * (Pow2(a) * Pow2(b - 1));
    }
  }

  lemma TwentyBits()
    ensures Pow2(20) == SHIFT_LIMIT
  {
    assert Pow2(5) == 32 && Pow2(10) == 1024 && Pow2(15) == 32768;
  }
}
