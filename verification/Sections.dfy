/** The table of usable memory sections (kernel/boot.c, kernel/mm/section.c, kernel/mm/early.c): each
    section maps a range of physical addresses to consecutive page numbers. */
module Sections {
  import opened Common

  const PAGE: nat := 4096

  datatype Range = Range(front: nat, size: nat)

  datatype Section = Section(front: nat, size: nat, pfn: nat)

  function End(s: Section): nat {
    s.front + s.size
  }

  /** range_has_loc. */
  predicate HasLoc(s: Section, loc: nat) {
    s.front <= loc < s.front + s.size
  }

  function PfnIn(s: Section, phys: nat): nat
    requires HasLoc(s, phys)
  {
    s.pfn + (phys - s.front) / PAGE
  }

  /** phys_to_pfn, as a function. */
  function Lookup(list: seq<Section>, phys: nat): (r: Option<nat>) {
    if list == [] then None
    else if HasLoc(list[0], phys) then Some(PfnIn(list[0], phys))
    else Lookup(list[1..], phys)
  }

  predicate Whole(s: Section) {
    s.front % PAGE == 0 && s.size % PAGE == 0
  }

  /** `t` can follow `s`: above it, with the next page number. */
  predicate Follows(s: Section, t: Section) {
    End(s) <= t.front && t.pfn == s.pfn + s.size / PAGE
  }

  ghost predicate Ordered(list: seq<Section>) {
    && (forall i | 0 <= i < |list| :: Whole(list[i]))
    && forall i | 0 <= i < |list| - 1 :: Follows(list[i], list[i + 1])
  }

  ghost predicate SameMap(a: seq<Section>, b: seq<Section>) {
    forall phys: nat :: Lookup(a, phys) == Lookup(b, phys)
  }

  lemma {:induction false} Beyond(list: seq<Section>, i: nat, j: nat)
    requires Ordered(list) && i < j < |list|
    ensures End(list[i]) <= list[j].front && list[i].pfn + list[i].size / PAGE <= list[j].pfn
    decreases j
  {
    assert Follows(list[j - 1], list[j]);
    if i < j - 1 {
      Beyond(list, i, j - 1);
    }
  }

  lemma {:induction false} LookupAt(list: seq<Section>, i: nat, phys: nat)
    requires Ordered(list) && i < |list| && HasLoc(list[i], phys)
    ensures Lookup(list, phys) == Some(PfnIn(list[i], phys))
  {
    if i > 0 {
      Beyond(list, 0, i);
      var rest := list[1..];
      assert forall k | 0 <= k < |rest| :: rest[k] == list[k + 1];
      forall k | 0 <= k < |rest| - 1
        ensures Follows(rest[k], rest[k + 1])
      {
        assert rest[k] == list[k + 1] && rest[k + 1] == list[(k + 1) + 1];
      }
      LookupAt(rest, i - 1, phys);
    }
  }

  lemma {:induction false} LookupFinds(list: seq<Section>, phys: nat) returns (i: nat)
    requires Lookup(list, phys).Some?
    ensures i < |list| && HasLoc(list[i], phys) && Lookup(list, phys) == Some(PfnIn(list[i], phys))
  {
    if HasLoc(list[0], phys) {
      i := 0;
    } else {
      i := LookupFinds(list[1..], phys);
      i := i + 1;
    }
  }

  /** Different pages have different numbers. */
  lemma LookupInjective(list: seq<Section>, a: nat, b: nat)
    requires Ordered(list) && Lookup(list, a).Some? && Lookup(list, a) == Lookup(list, b)
    ensures a / PAGE == b / PAGE
  {
    var i := LookupFinds(list, a);
    var j := LookupFinds(list, b);
    assert Whole(list[i]) && Whole(list[j]);
    if i < j {
      Beyond(list, i, j);
    } else if j < i {
      Beyond(list, j, i);
    }
  }

  /** page_to_phys undoes phys_to_pfn: from the page number and its section, the start of the page. */
  lemma LookupBack(list: seq<Section>, phys: nat) returns (i: nat)
    requires Ordered(list) && Lookup(list, phys).Some?
    ensures i < |list| && HasLoc(list[i], phys)
    ensures var n := Lookup(list, phys).value;
            list[i].pfn <= n < list[i].pfn + list[i].size / PAGE && list[i].front + (n - list[i].pfn) * PAGE == phys / PAGE * PAGE
  {
    i := LookupFinds(list, phys);
    assert Whole(list[i]);
  }

  // ---------- joining and cutting ----------

  function Joined(s: Section, t: Section): Section {
    s.(size := s.size + t.size)
  }

  /** Two neighbouring sections can be joined, or one cut, without a change to the map. */
  lemma {:induction false} JoinKeeps(a: seq<Section>, s: Section, t: Section, b: seq<Section>)
    requires Whole(s) && Whole(t) && End(s) == t.front && Follows(s, t)
    ensures SameMap(a + [s, t] + b, a + [Joined(s, t)] + b)
  {
    forall phys: nat
      ensures Lookup(a + [s, t] + b, phys) == Lookup(a + [Joined(s, t)] + b, phys)
    {
      JoinedLookup(a, s, t, b, phys);
    }
  }

  lemma {:induction false} JoinedLookup(a: seq<Section>, s: Section, t: Section, b: seq<Section>, phys: nat)
    requires Whole(s) && Whole(t) && End(s) == t.front && Follows(s, t)
    ensures Lookup(a + [s, t] + b, phys) == Lookup(a + [Joined(s, t)] + b, phys)
  {
    if a == [] {
      assert ([] + [s, t] + b)[1..] == [t] + b && ([t] + b)[1..] == b;
      assert ([] + [Joined(s, t)] + b)[1..] == b;
      if HasLoc(t, phys) {
        PfnSplit(s, t, phys);
      }
    } else {
      assert (a + [s, t] + b)[1..] == a[1..] + [s, t] + b;
      assert (a + [Joined(s, t)] + b)[1..] == a[1..] + [Joined(s, t)] + b;
      JoinedLookup(a[1..], s, t, b, phys);
    }
  }

  lemma PfnSplit(s: Section, t: Section, phys: nat)
    requires Whole(s) && End(s) == t.front && Follows(s, t) && HasLoc(t, phys)
    ensures PfnIn(Joined(s, t), phys) == PfnIn(t, phys)
  {
    PageSum(s.size, phys - t.front);
  }

  ghost predicate Apart(list: seq<Section>, n: nat) {
    forall i | 0 <= i < n - 1 && i + 1 < |list| :: End(list[i]) != list[i + 1].front
  }

  class Table {
    var list: seq<Section>

    /** boot_merge_usable_memmaps: no two sections are neighbours any more, and every address keeps its
        page number.  Its loop ends by meeting the count, starting from 1: with no section it does not. */
    method Merge() returns (ends: bool)
      requires Ordered(list)
      modifies this
      ensures ends <==> old(list) != []
      ensures Ordered(list) && SameMap(list, old(list)) && Apart(list, |list|)
    {
      if |list| == 0 {
        return false;
      }
      ends := true;
      var index := 1;
      while index != |list|
        invariant 1 <= index <= |list| && Ordered(list) && SameMap(list, old(list)) && Apart(list, index)
        decreases |list| - index
      {
        while End(list[index - 1]) == list[index].front
          invariant 1 <= index < |list| && Ordered(list) && SameMap(list, old(list)) && Apart(list, index)
          decreases |list|
        {
          ghost var was := list;
          MergeStep(was, index);
          list := list[index - 1 := Joined(list[index - 1], list[index])];
          list := list[..index] + list[index + 1..];
          if index == |list| {
            return;
          }
        }
        index := index + 1;
      }
    }

    /** phys_to_pfn: the search over the sections. */
    method PhysToPfn(phys: nat) returns (r: Option<nat>)
      ensures r == Lookup(list, phys)
    {
      var i := 0;
      while i != |list|
        invariant 0 <= i <= |list| && Lookup(list, phys) == Lookup(list[i..], phys)
        decreases |list| - i
      {
        if HasLoc(list[i], phys) {
          return Some(PfnIn(list[i], phys));
        }
        assert list[i..][1..] == list[i + 1..];
        i := i + 1;
      }
      return None;
    }

    /** boot_recalculate_pfns, and the numbering of boot_init: sections over ascending ranges get page
        numbers one after the other. */
    method AssignPfns()
      requires forall i | 0 <= i < |list| :: Whole(list[i])
      requires forall i | 0 <= i < |list| - 1 :: End(list[i]) <= list[i + 1].front
      modifies this
      ensures |list| == |old(list)| && Ordered(list) && (list != [] ==> list[0].pfn == 0)
      ensures forall i | 0 <= i < |list| :: list[i].front == old(list)[i].front && list[i].size == old(list)[i].size
    {
      var i := 0;
      var pfn := 0;
      while i != |list|
        invariant 0 <= i <= |list| == |old(list)|
        invariant forall k | 0 <= k < |list| :: list[k].front == old(list)[k].front && list[k].size == old(list)[k].size
        invariant forall k | 0 <= k < i - 1 :: list[k + 1].pfn == list[k].pfn + list[k].size / PAGE
        invariant if i == 0 then pfn == 0 else list[0].pfn == 0 && pfn == list[i - 1].pfn + list[i - 1].size / PAGE
        decreases |list| - i
      {
        list := list[i := list[i].(pfn := pfn)];
        pfn := pfn + list[i].size / PAGE;
        i := i + 1;
      }
      assert forall k | 0 <= k < |list| :: Whole(old(list)[k]);
    }

    /** split_section_at_boundary: the section is cut in two, the lower part first. */
    method SplitAt(i: nat, boundary: nat)
      requires Ordered(list) && i < |list| && list[i].front <= boundary <= End(list[i]) && boundary % PAGE == 0
      modifies this
      ensures list == Cut(old(list), i, boundary) && Ordered(list) && SameMap(list, old(list))
    {
      var s := list[i];
      var pfn := s.pfn;
      var range := Range(s.front, boundary - s.front);
      CutKeeps(list, i, boundary);
      list := list[i := Section(boundary, s.size - (boundary - s.front), s.pfn + range.size / PAGE)];
      // boot_add_section_at
      list := list[..i] + [Section(range.front, range.size, pfn)] + list[i..];
      assert list == Cut(old(list), i, boundary);
    }

    /** split_sections_for_zones: afterwards every section lies in one zone, and every address keeps its
        page number.  `zone` numbers the zones upward, and zones begin on page boundaries. */
    method SplitForZones(zone: nat -> nat)
      requires Ordered(list) && Zones(zone) && forall i | 0 <= i < |list| :: 0 < list[i].size < POW64
      modifies this
      ensures Ordered(list) && SameMap(list, old(list)) && forall i | 0 <= i < |list| :: OneZone(list[i], zone)
    {
      var i := 0;
      while i != |list|
        invariant 0 <= i <= |list| && Ordered(list) && SameMap(list, old(list))
        invariant forall k | 0 <= k < |list| :: 0 < list[k].size < POW64
        invariant forall k | 0 <= k < i :: OneZone(list[k], zone)
        decreases Work(list[i..], zone)
      {
        var s := list[i];
        assert Whole(s);
        assert list[i..][1..] == list[i + 1..];
        var begin, back := zone(s.front), zone(End(s) - PAGE);
        if begin == back {
          SameThroughout(s, zone);
          i := i + 1;
          continue;
        }
        var boundary := FindBoundary(s, zone);
        CutWork(list, zone, i, boundary);
        SplitAt(i, boundary);
        i := i + 1;
      }
    }
  }

  lemma MergeStep(list: seq<Section>, index: nat)
    requires Ordered(list) && 1 <= index < |list| && End(list[index - 1]) == list[index].front && Apart(list, index)
    ensures var one := list[index - 1 := Joined(list[index - 1], list[index])];
            var r := one[..index] + one[index + 1..];
            |r| == |list| - 1 && Ordered(r) && SameMap(r, list) && Apart(r, index)
  {
    var s, t := list[index - 1], list[index];
    var a, b := list[..index - 1], list[index + 1..];
    var one := list[index - 1 := Joined(s, t)];
    var r := one[..index] + one[index + 1..];
    assert Whole(s) && Whole(t) && Follows(s, t);
    JoinKeeps(a, s, t, b);
    assert list == a + [s, t] + b && r == a + [Joined(s, t)] + b;
    assert forall i | 0 <= i < |r| :: r[i] == if i < index - 1 then list[i] else if i == index - 1 then Joined(s, t) else list[i + 1];
    forall i | 0 <= i < |r| - 1
      ensures Follows(r[i], r[i + 1])
    {
      assert i + 1 < |list| && Follows(list[i], list[i + 1]);
      if i >= index - 1 {
        assert Follows(list[i + 1], list[i + 2]);
      }
    }
  }

  function Lower(s: Section, boundary: nat): Section
    requires s.front <= boundary <= End(s)
  {
    Section(s.front, boundary - s.front, s.pfn)
  }

  function Upper(s: Section, boundary: nat): Section
    requires s.front <= boundary <= End(s)
  {
    Section(boundary, End(s) - boundary, s.pfn + (boundary - s.front) / PAGE)
  }

  function Cut(list: seq<Section>, i: nat, boundary: nat): seq<Section>
    requires i < |list| && list[i].front <= boundary <= End(list[i])
  {
    list[..i] + [Lower(list[i], boundary), Upper(list[i], boundary)] + list[i + 1..]
  }

  lemma CutKeeps(list: seq<Section>, i: nat, boundary: nat)
    requires Ordered(list) && i < |list| && list[i].front <= boundary <= End(list[i]) && boundary % PAGE == 0
    ensures Ordered(Cut(list, i, boundary)) && SameMap(Cut(list, i, boundary), list)
  {
    var s := list[i];
    var l, u := Lower(s, boundary), Upper(s, boundary);
    var r := Cut(list, i, boundary);
    assert Whole(s);
    CutFollows(s, boundary);
    CutNeighbours(list, i, boundary);
    hide Follows, Whole, Lower, Upper;
    JoinKeeps(list[..i], l, u, list[i + 1..]);
    assert list == list[..i] + [s] + list[i + 1..];
    assert forall k | 0 <= k < |r| :: r[k] == if k < i then list[k] else if k == i then l else if k == i + 1 then u else list[k - 1];
    forall k | 0 <= k < |r| - 1
      ensures Follows(r[k], r[k + 1])
    {
      if k < i {
        assert Follows(list[k], list[k + 1]);
      } else if k > i {
        assert Follows(list[k - 1], list[(k - 1) + 1]);
      }
    }
  }

  lemma CutFollows(s: Section, boundary: nat)
    requires Whole(s) && s.front <= boundary <= End(s) && boundary % PAGE == 0
    ensures var l, u := Lower(s, boundary), Upper(s, boundary);
            Whole(l) && Whole(u) && Follows(l, u) && End(l) == u.front && Joined(l, u) == s
  {
  }

  lemma CutNeighbours(list: seq<Section>, i: nat, boundary: nat)
    requires Ordered(list) && i < |list| && list[i].front <= boundary <= End(list[i]) && boundary % PAGE == 0
    ensures i > 0 ==> Follows(list[i - 1], Lower(list[i], boundary))
    ensures i + 1 < |list| ==> Follows(Upper(list[i], boundary), list[i + 1])
  {
    var s := list[i];
    assert Whole(s);
    PageSum(boundary - s.front, End(s) - boundary);
    if i > 0 {
      assert Follows(list[i - 1], list[(i - 1) + 1]);
    }
    if i + 1 < |list| {
      assert Follows(s, list[i + 1]);
    }
  }

  lemma PageSum(x: nat, y: nat)
    requires x % PAGE == 0
    ensures (x + y) / PAGE == x / PAGE + y / PAGE
  {
  }

  // ---------- zones ----------

  /** Zones are numbered upward and change on page boundaries only. */
  ghost predicate Zones(zone: nat -> nat) {
    && (forall a, b | a <= b :: zone(a) <= zone(b))
    && forall a: nat, b: nat | a / PAGE == b / PAGE :: zone(a) == zone(b)
  }

  ghost predicate OneZone(s: Section, zone: nat -> nat) {
    forall phys: nat | HasLoc(s, phys) :: zone(phys) == zone(s.front)
  }

  lemma SameThroughout(s: Section, zone: nat -> nat)
    requires Whole(s) && s.size > 0 && Zones(zone) && zone(s.front) == zone(End(s) - PAGE)
    ensures OneZone(s, zone)
  {
    forall phys: nat | HasLoc(s, phys)
      ensures zone(phys) == zone(s.front)
    {
      var p := phys / PAGE * PAGE;
      assert s.front <= p <= End(s) - PAGE;
      assert zone(s.front) <= zone(p) <= zone(End(s) - PAGE);
    }
  }

  /** Zone changes still inside the sections, plus the sections themselves. */
  ghost function Work(list: seq<Section>, zone: nat -> nat): nat {
    if list == [] then 0 else Span(list[0], zone) + 1 + Work(list[1..], zone)
  }

  ghost function Span(s: Section, zone: nat -> nat): nat {
    if s.size >= PAGE && zone(End(s) - PAGE) >= zone(s.front) then zone(End(s) - PAGE) - zone(s.front) else 0
  }

  lemma CutWork(list: seq<Section>, zone: nat -> nat, i: nat, boundary: nat)
    requires i < |list| && list[i].front < boundary < End(list[i]) && Zones(zone) && zone(list[i].front) < zone(boundary)
    requires Whole(list[i]) && boundary % PAGE == 0
    ensures Work(Cut(list, i, boundary)[i + 1..], zone) < Work(list[i..], zone)
  {
    var u := Upper(list[i], boundary);
    var r := Cut(list, i, boundary);
    assert r[i + 1..] == [u] + list[i + 1..] && ([u] + list[i + 1..])[1..] == list[i + 1..];
    assert list[i..][1..] == list[i + 1..];
    assert zone(boundary) <= zone(End(u) - PAGE);
  }

  lemma {:induction false} Pow2Plus(a: nat, b: nat)
    ensures Pow2(a + b) == Pow2(a) * Pow2(b)
  {
    if b > 0 {
      Pow2Plus(a, b - 1);
      assert Pow2(a + b) == 2 * Pow2(a + (b - 1));
      assert Pow2(a) * (2 * Pow2(b - 1)) == 2 * (Pow2(a) * Pow2(b - 1));
    }
  }

  lemma Pow2At64()
    ensures Pow2(64) == POW64
  {
    assert Pow2(4) == 16;
    Pow2Plus(4, 4);
    Pow2Plus(8, 8);
    Pow2Plus(16, 16);
    Pow2Plus(32, 32);
  }

  function Scaled(k: nat, mid: nat): nat {
    Pow2(k) * mid
  }

  /** Halving a 64-bit number reaches zero within 64 steps. */
  lemma Steps(k: nat, mid: nat, size: nat)
    requires Scaled(k, mid) <= size < POW64 && mid > 0
    ensures k < 64 && Scaled(k + 1, mid / 2) <= size
  {
    var p, h := Pow2(k), mid / 2;
    assert p <= p * mid;
    if k >= 64 {
      Pow2At64();
      Pow2Grows(64, k);
    }
    assert Pow2(k + 1) == 2 * p;
    assert (2 * p) * h == p * (2 * h);
    assert p * (2 * h) <= p * mid;
  }

  lemma NoSteps(mid: nat)
    ensures Scaled(0, mid) == mid
  {
  }

  /** The first address of another zone. */
  ghost function Change(zone: nat -> nat, lo: nat, hi: nat): (z: nat)
    requires Zones(zone) && lo < hi && zone(lo) != zone(hi)
    ensures lo < z <= hi && zone(z) != zone(lo) && z % PAGE == 0
    ensures forall p: nat | lo <= p < z :: zone(p) == zone(lo)
    decreases hi - lo
  {
    if zone(lo + 1) != zone(lo) then
      assert (lo + 1) / PAGE != lo / PAGE;
      lo + 1
    else Change(zone, lo + 1, hi)
  }

  /** The halving search of split_sections_for_zones.  It is not exact: every halving of an odd number
      may lose one byte.  For any section size that fits 64 bits the page align-up makes up for it, and
      the boundary is where the zone changes. */
  method FindBoundary(s: Section, zone: nat -> nat) returns (boundary: nat)
    requires Whole(s) && 0 < s.size < POW64 && Zones(zone) && zone(s.front) != zone(End(s) - PAGE)
    ensures s.front < boundary < End(s) && boundary % PAGE == 0
    ensures forall phys: nat :: s.front <= phys < End(s) ==> (zone(phys) == zone(s.front) <==> phys < boundary)
  {
    ghost var z := Change(zone, s.front, End(s) - PAGE);
    Divides(zone, s.front, z);
    hide Zones, Scaled;
    var begin := zone(s.front);
    var front := s.front;
    var mid: nat := s.size / 2;
    NoSteps(mid);
    ghost var k := 0;
    while mid != 0
      invariant s.front <= front < z && z - front <= 2 * mid + 1 + k && front + 2 * mid <= End(s)
      invariant Scaled(k, mid) <= s.size && k <= 64
      decreases mid
    {
      Steps(k, mid, s.size);
      if zone(front + mid) == begin {
        front := front + mid;
      }
      mid := mid / 2;
      k := k + 1;
    }
    boundary := (front + PAGE - 1) / PAGE * PAGE;
    AlignsTo(front, z);
  }

  lemma AlignsTo(x: nat, z: nat)
    requires z % PAGE == 0 && x < z < x + PAGE
    ensures (x + PAGE - 1) / PAGE * PAGE == z
  {
  }

  lemma Divides(zone: nat -> nat, lo: nat, z: nat)
    requires Zones(zone) && lo < z && zone(z) != zone(lo) && forall p: nat | lo <= p < z :: zone(p) == zone(lo)
    ensures forall p: nat | lo <= p :: zone(p) == zone(lo) <==> p < z
  {
    forall p: nat | lo <= p
      ensures zone(p) == zone(lo) <==> p < z
    {
      if p >= z {
        assert zone(lo) <= zone(z) <= zone(p);
      }
    }
  }
}
