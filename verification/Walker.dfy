/** The page-table walker of kernel/mm/walker.c. */
module Walker {
  import opened Common
  import opened PageTable
  import opened TableRefs

  const DONE: int := -1  // PTWALKER_DONE

  class PtWalker {
    const top: nat
    const canLarge: set<nat>
    const root: nat
    var mem: Mem
    var refs: Refs
    var freed: seq<nat>  // tables given to free_pgtable
    var tables: seq<Option<nat>>
    var indices: seq<nat>
    var level: int

    /** From the walker's level up, every table is the one the indices lead to. */
    ghost predicate Positioned()
      reads this
    {
      |indices| == top && 1 <= level <= top && Right(mem, canLarge, root, tables, indices, level)
    }

    /** The walk cannot go below the walker's level. */
    ghost predicate AtStop()
      requires |indices| == top
      reads this
    {
      1 <= level <= top && (level == 1 || TableAt(mem, canLarge, root, indices, level - 1).None?)
    }

    /** ptwalker_create_for_pagemap. */
    constructor (memory: Mem, counts: Refs, rootPhys: nat, topLevel: nat, large: set<nat>, virt: nat)
      requires topLevel >= 1 && virt % 4096 == 0
      ensures mem == memory && refs == counts && freed == [] && root == rootPhys && top == topLevel && canLarge == large
      ensures Positioned() && indices == Digits(virt, top) && AtStop()
      ensures forall i | 0 <= i < top :: tables[i] == TableAt(mem, canLarge, root, indices, i + 1)
    {
      hide Index, TableAt, Leads;
      mem, refs, freed, root, top, canLarge := memory, counts, [], rootPhys, topLevel, large;
      tables := seq(topLevel, i => None)[topLevel - 1 := Some(rootPhys)];
      indices := seq(topLevel, i => 0)[topLevel - 1 := Index(virt, topLevel)];
      level := topLevel;
      new;
      var prev := tables[top - 1];
      ghost var d := Digits(virt, top);
      TableTop(mem, canLarge, root, d);
      var l := top - 1;
      while l >= 1
        invariant 0 <= l < top && mem == memory && |tables| == |indices| == top
        invariant forall i | l <= i < top :: indices[i] == d[i] && tables[i] == TableAt(mem, canLarge, root, d, i + 1)
        invariant prev == tables[l] && l < level <= top && tables[level - 1].Some?
        invariant forall i | l <= i < top :: tables[i].Some? <==> level - 1 <= i
        modifies this`tables, this`indices, this`level
      {
        TableStep(mem, canLarge, root, d, l);
        var table := None;
        if prev.Some? {
          var entry := Read(mem, prev.value, indices[l]);
          if entry.present {
            if (l + 1) !in canLarge || !entry.large {
              table := Some(entry.phys);
              level := l;
            } else {
              level := l + 1;
            }
          }
        }
        tables := tables[l - 1 := table];
        indices := indices[l - 1 := Index(virt, l)];
        prev := table;
        l := l - 1;
      }
      assert indices == d;
      assert level > 1 ==> tables[level - 2].None?;
    }

    /** reset_levels_lower_than. */
    method ResetLower(from: nat)
      requires |tables| == |indices| == top && 1 <= from <= top + 1
      modifies this`tables, this`indices
      ensures |tables| == |indices| == top
      ensures forall i | 0 <= i < from - 1 :: tables[i] == None && indices[i] == 0
      ensures forall i | from - 1 <= i < top :: tables[i] == old(tables)[i] && indices[i] == old(indices)[i]
    {
      var l := from - 1;
      while l >= 1
        invariant 0 <= l <= from - 1 && |tables| == |indices| == top
        invariant forall i | l <= i < from - 1 :: tables[i] == None && indices[i] == 0
        invariant forall i | 0 <= i < top && !(l <= i < from - 1) :: tables[i] == old(tables)[i] && indices[i] == old(indices)[i]
      {
        tables := tables[l - 1 := None];
        indices := indices[l - 1 := 0];
        l := l - 1;
      }
    }

    /** setup_levels_lower_than: down the first entries, as far as they lead. */
    method SetupLower(parent: nat, first: Pte)
      requires |indices| == top && 2 <= parent <= top && Right(mem, canLarge, root, tables, indices, parent)
      requires first == Read(mem, tables[parent - 1].value, indices[parent - 1]) && Leads(canLarge, parent, first)
      modifies this`tables, this`indices, this`level
      ensures Positioned() && level < parent && AtStop()
      ensures forall i | level - 1 <= i < parent - 1 :: indices[i] == 0
      ensures forall i | parent - 1 <= i < top || 0 <= i < level - 1 :: indices[i] == old(indices)[i]
    {
      hide Right, TableAt, Leads;
      RightLength(mem, canLarge, root, tables, indices, parent);
      var l := parent - 1;
      var entry := first;
      while true
        invariant 1 <= l < parent && |tables| == |indices| == top && tables[l].Some?
        invariant Right(mem, canLarge, root, tables, indices, l + 1)
        invariant entry == Read(mem, tables[l].value, indices[l]) && Leads(canLarge, l + 1, entry)
        invariant forall i | l <= i < parent - 1 :: indices[i] == 0
        invariant forall i | parent - 1 <= i < top || 0 <= i < l :: indices[i] == old(indices)[i]
        decreases l
        modifies this`tables, this`indices, this`level
      {
        var table := entry.phys;
        RightSet(mem, canLarge, root, tables, indices, l, table);
        tables := tables[l - 1 := Some(table)];
        indices := indices[l - 1 := 0];
        entry := Read(mem, table, 0);
        LeadsIs(canLarge, l, entry);
        if !entry.present || (l in canLarge && entry.large) {
          level := l;
          StopsAt(mem, canLarge, root, tables, indices, l);
          break;
        }
        l := l - 1;
        if l < 1 {
          level := 1;
          break;
        }
        RightLength(mem, canLarge, root, tables, indices, l + 1);
      }
    }

    /** Where a step lands: at an entry of level `m` that is present. */
    method Land(m: nat)
      requires |indices| == top && 2 <= m <= top && Right(mem, canLarge, root, tables, indices, m)
      requires Read(mem, tables[m - 1].value, indices[m - 1]).present
      modifies this`tables, this`indices, this`level
      ensures Positioned() && level <= m && AtStop()
      ensures forall i | level - 1 <= i < m - 1 :: indices[i] == 0
      ensures forall i | m - 1 <= i < top :: indices[i] == old(indices)[i]
      ensures forall i | 0 <= i < level - 1 :: indices[i] == old(indices)[i] || indices[i] == 0
    {
      hide Right, TableAt;
      RightLength(mem, canLarge, root, tables, indices, m);
      var entry := Read(mem, tables[m - 1].value, indices[m - 1]);
      if m !in canLarge {
        SetupLower(m, entry);
      } else if entry.large {
        IndicesSmall(mem, canLarge, root, tables, indices, m);
        ghost var t, i := tables, indices;
        ResetLower(m);
        RightKept(mem, canLarge, root, t, i, tables, indices, m);
        level := m;
        StopsAt(mem, canLarge, root, tables, indices, m);
      } else {
        SetupLower(m, entry);
      }
    }

    /** ptwalker_deref_from_level: drops a reference on the table of a level, and frees it and goes on
        upward if that was the last. */
    method Deref(from: nat) returns (panic: bool)
      requires |tables| == |indices| == top && 1 <= from && forall i | from - 1 <= i < top :: tables[i].Some?
      modifies this`mem, this`refs, this`freed, this`level
      ensures from < old(level) || from > top ==>
                !panic && mem == old(mem) && refs == old(refs) && freed == old(freed) && level == old(level)
      ensures old(level) <= from <= top ==>
                var chain := Values(tables[from - 1..]);
                var d := Freed(old(refs), chain);
                && (panic <==> ReleasePanics(old(refs), chain))
                && (!panic ==> refs == Released(old(refs), chain) && freed == old(freed) + chain[..d] && level == from + d &&
                               mem == Cleared(old(mem), chain, indices[from - 1..], d))
    {
      if from < level || from > top {
        return false;
      }
      panic := DerefLoop(from);
    }

    /** The loop of ptwalker_deref_from_level. */
    method DerefLoop(from: nat) returns (panic: bool)
      requires |tables| == |indices| == top && 1 <= from <= top && forall i | from - 1 <= i < top :: tables[i].Some?
      modifies this`mem, this`refs, this`freed, this`level
      ensures var chain := Values(tables[from - 1..]);
              var d := Freed(old(refs), chain);
              && (panic <==> ReleasePanics(old(refs), chain))
              && (!panic ==> refs == Released(old(refs), chain) && freed == old(freed) + chain[..d] && level == from + d &&
                             mem == Cleared(old(mem), chain, indices[from - 1..], d))
    {
      hide Freed, Released, ReleasePanics, Cleared, Values, SameRelease, DownPanics;
      ghost var chain, idx := Values(tables[from - 1..]), indices[from - 1..];
      ghost var d := Freed(refs, chain);
      var l := from;
      SameStart(refs, mem, chain, idx);
      while l <= top
        invariant from <= l <= top + 1 && level == old(level)
        invariant freed == old(freed) + chain[..l - from]
        invariant SameRelease(old(refs), old(mem), chain, idx, d, refs, mem, chain[l - from..], idx[l - from..], from + d - l)
      {
        ghost var k := l - from;
        var table := tables[l - 1].value;
        assert chain[k] == table && (l < top ==> chain[k + 1] == tables[l].value && idx[k + 1] == indices[l]);
        ReleaseStep(old(refs), old(mem), chain, idx, d, refs, mem, chain[k..], idx[k..], from + d - l);
        assert chain[k..][1..] == chain[k + 1..] && idx[k..][1..] == idx[k + 1..];
        var down := DownPanics(refs, table);
        if down {
          return true;
        }
        var last := Count(refs, table) == 1;
        refs := refs[table := Count(refs, table) - 1];
        if !last {
          level := l;
          return false;
        }
        if l != top {
          mem := mem[(tables[l].value, indices[l]) := ABSENT];
        }
        freed := freed + [table];
        l := l + 1;
      }
      SameEnd(old(refs), old(mem), chain, idx, d, refs, mem, chain[l - from..], idx[l - from..], from + d - l);
      level := l;
      return false;
    }

    /** ptwalker_drop_lowest. */
    method DropLowest() returns (panic: bool)
      requires |tables| == |indices| == top && 1 <= level <= top && forall i | level <= i < top :: tables[i].Some?
      modifies this
      ensures |tables| == |indices| == top
      ensures tables == old(tables)[old(level) - 1 := None] && indices == old(indices)[old(level) - 1 := 0]
      ensures var chain := Values(old(tables)[old(level)..]);
              var d := Freed(old(refs), chain);
              && (panic <==> ReleasePanics(old(refs), chain))
              && (!panic ==> refs == Released(old(refs), chain) && freed == old(freed) + chain[..d] &&
                             level == (if chain == [] then top else old(level) + 1 + d) &&
                             mem == Cleared(old(mem), chain, old(indices)[old(level)..], d))
    {
      tables := tables[level - 1 := None];
      indices := indices[level - 1 := 0];
      assert tables[level..] == old(tables)[level..] && indices[level..] == old(indices)[level..];
      panic := Deref(level + 1);
    }

    ghost function Started(parent: nat, answers: seq<Option<nat>>, shouldRef: bool): Start
      reads this
    {
      Start(mem, refs, tables, indices, parent, answers, shouldRef)
    }

    /** The refusal in alloc_levels_down_to of the table of level `l`. */
    method Refuse(l: nat, ghost g: Start, ghost needed: nat) returns (r: Result)
      requires Hung(g, canLarge, root, mem, refs, tables, l) && 1 <= l && indices == g.indices && |indices| == top
      requires g.parent - 1 - l < needed <= |g.answers| && g.answers[g.parent - 1 - l].None?
      modifies this
      ensures PathOk(g.tables, g.parent) && r == Outcome(g.refs, Path(g), g.answers, needed, g.shouldRef) && r != Ok
      ensures r == AllocFail ==>
                && (Kept(g.mem, mem) <==> !Loses(g.refs, Path(g), g.answers, g.shouldRef))
                && freed == old(freed) + Above(g)[..FreedAfter(g.refs, Path(g), g.answers, g.shouldRef)]
      ensures r == AllocFail && g.shouldRef && CountsRight(g.mem, g.refs) && NoRepeat(Path(g)) ==>
                (CountsRight(mem, refs) <==> |Path(g)| == 1 && Refused(g.answers) == 0)
    {
      hide Hung, HungRefs, Outcome, Loses, Chain, Freed, Released, ReleasePanics, Cleared, Kept, Values, FreedAfter, Path, Refused, Above, CountsRight, NoRepeat;
      HungBegun(g, canLarge, root, mem, refs, tables, l);
      HungEnd(g, canLarge, root, mem, refs, tables, l);
      HungValues(g, canLarge, root, mem, refs, tables, l);
      HungRefused(g, tables, l);
      RefusedOutcome(g, mem, refs, needed);
      RefusedKept(g, canLarge, root, mem, refs, tables, l, Freed(refs, Above(g)));
      if g.shouldRef && CountsRight(g.mem, g.refs) && NoRepeat(Path(g)) {
        RefusedCounts(g, canLarge, root, mem, refs, tables, l, Freed(refs, Above(g)));
      }
      level := l + 1;
      var panic := DropLowest();
      r := if panic then Panic else AllocFail;
    }

    /** alloc_table_at_pte and ref_up. */
    method Hang(l: nat, phys: nat, shouldRef: bool, ghost g: Start) returns (panic: bool)
      requires Hung(g, canLarge, root, mem, refs, tables, l) && 1 <= l && indices == g.indices && |indices| == top
      requires shouldRef == g.shouldRef && g.parent - 1 - l < |g.answers| && g.answers[g.parent - 1 - l] == Some(phys)
      modifies this`mem, this`refs, this`tables
      ensures PathOk(g.tables, g.parent) && g.parent - l <= Refused(g.answers)
      ensures panic <==> RaisePanics(g.refs, Path(g), g.answers, g.parent - l, shouldRef)
      ensures !panic ==> Hung(g, canLarge, root, mem, refs, tables, l - 1)
    {
      hide Hung, RaisePanics;
      HungBegun(g, canLarge, root, mem, refs, tables, l);
      HungStep(g, canLarge, root, mem, refs, tables, l);
      var t := tables[l].value;
      tables := tables[l - 1 := Some(phys)];
      mem := mem[(t, indices[l]) := Pte(true, false, phys)];
      if shouldRef {
        if UpPanics(refs, t) {
          return true;
        }
        refs := refs[t := Count(refs, t) + 1];
      }
      return false;
    }

    /** alloc_levels_down_to; `answers` are what alloc_pgtable returns. */
    method AllocDown(parent: nat, last: nat, allocLast: bool, shouldRef: bool, answers: seq<Option<nat>>) returns (r: Result)
      requires |indices| == top && 1 <= last < parent <= top && Right(mem, canLarge, root, tables, indices, parent)
      requires !Read(mem, tables[parent - 1].value, indices[parent - 1]).present
      requires |answers| >= top && FreshTables(mem, tables, answers) && forall i | 0 <= i < parent - 1 :: indices[i] == 0
      modifies this
      ensures PathOk(old(tables), parent)
      ensures r == Outcome(old(refs), Values(old(tables)[parent - 1..]), answers, Needed(parent, last, allocLast), shouldRef)
      ensures r == Ok ==> Positioned() && level == (if allocLast then last else last + 1) && indices == old(indices)
      ensures r == Ok ==> Kept(old(mem), mem) && freed == old(freed)
      ensures r == Ok ==> refs == Raised(old(refs), Values(old(tables)[parent - 1..]), answers, Needed(parent, last, allocLast), shouldRef)
      ensures r == Ok && shouldRef && old(CountsRight(mem, refs)) ==> CountsRight(mem, refs)
      ensures r == AllocFail ==>
                var path := Values(old(tables)[parent - 1..]);
                && (Kept(old(mem), mem) <==> !Loses(old(refs), path, answers, shouldRef))
                && (shouldRef && old(CountsRight(mem, refs)) && NoRepeat(path) ==>
                      (CountsRight(mem, refs) <==> |path| == 1 && Refused(answers) == 0))
                && freed == old(freed) + Chain(path, answers, Refused(answers))[1..][..FreedAfter(old(refs), path, answers, shouldRef)]
    {
      hide Right, TableAt, Outcome, CountsRight, Hung, Raised, RaisePanics, Chain, FreedAfter, Loses, Kept, FreshTables, NoRepeat;
      RightPath(mem, canLarge, root, tables, indices, parent);
      ghost var g, needed := Started(parent, answers, shouldRef), Needed(parent, last, allocLast);
      HungStart(g, canLarge, root);
      var l := parent - 1;
      while l > last || (l == last && allocLast)
        invariant last - 1 <= l < parent && indices == g.indices && freed == old(freed)
        invariant (if allocLast then last - 1 else last) <= l && Hung(g, canLarge, root, mem, refs, tables, l)
        decreases l + 1
        modifies this
      {
        HungBegun(g, canLarge, root, mem, refs, tables, l);
        var answer := answers[parent - 1 - l];
        if answer.None? {
          r := Refuse(l, g, needed);
          return;
        }
        var panic := Hang(l, answer.value, shouldRef, g);
        if panic {
          OutcomePanics(g.refs, Path(g), answers, parent - l, needed, shouldRef);
          return Panic;
        }
        l := l - 1;
      }
      level := l + 1;
      HungEnd(g, canLarge, root, mem, refs, tables, l);
      OutcomeOk(g.refs, Path(g), answers, needed, shouldRef);
      return Ok;
    }

    /** A step at a level above the walker's own, onto an entry that is not present. */
    ghost predicate Stuck(lv: int)
      requires |tables| == |indices| == top && level <= lv && 1 <= lv <= top
      reads this
    {
      level < lv && indices[lv - 1] + 1 < COUNT && tables[lv - 1].Some? &&
      !Read(mem, tables[lv - 1].value, indices[lv - 1] + 1).present
    }

    /** A step that carries to an absent entry, below which tables have to be allocated. */
    ghost predicate Allocates(a: seq<nat>, lv: nat, allocParents: bool)
      requires |tables| == |a| == top && 1 <= lv
      reads this
    {
      var m := Turns(a, lv);
      allocParents && lv < m <= top && PathOk(tables, m) && !Read(mem, tables[m - 1].value, a[m - 1] + 1).present
    }

    /** ptwalker_next_with_options.  A successful step moves the address, taken down to the level asked
        for, by exactly the page size of that level, through any chain of carries; the end is reported
        exactly when there is no such address; an allocation fails, or a reference count panics, exactly
        when one of the tables it has to allocate does.  No present entry is changed, except by the clean-up
        after a failed allocation, and there exactly when it loses one.  After a successful step the walker
        stands right, except that a step at a level above its own onto an absent entry leaves it at a
        level without a table. */
    method Next(lv: int, allocParents: bool, allocLevel: bool, shouldRef: bool, answers: seq<Option<nat>>) returns (r: Result)
      requires Positioned() && |answers| >= top && FreshTables(mem, tables, answers)
      modifies this
      ensures r == BadIncr <==> old(level) > lv || lv > top
      ensures r == BadIncr ==> unchanged(this)
      ensures r == ReachedEnd <==> old(level) <= lv <= top && forall i | lv - 1 <= i < top :: old(indices)[i] == COUNT - 1
      ensures r == ReachedEnd ==> level == DONE
      ensures r == Ok ==> |indices| == top && 1 <= level <= top && Addr(indices, level) == Addr(old(indices), lv) + Size(lv)
      ensures r == Ok ==> (Positioned() <==> !old(Stuck(lv)))
      ensures r == AllocFail || r == Panic ==> old(level) <= lv <= top && old(Allocates(indices, lv, allocParents))
      ensures old(level) <= lv <= top && old(Allocates(indices, lv, allocParents)) ==>
                var m := Turns(old(indices), lv);
                var path := Values(old(tables)[m - 1..]);
                && r == Outcome(old(refs), path, answers, Needed(m, lv, allocLevel), shouldRef)
                && (r == AllocFail ==> (Kept(old(mem), mem) <==> !Loses(old(refs), path, answers, shouldRef)))
                && (r == AllocFail && shouldRef && old(CountsRight(mem, refs)) && NoRepeat(path) ==>
                      (CountsRight(mem, refs) <==> |path| == 1 && Refused(answers) == 0))
      ensures r != AllocFail && r != Panic ==> Kept(old(mem), mem)
      ensures !allocParents ==> mem == old(mem) && refs == old(refs)
      ensures r == Ok && shouldRef && old(CountsRight(mem, refs)) ==> CountsRight(mem, refs)
    {
      hide Right, TableAt, Addr, Size, CountsRight, Outcome, Loses, NoRepeat, Refused, PathOk;
      if level > lv || lv > top {
        return BadIncr;
      }
      ghost var a, t := indices, tables;
      RightLength(mem, canLarge, root, t, a, level);
      IndicesSmall(mem, canLarge, root, t, a, level);
      RightUp(mem, canLarge, root, t, a, level, lv);
      RightLength(mem, canLarge, root, t, a, lv);
      indices := indices[lv - 1 := indices[lv - 1] + 1];
      if indices[lv - 1] < COUNT {
        NextInside(lv, a);
        return Ok;
      }
      r := NextCarry(lv, allocParents, allocLevel, shouldRef, answers, a);
    }

    /** The step inside a table, the index of level `lv` having gone up. */
    method NextInside(lv: nat, ghost a: seq<nat>)
      requires |a| == |indices| == top && 1 <= level <= lv <= top && Right(mem, canLarge, root, tables, a, level)
      requires indices == a[lv - 1 := a[lv - 1] + 1] && indices[lv - 1] < COUNT
      modifies this`tables, this`indices, this`level
      ensures |indices| == top && 1 <= level <= top && Addr(indices, level) == Addr(a, lv) + Size(lv)
      ensures |old(tables)| == top && old(tables)[lv - 1].Some?
      ensures Positioned() <==> !(old(level) < lv && !Read(mem, old(tables)[lv - 1].value, a[lv - 1] + 1).present)
    {
      hide Right, TableAt, Addr, Size;
      ghost var t := tables;
      RightLength(mem, canLarge, root, t, a, level);
      IndicesSmall(mem, canLarge, root, t, a, level);
      RightUp(mem, canLarge, root, t, a, level, lv);
      RightLength(mem, canLarge, root, t, a, lv);
      RightKept(mem, canLarge, root, t, a, tables, indices, lv);
      if lv == 1 {
        Advanced(a, indices, 1, 1, 1);
        return;
      }
      var entry := Read(mem, tables[lv - 1].value, indices[lv - 1]);
      if !entry.present {
        ghost var t', i' := tables, indices;
        ResetLower(lv);
        RightKept(mem, canLarge, root, t', i', tables, indices, lv);
        Advanced(a, indices, lv, lv, level);
        if level < lv {
          NotRight(mem, canLarge, root, tables, indices, level);
        }
        return;
      }
      Land(lv);
      Advanced(a, indices, lv, lv, level);
    }

    /** The carry loop: indices that ran over, up to the first that does not. */
    method CarryUp(lv: nat, ghost a: seq<nat>) returns (m: nat)
      requires |a| == |indices| == top && 1 <= lv <= top && a[lv - 1] == COUNT - 1 && indices == a[lv - 1 := COUNT]
      modifies this`indices
      ensures m == Turns(a, lv) && lv < m <= top + 1 && |indices| == top
      ensures forall i | lv - 1 <= i < m - 1 :: a[i] == COUNT - 1 && indices[i] == COUNT
      ensures m <= top ==> a[m - 1] != COUNT - 1 && indices[m - 1] == a[m - 1] + 1
      ensures forall i | m <= i < top || 0 <= i < lv - 1 :: indices[i] == a[i]
    {
      m := lv;
      while true
        invariant lv <= m <= top && |indices| == top && Turns(a, lv) == Turns(a, m + 1)
        invariant forall i | lv - 1 <= i < m :: a[i] == COUNT - 1 && indices[i] == COUNT
        invariant forall i | m <= i < top || 0 <= i < lv - 1 :: indices[i] == a[i]
        decreases top - m
      {
        m := m + 1;
        if m > top {
          return;
        }
        indices := indices[m - 1 := indices[m - 1] + 1];
        if indices[m - 1] != COUNT {
          return;
        }
      }
    }

    /** The step once the index of level `lv` one too high. */
    method NextCarry(lv: nat, allocParents: bool, allocLevel: bool, shouldRef: bool, answers: seq<Option<nat>>, ghost a: seq<nat>) returns (r: Result)
      requires |a| == |indices| == top && 1 <= level <= lv <= top && Right(mem, canLarge, root, tables, a, lv)
      requires a[lv - 1] == COUNT - 1 && indices == a[lv - 1 := COUNT]
      requires |answers| >= top && FreshTables(mem, tables, answers)
      modifies this
      ensures r != BadIncr
      ensures r == ReachedEnd <==> forall i | lv - 1 <= i < top :: a[i] == COUNT - 1
      ensures r == ReachedEnd ==> level == DONE
      ensures r == Ok ==> Positioned() && Addr(indices, level) == Addr(a, lv) + Size(lv)
      ensures r == AllocFail || r == Panic ==> old(Allocates(a, lv, allocParents))
      ensures old(Allocates(a, lv, allocParents)) ==>
                var m := Turns(a, lv);
                var path := Values(old(tables)[m - 1..]);
                && r == Outcome(old(refs), path, answers, Needed(m, lv, allocLevel), shouldRef)
                && (r == AllocFail ==> (Kept(old(mem), mem) <==> !Loses(old(refs), path, answers, shouldRef)))
                && (r == AllocFail && shouldRef && old(CountsRight(mem, refs)) && NoRepeat(path) ==>
                      (CountsRight(mem, refs) <==> |path| == 1 && Refused(answers) == 0))
      ensures r != AllocFail && r != Panic ==> Kept(old(mem), mem)
      ensures !allocParents ==> mem == old(mem) && refs == old(refs)
      ensures r == Ok && shouldRef && old(CountsRight(mem, refs)) ==> CountsRight(mem, refs)
    {
      hide Right, TableAt, Addr, Size, CountsRight, Outcome, Loses, NoRepeat, Refused;
      RightLength(mem, canLarge, root, tables, a, lv);
      IndicesSmall(mem, canLarge, root, tables, a, lv);
      ghost var t := tables;
      var m := CarryUp(lv, a);
      if m > top {
        level := DONE;
        ResetLower(m);
        return ReachedEnd;
      }
      RightUp(mem, canLarge, root, t, a, lv, m);
      RightKept(mem, canLarge, root, t, a, tables, indices, m);
      RightLength(mem, canLarge, root, tables, indices, m);
      assert a[m - 1] != COUNT - 1;
      var entry := Read(mem, tables[m - 1].value, indices[m - 1]);
      if entry.present {
        Land(m);
        assert forall i | lv - 1 <= i < m - 1 :: indices[i] % COUNT == 0;
        Advanced(a, indices, lv, m, level);
        return Ok;
      }
      assert tables[m - 1..] == t[m - 1..];
      r := NextAbsent(m, lv, allocParents, allocLevel, shouldRef, answers, a);
    }

    /** The carry ended at an absent entry of level `m`. */
    method NextAbsent(m: nat, lv: nat, allocParents: bool, allocLevel: bool, shouldRef: bool, answers: seq<Option<nat>>, ghost a: seq<nat>)
      returns (r: Result)
      requires |a| == |indices| == top && 1 <= lv < m <= top && Right(mem, canLarge, root, tables, indices, m) && PathOk(tables, m)
      requires !Read(mem, tables[m - 1].value, indices[m - 1]).present
      requires forall i | lv - 1 <= i < m - 1 :: a[i] == COUNT - 1
      requires a[m - 1] + 1 == indices[m - 1] && forall i | m <= i < top :: indices[i] == a[i]
      requires |answers| >= top && FreshTables(mem, tables, answers)
      modifies this
      ensures r == Ok ==> Positioned() && Addr(indices, level) == Addr(a, lv) + Size(lv) && Kept(old(mem), mem)
      ensures var path := Values(old(tables)[m - 1..]);
              && r == (if allocParents then Outcome(old(refs), path, answers, Needed(m, lv, allocLevel), shouldRef) else Ok)
              && (r == AllocFail ==> (Kept(old(mem), mem) <==> !Loses(old(refs), path, answers, shouldRef)))
              && (r == AllocFail && shouldRef && old(CountsRight(mem, refs)) && NoRepeat(path) ==>
                    (CountsRight(mem, refs) <==> |path| == 1 && Refused(answers) == 0))
      ensures !allocParents ==> mem == old(mem) && refs == old(refs)
      ensures r == Ok && shouldRef && old(CountsRight(mem, refs)) ==> CountsRight(mem, refs)
    {
      hide Right, TableAt, Addr, Size, CountsRight, Outcome, Loses, NoRepeat, Refused;
      ghost var t, i' := tables, indices;
      IndicesSmall(mem, canLarge, root, tables, indices, m);
      ResetLower(m);
      RightKept(mem, canLarge, root, t, i', tables, indices, m);
      if !allocParents {
        level := m;
        Advanced(a, indices, lv, m, level);
        return Ok;
      }
      assert tables[m - 1..] == t[m - 1..];
      FreshStill(mem, t, tables, answers);
      r := AllocDown(m, lv, allocLevel, shouldRef, answers);
      if r == Ok {
        Advanced(a, indices, lv, m, level);
      }
    }

    /** ptwalker_get_virt_addr; the bits of different levels do not overlap, so that or is plus. */
    method GetVirtAddr() returns (r: nat)
      requires |indices| == top && 1 <= level
      ensures r == Addr(indices, level)
    {
      hide Mul;
      r := 0;
      var l := level;
      while l <= top
        invariant level <= l <= top + 1 || l == level
        invariant r + Addr(indices, l) == Addr(indices, level)
        decreases top + 1 - l
      {
        r := r + Mul(indices[l - 1] % COUNT, Size(l));
        l := l + 1;
      }
    }

    /** ptwalker_virt_get_phys: the loop finds what the translation finds. */
    static method VirtGetPhys(memory: Mem, rootPhys: nat, topLevel: nat, large: set<nat>, virt: nat) returns (r: Option<nat>)
      requires topLevel >= 1 && virt % 4096 == 0
      ensures r == Translate(memory, large, rootPhys, virt, topLevel)
    {
      hide Offset, Index;
      var w := new PtWalker(memory, map[], rootPhys, topLevel, large, virt);
      ghost var d := Digits(virt, topLevel);
      assert w.tables[w.level - 1].Some? && w.indices[w.level - 1] == Index(virt, w.level);
      TranslateFrom(memory, large, rootPhys, virt, topLevel, w.level);
      if w.level > 1 {
        assert d[w.level - 1] == Index(virt, w.level);
      }
      if w.level > 1 && w.level !in large {
        return None;
      }
      var pte := Read(w.mem, w.tables[w.level - 1].value, w.indices[w.level - 1]);
      if !pte.present {
        return None;
      }
      if w.level != 1 && !pte.large {
        return None;
      }
      return Some(pte.phys + Offset(virt, w.level));
    }
  }

  // ---------- where a step goes wrong ----------

  /** Two levels, the first entry of the root leading to a table, the second absent: a step at level 2
      leaves the walker at level 1 without a table. */
  method StuckStep() returns (w: PtWalker, r: Result)
    ensures r == Ok && !w.Positioned()
  {
    hide Right, Addr, Size;
    var mem: Mem := map[(2, 0) := Pte(true, false, 1)];
    w := new PtWalker(mem, map[], 2, 2, {}, 0);
    AtZero(2);
    assert TableAt(mem, {}, 2, w.indices, 2) == Some(2) && TableAt(mem, {}, 2, w.indices, 1) == Some(1);
    assert w.level == 1;
    NothingFresh(mem, w.tables, [None, None]);
    r := w.Next(2, false, false, false, [None, None]);
  }

  lemma AtZero(top: nat)
    requires top >= 2
    ensures Digits(0, top)[0] == 0 && Digits(0, top)[1] == 0
  {
  }

  lemma NothingFresh(mem: Mem, tables: seq<Option<nat>>, answers: seq<Option<nat>>)
    requires forall i | 0 <= i < |answers| :: answers[i] == None
    ensures FreshTables(mem, tables, answers)
  {
  }

  /** Four levels with one table each, counted right; the walker stands at the last entry of the lowest.
      The next step finds no entry on level 2, and the table it needs is refused: the clean-up gives up
      the table of level 3, and clears the entry of the root that led to it; the counts are wrong then. */
  method LostEntry() returns (mem: Mem, counts: Refs, w: PtWalker, r: Result)
    ensures CountsRight(mem, counts) && r == AllocFail && !Kept(mem, w.mem) && !CountsRight(w.mem, w.refs)
  {
    hide Addr, Size, CountsRight, Kept, Present, Digits, TableAt, Turns, Values, Outcome, Loses, FreshTables;
    mem := map[(4, 0) := Pte(true, false, 3), (3, 0) := Pte(true, false, 2), (2, 0) := Pte(true, false, 1)];
    counts := map[4 := 1, 3 := 1, 2 := 1];
    FourCounted(mem, counts);
    var virt := (COUNT - 1) * 4096;
    w := new PtWalker(mem, counts, 4, 4, {}, virt);
    LastOfLowest(virt);
    ghost var d := w.indices;
    FourTables(mem, d);
    assert w.level == 1 && w.tables == [Some(1), Some(2), Some(3), Some(4)];
    NothingFresh(mem, w.tables, [None, None, None, None]);
    assert w.tables[1..] == [Some(2), Some(3), Some(4)] && Values([Some(2), Some(3), Some(4)]) == [2, 3, 4];
    RefusedAtOnce(counts);
    r := w.Next(1, true, true, true, [None, None, None, None]);
  }

  lemma FourTables(mem: Mem, d: seq<nat>)
    requires mem == map[(4, 0) := Pte(true, false, 3), (3, 0) := Pte(true, false, 2), (2, 0) := Pte(true, false, 1)]
    requires d == [COUNT - 1, 0, 0, 0]
    ensures TableAt(mem, {}, 4, d, 4) == Some(4) && TableAt(mem, {}, 4, d, 3) == Some(3)
    ensures TableAt(mem, {}, 4, d, 2) == Some(2) && TableAt(mem, {}, 4, d, 1) == Some(1)
    ensures Turns(d, 1) == 2 && !Read(mem, 2, 1).present
  {
    assert Turns(d, 2) == 2;
  }

  lemma LastOfLowest(virt: nat)
    requires virt == (COUNT - 1) * 4096
    ensures Digits(virt, 4) == [COUNT - 1, 0, 0, 0]
  {
    assert Quot(virt, 1) == COUNT - 1 && Quot(virt, 2) == 0 && Quot(virt, 3) == 0 && Quot(virt, 4) == 0;
    assert Index(virt, 1) == COUNT - 1 && Index(virt, 2) == 0 && Index(virt, 3) == 0 && Index(virt, 4) == 0;
  }

  lemma RefusedAtOnce(counts: Refs)
    requires counts == map[4 := 1, 3 := 1, 2 := 1]
    ensures var answers := [None, None, None, None];
            && Outcome(counts, [2, 3, 4], answers, Needed(2, 1, true), true) == AllocFail
            && Loses(counts, [2, 3, 4], answers, true)
  {
    var r3 := counts[3 := 0];
    var r4 := r3[4 := 0];
    assert [2, 3, 4][1..] == [3, 4] && [3, 4][1..] == [4] && [4][1..] == [];
    assert !ReleasePanics(r4, []) && !ReleasePanics(r3, [4]) && !ReleasePanics(counts, [3, 4]);
  }

  lemma FourCounted(mem: Mem, counts: Refs)
    requires mem == map[(4, 0) := Pte(true, false, 3), (3, 0) := Pte(true, false, 2), (2, 0) := Pte(true, false, 1)]
    requires counts == map[4 := 1, 3 := 1, 2 := 1]
    ensures CountsRight(mem, counts)
  {
    hide Present;
    forall t: nat
      ensures Count(counts, t) == Present(mem, t, COUNT)
    {
      PresentFirst(mem, t, COUNT);
    }
  }

  lemma {:induction false} PresentFirst(mem: Mem, t: nat, n: nat)
    requires forall i | 0 < i < n :: !Read(mem, t, i).present
    ensures Present(mem, t, n) == if n > 0 && Read(mem, t, 0).present then 1 else 0
  {
    if n > 0 {
      PresentFirst(mem, t, n - 1);
    }
  }
}
