/** The reference counts of page tables: what allocating tables below a level takes, and what the clean-up
    after a refused allocation gives back (alloc_levels_down_to, ptwalker_drop_lowest and
    ptwalker_deref_from_level of kernel/mm/walker.c, lib/refcount.c). */
module TableRefs {
  import opened Common
  import opened PageTable

  datatype Result = Ok | ReachedEnd | AllocFail | BadIncr | Panic

  /** Reference counts of tables; a table that was never counted has none (REFCOUNT_EMPTY). */
  type Refs = map<nat, int>

  const REFCOUNT_MAX: int := 0x7FFF_FFFF

  function Count(refs: Refs, t: nat): int {
    if t in refs then refs[t] else 0
  }

  /** refcount_increment panics. */
  predicate UpPanics(refs: Refs, t: nat) {
    Count(refs, t) < 0 || Count(refs, t) == REFCOUNT_MAX
  }

  /** refcount_decrement panics. */
  predicate DownPanics(refs: Refs, t: nat) {
    Count(refs, t) < 1 || Count(refs, t) == REFCOUNT_MAX
  }

  /** The number of present entries among the first `n` of a table. */
  ghost function Present(mem: Mem, t: nat, n: nat): (r: nat)
    ensures r <= n
  {
    if n == 0 then 0 else Present(mem, t, n - 1) + if Read(mem, t, n - 1).present then 1 else 0
  }

  /** Every table counts its present entries. */
  ghost predicate CountsRight(mem: Mem, refs: Refs) {
    forall t: nat :: Count(refs, t) == Present(mem, t, COUNT)
  }

  lemma {:induction false} FillPresent(mem: Mem, t: nat, i: nat, e: Pte, u: nat, n: nat)
    requires !Read(mem, t, i).present && e.present
    ensures Present(mem[(t, i) := e], u, n) == Present(mem, u, n) + if u == t && i < n then 1 else 0
  {
    if n > 0 {
      FillPresent(mem, t, i, e, u, n - 1);
    }
  }

  /** An entry filled and counted. */
  lemma FillCounts(mem: Mem, refs: Refs, t: nat, i: nat, e: Pte)
    requires CountsRight(mem, refs) && i < COUNT && !Read(mem, t, i).present && e.present
    ensures CountsRight(mem[(t, i) := e], refs[t := Count(refs, t) + 1])
  {
    hide Present;
    var mem', refs' := mem[(t, i) := e], refs[t := Count(refs, t) + 1];
    forall u: nat
      ensures Count(refs', u) == Present(mem', u, COUNT)
    {
      FillPresent(mem, t, i, e, u, COUNT);
      assert Count(refs, u) == Present(mem, u, COUNT);
    }
  }

  function Values(s: seq<Option<nat>>): (r: seq<nat>)
    requires forall i | 0 <= i < |s| :: s[i].Some?
    ensures |r| == |s| && forall i | 0 <= i < |s| :: r[i] == s[i].value
  {
    seq(|s|, i requires 0 <= i < |s| => s[i].value)
  }

  /** How many tables ptwalker_deref_from_level frees, `chain` being the tables from its level up: it goes
      on as long as the reference it drops was the last one. */
  function Freed(refs: Refs, chain: seq<nat>): (d: nat)
    ensures d <= |chain|
  {
    if chain == [] || Count(refs, chain[0]) != 1 then 0 else 1 + Freed(refs[chain[0] := 0], chain[1..])
  }

  /** The counts afterwards. */
  function Released(refs: Refs, chain: seq<nat>): Refs {
    if chain == [] then refs
    else if Count(refs, chain[0]) == 1 then Released(refs[chain[0] := 0], chain[1..])
    else refs[chain[0] := Count(refs, chain[0]) - 1]
  }

  /** The table at which it stops has no reference to drop. */
  predicate ReleasePanics(refs: Refs, chain: seq<nat>) {
    chain != [] &&
    if Count(refs, chain[0]) == 1 then ReleasePanics(refs[chain[0] := 0], chain[1..]) else DownPanics(refs, chain[0])
  }

  const ABSENT: Pte := Pte(false, false, 0)

  /** What is left to do from here comes to the same as all of it from the start. */
  ghost predicate SameRelease(refs0: Refs, mem0: Mem, chain0: seq<nat>, idx0: seq<nat>, d0: nat,
                              refs: Refs, mem: Mem, chain: seq<nat>, idx: seq<nat>, d: int)
    requires |chain0| == |idx0| && |chain| == |idx|
  {
    && d == Freed(refs, chain) && ReleasePanics(refs0, chain0) == ReleasePanics(refs, chain)
    && Released(refs0, chain0) == Released(refs, chain) && Cleared(mem0, chain0, idx0, d0) == Cleared(mem, chain, idx, d)
  }

  lemma SameStart(refs: Refs, mem: Mem, chain: seq<nat>, idx: seq<nat>)
    requires |chain| == |idx|
    ensures SameRelease(refs, mem, chain, idx, Freed(refs, chain), refs, mem, chain[0..], idx[0..], Freed(refs, chain))
  {
    assert chain[0..] == chain && idx[0..] == idx;
  }

  lemma ReleaseStep(refs0: Refs, mem0: Mem, chain0: seq<nat>, idx0: seq<nat>, d0: nat,
                    refs: Refs, mem: Mem, chain: seq<nat>, idx: seq<nat>, d: int)
    requires |chain0| == |idx0| && |chain| == |idx| && chain != [] && SameRelease(refs0, mem0, chain0, idx0, d0, refs, mem, chain, idx, d)
    ensures DownPanics(refs, chain[0]) ==> ReleasePanics(refs0, chain0)
    ensures Count(refs, chain[0]) != 1 ==>
              && d == 0 && ReleasePanics(refs0, chain0) == DownPanics(refs, chain[0])
              && Released(refs0, chain0) == refs[chain[0] := Count(refs, chain[0]) - 1] && Cleared(mem0, chain0, idx0, d0) == mem
    ensures Count(refs, chain[0]) == 1 ==>
              var mem' := if |chain| > 1 then mem[(chain[1], idx[1]) := ABSENT] else mem;
              !DownPanics(refs, chain[0]) && d > 0 &&
              SameRelease(refs0, mem0, chain0, idx0, d0, refs[chain[0] := 0], mem', chain[1..], idx[1..], d - 1)
  {
  }

  lemma SameEnd(refs0: Refs, mem0: Mem, chain0: seq<nat>, idx0: seq<nat>, d0: nat, refs: Refs, mem: Mem, chain: seq<nat>, idx: seq<nat>, d: int)
    requires |chain0| == |idx0| && |chain| == |idx| == 0 && SameRelease(refs0, mem0, chain0, idx0, d0, refs, mem, chain, idx, d)
    ensures d == 0 && !ReleasePanics(refs0, chain0) && Released(refs0, chain0) == refs && Cleared(mem0, chain0, idx0, d0) == mem
  {
  }

  /** The entries for the first `d` tables of the chain, each in the table above it, are cleared. */
  function Cleared(mem: Mem, chain: seq<nat>, idx: seq<nat>, d: nat): Mem
    requires |chain| == |idx|
    decreases |chain|
  {
    if d == 0 || |chain| < 2 then mem else Cleared(mem[(chain[1], idx[1]) := ABSENT], chain[1..], idx[1..], d - 1)
  }

  /** The first refusal. */
  function Refused(answers: seq<Option<nat>>): (u: nat)
    ensures u <= |answers| && (u < |answers| ==> answers[u].None?) && forall i | 0 <= i < u :: answers[i].Some?
  {
    if answers == [] || answers[0].None? then 0 else 1 + Refused(answers[1..])
  }

  /** The tables upward from the lowest one after `u` allocations below `path`. */
  function Chain(path: seq<nat>, answers: seq<Option<nat>>, u: nat): (c: seq<nat>)
    requires path != [] && u <= Refused(answers)
    ensures |c| == u + |path| && c[u..] == path && forall k | 0 <= k < u :: c[k] == answers[u - 1 - k].value
  {
    if u == 0 then path else [answers[u - 1].value] + Chain(path, answers, u - 1)
  }

  /** The counts after `u` allocations: each took a reference on the table above it. */
  function Raised(refs: Refs, path: seq<nat>, answers: seq<Option<nat>>, u: nat, shouldRef: bool): Refs
    requires path != [] && u <= Refused(answers)
  {
    if u == 0 || !shouldRef then refs
    else
      var r, t := Raised(refs, path, answers, u - 1, shouldRef), Chain(path, answers, u - 1)[0];
      r[t := Count(r, t) + 1]
  }

  /** One of the first `u` references panics. */
  predicate RaisePanics(refs: Refs, path: seq<nat>, answers: seq<Option<nat>>, u: nat, shouldRef: bool)
    requires path != [] && u <= Refused(answers)
  {
    shouldRef && u > 0 &&
    (RaisePanics(refs, path, answers, u - 1, shouldRef) ||
     UpPanics(Raised(refs, path, answers, u - 1, shouldRef), Chain(path, answers, u - 1)[0]))
  }

  /** What comes of `needed` allocations below `path`. */
  function Outcome(refs: Refs, path: seq<nat>, answers: seq<Option<nat>>, needed: nat, shouldRef: bool): (r: Result)
    requires path != [] && needed <= |answers|
    ensures r == Ok || r == AllocFail || r == Panic
  {
    var u := Refused(answers);
    if needed <= u then (if RaisePanics(refs, path, answers, needed, shouldRef) then Panic else Ok)
    else if RaisePanics(refs, path, answers, u, shouldRef) then Panic
    else if ReleasePanics(Raised(refs, path, answers, u, shouldRef), Chain(path, answers, u)[1..]) then Panic
    else AllocFail
  }

  /** How many tables the clean-up frees. */
  function FreedAfter(refs: Refs, path: seq<nat>, answers: seq<Option<nat>>, shouldRef: bool): nat
    requires path != []
  {
    Freed(Raised(refs, path, answers, Refused(answers), shouldRef), Chain(path, answers, Refused(answers))[1..])
  }

  /** The clean-up clears an entry that was there before the call: with nothing allocated, the one for the
      table above the walker's when that had one reference left; otherwise when all new tables but the
      lowest, and the table they were hung under, had one reference left. */
  predicate Loses(refs: Refs, path: seq<nat>, answers: seq<Option<nat>>, shouldRef: bool)
    requires path != []
  {
    if Refused(answers) == 0 then |path| > 2 && Count(refs, path[1]) == 1
    else |path| > 1 && FreedAfter(refs, path, answers, shouldRef) >= Refused(answers)
  }

  function Needed(parent: nat, last: nat, allocLast: bool): nat
    requires last < parent
  {
    if allocLast then parent - last else parent - last - 1
  }

  lemma {:induction false} RefusedIs(answers: seq<Option<nat>>, u: nat)
    requires u < |answers| && answers[u].None? && u <= Refused(answers)
    ensures Refused(answers) == u
  {
  }

  lemma RefusedBeyond(answers: seq<Option<nat>>, u: nat)
    requires u < |answers| && answers[u].Some? && u <= Refused(answers)
    ensures u + 1 <= Refused(answers)
  {
    if u == Refused(answers) { assert false; }
  }

  lemma {:induction false} RaisePanicsOn(refs: Refs, path: seq<nat>, answers: seq<Option<nat>>, u: nat, v: nat, shouldRef: bool)
    requires path != [] && u <= v <= Refused(answers) && RaisePanics(refs, path, answers, u, shouldRef)
    ensures RaisePanics(refs, path, answers, v, shouldRef)
    decreases v - u
  {
    if u < v {
      RaisePanicsOn(refs, path, answers, u, v - 1, shouldRef);
    }
  }

  lemma OutcomeOk(refs: Refs, path: seq<nat>, answers: seq<Option<nat>>, u: nat, shouldRef: bool)
    requires path != [] && u <= Refused(answers) && !RaisePanics(refs, path, answers, u, shouldRef)
    ensures Outcome(refs, path, answers, u, shouldRef) == Ok
  {
  }

  lemma OutcomePanics(refs: Refs, path: seq<nat>, answers: seq<Option<nat>>, u: nat, needed: nat, shouldRef: bool)
    requires path != [] && u <= Refused(answers) && RaisePanics(refs, path, answers, u, shouldRef) && u <= needed <= |answers|
    ensures Outcome(refs, path, answers, needed, shouldRef) == Panic
  {
    RaisePanicsOn(refs, path, answers, u, if needed <= Refused(answers) then needed else Refused(answers), shouldRef);
  }

  lemma OutcomeRefused(refs: Refs, path: seq<nat>, answers: seq<Option<nat>>, needed: nat, shouldRef: bool)
    requires path != [] && Refused(answers) < needed <= |answers| && !RaisePanics(refs, path, answers, Refused(answers), shouldRef)
    ensures Outcome(refs, path, answers, needed, shouldRef) ==
            if ReleasePanics(Raised(refs, path, answers, Refused(answers), shouldRef), Chain(path, answers, Refused(answers))[1..])
            then Panic else AllocFail
  {
  }

  lemma AfterFirst(tables: seq<Option<nat>>, l: nat, path: seq<nat>, answers: seq<Option<nat>>, u: nat)
    requires PathOk(tables, l + 1) && path != [] && u <= Refused(answers) && Values(tables[l..]) == Chain(path, answers, u)
    ensures Values(tables[l + 1..]) == Chain(path, answers, u)[1..]
  {
    assert Values(tables[l + 1..]) == Values(tables[l..])[1..];
  }

  lemma ChainMore(tables: seq<Option<nat>>, tables': seq<Option<nat>>, l: nat, path: seq<nat>, answers: seq<Option<nat>>, u: nat)
    requires PathOk(tables, l + 1) && 1 <= l && path != [] && u < Refused(answers) && Values(tables[l..]) == Chain(path, answers, u)
    requires tables' == tables[l - 1 := answers[u]]
    ensures PathOk(tables', l) && Values(tables'[l - 1..]) == Chain(path, answers, u + 1)
    ensures Chain(path, answers, u)[0] == tables[l].value
  {
    assert Values(tables'[l - 1..]) == [answers[u].value] + Values(tables[l..]);
    assert Values(tables[l..])[0] == tables[l].value;
  }

  lemma LosesIs(refs: Refs, path: seq<nat>, answers: seq<Option<nat>>, shouldRef: bool)
    requires path != []
    ensures var u, d := Refused(answers), FreedAfter(refs, path, answers, shouldRef);
            Loses(refs, path, answers, shouldRef) <==> if u == 0 then |path| > 2 && d > 0 else |path| > 1 && d >= u
  {
  }

  /** The entry is one of those cleared. */
  ghost predicate Hits(chain: seq<nat>, idx: seq<nat>, d: nat, t: nat, i: nat)
    requires |chain| == |idx|
  {
    exists k :: 0 < k <= d && k < |chain| && chain[k] == t && idx[k] == i
  }

  lemma HitsTail(chain: seq<nat>, idx: seq<nat>, d: nat, t: nat, i: nat)
    requires |chain| == |idx| >= 2 && d > 0
    ensures Hits(chain, idx, d, t, i) <==> (chain[1] == t && idx[1] == i) || Hits(chain[1..], idx[1..], d - 1, t, i)
  {
    if Hits(chain[1..], idx[1..], d - 1, t, i) {
      var k :| 0 < k <= d - 1 && k < |chain[1..]| && chain[1..][k] == t && idx[1..][k] == i;
      assert chain[k + 1] == t && idx[k + 1] == i;
    }
    if Hits(chain, idx, d, t, i) {
      var k :| 0 < k <= d && k < |chain| && chain[k] == t && idx[k] == i;
      if k > 1 {
        assert chain[1..][k - 1] == t && idx[1..][k - 1] == i;
      }
    }
  }

  /** What is cleared, one entry at a time. */
  lemma {:induction false} ReadCleared(mem: Mem, chain: seq<nat>, idx: seq<nat>, d: nat, t: nat, i: nat)
    requires |chain| == |idx|
    ensures Read(Cleared(mem, chain, idx, d), t, i) == if Hits(chain, idx, d, t, i) then ABSENT else Read(mem, t, i)
    decreases |chain|
  {
    hide Hits;
    if d > 0 && |chain| >= 2 {
      HitsTail(chain, idx, d, t, i);
      ReadCleared(mem[(chain[1], idx[1]) := ABSENT], chain[1..], idx[1..], d - 1, t, i);
    } else {
      NoHits(chain, idx, d, t, i);
    }
  }

  lemma NoHits(chain: seq<nat>, idx: seq<nat>, d: nat, t: nat, i: nat)
    requires |chain| == |idx| && (d == 0 || |chain| < 2)
    ensures !Hits(chain, idx, d, t, i)
  {
  }

  /** The clean-up from level `l + 2` on clears an entry that was present before exactly when it reaches
      above the level below which tables were hung. */
  lemma ClearedKept(mem0: Mem, mem: Mem, canLarge: set<nat>, root: nat, tables: seq<Option<nat>>, tables0: seq<Option<nat>>,
                    indices: seq<nat>, parent: nat, l: nat, d: nat)
    requires 1 <= l < parent <= |tables| == |indices| == |tables0| && PathOk(tables, l + 1) && Kept(mem0, mem)
    requires Right(mem0, canLarge, root, tables0, indices, parent)
    requires forall i | parent - 1 <= i < |tables| :: tables[i] == tables0[i]
    requires forall i | l <= i < parent :: !Read(mem0, tables[i].value, indices[i]).present
    requires d <= |tables| - l - 1
    ensures Kept(mem0, Cleared(mem, Values(tables[l + 1..]), indices[l + 1..], d)) <==>
            !(if l == parent - 1 then parent + 1 < |tables| && d > 0 else parent < |tables| && d > parent - 2 - l)
  {
    hide Right, TableAt, Cleared;
    var chain, idx := Values(tables[l + 1..]), indices[l + 1..];
    var mem' := Cleared(mem, chain, idx, d);
    var k := if l == parent - 1 then 1 else parent - 1 - l;
    if k <= d && k < |chain| {
      var j := l + 1 + k;
      PathPresent(mem0, canLarge, root, tables0, indices, parent, j);
      ReadCleared(mem, chain, idx, d, chain[k], idx[k]);
      assert chain[k] == tables[j].value && idx[k] == indices[j];
    } else {
      forall t, i | Read(mem0, t, i).present
        ensures Read(mem', t, i) == Read(mem0, t, i)
      {
        ReadCleared(mem, chain, idx, d, t, i);
        forall n | 0 < n <= d && n < |chain|
          ensures chain[n] != t || idx[n] != i
        {
          assert chain[n] == tables[l + 1 + n].value && idx[n] == indices[l + 1 + n];
        }
      }
    }
  }

  // ---------- allocating downward ----------

  /** The state in which alloc_levels_down_to begins, below an absent entry of level `parent`. */
  datatype Start = Start(mem: Mem, refs: Refs, tables: seq<Option<nat>>, indices: seq<nat>,
                         parent: nat, answers: seq<Option<nat>>, shouldRef: bool)

  ghost predicate Begun(g: Start, canLarge: set<nat>, root: nat) {
    && 1 <= g.parent <= |g.indices| == |g.tables| && Right(g.mem, canLarge, root, g.tables, g.indices, g.parent) && PathOk(g.tables, g.parent)
    && !Read(g.mem, g.tables[g.parent - 1].value, g.indices[g.parent - 1]).present
    && FreshTables(g.mem, g.tables, g.answers) && forall i | 0 <= i < g.parent - 1 :: g.indices[i] == 0
  }

  ghost function Path(g: Start): (r: seq<nat>)
    requires PathOk(g.tables, g.parent)
    ensures |r| == |g.tables| - g.parent + 1
  {
    Values(g.tables[g.parent - 1..])
  }

  /** Tables have been hung down to level `l + 1`. */
  ghost predicate Hung(g: Start, canLarge: set<nat>, root: nat, mem: Mem, refs: Refs, tables: seq<Option<nat>>, l: nat) {
    && Begun(g, canLarge, root) && l < g.parent && g.parent - 1 - l <= Refused(g.answers)
    && Right(mem, canLarge, root, tables, g.indices, l + 1) && Kept(g.mem, mem)
    && HungTables(g, mem, tables, l) && HungRefs(g, mem, refs, g.parent - 1 - l)
  }

  ghost predicate HungTables(g: Start, mem: Mem, tables: seq<Option<nat>>, l: nat)
    requires PathOk(g.tables, g.parent) && |g.indices| == |g.tables| && l < g.parent && g.parent - 1 - l <= Refused(g.answers)
  {
    && |tables| == |g.tables| && PathOk(tables, l + 1) && Values(tables[l..]) == Chain(Path(g), g.answers, g.parent - 1 - l)
    && !Read(mem, tables[l].value, g.indices[l]).present
    && (forall i | l <= i < g.parent :: !Read(g.mem, tables[i].value, g.indices[i]).present)
    && (forall i | g.parent - 1 <= i < |tables| :: tables[i] == g.tables[i])
    && forall i | g.parent - 1 - l <= i < |g.answers| && g.answers[i].Some? ::
         FreshTable(mem, g.answers[i].value) && g.answers[i] != tables[l]
  }

  ghost predicate HungRefs(g: Start, mem: Mem, refs: Refs, u: nat)
    requires PathOk(g.tables, g.parent) && u <= Refused(g.answers)
  {
    && refs == Raised(g.refs, Path(g), g.answers, u, g.shouldRef) && !RaisePanics(g.refs, Path(g), g.answers, u, g.shouldRef)
    && (g.shouldRef && CountsRight(g.mem, g.refs) ==> CountsRight(mem, refs))
  }

  lemma HungStart(g: Start, canLarge: set<nat>, root: nat)
    requires Begun(g, canLarge, root)
    ensures Hung(g, canLarge, root, g.mem, g.refs, g.tables, g.parent - 1)
  {
    hide Right, TableAt, CountsRight;
    RightLength(g.mem, canLarge, root, g.tables, g.indices, g.parent);
  }

  /** One more table. */
  lemma HungStep(g: Start, canLarge: set<nat>, root: nat, mem: Mem, refs: Refs, tables: seq<Option<nat>>, l: nat)
    requires Hung(g, canLarge, root, mem, refs, tables, l) && 1 <= l && g.parent - 1 - l < |g.answers| && g.answers[g.parent - 1 - l].Some?
    ensures var u := g.parent - 1 - l;
            var t := tables[l].value;
            var refs' := if g.shouldRef then refs[t := Count(refs, t) + 1] else refs;
            && u + 1 <= Refused(g.answers)
            && (RaisePanics(g.refs, Path(g), g.answers, u + 1, g.shouldRef) <==> g.shouldRef && UpPanics(refs, t))
            && (!(g.shouldRef && UpPanics(refs, t)) ==>
                  Hung(g, canLarge, root, mem[(t, g.indices[l]) := Pte(true, false, g.answers[u].value)], refs', tables[l - 1 := g.answers[u]], l - 1))
  {
    hide Right, TableAt, CountsRight, HungTables, HungRefs, FreshTables, FreshTable, Raised, RaisePanics;
    var u := g.parent - 1 - l;
    RefusedBeyond(g.answers, u);
    HungTableAt(g, mem, tables, l);
    RightLength(mem, canLarge, root, tables, g.indices, l + 1);
    AllocRight(mem, canLarge, root, tables, g.indices, l, g.answers[u].value);
    HungTablesStep(g, mem, tables, l);
    HungRefsStep(g, mem, refs, tables[l].value, g.indices[l], u, Pte(true, false, g.answers[u].value));
  }

  lemma HungBegun(g: Start, canLarge: set<nat>, root: nat, mem: Mem, refs: Refs, tables: seq<Option<nat>>, l: nat)
    requires Hung(g, canLarge, root, mem, refs, tables, l)
    ensures PathOk(g.tables, g.parent) && |g.tables| == |g.indices| == |tables| && l < g.parent && PathOk(tables, l + 1)
    ensures g.parent - 1 - l <= Refused(g.answers)
  {
    hide TableAt, CountsRight, FreshTables, Raised, RaisePanics, Chain, Values;
  }

  lemma HungEnd(g: Start, canLarge: set<nat>, root: nat, mem: Mem, refs: Refs, tables: seq<Option<nat>>, l: nat)
    requires Hung(g, canLarge, root, mem, refs, tables, l)
    ensures PathOk(g.tables, g.parent) && g.parent - 1 - l <= Refused(g.answers)
    ensures Right(mem, canLarge, root, tables, g.indices, l + 1) && Kept(g.mem, mem) && HungRefs(g, mem, refs, g.parent - 1 - l)
  {
    hide Right, Kept, HungRefs, HungTables, Refused, TableAt, CountsRight, FreshTables, Raised, RaisePanics, Chain, Values;
  }

  lemma HungValues(g: Start, canLarge: set<nat>, root: nat, mem: Mem, refs: Refs, tables: seq<Option<nat>>, l: nat)
    requires Hung(g, canLarge, root, mem, refs, tables, l) && PathOk(tables, l + 1) && PathOk(g.tables, g.parent)
    ensures l < g.parent && g.parent - 1 - l <= Refused(g.answers) && Values(tables[l..]) == Chain(Path(g), g.answers, g.parent - 1 - l)
  {
    hide Right, CountsRight, FreshTables, Raised, RaisePanics, Chain, Values, Refused, Path;
  }

  lemma HungTableAt(g: Start, mem: Mem, tables: seq<Option<nat>>, l: nat)
    requires PathOk(g.tables, g.parent) && |g.indices| == |g.tables| && l < g.parent && g.parent - 1 - l <= Refused(g.answers)
    requires HungTables(g, mem, tables, l)
    ensures |tables| == |g.tables| && tables[l].Some? && Chain(Path(g), g.answers, g.parent - 1 - l)[0] == tables[l].value
    ensures !Read(mem, tables[l].value, g.indices[l]).present
  {
    assert Values(tables[l..])[0] == tables[l].value;
  }

  lemma HungTablesStep(g: Start, mem: Mem, tables: seq<Option<nat>>, l: nat)
    requires PathOk(g.tables, g.parent) && |g.indices| == |g.tables| && 1 <= l < g.parent && g.parent - 1 - l < Refused(g.answers)
    requires HungTables(g, mem, tables, l) && FreshTables(g.mem, g.tables, g.answers) && g.indices[l - 1] == 0
    ensures var u := g.parent - 1 - l;
            tables[l].Some? && HungTables(g, mem[(tables[l].value, g.indices[l]) := Pte(true, false, g.answers[u].value)], tables[l - 1 := g.answers[u]], l - 1)
  {
    hide Chain, Values, Path, FreshTable, FreshTables, Refused;
    var u, t := g.parent - 1 - l, tables[l].value;
    var phys := g.answers[u].value;
    var mem', tables' := mem[(t, g.indices[l]) := Pte(true, false, phys)], tables[l - 1 := g.answers[u]];
    ChainMore(tables, tables', l, Path(g), g.answers, u);
    FreshEntry(mem, phys, t, g.indices[l], Pte(true, false, phys), 0);
    FreshIs(g.mem, g.tables, g.answers, u);
    FreshEmpty(g.mem, phys, 0);
    forall i | u + 1 <= i < |g.answers| && g.answers[i].Some?
      ensures FreshTable(mem', g.answers[i].value) && g.answers[i] != tables'[l - 1]
    {
      FreshApart(g.mem, g.tables, g.answers, u, i);
      FreshEntry(mem, g.answers[i].value, t, g.indices[l], Pte(true, false, phys), 0);
    }
  }

  lemma FreshStill(mem: Mem, tables: seq<Option<nat>>, tables': seq<Option<nat>>, answers: seq<Option<nat>>)
    requires FreshTables(mem, tables, answers) && |tables'| == |tables|
    requires forall i | 0 <= i < |tables| :: tables'[i] == tables[i] || tables'[i] == None
    ensures FreshTables(mem, tables', answers)
  {
  }

  lemma FreshIs(mem: Mem, tables: seq<Option<nat>>, answers: seq<Option<nat>>, u: nat)
    requires FreshTables(mem, tables, answers) && u < |answers| && answers[u].Some?
    ensures FreshTable(mem, answers[u].value)
  {
  }

  lemma FreshApart(mem: Mem, tables: seq<Option<nat>>, answers: seq<Option<nat>>, u: nat, i: nat)
    requires FreshTables(mem, tables, answers) && u < i < |answers| && answers[u].Some?
    ensures answers[u] != answers[i]
  {
  }

  lemma FreshEmpty(mem: Mem, t: nat, i: nat)
    requires FreshTable(mem, t)
    ensures !Read(mem, t, i).present
  {
  }

  /** A store into another table leaves a fresh one fresh. */
  lemma FreshEntry(mem: Mem, t: nat, u: nat, i: nat, e: Pte, k: nat)
    requires FreshTable(mem, t) && u != t
    ensures FreshTable(mem[(u, i) := e], t) && !Read(mem[(u, i) := e], t, k).present
  {
  }

  lemma HungRefsStep(g: Start, mem: Mem, refs: Refs, t: nat, i: nat, u: nat, e: Pte)
    requires PathOk(g.tables, g.parent) && u < Refused(g.answers) && HungRefs(g, mem, refs, u) && t == Chain(Path(g), g.answers, u)[0]
    requires !Read(mem, t, i).present && i < COUNT && e.present
    ensures RaisePanics(g.refs, Path(g), g.answers, u + 1, g.shouldRef) <==> g.shouldRef && UpPanics(refs, t)
    ensures !(g.shouldRef && UpPanics(refs, t)) ==>
              HungRefs(g, mem[(t, i) := e], if g.shouldRef then refs[t := Count(refs, t) + 1] else refs, u + 1)
  {
    hide CountsRight, Chain;
    if g.shouldRef && CountsRight(g.mem, g.refs) {
      FillCounts(mem, refs, t, i, e);
    }
  }

  /** The tables above the lowest one when the allocation is refused. */
  ghost function Above(g: Start): seq<nat>
    requires PathOk(g.tables, g.parent)
  {
    Chain(Path(g), g.answers, Refused(g.answers))[1..]
  }

  /** The state when the table of level `l` is refused. */
  lemma HungRefused(g: Start, tables: seq<Option<nat>>, l: nat)
    requires PathOk(tables, l + 1) && PathOk(g.tables, g.parent)
    requires l < g.parent && g.parent - 1 - l <= Refused(g.answers) && Values(tables[l..]) == Chain(Path(g), g.answers, g.parent - 1 - l)
    requires g.parent - 1 - l < |g.answers| && g.answers[g.parent - 1 - l].None?
    ensures Values(tables[l + 1..]) == Above(g) && Refused(g.answers) == g.parent - 1 - l
  {
    hide Chain, Refused, Values, Path;
    var u := g.parent - 1 - l;
    RefusedIs(g.answers, u);
    AfterFirst(tables, l, Path(g), g.answers, u);
  }

  lemma RefusedOutcome(g: Start, mem: Mem, refs: Refs, needed: nat)
    requires PathOk(g.tables, g.parent) && HungRefs(g, mem, refs, Refused(g.answers)) && Refused(g.answers) < needed <= |g.answers|
    ensures Outcome(g.refs, Path(g), g.answers, needed, g.shouldRef) == (if ReleasePanics(refs, Above(g)) then Panic else AllocFail)
    ensures Freed(refs, Above(g)) == FreedAfter(g.refs, Path(g), g.answers, g.shouldRef)
  {
    hide CountsRight, Chain, Raised, RaisePanics, ReleasePanics, Freed, Outcome, Refused, Path;
    OutcomeRefused(g.refs, Path(g), g.answers, needed, g.shouldRef);
  }

  /** What the clean-up makes of the memory. */
  lemma RefusedKept(g: Start, canLarge: set<nat>, root: nat, mem: Mem, refs: Refs, tables: seq<Option<nat>>, l: nat, d: nat)
    requires Hung(g, canLarge, root, mem, refs, tables, l) && 1 <= l && Refused(g.answers) == g.parent - 1 - l
    requires PathOk(tables, l + 1) && |tables| == |g.indices| == |g.tables| && PathOk(g.tables, g.parent)
    requires Values(tables[l + 1..]) == Above(g) && d == FreedAfter(g.refs, Path(g), g.answers, g.shouldRef) <= |Above(g)|
    ensures Kept(g.mem, Cleared(mem, Above(g), g.indices[l + 1..], d)) <==> !Loses(g.refs, Path(g), g.answers, g.shouldRef)
  {
    hide Right, TableAt, CountsRight, HungRefs, Chain, Raised, Freed, Cleared, Loses, FreshTables, Kept, Refused, FreedAfter, Above;
    ClearedKept(g.mem, mem, canLarge, root, tables, g.tables, g.indices, g.parent, l, d);
    LosesIs(g.refs, Path(g), g.answers, g.shouldRef);
  }

  // ---------- no panic while the counts are right ----------

  lemma {:induction false} CountedPresent(mem: Mem, t: nat, i: nat, n: nat)
    requires i < n && Read(mem, t, i).present
    ensures Present(mem, t, n) >= 1
  {
    if i < n - 1 {
      CountedPresent(mem, t, i, n - 1);
    }
  }

  lemma {:induction false} NoReleasePanic(refs: Refs, chain: seq<nat>)
    requires NoRepeat(chain) && forall i | 0 <= i < |chain| :: 1 <= Count(refs, chain[i]) < REFCOUNT_MAX
    ensures !ReleasePanics(refs, chain)
  {
    if chain != [] && Count(refs, chain[0]) == 1 {
      var refs', rest := refs[chain[0] := 0], chain[1..];
      forall i | 0 <= i < |rest|
        ensures 1 <= Count(refs', rest[i]) < REFCOUNT_MAX
      {
        assert rest[i] == chain[i + 1] && chain[0] != chain[i + 1];
      }
      NoReleasePanic(refs', rest);
    }
  }

  /** While every table counts its present entries, no reference taken on the way down panics. */
  lemma {:induction false} CalmReach(g: Start, canLarge: set<nat>, root: nat, l: nat)
    returns (mem: Mem, refs: Refs, tables: seq<Option<nat>>)
    requires Begun(g, canLarge, root) && g.shouldRef && CountsRight(g.mem, g.refs)
    requires l < g.parent && g.parent - 1 - l <= Refused(g.answers)
    ensures Hung(g, canLarge, root, mem, refs, tables, l)
    decreases g.parent - l
  {
    hide Hung, CountsRight, Begun;
    if l == g.parent - 1 {
      HungStart(g, canLarge, root);
      mem, refs, tables := g.mem, g.refs, g.tables;
    } else {
      mem, refs, tables := CalmReach(g, canLarge, root, l + 1);
      mem, refs, tables := CalmStep(g, canLarge, root, mem, refs, tables, l + 1);
    }
  }

  lemma CalmStep(g: Start, canLarge: set<nat>, root: nat, mem: Mem, refs: Refs, tables: seq<Option<nat>>, l: nat)
    returns (mem': Mem, refs': Refs, tables': seq<Option<nat>>)
    requires 1 <= l < g.parent && Hung(g, canLarge, root, mem, refs, tables, l) && g.shouldRef && CountsRight(g.mem, g.refs)
    requires g.parent - 1 - l < Refused(g.answers)
    ensures Hung(g, canLarge, root, mem', refs', tables', l - 1)
  {
    hide Hung, CountsRight, Begun, HungRefs, RaisePanics, Path, Refused;
    HungBegun(g, canLarge, root, mem, refs, tables, l);
    HungEnd(g, canLarge, root, mem, refs, tables, l);
    RaisedFine(g, mem, refs, g.parent - 1 - l);
    var t, u := tables[l].value, g.parent - 1 - l;
    CountsAre(mem, refs, t);
    HungStep(g, canLarge, root, mem, refs, tables, l);
    mem', refs', tables' := mem[(t, g.indices[l]) := Pte(true, false, g.answers[u].value)], refs[t := Count(refs, t) + 1],
                            tables[l - 1 := g.answers[u]];
  }

  lemma CountsAre(mem: Mem, refs: Refs, t: nat)
    requires CountsRight(mem, refs)
    ensures Count(refs, t) == Present(mem, t, COUNT) && !UpPanics(refs, t)
  {
    assert Present(mem, t, COUNT) <= COUNT;
  }

  lemma {:induction false} ChainNoRepeat(g: Start, canLarge: set<nat>, root: nat, u: nat)
    requires Begun(g, canLarge, root) && NoRepeat(Path(g)) && u <= Refused(g.answers)
    ensures NoRepeat(Chain(Path(g), g.answers, u))
  {
    hide Right, TableAt, Chain;
    var c, path := Chain(Path(g), g.answers, u), Path(g);
    forall i, j | 0 <= i < j < |c|
      ensures c[i] != c[j]
    {
      assert i >= u ==> c[i] == c[u..][i - u];
      assert j >= u ==> c[j] == c[u..][j - u];
      if i < u <= j {
        assert c[j] == path[j - u] == g.tables[g.parent - 1 + (j - u)].value;
        assert g.answers[u - 1 - i] !in g.tables;
      }
    }
  }

  /** With every table counting its present entries and no table twice on the way up, allocating downward
      never panics, refused or not. */
  lemma NeverPanics(g: Start, canLarge: set<nat>, root: nat, needed: nat)
    requires Begun(g, canLarge, root) && g.shouldRef && CountsRight(g.mem, g.refs) && NoRepeat(Path(g))
    requires needed < g.parent && needed <= |g.answers|
    ensures Outcome(g.refs, Path(g), g.answers, needed, g.shouldRef) != Panic
  {
    hide Hung, CountsRight, Begun, Outcome, HungRefs, Chain, Path, NoRepeat, Refused;
    var u := if needed <= Refused(g.answers) then needed else Refused(g.answers);
    var l := g.parent - 1 - u;
    var mem, refs, tables := CalmReach(g, canLarge, root, l);
    HungBegun(g, canLarge, root, mem, refs, tables, l);
    HungEnd(g, canLarge, root, mem, refs, tables, l);
    RaisedFine(g, mem, refs, u);
    if needed <= Refused(g.answers) {
      OutcomeOk(g.refs, Path(g), g.answers, needed, g.shouldRef);
    } else {
      HungValues(g, canLarge, root, mem, refs, tables, l);
      HungRefused(g, tables, l);
      RefusedOutcome(g, mem, refs, needed);
      ChainNoRepeat(g, canLarge, root, u);
      TailNoRepeat(g);
      AboveCounted(g, canLarge, root, mem, refs, tables, l);
      NoReleasePanic(refs, Above(g));
    }
  }

  lemma RaisedFine(g: Start, mem: Mem, refs: Refs, u: nat)
    requires PathOk(g.tables, g.parent) && u <= Refused(g.answers) && HungRefs(g, mem, refs, u)
    ensures !RaisePanics(g.refs, Path(g), g.answers, u, g.shouldRef)
    ensures g.shouldRef && CountsRight(g.mem, g.refs) ==> CountsRight(mem, refs)
  {
  }

  lemma TailNoRepeat(g: Start)
    requires PathOk(g.tables, g.parent) && NoRepeat(Chain(Path(g), g.answers, Refused(g.answers)))
    ensures NoRepeat(Above(g))
  {
    hide Chain, Path, Refused;
    var c := Chain(Path(g), g.answers, Refused(g.answers));
    assert forall i | 0 <= i < |Above(g)| :: Above(g)[i] == c[i + 1];
  }

  lemma AboveCounted(g: Start, canLarge: set<nat>, root: nat, mem: Mem, refs: Refs, tables: seq<Option<nat>>, l: nat)
    requires PathOk(tables, l + 1) && |tables| == |g.indices| == |g.tables| && PathOk(g.tables, g.parent) && l < g.parent
    requires Right(mem, canLarge, root, tables, g.indices, l + 1) && CountsRight(mem, refs) && Values(tables[l + 1..]) == Above(g)
    ensures forall i | 0 <= i < |Above(g)| :: 1 <= Count(refs, Above(g)[i]) < REFCOUNT_MAX
  {
    hide Right, CountsRight, Above;
    IndicesSmall(mem, canLarge, root, tables, g.indices, l + 1);
    forall i | 0 <= i < |Above(g)|
      ensures 1 <= Count(refs, Above(g)[i]) < REFCOUNT_MAX
    {
      var j := l + 1 + i;
      assert Above(g)[i] == tables[j].value;
      PathPresent(mem, canLarge, root, tables, g.indices, l + 1, j);
      CountedPresent(mem, tables[j].value, g.indices[j], COUNT);
      CountsAre(mem, refs, tables[j].value);
    }
  }

  // ---------- what becomes of the counts ----------

  /** No count is below zero or above what 32 bits hold. */
  ghost predicate CountsIn(refs: Refs) {
    forall t: nat :: 0 <= Count(refs, t) <= REFCOUNT_MAX
  }

  /** Without a panic, taking references leaves every count in range. */
  lemma {:induction false} RaisedIn(refs: Refs, path: seq<nat>, answers: seq<Option<nat>>, u: nat, shouldRef: bool)
    requires path != [] && u <= Refused(answers) && CountsIn(refs) && !RaisePanics(refs, path, answers, u, shouldRef)
    ensures CountsIn(Raised(refs, path, answers, u, shouldRef))
  {
    hide Chain, Refused;
    if u > 0 && shouldRef {
      RaisedIn(refs, path, answers, u - 1, shouldRef);
      var r, t := Raised(refs, path, answers, u - 1, shouldRef), Chain(path, answers, u - 1)[0];
      CountOne(r, t, Count(r, t) + 1);
    }
  }

  /** Without a panic, so does dropping them. */
  lemma {:induction false} ReleasedIn(refs: Refs, chain: seq<nat>)
    requires CountsIn(refs) && !ReleasePanics(refs, chain)
    ensures CountsIn(Released(refs, chain))
    decreases |chain|
  {
    if chain != [] {
      if Count(refs, chain[0]) == 1 {
        CountOne(refs, chain[0], 0);
        ReleasedIn(refs[chain[0] := 0], chain[1..]);
      } else {
        CountOne(refs, chain[0], Count(refs, chain[0]) - 1);
      }
    }
  }

  lemma CountOne(refs: Refs, t: nat, n: int)
    requires CountsIn(refs) && 0 <= n <= REFCOUNT_MAX
    ensures CountsIn(refs[t := n])
  {
    var r := refs[t := n];
    forall u: nat
      ensures 0 <= Count(r, u) <= REFCOUNT_MAX
    {
      assert 0 <= Count(refs, u) <= REFCOUNT_MAX;
    }
  }

  lemma {:induction false} ReleasedOther(refs: Refs, chain: seq<nat>, t: nat)
    requires t !in chain
    ensures Count(Released(refs, chain), t) == Count(refs, t)
    decreases |chain|
  {
    if chain != [] && Count(refs, chain[0]) == 1 {
      assert forall x | x in chain[1..] :: x in chain;
      ReleasedOther(refs[chain[0] := 0], chain[1..], t);
    } else if chain != [] {
      assert chain[0] in chain;
    }
  }

  /** The clean-up drops exactly one reference on the table it begins with. */
  lemma ReleasedFirst(refs: Refs, chain: seq<nat>)
    requires chain != [] && NoRepeat(chain)
    ensures Count(Released(refs, chain), chain[0]) == Count(refs, chain[0]) - 1
  {
    if Count(refs, chain[0]) == 1 {
      assert chain[0] !in chain[1..];
      ReleasedOther(refs[chain[0] := 0], chain[1..], chain[0]);
    }
  }

  lemma {:induction false} SamePresent(mem: Mem, mem': Mem, t: nat, n: nat)
    requires forall i: nat | i < n :: Read(mem', t, i) == Read(mem, t, i)
    ensures Present(mem', t, n) == Present(mem, t, n)
  {
    if n > 0 {
      SamePresent(mem, mem', t, n - 1);
    }
  }

  /** It begins with a table whose entry it does not clear: afterwards that table counts one entry less than
      it has, so the counts are right again only when there is nothing to give up. */
  lemma CleanUpCounts(mem: Mem, refs: Refs, chain: seq<nat>, idx: seq<nat>, d: nat)
    requires CountsRight(mem, refs) && NoRepeat(chain) && |chain| == |idx|
    ensures CountsRight(Cleared(mem, chain, idx, d), Released(refs, chain)) <==> chain == []
  {
    if chain != [] {
      var t, mem' := chain[0], Cleared(mem, chain, idx, d);
      ReleasedFirst(refs, chain);
      forall i: nat | i < COUNT
        ensures Read(mem', t, i) == Read(mem, t, i)
      {
        ReadCleared(mem, chain, idx, d, t, i);
      }
      SamePresent(mem, mem', t, COUNT);
      hide Released, Cleared, Present;
      assert Count(refs, t) == Present(mem, t, COUNT);
      assert Count(Released(refs, chain), t) != Present(mem', t, COUNT);
    }
  }

  lemma RefusedCounts(g: Start, canLarge: set<nat>, root: nat, mem: Mem, refs: Refs, tables: seq<Option<nat>>, l: nat, d: nat)
    requires Hung(g, canLarge, root, mem, refs, tables, l) && Refused(g.answers) == g.parent - 1 - l
    requires g.shouldRef && CountsRight(g.mem, g.refs) && PathOk(g.tables, g.parent) && NoRepeat(Path(g))
    requires l + 1 <= |g.indices| && |g.indices[l + 1..]| == |Above(g)|
    ensures CountsRight(Cleared(mem, Above(g), g.indices[l + 1..], d), Released(refs, Above(g))) <==>
            |Path(g)| == 1 && Refused(g.answers) == 0
  {
    hide Hung, CountsRight, HungRefs, Chain, Path, NoRepeat, Refused, Cleared, Released, Begun;
    HungEnd(g, canLarge, root, mem, refs, tables, l);
    RaisedFine(g, mem, refs, Refused(g.answers));
    HungFrom(g, canLarge, root, mem, refs, tables, l);
    ChainNoRepeat(g, canLarge, root, Refused(g.answers));
    TailNoRepeat(g);
    CleanUpCounts(mem, refs, Above(g), g.indices[l + 1..], d);
  }

  lemma HungFrom(g: Start, canLarge: set<nat>, root: nat, mem: Mem, refs: Refs, tables: seq<Option<nat>>, l: nat)
    requires Hung(g, canLarge, root, mem, refs, tables, l)
    ensures Begun(g, canLarge, root)
  {
  }
}
