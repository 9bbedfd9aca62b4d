/** Page tables as kernel/mm/walker.c walks them: a table and an index per level, level 1 being the lowest;
    every table has 512 entries and level 1 maps pages of 4096 bytes. */
module PageTable {
  import opened Common

  datatype Pte = Pte(present: bool, large: bool, phys: nat)

  /** Table memory; an entry that was never written is zero. */
  type Mem = map<(nat, nat), Pte>

  const COUNT: nat := 512  // PGT_PTE_COUNT

  function Read(mem: Mem, table: nat, index: nat): Pte {
    if (table, index) in mem then mem[(table, index)] else Pte(false, false, 0)
  }

  /** PAGE_SIZE_AT_LEVEL. */
  function Size(level: nat): (r: nat)
    requires level >= 1
    ensures r > 0
  {
    if level == 1 then 4096 else COUNT * Size(level - 1)
  }

  /** The address without the bits below a level: one shift after the other. */
  function Quot(virt: nat, level: nat): nat
    requires level >= 1
  {
    if level == 1 then virt / 4096 else Quot(virt, level - 1) / COUNT
  }

  /** virt_to_pt_index. */
  function Index(virt: nat, level: nat): (r: nat)
    requires level >= 1
    ensures r < COUNT
  {
    Quot(virt, level) % COUNT
  }

  /** The bits of an address below a level. */
  function Offset(virt: nat, level: nat): nat
    requires level >= 1
  {
    virt % Size(level)
  }

  /** A present entry that does not map a large page leads to a table. */
  predicate Leads(canLarge: set<nat>, level: nat, e: Pte) {
    e.present && !(level in canLarge && e.large)
  }

  /** The translation of an address from a table of the given level, as the hardware does it. */
  function Translate(mem: Mem, canLarge: set<nat>, table: nat, virt: nat, level: nat): (r: Option<nat>)
    requires level >= 1
    decreases level
  {
    var e := Read(mem, table, Index(virt, level));
    if !e.present then None
    else if level == 1 || (level in canLarge && e.large) then Some(e.phys + Offset(virt, level))
    else Translate(mem, canLarge, e.phys, virt, level - 1)
  }

  /** Page number and offset make up the address, at every level. */
  lemma {:induction false} OffsetIs(virt: nat, level: nat)
    requires level >= 1
    ensures Mul(Quot(virt, level), Size(level)) + Offset(virt, level) == virt && Offset(virt, level) < Size(level)
    decreases level
  {
    hide Mul, Offset;
    if level == 1 {
      OffsetLow(virt);
    } else {
      OffsetIs(virt, level - 1);
      var q, z := Quot(virt, level - 1), Size(level - 1);
      Split(q, z);
      OffsetFits(q % COUNT, z, Offset(virt, level - 1));
      OffsetUnique(virt, level, q / COUNT, Mul(q % COUNT, z) + Offset(virt, level - 1));
    }
  }

  lemma OffsetLow(virt: nat)
    ensures Mul(Quot(virt, 1), Size(1)) + Offset(virt, 1) == virt && Offset(virt, 1) < Size(1)
  {
  }

  lemma OffsetFits(d: nat, z: nat, x: nat)
    requires d < COUNT && x < z
    ensures Mul(d, z) + x < COUNT * z
  {
    hide Mul;
    LessTimes(d, COUNT - 1, z);
    TimesLast(z);
  }

  lemma LessTimes(a: nat, b: nat, z: nat)
    requires a <= b
    ensures Mul(a, z) <= Mul(b, z)
  {
    assert b * z == a * z + (b - a) * z;
  }

  lemma OffsetUnique(virt: nat, level: nat, q: nat, x: nat)
    requires level >= 1 && virt == Mul(q, Size(level)) + x && x < Size(level)
    ensures Offset(virt, level) == x
  {
    hide Size;
    var z := Size(level);
    assert virt == q * z + x;
    ModIs(virt, z, q, x);
  }

  /** The level at which a walk ends. */
  function EndLevel(mem: Mem, canLarge: set<nat>, table: nat, virt: nat, level: nat): (r: nat)
    requires level >= 1
    ensures 1 <= r <= level
    decreases level
  {
    var e := Read(mem, table, Index(virt, level));
    if level == 1 || !Leads(canLarge, level, e) then level else EndLevel(mem, canLarge, e.phys, virt, level - 1)
  }

  lemma {:induction false} QuotUp(a: nat, b: nat, low: nat, level: nat)
    requires 1 <= low <= level && Quot(a, low) == Quot(b, low)
    ensures Quot(a, level) == Quot(b, level)
    decreases level
  {
    if low < level {
      QuotUp(a, b, low, level - 1);
    }
  }

  /** Inside the page at which a walk ends, translation moves with the address. */
  lemma {:induction false} Contiguous(mem: Mem, canLarge: set<nat>, table: nat, virt: nat, d: nat, level: nat)
    requires level >= 1 && Translate(mem, canLarge, table, virt, level).Some?
    requires var low := EndLevel(mem, canLarge, table, virt, level); Quot(virt, low) == Quot(virt + d, low)
    ensures Translate(mem, canLarge, table, virt + d, level) == Some(Translate(mem, canLarge, table, virt, level).value + d)
    decreases level
  {
    hide Quot, Offset, Mul, Size;
    QuotUp(virt, virt + d, EndLevel(mem, canLarge, table, virt, level), level);
    var e := Read(mem, table, Index(virt, level));
    if Leads(canLarge, level, e) && level > 1 {
      Contiguous(mem, canLarge, e.phys, virt, d, level - 1);
    } else {
      OffsetIs(virt, level);
      OffsetIs(virt + d, level);
    }
  }

  /** The table at a level on the way given by one index per level. */
  function TableAt(mem: Mem, canLarge: set<nat>, root: nat, indices: seq<nat>, level: nat): (r: Option<nat>)
    requires 1 <= level <= |indices|
    decreases |indices| - level
  {
    if level == |indices| then Some(root)
    else
      var t := TableAt(mem, canLarge, root, indices, level + 1);
      if t.None? then None
      else
        var e := Read(mem, t.value, indices[level]);
        if Leads(canLarge, level + 1, e) then Some(e.phys) else None
  }

  /** The indices of an address. */
  function Digits(virt: nat, top: nat): (r: seq<nat>)
    ensures |r| == top && forall l | 1 <= l <= top :: r[l - 1] == Index(virt, l)
  {
    seq(top, i requires 0 <= i < top => Index(virt, i + 1))
  }

  function Mul(a: nat, z: nat): nat {
    a * z
  }

  /** ptwalker_get_virt_addr, from a level up. */
  function Addr(indices: seq<nat>, level: nat): (r: nat)
    requires 1 <= level
    decreases |indices| - level
  {
    if level > |indices| then 0 else Mul(indices[level - 1] % COUNT, Size(level)) + Addr(indices, level + 1)
  }

  /** Tables on the way depend on the indices above them only. */
  lemma {:induction false} SameTable(mem: Mem, canLarge: set<nat>, root: nat, a: seq<nat>, b: seq<nat>, level: nat)
    requires |a| == |b| && 1 <= level <= |a| && forall i | level <= i < |a| :: a[i] == b[i]
    ensures TableAt(mem, canLarge, root, a, level) == TableAt(mem, canLarge, root, b, level)
    decreases |a| - level
  {
    if level < |a| {
      SameTable(mem, canLarge, root, a, b, level + 1);
    }
  }

  /** The walk down is the translation, as far as it goes. */
  lemma {:induction false} TranslateFrom(mem: Mem, canLarge: set<nat>, root: nat, virt: nat, top: nat, level: nat)
    requires 1 <= level <= top && TableAt(mem, canLarge, root, Digits(virt, top), level).Some?
    ensures Translate(mem, canLarge, root, virt, top) ==
            Translate(mem, canLarge, TableAt(mem, canLarge, root, Digits(virt, top), level).value, virt, level)
    decreases top - level
  {
    var d := Digits(virt, top);
    if level < top {
      TranslateFrom(mem, canLarge, root, virt, top, level + 1);
      assert d[(level + 1) - 1] == Index(virt, level + 1);
    }
  }

  lemma {:induction false} NoneBelow(mem: Mem, canLarge: set<nat>, root: nat, indices: seq<nat>, level: nat, lower: nat)
    requires 1 <= lower <= level <= |indices| && TableAt(mem, canLarge, root, indices, level).None?
    ensures TableAt(mem, canLarge, root, indices, lower).None?
    decreases level - lower
  {
    if lower < level {
      NoneBelow(mem, canLarge, root, indices, level, lower + 1);
    }
  }

  /** The address read back from the indices of an address: what is above a level, within the range
      that the top level spans. */
  lemma {:induction false} AddrDigits(virt: nat, top: nat, level: nat)
    requires 1 <= level <= top
    ensures Addr(Digits(virt, top), level) + Mul(Quot(virt, top + 1), Size(top + 1)) == Mul(Quot(virt, level), Size(level))
    decreases top - level
  {
    hide Mul;
    Split(Quot(virt, level), Size(level));
    if level < top {
      AddrDigits(virt, top, level + 1);
    }
  }

  lemma Split(q: nat, z: nat)
    ensures Mul(q % COUNT, z) + Mul(q / COUNT, COUNT * z) == Mul(q, z)
  {
    var a, b := q % COUNT, q / COUNT;
    assert q == a + b * COUNT;
    assert b * (COUNT * z) == (b * COUNT) * z;
    assert (a + b * COUNT) * z == a * z + (b * COUNT) * z;
  }

  /** A store into an entry that is not present leaves every way that goes on where it was. */
  lemma {:induction false} WriteKeeps(mem: Mem, canLarge: set<nat>, root: nat, indices: seq<nat>, level: nat, at: (nat, nat), e: Pte)
    requires 1 <= level <= |indices| && TableAt(mem, canLarge, root, indices, level).Some? && !Read(mem, at.0, at.1).present
    ensures TableAt(mem[at := e], canLarge, root, indices, level) == TableAt(mem, canLarge, root, indices, level)
    decreases |indices| - level
  {
    if level < |indices| {
      WriteKeeps(mem, canLarge, root, indices, level + 1, at, e);
    }
  }

  /** Adding one at a level, with the carries that follow. */
  lemma {:induction false} Carry(a: seq<nat>, b: seq<nat>, level: nat, m: nat)
    requires |a| == |b| && 1 <= level <= m <= |a|
    requires forall i | level - 1 <= i < m - 1 :: a[i] == COUNT - 1 && b[i] % COUNT == 0
    requires a[m - 1] + 1 == b[m - 1] < COUNT && forall i | m <= i < |a| :: b[i] == a[i]
    ensures Addr(b, level) == Addr(a, level) + Size(level)
    decreases m - level
  {
    hide Mul;
    if level == m {
      SameAddr(a, b, level + 1);
      Times1(a[m - 1], Size(level));
      SmallMod(a[m - 1]);
      SmallMod(b[m - 1]);
    } else {
      Carry(a, b, level + 1, m);
      assert a[level - 1] == COUNT - 1 && b[level - 1] % COUNT == 0;
      TimesLast(Size(level));
    }
  }

  lemma SmallMod(x: nat)
    requires x < COUNT
    ensures x % COUNT == x
  {
  }

  lemma Times1(x: nat, z: nat)
    ensures Mul(x + 1, z) == Mul(x, z) + z
  {
  }

  lemma TimesLast(z: nat)
    ensures Mul(COUNT - 1, z) + z == COUNT * z && Mul(0, z) == 0
  {
  }

  lemma {:induction false} SameAddr(a: seq<nat>, b: seq<nat>, level: nat)
    requires |a| == |b| && 1 <= level && forall i | level - 1 <= i < |a| :: a[i] == b[i]
    ensures Addr(a, level) == Addr(b, level)
    decreases |a| - level
  {
    hide Mul;
    if level <= |a| {
      SameAddr(a, b, level + 1);
    }
  }

  /** Levels with index zero add nothing. */
  lemma {:induction false} ZeroBelow(a: seq<nat>, level: nat, upper: nat)
    requires 1 <= level <= upper <= |a| + 1 && forall i | level - 1 <= i < upper - 1 :: a[i] % COUNT == 0
    ensures Addr(a, level) == Addr(a, upper)
    decreases upper - level
  {
    hide Mul;
    if level < upper {
      ZeroBelow(a, level + 1, upper);
      assert a[level - 1] % COUNT == 0;
      TimesLast(Size(level));
    }
  }

  /** From a level up, every table is the one the indices lead to. */
  ghost predicate Right(mem: Mem, canLarge: set<nat>, root: nat, tables: seq<Option<nat>>, indices: seq<nat>, from: nat) {
    && |tables| == |indices|
    && forall i | 0 <= from - 1 <= i < |tables| ::
         indices[i] < COUNT && tables[i].Some? && tables[i] == TableAt(mem, canLarge, root, indices, i + 1)
  }

  lemma RightKept(mem: Mem, canLarge: set<nat>, root: nat, tables: seq<Option<nat>>, indices: seq<nat>,
                  tables': seq<Option<nat>>, indices': seq<nat>, from: nat)
    requires Right(mem, canLarge, root, tables, indices, from) && |tables'| == |indices'| == |tables| && from >= 1
    requires forall i | from - 1 <= i < |tables| :: tables'[i] == tables[i] && indices'[i] < COUNT
    requires forall i | from <= i < |tables| :: indices'[i] == indices[i]
    ensures Right(mem, canLarge, root, tables', indices', from)
  {
    hide TableAt;
    forall i | from - 1 <= i < |tables|
      ensures tables'[i] == TableAt(mem, canLarge, root, indices', i + 1)
    {
      SameTable(mem, canLarge, root, indices, indices', i + 1);
    }
  }

  /** One level more. */
  lemma RightDown(mem: Mem, canLarge: set<nat>, root: nat, tables: seq<Option<nat>>, indices: seq<nat>, from: nat)
    requires 2 <= from <= |tables| && Right(mem, canLarge, root, tables, indices, from) && indices[from - 2] < COUNT
    requires var e := Read(mem, tables[from - 1].value, indices[from - 1]);
             Leads(canLarge, from, e) && tables[from - 2] == Some(e.phys)
    ensures Right(mem, canLarge, root, tables, indices, from - 1)
  {
    assert tables[from - 1] == TableAt(mem, canLarge, root, indices, from);
  }

  lemma TableTop(mem: Mem, canLarge: set<nat>, root: nat, indices: seq<nat>)
    requires indices != []
    ensures TableAt(mem, canLarge, root, indices, |indices|) == Some(root)
  {
  }

  lemma TableStep(mem: Mem, canLarge: set<nat>, root: nat, indices: seq<nat>, level: nat)
    requires 1 <= level < |indices|
    ensures var t := TableAt(mem, canLarge, root, indices, level + 1);
            TableAt(mem, canLarge, root, indices, level) ==
            if t.None? then None
            else
              var e := Read(mem, t.value, indices[level]);
              if e.present && !((level + 1) in canLarge && e.large) then Some(e.phys) else None
  {
  }

  lemma RightUp(mem: Mem, canLarge: set<nat>, root: nat, tables: seq<Option<nat>>, indices: seq<nat>, from: nat, m: nat)
    requires 1 <= from <= m && Right(mem, canLarge, root, tables, indices, from)
    ensures Right(mem, canLarge, root, tables, indices, m)
  {
  }

  /** The lowest level from `l` up whose index can go up; above the top when there is none. */
  ghost function Turns(a: seq<nat>, l: nat): (m: nat)
    requires l >= 1
    ensures m >= l
    decreases |a| - l
  {
    if l <= |a| && a[l - 1] == COUNT - 1 then Turns(a, l + 1) else l
  }

  /** No entry that was present has changed. */
  ghost predicate Kept(mem: Mem, mem': Mem) {
    forall t, i :: Read(mem, t, i).present ==> Read(mem', t, i) == Read(mem, t, i)
  }

  /** The new address, wherever the walker's level is afterwards. */
  lemma Advanced(a: seq<nat>, b: seq<nat>, level: nat, m: nat, now: nat)
    requires |a| == |b| && 1 <= level <= m <= |a| && 1 <= now <= m
    requires forall i | level - 1 <= i < m - 1 :: a[i] == COUNT - 1
    requires forall i | level - 1 <= i < m - 1 || now - 1 <= i < m - 1 :: b[i] % COUNT == 0
    requires a[m - 1] + 1 == b[m - 1] < COUNT && forall i | m <= i < |a| :: b[i] == a[i]
    ensures Addr(b, now) == Addr(a, level) + Size(level)
  {
    hide Addr, Size;
    Carry(a, b, level, m);
    if now <= level {
      ZeroBelow(b, now, level);
    } else {
      ZeroBelow(b, level, now);
    }
  }

  /** Tables from a level up. */
  ghost predicate PathOk(tables: seq<Option<nat>>, from: nat) {
    1 <= from <= |tables| && forall i | from - 1 <= i < |tables| :: tables[i].Some?
  }

  lemma RightPath(mem: Mem, canLarge: set<nat>, root: nat, tables: seq<Option<nat>>, indices: seq<nat>, from: nat)
    requires Right(mem, canLarge, root, tables, indices, from) && 1 <= from <= |indices|
    ensures PathOk(tables, from) && |tables| == |indices| && indices[from - 1] < COUNT
  {
  }

  /** Above the lowest level of a way, its entries are present. */
  lemma PathPresent(mem: Mem, canLarge: set<nat>, root: nat, tables: seq<Option<nat>>, indices: seq<nat>, from: nat, j: nat)
    requires Right(mem, canLarge, root, tables, indices, from) && 1 <= from <= j < |tables|
    ensures tables[j].Some? && Read(mem, tables[j].value, indices[j]).present
  {
    TableStep(mem, canLarge, root, indices, j);
    assert tables[j] == TableAt(mem, canLarge, root, indices, j + 1) && tables[j - 1] == TableAt(mem, canLarge, root, indices, j);
  }

  lemma LeadsIs(canLarge: set<nat>, level: nat, e: Pte)
    ensures Leads(canLarge, level, e) <==> e.present && !(level in canLarge && e.large)
  {
  }

  lemma RightLength(mem: Mem, canLarge: set<nat>, root: nat, tables: seq<Option<nat>>, indices: seq<nat>, from: nat)
    requires Right(mem, canLarge, root, tables, indices, from)
    ensures |tables| == |indices|
    ensures 1 <= from <= |tables| ==> tables[from - 1].Some? && indices[from - 1] < COUNT
  {
  }

  /** The table below, entered at its first entry. */
  lemma RightSet(mem: Mem, canLarge: set<nat>, root: nat, tables: seq<Option<nat>>, indices: seq<nat>, l: nat, table: nat)
    requires 1 <= l < |tables| && Right(mem, canLarge, root, tables, indices, l + 1) && tables[l].Some?
    requires var e := Read(mem, tables[l].value, indices[l]); Leads(canLarge, l + 1, e) && table == e.phys
    ensures Right(mem, canLarge, root, tables[l - 1 := Some(table)], indices[l - 1 := 0], l)
  {
    hide Right, TableAt, Leads;
    RightLength(mem, canLarge, root, tables, indices, l + 1);
    var t, i := tables[l - 1 := Some(table)], indices[l - 1 := 0];
    IndicesSmall(mem, canLarge, root, tables, indices, l + 1);
    RightKept(mem, canLarge, root, tables, indices, t, i, l + 1);
    RightDown(mem, canLarge, root, t, i, l + 1);
  }

  lemma IndicesSmall(mem: Mem, canLarge: set<nat>, root: nat, tables: seq<Option<nat>>, indices: seq<nat>, from: nat)
    requires Right(mem, canLarge, root, tables, indices, from) && from >= 1
    ensures |tables| == |indices| && forall i | from - 1 <= i < |indices| :: indices[i] < COUNT
  {
  }

  lemma StopsAt(mem: Mem, canLarge: set<nat>, root: nat, tables: seq<Option<nat>>, indices: seq<nat>, level: nat)
    requires 1 <= level <= |tables| && Right(mem, canLarge, root, tables, indices, level)
    requires !Leads(canLarge, level, Read(mem, tables[level - 1].value, indices[level - 1]))
    ensures level == 1 || TableAt(mem, canLarge, root, indices, level - 1).None?
  {
    assert tables[level - 1] == TableAt(mem, canLarge, root, indices, level);
  }

  /** A table with no entry. */
  ghost predicate FreshTable(mem: Mem, t: nat) {
    forall i: nat :: (t, i) !in mem
  }

  /** What alloc_pgtable returns are empty tables, different from each other and from those in use. */
  ghost predicate FreshTables(mem: Mem, tables: seq<Option<nat>>, answers: seq<Option<nat>>) {
    && (forall i | 0 <= i < |answers| && answers[i].Some? :: FreshTable(mem, answers[i].value) && answers[i] !in tables)
    && forall i, j | 0 <= i < j < |answers| && answers[i].Some? :: answers[i] != answers[j]
  }

  /** A new table hung below the walker. */
  lemma AllocRight(mem: Mem, canLarge: set<nat>, root: nat, tables: seq<Option<nat>>, indices: seq<nat>, l: nat, phys: nat)
    requires 1 <= l < |tables| && Right(mem, canLarge, root, tables, indices, l + 1) && tables[l].Some? && indices[l - 1] < COUNT
    requires !Read(mem, tables[l].value, indices[l]).present
    ensures Right(mem[(tables[l].value, indices[l]) := Pte(true, false, phys)], canLarge, root, tables[l - 1 := Some(phys)], indices, l)
  {
    hide TableAt;
    var at, e := (tables[l].value, indices[l]), Pte(true, false, phys);
    var mem', tables' := mem[at := e], tables[l - 1 := Some(phys)];
    forall i | l <= i < |tables|
      ensures tables'[i] == TableAt(mem', canLarge, root, indices, i + 1)
    {
      assert tables[i] == TableAt(mem, canLarge, root, indices, i + 1);
      WriteKeeps(mem, canLarge, root, indices, i + 1, at, e);
    }
    RightDown(mem', canLarge, root, tables', indices, l + 1);
  }

  lemma NotRight(mem: Mem, canLarge: set<nat>, root: nat, tables: seq<Option<nat>>, indices: seq<nat>, from: nat)
    requires 1 <= from <= |tables| && tables[from - 1].None?
    ensures !Right(mem, canLarge, root, tables, indices, from)
  {
  }
}
