/** Writing bytes in place: the C library's word stores, memcpy and memmove as exact sequence
    operations on an array, and what a store leaves alone. */
module FdtBuffer {
  import opened Bytes
  import opened FdtFormat
  import opened FdtDecode

  /** `b` with `s` stored at index `i`. */
  function Patch(b: seq<Byte>, i: nat, s: seq<Byte>): (r: seq<Byte>)
    requires i + |s| <= |b|
    ensures |r| == |b|
  {
    b[..i] + s + b[i + |s|..]
  }

  method Store(a: array<Byte>, i: nat, s: seq<Byte>)
    requires i + |s| <= a.Length
    modifies a
    ensures a[..] == Patch(old(a[..]), i, s)
  {
    forall k | 0 <= k < |s| {
      a[i + k] := s[k];
    }
    ghost var r := Patch(old(a[..]), i, s);
    assert forall k | 0 <= k < a.Length :: a[..][k] == r[k];
  }

  method Store32(a: array<Byte>, i: nat, w: U32)
    requires i + 4 <= a.Length
    modifies a
    ensures a[..] == Patch(old(a[..]), i, Word(w))
  {
    Store(a, i, Word(w));
  }

  /** memmove: source and destination may overlap. */
  method Move(a: array<Byte>, dst: nat, src: nat, len: nat)
    requires dst + len <= a.Length && src + len <= a.Length
    modifies a
    ensures a[..] == Patch(old(a[..]), dst, old(a[src..src + len]))
  {
    forall k | 0 <= k < len {
      a[dst + k] := a[src + k];
    }
    PatchAt(old(a[..]), dst, old(a[src..src + len]));
    hide Patch;
    ghost var r := Patch(old(a[..]), dst, old(a[src..src + len]));
    assert forall k | 0 <= k < a.Length :: a[..][k] == r[k];
  }

  lemma PatchAt(b: seq<Byte>, i: nat, s: seq<Byte>)
    requires i + |s| <= |b|
    ensures |Patch(b, i, s)| == |b|
    ensures forall k | 0 <= k < |b| :: Patch(b, i, s)[k] == if i <= k < i + |s| then s[k - i] else b[k]
  {
  }

  lemma PatchSlice(b: seq<Byte>, i: nat, s: seq<Byte>, lo: nat, hi: nat)
    requires i + |s| <= |b| && lo <= hi <= |b|
    ensures hi <= i || i + |s| <= lo ==> Patch(b, i, s)[lo..hi] == b[lo..hi]
    ensures lo <= i && i + |s| <= hi ==> Patch(b, i, s)[lo..hi] == Patch(b[lo..hi], i - lo, s)
    ensures Patch(b, i, s)[i..i + |s|] == s
  {
    var r := Patch(b, i, s);
    PatchAt(b, i, s);
    hide Patch;
    var x, y := r[lo..hi], b[lo..hi];
    if hi <= i || i + |s| <= lo {
      assert forall k | 0 <= k < |x| :: x[k] == r[lo + k] == b[lo + k] == y[k];
    }
    if lo <= i && i + |s| <= hi {
      PatchWithin(b, i, s, lo, hi);
    }
    var u := r[i..i + |s|];
    assert forall k | 0 <= k < |u| :: u[k] == r[i + k] == s[k];
  }

  lemma PatchWithin(b: seq<Byte>, i: nat, s: seq<Byte>, lo: nat, hi: nat)
    requires lo <= i && i + |s| <= hi <= |b|
    ensures Patch(b, i, s)[lo..hi] == Patch(b[lo..hi], i - lo, s)
  {
    PatchAt(b, i, s);
    PatchAt(b[lo..hi], i - lo, s);
    hide Patch;
    var x, z := Patch(b, i, s)[lo..hi], Patch(b[lo..hi], i - lo, s);
    forall k | 0 <= k < |x|
      ensures x[k] == z[k]
    {
      assert x[k] == Patch(b, i, s)[lo + k];
    }
  }

  /** A store at a word leaves every other word alone. */
  lemma PatchLoad(b: seq<Byte>, i: nat, s: seq<Byte>, j: nat)
    requires i + |s| <= |b| && j + 4 <= |b|
    ensures j + 4 <= i || i + |s| <= j ==> Load32(Patch(b, i, s), j) == Load32(b, j)
    ensures forall w: U32 | s == Word(w) && i == j :: Load32(Patch(b, i, s), j) == w
  {
    hide Patch, Load32;
    PatchSlice(b, i, s, j, j + 4);
    if j + 4 <= i || i + |s| <= j {
      LoadFrom(Patch(b, i, s), j, b, j);
    }
    forall w: U32 | s == Word(w) && i == j
      ensures Load32(Patch(b, i, s), j) == w
    {
      LoadWord(w);
      assert Word(w)[0..4] == Word(w);
      LoadFrom(Patch(b, i, s), j, Word(w), 0);
    }
  }

  /** A store of a header word: the other header words and everything behind the header stay. */
  lemma PatchHeader(b: Blob, i: nat, w: U32)
    requires i % 4 == 0 && i < HEADER
    ensures var b' := Patch(b, i, Word(w));
            |b'| == |b| && Load32(b', i) == w &&
            (forall j | 0 <= j < HEADER && j % 4 == 0 && j != i :: Load32(b', j) == Load32(b, j)) &&
            b'[HEADER..] == b[HEADER..]
  {
    hide Patch, Load32;
    PatchLoad(b, i, Word(w), i);
    forall j | 0 <= j < HEADER && j % 4 == 0 && j != i
      ensures Load32(Patch(b, i, Word(w)), j) == Load32(b, j)
    {
      PatchLoad(b, i, Word(w), j);
    }
    PatchSlice(b, i, Word(w), HEADER, |b|);
    var b' := Patch(b, i, Word(w));
    assert b'[HEADER..|b|] == b'[HEADER..] && b[HEADER..|b|] == b[HEADER..];
  }

  /** A store behind the header leaves the header alone. */
  lemma PatchBody(b: Blob, i: nat, s: seq<Byte>)
    requires HEADER <= i && i + |s| <= |b|
    ensures |Patch(b, i, s)| == |b|
    ensures forall j | 0 <= j < HEADER && j % 4 == 0 :: Load32(Patch(b, i, s), j) == Load32(b, j)
  {
    hide Patch, Load32;
    forall j | 0 <= j < HEADER && j % 4 == 0
      ensures Load32(Patch(b, i, s), j) == Load32(b, j)
    {
      PatchLoad(b, i, s, j);
    }
  }

  // ---------- what is in front of the structure block ----------

  /** The header words that an edit may change, and those that the writer may change as well. */
  const EDITED: set<nat> := {H_OFF_STRINGS, H_SIZE_STRINGS, H_SIZE_STRUCT}
  const WRITTEN: set<nat> := {H_OFF_STRINGS, H_SIZE_STRINGS, H_SIZE_STRUCT, H_MAGIC, H_TOTALSIZE, H_LAST_COMP}

  /** Everything in front of the structure block is as it was, but for these header words. */
  ghost predicate Front(b: Blob, b': Blob, words: set<nat>) {
    && |b'| == |b| && HEADER <= OffStruct(b) <= |b| && b'[HEADER..OffStruct(b)] == b[HEADER..OffStruct(b)]
    && forall j | 0 <= j < HEADER && j % 4 == 0 && j !in words :: Load32(b', j) == Load32(b, j)
  }

  lemma FrontSelf(b: Blob, words: set<nat>)
    requires HEADER <= OffStruct(b) <= |b|
    ensures Front(b, b, words)
  {
    hide Load32;
  }

  lemma FrontBody(a: Blob, b: Blob, i: nat, s: seq<Byte>, words: set<nat>)
    requires Front(a, b, words) && OffStruct(a) <= i && i + |s| <= |b|
    ensures Front(a, Patch(b, i, s), words)
  {
    hide Patch, Load32;
    PatchBody(b, i, s);
    PatchSlice(b, i, s, HEADER, OffStruct(a));
  }

  lemma FrontWord(a: Blob, b: Blob, i: nat, w: U32, words: set<nat>)
    requires Front(a, b, words) && i in words && i % 4 == 0 && i < HEADER
    ensures Front(a, Patch(b, i, Word(w)), words)
  {
    hide Patch, Load32;
    PatchHeader(b, i, w);
    var b' := Patch(b, i, Word(w));
    var n := OffStruct(a) - HEADER;
    assert b'[HEADER..OffStruct(a)] == b'[HEADER..][..n] && b[HEADER..OffStruct(a)] == b[HEADER..][..n];
  }

  lemma FrontTrans(a: Blob, b: Blob, c: Blob, words: set<nat>)
    requires Front(a, b, words) && Front(b, c, words) && H_OFF_STRUCT !in words
    ensures Front(a, c, words)
  {
    hide Load32;
  }

  /** Rewriting the name word of a property changes the name and nothing else. */
  lemma PatchName(t: seq<Byte>, nameoff: U32)
    requires LexOne(t).Good? && LexOne(t).tok.Prop?
    ensures |t| >= 12
    ensures LexOne(Patch(t, 8, Word(nameoff))) == Good(Prop(nameoff, LexOne(t).tok.value), LexOne(t).len)
  {
    hide Load32, Patch;
    var u := Patch(t, 8, Word(nameoff));
    PatchLoad(t, 8, Word(nameoff), 0);
    PatchLoad(t, 8, Word(nameoff), 4);
    PatchLoad(t, 8, Word(nameoff), 8);
    PatchSlice(t, 8, Word(nameoff), 12, 12 + Load32(t, 4));
  }
}
