/** Bytes and the big-endian words the flattened device tree is made of. */
module Bytes {

  type Byte = b: int | 0 <= b < 256

  const POW31: int := 0x8000_0000
  const POW32: int := 0x1_0000_0000

  type U32 = w: int | 0 <= w < POW32

  /** The big-endian word stored at index `i` (fdt32_to_cpu). */
  function Load32(s: seq<Byte>, i: nat): (w: U32)
    requires i + 4 <= |s|
  {
    var b0: int, b1: int, b2: int, b3: int := s[i], s[i + 1], s[i + 2], s[i + 3];
    b0 * 0x100_0000 + b1 * 0x1_0000 + b2 * 0x100 + b3
  }

  /** The four bytes of a word, most significant first (cpu_to_fdt32). */
  function Word(w: U32): (s: seq<Byte>)
    ensures |s| == 4
  {
    [w / 0x100_0000, (w / 0x1_0000) % 0x100, (w / 0x100) % 0x100, w % 0x100]
  }

  lemma LoadWord(w: U32)
    ensures Load32(Word(w), 0) == w
  {
    var q := w / 0x100;
    var p := q / 0x100;
    assert w / 0x1_0000 == p && w / 0x100_0000 == p / 0x100;
    assert w == q * 0x100 + w % 0x100 && q == p * 0x100 + q % 0x100 && p == p / 0x100 * 0x100 + p % 0x100;
  }

  lemma WordLoad(s: seq<Byte>, i: nat)
    requires i + 4 <= |s|
    ensures Word(Load32(s, i)) == s[i..i + 4]
  {
    var b0: int, b1: int, b2: int, b3: int := s[i], s[i + 1], s[i + 2], s[i + 3];
    var w := Load32(s, i);
    assert w / 0x100_0000 == b0;
    assert w / 0x1_0000 == b0 * 0x100 + b1;
    assert w / 0x100 == b0 * 0x1_0000 + b1 * 0x100 + b2;
    var u, v := Word(w), s[i..i + 4];
    assert u[0] == v[0] && u[1] == v[1] && u[2] == v[2] && u[3] == v[3];
  }

  /** Loading depends on the four bytes only. */
  lemma LoadFrom(s: seq<Byte>, i: nat, t: seq<Byte>, j: nat)
    requires i + 4 <= |s| && j + 4 <= |t|
    requires s[i..i + 4] == t[j..j + 4]
    ensures Load32(s, i) == Load32(t, j)
  {
    var u, v := s[i..i + 4], t[j..j + 4];
    assert s[i] == u[0] && s[i + 1] == u[1] && s[i + 2] == u[2] && s[i + 3] == u[3];
    assert t[j] == v[0] && t[j + 1] == v[1] && t[j + 2] == v[2] && t[j + 3] == v[3];
  }

  lemma SliceOfSlice<T>(s: seq<T>, lo: nat, hi: nat, i: nat, j: nat)
    requires lo <= hi <= |s| && i <= j <= hi - lo
    ensures s[lo..hi][i..j] == s[lo + i..lo + j]
  {
    var a, b := s[lo..hi][i..j], s[lo + i..lo + j];
    assert forall k | 0 <= k < |a| :: a[k] == b[k];
  }

  lemma DropSlice<T>(s: seq<T>, k: nat, i: nat, j: nat)
    requires k <= |s| && i <= j <= |s| - k
    ensures s[k..][i..j] == s[k + i..k + j]
  {
    var a, b := s[k..][i..j], s[k + i..k + j];
    assert |a| == |b| == j - i;
    assert forall x | 0 <= x < |a| :: a[x] == b[x];
  }

  /** Index of the first NUL at or after `i`, or |s| when there is none. */
  function NulFrom(s: seq<Byte>, i: nat): (n: nat)
    requires i <= |s|
    ensures i <= n <= |s|
    ensures n < |s| ==> s[n] == 0
    ensures forall k | i <= k < n :: s[k] != 0
    decreases |s| - i
  {
    if i == |s| || s[i] == 0 then i else NulFrom(s, i + 1)
  }

  lemma NulFromUnique(s: seq<Byte>, i: nat, n: nat)
    requires i <= n < |s|
    requires s[n] == 0
    requires forall k | i <= k < n :: s[k] != 0
    ensures NulFrom(s, i) == n
  {
  }

  predicate NulFree(s: seq<Byte>) {
    forall k | 0 <= k < |s| :: s[k] != 0
  }

  /** FDT_TAGALIGN. */
  function Align4(n: nat): (r: nat)
    ensures n <= r < n + 4 && r % 4 == 0
  {
    (n + 3) / 4 * 4
  }
}
