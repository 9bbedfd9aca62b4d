/** What several modules use: an optional value, powers of two, remainders, lists without repetition. */
module Common {

  datatype Option<+T> = None | Some(value: T)

  const POW64: nat := 0x1_0000_0000_0000_0000

  function Pow2(n: nat): (r: nat)
    ensures r >= 1
  {
    if n == 0 then 1 else 2 * Pow2(n - 1)
  }

  lemma {:induction false} Pow2Grows(a: nat, b: nat)
    requires a <= b
    ensures Pow2(a) <= Pow2(b) && (a < b ==> 2 * Pow2(a) <= Pow2(b))
    decreases b
  {
    if a < b {
      Pow2Grows(a, b - 1);
    }
  }

  lemma ModIs(x: nat, n: nat, q: nat, r: nat)
    requires r < n && x == q * n + r
    ensures x % n == r
  {
    var q', r' := x / n, x % n;
    assert x == q' * n + r' && 0 <= r' < n;
    assert (q - q') * n == q * n - q' * n && (q' - q) * n == q' * n - q * n;
    if q' < q {
      Multiple(q - q', n);
    } else if q < q' {
      Multiple(q' - q, n);
    }
  }

  lemma Multiple(k: nat, n: nat)
    requires k > 0
    ensures k * n >= n
  {
    assert k * n == (k - 1) * n + n;
  }

  /** align_down. */
  function AlignDown(x: nat, n: nat): (r: nat)
    requires n > 0
    ensures r <= x < r + n && r % n == 0
  {
    ModIs(x / n * n, n, x / n, 0);
    x / n * n
  }

  ghost predicate NoRepeat(s: seq<nat>) {
    forall i, j | 0 <= i < j < |s| :: s[i] != s[j]
  }

  function Without(s: seq<nat>, k: nat): seq<nat>
    requires k < |s|
  {
    s[..k] + s[k + 1..]
  }

  lemma RemovedFrom(s: seq<nat>, k: nat)
    requires NoRepeat(s) && k < |s|
    ensures NoRepeat(Without(s, k)) && forall x :: x in Without(s, k) <==> x in s && x != s[k]
  {
    var t := Without(s, k);
    assert forall j | 0 <= j < |t| :: t[j] == if j < k then s[j] else s[j + 1];
    forall x
      ensures x in t <==> x in s && x != s[k]
    {
      if x in s && x != s[k] {
        var j :| 0 <= j < |s| && s[j] == x;
        assert t[if j < k then j else j - 1] == x;
      }
    }
  }

  function Inserted(s: seq<nat>, k: nat, x: nat): seq<nat>
    requires k <= |s|
  {
    s[..k] + [x] + s[k..]
  }

  lemma InsertedInto(s: seq<nat>, k: nat, x: nat)
    requires NoRepeat(s) && k <= |s| && x !in s
    ensures NoRepeat(Inserted(s, k, x)) && forall y :: y in Inserted(s, k, x) <==> y in s || y == x
  {
    var t := Inserted(s, k, x);
    assert forall j | 0 <= j < |t| :: t[j] == if j < k then s[j] else if j == k then x else s[j - 1];
    forall y
      ensures y in t <==> y in s || y == x
    {
      if y in s {
        var j :| 0 <= j < |s| && s[j] == y;
        assert t[if j < k then j else j + 1] == y;
      }
      if y == x {
        assert t[k] == x;
      }
    }
  }
}
