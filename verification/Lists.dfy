/** The circular doubly-linked list of lib/list.h: the list head and its members form a ring. */
module Lists {

  class Link {
    var prev: Link?
    var next: Link?

    /** list_init. */
    constructor ()
      ensures Ring([this])
    {
      prev, next := this, this;
    }
  }

  ghost predicate Different(s: seq<Link>) {
    forall i, j | 0 <= i < j < |s| :: s[i] != s[j]
  }

  /** `a` stands directly before `b`. */
  ghost predicate Joined(a: Link, b: Link)
    reads a, b
  {
    a.next == b && b.prev == a
  }

  /** The ring through the list head `s[0]` and then the members of the list in order. */
  ghost predicate Ring(s: seq<Link>)
    reads s
  {
    && s != [] && Different(s) && Joined(s[|s| - 1], s[0])
    && forall i | 0 <= i < |s| - 1 :: Joined(s[i], s[i + 1])
  }

  /** list_empty. */
  method Empty(list: Link, ghost s: seq<Link>) returns (r: bool)
    requires Ring(s) && s[0] == list
    ensures r <==> |s| == 1
  {
    assert list.prev == s[|s| - 1];
    return list == list.prev;
  }

  /** list_add: the item becomes the first member. */
  method Add(head: Link, item: Link, ghost s: seq<Link>)
    requires Ring(s) && s[0] == head && item !in s
    modifies item, head, head.next
    ensures Ring([head, item] + s[1..])
  {
    AddCommon(item, head, head.next, s, 1);
    assert s[..1] + [item] + s[1..] == [head, item] + s[1..];
  }

  /** list_radd: the item becomes the last member. */
  method AddBack(head: Link, item: Link, ghost s: seq<Link>)
    requires Ring(s) && s[0] == head && item !in s
    modifies item, head, head.prev
    ensures Ring(s + [item])
  {
    AddCommon(item, head.prev, head, s, |s|);
    assert s[..|s|] + [item] + s[|s|..] == s + [item];
  }

  /** list_add_common, between the neighbours at position `k`. */
  method AddCommon(elem: Link, prev: Link?, next: Link?, ghost s: seq<Link>, ghost k: nat)
    requires Ring(s) && elem !in s && 1 <= k <= |s|
    requires prev == s[k - 1] && next == (if k == |s| then s[0] else s[k])
    modifies elem, prev, next
    ensures Ring(s[..k] + [elem] + s[k..])
  {
    elem.prev := prev;
    elem.next := next;
    prev.next := elem;
    next.prev := elem;
  }

  /** The two stores that take an element out of its ring. */
  method Unlink(elem: Link, ghost s: seq<Link>, ghost k: nat)
    requires Ring(s) && 1 <= k < |s| && s[k] == elem
    modifies s
    ensures Ring(s[..k] + s[k + 1..]) && elem !in s[..k] + s[k + 1..]
  {
    ghost var t := s[..k] + s[k + 1..];
    assert Joined(s[k - 1], s[(k - 1) + 1]);
    assert k + 1 < |s| ==> Joined(s[k], s[k + 1]);
    assert forall i | 0 <= i < |t| :: t[i] == if i < k then s[i] else s[i + 1];
    elem.next.prev := elem.prev;
    elem.prev.next := elem.next;
    forall i | 0 <= i < |t| - 1
      ensures Joined(t[i], t[i + 1])
    {
      if i >= k {
        assert t[i] == s[i + 1] && t[i + 1] == s[(i + 1) + 1];
      }
    }
  }

  /** list_remove: the element is left as a ring of its own. */
  method Remove(elem: Link, ghost s: seq<Link>, ghost k: nat)
    requires Ring(s) && 1 <= k < |s| && s[k] == elem
    modifies s
    ensures Ring(s[..k] + s[k + 1..]) && Ring([elem])
  {
    Unlink(elem, s, k);
    elem.prev := elem;
    elem.next := elem;
  }

  /** list_delete: the element is left with no neighbours. */
  method Delete(elem: Link, ghost s: seq<Link>, ghost k: nat)
    requires Ring(s) && 1 <= k < |s| && s[k] == elem
    modifies s
    ensures Ring(s[..k] + s[k + 1..]) && elem.prev == null && elem.next == null
  {
    Unlink(elem, s, k);
    elem.prev := null;
    elem.next := null;
  }

  /** The links decide the ring: from the head on there is only one. */
  lemma {:induction false} RingUnique(s: seq<Link>, t: seq<Link>, n: nat)
    requires Ring(s) && Ring(t) && s[0] == t[0] && n <= |s| && n <= |t|
    ensures s[..n] == t[..n]
  {
    if n > 1 {
      RingUnique(s, t, n - 1);
      assert s[n - 2] == s[..n - 1][n - 2] == t[..n - 1][n - 2] == t[n - 2];
      assert Joined(s[n - 2], s[(n - 2) + 1]) && Joined(t[n - 2], t[(n - 2) + 1]);
    }
  }

  lemma RingLength(s: seq<Link>, t: seq<Link>)
    requires Ring(s) && Ring(t) && s[0] == t[0]
    ensures s == t
  {
    if |s| < |t| {
      RingUnique(s, t, |s|);
    } else if |t| < |s| {
      RingUnique(s, t, |t|);
    } else {
      RingUnique(s, t, |s|);
      assert s[..|s|] == s && t[..|t|] == t;
    }
  }
}
