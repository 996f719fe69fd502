/** Doubly linked rings of nodes, and the pointer surgery of `IntrusiveListNode`
    (addons/ExpHeap/src/ams/util/util_intrusive_list.hpp). */
module Rings {
  import opened Options

  /** A node, with the object it is a member of; the root of a list belongs to none. */
  class Node<T> {
    const item: Option<T>
    var prev: Node<T>
    var next: Node<T>

    constructor (item: Option<T>)
      ensures this.item == item && Ring([this])
    {
      this.item, prev, next := item, this, this;
    }

    predicate IsLinked()
      reads this
    {
      next != this
    }

    /** Takes the nodes from this one up to `last` out of their ring: `a` is that range, `b` the
        rest. Taking the whole ring changes nothing. */
    method Unlink(last: Node<T>, ghost a: seq<Node<T>>, ghost b: seq<Node<T>>)
      requires a != [] && a[0] == this && last == (if b == [] then this else b[0]) && Ring(a + b)
      modifies this`prev, prev`next, last`prev, last.prev`next
      ensures Ring(a) && (b != [] ==> Ring(b))
    {
      if b == [] {
        assert a + b == a;
      } else {
        RingParts(a, b);
      }
      var lastPrev := last.prev;
      prev.next := last;
      last.prev := prev;
      lastPrev.next := this;
      prev := lastPrev;
    }

    /** Puts the ring `a` that starts at `first` before this node, the start of ring `b`. When this
        node is in `a` itself, the same writes cut that ring in two before it. */
    method SplicePrev(first: Node<T>, last: Node<T>, ghost a: seq<Node<T>>, ghost b: seq<Node<T>>)
      requires a != [] && a[0] == first == last && Ring(a)
      requires this in a || (b != [] && b[0] == this && Ring(b) && Unshared(a, b))
      modifies this`prev, prev`next, first`prev, last.prev`next
      ensures this !in a ==> Ring(b + a)
      ensures forall p :: 0 <= p < |a| && a[p] == this ==> CutAt(a, p)
    {
      ghost var r := b + a;
      assert forall i :: 0 <= i < |a| ==> r[|b| + i] == a[i];
      assert last.prev == a[|a| - 1];
      assert this !in a ==> prev == b[|b| - 1];
      ghost var p := if this in a then Position(a, this) else 0;
      assert this in a ==> prev == a[if p == 0 then |a| - 1 else p - 1];
      var lastPrev := last.prev;
      first.prev := prev;
      lastPrev.next := this;
      prev.next := first;
      prev := lastPrev;
      if this in a {
        CutRing(a, p);
      }
    }

    /** Puts the ring `a` that starts at `first` after this node, the end of ring `b`. */
    method SpliceNext(first: Node<T>, last: Node<T>, ghost a: seq<Node<T>>, ghost b: seq<Node<T>>)
      requires a != [] && b != [] && a[0] == first == last && b[|b| - 1] == this
      requires Ring(a) && Ring(b) && Unshared(a, b)
      modifies this`next, next`prev, first`prev, last.prev`next
      ensures Ring(b + a)
    {
      ghost var r := b + a;
      assert forall i :: 0 <= i < |a| ==> r[|b| + i] == a[i];
      assert last.prev == a[|a| - 1] && next == b[0];
      var lastPrev := last.prev;
      first.prev := this;
      lastPrev.next := next;
      next.prev := lastPrev;
      next := first;
    }
  }

  ghost predicate Distinct<T>(r: seq<Node<T>>)
  {
    forall i, j :: 0 <= i < j < |r| ==> r[i] != r[j]
  }

  ghost predicate Unshared<T>(a: seq<Node<T>>, b: seq<Node<T>>)
  {
    forall i, j :: 0 <= i < |a| && 0 <= j < |b| ==> a[i] != b[j]
  }

  lemma StillUnshared<T>(a: seq<Node<T>>, b: seq<Node<T>>, a': seq<Node<T>>, b': seq<Node<T>>)
    requires Unshared(a, b)
    requires forall x :: x in a' ==> x in a
    requires forall x :: x in b' ==> x in b
    ensures Unshared(a', b')
  {
    forall i, j | 0 <= i < |a'| && 0 <= j < |b'|
      ensures a'[i] != b'[j]
    {
      assert a'[i] in a && b'[j] in b;
    }
  }

  /** The nodes of `r`, each once, linked both ways in this order and from the last to the first. */
  ghost predicate Ring<T>(r: seq<Node<T>>)
    reads r
  {
    && r != [] && Distinct(r)
    && (forall i, j :: 0 <= i < j < |r| && j == i + 1 ==> r[i].next == r[j] && r[j].prev == r[i])
    && r[|r| - 1].next == r[0] && r[0].prev == r[|r| - 1]
  }

  /** Two rings: the nodes before position `p`, if there are any, and the rest. */
  ghost predicate CutAt<T>(r: seq<Node<T>>, p: nat)
    reads r
    requires p < |r|
  {
    (p > 0 ==> Ring(r[..p])) && Ring(r[p..])
  }

  ghost function Position<T>(r: seq<Node<T>>, x: Node<T>): (p: nat)
    requires Distinct(r) && x in r
    ensures p < |r| && r[p] == x && forall i :: 0 <= i < |r| && r[i] == x ==> i == p
  {
    var i :| 0 <= i < |r| && r[i] == x;
    i
  }

  /** A stretch of nodes whose ends are linked to each other is a ring. */
  lemma StretchIsRing<T>(r: seq<Node<T>>, lo: nat, hi: nat, q: seq<Node<T>>)
    requires lo < hi <= |r| && q == r[lo..hi] && Distinct(r)
    requires forall i, j :: lo <= i < j < hi && j == i + 1 ==> r[i].next == r[j] && r[j].prev == r[i]
    requires r[hi - 1].next == r[lo] && r[lo].prev == r[hi - 1]
    ensures Ring(q)
  {
    assert forall i :: 0 <= i < |q| ==> q[i] == r[lo + i];
  }

  lemma CutRing<T>(r: seq<Node<T>>, p: nat)
    requires p < |r| && Distinct(r)
    requires forall i, j :: 0 <= i < j < |r| && j == i + 1 && j != p ==> r[i].next == r[j] && r[j].prev == r[i]
    requires r[|r| - 1].next == r[p] && r[p].prev == r[|r| - 1]
    requires p > 0 ==> r[p - 1].next == r[0] && r[0].prev == r[p - 1]
    ensures CutAt(r, p)
  {
    StretchIsRing(r, p, |r|, r[p..]);
    if p > 0 {
      StretchIsRing(r, 0, p, r[..p]);
    }
  }

  lemma RingParts<T>(a: seq<Node<T>>, b: seq<Node<T>>)
    requires a != [] && b != [] && Ring(a + b)
    ensures Distinct(a) && Distinct(b) && Unshared(a, b)
    ensures forall i, j :: 0 <= i < j < |a| && j == i + 1 ==> a[i].next == a[j] && a[j].prev == a[i]
    ensures forall i, j :: 0 <= i < j < |b| && j == i + 1 ==> b[i].next == b[j] && b[j].prev == b[i]
    ensures a[|a| - 1].next == b[0] && b[0].prev == a[|a| - 1] && b[|b| - 1].next == a[0] && a[0].prev == b[|b| - 1]
  {
    var r := a + b;
    assert forall i :: 0 <= i < |a| ==> r[i] == a[i];
    assert forall i :: 0 <= i < |b| ==> r[|a| + i] == b[i];
  }

  lemma Rotate<T>(r: seq<Node<T>>, k: nat)
    requires Ring(r) && k < |r|
    ensures Ring(r[k..] + r[..k])
  {
    var q := r[k..] + r[..k];
    assert forall i :: 0 <= i < |r| - k ==> q[i] == r[i + k];
    assert forall i :: |r| - k <= i < |r| ==> q[i] == r[i + k - |r|];
  }

  lemma WithoutEnds<X>(s: seq<X>)
    requires s != []
    ensures s[..0] + s[0 + 1..] == s[1..] && s[..|s| - 1] + s[|s| - 1 + 1..] == s[..|s| - 1]
  {
  }

  /** A ring is determined by its nodes and where it starts: following `next` from there. */
  lemma {:induction false} RingIsUnique<T>(r: seq<Node<T>>, q: seq<Node<T>>)
    requires Ring(r) && Ring(q) && r[0] == q[0]
    ensures r == q
  {
    SamePrefix(r, q, if |r| < |q| then |r| else |q|);
    if |r| < |q| {
      NextOf(q, |r| - 1);
    } else if |q| < |r| {
      NextOf(r, |q| - 1);
    }
  }

  lemma NextOf<T>(r: seq<Node<T>>, i: nat)
    requires Ring(r) && i < |r| - 1
    ensures r[i].next == r[i + 1] && r[i + 1] != r[0]
  {
  }

  lemma {:induction false} SamePrefix<T>(r: seq<Node<T>>, q: seq<Node<T>>, n: nat)
    requires Ring(r) && Ring(q) && r[0] == q[0] && 0 < n <= |r| && n <= |q|
    ensures r[..n] == q[..n]
  {
    if n > 1 {
      SamePrefix(r, q, n - 1);
      assert r[..n - 1][n - 2] == r[n - 2] && q[..n - 1][n - 2] == q[n - 2];
      assert r[n - 1] == r[n - 2].next;
      assert q[n - 1] == q[n - 2].next;
    }
  }
}
