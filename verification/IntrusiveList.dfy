/** Intrusive lists (addons/ExpHeap/src/ams/util/util_intrusive_list.hpp): a root node in a ring
    with the nodes of the list. */
module IntrusiveList {
  import opened Options
  import opened Rings

  class IntrusiveListImpl<T> {
    const root: Node<T>
    ghost var items: seq<Node<T>>

    constructor ()
      ensures Valid() && items == [] && fresh(root)
    {
      root := new Node(None);
      items := [];
      new;
      assert [root] + items == [root];
    }

    ghost predicate Valid()
      reads this, root, items
    {
      Ring([root] + items)
    }

    /** The nodes, followed by the end of the list. */
    ghost function Places(): (p: seq<Node<T>>)
      reads this
    {
      items + [root]
    }

    /** The ring as it is seen from place `k`. */
    ghost function From(k: nat): (r: seq<Node<T>>)
      reads this
      requires k <= |items|
    {
      items[k..] + [root] + items[..k]
    }

    lemma RingFrom(k: nat)
      requires Valid() && k <= |items|
      ensures Ring(From(k)) && From(k)[0] == Places()[k]
    {
      var r := [root] + items;
      if k < |items| {
        Rotate(r, k + 1);
        assert r[k + 1..] + r[..k + 1] == From(k);
      } else {
        assert From(k) == r;
      }
    }

    lemma Neighbours(k: nat)
      requires Valid() && k < |items|
      ensures Ring([items[k]] + (items[k + 1..] + [root] + items[..k]))
      ensures items[k].next == (items[k + 1..] + [root] + items[..k])[0]
      ensures items[k].next in [root] + items && items[k].prev in [root] + items
      ensures items[k].next.prev == items[k]
    {
      RingFrom(k);
      var r := From(k);
      assert r == [items[k]] + (items[k + 1..] + [root] + items[..k]);
      assert r[0].next == r[1] && r[1].prev == r[0] && r[0].prev == r[|r| - 1];
      assert forall x :: x in r ==> x in [root] + items;
    }

    predicate Empty()
      reads root
    {
      !root.IsLinked()
    }

    lemma EmptyMeans()
      requires Valid()
      ensures Empty() <==> items == []
      ensures root.next == ([root] + items)[if items == [] then 0 else 1]
      ensures root.prev == ([root] + items)[|items|]
    {
      var r := [root] + items;
      assert r[0].next == if |r| == 1 then r[0] else r[1];
    }

    method PushBack(node: Node<T>)
      requires Valid() && Ring([node]) && node != root && node !in items
      modifies this, root, items, node
      ensures Valid() && items == old(items) + [node]
    {
      root.SplicePrev(node, node, [node], [root] + items);
      assert [root] + items + [node] == [root] + (items + [node]);
      items := items + [node];
    }

    method PushFront(node: Node<T>)
      requires Valid() && Ring([node]) && node != root && node !in items
      modifies this, root, items, node
      ensures Valid() && items == [node] + old(items)
    {
      RingFrom(0);
      assert items[..0] == [] && From(0) == items + [root];
      root.SpliceNext(node, node, [node], items + [root]);
      var r := items + [root] + [node];
      Rotate(r, |items|);
      assert r[|items|..] + r[..|items|] == [root] + ([node] + items);
      items := [node] + items;
    }

    method Unlinked(ghost k: nat, node: Node<T>)
      requires Valid() && k < |items| && items[k] == node
      modifies this, root, items
      ensures Valid() && items == old(items)[..k] + old(items)[k + 1..] && Ring([node])
    {
      ghost var rest := items[k + 1..] + [root] + items[..k];
      Neighbours(k);
      node.Unlink(node.next, [node], rest);
      RestoreRoot(rest, root, items[k + 1..], items[..k]);
      items := items[..k] + items[k + 1..];
    }

    /** Popping from an empty list unlinks the root from itself: nothing changes. */
    method PopBack()
      requires Valid()
      modifies this, root, items
      ensures Valid() && items == if old(items) == [] then [] else old(items)[..|old(items)| - 1]
      ensures old(items) != [] ==> Ring([old(items)[|old(items)| - 1]])
    {
      EmptyMeans();
      var node := root.prev;
      if Empty() {
        node.Unlink(node.next, [node], []);
      } else {
        WithoutEnds(items);
        Unlinked(|items| - 1, node);
      }
    }

    method PopFront()
      requires Valid()
      modifies this, root, items
      ensures Valid() && items == if old(items) == [] then [] else old(items)[1..]
      ensures old(items) != [] ==> Ring([old(items)[0]])
    {
      EmptyMeans();
      var node := root.next;
      if Empty() {
        node.Unlink(node.next, [node], []);
      } else {
        WithoutEnds(items);
        Unlinked(0, node);
      }
    }

    /** Inserts before a place of the list and gives the place of the new node. */
    method Insert(pos: Node<T>, node: Node<T>, ghost k: nat) returns (it: Node<T>)
      requires Valid() && Ring([node]) && node != root && node !in items
      requires k <= |items| && pos == Places()[k]
      modifies this, root, items, node
      ensures Valid() && items == old(items)[..k] + [node] + old(items)[k..] && it == Places()[k]
    {
      RingFrom(k);
      ghost var b := From(k);
      pos.SplicePrev(node, node, [node], b);
      assert b + [node] == items[k..] + [root] + (items[..k] + [node]);
      RestoreRoot(b + [node], root, items[k..], items[..k] + [node]);
      items := items[..k] + [node] + items[k..];
      it := node;
    }

    /** Erasing gives the next place; the end stays where it is. */
    method Erase(pos: Node<T>, ghost k: nat) returns (it: Node<T>)
      requires Valid() && k <= |items| && pos == Places()[k]
      modifies this, root, items
      ensures Valid()
      ensures k == |old(items)| ==> items == old(items) && it == root
      ensures k < |old(items)| ==> items == old(items)[..k] + old(items)[k + 1..] && it == Places()[k] && Ring([pos])
    {
      if pos == root {
        RootIsEnd(k);
        return root;
      }
      RingFrom(k);
      it := pos.next;
      assert it == From(k)[1];
      Unlinked(k, pos);
    }

    lemma RootIsEnd(k: nat)
      requires Valid() && k <= |items|
      ensures Places()[k] == root <==> k == |items|
    {
      assert forall i :: 0 <= i < |items| ==> ([root] + items)[i + 1] == items[i];
    }

    method Clear()
      requires Valid()
      modifies this, root, items
      ensures Valid() && items == []
      ensures forall k :: 0 <= k < |old(items)| ==> Ring([old(items)[k]])
    {
      ghost var all := items;
      ghost var i := 0;
      ItemsApart();
      EmptyMeans();
      while !Empty()
        invariant Valid() && i <= |all| && items == all[i..]
        invariant Empty() <==> items == []
        invariant forall k :: 0 <= k < i ==> Ring([all[k]])
        decreases |items|
      {
        PopFront();
        EmptyMeans();
        i := i + 1;
      }
    }

    lemma ItemsApart()
      requires Valid()
      ensures Distinct(items) && root !in items
    {
      assert forall k :: 0 <= k < |items| ==> ([root] + items)[k + 1] == items[k];
    }

    /** `splice_impl`: takes the range from `first` up to `last` out and puts it before `pos`.
        `mid` is the range, `rest` the remainder of its ring, `dest` the ring at `pos`. */
    static method SpliceImpl(
        pos: Node<T>, first: Node<T>, last: Node<T>,
        ghost mid: seq<Node<T>>, ghost rest: seq<Node<T>>, ghost dest: seq<Node<T>>)
      requires mid != [] && rest != [] && dest != [] && first == mid[0] && last == rest[0] && pos == dest[0]
      requires Ring(mid + rest) && Ring(dest) && Unshared(dest, mid + rest)
      modifies mid, rest, dest
      ensures Ring(rest) && Ring(dest + mid)
    {
      RingParts(mid, rest);
      StillUnshared(dest, mid + rest, dest, mid);
      StillUnshared(dest, mid + rest, dest, rest);
      assert first.prev == rest[|rest| - 1] && last.prev == mid[|mid| - 1] && pos.prev == dest[|dest| - 1];
      first.Unlink(last, mid, rest);
      assert Ring(dest) && pos.prev == dest[|dest| - 1] && first.prev == mid[|mid| - 1];
      pos.SplicePrev(first, first, mid, dest);
    }

    /** The same within one ring: `pos` is place `k` of the range itself, or of the remainder. */
    static method SpliceImplWithin(
        pos: Node<T>, first: Node<T>, last: Node<T>,
        ghost mid: seq<Node<T>>, ghost rest: seq<Node<T>>, ghost inside: bool, ghost k: nat)
      requires mid != [] && rest != [] && first == mid[0] && last == rest[0] && Ring(mid + rest)
      requires if inside then k < |mid| && pos == mid[k] else k < |rest| && pos == rest[k]
      modifies mid, rest
      ensures if inside then Ring(rest) && CutAt(mid, k) else Ring(rest[k..] + rest[..k] + mid)
    {
      RingParts(mid, rest);
      first.Unlink(last, mid, rest);
      if inside {
        assert pos.prev == mid[if k == 0 then |mid| - 1 else k - 1];
      } else {
        Rotate(rest, k);
        assert pos.prev == rest[if k == 0 then |rest| - 1 else k - 1];
      }
      pos.SplicePrev(first, first, mid, if inside then [] else rest[k..] + rest[..k]);
    }

    /** Moves places `i` up to `j` of another list before place `k` of this one. */
    method Splice(
        pos: Node<T>, o: IntrusiveListImpl<T>, first: Node<T>, last: Node<T>, ghost i: nat, ghost j: nat, ghost k: nat)
      requires Valid() && o.Valid() && Unshared([root] + items, [o.root] + o.items)
      requires i <= j <= |o.items| && first == o.Places()[i] && last == o.Places()[j]
      requires k <= |items| && pos == Places()[k]
      modifies this, o, root, o.root, items, o.items
      ensures Valid() && o.Valid() && Unshared([root] + items, [o.root] + o.items)
      ensures items == old(items)[..k] + old(o.items)[i..j] + old(items)[k..]
      ensures o.items == old(o.items)[..i] + old(o.items)[j..]
    {
      SamePlace(o, i, j);
      if first == last {
        return;
      }
      SpliceRange(pos, o, first, last, i, j, k);
    }

    /** Moves a whole list before place `k` of this one. */
    method SpliceAll(pos: Node<T>, o: IntrusiveListImpl<T>, ghost k: nat)
      requires Valid() && o.Valid() && Unshared([root] + items, [o.root] + o.items)
      requires k <= |items| && pos == Places()[k]
      modifies this, o, root, o.root, items, o.items
      ensures Valid() && o.Valid() && Unshared([root] + items, [o.root] + o.items)
      ensures items == old(items)[..k] + old(o.items) + old(items)[k..] && o.items == []
    {
      o.EmptyMeans();
      ghost var n := |o.items|;
      assert o.items[0..n] == o.items && o.items[..0] + o.items[n..] == [];
      Splice(pos, o, o.root.next, o.root, 0, n, k);
    }

    /** Moves one node of another list before place `k` of this one. */
    method SpliceOne(pos: Node<T>, o: IntrusiveListImpl<T>, first: Node<T>, ghost i: nat, ghost k: nat)
      requires Valid() && o.Valid() && Unshared([root] + items, [o.root] + o.items)
      requires i < |o.items| && first == o.items[i] && k <= |items| && pos == Places()[k]
      modifies this, o, root, o.root, items, o.items
      ensures Valid() && o.Valid() && Unshared([root] + items, [o.root] + o.items)
      ensures items == old(items)[..k] + [first] + old(items)[k..]
      ensures o.items == old(o.items)[..i] + old(o.items)[i + 1..]
    {
      o.RingFrom(i);
      assert first.next == o.From(i)[1] == o.Places()[i + 1];
      assert o.items[i..i + 1] == [first];
      Splice(pos, o, first, first.next, i, i + 1, k);
    }

    method SpliceRange(
        pos: Node<T>, o: IntrusiveListImpl<T>, first: Node<T>, last: Node<T>, ghost i: nat, ghost j: nat, ghost k: nat)
      requires Valid() && o.Valid() && Unshared([root] + items, [o.root] + o.items)
      requires i < j <= |o.items| && first == o.Places()[i] && last == o.Places()[j]
      requires k <= |items| && pos == Places()[k]
      modifies this, o, root, o.root, items, o.items
      ensures Valid() && o.Valid() && Unshared([root] + items, [o.root] + o.items)
      ensures items == old(items)[..k] + old(o.items)[i..j] + old(items)[k..]
      ensures o.items == old(o.items)[..i] + old(o.items)[j..]
    {
      ghost var mid, rest, dest := o.items[i..j], o.items[j..] + [o.root] + o.items[..i], From(k);
      SpliceParts(o, i, j, k);
      SpliceImpl(pos, first, last, mid, rest, dest);
      SplicedRings(root, items, o.root, o.items, i, j, k);
      items := items[..k] + mid + items[k..];
      o.items := o.items[..i] + o.items[j..];
    }

    lemma SpliceParts(o: IntrusiveListImpl<T>, i: nat, j: nat, k: nat)
      requires Valid() && o.Valid() && Unshared([root] + items, [o.root] + o.items)
      requires i < j <= |o.items| && k <= |items|
      ensures var mid, rest := o.items[i..j], o.items[j..] + [o.root] + o.items[..i];
              && Ring(mid + rest) && Ring(From(k)) && Unshared(From(k), mid + rest)
              && mid[0] == o.Places()[i] && rest[0] == o.Places()[j] && From(k)[0] == Places()[k]
      ensures Distinct([o.root] + o.items)
      ensures forall x :: x in o.items[i..j] ==> x in o.items
      ensures forall x :: x in o.items[j..] + [o.root] + o.items[..i] ==> x == o.root || x in o.items
      ensures forall x :: x in From(k) ==> x == root || x in items
    {
      o.RingFrom(i);
      RingFrom(k);
      assert o.From(i) == o.items[i..j] + (o.items[j..] + [o.root] + o.items[..i]);
      StillUnshared([root] + items, [o.root] + o.items, From(k), o.From(i));
    }

    /** The two rings after a splice, seen from their roots. */
    static lemma SplicedRings(
        root: Node<T>, items: seq<Node<T>>, root': Node<T>, items': seq<Node<T>>, i: nat, j: nat, k: nat)
      requires i <= j <= |items'| && k <= |items|
      requires Distinct([root'] + items') && Unshared([root] + items, [root'] + items')
      requires Ring(items'[j..] + [root'] + items'[..i])
      requires Ring(items[k..] + [root] + items[..k] + items'[i..j])
      ensures Ring([root'] + (items'[..i] + items'[j..]))
      ensures Ring([root] + (items[..k] + items'[i..j] + items[k..]))
      ensures Unshared([root] + (items[..k] + items'[i..j] + items[k..]), [root'] + (items'[..i] + items'[j..]))
    {
      RestoreRoot(items'[j..] + [root'] + items'[..i], root', items'[j..], items'[..i]);
      var mid := items'[i..j];
      assert items[k..] + [root] + items[..k] + mid == items[k..] + [root] + (items[..k] + mid);
      RestoreRoot(items[k..] + [root] + items[..k] + mid, root, items[k..], items[..k] + mid);
      SplicedUnshared(root, items, root', items', i, j, k);
    }

    static lemma SplicedUnshared(
        root: Node<T>, items: seq<Node<T>>, root': Node<T>, items': seq<Node<T>>, i: nat, j: nat, k: nat)
      requires i <= j <= |items'| && k <= |items|
      requires Distinct([root'] + items') && Unshared([root] + items, [root'] + items')
      ensures Unshared([root] + (items[..k] + items'[i..j] + items[k..]), [root'] + (items'[..i] + items'[j..]))
    {
      var a, b := [root] + items, [root'] + items';
      UnsharedAfter(a, b, i, j, k);
      assert a[..k + 1] == [root] + items[..k] && a[k + 1..] == items[k..];
      assert b[i + 1..j + 1] == items'[i..j] && b[..i + 1] == [root'] + items'[..i] && b[j + 1..] == items'[j..];
      assert a[..k + 1] + b[i + 1..j + 1] + a[k + 1..] == [root] + (items[..k] + items'[i..j] + items[k..]);
      assert b[..i + 1] + b[j + 1..] == [root'] + (items'[..i] + items'[j..]);
    }

    static lemma UnsharedAfter(a: seq<Node<T>>, b: seq<Node<T>>, i: nat, j: nat, k: nat)
      requires Distinct(b) && Unshared(a, b) && i <= j < |b| && k < |a|
      ensures Unshared(a[..k + 1] + b[i + 1..j + 1] + a[k + 1..], b[..i + 1] + b[j + 1..])
    {
      var all, kept := a[..k + 1] + b[i + 1..j + 1] + a[k + 1..], b[..i + 1] + b[j + 1..];
      forall m, n | 0 <= m < |all| && 0 <= n < |kept|
        ensures all[m] != kept[n]
      {
        var y := if n <= i then n else n - i + j;
        assert kept[n] == b[y];
        if k < m <= k + j - i {
          assert all[m] == b[m - k + i];
        } else {
          assert all[m] == a[if m <= k then m else m - j + i];
        }
      }
    }

    /** A ring with the root somewhere, seen from the root. */
    static lemma RestoreRoot(r: seq<Node<T>>, root: Node<T>, before: seq<Node<T>>, after: seq<Node<T>>)
      requires Ring(r) && r == before + [root] + after
      ensures Ring([root] + (after + before))
    {
      Rotate(r, |before|);
      assert r[|before|..] + r[..|before|] == [root] + (after + before);
    }

    static lemma SamePlace(o: IntrusiveListImpl<T>, i: nat, j: nat)
      requires o.Valid() && i <= j <= |o.items|
      ensures o.Places()[i] == o.Places()[j] <==> i == j
    {
      var r := [o.root] + o.items;
      assert forall n :: 0 <= n < |o.items| ==> r[n + 1] == o.Places()[n];
      assert r[0] == o.Places()[|o.items|];
    }

    /** Moves places `i` up to `j` of this list before place `k`. Inside the range that is no move:
        the range drops out, cut in two rings without a root before place `k`. */
    method SpliceWithin(pos: Node<T>, first: Node<T>, last: Node<T>, ghost i: nat, ghost j: nat, ghost k: nat)
      requires Valid() && i <= j <= |items| && k <= |items|
      requires first == Places()[i] && last == Places()[j] && pos == Places()[k]
      modifies this, root, items
      ensures Valid() && items == SplicedWithin(old(items), i, j, k)
      ensures i <= k < j ==> CutAt(old(items)[i..j], k - i)
    {
      SamePlace(this, i, j);
      if first == last {
        EmptyRangeStays(items, i, k);
        return;
      }
      ghost var after := SplicedWithin(items, i, j, k);
      SpliceRangeWithin(pos, first, last, i, j, k, after);
      items := after;
    }

    method SpliceRangeWithin(
        pos: Node<T>, first: Node<T>, last: Node<T>,
        ghost i: nat, ghost j: nat, ghost k: nat, ghost after: seq<Node<T>>)
      requires Valid() && i < j <= |items| && k <= |items| && after == SplicedWithin(items, i, j, k)
      requires first == Places()[i] && last == Places()[j] && pos == Places()[k]
      modifies root, items
      ensures Ring([root] + after)
      ensures i <= k < j ==> CutAt(items[i..j], k - i)
    {
      ghost var inside := i <= k < j;
      ghost var at: nat := if k < i then |items| - j + 1 + k else if inside then k - i else k - j;
      WithinParts(i, j, k, at);
      SpliceImplWithin(pos, first, last, items[i..j], items[j..] + [root] + items[..i], inside, at);
      SplicedRing(root, items, i, j, k, at);
    }

    lemma WithinParts(i: nat, j: nat, k: nat, at: nat)
      requires Valid() && i < j <= |items| && k <= |items|
      requires at == if k < i then |items| - j + 1 + k else if k < j then k - i else k - j
      ensures var mid, rest := items[i..j], items[j..] + [root] + items[..i];
              && Ring(mid + rest) && mid[0] == Places()[i] && rest[0] == Places()[j]
              && if i <= k < j then mid[at] == Places()[k]
                 else at < |rest| && rest[at] == Places()[k]
      ensures forall x :: x in items[i..j] || x in items[j..] + [root] + items[..i] ==> x == root || x in items
    {
      RingFrom(i);
      assert From(i) == items[i..j] + (items[j..] + [root] + items[..i]);
    }

    /** What the list is left with, seen from the root. */
    static lemma SplicedRing(root: Node<T>, items: seq<Node<T>>, i: nat, j: nat, k: nat, at: nat)
      requires i < j <= |items| && k <= |items|
      requires i <= k < j ==> Ring(items[j..] + [root] + items[..i])
      requires k < i || j <= k ==>
                 && at == (if k < i then |items| - j + 1 + k else k - j)
                 && var rest := items[j..] + [root] + items[..i]; Ring(rest[at..] + rest[..at] + items[i..j])
      ensures Ring([root] + SplicedWithin(items, i, j, k))
    {
      if i <= k < j {
        RestoreRoot(items[j..] + [root] + items[..i], root, items[j..], items[..i]);
      } else {
        MovedRing(root, items, i, j, k, at);
      }
    }

    static lemma MovedRing(root: Node<T>, items: seq<Node<T>>, i: nat, j: nat, k: nat, at: nat)
      requires i <= j <= |items| && k <= |items| && (k < i || j <= k)
      requires at == if k < i then |items| - j + 1 + k else k - j
      requires var rest := items[j..] + [root] + items[..i]; Ring(rest[at..] + rest[..at] + items[i..j])
      ensures Ring([root] + Moved(items, i, j, k))
    {
      var rest := items[j..] + [root] + items[..i];
      if k < i {
        BackParts(root, items, i, j, k, rest);
        MovedBack(root, items[..k], items[k..i], items[i..j], items[j..]);
      } else {
        ForwardParts(root, items, i, j, k, rest);
        MovedForward(root, items[..i], items[i..j], items[j..k], items[k..]);
      }
    }

    static lemma BackParts(root: Node<T>, items: seq<Node<T>>, i: nat, j: nat, k: nat, rest: seq<Node<T>>)
      requires k < i <= j <= |items| && rest == items[j..] + [root] + items[..i]
      ensures rest[|items| - j + 1 + k..] == items[k..i]
      ensures rest[..|items| - j + 1 + k] == items[j..] + [root] + items[..k]
    {
      assert items[..i] == items[..k] + items[k..i];
      SliceAround(items[j..], root, items[..k], items[k..i]);
    }

    static lemma ForwardParts(root: Node<T>, items: seq<Node<T>>, i: nat, j: nat, k: nat, rest: seq<Node<T>>)
      requires i <= j <= k <= |items| && rest == items[j..] + [root] + items[..i]
      ensures rest[k - j..] == items[k..] + [root] + items[..i] && rest[..k - j] == items[j..k]
    {
      assert items[j..] == items[j..k] + items[k..];
      SliceBefore(items[j..k], items[k..], root, items[..i]);
    }

    static lemma SliceAround(r: seq<Node<T>>, root: Node<T>, p: seq<Node<T>>, q: seq<Node<T>>)
      ensures (r + [root] + (p + q))[|r| + 1 + |p|..] == q && (r + [root] + (p + q))[..|r| + 1 + |p|] == r + [root] + p
    {
    }

    static lemma SliceBefore(a: seq<Node<T>>, b: seq<Node<T>>, root: Node<T>, c: seq<Node<T>>)
      ensures (a + b + [root] + c)[|a|..] == b + [root] + c && (a + b + [root] + c)[..|a|] == a
    {
    }

    static lemma MovedBack(root: Node<T>, p: seq<Node<T>>, q: seq<Node<T>>, mid: seq<Node<T>>, r: seq<Node<T>>)
      requires Ring(q + (r + [root] + p) + mid)
      ensures Ring([root] + (p + mid + q + r))
    {
      assert q + (r + [root] + p) + mid == (q + r) + [root] + (p + mid);
      RestoreRoot(q + (r + [root] + p) + mid, root, q + r, p + mid);
      assert (p + mid) + (q + r) == p + mid + q + r;
    }

    static lemma MovedForward(root: Node<T>, p: seq<Node<T>>, mid: seq<Node<T>>, q: seq<Node<T>>, r: seq<Node<T>>)
      requires Ring((r + [root] + p) + q + mid)
      ensures Ring([root] + (p + q + mid + r))
    {
      assert (r + [root] + p) + q + mid == r + [root] + (p + q + mid);
      RestoreRoot((r + [root] + p) + q + mid, root, r, p + q + mid);
    }
  }

  /** The range from `i` to `j` moved before position `k`. */
  function Moved<X>(s: seq<X>, i: nat, j: nat, k: nat): (r: seq<X>)
    requires i <= j <= |s| && k <= |s| && (k < i || j <= k)
    ensures |r| == |s|
  {
    if k < i then s[..k] + s[i..j] + s[k..i] + s[j..] else s[..i] + s[j..k] + s[i..j] + s[k..]
  }

  lemma MovedKeepsAll<X>(s: seq<X>, i: nat, j: nat, k: nat)
    requires i <= j <= |s| && k <= |s| && (k < i || j <= k)
    ensures multiset(Moved(s, i, j, k)) == multiset(s)
  {
    if k < i {
      Exchange(s[..k], s[k..i], s[i..j], s[j..]);
      assert s == s[..k] + s[k..i] + s[i..j] + s[j..];
    } else {
      Exchange(s[..i], s[i..j], s[j..k], s[k..]);
      assert s == s[..i] + s[i..j] + s[j..k] + s[k..];
    }
  }

  /** The nodes a list is left with when it splices its own places `i` up to `j` before `k`. */
  function SplicedWithin<X>(s: seq<X>, i: nat, j: nat, k: nat): seq<X>
    requires i <= j <= |s| && k <= |s|
  {
    if k < i || j <= k then Moved(s, i, j, k) else s[..i] + s[j..]
  }

  lemma EmptyRangeStays<X>(s: seq<X>, i: nat, k: nat)
    requires i <= |s| && k <= |s|
    ensures SplicedWithin(s, i, i, k) == s
  {
  }

  /** A list keeps all its nodes if and only if the place is not inside the range it moves. */
  lemma SpliceWithinKeepsAll<X>(s: seq<X>, i: nat, j: nat, k: nat)
    requires i <= j <= |s| && k <= |s|
    ensures multiset(SplicedWithin(s, i, j, k)) == multiset(s) <==> i == j || k < i || j <= k
  {
    if k < i || j <= k {
      MovedKeepsAll(s, i, j, k);
    } else {
      assert |multiset(s[..i] + s[j..])| < |multiset(s)|;
    }
  }

  /** A splice between two lists conserves the nodes of both together. */
  lemma SpliceKeepsAll<X>(s: seq<X>, o: seq<X>, i: nat, j: nat, k: nat)
    requires i <= j <= |o| && k <= |s|
    ensures multiset(s[..k] + o[i..j] + s[k..]) + multiset(o[..i] + o[j..]) == multiset(s) + multiset(o)
  {
    assert s == s[..k] + s[k..];
    assert o == o[..i] + o[i..j] + o[j..];
  }

  lemma Exchange<X>(a: seq<X>, b: seq<X>, c: seq<X>, d: seq<X>)
    ensures multiset(a + b + c + d) == multiset(a + c + b + d)
  {
  }
}
