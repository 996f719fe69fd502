/** The list of loaded modules (hakkun/include/rtld/RoModuleList.h): the list object itself is the
    sentinel of the ring, its `front` in the place of a module's `next` and its `back` of `prev`. */
module RoModuleList {
  import opened ElfLookup
  import opened Hashing
  import opened Options
  import opened Rings
  import opened Words

  function Reversed<T>(s: seq<T>): (r: seq<T>)
    ensures |r| == |s| && (forall x :: x in r ==> x in s) && (forall x :: x in s ==> x in r)
  {
    if s == [] then [] else Reversed(s[1..]) + [s[0]]
  }

  lemma {:induction false} ReversedAt<T>(s: seq<T>, k: nat)
    requires k < |s|
    ensures Reversed(s)[k] == s[|s| - 1 - k]
  {
    if k < |s| - 1 {
      ReversedAt(s[1..], k);
    }
  }

  lemma ReversedTwice<T>(s: seq<T>)
    ensures Reversed(Reversed(s)) == s
  {
    forall k | 0 <= k < |s|
      ensures Reversed(Reversed(s))[k] == s[k]
    {
      ReversedAt(Reversed(s), k);
      ReversedAt(s, |s| - 1 - k);
    }
  }

  lemma {:induction false} ReversedAppend<T>(s: seq<T>, x: T)
    ensures Reversed(s + [x]) == [x] + Reversed(s)
  {
    forall k | 0 <= k < |s| + 1
      ensures Reversed(s + [x])[k] == ([x] + Reversed(s))[k]
    {
      ReversedAt(s + [x], k);
      if k > 0 {
        ReversedAt(s, k - 1);
      }
    }
  }

  lemma PushedOne<T>(s: seq<T>, i: nat, rest: seq<T>)
    requires i < |s|
    ensures [s[i]] + (Reversed(s[..i]) + rest) == Reversed(s[..i + 1]) + rest
  {
    assert s[..i + 1] == s[..i] + [s[i]];
    ReversedAppend(s[..i], s[i]);
  }

  /** The modules that nodes belong to. */
  ghost function ModulesOf(nodes: seq<Node<Module>>): seq<Module>
  {
    if nodes == [] then []
    else (if nodes[0].item.Some? then [nodes[0].item.value] else []) + ModulesOf(nodes[1..])
  }

  class List {
    const sentinel: Node<Module>
    ghost var items: seq<Node<Module>>

    constructor ()
      ensures Valid() && items == [] && fresh(sentinel)
    {
      sentinel := new Node(None);
      items := [];
      new;
      assert [sentinel] + items == [sentinel];
    }

    ghost predicate Valid()
      reads this, sentinel, items
    {
      Ring([sentinel] + items) && forall n :: n in items ==> n.item.Some?
    }

    predicate Empty()
      reads sentinel
    {
      sentinel.next == sentinel
    }

    /** The ring read from the node at place `k`; the sentinel is the last place. */
    ghost function From(k: nat): (r: seq<Node<Module>>)
      reads this
      requires k <= |items|
    {
      items[k..] + [sentinel] + items[..k]
    }

    lemma RingFrom(k: nat)
      requires Valid() && k <= |items|
      ensures Ring(From(k)) && From(k)[0] == (items + [sentinel])[k]
      ensures forall n :: n in From(k) <==> n in items || n == sentinel
    {
      var r := [sentinel] + items;
      if k < |items| {
        Rotate(r, k + 1);
        assert r[k + 1..] + r[..k + 1] == From(k);
      } else {
        assert From(k) == r;
      }
      assert items == items[..k] + items[k..];
    }

    static lemma RestoreSentinel(
        r: seq<Node<Module>>, sentinel: Node<Module>, before: seq<Node<Module>>, after: seq<Node<Module>>)
      requires Ring(r) && r == before + [sentinel] + after
      ensures Ring([sentinel] + (after + before))
    {
      Rotate(r, |before|);
      assert r[|before|..] + r[..|before|] == [sentinel] + (after + before);
    }

    lemma EmptyMeans()
      requires Valid()
      ensures Empty() <==> items == []
      ensures sentinel.next == (items + [sentinel])[0] && sentinel.prev == ([sentinel] + items)[|items|]
      ensures sentinel !in items && Distinct(items)
    {
      var r := [sentinel] + items;
      assert forall k :: 0 <= k < |items| ==> r[k + 1] == items[k];
      assert r[0].next == if |r| == 1 then r[0] else r[1];
    }

    method PushFront(added: Node?<Module>)
      requires Valid() && (added != null ==> added != sentinel && added !in items && added.item.Some?)
      modifies this, sentinel, sentinel.next, added
      ensures Valid() && items == if added == null then old(items) else [added] + old(items)
    {
      if added == null {
        return;
      }
      EmptyMeans();
      RingFrom(0);
      ghost var b := items + [sentinel];
      assert From(0) == b;
      added.prev := sentinel;
      added.next := sentinel.next;
      sentinel.next.prev := added;
      sentinel.next := added;
      assert Ring(b + [added]);
      RestoreSentinel(b + [added], sentinel, items, [added]);
      items := [added] + items;
    }

    method PushBack(added: Node?<Module>)
      requires Valid() && (added != null ==> added != sentinel && added !in items && added.item.Some?)
      modifies this, sentinel, items, added
      ensures Valid() && items == if added == null then old(items) else old(items) + [added]
    {
      if added == null {
        return;
      }
      EmptyMeans();
      added.next := sentinel;
      added.prev := sentinel.prev;
      sentinel.prev.next := added;
      sentinel.prev := added;
      assert Ring([sentinel] + items + [added]);
      assert [sentinel] + items + [added] == [sentinel] + (items + [added]);
      items := items + [added];
    }

    method InsertBefore(pos: Node?<Module>, added: Node?<Module>, ghost k: nat)
      requires Valid() && (added != null ==> added != sentinel && added !in items && added.item.Some?)
      requires pos != null ==> k <= |items| && pos == (items + [sentinel])[k]
      modifies this, sentinel, items, added
      ensures Valid()
      ensures items == if pos == null || added == null then old(items) else old(items)[..k] + [added] + old(items)[k..]
    {
      if pos == null || added == null {
        return;
      }
      RingFrom(k);
      EmptyMeans();
      ghost var b := From(k);
      assert pos == sentinel.next ==> pos.prev == sentinel;
      assert pos.prev == b[|b| - 1];
      added.next := pos;
      added.prev := pos.prev;
      pos.prev.next := added;
      pos.prev := added;
      // The branch that sets `front` when `pos` is the front never runs: the sentinel is a node too.
      assert pos != sentinel.next;
      assert Ring(b + [added]);
      RestoreSentinel(b + [added], sentinel, items[k..], items[..k] + [added]);
      items := items[..k] + [added] + items[k..];
    }

    method InsertAfter(pos: Node?<Module>, added: Node?<Module>, ghost k: nat)
      requires Valid() && (added != null ==> added != sentinel && added !in items && added.item.Some?)
      requires pos != null ==> k <= |items| && pos == ([sentinel] + items)[k]
      modifies this, sentinel, items, added
      ensures Valid()
      ensures items == if pos == null || added == null then old(items) else old(items)[..k] + [added] + old(items)[k..]
    {
      if pos == null || added == null {
        return;
      }
      RingFrom(k);
      ghost var b := From(k);
      EndsAt(k);
      assert pos.next == b[0];
      added.prev := pos;
      added.next := pos.next;
      pos.next.prev := added;
      pos.next := added;
      // Nor does the one for `back`.
      assert pos != sentinel.prev;
      assert Ring(b + [added]);
      RestoreSentinel(b + [added], sentinel, items[k..], items[..k] + [added]);
      items := items[..k] + [added] + items[k..];
    }

    lemma EndsAt(k: nat)
      requires Valid() && k <= |items|
      ensures From(k)[|items|] == ([sentinel] + items)[k]
    {
    }

    /** The pointer writes of `popFront`, on the ring of the first module and the rest. */
    static method DropFront(sentinel: Node<Module>, ghost first: Node<Module>, ghost rest: seq<Node<Module>>)
      requires rest != [] && rest[|rest| - 1] == sentinel && sentinel.next == first && Ring([first] + rest)
      modifies sentinel, first, first.next
      ensures Ring(rest) && Ring([first])
    {
      RingParts([first], rest);
      assert [first][0] == first && first !in rest;
      assert first.next == rest[0];
      var oldFront := sentinel.next;
      sentinel.next := sentinel.next.next;
      sentinel.next.prev := sentinel;
      oldFront.prev := oldFront;
      oldFront.next := oldFront;
    }

    lemma FrontSplit()
      requires Valid() && items != []
      ensures Ring([items[0]] + (items[1..] + [sentinel])) && sentinel.next == items[0]
      ensures items[0].next == sentinel || items[0].next in items
    {
      SplitAt(0);
      assert items[1..] + [sentinel] == items[0 + 1..] + [sentinel] + items[..0];
    }

    static lemma SentinelFirst(s: seq<Node<Module>>, sentinel: Node<Module>)
      requires Ring(s + [sentinel])
      ensures Ring([sentinel] + s)
    {
      assert s + [sentinel] == s + [sentinel] + [];
      RestoreSentinel(s + [sentinel], sentinel, s, []);
      assert [] + s == s;
    }

    method PopFront()
      requires Valid()
      modifies this, sentinel, items
      ensures Valid() && items == if old(items) == [] then [] else old(items)[1..]
      ensures old(items) != [] ==> Ring([old(items)[0]])
    {
      EmptyMeans();
      if Empty() {
        return;
      }
      FrontSplit();
      ghost var rest := items[1..] + [sentinel];
      DropFront(sentinel, items[0], rest);
      SentinelFirst(items[1..], sentinel);
      items := items[1..];
    }

    method PopBack()
      requires Valid()
      modifies this, sentinel, items
      ensures Valid() && items == if old(items) == [] then [] else old(items)[..|old(items)| - 1]
      ensures old(items) != [] ==> Ring([old(items)[|old(items)| - 1]])
    {
      EmptyMeans();
      if Empty() {
        return;
      }
      ghost var k: nat := |items| - 1;
      SplitAt(k);
      ghost var rest := items[k + 1..] + [sentinel] + items[..k];
      var oldBack := sentinel.prev;
      sentinel.prev := sentinel.prev.prev;
      sentinel.prev.next := sentinel;
      oldBack.prev := oldBack;
      oldBack.next := oldBack;
      assert Ring(rest);
      RestoreSentinel(rest, sentinel, items[k + 1..], items[..k]);
      assert items[..k] + items[k + 1..] == items[..k];
      items := items[..k];
    }

    /** Removing the list itself or nothing does nothing; a removed module is left linked to itself. */
    method Remove(gone: Node?<Module>, ghost k: nat)
      requires Valid() && (gone != null && gone != sentinel ==> k < |items| && items[k] == gone)
      modifies this, sentinel, items
      ensures Valid()
      ensures gone == null || gone == sentinel ==> items == old(items)
      ensures gone != null && gone != sentinel ==> items == old(items)[..k] + old(items)[k + 1..] && Ring([gone])
    {
      if gone == null || gone == sentinel {
        return;
      }
      SplitAt(k);
      ghost var rest := items[k + 1..] + [sentinel] + items[..k];
      if gone == sentinel.next {
        sentinel.next := if gone.next == sentinel then sentinel else gone.next;
      }
      if gone == sentinel.prev {
        sentinel.prev := if gone.prev == sentinel then sentinel else gone.prev;
      }
      gone.prev.next := gone.next;
      gone.next.prev := gone.prev;
      gone.prev := gone;
      gone.next := gone;
      assert Ring(rest);
      RestoreSentinel(rest, sentinel, items[k + 1..], items[..k]);
      items := items[..k] + items[k + 1..];
    }

    lemma SplitAt(k: nat)
      requires Valid() && k < |items|
      ensures var rest := items[k + 1..] + [sentinel] + items[..k];
              && Ring([items[k]] + rest)
              && items[k].next == rest[0] && items[k].prev == rest[|rest| - 1]
              && items[k].next in [sentinel] + items && items[k].prev in [sentinel] + items
      ensures var rest := items[k + 1..] + [sentinel] + items[..k];
              && Distinct(rest) && items[k] !in rest
              && (forall i, j :: 0 <= i < j < |rest| && j == i + 1 ==>
                    rest[i].next == rest[j] && rest[j].prev == rest[i])
      ensures items[k] != sentinel && sentinel.next == items[0] && sentinel.prev == items[|items| - 1]
    {
      RingFrom(k);
      EmptyMeans();
      var r := From(k);
      var rest := items[k + 1..] + [sentinel] + items[..k];
      assert r == [items[k]] + rest;
      RingParts([items[k]], rest);
      assert Unshared([items[k]], rest) && [items[k]][0] == items[k];
      assert r[0].next == r[1] && r[0].prev == r[|r| - 1];
    }

    method Clear()
      requires Valid()
      modifies this, sentinel, items
      ensures Valid() && items == []
      ensures forall k :: 0 <= k < |old(items)| ==> Ring([old(items)[k]])
    {
      ghost var all := items;
      ghost var i := 0;
      EmptyMeans();
      while !Empty()
        invariant Valid() && i <= |all| && items == all[i..]
        invariant Empty() <==> items == []
        invariant forall k :: 0 <= k < i ==> Ring([all[k]])
        decreases |items|
      {
        PopFront();
        EmptyMeans();
        i := i + 1;
      }
    }

    /** Where an iteration that has visited `n` nodes stands. */
    ghost function Position(reverted: bool, n: nat): Node<Module>
      reads this
      requires n <= |items|
    {
      if reverted then (items + [sentinel])[n] else ([sentinel] + items)[|items| - n]
    }

    lemma Advance(reverted: bool, n: nat)
      requires Valid() && n < |items|
      ensures var cur := Position(reverted, n); (if reverted then cur.next else cur.prev) == Position(reverted, n + 1)
      ensures Position(reverted, n) == Visited(reverted)[n] && Position(reverted, n) != sentinel
      ensures Position(reverted, |items|) == sentinel
    {
      var r := [sentinel] + items;
      EmptyMeans();
      ReversedAt(items, n);
      assert r[n + 1] == items[n] && (n + 1 < |items| ==> r[n + 2] == items[n + 1]);
      assert r[|items| - n].prev == r[|items| - n - 1];
    }

    lemma OnlyAtEnd(reverted: bool, n: nat)
      requires Valid() && n <= |items|
      ensures Position(reverted, n) == sentinel <==> n == |items|
    {
      if n < |items| {
        Advance(reverted, n);
      }
    }

    /** Forward iteration starts at the back and follows `prev`; reverse iteration starts at the
        front and follows `next`. */
    ghost function Visited(reverted: bool): (v: seq<Node<Module>>)
      reads this
      ensures |v| == |items|
    {
      if reverted then items else Reversed(items)
    }

    /** A whole loop from `begin` to `end`, or from `rbegin` to `rend`. */
    method Iterate(reverted: bool) returns (visited: seq<Node<Module>>)
      requires Valid()
      ensures visited == Visited(reverted) == if reverted then items else Reversed(items)
    {
      visited := [];
      EmptyMeans();
      var cur := if reverted then sentinel.next else sentinel.prev;
      while cur != sentinel
        invariant |visited| <= |items| && cur == Position(reverted, |visited|)
        invariant visited == Visited(reverted)[..|visited|]
        decreases |items| - |visited|
      {
        Advance(reverted, |visited|);
        visited := visited + [cur];
        cur := if reverted then cur.next else cur.prev;
      }
      OnlyAtEnd(reverted, |visited|);
    }

    /** `LookupGlobalAuto`: asks the modules in forward order. */
    method LookupGlobalAuto(h: Hashes, name: string) returns (address: U64)
      requires Valid() && forall n :: n in items ==> WellFormedModule(h, n.item.value)
      ensures address == ResolveNodes(h, Reversed(items), name)
      ensures IsGlobalAddress(ModulesOf(Reversed(items)), name, address)
    {
      ResolvesGlobally(h, ModulesOf(Reversed(items)), name);
      EmptyMeans();
      ghost var order := Reversed(items);
      var cur := sentinel.prev;
      ghost var n := 0;
      assert order[0..] == order;
      while cur != sentinel
        invariant n <= |items| && cur == Position(false, n)
        invariant ResolveNodes(h, order[n..], name) == ResolveNodes(h, order, name)
        decreases |items| - n
      {
        Advance(false, n);
        assert cur in order && cur in items;
        assert order[n..][0] == cur && order[n..][1..] == order[n + 1..];
        var sym := GetSymbolByName(h, cur.item.value, name);
        if sym.Some? {
          return Address(cur.item.value, sym.value);
        }
        cur := cur.prev;
        n := n + 1;
      }
      OnlyAtEnd(false, n);
      address := 0;
    }

    /** Pushes modules to the front one after the other, as the loader does with those it finds. */
    method PushAll(modules: seq<Node<Module>>)
      requires Valid() && Distinct(modules)
      requires forall n :: n in modules ==> n != sentinel && n !in items && n.item.Some?
      modifies this, sentinel, items, modules
      ensures Valid() && items == Reversed(modules) + old(items)
    {
      var i := 0;
      while i < |modules|
        invariant i <= |modules| && Valid()
        invariant items == Reversed(modules[..i]) + old(items)
        invariant forall n :: n in items ==> n in modules || n in old(items)
        invariant forall j :: i <= j < |modules| ==> modules[j] !in items
      {
        PushedOne(modules, i, old(items));
        EmptyMeans();
        assert sentinel.next in items || sentinel.next == sentinel;
        PushFront(modules[i]);
        i := i + 1;
      }
      assert modules[..i] == modules;
    }
  }

  ghost function ResolveNodes(h: Hashes, nodes: seq<Node<Module>>, name: string): U64
  {
    Resolve(h, ModulesOf(nodes), name)
  }

  /** Iterating a list that was filled by pushing to the front visits the modules in push order. */
  lemma PushOrder(pushed: seq<Node<Module>>)
    ensures Reversed(Reversed(pushed) + []) == pushed
  {
    assert Reversed(pushed) + [] == Reversed(pushed);
    ReversedTwice(pushed);
  }

  /** After any run of pushes to an empty list, a global lookup gives the definition of the earliest
      pushed module that has one, 0 when none has. */
  method PushThenLookup(h: Hashes, modules: seq<Node<Module>>, name: string) returns (address: U64)
    requires Distinct(modules) && forall n :: n in modules ==> n.item.Some? && WellFormedModule(h, n.item.value)
    modifies modules
    ensures address == Resolve(h, ModulesOf(modules), name)
    ensures IsGlobalAddress(ModulesOf(modules), name, address)
  {
    var list := new List();
    list.PushAll(modules);
    PushOrder(modules);
    address := list.LookupGlobalAuto(h, name);
  }
}
