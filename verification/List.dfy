/** Singly linked lists of distinct items, plain and sorted (lib/list.cc). */
module Lists {
  // ---- sorted insertion as a function ----

  /** Where an item goes: before the first element it compares smaller than. */
  function Position<T>(s: seq<T>, x: T, compare: (T, T) -> int): (k: nat)
    ensures k <= |s| && (k < |s| ==> compare(x, s[k]) < 0)
    ensures forall i :: 0 <= i < k ==> compare(x, s[i]) >= 0
  {
    if s == [] || compare(x, s[0]) < 0 then 0 else 1 + Position(s[1..], x, compare)
  }

  function Inserted<T>(s: seq<T>, x: T, compare: (T, T) -> int): seq<T> { Added(s, Position(s, x, compare), x) }

  /** There is only one such place. */
  lemma PositionIs<T>(s: seq<T>, x: T, compare: (T, T) -> int, k: nat)
    requires k <= |s| && (k < |s| ==> compare(x, s[k]) < 0) && forall i :: 0 <= i < k ==> compare(x, s[i]) >= 0
    ensures Position(s, x, compare) == k
  {
    hide Position;
    var p := Position(s, x, compare);
    assert !(p < k) && !(k < p);
  }

  /** An order as a comparison function should give it. */
  ghost predicate IsOrder<T(!new)>(compare: (T, T) -> int) {
    && (forall x, y :: compare(x, y) < 0 <==> compare(y, x) > 0)
    && (forall x, y, z :: compare(x, y) <= 0 && compare(y, z) <= 0 ==> compare(x, z) <= 0)
  }

  ghost predicate IsSorted<T>(s: seq<T>, compare: (T, T) -> int) {
    forall i, j :: 0 <= i < j < |s| ==> compare(s[i], s[j]) <= 0
  }

  lemma InsertedMembers<T>(s: seq<T>, x: T, compare: (T, T) -> int)
    ensures multiset(Inserted(s, x, compare)) == multiset(s) + multiset{x}
    ensures forall y :: y in Inserted(s, x, compare) <==> y in s || y == x
  {
    hide Position;
    var k := Position(s, x, compare);
    assert s == s[..k] + s[k..];
    var r := Inserted(s, x, compare);
    assert multiset(r) == multiset(s) + multiset{x};
    forall y
      ensures y in r <==> y in s || y == x
    {
      assert y in r <==> y in multiset(r);
      assert y in s <==> y in multiset(s);
    }
  }

  /** Insertion keeps a list sorted and puts the new item after everything it ties with. */
  lemma InsertedSorted<T(!new)>(s: seq<T>, x: T, compare: (T, T) -> int)
    requires IsOrder(compare) && IsSorted(s, compare)
    ensures IsSorted(Inserted(s, x, compare), compare)
    ensures forall i :: 0 <= i < |s| && compare(s[i], x) == 0 ==> i < Position(s, x, compare)
  {
    hide Position, IsOrder, Added;
    var k, r := Position(s, x, compare), Inserted(s, x, compare);
    forall i | 0 <= i < |s|
      ensures compare(s[i], x) <= 0 <==> i < k
      ensures i >= k ==> compare(x, s[i]) <= 0
    {
      if i < k { Swap(compare, x, s[i]); } else { BelowAll(s, x, compare, k, i); }
    }
    forall i, j | 0 <= i < j < |r|
      ensures compare(r[i], r[j]) <= 0
    {
      AddedItem(s, k, x, i);
      AddedItem(s, k, x, j);
    }
  }

  lemma Swap<T(!new)>(compare: (T, T) -> int, x: T, y: T)
    requires IsOrder(compare)
    ensures compare(x, y) >= 0 <==> compare(y, x) <= 0
  {
  }

  lemma Chain<T(!new)>(compare: (T, T) -> int, x: T, y: T, z: T)
    requires IsOrder(compare)
    ensures compare(x, y) <= 0 && compare(y, z) <= 0 ==> compare(x, z) <= 0
  {
  }

  lemma BelowAll<T(!new)>(s: seq<T>, x: T, compare: (T, T) -> int, k: nat, i: nat)
    requires IsOrder(compare) && IsSorted(s, compare) && k <= i < |s| && compare(x, s[k]) < 0
    ensures compare(s[i], x) > 0 && compare(x, s[i]) <= 0
  {
    if i > k {
      Chain(compare, s[k], s[i], x);
    }
  }

  // ---- the linked structure ----

  class ListElement<T> {
    var next: ListElement?<T>
    var item: T

    constructor (itm: T)
      ensures item == itm && next == null
    {
      item, next := itm, null;
    }
  }

  /** The element after place `i` of a chain. */
  ghost function After<T>(nodes: seq<ListElement<T>>, i: nat): ListElement?<T> {
    if i + 1 < |nodes| then nodes[i + 1] else null
  }

  lemma AfterInside<T>(nodes: seq<ListElement<T>>, i: nat)
    requires i + 1 < |nodes|
    ensures After(nodes, i) == nodes[i + 1]
  {
  }

  lemma AfterLast<T>(nodes: seq<ListElement<T>>, i: nat)
    requires i < |nodes|
    ensures After(nodes, i) == null <==> i + 1 == |nodes|
  {
  }

  ghost predicate NoRepeats<X>(s: seq<X>) { forall i, j :: 0 <= i < j < |s| ==> s[i] != s[j] }

  lemma Apart<X>(s: seq<X>, i: nat)
    requires NoRepeats(s) && i < |s|
    ensures forall j :: 0 <= j < |s| && j != i ==> s[j] != s[i]
  {
  }

  function Removed<X>(s: seq<X>, i: nat): (r: seq<X>)
    requires i < |s|
    ensures |r| == |s| - 1
  { s[..i] + s[i + 1..] }

  function Added<X>(s: seq<X>, k: nat, x: X): (r: seq<X>)
    requires k <= |s|
    ensures |r| == |s| + 1
  { s[..k] + [x] + s[k..] }

  lemma RemovedFront<X>(s: seq<X>)
    requires s != []
    ensures Removed(s, 0) == s[1..] && [s[0]] + s[1..] == s
  {
  }

  lemma AddedFront<X>(s: seq<X>, x: X)
    ensures Added(s, 0, x) == [x] + s
  {
  }

  lemma AddedBack<X>(s: seq<X>, x: X)
    ensures Added(s, |s|, x) == s + [x]
  {
  }

  lemma RemovedNoRepeats<X>(s: seq<X>, i: nat)
    requires NoRepeats(s) && i < |s|
    ensures NoRepeats(Removed(s, i)) && s[i] !in Removed(s, i)
  {
    assert forall j :: 0 <= j < |s| - 1 ==> Removed(s, i)[j] == s[if j < i then j else j + 1];
  }

  lemma AddedNoRepeats<X>(s: seq<X>, k: nat, x: X)
    requires NoRepeats(s) && k <= |s| && x !in s
    ensures NoRepeats(Added(s, k, x))
  {
    assert forall j :: 0 <= j <= |s| && j != k ==> Added(s, k, x)[j] == s[if j < k then j else j - 1];
  }

  /** Place `j` of a chain after an element was unlinked: what it holds and what follows it. */
  lemma RemovedAt<T>(s: seq<ListElement<T>>, i: nat, j: nat)
    requires i < |s| && j < |s| - 1
    ensures var k := if j < i then j else j + 1;
            Removed(s, i)[j] == s[k] && After(Removed(s, i), j) == if k + 1 == i then After(s, i) else After(s, k)
  {
  }

  lemma AddedAt<T>(s: seq<ListElement<T>>, i: nat, x: ListElement<T>, j: nat)
    requires i <= |s| && j <= |s|
    ensures var k := if j < i then j else j - 1;
            && Added(s, i, x)[j] == (if j == i then x else s[k])
            && After(Added(s, i, x), j)
               == if j + 1 == i then x else if j == i then (if i < |s| then s[i] else null) else After(s, k)
  {
  }

  class List<T(==)> {
    var first: ListElement?<T>
    var last: ListElement?<T>
    var numInList: int
    ghost var nodes: seq<ListElement<T>>

    /** What the elements hold, in order, and the objects of the list. */
    ghost var items: seq<T>
    ghost var Repr: set<object>

    /** The elements are different objects of the list, and hold different items. */
    ghost predicate Holding()
      reads this, Repr
    {
      && this in Repr && |items| == |nodes| && NoRepeats(nodes) && NoRepeats(items)
      && forall i :: 0 <= i < |nodes| ==> nodes[i] in Repr && nodes[i].item == items[i]
    }

    /** The elements form one chain from first to last. */
    ghost predicate Valid()
      reads this, Repr
      ensures Valid() ==> this in Repr
    {
      && Holding() && numInList == |nodes|
      && first == (if nodes == [] then null else nodes[0]) && last == (if nodes == [] then null else nodes[|nodes| - 1])
      && forall i :: 0 <= i < |nodes| ==> nodes[i].next == After(nodes, i)
    }

    ghost function Contents(): seq<T>
      reads this
    { items }

    constructor ()
      ensures Valid() && fresh(Repr) && Contents() == []
    {
      first, last, numInList := null, null, 0;
      nodes, items, Repr := [], [], {this};
    }

    method IsEmpty() returns (empty: bool)
      requires Valid()
      ensures empty <==> Contents() == []
    {
      empty := numInList == 0;
    }

    method IsInList(item: T) returns (found: bool)
      requires Valid()
      ensures found <==> item in Contents()
    {
      var ptr := first;
      ghost var i := 0;
      while ptr != null
        invariant 0 <= i <= |nodes| && ptr == if i < |nodes| then nodes[i] else null
        invariant forall j :: 0 <= j < i ==> items[j] != item
        decreases |nodes| - i
      {
        if item == ptr.item {
          return true;
        }
        ptr, i := ptr.next, i + 1;
      }
      found := false;
    }

    /** Link a new element in as place `k`. */
    ghost method NoteAdded(element: ListElement<T>, k: nat)
      requires Holding() && k <= |nodes| && element !in nodes && element.item !in items
      requires forall j :: 0 <= j < |nodes| ==> nodes[j].next == if j + 1 == k then element else After(nodes, j)
      requires element.next == if k < |nodes| then nodes[k] else null
      requires first == (if k == 0 then element else nodes[0])
      requires last == (if k == |nodes| then element else nodes[|nodes| - 1])
      requires numInList == |nodes| + 1
      modifies this`nodes, this`items, this`Repr
      ensures Valid() && items == Added(old(items), k, element.item) && Repr == old(Repr) + {element}
    {
      hide NoRepeats, After, Added;
      ghost var was, had := nodes, items;
      nodes, items, Repr := Added(was, k, element), Added(had, k, element.item), Repr + {element};
      AddedNoRepeats(was, k, element);
      AddedNoRepeats(had, k, element.item);
      forall j | 0 <= j < |nodes|
        ensures nodes[j] in Repr && nodes[j].next == After(nodes, j) && nodes[j].item == items[j]
      {
        AddedAt(was, k, element, j);
        AddedItem(had, k, element.item, j);
      }
      AddedAt(was, k, element, 0);
      AddedAt(was, k, element, |was|);
    }

    method Append(item: T)
      requires Valid() && item !in Contents()
      modifies Repr
      ensures Valid() && fresh(Repr - old(Repr)) && Contents() == old(Contents()) + [item]
    {
      ghost var n := |nodes|;
      var element := new ListElement<T>(item);
      if n > 0 { Apart(nodes, n - 1); }
      hide NoRepeats, Added;
      if numInList == 0 {
        first := element;
      } else {
        last.next := element;
      }
      last := element;
      numInList := numInList + 1;
      NoteAdded(element, n);
      AddedBack(old(items), item);
    }

    method Prepend(item: T)
      requires Valid() && item !in Contents()
      modifies Repr
      ensures Valid() && fresh(Repr - old(Repr)) && Contents() == [item] + old(Contents())
    {
      hide NoRepeats, Added;
      var element := new ListElement<T>(item);
      if numInList == 0 {
        last := element;
      } else {
        element.next := first;
      }
      first := element;
      numInList := numInList + 1;
      NoteAdded(element, 0);
      AddedFront(old(items), item);
    }

    /** Forget place `k` of the chain, already bypassed. */
    ghost method NoteRemoved(k: nat)
      requires Holding() && k < |nodes|
      requires forall j :: 0 <= j < |nodes| && j != k ==> nodes[j].next == After(nodes, if j + 1 == k then k else j)
      requires first == (if k > 0 then nodes[0] else After(nodes, 0))
      requires last == (if |nodes| == 1 then null else if k == |nodes| - 1 then nodes[k - 1] else nodes[|nodes| - 1])
      requires numInList == |nodes| - 1
      modifies this`nodes, this`items
      ensures Valid() && items == Removed(old(items), k) && old(items)[k] !in items
    {
      hide NoRepeats, Removed, After;
      ghost var was, had := nodes, items;
      nodes, items := Removed(was, k), Removed(had, k);
      RemovedNoRepeats(was, k);
      RemovedNoRepeats(had, k);
      forall j | 0 <= j < |nodes|
        ensures nodes[j] in Repr && nodes[j].next == After(nodes, j) && nodes[j].item == items[j]
      {
        RemovedAt(was, k, j);
        RemovedItem(had, k, j);
      }
      if |was| > 1 {
        RemovedAt(was, k, 0);
        RemovedAt(was, k, |was| - 2);
        if k == 0 { AfterInside(was, 0); }
      } else {
        AfterLast(was, 0);
      }
    }

    method RemoveFront() returns (thing: T)
      requires Valid() && Contents() != []
      modifies this
      ensures Valid() && Repr == old(Repr) && [thing] + Contents() == old(Contents()) && thing !in Contents()
    {
      hide NoRepeats, After, Removed;
      Apart(nodes, 0);
      AfterLast(nodes, 0);
      var element := first;
      thing := first.item;
      if first == last {
        first, last := null, null;
      } else {
        first := element.next;
      }
      numInList := numInList - 1;
      NoteRemoved(0);
      RemovedFront(old(items));
    }

    /** Remove an item that is in the list; the others keep their order. */
    method Remove(item: T)
      requires Valid() && item in Contents()
      modifies Repr
      ensures Valid() && Repr == old(Repr) && item !in Contents()
      ensures exists k: nat ::
                k < |old(Contents())| && old(Contents())[k] == item && Contents() == Removed(old(Contents()), k)
    {
      if item == first.item {
        var removed := RemoveFront();
        assert old(Contents())[0] == item && Contents() == Removed(old(Contents()), 0);
      } else {
        var prev, ptr := first, first.next;
        ghost var i := 1;
        while ptr != null
          invariant 1 <= i <= |nodes| && prev == nodes[i - 1] && ptr == if i < |nodes| then nodes[i] else null
          invariant forall j :: 0 <= j < i ==> items[j] != item
          decreases |nodes| - i
        {
          if item == ptr.item {
            Unlink(prev, ptr, i);
            return;
          }
          prev, ptr, i := ptr, ptr.next, i + 1;
        }
        assert false;
      }
    }

    method Unlink(prev: ListElement<T>, ptr: ListElement<T>, ghost i: nat)
      requires Valid() && 1 <= i < |nodes| && prev == nodes[i - 1] && ptr == nodes[i]
      modifies this, prev
      ensures Valid() && Repr == old(Repr) && Contents() == Removed(old(Contents()), i)
      ensures old(Contents())[i] !in Contents()
    {
      hide NoRepeats, After;
      Apart(nodes, i - 1);
      AfterInside(nodes, i - 1);
      prev.next := ptr.next;
      if prev.next == null {
        last := prev;
      }
      numInList := numInList - 1;
      AfterLast(nodes, i);
      forall j | 0 <= j < |nodes| && j != i
        ensures nodes[j].next == After(nodes, if j + 1 == i then i else j)
      {
        if j != i - 1 { assert nodes[j] != prev; }
      }
      NoteRemoved(i);
    }

    /** `SortedList::Insert`. */
    method Insert(item: T, compare: (T, T) -> int)
      requires Valid() && item !in Contents()
      modifies Repr
      ensures Valid() && fresh(Repr - old(Repr)) && Contents() == Inserted(old(Contents()), item, compare)
    {
      ghost var s := items;
      if numInList == 0 {
        PositionIs(s, item, compare, 0);
        Append(item);
      } else if compare(item, first.item) < 0 {
        PositionIs(s, item, compare, 0);
        AddedFront(s, item);
        Prepend(item);
      } else {
        var ptr := first;
        ghost var i := 0;
        while ptr.next != null
          invariant 0 <= i < |nodes| && ptr == nodes[i] && forall j :: 0 <= j <= i ==> compare(item, s[j]) >= 0
          decreases |nodes| - i
        {
          if compare(item, ptr.next.item) < 0 {
            PositionIs(s, item, compare, i + 1);
            LinkAfter(ptr, item, i);
            return;
          }
          ptr, i := ptr.next, i + 1;
        }
        PositionIs(s, item, compare, |s|);
        AddedBack(s, item);
        Append(item);
      }
    }

    method LinkAfter(ptr: ListElement<T>, item: T, ghost i: nat)
      requires Valid() && i + 1 < |nodes| && ptr == nodes[i] && item !in Contents()
      modifies this, ptr
      ensures Valid() && fresh(Repr - old(Repr)) && Contents() == Added(old(Contents()), i + 1, item)
    {
      hide NoRepeats, After;
      Apart(nodes, i);
      AfterInside(nodes, i);
      var element := new ListElement<T>(item);
      element.next := ptr.next;
      ptr.next := element;
      numInList := numInList + 1;
      forall j | 0 <= j < |nodes|
        ensures nodes[j].next == if j == i then element else After(nodes, j)
      {
        if j != i { assert nodes[j] != ptr; }
      }
      NoteAdded(element, i + 1);
    }
  }

  lemma AddedItem<X>(s: seq<X>, k: nat, x: X, j: nat)
    requires k <= |s| && j <= |s|
    ensures Added(s, k, x)[j] == if j < k then s[j] else if j == k then x else s[j - 1]
  {
  }

  lemma RemovedItem<X>(s: seq<X>, k: nat, j: nat)
    requires k < |s| && j < |s| - 1
    ensures Removed(s, k)[j] == s[if j < k then j else j + 1]
  {
  }
}
