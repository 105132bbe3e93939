/** The singly linked list and the sorted list of the Nachos library (lib/list.cc), on heap nodes. */
module Lists {
  import opened Common

  class ListElement<T> {
    var item: T
    var next: ListElement?<T>

    constructor (itm: T)
      ensures item == itm && next == null
    {
      item, next := itm, null;
    }
  }

  function Items<T>(spine: seq<ListElement<T>>): (q: seq<T>)
    reads spine
    ensures |q| == |spine|
  {
    seq(|spine|, i requires 0 <= i < |spine| reads spine => spine[i].item)
  }

  lemma ItemsPut<T>(spine: seq<ListElement<T>>, k: nat, e: ListElement<T>)
    requires k <= |spine|
    ensures Items(spine[..k] + [e] + spine[k..]) == Items(spine)[..k] + [e.item] + Items(spine)[k..]
    ensures forall n :: n in spine[..k] + [e] + spine[k..] ==> n in spine || n == e
  {
  }

  /** Where a sorted insertion puts `x`: before the first item that compares greater. */
  function Slot<T>(q: seq<T>, x: T, compare: (T, T) -> int): (k: nat)
    ensures k <= |q|
    ensures forall i :: 0 <= i < k ==> compare(x, q[i]) >= 0
    ensures k < |q| ==> compare(x, q[k]) < 0
  {
    if q == [] || compare(x, q[0]) < 0 then 0 else 1 + Slot(q[1..], x, compare)
  }

  function Inserted<T>(q: seq<T>, x: T, compare: (T, T) -> int): (r: seq<T>)
    ensures |r| == |q| + 1
  {
    var k := Slot(q, x, compare);
    q[..k] + [x] + q[k..]
  }

  class List<T(==)> {
    var first: ListElement?<T>
    var last: ListElement?<T>
    var numInList: int
    ghost var spine: seq<ListElement<T>>   // the elements, in order

    /** An acyclic chain from `first` to `last` of exactly `numInList` elements. */
    ghost predicate Chained()
      reads this, spine
    {
      && numInList == |spine| && Distinct(spine)
      && (spine == [] ==> first == null && last == null)
      && (spine != [] ==> first == spine[0] && last == spine[|spine| - 1] && spine[|spine| - 1].next == null)
      && (forall i :: 0 <= i < |spine| - 1 ==> spine[i].next == spine[i + 1])
    }

    ghost predicate Valid()
      reads this, spine
    {
      Chained() && Distinct(Items(spine))
    }

    ghost function Contents(): (q: seq<T>)
      reads this, spine
    {
      Items(spine)
    }

    constructor ()
      ensures Valid() && Contents() == [] && spine == []
    {
      first, last, numInList := null, null, 0;
      spine := [];
    }

    method IsInList(item: T) returns (found: bool)
      requires Valid()
      ensures found == (item in Contents())
    {
      var ptr := first;
      ghost var i := 0;
      while ptr != null
        invariant 0 <= i <= |spine| && ptr == if i < |spine| then spine[i] else null
        invariant forall j :: 0 <= j < i ==> spine[j].item != item
        decreases |spine| - i
      {
        if item == ptr.item {
          assert Contents()[i] == item;
          return true;
        }
        ptr := ptr.next;
        i := i + 1;
      }
      return false;
    }

    method Append(item: T)
      requires Valid() && item !in Contents()
      modifies this, spine
      ensures Valid() && Contents() == old(Contents()) + [item]
      ensures |spine| == |old(spine)| + 1 && spine[..|old(spine)|] == old(spine) && fresh(spine[|old(spine)|])
    {
      var element := new ListElement<T>(item);
      if numInList == 0 {
        first := element;
        last := element;
      } else {
        last.next := element;
        last := element;
      }
      numInList := numInList + 1;
      spine := spine + [element];
      assert Contents() == old(Contents()) + [item];
    }

    method Prepend(item: T)
      requires Valid() && item !in Contents()
      modifies this
      ensures Valid() && Contents() == [item] + old(Contents())
      ensures |spine| == |old(spine)| + 1 && spine[1..] == old(spine) && fresh(spine[0])
    {
      var element := new ListElement<T>(item);
      if numInList == 0 {
        first := element;
        last := element;
      } else {
        element.next := first;
        first := element;
      }
      numInList := numInList + 1;
      spine := [element] + spine;
      assert Contents() == [item] + old(Contents());
    }

    method RemoveFront() returns (thing: T)
      requires Valid() && Contents() != []
      modifies this
      ensures Valid() && thing == old(Contents())[0] && Contents() == old(Contents())[1..]
      ensures spine == old(spine)[1..]
    {
      var element := first;
      thing := first.item;
      if first == last {
        first := null;
        last := null;
      } else {
        first := element.next;
      }
      numInList := numInList - 1;
      spine := spine[1..];
      assert Contents() == old(Contents())[1..];
    }

    /** Takes `ptr` out of the chain, where `prev` is the element before it. */
    method Unlink(prev: ListElement<T>, ptr: ListElement<T>, ghost i: nat)
      requires Chained() && 0 < i < |spine| && prev == spine[i - 1] && ptr == spine[i]
      modifies `last, `numInList, `spine, prev`next
      ensures Chained() && spine == old(spine[..i] + spine[i + 1..])
    {
      hide Distinct;
      ghost var s := spine;
      DistinctCut(s, i);
      OthersDiffer(s, i - 1);
      assert ptr.next == if i + 1 < |s| then s[i + 1] else null;
      prev.next := ptr.next;
      if prev.next == null {
        last := prev;
      }
      numInList := numInList - 1;
      spine := s[..i] + s[i + 1..];
    }

    method Remove(item: T)
      requires Valid() && item in Contents()
      modifies this, spine
      ensures Valid() && Contents() == old(Without(Contents(), item)) && item !in Contents()
      ensures forall n :: n in spine ==> n in old(spine)
    {
      if item == first.item {
        var removed := RemoveFront();
        assert item == removed;
      } else {
        var prev, ptr, i := Predecessor(item);
        RemoveBehind(prev, ptr, i, item);
      }
    }

    /** The walk of `Remove` to the element of an item that is not the first one. */
    method Predecessor(item: T) returns (prev: ListElement<T>, ptr: ListElement<T>, ghost i: nat)
      requires Valid() && item in Contents() && Contents()[0] != item
      ensures 0 < i < |spine| && prev == spine[i - 1] && ptr == spine[i] && ptr.item == item
    {
      hide Distinct;
      prev := first;
      var next := first.next;
      i := 1;
      while next != null && item != next.item
        invariant 1 <= i <= |spine| && prev == spine[i - 1] && next == if i < |spine| then spine[i] else null
        invariant forall j :: 0 <= j < i ==> spine[j].item != item
        decreases |spine| - i
      {
        prev := next;
        next := next.next;
        i := i + 1;
      }
      ptr := next;
    }

    method RemoveBehind(prev: ListElement<T>, ptr: ListElement<T>, ghost i: nat, ghost item: T)
      requires Valid() && 0 < i < |spine| && prev == spine[i - 1] && ptr == spine[i]
      requires item in Contents() && item == Contents()[i]
      modifies this, spine
      ensures Valid() && Contents() == old(Without(Contents(), item)) && item !in Contents()
      ensures forall n :: n in spine ==> n in old(spine)
    {
      hide Distinct, Without;
      ghost var q := Contents();
      WithoutAt(q, i);
      DistinctCut(q, i);
      Unlink(prev, ptr, i);
      assert Contents() == q[..i] + q[i + 1..];
    }

    /** Puts `element` into the chain after its element number `i`, which is `ptr`. */
    method LinkAfter(ptr: ListElement<T>, element: ListElement<T>, ghost i: nat)
      requires Chained() && i < |spine| && ptr == spine[i] && element !in spine && element.next == null
      modifies `last, `numInList, `spine, ptr`next, element`next, last`next
      ensures Chained() && spine == old(spine[..i + 1] + [element] + spine[i + 1..])
    {
      hide Distinct;
      ghost var s := spine;
      DistinctPut(s, i + 1, element);
      OthersDiffer(s, i);
      assert ptr.next == if i + 1 < |s| then s[i + 1] else null;
      if ptr.next != null {
        element.next := ptr.next;
        ptr.next := element;
      } else {
        last.next := element;
        last := element;
      }
      numInList := numInList + 1;
      spine := s[..i + 1] + [element] + s[i + 1..];
      forall j | 0 <= j < |spine| - 1
        ensures spine[j].next == spine[j + 1]
      {
        assert spine[j] == if j <= i then s[j] else if j == i + 1 then element else s[j - 1];
        assert spine[j + 1] == if j < i then s[j + 1] else if j == i then element else s[j];
      }
      assert spine[|spine| - 1] == if i + 1 < |s| then s[|s| - 1] else element;
    }

    /** The walk of `SortedList::Insert` to the element that the new one goes after. */
    method LastNotGreater(item: T, compare: (T, T) -> int) returns (ptr: ListElement<T>, ghost i: nat)
      requires Valid() && Contents() != [] && compare(item, Contents()[0]) >= 0
      ensures i < |spine| && ptr == spine[i] && Slot(Contents(), item, compare) == i + 1
    {
      hide Distinct;
      ptr, i := first, 0;
      while ptr.next != null && compare(item, ptr.next.item) >= 0
        invariant 0 <= i < |spine| && ptr == spine[i]
        invariant forall j :: 0 <= j <= i ==> compare(item, Contents()[j]) >= 0
        decreases |spine| - i
      {
        ptr := ptr.next;
        i := i + 1;
      }
      assert ptr.next == if i + 1 < |spine| then spine[i + 1] else null;
      assert ptr.next != null ==> ptr.next.item == Contents()[i + 1];
    }

    /** `SortedList::Insert`, when the item does not go to the front. */
    method InsertBehind(item: T, compare: (T, T) -> int)
      requires Valid() && item !in Contents() && Contents() != [] && compare(item, Contents()[0]) >= 0
      modifies this, spine
      ensures Valid() && Contents() == Inserted(old(Contents()), item, compare)
      ensures forall n :: n in spine ==> n in old(spine) || fresh(n)
    {
      hide Distinct, Slot;
      var element := new ListElement<T>(item);
      var ptr, i := LastNotGreater(item, compare);
      ghost var elements, q := spine, Contents();
      DistinctPut(q, i + 1, item);
      LinkAfter(ptr, element, i);
      assert Items(elements) == q;
      ItemsPut(elements, i + 1, element);
    }

    /** `SortedList::Insert` */
    method Insert(item: T, compare: (T, T) -> int)
      requires Valid() && item !in Contents()
      modifies this, spine
      ensures Valid() && Contents() == Inserted(old(Contents()), item, compare)
      ensures forall n :: n in spine ==> n in old(spine) || fresh(n)
    {
      hide Distinct;
      if numInList == 0 {
        Prepend(item);
      } else if compare(item, first.item) < 0 {
        Prepend(item);
      } else {
        InsertBehind(item, compare);
      }
    }
  }

  // ---------- Insertion into a sorted list ----------

  /** What the list asks of its comparison function. */
  ghost predicate IsOrder<T(!new)>(compare: (T, T) -> int) {
    && (forall x, y :: compare(x, y) < 0 <==> compare(y, x) > 0)
    && (forall x, y, z :: compare(x, y) <= 0 && compare(y, z) <= 0 ==> compare(x, z) <= 0)
  }

  predicate Sorted<T>(q: seq<T>, compare: (T, T) -> int) {
    forall i, j :: 0 <= i < j < |q| ==> compare(q[i], q[j]) <= 0
  }

  /** The items that compare equal to `v`, in order. */
  function EqualTo<T>(q: seq<T>, v: T, compare: (T, T) -> int): seq<T> {
    if q == [] then []
    else EqualTo(q[..|q| - 1], v, compare) + (if compare(q[|q| - 1], v) == 0 then [q[|q| - 1]] else [])
  }

  lemma {:induction false} EqualToConcat<T>(a: seq<T>, b: seq<T>, v: T, compare: (T, T) -> int)
    ensures EqualTo(a + b, v, compare) == EqualTo(a, v, compare) + EqualTo(b, v, compare)
  {
    if b == [] {
      assert a + b == a;
    } else {
      assert (a + b)[..|a + b| - 1] == a + b[..|b| - 1];
      EqualToConcat(a, b[..|b| - 1], v, compare);
    }
  }

  lemma {:induction false} EqualToNone<T>(q: seq<T>, v: T, compare: (T, T) -> int)
    requires forall i :: 0 <= i < |q| ==> compare(q[i], v) != 0
    ensures EqualTo(q, v, compare) == []
  {
    if q != [] {
      EqualToNone(q[..|q| - 1], v, compare);
    }
  }

  /** Insertion keeps the list sorted, adds just the item, and puts it behind its equals. */
  lemma InsertedSorted<T(!new)>(q: seq<T>, x: T, compare: (T, T) -> int)
    requires IsOrder(compare) && Sorted(q, compare)
    ensures Sorted(Inserted(q, x, compare), compare)
  {
    hide IsOrder, Slot, Sorted, Inserted;
    var r := Inserted(q, x, compare);
    forall i, j | 0 <= i < j < |r|
      ensures compare(r[i], r[j]) <= 0
    {
      InsertedAt(q, x, compare, i);
      InsertedAt(q, x, compare, j);
      SlotMeans(q, x, compare, if i < Slot(q, x, compare) then i else j - 1);
      SortedAt(q, compare, if i <= Slot(q, x, compare) then i else i - 1, if j < Slot(q, x, compare) then j else j - 1);
    }
    AllSorted(r, compare);
  }

  lemma AllSorted<T(!new)>(r: seq<T>, compare: (T, T) -> int)
    requires forall i, j :: 0 <= i < j < |r| ==> compare(r[i], r[j]) <= 0
    ensures Sorted(r, compare)
  {
  }

  lemma SortedAt<T(!new)>(q: seq<T>, compare: (T, T) -> int, i: int, j: int)
    requires Sorted(q, compare)
    ensures 0 <= i < j < |q| ==> compare(q[i], q[j]) <= 0
  {
  }

  lemma InsertedAt<T(!new)>(q: seq<T>, x: T, compare: (T, T) -> int, i: nat)
    requires i <= |q|
    ensures var k := Slot(q, x, compare);
            Inserted(q, x, compare)[i] == if i < k then q[i] else if i == k then x else q[i - 1]
  {
    hide Slot;
  }

  /** In a sorted list nothing before the slot is greater than the item, and nothing behind it is less. */
  lemma SlotMeans<T(!new)>(q: seq<T>, x: T, compare: (T, T) -> int, i: int)
    requires IsOrder(compare) && Sorted(q, compare)
    ensures Slot(q, x, compare) <= |q|
    ensures 0 <= i < Slot(q, x, compare) ==> compare(q[i], x) <= 0
    ensures Slot(q, x, compare) <= i < |q| ==> compare(x, q[i]) <= 0
  {
    hide IsOrder, Slot, Sorted;
    var k := Slot(q, x, compare);
    if 0 <= i < k {
      NotGreater(compare, x, q[i]);
    } else if k < i < |q| {
      SortedAt(q, compare, k, i);
      Chain(compare, x, q[k], q[i]);
    }
  }

  lemma NotGreater<T(!new)>(compare: (T, T) -> int, x: T, y: T)
    requires IsOrder(compare) && compare(x, y) >= 0
    ensures compare(y, x) <= 0
  {
  }

  lemma Chain<T(!new)>(compare: (T, T) -> int, x: T, y: T, z: T)
    requires IsOrder(compare) && compare(x, y) <= 0 && compare(y, z) <= 0
    ensures compare(x, z) <= 0
  {
  }

  lemma InsertedItems<T>(q: seq<T>, x: T, compare: (T, T) -> int)
    ensures multiset(Inserted(q, x, compare)) == multiset(q) + multiset{x}
  {
    var k := Slot(q, x, compare);
    assert q == q[..k] + q[k..];
  }

  /** Everything behind the slot is greater than the item, hence equal to none of its equals. */
  lemma BehindIsGreater<T(!new)>(q: seq<T>, x: T, v: T, compare: (T, T) -> int)
    requires IsOrder(compare) && Sorted(q, compare) && compare(x, v) == 0
    ensures EqualTo(q[Slot(q, x, compare)..], v, compare) == []
  {
    var k := Slot(q, x, compare);
    forall i | 0 <= i < |q[k..]|
      ensures compare(q[k..][i], v) != 0
    {
      assert compare(x, q[k]) < 0 && (i > 0 ==> compare(q[k], q[k + i]) <= 0);
      assert compare(v, x) <= 0;
    }
    EqualToNone(q[k..], v, compare);
  }

  lemma InsertedBehindEquals<T(!new)>(q: seq<T>, x: T, v: T, compare: (T, T) -> int)
    requires IsOrder(compare) && Sorted(q, compare)
    ensures EqualTo(Inserted(q, x, compare), v, compare) == EqualTo(q + [x], v, compare)
  {
    hide IsOrder, Sorted, Slot, EqualTo;
    var k := Slot(q, x, compare);
    var a, b := q[..k], q[k..];
    assert q == a + b;
    EqualToConcat(a, b, v, compare);
    EqualToConcat(q, [x], v, compare);
    EqualToConcat(a + [x], b, v, compare);
    EqualToConcat(a, [x], v, compare);
    if compare(x, v) == 0 {
      BehindIsGreater(q, x, v, compare);
    } else {
      EqualToNone([x], v, compare);
    }
  }

  function InsertAll<T>(xs: seq<T>, compare: (T, T) -> int): seq<T> {
    if xs == [] then [] else Inserted(InsertAll(xs[..|xs| - 1], compare), xs[|xs| - 1], compare)
  }

  /** Draining a list after any sequence of insertions gives a sorted permutation in which
      equal items keep the order of their insertion. */
  lemma {:induction false} SortsStably<T(!new)>(xs: seq<T>, compare: (T, T) -> int)
    requires IsOrder(compare)
    ensures Sorted(InsertAll(xs, compare), compare)
    ensures multiset(InsertAll(xs, compare)) == multiset(xs)
    ensures forall v :: EqualTo(InsertAll(xs, compare), v, compare) == EqualTo(xs, v, compare)
  {
    hide IsOrder, Sorted;
    if xs == [] {
      assert Sorted(InsertAll(xs, compare), compare) by {
        EmptySorted(compare);
      }
    } else {
      var n := |xs| - 1;
      var q := InsertAll(xs[..n], compare);
      SortsStably(xs[..n], compare);
      InsertedSorted(q, xs[n], compare);
      InsertedItems(q, xs[n], compare);
      assert xs == xs[..n] + [xs[n]];
      forall v
        ensures EqualTo(InsertAll(xs, compare), v, compare) == EqualTo(xs, v, compare)
      {
        InsertedBehindEquals(q, xs[n], v, compare);
        EqualToConcat(q, [xs[n]], v, compare);
        EqualToConcat(xs[..n], [xs[n]], v, compare);
      }
    }
  }

  lemma EmptySorted<T>(compare: (T, T) -> int)
    ensures Sorted([], compare)
  {
  }

  lemma {:induction false} EqualToHas<T>(q: seq<T>, v: T, compare: (T, T) -> int, i: nat)
    requires i < |q| && compare(q[i], v) == 0
    ensures q[i] in EqualTo(q, v, compare)
  {
    if i < |q| - 1 {
      EqualToHas(q[..|q| - 1], v, compare, i);
    }
  }

  lemma {:induction false} EqualToFrom<T>(q: seq<T>, v: T, compare: (T, T) -> int, x: T)
    requires x in EqualTo(q, v, compare)
    ensures x in q && compare(x, v) == 0
  {
    if x in EqualTo(q[..|q| - 1], v, compare) {
      EqualToFrom(q[..|q| - 1], v, compare, x);
    }
  }

  lemma EqualToFront<T>(q: seq<T>, v: T, compare: (T, T) -> int)
    requires q != []
    ensures EqualTo(q, v, compare) == (if compare(q[0], v) == 0 then [q[0]] else []) + EqualTo(q[1..], v, compare)
  {
    assert q == [q[0]] + q[1..];
    EqualToConcat([q[0]], q[1..], v, compare);
  }

  /** The first of a sorted sequence is not greater than anything in a sequence with the same classes. */
  lemma FirstIsLeast<T(!new)>(a: seq<T>, b: seq<T>, compare: (T, T) -> int)
    requires IsOrder(compare) && Sorted(a, compare) && a != [] && b != []
    requires forall v :: EqualTo(a, v, compare) == EqualTo(b, v, compare)
    ensures compare(a[0], b[0]) <= 0
  {
    assert compare(b[0], b[0]) == 0;
    EqualToHas(b, b[0], compare, 0);
    assert b[0] in EqualTo(a, b[0], compare);
    EqualToFrom(a, b[0], compare, b[0]);
    var i :| 0 <= i < |a| && a[i] == b[0];
    assert compare(a[0], a[0]) == 0;
  }

  lemma SameFirst<T(!new)>(a: seq<T>, b: seq<T>, compare: (T, T) -> int)
    requires IsOrder(compare) && Sorted(a, compare) && Sorted(b, compare) && a != [] && b != []
    requires forall v :: EqualTo(a, v, compare) == EqualTo(b, v, compare)
    ensures a[0] == b[0]
  {
    hide EqualTo, Sorted;
    FirstIsLeast(a, b, compare);
    FirstIsLeast(b, a, compare);
    EqualToFront(a, a[0], compare);
    EqualToFront(b, a[0], compare);
    assert compare(a[0], a[0]) == 0 && compare(b[0], a[0]) == 0;
    assert EqualTo(a, a[0], compare)[0] == a[0] && EqualTo(b, a[0], compare)[0] == b[0];
  }

  /** There is only one such sequence: the stable sort. */
  lemma {:induction false} StableSortIsUnique<T(!new)>(a: seq<T>, b: seq<T>, compare: (T, T) -> int)
    requires IsOrder(compare) && Sorted(a, compare) && Sorted(b, compare)
    requires forall v :: EqualTo(a, v, compare) == EqualTo(b, v, compare)
    ensures a == b
  {
    hide EqualTo;
    if a == [] && b != [] {
      EqualToNone(a, b[0], compare);
      EqualToHas(b, b[0], compare, 0);
    } else if a != [] && b == [] {
      EqualToNone(b, a[0], compare);
      EqualToHas(a, a[0], compare, 0);
    } else if a != [] {
      SameFirst(a, b, compare);
      var v := a[0];
      forall w
        ensures EqualTo(a[1..], w, compare) == EqualTo(b[1..], w, compare)
      {
        EqualToFront(a, w, compare);
        EqualToFront(b, w, compare);
        assert EqualTo(a, w, compare) == EqualTo(b, w, compare);
        CancelPrefix(if compare(v, w) == 0 then [v] else [], EqualTo(a[1..], w, compare), EqualTo(b[1..], w, compare));
      }
      StableSortIsUnique(a[1..], b[1..], compare);
    }
  }

  lemma CancelPrefix<T>(s: seq<T>, p: seq<T>, q: seq<T>)
    requires s + p == s + q
    ensures p == q
  {
    assert p == (s + p)[|s|..] && q == (s + q)[|s|..];
  }
}
