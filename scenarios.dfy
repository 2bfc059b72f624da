/**
 * Client-side scenarios for the ring list: each method drives the list only
 * through its public operations and states what a caller observes.
 */
module ListScenarios {
  import opened Lists

  /** `of(a, b, c)` keeps insertion order and has size 3. */
  method OfThree<T(==)>(a: T, b: T, c: T) returns (g0: Outcome<T>, g1: Outcome<T>, g2: Outcome<T>, n: int)
    ensures g0 == Ok(a) && g1 == Ok(b) && g2 == Ok(c)
    ensures n == 3
  {
    var list := LinkedList.Of([a, b, c]);
    g0 := list.Get(0);
    g1 := list.Get(1);
    g2 := list.Get(2);
    n := list.Size();
  }

  /** `of(1, 2, 3)` then `remove(1)` leaves 1 and 3, size 2. */
  method RemoveMiddle() returns (n: int, g0: Outcome<int>, g1: Outcome<int>)
    ensures n == 2 && g0 == Ok(1) && g1 == Ok(3)
  {
    var list := LinkedList.Of([1, 2, 3]);
    var ok := list.Remove(1);
    n := list.Size();
    g0 := list.Get(0);
    g1 := list.Get(1);
  }

  /**
   * `add(0, x)` on a new list, then `get(0)`, gives `x` at size 1; yet
   * `contains(x)` answers false, because the walk stops before the node
   * whose successor is the head, and here that is the only node.
   */
  method SingletonContains<T(==)>(x: T) returns (g: Outcome<T>, n: int, found: bool)
    ensures g == Ok(x) && n == 1
    ensures !found
  {
    var list := new LinkedList();
    var ok := list.AddAt(0, x);
    g := list.Get(0);
    n := list.Size();
    found := list.Contains(x);
  }

  /** A new list contains nothing. */
  method EmptyContains<T(==)>(x: T) returns (empty: bool, found: bool)
    ensures empty && !found
  {
    var list := new LinkedList();
    empty := list.IsEmpty();
    found := list.Contains(x);
  }

  /**
   * Removing the only element of a one-element list moves the head to its
   * own successor, which is itself: the size is 0, but `isEmpty` is false.
   */
  method RemoveOnlyElement<T(==)>(x: T) returns (empty: bool, n: int, g: Outcome<T>)
    ensures !empty && n == 0
    ensures g == IndexOutOfBounds
  {
    var list := LinkedList.Of([x]);
    var ok := list.Remove(0);
    empty := list.IsEmpty();
    n := list.Size();
    g := list.Get(0);
  }

  /**
   * `remove(1)` on a one-element list drops the last logical element through
   * the head's own link and keeps the head: the size is 0, but `isEmpty` is false.
   */
  method RemoveAtSizeOfSingleton<T(==)>(x: T) returns (ok: bool, empty: bool, n: int)
    ensures ok && !empty && n == 0
  {
    var list := LinkedList.Of([x]);
    ok := list.Remove(1);
    empty := list.IsEmpty();
    n := list.Size();
  }

  /** After `clear()` the list is empty, has size 0 and `get(0)` fails. */
  method ClearThenGet<T(==)>(xs: seq<T>) returns (empty: bool, n: int, g: Outcome<T>)
    ensures empty && n == 0
    ensures g == IndexOutOfBounds
  {
    var list := LinkedList.Of(xs);
    list.Clear();
    empty := list.IsEmpty();
    n := list.Size();
    g := list.Get(0);
  }

  /** The bounds of each operation: `add` takes index == size, `get` and `set` do not, `remove` does. */
  method BoundsAtSize<T(==)>(xs: seq<T>, x: T) returns (added: bool, got: Outcome<T>, replaced: bool, removed: bool, tooFar: bool)
    ensures !tooFar && got == IndexOutOfBounds && !replaced
    ensures added && removed
  {
    var list := LinkedList.Of(xs);
    var n := list.Size();
    tooFar := list.AddAt(n + 1, x);
    got := list.Get(n);
    replaced := list.Set(n, x);
    added := list.AddAt(n, x);
    removed := list.Remove(n + 1);
  }

  /** `set(i, v)` followed by `get(i)` gives `v` for every i within [0, size). */
  method SetThenGet<T(==)>(list: LinkedList<T>, i: int, v: T) returns (g: Outcome<T>)
    requires list.Valid() && 0 <= i < list.listSize
    modifies list.Repr
    ensures list.Valid() && g == Ok(v)
  {
    var ok := list.Set(i, v);
    g := list.Get(i);
  }

  /** `remove(i)` right after a successful `add(i, x)` restores the elements. */
  method AddThenRemove<T(==)>(list: LinkedList<T>, i: int, x: T) returns (ok: bool)
    requires list.Valid()
    modifies list, list.Repr
    ensures list.Valid()
    ensures ok <==> 0 <= i <= old(list.listSize)
    ensures list.Elements() == old(list.Elements())
  {
    ok := list.AddAt(i, x);
    if ok {
      var removed := list.Remove(i);
      RemoveAtInsertAt(old(list.Elements()), i, x);
    }
  }
}
