/**
 * A generic singly linked list whose nodes form a ring: the last node's
 * successor is the head rather than null. The list keeps a reference to the
 * head node (`root`) and a size counter (`listSize`) and updates nodes in place.
 *
 * The ghost field `spine` lists the nodes at logical positions 0 .. listSize-1,
 * and `Repr` is every node the list may still reach (nodes detached by a
 * removal stay in it). `Valid()` is the invariant that every operation keeps;
 * `RingClosed()` is the ring property, which some operations keep and some
 * break, exactly as the source does.
 */
module Lists {

  /** The outcome of a read that can fail with an index out of bounds. */
  datatype Outcome<+T> = Ok(value: T) | IndexOutOfBounds

  /** `s` with `x` inserted so that it lands at position `i`. */
  function InsertAt<T>(s: seq<T>, i: nat, x: T): (r: seq<T>)
    requires i <= |s|
  {
    s[..i] + [x] + s[i..]
  }

  /** `s` without the element at position `i`. */
  function RemoveAt<T>(s: seq<T>, i: nat): (r: seq<T>)
    requires i < |s|
  {
    s[..i] + s[i + 1..]
  }

  /** Removing what was just inserted gives back the original sequence. */
  lemma RemoveAtInsertAt<T>(s: seq<T>, i: nat, x: T)
    requires i <= |s|
    ensures |InsertAt(s, i, x)| == |s| + 1
    ensures InsertAt(s, i, x)[i] == x
    ensures RemoveAt(InsertAt(s, i, x), i) == s
  {
  }

  /** Positions before `i` keep their element; later positions move up by one. */
  lemma InsertAtShifts<T>(s: seq<T>, i: nat, x: T, k: nat)
    requires i <= |s| && k < |s|
    ensures k < i ==> InsertAt(s, i, x)[k] == s[k]
    ensures i <= k ==> InsertAt(s, i, x)[k + 1] == s[k]
  {
  }

  /** Positions before `i` keep their element; later positions move down by one. */
  lemma RemoveAtShifts<T>(s: seq<T>, i: nat, k: nat)
    requires i < |s| && k + 1 < |s|
    ensures k < i ==> RemoveAt(s, i)[k] == s[k]
    ensures i <= k ==> RemoveAt(s, i)[k] == s[k + 1]
  {
  }

  /** No element occurs twice in `s`. */
  ghost predicate Distinct<T>(s: seq<T>)
  {
    forall i, j :: 0 <= i < j < |s| ==> s[i] != s[j]
  }

  /** Inserting an element that does not occur keeps the elements distinct. */
  lemma DistinctInsertAt<T>(s: seq<T>, i: nat, x: T)
    requires i <= |s| && Distinct(s) && x !in s
    ensures Distinct(InsertAt(s, i, x))
  {
  }

  /** Removing an element keeps the rest distinct, and the removed one is gone. */
  lemma DistinctRemoveAt<T>(s: seq<T>, i: nat)
    requires i < |s| && Distinct(s)
    ensures Distinct(RemoveAt(s, i))
    ensures s[i] !in RemoveAt(s, i)
  {
  }

  /** A link cell: one element and one successor reference. */
  class Node<T> {
    var data: T
    var next: Node?<T>

    /** A new node holds `data` and has no successor yet. */
    constructor (data: T)
      ensures this.data == data && next == null
    {
      this.data := data;
      this.next := null;
    }
  }

  /** Each node of `s` links to the node after it. */
  ghost predicate Chained<T>(s: seq<Node<T>>)
    reads s`next
  {
    forall k :: 0 <= k < |s| - 1 ==> s[k].next == s[k + 1]
  }

  /** Every node of `r` has a successor, and that successor is in `r`. */
  ghost predicate Closed<T>(r: set<Node<T>>)
    reads r`next
  {
    forall n {:trigger n.next} :: n in r ==> n.next != null && n.next in r
  }

  /** The node reached from `n` by following `steps` successor links inside `r`. */
  ghost function Walk<T>(r: set<Node<T>>, n: Node<T>, steps: nat): (m: Node<T>)
    reads r
    requires Closed(r) && n in r
    ensures m in r
    decreases steps
  {
    if steps == 0 then n else Walk(r, n, steps - 1).next
  }

  /** The elements held by the nodes of `s`, in order. */
  ghost function Values<T>(s: seq<Node<T>>): (r: seq<T>)
    reads s
  {
    seq(|s|, k requires 0 <= k < |s| reads s => s[k].data)
  }

  /**
   * Linking `x` between positions `i-1` and `i` of a chain, with every other
   * link left alone, gives a chain with `x` at position `i`.
   */
  lemma ChainedInsertAt<T>(s: seq<Node<T>>, i: nat, x: Node<T>)
    requires i <= |s|
    requires forall k :: 0 <= k < |s| - 1 && k != i - 1 ==> s[k].next == s[k + 1]
    requires 0 < i ==> s[i - 1].next == x
    requires i < |s| ==> x.next == s[i]
    ensures Chained(InsertAt(s, i, x))
  {
  }

  /**
   * Linking position `i-1` of a chain straight to position `i+1`, with every
   * other link left alone, gives a chain without position `i`.
   */
  lemma ChainedRemoveAt<T>(s: seq<Node<T>>, i: nat)
    requires 0 < i < |s|
    requires forall k :: 0 <= k < |s| - 1 && k != i - 1 ==> s[k].next == s[k + 1]
    requires i + 1 < |s| ==> s[i - 1].next == s[i + 1]
    ensures Chained(RemoveAt(s, i))
  {
  }

  /** The values of a chain after inserting `x` are the old values with `x`'s inserted. */
  lemma ValuesInsertAt<T>(s: seq<Node<T>>, i: nat, x: Node<T>, v: seq<T>)
    requires i <= |s| && |v| == |s|
    requires forall k :: 0 <= k < |s| ==> s[k].data == v[k]
    ensures Values(InsertAt(s, i, x)) == InsertAt(v, i, x.data)
  {
  }

  /** The values of a chain after removing position `i` are the old values without it. */
  lemma ValuesRemoveAt<T>(s: seq<Node<T>>, i: nat, v: seq<T>)
    requires i < |s| && |v| == |s|
    requires forall k :: 0 <= k < |s| ==> s[k].data == v[k]
    ensures Values(RemoveAt(s, i)) == RemoveAt(v, i)
  {
  }

  class LinkedList<T(==)> {
    var root: Node?<T>
    var listSize: int

    /** The nodes at logical positions 0 .. listSize-1, head first. */
    ghost var spine: seq<Node<T>>
    /** Every node the list owns, including nodes a removal detached. */
    ghost var Repr: set<Node<T>>

    ghost predicate Valid()
      reads this, Repr`next
    {
      listSize == |spine| &&
      (forall k :: 0 <= k < |spine| ==> spine[k] in Repr) &&
      Distinct(spine) &&
      (|spine| > 0 ==> root == spine[0]) &&
      Chained(spine) &&
      (root == null ==> listSize == 0) &&
      (root != null ==> root in Repr) &&
      Closed(Repr)
    }

    /**
     * The ring property: the last logical node points back at the head. An
     * empty list has no head, or a head left behind by removing the only
     * element of a one-node ring, which still points at itself.
     */
    ghost predicate RingClosed()
      reads this, Repr`next
      requires Valid()
    {
      if listSize > 0 then spine[listSize - 1].next == root
      else root == null || root.next == root
    }

    /** The elements at logical positions 0 .. listSize-1. */
    ghost function Elements(): (r: seq<T>)
      reads this, Repr
      requires Valid()
    {
      Values(spine)
    }

    /** Following k < listSize links from the head reaches the spine node at position k. */
    lemma {:induction false} WalkAlongSpine(k: nat)
      requires Valid() && k < listSize
      ensures Walk(Repr, root, k) == spine[k]
    {
      if k > 0 {
        WalkAlongSpine(k - 1);
      }
    }

    /**
     * On a non-empty list the ring is closed exactly when following listSize
     * links from the head returns to the head.
     */
    lemma {:induction false} RingClosedIsReturn()
      requires Valid() && listSize > 0
      ensures RingClosed() <==> Walk(Repr, root, listSize) == root
    {
      WalkAlongSpine(listSize - 1);
    }

    /** A new list is empty and has no head. */
    constructor ()
      ensures Valid() && fresh(Repr)
      ensures Elements() == [] && root == null && RingClosed()
    {
      root := null;
      listSize := 0;
      spine := [];
      Repr := {};
    }

    /** Builds a list holding `elements` in order by appending each one. */
    static method Of(elements: seq<T>) returns (list: LinkedList<T>)
      ensures fresh(list) && list.Valid() && fresh(list.Repr)
      ensures list.Elements() == elements
      ensures list.listSize == |elements|
      ensures list.RingClosed()
    {
      list := new LinkedList();
      var i := 0;
      while i < |elements|
        invariant 0 <= i <= |elements|
        invariant fresh(list) && list.Valid() && fresh(list.Repr)
        invariant list.Elements() == elements[..i]
        invariant list.listSize == i && (i == 0 ==> list.root == null)
        invariant list.RingClosed()
      {
        list.Add(elements[i]);
        i := i + 1;
      }
      assert elements[..i] == elements;
    }

    /** The node at logical position `index`, found by walking from the head. */
    method GetNodeAtIndex(index: int) returns (node: Node<T>)
      requires Valid()
      requires 0 <= index < listSize
      ensures node == spine[index]
      ensures node == Walk(Repr, root, index)
    {
      node := root;
      var j := 0;
      while j < index
        invariant 0 <= j <= index
        invariant node == spine[j]
      {
        node := node.next;
        j := j + 1;
      }
      WalkAlongSpine(index);
    }

    /** Appends `element` at the logical tail. */
    method Add(element: T)
      requires Valid()
      modifies this, Repr
      ensures Valid() && fresh(Repr - old(Repr))
      ensures Elements() == old(Elements()) + [element]
      ensures listSize == old(listSize) + 1
      ensures old(listSize) > 0 && old(RingClosed()) ==> RingClosed()
      ensures old(root) == null ==> RingClosed()
      ensures old(listSize) == 0 ==> (RingClosed() <==> old(root) == null)
    {
      ghost var before := Elements();
      var ok := AddAt(listSize, element);
      assert before[..|before|] == before;
    }

    /**
     * Inserts `element` so that it lands at position `index`. Fails, changing
     * nothing, unless 0 <= index <= listSize; `index == listSize` appends.
     */
    method AddAt(index: int, element: T) returns (ok: bool)
      requires Valid()
      modifies this, Repr
      ensures Valid() && fresh(Repr - old(Repr))
      ensures ok <==> 0 <= index <= old(listSize)
      ensures !ok ==> unchanged(this) && unchanged(Repr)
      ensures ok ==> listSize == old(listSize) + 1
      ensures ok ==> Elements() == InsertAt(old(Elements()), index, element)
      ensures ok ==> fresh(spine[index])
      ensures ok ==> spine[index].next ==
                     (if index > 0 then old(spine[index - 1].next)
                      else if old(root) == null then spine[index] else old(root))
      ensures ok && index == 0 ==> (RingClosed() <==> old(root) == null)
      ensures ok && index > 0 && old(RingClosed()) ==> RingClosed()
      ensures ok && index > 0 ==> root == old(root)
    {
      if index > listSize || index < 0 {
        return false;
      }
      var newNode := new Node(element);
      if index == 0 {
        LinkFirst(newNode);
      } else {
        LinkAfter(index, newNode);
      }
      ok := true;
    }

    /** The `index == 0` branch of AddAt: `newNode` becomes the head. */
    method LinkFirst(newNode: Node<T>)
      requires Valid() && newNode !in Repr
      modifies this, newNode
      ensures Valid() && Repr == old(Repr) + {newNode}
      ensures listSize == old(listSize) + 1
      ensures spine == [newNode] + old(spine)
      ensures newNode.data == old(newNode.data)
      ensures Elements() == [newNode.data] + old(Elements())
      ensures newNode.next == if old(root) == null then newNode else old(root)
      ensures RingClosed() <==> old(root) == null
    {
      ghost var s := spine;
      ghost var v := Elements();
      newNode.next := if root == null then newNode else root;
      root := newNode;
      listSize, spine, Repr := listSize + 1, [newNode] + s, Repr + {newNode};
      assert Chained(spine) by {
        assert forall k :: 0 <= k < |s| ==> s[k].next == old(s[k].next);
        ChainedInsertAt(s, 0, newNode);
        assert InsertAt(s, 0, newNode) == spine;
      }
      assert Distinct(spine) by {
        DistinctInsertAt(s, 0, newNode);
        assert InsertAt(s, 0, newNode) == spine;
      }
      assert Closed(Repr);
      assert Values(spine) == [newNode.data] + v by {
        ValuesInsertAt(s, 0, newNode, v);
        assert InsertAt(s, 0, newNode) == spine;
        assert InsertAt(v, 0, newNode.data) == [newNode.data] + v;
      }
      if |s| > 0 {
        assert old(s[|s| - 1].next) in old(Repr);
      }
    }

    /**
     * The `index > 0` branch of AddAt: `newNode` is linked in after the node at
     * position index-1, taking over that node's old successor.
     */
    method LinkAfter(index: int, newNode: Node<T>)
      requires Valid() && newNode !in Repr
      requires 0 < index <= listSize
      modifies this, newNode, spine[index - 1]
      ensures Valid() && Repr == old(Repr) + {newNode}
      ensures root == old(root) && listSize == old(listSize) + 1
      ensures spine == InsertAt(old(spine), index, newNode)
      ensures newNode.data == old(newNode.data)
      ensures Elements() == InsertAt(old(Elements()), index, newNode.data)
      ensures newNode.next == old(spine[index - 1].next)
      ensures old(RingClosed()) ==> RingClosed()
    {
      ghost var s := spine;
      ghost var v := Elements();
      var node := GetNodeAtIndex(index - 1);
      newNode.next := node.next;
      node.next := newNode;
      listSize, spine, Repr := listSize + 1, InsertAt(s, index, newNode), Repr + {newNode};
      assert Chained(spine) by {
        assert forall k :: 0 <= k < |s| && k != index - 1 ==> s[k].next == old(s[k].next);
        ChainedInsertAt(s, index, newNode);
      }
      assert Distinct(spine) && |spine| == |s| + 1 && spine[index] == newNode by {
        DistinctInsertAt(s, index, newNode);
        RemoveAtInsertAt(s, index, newNode);
      }
      assert Closed(Repr);
      assert forall k :: 0 <= k < |spine| ==> spine[k] in Repr;
      assert root == spine[0] by {
        InsertAtShifts(s, index, newNode, 0);
      }
      assert Values(spine) == InsertAt(v, index, newNode.data) by {
        ValuesInsertAt(s, index, newNode, v);
      }
      if old(RingClosed()) {
        assert old(s[|s| - 1].next) == root;
        assert spine[listSize - 1].next == root by {
          // the last logical node is the old last one, unless `newNode` was appended
          InsertAtShifts(s, index, newNode, |s| - 1);
          if index < |s| {
            assert spine[listSize - 1] == s[|s| - 1] != s[index - 1];
          } else {
            assert spine[listSize - 1] == newNode;
          }
        }
      }
    }

    /**
     * Overwrites the element at `index` in place. Fails, changing nothing,
     * unless 0 <= index < listSize. No link changes.
     */
    method Set(index: int, element: T) returns (ok: bool)
      requires Valid()
      modifies Repr
      ensures Valid()
      ensures ok <==> 0 <= index < listSize
      ensures !ok ==> unchanged(Repr)
      ensures ok ==> Elements() == old(Elements())[index := element]
      ensures forall n :: n in Repr ==> n.next == old(n.next)
      ensures old(RingClosed()) ==> RingClosed()
    {
      if index >= listSize || index < 0 {
        return false;
      }
      var node := GetNodeAtIndex(index);
      node.data := element;
      ok := true;
      assert Elements() == old(Elements())[index := element];
    }

    /** The element at `index`, or a failure unless 0 <= index < listSize. */
    method Get(index: int) returns (r: Outcome<T>)
      requires Valid()
      ensures r.Ok? <==> listSize != 0 && 0 <= index < listSize
      ensures r.Ok? ==> r.value == Elements()[index]
    {
      if listSize == 0 {
        return IndexOutOfBounds;
      }
      if index >= listSize || index < 0 {
        return IndexOutOfBounds;
      }
      var node := GetNodeAtIndex(index);
      r := Ok(node.data);
      assert r.value == Values(spine)[index];
    }

    /**
     * Removes the element at `index`. Index 0 moves the head to its successor
     * without repairing the last node's link; any other index is accepted when
     * 0 < index <= listSize and unlinks the successor of the node at index-1.
     * Removing index 0 from a list with no logical element is left out.
     */
    method Remove(index: int) returns (ok: bool)
      requires Valid()
      requires index == 0 ==> listSize > 0
      modifies this, Repr
      ensures Valid() && Repr == old(Repr)
      ensures ok <==> 0 <= index <= old(listSize)
      ensures !ok ==> unchanged(this) && unchanged(Repr)
      ensures ok ==> listSize == old(listSize) - 1
      ensures ok && index < old(listSize) ==> Elements() == RemoveAt(old(Elements()), index)
      ensures ok && index == old(listSize) ==> Elements() == old(Elements())[..index - 1]
      ensures ok && index == 0 ==> root == old(root.next)
      ensures ok && index > 0 ==> root == old(root)
      ensures ok && 0 < index < old(listSize) && old(RingClosed()) ==> RingClosed()
      ensures ok && index == 0 && old(listSize) == 1 && old(RingClosed()) ==> RingClosed()
      ensures ok && index == 0 && old(listSize) >= 2 && old(RingClosed()) ==> !RingClosed()
      ensures ok && index == old(listSize) == 1 && old(RingClosed()) ==> RingClosed()
      ensures ok && index == old(listSize) >= 2 ==> !RingClosed()
    {
      if index == 0 {
        UnlinkFirst();
      } else {
        if index > listSize || index < 0 {
          return false;
        }
        UnlinkAfter(index);
      }
      ok := true;
    }

    /** The `index == 0` branch of Remove: the head's successor becomes the head. */
    method UnlinkFirst()
      requires Valid() && listSize > 0
      modifies this
      ensures Valid() && Repr == old(Repr)
      ensures root == old(root.next) && listSize == old(listSize) - 1
      ensures spine == old(spine[1..])
      ensures Elements() == RemoveAt(old(Elements()), 0)
      ensures old(RingClosed()) && old(listSize) == 1 ==> RingClosed()
      ensures old(RingClosed()) && old(listSize) >= 2 ==> !RingClosed()
    {
      ghost var s := spine;
      ghost var v := Elements();
      root := root.next;
      listSize, spine := listSize - 1, s[1..];
      assert Chained(spine);
      assert Distinct(spine);
      assert Values(spine) == RemoveAt(v, 0) by {
        ValuesRemoveAt(s, 0, v);
      }
      if |s| >= 2 {
        assert s[1] != s[0];
      }
    }

    /**
     * The `index > 0` branch of Remove: the node at position index-1 skips its
     * successor. At `index == listSize` that successor lies past the last
     * logical node, so only the size shrinks the logical contents.
     */
    method UnlinkAfter(index: int)
      requires Valid() && 0 < index <= listSize
      modifies this, spine[index - 1]
      ensures Valid() && Repr == old(Repr)
      ensures root == old(root) && listSize == old(listSize) - 1
      ensures index < old(listSize) ==> spine == RemoveAt(old(spine), index)
      ensures index < old(listSize) ==> Elements() == RemoveAt(old(Elements()), index)
      ensures index == old(listSize) ==> spine == old(spine[..index - 1])
      ensures index == old(listSize) ==> Elements() == old(Elements())[..index - 1]
      ensures index < old(listSize) && old(RingClosed()) ==> RingClosed()
      ensures index == old(listSize) == 1 && old(RingClosed()) ==> RingClosed()
      ensures index == old(listSize) >= 2 ==> !RingClosed()
    {
      ghost var s := spine;
      ghost var v := Elements();
      var node := GetNodeAtIndex(index - 1);
      node.next := node.next.next;
      listSize, spine := listSize - 1, if index < listSize then RemoveAt(s, index) else s[..index - 1];
      assert forall k :: 0 <= k < |s| && k != index - 1 ==> s[k].next == old(s[k].next);
      if index < |s| {
        assert Chained(spine) by {
          if index + 1 < |s| {
            assert old(s[index - 1].next) == s[index] && old(s[index].next) == s[index + 1];
          }
          ChainedRemoveAt(s, index);
        }
        assert Distinct(spine) by {
          DistinctRemoveAt(s, index);
        }
        assert Closed(Repr);
        assert forall k :: 0 <= k < |spine| ==> spine[k] in Repr by {
          forall k | 0 <= k < |spine|
            ensures spine[k] in Repr
          {
            RemoveAtShifts(s, index, k);
          }
        }
        assert root == spine[0] by {
          RemoveAtShifts(s, index, 0);
        }
        assert Values(spine) == RemoveAt(v, index) by {
          ValuesRemoveAt(s, index, v);
        }
        if old(RingClosed()) {
          // the last logical node is the old last one, unless that one was removed
          RemoveAtShifts(s, index, |s| - 2);
        }
      } else {
        assert Chained(spine);
        assert Closed(Repr);
        assert Values(spine) == v[..index - 1];
        if |s| >= 2 {
          assert s[|s| - 1] != s[0];
        }
      }
    }

    /**
     * Walks from the head, stopping before the node whose successor is the
     * head, and reports whether a visited node holds `x`. On a closed ring the
     * last logical node is never visited.
     */
    method Contains(x: T) returns (r: bool)
      requires Valid() && RingClosed()
      ensures r <==> exists k :: 0 <= k < listSize - 1 && Elements()[k] == x
      ensures root == null ==> !r
    {
      if root == null {
        return false;
      }
      var node: Node<T> := root;
      ghost var k := 0;
      while node.next != root
        invariant 0 <= k && (listSize == 0 ==> k == 0 && node == root)
        invariant listSize > 0 ==> k < listSize && node == spine[k]
        invariant listSize > 0 && k < listSize - 1 ==> node.next == spine[k + 1]
        invariant forall j :: 0 <= j < k ==> Elements()[j] != x
        decreases listSize - k
      {
        if node.data == x {
          assert Elements()[k] == x;
          return true;
        }
        node := node.next;
        k := k + 1;
      }
      assert forall j :: 0 < j < listSize ==> spine[j] != spine[0];
      assert listSize > 0 ==> k == listSize - 1;
      return false;
    }

    /** True when there is no head node; a stale head makes it answer false at size 0. */
    method IsEmpty() returns (r: bool)
      requires Valid()
      ensures r <==> root == null
      ensures r ==> Elements() == []
      ensures listSize > 0 ==> !r
    {
      r := root == null;
    }

    /** The number of logical elements. */
    method Size() returns (n: int)
      requires Valid()
      ensures n == |Elements()|
    {
      n := listSize;
    }

    /** Drops every node: no head, size 0. */
    method Clear()
      requires Valid()
      modifies this
      ensures Valid() && Repr == {}
      ensures root == null && Elements() == [] && RingClosed()
    {
      root := null;
      listSize := 0;
      spine := [];
      Repr := {};
    }
  }
}
