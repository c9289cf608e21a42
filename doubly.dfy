/**
 * `DoublyNode` and `DoublyList` (src/doubly.ts): a list of heap nodes linked forwards
 * by `next` and backwards by `prev`, with the head, tail and length kept in the list.
 */
module Doubly {
  import opened Common

  /** A node: its value (never reassigned by the list), its successor and its predecessor. */
  class DoublyNode<T> {
    const value: T
    var next: DoublyNode?<T>
    var prev: DoublyNode?<T>

    constructor (val: T)
      ensures value == val && next == null && prev == null
    {
      value := val;
      next := null;
      prev := null;
    }
  }

  /** The values of a sequence of nodes. */
  ghost function Values<T>(nodes: seq<DoublyNode<T>>): seq<T>
  {
    seq(|nodes|, i requires 0 <= i < |nodes| => nodes[i].value)
  }

  /** The node at position j of S, or null outside it: what a link to position j holds. */
  ghost function At<T>(S: seq<DoublyNode<T>>, j: int): DoublyNode?<T>
  {
    if 0 <= j < |S| then S[j] else null
  }

  /** The values of a reversed node sequence are the reversed values. */
  lemma ValuesReversed<T>(S: seq<DoublyNode<T>>)
    ensures Values(Reversed(S)) == Reversed(Values(S))
  {
    ReversedIndex(S);
    ReversedIndex(Values(S));
  }

  /**
   * If the `next` links of S run backwards and its `prev` links forwards, each ending in
   * null, then R, which lists S back to front, is linked as a valid list's nodes are.
   */
  lemma LinksReversed<T>(S: seq<DoublyNode<T>>, R: seq<DoublyNode<T>>)
    requires |S| > 0 && |R| == |S|
    requires forall k :: 0 <= k < |S| ==> R[k] == S[|S| - 1 - k]
    requires forall k {:trigger S[k].next} :: 0 <= k < |S| ==> S[k].next == At(S, k - 1)
    requires forall k {:trigger S[k].prev} :: 0 <= k < |S| ==> S[k].prev == At(S, k + 1)
    requires forall i, j :: 0 <= i < j < |S| ==> S[i] != S[j]
    ensures R[0].prev == null && R[|R| - 1].next == null
    ensures forall k :: 0 <= k < |R| - 1 ==> R[k].next == R[k + 1]
    ensures forall k :: 0 < k < |R| ==> R[k].prev == R[k - 1]
    ensures forall i, j :: 0 <= i < j < |R| ==> R[i] != R[j]
  {
    var n := |S|;
    assert R[0] == S[n - 1] && R[n - 1] == S[0];
    forall k | 0 <= k < n - 1
      ensures R[k].next == R[k + 1]
    {
      assert R[k] == S[n - 1 - k] && R[k + 1] == S[n - 2 - k];
    }
    forall k | 0 < k < n
      ensures R[k].prev == R[k - 1]
    {
      assert R[k] == S[n - 1 - k] && R[k - 1] == S[n - k];
    }
    forall a, b | 0 <= a < b < n
      ensures R[a] != R[b]
    {
      assert R[a] == S[n - 1 - a] && R[b] == S[n - 1 - b];
    }
  }

  /**
   * The walk of `reverse`: from the first node of a chain, each node's `next` is set to
   * the node visited before it and its `prev` to the node that followed it; the last
   * node visited is returned.
   */
  method SwapWalk<T>(ghost S: seq<DoublyNode<T>>, first: DoublyNode<T>) returns (last: DoublyNode<T>)
    requires |S| > 0 && first == S[0]
    requires forall a, b :: 0 <= a < b < |S| ==> S[a] != S[b]
    requires forall k {:trigger S[k].next} :: 0 <= k < |S| ==> S[k].next == At(S, k + 1)
    requires forall k {:trigger S[k].prev} :: 0 <= k < |S| ==> S[k].prev == At(S, k - 1)
    modifies set k | 0 <= k < |S| :: S[k]
    ensures last == S[|S| - 1]
    ensures forall k {:trigger S[k].next} :: 0 <= k < |S| ==> S[k].next == At(S, k - 1)
    ensures forall k {:trigger S[k].prev} :: 0 <= k < |S| ==> S[k].prev == At(S, k + 1)
  {
    var n := |S|;
    var current: DoublyNode?<T> := first;
    var prevNode: DoublyNode?<T> := null;
    var nextNode: DoublyNode?<T>;
    ghost var i := 0;
    while current != null
      invariant 0 <= i <= n
      invariant current == At(S, i) && prevNode == At(S, i - 1)
      invariant forall k {:trigger S[k].next} :: 0 <= k < n ==> S[k].next == if k < i then At(S, k - 1) else At(S, k + 1)
      invariant forall k {:trigger S[k].prev} :: 0 <= k < n ==> S[k].prev == if k < i then At(S, k + 1) else At(S, k - 1)
      decreases n - i
    {
      label Before:
      nextNode := current.next;
      current.next := prevNode;
      current.prev := nextNode;
      forall k | 0 <= k < n && k != i
        ensures S[k].next == old@Before(S[k].next) && S[k].prev == old@Before(S[k].prev)
      {
        assert S[k] != S[i];
      }
      prevNode := current;
      current := nextNode;
      i := i + 1;
    }
    last := prevNode;
  }

  class DoublyList<T(==)> {
    var head: DoublyNode?<T>
    var tail: DoublyNode?<T>
    var length: int

    /** The nodes from head to tail, in order. */
    ghost var spine: seq<DoublyNode<T>>
    ghost var Repr: set<object>

    /**
     * The object invariant: `length` is the number of nodes, head and tail are the
     * first and last of them (null when there are none), the head's `prev` and the
     * tail's `next` are null, each node's `next` is the following node and that node's
     * `prev` points back at it, and no node occurs twice.
     */
    ghost predicate Valid()
      reads this, Repr
      ensures Valid() ==> this in Repr
    {
      && this in Repr
      && (forall i :: 0 <= i < |spine| ==> spine[i] in Repr)
      && length == |spine|
      && (|spine| == 0 ==> head == null && tail == null)
      && (|spine| > 0 ==>
            && head == spine[0] && tail == spine[|spine| - 1]
            && spine[0].prev == null && spine[|spine| - 1].next == null)
      && (forall i {:trigger spine[i].next} :: 0 <= i < |spine| - 1 ==> spine[i].next == spine[i + 1])
      && (forall i {:trigger spine[i].prev} :: 0 < i < |spine| ==> spine[i].prev == spine[i - 1])
      && (forall i, j :: 0 <= i < j < |spine| ==> spine[i] != spine[j])
    }

    /** The values from head to tail: what the iterator yields. */
    ghost function Contents(): seq<T>
      reads this
    {
      Values(spine)
    }

    /** The constructor appends its arguments in order. */
    constructor (values: seq<T>)
      ensures Valid() && fresh(Repr)
      ensures Contents() == values
    {
      head := null;
      tail := null;
      length := 0;
      spine := [];
      Repr := {this};
      new;
      for i := 0 to |values|
        invariant Valid() && fresh(Repr)
        invariant Contents() == values[..i]
      {
        var _ := Append(values[i]);
        assert values[..i + 1] == values[..i] + [values[i]];
      }
      assert values[..|values|] == values;
    }

    /** The `head` getter: the head node's value, null for an empty list. */
    function HeadValue(): (r: Option<T>)
      requires Valid()
      reads this, Repr
      ensures r == if Contents() == [] then None else Some(Contents()[0])
    {
      if head == null then None else Some(head.value)
    }

    /** The `tail` getter: the tail node's value, null for an empty list. */
    function TailValue(): (r: Option<T>)
      requires Valid()
      reads this, Repr
      ensures r == if Contents() == [] then None else Some(Contents()[|Contents()| - 1])
    {
      if tail == null then None else Some(tail.value)
    }

    /** The `length` getter. */
    function Length(): (r: int)
      requires Valid()
      reads this, Repr
      ensures r == |Contents()|
    {
      length
    }

    /** In a valid list exactly the last node has a null `next`. */
    lemma NextNullIffLast(i: int)
      requires Valid() && 0 <= i < |spine|
      ensures spine[i].next == null <==> i == |spine| - 1
    {
      if i < |spine| - 1 {
        assert spine[i].next == spine[i + 1];
      }
    }

    /** The iterator run to the end (`toArray`, `[...list]`): one value per node from head. */
    method ToArray() returns (r: seq<T>)
      requires Valid()
      ensures r == Contents()
    {
      r := [];
      var current := head;
      ghost var i := 0;
      while current != null
        invariant 0 <= i <= |spine|
        invariant current == if i < |spine| then spine[i] else null
        invariant r == Contents()[..i]
        decreases |spine| - i
      {
        r := r + [current.value];
        current := current.next;
        i := i + 1;
      }
    }

    /** `getNode`: fails unless `length > 0 && 0 <= position < length`, else walks `position` hops. */
    method GetNode(position: int) returns (r: Result<DoublyNode<T>>)
      requires Valid()
      ensures r.Ok? <==> length > 0 && 0 <= position < length
      ensures r.Err? ==> r.error == OutOfRange
      ensures r.Ok? ==> r.value == spine[position]
    {
      if !(length > 0 && position >= 0 && position < length) {
        return Err(OutOfRange);
      }
      var current := head;
      var count := 0;
      while count < position
        invariant 0 <= count <= position
        invariant current == spine[count]
      {
        current := current.next;
        count := count + 1;
      }
      return Ok(current);
    }

    /** `get`: the value at `position`, failing as `getNode` does. */
    method Get(position: int) returns (r: Result<T>)
      requires Valid()
      ensures r.Ok? <==> length > 0 && 0 <= position < length
      ensures r.Err? ==> r.error == OutOfRange
      ensures r.Ok? ==> r.value == Contents()[position]
    {
      var node := GetNode(position);
      match node
      case Err(e) => r := Err(e);
      case Ok(n) => r := Ok(n.value);
    }

    /** `append`: a new node after the tail, pointing back at it; always succeeds. */
    method Append(val: T) returns (ok: bool)
      requires Valid()
      modifies Repr
      ensures Valid() && fresh(Repr - old(Repr))
      ensures ok
      ensures Contents() == old(Contents()) + [val]
      ensures length == old(length) + 1
      ensures spine == old(spine) + [tail]
      ensures old(length) > 0 ==> head == old(head) && tail.prev == old(tail) && old(tail).next == tail
    {
      var node := new DoublyNode(val);
      if tail == null {
        head, tail := node, node;
      } else {
        tail.next := node;
        node.prev := tail;
        tail := node;
      }
      length := length + 1;
      spine := spine + [node];
      Repr := Repr + {node};
      ok := true;
    }

    /** `prepend`: a new node before the head, which now points back at it; always succeeds. */
    method Prepend(val: T) returns (ok: bool)
      requires Valid()
      modifies Repr
      ensures Valid() && fresh(Repr - old(Repr))
      ensures ok
      ensures Contents() == [val] + old(Contents())
      ensures length == old(length) + 1
      ensures spine == [head] + old(spine)
      ensures old(length) > 0 ==> tail == old(tail) && old(head).prev == head && head.next == old(head)
    {
      var node := new DoublyNode(val);
      if head == null {
        head, tail := node, node;
      } else {
        node.next := head;
        head.prev := node;
        head := node;
      }
      length := length + 1;
      spine := [node] + spine;
      Repr := Repr + {node};
      ok := true;
    }

    /**
     * `remove(val)`: with no match nothing changes and nothing is returned; otherwise the
     * first node holding val is spliced out in both directions, its links are cleared,
     * and val is returned.
     */
    method Remove(val: T) returns (r: Option<T>)
      requires Valid()
      modifies Repr
      ensures Valid() && Repr <= old(Repr)
      ensures r == if val in old(Contents()) then Some(val) else None
      ensures Contents() == RemoveFirst(old(Contents()), val)
      ensures val !in old(Contents()) ==> spine == old(spine)
      ensures val in old(Contents()) ==>
        var k := FirstIndex(old(Contents()), val);
        && spine == old(spine)[..k] + old(spine)[k + 1..]
        && old(spine)[k].next == null && old(spine)[k].prev == null
    {
      RemoveFirstCuts(Contents(), val);
      var current := head;
      if current == null {
        return None;
      }
      if current.value == val {
        assert Contents()[0] == val;
        assert FirstIndex(Contents(), val) == 0;
        UnlinkHead();
        return Some(val);
      }
      var i;
      i, current := FindFromHead(val);
      if current == null {
        return None;
      }
      assert Contents()[i] == val;
      UnlinkAt(i, current);
      return Some(current.value);
    }

    /**
     * The walk `remove` makes once the head does not match, from the head again: the
     * position of the first node holding val and that node, or a null node when none does.
     */
    method FindFromHead(val: T) returns (i: int, current: DoublyNode?<T>)
      requires Valid() && head != null && head.value != val
      ensures i == FirstIndex(Contents(), val) && 1 <= i
      ensures i < |spine| ==> current == spine[i]
      ensures i == |spine| ==> current == null
    {
      current := head;
      i := 0;
      while true
        invariant 0 <= i < |spine|
        invariant current == spine[i]
        invariant forall j :: 0 <= j < i ==> Contents()[j] != val
        invariant Contents()[0] != val
        decreases |spine| - i
      {
        if current.value == val {
          assert Contents()[i] == val;
          return;
        }
        if current.next != null {
          current := current.next;
          i := i + 1;
        } else {
          NextNullIffLast(i);
          assert Contents()[i] != val;
          return i + 1, null;
        }
      }
    }

    /**
     * The head branch of `remove`: a longer list gets the next node as its head with a
     * null `prev`, and the old head's links are cleared; a one-node list becomes empty.
     */
    method UnlinkHead()
      requires Valid() && head != null
      modifies Repr
      ensures Valid() && Repr <= old(Repr)
      ensures spine == old(spine)[1..] && Contents() == old(Contents())[1..]
      ensures old(head).next == null && old(head).prev == null
    {
      NextNullIffLast(0);
      var current := head;
      if current.next != null {
        assert current.next == spine[1];
        head := current.next;
        head.prev := null;
        current.next := null;
        current.prev := null;
      } else {
        head := null;
        tail := null;
      }
      length := length - 1;
      spine := spine[1..];
      Repr := Repr - {current};
    }

    /**
     * The splice `remove` makes at position i > 0 through the node's own `prev`: an inner
     * node is bypassed in both directions, a tail node hands the tail to its predecessor;
     * either way its links are cleared.
     */
    method UnlinkAt(i: int, current: DoublyNode<T>)
      requires Valid() && 1 <= i < |spine| && current == spine[i]
      modifies Repr
      ensures Valid() && Repr <= old(Repr)
      ensures spine == old(spine)[..i] + old(spine)[i + 1..]
      ensures Contents() == old(Contents())[..i] + old(Contents())[i + 1..]
      ensures current.next == null && current.prev == null
    {
      NextNullIffLast(i);
      if current.next != null {
        UnlinkInner(i, current);
      } else {
        UnlinkLast(current);
      }
    }

    /** An inner node is bypassed: its predecessor and successor now point at each other. */
    method UnlinkInner(i: int, current: DoublyNode<T>)
      requires Valid() && 1 <= i < |spine| - 1 && current == spine[i]
      modifies Repr
      ensures Valid() && Repr <= old(Repr)
      ensures spine == old(spine)[..i] + old(spine)[i + 1..]
      ensures Contents() == old(Contents())[..i] + old(Contents())[i + 1..]
      ensures current.next == null && current.prev == null
    {
      ghost var s := spine;
      var p := current.prev;
      assert p == spine[i - 1];
      assert current.next == spine[i + 1];
      p.next := current.next;
      current.next.prev := p;
      current.next := null;
      current.prev := null;
      length := length - 1;
      spine := spine[..i] + spine[i + 1..];
      Repr := Repr - {current};
      assert forall k :: 0 <= k < |spine| ==> spine[k] == if k < i then s[k] else s[k + 1];
      assert Values(spine) == Values(s)[..i] + Values(s)[i + 1..];
    }

    /**
     * The tail of a list of two or more nodes is dropped through its `prev`, which becomes
     * the tail with a null `next`; the old tail's links are cleared. `removeTail` and the
     * tail branch of `remove` make the same steps.
     */
    method UnlinkLast(current: DoublyNode<T>)
      requires Valid() && |spine| > 1 && current == tail
      modifies Repr
      ensures Valid() && Repr <= old(Repr)
      ensures spine == old(spine)[..|old(spine)| - 1]
      ensures Contents() == old(Contents())[..|old(Contents())| - 1]
      ensures current.next == null && current.prev == null
    {
      var p := current.prev;
      assert p == spine[|spine| - 2];
      p.next := null;
      tail := p;
      current.next := null;
      current.prev := null;
      length := length - 1;
      spine := spine[..|spine| - 1];
      Repr := Repr - {current};
    }

    /** `removeHead`: nothing on an empty list, else unlinks and returns the head's value. */
    method RemoveHead() returns (r: Option<T>)
      requires Valid()
      modifies Repr
      ensures Valid() && Repr <= old(Repr)
      ensures old(Contents()) == [] ==> r == None && spine == old(spine)
      ensures old(Contents()) != [] ==> r == Some(old(Contents())[0])
      ensures old(Contents()) != [] ==> Contents() == old(Contents())[1..] && spine == old(spine)[1..]
      ensures old(Contents()) != [] ==> old(head).next == null && old(head).prev == null
      ensures |old(Contents())| == 1 ==> head == null && tail == null
    {
      var current := head;
      if current == null {
        return None;
      }
      NextNullIffLast(0);
      if head.next == null {
        head := null;
        tail := null;
      } else {
        assert current.next == spine[1];
        current.next.prev := null;
        head := current.next;
        current.next := null;
      }
      length := length - 1;
      spine := spine[1..];
      Repr := Repr - {current};
      return Some(current.value);
    }

    /**
     * `removeTail`: nothing on an empty list; else the tail's `prev` becomes the tail with a
     * null `next`, the old tail's links are cleared, and its value is returned.
     */
    method RemoveTail() returns (r: Option<T>)
      requires Valid()
      modifies Repr
      ensures Valid() && Repr <= old(Repr)
      ensures old(Contents()) == [] ==> r == None && spine == old(spine)
      ensures old(Contents()) != [] ==> r == Some(old(Contents())[|old(Contents())| - 1])
      ensures old(Contents()) != [] ==>
        Contents() == old(Contents())[..|old(Contents())| - 1] && spine == old(spine)[..|old(spine)| - 1]
      ensures old(Contents()) != [] ==> old(tail).next == null && old(tail).prev == null
      ensures |old(Contents())| == 1 ==> head == null && tail == null
    {
      var tailNode := tail;
      if tailNode == null {
        return None;
      }
      NextNullIffLast(0);
      if head.next == null {
        head := null;
        tail := null;
      } else {
        var p := tailNode.prev;
        assert p == spine[|spine| - 2];
        p.next := null;
        tail := p;
        tailNode.next := null;
        tailNode.prev := null;
      }
      length := length - 1;
      spine := spine[..|spine| - 1];
      Repr := Repr - {tailNode};
      return Some(tailNode.value);
    }

    /** `first(num)`: fails when `num < 0`, else the first `min(num, length)` values in order. */
    method First(num: int) returns (r: Result<seq<T>>)
      requires Valid()
      ensures num < 0 <==> r.Err?
      ensures r.Err? ==> r.error == InvalidArgument
      ensures r.Ok? ==> r.value == Contents()[..Min(num, length)]
    {
      if !(num >= 0) {
        return Err(InvalidArgument);
      }
      var current := head;
      var result: seq<T> := [];
      var n := Min(num, length);
      for i := 0 to n
        invariant current == if i < |spine| then spine[i] else null
        invariant result == Contents()[..i]
      {
        result := result + [current.value];
        current := current.next;
      }
      return Ok(result);
    }

    /**
     * `reverse`: nothing on an empty list; otherwise the old head becomes the tail and one
     * walk swaps every node's `next` and `prev`.
     */
    method Reverse()
      requires Valid()
      modifies Repr
      ensures Valid() && Repr == old(Repr)
      ensures spine == Reversed(old(spine))
      ensures Contents() == Reversed(old(Contents()))
      ensures length == old(length)
      ensures old(length) > 0 ==> tail == old(head) && head == old(tail)
    {
      ReversedLength(spine);
      if head == null {
        return;
      }
      ghost var S := spine;
      tail := head;
      var last := SwapWalk(S, head);
      head := last;
      spine := Reversed(S);
      ReversedValid(S);
    }

    /** The state `reverse` leaves, with the nodes of S relinked backwards, is valid. */
    lemma ReversedValid(S: seq<DoublyNode<T>>)
      requires |S| > 0 && this in Repr && (forall k :: 0 <= k < |S| ==> S[k] in Repr)
      requires forall k {:trigger S[k].next} :: 0 <= k < |S| ==> S[k].next == At(S, k - 1)
      requires forall k {:trigger S[k].prev} :: 0 <= k < |S| ==> S[k].prev == At(S, k + 1)
      requires forall i, j :: 0 <= i < j < |S| ==> S[i] != S[j]
      requires spine == Reversed(S) && length == |S| && head == S[|S| - 1] && tail == S[0]
      ensures Valid() && Contents() == Reversed(Values(S))
    {
      ReversedIndex(S);
      LinksReversed(S, spine);
      ValuesReversed(S);
    }

    /** `clone`: a new list built from `toArray()`; it shares no node with this one. */
    method Clone() returns (c: DoublyList<T>)
      requires Valid()
      ensures fresh(c) && fresh(c.Repr)
      ensures c.Valid() && c.Contents() == Contents()
    {
      var values := ToArray();
      c := new DoublyList(values);
    }
  }
}
