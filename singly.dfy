/**
 * `SinglyNode` (src/node.ts) and `SinglyList` (src/singly.ts): a list of heap nodes
 * linked by `next`, with the head, tail and length kept in the list object.
 */
module Singly {
  import opened Common

  /** A node: its value (never reassigned by the list) and its successor. */
  class SinglyNode<T> {
    const value: T
    var next: SinglyNode?<T>

    constructor (val: T)
      ensures value == val && next == null
    {
      value := val;
      next := null;
    }
  }

  /** The values of a sequence of nodes. */
  ghost function Values<T>(nodes: seq<SinglyNode<T>>): seq<T>
  {
    seq(|nodes|, i requires 0 <= i < |nodes| => nodes[i].value)
  }

  /** The node at position j of S, or null outside it: what a link to position j holds. */
  ghost function At<T>(S: seq<SinglyNode<T>>, j: int): SinglyNode?<T>
  {
    if 0 <= j < |S| then S[j] else null
  }

  /**
   * The walk of `reverse`: from the first node of a chain, a trailing `prevNode` is
   * written into each node's `next`; the last node visited is returned.
   */
  method ReverseWalk<T>(ghost S: seq<SinglyNode<T>>, first: SinglyNode<T>) returns (last: SinglyNode<T>)
    requires |S| > 0 && first == S[0]
    requires forall a, b :: 0 <= a < b < |S| ==> S[a] != S[b]
    requires forall k {:trigger S[k].next} :: 0 <= k < |S| ==> S[k].next == At(S, k + 1)
    modifies set k | 0 <= k < |S| :: S[k]
    ensures last == S[|S| - 1]
    ensures forall k {:trigger S[k].next} :: 0 <= k < |S| ==> S[k].next == At(S, k - 1)
  {
    var n := |S|;
    var current: SinglyNode?<T> := first;
    var prevNode: SinglyNode?<T> := null;
    ghost var i := 0;
    while current != null
      invariant 0 <= i <= n
      invariant current == At(S, i) && prevNode == At(S, i - 1)
      invariant forall k {:trigger S[k].next} :: 0 <= k < n ==> S[k].next == if k < i then At(S, k - 1) else At(S, k + 1)
      decreases n - i
    {
      var nextNode := current.next;
      current.next := prevNode;
      prevNode := current;
      current := nextNode;
      i := i + 1;
    }
    last := prevNode;
  }

  /** A chain whose `next` links all run backwards, ending in null, is well linked in reverse. */
  lemma ReversedChain<T>(S: seq<SinglyNode<T>>)
    requires |S| > 0
    requires forall k {:trigger S[k].next} :: 0 <= k < |S| ==> S[k].next == At(S, k - 1)
    requires forall i, j :: 0 <= i < j < |S| ==> S[i] != S[j]
    ensures |Reversed(S)| == |S|
    ensures forall k :: 0 <= k < |S| ==> Reversed(S)[k] == S[|S| - 1 - k]
    ensures Reversed(S)[|S| - 1].next == null
    ensures forall k :: 0 <= k < |S| - 1 ==> Reversed(S)[k].next == Reversed(S)[k + 1]
    ensures forall i, j :: 0 <= i < j < |S| ==> Reversed(S)[i] != Reversed(S)[j]
    ensures Values(Reversed(S)) == Reversed(Values(S))
  {
    var n := |S|;
    assert S[0].next == null;
    ReversedLength(S);
    forall k | 0 <= k < n
      ensures Reversed(S)[k] == S[n - 1 - k]
    {
      ReversedAt(S, k);
    }
    ReversedLength(Values(S));
    forall k | 0 <= k < n
      ensures Values(Reversed(S))[k] == Reversed(Values(S))[k]
    {
      ReversedAt(Values(S), k);
    }
  }

  class SinglyList<T(==)> {
    var head: SinglyNode?<T>
    var tail: SinglyNode?<T>
    var length: int

    /** The nodes from head to tail, in order. */
    ghost var spine: seq<SinglyNode<T>>
    ghost var Repr: set<object>

    /**
     * The object invariant: `length` is the number of nodes, head and tail are the
     * first and last of them (null when there are none), each node's `next` is the
     * following node, the tail's `next` is null, and no node occurs twice.
     */
    ghost predicate Valid()
      reads this, Repr
      ensures Valid() ==> this in Repr
    {
      && this in Repr
      && (forall i :: 0 <= i < |spine| ==> spine[i] in Repr)
      && length == |spine|
      && (|spine| == 0 ==> head == null && tail == null)
      && (|spine| > 0 ==> head == spine[0] && tail == spine[|spine| - 1] && spine[|spine| - 1].next == null)
      && (forall i {:trigger spine[i].next} :: 0 <= i < |spine| - 1 ==> spine[i].next == spine[i + 1])
      && (forall i, j :: 0 <= i < j < |spine| ==> spine[i] != spine[j])
    }

    /** The values from head to tail: what the iterator yields. */
    ghost function Contents(): seq<T>
      reads this
    {
      Values(spine)
    }

    /** The constructor appends its arguments in order. */
    constructor (values: seq<T>)
      ensures Valid() && fresh(Repr)
      ensures Contents() == values
    {
      head := null;
      tail := null;
      length := 0;
      spine := [];
      Repr := {this};
      new;
      for i := 0 to |values|
        invariant Valid() && fresh(Repr)
        invariant Contents() == values[..i]
      {
        var _ := Append(values[i]);
        assert values[..i + 1] == values[..i] + [values[i]];
      }
      assert values[..|values|] == values;
    }

    /** The `head` getter: the head node's value, null for an empty list. */
    function HeadValue(): (r: Option<T>)
      requires Valid()
      reads this, Repr
      ensures r == if Contents() == [] then None else Some(Contents()[0])
    {
      if head == null then None else Some(head.value)
    }

    /** The `tail` getter: the tail node's value, null for an empty list. */
    function TailValue(): (r: Option<T>)
      requires Valid()
      reads this, Repr
      ensures r == if Contents() == [] then None else Some(Contents()[|Contents()| - 1])
    {
      if tail == null then None else Some(tail.value)
    }

    /** The `length` getter. */
    function Length(): (r: int)
      requires Valid()
      reads this, Repr
      ensures r == |Contents()|
    {
      length
    }

    /** In a valid list exactly the last node has a null `next`. */
    lemma NextNullIffLast(i: int)
      requires Valid() && 0 <= i < |spine|
      ensures spine[i].next == null <==> i == |spine| - 1
    {
      if i < |spine| - 1 {
        assert spine[i].next == spine[i + 1];
      }
    }

    /** The iterator run to the end (`toArray`, `[...list]`): one value per node from head. */
    method ToArray() returns (r: seq<T>)
      requires Valid()
      ensures r == Contents()
    {
      r := [];
      var current := head;
      ghost var i := 0;
      while current != null
        invariant 0 <= i <= |spine|
        invariant current == if i < |spine| then spine[i] else null
        invariant r == Contents()[..i]
        decreases |spine| - i
      {
        r := r + [current.value];
        current := current.next;
        i := i + 1;
      }
    }

    /** `getNode`: fails unless `length > 0 && 0 <= position < length`, else walks `position` hops. */
    method GetNode(position: int) returns (r: Result<SinglyNode<T>>)
      requires Valid()
      ensures r.Ok? <==> length > 0 && 0 <= position < length
      ensures r.Err? ==> r.error == OutOfRange
      ensures r.Ok? ==> r.value == spine[position]
    {
      if !(length > 0 && position >= 0 && position < length) {
        return Err(OutOfRange);
      }
      var current := head;
      var count := 0;
      while count < position
        invariant 0 <= count <= position
        invariant current == spine[count]
      {
        current := current.next;
        count := count + 1;
      }
      return Ok(current);
    }

    /** `get`: the value at `position`, failing as `getNode` does. */
    method Get(position: int) returns (r: Result<T>)
      requires Valid()
      ensures r.Ok? <==> length > 0 && 0 <= position < length
      ensures r.Err? ==> r.error == OutOfRange
      ensures r.Ok? ==> r.value == Contents()[position]
    {
      var node := GetNode(position);
      match node
      case Err(e) => r := Err(e);
      case Ok(n) => r := Ok(n.value);
    }

    /** `append`: a new node after the tail (or as the only node); always succeeds. */
    method Append(val: T) returns (ok: bool)
      requires Valid()
      modifies Repr
      ensures Valid() && fresh(Repr - old(Repr))
      ensures ok
      ensures Contents() == old(Contents()) + [val]
      ensures length == old(length) + 1
      ensures spine == old(spine) + [tail]
      ensures old(length) > 0 ==> head == old(head) && old(tail).next == tail
    {
      var node := new SinglyNode(val);
      if tail == null {
        head, tail := node, node;
      } else {
        tail.next := node;
        tail := node;
      }
      length := length + 1;
      spine := spine + [node];
      Repr := Repr + {node};
      ok := true;
    }

    /** `prepend`: a new node before the head (or as the only node); always succeeds. */
    method Prepend(val: T) returns (ok: bool)
      requires Valid()
      modifies Repr
      ensures Valid() && fresh(Repr - old(Repr))
      ensures ok
      ensures Contents() == [val] + old(Contents())
      ensures length == old(length) + 1
      ensures spine == [head] + old(spine)
      ensures old(length) > 0 ==> tail == old(tail) && head.next == old(head)
    {
      var node := new SinglyNode(val);
      if head == null {
        head, tail := node, node;
      } else {
        node.next := head;
        head := node;
      }
      length := length + 1;
      spine := [node] + spine;
      Repr := Repr + {node};
      ok := true;
    }

    /**
     * The walk `remove` makes once the head does not match: the position of the first
     * node holding val, that node and its predecessor, or a null node when none does.
     */
    method FindAfterHead(val: T) returns (i: int, prevNode: SinglyNode<T>, current: SinglyNode?<T>)
      requires Valid() && head != null && head.value != val
      ensures i == FirstIndex(Contents(), val) && 1 <= i
      ensures i < |spine| ==> current == spine[i] && prevNode == spine[i - 1]
      ensures i == |spine| ==> current == null
    {
      current := head;
      prevNode := head;
      i := 0;
      while true
        invariant 0 <= i < |spine|
        invariant current == spine[i]
        invariant prevNode == spine[if i == 0 then 0 else i - 1]
        invariant forall j :: 0 <= j < i ==> Contents()[j] != val
        invariant Contents()[0] != val
        decreases |spine| - i
      {
        if current.value == val {
          assert Contents()[i] == val;
          return;
        }
        if current.next != null {
          prevNode := current;
          current := current.next;
          i := i + 1;
        } else {
          NextNullIffLast(i);
          assert Contents()[i] != val;
          return i + 1, prevNode, null;
        }
      }
    }

    /**
     * `remove(val)`, as written. With no match nothing changes and nothing is
     * returned. A match at the head of a longer list, or strictly inside it, splices
     * the first matching node out and clears its `next`. The two remaining cases break
     * the invariant: a match at the tail moves `tail` back one node but leaves that
     * node's `next` on the removed node, and a one-node list loses its head but keeps
     * its tail. The length drops by one on every match.
     */
    method Remove(val: T) returns (r: Option<T>)
      requires Valid()
      modifies Repr
      ensures Repr <= old(Repr)
      ensures r == if val in old(Contents()) then Some(val) else None
      ensures val !in old(Contents()) ==> Valid() && spine == old(spine)
      ensures val in old(Contents()) ==> length == old(length) - 1
      ensures val in old(Contents()) ==> old(spine)[FirstIndex(old(Contents()), val)].next == null
      ensures var n, k := |old(spine)|, FirstIndex(old(Contents()), val);
        (k == 0 && n > 1) || 0 < k < n - 1 ==>
          Valid() && Contents() == RemoveFirst(old(Contents()), val)
          && spine == old(spine)[..k] + old(spine)[k + 1..]
      ensures var n, k := |old(spine)|, FirstIndex(old(Contents()), val);
        k == 0 && n == 1 ==>
          head == null && tail == old(tail) && tail != null && !Valid()
      ensures var n, k := |old(spine)|, FirstIndex(old(Contents()), val);
        0 < k == n - 1 ==>
          && head == old(head) && tail == old(spine)[n - 2]
          && (forall i :: 0 <= i < n ==> old(spine)[i].next == old(spine[i].next))
          && !Valid()
    {
      ghost var C := Contents();
      var current := head;
      if current == null {
        assert C == [];
        return None;
      }
      if current.value == val {
        assert C[0] == val && FirstIndex(C, val) == 0 && RemoveFirst(C, val) == C[1..];
        UnlinkHead();
        return Some(val);
      }
      var i, prevNode;
      i, prevNode, current := FindAfterHead(val);
      if current == null {
        assert val !in C;
        return None;
      }
      assert C[i] == val && val in C;
      RemoveFirstCuts(C, val);
      UnlinkAt(i, prevNode, current);
      return Some(val);
    }

    /** The head branch of `remove`: the head moves on and the old head's `next` is cleared. */
    method UnlinkHead()
      requires Valid() && head != null
      modifies Repr
      ensures Repr <= old(Repr)
      ensures length == old(length) - 1 && old(head).next == null
      ensures |old(spine)| > 1 ==> Valid() && spine == old(spine)[1..] && Contents() == old(Contents())[1..]
      ensures |old(spine)| == 1 ==> head == null && tail == old(tail) && tail != null && !Valid()
    {
      NextNullIffLast(0);
      var current := head;
      head := current.next;
      current.next := null;
      length := length - 1;
      if head != null {
        spine := spine[1..];
        Repr := Repr - {current};
      }
    }

    /**
     * The splice `remove` makes at position i > 0: an inner node is bypassed, while a
     * match at the tail only moves `tail` back, leaving its predecessor's `next` on it.
     */
    method UnlinkAt(i: int, prevNode: SinglyNode<T>, current: SinglyNode<T>)
      requires Valid() && 1 <= i < |spine| && current == spine[i] && prevNode == spine[i - 1]
      modifies Repr
      ensures Repr <= old(Repr)
      ensures length == old(length) - 1 && current.next == null
      ensures i < |old(spine)| - 1 ==> Valid() && spine == old(spine)[..i] + old(spine)[i + 1..]
      ensures i < |old(spine)| - 1 ==> Contents() == old(Contents())[..i] + old(Contents())[i + 1..]
      ensures i == |old(spine)| - 1 ==>
        && head == old(head) && tail == prevNode
        && (forall k :: 0 <= k < |old(spine)| ==> old(spine)[k].next == old(spine[k].next))
        && !Valid()
    {
      NextNullIffLast(i);
      if current.next != null {
        UnlinkInner(i, prevNode, current);
      } else {
        tail := prevNode;
        current.next := null;
        length := length - 1;
      }
    }

    /** An inner node is bypassed: its predecessor now points at its successor. */
    method UnlinkInner(i: int, prevNode: SinglyNode<T>, current: SinglyNode<T>)
      requires Valid() && 1 <= i < |spine| - 1 && current == spine[i] && prevNode == spine[i - 1]
      modifies Repr
      ensures Valid() && Repr <= old(Repr)
      ensures length == old(length) - 1 && current.next == null
      ensures spine == old(spine)[..i] + old(spine)[i + 1..]
      ensures Contents() == old(Contents())[..i] + old(Contents())[i + 1..]
    {
      ghost var s := spine;
      assert current.next == s[i + 1];
      prevNode.next := current.next;
      spine := spine[..i] + spine[i + 1..];
      Repr := Repr - {current};
      current.next := null;
      length := length - 1;
      assert forall k :: 0 <= k < |spine| ==> spine[k] == if k < i then s[k] else s[k + 1];
      assert Values(spine) == Values(s)[..i] + Values(s)[i + 1..];
    }

    /** `removeHead`: nothing on an empty list, else unlinks and returns the head's value. */
    method RemoveHead() returns (r: Option<T>)
      requires Valid()
      modifies Repr
      ensures Valid() && Repr <= old(Repr)
      ensures old(Contents()) == [] ==> r == None && spine == old(spine)
      ensures old(Contents()) != [] ==> r == Some(old(Contents())[0])
      ensures old(Contents()) != [] ==> Contents() == old(Contents())[1..] && spine == old(spine)[1..]
      ensures old(Contents()) != [] ==> old(head).next == null
      ensures |old(Contents())| == 1 ==> head == null && tail == null
    {
      var current := head;
      if current == null {
        return None;
      }
      if head.next == null {
        head := null;
        tail := null;
      } else {
        head := current.next;
        current.next := null;
      }
      length := length - 1;
      spine := spine[1..];
      Repr := Repr - {current};
      return Some(current.value);
    }

    /**
     * `removeTail`: nothing on an empty list; else walks from head to the node before
     * the tail, makes it the tail with a null `next`, and returns the old tail's value.
     */
    method RemoveTail() returns (r: Option<T>)
      requires Valid()
      modifies Repr
      ensures Valid() && Repr <= old(Repr)
      ensures old(Contents()) == [] ==> r == None && spine == old(spine)
      ensures old(Contents()) != [] ==> r == Some(old(Contents())[|old(Contents())| - 1])
      ensures old(Contents()) != [] ==>
        Contents() == old(Contents())[..|old(Contents())| - 1] && spine == old(spine)[..|old(spine)| - 1]
      ensures old(Contents()) != [] ==> old(tail).next == null
      ensures |old(Contents())| == 1 ==> head == null && tail == null
    {
      var tailNode := tail;
      if tailNode == null {
        return None;
      }
      if head.next == null {
        NextNullIffLast(0);
        head := null;
        tail := null;
      } else {
        var current := head;
        ghost var i := 0;
        while current.next != tailNode
          invariant 0 <= i < |spine| - 1
          invariant current == spine[i]
          decreases |spine| - i
        {
          current := current.next;
          i := i + 1;
        }
        assert spine[i + 1] == spine[|spine| - 1];
        current.next := null;
        tail := current;
      }
      length := length - 1;
      spine := spine[..|spine| - 1];
      Repr := Repr - {tailNode};
      return Some(tailNode.value);
    }

    /**
     * `first(num)`: fails unless `num > 0` (stricter than the other variants), else
     * the first `min(num, length)` values the iterator yields.
     */
    method First(num: int) returns (r: Result<seq<T>>)
      requires Valid()
      ensures num <= 0 <==> r.Err?
      ensures r.Err? ==> r.error == InvalidArgument
      ensures r.Ok? ==> r.value == Contents()[..Min(num, length)]
    {
      if !(num > 0) {
        return Err(InvalidArgument);
      }
      var current := head;
      var result: seq<T> := [];
      var n := Min(num, length);
      for i := 0 to n
        invariant current == if i < |spine| then spine[i] else null
        invariant result == Contents()[..i]
      {
        result := result + [current.value];
        current := current.next;
      }
      return Ok(result);
    }

    /**
     * `reverse`: nothing on an empty list; otherwise the old head becomes the tail and
     * one walk points every node's `next` at its predecessor.
     */
    method Reverse()
      requires Valid()
      modifies Repr
      ensures Valid() && Repr == old(Repr)
      ensures spine == Reversed(old(spine))
      ensures Contents() == Reversed(old(Contents()))
      ensures length == old(length)
      ensures old(length) > 0 ==> tail == old(head) && head == old(tail)
    {
      ReversedLength(spine);
      if head == null {
        return;
      }
      ghost var S := spine;
      tail := head;
      var last := ReverseWalk(S, head);
      head := last;
      spine := Reversed(S);
      ReversedChain(S);
    }

    /** `clone`: a new list built from `toArray()`; it shares no node with this one. */
    method Clone() returns (c: SinglyList<T>)
      requires Valid()
      ensures fresh(c) && fresh(c.Repr)
      ensures c.Valid() && c.Contents() == Contents()
    {
      var values := ToArray();
      c := new SinglyList(values);
    }
  }
}
