/**
 * The abstract `List` of src/list.ts: the traversals every list variant shares.
 *
 * Its nodes are modelled as the slots of an arena: slot i holds `values[i]` and the
 * index of its successor `next[i]`, with `Nil` (-1) for a null `next`. Arbitrary link
 * tables are allowed, so a chain may run into a cycle; this is the shape `loopLength`
 * is written for. The list itself is the triple `head`/`tail`/`length` of the class.
 */
module ListBase {
  import opened Common

  /** The null link. */
  const Nil: int := -1

  /** What `indexOf` returns when it finds nothing (`INDEX_NOT_FOUND` of src/util.ts). */
  const IndexNotFound: int := -1

  /** Every link of the table is null or names a slot of the table. */
  ghost predicate Closed(next: seq<int>)
  {
    forall i :: 0 <= i < |next| ==> Nil <= next[i] < |next|
  }

  /** The node reached from x after k `next`-hops; null sticks once reached. */
  ghost function Hop(next: seq<int>, x: int, k: nat): (y: int)
    requires Closed(next) && Nil <= x < |next|
    ensures Nil <= y < |next|
    decreases k
  {
    if k == 0 || x == Nil then x else Hop(next, next[x], k - 1)
  }

  lemma {:induction false} HopNil(next: seq<int>, k: nat)
    requires Closed(next)
    ensures Hop(next, Nil, k) == Nil
  {
  }

  /** Hopping a + b times is hopping a times, then b times. */
  lemma {:induction false} HopAdd(next: seq<int>, x: int, a: nat, b: nat)
    requires Closed(next) && Nil <= x < |next|
    ensures Hop(next, x, a + b) == Hop(next, Hop(next, x, a), b)
    decreases a
  {
    if a > 0 && x != Nil {
      HopAdd(next, next[x], a - 1, b);
    } else if x == Nil {
      HopNil(next, a + b);
      HopNil(next, b);
    }
  }

  /** One more hop follows the link of the node reached so far. */
  lemma HopStep(next: seq<int>, x: int, k: nat)
    requires Closed(next) && Nil <= x < |next|
    ensures Hop(next, x, k + 1) == if Hop(next, x, k) == Nil then Nil else next[Hop(next, x, k)]
  {
    HopAdd(next, x, k, 1);
  }

  /** Null sticks: a node reached after n hops was preceded by nodes at every m <= n. */
  lemma HopLiveBefore(next: seq<int>, x: int, m: nat, n: nat)
    requires Closed(next) && Nil <= x < |next|
    requires m <= n && Hop(next, x, n) != Nil
    ensures Hop(next, x, m) != Nil
  {
    HopAdd(next, x, m, n - m);
    HopNil(next, n - m);
  }

  /** The state of a list object: its arena, its `_head`, `_tail` and `_length`. */
  datatype List<T> = List(values: seq<T>, next: seq<int>, head: int, tail: int, length: int)

  ghost predicate WellFormed<T>(l: List<T>)
  {
    && |l.values| == |l.next|
    && Closed(l.next)
    && Nil <= l.head < |l.next|
    && Nil <= l.tail < |l.next|
  }

  /**
   * The list's own invariant: `length` distinct nodes are reached from `head`, the
   * last of them is `tail`, and head, tail and length agree on emptiness. It says
   * nothing about the link out of `tail`.
   */
  ghost predicate Linked<T>(l: List<T>)
  {
    && WellFormed(l)
    && l.length >= 0
    && (l.length == 0 <==> l.head == Nil)
    && (l.head == Nil <==> l.tail == Nil)
    && (forall k :: 0 <= k < l.length ==> Hop(l.next, l.head, k) != Nil)
    && (l.length > 0 ==> Hop(l.next, l.head, l.length - 1) == l.tail)
    && (forall i, j :: 0 <= i < j < l.length ==> Hop(l.next, l.head, i) != Hop(l.next, l.head, j))
  }

  /** A linear list: the tail's `next` is null. */
  ghost predicate Linear<T>(l: List<T>)
  {
    Linked(l) && (l.tail != Nil ==> l.next[l.tail] == Nil)
  }

  /** A closed ring: the tail's `next` is the head. */
  ghost predicate Circular<T>(l: List<T>)
  {
    Linked(l) && (l.tail != Nil ==> l.next[l.tail] == l.head)
  }

  /** The nodes of the list, from head. */
  ghost function Spine<T>(l: List<T>): seq<int>
    requires Linked(l)
  {
    seq(l.length, k requires 0 <= k < l.length => Hop(l.next, l.head, k))
  }

  /** The values of the list, from head: what iteration yields. */
  ghost function Contents<T>(l: List<T>): seq<T>
    requires Linked(l)
  {
    seq(l.length, k requires 0 <= k < l.length => l.values[Hop(l.next, l.head, k)])
  }

  // ---------------------------------------------------------------- construction

  /** The empty list a fresh constructor starts from. */
  function Empty<T>(): List<T>
  {
    List([], [], Nil, Nil, 0)
  }

  /**
   * What the linear variants' `append` does to the list: a new node, linked after the
   * tail (or made head and tail of an empty list), and a longer length.
   */
  function AppendLinear<T>(l: List<T>, x: T): List<T>
    requires WellFormed(l)
  {
    var node := |l.next|;
    if l.tail == Nil then List(l.values + [x], l.next + [Nil], node, node, l.length + 1)
    else List(l.values + [x], l.next[l.tail := node] + [Nil], l.head, node, l.length + 1)
  }

  /** Redirecting the tail's link leaves the hops that stop at the tail as they were. */
  lemma {:induction false} HopsBeforeTailKept<T>(l: List<T>, next': seq<int>, k: nat)
    requires Linked(l) && l.length > 0 && Closed(next') && |next'| >= |l.next|
    requires forall i :: 0 <= i < |l.next| && i != l.tail ==> next'[i] == l.next[i]
    requires k < l.length
    ensures Hop(next', l.head, k) == Hop(l.next, l.head, k)
  {
    if k > 0 {
      HopsBeforeTailKept(l, next', k - 1);
      HopStep(next', l.head, k - 1);
      HopStep(l.next, l.head, k - 1);
    }
  }

  /** Appending keeps the list linear and adds x at the end of its contents. */
  lemma AppendLinearCorrect<T>(l: List<T>, x: T)
    requires Linear(l)
    ensures Linear(AppendLinear(l, x))
    ensures Contents(AppendLinear(l, x)) == Contents(l) + [x]
  {
    var l' := AppendLinear(l, x);
    var node := |l.next|;
    if l.tail == Nil {
      assert Hop(l'.next, l'.head, 0) == node;
    } else {
      assert Closed(l'.next);
      forall k | 0 <= k < l.length
        ensures Hop(l'.next, l.head, k) == Hop(l.next, l.head, k)
      {
        HopsBeforeTailKept(l, l'.next, k);
      }
      HopStep(l'.next, l.head, l.length - 1);
      assert Hop(l'.next, l.head, l.length) == node;
      assert Linked(l');
    }
  }

  /** The constructor: an empty list, then `append` of each value in order. */
  method New<T>(values: seq<T>) returns (l: List<T>)
    ensures Linear(l)
    ensures Contents(l) == values
    ensures l.length == |values|
  {
    l := Empty();
    for i := 0 to |values|
      invariant Linear(l)
      invariant Contents(l) == values[..i]
    {
      AppendLinearCorrect(l, values[i]);
      assert values[..i + 1] == values[..i] + [values[i]];
      l := AppendLinear(l, values[i]);
    }
    assert values[..|values|] == values;
  }

  // ---------------------------------------------------------------- getters

  /** The `head` getter: the head node's value, or null for an empty list. */
  function HeadValue<T>(l: List<T>): (r: Option<T>)
    requires Linked(l)
    ensures r == if Contents(l) == [] then None else Some(Contents(l)[0])
  {
    if l.head == Nil then None else Some(l.values[l.head])
  }

  /** The `tail` getter: the tail node's value, or null for an empty list. */
  function TailValue<T>(l: List<T>): (r: Option<T>)
    requires Linked(l)
    ensures r == if Contents(l) == [] then None else Some(Contents(l)[|Contents(l)| - 1])
  {
    if l.tail == Nil then None else Some(l.values[l.tail])
  }

  /** The `length` getter. */
  function Length<T>(l: List<T>): (r: int)
    requires Linked(l)
    ensures r == |Contents(l)|
  {
    l.length
  }

  /** `isEmpty`: the head is null. */
  function IsEmpty<T>(l: List<T>): (r: bool)
    requires Linked(l)
    ensures r <==> Contents(l) == []
  {
    l.head == Nil
  }

  /** A fresh list has null head and tail values, length 0 and is empty. */
  lemma EmptyIsEmpty<T>()
    ensures Linear(Empty<T>())
    ensures HeadValue(Empty<T>()) == None && TailValue(Empty<T>()) == None
    ensures Length(Empty<T>()) == 0 && IsEmpty(Empty<T>())
  {
  }

  // ---------------------------------------------------------------- traversals

  /**
   * `getNode`: fails unless `length > 0 && 0 <= position < length`, otherwise walks
   * `position` hops from head.
   */
  method GetNode<T>(l: List<T>, position: int) returns (r: Result<int>)
    requires Linked(l)
    ensures r.Ok? <==> l.length > 0 && 0 <= position < l.length
    ensures r.Err? ==> r.error == OutOfRange
    ensures r.Ok? ==> r.value == Spine(l)[position]
  {
    if !(l.length > 0 && position >= 0 && position < l.length) {
      return Err(OutOfRange);
    }
    var current := l.head;
    var count := 0;
    while count < position
      invariant 0 <= count <= position
      invariant current == Hop(l.next, l.head, count)
    {
      HopStep(l.next, l.head, count);
      current := l.next[current];
      count := count + 1;
    }
    return Ok(current);
  }

  /** `get`: the value at `position`, failing as `getNode` does. */
  method Get<T>(l: List<T>, position: int) returns (r: Result<T>)
    requires Linked(l)
    ensures r.Ok? <==> l.length > 0 && 0 <= position < l.length
    ensures r.Err? ==> r.error == OutOfRange
    ensures r.Ok? ==> r.value == Contents(l)[position]
  {
    var node := GetNode(l, position);
    match node
    case Err(e) => r := Err(e);
    case Ok(n) => r := Ok(l.values[n]);
  }

  /**
   * `indexOf`, as written: -1 on an empty list, the index of the first match when
   * there is one (the tail included), and otherwise the loop counter it stops with,
   * `length - 2`, which is -1 only for a one-node list.
   */
  method IndexOf<T(==)>(l: List<T>, val: T) returns (r: int)
    requires Linear(l)
    ensures l.length == 0 ==> r == IndexNotFound
    ensures val in Contents(l) ==> r == FirstIndex(Contents(l), val)
    ensures val !in Contents(l) && l.length > 0 ==> r == l.length - 2
  {
    if l.head == Nil {
      return IndexNotFound;
    }
    var current := l.head;
    var count := -1;
    while l.next[current] != Nil
      invariant -1 <= count < l.length - 1
      invariant current == Hop(l.next, l.head, count + 1)
      invariant forall j :: 0 <= j <= count ==> Contents(l)[j] != val
      decreases l.length - count
    {
      HopStep(l.next, l.head, count + 1);
      count := count + 1;
      if l.values[current] == val {
        assert Contents(l)[count] == val;
        return count;
      }
      current := l.next[current];
    }
    if count + 1 < l.length - 1 {
      HopStep(l.next, l.head, count + 1);
      assert false;
    }
    assert current == l.tail && Contents(l)[count + 1] == l.values[current];
    if current == l.tail && l.values[current] == val {
      count := count + 1;
    }
    return count;
  }

  /**
   * `first`: fails for a negative count, otherwise the first `min(num, length)`
   * values the iterator yields.
   */
  method First<T>(l: List<T>, num: int) returns (r: Result<seq<T>>)
    requires Linked(l)
    ensures num < 0 <==> r.Err?
    ensures r.Err? ==> r.error == InvalidArgument
    ensures r.Ok? ==> r.value == Contents(l)[..Min(num, l.length)]
  {
    if !(num >= 0) {
      return Err(InvalidArgument);
    }
    var result: seq<T> := [];
    var current := l.head;
    var n := Min(num, l.length);
    for i := 0 to n
      invariant current == Hop(l.next, l.head, i)
      invariant result == Contents(l)[..i]
    {
      HopStep(l.next, l.head, i);
      result := result + [l.values[current]];
      current := l.next[current];
    }
    return Ok(result);
  }

  /** `toArray`: iteration from head until a null `next`, one value per node. */
  method ToArray<T>(l: List<T>) returns (r: seq<T>)
    requires Linear(l)
    ensures r == Contents(l)
  {
    r := [];
    var current := l.head;
    ghost var k := 0;
    while current != Nil
      invariant 0 <= k <= l.length
      invariant current == Hop(l.next, l.head, k)
      invariant r == Contents(l)[..k]
      decreases l.length - k
    {
      if k == l.length {
        HopStep(l.next, l.head, k - 1);
        assert false;
      }
      HopStep(l.next, l.head, k);
      r := r + [l.values[current]];
      current := l.next[current];
      k := k + 1;
    }
    if k < l.length {
      assert false;
    }
  }

  // ---------------------------------------------------------------- loopLength

  /** The chain from x ends: some hop from x is null. */
  ghost predicate ReachesNil(next: seq<int>, x: int)
    requires Closed(next) && Nil <= x < |next|
  {
    exists k: nat :: Hop(next, x, k) == Nil
  }

  /** y lies on a cycle of exactly r nodes: r hops lead back to y, and no fewer do. */
  ghost predicate Period(next: seq<int>, y: int, r: int)
    requires Closed(next) && Nil <= y < |next|
  {
    && y != Nil
    && r >= 1
    && Hop(next, y, r) == y
    && forall s :: 1 <= s < r ==> Hop(next, y, s) != y
  }

  /** The chain from x runs into a cycle of r nodes. */
  ghost predicate IsCycleLength(next: seq<int>, x: int, r: int)
    requires Closed(next) && Nil <= x < |next|
  {
    exists k: nat :: Period(next, Hop(next, x, k), r)
  }

  /** What `loopLength` promises: 0 for a chain that ends, else the length of its cycle. */
  ghost predicate LoopLengthSpec(next: seq<int>, x: int, r: int)
    requires Closed(next) && Nil <= x < |next|
  {
    && (r == 0 <==> ReachesNil(next, x))
    && (r != 0 ==> IsCycleLength(next, x, r))
  }

  /** Pigeonhole: distinct numbers drawn from [0, n) are at most n. */
  lemma {:induction false} DistinctBounded(s: seq<int>, n: nat)
    requires forall k :: 0 <= k < |s| ==> 0 <= s[k] < n
    requires forall a, b :: 0 <= a < b < |s| ==> s[a] != s[b]
    ensures |s| <= n
    decreases n
  {
    if |s| == 0 {
      return;
    }
    assert 0 <= s[0] < n;
    if j :| 0 <= j < |s| && s[j] == n - 1 {
      var t := s[..j] + s[j + 1..];
      assert forall k :: 0 <= k < |t| ==> t[k] == if k < j then s[k] else s[k + 1];
      forall k | 0 <= k < |t|
        ensures 0 <= t[k] < n - 1
      {
        if k < j {
          assert s[k] != s[j];
        } else {
          assert s[j] != s[k + 1];
        }
      }
      DistinctBounded(t, n - 1);
    } else {
      DistinctBounded(s, n - 1);
    }
  }

  /** If hops i and i + p meet, hop b + p equals hop b from i on. */
  lemma PeriodShift(next: seq<int>, x: int, i: nat, p: nat, b: nat)
    requires Closed(next) && Nil <= x < |next|
    requires Hop(next, x, i) == Hop(next, x, i + p) && i <= b
    ensures Hop(next, x, b + p) == Hop(next, x, b)
  {
    HopAdd(next, x, i + p, b - i);
    HopAdd(next, x, i, b - i);
  }

  /** ... and so does hop a + c * p. */
  lemma {:induction false} PeriodicMultiple(next: seq<int>, x: int, i: nat, p: nat, a: nat, c: nat)
    requires Closed(next) && Nil <= x < |next|
    requires Hop(next, x, i) == Hop(next, x, i + p) && i <= a
    ensures Hop(next, x, a + c * p) == Hop(next, x, a)
    decreases c
  {
    if c > 0 {
      PeriodicMultiple(next, x, i, p, a, c - 1);
      var b := a + (c - 1) * p;
      assert a + c * p == b + p;
      PeriodShift(next, x, i, p, b);
    }
  }

  /** Two hops that meet before any null make the chain endless. */
  lemma NeverNil(next: seq<int>, x: int, a: nat, b: nat)
    requires Closed(next) && Nil <= x < |next|
    requires a < b && Hop(next, x, a) == Hop(next, x, b) && Hop(next, x, b) != Nil
    ensures forall m: nat :: Hop(next, x, m) != Nil
    ensures !ReachesNil(next, x)
  {
    forall m: nat
      ensures Hop(next, x, m) != Nil
    {
      NeverNilAt(next, x, a, b, m);
    }
  }

  lemma {:induction false} NeverNilAt(next: seq<int>, x: int, a: nat, b: nat, m: nat)
    requires Closed(next) && Nil <= x < |next|
    requires a < b && Hop(next, x, a) == Hop(next, x, b) && Hop(next, x, b) != Nil
    ensures Hop(next, x, m) != Nil
    decreases m
  {
    if m <= b {
      HopLiveBefore(next, x, m, b);
    } else {
      PeriodShift(next, x, a, b - a, m - (b - a));
      NeverNilAt(next, x, a, b, m - (b - a));
    }
  }

  /** Some multiple of p lies in (i, i + p]. */
  lemma {:induction false} MultipleAbove(i: nat, p: nat) returns (c: nat)
    requires p >= 1
    ensures i < c * p <= i + p
    decreases i
  {
    if i < p {
      c := 1;
    } else {
      var c' := MultipleAbove(i - p, p);
      c := c' + 1;
      assert c * p == c' * p + p;
    }
  }

  /** On an endless chain the slow and the fast pointer meet within |next| steps. */
  lemma FloydMeet(next: seq<int>, x: int) returns (m: nat)
    requires Closed(next) && 0 <= x < |next|
    requires forall k :: 0 <= k <= |next| ==> Hop(next, x, k) != Nil
    ensures 1 <= m <= |next| && Hop(next, x, m) == Hop(next, x, 2 * m)
  {
    var n := |next|;
    var s := seq(n + 1, k requires 0 <= k <= n => Hop(next, x, k));
    if forall a, b :: 0 <= a < b < |s| ==> s[a] != s[b] {
      DistinctBounded(s, n);
      assert false;
    }
    var i, j :| 0 <= i < j < |s| && s[i] == s[j];
    var p := j - i;
    var c := MultipleAbove(i, p);
    m := c * p;
    PeriodicMultiple(next, x, i, p, m, c);
    assert m + c * p == 2 * m;
  }

  /** While the pointers have not met, the slow one has taken fewer than |next| steps. */
  lemma FloydBound(next: seq<int>, x: int, t: nat)
    requires Closed(next) && 0 <= x < |next|
    requires Hop(next, x, 2 * t) != Nil
    requires forall s :: 1 <= s <= t ==> Hop(next, x, s) != Hop(next, x, 2 * s)
    ensures t < |next|
  {
    if 2 * t >= |next| {
      forall k | 0 <= k <= |next|
        ensures Hop(next, x, k) != Nil
      {
        HopLiveBefore(next, x, k, 2 * t);
      }
      var m := FloydMeet(next, x);
    }
  }

  /**
   * `loopLength`: Floyd's tortoise and hare. The slow pointer takes one hop and the
   * fast one two per round until the fast one runs out of links (no cycle: 0) or the
   * two meet; then the hops from the meeting point back to itself are counted.
   */
  method LoopLength<T>(l: List<T>) returns (r: int)
    requires WellFormed(l)
    ensures LoopLengthSpec(l.next, l.head, r)
  {
    var isLoop := false;
    var loopLength := 1;
    if l.head == Nil {
      assert Hop(l.next, l.head, 0) == Nil;
      return 0;
    }
    var next := l.next;
    var p1 := l.head;
    var p2 := l.head;
    ghost var t: nat := 0;
    while next[p2] != Nil && next[next[p2]] != Nil
      invariant !isLoop
      invariant t < |next|
      invariant p1 == Hop(next, l.head, t) && p2 == Hop(next, l.head, 2 * t)
      invariant p1 != Nil && p2 != Nil
      invariant forall s :: 1 <= s <= t ==> Hop(next, l.head, s) != Hop(next, l.head, 2 * s)
      decreases |next| - t
    {
      HopStep(next, l.head, 2 * t);
      HopStep(next, l.head, 2 * t + 1);
      HopStep(next, l.head, t);
      p2 := next[next[p2]];
      p1 := next[p1];
      t := t + 1;
      HopLiveBefore(next, l.head, t, 2 * t);
      if p1 == p2 {
        isLoop := true;
        break;
      }
      FloydBound(next, l.head, t);
    }
    if isLoop {
      ghost var y := p1;
      HopAdd(next, l.head, t, t);
      NeverNil(next, l.head, t, 2 * t);
      HopStep(next, y, 0);
      p2 := next[p2];
      while p1 != p2
        invariant 1 <= loopLength <= t
        invariant p2 == Hop(next, y, loopLength)
        invariant forall s :: 1 <= s < loopLength ==> Hop(next, y, s) != y
        decreases t - loopLength
      {
        HopLiveBefore(next, y, loopLength, t);
        HopStep(next, y, loopLength);
        loopLength := loopLength + 1;
        p2 := next[p2];
      }
      assert Period(next, Hop(next, l.head, t), loopLength);
      return loopLength;
    } else {
      HopStep(next, l.head, 2 * t);
      HopStep(next, l.head, 2 * t + 1);
      return 0;
    }
  }

  /** From a node of a cycle of r nodes, every node d hops on leads back to it. */
  lemma {:induction false} BackTo(next: seq<int>, y: int, r: int, d: nat) returns (e: nat)
    requires Closed(next) && Nil <= y < |next|
    requires Period(next, y, r)
    ensures Hop(next, y, d) != Nil
    ensures Hop(next, Hop(next, y, d), e) == y
    decreases d
  {
    NeverNil(next, y, 0, r);
    if d == 0 {
      e := 0;
    } else {
      var e' := BackTo(next, y, r, d - 1);
      HopStep(next, y, d - 1);
      if e' >= 1 {
        e := e' - 1;
      } else {
        e := r - 1;
        assert Hop(next, y, r) == Hop(next, next[y], r - 1);
      }
    }
  }

  /** Every node reachable from a node of a cycle of r nodes lies on a cycle of r nodes. */
  lemma PeriodMoves(next: seq<int>, y: int, r: int, d: nat)
    requires Closed(next) && Nil <= y < |next|
    requires Period(next, y, r)
    ensures Period(next, Hop(next, y, d), r)
  {
    var z := Hop(next, y, d);
    var e := BackTo(next, y, r, d);
    HopAdd(next, y, d, r);
    HopAdd(next, y, r, d);
    forall s | 1 <= s < r
      ensures Hop(next, z, s) != z
    {
      HopAdd(next, z, e, s);
      HopAdd(next, z, s, e);
    }
  }

  /** The cycle a chain runs into has one length, whichever of its nodes is measured. */
  lemma CycleLengthUnique(next: seq<int>, x: int, r1: int, r2: int)
    requires Closed(next) && Nil <= x < |next|
    requires IsCycleLength(next, x, r1) && IsCycleLength(next, x, r2)
    ensures r1 == r2
  {
    var k1: nat :| Period(next, Hop(next, x, k1), r1);
    var k2: nat :| Period(next, Hop(next, x, k2), r2);
    if k1 <= k2 {
      HopAdd(next, x, k1, k2 - k1);
      PeriodMoves(next, Hop(next, x, k1), r1, k2 - k1);
    } else {
      HopAdd(next, x, k2, k1 - k2);
      PeriodMoves(next, Hop(next, x, k2), r2, k1 - k2);
    }
  }

  /** On a linear list `loopLength` is 0. */
  lemma LoopLengthOfLinear<T>(l: List<T>, r: int)
    requires Linear(l) && LoopLengthSpec(l.next, l.head, r)
    ensures r == 0
  {
    if l.head == Nil {
      assert Hop(l.next, l.head, 0) == Nil;
    } else {
      HopStep(l.next, l.head, l.length - 1);
      assert Hop(l.next, l.head, l.length) == Nil;
    }
  }

  /** On a closed ring (tail.next == head) `loopLength` is the length, 0 when empty. */
  lemma LoopLengthOfCircular<T>(l: List<T>, r: int)
    requires Circular(l) && LoopLengthSpec(l.next, l.head, r)
    ensures r == l.length
  {
    if l.head == Nil {
      assert Hop(l.next, l.head, 0) == Nil;
    } else {
      HopStep(l.next, l.head, l.length - 1);
      assert Hop(l.next, l.head, 0) == l.head;
      assert Period(l.next, Hop(l.next, l.head, 0), l.length);
      NeverNil(l.next, l.head, 0, l.length);
      CycleLengthUnique(l.next, l.head, r, l.length);
    }
  }

  /** The ring of n slots with next[i] = (i + 1) mod n: each slot links to the next, the last to 0. */
  function RingNext(n: nat): seq<int>
  {
    seq(n, i requires 0 <= i < n => if i + 1 < n then i + 1 else 0)
  }

  /** A list whose nodes form the ring RingNext(|values|), starting at slot 0. */
  function Ring<T>(values: seq<T>): List<T>
  {
    var n := |values|;
    List(values, RingNext(n), if n == 0 then Nil else 0, n - 1, n)
  }

  lemma {:induction false} RingHop(n: nat, k: nat)
    requires k < n
    ensures Closed(RingNext(n))
    ensures Hop(RingNext(n), 0, k) == k
  {
    if k > 0 {
      RingHop(n, k - 1);
      HopStep(RingNext(n), 0, k - 1);
    }
  }

  /** A ring is a closed circular list. */
  lemma RingIsCircular<T>(values: seq<T>)
    ensures Circular(Ring(values))
  {
    var n := |values|;
    if n > 0 {
      forall k | 0 <= k < n
        ensures Hop(RingNext(n), 0, k) == k
      {
        RingHop(n, k);
      }
    }
  }

  /** `loopLength` of a ring of n nodes is n; a single self-looping node gives 1. */
  lemma LoopLengthOfRing<T>(values: seq<T>, r: int)
    requires Closed(Ring(values).next) && Nil <= Ring(values).head < |Ring(values).next|
    requires LoopLengthSpec(Ring(values).next, Ring(values).head, r)
    ensures r == |values|
  {
    RingIsCircular(values);
    LoopLengthOfCircular(Ring(values), r);
  }
}
