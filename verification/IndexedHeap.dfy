/** The binary heap of pqueue/pqueue.c.

    Elements are numbers; the priority and the stored position that the C code reaches through
    the `getpri`/`setpri`/`getpos`/`setpos` callbacks are the arrays `pri` and `pos`, indexed by
    element.  `cmppri(next, curr)` is `next > curr`, as conv_ftl.c instantiates it, so the root
    has the least priority.  Index 0 of `d` is unused and `size` is one more than the number of
    elements, as in the original. */
module IndexedHeap {
  import opened Options

  // ---------- the heap as values ----------

  ghost function PriOf(pri: seq<int>, e: nat): int {
    if e < |pri| then pri[e] else 0
  }

  /** Every node below index `size` is no smaller than its parent, except possibly at index `hole`
      (`hole == 0` excuses nothing). */
  ghost predicate OrderedAbove(d: seq<nat>, size: nat, pri: seq<int>, hole: nat)
    requires size <= |d|
  {
    forall j :: 2 <= j < size && j != hole ==> PriOf(pri, d[j / 2]) <= PriOf(pri, d[j])
  }

  /** The same, but the children of `hole` are excused instead. */
  ghost predicate OrderedBelow(d: seq<nat>, size: nat, pri: seq<int>, hole: nat)
    requires size <= |d|
  {
    forall j :: 2 <= j < size && j / 2 != hole ==> PriOf(pri, d[j / 2]) <= PriOf(pri, d[j])
  }

  /** The children of `hole` are no smaller than its parent. */
  ghost predicate Bridged(d: seq<nat>, size: nat, pri: seq<int>, hole: nat)
    requires size <= |d|
  {
    forall j :: 4 <= j < size && j / 2 == hole ==> PriOf(pri, d[j / 2 / 2]) <= PriOf(pri, d[j])
  }

  /** The element at every index below `size`, except at `hole`, knows its index. */
  ghost predicate Linked(d: seq<nat>, size: nat, pos: seq<nat>, hole: nat)
    requires size <= |d|
  {
    forall k :: 1 <= k < size && k != hole ==> d[k] < |pos| && pos[d[k]] == k
  }

  /** The element at `hole` occurs at no other index of the heap. */
  ghost predicate Lone(d: seq<nat>, size: nat, hole: nat)
    requires size <= |d| && hole < |d|
  {
    forall k :: 1 <= k < size && k != hole ==> d[k] != d[hole]
  }

  ghost predicate HeapOrdered(d: seq<nat>, size: nat, pri: seq<int>)
    requires size <= |d|
  {
    OrderedAbove(d, size, pri, 0)
  }

  ghost function ElementSet(d: seq<nat>, size: nat): set<nat>
    requires 1 <= size <= |d|
  {
    set e | e in d[1..size]
  }

  /** The root of an ordered heap is minimal. */
  lemma {:induction false} RootIsLeast(d: seq<nat>, size: nat, pri: seq<int>, k: nat)
    requires 1 <= k < size <= |d| && HeapOrdered(d, size, pri)
    ensures PriOf(pri, d[1]) <= PriOf(pri, d[k])
  {
    if k > 1 {
      RootIsLeast(d, size, pri, k / 2);
    }
  }

  /** Distinct positions make distinct elements: the heap holds exactly `size - 1` of them. */
  lemma {:induction false} ElementCount(d: seq<nat>, size: nat, pos: seq<nat>)
    requires 1 <= size <= |d| && Linked(d, size, pos, 0)
    ensures |ElementSet(d, size)| == size - 1
  {
    if size > 1 {
      ElementCount(d, size - 1, pos);
      assert d[1..size] == d[1..size - 1] + [d[size - 1]];
      assert d[size - 1] !in d[1..size - 1];
      assert ElementSet(d, size) == ElementSet(d, size - 1) + {d[size - 1]};
    } else {
      assert ElementSet(d, size) == {};
    }
  }

  /** Exchanging two entries keeps the elements. */
  lemma SwapKeepsElements(d: seq<nat>, size: nat, i: nat, j: nat)
    requires 1 <= i < size <= |d| && 1 <= j < size
    ensures ElementSet(d[i := d[j]][j := d[i]], size) == ElementSet(d, size)
  {
    var e := d[i := d[j]][j := d[i]];
    assert forall k :: 1 <= k < size ==> d[k] == e[if k == i then j else if k == j then i else k];
    forall x ensures x in d[1..size] <==> x in e[1..size] {
      if x in d[1..size] {
        var k :| 1 <= k < size && d[k] == x;
        assert e[if k == i then j else if k == j then i else k] in e[1..size];
      }
      if x in e[1..size] {
        var k :| 1 <= k < size && e[k] == x;
        assert d[if k == i then j else if k == j then i else k] in d[1..size];
      }
    }
  }

  // ---------- pqueue_is_valid ----------

  /** subtree_is_valid */
  predicate SubtreeIsValid(d: seq<nat>, size: nat, pri: seq<int>, p: nat)
    requires 1 <= p && size <= |d| && forall k :: 1 <= k < size ==> d[k] < |pri|
    requires p < size || size == 1
    decreases size - p
  {
    && (2 * p < size ==> !(pri[d[p]] > pri[d[2 * p]]) && SubtreeIsValid(d, size, pri, 2 * p))
    && (2 * p + 1 < size ==> !(pri[d[p]] > pri[d[2 * p + 1]]) && SubtreeIsValid(d, size, pri, 2 * p + 1))
  }

  /** `j` lies in the subtree rooted at `p`. */
  ghost predicate InSubtree(p: nat, j: nat)
    requires 1 <= p
    decreases j
  {
    j == p || (j > p && InSubtree(p, j / 2))
  }

  lemma {:induction false} EverythingBelowRoot(j: nat)
    requires 1 <= j
    ensures InSubtree(1, j)
  {
    if j > 1 {
      EverythingBelowRoot(j / 2);
    }
  }

  /** A strict descendant lies below one of the two children. */
  lemma {:induction false} DescendantViaChild(p: nat, j: nat)
    requires 1 <= p < j && InSubtree(p, j)
    ensures InSubtree(2 * p, j) || InSubtree(2 * p + 1, j)
  {
    if j / 2 != p {
      DescendantViaChild(p, j / 2);
    }
  }

  lemma {:induction false} ChildInSubtree(p: nat, j: nat)
    requires 1 <= p && (InSubtree(2 * p, j) || InSubtree(2 * p + 1, j))
    ensures InSubtree(p, j)
    decreases j
  {
    if j > 2 * p + 1 {
      ChildInSubtree(p, j / 2);
    }
  }

  /** subtree_is_valid decides heap order below `p`. */
  lemma {:induction false} SubtreeIsValidMeaning(d: seq<nat>, size: nat, pri: seq<int>, p: nat)
    requires 1 <= p && size <= |d| && forall k :: 1 <= k < size ==> d[k] < |pri|
    requires p < size || size == 1
    ensures SubtreeIsValid(d, size, pri, p) <==>
            forall j :: p < j < size && InSubtree(p, j) ==> pri[d[j / 2]] <= pri[d[j]]
    decreases size - p
  {
    if 2 * p < size {
      SubtreeIsValidMeaning(d, size, pri, 2 * p);
      assert p < 2 * p && InSubtree(p, 2 * p);
    }
    if 2 * p + 1 < size {
      SubtreeIsValidMeaning(d, size, pri, 2 * p + 1);
      assert p < 2 * p + 1 && InSubtree(p, 2 * p + 1);
    }
    forall j | p < j < size && InSubtree(p, j)
      ensures j == 2 * p || j == 2 * p + 1
           || (2 * p < j && InSubtree(2 * p, j)) || (2 * p + 1 < j && InSubtree(2 * p + 1, j))
    {
      DescendantViaChild(p, j);
    }
    forall j | InSubtree(2 * p, j) || InSubtree(2 * p + 1, j)
      ensures InSubtree(p, j)
    {
      ChildInSubtree(p, j);
    }
    assert 2 * p < size ==> InSubtree(2 * p, 2 * p);
    assert 2 * p + 1 < size ==> InSubtree(2 * p + 1, 2 * p + 1);
  }

  /** pqueue_is_valid accepts exactly the ordered heaps. */
  lemma IsValidMeaning(d: seq<nat>, size: nat, pri: seq<int>)
    requires 1 <= size <= |d| && forall k :: 1 <= k < size ==> d[k] < |pri|
    ensures SubtreeIsValid(d, size, pri, 1) <==> HeapOrdered(d, size, pri)
  {
    SubtreeIsValidMeaning(d, size, pri, 1);
    forall j | 1 <= j ensures InSubtree(1, j) {
      EverythingBelowRoot(j);
    }
    if SubtreeIsValid(d, size, pri, 1) {
      forall j | 2 <= j < size
        ensures PriOf(pri, d[j / 2]) <= PriOf(pri, d[j])
      {
        assert InSubtree(1, j);
      }
    } else {
      var j :| 1 < j < size && InSubtree(1, j) && pri[d[j / 2]] > pri[d[j]];
      assert PriOf(pri, d[j / 2]) > PriOf(pri, d[j]);
    }
  }

  // ---------- the heap in place ----------

  class PriorityQueue {
    const d: array<nat>
    var size: nat
    const pri: array<int>
    const pos: array<nat>

    /** Everything but order, position links and presence of an element at `hole`. */
    ghost predicate Shape()
      reads this, d, pri, pos
    {
      && d != pos
      && pri.Length == pos.Length
      && 1 <= size <= d.Length
      && (forall k :: 1 <= k < size ==> d[k] < pri.Length)
    }

    ghost predicate Valid()
      reads this, d, pri, pos
      ensures Valid() ==> 1 <= size <= d.Length && pri.Length == pos.Length
    {
      && Shape()
      && HeapOrdered(d[..], size, pri[..])
      && Linked(d[..], size, pos[..], 0)
    }

    ghost function Elements(): set<nat>
      reads this, d
    {
      if 1 <= size <= d.Length then ElementSet(d[..], size) else {}
    }

    /** A queued element has a non-zero position. */
    lemma Queued(e: nat)
      requires Valid() && e in Elements()
      ensures e < pri.Length && 1 <= pos[e] < size
    {
      ElementIsAtItsPosition(d[..], size, pos[..], e);
    }

    /** `size` counts the elements. */
    lemma SizeCounts()
      requires Valid()
      ensures |Elements()| == size - 1
    {
      ElementCount(d[..], size, pos[..]);
    }

    /** pqueue_init: room for `n` elements out of `universe`, none of them queued. */
    constructor (n: nat, universe: nat)
      ensures Valid() && fresh(d) && fresh(pri) && fresh(pos)
      ensures d.Length == n + 1 && pri.Length == universe && Elements() == {}
      ensures forall e :: 0 <= e < universe ==> pri[e] == 0 && pos[e] == 0
    {
      d := new nat[n + 1];
      pri := new int[universe](_ => 0);
      pos := new nat[universe](_ => 0);
      size := 1;
    }

    /** bubble_up */
    method BubbleUp(start: nat)
      requires Shape() && 1 <= start < size
      requires OrderedAbove(d[..], size, pri[..], start) && Bridged(d[..], size, pri[..], start)
      requires Linked(d[..], size, pos[..], start) && Lone(d[..], size, start)
      modifies d, pos
      ensures Valid() && Elements() == old(Elements())
      ensures forall e :: 0 <= e < pos.Length && e !in Elements() ==> pos[e] == old(pos[e])
    {
      hide ElementSet, OrderedAbove, Bridged, Linked, Lone;
      var i: nat := start;
      var movingNode := d[i];
      var parentNode: nat := i / 2;
      ghost var v := d[..];
      while i > 1 && pri[d[parentNode]] > pri[movingNode]
        invariant Shape() && 1 <= i < size && parentNode == i / 2
        invariant movingNode < pri.Length
        invariant v == d[..][i := movingNode]
        invariant OrderedAbove(v, size, pri[..], i) && Bridged(v, size, pri[..], i)
        invariant Linked(v, size, pos[..], i) && Lone(v, size, i)
        invariant ElementSet(v, size) == old(Elements())
        invariant forall e :: 0 <= e < pos.Length && e !in old(Elements()) ==> pos[e] == old(pos[e])
      {
        EntryIsElement(v, size, parentNode);
        SwapKeepsElements(v, size, i, parentNode);
        BubbleStep(v, size, pri[..], pos[..], i);
        ghost var p0 := pos[..];
        d[i] := d[parentNode];
        pos[d[i]] := i;
        assert pos[..] == p0[v[parentNode] := i];
        v := v[i := v[parentNode]][parentNode := v[i]];
        assert v == d[..][parentNode := movingNode];
        i := parentNode;
        parentNode := i / 2;
      }
      EntryIsElement(v, size, i);
      BubbleDone(v, size, pri[..], pos[..], i);
      ghost var p0 := pos[..];
      d[i] := movingNode;
      pos[movingNode] := i;
      assert d[..] == v && pos[..] == p0[v[i] := i];
    }

    /** maxchild: the child of least priority, or 0 for a leaf. */
    method MaxChild(i: nat) returns (child: nat)
      requires Shape() && 1 <= i
      ensures child == 0 <==> 2 * i >= size
      ensures child != 0 ==> child < size && child / 2 == i
      ensures child != 0 ==> forall j :: 2 <= j < size && j / 2 == i ==> pri[d[child]] <= pri[d[j]]
    {
      child := 2 * i;
      if child >= size {
        return 0;
      }
      if child + 1 < size && pri[d[child]] > pri[d[child + 1]] {
        child := child + 1;
      }
    }

    /** percolate_down.  `start` may be the slot just past the heap, as when the last element is
        removed; then only that element's stored position is rewritten. */
    method PercolateDown(start: nat)
      requires Shape() && 1 <= start < d.Length && d[start] < pri.Length
      requires OrderedBelow(d[..], size, pri[..], start) && Bridged(d[..], size, pri[..], start)
      requires Linked(d[..], size, pos[..], start) && Lone(d[..], size, start)
      modifies d, pos
      ensures Valid() && Elements() == old(Elements())
      ensures forall e :: 0 <= e < pos.Length && e !in Elements() && e != old(d[start]) ==> pos[e] == old(pos[e])
    {
      hide ElementSet, OrderedBelow, OrderedAbove, Bridged, Linked, Lone;
      var i: nat := start;
      var movingNode := d[i];
      ghost var v := d[..];
      var child := MaxChild(i);
      while child != 0 && pri[movingNode] > pri[d[child]]
        invariant Shape() && 1 <= i < d.Length && movingNode < pri.Length
        invariant v == d[..][i := movingNode]
        invariant child == 0 <==> 2 * i >= size
        invariant child != 0 ==> i < child < size && child / 2 == i
        invariant child != 0 ==> forall j :: 2 <= j < size && j / 2 == i ==> pri[d[child]] <= pri[d[j]]
        invariant OrderedBelow(v, size, pri[..], i) && Bridged(v, size, pri[..], i)
        invariant Linked(v, size, pos[..], i) && Lone(v, size, i)
        invariant ElementSet(v, size) == old(Elements())
        invariant i != start ==> movingNode in old(Elements())
        invariant forall e :: 0 <= e < pos.Length && e !in old(Elements()) ==> pos[e] == old(pos[e])
        decreases size - i
      {
        EntryIsElement(v, size, child);
        EntryIsElement(v, size, i);
        SwapKeepsElements(v, size, i, child);
        PercolateStep(v, size, pri[..], pos[..], i, child);
        ghost var p0 := pos[..];
        d[i] := d[child];
        pos[d[i]] := i;
        assert pos[..] == p0[v[child] := i];
        v := v[i := v[child]][child := v[i]];
        assert v == d[..][child := movingNode];
        i := child;
        child := MaxChild(i);
      }
      PercolateDone(v, size, pri[..], pos[..], i);
      ghost var p0 := pos[..];
      d[i] := movingNode;
      pos[movingNode] := i;
      assert d[..] == v && pos[..] == p0[v[i] := i];
    }

    /** pqueue_insert of an element that is not queued.  The original reports a full array and then
        writes behind its end; that is `ok == false` here. */
    method Insert(x: nat) returns (ok: bool)
      requires Valid() && x < pri.Length && x !in Elements()
      modifies this, d, pos
      ensures ok <==> old(size) < d.Length
      ensures Valid() && Elements() == (if ok then old(Elements()) + {x} else old(Elements()))
      ensures size == if ok then old(size) + 1 else old(size)
      ensures forall e :: 0 <= e < pos.Length && e !in Elements() ==> pos[e] == old(pos[e])
    {
      hide ElementSet, OrderedAbove, Bridged, Linked, Lone;
      ok := size < d.Length;
      if !ok {
        return;
      }
      InsertReady(d[..], size, pri[..], pos[..], x);
      ghost var d0 := d[..];
      var i := size;
      size := size + 1;
      d[i] := x;
      assert d[..] == d0[i := x];
      BubbleUp(i);
    }

    /** pqueue_change_priority of a queued element. */
    method ChangePriority(newPri: int, x: nat)
      requires Valid() && x in Elements()
      modifies d, pos, pri
      ensures Valid() && Elements() == old(Elements())
      ensures pri[..] == old(pri[..])[x := newPri]
      ensures forall e :: 0 <= e < pos.Length && e !in Elements() ==> pos[e] == old(pos[e])
    {
      hide ElementSet, OrderedAbove, OrderedBelow, Bridged, Linked, Lone;
      ElementIsAtItsPosition(d[..], size, pos[..], x);
      ghost var pri0 := pri[..];
      var oldPri := pri[x];
      pri[x] := newPri;
      assert pri[..] == pri0[x := newPri];
      var posn := pos[x];
      ChangeReady(d[..], size, pri0, pos[..], posn, newPri);
      if oldPri > newPri {
        BubbleUp(posn);
      } else {
        PercolateDown(posn);
      }
    }

    /** setpri of an element outside the heap. */
    method SetPri(x: nat, newPri: int)
      requires Valid() && x < pri.Length && x !in Elements()
      modifies pri
      ensures Valid() && pri[..] == old(pri[..])[x := newPri]
    {
      hide ElementSet, OrderedAbove, Linked;
      OutsiderPriority(d[..], size, pri[..], x, newPri);
      ghost var pri0 := pri[..];
      pri[x] := newPri;
      assert pri[..] == pri0[x := newPri];
    }

    /** setpos of an element outside the heap. */
    method SetPos(x: nat, newPos: nat)
      requires Valid() && x < pos.Length && x !in Elements()
      modifies pos
      ensures Valid() && pos[..] == old(pos[..])[x := newPos]
    {
      hide ElementSet, OrderedAbove, Linked;
      OutsiderPosition(d[..], size, pos[..], x, newPos);
      ghost var pos0 := pos[..];
      pos[x] := newPos;
      assert pos[..] == pos0[x := newPos];
    }

    /** pqueue_remove of a queued element. */
    method Remove(x: nat)
      requires Valid() && x in Elements()
      modifies this, d, pos
      ensures Valid() && Elements() == old(Elements()) - {x} && size == old(size) - 1
      ensures forall e :: 0 <= e < pos.Length && e !in old(Elements()) ==> pos[e] == old(pos[e])
    {
      hide ElementSet, OrderedAbove, OrderedBelow, Bridged, Linked, Lone;
      ElementIsAtItsPosition(d[..], size, pos[..], x);
      var posn := pos[x];
      RemoveReady(d[..], size, pri[..], pos[..], posn);
      EntryIsElement(d[..], size, size - 1);
      ghost var d0 := d[..];
      size := size - 1;
      d[posn] := d[size];
      assert d[..] == d0[posn := d0[size]];
      if pri[x] > pri[d[posn]] {
        BubbleUp(posn);
      } else {
        PercolateDown(posn);
      }
    }

    /** pqueue_peek: an element of least priority, if there is one. */
    method Peek() returns (head: Option<nat>)
      requires Valid()
      ensures head.None? <==> Elements() == {}
      ensures head.Some? ==> head.value in Elements() && forall e :: e in Elements() ==> pri[head.value] <= pri[e]
      ensures head.Some? ==> size > 1 && head.value == d[1]
    {
      if size == 1 {
        return None;
      }
      head := Some(d[1]);
      EntryIsElement(d[..], size, 1);
      forall e | e in Elements() ensures pri[d[1]] <= pri[e] {
        var k :| 1 <= k < size && d[k] == e;
        RootIsLeast(d[..], size, pri[..], k);
      }
    }

    /** pqueue_pop: takes out an element of least priority.  Its stored position is left stale. */
    method Pop() returns (head: Option<nat>)
      requires Valid()
      modifies this, d, pos
      ensures Valid()
      ensures head.None? <==> old(Elements()) == {}
      ensures head.None? ==> Elements() == {} && size == old(size)
      ensures head.Some? ==> head.value in old(Elements()) && Elements() == old(Elements()) - {head.value}
      ensures head.Some? ==> size == old(size) - 1 && head.value == old(d[1])
      ensures head.Some? ==> forall e :: e in old(Elements()) ==> pri[head.value] <= pri[e]
      ensures forall e :: 0 <= e < pos.Length && e !in old(Elements()) ==> pos[e] == old(pos[e])
    {
      hide ElementSet, OrderedAbove, OrderedBelow, Bridged, Linked, Lone;
      head := Peek();
      if head.Some? {
        RemoveReady(d[..], size, pri[..], pos[..], 1);
        EntryIsElement(d[..], size, size - 1);
        ghost var d0 := d[..];
        size := size - 1;
        d[1] := d[size];
        assert d[..] == d0[1 := d0[size]];
        PercolateDown(1);
      }
    }
  }

  lemma EntryIsElement(d: seq<nat>, size: nat, i: nat)
    requires 1 <= i < size <= |d|
    ensures d[i] in ElementSet(d, size)
  {
    assert d[i] in d[1..size];
  }

  /** One turn of bubble_up: the parent comes down into the hole and learns its new index. */
  lemma BubbleStep(v: seq<nat>, size: nat, pri: seq<int>, pos: seq<nat>, i: nat)
    requires 1 < i < size <= |v| && v[i / 2] < |pos|
    requires OrderedAbove(v, size, pri, i) && Bridged(v, size, pri, i)
    requires Linked(v, size, pos, i) && Lone(v, size, i)
    requires PriOf(pri, v[i / 2]) > PriOf(pri, v[i])
    ensures var w := v[i := v[i / 2]][i / 2 := v[i]];
            && OrderedAbove(w, size, pri, i / 2) && Bridged(w, size, pri, i / 2)
            && Linked(w, size, pos[v[i / 2] := i], i / 2) && Lone(w, size, i / 2)
  {
  }

  /** The end of bubble_up: the moving node lands in the hole. */
  lemma BubbleDone(v: seq<nat>, size: nat, pri: seq<int>, pos: seq<nat>, i: nat)
    requires 1 <= i < size <= |v| && v[i] < |pos|
    requires OrderedAbove(v, size, pri, i) && Linked(v, size, pos, i) && Lone(v, size, i)
    requires i > 1 ==> PriOf(pri, v[i / 2]) <= PriOf(pri, v[i])
    ensures HeapOrdered(v, size, pri) && Linked(v, size, pos[v[i] := i], 0)
  {
  }

  /** One turn of percolate_down: the lesser child comes up into the hole. */
  lemma PercolateStep(v: seq<nat>, size: nat, pri: seq<int>, pos: seq<nat>, i: nat, child: nat)
    requires 1 <= i < child < size <= |v| && child / 2 == i && v[child] < |pos|
    requires OrderedBelow(v, size, pri, i) && Bridged(v, size, pri, i)
    requires Linked(v, size, pos, i) && Lone(v, size, i)
    requires PriOf(pri, v[i]) > PriOf(pri, v[child])
    requires forall j :: 2 <= j < size && j / 2 == i ==> PriOf(pri, v[child]) <= PriOf(pri, v[j])
    ensures var w := v[i := v[child]][child := v[i]];
            && OrderedBelow(w, size, pri, child) && Bridged(w, size, pri, child)
            && Linked(w, size, pos[v[child] := i], child) && Lone(w, size, child)
  {
  }

  /** The end of percolate_down: the moving node lands in the hole. */
  lemma PercolateDone(v: seq<nat>, size: nat, pri: seq<int>, pos: seq<nat>, i: nat)
    requires 1 <= i < |v| && size <= |v| && v[i] < |pos|
    requires OrderedBelow(v, size, pri, i) && Linked(v, size, pos, i) && Lone(v, size, i)
    requires forall j :: 2 <= j < size && j / 2 == i ==> PriOf(pri, v[i]) <= PriOf(pri, v[j])
    ensures HeapOrdered(v, size, pri) && Linked(v, size, pos[v[i] := i], 0)
  {
  }

  /** Appending an element leaves a heap with a hole at the new index. */
  lemma InsertReady(d: seq<nat>, size: nat, pri: seq<int>, pos: seq<nat>, x: nat)
    requires 1 <= size < |d| && x !in ElementSet(d, size)
    requires HeapOrdered(d, size, pri) && Linked(d, size, pos, 0)
    ensures var w := d[size := x];
            && OrderedAbove(w, size + 1, pri, size) && Bridged(w, size + 1, pri, size)
            && Linked(w, size + 1, pos, size) && Lone(w, size + 1, size)
            && ElementSet(w, size + 1) == ElementSet(d, size) + {x}
  {
    forall k | 1 <= k < size ensures d[k] in ElementSet(d, size) {
      EntryIsElement(d, size, k);
    }
    assert d[size := x][1..size + 1] == d[1..size] + [x];
  }

  lemma ElementIsAtItsPosition(d: seq<nat>, size: nat, pos: seq<nat>, x: nat)
    requires 1 <= size <= |d| && Linked(d, size, pos, 0) && x in ElementSet(d, size)
    ensures x < |pos| && 1 <= pos[x] < size && d[pos[x]] == x
  {
    var k :| 1 <= k < size && d[k] == x;
  }

  /** Rewriting one priority leaves a heap with a hole at that element. */
  lemma ChangeReady(d: seq<nat>, size: nat, pri: seq<int>, pos: seq<nat>, i: nat, newPri: int)
    requires 1 <= i < size <= |d| && d[i] < |pri|
    requires HeapOrdered(d, size, pri) && Linked(d, size, pos, 0)
    ensures Linked(d, size, pos, i) && Lone(d, size, i)
    ensures var pri' := pri[d[i] := newPri];
            && (newPri <= pri[d[i]] ==> OrderedAbove(d, size, pri', i) && Bridged(d, size, pri', i))
            && (newPri >= pri[d[i]] ==> OrderedBelow(d, size, pri', i) && Bridged(d, size, pri', i))
  {
  }

  /** Overwriting an entry with the last one leaves a shorter heap with a hole there. */
  lemma RemoveReady(d: seq<nat>, size: nat, pri: seq<int>, pos: seq<nat>, i: nat)
    requires 1 <= i < size <= |d|
    requires HeapOrdered(d, size, pri) && Linked(d, size, pos, 0)
    ensures var w := d[i := d[size - 1]];
            && Linked(w, size - 1, pos, i) && Lone(w, size - 1, i)
            && (PriOf(pri, d[i]) >= PriOf(pri, w[i]) ==> OrderedAbove(w, size - 1, pri, i))
            && (PriOf(pri, d[i]) <= PriOf(pri, w[i]) ==> OrderedBelow(w, size - 1, pri, i))
            && Bridged(w, size - 1, pri, i)
            && ElementSet(w, size - 1) == ElementSet(d, size) - {d[i]}
            && (PriOf(pri, d[i]) > PriOf(pri, w[i]) ==> i < size - 1)
  {
    RemoveKeepsOthers(d, size, pos, i);
  }

  lemma RemoveKeepsOthers(d: seq<nat>, size: nat, pos: seq<nat>, i: nat)
    requires 1 <= i < size <= |d| && Linked(d, size, pos, 0)
    ensures ElementSet(d[i := d[size - 1]], size - 1) == ElementSet(d, size) - {d[i]}
  {
    var w := d[i := d[size - 1]];
    forall x ensures x in w[1..size - 1] <==> x in d[1..size] && x != d[i] {
      if x in d[1..size] && x != d[i] {
        var k :| 1 <= k < size && d[k] == x;
        assert w[if k == size - 1 then i else k] in w[1..size - 1];
      }
      if x in w[1..size - 1] {
        var k :| 1 <= k < size - 1 && w[k] == x;
        assert d[if k == i then size - 1 else k] in d[1..size];
        assert pos[d[i]] == i;
      }
    }
  }

  lemma OutsiderPriority(d: seq<nat>, size: nat, pri: seq<int>, x: nat, newPri: int)
    requires 1 <= size <= |d| && x < |pri| && x !in ElementSet(d, size) && HeapOrdered(d, size, pri)
    ensures HeapOrdered(d, size, pri[x := newPri])
  {
    forall k | 1 <= k < size ensures d[k] != x {
      EntryIsElement(d, size, k);
    }
  }

  lemma OutsiderPosition(d: seq<nat>, size: nat, pos: seq<nat>, x: nat, newPos: nat)
    requires 1 <= size <= |d| && x < |pos| && x !in ElementSet(d, size) && Linked(d, size, pos, 0)
    ensures Linked(d, size, pos[x := newPos], 0)
  {
    forall k | 1 <= k < size ensures d[k] != x {
      EntryIsElement(d, size, k);
    }
  }
}
