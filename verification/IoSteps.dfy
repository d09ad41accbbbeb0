/** Every step of the dispatcher and of the worker keeps the queue invariant, in whatever order
    they are interleaved. */
module IoSteps {
  import opened Sequences
  import opened IoQueue

  // ---------- reading the invariant ----------

  lemma OwnerOf(q: Q, b: nat)
    requires SlotsOk(q)
    ensures b in q.free <==> b < |q.owner| && q.owner[b] == FreeSlot
    ensures b in q.pending <==> b < |q.owner| && q.owner[b] == PendingSlot
  {
  }

  lemma Distinct(q: Q)
    requires SlotsOk(q)
    ensures forall i, j :: 0 <= i < |q.free| && 0 <= j < |q.pending| ==> q.free[i] != q.pending[j]
    ensures NoDup(q.free) && NoDup(q.pending)
    ensures forall i :: 0 <= i < |q.free| ==> q.free[i] < |q.owner| && q.owner[q.free[i]] == FreeSlot
    ensures forall i :: 0 <= i < |q.pending| ==> q.pending[i] < |q.owner| && q.owner[q.pending[i]] == PendingSlot
  {
    forall i | 0 <= i < |q.free| ensures q.free[i] < |q.owner| && q.owner[q.free[i]] == FreeSlot {
      assert q.free[i] in q.free;
    }
    forall i | 0 <= i < |q.pending| ensures q.pending[i] < |q.owner| && q.owner[q.pending[i]] == PendingSlot {
      assert q.pending[i] in q.pending;
    }
  }

  /** From a used slot, the `next` link leads to a used slot or ends. */
  lemma NextIsUsed(q: Q, b: nat)
    requires SlotsOk(q) && LinksOk(q) && UsedOk(q) && b < |q.wq| && q.used[b]
    ensures q.wq[b].next == -1 || (0 <= q.wq[b].next < |q.wq| && q.used[q.wq[b].next])
  {
    Distinct(q);
    OwnerOf(q, b);
    if q.owner[b] == FreeSlot {
      var i :| 0 <= i < |q.free| && q.free[i] == b;
      if i + 1 < |q.free| {
        assert q.wq[q.free[i]].next == q.free[i + 1];
      }
    } else if q.owner[b] == PendingSlot {
      var i :| 0 <= i < |q.pending| && q.pending[i] == b;
      if i + 1 < |q.pending| {
        assert q.wq[q.pending[i]].next == q.pending[i + 1];
      }
    }
  }

  // ---------- slots outside a list may change ----------

  lemma ChainedElsewhere(wq: seq<Work>, l: seq<nat>, b: nat, w: Work)
    requires Chained(wq, l) && b < |wq| && b !in l
    ensures Chained(wq[b := w], l)
  {
    assert forall i :: 0 <= i < |l| ==> l[i] in l;
  }

  lemma ChainedBackElsewhere(wq: seq<Work>, l: seq<nat>, b: nat, w: Work)
    requires ChainedBack(wq, l) && b < |wq| && b !in l
    ensures ChainedBack(wq[b := w], l)
  {
    assert forall i :: 0 <= i < |l| ==> l[i] in l;
  }

  /** Only the links differ. */
  ghost predicate SameData(wq: seq<Work>, wq': seq<Work>) {
    |wq'| == |wq| && forall b :: 0 <= b < |wq| ==> wq'[b] == wq[b].(next := wq'[b].next, prev := wq'[b].prev)
  }

  lemma SortedSame(wq: seq<Work>, wq': seq<Work>, tickets: seq<nat>, pending: seq<nat>, latest: nat)
    requires SameData(wq, wq') && Sorted(wq, pending, latest) && Fifo(wq, tickets, pending)
    ensures Sorted(wq', pending, latest) && Fifo(wq', tickets, pending)
  {
  }

  // ---------- allocation and initialisation ----------

  ghost predicate CanInit(q: Q) {
    QueueOk(q) && q.link == -1 && 2 <= |q.free|
  }

  lemma InitKeepsSlots(q: Q, req: nat, target: nat, isInternal: bool)
    requires CanInit(q)
    ensures q.free[0] < |q.wq| && |q.wq| == |q.owner| == |q.used| == |q.tickets|
    ensures SlotsOk(AfterInit(q, req, target, isInternal))
  {
    hide LinksOk, UsedOk, CursorOk, DueOk, Sorted, Fifo, LogOk;
    Distinct(q);
    var e := q.free[0];
    var r := AfterInit(q, req, target, isInternal);
    assert q.free == [e] + q.free[1..];
    forall b: nat ensures b in r.free <==> b < |r.owner| && r.owner[b] == FreeSlot {
      OwnerOf(q, b);
    }
    forall b: nat ensures b in r.pending <==> b < |r.owner| && r.owner[b] == PendingSlot {
      OwnerOf(q, b);
    }
  }

  lemma InitKeepsLinks(q: Q, req: nat, target: nat, isInternal: bool)
    requires CanInit(q) && q.free[0] < |q.wq| && |q.wq| == |q.owner| == |q.used| == |q.tickets|
    ensures LinksOk(AfterInit(q, req, target, isInternal))
  {
    hide UsedOk, CursorOk, DueOk, Sorted, Fifo, LogOk, Chained, ChainedBack;
    Distinct(q);
    var e := q.free[0];
    var w := Work(req, target, isInternal, isInternal, false, -1, -1);
    ChainedTail(q.wq, q.free);
    assert e !in q.free[1..];
    ChainedElsewhere(q.wq, q.free[1..], e, w);
    ChainedElsewhere(q.wq, q.pending, e, w);
    ChainedBackElsewhere(q.wq, q.pending, e, w);
  }

  lemma ChainedTail(wq: seq<Work>, l: seq<nat>)
    requires Chained(wq, l) && 0 < |l|
    ensures Chained(wq, l[1..])
  {
  }

  lemma InitKeepsUse(q: Q, req: nat, target: nat, isInternal: bool)
    requires CanInit(q) && q.free[0] < |q.wq| && |q.wq| == |q.owner| == |q.used| == |q.tickets|
    ensures var r := AfterInit(q, req, target, isInternal); UsedOk(r) && CursorOk(r) && DueOk(r)
  {
    hide Sorted, Fifo, LogOk, LinksOk;
    Distinct(q);
  }

  lemma InitKeepsOrder(q: Q, req: nat, target: nat, isInternal: bool)
    requires CanInit(q) && q.free[0] < |q.wq| && |q.wq| == |q.owner| == |q.used| == |q.tickets|
    ensures var r := AfterInit(q, req, target, isInternal);
            Sorted(r.wq, r.pending, r.latest) && Fifo(r.wq, r.tickets, r.pending)
  {
    hide UsedOk, CursorOk, DueOk, LogOk, LinksOk;
    Distinct(q);
  }

  lemma InitKeepsLog(q: Q, req: nat, target: nat, isInternal: bool)
    requires CanInit(q) && q.free[0] < |q.wq| && |q.wq| == |q.owner| == |q.used| == |q.tickets|
    ensures LogOk(AfterInit(q, req, target, isInternal))
  {
    hide CursorOk, DueOk, Sorted, Fifo, LinksOk;
    Distinct(q);
    var r := AfterInit(q, req, target, isInternal);
    forall b: nat | b in r.pending && b < |r.wq| ensures r.tickets[b] < r.tickets[r.link] {
      OwnerOf(q, b);
    }
  }

  /** Taking and initialising a slot keeps the invariant.  The slot may well be under the worker's
      stale cursor. */
  lemma InitKeeps(q: Q, req: nat, target: nat, isInternal: bool)
    requires CanInit(q)
    ensures q.free[0] < |q.wq| && |q.wq| == |q.owner| == |q.used| == |q.tickets|
    ensures QueueOk(AfterInit(q, req, target, isInternal))
  {
    hide SlotsOk, LinksOk, UsedOk, CursorOk, DueOk, Sorted, Fifo, LogOk, AfterInit;
    InitKeepsSlots(q, req, target, isInternal);
    InitKeepsLinks(q, req, target, isInternal);
    InitKeepsUse(q, req, target, isInternal);
    InitKeepsOrder(q, req, target, isInternal);
    InitKeepsLog(q, req, target, isInternal);
  }

  // ---------- linking ----------

  ghost predicate CanLink(q: Q) {
    QueueOk(q) && 0 <= q.link
  }

  lemma {:induction false} InsertPosMeaning(wq: seq<Work>, pending: seq<nat>, latest: nat, target: nat, k: nat)
    requires k <= |pending| && forall i :: 0 <= i < |pending| ==> pending[i] < |wq|
    ensures var p := InsertPos(wq, pending, latest, target, k);
            && (0 < p ==> wq[pending[p - 1]].target <= latest || wq[pending[p - 1]].target <= target)
            && forall i :: p <= i < k ==> wq[pending[i]].target > latest && wq[pending[i]].target > target
  {
    if k > 0 && !(wq[pending[k - 1]].target <= latest || wq[pending[k - 1]].target <= target) {
      InsertPosMeaning(wq, pending, latest, target, k - 1);
    }
  }

  lemma RelinkedSame(wq: seq<Work>, pending: seq<nat>, e: nat, p: nat)
    ensures SameData(wq, Relinked(wq, pending, e, p))
  {
  }

  /** What the relinking writes, slot by slot. */
  lemma RelinkedAt(wq: seq<Work>, pending: seq<nat>, e: nat, p: nat, b: nat)
    requires e < |wq| && b < |wq| && p <= |pending| && e !in pending && NoDup(pending)
    requires forall i :: 0 <= i < |pending| ==> pending[i] < |wq|
    ensures var r := Relinked(wq, pending, e, p);
            && r[b].next == (if b == e then At(pending, p) else if b == At(pending, p - 1) then e else wq[b].next)
            && r[b].prev == (if b == e then At(pending, p - 1) else if b == At(pending, p) then e else wq[b].prev)
  {
    assert 0 < p ==> pending[p - 1] in pending;
    assert p < |pending| ==> pending[p] in pending;
  }

  lemma InsertedAt(l: seq<nat>, e: nat, p: nat, i: int)
    requires p <= |l|
    ensures At(Inserted(l, e, p), i) == if i < p then At(l, i) else if i == p then e else At(l, i - 1)
    ensures |Inserted(l, e, p)| == |l| + 1
  {
  }

  lemma RelinkedNext(wq: seq<Work>, pending: seq<nat>, e: nat, p: nat, i: nat)
    requires e < |wq| && p <= |pending| && e !in pending && NoDup(pending)
    requires Chained(wq, pending) && ChainedBack(wq, pending) && i <= |pending|
    ensures var l := Inserted(pending, e, p);
            && i < |l| && l[i] < |wq| && l[i] < |Relinked(wq, pending, e, p)|
            && Relinked(wq, pending, e, p)[l[i]].next == At(l, i + 1)
            && Relinked(wq, pending, e, p)[l[i]].prev == At(l, i - 1)
  {
    hide Relinked, Inserted;
    InsertedAt(pending, e, p, i);
    InsertedAt(pending, e, p, i + 1);
    InsertedAt(pending, e, p, i - 1);
    RelinkedSame(wq, pending, e, p);
    var b: nat := if i < p then pending[i] else if i == p then e else pending[i - 1];
    RelinkedAt(wq, pending, e, p, b);
    assert i < p ==> pending[i] in pending;
    assert i > p ==> pending[i - 1] in pending;
  }

  /** The same links written as __insert_req_sorted does, when the slot becomes the only one, ... */
  lemma RelinkOnly(wq: seq<Work>, e: nat)
    requires e < |wq| && wq[e].next == -1 && wq[e].prev == -1
    ensures Relinked(wq, [], e, 0) == wq
  {
  }

  /** ... the head, ... */
  lemma RelinkHead(wq: seq<Work>, pending: seq<nat>, e: nat)
    requires e < |wq| && 0 < |pending| && pending[0] < |wq| && pending[0] != e && wq[e].prev == -1
    ensures Relinked(wq, pending, e, 0) == SetNext(SetPrev(wq, pending[0], e), e, pending[0])
  {
  }

  /** ... the tail, ... */
  lemma RelinkTail(wq: seq<Work>, pending: seq<nat>, e: nat)
    requires e < |wq| && 0 < |pending| && pending[|pending| - 1] < |wq| && pending[|pending| - 1] != e
             && wq[e].next == -1
    ensures Relinked(wq, pending, e, |pending|)
            == SetNext(SetPrev(wq, e, pending[|pending| - 1]), pending[|pending| - 1], e)
  {
  }

  /** ... or goes in between. */
  lemma RelinkBetween(wq: seq<Work>, pending: seq<nat>, e: nat, p: nat)
    requires e < |wq| && 0 < p < |pending| && pending[p - 1] < |wq| && pending[p] < |wq|
    requires pending[p - 1] != e && pending[p] != e && pending[p - 1] != pending[p]
    ensures Relinked(wq, pending, e, p) ==
            SetNext(SetPrev(SetNext(SetPrev(wq, e, pending[p - 1]), e, pending[p]), pending[p], e), pending[p - 1], e)
  {
  }

  lemma RelinkedChains(wq: seq<Work>, pending: seq<nat>, e: nat, p: nat)
    requires e < |wq| && p <= |pending| && e !in pending && NoDup(pending)
    requires Chained(wq, pending) && ChainedBack(wq, pending)
    ensures var l := Inserted(pending, e, p);
            Chained(Relinked(wq, pending, e, p), l) && ChainedBack(Relinked(wq, pending, e, p), l)
  {
    hide Relinked, Inserted;
    var l := Inserted(pending, e, p);
    InsertedAt(pending, e, p, 0);
    forall i | 0 <= i < |l|
      ensures l[i] < |wq| && l[i] < |Relinked(wq, pending, e, p)|
      ensures Relinked(wq, pending, e, p)[l[i]].next == At(l, i + 1)
      ensures Relinked(wq, pending, e, p)[l[i]].prev == At(l, i - 1)
    {
      RelinkedNext(wq, pending, e, p, i);
    }
  }

  lemma RelinkedElsewhere(wq: seq<Work>, pending: seq<nat>, e: nat, p: nat, l: seq<nat>)
    requires e < |wq| && p <= |pending| && e !in pending && NoDup(pending)
    requires forall i :: 0 <= i < |pending| ==> pending[i] < |wq|
    requires Chained(wq, l) && e !in l && forall i, j :: 0 <= i < |l| && 0 <= j < |pending| ==> l[i] != pending[j]
    ensures Chained(Relinked(wq, pending, e, p), l)
  {
    hide Relinked, SetNext, SetPrev;
    RelinkedSame(wq, pending, e, p);
    forall i | 0 <= i < |l| ensures Relinked(wq, pending, e, p)[l[i]].next == wq[l[i]].next {
      assert l[i] in l;
      RelinkedAt(wq, pending, e, p, l[i]);
    }
  }

  lemma LinkKeepsLinks(q: Q)
    requires CanLink(q)
    ensures LinksOk(AfterLink(q))
  {
    hide UsedOk, CursorOk, DueOk, Sorted, Fifo, LogOk, Relinked, Chained, ChainedBack, InsertPos;
    Distinct(q);
    var e: nat := q.link;
    OwnerOf(q, e);
    var p := InsertPos(q.wq, q.pending, q.latest, q.wq[e].target, |q.pending|);
    RelinkedChains(q.wq, q.pending, e, p);
    RelinkedElsewhere(q.wq, q.pending, e, p, q.free);
  }

  lemma InsertedMembers(l: seq<nat>, e: nat, p: nat)
    requires p <= |l| && e !in l && NoDup(l)
    ensures var r := Inserted(l, e, p);
            NoDup(r) && forall b :: b in r <==> b in l || b == e
  {
    var r := Inserted(l, e, p);
    assert l == l[..p] + l[p..];
    assert forall i :: 0 <= i < |r| && i != p ==> r[i] in l;
    assert forall i, j :: 0 <= i < j < |l| ==> l[i] != l[j];
  }

  lemma LinkKeepsSlots(q: Q)
    requires CanLink(q)
    ensures SlotsOk(AfterLink(q))
  {
    hide UsedOk, CursorOk, DueOk, Sorted, Fifo, LogOk, LinksOk, Relinked, InsertPos;
    Distinct(q);
    var e: nat := q.link;
    OwnerOf(q, e);
    var p := InsertPos(q.wq, q.pending, q.latest, q.wq[e].target, |q.pending|);
    RelinkedSame(q.wq, q.pending, e, p);
    InsertedMembers(q.pending, e, p);
    var r := AfterLink(q);
    forall b: nat ensures b in r.free <==> b < |r.owner| && r.owner[b] == FreeSlot {
      OwnerOf(q, b);
    }
    forall b: nat ensures b in r.pending <==> b < |r.owner| && r.owner[b] == PendingSlot {
      OwnerOf(q, b);
    }
  }

  lemma LinkKeepsUse(q: Q)
    requires CanLink(q)
    ensures UsedOk(AfterLink(q)) && CursorOk(AfterLink(q)) && DueOk(AfterLink(q))
  {
    hide Sorted, Fifo, LogOk, LinksOk, Relinked, InsertPos;
    Distinct(q);
    var e: nat := q.link;
    var p := InsertPos(q.wq, q.pending, q.latest, q.wq[e].target, |q.pending|);
    RelinkedSame(q.wq, q.pending, e, p);
  }

  lemma LinkKeepsOrder(q: Q)
    requires CanLink(q)
    ensures var r := AfterLink(q); Sorted(r.wq, r.pending, r.latest) && Fifo(r.wq, r.tickets, r.pending)
  {
    hide UsedOk, CursorOk, DueOk, LinksOk, Relinked, InsertPos;
    Distinct(q);
    var e: nat := q.link;
    OwnerOf(q, e);
    var p := InsertPos(q.wq, q.pending, q.latest, q.wq[e].target, |q.pending|);
    RelinkedSame(q.wq, q.pending, e, p);
    InsertPosMeaning(q.wq, q.pending, q.latest, q.wq[e].target, |q.pending|);
    InsertSorted(q.wq, q.pending, q.latest, e, p);
    InsertFifo(q.wq, q.tickets, q.pending, q.latest, e, p);
    SortedSame(q.wq, Relinked(q.wq, q.pending, e, p), q.tickets, Inserted(q.pending, e, p), q.latest);
  }

  lemma InsertSorted(wq: seq<Work>, pending: seq<nat>, latest: nat, e: nat, p: nat)
    requires e < |wq| && p <= |pending| && Sorted(wq, pending, latest)
    requires forall i :: 0 <= i < |pending| ==> pending[i] < |wq|
    requires 0 < p ==> wq[pending[p - 1]].target <= latest || wq[pending[p - 1]].target <= wq[e].target
    requires forall i :: p <= i < |pending| ==> wq[pending[i]].target > wq[e].target
    ensures Sorted(wq, Inserted(pending, e, p), latest)
  {
    forall i | 0 <= i < p ensures Max(wq[pending[i]].target, latest) <= Max(wq[e].target, latest) {
      assert i < p - 1 ==> Max(wq[pending[i]].target, latest) <= Max(wq[pending[p - 1]].target, latest);
    }
  }

  lemma InsertFifo(wq: seq<Work>, tickets: seq<nat>, pending: seq<nat>, latest: nat, e: nat, p: nat)
    requires e < |wq| && p <= |pending| && Fifo(wq, tickets, pending)
    requires forall i :: 0 <= i < |pending| ==> pending[i] < |wq|
    requires forall i :: p <= i < |pending| ==> wq[pending[i]].target > wq[e].target
    requires forall b: nat :: b in pending && b < |wq| ==> tickets[b] < tickets[e]
    ensures Fifo(wq, tickets, Inserted(pending, e, p))
  {
    assert forall i :: 0 <= i < |pending| ==> pending[i] in pending;
  }

  lemma LinkKeepsLog(q: Q)
    requires CanLink(q)
    ensures LogOk(AfterLink(q))
  {
    hide CursorOk, DueOk, Sorted, Fifo, LinksOk, Relinked, InsertPos, UsedOk;
    var e: nat := q.link;
    var p := InsertPos(q.wq, q.pending, q.latest, q.wq[e].target, |q.pending|);
    RelinkedSame(q.wq, q.pending, e, p);
  }

  /** Linking the initialised slot keeps the invariant. */
  lemma LinkKeeps(q: Q)
    requires CanLink(q)
    ensures q.link < |q.wq| && |q.wq| == |q.owner|
    ensures QueueOk(AfterLink(q))
  {
    hide LinksOk, UsedOk, CursorOk, DueOk, Sorted, Fifo, LogOk, AfterLink, Owns;
    LinkKeepsSlots(q);
    LinkKeepsLinks(q);
    LinkKeepsUse(q);
    LinkKeepsOrder(q);
    LinkKeepsLog(q);
  }

  // ---------- reclaiming ----------

  /** What the splice writes, slot by slot. */
  lemma SplicedAt(wq: seq<Work>, free: seq<nat>, pending: seq<nat>, k: nat, b: nat)
    requires b < |wq| && 0 < k <= |pending| && 0 < |free| && NoDup(pending)
    requires forall i :: 0 <= i < |pending| ==> pending[i] < |wq|
    requires free[|free| - 1] < |wq| && free[|free| - 1] !in pending
    ensures var r := Spliced(wq, free, pending, k); var last := free[|free| - 1];
            && |r| == |wq|
            && r[b].next == (if b == last then pending[0] else if b == pending[k - 1] then -1 else wq[b].next)
            && r[b].prev == (if b == pending[0] then last else if b == At(pending, k) then -1 else wq[b].prev)
  {
    assert pending[0] in pending && pending[k - 1] in pending;
    assert k < |pending| ==> pending[k] in pending && pending[k] != pending[0];
  }

  lemma SplicedSame(wq: seq<Work>, free: seq<nat>, pending: seq<nat>, k: nat)
    requires 0 < k <= |pending| && 0 < |free|
    ensures SameData(wq, Spliced(wq, free, pending, k))
  {
    hide SetNext, SetPrev;
    var w1 := SetPrev(wq, At(pending, k), -1);
    var w2 := SetNext(w1, At(pending, k - 1), -1);
    var w3 := SetPrev(w2, At(pending, 0), At(free, |free| - 1));
    SetSame(wq, At(pending, k), -1);
    SetSame(w1, At(pending, k - 1), -1);
    SetSame(w2, At(pending, 0), At(free, |free| - 1));
    SetSame(w3, At(free, |free| - 1), At(pending, 0));
  }

  lemma SetSame(wq: seq<Work>, i: int, v: int)
    ensures SameData(wq, SetNext(wq, i, v)) && SameData(wq, SetPrev(wq, i, v))
  {
  }

  lemma SplicedFreeNext(wq: seq<Work>, free: seq<nat>, pending: seq<nat>, k: nat, i: nat)
    requires 0 < k <= |pending| && 0 < |free| && NoDup(pending) && NoDup(free)
    requires Chained(wq, free) && Chained(wq, pending)
    requires forall i, j :: 0 <= i < |free| && 0 <= j < |pending| ==> free[i] != pending[j]
    requires i < |free| + k
    ensures var l := free + pending[..k];
            && l[i] < |wq| == |Spliced(wq, free, pending, k)|
            && Spliced(wq, free, pending, k)[l[i]].next == At(l, i + 1)
  {
    hide Spliced;
    var l := free + pending[..k];
    var b: nat := if i < |free| then free[i] else pending[i - |free|];
    assert l[i] == b;
    SplicedAt(wq, free, pending, k, b);
    if i < |free| - 1 {
      assert free[i] != free[|free| - 1] && free[i] != pending[k - 1];
    } else if i >= |free| && i - |free| < k - 1 {
      assert pending[i - |free|] != pending[k - 1];
    }
  }

  lemma SplicedChains(wq: seq<Work>, free: seq<nat>, pending: seq<nat>, k: nat)
    requires 0 < k <= |pending| && 0 < |free| && NoDup(pending) && NoDup(free)
    requires Chained(wq, free) && Chained(wq, pending) && ChainedBack(wq, pending)
    requires forall i, j :: 0 <= i < |free| && 0 <= j < |pending| ==> free[i] != pending[j]
    ensures var r := Spliced(wq, free, pending, k);
            Chained(r, free + pending[..k]) && Chained(r, pending[k..]) && ChainedBack(r, pending[k..])
  {
    hide Spliced;
    var r := Spliced(wq, free, pending, k);
    var l := free + pending[..k];
    forall i | 0 <= i < |l| ensures l[i] < |r| && r[l[i]].next == At(l, i + 1) {
      SplicedFreeNext(wq, free, pending, k, i);
    }
    forall i | 0 <= i < |pending[k..]|
      ensures pending[k..][i] < |r| && r[pending[k..][i]].next == At(pending[k..], i + 1)
      ensures r[pending[k..][i]].prev == At(pending[k..], i - 1)
    {
      SplicedAt(wq, free, pending, k, pending[k + i]);
      assert pending[k + i] != pending[k - 1] && pending[k + i] != pending[0];
      assert i > 0 ==> pending[k + i] != pending[k];
    }
  }

  lemma SplicedLink(wq: seq<Work>, free: seq<nat>, pending: seq<nat>, k: nat, e: nat)
    requires 0 < k <= |pending| && 0 < |free| && NoDup(pending) && e < |wq| && e !in free && e !in pending
    requires forall i :: 0 <= i < |pending| ==> pending[i] < |wq|
    requires free[|free| - 1] < |wq| && free[|free| - 1] !in pending
    ensures var r := Spliced(wq, free, pending, k); |r| == |wq| && r[e].next == wq[e].next && r[e].prev == wq[e].prev
  {
    hide Spliced;
    SplicedAt(wq, free, pending, k, e);
    assert pending[0] in pending && pending[k - 1] in pending && free[|free| - 1] in free;
  }

  ghost predicate CanReclaim(q: Q, k: nat) {
    QueueOk(q) && 0 < k <= |q.pending| && k == ReclaimCount(q, 0)
  }

  lemma ReclaimKeepsLinks(q: Q, k: nat)
    requires CanReclaim(q, k)
    ensures LinksOk(AfterReclaim(q))
  {
    hide UsedOk, CursorOk, DueOk, Sorted, Fifo, LogOk, Spliced, Chained, ChainedBack, ReclaimCount;
    Distinct(q);
    PendingInRange(q);
    SplicedChains(q.wq, q.free, q.pending, k);
    if 0 <= q.link {
      OwnerOf(q, q.link);
      SplicedLink(q.wq, q.free, q.pending, k, q.link);
    }
  }

  lemma PendingInRange(q: Q)
    requires SlotsOk(q)
    ensures forall i :: 0 <= i < |q.pending| ==> q.pending[i] < |q.wq|
    ensures q.free[|q.free| - 1] < |q.wq| && q.free[|q.free| - 1] !in q.pending
  {
    Distinct(q);
    OwnerOf(q, q.free[|q.free| - 1]);
  }

  lemma ReclaimedMembers(free: seq<nat>, pending: seq<nat>, k: nat)
    requires k <= |pending| && NoDup(pending) && NoDup(free)
    requires forall i, j :: 0 <= i < |free| && 0 <= j < |pending| ==> free[i] != pending[j]
    ensures NoDup(free + pending[..k]) && NoDup(pending[k..])
    ensures forall b :: b in free + pending[..k] <==> b in free || b in pending[..k]
    ensures forall b :: b in pending[k..] <==> b in pending && b !in pending[..k]
  {
    assert pending == pending[..k] + pending[k..];
  }

  lemma ReclaimKeepsSlots(q: Q, k: nat)
    requires CanReclaim(q, k)
    ensures SlotsOk(AfterReclaim(q))
  {
    hide UsedOk, CursorOk, DueOk, Sorted, Fifo, LogOk, LinksOk, Spliced, ReclaimCount;
    Distinct(q);
    ReclaimedMembers(q.free, q.pending, k);
    SplicedSame(q.wq, q.free, q.pending, k);
    var r := AfterReclaim(q);
    assert forall b :: b in q.pending[..k] ==> b in q.pending;
    forall b: nat ensures b in r.free <==> b < |r.owner| && r.owner[b] == FreeSlot {
      OwnerOf(q, b);
    }
    forall b: nat ensures b in r.pending <==> b < |r.owner| && r.owner[b] == PendingSlot {
      OwnerOf(q, b);
    }
    forall b: nat | b < |r.owner| ensures r.owner[b] == LinkingSlot <==> b == r.link {
      OwnerOf(q, b);
    }
  }

  lemma ReclaimedAreDone(q: Q, k: nat, b: nat)
    requires CanReclaim(q, k) && b in q.pending[..k]
    ensures b < |q.wq| && q.wq[b].isCompleted && q.wq[b].isCopied && q.owner[b] == PendingSlot && q.used[b]
  {
    Distinct(q);
    var i :| 0 <= i < k && q.pending[i] == b;
    assert Reclaimable(q, q.pending[i]);
  }

  lemma ReclaimKeepsUse(q: Q, k: nat)
    requires CanReclaim(q, k)
    ensures UsedOk(AfterReclaim(q)) && CursorOk(AfterReclaim(q)) && DueOk(AfterReclaim(q))
  {
    hide Sorted, Fifo, LogOk, LinksOk, Spliced, ReclaimCount;
    SplicedSame(q.wq, q.free, q.pending, k);
    Distinct(q);
    forall b | b in q.pending[..k]
      ensures b < |q.wq| && q.wq[b].isCompleted && q.wq[b].isCopied && q.owner[b] == PendingSlot && q.used[b]
    {
      ReclaimedAreDone(q, k, b);
    }
    assert forall i :: 0 <= i < k ==> q.pending[i] in q.pending[..k];
  }

  lemma ReclaimKeepsOrder(q: Q, k: nat)
    requires CanReclaim(q, k)
    ensures var r := AfterReclaim(q); Sorted(r.wq, r.pending, r.latest) && Fifo(r.wq, r.tickets, r.pending)
  {
    hide UsedOk, CursorOk, DueOk, LogOk, LinksOk, Spliced, ReclaimCount;
    SplicedSame(q.wq, q.free, q.pending, k);
    SortedSame(q.wq, Spliced(q.wq, q.free, q.pending, k), q.tickets, q.pending, q.latest);
  }

  lemma ReclaimKeepsLog(q: Q, k: nat)
    requires CanReclaim(q, k)
    ensures LogOk(AfterReclaim(q))
  {
    hide UsedOk, CursorOk, DueOk, Sorted, Fifo, LinksOk, Spliced, ReclaimCount;
    SplicedSame(q.wq, q.free, q.pending, k);
    assert forall b :: b in q.pending[k..] ==> b in q.pending;
  }

  /** Giving the finished prefix back keeps the invariant, wherever the worker's cursor is. */
  lemma ReclaimKeeps(q: Q)
    requires QueueOk(q)
    ensures QueueOk(AfterReclaim(q))
  {
    hide SlotsOk, LinksOk, UsedOk, CursorOk, DueOk, Sorted, Fifo, LogOk, ReclaimCount, Spliced;
    var k := ReclaimCount(q, 0);
    if 0 < k {
      ReclaimKeepsSlots(q, k);
      ReclaimKeepsLinks(q, k);
      ReclaimKeepsUse(q, k);
      ReclaimKeepsOrder(q, k);
      ReclaimKeepsLog(q, k);
    }
  }

  /** If the worker has completed everything that is due, reclaiming leaves no due request behind:
      a request that is not due never blocks one that is. */
  lemma NothingDueIsStuck(q: Q)
    requires QueueOk(q)
    requires forall b :: b in q.pending && b < |q.wq| && q.wq[b].target <= q.latest ==> q.wq[b].isCompleted
    ensures var r := AfterReclaim(q);
            forall b :: b in r.pending && b < |q.wq| ==> q.wq[b].target > q.latest
  {
    hide LinksOk, UsedOk, CursorOk, Fifo, LogOk, Spliced, Owns;
    Distinct(q);
    var k := ReclaimCount(q, 0);
    forall i | k <= i < |q.pending| ensures q.wq[q.pending[i]].target > q.latest {
      assert q.pending[k] in q.pending && !Reclaimable(q, q.pending[k]);
      if k < i {
        DueFormPrefix(q, k, i);
      }
    }
  }

  // ---------- the worker ----------

  lemma StartKeeps(q: Q)
    requires QueueOk(q) && q.pc == Idle
    ensures QueueOk(AfterStart(q))
  {
    hide Sorted, Fifo, LogOk, LinksOk, DueOk, Owns;
    if 0 < |q.pending| {
      HeadIsUsed(q);
    }
    LogElsewhere(q, AfterStart(q));
    LinksElsewhere(q, AfterStart(q));
    DueElsewhere(q, AfterStart(q));
  }

  lemma HeadIsUsed(q: Q)
    requires SlotsOk(q) && UsedOk(q) && 0 < |q.pending|
    ensures q.pending[0] < |q.wq| && q.used[q.pending[0]]
  {
    Distinct(q);
  }

  lemma LookKeeps(q: Q, now: nat)
    requires QueueOk(q) && q.pc == Look && q.latest <= now
    ensures QueueOk(AfterLook(q, now))
  {
    hide Fifo, LogOk, LinksOk, Owns, Sorted;
    SortedLater(q.wq, q.pending, q.latest, now);
    LogElsewhere(q, AfterLook(q, now));
    LinksElsewhere(q, AfterLook(q, now));
  }

  /** A slot that the worker finds not completed is in use, and stays so until the worker is done
      with it. */
  lemma CheckKeeps(q: Q)
    requires QueueOk(q) && q.pc == Check
    ensures 0 <= q.curr < |q.wq| && QueueOk(AfterCheck(q))
    ensures AfterCheck(q).pc == Copy ==> q.owner[q.curr] != FreeSlot
  {
    hide Fifo, LogOk, LinksOk, Owns, Sorted, DueOk;
    LogElsewhere(q, AfterCheck(q));
    LinksElsewhere(q, AfterCheck(q));
    DueElsewhere(q, AfterCheck(q));
  }

  lemma LogElsewhere(q: Q, r: Q)
    requires LogOk(q) && r.wq == q.wq && r.owner == q.owner && r.used == q.used && r.tickets == q.tickets
    requires r.log == q.log && r.nextTicket == q.nextTicket && r.link == q.link && r.pending == q.pending
    ensures LogOk(r)
  {
  }

  lemma LinksElsewhere(q: Q, r: Q)
    requires LinksOk(q) && r.wq == q.wq && r.free == q.free && r.pending == q.pending && r.link == q.link
    ensures LinksOk(r)
  {
  }

  lemma AdvanceKeeps(q: Q)
    requires QueueOk(q) && q.pc == Advance
    ensures 0 <= q.curr < |q.wq| && QueueOk(AfterAdvance(q))
  {
    hide Fifo, LogOk, LinksOk, Owns, Sorted, DueOk;
    NextIsUsed(q, q.curr);
    LogElsewhere(q, AfterAdvance(q));
    LinksElsewhere(q, AfterAdvance(q));
    DueElsewhere(q, AfterAdvance(q));
  }

  lemma DueElsewhere(q: Q, r: Q)
    requires DueOk(q) && r.wq == q.wq && r.owner == q.owner && r.latest == q.latest
    ensures DueOk(r)
  {
  }

  lemma LinksSame(q: Q, r: Q)
    requires LinksOk(q) && r.free == q.free && r.pending == q.pending && r.link == q.link && |r.wq| == |q.wq|
    requires forall b :: 0 <= b < |q.wq| ==> r.wq[b].next == q.wq[b].next && r.wq[b].prev == q.wq[b].prev
    ensures LinksOk(r)
  {
  }

  lemma OrderSame(q: Q, r: Q)
    requires Sorted(q.wq, q.pending, q.latest) && Fifo(q.wq, q.tickets, q.pending)
    requires r.pending == q.pending && r.latest == q.latest && r.tickets == q.tickets && |r.wq| == |q.wq|
    requires forall b :: 0 <= b < |q.wq| ==> r.wq[b].target == q.wq[b].target
    ensures Sorted(r.wq, r.pending, r.latest) && Fifo(r.wq, r.tickets, r.pending)
  {
  }

  lemma CopyKeeps(q: Q)
    requires QueueOk(q) && q.pc == Copy
    ensures 0 <= q.curr < |q.wq| && QueueOk(AfterCopy(q))
  {
    hide Fifo, LinksOk, Sorted, Owns;
    LinksSame(q, AfterCopy(q));
    OrderSame(q, AfterCopy(q));
  }

  lemma CompleteKeepsLog(q: Q)
    requires LogOk(q) && CursorOk(q) && q.pc == Complete
    ensures 0 <= q.curr < |q.wq| && LogOk(AfterComplete(q))
  {
    var t := q.tickets[q.curr];
    assert t !in q.log;
  }

  /** Completing a request keeps the invariant: it was copied, it is due, and its ticket was not
      completed before. */
  lemma CompleteKeeps(q: Q)
    requires QueueOk(q) && q.pc == Complete
    ensures 0 <= q.curr < |q.wq| && |q.tickets| == |q.wq|
    ensures q.tickets[q.curr] !in q.log && q.wq[q.curr].isCopied
    ensures QueueOk(AfterComplete(q))
  {
    hide Fifo, LinksOk, Sorted, Owns;
    CompleteKeepsLog(q);
    LinksSame(q, AfterComplete(q));
    OrderSame(q, AfterComplete(q));
  }

  // ---------- all interleavings ----------

  datatype Event =
    | EvInit(req: nat, target: nat, isInternal: bool) | EvLink | EvReclaim
    | EvStart | EvLook(now: nat) | EvCheck | EvCopy | EvComplete | EvAdvance

  /** When a step can be taken: the dispatcher initialises and links by turns, the worker follows
      its own order, and its clock does not run backwards. */
  ghost predicate Enabled(q: Q, e: Event) {
    match e
    case EvInit(_, _, _) => q.link == -1 && 2 <= |q.free|
    case EvLink => 0 <= q.link
    case EvReclaim => q.link == -1
    case EvStart => q.pc == Idle
    case EvLook(now) => q.pc == Look && q.latest <= now
    case EvCheck => q.pc == Check
    case EvCopy => q.pc == Copy
    case EvComplete => q.pc == Complete
    case EvAdvance => q.pc == Advance
  }

  ghost function Apply(q: Q, e: Event): Q
    requires QueueOk(q) && Enabled(q, e)
  {
    match e
    case EvInit(req, target, isInternal) => InitKeeps(q, req, target, isInternal); AfterInit(q, req, target, isInternal)
    case EvLink => LinkKeeps(q); AfterLink(q)
    case EvReclaim => AfterReclaim(q)
    case EvStart => AfterStart(q)
    case EvLook(now) => AfterLook(q, now)
    case EvCheck => CheckKeeps(q); AfterCheck(q)
    case EvCopy => CopyKeeps(q); AfterCopy(q)
    case EvComplete => CompleteKeeps(q); AfterComplete(q)
    case EvAdvance => AdvanceKeeps(q); AfterAdvance(q)
  }

  /** Any step of either thread keeps the invariant. */
  lemma StepKeeps(q: Q, e: Event)
    requires QueueOk(q) && Enabled(q, e)
    ensures QueueOk(Apply(q, e))
  {
    hide QueueOk, AfterInit, AfterLink, AfterReclaim, AfterStart, AfterLook, AfterCheck, AfterCopy, AfterComplete;
    hide AfterAdvance;
    match e
    case EvInit(req, target, isInternal) => InitKeeps(q, req, target, isInternal);
    case EvLink => LinkKeeps(q);
    case EvReclaim => ReclaimKeeps(q);
    case EvStart => StartKeeps(q);
    case EvLook(now) => LookKeeps(q, now);
    case EvCheck => CheckKeeps(q);
    case EvCopy => CopyKeeps(q);
    case EvComplete => CompleteKeeps(q);
    case EvAdvance => AdvanceKeeps(q);
  }

  // ---------- whole runs ----------

  /** NVMEV_IO_WORKER_INIT: all `n` slots on the free list, none of them used. */
  function Initial(n: nat): Q {
    Q(seq(n, i => Work(0, 0, false, false, false, if i + 1 < n then i + 1 else -1, i - 1)),
      seq(n, i => FreeSlot), seq(n, i => i), [], -1, seq(n, i => false), seq(n, i => 0), 0, [], 0, Idle, -1, 0)
  }

  lemma InitialOk(n: nat)
    requires 0 < n
    ensures QueueOk(Initial(n))
  {
    var q := Initial(n);
    forall b: nat ensures b in q.free <==> b < n {
      if b < n {
        assert q.free[b] == b;
      }
    }
  }

  /** The events can be taken one after the other from `q`. */
  ghost predicate Possible(q: Q, es: seq<Event>)
    requires QueueOk(q)
    decreases |es|
  {
    es == [] || (Enabled(q, es[0]) && (StepKeeps(q, es[0]); Possible(Apply(q, es[0]), es[1..])))
  }

  ghost function Final(q: Q, es: seq<Event>): Q
    requires QueueOk(q) && Possible(q, es)
    decreases |es|
  {
    if es == [] then q else (StepKeeps(q, es[0]); Final(Apply(q, es[0]), es[1..]))
  }

  /** A completion: which use of a slot, the request it is reported for, when it was due, and when it
      happened. */
  datatype Done = Done(ticket: nat, req: nat, target: nat, time: nat)

  /** The event completes the request under the cursor. */
  predicate Completes(q: Q, e: Event) {
    e.EvComplete? && 0 <= q.curr < |q.wq| && |q.tickets| == |q.wq| && q.wq[q.curr].target <= q.now
  }

  /** The completions of a run, in order. */
  ghost function Completions(q: Q, es: seq<Event>): seq<Done>
    requires QueueOk(q) && Possible(q, es)
    decreases |es|
  {
    if es == [] then []
    else
      StepKeeps(q, es[0]);
      var rest := Completions(Apply(q, es[0]), es[1..]);
      if Completes(q, es[0])
      then [Done(q.tickets[q.curr], q.wq[q.curr].req, q.wq[q.curr].target, q.now)] + rest
      else rest
  }

  ghost function Tickets(ds: seq<Done>): seq<nat> {
    seq(|ds|, i requires 0 <= i < |ds| => ds[i].ticket)
  }

  lemma LogGrows(q: Q, e: Event)
    requires QueueOk(q) && Enabled(q, e)
    ensures Completes(q, e) ==> Apply(q, e).log == q.log + [q.tickets[q.curr]]
    ensures !Completes(q, e) ==> Apply(q, e).log == q.log
  {
    hide LinksOk, UsedOk, DueOk, Sorted, Fifo, LogOk, ReclaimCount, Relinked, InsertPos, Spliced, Owns;
  }

  /** In every run of the two threads the invariant holds throughout, no request is completed twice,
      and none before its target time. */
  lemma {:induction false} RunsAreSafe(q: Q, es: seq<Event>)
    requires QueueOk(q) && Possible(q, es)
    ensures QueueOk(Final(q, es))
    ensures Final(q, es).log == q.log + Tickets(Completions(q, es))
    ensures NoDup(Tickets(Completions(q, es)))
    ensures forall d :: d in Completions(q, es) ==> d.target <= d.time
    decreases |es|
  {
    hide SlotsOk, LinksOk, UsedOk, CursorOk, DueOk, Sorted, Fifo, LogOk, Apply;
    if es == [] {
      assert q.log + Tickets([]) == q.log;
    } else {
      StepKeeps(q, es[0]);
      LogGrows(q, es[0]);
      var r := Apply(q, es[0]);
      RunsAreSafe(r, es[1..]);
      var all, rest := Completions(q, es), Completions(r, es[1..]);
      if Completes(q, es[0]) {
        assert Tickets(all) == [q.tickets[q.curr]] + Tickets(rest);
        assert q.log + Tickets(all) == r.log + Tickets(rest);
      }
      LogNoDup(Final(q, es));
      SuffixNoDup(q.log, Tickets(all));
    }
  }

  lemma LogNoDup(q: Q)
    requires LogOk(q)
    ensures NoDup(q.log)
  {
  }

  lemma SuffixNoDup(a: seq<nat>, b: seq<nat>)
    requires NoDup(a + b)
    ensures NoDup(b)
  {
    forall i, j | 0 <= i < j < |b| ensures b[i] != b[j] {
      assert (a + b)[|a| + i] == b[i] && (a + b)[|a| + j] == b[j];
    }
  }
}
