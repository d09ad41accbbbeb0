/** The work queue of io.c in place: one array of slots, four list ends, and the worker's cursor. */
module IoWorkerModel {
  import opened IoQueue
  import opened IoSteps

  /** struct nvmev_io_worker, together with the local variables of its thread.  -1 stands for the
      unsigned -1 that ends a list. */
  class IoWorker {
    const wq: array<Work>
    var freeSeq: int
    var freeSeqEnd: int
    var ioSeq: int
    var ioSeqEnd: int
    var latestNsecs: nat

    // nvmev_io_worker
    var pc: Pc
    var curr: int
    var currNsecs: nat

    ghost var owner: seq<Owner>
    ghost var free: seq<nat>
    ghost var pending: seq<nat>
    ghost var link: int
    ghost var used: seq<bool>
    ghost var tickets: seq<nat>
    ghost var nextTicket: nat
    ghost var log: seq<nat>

    ghost function State(): Q
      reads this, wq
    {
      Q(wq[..], owner, free, pending, link, used, tickets, nextTicket, log, latestNsecs, pc, curr, currNsecs)
    }

    /** The four ends match the two lists; the end of an empty pending list is stale. */
    ghost predicate Ends()
      reads `freeSeq, `freeSeqEnd, `ioSeq, `ioSeqEnd, `free, `pending
    {
      && freeSeq == At(free, 0) && freeSeqEnd == At(free, |free| - 1)
      && ioSeq == At(pending, 0) && (0 < |pending| ==> ioSeqEnd == At(pending, |pending| - 1))
    }

    ghost predicate Valid()
      reads this, wq
    {
      QueueOk(State()) && Ends()
    }

    /** NVMEV_IO_WORKER_INIT for one worker with `n` slots. */
    constructor (n: nat)
      requires 0 < n
      ensures Valid() && State() == Initial(n)
      ensures wq.Length == n == |free| && pending == [] && link == -1 && pc == Idle
      ensures forall i :: 0 <= i < n ==> free[i] == i
    {
      hide QueueOk;
      wq := new Work[n](i => Work(0, 0, false, false, false, if i + 1 < n then i + 1 else -1, i - 1));
      freeSeq, freeSeqEnd, ioSeq, ioSeqEnd, latestNsecs := 0, n - 1, -1, -1, 0;
      pc, curr, currNsecs := Idle, -1, 0;
      owner, free, pending, link := seq(n, i => FreeSlot), seq(n, i => i), [], -1;
      used, tickets, nextTicket, log := seq(n, i => false), seq(n, i => 0), 0, [];
      new;
      InitialOk(n);
      assert wq[..] == Initial(n).wq;
    }

    // ---------- dispatcher ----------

    /** __allocate_work_queue_entry, and the initialisation of the slot in __enqueue_io_req or
        schedule_internal_operation.  With a single free slot left the request is dropped. */
    method AllocateAndInit(req: nat, target: nat, isInternal: bool) returns (ok: bool)
      requires Valid() && link == -1
      modifies this`freeSeq, this`owner, this`free, this`link, this`used, this`tickets, this`nextTicket, wq
      ensures Valid()
      ensures ok <==> 2 <= |old(free)|
      ensures !ok ==> State() == old(State())
      ensures ok ==> 0 <= link < wq.Length && link == old(freeSeq)
      ensures ok ==> wq[link].req == req && wq[link].target == target && wq[link].isInternal == isInternal
      ensures ok ==> wq[link].isCopied == isInternal && !wq[link].isCompleted
      ensures ok ==> && 2 <= |old(State()).free| && old(State()).free[0] < |old(State()).wq|
                     && |old(State()).wq| == |old(State()).owner| == |old(State()).used| == |old(State()).tickets|
                     && State() == AfterInit(old(State()), req, target, isInternal)
    {
      hide SlotsOk, LinksOk, UsedOk, CursorOk, DueOk, Sorted, Fifo, LogOk;
      ghost var q := State();
      FreeHead(q);
      var e := freeSeq;
      if wq[e].next == -1 {
        return false;
      }
      InitKeeps(q, req, target, isInternal);
      freeSeq := wq[e].next;
      wq[e] := Work(req, target, isInternal, isInternal, false, -1, -1);
      assert wq[..] == q.wq[e := Work(req, target, isInternal, isInternal, false, -1, -1)];
      owner, free, link := owner[e := LinkingSlot], free[1..], e;
      used, tickets, nextTicket := used[e := true], tickets[e := nextTicket], nextTicket + 1;
      ok := true;
    }

    /** The search of __insert_req_sorted, from the end of the list towards its head. */
    method FindPosition(target: nat) returns (at: int)
      requires Valid()
      ensures at == At(pending, InsertPos(wq[..], pending, latestNsecs, target, |pending|) - 1)
    {
      hide QueueOk, InsertPos, Chained, ChainedBack;
      PendingFacts(State());
      InsertPosUnfold(wq[..], pending, latestNsecs, target, 0);
      if ioSeq == -1 {
        return -1;
      }
      ghost var k: nat := |pending|;
      at := ioSeqEnd;
      while at != -1
        invariant 0 <= k <= |pending| && at == At(pending, k - 1)
        invariant InsertPos(wq[..], pending, latestNsecs, target, |pending|)
                  == InsertPos(wq[..], pending, latestNsecs, target, k)
        decreases k
      {
        PrevPending(State(), k - 1);
        InsertPosUnfold(wq[..], pending, latestNsecs, target, k);
        if wq[at].target <= latestNsecs {
          break;
        }
        if wq[at].target <= target {
          break;
        }
        at := wq[at].prev;
        k := k - 1;
      }
    }

    method PutNext(i: int, v: int)
      modifies wq
      ensures wq[..] == SetNext(old(wq[..]), i, v)
    {
      ghost var w := wq[..];
      if 0 <= i < wq.Length {
        wq[i] := wq[i].(next := v);
      }
      assert wq[..] == SetNext(w, i, v);
    }

    method PutPrev(i: int, v: int)
      modifies wq
      ensures wq[..] == SetPrev(old(wq[..]), i, v)
    {
      ghost var w := wq[..];
      if 0 <= i < wq.Length {
        wq[i] := wq[i].(prev := v);
      }
      assert wq[..] == SetPrev(w, i, v);
    }

    /** What __insert_req_sorted knows when its search ends at `curr`, behind `p` requests. */
    ghost predicate Placing(entry: nat, curr: int, p: nat)
      reads this`ioSeq, this`pending, wq
    {
      && entry < wq.Length && p <= |pending| && curr == At(pending, p - 1)
      && wq[entry].next == -1 && wq[entry].prev == -1
      && Chained(wq[..], pending) && ioSeq == At(pending, 0)
      && (forall i :: 0 <= i < |pending| ==> pending[i] < wq.Length && pending[i] != entry)
      && (forall i :: 0 < i < |pending| ==> pending[i - 1] != pending[i])
    }

    /** The pointer updates of __insert_req_sorted behind the slot `curr`, or at the head. */
    method LinkBehind(entry: nat, curr: int, ghost p: nat)
      requires Placing(entry, curr, p)
      modifies wq, `ioSeq, `ioSeqEnd
      ensures p <= |pending| && wq[..] == Relinked(old(wq[..]), pending, entry, p)
      ensures ioSeq == (if p == 0 then entry else old(ioSeq))
      ensures ioSeqEnd == (if p == |pending| then entry else old(ioSeqEnd))
    {
      hide Relinked, SetNext, SetPrev;
      ghost var w := wq[..];
      if ioSeq == -1 {
        RelinkOnly(w, entry);
        ioSeq := entry;
        ioSeqEnd := entry;
      } else {
        if curr == -1 {
          RelinkHead(w, pending, entry);
          var first := ioSeq;
          PutPrev(first, entry);
          PutNext(entry, first);
          ioSeq := entry;
        } else if wq[curr].next == -1 {
          RelinkTail(w, pending, entry);
          PutPrev(entry, curr);
          ioSeqEnd := entry;
          PutNext(curr, entry);
        } else {
          RelinkBetween(w, pending, entry, p);
          var after := wq[curr].next;
          PutPrev(entry, curr);
          PutNext(entry, after);
          PutPrev(after, entry);
          PutNext(curr, entry);
        }
      }
    }

    /** LinkBehind, with the pending list kept up to date. */
    method Place(entry: nat, curr: int, ghost p: nat)
      requires Placing(entry, curr, p) && Ends()
      modifies wq, `ioSeq, `ioSeqEnd, `pending
      ensures Ends() && p <= |old(pending)|
      ensures wq[..] == Relinked(old(wq[..]), old(pending), entry, p) && pending == Inserted(old(pending), entry, p)
    {
      hide Relinked, Inserted, IoWorker.Placing;
      PlacingBehind(entry, curr, p);
      ghost var l := Inserted(pending, entry, p);
      InsertedEnds(pending, entry, p);
      LinkBehind(entry, curr, p);
      pending := l;
    }

    /** __insert_req_sorted of the slot that was initialised last. */
    method InsertReqSorted(entry: nat)
      requires Valid() && entry == link
      modifies wq, `ioSeq, `ioSeqEnd, `owner, `pending, `link
      ensures Valid()
      ensures 0 <= old(State()).link < |old(State()).wq| && |old(State()).wq| == |old(State()).owner|
      ensures State() == AfterLink(old(State()))
    {
      hide QueueOk, AfterLink, Relinked, InsertPos, Inserted, Chained, ChainedBack, IoWorker.Ends, IoWorker.Placing;
      ghost var q := State();
      LinkKeeps(q);
      ghost var p := LinkPlace(q);
      var curr := FindPosition(wq[entry].target);
      ReadyToPlace(entry, curr, p);
      Place(entry, curr, p);
      owner, link := owner[entry := PendingSlot], -1;
      AfterLinkIs(q, entry, p, wq[..]);
    }

    lemma PlacingBehind(entry: nat, curr: int, p: nat)
      requires Placing(entry, curr, p)
      ensures p <= |pending|
    {
    }

    lemma ReadyToPlace(entry: nat, curr: int, p: nat)
      requires Valid() && entry == link && p <= |pending| && curr == At(pending, p - 1)
      ensures Placing(entry, curr, p)
    {
      hide QueueOk;
      LinkFacts(State());
    }

    /** The search of __reclaim_completed_reqs: the last request of the finished prefix. */
    method LastFinished() returns (lastEntry: int)
      requires Valid()
      ensures lastEntry == At(pending, ReclaimCount(State(), 0) - 1)
    {
      hide QueueOk, ReclaimCount, Reclaimable, Chained, ChainedBack;
      ghost var q := State();
      PendingFacts(q);
      lastEntry := -1;
      var curr := ioSeq;
      ghost var k: nat := 0;
      while curr != -1
        invariant 0 <= k <= |pending| && curr == At(pending, k) && lastEntry == At(pending, k - 1)
        invariant ReclaimCount(q, 0) == ReclaimCount(q, k)
        decreases |pending| - k
      {
        ReclaimUnfold(q, k);
        NextPending(q, k);
        var w := wq[curr];
        if w.isCompleted && w.isCopied && w.target <= latestNsecs {
          lastEntry := curr;
          curr := w.next;
          k := k + 1;
        } else {
          return;
        }
      }
      ReclaimUnfold(q, k);
    }

    /** The pointer updates of __reclaim_completed_reqs: the pending list up to `lastEntry` goes
        behind the free list. */
    method SpliceOut(lastEntry: int, ghost k: nat)
      requires 0 < k <= |pending| && lastEntry == At(pending, k - 1) && lastEntry < wq.Length
      requires wq[lastEntry].next == At(pending, k)
      requires ioSeq == At(pending, 0) && freeSeqEnd == At(free, |free| - 1)
      modifies wq, `ioSeq, `freeSeqEnd
      ensures wq[..] == Spliced(old(wq[..]), free, pending, k)
      ensures ioSeq == At(pending, k) && freeSeqEnd == lastEntry
    {
      hide SetNext, SetPrev;
      var firstEntry := ioSeq;
      var next := wq[lastEntry].next;
      ioSeq := next;
      PutPrev(next, -1);
      PutNext(lastEntry, -1);
      PutPrev(firstEntry, freeSeqEnd);
      PutNext(freeSeqEnd, firstEntry);
      freeSeqEnd := lastEntry;
    }

    /** SpliceOut, with the two lists kept up to date. */
    method MoveToFree(lastEntry: int, ghost k: nat)
      requires 0 < k <= |pending| && lastEntry == At(pending, k - 1) && lastEntry < wq.Length && 0 < |free|
      requires wq[lastEntry].next == At(pending, k) && Ends()
      modifies wq, `ioSeq, `freeSeqEnd, `pending, `free
      ensures Ends() && wq[..] == Spliced(old(wq[..]), old(free), old(pending), k)
      ensures pending == old(pending)[k..] && free == old(free) + old(pending)[..k]
    {
      hide Spliced;
      SplicedEnds(free, pending, k);
      SpliceOut(lastEntry, k);
      free, pending := free + pending[..k], pending[k..];
    }

    /** __reclaim_completed_reqs */
    method ReclaimCompletedReqs()
      requires Valid()
      modifies wq, `ioSeq, `freeSeqEnd, `owner, `pending, `free
      ensures Valid() && State() == AfterReclaim(old(State()))
      ensures exists k: nat :: k <= |old(pending)|
                && pending == old(pending)[k..] && free == old(free) + old(pending)[..k]
                && (forall i :: 0 <= i < k ==> Finished(old(wq[..]), old(pending)[i], latestNsecs))
                && (pending != [] ==> !Finished(old(wq[..]), pending[0], latestNsecs))
    {
      hide QueueOk, AfterReclaim, Spliced, ReclaimCount, Reclaimable, Chained, ChainedBack, IoWorker.Ends;
      ghost var q := State();
      ReclaimKeeps(q);
      ghost var k := ReclaimCount(q, 0);
      var lastEntry := LastFinished();
      if lastEntry != -1 {
        PendingFacts(q);
        NextPending(q, k - 1);
        MoveToFree(lastEntry, k);
        owner := AfterReclaim(q).owner;
      }
      AfterReclaimIs(q, k, wq[..]);
      FinishedPrefix(q, k);
    }

    // ---------- worker ----------

    /** The start of a pass of nvmev_io_worker. */
    method StartPass()
      requires Valid() && pc == Idle
      modifies `curr, `pc
      ensures Valid() && State() == AfterStart(old(State()))
      ensures curr == if pending == [] then -1 else pending[0]
      ensures pc == if pending == [] then Idle else Look
    {
      hide QueueOk;
      StartKeeps(State());
      curr := ioSeq;
      pc := if curr == -1 then Idle else Look;
    }

    /** Read the clock and publish it. */
    method PublishClock(now: nat)
      requires Valid() && pc == Look && latestNsecs <= now
      modifies `pc, `latestNsecs, `currNsecs
      ensures Valid() && State() == AfterLook(old(State()), now)
      ensures latestNsecs == currNsecs == now && pc == Check
    {
      hide QueueOk;
      LookKeeps(State(), now);
      currNsecs := now;
      latestNsecs := now;
      pc := Check;
    }

    /** Pass over a slot that is completed; any other is in use. */
    method CheckSlot() returns (skipped: bool)
      requires Valid() && pc == Check
      modifies `pc
      ensures Valid() && 0 <= curr < wq.Length && State() == AfterCheck(old(State()))
      ensures skipped <==> wq[curr].isCompleted
      ensures pc == if skipped then Advance else Copy
      ensures !skipped ==> State().owner[curr] != FreeSlot
    {
      hide QueueOk;
      CheckKeeps(State());
      skipped := wq[curr].isCompleted;
      pc := if skipped then Advance else Copy;
    }

    /** Copy the data of the request unless that is done. */
    method CopyData() returns (copied: bool)
      requires Valid() && pc == Copy
      modifies `pc, wq
      ensures Valid() && 0 <= old(curr) < wq.Length && State() == AfterCopy(old(State()))
      ensures copied <==> !old(State()).wq[old(curr)].isCopied
      ensures wq[curr].isCopied && curr == old(curr) && pc == Complete
    {
      hide QueueOk;
      ghost var q := State();
      CopyKeeps(q);
      copied := !wq[curr].isCopied;
      if copied {
        wq[curr] := wq[curr].(isCopied := true);
      }
      assert wq[..] == q.wq[curr := q.wq[curr].(isCopied := true)];
      pc := Complete;
    }

    /** Complete the request if it is due.  It was copied, and its ticket was never completed. */
    method CompleteIfDue() returns (completed: bool)
      requires Valid() && pc == Complete
      modifies `pc, `log, wq
      ensures Valid() && 0 <= old(curr) < wq.Length && |old(tickets)| == wq.Length
      ensures State() == AfterComplete(old(State()))
      ensures completed <==> old(State()).wq[old(curr)].target <= currNsecs
      ensures completed ==> wq[curr].isCompleted && old(State()).wq[old(curr)].isCopied
      ensures curr == old(curr) && pc == Advance
      ensures completed ==> old(tickets)[old(curr)] !in old(log) && log == old(log) + [old(tickets)[old(curr)]]
      ensures !completed ==> log == old(log)
    {
      hide QueueOk;
      ghost var q := State();
      CompleteKeeps(q);
      completed := wq[curr].target <= currNsecs;
      if completed {
        log := log + [tickets[curr]];
        wq[curr] := wq[curr].(isCompleted := true);
        assert wq[..] == q.wq[curr := q.wq[curr].(isCompleted := true)];
      }
      pc := Advance;
    }

    /** Follow the link, which the dispatcher may have changed meanwhile. */
    method AdvanceCursor()
      requires Valid() && pc == Advance
      modifies `curr, `pc
      ensures Valid() && 0 <= old(curr) < wq.Length && State() == AfterAdvance(old(State()))
      ensures curr == wq[old(curr)].next && pc == if curr == -1 then Idle else Look
    {
      hide QueueOk;
      AdvanceKeeps(State());
      curr := wq[curr].next;
      pc := if curr == -1 then Idle else Look;
    }
  }

  // ---------- facts the methods read off the invariant ----------

  lemma FreeHead(q: Q)
    requires QueueOk(q)
    ensures 0 < |q.free| && q.free[0] < |q.wq| && q.wq[q.free[0]].next == At(q.free, 1)
  {
    assert SlotsOk(q) && LinksOk(q);
  }

  lemma PendingFacts(q: Q)
    requires QueueOk(q)
    ensures Chained(q.wq, q.pending) && ChainedBack(q.wq, q.pending) && 0 < |q.free|
    ensures forall i :: 0 <= i < |q.pending| ==> q.pending[i] < |q.wq|
  {
  }

  lemma PrevPending(q: Q, k: nat)
    requires QueueOk(q) && k < |q.pending|
    ensures q.pending[k] < |q.wq| && q.wq[q.pending[k]].prev == At(q.pending, k - 1)
  {
    PendingFacts(q);
  }

  lemma InsertPosUnfold(wq: seq<Work>, pending: seq<nat>, latest: nat, target: nat, k: nat)
    requires k <= |pending| && (0 < k ==> pending[k - 1] < |wq|)
    ensures InsertPos(wq, pending, latest, target, k) ==
            if k == 0 || wq[pending[k - 1]].target <= latest || wq[pending[k - 1]].target <= target then k
            else InsertPos(wq, pending, latest, target, k - 1)
  {
  }

  lemma NextPending(q: Q, k: nat)
    requires QueueOk(q) && k < |q.pending|
    ensures q.pending[k] < |q.wq| && q.wq[q.pending[k]].next == At(q.pending, k + 1)
  {
    PendingFacts(q);
  }

  lemma LinkFacts(q: Q)
    requires QueueOk(q) && 0 <= q.link
    ensures Chained(q.wq, q.pending) && ChainedBack(q.wq, q.pending)
    ensures q.link < |q.wq| && q.wq[q.link].next == -1 && q.wq[q.link].prev == -1
    ensures forall i :: 0 <= i < |q.pending| ==> q.pending[i] < |q.wq| && q.pending[i] != q.link
    ensures forall i :: 0 < i < |q.pending| ==> q.pending[i - 1] != q.pending[i]
  {
    Distinct(q);
    OwnerOf(q, q.link);
  }

  /** Where the slot that waits to be linked belongs. */
  ghost function LinkPlace(q: Q): (p: nat)
    requires QueueOk(q) && 0 <= q.link
    ensures q.link < |q.wq|
            && p == InsertPos(q.wq, q.pending, q.latest, q.wq[q.link].target, |q.pending|) <= |q.pending|
  {
    LinkFacts(q);
    InsertPos(q.wq, q.pending, q.latest, q.wq[q.link].target, |q.pending|)
  }

  lemma InsertedEnds(l: seq<nat>, e: nat, p: nat)
    requires p <= |l|
    ensures |Inserted(l, e, p)| == |l| + 1
    ensures At(Inserted(l, e, p), 0) == if p == 0 then e else At(l, 0)
    ensures At(Inserted(l, e, p), |l|) == if p == |l| then e else At(l, |l| - 1)
  {
    InsertedAt(l, e, p, 0);
    InsertedAt(l, e, p, |l|);
  }

  lemma AfterLinkIs(q: Q, e: nat, p: nat, wq: seq<Work>)
    requires 0 <= q.link == e < |q.wq| && |q.wq| == |q.owner|
    requires p == InsertPos(q.wq, q.pending, q.latest, q.wq[e].target, |q.pending|)
             && wq == Relinked(q.wq, q.pending, e, p)
    ensures AfterLink(q) ==
            q.(wq := wq, owner := q.owner[e := PendingSlot], pending := Inserted(q.pending, e, p), link := -1)
  {
  }

  lemma ReclaimUnfold(q: Q, k: nat)
    requires k <= |q.pending|
    ensures ReclaimCount(q, k) ==
            if k == |q.pending| || !Reclaimable(q, q.pending[k]) then k else ReclaimCount(q, k + 1)
    ensures k < |q.pending| && q.pending[k] < |q.wq| ==>
              (Reclaimable(q, q.pending[k]) <==>
               q.wq[q.pending[k]].isCompleted && q.wq[q.pending[k]].isCopied && q.wq[q.pending[k]].target <= q.latest)
  {
  }

  /** The request in slot `b` was completed and copied, and is due. */
  predicate Finished(wq: seq<Work>, b: nat, latest: nat) {
    b < |wq| && wq[b].isCompleted && wq[b].isCopied && wq[b].target <= latest
  }

  lemma FinishedPrefix(q: Q, k: nat)
    requires k == ReclaimCount(q, 0)
    ensures k <= |q.pending| && q.pending[0..] == q.pending && q.pending[..0] == [] && q.free + [] == q.free
    ensures forall i :: 0 <= i < k ==> Finished(q.wq, q.pending[i], q.latest)
    ensures k < |q.pending| ==> !Finished(q.wq, q.pending[k], q.latest)
    ensures k < |q.pending| ==> q.pending[k..][0] == q.pending[k]
  {
  }

  lemma SplicedEnds(free: seq<nat>, pending: seq<nat>, k: nat)
    requires 0 < k <= |pending| && 0 < |free|
    ensures At(free + pending[..k], 0) == At(free, 0)
    ensures At(free + pending[..k], |free| + k - 1) == At(pending, k - 1)
    ensures At(pending[k..], 0) == At(pending, k)
    ensures At(pending[k..], |pending| - k - 1) == if k == |pending| then -1 else At(pending, |pending| - 1)
  {
  }

  lemma AfterReclaimIs(q: Q, k: nat, wq: seq<Work>)
    requires QueueOk(q) && k == ReclaimCount(q, 0) && (0 < k ==> wq == Spliced(q.wq, q.free, q.pending, k))
    ensures k == 0 ==> AfterReclaim(q) == q
    ensures 0 < k ==> (AfterReclaim(q) ==
            q.(wq := wq, owner := AfterReclaim(q).owner, pending := q.pending[k..], free := q.free + q.pending[..k]))
  {
  }
}
