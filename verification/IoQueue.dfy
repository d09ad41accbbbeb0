/** The I/O work queue of io.c as values: one array of slots carries a free list and a pending
    list.  The dispatcher takes slots from the front of the free list, links them into the pending
    list in order of target time, and gives finished ones back to the end of the free list; the
    worker walks the `next` links with a cursor that the dispatcher does not know about. */
module IoQueue {
  import opened Sequences

  /** struct nvmev_io_work; -1 ends a list.  `req` names the request the slot carries. */
  datatype Work = Work(req: nat, target: nat, isInternal: bool, isCopied: bool, isCompleted: bool, next: int, prev: int)

  datatype Owner = FreeSlot | PendingSlot | LinkingSlot

  /** Where the worker is in its pass: between passes, about to publish the clock for the slot under
      the cursor, about to check whether it is completed, about to copy its data, about to complete
      it, or about to move on. */
  datatype Pc = Idle | Look | Check | Copy | Complete | Advance

  /** The queue of one worker.  `link` is the slot that is initialised but not linked yet, or -1.
      `tickets` number the uses of each slot in order of arrival, and `log` lists the tickets of the
      completed requests. */
  datatype Q = Q(
    wq: seq<Work>,
    owner: seq<Owner>,
    free: seq<nat>,
    pending: seq<nat>,
    link: int,
    used: seq<bool>,
    tickets: seq<nat>,
    nextTicket: nat,
    log: seq<nat>,
    latest: nat,
    pc: Pc,
    curr: int,
    now: nat)

  ghost predicate Owns(owner: seq<Owner>, l: seq<nat>, x: Owner) {
    NoDup(l) && forall b: nat :: b in l <==> b < |owner| && owner[b] == x
  }

  /** Every slot is in the free list, in the pending list, or the one being linked. */
  ghost predicate SlotsOk(q: Q) {
    && |q.wq| == |q.owner| == |q.used| == |q.tickets|
    && Owns(q.owner, q.free, FreeSlot) && 0 < |q.free|
    && Owns(q.owner, q.pending, PendingSlot)
    && -1 <= q.link < |q.owner| && forall b: nat :: b < |q.owner| ==> (q.owner[b] == LinkingSlot <==> b == q.link)
  }

  /** Entry `i` of a list, or -1 outside it. */
  function At(l: seq<nat>, i: int): int {
    if 0 <= i < |l| then l[i] else -1
  }

  /** The `next` links of `l` spell out `l`. */
  ghost predicate Chained(wq: seq<Work>, l: seq<nat>) {
    forall i :: 0 <= i < |l| ==> l[i] < |wq| && wq[l[i]].next == At(l, i + 1)
  }

  /** The `prev` links of `l` spell it out backwards. */
  ghost predicate ChainedBack(wq: seq<Work>, l: seq<nat>) {
    forall i :: 0 <= i < |l| ==> l[i] < |wq| && wq[l[i]].prev == At(l, i - 1)
  }

  ghost predicate LinksOk(q: Q) {
    && Chained(q.wq, q.free) && Chained(q.wq, q.pending) && ChainedBack(q.wq, q.pending)
    && (0 <= q.link < |q.wq| ==> q.wq[q.link].next == -1 && q.wq[q.link].prev == -1)
  }

  /** The slots never used come first in the free list; the others there are recycled, which only
      happens to copied and completed requests. */
  ghost predicate UsedOk(q: Q) {
    && |q.wq| == |q.owner| == |q.used|
    && (forall b: nat :: b < |q.used| && q.owner[b] != FreeSlot ==> q.used[b])
    && (forall i, j ::
          (0 <= i < j < |q.free| && q.free[j] < |q.used| && q.free[i] < |q.used| && q.used[q.free[i]])
          ==> q.used[q.free[j]])
    && (forall b: nat :: b < |q.used| && q.owner[b] == FreeSlot && q.used[b] ==>
          q.wq[b].isCopied && q.wq[b].isCompleted)
  }

  /** The cursor only ever points at slots used at least once; while a request is copied and
      completed its slot is not free and the request is not completed yet. */
  ghost predicate CursorOk(q: Q) {
    && |q.wq| == |q.owner| == |q.used|
    && (q.pc == Idle <==> q.curr == -1)
    && (q.curr != -1 ==> 0 <= q.curr < |q.wq| && q.used[q.curr])
    && (q.pc == Copy || q.pc == Complete ==> q.owner[q.curr] != FreeSlot && !q.wq[q.curr].isCompleted)
    && (q.pc == Complete ==> q.wq[q.curr].isCopied)
    && q.now <= q.latest
  }

  /** A completed request was copied and was due. */
  ghost predicate DueOk(q: Q) {
    |q.wq| == |q.owner| &&
    forall b: nat :: b < |q.wq| && q.owner[b] != FreeSlot && q.wq[b].isCompleted ==>
      q.wq[b].isCopied && q.wq[b].target <= q.latest
  }

  function Max(a: nat, b: nat): nat { if a < b then b else a }

  /** The pending list is sorted by target, where everything that is due counts as equal. */
  ghost predicate Sorted(wq: seq<Work>, pending: seq<nat>, latest: nat) {
    forall i, j :: 0 <= i < j < |pending| && pending[i] < |wq| && pending[j] < |wq| ==>
      Max(wq[pending[i]].target, latest) <= Max(wq[pending[j]].target, latest)
  }

  /** Requests with equal targets are in order of arrival. */
  ghost predicate Fifo(wq: seq<Work>, tickets: seq<nat>, pending: seq<nat>) {
    |tickets| == |wq| &&
    forall i, j ::
      (0 <= i < j < |pending| && pending[i] < |wq| && pending[j] < |wq|
       && wq[pending[i]].target == wq[pending[j]].target) ==> tickets[pending[i]] < tickets[pending[j]]
  }

  /** Each ticket is completed at most once, and the log has exactly the completed ones among the
      slots in use. */
  ghost predicate LogOk(q: Q) {
    && |q.wq| == |q.owner| == |q.used| == |q.tickets|
    && NoDup(q.log) && (forall t :: t in q.log ==> t < q.nextTicket)
    && (forall b: nat :: b < |q.wq| && q.used[b] ==> q.tickets[b] < q.nextTicket)
    && (forall a: nat, b: nat :: a < b < |q.wq| && q.used[a] && q.used[b] ==> q.tickets[a] != q.tickets[b])
    && (forall b: nat :: b < |q.wq| && q.used[b] ==> (q.wq[b].isCompleted <==> q.tickets[b] in q.log))
    && (0 <= q.link < |q.wq| ==> forall b: nat :: b in q.pending && b < |q.wq| ==> q.tickets[b] < q.tickets[q.link])
  }

  ghost predicate QueueOk(q: Q) {
    && SlotsOk(q) && LinksOk(q) && UsedOk(q) && CursorOk(q) && DueOk(q)
    && Sorted(q.wq, q.pending, q.latest) && Fifo(q.wq, q.tickets, q.pending) && LogOk(q)
  }

  // ---------- what the order means ----------

  /** The requests that are due form a prefix of the pending list: none of them is stuck behind a
      request that is not due. */
  lemma DueFormPrefix(q: Q, i: nat, j: nat)
    requires QueueOk(q) && i < j < |q.pending|
    ensures q.pending[i] < |q.wq| && q.pending[j] < |q.wq|
    ensures q.wq[q.pending[j]].target <= q.latest ==> q.wq[q.pending[i]].target <= q.latest
  {
    assert q.pending[i] in q.pending && q.pending[j] in q.pending;
  }

  /** Time passing keeps the list sorted. */
  lemma SortedLater(wq: seq<Work>, pending: seq<nat>, latest: nat, later: nat)
    requires Sorted(wq, pending, latest) && latest <= later
    ensures Sorted(wq, pending, later)
  {
  }

  // ---------- the dispatcher's steps ----------

  /** __allocate_work_queue_entry and the initialisation up to the memory barrier, when a second
      free slot exists. */
  function AfterInit(q: Q, req: nat, target: nat, isInternal: bool): Q
    requires 2 <= |q.free| && q.free[0] < |q.wq| && |q.wq| == |q.owner| == |q.used| == |q.tickets|
  {
    var e := q.free[0];
    q.(wq := q.wq[e := Work(req, target, isInternal, isInternal, false, -1, -1)],
       owner := q.owner[e := LinkingSlot], free := q.free[1..], link := e,
       used := q.used[e := true], tickets := q.tickets[e := q.nextTicket], nextTicket := q.nextTicket + 1)
  }

  /** Where __insert_req_sorted stops on its way back from the end of the list: before the first
      request, or after the last one that is due or has no later target. */
  function InsertPos(wq: seq<Work>, pending: seq<nat>, latest: nat, target: nat, k: nat): (p: nat)
    requires k <= |pending|
    ensures p <= k
  {
    if k == 0 || pending[k - 1] >= |wq| then k
    else if wq[pending[k - 1]].target <= latest || wq[pending[k - 1]].target <= target then k
    else InsertPos(wq, pending, latest, target, k - 1)
  }

  function SetNext(wq: seq<Work>, i: int, v: int): seq<Work> {
    if 0 <= i < |wq| then wq[i := wq[i].(next := v)] else wq
  }

  function SetPrev(wq: seq<Work>, i: int, v: int): seq<Work> {
    if 0 <= i < |wq| then wq[i := wq[i].(prev := v)] else wq
  }

  /** The links of __insert_req_sorted around slot `e` at position `p`. */
  function Relinked(wq: seq<Work>, pending: seq<nat>, e: nat, p: nat): seq<Work> {
    SetPrev(SetNext(SetNext(SetPrev(wq, e, At(pending, p - 1)), e, At(pending, p)), At(pending, p - 1), e),
            At(pending, p), e)
  }

  function Inserted(l: seq<nat>, e: nat, p: nat): seq<nat>
    requires p <= |l|
  {
    l[..p] + [e] + l[p..]
  }

  /** __insert_req_sorted of the initialised slot. */
  function AfterLink(q: Q): Q
    requires 0 <= q.link < |q.wq| && |q.wq| == |q.owner|
  {
    var e: nat := q.link;
    var p := InsertPos(q.wq, q.pending, q.latest, q.wq[e].target, |q.pending|);
    q.(wq := Relinked(q.wq, q.pending, e, p), owner := q.owner[e := PendingSlot],
       pending := Inserted(q.pending, e, p), link := -1)
  }

  predicate Reclaimable(q: Q, b: nat) {
    b < |q.wq| && q.wq[b].isCompleted && q.wq[b].isCopied && q.wq[b].target <= q.latest
  }

  /** The length of the longest reclaimable prefix of the pending list, from `k` on. */
  function ReclaimCount(q: Q, k: nat): (n: nat)
    requires k <= |q.pending|
    ensures k <= n <= |q.pending|
    ensures forall i :: k <= i < n ==> Reclaimable(q, q.pending[i])
    ensures n < |q.pending| ==> !Reclaimable(q, q.pending[n])
    decreases |q.pending| - k
  {
    if k == |q.pending| || !Reclaimable(q, q.pending[k]) then k else ReclaimCount(q, k + 1)
  }

  /** The links of __reclaim_completed_reqs when the first `k` requests move to the end of the free
      list. */
  function Spliced(wq: seq<Work>, free: seq<nat>, pending: seq<nat>, k: nat): seq<Work> {
    SetNext(SetPrev(SetNext(SetPrev(wq, At(pending, k), -1), At(pending, k - 1), -1),
                    At(pending, 0), At(free, |free| - 1)),
            At(free, |free| - 1), At(pending, 0))
  }

  /** __reclaim_completed_reqs */
  function AfterReclaim(q: Q): Q {
    var k := ReclaimCount(q, 0);
    if k == 0 then q else
    q.(wq := Spliced(q.wq, q.free, q.pending, k),
       owner := seq(|q.owner|, b requires 0 <= b < |q.owner| => if b in q.pending[..k] then FreeSlot else q.owner[b]),
       pending := q.pending[k..], free := q.free + q.pending[..k])
  }

  // ---------- the worker's steps ----------

  function MovedTo(q: Q, c: int): Q {
    q.(curr := c, pc := if c == -1 then Idle else Look)
  }

  /** The start of a pass. */
  function AfterStart(q: Q): Q {
    MovedTo(q, At(q.pending, 0))
  }

  /** Read the clock and publish it. */
  function AfterLook(q: Q, now: nat): Q {
    q.(latest := now, now := now, pc := Check)
  }

  /** Pass over the slot under the cursor if it is completed. */
  function AfterCheck(q: Q): Q
    requires 0 <= q.curr < |q.wq|
  {
    q.(pc := if q.wq[q.curr].isCompleted then Advance else Copy)
  }

  function AfterCopy(q: Q): Q
    requires 0 <= q.curr < |q.wq|
  {
    q.(wq := q.wq[q.curr := q.wq[q.curr].(isCopied := true)], pc := Complete)
  }

  function AfterComplete(q: Q): Q
    requires 0 <= q.curr < |q.wq| && |q.tickets| == |q.wq|
  {
    if q.wq[q.curr].target <= q.now
    then q.(wq := q.wq[q.curr := q.wq[q.curr].(isCompleted := true)], log := q.log + [q.tickets[q.curr]], pc := Advance)
    else q.(pc := Advance)
  }

  function AfterAdvance(q: Q): Q
    requires 0 <= q.curr < |q.wq|
  {
    MovedTo(q, q.wq[q.curr].next)
  }
}
