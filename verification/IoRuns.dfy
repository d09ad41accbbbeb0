/** What runs of the work queue of io.c mean for the requests that were put into it: each is reported
    with its own request and target, its data is copied once, and a pass that nobody disturbs serves
    everything that is due. */
module IoRuns {
  import opened Sequences
  import opened IoQueue
  import opened IoSteps

  /** What the dispatcher was given for a request. */
  datatype Asked = Asked(req: nat, target: nat, isInternal: bool)

  /** The requests of a run, in order of arrival: the place of a request here is its ticket. */
  function Requests(es: seq<Event>): seq<Asked> {
    if es == [] then [] else RequestOf(es[0]) + Requests(es[1..])
  }

  function RequestOf(e: Event): seq<Asked> {
    if e.EvInit? then [Asked(e.req, e.target, e.isInternal)] else []
  }

  /** The event copies the data of the request under the cursor. */
  predicate CopiesData(q: Q, e: Event) {
    e.EvCopy? && 0 <= q.curr < |q.wq| && |q.tickets| == |q.wq| && !q.wq[q.curr].isCopied
  }

  function CopyOf(q: Q, e: Event): seq<nat> {
    if CopiesData(q, e) then [q.tickets[q.curr]] else []
  }

  /** The tickets of the requests whose data is copied, in order. */
  ghost function Copies(q: Q, es: seq<Event>): seq<nat>
    requires QueueOk(q) && Possible(q, es)
    decreases |es|
  {
    if es == [] then [] else StepKeeps(q, es[0]); CopyOf(q, es[0]) + Copies(Apply(q, es[0]), es[1..])
  }

  /** The clock the worker read last. */
  function LastClock(clock: nat, es: seq<Event>): nat
    decreases |es|
  {
    if es == [] then clock else LastClock(if es[0].EvLook? then es[0].now else clock, es[1..])
  }

  // ---------- the queue keeps what it was given ----------

  /** The slot `b` carries the request of its ticket, and its data is copied exactly when that was
      done or never asked for. */
  ghost predicate SlotKept(q: Q, asked: seq<Asked>, copied: seq<nat>, b: nat)
    requires b < |q.wq| == |q.tickets|
  {
    q.tickets[b] < |asked| &&
    var w, a := q.wq[b], asked[q.tickets[b]];
    a == Asked(w.req, w.target, w.isInternal) && (w.isCopied <==> a.isInternal || q.tickets[b] in copied)
  }

  ghost predicate Kept(q: Q, asked: seq<Asked>, copied: seq<nat>) {
    && |asked| == q.nextTicket && |q.wq| == |q.used| == |q.tickets|
    && (forall b: nat :: b < |q.wq| && q.used[b] ==> SlotKept(q, asked, copied, b))
    && NoDup(copied) && (forall t :: t in copied ==> t < |asked| && !asked[t].isInternal)
    && (forall t :: t in q.log ==> t < |asked| && (asked[t].isInternal || t in copied))
  }

  lemma InitKept(q: Q, asked: seq<Asked>, copied: seq<nat>, req: nat, target: nat, isInternal: bool)
    requires QueueOk(q) && Kept(q, asked, copied) && 2 <= |q.free|
    ensures q.free[0] < |q.wq| && |q.wq| == |q.owner| == |q.used| == |q.tickets|
    ensures Kept(AfterInit(q, req, target, isInternal), asked + [Asked(req, target, isInternal)], copied)
  {
    hide LinksOk, UsedOk, CursorOk, DueOk, Sorted, Fifo, LogOk;
    Distinct(q);
    var r := AfterInit(q, req, target, isInternal);
    var all := asked + [Asked(req, target, isInternal)];
    forall b: nat | b < |r.wq| && r.used[b] ensures SlotKept(r, all, copied, b) {
      if b != q.free[0] {
        assert SlotKept(q, asked, copied, b);
      }
    }
  }

  /** Only links change. */
  lemma LinksKept(q: Q, r: Q, asked: seq<Asked>, copied: seq<nat>)
    requires Kept(q, asked, copied) && SameData(q.wq, r.wq)
    requires r.used == q.used && r.tickets == q.tickets && r.nextTicket == q.nextTicket && r.log == q.log
    ensures Kept(r, asked, copied)
  {
    forall b: nat | b < |r.wq| && r.used[b] ensures SlotKept(r, asked, copied, b) {
      assert SlotKept(q, asked, copied, b);
    }
  }

  lemma CopyKept(q: Q, asked: seq<Asked>, copied: seq<nat>)
    requires QueueOk(q) && Kept(q, asked, copied) && q.pc == Copy
    ensures 0 <= q.curr < |q.wq| && Kept(AfterCopy(q), asked, copied + CopyOf(q, EvCopy))
  {
    hide LinksOk, UsedOk, DueOk, Sorted, Fifo, SlotsOk;
    var r, more := AfterCopy(q), copied + CopyOf(q, EvCopy);
    assert SlotKept(q, asked, copied, q.curr);
    forall b: nat | b < |r.wq| && r.used[b] ensures SlotKept(r, asked, more, b) {
      assert SlotKept(q, asked, copied, b);
      assert b != q.curr ==> q.tickets[b] != q.tickets[q.curr];
    }
  }

  lemma CompleteKept(q: Q, asked: seq<Asked>, copied: seq<nat>)
    requires QueueOk(q) && Kept(q, asked, copied) && q.pc == Complete
    ensures 0 <= q.curr < |q.wq| && |q.tickets| == |q.wq| && Kept(AfterComplete(q), asked, copied)
    ensures SlotKept(q, asked, copied, q.curr) && q.wq[q.curr].isCopied
  {
    hide LinksOk, UsedOk, DueOk, Sorted, Fifo, SlotsOk, LogOk;
    var r := AfterComplete(q);
    assert SlotKept(q, asked, copied, q.curr);
    forall b: nat | b < |r.wq| && r.used[b] ensures SlotKept(r, asked, copied, b) {
      assert SlotKept(q, asked, copied, b);
    }
  }

  lemma LinkSameData(q: Q)
    requires CanLink(q)
    ensures q.link < |q.wq| && |q.wq| == |q.owner| && SameData(q.wq, AfterLink(q).wq)
  {
    hide LinksOk, UsedOk, CursorOk, DueOk, Sorted, Fifo, LogOk, Relinked, InsertPos;
    RelinkedSame(q.wq, q.pending, q.link, InsertPos(q.wq, q.pending, q.latest, q.wq[q.link].target, |q.pending|));
  }

  lemma ReclaimSameData(q: Q)
    requires QueueOk(q)
    ensures SameData(q.wq, AfterReclaim(q).wq)
  {
    hide LinksOk, UsedOk, CursorOk, DueOk, Sorted, Fifo, LogOk, Spliced, ReclaimCount;
    if 0 < ReclaimCount(q, 0) {
      SplicedSame(q.wq, q.free, q.pending, ReclaimCount(q, 0));
    }
  }

  lemma StepKept(q: Q, e: Event, asked: seq<Asked>, copied: seq<nat>)
    requires QueueOk(q) && Enabled(q, e) && Kept(q, asked, copied)
    ensures Kept(Apply(q, e), asked + RequestOf(e), copied + CopyOf(q, e))
  {
    hide QueueOk, Kept, AfterInit, Relinked, Spliced, InsertPos, ReclaimCount, AfterCopy, AfterComplete;
    assert e.EvInit? || asked + RequestOf(e) == asked;
    assert e.EvCopy? || copied + CopyOf(q, e) == copied;
    match e
    case EvInit(req, target, isInternal) => InitKept(q, asked, copied, req, target, isInternal);
    case EvLink => LinkSameData(q); LinksKept(q, Apply(q, e), asked, copied);
    case EvReclaim => ReclaimSameData(q); LinksKept(q, Apply(q, e), asked, copied);
    case EvCopy => CopyKept(q, asked, copied);
    case EvComplete => CompleteKept(q, asked, copied);
    case EvStart => LinksKept(q, Apply(q, e), asked, copied);
    case EvLook(now) => LinksKept(q, Apply(q, e), asked, copied);
    case EvCheck => CheckKeeps(q); LinksKept(q, Apply(q, e), asked, copied);
    case EvAdvance => AdvanceKeeps(q); LinksKept(q, Apply(q, e), asked, copied);
  }

  // ---------- runs, by the events alone ----------

  /** A completion reports what was asked for under its ticket, no earlier than its target, and with
      the data copied unless the request is internal. */
  ghost predicate Fulfils(d: Done, asked: seq<Asked>, copied: seq<nat>) {
    && d.ticket < |asked| && asked[d.ticket].req == d.req
    && asked[d.ticket].target == d.target <= d.time
    && (asked[d.ticket].isInternal || d.ticket in copied)
  }

  lemma {:induction false} RunKept(q: Q, es: seq<Event>, asked: seq<Asked>, copied: seq<nat>)
    requires QueueOk(q) && Possible(q, es) && Kept(q, asked, copied)
    ensures QueueOk(Final(q, es)) && Kept(Final(q, es), asked + Requests(es), copied + Copies(q, es))
    ensures forall d :: d in Completions(q, es) ==> Fulfils(d, asked + Requests(es), copied + Copies(q, es))
    decreases |es|
  {
    hide QueueOk, Kept, Apply, Fulfils, RequestOf, CopyOf, Enabled, Completes;
    if es == [] {
      assert asked + [] == asked && copied + [] == copied;
    } else {
      var e, r := es[0], Apply(q, es[0]);
      StepKeeps(q, e);
      StepKept(q, e, asked, copied);
      RunKept(r, es[1..], asked + RequestOf(e), copied + CopyOf(q, e));
      Associative(asked, RequestOf(e), Requests(es[1..]));
      Associative(copied, CopyOf(q, e), Copies(r, es[1..]));
      if Completes(q, e) {
        FirstFulfils(q, e, asked, copied, Requests(es), Copies(q, es));
      }
    }
  }

  lemma Associative<T>(a: seq<T>, b: seq<T>, c: seq<T>)
    ensures a + b + c == a + (b + c)
  {
  }

  lemma FirstFulfils(q: Q, e: Event, asked: seq<Asked>, copied: seq<nat>, a: seq<Asked>, c: seq<nat>)
    requires QueueOk(q) && Enabled(q, e) && Kept(q, asked, copied) && Completes(q, e)
    ensures Fulfils(Done(q.tickets[q.curr], q.wq[q.curr].req, q.wq[q.curr].target, q.now), asked + a, copied + c)
  {
    hide QueueOk, Kept;
    CompleteKept(q, asked, copied);
  }

  lemma NothingKept(n: nat)
    ensures Kept(Initial(n), [], [])
  {
  }

  /** In every run from the start, with any interleaving: the completion with ticket t reports the
      request that the t-th arrival asked for, no earlier than the target it asked for; the data of a
      host request is copied before that, and once; data of internal ones never is. */
  lemma RunsFulfil(n: nat, es: seq<Event>)
    requires 0 < n && QueueOk(Initial(n)) && Possible(Initial(n), es)
    ensures var asked, copied := Requests(es), Copies(Initial(n), es);
            && (forall d :: d in Completions(Initial(n), es) ==>
                  && d.ticket < |asked| && asked[d.ticket].req == d.req
                  && asked[d.ticket].target == d.target <= d.time
                  && (asked[d.ticket].isInternal || d.ticket in copied))
            && NoDup(copied) && (forall t :: t in copied ==> t < |asked| && !asked[t].isInternal)
  {
    hide QueueOk, Initial;
    NothingKept(n);
    RunKept(Initial(n), es, [], []);
    assert [] + Requests(es) == Requests(es) && [] + Copies(Initial(n), es) == Copies(Initial(n), es);
  }

  /** The time of a completion is the clock that the worker read last. */
  lemma {:induction false} ClockIsRead(q: Q, es: seq<Event>)
    requires QueueOk(q) && Possible(q, es)
    ensures Final(q, es).now == LastClock(q.now, es)
    decreases |es|
  {
    hide QueueOk, AfterReclaim, Relinked, InsertPos;
    if es != [] {
      StepKeeps(q, es[0]);
      ClockIsRead(Apply(q, es[0]), es[1..]);
      ReclaimClock(q);
    }
  }

  lemma ReclaimClock(q: Q)
    ensures AfterReclaim(q).now == q.now
  {
  }

  // ---------- a pass that nobody disturbs ----------

  predicate IsWorkers(e: Event) { e.EvStart? || e.EvLook? || e.EvCheck? || e.EvCopy? || e.EvComplete? || e.EvAdvance? }

  ghost predicate OnlyWorker(es: seq<Event>) { forall e :: e in es ==> IsWorkers(e) }

  lemma {:induction false} Chain(q: Q, a: seq<Event>, b: seq<Event>)
    requires QueueOk(q) && Possible(q, a) && QueueOk(Final(q, a)) && Possible(Final(q, a), b)
    ensures Possible(q, a + b) && Final(q, a + b) == Final(Final(q, a), b)
    decreases |a|
  {
    hide QueueOk, Apply;
    if a == [] {
      assert a + b == b;
    } else {
      StepKeeps(q, a[0]);
      Chain(Apply(q, a[0]), a[1..], b);
      assert (a + b)[0] == a[0] && (a + b)[1..] == a[1..] + b;
    }
  }

  lemma One(q: Q, e: Event)
    requires QueueOk(q) && Enabled(q, e)
    ensures Possible(q, [e]) && Final(q, [e]) == Apply(q, e) && QueueOk(Apply(q, e))
  {
    hide QueueOk, Apply, Enabled;
    StepKeeps(q, e);
    assert [e][1..] == [];
    assert Possible(Apply(q, e), []);
  }

  lemma Then(q: Q, a: seq<Event>, r: Q, e: Event)
    requires QueueOk(q) && Possible(q, a) && Final(q, a) == r && QueueOk(r) && Enabled(r, e)
    ensures Possible(q, a + [e]) && Final(q, a + [e]) == Apply(r, e) && QueueOk(Apply(r, e))
  {
    hide QueueOk, Apply, Enabled;
    One(r, e);
    Chain(q, a, [e]);
  }

  /** What the worker makes of one slot when it looks at it at `now`. */
  function Served(w: Work, now: nat): Work {
    if w.isCompleted then w else w.(isCopied := true, isCompleted := w.target <= now)
  }

  /** From the slot at place `i` of the pending list the worker goes on to the next one. */
  lemma Round(q: Q, i: nat, now: nat) returns (es: seq<Event>, r: Q)
    requires QueueOk(q) && q.pc == Look && i < |q.pending| && q.curr == q.pending[i] && q.latest <= now
    ensures Possible(q, es) && Final(q, es) == r && QueueOk(r) && OnlyWorker(es)
    ensures q.curr < |q.wq| && r.wq == q.wq[q.curr := Served(q.wq[q.curr], now)]
    ensures r.pending == q.pending && r.link == q.link && r.latest == now
    ensures r.curr == At(q.pending, i + 1) && r.pc == if r.curr == -1 then Idle else Look
  {
    hide QueueOk, Apply;
    NextLink(q, i);
    One(q, EvLook(now));
    var q1 := Looked(q, now);
    es := [EvLook(now)];
    Then(q, es, q1, EvCheck);
    var q2 := Checked(q1);
    es := es + [EvCheck];
    if !q.wq[q.curr].isCompleted {
      Then(q, es, q2, EvCopy);
      var q3 := Copied(q2);
      es := es + [EvCopy];
      Then(q, es, q3, EvComplete);
      q2 := CompletedAt(q3);
      es := es + [EvComplete];
    }
    Then(q, es, q2, EvAdvance);
    es := es + [EvAdvance];
    r := Advanced(q2);
  }

  lemma NextLink(q: Q, i: nat)
    requires QueueOk(q) && i < |q.pending|
    ensures q.pending[i] < |q.wq| && q.wq[q.pending[i]].next == At(q.pending, i + 1) && q.pending[i] in q.pending
    ensures |q.wq| == |q.owner| == |q.tickets|
  {
  }

  lemma Looked(q: Q, now: nat) returns (r: Q)
    requires QueueOk(q) && q.pc == Look && q.latest <= now
    ensures IsApplied(q, EvLook(now), r) && r == q.(latest := now, now := now, pc := Check)
  {
    hide QueueOk;
    r := AfterLook(q, now);
  }

  lemma Checked(q: Q) returns (r: Q)
    requires QueueOk(q) && q.pc == Check && 0 <= q.curr < |q.wq|
    ensures IsApplied(q, EvCheck, r) && r == q.(pc := if q.wq[q.curr].isCompleted then Advance else Copy)
  {
    hide QueueOk;
    CheckKeeps(q);
    r := AfterCheck(q);
  }

  ghost predicate IsApplied(q: Q, e: Event, r: Q) {
    QueueOk(q) && Enabled(q, e) && r == Apply(q, e)
  }

  function CopiedAt(wq: seq<Work>, b: int): seq<Work> {
    if 0 <= b < |wq| then wq[b := wq[b].(isCopied := true)] else wq
  }

  function CompletedIfDue(wq: seq<Work>, b: int, now: nat): seq<Work> {
    if 0 <= b < |wq| then wq[b := wq[b].(isCompleted := wq[b].target <= now)] else wq
  }

  lemma Copied(q: Q) returns (r: Q)
    requires QueueOk(q) && q.pc == Copy && 0 <= q.curr < |q.wq|
    ensures r == q.(wq := CopiedAt(q.wq, q.curr), pc := Complete) && IsApplied(q, EvCopy, r)
  {
    hide QueueOk;
    CopyKeeps(q);
    r := AfterCopy(q);
  }

  lemma CompletedAt(q: Q) returns (r: Q)
    requires QueueOk(q) && q.pc == Complete && 0 <= q.curr < |q.wq| && !q.wq[q.curr].isCompleted
    ensures IsApplied(q, EvComplete, r)
    ensures r == q.(wq := CompletedIfDue(q.wq, q.curr, q.now), log := r.log, pc := Advance)
  {
    hide QueueOk;
    CompleteKeeps(q);
    r := AfterComplete(q);
  }

  lemma Advanced(q: Q) returns (r: Q)
    requires QueueOk(q) && q.pc == Advance && 0 <= q.curr < |q.wq|
    ensures IsApplied(q, EvAdvance, r)
    ensures r == q.(curr := q.wq[q.curr].next, pc := if q.wq[q.curr].next == -1 then Idle else Look)
  {
    hide QueueOk;
    AdvanceKeeps(q);
    r := AfterAdvance(q);
  }

  /** The rest of a pass, from place `i` on: every slot from there on is served, no other changes. */
  lemma {:induction false} Rest(q: Q, i: nat, now: nat) returns (es: seq<Event>, r: Q)
    requires QueueOk(q) && i <= |q.pending| && q.curr == At(q.pending, i) && q.latest <= now
    requires q.pc == if q.curr == -1 then Idle else Look
    ensures Possible(q, es) && Final(q, es) == r && QueueOk(r) && OnlyWorker(es)
    ensures r.pc == Idle && r.pending == q.pending && r.link == q.link && |r.wq| == |q.wq|
    ensures r.latest == if i < |q.pending| then now else q.latest
    ensures forall j :: i <= j < |q.pending| ==>
              q.pending[j] < |q.wq| && r.wq[q.pending[j]] == Served(q.wq[q.pending[j]], now)
    ensures forall b: nat :: b < |q.wq| && b !in q.pending[i..] ==> r.wq[b] == q.wq[b]
    decreases |q.pending| - i
  {
    hide QueueOk, Final, Served;
    if i == |q.pending| {
      es, r := [], q;
      assert Final(q, []) == q by { NoEvents(q); }
    } else {
      var a, q1 := Round(q, i, now);
      PendingOnce(q);
      var b, q2 := Rest(q1, i + 1, now);
      Chain(q, a, b);
      es, r := a + b, q2;
      assert q.pending[i..] == [q.pending[i]] + q.pending[i + 1..];
    }
  }

  lemma NoEvents(q: Q)
    requires QueueOk(q)
    ensures Possible(q, []) && Final(q, []) == q
  {
  }

  lemma PendingOnce(q: Q)
    requires QueueOk(q)
    ensures NoDup(q.pending) && forall i :: 0 <= i < |q.pending| ==> q.pending[i] < |q.wq|
    ensures forall b :: b in q.pending && q.wq[b].isCompleted ==> q.wq[b].isCopied
  {
    hide LinksOk, UsedOk, CursorOk, LogOk, Sorted, Fifo;
    Distinct(q);
  }

  /** A pass of the worker that starts at a clock `now` and meets no other step copies everything that
      is pending and completes exactly what is due; reclaiming then leaves nothing that is due. */
  lemma UndisturbedPass(q: Q, now: nat) returns (es: seq<Event>, r: Q)
    requires QueueOk(q) && q.pc == Idle && q.link == -1 && q.pending != [] && q.latest <= now
    ensures OnlyWorker(es) && Possible(q, es) && Final(q, es) == r && QueueOk(r)
    ensures r.pc == Idle && r.pending == q.pending && |r.wq| == |q.wq|
    ensures forall b :: b in q.pending ==> b < |q.wq| && r.wq[b].isCopied && r.wq[b].target == q.wq[b].target
    ensures forall b :: b in q.pending ==> (r.wq[b].isCompleted <==> q.wq[b].isCompleted || q.wq[b].target <= now)
    ensures Possible(q, es + [EvReclaim])
    ensures var s := Final(q, es + [EvReclaim]);
            forall b :: b in s.pending && b < |q.wq| ==> now < q.wq[b].target
  {
    hide QueueOk, AfterReclaim, Enabled, Possible, Final;
    PendingOnce(q);
    StartsAtHead(q);
    One(q, EvStart);
    var q1 := Apply(q, EvStart);
    var rest;
    rest, r := Rest(q1, 0, now);
    Chain(q, [EvStart], rest);
    es := [EvStart] + rest;
    assert forall b :: b in q.pending ==> exists i :: 0 <= i < |q.pending| && q.pending[i] == b;
    Reclaims(q, es, r);
    NothingDueIsStuck(r);
    LeftArePending(r);
  }

  lemma StartsAtHead(q: Q)
    requires QueueOk(q) && q.pc == Idle
    ensures Enabled(q, EvStart)
    ensures Apply(q, EvStart) == q.(curr := At(q.pending, 0), pc := if At(q.pending, 0) == -1 then Idle else Look)
  {
    hide QueueOk;
  }

  lemma Reclaims(q: Q, es: seq<Event>, r: Q)
    requires QueueOk(q) && Possible(q, es) && Final(q, es) == r && QueueOk(r) && r.link == -1
    ensures Possible(q, es + [EvReclaim]) && Final(q, es + [EvReclaim]) == AfterReclaim(r)
  {
    hide QueueOk, AfterReclaim;
    Then(q, es, r, EvReclaim);
  }

  lemma LeftArePending(q: Q)
    ensures forall b :: b in AfterReclaim(q).pending ==> b in q.pending
  {
  }
}
