/** Every step of the FTL keeps the line invariant of FtlLines, and meets the BUG_ON conditions
    conv_ftl.c checks on the way. */
module FtlSteps {
  import opened Sequences
  import opened Geometry
  import opened FtlLines

  // ---------- reading the invariant ----------

  lemma CountersOf(d: Dim, L: Lines, b: nat)
    requires LineCounters(d, L) && Domain(d, L) && b < |L.place| && L.place[b] != Collecting
    ensures L.vpc[b] == Count(L.status, d.slots, b, PgValid)
    ensures L.ipc[b] == Count(L.status, d.slots, b, PgInvalid)
  {
  }

  lemma BlkCountersOf(d: Dim, L: Lines, q: Blk)
    requires BlkCounters(d, L) && Domain(d, L) && q in L.blkVpc
    ensures L.blkVpc[q] == Count(L.status, BlkSlots(d.slots, q.ch, q.lun), q.blk, PgValid)
    ensures L.blkIpc[q] == Count(L.status, BlkSlots(d.slots, q.ch, q.lun), q.blk, PgInvalid)
  {
  }

  lemma FitsAt(d: Dim, L: Lines, b: nat, s: Slot)
    requires Filled(d, L) && b < |L.place| && s in d.slots
    ensures PageFits(L.place[b], At(L.status, Ppa(b, s)), s in L.erased)
  {
  }

  /** A line is full of VALID pages exactly when it is on the full list, as long as neither write
      pointer has run off its line. */
  lemma FullMeansListed(d: Dim, L: Lines, b: nat)
    requires DimOk(d) && LinesOk(d, L) && b < |L.place| && L.place[b] != Collecting
    requires L.userPos < |d.ord| && L.gcPos < |d.ord|
    ensures L.vpc[b] == d.Total() <==> L.place[b] == FullList
  {
    hide Count, BlkCounters, LineCounters, Filled;
    CountersOf(d, L, b);
    CountAll(L.status, d.slots, b, PgValid);
    if L.place[b] == FreeList || L.place[b] == UserLine || L.place[b] == GcLine {
      var k := if L.place[b] == UserLine then L.userPos else if L.place[b] == GcLine then L.gcPos else 0;
      var s := d.ord[k];
      assert s in d.slots;
      FitsAt(d, L, b, s);
    } else if L.place[b] == FullList {
      forall s | s in d.slots ensures At(L.status, Ppa(b, s)) == PgValid {
        FitsAt(d, L, b, s);
      }
    }
  }

  // ---------- mark_page_invalid ----------

  /** The page to invalidate is VALID, outside the line being collected, and no write pointer has
      run off its line, as is the case between two page writes. */
  ghost predicate CanInvalidate(d: Dim, L: Lines, p: Ppa) {
    && DimOk(d) && LinesOk(d, L)
    && p in L.status && L.status[p] == PgValid
    && L.place[p.blk] != Collecting
    && L.userPos < |d.ord| && L.gcPos < |d.ord|
  }

  /** What the line part of mark_page_invalid needs, its BUG_ON conditions among it. */
  ghost predicate CanInvalidateIn(d: Dim, L: Lines, b: nat) {
    && b < |L.vpc| && |L.vpc| == |L.ipc| == |L.place|
    && 0 <= L.ipc[b] < d.Total() && 0 < L.vpc[b] <= d.Total()
    && (L.vpc[b] == d.Total() ==> L.ipc[b] == 0 && b in L.fullList && b !in L.victims)
    && NoDup(L.fullList) && |L.victims| < d.lines
  }

  /** The BUG_ON conditions of mark_page_invalid hold. */
  lemma InvalidAsserts(d: Dim, L: Lines, p: Ppa)
    requires CanInvalidate(d, L, p)
    ensures var q := Blk(p.blk, p.at.ch, p.at.lun);
            && q in L.blkIpc && q in L.blkVpc
            && 0 <= p.blk < |L.vpc| && |L.vpc| == |L.ipc| == |L.place|
            && 0 <= L.blkIpc[q] < d.blkPgs && 0 < L.blkVpc[q] <= d.blkPgs
            && 0 <= L.ipc[p.blk] < d.Total() && 0 < L.vpc[p.blk] <= d.Total()
            && (L.vpc[p.blk] == d.Total() ==> L.ipc[p.blk] == 0)
            && (L.vpc[p.blk] == d.Total() <==> L.place[p.blk] == FullList)
            && (p.blk in L.victims <==> L.place[p.blk] == VictimHeap)
  {
    hide Count, BlkCounters, LineCounters, Filled, BlkSlots;
    var q := Blk(p.blk, p.at.ch, p.at.lun);
    var S := BlkSlots(d.slots, q.ch, q.lun);
    CountersOf(d, L, p.blk);
    BlkCountersOf(d, L, q);
    CountsSplit(L.status, d.slots, p.blk);
    CountsSplit(L.status, S, p.blk);
    CountPositive(L.status, d.slots, p);
    InItsBlock(d.slots, p.at);
    CountPositive(L.status, S, p);
    FullMeansListed(d, L, p.blk);
  }

  lemma InItsBlock(slots: set<Slot>, s: Slot)
    requires s in slots
    ensures s in BlkSlots(slots, s.ch, s.lun)
  {
  }

  lemma InvalidKeepsLineCounters(d: Dim, L: Lines, p: Ppa)
    requires CanInvalidate(d, L, p)
    ensures LineCounters(d, AfterInvalid(d, L, p)) && VictimsHaveInvalid(d, AfterInvalid(d, L, p))
  {
    hide Count, BlkCounters, Filled, Written, BlkSlots, LineCounters;
    InvalidAsserts(d, L, p);
    var M := AfterInvalid(d, L, p);
    forall b: nat | b < |M.place| && M.place[b] != Collecting
      ensures M.vpc[b] == Count(M.status, d.slots, b, PgValid)
      ensures M.ipc[b] == Count(M.status, d.slots, b, PgInvalid)
    {
      CountersOf(d, L, b);
      CountAfter(L.status, d.slots, p, PgInvalid, b, PgValid);
      CountAfter(L.status, d.slots, p, PgInvalid, b, PgInvalid);
    }
    LineCountersFrom(d, M);
  }

  lemma LineCountersFrom(d: Dim, L: Lines)
    requires |L.place| == |L.vpc| == |L.ipc|
    requires forall b: nat :: b < |L.place| && L.place[b] != Collecting ==>
               L.vpc[b] == Count(L.status, d.slots, b, PgValid) && L.ipc[b] == Count(L.status, d.slots, b, PgInvalid)
    ensures LineCounters(d, L)
  {
  }

  lemma BlkCountersFrom(d: Dim, L: Lines)
    requires L.blkVpc.Keys == L.blkIpc.Keys
    requires forall q :: q in L.blkVpc ==>
      && L.blkVpc[q] == Count(L.status, BlkSlots(d.slots, q.ch, q.lun), q.blk, PgValid)
      && L.blkIpc[q] == Count(L.status, BlkSlots(d.slots, q.ch, q.lun), q.blk, PgInvalid)
    ensures BlkCounters(d, L)
  {
  }

  /** One page's change of state, seen from every block. */
  lemma BlkCountsAfter(d: Dim, status: map<Ppa, PgStatus>, p: Ppa, y: PgStatus, q: Blk, x: PgStatus)
    requires p.at in d.slots
    ensures var S := BlkSlots(d.slots, q.ch, q.lun); var home := q == Blk(p.blk, p.at.ch, p.at.lun);
            Count(status[p := y], S, q.blk, x) ==
            Count(status, S, q.blk, x)
            + (if home && y == x && At(status, p) != x then 1 else 0)
            - (if home && y != x && At(status, p) == x then 1 else 0)
  {
    hide Count, At;
    CountAfter(status, BlkSlots(d.slots, q.ch, q.lun), p, y, q.blk, x);
  }

  lemma InvalidKeepsBlkCounters(d: Dim, L: Lines, p: Ppa)
    requires CanInvalidate(d, L, p)
    ensures BlkCounters(d, AfterInvalid(d, L, p)) && Domain(d, AfterInvalid(d, L, p))
  {
    hide Count, BlkCounters, Filled, Written, BlkSlots, LineCounters, Partition;
    var M := AfterInvalid(d, L, p);
    forall q | q in M.blkVpc
      ensures M.blkVpc[q] == Count(M.status, BlkSlots(d.slots, q.ch, q.lun), q.blk, PgValid)
      ensures M.blkIpc[q] == Count(M.status, BlkSlots(d.slots, q.ch, q.lun), q.blk, PgInvalid)
    {
      BlkCountersOf(d, L, q);
      BlkCountsAfter(d, L.status, p, PgInvalid, q, PgValid);
      BlkCountsAfter(d, L.status, p, PgInvalid, q, PgInvalid);
    }
    BlkCountersFrom(d, M);
  }

  lemma InvalidKeepsFilled(d: Dim, L: Lines, p: Ppa)
    requires CanInvalidate(d, L, p)
    ensures Filled(d, AfterInvalid(d, L, p))
  {
    hide Count, BlkCounters, BlkSlots, LineCounters, Partition, VictimsHaveInvalid, DimOk, Filled, Written;
    InvalidAsserts(d, L, p);
    var M := AfterInvalid(d, L, p);
    forall b: nat, s | b < |M.place| && s in d.slots
      ensures PageFits(M.place[b], At(M.status, Ppa(b, s)), s in M.erased)
    {
      FitsAt(d, L, b, s);
    }
    FilledFrom(d, M);
  }

  /** A page that is not FREE may become INVALID without moving any write position. */
  lemma InvalidKeepsWritten(d: Dim, status: map<Ppa, PgStatus>, p: Ppa, line: nat, pos: nat)
    requires Written(d, status, line, pos) && At(status, p) != PgFree
    ensures Written(d, status[p := PgInvalid], line, pos)
  {
  }

  lemma FilledFrom(d: Dim, L: Lines)
    requires forall b: nat, s :: b < |L.place| && s in d.slots ==>
               PageFits(L.place[b], At(L.status, Ppa(b, s)), s in L.erased)
    ensures Filled(d, L)
  {
  }

  lemma InvalidKeepsPartition(d: Dim, L: Lines, p: Ppa)
    requires CanInvalidate(d, L, p)
    ensures Partition(AfterInvalid(d, L, p))
  {
    hide Count, BlkCounters, BlkSlots, LineCounters, VictimsHaveInvalid, DimOk, Filled, Written;
    hide Listed, Heaped, Only, Collected, NoDup, Without;
    InvalidAsserts(d, L, p);
    var b: nat := p.blk;
    if L.vpc[b] == d.Total() {
      FullNoDup(L.place, L.fullList, FullList);
      WithoutMembers(L.fullList, b);
      ListedSame(L.place, L.freeList, FreeList, b, VictimHeap);
      ListedDrop(L.place, L.fullList, FullList, b, VictimHeap, Without(L.fullList, b));
      HeapedSame(L.place, L.victims, b, VictimHeap);
      OnlySame(L.place, L.user, UserLine, b, VictimHeap);
      OnlySame(L.place, L.gc, GcLine, b, VictimHeap);
      CollectedSame(L.place, L.collecting, b, VictimHeap);
    }
  }

  lemma FullNoDup(place: seq<Place>, l: seq<nat>, x: Place)
    requires Listed(place, l, x)
    ensures NoDup(l)
  {
  }

  /** mark_page_invalid keeps the line invariant. */
  lemma InvalidKeepsLines(d: Dim, L: Lines, p: Ppa)
    requires CanInvalidate(d, L, p)
    ensures LinesOk(d, AfterInvalid(d, L, p))
  {
    hide Count, BlkCounters, BlkSlots, LineCounters, VictimsHaveInvalid, DimOk, Filled, Written, Partition, Domain;
    InvalidKeepsLineCounters(d, L, p);
    InvalidKeepsBlkCounters(d, L, p);
    InvalidKeepsFilled(d, L, p);
    InvalidKeepsWritten(d, L.status, p, L.user, L.userPos);
    InvalidKeepsWritten(d, L.status, p, L.gc, L.gcPos);
    InvalidKeepsPartition(d, L, p);
  }

  // ---------- mark_page_valid ----------

  /** `p` is the page at the write position of `io`. */
  ghost predicate CanProgram(d: Dim, L: Lines, io: IoType, p: Ppa) {
    && DimOk(d) && LinesOk(d, L)
    && L.Pos(io) < |d.ord| && p == Ppa(L.Active(io), d.ord[L.Pos(io)])
  }

  /** The page at the write position is FREE, and the other BUG_ON conditions of mark_page_valid
      hold. */
  lemma ValidAsserts(d: Dim, L: Lines, io: IoType, p: Ppa)
    requires CanProgram(d, L, io, p)
    ensures var q := Blk(p.blk, p.at.ch, p.at.lun);
            && p in L.status && L.status[p] == PgFree && L.place[p.blk] == ActivePlace(io)
            && q in L.blkVpc && 0 <= L.blkVpc[q] < d.blkPgs && 0 <= L.vpc[p.blk] < d.Total()
  {
    hide Count, BlkCounters, LineCounters, Filled, BlkSlots;
    assert p.at in d.slots;
    assert L.place[p.blk] == ActivePlace(io);
    var q := Blk(p.blk, p.at.ch, p.at.lun);
    var S := BlkSlots(d.slots, q.ch, q.lun);
    CountersOf(d, L, p.blk);
    BlkCountersOf(d, L, q);
    CountsSplit(L.status, d.slots, p.blk);
    CountsSplit(L.status, S, p.blk);
    CountPositive(L.status, d.slots, p);
    InItsBlock(d.slots, p.at);
    CountPositive(L.status, S, p);
  }

  lemma ActiveLines(L: Lines)
    requires Partition(L)
    ensures L.user < |L.place| && L.gc < |L.place| && L.place[L.user] == UserLine && L.place[L.gc] == GcLine
    ensures L.collecting < |L.place| && (0 <= L.collecting ==> L.place[L.collecting] == Collecting)
  {
  }

  lemma ValidKeepsLineCounters(d: Dim, L: Lines, io: IoType, p: Ppa)
    requires CanProgram(d, L, io, p) && p in L.status && Blk(p.blk, p.at.ch, p.at.lun) in L.blkVpc
    ensures LineCounters(d, AfterValid(L, io, p)) && VictimsHaveInvalid(d, AfterValid(L, io, p))
  {
    hide Count, BlkCounters, Filled, Written, BlkSlots, LineCounters, Partition, DimOk;
    ValidAsserts(d, L, io, p);
    var M := AfterValid(L, io, p);
    forall b: nat | b < |M.place| && M.place[b] != Collecting
      ensures M.vpc[b] == Count(M.status, d.slots, b, PgValid)
      ensures M.ipc[b] == Count(M.status, d.slots, b, PgInvalid)
    {
      CountersOf(d, L, b);
      CountAfter(L.status, d.slots, p, PgValid, b, PgValid);
      CountAfter(L.status, d.slots, p, PgValid, b, PgInvalid);
    }
    LineCountersFrom(d, M);
  }

  lemma ValidKeepsBlkCounters(d: Dim, L: Lines, io: IoType, p: Ppa)
    requires CanProgram(d, L, io, p) && p in L.status && Blk(p.blk, p.at.ch, p.at.lun) in L.blkVpc
    ensures Domain(d, AfterValid(L, io, p)) && BlkCounters(d, AfterValid(L, io, p))
  {
    hide Count, BlkCounters, Filled, Written, BlkSlots, LineCounters, Partition, DimOk;
    ValidAsserts(d, L, io, p);
    var M := AfterValid(L, io, p);
    forall q | q in M.blkVpc
      ensures M.blkVpc[q] == Count(M.status, BlkSlots(d.slots, q.ch, q.lun), q.blk, PgValid)
      ensures M.blkIpc[q] == Count(M.status, BlkSlots(d.slots, q.ch, q.lun), q.blk, PgInvalid)
    {
      BlkCountersOf(d, L, q);
      BlkCountsAfter(d, L.status, p, PgValid, q, PgValid);
      BlkCountsAfter(d, L.status, p, PgValid, q, PgInvalid);
    }
    BlkCountersFrom(d, M);
  }

  lemma ValidKeepsFilled(d: Dim, L: Lines, io: IoType, p: Ppa)
    requires CanProgram(d, L, io, p) && p in L.status && Blk(p.blk, p.at.ch, p.at.lun) in L.blkVpc
    ensures Filled(d, AfterValid(L, io, p))
  {
    hide Count, BlkCounters, BlkSlots, LineCounters, Partition, VictimsHaveInvalid, Filled, DimOk, Written;
    ValidAsserts(d, L, io, p);
    var M := AfterValid(L, io, p);
    forall b: nat, s | b < |M.place| && s in d.slots
      ensures PageFits(M.place[b], At(M.status, Ppa(b, s)), s in M.erased)
    {
      FitsAt(d, L, b, s);
    }
    FilledFrom(d, M);
  }

  /** Programming the page at the write position moves that position by one ... */
  lemma ProgramAdvances(d: Dim, status: map<Ppa, PgStatus>, line: nat, pos: nat)
    requires NoDup(d.ord) && Written(d, status, line, pos) && pos < |d.ord|
    ensures Written(d, status[Ppa(line, d.ord[pos]) := PgValid], line, pos + 1)
  {
  }

  /** ... and no other. */
  lemma ElsewhereWritten(d: Dim, status: map<Ppa, PgStatus>, p: Ppa, x: PgStatus, line: nat, pos: nat)
    requires Written(d, status, line, pos) && p.blk != line
    ensures Written(d, status[p := x], line, pos)
  {
  }

  /** mark_page_valid at the write position keeps the line invariant. */
  lemma ValidKeepsLines(d: Dim, L: Lines, io: IoType, p: Ppa)
    requires CanProgram(d, L, io, p)
    ensures p in L.status && Blk(p.blk, p.at.ch, p.at.lun) in L.blkVpc
    ensures LinesOk(d, AfterValid(L, io, p))
  {
    hide Count, BlkCounters, BlkSlots, LineCounters, VictimsHaveInvalid, Filled, Written, Partition;
    ValidAsserts(d, L, io, p);
    hide Domain;
    ValidKeepsLineCounters(d, L, io, p);
    ValidKeepsBlkCounters(d, L, io, p);
    ValidKeepsFilled(d, L, io, p);
    ActiveLines(L);
    ProgramAdvances(d, L.status, p.blk, L.Pos(io));
    if io.UserIo? {
      ElsewhereWritten(d, L.status, p, PgValid, L.gc, L.gcPos);
    } else {
      ElsewhereWritten(d, L.status, p, PgValid, L.user, L.userPos);
    }
    SamePartition(L, AfterValid(L, io, p));
  }

  lemma SamePartition(L: Lines, M: Lines)
    requires Partition(L) && M.place == L.place && M.freeList == L.freeList && M.fullList == L.fullList
    requires M.victims == L.victims && M.user == L.user && M.gc == L.gc && M.collecting == L.collecting
    ensures Partition(M)
  {
  }

  // ---------- the line switch of advance_write_pointer ----------

  ghost predicate CanRetire(d: Dim, L: Lines, io: IoType) {
    && DimOk(d) && LinesOk(d, L) && L.Pos(io) == |d.ord| && 0 < |L.freeList|
  }

  /** A written line holds no FREE page, so its counters add up; the BUG_ON conditions of
      advance_write_pointer follow. */
  lemma RetireAsserts(d: Dim, L: Lines, io: IoType)
    requires CanRetire(d, L, io)
    ensures var b := L.Active(io);
            && b < |L.place| && L.place[b] == ActivePlace(io)
            && L.vpc[b] + L.ipc[b] == d.Total()
            && (L.vpc[b] == d.Total() ==>
                  L.ipc[b] == 0 && forall s :: s in d.slots ==> At(L.status, Ppa(b, s)) == PgValid)
            && (L.vpc[b] != d.Total() ==> 0 <= L.vpc[b] < d.Total() && 0 < L.ipc[b])
            && (forall s :: s in d.slots ==> At(L.status, Ppa(b, s)) != PgFree)
            && L.freeList[0] < |L.place| && L.place[L.freeList[0]] == FreeList
            && b !in L.victims
  {
    hide Count, BlkCounters, LineCounters, Filled, BlkSlots;
    var b := L.Active(io);
    CountersOf(d, L, b);
    CountsSplit(L.status, d.slots, b);
    CountAll(L.status, d.slots, b, PgValid);
    assert L.freeList[0] in L.freeList;
    NoneFree(d, L.status, b);
  }

  lemma NoneFree(d: Dim, status: map<Ppa, PgStatus>, b: nat)
    requires DimOk(d) && Written(d, status, b, |d.ord|)
    ensures Count(status, d.slots, b, PgFree) == 0
    ensures forall s :: s in d.slots ==> At(status, Ppa(b, s)) != PgFree
  {
    forall s | s in d.slots ensures At(status, Ppa(b, s)) != PgFree {
      var i :| 0 <= i < |d.ord| && d.ord[i] == s;
    }
    assert With(status, d.slots, b, PgFree) == {};
  }

  lemma RetireKeepsPartition(d: Dim, L: Lines, io: IoType)
    requires CanRetire(d, L, io) && L.freeList[0] < |L.place|
    requires L.Active(io) < |L.vpc| && |L.vpc| == |L.place|
    ensures Partition(AfterRetire(d, L, io))
  {
    hide Count, BlkCounters, BlkSlots, LineCounters, VictimsHaveInvalid, DimOk, Filled, Written, Domain;
    hide Listed, Heaped, Only, Collected, NoDup;
    RetireAsserts(d, L, io);
    ActiveLines(L);
    var b, next := L.Active(io), L.freeList[0];
    var y := if L.vpc[b] == d.Total() then FullList else VictimHeap;
    var mid := L.place[b := y];
    FullNoDup(L.place, L.freeList, FreeList);
    TailMembers(L.freeList);
    ListedSame(L.place, L.freeList, FreeList, b, y);
    ListedDrop(mid, L.freeList, FreeList, next, ActivePlace(io), L.freeList[1..]);
    if y == FullList {
      ListedAdd(L.place, L.fullList, b, FullList);
      ListedSame(mid, L.fullList + [b], FullList, next, ActivePlace(io));
    } else {
      ListedSame(L.place, L.fullList, FullList, b, y);
      ListedSame(mid, L.fullList, FullList, next, ActivePlace(io));
    }
    HeapedSame(L.place, L.victims, b, y);
    HeapedSame(mid, if y == VictimHeap then L.victims + {b} else L.victims - {b}, next, ActivePlace(io));
    OnlyMove(L.place, b, ActivePlace(io), y, next);
    var other := if io.UserIo? then L.gc else L.user;
    var otherPlace := if io.UserIo? then GcLine else UserLine;
    OnlySame(L.place, other, otherPlace, b, y);
    OnlySame(mid, other, otherPlace, next, ActivePlace(io));
    CollectedSame(L.place, L.collecting, b, y);
    CollectedSame(mid, L.collecting, next, ActivePlace(io));
  }

  lemma TailMembers(s: seq<nat>)
    requires 0 < |s| && NoDup(s)
    ensures NoDup(s[1..]) && forall x :: x in s[1..] <==> x in s && x != s[0]
  {
    assert s == [s[0]] + s[1..];
  }

  lemma RetireKeepsFilled(d: Dim, L: Lines, io: IoType)
    requires CanRetire(d, L, io) && L.freeList[0] < |L.place|
    requires L.Active(io) < |L.vpc| && |L.vpc| == |L.place|
    ensures Filled(d, AfterRetire(d, L, io))
  {
    hide Count, BlkCounters, BlkSlots, LineCounters, Partition, VictimsHaveInvalid, Filled, DimOk, Written, Domain;
    RetireAsserts(d, L, io);
    var M := AfterRetire(d, L, io);
    forall b: nat, s | b < |M.place| && s in d.slots
      ensures PageFits(M.place[b], At(M.status, Ppa(b, s)), s in M.erased)
    {
      FitsAt(d, L, b, s);
    }
    FilledFrom(d, M);
  }

  lemma FreshLineWritten(d: Dim, L: Lines, next: nat)
    requires Filled(d, L) && next < |L.place| && L.place[next] == FreeList
    requires forall s :: s in d.ord ==> s in d.slots
    ensures Written(d, L.status, next, 0)
  {
    forall i | 0 <= i < |d.ord| ensures At(L.status, Ppa(next, d.ord[i])) == PgFree {
      FitsAt(d, L, next, d.ord[i]);
    }
  }

  lemma RetireKeepsCounters(d: Dim, L: Lines, io: IoType)
    requires CanRetire(d, L, io) && L.freeList[0] < |L.place|
    requires L.Active(io) < |L.vpc| && |L.vpc| == |L.place|
    ensures var M := AfterRetire(d, L, io);
            Domain(d, M) && LineCounters(d, M) && BlkCounters(d, M) && VictimsHaveInvalid(d, M)
  {
    hide Count, Filled, Written, BlkSlots, DimOk, Partition, LineCounters, BlkCounters;
    RetireAsserts(d, L, io);
    ActiveLines(L);
    var M := AfterRetire(d, L, io);
    forall b: nat | b < |M.place| && M.place[b] != Collecting
      ensures M.vpc[b] == Count(M.status, d.slots, b, PgValid)
      ensures M.ipc[b] == Count(M.status, d.slots, b, PgInvalid)
    {
      CountersOf(d, L, b);
    }
    LineCountersFrom(d, M);
    SameBlkCounters(d, L, M);
  }

  /** Switching to the next free line keeps the line invariant. */
  lemma RetireKeepsLines(d: Dim, L: Lines, io: IoType)
    requires CanRetire(d, L, io)
    ensures L.freeList[0] < |L.place| && L.Active(io) < |L.vpc| && |L.vpc| == |L.place|
    ensures LinesOk(d, AfterRetire(d, L, io))
  {
    hide Count, BlkCounters, BlkSlots, LineCounters, VictimsHaveInvalid, Filled, Written, Partition;
    RetireAsserts(d, L, io);
    RetireKeepsPartition(d, L, io);
    RetireKeepsFilled(d, L, io);
    RetireKeepsCounters(d, L, io);
    FreshLineWritten(d, L, L.freeList[0]);
  }

  // ---------- select_victim_line ----------

  ghost predicate CanSelect(d: Dim, L: Lines, b: nat) {
    DimOk(d) && LinesOk(d, L) && L.collecting < 0 && b in L.victims
  }

  /** Taking a victim out of the heap keeps the line invariant; it holds INVALID pages and no FREE
      ones. */
  lemma SelectKeepsLines(d: Dim, L: Lines, b: nat)
    requires CanSelect(d, L, b)
    ensures b < |L.place| && LinesOk(d, AfterSelect(L, b))
    ensures L.vpc[b] == Count(L.status, d.slots, b, PgValid) < d.Total()
    ensures L.ipc[b] == d.Total() - L.vpc[b] == Count(L.status, d.slots, b, PgInvalid)
  {
    hide Count, BlkSlots, LineCounters, DimOk, Filled, Written, BlkCounters, Partition;
    VictimPlace(L, b);
    var M := AfterSelect(L, b);
    CountersOf(d, L, b);
    CountsSplit(L.status, d.slots, b);
    forall c: nat | c < |M.place| && M.place[c] != Collecting
      ensures M.vpc[c] == Count(M.status, d.slots, c, PgValid)
      ensures M.ipc[c] == Count(M.status, d.slots, c, PgInvalid)
    {
      CountersOf(d, L, c);
    }
    LineCountersFrom(d, M);
    SelectKeepsFilled(d, L, b);
    VictimHasNoFree(d, L, b);
    SameBlkCounters(d, L, M);
    SelectKeepsPartition(L, b);
  }

  lemma VictimPlace(L: Lines, b: nat)
    requires Partition(L) && b in L.victims
    ensures b < |L.place| && L.place[b] == VictimHeap
  {
  }

  lemma SelectKeepsFilled(d: Dim, L: Lines, b: nat)
    requires CanSelect(d, L, b) && b < |L.place| && L.place[b] == VictimHeap
    ensures Filled(d, AfterSelect(L, b))
  {
    hide Count, BlkSlots, LineCounters, DimOk, Filled, Written, BlkCounters, Domain;
    var M := AfterSelect(L, b);
    forall c: nat, s | c < |M.place| && s in d.slots
      ensures PageFits(M.place[c], At(M.status, Ppa(c, s)), s in M.erased)
    {
      FitsAt(d, L, c, s);
    }
    FilledFrom(d, M);
  }

  lemma SelectKeepsPartition(L: Lines, b: nat)
    requires Partition(L) && b < |L.place| && L.place[b] == VictimHeap && L.collecting < 0
    ensures Partition(AfterSelect(L, b))
  {
    hide Listed, Heaped, Only, Collected, NoDup;
    ListedSame(L.place, L.freeList, FreeList, b, Collecting);
    ListedSame(L.place, L.fullList, FullList, b, Collecting);
    HeapedSame(L.place, L.victims, b, Collecting);
    OnlySame(L.place, L.user, UserLine, b, Collecting);
    OnlySame(L.place, L.gc, GcLine, b, Collecting);
    CollectingOne(L.place, L.collecting, b);
  }

  lemma CollectingOne(place: seq<Place>, collecting: int, b: nat)
    requires Collected(place, collecting) && collecting < 0 && b < |place|
    ensures Collected(place[b := Collecting], b)
  {
  }

  lemma SameBlkCounters(d: Dim, L: Lines, M: Lines)
    requires BlkCounters(d, L) && M.status == L.status && M.blkVpc == L.blkVpc && M.blkIpc == L.blkIpc
    ensures BlkCounters(d, M)
  {
  }

  lemma VictimHasNoFree(d: Dim, L: Lines, b: nat)
    requires Filled(d, L) && b < |L.place| && L.place[b] == VictimHeap
    ensures Count(L.status, d.slots, b, PgFree) == 0
  {
    assert forall s :: s in d.slots ==> PageFits(L.place[b], At(L.status, Ppa(b, s)), s in L.erased);
    assert With(L.status, d.slots, b, PgFree) == {};
  }

  // ---------- mark_block_free ----------

  ghost predicate CanErase(d: Dim, L: Lines, q: Blk) {
    && DimOk(d) && LinesOk(d, L) && 0 <= L.collecting && q.blk == L.collecting
    && q in L.blkVpc
  }

  lemma EraseStatus(d: Dim, L: Lines, q: Blk, p: Ppa)
    requires Domain(d, L)
    ensures At(AfterErase(d, L, q).status, p) ==
            if p.blk == q.blk && p.at.ch == q.ch && p.at.lun == q.lun then PgFree else At(L.status, p)
  {
  }

  lemma EraseCounts(d: Dim, L: Lines, q: Blk, S: set<Slot>, b: int, x: PgStatus)
    requires Domain(d, L)
    requires b == q.blk ==> S !! BlkSlots(d.slots, q.ch, q.lun) && S <= d.slots
    ensures Count(AfterErase(d, L, q).status, S, b, x) == Count(L.status, S, b, x)
  {
    hide AfterErase, At, Domain;
    forall s | s in S ensures At(AfterErase(d, L, q).status, Ppa(b, s)) == At(L.status, Ppa(b, s)) {
      EraseStatus(d, L, q, Ppa(b, s));
      assert s.ch == q.ch && s.lun == q.lun && s in d.slots ==> s in BlkSlots(d.slots, q.ch, q.lun);
    }
    assert With(AfterErase(d, L, q).status, S, b, x) == With(L.status, S, b, x);
  }

  lemma ErasedBlockCounts(d: Dim, L: Lines, q: Blk, x: PgStatus)
    requires Domain(d, L) && x != PgFree
    ensures Count(AfterErase(d, L, q).status, BlkSlots(d.slots, q.ch, q.lun), q.blk, x) == 0
  {
    hide AfterErase, At, Domain;
    forall s | s in BlkSlots(d.slots, q.ch, q.lun)
      ensures At(AfterErase(d, L, q).status, Ppa(q.blk, s)) == PgFree
    {
      EraseStatus(d, L, q, Ppa(q.blk, s));
    }
    assert With(AfterErase(d, L, q).status, BlkSlots(d.slots, q.ch, q.lun), q.blk, x) == {};
  }

  lemma EraseKeepsDomain(d: Dim, L: Lines, q: Blk)
    requires Domain(d, L) && q in L.blkVpc
    ensures Domain(d, AfterErase(d, L, q)) && AfterErase(d, L, q).blkVpc.Keys == L.blkVpc.Keys
  {
    var M := AfterErase(d, L, q);
    assert M.blkVpc.Keys == L.blkVpc.Keys && M.blkIpc.Keys == L.blkIpc.Keys && M.status.Keys == L.status.Keys;
  }

  lemma EraseCounterValues(d: Dim, L: Lines, q: Blk, r: Blk)
    requires r in L.blkVpc && r in L.blkIpc
    ensures var M := AfterErase(d, L, q);
            && M.blkVpc[r] == (if r == q then 0 else L.blkVpc[r])
            && M.blkIpc[r] == (if r == q then 0 else L.blkIpc[r])
  {
  }

  lemma EraseKeepsBlkCounters(d: Dim, L: Lines, q: Blk)
    requires CanErase(d, L, q)
    ensures BlkCounters(d, AfterErase(d, L, q)) && Domain(d, AfterErase(d, L, q))
  {
    hide Count, BlkCounters, Filled, Written, BlkSlots, LineCounters, Partition, AfterErase, DimOk;
    var M := AfterErase(d, L, q);
    EraseKeepsDomain(d, L, q);
    forall r | r in M.blkVpc
      ensures M.blkVpc[r] == Count(M.status, BlkSlots(d.slots, r.ch, r.lun), r.blk, PgValid)
      ensures M.blkIpc[r] == Count(M.status, BlkSlots(d.slots, r.ch, r.lun), r.blk, PgInvalid)
    {
      EraseCounterValues(d, L, q, r);
      if r == q {
        ErasedBlockCounts(d, L, q, PgValid);
        ErasedBlockCounts(d, L, q, PgInvalid);
      } else {
        BlkCountersOf(d, L, r);
        if r.blk == q.blk {
          BlocksDisjoint(d.slots, r, q);
        }
        EraseCounts(d, L, q, BlkSlots(d.slots, r.ch, r.lun), r.blk, PgValid);
        EraseCounts(d, L, q, BlkSlots(d.slots, r.ch, r.lun), r.blk, PgInvalid);
      }
    }
    BlkCountersFrom(d, M);
  }

  lemma BlocksDisjoint(slots: set<Slot>, r: Blk, q: Blk)
    requires r != q && r.blk == q.blk
    ensures BlkSlots(slots, r.ch, r.lun) !! BlkSlots(slots, q.ch, q.lun)
    ensures BlkSlots(slots, r.ch, r.lun) <= slots
  {
  }

  lemma EraseKeepsLineCounters(d: Dim, L: Lines, q: Blk)
    requires CanErase(d, L, q)
    ensures LineCounters(d, AfterErase(d, L, q))
  {
    hide Count, Filled, Written, BlkSlots, DimOk, LineCounters, BlkCounters, Partition;
    ActiveLines(L);
    var M := AfterErase(d, L, q);
    forall b: nat | b < |M.place| && M.place[b] != Collecting
      ensures M.vpc[b] == Count(M.status, d.slots, b, PgValid)
      ensures M.ipc[b] == Count(M.status, d.slots, b, PgInvalid)
    {
      CountersOf(d, L, b);
      EraseCounts(d, L, q, d.slots, b, PgValid);
      EraseCounts(d, L, q, d.slots, b, PgInvalid);
    }
    LineCountersFrom(d, M);
  }

  lemma EraseKeepsFilled(d: Dim, L: Lines, q: Blk)
    requires CanErase(d, L, q)
    ensures Filled(d, AfterErase(d, L, q))
  {
    hide Count, LineCounters, BlkCounters, Filled, VictimsHaveInvalid, At, Written, DimOk;
    var M := AfterErase(d, L, q);
    forall b: nat, s | b < |M.place| && s in d.slots
      ensures PageFits(M.place[b], At(M.status, Ppa(b, s)), s in M.erased)
    {
      FitsAt(d, L, b, s);
      EraseStatus(d, L, q, Ppa(b, s));
    }
    FilledFrom(d, M);
  }

  lemma EraseKeepsWritten(d: Dim, L: Lines, q: Blk, line: nat, pos: nat)
    requires Domain(d, L) && Written(d, L.status, line, pos) && line != q.blk
    ensures Written(d, AfterErase(d, L, q).status, line, pos)
  {
    hide AfterErase, At, Domain;
    forall i | 0 <= i < |d.ord|
      ensures At(AfterErase(d, L, q).status, Ppa(line, d.ord[i])) == At(L.status, Ppa(line, d.ord[i]))
    {
      EraseStatus(d, L, q, Ppa(line, d.ord[i]));
    }
  }

  /** Erasing one block of the collected line keeps the line invariant. */
  lemma EraseKeepsLines(d: Dim, L: Lines, q: Blk)
    requires CanErase(d, L, q)
    ensures LinesOk(d, AfterErase(d, L, q))
  {
    hide Count, BlkSlots, LineCounters, BlkCounters, Filled, At, Written, DimOk, Domain, Partition;
    EraseKeepsBlkCounters(d, L, q);
    EraseKeepsLineCounters(d, L, q);
    EraseKeepsFilled(d, L, q);
    ActiveLines(L);
    EraseKeepsWritten(d, L, q, L.user, L.userPos);
    EraseKeepsWritten(d, L, q, L.gc, L.gcPos);
    SamePartition(L, AfterErase(d, L, q));
  }

  // ---------- mark_line_free ----------

  ghost predicate CanReturn(d: Dim, L: Lines) {
    DimOk(d) && LinesOk(d, L) && 0 <= L.collecting && L.erased == d.slots
  }

  /** Returning the erased line to the free list keeps the line invariant, and nothing is being
      collected any more. */
  lemma ReturnKeepsLines(d: Dim, L: Lines)
    requires CanReturn(d, L)
    ensures LinesOk(d, AfterReturn(L))
    ensures forall s :: s in d.slots ==> At(L.status, Ppa(L.collecting, s)) == PgFree
  {
    hide Count, BlkSlots, LineCounters, BlkCounters, Filled, Written, DimOk, Partition, At;
    ActiveLines(L);
    var M, v := AfterReturn(L), L.collecting;
    ErasedIsFree(d, L);
    ReturnKeepsFilled(d, L);
    ReturnKeepsLineCounters(d, L);
    SameBlkCounters(d, L, M);
    ReturnKeepsPartition(L);
  }

  lemma ErasedIsFree(d: Dim, L: Lines)
    requires CanReturn(d, L)
    ensures forall s :: s in d.slots ==> At(L.status, Ppa(L.collecting, s)) == PgFree
  {
    hide Count, BlkSlots, LineCounters, BlkCounters, Filled, Written, DimOk, Partition, At;
    ActiveLines(L);
    forall s | s in d.slots ensures At(L.status, Ppa(L.collecting, s)) == PgFree {
      FitsAt(d, L, L.collecting, s);
    }
  }

  lemma ReturnKeepsFilled(d: Dim, L: Lines)
    requires CanReturn(d, L)
    ensures Filled(d, AfterReturn(L))
  {
    hide Count, BlkSlots, LineCounters, BlkCounters, Filled, Written, DimOk, Partition, At;
    ActiveLines(L);
    ErasedIsFree(d, L);
    CollectedLine(L);
    var M := AfterReturn(L);
    forall b: nat, s | b < |M.place| && s in d.slots
      ensures PageFits(M.place[b], At(M.status, Ppa(b, s)), s in M.erased)
    {
      FitsAt(d, L, b, s);
    }
    FilledFrom(d, M);
  }

  lemma CollectedLine(L: Lines)
    requires Partition(L)
    ensures forall b: nat :: b < |L.place| && L.place[b] == Collecting ==> b == L.collecting
  {
  }

  lemma ReturnKeepsLineCounters(d: Dim, L: Lines)
    requires CanReturn(d, L)
    ensures LineCounters(d, AfterReturn(L))
  {
    hide Count, BlkSlots, LineCounters, BlkCounters, Filled, Written, DimOk, Partition, At;
    ActiveLines(L);
    ErasedIsFree(d, L);
    CollectedLine(L);
    var M, v := AfterReturn(L), L.collecting;
    AllFreeCounts(d, L.status, v);
    forall b: nat | b < |M.place| && M.place[b] != Collecting
      ensures M.vpc[b] == Count(M.status, d.slots, b, PgValid)
      ensures M.ipc[b] == Count(M.status, d.slots, b, PgInvalid)
    {
      if b != v {
        CountersOf(d, L, b);
      }
    }
    LineCountersFrom(d, M);
  }

  lemma AllFreeCounts(d: Dim, status: map<Ppa, PgStatus>, b: nat)
    requires forall s :: s in d.slots ==> At(status, Ppa(b, s)) == PgFree
    ensures Count(status, d.slots, b, PgValid) == Count(status, d.slots, b, PgInvalid) == 0
  {
    assert With(status, d.slots, b, PgValid) == {};
    assert With(status, d.slots, b, PgInvalid) == {};
  }

  lemma ReturnKeepsPartition(L: Lines)
    requires Partition(L) && 0 <= L.collecting && |L.place| == |L.vpc| == |L.ipc|
    ensures Partition(AfterReturn(L))
  {
    hide Listed, Heaped, Only, Collected, NoDup;
    ActiveLines(L);
    var b: nat := L.collecting;
    ListedAdd(L.place, L.freeList, b, FreeList);
    ListedSame(L.place, L.fullList, FullList, b, FreeList);
    HeapedSame(L.place, L.victims, b, FreeList);
    OnlySame(L.place, L.user, UserLine, b, FreeList);
    OnlySame(L.place, L.gc, GcLine, b, FreeList);
    NothingCollected(L.place, b);
  }

  lemma NothingCollected(place: seq<Place>, b: nat)
    requires Collected(place, b) && b < |place|
    ensures Collected(place[b := FreeList], -1)
  {
  }
}
