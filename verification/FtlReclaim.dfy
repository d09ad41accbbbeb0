/** Why garbage collection of conv_ftl.c finds a victim and makes progress: the counting arguments
    behind `while (should_gc_high) do_gc`. */
module FtlReclaim {
  import opened Arithmetic
  import opened Sequences
  import opened Geometry
  import opened FtlLines
  import opened FtlSteps
  import opened FtlMaps

  // ---------- lines per place ----------

  ghost function InPlace(place: seq<Place>, x: Place): set<nat> {
    set b: nat | b < |place| && place[b] == x
  }

  lemma {:induction false} PlacesAddUp(place: seq<Place>)
    ensures |InPlace(place, FreeList)| + |InPlace(place, FullList)| + |InPlace(place, VictimHeap)|
            + |InPlace(place, UserLine)| + |InPlace(place, GcLine)| + |InPlace(place, Collecting)| == |place|
  {
    if place == [] {
      assert InPlace(place, FreeList) == {} && InPlace(place, FullList) == {} && InPlace(place, VictimHeap) == {};
      assert InPlace(place, UserLine) == {} && InPlace(place, GcLine) == {} && InPlace(place, Collecting) == {};
    } else {
      var init := place[..|place| - 1];
      PlacesAddUp(init);
      AppendedPlace(init, place[|place| - 1], FreeList);
      AppendedPlace(init, place[|place| - 1], FullList);
      AppendedPlace(init, place[|place| - 1], VictimHeap);
      AppendedPlace(init, place[|place| - 1], UserLine);
      AppendedPlace(init, place[|place| - 1], GcLine);
      AppendedPlace(init, place[|place| - 1], Collecting);
      assert place == init + [place[|place| - 1]];
    }
  }

  lemma AppendedPlace(place: seq<Place>, y: Place, x: Place)
    ensures |InPlace(place + [y], x)| == |InPlace(place, x)| + (if y == x then 1 else 0)
  {
    var more := InPlace(place + [y], x);
    if y == x {
      assert more == InPlace(place, x) + {|place|};
    } else {
      assert more == InPlace(place, x);
    }
  }

  lemma {:induction false} DistinctCount(l: seq<nat>, S: set<nat>)
    requires NoDup(l) && forall b :: b in l <==> b in S
    ensures |l| == |S|
  {
    if l == [] {
      assert S == {};
    } else {
      var init, b := l[..|l| - 1], l[|l| - 1];
      assert l == init + [b];
      DistinctCount(init, S - {b});
    }
  }

  /** Free, full, victim, active and collected lines are all the lines. */
  lemma LineCountsAddUp(L: Lines)
    requires Partition(L)
    ensures |L.freeList| + |L.fullList| + |L.victims| + 2 + (if 0 <= L.collecting then 1 else 0) == |L.place|
  {
    PlacesAddUp(L.place);
    DistinctCount(L.freeList, InPlace(L.place, FreeList));
    DistinctCount(L.fullList, InPlace(L.place, FullList));
    assert L.victims == InPlace(L.place, VictimHeap);
    assert InPlace(L.place, UserLine) == {L.user};
    assert InPlace(L.place, GcLine) == {L.gc};
    assert InPlace(L.place, Collecting) == if 0 <= L.collecting then {L.collecting as nat} else {};
  }

  /** The heap never fills up. */
  lemma HeapHasRoom(d: Dim, L: Lines)
    requires LinesOk(d, L)
    ensures |L.victims| + 2 <= d.lines
  {
    LineCountsAddUp(L);
  }

  // ---------- pages of full lines ----------

  ghost function LinePages(slots: set<Slot>, b: int): set<Ppa> {
    set s | s in slots :: Ppa(b, s)
  }

  lemma {:induction false} LinePagesCount(slots: set<Slot>, b: int)
    ensures |LinePages(slots, b)| == |slots|
  {
    if slots == {} {
      assert LinePages(slots, b) == {};
    } else {
      var s :| s in slots;
      LinePagesCount(slots - {s}, b);
      assert LinePages(slots, b) == LinePages(slots - {s}, b) + {Ppa(b, s)};
    }
  }

  /** The pages of distinct lines fit beside each other in any set that holds them all. */
  lemma {:induction false} LinesFit(slots: set<Slot>, l: seq<nat>, S: set<Ppa>)
    requires NoDup(l) && forall b, s :: b in l && s in slots ==> Ppa(b, s) in S
    ensures |l| * |slots| <= |S|
  {
    if l != [] {
      var init, b := l[..|l| - 1], l[|l| - 1];
      assert l == init + [b];
      var T := S - LinePages(slots, b);
      LinesFit(slots, init, T);
      LinePagesCount(slots, b);
      assert LinePages(slots, b) <= S;
      assert |T| == |S| - |slots|;
    }
  }

  /** The VALID pages of the line the user writes. */
  ghost function Kept(d: Dim, L: Lines): nat { Count(L.status, d.slots, L.user, PgValid) }

  lemma KeptWithin(d: Dim, L: Lines)
    ensures Kept(d, L) <= d.Total()
  {
    var here := With(L.status, d.slots, L.user, PgValid);
    assert d.slots == here + (d.slots - here);
  }

  /** VALID pages outside the line the user writes. */
  ghost function ValidElsewhere(L: Lines): set<Ppa> {
    set p | p in PagesIn(L.status, PgValid) && p.blk != L.user
  }

  lemma ElsewhereCount(d: Dim, L: Lines)
    requires Domain(d, L)
    ensures |ValidElsewhere(L)| == |PagesIn(L.status, PgValid)| - Kept(d, L)
  {
    var all, here := PagesIn(L.status, PgValid), LinePages(With(L.status, d.slots, L.user, PgValid), L.user);
    LinePagesCount(With(L.status, d.slots, L.user, PgValid), L.user);
    forall p ensures p in here <==> p in all && p.blk == L.user {
      assert p == Ppa(p.blk, p.at);
    }
    assert ValidElsewhere(L) == all - here && here <= all;
  }

  lemma FullLinesHoldValid(d: Dim, L: Lines)
    requires LinesOk(d, L)
    ensures |L.fullList| * d.Total() <= |ValidElsewhere(L)|
  {
    hide Count, LineCounters, BlkCounters, Written, VictimsHaveInvalid, Filled;
    ActiveLines(L);
    forall b, s | b in L.fullList && s in d.slots ensures Ppa(b, s) in ValidElsewhere(L) {
      FitsAt(d, L, b, s);
    }
    LinesFit(d.slots, L.fullList, ValidElsewhere(L));
  }

  /** Whether `mapped` LPNs leave room to collect: those that are not in the line the user writes
      fill less than all lines but the threshold and two. */
  ghost predicate RoomFor(d: Dim, mapped: nat, kept: int, threshold: nat) {
    mapped - kept < (d.lines - threshold - 2) * d.Total()
  }

  lemma NoRoomOnFewLines(d: Dim, L: Lines, m: Maps, threshold: nat)
    requires LinesOk(d, L) && m.status == L.status && d.lines <= threshold + 2
    requires Inverse(m.maptbl, m.rmap, m.status, -1, {})
    ensures !RoomFor(d, |MappedLpns(m.maptbl)|, Kept(d, L), threshold)
  {
    hide LinesOk, Kept, Inverse, MappedLpns;
    OfLinesOk(d, L);
    ElsewhereCount(d, L);
    MappedEqualsValid(m);
    MulMonotone(d.Total(), d.lines - threshold - 2, 0);
  }

  lemma NoRoomOnFullDevice(d: Dim, L: Lines, mapped: nat, threshold: nat)
    requires (d.lines - threshold - 1) * d.Total() <= mapped
    ensures !RoomFor(d, mapped, Kept(d, L), threshold)
  {
    hide Kept;
    KeptWithin(d, L);
    assert (d.lines - threshold - 1) * d.Total() == (d.lines - threshold - 2) * d.Total() + d.Total();
  }

  function VpcOf(L: Lines, b: nat): int { if b < |L.vpc| then L.vpc[b] else 0 }

  /** No line is free, and the VALID pages of no victim fit in the rest of the GC line. */
  ghost predicate ShortOfLines(d: Dim, L: Lines) {
    && L.freeList == [] && L.victims != {}
    && forall b: nat :: b in L.victims ==> d.Total() <= L.gcPos + VpcOf(L, b)
  }

  /** While free lines are low and there is room, there is a victim. */
  lemma VictimExists(d: Dim, L: Lines, m: Maps, threshold: nat)
    requires LinesOk(d, L) && L.collecting < 0 && m.status == L.status
    requires Inverse(m.maptbl, m.rmap, m.status, -1, {})
    requires |L.freeList| <= threshold && RoomFor(d, |MappedLpns(m.maptbl)|, Kept(d, L), threshold)
    ensures L.victims != {}
  {
    hide LinesOk, Kept;
    OfLinesOk(d, L);
    LineCountsAddUp(L);
    FullLinesHoldValid(d, L);
    ElsewhereCount(d, L);
    MappedEqualsValid(m);
    if L.victims == {} {
      MulMonotone(d.Total(), d.lines - threshold - 2, |L.fullList|);
      assert false;
    }
  }

  lemma OfLinesOk(d: Dim, L: Lines)
    requires LinesOk(d, L)
    ensures Domain(d, L) && Partition(L) && |L.place| == d.lines
  {
  }

  /** Conversely, more free lines than the threshold mean that there is room: the free lines, the
      user's line and the page that is written next in the GC line hold none of the VALID pages
      outside the user's line. */
  lemma FreeLinesMeanRoom(d: Dim, L: Lines, m: Maps, threshold: nat)
    requires DimOk(d) && LinesOk(d, L) && L.collecting < 0 && m.status == L.status && L.gcPos < |d.ord|
    requires Inverse(m.maptbl, m.rmap, m.status, -1, {})
    requires |L.freeList| > threshold
    ensures RoomFor(d, |MappedLpns(m.maptbl)|, Kept(d, L), threshold)
  {
    hide LinesOk, Count, Kept, DimOk;
    OfLinesOk(d, L);
    MappedEqualsValid(m);
    ElsewhereCount(d, L);
    OpenPagesFit(d, L);
    DomainCount(d, L);
    var n, t, free := d.lines, d.Total(), |L.freeList|;
    assert |ValidElsewhere(L)| < n * t - (free + 1) * t;
    MulMonotone(t, threshold + 2, free + 1);
    assert (n - threshold - 2) * t == n * t - (threshold + 2) * t;
  }

  ghost function PagesOf(status: map<Ppa, PgStatus>): set<Ppa> {
    set p | p in status
  }

  /** The page that collection writes next. */
  ghost function NextGc(d: Dim, L: Lines): Ppa
    requires L.gcPos < |d.ord|
  {
    Ppa(L.gc, d.ord[L.gcPos])
  }

  /** The free lines, the user's line and the next page of the GC line fit beside the VALID pages
      outside the user's line. */
  lemma OpenPagesFit(d: Dim, L: Lines)
    requires DimOk(d) && LinesOk(d, L) && L.gcPos < |d.ord|
    ensures (|L.freeList| + 1) * d.Total() + 1 + |ValidElsewhere(L)| <= |PagesOf(L.status)|
  {
    hide LinesOk, DimOk, ValidElsewhere, NextGc;
    var all, valid := PagesOf(L.status), ValidElsewhere(L);
    var rest := all - valid - {NextGc(d, L)};
    NextGcPage(d, L);
    var l := L.freeList + [L.user];
    OpenLines(d, L);
    forall b, s | b in l && s in d.slots ensures Ppa(b, s) in rest {
      OpenIsOutside(d, L, b, s);
    }
    LinesFit(d.slots, l, rest);
    assert |rest| == |all| - |valid| - 1;
  }

  lemma OpenLines(d: Dim, L: Lines)
    requires LinesOk(d, L)
    ensures NoDup(L.freeList + [L.user])
  {
    hide LineCounters, BlkCounters, VictimsHaveInvalid, Filled, Written;
    ActiveLines(L);
  }

  lemma OpenIsOutside(d: Dim, L: Lines, b: nat, s: Slot)
    requires LinesOk(d, L) && L.gcPos < |d.ord| && s in d.slots && (b in L.freeList || b == L.user)
    ensures Ppa(b, s) in PagesOf(L.status) && Ppa(b, s) !in ValidElsewhere(L) && Ppa(b, s) != NextGc(d, L)
  {
    hide LineCounters, BlkCounters, VictimsHaveInvalid, Filled, Written;
    ActiveLines(L);
    FitsAt(d, L, b, s);
  }

  lemma NextGcPage(d: Dim, L: Lines)
    requires DimOk(d) && LinesOk(d, L) && L.gcPos < |d.ord|
    ensures NextGc(d, L) in PagesOf(L.status) && NextGc(d, L) !in ValidElsewhere(L)
            && ValidElsewhere(L) <= PagesOf(L.status)
  {
    hide LineCounters, BlkCounters, VictimsHaveInvalid, Filled;
    ActiveLines(L);
    assert At(L.status, NextGc(d, L)) == PgFree;
  }

  lemma DomainCount(d: Dim, L: Lines)
    requires LinesOk(d, L)
    ensures |PagesOf(L.status)| == d.lines * d.Total()
  {
    assert Domain(d, L);
    hide LinesOk;
    var n := d.lines;
    DeviceCount(d.slots, n);
    assert PagesOf(L.status) == DevicePages(d.slots, n);
  }

  ghost function DevicePages(slots: set<Slot>, n: nat): set<Ppa> {
    set b, s | 0 <= b < n && s in slots :: Ppa(b, s)
  }

  lemma {:induction false} DeviceCount(slots: set<Slot>, n: nat)
    ensures |DevicePages(slots, n)| == n * |slots|
  {
    if n == 0 {
      assert DevicePages(slots, n) == {};
    } else {
      DeviceCount(slots, n - 1);
      LinePagesCount(slots, n - 1);
      assert DevicePages(slots, n) == DevicePages(slots, n - 1) + LinePages(slots, n - 1);
      assert DevicePages(slots, n - 1) !! LinePages(slots, n - 1);
      assert (n - 1) * |slots| + |slots| == n * |slots|;
    }
  }

  // ---------- when the heap is empty ----------

  /** select_victim_line finds nothing exactly when every INVALID page sits in one of the two lines
      being written. */
  lemma NoVictimMeaning(d: Dim, L: Lines)
    requires DimOk(d) && LinesOk(d, L) && L.collecting < 0
    ensures L.victims == {} <==>
            forall p :: p in PagesIn(L.status, PgInvalid) ==> p.blk == L.user || p.blk == L.gc
  {
    hide LineCounters, BlkCounters, Written, Count, Filled, DimOk;
    if L.victims != {} {
      var b :| b in L.victims;
      SelectKeepsLines(d, L, b);
      var s := SomePage(L.status, d.slots, b);
      assert Ppa(b, s) in PagesIn(L.status, PgInvalid);
    } else {
      forall p | p in PagesIn(L.status, PgInvalid) ensures p.blk == L.user || p.blk == L.gc {
        FitsAt(d, L, p.blk, p.at);
        assert L.place[p.blk] != VictimHeap && L.place[p.blk] != Collecting;
        assert p == Ppa(p.blk, p.at);
      }
    }
  }

  lemma SomePage(status: map<Ppa, PgStatus>, slots: set<Slot>, b: int) returns (s: Slot)
    requires 0 < Count(status, slots, b, PgInvalid)
    ensures s in slots && At(status, Ppa(b, s)) == PgInvalid && Ppa(b, s) in status
  {
    assert With(status, slots, b, PgInvalid) != {};
    s :| s in With(status, slots, b, PgInvalid);
  }

  // ---------- mark_page_invalid, assembled ----------

  /** Everything mark_page_invalid relies on and leaves behind. */
  lemma InvalidStep(d: Dim, L: Lines, p: Ppa)
    requires CanInvalidate(d, L, p)
    ensures var q := Blk(p.blk, p.at.ch, p.at.lun);
            && p in L.status && L.status[p] == PgValid
            && q in L.blkIpc && q in L.blkVpc && 0 <= p.blk < |L.vpc| && |L.vpc| == |L.ipc| == |L.place|
            && 0 <= L.blkIpc[q] < d.blkPgs && 0 < L.blkVpc[q] <= d.blkPgs
            && CanInvalidateIn(d, L.(status := L.status[p := PgInvalid],
                                     blkVpc := L.blkVpc[q := L.blkVpc[q] - 1],
                                     blkIpc := L.blkIpc[q := L.blkIpc[q] + 1]), p.blk)
            && LinesOk(d, AfterInvalid(d, L, p))
  {
    hide LineCounters, BlkCounters, Filled, Written, VictimsHaveInvalid, BlkSlots, Count, Domain, DimOk;
    InvalidAsserts(d, L, p);
    InvalidKeepsLines(d, L, p);
    FullListed(L, p.blk);
    HeapHasRoom(d, L);
  }

  lemma FullListed(L: Lines, b: nat)
    requires Partition(L) && b < |L.place|
    ensures L.place[b] == FullList ==> b in L.fullList && b !in L.victims
    ensures NoDup(L.fullList) && NoDup(L.freeList)
  {
  }

  /** Everything mark_page_valid relies on and leaves behind. */
  lemma ValidStep(d: Dim, L: Lines, io: IoType, p: Ppa)
    requires CanProgram(d, L, io, p)
    ensures var q := Blk(p.blk, p.at.ch, p.at.lun);
            && p in L.status && L.status[p] == PgFree
            && q in L.blkVpc && 0 <= p.blk < |L.vpc| && |L.vpc| == |L.place|
            && L.place[p.blk] == ActivePlace(io) && p.blk !in L.victims
            && 0 <= L.blkVpc[q] < d.blkPgs && 0 <= L.vpc[p.blk] < d.Total()
            && LinesOk(d, AfterValid(L, io, p))
  {
    hide LineCounters, BlkCounters, Filled, Written, VictimsHaveInvalid, BlkSlots, Count, DimOk;
    ValidAsserts(d, L, io, p);
    ValidKeepsLines(d, L, io, p);
    NotVictim(L, p.blk);
  }

  lemma NotVictim(L: Lines, b: nat)
    requires Partition(L) && b < |L.place| && L.place[b] != VictimHeap
    ensures b !in L.victims
  {
  }

  /** Everything the line switch of advance_write_pointer relies on and leaves behind. */
  lemma RetireStep(d: Dim, L: Lines, io: IoType)
    requires CanRetire(d, L, io)
    ensures var b := L.Active(io);
            && b < |L.vpc| && |L.vpc| == |L.ipc| == |L.place| && b !in L.victims && |L.victims| < d.lines
            && (L.vpc[b] == d.Total() ==> L.ipc[b] == 0)
            && (L.vpc[b] != d.Total() ==> 0 <= L.vpc[b] < d.Total() && 0 < L.ipc[b])
            && 0 < |L.freeList| && L.freeList[0] < |L.place|
            && LinesOk(d, AfterRetire(d, L, io))
  {
    hide LineCounters, BlkCounters, Filled, Written, VictimsHaveInvalid, BlkSlots, Count, DimOk, Partition;
    RetireAsserts(d, L, io);
    RetireKeepsLines(d, L, io);
    HeapHasRoom(d, L);
  }

  // ---------- one page programmed ----------

  /** From `L` to `M` exactly one page of `io` was programmed: the write position moved on by one,
      or to the start of the next free line. */
  ghost predicate Programmed(d: Dim, L: Lines, M: Lines, io: IoType, p: Ppa) {
    && L.Pos(io) < |d.ord| && p == Ppa(L.Active(io), d.ord[L.Pos(io)])
    && p in L.status && L.status[p] == PgFree && M.status == L.status[p := PgValid]
    && (if L.Pos(io) + 1 < |d.ord|
        then M.Active(io) == L.Active(io) && M.Pos(io) == L.Pos(io) + 1 && M.freeList == L.freeList
        else 0 < |L.freeList| && M.Pos(io) == 0 && M.freeList == L.freeList[1..])
    && (if io.UserIo? then M.gc == L.gc && M.gcPos == L.gcPos else M.user == L.user && M.userPos == L.userPos)
    && M.collecting == L.collecting && M.erased == L.erased
    && 0 <= p.blk < |L.place| && L.place[p.blk] == ActivePlace(io)
  }

  lemma ProgrammedWithin(d: Dim, L: Lines, io: IoType, p: Ppa)
    requires CanProgram(d, L, io, p) && L.Pos(io) + 1 < |d.ord|
    ensures 0 <= p.blk < |L.vpc| && Blk(p.blk, p.at.ch, p.at.lun) in L.blkVpc
    ensures Programmed(d, L, AfterValid(L, io, p), io, p)
  {
    hide LineCounters, BlkCounters, Filled, Written, VictimsHaveInvalid, BlkSlots, Count, DimOk;
    ValidAsserts(d, L, io, p);
  }

  lemma ProgrammedAcross(d: Dim, L: Lines, io: IoType, p: Ppa)
    requires CanProgram(d, L, io, p) && L.Pos(io) + 1 == |d.ord| && 0 < |L.freeList|
    ensures 0 <= p.blk < |L.vpc| && Blk(p.blk, p.at.ch, p.at.lun) in L.blkVpc
    ensures var K := AfterValid(L, io, p);
            && K.Active(io) < |K.vpc| && |K.vpc| == |K.place| && 0 < |K.freeList| && K.freeList[0] < |K.place|
            && Programmed(d, L, AfterRetire(d, K, io), io, p)
  {
    hide LineCounters, BlkCounters, Filled, Written, VictimsHaveInvalid, BlkSlots, Count, DimOk;
    ValidAsserts(d, L, io, p);
    assert L.freeList[0] in L.freeList;
  }

  /** mark_page_valid followed by advance_write_pointer programs one page. */
  lemma ProgramStep(d: Dim, L: Lines, io: IoType, p: Ppa)
    requires CanProgram(d, L, io, p) && (L.Pos(io) + 1 == |d.ord| ==> 0 < |L.freeList|)
    ensures 0 <= p.blk < |L.vpc| && Blk(p.blk, p.at.ch, p.at.lun) in L.blkVpc
    ensures var K := AfterValid(L, io, p);
            && K.Pos(io) == L.Pos(io) + 1 && K.freeList == L.freeList
            && CanAdvance(d, K, io)
            && Programmed(d, L, AfterAdvance(d, K, io), io, p)
            && AfterAdvance(d, K, io).status == L.status[p := PgValid]
  {
    hide LineCounters, BlkCounters, Filled, Written, VictimsHaveInvalid, BlkSlots, Count, DimOk, Partition;
    if L.Pos(io) + 1 < |d.ord| {
      ProgrammedWithin(d, L, io, p);
    } else {
      ProgrammedAcross(d, L, io, p);
    }
  }

  lemma ProgramReady(d: Dim, L: Lines, io: IoType)
    requires DimOk(d) && LinesOk(d, L) && L.Pos(io) < |d.ord|
    ensures CanProgram(d, L, io, Ppa(L.Active(io), d.ord[L.Pos(io)]))
  {
  }

  /** The page an LPN is mapped to may be invalidated. */
  lemma UnmapReady(d: Dim, L: Lines, m: Maps, lpn: nat)
    requires DimOk(d) && LinesOk(d, L) && L.collecting < 0 && L.userPos < |d.ord| && L.gcPos < |d.ord|
    requires Inverse(m.maptbl, m.rmap, m.status, -1, {}) && m.status == L.status
    requires lpn < |m.maptbl| && m.maptbl[lpn].Some?
    ensures CanInvalidate(d, L, m.maptbl[lpn].value)
  {
    hide LineCounters, BlkCounters, Filled, Written, VictimsHaveInvalid, BlkSlots, Count, DimOk;
    assert Live(m.status, -1, {}, m.maptbl[lpn].value);
  }
}
