/** The state conv_init_ftl builds: every page FREE, every line on the free list, then one line
    taken for the user's write pointer and one for garbage collection. */
module FtlInit {
  import opened Sequences
  import opened Options
  import opened Geometry
  import opened FtlLines
  import opened FtlSteps
  import opened FtlMaps

  /** init_lines */
  ghost predicate Fresh(d: Dim, L: Lines) {
    && Domain(d, L)
    && (forall p :: p in L.status ==> L.status[p] == PgFree)
    && (forall q :: q in L.blkVpc ==> L.blkVpc[q] == 0) && (forall q :: q in L.blkIpc ==> L.blkIpc[q] == 0)
    && (forall b: nat :: b < d.lines ==> L.place[b] == FreeList && L.vpc[b] == 0 && L.ipc[b] == 0)
    && L.freeList == seq(d.lines, b => b) && L.fullList == [] && L.victims == {}
    && L.collecting == -1 && L.erased == {}
  }

  /** The two calls of prepare_write_pointer. */
  function AfterPrepare(L: Lines): Lines
    requires 2 <= |L.freeList| && L.freeList[0] < |L.place| && L.freeList[1] < |L.place|
  {
    AfterOpen(AfterOpen(L, UserIo), GcIo)
  }

  lemma PreparedCounts(d: Dim, L: Lines, S: set<Slot>, b: int, x: PgStatus)
    requires Fresh(d, L) && x != PgFree
    ensures Count(L.status, S, b, x) == 0
  {
    assert With(L.status, S, b, x) == {};
  }

  lemma PreparedCounters(d: Dim, L: Lines)
    requires Fresh(d, L) && 2 <= d.lines
    ensures LineCounters(d, AfterPrepare(L)) && BlkCounters(d, AfterPrepare(L)) && Domain(d, AfterPrepare(L))
  {
    hide Count, BlkSlots;
    var M := AfterPrepare(L);
    forall b: nat | b < |M.place| && M.place[b] != Collecting
      ensures M.vpc[b] == Count(M.status, d.slots, b, PgValid)
      ensures M.ipc[b] == Count(M.status, d.slots, b, PgInvalid)
    {
      PreparedCounts(d, L, d.slots, b, PgValid);
      PreparedCounts(d, L, d.slots, b, PgInvalid);
    }
    forall q | q in M.blkVpc
      ensures M.blkVpc[q] == Count(M.status, BlkSlots(d.slots, q.ch, q.lun), q.blk, PgValid)
      ensures M.blkIpc[q] == Count(M.status, BlkSlots(d.slots, q.ch, q.lun), q.blk, PgInvalid)
    {
      PreparedCounts(d, L, BlkSlots(d.slots, q.ch, q.lun), q.blk, PgValid);
      PreparedCounts(d, L, BlkSlots(d.slots, q.ch, q.lun), q.blk, PgInvalid);
    }
    LineCountersFrom(d, M);
    BlkCountersFrom(d, M);
  }

  lemma PreparedPartition(d: Dim, L: Lines)
    requires Fresh(d, L) && 2 <= d.lines
    ensures Partition(AfterPrepare(L))
  {
    hide LineCounters, BlkCounters, Domain;
    FreshDomain(d, L);
    var M := AfterPrepare(L);
    assert M.freeList == seq(d.lines - 2, b => b + 2);
    assert M.place[0] == UserLine && M.place[1] == GcLine;
    forall b: nat ensures b in M.freeList <==> 2 <= b < d.lines {
      if 2 <= b < d.lines {
        assert M.freeList[b - 2] == b;
      }
    }
  }

  lemma FreshDomain(d: Dim, L: Lines)
    requires Fresh(d, L)
    ensures |L.place| == |L.vpc| == |L.ipc| == d.lines
  {
  }

  lemma PreparedPages(d: Dim, L: Lines)
    requires Fresh(d, L) && 2 <= d.lines
    ensures var M := AfterPrepare(L);
            && Filled(d, M) && Written(d, M.status, M.user, M.userPos) && Written(d, M.status, M.gc, M.gcPos)
            && VictimsHaveInvalid(d, M)
            && M.user == 0 && M.gc == 1 && M.userPos == M.gcPos == 0 && |M.freeList| == d.lines - 2
  {
  }

  /** conv_init_ftl establishes the line invariant. */
  lemma PreparedOk(d: Dim, L: Lines)
    requires Fresh(d, L) && 2 <= d.lines
    ensures 2 <= |L.freeList| && L.freeList[0] < |L.place| && L.freeList[1] < |L.place|
    ensures LinesOk(d, AfterPrepare(L))
    ensures |AfterPrepare(L).freeList| == d.lines - 2 && AfterPrepare(L).userPos == AfterPrepare(L).gcPos == 0
  {
    FreshDomain(d, L);
    PreparedCounters(d, L);
    PreparedPartition(d, L);
    PreparedPages(d, L);
  }

  /** No page is live, no LPN mapped. */
  lemma NothingMapped(d: Dim, L: Lines, rmap: map<Ppa, int>, maptbl: seq<Option<Ppa>>)
    requires Fresh(d, L) && rmap.Keys == L.status.Keys
    requires forall l :: 0 <= l < |maptbl| ==> maptbl[l] == None
    ensures Inverse(maptbl, rmap, L.status, -1, {})
    ensures forall data :: View(maptbl, data) == map[]
  {
  }

  // ---------- dimensions ----------

  lemma {:induction false} SetOfDistinct(s: seq<Slot>)
    requires NoDup(s)
    ensures |set x | x in s| == |s|
  {
    if s == [] {
      assert (set x | x in s) == {};
    } else {
      var init, x := s[..|s| - 1], s[|s| - 1];
      assert s == init + [x];
      SetOfDistinct(init);
      assert (set y | y in s) == (set y | y in init) + {x};
      assert x !in init;
    }
  }

  ghost function Column(ch: int, lun: int, n: nat): set<Slot> {
    set i | 0 <= i < n :: Slot(ch, lun, i)
  }

  lemma {:induction false} ColumnCount(ch: int, lun: int, n: nat)
    ensures |Column(ch, lun, n)| == n
  {
    if n == 0 {
      assert Column(ch, lun, n) == {};
    } else {
      ColumnCount(ch, lun, n - 1);
      assert Column(ch, lun, n) == Column(ch, lun, n - 1) + {Slot(ch, lun, n - 1)};
    }
  }

  /** The dimensions of a geometry. */
  lemma DimExists(g: Geo) returns (d: Dim)
    requires g.Ok()
    ensures WriteOrder(g, d.ord) && DimOk(d) && (forall s :: s in d.slots <==> g.SlotOk(s))
    ensures d.lines == g.blksPerPl && d.Total() == g.PgsPerLine() && d.blkPgs == g.PgsPerBlk()
  {
    hide Geo.PgsPerLine, Geo.PgsPerBlk, Advance;
    var ord := WriteOrderExists(g);
    var slots := set s | s in ord;
    SetOfDistinct(ord);
    forall s | s in slots ensures |BlkSlots(slots, s.ch, s.lun)| == g.PgsPerBlk() {
      ColumnCount(s.ch, s.lun, g.PgsPerBlk());
      BlockIsColumn(g, slots, s);
    }
    d := Dim(g.blksPerPl, slots, ord, g.PgsPerBlk());
  }

  lemma BlockIsColumn(g: Geo, slots: set<Slot>, s: Slot)
    requires (forall t :: t in slots <==> g.SlotOk(t)) && s in slots
    ensures BlkSlots(slots, s.ch, s.lun) == Column(s.ch, s.lun, g.PgsPerBlk())
  {
    hide Geo.PgsPerBlk;
    forall t | t in BlkSlots(slots, s.ch, s.lun) ensures t in Column(s.ch, s.lun, g.PgsPerBlk()) {
      assert t == Slot(s.ch, s.lun, t.pg);
    }
    forall t | t in Column(s.ch, s.lun, g.PgsPerBlk()) ensures t in BlkSlots(slots, s.ch, s.lun) {
      assert g.SlotOk(t);
    }
  }
}
