/** The page-mapped FTL of conv_ftl.c, in place: one partition, one plane per LUN. */
module ConvFtlModel {
  import opened Sequences
  import opened Options
  import opened Geometry
  import opened IndexedHeap
  import opened FtlLines
  import opened FtlSteps
  import opened FtlMaps
  import opened FtlReclaim
  import opened FtlCollect
  import opened FtlTally
  import opened FtlInit
  import opened Commands
  import opened WriteBufferModel
  import ConvRead

  /** struct write_pointer; `blk` always equals the line's number. */
  datatype WritePointer = WritePointer(line: nat, at: Slot)

  /** The derived dimensions agree with the geometry. */
  ghost predicate Fits(g: Geo, d: Dim) {
    && g.Ok() && WriteOrder(g, d.ord) && DimOk(d)
    && (forall s :: s in d.slots <==> g.SlotOk(s))
    && d.lines == g.blksPerPl && d.Total() == g.PgsPerLine() && d.blkPgs == g.PgsPerBlk()
  }

  /** The write order, read at one position. */
  lemma OrderNext(g: Geo, d: Dim, k: nat)
    requires Fits(g, d) && k < |d.ord|
    ensures g.Ok() && g.SlotOk(d.ord[k]) && d.ord[k] in d.slots
    ensures Advance(g, d.ord[k])
            == if k + 1 < |d.ord| then Advanced(d.ord[k + 1], false) else Advanced(Slot(0, 0, 0), true)
    ensures d.ord[0] == Slot(0, 0, 0) && |d.ord| == d.Total() && d.blkPgs == g.PgsPerBlk()
  {
  }

  lemma FitsLines(g: Geo, d: Dim)
    requires Fits(g, d)
    ensures d.lines == g.blksPerPl
  {
  }

  lemma FitsDim(g: Geo, d: Dim)
    requires Fits(g, d)
    ensures DimOk(d)
  {
  }

  /** What one garbage collection keeps from start to end: the collected line, the logical view,
      the user's write pointer, a bound on the INVALID pages, the budget of free lines, and the VALID
      pages of the user's line. */
  datatype Run = Run(v: nat, view: map<nat, int>, wp: WritePointer, wpPos: nat, invalid: set<Ppa>, free0: nat,
                     work0: nat, kept: nat)

  /** How a command ends: refused, served, at a line end with no free line, or never. */
  datatype WriteOutcome = Refused | Served | NoLine | Endless

  /** How a collection ends: with a free line, with no line to collect, or at the end of the GC line
      with no free line. */
  datatype GcOutcome = Collected | NoVictim | OutOfLines

  class ConvFtl {
    const g: Geo
    const secsPerPg: nat
    const gcThresLinesHigh: nat
    const pgsPerBlk: nat
    const pgsPerLine: nat
    ghost const dim: Dim

    const maptbl: array<Option<Ppa>>
    var rmap: map<Ppa, int>

    // struct nand_page and struct nand_block
    var status: map<Ppa, PgStatus>
    var blkVpc: map<Blk, int>
    var blkIpc: map<Blk, int>

    // struct line: ipc here, vpc and pos in the heap that uses them as priority and position
    const lineIpc: array<int>
    const pq: PriorityQueue
    var freeList: seq<nat>
    var fullList: seq<nat>
    var freeLineCnt: int
    var fullLineCnt: int
    var victimLineCnt: int

    var wp: WritePointer
    var gcWp: WritePointer

    const wbuf: WriteBuffer

    ghost var place: seq<Place>
    ghost var wpPos: nat
    ghost var gcPos: nat
    ghost var collecting: int
    ghost var erased: set<Slot>
    ghost var moved: set<Slot>
    ghost var data: map<Ppa, int>

    ghost function L(): Lines
      reads this, lineIpc, pq, pq.d, pq.pri
    {
      Lines(status, place, pq.pri[..], lineIpc[..], blkVpc, blkIpc, freeList, fullList, pq.Elements(),
            wp.line, wpPos, gcWp.line, gcPos, collecting, erased)
    }

    ghost function M(): Maps
      reads this, maptbl
    {
      Maps(maptbl[..], rmap, status)
    }

    /** The counts of the pools are their sizes, and a line outside the heap has position 0. */
    ghost predicate PoolsOk()
      reads `freeLineCnt, `freeList, `fullLineCnt, `fullList, `victimLineCnt, pq, pq.d, pq.pri, pq.pos
      ensures PoolsOk() ==> 1 <= pq.size <= pq.d.Length && lineIpc != pq.pri && lineIpc.Length == pq.pri.Length
      ensures PoolsOk() ==> pq.Valid()
    {
      && pq.Valid() && lineIpc != pq.pri
      && lineIpc.Length == pq.pri.Length == dim.lines && pq.d.Length == dim.lines + 1
      && freeLineCnt == |freeList| && fullLineCnt == |fullList| && victimLineCnt == |pq.Elements()|
      && (forall b: nat :: b < pq.pos.Length && b !in pq.Elements() ==> pq.pos[b] == 0)
    }

    /** The line bookkeeping is consistent. */
    ghost predicate LinesInv()
      reads this, lineIpc, pq, pq.d, pq.pri, pq.pos
    {
      && Fits(g, dim) && pgsPerBlk == dim.blkPgs && pgsPerLine == dim.Total()
      && PoolsOk() && LinesOk(dim, L())
    }

    /** conv_init_ftl: nothing is mapped, and the two write pointers hold a line each. */
    constructor (g: Geo, secsPerPg: nat, gcThresLinesHigh: nat, wbuf: WriteBuffer)
      requires g.Ok() && 2 <= g.blksPerPl && 0 < secsPerPg
      requires wbuf.remaining == wbuf.size && wbuf.pending == 0 && wbuf.excess == 0
      ensures Valid() && View() == map[]
      ensures this.g == g && this.secsPerPg == secsPerPg && this.gcThresLinesHigh == gcThresLinesHigh
              && this.wbuf == wbuf
      ensures |freeList| == g.TtLines() - 2 && maptbl.Length == g.TtPgs() && wpPos == 0
      ensures dim.Total() == g.PgsPerLine() && dim.lines == g.blksPerPl
      ensures wbuf.Holds(WordlineBytes())
      ensures fresh(maptbl) && fresh(lineIpc) && fresh(pq) && fresh(pq.d) && fresh(pq.pri) && fresh(pq.pos)
    {
      hide Fits, PriorityQueue.Elements, PriorityQueue.Valid, NewPages, NewRmap, NewBlocks, Geo.PgsPerBlk;
      hide Geo.PgsPerLine;
      hide LinesOk, PoolsOk, Inverse, FtlMaps.View, WordlineFill;
      ghost var d := DimExists(g);
      FitsFrom(g, d);
      this.g := g;
      this.secsPerPg := secsPerPg;
      this.gcThresLinesHigh := gcThresLinesHigh;
      this.wbuf := wbuf;
      pgsPerBlk := g.PgsPerBlk();
      pgsPerLine := g.PgsPerLine();
      dim := d;
      maptbl := new Option<Ppa>[g.TtPgs()](_ => None);
      rmap := NewRmap(g);
      status := NewPages(g);
      blkVpc, blkIpc := NewBlocks(g), NewBlocks(g);
      lineIpc := new int[g.blksPerPl](_ => 0);
      pq := new PriorityQueue(g.blksPerPl, g.blksPerPl);
      freeList := seq(g.blksPerPl, b => b);
      fullList := [];
      freeLineCnt, fullLineCnt, victimLineCnt := g.blksPerPl, 0, 0;
      wp, gcWp := WritePointer(0, Slot(0, 0, 0)), WritePointer(0, Slot(0, 0, 0));
      place := seq(g.blksPerPl, b => FreeList);
      wpPos, gcPos := 0, 0;
      collecting, erased, moved, data := -1, {}, {}, map[];
      new;
      PrepareWritePointers();
      FillAtStart(g);
    }

    /** The tables as init_maptbl, init_rmap, init_lines and ssd_init leave them. */
    ghost predicate Built()
      reads this, maptbl, lineIpc, pq, pq.d, pq.pri, pq.pos
    {
      && Fits(g, dim) && 2 <= dim.lines && pgsPerBlk == dim.blkPgs && pgsPerLine == dim.Total()
      && pq.Valid() && lineIpc != pq.pri && pq.Elements() == {} && fullList == []
      && lineIpc.Length == pq.pri.Length == dim.lines == |freeList| && pq.d.Length == dim.lines + 1
      && freeLineCnt == dim.lines && fullLineCnt == 0 && victimLineCnt == 0
      && (forall b :: 0 <= b < dim.lines ==> pq.pri[b] == 0 && pq.pos[b] == 0 && lineIpc[b] == 0)
      && freeList == seq(dim.lines, b => b) && place == seq(dim.lines, b => FreeList)
      && status == NewPages(g) && rmap == NewRmap(g) && blkVpc == blkIpc == NewBlocks(g)
      && (forall l :: 0 <= l < maptbl.Length ==> maptbl[l] == None)
      && collecting == -1 && erased == {} && moved == {}
    }

    /** The two calls of prepare_write_pointer in conv_init_ftl. */
    method PrepareWritePointers()
      requires Built()
      modifies `wp, `gcWp, `wpPos, `gcPos, `freeList, `freeLineCnt, `place
      ensures Valid() && View() == map[] && |freeList| == dim.lines - 2 && wp.at == Slot(0, 0, 0)
    {
      hide Fits, LinesOk, PoolsOk, PriorityQueue.Elements, PriorityQueue.Valid, NewPages, NewRmap, NewBlocks;
      hide Inverse, FtlMaps.View, AfterOpen, Fresh;
      ghost var l0 := L();
      InitialPools();
      IsFresh(g, dim, l0);
      NewRmapKeys(g);
      PreparedOk(dim, l0);
      NothingMapped(dim, l0, rmap, maptbl[..]);
      PreparedStatus(l0);
      OpenLine(UserIo, Slot(0, 0, 0));
      OpenLine(GcIo, Slot(0, 0, 0));
      OrderStart(g, dim);
    }

    lemma InitialPools()
      requires pq.Valid() && lineIpc != pq.pri && pq.Elements() == {} && fullList == []
      requires lineIpc.Length == pq.pri.Length == dim.lines == |freeList| && pq.d.Length == dim.lines + 1
      requires freeLineCnt == dim.lines && fullLineCnt == 0 && victimLineCnt == 0
      requires forall b :: 0 <= b < pq.pos.Length ==> pq.pos[b] == 0
      ensures PoolsOk()
    {
      hide PriorityQueue.Valid, PriorityQueue.Elements;
    }

    /** One VALID page fewer in a line; the heap follows if the line is queued. */
    method DropVpc(line: nat)
      requires PoolsOk() && line < pq.pri.Length
      modifies pq.d, pq.pri, pq.pos
      ensures PoolsOk() && pq.Elements() == old(pq.Elements())
      ensures pq.pri[..] == old(pq.pri[..])[line := old(pq.pri[line]) - 1]
    {
      hide PriorityQueue.Valid, PriorityQueue.Elements;
      if line in pq.Elements() {
        pq.Queued(line);
      }
      if pq.pos[line] != 0 {
        pq.ChangePriority(pq.pri[line] - 1, line);
      } else {
        pq.SetPri(line, pq.pri[line] - 1);
      }
    }

    /** A line joins the victim heap. */
    method EnqueueVictim(line: nat)
      requires PoolsOk() && line < pq.pri.Length && line !in pq.Elements() && |pq.Elements()| < dim.lines
      modifies `victimLineCnt, pq, pq.d, pq.pos
      ensures PoolsOk() && pq.Elements() == old(pq.Elements()) + {line}
    {
      hide PriorityQueue.Valid, PriorityQueue.Elements;
      pq.SizeCounts();
      var ok := pq.Insert(line);
      assert ok;
      victimLineCnt := victimLineCnt + 1;
    }

    /** A line that has just lost its first page moves from the full list to the victim heap. */
    method MoveFullToVictim(line: nat)
      requires PoolsOk() && line in fullList && NoDup(fullList)
      requires line < pq.pri.Length == |place| && line !in pq.Elements() && |pq.Elements()| < dim.lines
      modifies `fullList, `fullLineCnt, `victimLineCnt, `place, pq, pq.d, pq.pos
      ensures PoolsOk()
      ensures line < |old(L()).place| && L() == AfterFullToVictim(old(L()), line)
    {
      hide PriorityQueue.Valid, PriorityQueue.Elements, NoDup, Without;
      WithoutMembers(fullList, line);
      fullList := Without(fullList, line);
      fullLineCnt := fullLineCnt - 1;
      EnqueueVictim(line);
      place := place[line := VictimHeap];
    }

    /** The line part of mark_page_invalid. */
    method InvalidateInLine(line: nat)
      requires PoolsOk() && pgsPerLine == dim.Total() && CanInvalidateIn(dim, L(), line)
      modifies `fullList, `fullLineCnt, `victimLineCnt, `place
      modifies lineIpc, pq, pq.d, pq.pri, pq.pos
      ensures PoolsOk()
      ensures line < |old(L()).vpc| && L() == AfterLineInvalid(dim, old(L()), line)
    {
      hide PoolsOk, PriorityQueue.Valid, PriorityQueue.Elements, NoDup, AfterFullToVictim;
      ghost var l0 := L();
      var wasFullLine := false;
      assert 0 <= lineIpc[line] < pgsPerLine;
      if pq.pri[line] == pgsPerLine {
        assert lineIpc[line] == 0;
        wasFullLine := true;
      }
      lineIpc[line] := lineIpc[line] + 1;
      assert lineIpc[..] == l0.ipc[line := l0.ipc[line] + 1];
      assert 0 < pq.pri[line] <= pgsPerLine;
      DropVpc(line);
      assert lineIpc[..] == l0.ipc[line := l0.ipc[line] + 1];
      if wasFullLine {
        MoveFullToVictim(line);
      }
    }

    /** mark_page_invalid */
    method MarkPageInvalid(p: Ppa)
      requires LinesInv() && CanInvalidate(dim, L(), p)
      modifies `status, `blkVpc, `blkIpc, `fullList, `fullLineCnt, `victimLineCnt, `place
      modifies lineIpc, pq, pq.d, pq.pri, pq.pos
      ensures LinesInv()
      ensures 0 <= p.blk < |old(L()).vpc| && L() == AfterInvalid(dim, old(L()), p)
    {
      hide PoolsOk, LinesOk, Fits, PriorityQueue.Valid, PriorityQueue.Elements;
      hide CanInvalidate, CanInvalidateIn, AfterLineInvalid;
      ghost var l0 := L();
      InvalidStep(dim, l0, p);
      assert status[p] == PgValid;

      status := status[p := PgInvalid];

      var blk := Blk(p.blk, p.at.ch, p.at.lun);
      assert 0 <= blkIpc[blk] < pgsPerBlk;
      blkIpc := blkIpc[blk := blkIpc[blk] + 1];
      assert 0 < blkVpc[blk] <= pgsPerBlk;
      blkVpc := blkVpc[blk := blkVpc[blk] - 1];

      InvalidateInLine(p.blk);
    }

    /** line->vpc of a line outside the heap. */
    method SetVpc(line: nat, vpc: int)
      requires PoolsOk() && line < pq.pri.Length && line !in pq.Elements()
      modifies pq.pri
      ensures PoolsOk() && pq.pri[..] == old(pq.pri[..])[line := vpc]
    {
      hide PriorityQueue.Valid, PriorityQueue.Elements;
      pq.SetPri(line, vpc);
    }

    /** mark_page_valid of the page the write pointer is at. */
    method MarkPageValid(ghost io: IoType, p: Ppa)
      requires LinesInv() && CanProgram(dim, L(), io, p)
      modifies `status, `blkVpc, `wpPos, `gcPos, pq.pri
      ensures LinesInv()
      ensures 0 <= p.blk < |old(L()).vpc| && Blk(p.blk, p.at.ch, p.at.lun) in old(L()).blkVpc
      ensures L() == AfterValid(old(L()), io, p)
    {
      hide PoolsOk, LinesOk, Fits, PriorityQueue.Valid, PriorityQueue.Elements, CanProgram;
      ghost var l0 := L();
      ValidStep(dim, l0, io, p);
      assert status[p] == PgFree;
      status := status[p := PgValid];

      var blk := Blk(p.blk, p.at.ch, p.at.lun);
      assert 0 <= blkVpc[blk] < pgsPerBlk;
      blkVpc := blkVpc[blk := blkVpc[blk] + 1];

      assert 0 <= pq.pri[p.blk] < pgsPerLine;
      SetVpc(p.blk, pq.pri[p.blk] + 1);
      if io.UserIo? {
        wpPos := wpPos + 1;
      } else {
        gcPos := gcPos + 1;
      }
    }

    /** get_next_free_line */
    method GetNextFreeLine() returns (curline: Option<nat>)
      requires PoolsOk()
      modifies `freeList, `freeLineCnt
      ensures PoolsOk()
      ensures old(freeList) == [] ==> curline.None? && freeList == []
      ensures old(freeList) != [] ==> curline == Some(old(freeList)[0]) && freeList == old(freeList)[1..]
    {
      hide PriorityQueue.Valid, PriorityQueue.Elements;
      if freeList == [] {
        return None;
      }
      curline := Some(freeList[0]);
      freeList := freeList[1..];
      freeLineCnt := freeLineCnt - 1;
    }

    /** A line joins the full list. */
    method EnqueueFull(line: nat)
      requires PoolsOk()
      modifies `fullList, `fullLineCnt
      ensures PoolsOk() && fullList == old(fullList) + [line]
    {
      hide PriorityQueue.Valid, PriorityQueue.Elements;
      fullList := fullList + [line];
      fullLineCnt := fullLineCnt + 1;
    }

    /** The coordinate arithmetic of advance_write_pointer. */
    method NextCoordinates(at: Slot) returns (next: Slot, wrapped: bool)
      requires g.Ok() && g.SlotOk(at) && pgsPerBlk == g.PgsPerBlk()
      ensures Advanced(next, wrapped) == Advance(g, at)
    {
      hide Geo.PgsPerBlk;
      var ch, lun, pg := at.ch, at.lun, at.pg;
      wrapped := false;
      assert 0 <= pg < pgsPerBlk;
      pg := pg + 1;
      if pg % g.pgsPerOneshotpg == 0 {
        pg := pg - g.pgsPerOneshotpg;
        assert 0 <= ch < g.nchs;
        ch := ch + 1;
        if ch == g.nchs {
          ch := 0;
          assert 0 <= lun < g.lunsPerCh;
          lun := lun + 1;
          if lun == g.lunsPerCh {
            lun := 0;
            pg := pg + g.pgsPerOneshotpg;
            if pg == pgsPerBlk {
              pg := 0;
              wrapped := true;
            }
          }
        }
      }
      next := Slot(ch, lun, pg);
    }

    function GetWp(io: IoType): WritePointer
      reads `wp, `gcWp
    {
      if io.UserIo? then wp else gcWp
    }

    /** The write pointer stands at the page its position says. */
    ghost predicate Settled(io: IoType)
      reads `wp, `gcWp, `wpPos, `gcPos
    {
      if io.UserIo? then wpPos < |dim.ord| && wp.at == dim.ord[wpPos]
      else gcPos < |dim.ord| && gcWp.at == dim.ord[gcPos]
    }

    /** A line that is written to the end goes to the full list or to the victim heap. */
    method RetireLine(line: nat)
      requires PoolsOk() && line < pq.pri.Length == |place| && pgsPerLine == dim.Total()
      requires line !in pq.Elements() && |pq.Elements()| < dim.lines
      requires pq.pri[line] == pgsPerLine ==> lineIpc[line] == 0
      requires pq.pri[line] != pgsPerLine ==> 0 <= pq.pri[line] < pgsPerLine && 0 < lineIpc[line]
      modifies `fullList, `fullLineCnt, `victimLineCnt, `place, pq, pq.d, pq.pos
      ensures PoolsOk()
      ensures line < |old(L()).vpc| && |old(L()).vpc| == |old(L()).place|
      ensures L() == AfterLineRetire(dim, old(L()), line)
    {
      hide PoolsOk, PriorityQueue.Valid, PriorityQueue.Elements;
      if pq.pri[line] == pgsPerLine {
        assert lineIpc[line] == 0;
        EnqueueFull(line);
        place := place[line := FullList];
      } else {
        assert 0 <= pq.pri[line] < pgsPerLine;
        assert 0 < lineIpc[line];
        EnqueueVictim(line);
        place := place[line := VictimHeap];
      }
    }

    /** prepare_write_pointer, also the tail of advance_write_pointer: `io` goes on with the next
        free line. */
    method OpenLine(io: IoType, at: Slot)
      requires PoolsOk() && 0 < |freeList| && freeList[0] < |place|
      modifies `wp, `gcWp, `wpPos, `gcPos, `freeList, `freeLineCnt, `place
      ensures PoolsOk()
      ensures 0 < |old(L()).freeList| && old(L()).freeList[0] < |old(L()).place|
      ensures L() == AfterOpen(old(L()), io) && GetWp(io).at == at
      ensures io.UserIo? ==> gcWp == old(gcWp)
      ensures io.GcIo? ==> wp == old(wp)
    {
      hide PoolsOk, PriorityQueue.Valid, PriorityQueue.Elements;
      var nextLine := GetNextFreeLine();
      assert nextLine.Some?;
      place := place[nextLine.value := ActivePlace(io)];
      if io.UserIo? {
        wp := WritePointer(nextLine.value, at);
        wpPos := 0;
      } else {
        gcWp := WritePointer(nextLine.value, at);
        gcPos := 0;
      }
    }

    /** The line switch of advance_write_pointer. */
    method SwitchLine(io: IoType, at: Slot)
      requires LinesInv() && CanRetire(dim, L(), io)
      modifies `wp, `gcWp, `wpPos, `gcPos, `freeList, `freeLineCnt, `fullList, `fullLineCnt, `victimLineCnt, `place
      modifies pq, pq.d, pq.pos
      ensures LinesInv()
      ensures && 0 < |old(L()).freeList| && old(L()).Active(io) < |old(L()).vpc| && |old(L()).vpc| == |old(L()).place|
              && old(L()).freeList[0] < |old(L()).place|
              && L() == AfterRetire(dim, old(L()), io)
      ensures GetWp(io).at == at
      ensures io.UserIo? ==> gcWp == old(gcWp)
      ensures io.GcIo? ==> wp == old(wp)
    {
      hide PoolsOk, LinesOk, Fits, PriorityQueue.Valid, PriorityQueue.Elements, CanRetire, AfterLineRetire, AfterOpen;
      ghost var l0 := L();
      RetireStep(dim, l0, io);
      OfLinesOk(dim, l0);
      FitsLines(g, dim);
      RetireLine(GetWp(io).line);
      assert GetWp(io).line < g.blksPerPl;
      OpenLine(io, at);
      RetiredActive(dim, l0, io);
      assert GetWp(io).line < g.blksPerPl;
    }

    /** advance_write_pointer, after the page it stands at was programmed.  A free line is there
        whenever one is needed, so the list is never found empty. */
    method AdvanceWritePointer(io: IoType)
      requires LinesInv() && 0 < L().Pos(io) && GetWp(io).at == dim.ord[L().Pos(io) - 1]
      requires L().Pos(io) <= |dim.ord| && (L().Pos(io) == |dim.ord| ==> 0 < |freeList|)
      modifies `wp, `gcWp, `wpPos, `gcPos, `freeList, `freeLineCnt, `fullList, `fullLineCnt, `victimLineCnt, `place
      modifies pq, pq.d, pq.pos
      ensures LinesInv() && Settled(io)
      ensures CanAdvance(dim, old(L()), io) && L() == AfterAdvance(dim, old(L()), io)
      ensures io.UserIo? ==> gcWp == old(gcWp)
      ensures io.GcIo? ==> wp == old(wp)
    {
      hide PoolsOk, LinesOk, Fits, PriorityQueue.Valid, PriorityQueue.Elements, Advance, DimOk;
      ghost var l0 := L();
      OrderNext(g, dim, l0.Pos(io) - 1);
      var cur := GetWp(io);
      var next, wrapped := NextCoordinates(cur.at);
      if !wrapped {
        if io.UserIo? {
          wp := WritePointer(wp.line, next);
        } else {
          gcWp := WritePointer(gcWp.line, next);
        }
        return;
      }
      CanRetireNow(g, dim, l0, io);
      assert next == Slot(0, 0, 0);
      SwitchLine(io, next);
    }

    /** get_new_page */
    function GetNewPage(io: IoType): (p: Ppa)
      reads `wp, `gcWp
    {
      Ppa(GetWp(io).line, GetWp(io).at)
    }

    /** set_maptbl_ent and set_rmap_ent; the payload is stored with the page. */
    method MapPage(lpn: nat, p: Ppa, ghost payload: int)
      requires lpn < maptbl.Length
      modifies `rmap, `data, maptbl
      ensures maptbl[..] == old(maptbl[..])[lpn := Some(p)] && rmap == old(rmap)[p := lpn]
      ensures data == old(data)[p := payload]
    {
      ghost var t0 := maptbl[..];
      maptbl[lpn] := Some(p);
      assert maptbl[..] == t0[lpn := Some(p)];
      rmap := rmap[p := lpn];
      data := data[p := payload];
    }

    /** Mark the page at the write pointer VALID and advance. */
    method ProgramPage(io: IoType, p: Ppa)
      requires LinesInv() && Settled(io) && p == GetNewPage(io)
      requires L().Pos(io) + 1 == |dim.ord| ==> 0 < |freeList|
      modifies `status, `blkVpc, `wp, `gcWp, `wpPos, `gcPos
      modifies `freeList, `freeLineCnt, `fullList, `fullLineCnt, `victimLineCnt, `place, pq, pq.d, pq.pri, pq.pos
      ensures LinesInv() && Settled(io)
      ensures Programmed(dim, old(L()), L(), io, p) && status == old(status)[p := PgValid]
      ensures io.UserIo? ==> gcWp == old(gcWp)
      ensures io.GcIo? ==> wp == old(wp)
    {
      hide PoolsOk, LinesOk, PriorityQueue.Valid, PriorityQueue.Elements, CanProgram, AfterValid, AfterRetire;
      hide Fits, DimOk, Programmed, CanAdvance, AfterAdvance;
      ghost var l0 := L();
      FitsDim(g, dim);
      ProgramReady(dim, l0, io);
      ProgramStep(dim, l0, io, p);
      MarkPageValid(io, p);
      AdvanceWritePointer(io);
    }

    /** The part conv_write and gc_write_page share: take the page at the write pointer, point both
        maps at it, mark it VALID and advance. */
    method ProgramNewPage(io: IoType, lpn: nat, ghost payload: int) returns (p: Ppa)
      requires LinesInv() && Settled(io) && lpn < maptbl.Length
      requires L().Pos(io) + 1 == |dim.ord| ==> 0 < |freeList|
      modifies `rmap, `data, maptbl, `status, `blkVpc, `wp, `gcWp, `wpPos, `gcPos
      modifies `freeList, `freeLineCnt, `fullList, `fullLineCnt, `victimLineCnt, `place, pq, pq.d, pq.pri, pq.pos
      ensures LinesInv() && Settled(io)
      ensures Programmed(dim, old(L()), L(), io, p)
      ensures M() == AfterMap(old(M()), lpn, p) && data == old(data)[p := payload]
      ensures io.UserIo? ==> gcWp == old(gcWp)
      ensures io.GcIo? ==> wp == old(wp)
    {
      hide PoolsOk, LinesOk, PriorityQueue.Valid, PriorityQueue.Elements, Fits, Programmed;
      p := GetNewPage(io);
      MapPage(lpn, p, payload);
      ProgramPage(io, p);
    }

    // ---------- the state between commands ----------

    /** The VALID pages of the line the user writes. */
    ghost function UserValid(): nat
      reads `wp, `status
    {
      Count(status, dim.slots, wp.line, PgValid)
    }

    ghost function Cur(): Cursor
      reads `wp, `wpPos, `status
    {
      Cursor(wp.line, wpPos, UserValid())
    }

    ghost function View(): map<nat, int>
      reads maptbl, `data
    {
      FtlMaps.View(maptbl[..], data)
    }

    /** What holds between any two page writes, and so between any two commands. */
    ghost predicate Valid()
      reads this, maptbl, lineIpc, pq, pq.d, pq.pri, pq.pos
    {
      && LinesInv() && Settled(UserIo) && Settled(GcIo)
      && collecting == -1 && moved == {}
      && Inverse(maptbl[..], rmap, status, -1, {})
    }

    /** conv_write, lines 981-988: an LPN that was written before loses its old page. */
    method UnmapOld(lpn: nat)
      requires Valid() && lpn < maptbl.Length
      modifies `rmap, `status, `blkVpc, `blkIpc, `fullList, `fullLineCnt, `victimLineCnt, `place
      modifies lineIpc, pq, pq.d, pq.pri, pq.pos
      ensures LinesInv() && Settled(UserIo) && Settled(GcIo)
      ensures M() == AfterUnmap(old(M()), lpn)
    {
      hide PoolsOk, LinesOk, Fits, Inverse, PriorityQueue.Valid, PriorityQueue.Elements, CanInvalidate, AfterInvalid;
      var ppa := maptbl[lpn];
      if ppa.Some? {
        FitsDim(g, dim);
        ghost var l0 := L();
        UnmapReady(dim, l0, M(), lpn);
        InvalidStep(dim, l0, ppa.value);
        InvalidStatus(dim, l0, ppa.value);
        MarkPageInvalid(ppa.value);
        rmap := rmap[ppa.value := INVALID_LPN];
      }
    }

    /** One iteration of conv_write's loop. */
    method WritePage(lpn: nat, ghost payload: int) returns (ppa: Ppa)
      requires Valid() && lpn < maptbl.Length
      requires wpPos + 1 == |dim.ord| ==> 0 < |freeList|
      modifies `rmap, `data, maptbl, `status, `blkVpc, `blkIpc, `wp, `gcWp, `wpPos, `gcPos, lineIpc
      modifies `freeList, `freeLineCnt, `fullList, `fullLineCnt, `victimLineCnt, `place, pq, pq.d, pq.pri, pq.pos
      ensures Valid() && View() == old(View())[lpn := payload]
      ensures ppa == Ppa(old(wp.line), old(wp.at)) && gcWp == old(gcWp) && gcPos == old(gcPos)
      ensures Rewritten(old(M()), M(), lpn, ppa)
      ensures old(wpPos) + 1 < |dim.ord| ==> wp.line == old(wp.line)
      ensures old(wpPos) + 1 < |dim.ord| ==> wpPos == old(wpPos) + 1 && freeList == old(freeList)
      ensures old(wpPos) + 1 == |dim.ord| ==> wpPos == 0 && |freeList| == |old(freeList)| - 1
    {
      hide PoolsOk, LinesOk, Fits, Inverse, PriorityQueue.Valid, PriorityQueue.Elements, FtlMaps.View, AfterUnmap;
      ghost var m0, d0 := M(), data;
      UnmapOld(lpn);
      ppa := ProgramNewPage(UserIo, lpn, payload);
      AfterUnmapDomain(m0, lpn);
      OverwriteStep(m0, d0, lpn, ppa, payload);
    }

    lemma ValidParts()
      requires Valid()
      ensures pq.Valid() && moved == {} && collecting == -1
    {
    }

    // ---------- garbage collection ----------

    /** What holds while a line is being collected. */
    ghost predicate GcInv()
      reads this, maptbl, lineIpc, pq, pq.d, pq.pri, pq.pos
    {
      && LinesInv() && Settled(UserIo) && Settled(GcIo)
      && 0 <= collecting && erased <= moved
      && Inverse(maptbl[..], rmap, status, collecting, moved)
    }

    ghost predicate Running(r: Run)
      reads this, maptbl
    {
      && collecting == r.v && View() == r.view && wp == r.wp && wpPos == r.wpPos
      && PagesIn(status, PgInvalid) <= r.invalid && UserValid() == r.kept
      && Budget(dim.Total(), |freeList|, gcPos, |Todo(dim, status, r.v, moved)|, r.free0, r.work0)
    }

    /** gc_write_page: move one VALID page of the collected line to the GC line. */
    method GcWritePage(oldPpa: Ppa, ghost r: Run)
      requires GcInv() && Running(r) && oldPpa.blk == r.v && oldPpa.at in Todo(dim, status, r.v, moved)
      requires gcPos + 1 == |dim.ord| ==> 0 < |freeList|
      modifies `rmap, `data, maptbl, `status, `blkVpc, `wp, `gcWp, `wpPos, `gcPos, `moved
      modifies `freeList, `freeLineCnt, `fullList, `fullLineCnt, `victimLineCnt, `place, pq, pq.d, pq.pri, pq.pos
      ensures GcInv() && Running(r)
      ensures moved == old(moved) + {oldPpa.at} && erased == old(erased)
      ensures forall s :: At(status, Ppa(r.v, s)) == At(old(status), Ppa(r.v, s))
    {
      hide PoolsOk, LinesOk, PriorityQueue.Valid, PriorityQueue.Elements, Fits, Programmed, Inverse, FtlMaps.View;
      hide Todo, Budget, PagesIn, At, Payload;
      ghost var l0, m0, d0, moved0 := L(), M(), data, moved;
      CopySource(m0, dim, r.v, moved, oldPpa);
      OrderTotal(g, dim);
      BudgetStep(dim.Total(), |freeList|, gcPos, |Todo(dim, status, r.v, moved)|, r.free0, r.work0);
      TodoNotEmpty(dim, status, r.v, moved, oldPpa.at);
      var lpn := rmap[oldPpa];
      assert 0 <= lpn < maptbl.Length;
      ghost var p := ProgramNewPage(GcIo, lpn, Payload(data, oldPpa));
      moved := moved + {oldPpa.at};
      LinesPartition(dim, l0);
      CopyStep(dim, l0, L(), m0, d0, moved0, oldPpa, p);
      ProgrammedMoves(dim, l0, L(), p);
    }

    /** Take the root out of the victim heap and give it position 0. */
    method PopVictim() returns (b: nat)
      requires PoolsOk() && pq.Elements() != {}
      modifies `victimLineCnt, pq, pq.d, pq.pos
      ensures PoolsOk() && b in old(pq.Elements()) && pq.Elements() == old(pq.Elements()) - {b}
      ensures pq.d.Length > 1 && b == old(pq.d[1])
    {
      hide PriorityQueue.Valid, PriorityQueue.Elements;
      forall e | e in pq.Elements() ensures e < pq.pri.Length {
        pq.Queued(e);
      }
      var head := pq.Pop();
      b := head.value;
      pq.SetPos(b, 0);
      victimLineCnt := victimLineCnt - 1;
    }

    /** The root of the victim heap becomes the collected line. */
    method TakeVictim() returns (victim: nat)
      requires Valid() && pq.Elements() != {}
      modifies `victimLineCnt, `place, `collecting, `erased, pq, pq.d, pq.pos
      ensures GcInv() && collecting == victim && moved == erased == {}
      ensures victim < |old(L()).place| && L() == AfterSelect(old(L()), victim)
      ensures pq.d.Length > 1 && victim == old(pq.d[1]) && victim in old(pq.Elements())
    {
      hide LinesOk, PoolsOk, PriorityQueue.Valid, PriorityQueue.Elements, Fits, Inverse, CanSelect;
      ghost var l0 := L();
      victim := PopVictim();
      SelectReady(g, dim, l0, victim);
      SelectStep(dim, l0, M(), victim);
      place := place[victim := Collecting];
      collecting := victim;
      erased := {};
    }

    /** select_victim_line: a victim of least vpc, or none. */
    method SelectVictimLine(force: bool) returns (victim: Option<nat>)
      requires Valid()
      modifies `victimLineCnt, `place, `collecting, `erased, pq, pq.d, pq.pos
      ensures victim.None? ==> Valid() && L() == old(L())
      ensures victim.None? <==>
                forall b: nat :: b in old(pq.Elements()) ==> !force && VpcAt(b) > pgsPerLine / 8
      ensures victim.Some? ==> GcInv() && collecting == victim.value && moved == erased == {}
      ensures victim.Some? ==> victim.value < |old(L()).place| && L() == AfterSelect(old(L()), victim.value)
      ensures victim.Some? ==> victim.value in old(pq.Elements())
      ensures victim.Some? ==> forall b: nat :: b in old(pq.Elements()) ==> VpcAt(victim.value) <= VpcAt(b)
    {
      hide Valid, GcInv, PriorityQueue.Valid, PriorityQueue.Elements, AfterSelect;
      ValidParts();
      forall b: nat | b in pq.Elements() ensures b < pq.pri.Length {
        pq.Queued(b);
      }
      victim := pq.Peek();
      if victim.None? {
        return;
      }
      if !force && pq.pri[victim.value] > pgsPerLine / 8 {
        return None;
      }
      var _ := TakeVictim();
    }

    /** line->vpc */
    function VpcAt(b: nat): int
      reads pq.pri
    {
      if b < pq.pri.Length then pq.pri[b] else 0
    }

    /** The page loop of mark_block_free. */
    method ErasePages(q: Blk)
      requires forall i :: 0 <= i < pgsPerBlk ==> Ppa(q.blk, Slot(q.ch, q.lun, i)) in status
      requires forall p :: p in status && InBlock(p, q) ==> 0 <= p.at.pg < pgsPerBlk
      modifies `status
      ensures status == ErasedPages(old(status), q)
    {
      ghost var s0 := status;
      for i := 0 to pgsPerBlk
        invariant status.Keys == s0.Keys
        invariant forall p :: p in s0 ==> (status[p] == if InBlock(p, q) && p.at.pg < i then PgFree else s0[p])
      {
        var p := Ppa(q.blk, Slot(q.ch, q.lun, i));
        assert p in s0;
        status := status[p := PgFree];
      }
    }

    /** The page and block part of mark_block_free. */
    method EraseBlock(q: Blk)
      requires LinesInv() && 0 <= collecting && q.blk == collecting
      requires 0 <= q.ch < g.nchs && 0 <= q.lun < g.lunsPerCh
      modifies `status, `blkVpc, `blkIpc, `erased
      ensures L() == AfterErase(dim, old(L()), q) && PoolsOk()
    {
      hide LinesOk, PoolsOk, PriorityQueue.Valid, PriorityQueue.Elements, CanErase;
      hide DimOk, Fits, ErasedPages, BlkSlots, InBlock;
      EraseReady(g, dim, L(), q);
      ErasePages(q);
      blkIpc := blkIpc[q := 0];
      blkVpc := blkVpc[q := 0];
      erased := erased + BlkSlots(dim.slots, q.ch, q.lun);
    }

    /** mark_block_free of a block of the collected line whose pages have all been dealt with. */
    method MarkBlockFree(q: Blk, ghost r: Run)
      requires GcInv() && Running(r) && q.blk == r.v && BlkSlots(dim.slots, q.ch, q.lun) <= moved
      requires 0 <= q.ch < g.nchs && 0 <= q.lun < g.lunsPerCh
      modifies `status, `blkVpc, `blkIpc, `erased
      ensures GcInv() && Running(r)
      ensures erased == old(erased) + BlkSlots(dim.slots, q.ch, q.lun)
    {
      hide LinesOk, PoolsOk, PriorityQueue.Valid, PriorityQueue.Elements, Inverse, CanErase, Todo, Budget, PagesIn;
      hide DimOk, Fits, FtlMaps.View, ErasedPages, BlkSlots;
      ghost var l0 := L();
      EraseReady(g, dim, l0, q);
      EraseStep(dim, l0, M(), q, moved);
      EraseBlock(q);
    }

    /** The walk passes over pages that hold no live data. */
    ghost method SkipPages(S: set<Slot>, r: Run)
      requires GcInv() && Running(r)
      requires forall s :: s in S ==> s in moved || At(status, Ppa(r.v, s)) != PgValid
      modifies `moved
      ensures GcInv() && Running(r) && moved == old(moved) + S
    {
      hide PoolsOk, LinesOk, Fits, Inverse, Todo, Budget, PagesIn, FtlMaps.View, At, PriorityQueue.Valid;
      hide PriorityQueue.Elements;
      SkipStep(dim, M(), r.v, moved, S);
      moved := moved + S;
    }

    /** In a page that is not behind yet the status is not FREE. */
    lemma PageNotFree(s: Slot)
      requires GcInv() && s in dim.slots && s !in moved
      ensures Ppa(collecting, s) in status && status[Ppa(collecting, s)] != PgFree
    {
      hide PoolsOk, LinesOk, Fits, PriorityQueue.Valid, PriorityQueue.Elements, Inverse;
      CollectedNotFree(dim, L(), s);
    }

    /** The first loop of clean_one_flashpg: count the VALID pages of a flash page. */
    method CountValid(ppa: Ppa) returns (cnt: nat)
      requires GcInv() && ppa.blk == collecting
      requires FlashSlots(ppa.at.ch, ppa.at.lun, ppa.at.pg, g.pgsPerFlashpg) <= dim.slots - moved
      ensures cnt == 0 ==> forall s :: s in FlashSlots(ppa.at.ch, ppa.at.lun, ppa.at.pg, g.pgsPerFlashpg) ==>
                At(status, Ppa(collecting, s)) != PgValid
    {
      hide GcInv, FlashSlots;
      var ch, lun, base := ppa.at.ch, ppa.at.lun, ppa.at.pg;
      ghost var S := FlashSlots(ch, lun, base, g.pgsPerFlashpg);
      cnt := 0;
      FlashSlotsGrow(ch, lun, base, 0);
      for i := 0 to g.pgsPerFlashpg
        invariant cnt == 0 ==>
                    forall s :: s in FlashSlots(ch, lun, base, i) ==> At(status, Ppa(collecting, s)) != PgValid
      {
        FlashSlotsGrow(ch, lun, base, i);
        FlashSlotIn(ch, lun, base, g.pgsPerFlashpg, i);
        PageNotFree(Slot(ch, lun, base + i));
        var p := Ppa(ppa.blk, Slot(ch, lun, base + i));
        // a line is a victim only after all its pages were written
        assert status[p] != PgFree;
        if status[p] == PgValid {
          cnt := cnt + 1;
        }
      }
    }

    /** The collection began without a free line, and its copies do not fit in the GC line. */
    ghost predicate Overrun(r: Run) { r.free0 == 0 && dim.Total() <= r.work0 }

    lemma NoSpareLine(s: Slot, r: Run)
      requires GcInv() && Running(r) && s in Todo(dim, status, r.v, moved)
      requires gcPos + 1 == |dim.ord| && freeList == []
      ensures Overrun(r)
    {
      hide PoolsOk, LinesOk, PriorityQueue.Valid, PriorityQueue.Elements, Fits, Inverse, FtlMaps.View, Todo, Budget;
      hide PagesIn;
      OrderTotal(g, dim);
      TodoNotEmpty(dim, status, r.v, moved, s);
      BudgetStep(dim.Total(), |freeList|, gcPos, |Todo(dim, status, r.v, moved)|, r.free0, r.work0);
    }

    /** Whether the GC write pointer stands at the last page of its line. */
    method GcAtLineEnd() returns (last: bool)
      requires GcInv()
      ensures last <==> gcPos + 1 == |dim.ord|
    {
      hide LinesOk, PoolsOk, Inverse, PriorityQueue.Valid, PriorityQueue.Elements, Advance, DimOk;
      OrderNext(g, dim, gcPos);
      var _, wrapped := NextCoordinates(gcWp.at);
      last := wrapped;
    }

    /** One round of the copying loop of clean_one_flashpg.  It fails when a copy fills the GC line
        and no line is free: the original follows a NULL line there. */
    method CleanPage(ppa: Ppa, ghost r: Run) returns (ok: bool)
      requires GcInv() && Running(r) && ppa.blk == r.v && ppa.at in dim.slots - moved
      modifies `rmap, `data, maptbl, `status, `blkVpc, `wp, `gcWp, `wpPos, `gcPos, `moved
      modifies `freeList, `freeLineCnt, `fullList, `fullLineCnt, `victimLineCnt, `place, pq, pq.d, pq.pri, pq.pos
      ensures ok ==> GcInv() && Running(r) && erased == old(erased) && moved == old(moved) + {ppa.at}
      ensures !ok ==> Overrun(r)
    {
      hide GcInv, Todo, Budget, PagesIn, View;
      PageNotFree(ppa.at);
      if status[ppa] == PgValid {
        TodoMember(dim, status, r.v, moved, ppa.at);
        var last := GcAtLineEnd();
        if last && freeList == [] {
          NoSpareLine(ppa.at, r);
          return false;
        }
        GcWritePage(ppa, r);
      } else {
        SkipPages({ppa.at}, r);
      }
      ok := true;
    }

    /** clean_one_flashpg: copy the VALID pages of one flash page. */
    method CleanOneFlashPg(ppa: Ppa, ghost r: Run) returns (ok: bool)
      requires GcInv() && Running(r) && ppa.blk == r.v
      requires FlashSlots(ppa.at.ch, ppa.at.lun, ppa.at.pg, g.pgsPerFlashpg) <= dim.slots - moved
      modifies `rmap, `data, maptbl, `status, `blkVpc, `wp, `gcWp, `wpPos, `gcPos, `moved
      modifies `freeList, `freeLineCnt, `fullList, `fullLineCnt, `victimLineCnt, `place, pq, pq.d, pq.pri, pq.pos
      ensures ok ==> GcInv() && Running(r) && erased == old(erased)
      ensures ok ==> moved == old(moved) + FlashSlots(ppa.at.ch, ppa.at.lun, ppa.at.pg, g.pgsPerFlashpg)
      ensures !ok ==> Overrun(r)
    {
      hide GcInv, FlashSlots, Todo, Budget, PagesIn, View;
      var ch, lun, base := ppa.at.ch, ppa.at.lun, ppa.at.pg;
      ghost var moved0, S := moved, FlashSlots(ch, lun, base, g.pgsPerFlashpg);
      var cnt := CountValid(ppa);
      if cnt <= 0 {
        SkipPages(S, r);
        return true;
      }
      FlashSlotsGrow(ch, lun, base, 0);
      for i := 0 to g.pgsPerFlashpg
        invariant GcInv() && Running(r) && erased == old(erased)
        invariant moved == moved0 + FlashSlots(ch, lun, base, i)
      {
        FlashSlotsGrow(ch, lun, base, i);
        FlashSlotIn(ch, lun, base, g.pgsPerFlashpg, i);
        var copied := CleanPage(Ppa(ppa.blk, Slot(ch, lun, base + i)), r);
        if !copied {
          return false;
        }
        UnionAssociates(moved0, FlashSlots(ch, lun, base, i), {Slot(ch, lun, base + i)});
      }
      ok := true;
    }

    /** mark_line_free, when every page of the collected line is erased. */
    method MarkLineFree(line: nat, ghost r: Run)
      requires GcInv() && Running(r) && line == r.v && moved == erased == dim.slots
      modifies `freeList, `freeLineCnt, `place, `collecting, `erased, `moved, lineIpc, pq.pri
      ensures Valid() && View() == r.view && wp == r.wp && wpPos == r.wpPos && UserValid() == r.kept
      ensures PagesIn(status, PgInvalid) <= r.invalid && status == old(status)
      ensures forall s :: s in dim.slots ==> At(status, Ppa(r.v, s)) == PgFree
      ensures forall p :: p in PagesIn(status, PgInvalid) ==> p.blk != r.v
      ensures freeList == old(freeList) + [line] && gcPos == old(gcPos)
      ensures Budget(dim.Total(), |freeList| - 1, gcPos, 0, r.free0, r.work0)
    {
      hide PoolsOk, LinesOk, PriorityQueue.Valid, PriorityQueue.Elements, Inverse, CanReturn, Todo, Budget, PagesIn;
      hide DimOk, Fits, FtlMaps.View, At, AfterReturn;
      ghost var l0 := L();
      FitsDim(g, dim);
      TodoDone(dim, status, r.v);
      ReturnReady(dim, l0);
      ReturnStep(dim, l0, M());
      AfterReturnParts(l0);
      FreeLine(line);
      moved := {};
    }

    /** The counters and the list of mark_line_free. */
    method FreeLine(line: nat)
      requires PoolsOk() && line < pq.pri.Length == |place| && line !in pq.Elements() && collecting == line
      modifies `freeList, `freeLineCnt, `place, `collecting, `erased, lineIpc, pq.pri
      ensures PoolsOk() && freeList == old(freeList) + [line]
      ensures 0 <= old(L()).collecting < |old(L()).place| && |old(L()).place| == |old(L()).vpc| == |old(L()).ipc|
      ensures L() == AfterReturn(old(L()))
    {
      hide PriorityQueue.Valid, PriorityQueue.Elements;
      ghost var i0 := lineIpc[..];
      lineIpc[line] := 0;
      assert lineIpc[..] == i0[line := 0];
      SetVpc(line, 0);
      freeList := freeList + [line];
      freeLineCnt := freeLineCnt + 1;
      place := place[line := FreeList];
      collecting := -1;
      erased := {};
    }

    /** How far do_gc's walk has come: everything before (base, ch, lun) is behind, and in the last
        flash page the visited blocks are erased. */
    ghost predicate Walked(r: Run, base: int, last: bool, ch: int, lun: int)
      reads this, maptbl, lineIpc, pq, pq.d, pq.pri, pq.pos
    {
      && GcInv() && Running(r)
      && moved == Behind(dim, base, g.pgsPerFlashpg, ch, lun)
      && erased == if last then ErasedBefore(dim, ch, lun) else {}
    }

    /** One step of do_gc's loop nest. */
    method VisitFlashPage(blk: nat, base: nat, last: bool, ch: nat, lun: nat, ghost r: Run) returns (ok: bool)
      requires blk == r.v && Walked(r, base, last, ch, lun) && ch < g.nchs && lun < g.lunsPerCh
      requires Boxed(dim, g.nchs, g.lunsPerCh, pgsPerBlk)
      requires base + g.pgsPerFlashpg <= pgsPerBlk && (last ==> base + g.pgsPerFlashpg == pgsPerBlk)
      modifies `rmap, `data, maptbl, `status, `blkVpc, `blkIpc, `wp, `gcWp, `wpPos, `gcPos, `moved, `erased
      modifies `freeList, `freeLineCnt, `fullList, `fullLineCnt, `victimLineCnt, `place, pq, pq.d, pq.pri, pq.pos
      ensures ok ==> Walked(r, base, last, ch, lun + 1)
      ensures !ok ==> Overrun(r)
    {
      hide GcInv, FlashSlots, Behind, ErasedBefore, BlkSlots, Boxed, Todo, Budget, PagesIn, View;
      VisitOnce(dim, g.nchs, g.lunsPerCh, pgsPerBlk, base, g.pgsPerFlashpg, ch, lun);
      ok := CleanOneFlashPg(Ppa(blk, Slot(ch, lun, base)), r);
      if ok && last {
        LastVisitCompletes(dim, g.nchs, g.lunsPerCh, pgsPerBlk, base, g.pgsPerFlashpg, Blk(blk, ch, lun));
        MarkBlockFree(Blk(blk, ch, lun), r);
      }
    }

    /** The two inner loops of do_gc: one flash page of every block of the line. */
    method CleanRow(blk: nat, base: nat, last: bool, ghost r: Run) returns (ok: bool)
      requires blk == r.v && Walked(r, base, last, 0, 0)
      requires Boxed(dim, g.nchs, g.lunsPerCh, pgsPerBlk)
      requires base + g.pgsPerFlashpg <= pgsPerBlk && (last ==> base + g.pgsPerFlashpg == pgsPerBlk)
      modifies `rmap, `data, maptbl, `status, `blkVpc, `blkIpc, `wp, `gcWp, `wpPos, `gcPos, `moved, `erased
      modifies `freeList, `freeLineCnt, `fullList, `fullLineCnt, `victimLineCnt, `place, pq, pq.d, pq.pri, pq.pos
      ensures ok ==> Walked(r, base, last, g.nchs, 0)
      ensures !ok ==> Overrun(r)
    {
      hide Behind, ErasedBefore, Boxed, GcInv, Running;
      for ch := 0 to g.nchs
        invariant Walked(r, base, last, ch, 0)
      {
        for lun := 0 to g.lunsPerCh
          invariant Walked(r, base, last, ch, lun)
        {
          ok := VisitFlashPage(blk, base, last, ch, lun, r);
          if !ok {
            return;
          }
        }
        WalkCarries(dim, g.nchs, g.lunsPerCh, pgsPerBlk, base, g.pgsPerFlashpg, ch);
      }
      ok := true;
    }

    /** The loop nest of do_gc: every page of the collected line is visited once, and every block is
        erased after all of its pages, unless the copies run out of lines. */
    method CleanLine(blk: nat, ghost r: Run) returns (ok: bool)
      requires GcInv() && Running(r) && blk == r.v && moved == erased == {}
      modifies `rmap, `data, maptbl, `status, `blkVpc, `blkIpc, `wp, `gcWp, `wpPos, `gcPos, `moved, `erased
      modifies `freeList, `freeLineCnt, `fullList, `fullLineCnt, `victimLineCnt, `place, pq, pq.d, pq.pri, pq.pos
      ensures ok ==> GcInv() && Running(r) && moved == erased == dim.slots
      ensures !ok ==> Overrun(r)
    {
      hide Behind, ErasedBefore, Boxed, GcInv, Running, Geo.FlashpgsPerBlk, Geo.PgsPerBlk;
      LineBox();
      HasFlashPages(g);
      FlashPageEnds(g, 0);
      WalkCarries(dim, g.nchs, g.lunsPerCh, pgsPerBlk, 0, g.pgsPerFlashpg, 0);
      var flashpgsPerBlk := g.FlashpgsPerBlk();
      var base: nat := 0;
      for flashpg := 0 to flashpgsPerBlk
        invariant base == flashpg * g.pgsPerFlashpg
        invariant flashpg < flashpgsPerBlk ==> Walked(r, base, flashpg == flashpgsPerBlk - 1, 0, 0)
        invariant flashpg == flashpgsPerBlk ==> GcInv() && Running(r) && moved == erased == dim.slots
      {
        FlashPageEnds(g, flashpg);
        ok := CleanRow(blk, base, flashpg == flashpgsPerBlk - 1, r);
        if !ok {
          return;
        }
        WalkCarries(dim, g.nchs, g.lunsPerCh, pgsPerBlk, base, g.pgsPerFlashpg, 0);
        base := base + g.pgsPerFlashpg;
      }
      ok := true;
    }

    lemma LineBox()
      requires GcInv()
      ensures g.Ok() && pgsPerBlk == g.PgsPerBlk() && Boxed(dim, g.nchs, g.lunsPerCh, pgsPerBlk)
    {
      hide PoolsOk, LinesOk, PriorityQueue.Valid, PriorityQueue.Elements, Inverse, DimOk, WriteOrder, Geo.PgsPerBlk;
    }

    /** do_gc.  A collected line comes back with every page FREE, no LPN reads differently, and the
        INVALID pages of the line are gone.  It fails exactly when no line is free and the VALID pages
        of the victim do not fit in the rest of the GC line. */
    method DoGc(force: bool) returns (outcome: GcOutcome, ghost v: nat)
      requires Valid()
      modifies `rmap, `data, maptbl, `status, `blkVpc, `blkIpc, `wp, `gcWp, `wpPos, `gcPos, `moved, `erased
      modifies `freeList, `freeLineCnt, `fullList, `fullLineCnt, `victimLineCnt, `place, `collecting
      modifies lineIpc, pq, pq.d, pq.pri, pq.pos
      ensures !outcome.OutOfLines? ==> Valid() && View() == old(View()) && wp == old(wp) && wpPos == old(wpPos)
      ensures !outcome.OutOfLines? ==> UserValid() == old(UserValid())
      ensures outcome.NoVictim? ==> L() == old(L())
      ensures outcome.NoVictim? <==>
                forall b: nat :: b in old(pq.Elements()) ==> !force && old(VpcAt(b)) > pgsPerLine / 8
      ensures !outcome.NoVictim? ==> v in old(pq.Elements())
      ensures !outcome.NoVictim? ==> forall b: nat :: b in old(pq.Elements()) ==> old(VpcAt(v)) <= old(VpcAt(b))
      ensures outcome.OutOfLines? <==>
                !outcome.NoVictim? && old(freeList) == [] && dim.Total() <= old(gcPos) + old(VpcAt(v))
      ensures outcome.Collected? ==> forall s :: s in dim.slots ==> At(status, Ppa(v, s)) == PgFree
      ensures outcome.Collected? ==> PagesIn(status, PgInvalid) < old(PagesIn(status, PgInvalid))
      ensures outcome.Collected? ==> freeList != [] && freeList[|freeList| - 1] == v
      ensures outcome.Collected? ==>
                |freeList| == |old(freeList)| + (if old(gcPos) + old(VpcAt(v)) < dim.Total() then 1 else 0)
    {
      hide GcInv, Valid, LinesOk, Fits, Inverse, CanSelect, Running, PriorityQueue.Elements, Todo, PagesIn, Budget;
      hide AfterSelect, At, FtlMaps.View;
      ghost var l0, m0 := L(), M();
      ValidFacts();
      var victim := SelectVictimLine(force);
      if victim.None? {
        return NoVictim, 0;
      }
      v := victim.value;
      SelectReady(g, dim, l0, v);
      SelectStep(dim, l0, m0, v);
      AfterSelectParts(l0, v);
      ghost var work := gcPos + |Todo(dim, status, v, {})|;
      ghost var r := Run(v, View(), wp, wpPos, PagesIn(status, PgInvalid), |freeList|, work, UserValid());
      BudgetAtStart(dim.Total(), |freeList|, gcPos, |Todo(dim, status, v, {})|);
      StartRun(r);
      var ok := CleanLine(victim.value, r);
      if !ok {
        return OutOfLines, v;
      }
      ghost var gcPos1 := gcPos;
      EndRun(r);
      MarkLineFree(victim.value, r);
      BudgetAtEnd(dim.Total(), |freeList| - 1, gcPos1, r.free0, r.work0);
      FewerInvalid(status, r.invalid, v);
      outcome := Collected;
    }

    lemma ValidFacts()
      requires Valid()
      ensures LinesOk(dim, L()) && Fits(g, dim) && L().victims == pq.Elements() && |lineIpc[..]| == pq.pri.Length
      ensures Inverse(M().maptbl, M().rmap, M().status, -1, {})
      ensures collecting == -1 && gcPos < dim.Total() && pgsPerLine == dim.Total() && freeLineCnt == |freeList|
    {
    }

    lemma StartRun(r: Run)
      requires collecting == r.v && View() == r.view && wp == r.wp && wpPos == r.wpPos
      requires PagesIn(status, PgInvalid) <= r.invalid && moved == {} && UserValid() == r.kept
      requires Budget(dim.Total(), |freeList|, gcPos, |Todo(dim, status, r.v, {})|, r.free0, r.work0)
      ensures Running(r)
    {
    }

    lemma EndRun(r: Run)
      requires Running(r)
      ensures wp == r.wp && wpPos == r.wpPos
    {
    }

    /** should_gc_high */
    predicate ShouldGcHigh()
      reads `freeLineCnt
    {
      freeLineCnt <= gcThresLinesHigh
    }

    /** The mapped LPNs leave room for the lines that garbage collection needs. */
    ghost predicate RoomToCollect()
      reads maptbl, `data, `wp, `status
    {
      RoomFor(dim, |View().Keys|, UserValid(), gcThresLinesHigh)
    }

    /** While free lines are low and there is room, there is a victim to collect. */
    lemma SomeVictim()
      requires Valid() && ShouldGcHigh() && RoomToCollect()
      ensures pq.Elements() != {}
    {
      hide LinesOk, PoolsOk, Fits, Inverse, PriorityQueue.Valid, PriorityQueue.Elements, Settled, RoomFor;
      ValidFacts();
      ViewKeys(maptbl[..], data);
      VictimExists(dim, L(), M(), gcThresLinesHigh);
    }

    /** Once free lines are not low there is room. */
    lemma RoomWhenDone()
      requires Valid() && !ShouldGcHigh()
      ensures RoomToCollect()
    {
      hide LinesOk, PoolsOk, Inverse, PriorityQueue.Valid, PriorityQueue.Elements, RoomFor;
      ValidFacts();
      OrderTotal(g, dim);
      ViewKeys(maptbl[..], data);
      FreeLinesMeanRoom(dim, L(), M(), gcThresLinesHigh);
    }

    /** With no more lines than the threshold and two there never is room. */
    lemma SmallDeviceHasNoRoom()
      requires Valid() && dim.lines <= gcThresLinesHigh + 2
      ensures !RoomToCollect()
    {
      hide LinesOk, PoolsOk, Fits, Inverse, PriorityQueue.Valid, PriorityQueue.Elements, Settled, RoomFor;
      ValidFacts();
      ViewKeys(maptbl[..], data);
      NoRoomOnFewLines(dim, L(), M(), gcThresLinesHigh);
    }

    /** Nor is there once the mapped LPNs fill all lines but the threshold and one. */
    lemma FullDeviceHasNoRoom()
      requires Valid() && (dim.lines - gcThresLinesHigh - 1) * dim.Total() <= |View().Keys|
      ensures !RoomToCollect()
    {
      hide LinesOk, PoolsOk, Fits, Inverse, PriorityQueue.Valid, PriorityQueue.Elements, Settled, View, RoomFor;
      NoRoomOnFullDevice(dim, L(), |View().Keys|, gcThresLinesHigh);
    }

    /** One round of the loop: it finds a victim exactly when there is one, and fails exactly when no
        line is free and no victim fits in the rest of the GC line. */
    method CollectOnce() returns (outcome: GcOutcome)
      requires Valid()
      modifies `rmap, `data, maptbl, `status, `blkVpc, `blkIpc, `wp, `gcWp, `wpPos, `gcPos, `moved, `erased
      modifies `freeList, `freeLineCnt, `fullList, `fullLineCnt, `victimLineCnt, `place, `collecting
      modifies lineIpc, pq, pq.d, pq.pri, pq.pos
      ensures !outcome.OutOfLines? ==> Valid() && View() == old(View())
      ensures !outcome.OutOfLines? ==> wp == old(wp) && UserValid() == old(UserValid())
      ensures outcome.OutOfLines? <==> old(ShortOfLines(dim, L()))
      ensures outcome.NoVictim? <==> old(pq.Elements()) == {}
      ensures outcome.Collected? ==> PagesIn(status, PgInvalid) < old(PagesIn(status, PgInvalid)) && 0 < |freeList|
      ensures outcome.NoVictim? ==> L() == old(L())
    {
      hide Valid, FtlMaps.View, PagesIn, PriorityQueue.Elements, At, LinesOk, UserValid;
      ghost var l0 := L();
      ValidFacts();
      ghost var v;
      outcome, v := DoGc(true);
      if outcome.NoVictim? {
        SpareMeans(dim, l0);
      } else {
        ShortMeans(dim, l0, v);
      }
    }

    /** The loop at the end of conv_proc_nvme_io_cmd.  Every round removes INVALID pages, so it comes
        to an end, or to a round that finds no victim; that round changes nothing, and the original
        repeats it forever.  Only the first round can run out of lines.  Otherwise the loop ends
        exactly when there is room. */
    method CollectWhileLow() returns (outcome: WriteOutcome)
      requires Valid()
      modifies `rmap, `data, maptbl, `status, `blkVpc, `blkIpc, `wp, `gcWp, `wpPos, `gcPos, `moved, `erased
      modifies `freeList, `freeLineCnt, `fullList, `fullLineCnt, `victimLineCnt, `place, `collecting
      modifies lineIpc, pq, pq.d, pq.pri, pq.pos
      ensures outcome.NoLine? <==> old(ShortOfLines(dim, L()))
      ensures outcome.Served? <==> !old(ShortOfLines(dim, L())) && old(RoomToCollect())
      ensures outcome.Endless? <==> !old(ShortOfLines(dim, L())) && !old(RoomToCollect())
      ensures !outcome.NoLine? ==> Valid() && View() == old(View()) && wp == old(wp) && UserValid() == old(UserValid())
      ensures outcome.Served? ==> |freeList| > gcThresLinesHigh
      ensures outcome.Endless? ==> |freeList| <= gcThresLinesHigh && pq.Elements() == {}
    {
      hide Valid, FtlMaps.View, PagesIn, PriorityQueue.Elements, At, LinesOk, RoomFor, UserValid, ShortOfLines;
      ghost var l0 := L();
      SpareMeans(dim, L());
      ValidFacts();
      while ShouldGcHigh()
        invariant Valid() && View() == old(View()) && wp == old(wp) && UserValid() == old(UserValid())
        invariant if freeList == [] then L() == l0 else !ShortOfLines(dim, l0)
        decreases PagesIn(status, PgInvalid)
      {
        ValidFacts();
        SpareMeans(dim, L());
        if RoomToCollect() {
          SomeVictim();
        }
        var round := CollectOnce();
        if round.OutOfLines? {
          return NoLine;
        }
        if round.NoVictim? {
          return Endless;
        }
      }
      RoomWhenDone();
      ValidFacts();
      return Served;
    }

    /** The mapping table is one that conv_read can walk: no two LPNs share a page. */
    lemma TableIsInjective()
      requires Valid()
      ensures ConvRead.Injective(maptbl[..])
    {
      hide LinesOk, PoolsOk, PriorityQueue.Valid, PriorityQueue.Elements, Inverse, ConvRead.Injective, Geo.PpaOk;
      OfLinesOk(dim, L());
      PagesAreReal(g, dim, L());
      ConvRead.InverseIsInjective(g, M());
    }

    // ---------- the write command ----------

    function PgSz(): nat { secsPerPg * LBA_SIZE }

    /** The bytes of the unfinished user wordline. */
    ghost function WordlineBytes(): int
      reads `wp
    {
      if 0 < g.pgsPerOneshotpg then WordlineFill(g, wp.at) * PgSz() else 0
    }

    /** One iteration of conv_write's loop, with the release it schedules at the end of a wordline. */
    method WriteLpn(lpn: nat, ghost payload: int)
      requires Valid() && lpn < maptbl.Length
      requires wpPos + 1 == |dim.ord| ==> 0 < |freeList|
      modifies `rmap, `data, maptbl, `status, `blkVpc, `blkIpc, `wp, `gcWp, `wpPos, `gcPos, lineIpc, wbuf`pending
      modifies `freeList, `freeLineCnt, `fullList, `fullLineCnt, `victimLineCnt, `place, pq, pq.d, pq.pri, pq.pos
      ensures Valid() && View() == old(View())[lpn := payload] && gcPos == old(gcPos)
      ensures old(wpPos) + 1 < |dim.ord| ==> wpPos == old(wpPos) + 1 && freeList == old(freeList)
      ensures old(wpPos) + 1 == |dim.ord| ==> wpPos == 0 && |freeList| == |old(freeList)| - 1
      ensures WordlineBytes() + wbuf.pending == old(WordlineBytes() + wbuf.pending) + PgSz()
      ensures Rewritten(old(M()), M(), lpn, Ppa(old(wp.line), old(wp.at)))
      ensures old(wpPos) + 1 < |dim.ord| ==> wp.line == old(wp.line)
    {
      hide Valid, View, WordlineFill, PgSz, Fits, Rewritten;
      ghost var pos0 := wpPos;
      WpAt();
      var ppa := WritePage(lpn, payload);
      WpAt();
      FillStep(g, dim, pos0);
      // the flash gets a wordline at a time
      if LastPgInWordline(g, ppa.at) {
        wbuf.Schedule(g.pgsPerOneshotpg * PgSz());
        Pages(g.pgsPerOneshotpg - 1, PgSz());
      } else {
        Pages(WordlineFill(g, ppa.at), PgSz());
      }
    }

    lemma WpAt()
      requires Valid()
      ensures wpPos < |dim.ord| == dim.Total() && wp.at == dim.ord[wpPos] && Fits(g, dim) && g.Ok()
    {
    }

    /** Whether the write pointer stands at the last page of its line. */
    method AtLineEnd() returns (last: bool)
      requires Valid()
      ensures last <==> wpPos + 1 == |dim.ord|
    {
      hide LinesOk, PoolsOk, Inverse, PriorityQueue.Valid, PriorityQueue.Elements, Advance, DimOk;
      OrderNext(g, dim, wpPos);
      var _, wrapped := NextCoordinates(wp.at);
      last := wrapped;
    }

    /** Whether conv_write takes a command: it ends on the device and the write buffer has room. */
    predicate Accepts(lba: nat, nrLba: nat)
      requires 0 < nrLba && 0 < secsPerPg
      reads wbuf`remaining
    {
      EndLpn(lba, nrLba, secsPerPg) < maptbl.Length && nrLba * LBA_SIZE <= wbuf.remaining
    }

    /** conv_write for one partition: refuses a range beyond the device or a full buffer, and
        otherwise writes every page of the range.  When a line ends and none is free, the original
        follows a NULL line; that is the case exactly when the command has more line ends than there
        are free lines. */
    method ConvWrite(lba: nat, nrLba: nat, ghost content: nat -> int) returns (outcome: WriteOutcome)
      requires Valid() && wbuf.Holds(WordlineBytes()) && 0 < nrLba && 0 < secsPerPg
      modifies `rmap, `data, maptbl, `status, `blkVpc, `blkIpc, `wp, `gcWp, `wpPos, `gcPos, lineIpc, wbuf
      modifies `freeList, `freeLineCnt, `fullList, `fullLineCnt, `victimLineCnt, `place, pq, pq.d, pq.pri, pq.pos
      ensures outcome.Refused? <==> !old(Accepts(lba, nrLba))
      ensures outcome.NoLine? <==> old(Accepts(lba, nrLba)) && !old(EnoughFor(lba, nrLba))
      ensures outcome.Served? <==> old(Accepts(lba, nrLba)) && old(EnoughFor(lba, nrLba))
      ensures outcome.Refused? <==>
                maptbl.Length <= (lba + nrLba - 1) / secsPerPg || old(wbuf.remaining) < nrLba * 512
      ensures !outcome.NoLine? ==> Valid() && wbuf.Holds(WordlineBytes()) && gcPos == old(gcPos)
      ensures outcome.Refused? ==> L() == old(L()) && View() == old(View()) && wbuf.remaining == old(wbuf.remaining)
      ensures outcome.Served? ==>
        View() == Overwritten(old(View()), StartLpn(lba, secsPerPg), EndLpn(lba, nrLba, secsPerPg) + 1, content)
      ensures outcome.Served? ==> wbuf.excess == old(wbuf.excess) + Excess(lba, nrLba, secsPerPg) * LBA_SIZE
      ensures outcome.Served? ==> Consumed(dim.Total(), old(wpPos), |old(freeList)|, wpPos, |freeList|,
                                            Span(lba, nrLba, secsPerPg))
      ensures outcome.Served? ==> UserValid() == old(KeptByWrite(lba, nrLba))
    {
      hide Valid, View, StartLpn, EndLpn, Span, Overwritten, Enough, Consumed, WordlineBytes, Excess, UserValid;
      hide Cur, KeptAfter;
      var startLpn, endLpn := StartLpn(lba, secsPerPg), EndLpn(lba, nrLba, secsPerPg);
      ExcessMeaning(lba, nrLba, secsPerPg);
      ExcessBytes(lba, nrLba, secsPerPg);
      LpnsAre(lba, nrLba, secsPerPg);
      if endLpn >= maptbl.Length {
        return Refused;
      }
      var allocatedBufSize := wbuf.Allocate(nrLba * LBA_SIZE);
      if allocatedBufSize < nrLba * LBA_SIZE {
        return Refused;
      }
      var ok := WriteRange(startLpn, endLpn, content);
      if !ok {
        return NoLine;
      }
      wbuf.excess := wbuf.excess + Excess(lba, nrLba, secsPerPg) * LBA_SIZE;
      return Served;
    }

    /** There are free lines enough for every line switch a write needs. */
    ghost predicate EnoughFor(lba: nat, nrLba: nat)
      requires 0 < nrLba && 0 < secsPerPg
      reads `wpPos, `freeList
    {
      Enough(dim.Total(), wpPos, Span(lba, nrLba, secsPerPg), |freeList|)
    }

    /** The VALID pages of the user's line after a write. */
    ghost function KeptByWrite(lba: nat, nrLba: nat): int
      requires 0 < nrLba && 0 < secsPerPg
      reads maptbl, `wp, `wpPos, `status
    {
      ExcessMeaning(lba, nrLba, secsPerPg);
      KeptAfter(dim.Total(), maptbl[..], Cur(), StartLpn(lba, secsPerPg), EndLpn(lba, nrLba, secsPerPg) + 1)
    }

    /** The loop of conv_write; it fails at a line end with no free line. */
    method WriteRange(startLpn: nat, endLpn: nat, ghost content: nat -> int) returns (ok: bool)
      requires Valid() && startLpn <= endLpn < maptbl.Length
      modifies `rmap, `data, maptbl, `status, `blkVpc, `blkIpc, `wp, `gcWp, `wpPos, `gcPos, lineIpc, wbuf`pending
      modifies `freeList, `freeLineCnt, `fullList, `fullLineCnt, `victimLineCnt, `place, pq, pq.d, pq.pri, pq.pos
      ensures ok <==> old(Enough(dim.Total(), wpPos, endLpn - startLpn + 1, |freeList|))
      ensures ok ==> Valid() && View() == Overwritten(old(View()), startLpn, endLpn + 1, content) && gcPos == old(gcPos)
      ensures ok ==>
                WordlineBytes() + wbuf.pending == old(WordlineBytes() + wbuf.pending) + (endLpn - startLpn + 1) * PgSz()
      ensures ok ==> Consumed(dim.Total(), old(wpPos), |old(freeList)|, wpPos, |freeList|, endLpn - startLpn + 1)
      ensures ok ==> UserValid() == old(KeptAfter(dim.Total(), maptbl[..], Cur(), startLpn, endLpn + 1))
    {
      hide Valid, View, Overwritten, Enough, PgSz, Consumed, WordlineBytes, Fits, UserValid, Cur, Tally, KeptAfter;
      hide Rewritten;
      WpAt();
      OverwrittenNone(View(), startLpn, content);
      ConsumedNone(dim.Total(), wpPos, |freeList|);
      CursorFacts();
      TallyStarts(dim.Total(), maptbl[..], Cur(), startLpn);
      for lpn := startLpn to endLpn + 1
        invariant Valid() && View() == Overwritten(old(View()), startLpn, lpn, content) && gcPos == old(gcPos)
        invariant Enough(dim.Total(), wpPos, endLpn + 1 - lpn, |freeList|)
                  <==> old(Enough(dim.Total(), wpPos, endLpn - startLpn + 1, |freeList|))
        invariant WordlineBytes() + wbuf.pending == old(WordlineBytes() + wbuf.pending) + (lpn - startLpn) * PgSz()
        invariant Consumed(dim.Total(), old(wpPos), |old(freeList)|, wpPos, |freeList|, lpn - startLpn)
        invariant Tally(dim.Total(), old(maptbl[..]), old(Cur()), maptbl[..], Cur(), startLpn, lpn)
      {
        WpAt();
        EnoughStep(dim.Total(), wpPos, endLpn + 1 - lpn, |freeList|);
        var last := AtLineEnd();
        if last && freeList == [] {
          return false;
        }
        ConsumedNext(dim.Total(), old(wpPos), |old(freeList)|, wpPos, |freeList|, lpn - startLpn);
        OverwrittenNext(old(View()), startLpn, lpn, content);
        Pages(lpn - startLpn, PgSz());
        WriteAndTally(lpn, content(lpn), old(maptbl[..]), old(Cur()), startLpn);
      }
      WpAt();
      CursorFacts();
      EnoughNone(dim.Total(), wpPos, |freeList|);
      TallyEnds(dim.Total(), old(maptbl[..]), old(Cur()), maptbl[..], Cur(), startLpn, endLpn + 1, |old(freeList)|,
        |freeList|);
      return true;
    }

    lemma CursorFacts()
      ensures Cur().line == wp.line && Cur().pos == wpPos
              && Cur().kept == UserValid() == Count(status, dim.slots, wp.line, PgValid)
    {
    }

    /** WriteLpn, with the tally of the user's line. */
    method WriteAndTally(lpn: nat, ghost payload: int, ghost tbl0: seq<Option<Ppa>>, ghost c0: Cursor, ghost lo: nat)
      requires Valid() && lpn < maptbl.Length && Tally(dim.Total(), tbl0, c0, maptbl[..], Cur(), lo, lpn)
      requires wpPos + 1 == |dim.ord| ==> 0 < |freeList|
      modifies `rmap, `data, maptbl, `status, `blkVpc, `blkIpc, `wp, `gcWp, `wpPos, `gcPos, lineIpc, wbuf`pending
      modifies `freeList, `freeLineCnt, `fullList, `fullLineCnt, `victimLineCnt, `place, pq, pq.d, pq.pri, pq.pos
      ensures Valid() && View() == old(View())[lpn := payload] && gcPos == old(gcPos)
      ensures old(wpPos) + 1 < |dim.ord| ==> wpPos == old(wpPos) + 1 && freeList == old(freeList)
      ensures old(wpPos) + 1 == |dim.ord| ==> wpPos == 0 && |freeList| == |old(freeList)| - 1
      ensures WordlineBytes() + wbuf.pending == old(WordlineBytes() + wbuf.pending) + PgSz()
      ensures Tally(dim.Total(), tbl0, c0, maptbl[..], Cur(), lo, lpn + 1)
    {
      hide Valid, View, Fits, PgSz, WordlineBytes, Tally, UserValid, Cur, Rewritten, Here, Count;
      ghost var m, t, c := M(), maptbl[..], Cur();
      ghost var p := Ppa(wp.line, wp.at);
      WpAt();
      CursorFacts();
      NextUserPage(lpn);
      WriteLpn(lpn, payload);
      WpAt();
      CursorFacts();
      RewrittenTable(m, M(), lpn, p);
      if c.pos + 1 == dim.Total() {
        OpenedLine();
      }
      TallyStep(dim.Total(), tbl0, c0, t, c, lo, lpn, p, maptbl[..], Cur());
    }

    /** What rewriting an LPN at the write pointer does to the VALID pages of the line there. */
    lemma NextUserPage(lpn: nat)
      requires Valid() && lpn < maptbl.Length
      ensures wpPos < |dim.ord| && forall n: Maps :: Rewritten(M(), n, lpn, Ppa(wp.line, wp.at)) ==>
                Count(n.status, dim.slots, wp.line, PgValid) == UserValid() + 1 - Here(maptbl[..], lpn, wp.line)
    {
      hide PoolsOk, PriorityQueue.Valid, PriorityQueue.Elements, Count, Inverse, Here;
      UserPageFree(dim, L());
      OrderTotal(g, dim);
      KeptAfterWrite(dim, M(), lpn, Ppa(wp.line, wp.at));
    }

    /** A line that was just opened is empty, and no LPN is there. */
    lemma OpenedLine()
      requires Valid() && wpPos == 0
      ensures UserValid() == 0 && forall k: nat :: k < |maptbl[..]| ==> Here(maptbl[..], k, wp.line) == 0
    {
      hide PoolsOk, LinesOk, PriorityQueue.Valid, PriorityQueue.Elements, Count, Inverse, Here;
      OrderTotal(g, dim);
      FreshLine(dim, L(), M());
    }

    /** A write as conv_proc_nvme_io_cmd runs it, garbage collection included.  `after` is the state of
        the lines between the write and the collection.  A command that is accepted and does not run
        out of lines ends exactly when there is room after it: the LPNs mapped then, less the VALID
        pages of the user's line, fill less than all lines but the threshold and two. */
    method ProcWrite(lba: nat, nrLba: nat, ghost content: nat -> int)
      returns (outcome: WriteOutcome, ghost after: Lines)
      requires Valid() && wbuf.Holds(WordlineBytes()) && 0 < nrLba && 0 < secsPerPg
      modifies `rmap, `data, maptbl, `status, `blkVpc, `blkIpc, `wp, `gcWp, `wpPos, `gcPos, lineIpc, wbuf
      modifies `freeList, `freeLineCnt, `fullList, `fullLineCnt, `victimLineCnt, `place, pq, pq.d, pq.pri, pq.pos
      modifies `moved, `erased, `collecting
      ensures outcome.Refused? <==> !old(Accepts(lba, nrLba))
      ensures outcome.NoLine? <==>
                old(Accepts(lba, nrLba)) && (!old(EnoughFor(lba, nrLba)) || ShortOfLines(dim, after))
      ensures outcome.Served? ==> old(RoomAfterWrite(lba, nrLba)) && gcThresLinesHigh < |freeList|
      ensures outcome.Endless? ==> !old(RoomAfterWrite(lba, nrLba)) && |freeList| <= gcThresLinesHigh
      ensures outcome.Endless? ==> pq.Elements() == {}
      ensures !outcome.NoLine? ==> Valid() && wbuf.Holds(WordlineBytes())
      ensures outcome.Refused? ==> L() == old(L()) && View() == old(View())
      ensures outcome.Served? || outcome.Endless? ==>
        View() == Overwritten(old(View()), StartLpn(lba, secsPerPg), EndLpn(lba, nrLba, secsPerPg) + 1, content)
      ensures old(Accepts(lba, nrLba)) && old(EnoughFor(lba, nrLba)) ==>
                LinesOk(dim, after) && after.gcPos == old(gcPos)
                && Consumed(dim.Total(), old(wpPos), |old(freeList)|, after.userPos, |after.freeList|,
                            Span(lba, nrLba, secsPerPg))
      ensures old(Accepts(lba, nrLba)) && old(LeavesLine(lba, nrLba)) ==> !outcome.NoLine?
    {
      hide Valid, View, StartLpn, EndLpn, Span, Overwritten, Consumed, WordlineFill, Excess, Lpns, Fits, LinesOk;
      hide Enough;
      hide UserValid, KeptByWrite, RoomFor, RoomAfterWrite, RoomToCollect, LeavesLine, EnoughFor, Accepts;
      hide PriorityQueue.Elements, ShortOfLines;
      after := L();
      outcome := WritePhase(lba, nrLba, content);
      if outcome.Served? {
        after := L();
        SpareMeans(dim, after);
        outcome := CollectWhileLow();
      }
    }

    /** The write before its collections: what it leaves to them. */
    method WritePhase(lba: nat, nrLba: nat, ghost content: nat -> int) returns (outcome: WriteOutcome)
      requires Valid() && wbuf.Holds(WordlineBytes()) && 0 < nrLba && 0 < secsPerPg
      modifies `rmap, `data, maptbl, `status, `blkVpc, `blkIpc, `wp, `gcWp, `wpPos, `gcPos, lineIpc, wbuf
      modifies `freeList, `freeLineCnt, `fullList, `fullLineCnt, `victimLineCnt, `place, pq, pq.d, pq.pri, pq.pos
      ensures outcome.Refused? <==> !old(Accepts(lba, nrLba))
      ensures outcome.Served? <==> old(Accepts(lba, nrLba)) && old(EnoughFor(lba, nrLba))
      ensures !outcome.Endless? && (!outcome.NoLine? ==> Valid() && wbuf.Holds(WordlineBytes()))
      ensures outcome.Refused? ==> L() == old(L()) && View() == old(View())
      ensures outcome.Served? ==>
        View() == Overwritten(old(View()), StartLpn(lba, secsPerPg), EndLpn(lba, nrLba, secsPerPg) + 1, content)
      ensures outcome.Served? ==> (RoomToCollect() <==> old(RoomAfterWrite(lba, nrLba)))
      ensures outcome.Served? ==> LinesOk(dim, L()) && gcPos == old(gcPos)
      ensures outcome.Served? ==> Consumed(dim.Total(), old(wpPos), |old(freeList)|, wpPos, |freeList|,
                                           Span(lba, nrLba, secsPerPg))
      ensures old(LeavesLine(lba, nrLba)) ==> old(EnoughFor(lba, nrLba)) && (outcome.Served? ==> freeList != [])
    {
      hide Valid, View, StartLpn, EndLpn, Span, Overwritten, Consumed, WordlineFill, Excess, Lpns, Fits, LinesOk;
      hide Enough;
      hide UserValid, KeptByWrite, RoomFor, PriorityQueue.Elements, KeysAfter;
      WpAt();
      ghost var pos0, free0 := wpPos, |freeList|;
      if LeavesLine(lba, nrLba) {
        LineIsLeft(dim.Total(), pos0, free0, pos0, free0, Span(lba, nrLba, secsPerPg));
      }
      outcome := ConvWrite(lba, nrLba, content);
      if outcome.Served? {
        ValidFacts();
        if old(LeavesLine(lba, nrLba)) {
          LineIsLeft(dim.Total(), pos0, free0, wpPos, |freeList|, Span(lba, nrLba, secsPerPg));
        }
        OverwrittenKeys(old(View()), StartLpn(lba, secsPerPg), EndLpn(lba, nrLba, secsPerPg) + 1, content);
      }
    }

    /** The write needs fewer fresh lines than are free. */
    ghost predicate LeavesLine(lba: nat, nrLba: nat)
      requires 0 < nrLba && 0 < secsPerPg
      reads `wpPos, `freeList
    {
      0 < |freeList| && Enough(dim.Total(), wpPos, Span(lba, nrLba, secsPerPg), |freeList| - 1)
    }

    /** Between commands more than the threshold of lines are free, and then a command of at most
        that many lines leaves one. */
    lemma ShortCommandLeavesLine(lba: nat, nrLba: nat)
      requires Valid() && 0 < nrLba && 0 < secsPerPg
      requires gcThresLinesHigh < |freeList| && Span(lba, nrLba, secsPerPg) <= gcThresLinesHigh * dim.Total()
      ensures LeavesLine(lba, nrLba)
    {
      hide LinesOk, PoolsOk, Inverse, PriorityQueue.Valid, PriorityQueue.Elements, Span;
      WpAt();
      ThresholdIsEnough(dim.Total(), wpPos, Span(lba, nrLba, secsPerPg), |freeList|, gcThresLinesHigh);
    }

    /** Whether there will be room to collect after a write. */
    ghost predicate RoomAfterWrite(lba: nat, nrLba: nat)
      requires 0 < nrLba && 0 < secsPerPg
      reads maptbl, `data, `wp, `wpPos, `status
    {
      RoomFor(dim, |KeysAfter(View(), StartLpn(lba, secsPerPg), EndLpn(lba, nrLba, secsPerPg) + 1)|,
              KeptByWrite(lba, nrLba), gcThresLinesHigh)
    }

    lemma RoomAfterWriteIs(lba: nat, nrLba: nat)
      requires 0 < nrLba && 0 < secsPerPg
      ensures var lo, hi := StartLpn(lba, secsPerPg), EndLpn(lba, nrLba, secsPerPg) + 1;
              lo <= hi && (RoomAfterWrite(lba, nrLba) <==>
                RoomFor(dim, |KeysAfter(View(), lo, hi)|, KeptAfter(dim.Total(), maptbl[..], Cur(), lo, hi),
                        gcThresLinesHigh))
    {
      hide View, Cur, KeptAfter, StartLpn, EndLpn, RoomFor, KeysAfter;
      ExcessMeaning(lba, nrLba, secsPerPg);
    }
  }

  lemma PagesAreReal(g: Geo, d: Dim, L: Lines)
    requires Fits(g, d) && Domain(d, L)
    ensures forall p :: p in L.status ==> g.PpaOk(p)
  {
    hide Geo.PgsPerBlk;
  }

  lemma RetiredActive(d: Dim, L: Lines, io: IoType)
    requires 0 < |L.freeList| && L.Active(io) < |L.vpc| && |L.vpc| == |L.place| && L.freeList[0] < |L.place|
    ensures AfterRetire(d, L, io).Active(io) == L.freeList[0]
  {
  }

  lemma ShortMeans(d: Dim, L: Lines, v: nat)
    requires v in L.victims && forall b: nat :: b in L.victims ==> VpcOf(L, v) <= VpcOf(L, b)
    ensures ShortOfLines(d, L) <==> L.freeList == [] && d.Total() <= L.gcPos + VpcOf(L, v)
  {
  }

  lemma SpareMeans(d: Dim, L: Lines)
    ensures L.freeList != [] || L.victims == {} ==> !ShortOfLines(d, L)
  {
  }

  function NewPages(g: Geo): map<Ppa, PgStatus> {
    map ch, lun, blk, pg {:trigger Ppa(blk, Slot(ch, lun, pg))} |
      0 <= ch < g.nchs && 0 <= lun < g.lunsPerCh && 0 <= blk < g.blksPerPl && 0 <= pg < g.PgsPerBlk() ::
      Ppa(blk, Slot(ch, lun, pg)) := PgFree
  }

  function NewRmap(g: Geo): map<Ppa, int> {
    map p | p in NewPages(g) :: INVALID_LPN
  }

  function NewBlocks(g: Geo): map<Blk, int> {
    map ch, lun, blk {:trigger Blk(blk, ch, lun)} |
      0 <= ch < g.nchs && 0 <= lun < g.lunsPerCh && 0 <= blk < g.blksPerPl ::
      Blk(blk, ch, lun) := 0
  }

  lemma NewRmapKeys(g: Geo)
    ensures NewRmap(g).Keys == NewPages(g).Keys
  {
  }

  lemma FitsFrom(g: Geo, d: Dim)
    requires g.Ok() && WriteOrder(g, d.ord) && DimOk(d) && (forall s :: s in d.slots <==> g.SlotOk(s))
    requires d.lines == g.blksPerPl && d.Total() == g.PgsPerLine() && d.blkPgs == g.PgsPerBlk()
    ensures Fits(g, d)
  {
  }

  lemma OrderStart(g: Geo, d: Dim)
    requires Fits(g, d)
    ensures 0 < |d.ord| && d.ord[0] == Slot(0, 0, 0)
  {
  }

  lemma FillAtStart(g: Geo)
    requires g.Ok()
    ensures WordlineFill(g, Slot(0, 0, 0)) == 0
  {
  }

  lemma PreparedStatus(L: Lines)
    requires 2 <= |L.freeList| && L.freeList[0] < |L.place| && L.freeList[1] < |L.place|
    ensures AfterPrepare(L).status == L.status && AfterPrepare(L).collecting == L.collecting
    ensures AfterOpen(L, UserIo).freeList == L.freeList[1..] && |AfterOpen(L, UserIo).place| == |L.place|
  {
  }

  lemma IsFresh(g: Geo, d: Dim, L: Lines)
    requires Fits(g, d) && L.status == NewPages(g) && L.blkVpc == L.blkIpc == NewBlocks(g)
    requires |L.place| == |L.vpc| == |L.ipc| == d.lines
    requires forall b: nat :: b < d.lines ==> L.place[b] == FreeList && L.vpc[b] == 0 && L.ipc[b] == 0
    requires L.freeList == seq(d.lines, b => b) && L.fullList == [] && L.victims == {} && L.collecting == -1
             && L.erased == {}
    ensures Fresh(d, L)
  {
    hide Geo.PgsPerBlk, Geo.PgsPerLine, WriteOrder, DimOk;
    forall p ensures p in L.status <==> 0 <= p.blk < d.lines && p.at in d.slots {
      assert p == Ppa(p.blk, Slot(p.at.ch, p.at.lun, p.at.pg));
    }
    forall p | p in L.status ensures Blk(p.blk, p.at.ch, p.at.lun) in L.blkVpc {
      assert p == Ppa(p.blk, Slot(p.at.ch, p.at.lun, p.at.pg));
    }
  }

  lemma Pages(n: int, sz: nat)
    ensures (n + 1) * sz == n * sz + sz && n * sz == sz * n && sz * (n + 1) == n * sz + sz
  {
  }

  /** The wordline fill along the write order. */
  lemma FillStep(g: Geo, d: Dim, k: nat)
    requires Fits(g, d) && k < |d.ord|
    ensures var next := if k + 1 < |d.ord| then d.ord[k + 1] else d.ord[0];
            && 0 < g.pgsPerOneshotpg
            && WordlineFill(g, next) == (if LastPgInWordline(g, d.ord[k]) then 0 else WordlineFill(g, d.ord[k]) + 1)
            && (LastPgInWordline(g, d.ord[k]) <==> WordlineFill(g, d.ord[k]) == g.pgsPerOneshotpg - 1)
  {
    hide Advance, Geo.PgsPerBlk, Geo.PgsPerLine;
    AdvanceFills(g, d.ord[k]);
    OrderNext(g, d, k);
  }

  lemma ViewKeys(maptbl: seq<Option<Ppa>>, data: map<Ppa, int>)
    ensures FtlMaps.View(maptbl, data).Keys == MappedLpns(maptbl)
  {
  }

  lemma ExcessBytes(lba: nat, nrLba: nat, secsPerPg: nat)
    requires 0 < secsPerPg && 0 < nrLba
    ensures (EndLpn(lba, nrLba, secsPerPg) - StartLpn(lba, secsPerPg) + 1) * (secsPerPg * LBA_SIZE)
            == Excess(lba, nrLba, secsPerPg) * LBA_SIZE + nrLba * LBA_SIZE
    ensures Span(lba, nrLba, secsPerPg) == EndLpn(lba, nrLba, secsPerPg) - StartLpn(lba, secsPerPg) + 1
  {
    ExcessMeaning(lba, nrLba, secsPerPg);
    var n := EndLpn(lba, nrLba, secsPerPg) - StartLpn(lba, secsPerPg) + 1;
    assert n * (secsPerPg * LBA_SIZE) == n * secsPerPg * LBA_SIZE;
  }

  lemma AfterSelectParts(L: Lines, b: nat)
    requires b < |L.place|
    ensures var M := AfterSelect(L, b);
            M.status == L.status && M.freeList == L.freeList && M.gcPos == L.gcPos && M.userPos == L.userPos
  {
  }

  lemma FewerInvalid(status: map<Ppa, PgStatus>, before: set<Ppa>, v: nat)
    requires PagesIn(status, PgInvalid) <= before && exists p :: p in before && p.blk == v
    requires forall p :: p in PagesIn(status, PgInvalid) ==> p.blk != v
    ensures PagesIn(status, PgInvalid) < before
  {
  }

  lemma AfterReturnParts(L: Lines)
    requires 0 <= L.collecting < |L.place| && |L.place| == |L.vpc| == |L.ipc|
    ensures AfterReturn(L).status == L.status && AfterReturn(L).collecting == -1 && AfterReturn(L).gcPos == L.gcPos
  {
  }

  lemma ReturnReady(d: Dim, L: Lines)
    requires DimOk(d) && LinesOk(d, L) && 0 <= L.collecting && L.erased == d.slots
    ensures CanReturn(d, L)
  {
  }

  lemma TodoMember(d: Dim, status: map<Ppa, PgStatus>, v: int, moved: set<Slot>, s: Slot)
    requires s in d.slots && s !in moved && At(status, Ppa(v, s)) == PgValid
    ensures s in Todo(d, status, v, moved)
  {
  }

  lemma SelectReady(g: Geo, d: Dim, L: Lines, b: nat)
    requires Fits(g, d) && LinesOk(d, L) && L.collecting < 0 && b in L.victims
    ensures CanSelect(d, L, b)
  {
  }

  lemma EraseReady(g: Geo, d: Dim, L: Lines, q: Blk)
    requires Fits(g, d) && LinesOk(d, L) && 0 <= L.collecting && q.blk == L.collecting
    requires 0 <= q.ch < g.nchs && 0 <= q.lun < g.lunsPerCh
    ensures CanErase(d, L, q)
    ensures forall i :: 0 <= i < g.PgsPerBlk() ==> Ppa(q.blk, Slot(q.ch, q.lun, i)) in L.status
    ensures forall p :: p in L.status && InBlock(p, q) ==> 0 <= p.at.pg < g.PgsPerBlk()
    ensures d.blkPgs == g.PgsPerBlk()
  {
    hide Geo.PgsPerBlk, Geo.PgsPerLine, WriteOrder, LineCounters, BlkCounters, Filled, Written, VictimsHaveInvalid;
    forall i | 0 <= i < g.PgsPerBlk() ensures Ppa(q.blk, Slot(q.ch, q.lun, i)) in L.status {
      assert g.SlotOk(Slot(q.ch, q.lun, i));
    }
    BlkPositive(g);
    assert Ppa(q.blk, Slot(q.ch, q.lun, 0)) in L.status;
  }

  lemma BlkPositive(g: Geo)
    requires g.Ok()
    ensures 0 < g.PgsPerBlk()
  {
    GeometryIdentities(g);
  }

  lemma OrderTotal(g: Geo, d: Dim)
    requires Fits(g, d)
    ensures |d.ord| == d.Total() && DimOk(d)
  {
  }

  lemma TodoNotEmpty(d: Dim, status: map<Ppa, PgStatus>, v: int, moved: set<Slot>, s: Slot)
    requires s in Todo(d, status, v, moved)
    ensures 0 < |Todo(d, status, v, moved)|
  {
  }

  lemma LinesPartition(d: Dim, L: Lines)
    requires LinesOk(d, L)
    ensures Partition(L)
  {
  }

  /** A copy leaves the user's write position and the erased blocks alone. */
  lemma ProgrammedMoves(d: Dim, L: Lines, M: Lines, p: Ppa)
    requires Programmed(d, L, M, GcIo, p)
    ensures M.userPos == L.userPos && M.collecting == L.collecting && M.erased == L.erased
    ensures if L.gcPos + 1 < |d.ord| then M.gcPos == L.gcPos + 1 && |M.freeList| == |L.freeList|
            else L.gcPos + 1 == |d.ord| && M.gcPos == 0 && |M.freeList| == |L.freeList| - 1
  {
  }

  lemma InvalidStatus(d: Dim, L: Lines, p: Ppa)
    requires 0 <= p.blk < |L.vpc| && |L.vpc| == |L.ipc| == |L.place|
    requires Blk(p.blk, p.at.ch, p.at.lun) in L.blkVpc && Blk(p.blk, p.at.ch, p.at.lun) in L.blkIpc
    ensures AfterInvalid(d, L, p).status == L.status[p := PgInvalid]
  {
  }

  lemma AfterUnmapDomain(m: Maps, lpn: nat)
    requires Inverse(m.maptbl, m.rmap, m.status, -1, {}) && lpn < |m.maptbl|
    ensures AfterUnmap(m, lpn).status.Keys == m.status.Keys && AfterUnmap(m, lpn).maptbl == m.maptbl
  {
    if m.maptbl[lpn].Some? {
      assert Live(m.status, -1, {}, m.maptbl[lpn].value);
    }
  }

  lemma CanRetireNow(g: Geo, d: Dim, L: Lines, io: IoType)
    requires Fits(g, d) && LinesOk(d, L) && L.Pos(io) == |d.ord| && 0 < |L.freeList|
    ensures CanRetire(d, L, io)
  {
  }

  lemma UnionAssociates(a: set<Slot>, b: set<Slot>, c: set<Slot>)
    ensures a + b + c == a + (b + c)
  {
  }
}
