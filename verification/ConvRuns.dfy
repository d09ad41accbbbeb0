/** The page-mapped FTL from its start: what the first write comes to, and which devices serve a host
    that stays inside the advertised space for ever. */
module ConvRuns {
  import opened Arithmetic
  import opened Options
  import opened Geometry
  import opened IndexedHeap
  import opened FtlLines
  import opened FtlReclaim
  import opened FtlTally
  import opened Commands
  import opened WriteBufferModel
  import opened ConvFtlModel

  // ---------- the first write ----------

  /** A command of `nrLba` sectors from LBA 0 on covers the first `pages` pages. */
  predicate FromStart(nrLba: nat, pages: nat, secsPerPg: nat) {
    && 0 < nrLba && 0 < pages && 0 < secsPerPg
    && StartLpn(0, secsPerPg) == 0 && EndLpn(0, nrLba, secsPerPg) == pages - 1
    && Span(0, nrLba, secsPerPg) == pages
  }

  lemma WholePages(pages: nat, secsPerPg: nat)
    requires 0 < pages && 0 < secsPerPg
    ensures FromStart(pages * secsPerPg, pages, secsPerPg)
  {
    MulMonotone(secsPerPg, 1, pages);
    assert pages * secsPerPg - 1 == (pages - 1) * secsPerPg + (secsPerPg - 1);
    DivModUnique(pages - 1, secsPerPg, secsPerPg - 1);
    DivModUnique(0, secsPerPg, 0);
  }

  lemma SpanIs(nrLba: nat, pages: nat, secsPerPg: nat)
    requires FromStart(nrLba, pages, secsPerPg)
    ensures 0 < nrLba && 0 < secsPerPg && StartLpn(0, secsPerPg) == 0
    ensures EndLpn(0, nrLba, secsPerPg) == pages - 1 && Span(0, nrLba, secsPerPg) == pages
  {
  }

  /** Of `pages` pages written in order those in full lines count, and they are whole lines. */
  lemma FullLines(pages: nat, total: nat, lines: int)
    requires 0 < total
    ensures pages - (if pages < total then pages else pages % total) < lines * total <==> pages / total < lines
  {
    var n := pages / total;
    assert pages == n * total + pages % total;
    if pages < total {
      DivModUnique(0, total, pages);
    }
    assert pages - (if pages < total then pages else pages % total) == total * n;
    if n < lines {
      MulMonotone(total, n + 1, lines);
    } else {
      MulMonotone(total, lines, n);
    }
  }

  lemma LpnCount(lo: nat, hi: nat)
    requires lo <= hi
    ensures |Lpns(lo, hi)| == hi - lo
  {
    if lo < hi {
      LpnCount(lo, hi - 1);
      assert Lpns(lo, hi) == Lpns(lo, hi - 1) + {hi - 1};
    } else {
      assert Lpns(lo, hi) == {};
    }
  }

  /** Nothing is mapped and the user's line is empty. */
  ghost predicate New(ftl: ConvFtl)
    reads ftl, ftl.maptbl, ftl.lineIpc, ftl.pq, ftl.pq.d, ftl.pq.pri, ftl.pq.pos
  {
    ftl.Valid() && ftl.View() == map[] && ftl.wpPos == 0
  }

  lemma FirstKept(ftl: ConvFtl, pages: nat)
    requires New(ftl) && 0 < ftl.dim.Total()
    ensures KeptAfter(ftl.dim.Total(), ftl.maptbl[..], ftl.Cur(), 0, pages)
            == if pages < ftl.dim.Total() then pages else pages % ftl.dim.Total()
  {
    hide ConvFtl.Valid, ConvFtl.UserValid, ConvFtl.View, Here;
    ftl.OpenedLine();
    NobodyHere(ftl.maptbl[..], 0, pages, ftl.wp.line);
  }

  lemma NobodyHere(tbl: seq<Option<Ppa>>, lo: nat, hi: nat, b: nat)
    requires forall k: nat :: k < |tbl| ==> Here(tbl, k, b) == 0
    ensures InLine(tbl, lo, hi, b) == {}
  {
    forall l: nat ensures l !in InLine(tbl, lo, hi, b) {
      assert l < |tbl| ==> Here(tbl, l, b) == 0;
    }
  }

  /** There is room after the first write exactly when it fills fewer lines than are left beside the
      threshold and two. */
  lemma FirstRoom(ftl: ConvFtl, nrLba: nat, pages: nat)
    requires New(ftl) && 0 < ftl.dim.Total() && FromStart(nrLba, pages, ftl.secsPerPg)
    ensures ftl.RoomAfterWrite(0, nrLba)
            <==> pages / ftl.dim.Total() < ftl.dim.lines - ftl.gcThresLinesHigh - 2
  {
    hide ConvFtl.Valid, ConvFtl.UserValid, ConvFtl.View, KeptAfter, ConvFtl.Cur, ConvFtl.RoomAfterWrite, RoomFor;
    hide FromStart;
    FirstKept(ftl, pages);
    RoomForPages(ftl.dim, pages, ftl.gcThresLinesHigh);
    RoomOnNew(ftl, nrLba, pages, KeptAfter(ftl.dim.Total(), ftl.maptbl[..], ftl.Cur(), 0, pages));
  }

  lemma RoomOnNew(ftl: ConvFtl, nrLba: nat, pages: nat, kept: int)
    requires ftl.View() == map[] && FromStart(nrLba, pages, ftl.secsPerPg)
    requires KeptAfter(ftl.dim.Total(), ftl.maptbl[..], ftl.Cur(), 0, pages) == kept
    ensures ftl.RoomAfterWrite(0, nrLba) <==> RoomFor(ftl.dim, pages, kept, ftl.gcThresLinesHigh)
  {
    hide ConvFtl.UserValid, ConvFtl.View, KeptAfter, StartLpn, EndLpn, Span, Lpns, ConvFtl.Cur, RoomFor;
    hide ConvFtl.RoomAfterWrite, KeysAfter, FromStart, Excess;
    SpanIs(nrLba, pages, ftl.secsPerPg);
    ftl.RoomAfterWriteIs(0, nrLba);
    KeysOfNew(ftl.View(), 0, pages);
  }

  /** The first write to a new device, of `pages` pages in one command.  When it crosses more line
      ends than lines are free it follows a NULL line.  When it crosses fewer it comes to an end if and
      only if it fills fewer lines than are left beside the threshold and two. */
  method FirstWrite(g: Geo, secsPerPg: nat, threshold: nat, bytes: nat, pages: nat, ghost content: nat -> int)
    returns (outcome: WriteOutcome)
    requires g.Ok() && 2 <= g.blksPerPl && 0 < secsPerPg
    requires 0 < pages <= g.TtPgs() && pages * secsPerPg * LBA_SIZE <= bytes
    ensures 0 < g.PgsPerLine()
    ensures var filled := pages / g.PgsPerLine();
            && (g.blksPerPl - 2 < filled ==> outcome.NoLine?)
            && (filled < g.blksPerPl - 2 ==>
                  outcome == if filled < g.blksPerPl - threshold - 2 then Served else Endless)
  {
    hide ConvFtl.Valid, ConvFtl.View, Geo.PgsPerLine, Geo.TtPgs, RoomFor, PriorityQueue.Elements, FromStart;
    hide ConvFtl.RoomAfterWrite, ConvFtl.WordlineBytes, WriteBuffer.Holds, LinesOk, ShortOfLines, Consumed;
    hide StartLpn, EndLpn, Span, Enough, Overwritten;
    LineHasPages(g);
    var wbuf := new WriteBuffer(bytes);
    var ftl := new ConvFtl(g, secsPerPg, threshold, wbuf);
    var nrLba := pages * secsPerPg;
    WholePages(pages, secsPerPg);
    SpanIs(nrLba, pages, secsPerPg);
    FirstRoom(ftl, nrLba, pages);
    EnoughMeaning(g.PgsPerLine(), 0, pages, |ftl.freeList|);
    if 0 < |ftl.freeList| {
      EnoughMeaning(g.PgsPerLine(), 0, pages, |ftl.freeList| - 1);
    }
    ghost var after;
    outcome, after := ftl.ProcWrite(0, nrLba, content);
  }

  lemma LineHasPages(g: Geo)
    requires g.Ok()
    ensures 0 < g.PgsPerLine()
  {
    GeometryIdentities(g);
  }

  /** On a device with no more lines than the threshold and two, the first page that is written
      already starts a loop that does not end. */
  method SmallDevice(g: Geo, secsPerPg: nat, threshold: nat, bytes: nat, ghost content: nat -> int)
    returns (outcome: WriteOutcome)
    requires g.Ok() && 3 <= g.blksPerPl <= threshold + 2 && 1 < g.PgsPerLine()
    requires 0 < secsPerPg && secsPerPg * LBA_SIZE <= bytes
    ensures outcome.Endless?
  {
    hide Geo.PgsPerLine, Geo.TtPgs;
    DeviceHasPages(g);
    outcome := FirstWrite(g, secsPerPg, threshold, bytes, 1, content);
  }

  /** On every device a long enough write runs out of lines, if the write buffer takes it. */
  method LongWrite(g: Geo, secsPerPg: nat, threshold: nat, ghost content: nat -> int) returns (outcome: WriteOutcome)
    requires g.Ok() && 2 <= g.blksPerPl && 0 < secsPerPg
    ensures outcome.NoLine?
  {
    hide Geo.PgsPerLine, Geo.TtPgs;
    LineHasPages(g);
    WholeLines(g, g.blksPerPl - 1);
    var pages := (g.blksPerPl - 1) * g.PgsPerLine();
    outcome := FirstWrite(g, secsPerPg, threshold, pages * secsPerPg * LBA_SIZE, pages, content);
  }

  // ---------- the advertised space ----------

  /** A device whose host stays below LPN `lpns` never comes to a loop that does not end, if these
      are fewer LPNs than all lines but the threshold and two hold. */
  predicate Safe(lines: nat, pgsPerLine: nat, threshold: nat, lpns: nat) {
    lpns < (lines - threshold - 2) * pgsPerLine
  }

  /** What holds between the commands of such a host. */
  ghost predicate Inside(ftl: ConvFtl, lpns: nat)
    reads ftl, ftl.wbuf, ftl.maptbl, ftl.lineIpc, ftl.pq, ftl.pq.d, ftl.pq.pri, ftl.pq.pos
  {
    && ftl.Valid() && ftl.wbuf.Holds(ftl.WordlineBytes()) && 0 < ftl.secsPerPg
    && ftl.gcThresLinesHigh < |ftl.freeList| && ftl.View().Keys <= Lpns(0, lpns)
  }

  /** One command of the host, of no more pages than the threshold of lines holds. */
  method HostWrite(ftl: ConvFtl, lba: nat, nrLba: nat, ghost lpns: nat, ghost content: nat -> int)
    returns (outcome: WriteOutcome)
    requires Inside(ftl, lpns) && 0 < nrLba && EndLpn(lba, nrLba, ftl.secsPerPg) < lpns
    requires Span(lba, nrLba, ftl.secsPerPg) <= ftl.gcThresLinesHigh * ftl.dim.Total()
    requires Safe(ftl.dim.lines, ftl.dim.Total(), ftl.gcThresLinesHigh, lpns)
    modifies ftl, ftl.wbuf, ftl.maptbl, ftl.lineIpc, ftl.pq, ftl.pq.d, ftl.pq.pri, ftl.pq.pos
    ensures Inside(ftl, lpns)
    ensures outcome == if old(ftl.Accepts(lba, nrLba)) then Served else Refused
  {
    hide ConvFtl.Valid, ConvFtl.View, Geo.PgsPerLine, RoomFor, PriorityQueue.Elements, Safe, Lpns, StartLpn, EndLpn;
    hide Span;
    hide ConvFtl.RoomAfterWrite, ConvFtl.WordlineBytes, WriteBuffer.Holds, LinesOk, ShortOfLines, Consumed, Overwritten;
    ftl.ShortCommandLeavesLine(lba, nrLba);
    StaysInside(ftl, lba, nrLba, lpns);
    OverwrittenKeys(ftl.View(), StartLpn(lba, ftl.secsPerPg), EndLpn(lba, nrLba, ftl.secsPerPg) + 1, content);
    ghost var after;
    outcome, after := ftl.ProcWrite(lba, nrLba, content);
  }

  lemma KeysOfNew(view: map<nat, int>, lo: nat, hi: nat)
    requires view == map[] && lo <= hi
    ensures |KeysAfter(view, lo, hi)| == hi - lo
  {
    LpnCount(lo, hi);
    assert KeysAfter(view, lo, hi) == Lpns(lo, hi);
  }

  lemma StaysInside(ftl: ConvFtl, lba: nat, nrLba: nat, lpns: nat)
    requires 0 < ftl.secsPerPg && 0 < nrLba && EndLpn(lba, nrLba, ftl.secsPerPg) < lpns
    requires ftl.View().Keys <= Lpns(0, lpns) && Safe(ftl.dim.lines, ftl.dim.Total(), ftl.gcThresLinesHigh, lpns)
    ensures ftl.RoomAfterWrite(lba, nrLba)
    ensures Lpns(StartLpn(lba, ftl.secsPerPg), EndLpn(lba, nrLba, ftl.secsPerPg) + 1) <= Lpns(0, lpns)
  {
    hide ConvFtl.View, ConvFtl.Cur, KeptAfter, StartLpn, EndLpn, Span, Safe, RoomFor;
    hide Lpns, KeysAfter, ConvFtl.RoomAfterWrite, Excess;
    var lo, hi := StartLpn(lba, ftl.secsPerPg), EndLpn(lba, nrLba, ftl.secsPerPg) + 1;
    ExcessMeaning(lba, nrLba, ftl.secsPerPg);
    KeptIsCount(ftl.dim.Total(), ftl.maptbl[..], ftl.Cur(), lo, hi);
    RoomInside(ftl.dim, ftl.View(), lo, hi, KeptAfter(ftl.dim.Total(), ftl.maptbl[..], ftl.Cur(), lo, hi), lpns,
               ftl.gcThresLinesHigh);
    ftl.RoomAfterWriteIs(lba, nrLba);
  }

  lemma RoomInside(d: Dim, view: map<nat, int>, lo: nat, hi: nat, kept: nat, lpns: nat, threshold: nat)
    requires view.Keys <= Lpns(0, lpns) && hi <= lpns && Safe(d.lines, d.Total(), threshold, lpns)
    ensures RoomFor(d, |KeysAfter(view, lo, hi)|, kept, threshold) && Lpns(lo, hi) <= Lpns(0, lpns)
  {
    LpnCount(0, lpns);
    var all := KeysAfter(view, lo, hi);
    assert Lpns(0, lpns) == all + (Lpns(0, lpns) - all);
  }

  lemma KeptIsCount(total: nat, tbl: seq<Option<Ppa>>, c: Cursor, lo: nat, hi: nat)
    requires lo <= hi
    ensures 0 <= KeptAfter(total, tbl, c, lo, hi)
  {
    var here := InLine(tbl, lo, hi, c.line);
    assert Lpns(lo, hi) == here + (Lpns(lo, hi) - here) by {
      assert forall l :: l in here ==> l in Lpns(lo, hi);
    }
    LpnCount(lo, hi);
  }

  /** A new device serves such a host from the first command on. */
  lemma StartsInside(ftl: ConvFtl, lpns: nat)
    requires New(ftl) && ftl.wbuf.Holds(ftl.WordlineBytes()) && 0 < ftl.secsPerPg
    requires ftl.gcThresLinesHigh < |ftl.freeList|
    ensures Inside(ftl, lpns)
  {
    hide ConvFtl.Valid, ConvFtl.View, WriteBuffer.Holds, ConvFtl.WordlineBytes;
  }

  /** On a device that is not safe, LPNs below `lpns` are enough for a write that does not end. */
  method FillSpace(g: Geo, secsPerPg: nat, threshold: nat, lpns: nat, ghost content: nat -> int)
    returns (outcome: WriteOutcome, pages: nat)
    requires g.Ok() && 0 < secsPerPg && 1 <= threshold && threshold + 2 < g.blksPerPl
    requires !Safe(g.blksPerPl, g.PgsPerLine(), threshold, lpns)
    ensures pages <= lpns && outcome.Endless?
  {
    hide Geo.PgsPerLine, Geo.TtPgs;
    LineHasPages(g);
    WholeLines(g, g.blksPerPl - threshold - 2);
    pages := (g.blksPerPl - threshold - 2) * g.PgsPerLine();
    outcome := FirstWrite(g, secsPerPg, threshold, pages * secsPerPg * LBA_SIZE, pages, content);
  }

  /** The namespace advertises its space divided by `pcent` percent.  It is safe if and only if a
      hundred times its lines is less than `pcent` times the lines without the threshold and two. */
  lemma AdvertisedIsSafe(lines: nat, pgsPerLine: nat, threshold: nat, pcent: nat)
    requires 0 < pgsPerLine && 0 < pcent
    ensures Safe(lines, pgsPerLine, threshold, lines * pgsPerLine * 100 / pcent)
            <==> 100 * lines < pcent * (lines - threshold - 2)
  {
    var a, b := lines * pgsPerLine * 100, (lines - threshold - 2) * pgsPerLine;
    QuotientBelow(a, pcent, b);
    var x, y := 100 * lines, pcent * (lines - threshold - 2);
    assert a == pgsPerLine * x;
    assert pcent * b == pgsPerLine * y;
    if x < y {
      MulMonotone(pgsPerLine, x + 1, y);
    } else {
      MulMonotone(pgsPerLine, y, x);
    }
  }

  /** With the threshold of eight lines and the 107 percent of the source that is from 153 lines on. */
  lemma ShippedIsSafe(lines: nat, pgsPerLine: nat)
    requires 0 < pgsPerLine
    ensures Safe(lines, pgsPerLine, 8, lines * pgsPerLine * 100 / 107) <==> 153 <= lines
  {
    hide Safe;
    AdvertisedIsSafe(lines, pgsPerLine, 8, 107);
  }

  lemma QuotientBelow(a: nat, b: nat, c: int)
    requires 0 < b
    ensures a / b < c <==> a < b * c
  {
    assert a == b * (a / b) + a % b;
    if a / b < c {
      MulMonotone(b, a / b + 1, c);
    } else {
      MulMonotone(b, c, a / b);
    }
  }

  /** Whole lines of pages, counted in pages, lines and the device. */
  lemma WholeLines(g: Geo, n: nat)
    requires g.Ok() && 0 < n <= g.blksPerPl
    ensures 0 < g.PgsPerLine() && 0 < n * g.PgsPerLine() <= g.TtPgs() && n * g.PgsPerLine() / g.PgsPerLine() == n
  {
    GeometryIdentities(g);
    MulMonotone(g.PgsPerLine(), n, g.blksPerPl);
    MulMonotone(g.PgsPerLine(), 1, n);
    DivModUnique(n, g.PgsPerLine(), 0);
  }

  lemma DeviceHasPages(g: Geo)
    requires g.Ok() && 1 < g.PgsPerLine() && 0 < g.blksPerPl
    ensures 0 < g.TtPgs() && 1 / g.PgsPerLine() == 0
  {
    hide Geo.PgsPerLine;
    WholeLines(g, 1);
    DivModUnique(0, g.PgsPerLine(), 1);
  }

  lemma RoomForPages(d: Dim, pages: nat, threshold: nat)
    requires 0 < d.Total()
    ensures RoomFor(d, pages, if pages < d.Total() then pages else pages % d.Total(), threshold)
            <==> pages / d.Total() < d.lines - threshold - 2
  {
    FullLines(pages, d.Total(), d.lines - threshold - 2);
  }
}
