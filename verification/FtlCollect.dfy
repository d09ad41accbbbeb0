/** How do_gc of conv_ftl.c walks the line it collects, and why one spare line is enough. */
module FtlCollect {
  import opened Geometry
  import opened FtlLines
  import opened FtlSteps
  import opened FtlMaps
  import opened FtlReclaim

  // ---------- the walk ----------

  /** The first `n` pages of the flash page that starts at page `base` of one block. */
  ghost function FlashSlots(ch: int, lun: int, base: int, n: nat): set<Slot> {
    set i | base <= i < base + n :: Slot(ch, lun, i)
  }

  /** The pages that are behind when the walk reaches (base, ch, lun): all earlier flash pages, and
      in this one the earlier channels and the earlier LUNs of this channel. */
  ghost function Behind(d: Dim, base: int, flash: int, ch: int, lun: int): set<Slot> {
    set s | s in d.slots && (s.pg < base || (s.pg < base + flash && (s.ch < ch || (s.ch == ch && s.lun < lun))))
  }

  /** The blocks erased when the walk reaches (ch, lun) in the last flash page. */
  ghost function ErasedBefore(d: Dim, ch: int, lun: int): set<Slot> {
    set s | s in d.slots && (s.ch < ch || (s.ch == ch && s.lun < lun))
  }

  /** The shape of a line: its slots are a box of channels, LUNs and pages. */
  ghost predicate Boxed(d: Dim, nchs: nat, luns: nat, pgs: nat) {
    forall s :: s in d.slots <==> 0 <= s.ch < nchs && 0 <= s.lun < luns && 0 <= s.pg < pgs
  }

  /** Each visit finds a flash page no visit has seen before, and puts exactly that page behind. */
  lemma VisitOnce(d: Dim, nchs: nat, luns: nat, pgs: nat, base: int, flash: nat, ch: int, lun: int)
    requires Boxed(d, nchs, luns, pgs) && 0 <= base && base + flash <= pgs && 0 <= ch < nchs && 0 <= lun < luns
    ensures FlashSlots(ch, lun, base, flash) !! Behind(d, base, flash, ch, lun)
    ensures FlashSlots(ch, lun, base, flash) <= d.slots
    ensures Behind(d, base, flash, ch, lun) + FlashSlots(ch, lun, base, flash) == Behind(d, base, flash, ch, lun + 1)
    ensures FlashSlots(ch, lun, base, flash) !! ErasedBefore(d, ch, lun)
  {
    var now, next := Behind(d, base, flash, ch, lun), Behind(d, base, flash, ch, lun + 1);
    forall s | s in next && s !in now ensures s in FlashSlots(ch, lun, base, flash) {
      assert s == Slot(ch, lun, s.pg);
    }
  }

  /** Finishing a channel, a flash page, or the whole walk. */
  lemma WalkCarries(d: Dim, nchs: nat, luns: nat, pgs: nat, base: int, flash: nat, ch: int)
    requires Boxed(d, nchs, luns, pgs) && 0 <= base && base + flash <= pgs
    ensures Behind(d, base, flash, ch, luns) == Behind(d, base, flash, ch + 1, 0)
    ensures Behind(d, base, flash, nchs, 0) == Behind(d, base + flash, flash, 0, 0)
    ensures Behind(d, 0, flash, 0, 0) == {}
    ensures Behind(d, pgs, flash, 0, 0) == d.slots
    ensures ErasedBefore(d, ch, luns) == ErasedBefore(d, ch + 1, 0)
    ensures ErasedBefore(d, 0, 0) == {} && ErasedBefore(d, nchs, 0) == d.slots
  {
  }

  /** In the last flash page a block is wholly behind as soon as it has been visited. */
  lemma LastVisitCompletes(d: Dim, nchs: nat, luns: nat, pgs: nat, base: int, flash: nat, q: Blk)
    requires Boxed(d, nchs, luns, pgs) && 0 <= base && base + flash == pgs
    ensures BlkSlots(d.slots, q.ch, q.lun) <= Behind(d, base, flash, q.ch, q.lun + 1)
    ensures ErasedBefore(d, q.ch, q.lun) + BlkSlots(d.slots, q.ch, q.lun) == ErasedBefore(d, q.ch, q.lun + 1)
    ensures ErasedBefore(d, q.ch, q.lun + 1) <= Behind(d, base, flash, q.ch, q.lun + 1)
  {
  }

  // ---------- what is left to copy ----------

  ghost function Todo(d: Dim, status: map<Ppa, PgStatus>, v: int, moved: set<Slot>): set<Slot> {
    set s | s in d.slots && s !in moved && At(status, Ppa(v, s)) == PgValid
  }

  /** At the start everything VALID is still to be copied. */
  lemma TodoAtStart(d: Dim, status: map<Ppa, PgStatus>, v: int)
    ensures |Todo(d, status, v, {})| == Count(status, d.slots, v, PgValid)
  {
    assert Todo(d, status, v, {}) == With(status, d.slots, v, PgValid);
  }

  lemma TodoDone(d: Dim, status: map<Ppa, PgStatus>, v: int)
    ensures Todo(d, status, v, d.slots) == {}
  {
  }

  /** Copying a page takes it off the list; the copy goes to another line. */
  lemma TodoAfterCopy(d: Dim, status: map<Ppa, PgStatus>, v: int, moved: set<Slot>, s: Slot, p: Ppa)
    requires s in d.slots && s !in moved && At(status, Ppa(v, s)) == PgValid && p.blk != v
    ensures Todo(d, status[p := PgValid], v, moved + {s}) == Todo(d, status, v, moved) - {s}
    ensures |Todo(d, status[p := PgValid], v, moved + {s})| + 1 == |Todo(d, status, v, moved)|
  {
    assert s in Todo(d, status, v, moved);
  }

  /** Passing over a page that is not VALID leaves the list alone. */
  lemma TodoAfterSkip(d: Dim, status: map<Ppa, PgStatus>, v: int, moved: set<Slot>, S: set<Slot>)
    requires forall s :: s in S ==> s in moved || At(status, Ppa(v, s)) != PgValid
    ensures Todo(d, status, v, moved + S) == Todo(d, status, v, moved)
  {
  }

  // ---------- one spare line is enough, and often none is needed ----------

  /** Collecting started with `free0` free lines and `work0` pages written or still to write into
      GC lines.  Either the write pointer is still on its first line, or it has taken exactly one
      more. */
  ghost predicate Budget(total: nat, free: nat, gcPos: nat, todo: nat, free0: nat, work0: nat) {
    && work0 < 2 * total && gcPos < total
    && (|| (free == free0 && gcPos + todo == work0)
        || (free == free0 - 1 && gcPos + todo == work0 - total))
  }

  lemma BudgetAtStart(total: nat, free: nat, gcPos: nat, todo: nat)
    requires gcPos < total && todo < total
    ensures Budget(total, free, gcPos, todo, free, gcPos + todo)
  {
  }

  /** A copy that needs a new line finds a free one, and the budget still holds afterwards, unless
      there was none at the start and the copies do not fit in the line being filled. */
  lemma BudgetStep(total: nat, free: nat, gcPos: nat, todo: nat, free0: nat, work0: nat)
    requires Budget(total, free, gcPos, todo, free0, work0) && 0 < todo
    ensures gcPos + 1 == total && 0 < free ==> Budget(total, free - 1, 0, todo - 1, free0, work0)
    ensures gcPos + 1 == total && free == 0 ==> free0 == 0 && total <= work0
    ensures gcPos + 1 < total ==> Budget(total, free, gcPos + 1, todo - 1, free0, work0)
  {
  }

  /** The net effect once the collected line comes back: one more free line, unless the copies ran
      over the end of the GC line. */
  lemma BudgetAtEnd(total: nat, free: nat, gcPos: nat, free0: nat, work0: nat)
    requires Budget(total, free, gcPos, 0, free0, work0)
    ensures free + 1 == if work0 < total then free0 + 1 else free0
    ensures gcPos == if work0 < total then work0 else work0 - total
    ensures free0 == 0 ==> work0 < total
  {
  }

  // ---------- erasing ----------

  lemma EraseLive(d: Dim, L: Lines, q: Blk, v: int, moved: set<Slot>)
    requires Domain(d, L) && q.blk == v && BlkSlots(d.slots, q.ch, q.lun) <= moved
    ensures forall p :: Live(AfterErase(d, L, q).status, v, moved, p) <==> Live(L.status, v, moved, p)
    ensures AfterErase(d, L, q).status.Keys == L.status.Keys
  {
  }

  lemma SkipLive(status: map<Ppa, PgStatus>, v: int, moved: set<Slot>, S: set<Slot>)
    requires forall s :: s in S ==> s in moved || At(status, Ppa(v, s)) != PgValid
    ensures forall p :: Live(status, v, moved + S, p) <==> Live(status, v, moved, p)
  {
    forall p | Live(status, v, moved, p) ensures Live(status, v, moved + S, p) {
      assert p == Ppa(p.blk, p.at);
    }
  }

  lemma StartLive(status: map<Ppa, PgStatus>, v: int)
    ensures forall p :: Live(status, v, {}, p) <==> Live(status, -1, {}, p)
  {
  }

  /** When the whole line is erased, leaving it out makes no difference. */
  lemma FinishLive(d: Dim, status: map<Ppa, PgStatus>, v: int)
    requires forall s :: s in d.slots ==> At(status, Ppa(v, s)) == PgFree
    requires forall p :: p in status ==> p.at in d.slots
    ensures forall p :: Live(status, v, d.slots, p) <==> Live(status, -1, {}, p)
  {
    forall p | Live(status, -1, {}, p) ensures Live(status, v, d.slots, p) {
      assert p == Ppa(p.blk, p.at);
    }
  }

  // ---------- INVALID pages ----------

  lemma CopyKeepsInvalid(status: map<Ppa, PgStatus>, p: Ppa)
    requires p in status && status[p] == PgFree
    ensures PagesIn(status[p := PgValid], PgInvalid) == PagesIn(status, PgInvalid)
  {
  }

  lemma EraseDropsInvalid(d: Dim, L: Lines, q: Blk)
    requires Domain(d, L)
    ensures PagesIn(AfterErase(d, L, q).status, PgInvalid) ==
            set p | p in PagesIn(L.status, PgInvalid) && !(p.blk == q.blk && p.at.ch == q.ch && p.at.lun == q.lun)
  {
  }

  lemma InvalidOutside(d: Dim, status: map<Ppa, PgStatus>, v: int)
    requires forall s :: s in d.slots ==> At(status, Ppa(v, s)) != PgInvalid
    requires forall p :: p in status ==> p.at in d.slots
    ensures forall p :: p in PagesIn(status, PgInvalid) ==> p.blk != v
  {
    forall p | p in PagesIn(status, PgInvalid) ensures p.blk != v {
      assert p == Ppa(p.blk, p.at);
    }
  }

  // ---------- one copy, assembled ----------

  /** From `L` and `m`, gc_write_page copied page `o` of the collected line to page `p`. */
  lemma CopyStep(d: Dim, L: Lines, M: Lines, m: Maps, data: map<Ppa, int>, moved: set<Slot>, o: Ppa, p: Ppa)
    requires Partition(L) && 0 <= L.collecting && o.blk == L.collecting
    requires m.status == L.status && Inverse(m.maptbl, m.rmap, m.status, L.collecting, moved)
    requires o.at in Todo(d, L.status, L.collecting, moved)
    requires 0 <= m.rmap[o] < |m.maptbl|
    requires Programmed(d, L, M, GcIo, p)
    ensures p.blk != L.collecting
    ensures var n := AfterMap(m, m.rmap[o], p);
            && n.status == M.status && Inverse(n.maptbl, n.rmap, n.status, L.collecting, moved + {o.at})
            && View(n.maptbl, data[p := Payload(data, o)]) == View(m.maptbl, data)
    ensures PagesIn(M.status, PgInvalid) == PagesIn(L.status, PgInvalid)
    ensures |Todo(d, M.status, L.collecting, moved + {o.at})| + 1 == |Todo(d, L.status, L.collecting, moved)|
    ensures forall s :: At(M.status, Ppa(L.collecting, s)) == At(L.status, Ppa(L.collecting, s))
    ensures M.user == L.user && Kept(d, M) == Kept(d, L)
  {
    hide Inverse, View, Todo, PagesIn, Count;
    ActiveLines(L);
    CountAfter(L.status, d.slots, p, PgValid, L.user, PgValid);
    TodoIsLive(d, L.status, L.collecting, moved, o);
    CopyKeepsInverse(m, L.collecting, moved, o, p);
    CopyView(m, data, L.collecting, moved, o, p);
    CopyKeepsInvalid(L.status, p);
    TodoAfterCopy(d, L.status, L.collecting, moved, o.at, p);
  }

  lemma TodoIsLive(d: Dim, status: map<Ppa, PgStatus>, v: int, moved: set<Slot>, o: Ppa)
    requires o.blk == v && o.at in Todo(d, status, v, moved)
    ensures Live(status, v, moved, o) && o.at in d.slots && o.at !in moved && At(status, Ppa(v, o.at)) == PgValid
  {
    assert o == Ppa(v, o.at);
  }

  /** gc_write_page finds a valid LPN in the reverse map of the page it copies. */
  lemma CopySource(m: Maps, d: Dim, v: int, moved: set<Slot>, o: Ppa)
    requires Inverse(m.maptbl, m.rmap, m.status, v, moved) && o.blk == v && o.at in Todo(d, m.status, v, moved)
    ensures o in m.rmap && 0 <= m.rmap[o] < |m.maptbl|
  {
    TodoIsLive(d, m.status, v, moved, o);
  }

  // ---------- select_victim_line, assembled ----------

  /** Everything select_victim_line leaves behind: the chosen line has INVALID pages to reclaim and
      fewer VALID ones than a line holds, and no page is lost from the maps. */
  lemma SelectStep(d: Dim, L: Lines, m: Maps, b: nat)
    requires CanSelect(d, L, b) && m.status == L.status && Inverse(m.maptbl, m.rmap, m.status, -1, {})
    ensures b < |L.place| && |L.place| == |L.vpc| == |L.ipc| && LinesOk(d, AfterSelect(L, b))
    ensures Inverse(m.maptbl, m.rmap, m.status, b, {})
    ensures |Todo(d, L.status, b, {})| == L.vpc[b] < d.Total()
    ensures exists p :: p in PagesIn(L.status, PgInvalid) && p.blk == b
  {
    hide LineCounters, BlkCounters, Filled, Written, VictimsHaveInvalid, BlkSlots, Count, DimOk, Inverse, Todo;
    hide Partition;
    SelectKeepsLines(d, L, b);
    TodoAtStart(d, L.status, b);
    StartLive(L.status, b);
    SameLiveKeepsInverse(m, -1, {}, m.status, b, {});
    var s := SomePage(L.status, d.slots, b);
    assert Ppa(b, s) in PagesIn(L.status, PgInvalid);
  }

  // ---------- mark_block_free, assembled ----------

  lemma EraseStep(d: Dim, L: Lines, m: Maps, q: Blk, moved: set<Slot>)
    requires CanErase(d, L, q) && m.status == L.status && Inverse(m.maptbl, m.rmap, m.status, q.blk, moved)
    requires BlkSlots(d.slots, q.ch, q.lun) <= moved
    ensures var M := AfterErase(d, L, q);
            && LinesOk(d, M) && Inverse(m.maptbl, m.rmap, M.status, q.blk, moved)
            && PagesIn(M.status, PgInvalid) <= PagesIn(L.status, PgInvalid)
            && Todo(d, M.status, q.blk, moved) == Todo(d, L.status, q.blk, moved)
            && M.user == L.user && Kept(d, M) == Kept(d, L)
  {
    hide LineCounters, BlkCounters, Filled, Written, VictimsHaveInvalid, BlkSlots, Count, DimOk, Inverse, Partition;
    hide AfterErase;
    EraseKeepsLines(d, L, q);
    EraseLive(d, L, q, q.blk, moved);
    SameLiveKeepsInverse(m, q.blk, moved, AfterErase(d, L, q).status, q.blk, moved);
    EraseDropsInvalid(d, L, q);
    EraseKeepsTodo(d, L, q, moved);
    EraseKeepsKept(d, L, q);
  }

  lemma EraseKeepsKept(d: Dim, L: Lines, q: Blk)
    requires CanErase(d, L, q)
    ensures AfterErase(d, L, q).user == L.user && Kept(d, AfterErase(d, L, q)) == Kept(d, L)
  {
    hide LineCounters, BlkCounters, Filled, Written, VictimsHaveInvalid, Count;
    ActiveLines(L);
    EraseCounts(d, L, q, d.slots, L.user, PgValid);
  }

  lemma EraseKeepsTodo(d: Dim, L: Lines, q: Blk, moved: set<Slot>)
    requires Domain(d, L) && BlkSlots(d.slots, q.ch, q.lun) <= moved
    ensures Todo(d, AfterErase(d, L, q).status, q.blk, moved) == Todo(d, L.status, q.blk, moved)
  {
    hide AfterErase, At;
    forall s | s in d.slots && s !in moved
      ensures At(AfterErase(d, L, q).status, Ppa(q.blk, s)) == At(L.status, Ppa(q.blk, s))
    {
      EraseStatus(d, L, q, Ppa(q.blk, s));
    }
  }

  // ---------- mark_line_free, assembled ----------

  lemma ReturnStep(d: Dim, L: Lines, m: Maps)
    requires CanReturn(d, L) && m.status == L.status && Inverse(m.maptbl, m.rmap, m.status, L.collecting, d.slots)
    ensures 0 <= L.collecting < |L.place| && |L.place| == |L.vpc| == |L.ipc| && LinesOk(d, AfterReturn(L))
    ensures L.place[L.collecting] == Collecting && L.collecting !in L.victims
    ensures Inverse(m.maptbl, m.rmap, m.status, -1, {})
    ensures forall s :: s in d.slots ==> At(L.status, Ppa(L.collecting, s)) == PgFree
    ensures forall p :: p in PagesIn(L.status, PgInvalid) ==> p.blk != L.collecting
  {
    hide LineCounters, BlkCounters, Filled, Written, VictimsHaveInvalid, BlkSlots, Count, DimOk, Inverse, Partition;
    hide PagesIn;
    ActiveLines(L);
    ReturnKeepsLines(d, L);
    FinishLive(d, L.status, L.collecting);
    SameLiveKeepsInverse(m, L.collecting, d.slots, m.status, -1, {});
    InvalidOutside(d, L.status, L.collecting);
    NotVictim(L, L.collecting);
  }

  // ---------- clean_one_flashpg ----------

  /** A page of the collected line whose block is not erased yet is not FREE. */
  lemma CollectedNotFree(d: Dim, L: Lines, s: Slot)
    requires LinesOk(d, L) && 0 <= L.collecting && s in d.slots && s !in L.erased
    ensures Ppa(L.collecting, s) in L.status && L.status[Ppa(L.collecting, s)] != PgFree
  {
    hide LineCounters, BlkCounters, Filled, Written, VictimsHaveInvalid, Partition;
    ActiveLines(L);
    FitsAt(d, L, L.collecting, s);
  }

  lemma FlashSlotsGrow(ch: int, lun: int, base: int, n: nat)
    ensures FlashSlots(ch, lun, base, n) + {Slot(ch, lun, base + n)} == FlashSlots(ch, lun, base, n + 1)
    ensures Slot(ch, lun, base + n) !in FlashSlots(ch, lun, base, n)
    ensures FlashSlots(ch, lun, base, 0) == {}
  {
  }

  lemma FlashSlotIn(ch: int, lun: int, base: int, n: nat, i: int)
    requires 0 <= i < n
    ensures Slot(ch, lun, base + i) in FlashSlots(ch, lun, base, n)
    ensures forall s :: s in FlashSlots(ch, lun, base, n) ==>
              base <= s.pg < base + n && s == Slot(ch, lun, base + (s.pg - base))
  {
  }

  /** Passing over pages that are not VALID. */
  lemma SkipStep(d: Dim, m: Maps, v: int, moved: set<Slot>, S: set<Slot>)
    requires Inverse(m.maptbl, m.rmap, m.status, v, moved)
    requires forall s :: s in S ==> s in moved || At(m.status, Ppa(v, s)) != PgValid
    ensures Inverse(m.maptbl, m.rmap, m.status, v, moved + S)
    ensures Todo(d, m.status, v, moved + S) == Todo(d, m.status, v, moved)
  {
    hide Inverse, Live;
    SkipLive(m.status, v, moved, S);
    SameLiveKeepsInverse(m, v, moved, m.status, v, moved + S);
    TodoAfterSkip(d, m.status, v, moved, S);
  }
}
