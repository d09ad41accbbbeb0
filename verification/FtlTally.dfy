/** How a write command moves the number of VALID pages in the line the user writes, which decides
    whether garbage collection can keep up. */
module FtlTally {
  import opened Options
  import opened Geometry
  import opened FtlLines
  import opened FtlMaps
  import opened FtlReclaim
  import opened Arithmetic
  import opened Commands

  /** The LPNs from `lo` up to `hi` whose page is in line `b`. */
  ghost function InLine(tbl: seq<Option<Ppa>>, lo: nat, hi: nat, b: int): set<nat> {
    set l: nat | l < hi && l < |tbl| && tbl[l].Some? && tbl[l].value.blk == b && InRange(lo, l)
  }

  predicate InRange(lo: nat, l: nat) { lo <= l }

  lemma InLineGrows(tbl: seq<Option<Ppa>>, lo: nat, l: nat, b: int)
    requires lo <= l < |tbl|
    ensures |InLine(tbl, lo, l + 1, b)| == |InLine(tbl, lo, l, b)| + Here(tbl, l, b)
    ensures InLine(tbl, lo, lo, b) == {}
  {
    if Here(tbl, l, b) == 1 {
      assert InLine(tbl, lo, l + 1, b) == InLine(tbl, lo, l, b) + {l};
    } else {
      assert InLine(tbl, lo, l + 1, b) == InLine(tbl, lo, l, b);
    }
  }

  /** Whether LPN `l` has its page in line `b`, as a number. */
  function Here(tbl: seq<Option<Ppa>>, l: nat, b: int): (n: nat)
    requires l < |tbl|
  {
    if tbl[l].Some? && tbl[l].value.blk == b then 1 else 0
  }

  /** Rewriting LPN `lpn` at page `p` of line `b`: one more VALID page there, unless the old one was
      there too. */
  lemma KeptAfterWrite(d: Dim, m: Maps, lpn: nat, p: Ppa)
    requires Inverse(m.maptbl, m.rmap, m.status, -1, {}) && lpn < |m.maptbl| && p.at in d.slots
    requires forall q :: q in m.status ==> q.at in d.slots
    requires At(m.status, p) == PgFree
    ensures Count(AfterMap(AfterUnmap(m, lpn), lpn, p).status, d.slots, p.blk, PgValid)
            == Count(m.status, d.slots, p.blk, PgValid) + 1 - Here(m.maptbl, lpn, p.blk)
  {
    hide Count;
    var u := AfterUnmap(m, lpn);
    if m.maptbl[lpn].Some? {
      var o := m.maptbl[lpn].value;
      assert Live(m.status, -1, {}, o);
      CountAfter(m.status, d.slots, o, PgInvalid, p.blk, PgValid);
    }
    CountAfter(u.status, d.slots, p, PgValid, p.blk, PgValid);
  }

  /** A line that was just opened holds no VALID page, and no LPN is mapped there. */
  lemma FreshLine(d: Dim, L: Lines, m: Maps)
    requires DimOk(d) && LinesOk(d, L) && L.userPos == 0 && m.status == L.status
    requires Inverse(m.maptbl, m.rmap, m.status, -1, {})
    ensures Kept(d, L) == 0 && forall l: nat :: l < |m.maptbl| ==> Here(m.maptbl, l, L.user) == 0
  {
    hide LineCounters, BlkCounters, VictimsHaveInvalid, Filled, Partition;
    forall s | s in d.slots ensures At(L.status, Ppa(L.user, s)) == PgFree {
      var i :| 0 <= i < |d.ord| && d.ord[i] == s;
    }
    assert With(L.status, d.slots, L.user, PgValid) == {};
    forall l: nat | l < |m.maptbl| && m.maptbl[l].Some? ensures Here(m.maptbl, l, L.user) == 0 {
      assert Live(m.status, -1, {}, m.maptbl[l].value);
      assert m.maptbl[l].value == Ppa(m.maptbl[l].value.blk, m.maptbl[l].value.at);
    }
  }

  /** The user's line as a write goes on: its number, the write position, and its VALID pages. */
  datatype Cursor = Cursor(line: nat, pos: nat, kept: nat)

  /** A write that began at `lo` with cursor `c0` and table `tbl0` has come to `l`.  While it stays in
      its first line, every rewritten LPN adds a page there, less the ones that were there already;
      after that the line has one VALID page for every page written. */
  ghost predicate Tally(total: nat, tbl0: seq<Option<Ppa>>, c0: Cursor, tbl: seq<Option<Ppa>>, c: Cursor, lo: nat,
                        l: nat) {
    && |tbl| == |tbl0| && lo <= l <= |tbl|
    && (forall k: nat :: l <= k < |tbl| ==> tbl[k] == tbl0[k])
    && (if c0.pos + (l - lo) < total then
          && c.line == c0.line && c.pos == c0.pos + (l - lo)
          && c.kept == c0.kept + (l - lo) - |InLine(tbl0, lo, l, c0.line)|
        else
          && c.kept == c.pos
          && forall k: nat :: l <= k < |tbl| ==> Here(tbl, k, c.line) == 0)
  }

  lemma TallyStarts(total: nat, tbl: seq<Option<Ppa>>, c: Cursor, lo: nat)
    requires c.pos < total && lo <= |tbl|
    ensures Tally(total, tbl, c, tbl, c, lo, lo)
  {
    assert InLine(tbl, lo, lo, c.line) == {};
  }

  /** One more LPN is written, at the cursor. */
  lemma TallyStep(total: nat, tbl0: seq<Option<Ppa>>, c0: Cursor, tbl: seq<Option<Ppa>>, c: Cursor, lo: nat, l: nat,
                  p: Ppa, t: seq<Option<Ppa>>, c': Cursor)
    requires Tally(total, tbl0, c0, tbl, c, lo, l) && l < |tbl| && c.pos < total && t == tbl[l := Some(p)]
    requires c.pos + 1 < total ==>
               c'.line == c.line && c'.pos == c.pos + 1 && c'.kept == c.kept + 1 - Here(tbl, l, c.line)
    requires c.pos + 1 == total ==>
               c'.pos == 0 && c'.kept == 0 && forall k: nat :: k < |t| ==> Here(t, k, c'.line) == 0
    ensures Tally(total, tbl0, c0, t, c', lo, l + 1)
  {
    hide InLine;
    InLineGrows(tbl0, lo, l, c0.line);
    if c0.pos + (l + 1 - lo) >= total {
      forall k: nat | l + 1 <= k < |t| ensures Here(t, k, c'.line) == 0 {
        if c.pos + 1 < total {
          assert Here(tbl, k, c.line) == 0;
        }
      }
    }
  }

  /** The VALID pages of the user's line after a write of LPNs `lo` up to `hi`. */
  ghost function KeptAfter(total: nat, tbl: seq<Option<Ppa>>, c: Cursor, lo: nat, hi: nat): int
    requires lo <= hi
  {
    if c.pos + (hi - lo) < total then c.kept + (hi - lo) - |InLine(tbl, lo, hi, c.line)|
    else if total == 0 then 0 else (c.pos + (hi - lo)) % total
  }

  /** At the end of a write the tally is that number. */
  lemma TallyEnds(total: nat, tbl0: seq<Option<Ppa>>, c0: Cursor, tbl: seq<Option<Ppa>>, c: Cursor, lo: nat, hi: nat,
                  free0: nat, free: nat)
    requires Tally(total, tbl0, c0, tbl, c, lo, hi) && 0 < total
    requires Consumed(total, c0.pos, free0, c.pos, free, hi - lo)
    ensures c.kept == KeptAfter(total, tbl0, c0, lo, hi)
  {
    hide InLine, Here;
    EndsAt(total, c0.pos, free0, c.pos, free, hi - lo);
  }

  lemma EndsAt(total: nat, pos0: nat, free0: nat, pos: nat, free: nat, n: nat)
    requires 0 < total && Consumed(total, pos0, free0, pos, free, n)
    ensures pos == (pos0 + n) % total
  {
    DivModUnique(free0 - free, total, pos);
  }

  /** The page at the user's write position is FREE. */
  lemma UserPageFree(d: Dim, L: Lines)
    requires LinesOk(d, L) && DimOk(d) && L.userPos < |d.ord|
    ensures At(L.status, Ppa(L.user, d.ord[L.userPos])) == PgFree && d.ord[L.userPos] in d.slots
    ensures forall q :: q in L.status ==> q.at in d.slots
  {
    hide LineCounters, BlkCounters, VictimsHaveInvalid, Filled, Partition;
  }

  lemma RewrittenTable(m: Maps, n: Maps, lpn: nat, p: Ppa)
    requires Rewritten(m, n, lpn, p) && lpn < |m.maptbl|
    ensures n.maptbl == m.maptbl[lpn := Some(p)]
  {
  }
}
