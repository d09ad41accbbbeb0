/** conv_read of conv_ftl.c: reads of neighbouring LPNs that sit in one flash page are issued as
    one flash command.  LPN `l` belongs to partition `l % nr_parts`, under index `l / nr_parts`. */
module ConvRead {
  import opened Options
  import opened Arithmetic
  import opened Geometry
  import opened FtlMaps

  /** A flash read: the address it is issued at, and its size in pages. */
  datatype ReadCmd = ReadCmd(ppa: Ppa, pages: nat)

  /** is_same_flash_page */
  predicate SameFlashPage(flash: nat, p: Ppa, q: Ppa)
    requires 0 < flash
  {
    p.blk == q.blk && p.at.ch == q.at.ch && p.at.lun == q.at.lun && p.at.pg / flash == q.at.pg / flash
  }

  /** A mapping table without shared pages, all of them at real addresses. */
  ghost predicate Injective(tbl: seq<Option<Ppa>>) {
    && (forall l: nat, k: nat :: l < |tbl| && k < |tbl| && tbl[l].Some? && tbl[l] == tbl[k] ==> l == k)
    && (forall l: nat :: l < |tbl| && tbl[l].Some? ==> 0 <= tbl[l].value.at.pg)
  }

  /** The table of a consistent FTL is such a table. */
  lemma InverseIsInjective(g: Geo, m: Maps)
    requires Inverse(m.maptbl, m.rmap, m.status, -1, {})
    requires forall p :: p in m.status ==> g.PpaOk(p)
    ensures Injective(m.maptbl)
  {
    forall l: nat, k: nat | l < |m.maptbl| && k < |m.maptbl| && m.maptbl[l].Some? && m.maptbl[l] == m.maptbl[k]
      ensures l == k
    {
      MapInjective(m.maptbl, m.rmap, m.status, -1, {}, l, k);
    }
    forall l: nat | l < |m.maptbl| && m.maptbl[l].Some? ensures 0 <= m.maptbl[l].value.at.pg {
      assert Live(m.status, -1, {}, m.maptbl[l].value);
      assert g.PpaOk(m.maptbl[l].value);
    }
  }

  /** The mapped indices from `lo` up to `hi`. */
  ghost function MappedIn(tbl: seq<Option<Ppa>>, lo: nat, hi: nat): set<nat> {
    set l: nat | l < |tbl| && lo <= l < hi && tbl[l].Some?
  }

  /** Group `j` is the set of indices command `j` reads: its size is the command's, and all its
      pages lie in the flash page the command is issued at. */
  ghost predicate Reads(tbl: seq<Option<Ppa>>, flash: nat, c: ReadCmd, group: set<nat>)
    requires 0 < flash
  {
    && |group| == c.pages > 0
    && forall l :: l in group ==> l < |tbl| && tbl[l].Some? && SameFlashPage(flash, tbl[l].value, c.ppa)
  }

  ghost function Union(groups: seq<set<nat>>): set<nat> {
    if groups == [] then {} else Union(groups[..|groups| - 1]) + groups[|groups| - 1]
  }

  function TotalPages(cmds: seq<ReadCmd>): nat {
    if cmds == [] then 0 else TotalPages(cmds[..|cmds| - 1]) + cmds[|cmds| - 1].pages
  }

  /** The commands read every index of `all` once, and nothing else, and none of them is larger than
      a flash page. */
  ghost predicate Covers(tbl: seq<Option<Ppa>>, flash: nat, cmds: seq<ReadCmd>, groups: seq<set<nat>>, all: set<nat>)
    requires 0 < flash
  {
    && |groups| == |cmds|
    && (forall j :: 0 <= j < |cmds| ==> Reads(tbl, flash, cmds[j], groups[j]) && cmds[j].pages <= flash)
    && Union(groups) == all && TotalPages(cmds) == |all|
  }

  /** No command is larger than a flash page: distinct indices read distinct pages of it. */
  lemma FlashPageBounds(tbl: seq<Option<Ppa>>, flash: nat, c: ReadCmd, group: set<nat>)
    requires 0 < flash && Injective(tbl) && Reads(tbl, flash, c, group) && 0 <= c.ppa.at.pg
    ensures c.pages <= flash
  {
    var base := c.ppa.at.pg / flash * flash;
    forall l | l in group ensures base <= tbl[l].value.at.pg < base + flash {
      var pg := tbl[l].value.at.pg;
      assert pg == flash * (pg / flash) + pg % flash;
    }
    forall l, k | l in group && k in group && l != k ensures tbl[l].value.at.pg != tbl[k].value.at.pg {
      assert tbl[l] != tbl[k];
      assert SameFlashPage(flash, tbl[l].value, c.ppa) && SameFlashPage(flash, tbl[k].value, c.ppa);
    }
    DistinctInRange(tbl, group, base, flash);
  }

  lemma {:induction false} DistinctInRange(tbl: seq<Option<Ppa>>, group: set<nat>, base: int, n: nat)
    requires forall l :: l in group ==> l < |tbl| && tbl[l].Some? && base <= tbl[l].value.at.pg < base + n
    requires forall l, k :: l in group && k in group && l != k ==> tbl[l].value.at.pg != tbl[k].value.at.pg
    ensures |group| <= n
  {
    if n == 0 {
      assert group == {};
    } else if exists l :: l in group && tbl[l].value.at.pg == base + n - 1 {
      var l :| l in group && tbl[l].value.at.pg == base + n - 1;
      DistinctInRange(tbl, group - {l}, base, n - 1);
    } else {
      DistinctInRange(tbl, group, base, n - 1);
    }
  }

  lemma CoversMore(tbl: seq<Option<Ppa>>, flash: nat, cmds: seq<ReadCmd>, groups: seq<set<nat>>, all: set<nat>,
                   c: ReadCmd, group: set<nat>)
    requires 0 < flash && Covers(tbl, flash, cmds, groups, all) && Reads(tbl, flash, c, group) && group !! all
    requires Injective(tbl) && 0 <= c.ppa.at.pg
    ensures Covers(tbl, flash, cmds + [c], groups + [group], all + group)
  {
    FlashPageBounds(tbl, flash, c, group);
    assert (groups + [group])[..|groups|] == groups;
    assert (cmds + [c])[..|cmds|] == cmds;
    assert |all + group| == |all| + |group|;
  }

  lemma MappedNext(tbl: seq<Option<Ppa>>, lo: nat, l: nat)
    requires lo <= l < |tbl|
    ensures MappedIn(tbl, lo, l + 1) == MappedIn(tbl, lo, l) + (if tbl[l].Some? then {l} else {})
    ensures l !in MappedIn(tbl, lo, l)
  {
  }

  /** Part of the way: `cmds` are issued, and `pages` pages of the flash page of `prev` are to be
      read by the next command.  Together they read the mapped indices from `lo` up to `hi`. */
  ghost predicate PartlyRead(tbl: seq<Option<Ppa>>, flash: nat, lo: nat, hi: nat,
                             cmds: seq<ReadCmd>, groups: seq<set<nat>>, prev: Option<Ppa>, pages: nat, group: set<nat>)
    requires 0 < flash
  {
    && group <= MappedIn(tbl, lo, hi)
    && Covers(tbl, flash, cmds, groups, MappedIn(tbl, lo, hi) - group)
    && (0 < pages ==> prev.Some? && Reads(tbl, flash, ReadCmd(prev.value, pages), group))
    && (pages == 0 ==> group == {})
    && (prev.Some? ==> 0 <= prev.value.at.pg)
  }

  lemma NothingRead(tbl: seq<Option<Ppa>>, flash: nat, lo: nat)
    requires 0 < flash && lo < |tbl| && Injective(tbl)
    ensures PartlyRead(tbl, flash, lo, lo, [], [], tbl[lo], 0, {})
    ensures Joined(flash, [])
  {
  }

  /** The next index is not mapped. */
  lemma SkipIndex(tbl: seq<Option<Ppa>>, flash: nat, lo: nat, hi: nat,
                  cmds: seq<ReadCmd>, groups: seq<set<nat>>, prev: Option<Ppa>, pages: nat, group: set<nat>)
    requires 0 < flash && PartlyRead(tbl, flash, lo, hi, cmds, groups, prev, pages, group)
    requires lo <= hi < |tbl| && tbl[hi].None?
    ensures PartlyRead(tbl, flash, lo, hi + 1, cmds, groups, prev, pages, group)
  {
    hide Covers, Reads;
    MappedNext(tbl, lo, hi);
    assert MappedIn(tbl, lo, hi + 1) == MappedIn(tbl, lo, hi);
  }

  /** The next index is in the same flash page. */
  lemma JoinIndex(tbl: seq<Option<Ppa>>, flash: nat, lo: nat, hi: nat,
                  cmds: seq<ReadCmd>, groups: seq<set<nat>>, prev: Option<Ppa>, pages: nat, group: set<nat>)
    requires 0 < flash && PartlyRead(tbl, flash, lo, hi, cmds, groups, prev, pages, group)
    requires lo <= hi < |tbl| && tbl[hi].Some? && prev.Some? && SameFlashPage(flash, tbl[hi].value, prev.value)
    ensures PartlyRead(tbl, flash, lo, hi + 1, cmds, groups, prev, pages + 1, group + {hi})
  {
    hide Covers, MappedIn;
    MappedNext(tbl, lo, hi);
    GroupGrows(tbl, flash, prev.value, pages, group, hi);
    assert MappedIn(tbl, lo, hi) + {hi} - (group + {hi}) == MappedIn(tbl, lo, hi) - group;
  }

  /** The pages to be read are issued as a command. */
  lemma IssueRead(tbl: seq<Option<Ppa>>, flash: nat, lo: nat, hi: nat,
                  cmds: seq<ReadCmd>, groups: seq<set<nat>>, prev: Option<Ppa>, pages: nat, group: set<nat>)
    requires 0 < flash && PartlyRead(tbl, flash, lo, hi, cmds, groups, prev, pages, group)
    requires Injective(tbl) && 0 < pages
    ensures PartlyRead(tbl, flash, lo, hi, cmds + [ReadCmd(prev.value, pages)], groups + [group], prev, 0, {})
  {
    hide Covers, Reads, Injective, MappedIn;
    var all := MappedIn(tbl, lo, hi);
    CoversMore(tbl, flash, cmds, groups, all - group, ReadCmd(prev.value, pages), group);
    assert all - group + group == all - {};
  }

  /** The next index starts another flash page. */
  lemma StartRead(tbl: seq<Option<Ppa>>, flash: nat, lo: nat, hi: nat,
                  cmds: seq<ReadCmd>, groups: seq<set<nat>>, prev: Option<Ppa>)
    requires 0 < flash && PartlyRead(tbl, flash, lo, hi, cmds, groups, prev, 0, {})
    requires lo <= hi < |tbl| && tbl[hi].Some? && Injective(tbl)
    ensures PartlyRead(tbl, flash, lo, hi + 1, cmds, groups, tbl[hi], 1, {hi})
  {
    hide Covers, MappedIn, Injective;
    MappedNext(tbl, lo, hi);
    CurReads(tbl, flash, hi);
    assert MappedIn(tbl, lo, hi) + {hi} - {hi} == MappedIn(tbl, lo, hi) - {};
  }

  /** Two pages are in different flash pages. */
  predicate Apart(flash: nat, p: Ppa, q: Ppa)
    requires 0 < flash
  {
    p.blk != q.blk || p.at.ch != q.at.ch || p.at.lun != q.at.lun || p.at.pg / flash != q.at.pg / flash
  }

  /** Neighbouring commands are for different flash pages: no two of them could have been one. */
  predicate Joined(flash: nat, cmds: seq<ReadCmd>)
    requires 0 < flash
  {
    forall j :: 0 < j < |cmds| ==> Apart(flash, cmds[j - 1].ppa, cmds[j].ppa)
  }

  lemma JoinedMore(flash: nat, cmds: seq<ReadCmd>, c: ReadCmd)
    requires 0 < flash && Joined(flash, cmds) && (cmds != [] ==> Apart(flash, cmds[|cmds| - 1].ppa, c.ppa))
    ensures Joined(flash, cmds + [c])
  {
  }

  lemma NotSameIsApart(flash: nat, p: Ppa, q: Ppa)
    requires 0 < flash && !SameFlashPage(flash, p, q)
    ensures Apart(flash, q, p)
  {
  }

  lemma AllRead(tbl: seq<Option<Ppa>>, flash: nat, lo: nat, hi: nat, cmds: seq<ReadCmd>, groups: seq<set<nat>>,
                prev: Option<Ppa>)
    requires 0 < flash && PartlyRead(tbl, flash, lo, hi, cmds, groups, prev, 0, {})
    ensures Covers(tbl, flash, cmds, groups, MappedIn(tbl, lo, hi))
  {
    hide Covers, MappedIn;
    assert MappedIn(tbl, lo, hi) - {} == MappedIn(tbl, lo, hi);
  }

  lemma PendingRead(tbl: seq<Option<Ppa>>, flash: nat, lo: nat, hi: nat,
                    cmds: seq<ReadCmd>, groups: seq<set<nat>>, prev: Option<Ppa>, pages: nat, group: set<nat>)
    requires 0 < flash && PartlyRead(tbl, flash, lo, hi, cmds, groups, prev, pages, group)
    ensures 0 < pages ==> prev.Some?
    ensures pages == 0 ==> group == {}
  {
  }

  /** The commands read every index of `all` exactly once, and nothing else, and none of them is
      larger than a flash page. */
  ghost predicate ReadsAll(tbl: seq<Option<Ppa>>, flash: nat, cmds: seq<ReadCmd>, all: set<nat>)
    requires 0 < flash
  {
    exists groups: seq<set<nat>> :: Covers(tbl, flash, cmds, groups, all)
  }

  /** The index after the last one that a stride from `first` visits. */
  function StrideEnd(first: nat, nrParts: nat, endLpn: nat): (hi: nat)
    requires 0 < nrParts && first <= endLpn
  {
    first / nrParts + (endLpn - first) / nrParts + 1
  }

  /** The inner loop of conv_read over one partition: indices `first / nrParts` onwards, one per
      stride. */
  method ReadStride(tbl: seq<Option<Ppa>>, flash: nat, nrParts: nat, first: nat, endLpn: nat)
    returns (cmds: seq<ReadCmd>)
    requires 0 < flash && 0 < nrParts && Injective(tbl) && first <= endLpn && endLpn / nrParts < |tbl|
    ensures ReadsAll(tbl, flash, cmds, MappedIn(tbl, first / nrParts, StrideEnd(first, nrParts, endLpn)))
    ensures Joined(flash, cmds)
  {
    hide Joined, Apart, Injective, Covers, Reads, MappedIn, SameFlashPage, Strided, PartlyRead, StrideEnd;
    ghost var lo: nat := first / nrParts;
    StrideIndex(first, nrParts, 0, endLpn);
    NothingRead(tbl, flash, lo);
    cmds := [];
    ghost var groups: seq<set<nat>>, hi: nat := [], lo;
    var prevPpa := tbl[first / nrParts];
    var xferPages: nat := 0;
    ghost var group: set<nat> := {};
    var lpn := first;
    while lpn <= endLpn
      invariant lo <= hi && lpn == Strided(first, nrParts, hi - lo)
      invariant hi > lo ==> Strided(first, nrParts, hi - lo - 1) <= endLpn
      invariant PartlyRead(tbl, flash, lo, hi, cmds, groups, prevPpa, xferPages, group)
      invariant Joined(flash, cmds)
      invariant cmds != [] ==> 0 < xferPages && prevPpa.Some? && Apart(flash, cmds[|cmds| - 1].ppa, prevPpa.value)
      decreases endLpn + 1 - lpn
    {
      StrideIndex(first, nrParts, hi - lo, endLpn);
      PendingRead(tbl, flash, lo, hi, cmds, groups, prevPpa, xferPages, group);
      var localLpn := lpn / nrParts;
      assert localLpn == hi;
      var curPpa := tbl[localLpn];
      if curPpa.None? {
        SkipIndex(tbl, flash, lo, hi, cmds, groups, prevPpa, xferPages, group);
      } else if prevPpa.Some? && SameFlashPage(flash, curPpa.value, prevPpa.value) {
        JoinIndex(tbl, flash, lo, hi, cmds, groups, prevPpa, xferPages, group);
        xferPages, group := xferPages + 1, group + {hi};
      } else {
        if xferPages > 0 {
          IssueRead(tbl, flash, lo, hi, cmds, groups, prevPpa, xferPages, group);
          JoinedMore(flash, cmds, ReadCmd(prevPpa.value, xferPages));
          NotSameIsApart(flash, curPpa.value, prevPpa.value);
          cmds, groups := cmds + [ReadCmd(prevPpa.value, xferPages)], groups + [group];
        }
        StartRead(tbl, flash, lo, hi, cmds, groups, prevPpa);
        xferPages, prevPpa, group := 1, curPpa, {hi};
      }
      lpn, hi := lpn + nrParts, hi + 1;
    }
    // what the last command is to read
    PendingRead(tbl, flash, lo, hi, cmds, groups, prevPpa, xferPages, group);
    if xferPages > 0 {
      JoinedMore(flash, cmds, ReadCmd(prevPpa.value, xferPages));
      IssueRead(tbl, flash, lo, hi, cmds, groups, prevPpa, xferPages, group);
      cmds, groups := cmds + [ReadCmd(prevPpa.value, xferPages)], groups + [group];
    }
    AllRead(tbl, flash, lo, hi, cmds, groups, prevPpa);
    StrideEnds(first, nrParts, endLpn, hi);
  }

  lemma CurReads(tbl: seq<Option<Ppa>>, flash: nat, l: nat)
    requires 0 < flash && l < |tbl| && tbl[l].Some? && Injective(tbl)
    ensures Reads(tbl, flash, ReadCmd(tbl[l].value, 1), {l}) && 0 <= tbl[l].value.at.pg
  {
  }

  lemma GroupGrows(tbl: seq<Option<Ppa>>, flash: nat, p: Ppa, pages: nat, group: set<nat>, l: nat)
    requires 0 < flash && l < |tbl| && tbl[l].Some? && l !in group && SameFlashPage(flash, tbl[l].value, p)
    requires pages == 0 ==> group == {}
    requires 0 < pages ==> Reads(tbl, flash, ReadCmd(p, pages), group)
    ensures Reads(tbl, flash, ReadCmd(p, pages + 1), group + {l})
  {
  }

  /** Where a stride from `first` is after `n` steps. */
  function Strided(first: nat, nrParts: nat, n: int): int {
    first + n * nrParts
  }

  lemma StrideIndex(first: nat, nrParts: nat, n: nat, endLpn: nat)
    requires 0 < nrParts
    ensures var l := Strided(first, nrParts, n);
            && 0 <= l && l / nrParts == first / nrParts + n && l % nrParts == first % nrParts
            && (l <= endLpn ==> first / nrParts + n <= endLpn / nrParts)
            && Strided(first, nrParts, n + 1) == l + nrParts
    ensures Strided(first, nrParts, 0) == first
  {
    var q, r := first / nrParts, first % nrParts;
    assert first == q * nrParts + r;
    assert (q + n) * nrParts == q * nrParts + n * nrParts;
    DivModUnique(q + n, nrParts, r);
    if first + n * nrParts <= endLpn {
      var e := endLpn / nrParts;
      assert endLpn == e * nrParts + endLpn % nrParts;
      if e < q + n {
        MulMonotone(nrParts, e + 1, q + n);
      }
    }
  }

  /** A stride ends where the next step would leave the range. */
  lemma StrideEnds(first: nat, nrParts: nat, endLpn: nat, hi: nat)
    requires 0 < nrParts && first <= endLpn && first / nrParts < hi
    requires Strided(first, nrParts, hi - first / nrParts - 1) <= endLpn < Strided(first, nrParts, hi - first / nrParts)
    ensures hi == StrideEnd(first, nrParts, endLpn)
  {
    var n: nat := hi - first / nrParts - 1;
    assert (n + 1) * nrParts == n * nrParts + nrParts;
    DivModUnique(n, nrParts, endLpn - first - n * nrParts);
  }

  /** The strides of the outer loop visit every LPN of a range exactly once: LPN `l` is visited
      only by the stride that starts at `start + i` with `i = (l - start) % nrParts`, at step
      `(l - start) / nrParts`, in the table of its own partition and under its own index. */
  lemma StridesCover(start: nat, nrParts: nat, l: nat, i: nat, n: nat)
    requires 0 < nrParts && start <= l && i < nrParts
    ensures l == Strided(start + i, nrParts, n) <==> i == (l - start) % nrParts && n == (l - start) / nrParts
    ensures l == Strided(start + i, nrParts, n) ==>
              l % nrParts == (start + i) % nrParts && l / nrParts == (start + i) / nrParts + n
  {
    var d := l - start;
    assert d == d / nrParts * nrParts + d % nrParts;
    if l == start + i + n * nrParts {
      DivModUnique(n, nrParts, i);
      StrideIndex(start + i, nrParts, n, l);
    }
  }

  // ---------- all strides together ----------

  /** LPN `l` is mapped, in the table of its partition. */
  predicate Mapped(tables: seq<seq<Option<Ppa>>>, l: nat)
    requires 0 < |tables|
  {
    l / |tables| < |tables[l % |tables|]| && tables[l % |tables|][l / |tables|].Some?
  }

  /** The mapped LPNs of a range. */
  ghost function MappedRange(tables: seq<seq<Option<Ppa>>>, startLpn: nat, endLpn: nat): set<nat>
    requires 0 < |tables|
  {
    set l: nat | l <= endLpn && startLpn <= l && Mapped(tables, l)
  }

  /** Those of them that the first `n` strides come by. */
  ghost function MappedBy(tables: seq<seq<Option<Ppa>>>, startLpn: nat, endLpn: nat, n: nat): set<nat>
    requires 0 < |tables|
  {
    set l | l in MappedRange(tables, startLpn, endLpn) && (l - startLpn) % |tables| < n
  }

  /** The LPN with index `k` in partition `part`. */
  function LpnAt(k: nat, part: nat, nrParts: nat): nat { k * nrParts + part }

  lemma LpnAtParts(k: nat, part: nat, nrParts: nat)
    requires part < nrParts
    ensures LpnAt(k, part, nrParts) % nrParts == part && LpnAt(k, part, nrParts) / nrParts == k
  {
    DivModUnique(k, nrParts, part);
  }

  /** The LPNs of partition `part` with the indices `group`. */
  ghost function Lift(group: set<nat>, part: nat, nrParts: nat): set<nat> {
    set k | k in group :: LpnAt(k, part, nrParts)
  }

  ghost function LiftAll(groups: seq<set<nat>>, part: nat, nrParts: nat): (lifted: seq<set<nat>>)
    ensures |lifted| == |groups| && forall j :: 0 <= j < |groups| ==> lifted[j] == Lift(groups[j], part, nrParts)
  {
    seq(|groups|, j requires 0 <= j < |groups| => Lift(groups[j], part, nrParts))
  }

  lemma {:induction false} LiftCount(group: set<nat>, part: nat, nrParts: nat)
    requires part < nrParts
    ensures |Lift(group, part, nrParts)| == |group|
  {
    hide LpnAt;
    if group != {} {
      var k :| k in group;
      LiftCount(group - {k}, part, nrParts);
      forall x | x in group - {k} ensures LpnAt(x, part, nrParts) != LpnAt(k, part, nrParts) {
        LpnAtParts(x, part, nrParts);
        LpnAtParts(k, part, nrParts);
      }
      assert Lift(group, part, nrParts) == Lift(group - {k}, part, nrParts) + {LpnAt(k, part, nrParts)};
    }
  }

  lemma {:induction false} LiftUnion(groups: seq<set<nat>>, part: nat, nrParts: nat)
    ensures Union(LiftAll(groups, part, nrParts)) == Lift(Union(groups), part, nrParts)
  {
    if groups != [] {
      var init := groups[..|groups| - 1];
      LiftUnion(init, part, nrParts);
      assert LiftAll(groups, part, nrParts)[..|groups| - 1] == LiftAll(init, part, nrParts);
    }
  }

  /** Command `c` reads the LPNs of `group`, all in partition `part` and in one flash page. */
  ghost predicate ReadsLpns(tables: seq<seq<Option<Ppa>>>, flash: nat, part: nat, c: ReadCmd, group: set<nat>)
    requires 0 < flash && 0 < |tables|
  {
    && |group| == c.pages && 0 < c.pages <= flash
    && forall l :: l in group ==>
         l % |tables| == part && Mapped(tables, l) && SameFlashPage(flash, tables[part][l / |tables|].value, c.ppa)
  }

  /** The commands of the stride from `first` read `groups`, in the partition of `first`. */
  ghost predicate StrideGroups(tables: seq<seq<Option<Ppa>>>, flash: nat, first: nat, cmds: seq<ReadCmd>,
                               groups: seq<set<nat>>)
    requires 0 < flash && 0 < |tables|
  {
    && |groups| == |cmds|
    && forall j :: 0 <= j < |cmds| ==> ReadsLpns(tables, flash, first % |tables|, cmds[j], groups[j])
  }

  /** The strides that start at `startLpn` onwards read the LPNs `all`, once each: stride `i` issues
      `cmds[i]` to the partition of its first LPN. */
  ghost predicate StridesRead(tables: seq<seq<Option<Ppa>>>, flash: nat, startLpn: nat, cmds: seq<seq<ReadCmd>>,
                              groups: seq<seq<set<nat>>>, all: set<nat>)
    requires 0 < flash && 0 < |tables|
  {
    && |groups| == |cmds|
    && (forall i :: 0 <= i < |cmds| ==> StrideGroups(tables, flash, startLpn + i, cmds[i], groups[i]))
    && UnionAll(groups) == all && TotalAll(cmds) == |all|
  }

  ghost function UnionAll(groups: seq<seq<set<nat>>>): set<nat> {
    if groups == [] then {} else UnionAll(groups[..|groups| - 1]) + Union(groups[|groups| - 1])
  }

  function TotalAll(cmds: seq<seq<ReadCmd>>): nat {
    if cmds == [] then 0 else TotalAll(cmds[..|cmds| - 1]) + TotalPages(cmds[|cmds| - 1])
  }

  /** Every LPN of `all` is read by exactly one command, and nothing else is read. */
  ghost predicate ReadOnce(tables: seq<seq<Option<Ppa>>>, flash: nat, startLpn: nat, cmds: seq<seq<ReadCmd>>,
                           all: set<nat>)
    requires 0 < flash && 0 < |tables|
  {
    exists groups: seq<seq<set<nat>>> :: StridesRead(tables, flash, startLpn, cmds, groups, all)
  }

  lemma ReadsAddUp(tables: seq<seq<Option<Ppa>>>, flash: nat, startLpn: nat, cmds: seq<seq<ReadCmd>>, all: set<nat>)
    requires 0 < flash && 0 < |tables| && ReadOnce(tables, flash, startLpn, cmds, all)
    ensures TotalAll(cmds) == |all|
  {
  }

  /** The LPN with index `k` in the partition of `first`. */
  lemma LpnOf(first: nat, nrParts: nat, k: nat)
    requires 0 < nrParts && first / nrParts <= k
    ensures LpnAt(k, first % nrParts, nrParts) == Strided(first, nrParts, k - first / nrParts)
  {
    assert (k - first / nrParts) * nrParts == k * nrParts - first / nrParts * nrParts;
  }

  /** The steps of a stride that stay in the range. */
  lemma StrideSteps(first: nat, nrParts: nat, endLpn: nat, n: nat)
    requires 0 < nrParts && first <= endLpn
    ensures Strided(first, nrParts, n) <= endLpn <==> first / nrParts + n < StrideEnd(first, nrParts, endLpn)
  {
    var q := (endLpn - first) / nrParts;
    assert endLpn - first == q * nrParts + (endLpn - first) % nrParts;
    if n <= q {
      MulMonotone(nrParts, n, q);
    } else {
      MulMonotone(nrParts, q + 1, n);
    }
  }

  /** The LPNs the stride from `first` reads. */
  ghost function StrideLpns(tables: seq<seq<Option<Ppa>>>, first: nat, endLpn: nat): set<nat>
    requires 0 < |tables| && first <= endLpn
  {
    var n := |tables|;
    Lift(MappedIn(tables[first % n], first / n, StrideEnd(first, n, endLpn)), first % n, n)
  }

  /** Whether LPN `l` of a range from `start` is met by stride `i`. */
  predicate MetBy(start: nat, l: nat, i: nat, nrParts: nat)
    requires 0 < nrParts
  {
    start <= l && (l - start) % nrParts == i
  }

  lemma MetForward(tables: seq<seq<Option<Ppa>>>, start: nat, endLpn: nat, i: nat, l: nat)
    requires 0 < |tables| && i < |tables| && start + i <= endLpn && l in StrideLpns(tables, start + i, endLpn)
    ensures l in MappedRange(tables, start, endLpn) && MetBy(start, l, i, |tables|)
  {
    hide Strided, StrideEnd, LpnAt;
    var n, first := |tables|, start + i;
    var k :| k in MappedIn(tables[first % n], first / n, StrideEnd(first, n, endLpn)) && l == LpnAt(k, first % n, n);
    LpnOf(first, n, k);
    LpnAtParts(k, first % n, n);
    StrideSteps(first, n, endLpn, k - first / n);
    StrideAhead(first, n, k - first / n);
    StridesCover(start, n, l, i, k - first / n);
  }

  lemma MetBackward(tables: seq<seq<Option<Ppa>>>, start: nat, endLpn: nat, i: nat, l: nat)
    requires 0 < |tables| && i < |tables| && start + i <= endLpn
    requires l in MappedRange(tables, start, endLpn) && MetBy(start, l, i, |tables|)
    ensures l in StrideLpns(tables, start + i, endLpn)
  {
    hide Strided, StrideEnd, LpnAt;
    var n, first := |tables|, start + i;
    var k: nat := StepOf(start, n, l);
    StridesCover(start, n, l, i, k);
    StrideSteps(first, n, endLpn, k);
    LpnOf(first, n, l / n);
    assert l / n in MappedIn(tables[first % n], first / n, StrideEnd(first, n, endLpn));
  }

  function StepOf(start: nat, nrParts: nat, l: nat): nat
    requires 0 < nrParts && start <= l
  {
    (l - start) / nrParts
  }

  /** The LPNs of the range that stride `i` meets are those it reads. */
  lemma StrideMeets(tables: seq<seq<Option<Ppa>>>, start: nat, endLpn: nat, i: nat)
    requires 0 < |tables| && i < |tables| && start + i <= endLpn
    ensures MappedBy(tables, start, endLpn, i + 1)
            == MappedBy(tables, start, endLpn, i) + StrideLpns(tables, start + i, endLpn)
    ensures MappedBy(tables, start, endLpn, i) !! StrideLpns(tables, start + i, endLpn)
  {
    hide MappedRange, StrideLpns;
    forall l: nat ensures l in StrideLpns(tables, start + i, endLpn) <==>
                          l in MappedRange(tables, start, endLpn) && MetBy(start, l, i, |tables|)
    {
      if l in StrideLpns(tables, start + i, endLpn) {
        MetForward(tables, start, endLpn, i, l);
      } else if l in MappedRange(tables, start, endLpn) && MetBy(start, l, i, |tables|) {
        MetBackward(tables, start, endLpn, i, l);
      }
    }
    forall l | l in MappedRange(tables, start, endLpn) ensures start <= l {
      RangeStart(tables, start, endLpn, l);
    }
  }

  lemma RangeStart(tables: seq<seq<Option<Ppa>>>, start: nat, endLpn: nat, l: nat)
    requires 0 < |tables| && l in MappedRange(tables, start, endLpn)
    ensures start <= l <= endLpn
  {
  }

  lemma StrideAhead(first: nat, nrParts: nat, n: nat)
    ensures first <= Strided(first, nrParts, n)
  {
  }

  /** The commands of the stride that starts at LPN `first`. */
  ghost predicate StrideRead(tables: seq<seq<Option<Ppa>>>, flash: nat, first: nat, endLpn: nat, cmds: seq<ReadCmd>)
    requires 0 < flash && 0 < |tables| && first <= endLpn
  {
    var tbl := tables[first % |tables|];
    ReadsAll(tbl, flash, cmds, MappedIn(tbl, first / |tables|, StrideEnd(first, |tables|, endLpn)))
  }

  /** One more stride. */
  lemma AddStride(tables: seq<seq<Option<Ppa>>>, flash: nat, start: nat, endLpn: nat, cmds: seq<seq<ReadCmd>>,
                  c: seq<ReadCmd>)
    requires 0 < flash && |cmds| < |tables| && start + |cmds| <= endLpn
    requires ReadOnce(tables, flash, start, cmds, MappedBy(tables, start, endLpn, |cmds|))
    requires StrideRead(tables, flash, start + |cmds|, endLpn, c)
    ensures ReadOnce(tables, flash, start, cmds + [c], MappedBy(tables, start, endLpn, |cmds| + 1))
  {
    hide MappedBy, StrideLpns, StrideGroups, StrideRead, StridesRead;
    var all, stride := MappedBy(tables, start, endLpn, |cmds|), StrideLpns(tables, start + |cmds|, endLpn);
    var groups :| StridesRead(tables, flash, start, cmds, groups, all);
    StrideMeets(tables, start, endLpn, |cmds|);
    var g := LiftStride(tables, flash, start + |cmds|, endLpn, c);
    AppendStride(tables, flash, start, cmds, groups, all, c, g, stride);
  }

  lemma AppendStride(tables: seq<seq<Option<Ppa>>>, flash: nat, start: nat,
                     cmds: seq<seq<ReadCmd>>, groups: seq<seq<set<nat>>>, all: set<nat>,
                     c: seq<ReadCmd>, g: seq<set<nat>>, stride: set<nat>)
    requires 0 < flash && 0 < |tables| && StridesRead(tables, flash, start, cmds, groups, all)
    requires StrideGroups(tables, flash, start + |cmds|, c, g)
    requires Union(g) == stride && TotalPages(c) == |stride| && all !! stride
    ensures StridesRead(tables, flash, start, cmds + [c], groups + [g], all + stride)
  {
    hide StrideGroups, Union, TotalPages;
    assert (groups + [g])[..|groups|] == groups && (cmds + [c])[..|cmds|] == cmds;
    assert |all + stride| == |all| + |stride|;
  }

  lemma LiftStride(tables: seq<seq<Option<Ppa>>>, flash: nat, first: nat, endLpn: nat, c: seq<ReadCmd>)
    returns (g: seq<set<nat>>)
    requires 0 < flash && 0 < |tables| && first <= endLpn && StrideRead(tables, flash, first, endLpn, c)
    ensures StrideGroups(tables, flash, first, c, g)
    ensures Union(g) == StrideLpns(tables, first, endLpn) && TotalPages(c) == |StrideLpns(tables, first, endLpn)|
  {
    hide Covers, MappedIn, ReadsLpns, Lift, StrideEnd;
    var n := |tables|;
    var tbl, idx := tables[first % n], MappedIn(tables[first % n], first / n, StrideEnd(first, n, endLpn));
    var h :| Covers(tbl, flash, c, h, idx);
    LiftCovers(tables, flash, first % n, c, h, idx);
    g := LiftAll(h, first % n, n);
  }

  lemma LiftCovers(tables: seq<seq<Option<Ppa>>>, flash: nat, part: nat, c: seq<ReadCmd>, g: seq<set<nat>>,
                   idx: set<nat>)
    requires 0 < flash && part < |tables| && Covers(tables[part], flash, c, g, idx)
    ensures |g| == |c| && forall j :: 0 <= j < |c| ==>
              ReadsLpns(tables, flash, part, c[j], LiftAll(g, part, |tables|)[j])
    ensures Union(LiftAll(g, part, |tables|)) == Lift(idx, part, |tables|)
    ensures TotalPages(c) == |Lift(idx, part, |tables|)|
  {
    hide SameFlashPage, LpnAt;
    var n := |tables|;
    LiftUnion(g, part, n);
    LiftCount(idx, part, n);
    forall j | 0 <= j < |c| ensures ReadsLpns(tables, flash, part, c[j], LiftAll(g, part, n)[j]) {
      assert Reads(tables[part], flash, c[j], g[j]);
      LiftCount(g[j], part, n);
      forall k | k in g[j]
        ensures var l := LpnAt(k, part, n); l % n == part && l / n == k
      {
        LpnAtParts(k, part, n);
      }
    }
  }

  lemma NoStrides(tables: seq<seq<Option<Ppa>>>, flash: nat, startLpn: nat, endLpn: nat)
    requires 0 < flash && 0 < |tables|
    ensures ReadOnce(tables, flash, startLpn, [], MappedBy(tables, startLpn, endLpn, 0))
  {
    assert MappedBy(tables, startLpn, endLpn, 0) == {};
    assert StridesRead(tables, flash, startLpn, [], [], {});
  }

  lemma Remainder(d: nat, n: nat)
    requires 0 < n
    ensures d % n < n && d % n <= d
  {
    assert d == n * (d / n) + d % n;
    MulMonotone(n, 0, d / n);
  }

  /** A stride per partition, or one per LPN if there are fewer, comes by the whole range. */
  lemma AllStrides(tables: seq<seq<Option<Ppa>>>, startLpn: nat, endLpn: nat, n: nat)
    requires 0 < |tables| && (n == |tables| || endLpn < startLpn + n)
    ensures MappedBy(tables, startLpn, endLpn, n) == MappedRange(tables, startLpn, endLpn)
  {
    hide MappedRange;
    forall l | l in MappedRange(tables, startLpn, endLpn) ensures startLpn <= l && (l - startLpn) % |tables| < n {
      RangeStart(tables, startLpn, endLpn, l);
      Remainder(l - startLpn, |tables|);
    }
  }

  /** conv_read: refuses a range beyond the device, otherwise runs one stride per partition.  The
      strides together read every mapped LPN of the range exactly once, and nothing else. */
  method Read(tables: seq<seq<Option<Ppa>>>, flash: nat, ttPgs: nat, startLpn: nat, endLpn: nat)
    returns (ok: bool, cmds: seq<seq<ReadCmd>>)
    requires 0 < flash && 0 < |tables| && startLpn <= endLpn
    requires forall p :: 0 <= p < |tables| ==> |tables[p]| == ttPgs && Injective(tables[p])
    ensures ok <==> endLpn / |tables| < ttPgs
    ensures ok ==> |cmds| == if endLpn - startLpn + 1 < |tables| then endLpn - startLpn + 1 else |tables|
    ensures ok ==> ReadOnce(tables, flash, startLpn, cmds, MappedRange(tables, startLpn, endLpn))
    ensures ok ==> forall i :: 0 <= i < |cmds| ==> Joined(flash, cmds[i])
  {
    hide Joined, Injective, ReadsAll, StrideEnd, ReadOnce, MappedBy, MappedRange, MappedIn;
    cmds := [];
    var nrParts := |tables|;
    if endLpn / nrParts >= ttPgs {
      return false, cmds;
    }
    ok := true;
    NoStrides(tables, flash, startLpn, endLpn);
    var i := 0;
    while i < nrParts && startLpn + i <= endLpn
      invariant 0 <= i <= nrParts && startLpn + i <= endLpn + 1 && |cmds| == i
      invariant ReadOnce(tables, flash, startLpn, cmds, MappedBy(tables, startLpn, endLpn, i))
      invariant forall j :: 0 <= j < i ==> Joined(flash, cmds[j])
    {
      var c := ReadStride(tables[(startLpn + i) % nrParts], flash, nrParts, startLpn + i, endLpn);
      AddStride(tables, flash, startLpn, endLpn, cmds, c);
      cmds := cmds + [c];
      i := i + 1;
    }
    AllStrides(tables, startLpn, endLpn, i);
  }
}
