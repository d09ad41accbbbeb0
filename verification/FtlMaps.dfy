/** The forward and reverse maps of conv_ftl.c as values.  Between commands `maptbl` and `rmap`
    are inverse bijections between mapped LPNs and VALID pages; while a line is collected its
    already copied pages stay VALID with a stale `rmap` entry, and are left out. */
module FtlMaps {
  import opened Options
  import opened Geometry
  import opened FtlLines

  /** rmap entry of a page that holds nothing (INVALID_LPN). */
  const INVALID_LPN: int := -1

  /** A page that holds current data: VALID, and not one of the pages `moved` out of the line
      being collected. */
  predicate Live(status: map<Ppa, PgStatus>, collecting: int, moved: set<Slot>, p: Ppa) {
    p in status && status[p] == PgValid && !(p.blk == collecting && p.at in moved)
  }

  /** maptbl and rmap are inverse to each other on the live pages. */
  ghost predicate Inverse(maptbl: seq<Option<Ppa>>, rmap: map<Ppa, int>, status: map<Ppa, PgStatus>,
                          collecting: int, moved: set<Slot>)
  {
    && rmap.Keys == status.Keys
    && (forall l: nat :: l < |maptbl| && maptbl[l].Some? ==>
          Live(status, collecting, moved, maptbl[l].value) && rmap[maptbl[l].value] == l)
    && (forall p :: Live(status, collecting, moved, p) ==>
          0 <= rmap[p] < |maptbl| && maptbl[rmap[p]] == Some(p))
  }

  /** No two LPNs share a page. */
  lemma MapInjective(maptbl: seq<Option<Ppa>>, rmap: map<Ppa, int>, status: map<Ppa, PgStatus>,
                     collecting: int, moved: set<Slot>, l: nat, k: nat)
    requires Inverse(maptbl, rmap, status, collecting, moved)
    requires l < |maptbl| && k < |maptbl| && maptbl[l].Some? && maptbl[l] == maptbl[k]
    ensures l == k
  {
    assert rmap[maptbl[l].value] == l;
  }

  // ---------- the logical view ----------

  /** What each mapped LPN reads as.  A payload number stands for the content of a page. */
  ghost function View(maptbl: seq<Option<Ppa>>, data: map<Ppa, int>): map<nat, int> {
    map l: nat | l < |maptbl| && maptbl[l].Some? :: Payload(data, maptbl[l].value)
  }

  function Payload(data: map<Ppa, int>, p: Ppa): int {
    if p in data then data[p] else 0
  }

  // ---------- one page write of conv_write ----------

  /** The state a page write goes through: the old page is invalidated and its rmap entry cleared
      first, then the new page is mapped and programmed. */
  datatype Maps = Maps(maptbl: seq<Option<Ppa>>, rmap: map<Ppa, int>, status: map<Ppa, PgStatus>)

  function AfterUnmap(m: Maps, lpn: nat): Maps
    requires lpn < |m.maptbl|
  {
    match m.maptbl[lpn]
    case None => m
    case Some(o) => m.(status := m.status[o := PgInvalid], rmap := m.rmap[o := INVALID_LPN])
  }

  function AfterMap(m: Maps, lpn: nat, p: Ppa): Maps
    requires lpn < |m.maptbl|
  {
    Maps(m.maptbl[lpn := Some(p)], m.rmap[p := lpn], m.status[p := PgValid])
  }

  /** From `m` to `n` exactly LPN `lpn` was rewritten, at page `p`. */
  ghost predicate Rewritten(m: Maps, n: Maps, lpn: nat, p: Ppa) {
    lpn < |m.maptbl| && n == AfterMap(AfterUnmap(m, lpn), lpn, p)
  }

  /** Overwriting an LPN keeps the two maps inverse. */
  lemma OverwriteKeepsInverse(m: Maps, lpn: nat, p: Ppa)
    requires Inverse(m.maptbl, m.rmap, m.status, -1, {}) && lpn < |m.maptbl|
    requires p in m.status && m.status[p] == PgFree
    ensures var n := AfterMap(AfterUnmap(m, lpn), lpn, p); Inverse(n.maptbl, n.rmap, n.status, -1, {})
  {
    var u := AfterUnmap(m, lpn);
    var n := AfterMap(u, lpn, p);
    forall l: nat | l < |n.maptbl| && n.maptbl[l].Some?
      ensures Live(n.status, -1, {}, n.maptbl[l].value) && n.rmap[n.maptbl[l].value] == l
    {
      if l != lpn {
        assert m.maptbl[l] == n.maptbl[l];
        assert m.maptbl[l].value != p;
        if m.maptbl[lpn].Some? && m.maptbl[lpn] == m.maptbl[l] {
          MapInjective(m.maptbl, m.rmap, m.status, -1, {}, l, lpn);
        }
      }
    }
    forall q | Live(n.status, -1, {}, q)
      ensures 0 <= n.rmap[q] < |n.maptbl| && n.maptbl[n.rmap[q]] == Some(q)
    {
      if q != p {
        assert Live(m.status, -1, {}, q);
        assert m.maptbl[m.rmap[q]] == Some(q);
      }
    }
  }

  /** A page write changes the view at its own LPN only. */
  lemma OverwriteView(m: Maps, data: map<Ppa, int>, lpn: nat, p: Ppa, payload: int)
    requires Inverse(m.maptbl, m.rmap, m.status, -1, {}) && lpn < |m.maptbl|
    requires p in m.status && m.status[p] == PgFree
    ensures View(m.maptbl[lpn := Some(p)], data[p := payload]) == View(m.maptbl, data)[lpn := payload]
  {
    var t := m.maptbl[lpn := Some(p)];
    forall l: nat | l < |t| && t[l].Some? && l != lpn
      ensures t[l].value != p
    {
      assert m.maptbl[l] == t[l];
    }
  }

  // ---------- one page copy of gc_write_page ----------

  /** Copying a live page of the collected line keeps the maps inverse; the old page joins the
      moved ones. */
  lemma CopyKeepsInverse(m: Maps, v: int, moved: set<Slot>, o: Ppa, p: Ppa)
    requires Inverse(m.maptbl, m.rmap, m.status, v, moved)
    requires Live(m.status, v, moved, o) && o.blk == v
    requires p in m.status && m.status[p] == PgFree && p.blk != v
    ensures 0 <= m.rmap[o] < |m.maptbl| && m.maptbl[m.rmap[o]] == Some(o)
    ensures var n := AfterMap(m, m.rmap[o], p); Inverse(n.maptbl, n.rmap, n.status, v, moved + {o.at})
  {
    var lpn := m.rmap[o];
    var n := AfterMap(m, lpn, p);
    forall l: nat | l < |n.maptbl| && n.maptbl[l].Some?
      ensures Live(n.status, v, moved + {o.at}, n.maptbl[l].value) && n.rmap[n.maptbl[l].value] == l
    {
      if l != lpn {
        assert m.maptbl[l] == n.maptbl[l];
        assert m.maptbl[l].value != p;
        assert m.maptbl[l].value != o;
        assert o == Ppa(o.blk, o.at) && m.maptbl[l].value == Ppa(m.maptbl[l].value.blk, m.maptbl[l].value.at);
      }
    }
    forall q | Live(n.status, v, moved + {o.at}, q)
      ensures 0 <= n.rmap[q] < |n.maptbl| && n.maptbl[n.rmap[q]] == Some(q)
    {
      if q != p {
        assert Live(m.status, v, moved, q);
        assert q != o;
        assert m.maptbl[m.rmap[q]] == Some(q);
      }
    }
  }

  /** Copying a page together with its content leaves the view as it was. */
  lemma CopyView(m: Maps, data: map<Ppa, int>, v: int, moved: set<Slot>, o: Ppa, p: Ppa)
    requires Inverse(m.maptbl, m.rmap, m.status, v, moved)
    requires Live(m.status, v, moved, o)
    requires p in m.status && m.status[p] == PgFree
    ensures 0 <= m.rmap[o] < |m.maptbl|
    ensures View(m.maptbl[m.rmap[o] := Some(p)], data[p := Payload(data, o)]) == View(m.maptbl, data)
  {
    var t := m.maptbl[m.rmap[o] := Some(p)];
    assert m.maptbl[m.rmap[o]] == Some(o);
    forall l: nat | l < |t| && t[l].Some? && l != m.rmap[o]
      ensures t[l].value != p
    {
      assert m.maptbl[l] == t[l];
    }
  }

  /** Only the live pages matter to the maps. */
  lemma SameLiveKeepsInverse(m: Maps, v: int, moved: set<Slot>, status': map<Ppa, PgStatus>, v': int, moved': set<Slot>)
    requires Inverse(m.maptbl, m.rmap, m.status, v, moved) && status'.Keys == m.status.Keys
    requires forall p :: Live(status', v', moved', p) <==> Live(m.status, v, moved, p)
    ensures Inverse(m.maptbl, m.rmap, status', v', moved')
  {
  }

  // ---------- counting ----------

  ghost function MappedLpns(maptbl: seq<Option<Ppa>>): set<nat> {
    set l: nat | l < |maptbl| && maptbl[l].Some?
  }

  ghost function PagesIn(status: map<Ppa, PgStatus>, x: PgStatus): set<Ppa> {
    set p | p in status && status[p] == x
  }

  /** A set of pages with distinct reverse-map entries is no larger than the entries' range. */
  lemma {:induction false} ImageBound(S: set<Ppa>, T: set<nat>, rmap: map<Ppa, int>)
    requires forall p :: p in S ==> p in rmap && 0 <= rmap[p] && rmap[p] in T
    requires forall p, q :: p in S && q in S && p != q ==> rmap[p] != rmap[q]
    ensures |S| <= |T|
  {
    if S != {} {
      var p :| p in S;
      ImageBound(S - {p}, T - {rmap[p]}, rmap);
    }
  }

  /** Between commands there are no more VALID pages than mapped LPNs. */
  lemma ValidPagesMapped(m: Maps)
    requires Inverse(m.maptbl, m.rmap, m.status, -1, {})
    ensures |PagesIn(m.status, PgValid)| <= |MappedLpns(m.maptbl)|
  {
    forall p | p in PagesIn(m.status, PgValid)
      ensures 0 <= m.rmap[p] < |m.maptbl| && m.maptbl[m.rmap[p]] == Some(p)
    {
      assert Live(m.status, -1, {}, p);
    }
    ImageBound(PagesIn(m.status, PgValid), MappedLpns(m.maptbl), m.rmap);
  }

  /** A set of LPNs with distinct pages is no larger than the pages' range. */
  lemma {:induction false} PreimageBound(S: set<nat>, T: set<Ppa>, maptbl: seq<Option<Ppa>>)
    requires forall l :: l in S ==> l < |maptbl| && maptbl[l].Some? && maptbl[l].value in T
    requires forall l, k :: l in S && k in S && l != k ==> maptbl[l] != maptbl[k]
    ensures |S| <= |T|
  {
    if S != {} {
      var l :| l in S;
      PreimageBound(S - {l}, T - {maptbl[l].value}, maptbl);
    }
  }

  /** ... and no fewer: mapped LPNs and VALID pages are equally many. */
  lemma MappedEqualsValid(m: Maps)
    requires Inverse(m.maptbl, m.rmap, m.status, -1, {})
    ensures |MappedLpns(m.maptbl)| == |PagesIn(m.status, PgValid)|
  {
    ValidPagesMapped(m);
    forall l, k | l in MappedLpns(m.maptbl) && k in MappedLpns(m.maptbl) && l != k
      ensures m.maptbl[l] != m.maptbl[k]
    {
      assert m.rmap[m.maptbl[l].value] == l && m.rmap[m.maptbl[k].value] == k;
    }
    forall l | l in MappedLpns(m.maptbl) ensures m.maptbl[l].value in PagesIn(m.status, PgValid) {
      assert Live(m.status, -1, {}, m.maptbl[l].value);
    }
    PreimageBound(MappedLpns(m.maptbl), PagesIn(m.status, PgValid), m.maptbl);
  }

  /** The two facts about one page write, as conv_write finds the state after clearing the old
      page. */
  lemma OverwriteStep(m: Maps, data: map<Ppa, int>, lpn: nat, p: Ppa, payload: int)
    requires Inverse(m.maptbl, m.rmap, m.status, -1, {}) && lpn < |m.maptbl|
    requires p in m.status && AfterUnmap(m, lpn).status[p] == PgFree
    ensures var n := AfterMap(AfterUnmap(m, lpn), lpn, p);
            && Inverse(n.maptbl, n.rmap, n.status, -1, {})
            && View(n.maptbl, data[p := payload]) == View(m.maptbl, data)[lpn := payload]
  {
    hide Inverse, View;
    OverwriteKeepsInverse(m, lpn, p);
    OverwriteView(m, data, lpn, p, payload);
  }
}
