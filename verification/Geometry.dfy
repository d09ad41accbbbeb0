/** Flash geometry: the derived fields of ssd_init_params (ssd.c), the page index of
    ppa2pgidx, and the order in which a write pointer visits the pages of a line
    (advance_write_pointer, conv_ftl.c).  One plane per LUN, as ssd_config.h sets it. */
module Geometry {
  import opened Arithmetic

  /** The page coordinates inside a line; the line number is the block number. */
  datatype Slot = Slot(ch: int, lun: int, pg: int)

  /** A physical page address (struct ppa). */
  datatype Ppa = Ppa(blk: int, at: Slot)

  /** A flash block. */
  datatype Blk = Blk(blk: int, ch: int, lun: int)

  /** The independent fields of struct ssdparams that fix the page layout. */
  datatype Geo = Geo(
    nchs: nat,
    lunsPerCh: nat,
    pgsPerOneshotpg: nat,
    oneshotpgsPerBlk: nat,
    pgsPerFlashpg: nat,
    blksPerPl: nat)
  {
    predicate Ok() {
      && 0 < nchs && 0 < lunsPerCh && 0 < pgsPerOneshotpg && 0 < oneshotpgsPerBlk
      && 0 < pgsPerFlashpg && 0 < blksPerPl
      && pgsPerOneshotpg % pgsPerFlashpg == 0
    }

    function PgsPerBlk(): nat { pgsPerOneshotpg * oneshotpgsPerBlk }
    function FlashpgsPerBlk(): nat requires 0 < pgsPerFlashpg {
      pgsPerOneshotpg / pgsPerFlashpg * oneshotpgsPerBlk
    }
    function PgsPerLun(): nat { PgsPerBlk() * blksPerPl }
    function PgsPerCh(): nat { PgsPerLun() * lunsPerCh }
    function TtPgs(): nat { PgsPerCh() * nchs }
    function TtLuns(): nat { lunsPerCh * nchs }
    function PgsPerLine(): nat { TtLuns() * PgsPerBlk() }
    function TtLines(): nat { blksPerPl }

    predicate SlotOk(s: Slot) {
      0 <= s.ch < nchs && 0 <= s.lun < lunsPerCh && 0 <= s.pg < PgsPerBlk()
    }

    /** valid_ppa */
    predicate PpaOk(p: Ppa) {
      SlotOk(p.at) && 0 <= p.blk < blksPerPl
    }

    /** ppa2pgidx */
    function PgIdx(p: Ppa): int {
      p.at.ch * PgsPerCh() + p.at.lun * PgsPerLun() + p.blk * PgsPerBlk() + p.at.pg
    }
  }

  // ---------- mixed radix ----------

  /** Appending a digit `r` below radix `m` to a number below `n` gives a number below `n * m`. */
  lemma DigitBound(q: int, n: int, m: int, r: int)
    requires 0 <= q < n && 0 <= r < m
    ensures 0 <= q * m + r < n * m
  {
    MulMonotone(m, 0, q);
    MulMonotone(m, q, n - 1);
    assert m * (n - 1) == n * m - m;
    assert m * q == q * m;
  }

  lemma DigitsBack(x: int, n: int, m: int)
    requires 0 < m && 0 <= x < n * m
    ensures 0 <= x / m < n && 0 <= x % m < m && x == x / m * m + x % m
  {
    if x / m >= n {
      MulMonotone(m, n, x / m);
    }
  }

  /** The number with leading part `q` and last digit `r` in radix `m`. */
  function Join(q: int, m: int, r: int): int { q * m + r }

  function Scale(n: int, m: int): int { n * m }

  lemma JoinSplit(q: int, m: int, r: int)
    requires 0 <= r < m
    ensures Join(q, m, r) / m == q && Join(q, m, r) % m == r
  {
    DivModUnique(q, m, r);
  }

  lemma JoinBound(q: int, n: int, m: int, r: int)
    requires 0 <= q < n && 0 <= r < m
    ensures 0 <= Join(q, m, r) < Scale(n, m)
    ensures Join(q, m, r) == Scale(n, m) - 1 <==> q == n - 1 && r == m - 1
  {
    DigitBound(q, n, m, r);
    assert (n - 1) * m == n * m - m;
    if q < n - 1 {
      DigitBound(q, n - 1, m, r);
    }
  }

  lemma JoinNext(q: int, m: int, r: int)
    ensures Join(q, m, r) + 1 == Join(q, m, r + 1)
    ensures r + 1 == m ==> Join(q, m, r) + 1 == Join(q + 1, m, 0)
  {
    assert (q + 1) * m == q * m + m;
  }

  lemma JoinBack(x: int, n: int, m: int)
    requires 0 < m && 0 <= x < Scale(n, m)
    ensures 0 <= x / m < n && 0 <= x % m < m && x == Join(x / m, m, x % m)
  {
    DigitsBack(x, n, m);
  }

  // ---------- identities of ssd_init_params ----------

  lemma DivMul(a: int, b: int)
    requires 0 < b && a % b == 0
    ensures a / b * b == a
  {
  }

  /** Flash pages tile a block, blocks tile a line, and lines tile the device. */
  lemma GeometryIdentities(g: Geo)
    requires g.Ok()
    ensures g.FlashpgsPerBlk() * g.pgsPerFlashpg == g.PgsPerBlk()
    ensures g.PgsPerLine() * g.TtLines() == g.TtPgs()
    ensures 0 < g.PgsPerBlk() <= g.PgsPerLine()
  {
    var f, o, n := g.pgsPerFlashpg, g.pgsPerOneshotpg, g.oneshotpgsPerBlk;
    DivMul(o, f);
    assert (o / f * n) * f == (o / f * f) * n;
    var b, l, c, k := g.PgsPerBlk(), g.lunsPerCh, g.nchs, g.blksPerPl;
    assert (l * c * b) * k == b * k * l * c;
    MulMonotone(n, 1, o);
    assert n * o == o * n;
    MulMonotone(c, 1, l);
    assert c * l == l * c;
    MulMonotone(b, 1, l * c);
    assert b * (l * c) == l * c * b;
  }

  /** Flash page `i` of a block ends inside the block, and the last one ends where the block does. */
  lemma FlashPageEnds(g: Geo, i: nat)
    requires g.Ok() && i < g.FlashpgsPerBlk()
    ensures i * g.pgsPerFlashpg + g.pgsPerFlashpg <= g.PgsPerBlk()
    ensures i == g.FlashpgsPerBlk() - 1 ==> i * g.pgsPerFlashpg + g.pgsPerFlashpg == g.PgsPerBlk()
    ensures (i + 1) * g.pgsPerFlashpg == i * g.pgsPerFlashpg + g.pgsPerFlashpg
  {
    GeometryIdentities(g);
    var n, f := g.FlashpgsPerBlk(), g.pgsPerFlashpg;
    assert (i + 1) * f == i * f + f;
    MulMonotone(f, i + 1, n);
    assert f * (i + 1) == (i + 1) * f && f * n == n * f;
  }

  lemma HasFlashPages(g: Geo)
    requires g.Ok()
    ensures 0 < g.FlashpgsPerBlk()
  {
    GeometryIdentities(g);
  }

  /** The configuration constants ssd_init_params reads. */
  datatype Config = Config(
    pgsz: nat, nandChannels: nat, lunsPerCh: nat, blksPerPln: nat, blkSize: nat,
    oneshotSize: nat, flashSize: nat)
  {
    /** The BUG_ON conditions of ssd_init_params, and non-zero divisors. */
    predicate Ok(nparts: nat) {
      && 0 < pgsz && 0 < nparts && 0 < lunsPerCh && 0 < flashSize && 0 < oneshotSize
      && nparts <= nandChannels && nandChannels % nparts == 0
      && oneshotSize % pgsz == 0 && flashSize % pgsz == 0 && oneshotSize % flashSize == 0
      && (blksPerPln == 0 ==> 0 < blkSize)
    }
  }

  lemma ProductPositive(a: nat, b: nat)
    requires 0 < a && 0 < b
    ensures 0 < a * b
  {
    MulMonotone(a, 1, b);
  }

  /** ssd_init_params for one of `nparts` partitions of `capacity` bytes. */
  function InitParams(c: Config, capacity: nat, nparts: nat): Geo
    requires c.Ok(nparts)
  {
    var nchs := c.nandChannels / nparts;
    ProductPositive(c.lunsPerCh, nchs);
    var luns := c.lunsPerCh * nchs;
    var cap := capacity / nparts;
    if c.blksPerPln > 0 then
      ProductPositive(c.blksPerPln, luns);
      var blkBytes := DivRoundUp(cap, c.blksPerPln * luns);
      Geo(nchs, c.lunsPerCh, c.oneshotSize / c.pgsz, DivRoundUp(blkBytes, c.oneshotSize),
          c.flashSize / c.pgsz, c.blksPerPln)
    else
      ProductPositive(c.blkSize, luns);
      Geo(nchs, c.lunsPerCh, c.oneshotSize / c.pgsz, DivRoundUp(c.blkSize, c.oneshotSize),
          c.flashSize / c.pgsz, DivRoundUp(cap, c.blkSize * luns))
  }

  /** The layout ssd_init_params computes is well formed, and its pages hold the partition's share
      of the requested capacity. */
  lemma InitParamsFits(c: Config, capacity: nat, nparts: nat)
    requires c.Ok(nparts) && 0 < capacity / nparts
    ensures var g := InitParams(c, capacity, nparts);
            g.Ok() && capacity / nparts <= g.TtPgs() * c.pgsz
  {
    var nchs := c.nandChannels / nparts;
    var cap := capacity / nparts;
    var g := InitParams(c, capacity, nparts);
    ProductPositive(c.lunsPerCh, nchs);
    var luns := c.lunsPerCh * nchs;
    QuotientDivides(c.oneshotSize, c.flashSize, c.pgsz);
    if c.blksPerPln > 0 {
      ProductPositive(c.blksPerPln, luns);
      var blk := DivRoundUp(cap, c.blksPerPln * luns);
      DivRoundUpBound(cap, c.blksPerPln * luns);
      BlocksHold(g, c, cap, blk);
    } else {
      ProductPositive(c.blkSize, luns);
      DivRoundUpBound(cap, c.blkSize * luns);
      Regroup(g.blksPerPl, c.blkSize, luns);
      BlocksHold(g, c, cap, c.blkSize);
    }
  }

  /** Every field of the layout, from the bytes it stands for: channels of a partition, pages of a
      one-shot page and of a flash page, and the fewest wordlines or blocks that hold what is asked. */
  lemma InitParamsAre(c: Config, capacity: nat, nparts: nat)
    requires c.Ok(nparts) && 0 < capacity / nparts
    ensures var g := InitParams(c, capacity, nparts);
            var luns := c.lunsPerCh * g.nchs;
            var rows := g.oneshotpgsPerBlk;
            && g.nchs * nparts == c.nandChannels && g.lunsPerCh == c.lunsPerCh
            && g.pgsPerOneshotpg * c.pgsz == c.oneshotSize && g.pgsPerFlashpg * c.pgsz == c.flashSize
            && if 0 < c.blksPerPln
               then g.blksPerPl == c.blksPerPln
                    && Fewest(rows, c.oneshotSize * (c.blksPerPln * luns), capacity / nparts)
               else Fewest(rows, c.oneshotSize, c.blkSize) && Fewest(g.blksPerPl, c.blkSize * luns, capacity / nparts)
  {
    var nchs, cap := c.nandChannels / nparts, capacity / nparts;
    var luns := c.lunsPerCh * nchs;
    DivMul(c.nandChannels, nparts);
    DivMul(c.oneshotSize, c.pgsz);
    DivMul(c.flashSize, c.pgsz);
    ProductPositive(c.lunsPerCh, nchs);
    if 0 < c.blksPerPln {
      ProductPositive(c.blksPerPln, luns);
      TwoRoundings(cap, c.blksPerPln * luns, c.oneshotSize);
    } else {
      ProductPositive(c.blkSize, luns);
      RoundUpIsFewest(c.blkSize, c.oneshotSize);
      RoundUpIsFewest(cap, c.blkSize * luns);
    }
  }

  /** `n` units are enough for `total`, and one less is not. */
  predicate Fewest(n: nat, unit: nat, total: nat) {
    total <= n * unit && (n - 1) * unit < total
  }

  lemma RoundUpIsFewest(a: nat, b: nat)
    requires 0 < a && 0 < b
    ensures Fewest(DivRoundUp(a, b), b, a)
  {
    DivRoundUpBound(a, b);
    assert (DivRoundUp(a, b) - 1) * b == DivRoundUp(a, b) * b - b;
  }

  /** Rounding up twice is rounding up once. */
  lemma TwoRoundings(a: nat, b: nat, c: nat)
    requires 0 < a && 0 < b && 0 < c
    ensures Fewest(DivRoundUp(DivRoundUp(a, b), c), c * b, a)
  {
    hide DivRoundUp;
    var x := DivRoundUp(a, b);
    DivRoundUpBound(a, b);
    var y := DivRoundUp(x, c);
    RoundUpIsFewest(a, b);
    RoundUpIsFewest(x, c);
    MulMonotone(b, x, y * c);
    assert b * (y * c) == y * (c * b) && b * x == x * b;
    MulMonotone(b, (y - 1) * c, x - 1);
    assert b * ((y - 1) * c) == (y - 1) * (c * b) && b * (x - 1) == (x - 1) * b;
  }

  lemma Regroup(a: nat, b: nat, c: nat)
    ensures a * (b * c) == b * (a * c)
  {
  }

  lemma BlocksHold(g: Geo, c: Config, cap: nat, blk: nat)
    requires 0 < c.pgsz && 0 < blk && 0 < c.oneshotSize && c.oneshotSize % c.pgsz == 0
    requires g.pgsPerOneshotpg == c.oneshotSize / c.pgsz && g.oneshotpgsPerBlk == DivRoundUp(blk, c.oneshotSize)
    requires cap <= blk * (g.blksPerPl * (g.lunsPerCh * g.nchs))
    ensures 0 < g.oneshotpgsPerBlk && cap <= g.TtPgs() * c.pgsz
  {
    hide DivRoundUp;
    DivRoundUpBound(blk, c.oneshotSize);
    DivMul(c.oneshotSize, c.pgsz);
    var rows, luns := g.oneshotpgsPerBlk, g.lunsPerCh * g.nchs;
    assert g.PgsPerBlk() * c.pgsz == rows * c.oneshotSize by {
      assert g.pgsPerOneshotpg * rows * c.pgsz == rows * (g.pgsPerOneshotpg * c.pgsz);
    }
    MulMonotone(g.blksPerPl * luns, blk, rows * c.oneshotSize);
    PagesOfDevice(g, c.pgsz);
  }

  lemma PagesOfDevice(g: Geo, sz: nat)
    ensures g.TtPgs() * sz == g.PgsPerBlk() * sz * (g.blksPerPl * (g.lunsPerCh * g.nchs))
  {
    var b, k, l, c := g.PgsPerBlk(), g.blksPerPl, g.lunsPerCh, g.nchs;
    assert b * k * l * c == b * (k * (l * c));
    assert b * (k * (l * c)) * sz == b * sz * (k * (l * c));
  }

  /** Page counts of whole units divide as the byte counts do. */
  lemma QuotientDivides(big: nat, mid: nat, small: nat)
    requires 0 < small && 0 < mid && mid % small == 0 && big % mid == 0 && 0 < big
    ensures big % small == 0 && 0 < mid / small && (big / small) % (mid / small) == 0 && 0 < big / small
  {
    var m, f := big / mid, mid / small;
    assert big == m * mid && mid == f * small;
    assert big == (m * f) * small;
    DivModUnique(m * f, small, 0);
    assert 0 < f by {
      if f <= 0 {
        MulMonotone(small, f, 0);
      }
    }
    DivModUnique(m, f, 0);
    assert 0 < m by {
      if m <= 0 {
        MulMonotone(mid, m, 0);
      }
    }
    ProductPositive(m, f);
  }

  // ---------- ppa2pgidx ----------

  lemma PgIdxInRange(g: Geo, p: Ppa)
    requires g.Ok() && g.PpaOk(p)
    ensures 0 <= g.PgIdx(p) < g.TtPgs()
    ensures g.PgIdx(p) == ((p.at.ch * g.lunsPerCh + p.at.lun) * g.blksPerPl + p.blk) * g.PgsPerBlk() + p.at.pg
  {
    var b, k, l, c := g.PgsPerBlk(), g.blksPerPl, g.lunsPerCh, g.nchs;
    var ch, lun, blk := p.at.ch, p.at.lun, p.blk;
    DigitBound(ch, c, l, lun);
    DigitBound(ch * l + lun, c * l, k, blk);
    DigitBound((ch * l + lun) * k + blk, c * l * k, b, p.at.pg);
    assert c * l * k * b == b * k * l * c;
    assert ((ch * l + lun) * k + blk) * b == ch * (b * k * l) + lun * (b * k) + blk * b;
  }

  /** ppa2pgidx is a bijection between the valid addresses and [0, tt_pgs): distinct pages have
      distinct reverse-map slots ... */
  lemma PgIdxInjective(g: Geo, p: Ppa, q: Ppa)
    requires g.Ok() && g.PpaOk(p) && g.PpaOk(q) && g.PgIdx(p) == g.PgIdx(q)
    ensures p == q
  {
    PgIdxInRange(g, p);
    PgIdxInRange(g, q);
    var b, k, l := g.PgsPerBlk(), g.blksPerPl, g.lunsPerCh;
    var p1 := p.at.ch * l + p.at.lun;
    var q1 := q.at.ch * l + q.at.lun;
    DivModUnique(p1 * k + p.blk, b, p.at.pg);
    DivModUnique(q1 * k + q.blk, b, q.at.pg);
    DivModUnique(p1, k, p.blk);
    DivModUnique(q1, k, q.blk);
    DivModUnique(p.at.ch, l, p.at.lun);
    DivModUnique(q.at.ch, l, q.at.lun);
  }

  /** ... and every reverse-map slot belongs to a page. */
  lemma PgIdxSurjective(g: Geo, idx: nat) returns (p: Ppa)
    requires g.Ok() && idx < g.TtPgs()
    ensures g.PpaOk(p) && g.PgIdx(p) == idx
  {
    var b, k, l, c := g.PgsPerBlk(), g.blksPerPl, g.lunsPerCh, g.nchs;
    assert c * l * k * b == b * k * l * c;
    GeometryIdentities(g);
    DigitsBack(idx, c * l * k, b);
    var x := idx / b;
    DigitsBack(x, c * l, k);
    var y := x / k;
    DigitsBack(y, c, l);
    p := Ppa(x % k, Slot(y / l, y % l, idx % b));
    PgIdxInRange(g, p);
  }

  // ---------- the write order of a line ----------

  /** The `k`-th page a write pointer visits: inside a wordline first, then across channels, then
      across LUNs, then the next wordline. */
  function SlotAt(g: Geo, k: int): Slot
    requires g.Ok()
  {
    var q := k / g.pgsPerOneshotpg;
    var r := q / g.nchs;
    Slot(q % g.nchs, r % g.lunsPerCh, Join(r / g.lunsPerCh, g.pgsPerOneshotpg, k % g.pgsPerOneshotpg))
  }

  /** The place of a page in that order. */
  function OffsetOf(g: Geo, s: Slot): int
    requires g.Ok()
  {
    JoinAll(g, s.pg / g.pgsPerOneshotpg, s.lun, s.ch, s.pg % g.pgsPerOneshotpg)
  }

  function JoinAll(g: Geo, row: int, lun: int, ch: int, i: int): int {
    Join(Join(Join(row, g.lunsPerCh, lun), g.nchs, ch), g.pgsPerOneshotpg, i)
  }

  lemma LineScale(g: Geo)
    ensures g.PgsPerLine() == Scale(Scale(Scale(g.oneshotpgsPerBlk, g.lunsPerCh), g.nchs), g.pgsPerOneshotpg)
    ensures g.PgsPerBlk() == Scale(g.oneshotpgsPerBlk, g.pgsPerOneshotpg)
  {
    var w, c, l, n := g.pgsPerOneshotpg, g.nchs, g.lunsPerCh, g.oneshotpgsPerBlk;
    assert l * c * (w * n) == n * l * c * w;
  }

  lemma SlotAtJoin(g: Geo, row: int, lun: int, ch: int, i: int)
    requires g.Ok() && 0 <= row < g.oneshotpgsPerBlk && 0 <= lun < g.lunsPerCh
    requires 0 <= ch < g.nchs && 0 <= i < g.pgsPerOneshotpg
    ensures var s := Slot(ch, lun, Join(row, g.pgsPerOneshotpg, i)); var k := JoinAll(g, row, lun, ch, i);
            && g.SlotOk(s) && OffsetOf(g, s) == k && SlotAt(g, k) == s && 0 <= k < g.PgsPerLine()
            && (k == g.PgsPerLine() - 1 <==>
                row == g.oneshotpgsPerBlk - 1 && lun == g.lunsPerCh - 1 && ch == g.nchs - 1
                  && i == g.pgsPerOneshotpg - 1)
  {
    hide Join, Scale, Geo.PgsPerLine, Geo.PgsPerBlk;
    var w, c, l, n := g.pgsPerOneshotpg, g.nchs, g.lunsPerCh, g.oneshotpgsPerBlk;
    LineScale(g);
    JoinBound(row, n, w, i);
    JoinSplit(row, w, i);
    var r := Join(row, l, lun);
    JoinBound(row, n, l, lun);
    JoinSplit(row, l, lun);
    var q := Join(r, c, ch);
    JoinBound(r, Scale(n, l), c, ch);
    JoinSplit(r, c, ch);
    JoinBound(q, Scale(Scale(n, l), c), w, i);
    JoinSplit(q, w, i);
  }

  lemma OffsetOfSlotAt(g: Geo, k: int)
    requires g.Ok() && 0 <= k < g.PgsPerLine()
    ensures g.SlotOk(SlotAt(g, k)) && OffsetOf(g, SlotAt(g, k)) == k
  {
    hide Join, Scale, Geo.PgsPerLine, Geo.PgsPerBlk;
    var w, c, l, n := g.pgsPerOneshotpg, g.nchs, g.lunsPerCh, g.oneshotpgsPerBlk;
    LineScale(g);
    JoinBack(k, Scale(Scale(n, l), c), w);
    var q := k / w;
    JoinBack(q, Scale(n, l), c);
    var r := q / c;
    JoinBack(r, n, l);
    SlotAtJoin(g, r / l, r % l, q % c, k % w);
  }

  lemma SlotAtOffsetOf(g: Geo, s: Slot)
    requires g.Ok() && g.SlotOk(s)
    ensures 0 <= OffsetOf(g, s) < g.PgsPerLine() && SlotAt(g, OffsetOf(g, s)) == s
  {
    hide Join, Scale, Geo.PgsPerLine, Geo.PgsPerBlk;
    var w, n := g.pgsPerOneshotpg, g.oneshotpgsPerBlk;
    LineScale(g);
    JoinBack(s.pg, n, w);
    SlotAtJoin(g, s.pg / w, s.lun, s.ch, s.pg % w);
  }

  datatype Advanced = Advanced(at: Slot, wrapped: bool)

  /** The coordinate part of advance_write_pointer; `wrapped` says that the line is used up. */
  function Advance(g: Geo, at: Slot): Advanced
    requires g.Ok()
  {
    var pg := at.pg + 1;
    if pg % g.pgsPerOneshotpg != 0 then Advanced(Slot(at.ch, at.lun, pg), false)
    else
      var pg := pg - g.pgsPerOneshotpg;
      if at.ch + 1 != g.nchs then Advanced(Slot(at.ch + 1, at.lun, pg), false)
      else if at.lun + 1 != g.lunsPerCh then Advanced(Slot(0, at.lun + 1, pg), false)
      else
        var pg := pg + g.pgsPerOneshotpg;
        if pg != g.PgsPerBlk() then Advanced(Slot(0, 0, pg), false)
        else Advanced(Slot(0, 0, 0), true)
  }

  /** Advancing steps to the next page of the write order, and wraps exactly after the last. */
  lemma AdvanceIsNext(g: Geo, s: Slot)
    requires g.Ok() && g.SlotOk(s)
    ensures Advance(g, s).wrapped <==> OffsetOf(g, s) == g.PgsPerLine() - 1
    ensures !Advance(g, s).wrapped ==>
              g.SlotOk(Advance(g, s).at) && OffsetOf(g, Advance(g, s).at) == OffsetOf(g, s) + 1
    ensures Advance(g, s).wrapped ==> Advance(g, s).at == Slot(0, 0, 0)
  {
    hide Join, Scale, Geo.PgsPerLine, Geo.PgsPerBlk, Advance, OffsetOf;
    var w, n := g.pgsPerOneshotpg, g.oneshotpgsPerBlk;
    LineScale(g);
    JoinBack(s.pg, n, w);
    AdvanceIsNextAt(g, s.pg / w, s.lun, s.ch, s.pg % w);
  }

  /** The same for a page given by its wordline, LUN, channel and page in the wordline. */
  lemma AdvanceIsNextAt(g: Geo, row: int, lun: int, ch: int, i: int)
    requires g.Ok() && 0 <= row < g.oneshotpgsPerBlk && 0 <= lun < g.lunsPerCh
    requires 0 <= ch < g.nchs && 0 <= i < g.pgsPerOneshotpg
    ensures var s := Slot(ch, lun, Join(row, g.pgsPerOneshotpg, i));
            && (Advance(g, s).wrapped <==> OffsetOf(g, s) == g.PgsPerLine() - 1)
            && (!Advance(g, s).wrapped ==>
                  g.SlotOk(Advance(g, s).at) && OffsetOf(g, Advance(g, s).at) == OffsetOf(g, s) + 1)
            && (Advance(g, s).wrapped ==> Advance(g, s).at == Slot(0, 0, 0))
  {
    hide Join, JoinAll, Geo.PgsPerLine, Geo.PgsPerBlk, Geo.SlotOk, Advance, OffsetOf, SlotAt;
    AdvanceByCases(g, row, lun, ch, i);
    JoinAllNext(g, row, lun, ch, i);
    SlotAtJoin(g, row, lun, ch, i);
    if i + 1 < g.pgsPerOneshotpg {
      SlotAtJoin(g, row, lun, ch, i + 1);
    } else if ch + 1 < g.nchs {
      SlotAtJoin(g, row, lun, ch + 1, 0);
    } else if lun + 1 < g.lunsPerCh {
      SlotAtJoin(g, row, lun + 1, 0, 0);
    } else if row + 1 < g.oneshotpgsPerBlk {
      SlotAtJoin(g, row + 1, 0, 0, 0);
    }
  }

  /** Counting up digit by digit. */
  lemma JoinAllNext(g: Geo, row: int, lun: int, ch: int, i: int)
    ensures JoinAll(g, row, lun, ch, i) + 1 ==
            if i + 1 != g.pgsPerOneshotpg then JoinAll(g, row, lun, ch, i + 1)
            else if ch + 1 != g.nchs then JoinAll(g, row, lun, ch + 1, 0)
            else if lun + 1 != g.lunsPerCh then JoinAll(g, row, lun + 1, 0, 0)
            else JoinAll(g, row + 1, 0, 0, 0)
  {
    hide Join;
    JoinNext(Join(Join(row, g.lunsPerCh, lun), g.nchs, ch), g.pgsPerOneshotpg, i);
    JoinNext(Join(row, g.lunsPerCh, lun), g.nchs, ch);
    JoinNext(row, g.lunsPerCh, lun);
  }

  lemma AdvanceByCases(g: Geo, row: int, lun: int, ch: int, i: int)
    requires g.Ok() && 0 <= row < g.oneshotpgsPerBlk && 0 <= lun < g.lunsPerCh
    requires 0 <= ch < g.nchs && 0 <= i < g.pgsPerOneshotpg
    ensures var w := g.pgsPerOneshotpg; var s := Slot(ch, lun, Join(row, w, i));
            Advance(g, s) ==
              if i + 1 < w then Advanced(Slot(ch, lun, Join(row, w, i + 1)), false)
              else if ch + 1 < g.nchs then Advanced(Slot(ch + 1, lun, Join(row, w, 0)), false)
              else if lun + 1 < g.lunsPerCh then Advanced(Slot(0, lun + 1, Join(row, w, 0)), false)
              else if row + 1 < g.oneshotpgsPerBlk then Advanced(Slot(0, 0, Join(row + 1, w, 0)), false)
              else Advanced(Slot(0, 0, 0), true)
  {
    hide Scale, Geo.PgsPerBlk, Join;
    var w, n := g.pgsPerOneshotpg, g.oneshotpgsPerBlk;
    JoinNext(row, w, i);
    JoinStep(row, w);
    LineScale(g);
    if i + 1 < w {
      JoinSplit(row, w, i + 1);
    } else {
      JoinSplit(row + 1, w, 0);
      JoinFull(row + 1, n, w);
    }
  }

  lemma JoinStep(q: int, m: int)
    ensures Join(q + 1, m, 0) == Join(q, m, 0) + m
  {
  }

  lemma JoinFull(q: int, n: int, m: int)
    requires 0 < m
    ensures Join(q, m, 0) == Scale(n, m) <==> q == n
  {
    if q < n {
      MulMonotone(m, q, n - 1);
      assert m * (n - 1) == n * m - m;
    } else if q > n {
      MulMonotone(m, n, q - 1);
      assert m * (q - 1) == q * m - m;
    }
  }

  /** `ord` lists every page of a line once, in the order advance_write_pointer visits them. */
  ghost predicate WriteOrder(g: Geo, ord: seq<Slot>)
    requires g.Ok()
  {
    && |ord| == g.PgsPerLine() > 0
    && ord[0] == Slot(0, 0, 0)
    && (forall k :: 0 <= k < |ord| ==> g.SlotOk(ord[k]))
    && (forall s :: g.SlotOk(s) ==> s in ord)
    && (forall j, k :: 0 <= j < k < |ord| ==> ord[j] != ord[k])
    && (forall k :: 0 <= k < |ord| - 1 ==> Advance(g, ord[k]) == Advanced(ord[k + 1], false))
    && Advance(g, ord[|ord| - 1]) == Advanced(Slot(0, 0, 0), true)
  }

  /** Such an order exists for every geometry. */
  lemma WriteOrderExists(g: Geo) returns (ord: seq<Slot>)
    requires g.Ok()
    ensures WriteOrder(g, ord)
  {
    GeometryIdentities(g);
    var n := g.PgsPerLine();
    ord := seq(n, k requires 0 <= k < n => SlotAt(g, k));
    hide SlotAt, OffsetOf, Advance, Geo.PgsPerLine, Geo.PgsPerBlk;
    forall k | 0 <= k < n
      ensures g.SlotOk(ord[k]) && OffsetOf(g, ord[k]) == k
    {
      OffsetOfSlotAt(g, k);
    }
    forall s | g.SlotOk(s) ensures s in ord {
      SlotAtOffsetOf(g, s);
      assert ord[OffsetOf(g, s)] == s;
    }
    forall k | 0 <= k < n
      ensures k < n - 1 ==> Advance(g, ord[k]) == Advanced(ord[k + 1], false)
      ensures k == n - 1 ==> Advance(g, ord[k]) == Advanced(Slot(0, 0, 0), true)
    {
      AdvanceIsNext(g, ord[k]);
      if k < n - 1 {
        SlotAtOffsetOf(g, Advance(g, ord[k]).at);
      }
    }
    StartsAtOrigin(g);
  }

  lemma StartsAtOrigin(g: Geo)
    requires g.Ok()
    ensures SlotAt(g, 0) == Slot(0, 0, 0)
  {
  }

  // ---------- wordlines ----------

  /** last_pg_in_wordline */
  predicate LastPgInWordline(g: Geo, at: Slot)
    requires 0 < g.pgsPerOneshotpg
  {
    at.pg % g.pgsPerOneshotpg == g.pgsPerOneshotpg - 1
  }

  /** How many pages of the wordline under the write pointer are written. */
  function WordlineFill(g: Geo, at: Slot): int
    requires 0 < g.pgsPerOneshotpg
  {
    at.pg % g.pgsPerOneshotpg
  }

  /** Advancing fills the wordline by one page, and starts an empty one after the last. */
  lemma AdvanceFills(g: Geo, s: Slot)
    requires g.Ok() && g.SlotOk(s)
    ensures WordlineFill(g, Advance(g, s).at) == if LastPgInWordline(g, s) then 0 else WordlineFill(g, s) + 1
    ensures 0 <= WordlineFill(g, s) < g.pgsPerOneshotpg
  {
    hide Join, Scale, Geo.PgsPerLine, Geo.PgsPerBlk, Advance;
    var w, c, l, n := g.pgsPerOneshotpg, g.nchs, g.lunsPerCh, g.oneshotpgsPerBlk;
    LineScale(g);
    JoinBack(s.pg, n, w);
    var row, i := s.pg / w, s.pg % w;
    AdvanceByCases(g, row, s.lun, s.ch, i);
    if i + 1 < w {
      JoinSplit(row, w, i + 1);
    }
    JoinSplit(row, w, 0);
    JoinSplit(row + 1, w, 0);
    JoinSplit(0, w, 0);
    assert 0 % w == 0;
  }
}
