/** Arithmetic of a write command: which pages it covers and what it books in the write buffer. */
module Commands {
  import opened Arithmetic

  /** Sectors are 512 bytes (LBA_BITS). */
  const LBA_SIZE: nat := 512

  /** The pages a command of `nrLba` sectors from `lba` touches. */
  function StartLpn(lba: nat, secsPerPg: nat): nat requires 0 < secsPerPg { lba / secsPerPg }

  function EndLpn(lba: nat, nrLba: nat, secsPerPg: nat): nat
    requires 0 < secsPerPg && 0 < nrLba
  {
    (lba + nrLba - 1) / secsPerPg
  }

  /** The number of pages a command touches. */
  function Span(lba: nat, nrLba: nat, secsPerPg: nat): (n: nat)
    requires 0 < secsPerPg && 0 < nrLba
  {
    ExcessMeaning(lba, nrLba, secsPerPg);
    EndLpn(lba, nrLba, secsPerPg) - StartLpn(lba, secsPerPg) + 1
  }

  /** How many pages a command covers beyond the sectors it carries, in sectors.  The write buffer
      takes in the sectors but gives back whole pages. */
  function Excess(lba: nat, nrLba: nat, secsPerPg: nat): int
    requires 0 < secsPerPg && 0 < nrLba
  {
    (EndLpn(lba, nrLba, secsPerPg) - StartLpn(lba, secsPerPg) + 1) * secsPerPg - nrLba
  }

  /** A write books exactly the bytes it later releases if and only if it starts and ends on page
      boundaries; otherwise it releases more than it took. */
  lemma ExcessMeaning(lba: nat, nrLba: nat, secsPerPg: nat)
    requires 0 < secsPerPg && 0 < nrLba
    ensures StartLpn(lba, secsPerPg) <= EndLpn(lba, nrLba, secsPerPg)
    ensures Excess(lba, nrLba, secsPerPg) >= 0
    ensures Excess(lba, nrLba, secsPerPg) == 0 <==> lba % secsPerPg == 0 && nrLba % secsPerPg == 0
  {
    var s, last := secsPerPg, lba + nrLba - 1;
    var a, b := lba / s, last / s;
    Divides(lba, s);
    Divides(last, s);
    if b < a {
      MulMonotone(s, b + 1, a);
      assert false;
    }
    ExcessEnds(lba, nrLba, s, a, b);
    if lba % s == 0 && nrLba % s == 0 {
      AlignedEnd(a, nrLba, s);
    } else if last % s == s - 1 && lba % s == 0 {
      EndAligns(a, b, nrLba, s);
    }
  }

  lemma Divides(x: nat, s: nat)
    requires 0 < s
    ensures x == x / s * s + x % s && 0 <= x % s < s
  {
  }

  /** The excess is what the first page has before the command and the last page behind it. */
  lemma ExcessEnds(lba: nat, nrLba: nat, s: nat, a: nat, b: nat)
    requires 0 < s && 0 < nrLba && a == lba / s && b == (lba + nrLba - 1) / s
    ensures Excess(lba, nrLba, s) == lba % s + (s - 1 - (lba + nrLba - 1) % s)
  {
    hide StartLpn, EndLpn;
    Divides(lba, s);
    Divides(lba + nrLba - 1, s);
    LpnsAre(lba, nrLba, s);
    assert (b - a + 1) * s == b * s - a * s + s by { Spread(a, b, s); }
  }

  lemma LpnsAre(lba: nat, nrLba: nat, s: nat)
    requires 0 < s && 0 < nrLba
    ensures StartLpn(lba, s) == lba / s && EndLpn(lba, nrLba, s) == (lba + nrLba - 1) / s
  {
  }

  lemma Spread(a: int, b: int, s: int)
    ensures (b - a + 1) * s == b * s - a * s + s
  {
  }

  lemma AlignedEnd(a: nat, nrLba: nat, s: nat)
    requires 0 < s && 0 < nrLba && nrLba % s == 0
    ensures (a * s + nrLba - 1) % s == s - 1
  {
    var n := nrLba / s;
    Divides(nrLba, s);
    Spread(1, a + n - 1, s);
    assert (a + n - 1) * s + (s - 1) == a * s + nrLba - 1 by { Spread(-n, a - 1, s); Spread(1, a - 1, s); }
    DivModUnique(a + n - 1, s, s - 1);
  }

  lemma EndAligns(a: nat, b: nat, nrLba: nat, s: nat)
    requires 0 < s && a <= b && a * s + nrLba - 1 == b * s + (s - 1)
    ensures nrLba % s == 0
  {
    Spread(a, b, s);
    DivModUnique(b - a + 1, s, 0);
  }

  /** The view after writing `content(l)` to every LPN from `lo` up to `hi`. */
  ghost function Overwritten(view: map<nat, int>, lo: nat, hi: nat, content: nat -> int): map<nat, int> {
    view + map l: nat | lo <= l < hi :: content(l)
  }

  lemma OverwrittenNone(view: map<nat, int>, lo: nat, content: nat -> int)
    ensures Overwritten(view, lo, lo, content) == view
  {
  }

  lemma OverwrittenNext(view: map<nat, int>, lo: nat, hi: nat, content: nat -> int)
    requires lo <= hi
    ensures Overwritten(view, lo, hi, content)[hi := content(hi)] == Overwritten(view, lo, hi + 1, content)
  {
  }

  /** LPN by LPN: those of the range have the new content, and all others what they had. */
  lemma OverwrittenMeaning(view: map<nat, int>, lo: nat, hi: nat, content: nat -> int, l: nat)
    ensures var after := Overwritten(view, lo, hi, content);
            if lo <= l < hi then l in after && after[l] == content(l)
            else (l in after <==> l in view) && (l in view ==> after[l] == view[l])
  {
  }

  lemma OverwrittenKeys(view: map<nat, int>, lo: nat, hi: nat, content: nat -> int)
    ensures Overwritten(view, lo, hi, content).Keys == KeysAfter(view, lo, hi)
  {
  }

  /** The LPNs mapped after writing those from `lo` up to `hi`. */
  ghost function KeysAfter(view: map<nat, int>, lo: nat, hi: nat): set<nat> {
    view.Keys + Lpns(lo, hi)
  }

  /** The LPNs from `lo` up to `hi`. */
  ghost function Lpns(lo: nat, hi: nat): set<nat> {
    set l: nat | l < hi && AtLeast(lo, l)
  }

  predicate AtLeast(lo: nat, l: nat) { lo <= l }

  /** There are free lines enough for a write of `n` pages from position `pos` of a line. */
  ghost predicate Enough(total: nat, pos: nat, n: nat, free: nat) {
    pos + n < total * (free + 1)
  }

  /** Page by page: no free line is needed within a line, and one at its end. */
  lemma EnoughStep(total: nat, pos: nat, n: nat, free: nat)
    requires 0 < n && pos < total
    ensures pos + 1 < total ==> (Enough(total, pos, n, free) <==> Enough(total, pos + 1, n - 1, free))
    ensures pos + 1 == total ==> (Enough(total, pos, n, free) <==> 0 < free && Enough(total, 0, n - 1, free - 1))
  {
    assert total * (free + 1) == total * free + total;
    assert 0 < free ==> total * (free - 1 + 1) == total * free;
    assert free == 0 ==> total * (free + 1) == total;
  }

  lemma EnoughNone(total: nat, pos: nat, free: nat)
    requires pos < total
    ensures Enough(total, pos, 0, free)
  {
    MulMonotone(total, 1, free + 1);
  }

  /** The free lines are enough if and only if there is one for every line end the write crosses. */
  lemma EnoughMeaning(total: nat, pos: nat, n: nat, free: nat)
    requires 0 < total
    ensures Enough(total, pos, n, free) <==> (pos + n) / total <= free
  {
    Divides(pos + n, total);
    var q := (pos + n) / total;
    if q <= free {
      MulMonotone(total, q + 1, free + 1);
    } else {
      MulMonotone(total, free + 1, q);
    }
  }

  /** Writing `n` pages from position `pos0` with `free0` free lines led to `pos` and `free`: one
      line was taken each time the position ran over the end of one. */
  ghost predicate Consumed(total: nat, pos0: nat, free0: nat, pos: nat, free: nat, n: nat) {
    pos < total && free <= free0 && pos + total * (free0 - free) == pos0 + n
  }

  lemma ConsumedNone(total: nat, pos: nat, free: nat)
    requires pos < total
    ensures Consumed(total, pos, free, pos, free, 0)
  {
    assert total * (free - free) == 0;
  }

  lemma ConsumedNext(total: nat, pos0: nat, free0: nat, pos: nat, free: nat, n: nat)
    requires Consumed(total, pos0, free0, pos, free, n)
    ensures pos + 1 < total ==> Consumed(total, pos0, free0, pos + 1, free, n + 1)
    ensures pos + 1 == total && 0 < free ==> Consumed(total, pos0, free0, 0, free - 1, n + 1)
  {
    assert total * (free0 - free + 1) == total * (free0 - free) + total;
  }

  /** With more than `threshold` lines free, a write of at most `threshold` lines' worth of pages
      never runs out and leaves one. */
  lemma ThresholdIsEnough(total: nat, pos: nat, n: nat, free: nat, threshold: nat)
    requires pos < total && n <= threshold * total && threshold < free
    ensures Enough(total, pos, n, free) && Enough(total, pos, n, free - 1)
  {
    assert total * (free + 1) == free * total + total;
    MulMonotone(total, threshold + 1, free);
    assert (threshold + 1) * total == threshold * total + total;
    assert total * (free - 1 + 1) == free * total;
  }

  /** What is enough with one line less is enough, and leaves a free line. */
  lemma LineIsLeft(total: nat, pos0: nat, free0: nat, pos: nat, free: nat, n: nat)
    requires 0 < free0 && Enough(total, pos0, n, free0 - 1)
    ensures Enough(total, pos0, n, free0)
    ensures Consumed(total, pos0, free0, pos, free, n) ==> 0 < free
  {
    assert total * (free0 - 1 + 1) == total * free0;
    MulMonotone(total, free0, free0 + 1);
  }
}
