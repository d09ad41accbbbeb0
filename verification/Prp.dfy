/** The two data paths of io.c as values: which physical byte each byte of a command is copied from
    or to, when the PRP entries are walked page by page, and when runs of contiguous pages are
    merged for the DMA engine. */
module Prp {
  import opened Arithmetic

  const PAGE_SIZE: nat := 4096

  /** The bytes of one page that a walk uses, of `remaining`. */
  function Chunk(prp: nat, remaining: nat): (n: nat)
    ensures n <= remaining
  {
    if remaining <= PAGE_SIZE - prp % PAGE_SIZE then remaining else PAGE_SIZE - prp % PAGE_SIZE
  }

  /** The most bytes that these PRP entries can describe. */
  function Capacity(prps: seq<nat>): nat {
    if prps == [] then 0 else PAGE_SIZE - prps[0] % PAGE_SIZE + Capacity(prps[1..])
  }

  function Range(from: nat, n: nat): seq<nat> { seq(n, i => from + i) }

  /** The physical address of every byte in turn, page by page. */
  function PageWalk(prps: seq<nat>, remaining: nat): (m: seq<nat>)
    requires remaining <= Capacity(prps)
    ensures |m| == remaining
    decreases |prps|
  {
    if remaining == 0 then []
    else
      var n := Chunk(prps[0], remaining);
      Range(prps[0], n) + PageWalk(prps[1..], remaining - n)
  }

  /** What PRP entries mean when all but the first are page aligned: byte `j` is in the first page
      behind its offset, or in the page of the entry that whole pages lead to (section 4.3 of the
      NVM Express Base Specification, revision 1.3). */
  lemma {:induction false} PageWalkByte(prps: seq<nat>, remaining: nat, j: nat)
    requires remaining <= Capacity(prps) && j < remaining
    requires forall i :: 1 <= i < |prps| ==> prps[i] % PAGE_SIZE == 0
    ensures var first := PAGE_SIZE - prps[0] % PAGE_SIZE;
            if j < first then PageWalk(prps, remaining)[j] == prps[0] + j
            else (j - first) / PAGE_SIZE + 1 < |prps|
                 && PageWalk(prps, remaining)[j] == prps[(j - first) / PAGE_SIZE + 1] + (j - first) % PAGE_SIZE
    decreases |prps|
  {
    var first := PAGE_SIZE - prps[0] % PAGE_SIZE;
    if first <= j {
      PageWalkByte(prps[1..], remaining - first, j - first);
    }
  }

  // ---------- merged runs ----------

  /** How many entries from the first on are contiguous pages. */
  function RunLength(prps: seq<nat>): (m: nat)
    requires prps != []
    ensures 1 <= m <= |prps|
    ensures forall i :: 1 <= i < m ==> prps[i] == prps[i - 1] + PAGE_SIZE
    ensures m < |prps| ==> prps[m] != prps[m - 1] + PAGE_SIZE
  {
    if |prps| == 1 || prps[1] != prps[0] + PAGE_SIZE then 1 else 1 + RunLength(prps[1..])
  }

  /** The bytes that one DMA transfer moves. */
  function RunBytes(prps: seq<nat>, remaining: nat): (n: nat)
    requires prps != []
    ensures n <= remaining
  {
    var page := Chunk(prps[0], remaining) + (RunLength(prps) - 1) * PAGE_SIZE;
    if remaining <= page then remaining else page
  }

  /** A run moves at least what its pages hold behind their offsets. */
  lemma RunCovers(prps: seq<nat>, remaining: nat)
    requires 0 < remaining <= Capacity(prps)
    ensures prps != [] && 0 < RunBytes(prps, remaining)
    ensures remaining - RunBytes(prps, remaining) <= Capacity(prps[RunLength(prps)..])
  {
    RunIsEnough(prps, RunLength(prps), remaining);
  }

  lemma RunIsEnough(prps: seq<nat>, m: nat, remaining: nat)
    requires 0 < remaining <= Capacity(prps) && 1 <= m <= |prps|
    requires forall i :: 1 <= i < m ==> prps[i] == prps[i - 1] + PAGE_SIZE
    ensures remaining - Chunk(prps[0], remaining) - (m - 1) * PAGE_SIZE <= Capacity(prps[m..])
    ensures 0 < Chunk(prps[0], remaining)
  {
    hide Capacity;
    var first := PAGE_SIZE - prps[0] % PAGE_SIZE;
    CapacityOfRun(prps, m);
    TimesBelow(m, first, PAGE_SIZE);
  }

  lemma TimesBelow(m: nat, a: nat, b: nat)
    requires 1 <= m && a <= b
    ensures m * a <= a + (m - 1) * b
  {
    MulMonotone(m - 1, a, b);
    assert m * a == a + (m - 1) * a;
  }

  lemma {:induction false} CapacityOfRun(prps: seq<nat>, m: nat)
    requires 1 <= m <= |prps| && forall i :: 1 <= i < m ==> prps[i] == prps[i - 1] + PAGE_SIZE
    ensures Capacity(prps) == m * (PAGE_SIZE - prps[0] % PAGE_SIZE) + Capacity(prps[m..])
  {
    hide Capacity;
    FirstCapacity(prps);
    if m > 1 {
      NextOffset(prps[0]);
      CapacityOfRun(prps[1..], m - 1);
      assert prps[1..][m - 1..] == prps[m..];
      TimesNext(m - 1, PAGE_SIZE - prps[0] % PAGE_SIZE);
    }
  }

  lemma FirstCapacity(prps: seq<nat>)
    requires prps != []
    ensures Capacity(prps) == PAGE_SIZE - prps[0] % PAGE_SIZE + Capacity(prps[1..])
  {
  }

  lemma NextOffset(prp: nat)
    ensures (prp + PAGE_SIZE) % PAGE_SIZE == prp % PAGE_SIZE
  {
  }

  lemma TimesNext(m: nat, a: nat)
    ensures (m + 1) * a == a + m * a
  {
  }

  /** The physical address of every byte in turn, when runs are merged. */
  function DmaWalk(prps: seq<nat>, remaining: nat): (m: seq<nat>)
    requires remaining <= Capacity(prps)
    ensures |m| == remaining
    decreases |prps|
  {
    if remaining == 0 then []
    else
      RunCovers(prps, remaining);
      var n := RunBytes(prps, remaining);
      Range(prps[0], n) + DmaWalk(prps[RunLength(prps)..], remaining - n)
  }

  /** An entry that is not page aligned, followed by the one a page further. */
  predicate Breaks(prp: nat, after: nat) { prp % PAGE_SIZE != 0 && after == prp + PAGE_SIZE }

  /** No page is described from its middle while the next entry points one page further. */
  ghost predicate Mergeable(prps: seq<nat>) {
    forall i :: 0 < i < |prps| ==> !Breaks(prps[i - 1], prps[i])
  }

  /** All entries are needed. */
  ghost predicate AllUsed(prps: seq<nat>, remaining: nat) {
    |prps| > 0 ==> Capacity(prps[..|prps| - 1]) < remaining
  }

  /** Walking a mergeable run page by page gives one contiguous range. */
  lemma {:induction false} WalkRun(prps: seq<nat>, m: nat, remaining: nat)
    requires 0 < remaining <= Capacity(prps) && 1 <= m <= |prps|
    requires forall i :: 1 <= i < m ==> prps[i] == prps[i - 1] + PAGE_SIZE
    requires m == 1 || prps[0] % PAGE_SIZE == 0
    ensures var page := Chunk(prps[0], remaining) + (m - 1) * PAGE_SIZE;
            var n := if remaining <= page then remaining else page;
            && remaining - n <= Capacity(prps[m..])
            && PageWalk(prps, remaining) == Range(prps[0], n) + PageWalk(prps[m..], remaining - n)
  {
    hide PageWalk, Capacity, Range;
    var first := Chunk(prps[0], remaining);
    WalkStep(prps, remaining);
    if remaining == first {
      WalkNothing(prps[1..]);
      WalkNothing(prps[m..]);
    } else if m > 1 {
      var rest := prps[1..];
      WalkRun(rest, m - 1, remaining - first);
      assert rest[m - 1..] == prps[m..];
      var page := Chunk(rest[0], remaining - first) + (m - 2) * PAGE_SIZE;
      var n := if remaining - first <= page then remaining - first else page;
      RangeJoins(prps[0], first, n, PageWalk(prps[m..], remaining - first - n));
    }
  }

  /** One page of the walk. */
  lemma WalkStep(prps: seq<nat>, remaining: nat)
    requires 0 < remaining <= Capacity(prps)
    ensures prps != [] && 0 < Chunk(prps[0], remaining)
    ensures remaining - Chunk(prps[0], remaining) <= Capacity(prps[1..])
    ensures PageWalk(prps, remaining)
            == Range(prps[0], Chunk(prps[0], remaining)) + PageWalk(prps[1..], remaining - Chunk(prps[0], remaining))
  {
  }

  lemma WalkNothing(prps: seq<nat>)
    ensures 0 <= Capacity(prps) && PageWalk(prps, 0) == []
  {
  }

  lemma RangeJoins(from: nat, a: nat, b: nat, rest: seq<nat>)
    ensures Range(from, a) + (Range(from + a, b) + rest) == Range(from, a + b) + rest
  {
  }

  /** A run that starts in the middle of a page and goes on: the first byte of its second page is
      where the two walks part. */
  lemma WalksPart(prps: seq<nat>, remaining: nat)
    requires remaining <= Capacity(prps) && AllUsed(prps, remaining)
    requires 2 <= |prps| && prps[1] == prps[0] + PAGE_SIZE && prps[0] % PAGE_SIZE != 0
    ensures PageWalk(prps, remaining) != DmaWalk(prps, remaining)
  {
    var first := PAGE_SIZE - prps[0] % PAGE_SIZE;
    assert prps[..|prps| - 1][0] == prps[0];
    assert 2 <= RunLength(prps);
    assert DmaWalk(prps, remaining)[first] == prps[0] + first;
    assert PageWalk(prps, remaining)[first] == PageWalk(prps[1..], remaining - first)[0] == prps[1];
  }

  /** After the first run, all entries are still needed. */
  lemma RestIsUsed(prps: seq<nat>, remaining: nat)
    requires remaining <= Capacity(prps) && AllUsed(prps, remaining) && prps != []
    requires RunLength(prps) == 1 || prps[0] % PAGE_SIZE == 0
    ensures AllUsed(prps[RunLength(prps)..], remaining - RunBytes(prps, remaining))
  {
    var m := RunLength(prps);
    if m < |prps| {
      var most := prps[..|prps| - 1];
      CapacityOfRun(most, m);
      assert most[m..] == prps[m..][..|prps[m..]| - 1];
    }
  }

  lemma SamePrefix(a: seq<nat>, b: seq<nat>, c: seq<nat>)
    ensures a + b == a + c <==> b == c
  {
    assert (a + b)[|a|..] == b && (a + c)[|a|..] == c;
  }

  /** Merging contiguous pages moves the same bytes as the page walk exactly when no entry that is
      not page aligned is followed by the one a page further. */
  lemma {:induction false} SameBytes(prps: seq<nat>, remaining: nat)
    requires remaining <= Capacity(prps) && AllUsed(prps, remaining)
    ensures PageWalk(prps, remaining) == DmaWalk(prps, remaining) <==> Mergeable(prps)
    decreases |prps|
  {
    hide PageWalk, Range, Capacity, Chunk;
    if prps == [] {
      NoEntries(remaining);
    } else {
      var m := RunLength(prps);
      if m == 1 || prps[0] % PAGE_SIZE == 0 {
        var rest, n := prps[m..], RunBytes(prps, remaining);
        SomeUsed(prps, remaining);
        RunCovers(prps, remaining);
        WalkRun(prps, m, remaining);
        RestIsUsed(prps, remaining);
        SameBytes(rest, remaining - n);
        SamePrefix(Range(prps[0], n), PageWalk(rest, remaining - n), DmaWalk(rest, remaining - n));
        MergeableRest(prps);
      } else {
        WalksPart(prps, remaining);
        assert Breaks(prps[1 - 1], prps[1]);
      }
    }
  }

  lemma SomeUsed(prps: seq<nat>, remaining: nat)
    requires prps != [] && AllUsed(prps, remaining)
    ensures 0 < remaining
  {
  }

  lemma NoEntries(remaining: nat)
    requires remaining <= Capacity([])
    ensures PageWalk([], remaining) == DmaWalk([], remaining) == []
  {
  }

  lemma {:induction false} RunAligned(prps: seq<nat>, m: nat, i: nat)
    requires i < m <= |prps| && prps[0] % PAGE_SIZE == 0
    requires forall i :: 1 <= i < m ==> prps[i] == prps[i - 1] + PAGE_SIZE
    ensures prps[i] % PAGE_SIZE == 0
  {
    if i > 0 {
      RunAligned(prps, m, i - 1);
    }
  }

  lemma MergeableRest(prps: seq<nat>)
    requires prps != [] && (RunLength(prps) == 1 || prps[0] % PAGE_SIZE == 0)
    ensures Mergeable(prps) <==> Mergeable(prps[RunLength(prps)..])
  {
    hide RunLength;
    var m := RunLength(prps);
    var rest := prps[m..];
    if Mergeable(prps) {
      forall i | 0 < i < |rest| ensures !Breaks(rest[i - 1], rest[i]) {
        assert prps[m + i] == rest[i] && prps[m + i - 1] == rest[i - 1];
      }
    }
    if Mergeable(rest) {
      forall i | 0 < i < |prps| ensures !Breaks(prps[i - 1], prps[i]) {
        if i < m {
          RunAligned(prps, m, i - 1);
        } else if i > m {
          assert prps[i] == rest[i - m] && prps[i - 1] == rest[i - m - 1];
        }
      }
    }
  }

  /** When every entry but the first is page aligned the walks agree. */
  lemma AlignedIsMergeable(prps: seq<nat>)
    requires forall i :: 1 <= i < |prps| ==> prps[i] % PAGE_SIZE == 0
    ensures Mergeable(prps)
  {
  }

  /** A command that starts 512 bytes before the end of a page, with a second entry exactly one page
      further: the page walk goes on at that entry, the merged walk at the start of its page. */
  lemma WalksPartExample()
    ensures PageWalk([3584, 7680], 1024)[512] == 7680 && DmaWalk([3584, 7680], 1024)[512] == 4096
  {
    var prps: seq<nat> := [3584, 7680];
    assert prps[1..] == [7680] && [7680][1..] == [];
    assert PageWalk([7680], 512)[0] == 7680;
    assert RunLength(prps) == 2;
  }
}
