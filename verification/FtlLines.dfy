/** The line and page bookkeeping of conv_ftl.c as values: page states, counters, line pools and
    write positions, the steps the FTL takes on them, and the invariant every step keeps. */
module FtlLines {
  import opened Sequences
  import opened Geometry

  datatype PgStatus = PgFree | PgInvalid | PgValid

  /** Where a line is.  A line is in exactly one place because `place` is a function. */
  datatype Place = FreeList | FullList | VictimHeap | UserLine | GcLine | Collecting

  datatype IoType = UserIo | GcIo

  function ActivePlace(io: IoType): Place {
    if io.UserIo? then UserLine else GcLine
  }

  /** The dimensions of a device: the number of lines, the pages of a line, the order in which
      they are written, and the pages of a block. */
  datatype Dim = Dim(lines: nat, slots: set<Slot>, ord: seq<Slot>, blkPgs: nat)
  {
    function Total(): nat { |slots| }
  }

  ghost function BlkSlots(slots: set<Slot>, ch: int, lun: int): set<Slot> {
    set s | s in slots && s.ch == ch && s.lun == lun
  }

  ghost predicate DimOk(d: Dim) {
    && (forall s :: s in d.slots <==> s in d.ord)
    && NoDup(d.ord) && |d.ord| == |d.slots| > 0
    && (forall s :: s in d.slots ==> |BlkSlots(d.slots, s.ch, s.lun)| == d.blkPgs)
  }

  // ---------- counting pages ----------

  function At(status: map<Ppa, PgStatus>, p: Ppa): PgStatus {
    if p in status then status[p] else PgFree
  }

  /** The pages of `S`, in line `b`, that are in state `x`. */
  ghost function With(status: map<Ppa, PgStatus>, S: set<Slot>, b: int, x: PgStatus): set<Slot> {
    set s | s in S && At(status, Ppa(b, s)) == x
  }

  ghost function Count(status: map<Ppa, PgStatus>, S: set<Slot>, b: int, x: PgStatus): nat {
    |With(status, S, b, x)|
  }

  lemma WithAfter(status: map<Ppa, PgStatus>, S: set<Slot>, p: Ppa, y: PgStatus, b: int, x: PgStatus)
    ensures With(status[p := y], S, b, x) ==
            if b != p.blk || p.at !in S then With(status, S, b, x)
            else if y == x then With(status, S, b, x) + {p.at}
            else With(status, S, b, x) - {p.at}
    ensures p.at in With(status, S, p.blk, x) <==> p.at in S && At(status, p) == x
  {
  }

  /** How one page's change of state moves a count. */
  lemma CountAfter(status: map<Ppa, PgStatus>, S: set<Slot>, p: Ppa, y: PgStatus, b: int, x: PgStatus)
    ensures Count(status[p := y], S, b, x) ==
            Count(status, S, b, x)
            + (if b == p.blk && p.at in S && y == x && At(status, p) != x then 1 else 0)
            - (if b == p.blk && p.at in S && y != x && At(status, p) == x then 1 else 0)
  {
    hide With, At;
    WithAfter(status, S, p, y, b, x);
    var w := With(status, S, b, x);
    if b == p.blk && p.at in S {
      if y == x && At(status, p) != x {
        assert |w + {p.at}| == |w| + 1;
      } else if y == x {
        assert w + {p.at} == w;
      } else if At(status, p) == x {
        assert |w - {p.at}| == |w| - 1;
      } else {
        assert w - {p.at} == w;
      }
    }
  }

  /** The three states split any set of pages. */
  lemma CountsSplit(status: map<Ppa, PgStatus>, S: set<Slot>, b: int)
    ensures Count(status, S, b, PgFree) + Count(status, S, b, PgInvalid) + Count(status, S, b, PgValid) == |S|
  {
    var f, i, v := With(status, S, b, PgFree), With(status, S, b, PgInvalid), With(status, S, b, PgValid);
    assert f !! i && (f + i) !! v;
    assert S == f + i + v;
  }

  lemma CountPositive(status: map<Ppa, PgStatus>, S: set<Slot>, p: Ppa)
    requires p.at in S
    ensures 0 < Count(status, S, p.blk, At(status, p))
  {
    assert p.at in With(status, S, p.blk, At(status, p));
  }

  lemma CountAll(status: map<Ppa, PgStatus>, S: set<Slot>, b: int, x: PgStatus)
    ensures Count(status, S, b, x) == |S| <==> forall s :: s in S ==> At(status, Ppa(b, s)) == x
  {
    var w := With(status, S, b, x);
    assert |S - w| == |S| - |w|;
    assert w == S <==> S - w == {};
  }

  // ---------- the state ----------

  datatype Lines = Lines(
    status: map<Ppa, PgStatus>,
    place: seq<Place>,
    vpc: seq<int>,
    ipc: seq<int>,
    blkVpc: map<Blk, int>,
    blkIpc: map<Blk, int>,
    freeList: seq<nat>,
    fullList: seq<nat>,
    victims: set<nat>,
    user: nat, userPos: nat,
    gc: nat, gcPos: nat,
    collecting: int, erased: set<Slot>)
  {
    function Active(io: IoType): nat { if io.UserIo? then user else gc }
    function Pos(io: IoType): nat { if io.UserIo? then userPos else gcPos }
  }

  ghost predicate Domain(d: Dim, L: Lines) {
    && |L.place| == |L.vpc| == |L.ipc| == d.lines
    && (forall p :: p in L.status <==> 0 <= p.blk < d.lines && p.at in d.slots)
    && L.blkVpc.Keys == L.blkIpc.Keys
    && (forall p :: p in L.status ==> Blk(p.blk, p.at.ch, p.at.lun) in L.blkVpc)
    && L.erased <= d.slots
  }

  /** line->vpc and line->ipc are the numbers of VALID and INVALID pages, except for the line that
      is being collected, whose counters are only reset at the end. */
  ghost predicate LineCounters(d: Dim, L: Lines) {
    forall b: nat :: b < |L.place| && b < |L.vpc| && b < |L.ipc| && L.place[b] != Collecting ==>
      L.vpc[b] == Count(L.status, d.slots, b, PgValid) && L.ipc[b] == Count(L.status, d.slots, b, PgInvalid)
  }

  /** blk->vpc and blk->ipc are the numbers of VALID and INVALID pages. */
  ghost predicate BlkCounters(d: Dim, L: Lines) {
    forall q :: q in L.blkVpc && q in L.blkIpc ==>
      && L.blkVpc[q] == Count(L.status, BlkSlots(d.slots, q.ch, q.lun), q.blk, PgValid)
      && L.blkIpc[q] == Count(L.status, BlkSlots(d.slots, q.ch, q.lun), q.blk, PgInvalid)
  }

  /** What a line's place says about its pages. */
  ghost predicate Filled(d: Dim, L: Lines) {
    forall b: nat, s :: b < |L.place| && s in d.slots ==> PageFits(L.place[b], At(L.status, Ppa(b, s)), s in L.erased)
  }

  predicate PageFits(where: Place, x: PgStatus, erased: bool) {
    match where
    case FreeList => x == PgFree
    case FullList => x == PgValid
    case VictimHeap => x != PgFree
    case Collecting => x == PgFree <==> erased
    case _ => true
  }

  /** In a line being written, the pages before the write position are exactly the non-FREE ones. */
  ghost predicate Written(d: Dim, status: map<Ppa, PgStatus>, line: nat, pos: nat) {
    pos <= |d.ord| && forall i :: 0 <= i < |d.ord| ==> (At(status, Ppa(line, d.ord[i])) == PgFree <==> pos <= i)
  }

  ghost predicate Listed(place: seq<Place>, l: seq<nat>, x: Place) {
    NoDup(l) && forall b: nat :: b in l <==> b < |place| && place[b] == x
  }

  ghost predicate Only(place: seq<Place>, line: nat, x: Place) {
    line < |place| && forall b: nat :: b < |place| ==> (place[b] == x <==> b == line)
  }

  ghost predicate Heaped(place: seq<Place>, victims: set<nat>) {
    forall b: nat :: b in victims <==> b < |place| && place[b] == VictimHeap
  }

  ghost predicate Collected(place: seq<Place>, collecting: int) {
    collecting < |place| && forall b: nat :: b < |place| ==> (place[b] == Collecting <==> b == collecting)
  }

  /** The lists, the heap and the write pointers agree with `place`. */
  ghost predicate Partition(L: Lines) {
    && Listed(L.place, L.freeList, FreeList)
    && Listed(L.place, L.fullList, FullList)
    && Heaped(L.place, L.victims)
    && Only(L.place, L.user, UserLine)
    && Only(L.place, L.gc, GcLine)
    && Collected(L.place, L.collecting)
  }

  /** A victim has something to reclaim. */
  ghost predicate VictimsHaveInvalid(d: Dim, L: Lines) {
    forall b: nat :: b < |L.place| && b < |L.vpc| && L.place[b] == VictimHeap ==> L.vpc[b] < d.Total()
  }

  ghost predicate LinesOk(d: Dim, L: Lines) {
    && Domain(d, L) && LineCounters(d, L) && BlkCounters(d, L) && Filled(d, L)
    && Written(d, L.status, L.user, L.userPos) && Written(d, L.status, L.gc, L.gcPos)
    && Partition(L) && VictimsHaveInvalid(d, L)
  }

  // ---------- lists ----------

  function Without(s: seq<nat>, b: nat): seq<nat> {
    if s == [] then [] else (if s[0] == b then [] else [s[0]]) + Without(s[1..], b)
  }

  lemma {:induction false} WithoutMembers(s: seq<nat>, b: nat)
    ensures forall x :: x in Without(s, b) <==> x in s && x != b
    ensures NoDup(s) ==> NoDup(Without(s, b)) && |Without(s, b)| == |s| - (if b in s then 1 else 0)
  {
    if s != [] {
      WithoutMembers(s[1..], b);
      assert s == [s[0]] + s[1..];
      if NoDup(s) {
        assert NoDup(s[1..]);
        assert s[0] !in s[1..];
      }
    }
  }

  // ---------- moving one line ----------

  /** Moving line `b` between two places other than `x` leaves list `x` alone. */
  lemma ListedSame(place: seq<Place>, l: seq<nat>, x: Place, b: nat, y: Place)
    requires Listed(place, l, x) && b < |place| && place[b] != x && y != x
    ensures Listed(place[b := y], l, x)
  {
  }

  lemma ListedAdd(place: seq<Place>, l: seq<nat>, b: nat, y: Place)
    requires Listed(place, l, y) && b < |place| && place[b] != y
    ensures Listed(place[b := y], l + [b], y)
  {
    assert b !in l;
  }

  lemma ListedDrop(place: seq<Place>, l: seq<nat>, x: Place, b: nat, y: Place, l': seq<nat>)
    requires Listed(place, l, x) && b < |place| && y != x
    requires NoDup(l') && forall c :: c in l' <==> c in l && c != b
    ensures Listed(place[b := y], l', x)
  {
  }

  lemma HeapedSame(place: seq<Place>, victims: set<nat>, b: nat, y: Place)
    requires Heaped(place, victims) && b < |place|
    ensures Heaped(place[b := y], if y == VictimHeap then victims + {b} else victims - {b})
    ensures place[b] != VictimHeap ==> victims - {b} == victims
  {
  }

  lemma OnlySame(place: seq<Place>, line: nat, x: Place, b: nat, y: Place)
    requires Only(place, line, x) && b < |place| && place[b] != x && y != x
    ensures Only(place[b := y], line, x)
  {
  }

  /** The line in place `x` leaves it and another one takes over. */
  lemma OnlyMove(place: seq<Place>, line: nat, x: Place, y: Place, next: nat)
    requires Only(place, line, x) && next < |place| && next != line && y != x
    ensures Only(place[line := y][next := x], next, x)
  {
  }

  lemma CollectedSame(place: seq<Place>, collecting: int, b: nat, y: Place)
    requires Collected(place, collecting) && b < |place| && place[b] != Collecting && y != Collecting
    ensures Collected(place[b := y], collecting)
  {
  }

  // ---------- the steps ----------

  /** A line moves from the full list to the victim heap. */
  function AfterFullToVictim(L: Lines, b: nat): Lines
    requires b < |L.place|
  {
    L.(place := L.place[b := VictimHeap], fullList := Without(L.fullList, b), victims := L.victims + {b})
  }

  /** The line part of mark_page_invalid: a line that was full moves to the victim heap. */
  function AfterLineInvalid(d: Dim, L: Lines, b: nat): Lines
    requires b < |L.vpc| && |L.vpc| == |L.ipc| == |L.place|
  {
    var M := L.(vpc := L.vpc[b := L.vpc[b] - 1], ipc := L.ipc[b := L.ipc[b] + 1]);
    if L.vpc[b] == d.Total() then AfterFullToVictim(M, b) else M
  }

  /** mark_page_invalid */
  function AfterInvalid(d: Dim, L: Lines, p: Ppa): Lines
    requires 0 <= p.blk < |L.vpc| && |L.vpc| == |L.ipc| == |L.place|
    requires Blk(p.blk, p.at.ch, p.at.lun) in L.blkVpc && Blk(p.blk, p.at.ch, p.at.lun) in L.blkIpc
  {
    var q := Blk(p.blk, p.at.ch, p.at.lun);
    AfterLineInvalid(d,
      L.(status := L.status[p := PgInvalid],
         blkVpc := L.blkVpc[q := L.blkVpc[q] - 1], blkIpc := L.blkIpc[q := L.blkIpc[q] + 1]),
      p.blk)
  }

  /** mark_page_valid of the page at the write position, which moves past it. */
  function AfterValid(L: Lines, io: IoType, p: Ppa): Lines
    requires 0 <= p.blk < |L.vpc| && Blk(p.blk, p.at.ch, p.at.lun) in L.blkVpc
  {
    var b, q := p.blk, Blk(p.blk, p.at.ch, p.at.lun);
    L.(status := L.status[p := PgValid],
       blkVpc := L.blkVpc[q := L.blkVpc[q] + 1],
       vpc := L.vpc[b := L.vpc[b] + 1],
       userPos := if io.UserIo? then L.userPos + 1 else L.userPos,
       gcPos := if io.GcIo? then L.gcPos + 1 else L.gcPos)
  }

  /** A line that is written to the end goes to the full list or to the victim heap. */
  function AfterLineRetire(d: Dim, L: Lines, b: nat): (M: Lines)
    requires b < |L.vpc| && |L.vpc| == |L.place|
    ensures |M.place| == |L.place| && M.freeList == L.freeList
  {
    var full := L.vpc[b] == d.Total();
    L.(place := L.place[b := if full then FullList else VictimHeap],
       fullList := if full then L.fullList + [b] else L.fullList,
       victims := if full then L.victims else L.victims + {b})
  }

  /** The first free line becomes the line `io` writes. */
  function AfterOpen(L: Lines, io: IoType): Lines
    requires 0 < |L.freeList| && L.freeList[0] < |L.place|
  {
    var next := L.freeList[0];
    L.(place := L.place[next := ActivePlace(io)], freeList := L.freeList[1..],
       user := if io.UserIo? then next else L.user, userPos := if io.UserIo? then 0 else L.userPos,
       gc := if io.GcIo? then next else L.gc, gcPos := if io.GcIo? then 0 else L.gcPos)
  }

  /** The line switch of advance_write_pointer. */
  function AfterRetire(d: Dim, L: Lines, io: IoType): Lines
    requires L.Active(io) < |L.vpc| && |L.vpc| == |L.place| && 0 < |L.freeList| && L.freeList[0] < |L.place|
  {
    AfterOpen(AfterLineRetire(d, L, L.Active(io)), io)
  }

  ghost predicate CanAdvance(d: Dim, L: Lines, io: IoType) {
    L.Pos(io) == |d.ord| ==>
      L.Active(io) < |L.vpc| && |L.vpc| == |L.place| && 0 < |L.freeList| && L.freeList[0] < |L.place|
  }

  /** advance_write_pointer: nothing but the cursor moves, unless the line is used up. */
  ghost function AfterAdvance(d: Dim, L: Lines, io: IoType): Lines
    requires CanAdvance(d, L, io)
  {
    if L.Pos(io) == |d.ord| then AfterRetire(d, L, io) else L
  }

  /** select_victim_line */
  function AfterSelect(L: Lines, b: nat): Lines
    requires b < |L.place|
  {
    L.(place := L.place[b := Collecting], victims := L.victims - {b}, collecting := b, erased := {})
  }

  predicate InBlock(p: Ppa, q: Blk) {
    p.blk == q.blk && p.at.ch == q.ch && p.at.lun == q.lun
  }

  function ErasedPages(status: map<Ppa, PgStatus>, q: Blk): map<Ppa, PgStatus> {
    map p | p in status :: if InBlock(p, q) then PgFree else status[p]
  }

  /** mark_block_free */
  ghost function AfterErase(d: Dim, L: Lines, q: Blk): Lines {
    L.(status := ErasedPages(L.status, q),
       blkVpc := L.blkVpc[q := 0], blkIpc := L.blkIpc[q := 0],
       erased := L.erased + BlkSlots(d.slots, q.ch, q.lun))
  }

  /** mark_line_free */
  function AfterReturn(L: Lines): Lines
    requires 0 <= L.collecting < |L.place| && |L.place| == |L.vpc| == |L.ipc|
  {
    var b := L.collecting;
    L.(place := L.place[b := FreeList], vpc := L.vpc[b := 0], ipc := L.ipc[b := 0],
       freeList := L.freeList + [b], collecting := -1, erased := {})
  }
}
