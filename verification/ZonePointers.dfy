/** Where the write pointers go: what each command does to the zone it names, which status it gives,
    and where a pointer is after a run. */
module ZonePointers {
  import opened ZoneMachine
  import opened ZoneLaws

  /** Nothing but zone `zid` and its buffer differs. */
  ghost predicate OnlyZone(m: Machine, n: Machine, zid: nat) {
    && |n.zones| == |m.zones| && |n.buffers| == |m.buffers|
    && (forall i :: 0 <= i < |m.zones| && i != zid ==> n.zones[i] == m.zones[i])
    && (forall i :: 0 <= i < |m.buffers| && i != zid ==> n.buffers[i] == m.buffers[i])
  }

  // ---------- sequential writes ----------

  /** A write or append that is taken starts at the pointer and moves it by its length; the zone is
      full exactly when that is its end, and otherwise open. */
  lemma WriteMoves(p: Params, m: Machine, slba: nat, nr: nat, append: bool)
    requires Ok(p, m) && p.ZoneOf(slba) < p.nrZones && 0 < nr && !m.zones[p.ZoneOf(slba)].zrwav
    ensures var zid := p.ZoneOf(slba);
            var r := Apply(p, m, Write(slba, nr, append, true));
            r.outcome == Done(Success) ==>
              var z, w := m.zones[zid], r.m.zones[zid];
              && (append || slba == z.wp) && w.wp == z.wp + nr <= p.End(zid)
              && w.zslba == z.zslba && !w.zrwav
              && w.state == (if w.wp == p.End(zid) then Full else if IsOpened(z.state) then z.state else OpenedImpl)
              && OnlyZone(m, r.m, zid) && r.m.buffers == m.buffers && r.m.leaked == m.leaked
  {
    hide Count;
    var zid := p.ZoneOf(slba);
    if WriteReply(p, m, slba, nr, append).status.Success? {
      WriteFits(p, m, zid, nr);
    }
  }

  /** It is taken exactly when it is aligned, starts at the pointer, ends in the zone, and the zone is
      open or can be opened. */
  lemma WriteTakenExactlyWhen(p: Params, m: Machine, slba: nat, nr: nat, append: bool)
    requires Ok(p, m) && p.ZoneOf(slba) < p.nrZones && 0 < nr && !m.zones[p.ZoneOf(slba)].zrwav
    ensures var zid := p.ZoneOf(slba);
            var z := m.zones[zid];
            Apply(p, m, Write(slba, nr, append, true)).outcome == Done(Success) <==>
              && nr * LBA_BYTES % p.writeUnit == 0 && (append || slba == z.wp) && z.wp + nr <= p.End(zid)
              && (|| IsOpened(z.state)
                  || (z.state.Empty? && Used(m, ActiveZone) < p.maxActive && Used(m, OpenZone) < p.maxOpen)
                  || (z.state.Closed? && Used(m, OpenZone) < p.maxOpen))
  {
    hide Count;
    var zid := p.ZoneOf(slba);
    var z := m.zones[zid];
    ZoneOfMeaning(p, z.wp, zid);
    ZoneOfMeaning(p, z.wp + nr - 1, zid);
    assert Used(m, ActiveZone) <= p.Total(ActiveZone) && Used(m, OpenZone) <= p.Total(OpenZone);
  }

  /** The status of a refusal, in the order in which the reasons are looked at. */
  lemma WriteRefusedWith(p: Params, m: Machine, slba: nat, nr: nat, append: bool)
    requires Ok(p, m) && p.ZoneOf(slba) < p.nrZones && 0 < nr && !m.zones[p.ZoneOf(slba)].zrwav
    ensures var z := m.zones[p.ZoneOf(slba)];
            var at := if append then z.wp else slba;
            var o := Apply(p, m, Write(slba, nr, append, true)).outcome;
            var whole := nr * LBA_BYTES % p.writeUnit == 0;
            var inside := whole && p.ZoneOf(at) == p.ZoneOf(at + nr - 1);
            var ready := inside && at == z.wp;
            && (o == Done(InvalidWrite) <==> !whole || (inside && !ready))
            && (o == Done(ErrBoundary) <==> whole && !inside)
            && (o == Done(ErrFull) <==> ready && z.state.Full?)
            && (o == Done(ErrReadOnly) <==> ready && z.state.ReadOnly?)
            && (o == Done(ErrOffline) <==> ready && z.state.Offline?)
            && (o == Done(NoActiveZone) <==> ready && z.state.Empty? && Used(m, ActiveZone) == p.maxActive)
            && (o == Done(NoOpenZone) <==>
                  && ready && Used(m, OpenZone) == p.maxOpen
                  && (z.state.Closed? || (z.state.Empty? && Used(m, ActiveZone) != p.maxActive)))
  {
    hide Count;
  }

  // ---------- flushes ----------

  /** An explicit flush that succeeds moves the pointer behind the LBA it names, by whole granules. */
  lemma FlushMoves(p: Params, m: Machine, slba: nat)
    requires Ok(p, m) && p.ZoneOf(slba) < p.nrZones
    ensures var zid := p.ZoneOf(slba);
            var r := Apply(p, m, Send(FlushExplicitZrwa, slba, false));
            r.outcome == Done(Success) ==>
              var z, w := m.zones[zid], r.m.zones[zid];
              && z.wp <= slba && w.wp == slba + 1 && 0 < p.zrwafgLbas && (w.wp - z.wp) % p.zrwafgLbas == 0
              && w.zslba == z.zslba && w.zrwav == z.zrwav
              && w.state == (if w.wp == p.End(zid) then Full else z.state)
              && OnlyZone(m, r.m, zid) && r.m.buffers == m.buffers && r.m.leaked == m.leaked
  {
    hide Count;
    ZoneOfMeaning(p, slba, p.ZoneOf(slba));
  }

  lemma FlushRefusedWith(p: Params, m: Machine, slba: nat)
    requires Ok(p, m) && p.ZoneOf(slba) < p.nrZones
    ensures var z := m.zones[p.ZoneOf(slba)];
            var o := Apply(p, m, Send(FlushExplicitZrwa, slba, false)).outcome;
            var inArea := z.zrwav && z.wp <= slba && (z.wp + p.zrwaLbas == 0 || slba < z.wp + p.zrwaLbas);
            var granules := inArea && 0 < p.zrwafgLbas && (slba - z.wp + 1) % p.zrwafgLbas == 0;
            && (o == Done(Success) <==> granules && IsActive(z.state))
            && (o == Done(InvalidZoneOperation) <==> !inArea || (granules && !IsActive(z.state)))
            && (o == Done(InvalidField) <==> inArea && 0 < p.zrwafgLbas && !granules)
            && (o == Crash <==> inArea && p.zrwafgLbas == 0)
  {
    hide Count;
    ZoneOfMeaning(p, slba, p.ZoneOf(slba));
  }

  /** What a write up to `elba` has to move the pointer by: beyond the area the fewest whole granules
      that bring `elba` into the new area, for a write that ends the zone all the rest, otherwise
      nothing. */
  ghost predicate Moves(p: Params, zid: nat, wp: nat, elba: nat, n: nat) {
    if wp + p.zrwaLbas <= elba then
      && 0 < p.zrwafgLbas && n % p.zrwafgLbas == 0 && elba < wp + n + p.zrwaLbas
      && (forall k: nat :: elba < wp + k * p.zrwafgLbas + p.zrwaLbas ==> n <= k * p.zrwafgLbas)
    else n == if elba + 1 == p.End(zid) then elba + 1 - wp else 0
  }

  /** There is only one such number. */
  lemma MovesOnce(p: Params, zid: nat, wp: nat, elba: nat, a: nat, b: nat)
    requires Moves(p, zid, wp, elba, a) && Moves(p, zid, wp, elba, b)
    ensures a == b
  {
    if wp + p.zrwaLbas <= elba {
      var g := p.zrwafgLbas;
      assert a == a / g * g && b == b / g * g;
      assert elba < wp + a / g * g + p.zrwaLbas && elba < wp + b / g * g + p.zrwaLbas;
    }
  }

  /** A random write area write that succeeds moves the pointer by that, takes as much from the buffer,
      and a whole area before that when the zone was closed. */
  lemma ZrwaWriteMoves(p: Params, m: Machine, slba: nat, nr: nat)
    requires Ok(p, m) && p.ZoneOf(slba) < p.nrZones && 0 < nr && m.zones[p.ZoneOf(slba)].zrwav
    ensures var zid := p.ZoneOf(slba);
            var r := Apply(p, m, Write(slba, nr, false, true));
            r.outcome == Done(Success) ==>
              var z, w := m.zones[zid], r.m.zones[zid];
              && z.wp <= slba && z.wp <= w.wp <= p.End(zid) && Moves(p, zid, z.wp, slba + nr - 1, w.wp - z.wp)
              && w.zslba == z.zslba && w.zrwav
              && w.state == (if w.wp == p.End(zid) then Full else if IsOpened(z.state) then z.state else OpenedImpl)
              && OnlyZone(m, r.m, zid)
              && r.m.buffers[zid]
                 == m.buffers[zid] - (if z.state.Closed? then p.zrwaBytes else 0) - (w.wp - z.wp) * LBA_BYTES
  {
    hide ImplicitFlush, Count, Moves;
    var zid := p.ZoneOf(slba);
    var z, elba := m.zones[zid], slba + nr - 1;
    ReachMeaning(p, m, slba, nr);
    if InReach(p, zid, z.wp, slba, nr) && (0 < p.zrwafgLbas || elba < z.wp + p.zrwaLbas) {
      assert ZoneOk(p, zid, z);
      FlushStaysInside(p, zid, z.wp, elba);
      FlushIsMove(p, zid, z.wp, elba);
    }
  }

  /** It has to wait exactly when it is in reach, the zone is or can be opened, and what it moves does
      not fit into what the buffer has left; otherwise, and in reach, it succeeds. */
  lemma ZrwaWriteWaits(p: Params, m: Machine, slba: nat, nr: nat, n: nat)
    requires Ok(p, m) && p.ZoneOf(slba) < p.nrZones && 0 < nr && m.zones[p.ZoneOf(slba)].zrwav
    requires 0 < p.zrwaBufferBytes && Moves(p, p.ZoneOf(slba), m.zones[p.ZoneOf(slba)].wp, slba + nr - 1, n)
    ensures var zid := p.ZoneOf(slba);
            var z := m.zones[zid];
            var o := Apply(p, m, Write(slba, nr, false, true)).outcome;
            var area := if z.state.Closed? then p.zrwaBytes else 0;
            var ready := InReach(p, zid, z.wp, slba, nr)
                         && (|| IsOpened(z.state)
                             || (z.state.Closed? && Used(m, OpenZone) < p.maxOpen && 0 < area <= m.buffers[zid]));
            && (o == Retry <==> ready && 0 < n && m.buffers[zid] - area < n * LBA_BYTES)
            && (o == Done(Success) <==> ready && (n == 0 || n * LBA_BYTES <= m.buffers[zid] - area))
  {
    hide ImplicitFlush, Count, Moves;
    var zid := p.ZoneOf(slba);
    var z, elba := m.zones[zid], slba + nr - 1;
    ReachMeaning(p, m, slba, nr);
    assert Used(m, OpenZone) <= p.Total(OpenZone);
    if InReach(p, zid, z.wp, slba, nr) {
      MovesNeeds(p, zid, z.wp, elba, n);
      FlushIsMove(p, zid, z.wp, elba);
      MovesOnce(p, zid, z.wp, elba, n, ImplicitFlush(p, zid, z.wp, elba));
    }
  }

  lemma MovesNeeds(p: Params, zid: nat, wp: nat, elba: nat, n: nat)
    requires Moves(p, zid, wp, elba, n)
    ensures 0 < p.zrwafgLbas || elba < wp + p.zrwaLbas
  {
  }

  lemma FlushIsMove(p: Params, zid: nat, wp: nat, elba: nat)
    requires wp <= elba && (0 < p.zrwafgLbas || elba < wp + p.zrwaLbas)
    ensures Moves(p, zid, wp, elba, ImplicitFlush(p, zid, wp, elba))
  {
    if 0 < p.zrwafgLbas {
      ImplicitFlushMeaning(p, zid, wp, elba);
    }
  }

  /** The status of a refusal of a random write area write, in the order of the reasons. */
  lemma ZrwaWriteRefusedWith(p: Params, m: Machine, slba: nat, nr: nat)
    requires Ok(p, m) && p.ZoneOf(slba) < p.nrZones && 0 < nr && m.zones[p.ZoneOf(slba)].zrwav
    ensures var zid := p.ZoneOf(slba);
            var z := m.zones[zid];
            var o := Apply(p, m, Write(slba, nr, false, true)).outcome;
            var whole := nr * LBA_BYTES % p.writeUnit == 0;
            var inside := whole && slba + nr <= p.End(zid);
            var ready := InReach(p, zid, z.wp, slba, nr);
            && (o == Done(ErrBoundary) <==> whole && !inside)
            && (o == Done(InvalidWrite) <==> !whole || (inside && !ready))
            && (o == Done(ErrFull) <==> ready && z.state.Full?)
            && (o == Done(ErrReadOnly) <==> ready && z.state.ReadOnly?)
            && (o == Done(ErrOffline) <==> ready && z.state.Offline?)
            && (o == Done(NoOpenZone) <==> ready && z.state.Closed? && Used(m, OpenZone) == p.maxOpen)
  {
    hide ImplicitFlush, Count;
    var zid := p.ZoneOf(slba);
    ReachMeaning(p, m, slba, nr);
    ZoneOfMeaning(p, slba, zid);
    ZoneOfMeaning(p, slba + nr - 1, zid);
  }

  // ---------- zone management ----------

  /** What opening does, and which refusal it gives. */
  lemma OpenDoes(p: Params, m: Machine, slba: nat, zrwa: bool)
    requires Ok(p, m) && p.ZoneOf(slba) < p.nrZones
    ensures var zid := p.ZoneOf(slba);
            var z := m.zones[zid];
            var r := Apply(p, m, Send(OpenZoneAction, slba, zrwa));
            var active, open := Used(m, ActiveZone) == p.maxActive, Used(m, OpenZone) == p.maxOpen;
            var area := zrwa && Used(m, ZrwaZone) == p.maxZrwa;
            && (r.outcome == Done(NoActiveZone) <==> z.state.Empty? && active)
            && (r.outcome == Done(NoOpenZone) <==> open && ((z.state.Empty? && !active) || z.state.Closed?))
            && (r.outcome == Done(ZrwaRsrcUnavail) <==> z.state.Empty? && !active && !open && area)
            && (r.outcome == Done(InvalidTransition) <==> z.state.Full? || z.state.ReadOnly? || z.state.Offline?)
            && (r.outcome == Done(Success) <==>
                  || IsOpened(z.state) || (z.state.Closed? && !open)
                  || (z.state.Empty? && !active && !open && !area))
            && (r.outcome == Done(Success) ==>
                  && OnlyZone(m, r.m, zid) && r.m.buffers == m.buffers && r.m.leaked == m.leaked
                  && r.m.zones[zid] == Zone(OpenedExpl, z.zslba, z.wp, z.zrwav || (z.state.Empty? && zrwa)))
  {
    hide Count;
  }

  lemma CloseDoes(p: Params, m: Machine, slba: nat, zrwa: bool)
    requires Ok(p, m) && p.ZoneOf(slba) < p.nrZones
    ensures var zid := p.ZoneOf(slba);
            var z := m.zones[zid];
            var r := Apply(p, m, Send(CloseZone, slba, zrwa));
            && r.outcome == Done(if IsActive(z.state) then Success else InvalidTransition)
            && (IsActive(z.state) ==>
                  && OnlyZone(m, r.m, zid) && r.m.buffers == m.buffers && r.m.leaked == m.leaked
                  && r.m.zones[zid] == Zone(Closed, z.zslba, z.wp, z.zrwav))
  {
    hide Count;
  }

  /** Finishing leaves the pointer where it is, and resetting sends it to the start and refills the
      buffer of the random write area. */
  lemma FinishAndResetDo(p: Params, m: Machine, slba: nat, zrwa: bool)
    requires Ok(p, m) && p.ZoneOf(slba) < p.nrZones
    ensures var zid := p.ZoneOf(slba);
            var z := m.zones[zid];
            var f, r := Apply(p, m, Send(FinishZone, slba, zrwa)), Apply(p, m, Send(ResetZone, slba, zrwa));
            var lost := z.state.ReadOnly? || z.state.Offline?;
            && f.outcome == r.outcome == Done(if lost then InvalidTransition else Success)
            && (!lost ==>
                  && OnlyZone(m, f.m, zid) && f.m.buffers == m.buffers && f.m.leaked == m.leaked
                  && f.m.zones[zid] == Zone(Full, z.zslba, z.wp, z.zrwav)
                  && OnlyZone(m, r.m, zid) && r.m.leaked == m.leaked
                  && r.m.zones[zid] == Zone(Empty, p.Start(zid), p.Start(zid), false)
                  && r.m.buffers[zid] == if 0 < p.zrwaBufferBytes then p.zrwaBufferBytes else m.buffers[zid])
  {
    hide Count;
    assert ZoneOk(p, p.ZoneOf(slba), m.zones[p.ZoneOf(slba)]);
  }

  lemma OfflineDoes(p: Params, m: Machine, slba: nat, zrwa: bool)
    requires Ok(p, m) && p.ZoneOf(slba) < p.nrZones
    ensures var zid := p.ZoneOf(slba);
            var z := m.zones[zid];
            var r := Apply(p, m, Send(OfflineZone, slba, zrwa));
            var lost := z.state.ReadOnly? || z.state.Offline?;
            && r.outcome == Done(if lost then Success else InvalidTransition)
            && (lost ==>
                  && OnlyZone(m, r.m, zid) && r.m.buffers == m.buffers && r.m.leaked == m.leaked
                  && r.m.zones[zid] == Zone(Offline, z.zslba, z.wp, z.zrwav))
  {
    hide Count;
  }

  // ---------- where a pointer is after a run ----------

  /** How far the pointer of zone `zid` is from its start when the last command has ended with
      `outcome`; before it the distance was `was`, and the zone was `z`. */
  ghost function Onward(p: Params, c: Command, outcome: Outcome, zid: nat, z: Zone, was: int): int {
    match c
    case Send(action, slba, _) =>
      if p.zoneLbas == 0 || p.ZoneOf(slba) != zid || outcome != Done(Success) then was
      else if action.ResetZone? then 0
      else if action.FlushExplicitZrwa? then slba + 1 - p.Start(zid)
      else was
    case SendToAll(action, _) =>
      if action.ResetZone? then 0
      else if action.FlushExplicitZrwa? && FirstFlushes(p, zid, z) then 1
      else was
    case Write(slba, nr, _, _) =>
      if p.zoneLbas == 0 || nr == 0 || p.ZoneOf(slba) != zid || outcome != Done(Success) then was
      else if !z.zrwav then was + nr
      else was + Flushed(p, zid, z.wp, slba + nr - 1)
    case Release(_, _) => was
  }

  /** A flush of all zones names the first LBA of each: it moves only a pointer that stands there, and
      only when a granule is one LBA. */
  predicate FirstFlushes(p: Params, zid: nat, z: Zone) {
    z.wp == p.Start(zid) && z.zrwav && IsActive(z.state) && p.zrwafgLbas == 1
  }

  /** The number that a write up to `elba` moves the pointer by. */
  ghost function Flushed(p: Params, zid: nat, wp: nat, elba: nat): nat {
    if exists n: nat :: Moves(p, zid, wp, elba, n) then
      var n: nat :| Moves(p, zid, wp, elba, n); n
    else 0
  }

  lemma FlushedIs(p: Params, zid: nat, wp: nat, elba: nat, n: nat)
    requires Moves(p, zid, wp, elba, n)
    ensures Flushed(p, zid, wp, elba) == n
  {
    hide Moves;
    MovesOnce(p, zid, wp, elba, n, Flushed(p, zid, wp, elba));
  }

  /** The LBAs written to zone `zid` since it was last reset, command by command. */
  ghost function Written(p: Params, cs: seq<Command>, zid: nat): int
    requires AllPossible(p, cs) && zid < p.nrZones
  {
    if cs == [] then 0
    else
      var most, c := cs[..|cs| - 1], cs[|cs| - 1];
      var before := Run(p, most);
      if before.outcome.Halts() then Written(p, most, zid)
      else Onward(p, c, Run(p, cs).outcome, zid, before.m.zones[zid], Written(p, most, zid))
  }

  /** A command for one zone moves its pointer as stated, and no other. */
  lemma SendPointer(p: Params, m: Machine, action: Action, slba: nat, zrwa: bool, zid: nat)
    requires Ok(p, m) && p.ZoneOf(slba) < p.nrZones && zid < p.nrZones
    ensures var r := SendReply(p, m, action, slba, zrwa);
            r.m.zones[zid].wp ==
              if p.ZoneOf(slba) != zid || r.outcome != Done(Success) then m.zones[zid].wp
              else if action.ResetZone? then p.Start(zid)
              else if action.FlushExplicitZrwa? then slba + 1
              else m.zones[zid].wp
  {
    hide Count;
    assert ZoneOk(p, zid, m.zones[zid]);
  }

  /** A command leaves every zone but the one it names alone. */
  lemma SendElsewhere(p: Params, m: Machine, action: Action, slba: nat, zrwa: bool, zid: nat)
    requires Ok(p, m) && p.ZoneOf(slba) < p.nrZones && zid < p.nrZones && p.ZoneOf(slba) != zid
    ensures SendReply(p, m, action, slba, zrwa).m.zones[zid] == m.zones[zid]
  {
    hide Count;
  }

  lemma SendFirst(p: Params, m: Machine, action: Action, zrwa: bool, zid: nat)
    requires Ok(p, m) && zid < p.nrZones && (action.ResetZone? ==> NoneLost(m))
    ensures p.ZoneOf(p.Start(zid)) == zid
    ensures var r := SendReply(p, m, action, p.Start(zid), zrwa);
            && r.m.zones[zid].wp == FirstPointer(p, action, zid, m.zones[zid])
            && (r.outcome.Crash? ==> p.zrwafgLbas == 0 && action.FlushExplicitZrwa?)
  {
    hide Count;
    ZoneOfMeaning(p, p.Start(zid), zid);
    assert ZoneOk(p, zid, m.zones[zid]);
  }

  /** The pointer of a zone after a command for its first LBA. */
  function FirstPointer(p: Params, action: Action, zid: nat, z: Zone): nat {
    if action.ResetZone? then p.Start(zid)
    else if action.FlushExplicitZrwa? && FirstFlushes(p, zid, z) then p.Start(zid) + 1
    else z.wp
  }

  lemma {:induction false} SendAllPointer(p: Params, m: Machine, action: Action, zrwa: bool, from: nat, zid: nat)
    requires Ok(p, m) && from <= p.nrZones && zid < p.nrZones && (action.ResetZone? ==> NoneLost(m))
    ensures SendAll(p, m, action, zrwa, from).m.zones[zid].wp
            == if zid < from then m.zones[zid].wp else FirstPointer(p, action, zid, m.zones[zid])
    decreases p.nrZones - from
  {
    hide SendReply, Count;
    if from < p.nrZones {
      SendFirst(p, m, action, zrwa, from);
      SendKeeps(p, m, action, p.Start(from), zrwa);
      KeepsNoneLost(p, m, action, p.Start(from), zrwa);
      var r := SendReply(p, m, action, p.Start(from), zrwa);
      if zid != from {
        SendElsewhere(p, m, action, p.Start(from), zrwa, zid);
      }
      if !r.outcome.Crash? {
        SendAllPointer(p, r.m, action, zrwa, from + 1, zid);
      }
    }
  }

  lemma KeepsNoneLost(p: Params, m: Machine, action: Action, slba: nat, zrwa: bool)
    requires Ok(p, m) && p.ZoneOf(slba) < p.nrZones
    ensures NoneLost(m) ==> NoneLost(SendReply(p, m, action, slba, zrwa).m)
  {
    hide SendReply;
    if NoneLost(m) {
      SendLosesNone(p, m, action, slba, zrwa);
    }
  }

  lemma WritePointer(p: Params, m: Machine, slba: nat, nr: nat, append: bool, granted: bool, zid: nat)
    requires Ok(p, m) && p.ZoneOf(slba) < p.nrZones && 0 < nr && zid < p.nrZones
    ensures var c := Write(slba, nr, append, granted);
            var r := Apply(p, m, c);
            r.m.zones[zid].wp - p.Start(zid)
            == Onward(p, c, r.outcome, zid, m.zones[zid], m.zones[zid].wp - p.Start(zid))
  {
    hide Apply, Flushed, Moves, Count;
    var z := m.zones[p.ZoneOf(slba)];
    OtherOutcome(p, m, slba, nr, append, granted);
    if z.zrwav {
      ZrwaWriteMoves(p, m, slba, nr);
      var r := Apply(p, m, Write(slba, nr, append, granted));
      if r.outcome == Done(Success) {
        FlushedIs(p, p.ZoneOf(slba), z.wp, slba + nr - 1, r.m.zones[p.ZoneOf(slba)].wp - z.wp);
      }
    } else if granted {
      WriteMoves(p, m, slba, nr, append);
    }
  }

  /** A write that does not succeed moves no pointer. */
  lemma OtherOutcome(p: Params, m: Machine, slba: nat, nr: nat, append: bool, granted: bool)
    requires Ok(p, m) && p.ZoneOf(slba) < p.nrZones && 0 < nr
    ensures var r := Apply(p, m, Write(slba, nr, append, granted));
            && (r.outcome != Done(Success) ==>
                  forall i :: 0 <= i < |m.zones| ==> i < |r.m.zones| && r.m.zones[i].wp == m.zones[i].wp)
            && (r.outcome == Done(Success) ==> m.zones[p.ZoneOf(slba)].zrwav || granted)
            && (m.zones[p.ZoneOf(slba)].zrwav ==> r == Apply(p, m, Write(slba, nr, false, true)))
            && (granted ==> r == Apply(p, m, Write(slba, nr, append, true)))
  {
    hide ImplicitFlush, Count;
  }

  lemma StepPointer(p: Params, m: Machine, c: Command, zid: nat)
    requires Ok(p, m) && Possible(p, c) && NoneLost(m) && zid < p.nrZones
    ensures Apply(p, m, c).m.zones[zid].wp - p.Start(zid)
            == Onward(p, c, Apply(p, m, c).outcome, zid, m.zones[zid], m.zones[zid].wp - p.Start(zid))
  {
    hide SendAll, SendReply, Flushed, WriteReply, ZrwaWriteReply, Count;
    match c
    case Send(action, slba, zrwa) => SendPointer(p, m, action, slba, zrwa, zid);
    case SendToAll(action, zrwa) => SendAllPointer(p, m, action, zrwa, 0, zid);
    case Write(slba, nr, append, granted) => WritePointer(p, m, slba, nr, append, granted, zid);
    case Release(_, _) =>
  }

  /** Over every run, a zone's pointer is its start plus the LBAs written since it was last reset:
      all LBAs of the sequential writes that succeeded, and for a random write area what its flushes
      moved out of it. */
  lemma {:induction false} PointerIsWritten(p: Params, cs: seq<Command>, zid: nat)
    requires AllPossible(p, cs) && zid < p.nrZones
    ensures Run(p, cs).m.zones[zid].wp == p.Start(zid) + Written(p, cs, zid)
  {
    hide Apply, Onward;
    if cs == [] {
      RunNothing(p);
    } else {
      var most := cs[..|cs| - 1];
      PointerIsWritten(p, most, zid);
      RunLosesNone(p, most);
      if !Run(p, most).outcome.Halts() {
        StepPointer(p, Run(p, most).m, cs[|cs| - 1], zid);
      }
    }
  }

  // ---------- runs without random write areas ----------

  /** The command does not ask for a random write area. */
  predicate Plain(c: Command) {
    match c
    case Send(action, _, zrwa) => !(action.OpenZoneAction? && zrwa)
    case SendToAll(action, zrwa) => !(action.OpenZoneAction? && zrwa)
    case _ => true
  }

  ghost predicate NoAreas(m: Machine) {
    forall i :: 0 <= i < |m.zones| ==> !m.zones[i].zrwav
  }

  /** The LBAs of all writes to zone `zid` that succeeded since it was last reset. */
  ghost function Lbas(p: Params, cs: seq<Command>, zid: nat): nat
    requires AllPossible(p, cs)
  {
    if cs == [] then 0
    else
      var most, c := cs[..|cs| - 1], cs[|cs| - 1];
      match c
      case Write(slba, nr, _, _) =>
        Lbas(p, most, zid) + if p.ZoneOf(slba) == zid && Run(p, cs).outcome == Done(Success) then nr else 0
      case Send(action, slba, _) =>
        if action.ResetZone? && p.ZoneOf(slba) == zid && Run(p, cs).outcome == Done(Success) then 0
        else Lbas(p, most, zid)
      case SendToAll(action, _) => if action.ResetZone? then 0 else Lbas(p, most, zid)
      case _ => Lbas(p, most, zid)
  }

  lemma SendPlain(p: Params, m: Machine, action: Action, slba: nat, zrwa: bool)
    requires Ok(p, m) && NoAreas(m) && p.ZoneOf(slba) < p.nrZones && !(action.OpenZoneAction? && zrwa)
    ensures var r := SendReply(p, m, action, slba, zrwa);
            NoAreas(r.m) && !r.outcome.Halts() && (action.FlushExplicitZrwa? ==> r.outcome != Done(Success))
  {
    hide Count;
  }

  lemma {:induction false} SendAllPlain(p: Params, m: Machine, action: Action, zrwa: bool, from: nat)
    requires Ok(p, m) && NoAreas(m) && from <= p.nrZones && !(action.OpenZoneAction? && zrwa)
    ensures NoAreas(SendAll(p, m, action, zrwa, from).m) && !SendAll(p, m, action, zrwa, from).outcome.Halts()
    decreases p.nrZones - from
  {
    hide SendReply, Count;
    if from < p.nrZones {
      ZoneOfMeaning(p, p.Start(from), from);
      SendKeeps(p, m, action, p.Start(from), zrwa);
      SendPlain(p, m, action, p.Start(from), zrwa);
      SendAllPlain(p, SendReply(p, m, action, p.Start(from), zrwa).m, action, zrwa, from + 1);
    }
  }

  lemma StepPlain(p: Params, m: Machine, c: Command)
    requires Ok(p, m) && Possible(p, c) && NoAreas(m) && Plain(c)
    ensures NoAreas(Apply(p, m, c).m) && !Apply(p, m, c).outcome.Halts()
    ensures c.Send? && c.action.FlushExplicitZrwa? ==> Apply(p, m, c).outcome != Done(Success)
  {
    hide SendAll, SendReply, Count, ZrwaWriteReply;
    match c
    case Send(action, slba, zrwa) => SendPlain(p, m, action, slba, zrwa);
    case SendToAll(action, zrwa) => SendAllPlain(p, m, action, zrwa, 0);
    case Write(slba, nr, append, granted) =>
    case Release(_, _) =>
  }

  /** Without random write areas no run halts, and a zone's pointer is its start plus the lengths of all
      writes that succeeded since it was last reset. */
  lemma {:induction false} PlainPointer(p: Params, cs: seq<Command>, zid: nat)
    requires AllPossible(p, cs) && zid < p.nrZones && forall c :: c in cs ==> Plain(c)
    ensures NoAreas(Run(p, cs).m) && !Run(p, cs).outcome.Halts()
    ensures Run(p, cs).m.zones[zid].wp == p.Start(zid) + Lbas(p, cs, zid)
  {
    hide Apply, Flushed;
    if cs == [] {
      RunNothing(p);
    } else {
      var most, c := cs[..|cs| - 1], cs[|cs| - 1];
      PlainPointer(p, most, zid);
      RunLosesNone(p, most);
      StepPlain(p, Run(p, most).m, c);
      StepPointer(p, Run(p, most).m, c, zid);
    }
  }

  // ---------- select_all ----------

  /** Commands one after the other from `m` on, up to one that halts. */
  ghost function From(p: Params, m: Machine, cs: seq<Command>): (n: Machine)
    requires Ok(p, m) && AllPossible(p, cs)
    ensures Ok(p, n)
    decreases |cs|
  {
    if cs == [] then m
    else
      var r := Apply(p, m, cs[0]);
      if r.outcome.Halts() then r.m else From(p, r.m, cs[1..])
  }

  /** The command for every zone from `zid` on, by its first LBA. */
  function Each(p: Params, action: Action, zrwa: bool, zid: nat): seq<Command>
    requires zid <= p.nrZones
    decreases p.nrZones - zid
  {
    if zid == p.nrZones then [] else [Send(action, p.Start(zid), zrwa)] + Each(p, action, zrwa, zid + 1)
  }

  lemma {:induction false} EachPossible(p: Params, action: Action, zrwa: bool, zid: nat)
    requires p.Sane() && zid <= p.nrZones
    ensures AllPossible(p, Each(p, action, zrwa, zid)) && |Each(p, action, zrwa, zid)| == p.nrZones - zid
    ensures forall i :: zid <= i < p.nrZones ==> Each(p, action, zrwa, zid)[i - zid] == Send(action, p.Start(i), zrwa)
    decreases p.nrZones - zid
  {
    if zid < p.nrZones {
      ZoneOfMeaning(p, p.Start(zid), zid);
      EachPossible(p, action, zrwa, zid + 1);
    }
  }

  /** A command for all zones is the command for each of them, in order. */
  lemma {:induction false} SendAllIsEach(p: Params, m: Machine, action: Action, zrwa: bool, zid: nat)
    requires Ok(p, m) && zid <= p.nrZones
    ensures AllPossible(p, Each(p, action, zrwa, zid))
    ensures SendAll(p, m, action, zrwa, zid).m == From(p, m, Each(p, action, zrwa, zid))
    decreases p.nrZones - zid
  {
    hide SendReply, Count;
    EachPossible(p, action, zrwa, zid);
    if zid < p.nrZones {
      ZoneOfMeaning(p, p.Start(zid), zid);
      SendKeeps(p, m, action, p.Start(zid), zrwa);
      HaltIsCrash(p, m, action, p.Start(zid), zrwa);
      var r := SendReply(p, m, action, p.Start(zid), zrwa);
      if !r.outcome.Crash? {
        SendAllIsEach(p, r.m, action, zrwa, zid + 1);
      }
    }
  }

  lemma HaltIsCrash(p: Params, m: Machine, action: Action, slba: nat, zrwa: bool)
    requires Ok(p, m) && p.ZoneOf(slba) < p.nrZones
    ensures !SendReply(p, m, action, slba, zrwa).outcome.Stop?
  {
    hide Count;
  }
}
