/** What every command keeps, what a refused command leaves alone, what an implicit flush does to the
    write pointer, and what holds over every run. */
module ZoneLaws {
  import opened Arithmetic
  import opened ZoneMachine

  // ---------- every command keeps the invariant ----------

  lemma CloseKeeps(p: Params, m: Machine, zid: nat)
    requires Ok(p, m) && zid < p.nrZones
    ensures Ok(p, CloseReply(m, zid).m)
  {
    var z := m.zones[zid];
    if IsActive(z.state) {
      PutOk(p, m, zid, z.(state := Closed));
    }
  }

  lemma FinishKeeps(p: Params, m: Machine, zid: nat)
    requires Ok(p, m) && zid < p.nrZones
    ensures Ok(p, FinishReply(m, zid).m)
  {
    PutOk(p, m, zid, m.zones[zid].(state := Full));
  }

  lemma OpenKeeps(p: Params, m: Machine, zid: nat, zrwa: bool)
    requires Ok(p, m) && zid < p.nrZones
    ensures Ok(p, OpenReply(p, m, zid, zrwa).m)
  {
    var z := m.zones[zid];
    if z.state.Empty? && OpenReply(p, m, zid, zrwa).status.Success? {
      PutOk(p, m, zid, z.(state := OpenedExpl, zrwav := zrwa || z.zrwav));
    } else if OpenReply(p, m, zid, zrwa).status.Success? {
      PutOk(p, m, zid, z.(state := OpenedExpl));
    }
  }

  lemma BuffersKeep(p: Params, m: Machine, n: Machine)
    requires Ok(p, m) && n.zones == m.zones && |n.buffers| == |m.buffers| && n.leaked == m.leaked
    ensures Ok(p, n)
  {
    forall r: Resource ensures Used(n, r) <= p.Total(r) {
      assert Used(m, r) <= p.Total(r);
    }
  }

  lemma ResetKeeps(p: Params, m: Machine, zid: nat)
    requires Ok(p, m) && zid < p.nrZones
    ensures Ok(p, ResetReply(p, m, zid).m)
  {
    var z := Zone(Empty, m.zones[zid].zslba, m.zones[zid].zslba, false);
    if ResetReply(p, m, zid).status.Success? {
      PutOk(p, m, zid, z);
      BuffersKeep(p, Put(m, zid, z), Refilled(p, Put(m, zid, z), zid));
    }
  }

  lemma OfflineKeeps(p: Params, m: Machine, zid: nat)
    requires Ok(p, m) && zid < p.nrZones
    ensures Ok(p, OfflineReply(m, zid).m)
  {
    PutOk(p, m, zid, m.zones[zid].(state := Offline));
  }

  /** Moving the pointer of an active zone inside the zone. */
  lemma PointerKeeps(p: Params, m: Machine, zid: nat, z: Zone, wp: nat)
    requires Ok(p, m) && zid < p.nrZones && z.zslba == p.Start(zid) && p.Start(zid) <= wp <= p.End(zid)
    requires IsActive(z.state)
    requires forall r: Resource :: Holds(z, r) && IsFull(p, m, r) ==> Holds(m.zones[zid], r)
    ensures Ok(p, Put(m, zid, WithPointer(p, zid, z, wp)))
  {
    PutOk(p, m, zid, WithPointer(p, zid, z, wp));
  }

  lemma FlushKeeps(p: Params, m: Machine, slba: nat)
    requires Ok(p, m) && p.ZoneOf(slba) < p.nrZones
    ensures Ok(p, FlushReply(p, m, slba).m)
  {
    var zid := p.ZoneOf(slba);
    ZoneOfMeaning(p, slba, zid);
    if FlushReply(p, m, slba).outcome == Done(Success) {
      PointerKeeps(p, m, zid, m.zones[zid], slba + 1);
    }
  }

  lemma SendKeeps(p: Params, m: Machine, action: Action, slba: nat, zrwa: bool)
    requires Ok(p, m) && p.ZoneOf(slba) < p.nrZones
    ensures Ok(p, SendReply(p, m, action, slba, zrwa).m)
  {
    var zid := p.ZoneOf(slba);
    match action
    case CloseZone => CloseKeeps(p, m, zid);
    case FinishZone => FinishKeeps(p, m, zid);
    case OpenZoneAction => OpenKeeps(p, m, zid, zrwa);
    case ResetZone => ResetKeeps(p, m, zid);
    case OfflineZone => OfflineKeeps(p, m, zid);
    case FlushExplicitZrwa => FlushKeeps(p, m, slba);
  }

  /** A write that starts at the pointer of a zone that is not full, and ends in the same zone. */
  lemma WriteFits(p: Params, m: Machine, zid: nat, nr: nat)
    requires Ok(p, m) && zid < p.nrZones && 0 < nr && m.zones[zid].wp < p.End(zid)
    requires p.ZoneOf(m.zones[zid].wp) == p.ZoneOf(m.zones[zid].wp + nr - 1)
    ensures m.zones[zid].wp + nr <= p.End(zid)
  {
    ZoneOfMeaning(p, m.zones[zid].wp, zid);
    ZoneOfMeaning(p, m.zones[zid].wp + nr - 1, zid);
  }

  lemma WriteKeeps(p: Params, m: Machine, slba: nat, nr: nat, append: bool)
    requires Ok(p, m) && p.ZoneOf(slba) < p.nrZones && 0 < nr
    ensures Ok(p, WriteReply(p, m, slba, nr, append).m)
  {
    var zid := p.ZoneOf(slba);
    var z := m.zones[zid];
    if WriteReply(p, m, slba, nr, append).status.Success? {
      WriteFits(p, m, zid, nr);
      PointerKeeps(p, m, zid, if IsOpened(z.state) then z else z.(state := OpenedImpl), z.wp + nr);
    }
  }

  // ---------- the implicit flush ----------

  lemma RoundUp(a: nat, g: nat)
    requires 0 < g
    ensures a <= DivRoundUp(a, g) * g < a + g
    ensures forall k: nat :: a <= k * g ==> DivRoundUp(a, g) * g <= k * g
  {
    hide DivRoundUp;
    DivRoundUpBound(a, g);
    forall k: nat | a <= k * g ensures DivRoundUp(a, g) * g <= k * g {
      LeastMultiple(a, g, DivRoundUp(a, g), k);
    }
  }

  lemma LeastMultiple(a: nat, g: nat, q: nat, k: nat)
    requires q * g < a + g && a <= k * g
    ensures q * g <= k * g
  {
    assert (q - k) * g == q * g - k * g;
    if k < q {
      MulMonotone(g, 1, q - k);
      assert false;
    }
  }

  /** A write beyond the area moves the pointer by the fewest whole granules that bring its last LBA
      into the new area; any other write moves it only when it ends the zone, and then to the end. */
  lemma ImplicitFlushMeaning(p: Params, zid: nat, wp: nat, elba: nat)
    requires 0 < p.zrwafgLbas && wp <= elba
    ensures var n := ImplicitFlush(p, zid, wp, elba);
            if wp + p.zrwaLbas <= elba then
              && n % p.zrwafgLbas == 0 && 0 < n && elba < wp + n + p.zrwaLbas
              && (forall k: nat :: elba < wp + k * p.zrwafgLbas + p.zrwaLbas ==> n <= k * p.zrwafgLbas)
            else
              && (n > 0 <==> elba + 1 == p.End(zid))
              && (n > 0 ==> wp + n == p.End(zid))
  {
    if wp + p.zrwaLbas <= elba {
      var a := elba - (wp + p.zrwaLbas) + 1;
      RoundUp(a, p.zrwafgLbas);
      DivModUnique(DivRoundUp(a, p.zrwafgLbas), p.zrwafgLbas, 0);
      forall k: nat | elba < wp + k * p.zrwafgLbas + p.zrwaLbas
        ensures ImplicitFlush(p, zid, wp, elba) <= k * p.zrwafgLbas
      {
        assert a <= k * p.zrwafgLbas;
      }
    }
  }

  /** The pointer never passes the last LBA written by a write beyond the area, exactly when a
      granule is no larger than the area. */
  lemma NeverPastLastLba(p: Params, zid: nat)
    requires 0 < p.zrwafgLbas
    ensures (forall wp: nat, elba: nat :: wp + p.zrwaLbas <= elba ==> wp + ImplicitFlush(p, zid, wp, elba) <= elba)
            <==> p.zrwafgLbas <= p.zrwaLbas
  {
    if p.zrwafgLbas <= p.zrwaLbas {
      forall wp: nat, elba: nat | wp + p.zrwaLbas <= elba ensures wp + ImplicitFlush(p, zid, wp, elba) <= elba {
        RoundUp(elba - (wp + p.zrwaLbas) + 1, p.zrwafgLbas);
      }
    } else {
      RoundUp(1, p.zrwafgLbas);
      assert 0 + ImplicitFlush(p, zid, 0, p.zrwaLbas) > p.zrwaLbas;
    }
  }

  /** The write that fills a zone is one that ends at the zone's end without reaching beyond the
      area; no flush moves the pointer out of the zone. */
  lemma FlushStaysInside(p: Params, zid: nat, wp: nat, elba: nat)
    requires 0 < p.zrwafgLbas <= p.zrwaLbas || elba < wp + p.zrwaLbas
    requires p.Start(zid) <= wp <= elba < p.End(zid)
    ensures wp + ImplicitFlush(p, zid, wp, elba) <= p.End(zid)
    ensures wp + ImplicitFlush(p, zid, wp, elba) == p.End(zid) <==> elba + 1 == p.End(zid) && elba < wp + p.zrwaLbas
  {
    if 0 < p.zrwafgLbas {
      ImplicitFlushMeaning(p, zid, wp, elba);
      NeverPastLastLba(p, zid);
    }
  }

  // ---------- random write area writes ----------

  lemma TakenKeeps(p: Params, m: Machine, zid: nat, bytes: nat)
    requires Ok(p, m) && zid < p.nrZones
    ensures Ok(p, Taken(m, zid, bytes))
  {
    BuffersKeep(p, m, Taken(m, zid, bytes));
  }

  /** Filling a zone by an implicit flush loses the zone's random write area resource. */
  lemma FlushedKeeps(p: Params, m: Machine, zid: nat, elba: nat)
    requires Ok(p, m) && zid < p.nrZones
    requires IsOpened(m.zones[zid].state) && m.zones[zid].zrwav && m.zones[zid].wp <= elba < p.End(zid)
    ensures Ok(p, FlushingReply(p, m, zid, elba).m)
  {
    hide ImplicitFlush, Count;
    var z := m.zones[zid];
    if p.zrwafgLbas == 0 && z.wp + p.zrwaLbas <= elba {
      return;
    }
    var flush := ImplicitFlush(p, zid, z.wp, elba);
    FlushStaysInside(p, zid, z.wp, elba);
    if FlushedReply(p, m, zid, flush).outcome.Done? && flush > 0 {
      FillKeeps(p, m, zid, flush);
    }
  }

  lemma FillKeeps(p: Params, m: Machine, zid: nat, flush: nat)
    requires Ok(p, m) && zid < p.nrZones && m.zones[zid].wp + flush <= p.End(zid)
    requires IsOpened(m.zones[zid].state) && m.zones[zid].zrwav && FlushedReply(p, m, zid, flush).outcome.Done?
             && flush > 0
    ensures Ok(p, FlushedReply(p, m, zid, flush).m)
  {
    hide Count;
    var z := m.zones[zid];
    var w := WithPointer(p, zid, z, z.wp + flush);
    PutOk(p, m, zid, w);
    TakenKeeps(p, Put(m, zid, w), zid, flush * LBA_BYTES);
    var n := FlushedReply(p, m, zid, flush).m;
    forall r: Resource ensures Used(n, r) <= p.Total(r) {
      assert Used(Put(m, zid, w), r) == Used(m, r) - One(Holds(z, r)) + One(Holds(w, r));
      assert Used(m, r) <= p.Total(r) && Used(Put(m, zid, w), r) <= p.Total(r);
    }
  }

  lemma ZrwaWriteKeeps(p: Params, m: Machine, slba: nat, nr: nat)
    requires Ok(p, m) && p.ZoneOf(slba) < p.nrZones && 0 < nr && m.zones[p.ZoneOf(slba)].zrwav
    ensures Ok(p, ZrwaWriteReply(p, m, slba, nr).m)
  {
    hide FlushingReply, Count;
    var zid := p.ZoneOf(slba);
    var z := m.zones[zid];
    var elba := slba + nr - 1;
    ZoneOfMeaning(p, slba, zid);
    ZoneOfMeaning(p, elba, zid);
    if p.ZoneOf(elba) == zid && z.wp <= elba {
      if IsOpened(z.state) {
        FlushedKeeps(p, m, zid, elba);
      } else if z.state.Closed? && !IsFull(p, m, OpenZone) {
        var n := Put(m, zid, z.(state := OpenedImpl));
        PutOk(p, m, zid, z.(state := OpenedImpl));
        TakenKeeps(p, n, zid, p.zrwaBytes);
        FlushedKeeps(p, Taken(n, zid, p.zrwaBytes), zid, elba);
      }
    }
  }

  // ---------- the ways a command does not end ----------

  /** Whether a write to a random write area gets as far as the state of its zone. */
  predicate InReach(p: Params, zid: nat, wp: nat, slba: nat, nr: nat) {
    && p.Sane() && nr * LBA_BYTES % p.writeUnit == 0
    && wp <= slba && slba + nr <= p.End(zid)
    && (wp + 2 * p.zrwaLbas == 0 || slba + nr <= wp + 2 * p.zrwaLbas)
  }

  lemma ReachMeaning(p: Params, m: Machine, slba: nat, nr: nat)
    requires Ok(p, m) && p.ZoneOf(slba) < p.nrZones && 0 < nr
    ensures var zid := p.ZoneOf(slba);
            var wp := m.zones[zid].wp;
            InReach(p, zid, wp, slba, nr) <==>
              && nr * LBA_BYTES % p.writeUnit == 0 && p.ZoneOf(slba) == p.ZoneOf(slba + nr - 1)
              && wp <= slba && !TooFar(p, wp, slba + nr - 1)
  {
    var zid := p.ZoneOf(slba);
    ZoneOfMeaning(p, slba, zid);
    ZoneOfMeaning(p, slba + nr - 1, zid);
  }

  /** The assertion of a random write area write fails exactly for a write in reach to a zone that was
      closed, with an open resource left, when a whole area does not fit into the zone's buffer. */
  lemma StopsExactlyWhen(p: Params, m: Machine, slba: nat, nr: nat)
    requires Ok(p, m) && p.ZoneOf(slba) < p.nrZones && 0 < nr && m.zones[p.ZoneOf(slba)].zrwav
    ensures var zid := p.ZoneOf(slba);
            var z := m.zones[zid];
            ZrwaWriteReply(p, m, slba, nr).outcome.Stop? <==>
              && InReach(p, zid, z.wp, slba, nr)
              && z.state.Closed? && !IsFull(p, m, OpenZone)
              && 0 < p.zrwaBufferBytes && (p.zrwaBytes == 0 || m.buffers[zid] < p.zrwaBytes)
  {
    hide ImplicitFlush, Count, InReach;
    ReachMeaning(p, m, slba, nr);
  }

  /** Whether the flush of a write up to `elba` divides by zero or needs a buffer that is missing. */
  predicate FlushCrashes(p: Params, zid: nat, wp: nat, elba: nat) {
    if wp + p.zrwaLbas <= elba then p.zrwafgLbas == 0 || p.zrwaBufferBytes == 0
    else elba + 1 == p.End(zid) && p.zrwaBufferBytes == 0
  }

  /** A random write area write crashes exactly when it is in reach of an open zone and its flush
      crashes, or in reach of a closed one with an open resource left, and there is no buffer, or the
      area fits into it and then the flush crashes. */
  lemma CrashesExactlyWhen(p: Params, m: Machine, slba: nat, nr: nat)
    requires Ok(p, m) && p.ZoneOf(slba) < p.nrZones && 0 < nr && m.zones[p.ZoneOf(slba)].zrwav
    ensures var zid := p.ZoneOf(slba);
            var z := m.zones[zid];
            ZrwaWriteReply(p, m, slba, nr).outcome.Crash? <==>
              && InReach(p, zid, z.wp, slba, nr)
              && (|| (IsOpened(z.state) && FlushCrashes(p, zid, z.wp, slba + nr - 1))
                  || (z.state.Closed? && !IsFull(p, m, OpenZone)
                      && (p.zrwaBufferBytes == 0
                          || (0 < p.zrwaBytes <= m.buffers[zid] && FlushCrashes(p, zid, z.wp, slba + nr - 1)))))
  {
    hide ImplicitFlush, Count, InReach;
    var zid := p.ZoneOf(slba);
    ReachMeaning(p, m, slba, nr);
    if InReach(p, zid, m.zones[zid].wp, slba, nr) {
      FlushAmount(p, zid, m.zones[zid].wp, slba + nr - 1);
    }
  }

  /** When a write flushes at all. */
  lemma FlushAmount(p: Params, zid: nat, wp: nat, elba: nat)
    requires wp <= elba
    ensures 0 < p.zrwafgLbas && wp + p.zrwaLbas <= elba ==> 0 < ImplicitFlush(p, zid, wp, elba)
    ensures elba < wp + p.zrwaLbas ==> (0 < ImplicitFlush(p, zid, wp, elba) <==> elba + 1 == p.End(zid))
  {
    if 0 < p.zrwafgLbas {
      ImplicitFlushMeaning(p, zid, wp, elba);
    }
  }

  /** An explicit flush crashes exactly for an LBA in the area of a zone that has one, on a device
      whose granule is zero. */
  lemma FlushCrashesExactlyWhen(p: Params, m: Machine, slba: nat)
    requires Ok(p, m) && p.ZoneOf(slba) < p.nrZones
    ensures var z := m.zones[p.ZoneOf(slba)];
            FlushReply(p, m, slba).outcome.Crash? <==>
              z.zrwav && z.wp <= slba && p.zrwafgLbas == 0 && (z.wp + p.zrwaLbas == 0 || slba < z.wp + p.zrwaLbas)
  {
    ZoneOfMeaning(p, slba, p.ZoneOf(slba));
  }

  /** On a device whose random write area is empty, a zone behind the first one that has one takes no
      write: none is in reach. */
  lemma NoAreaRefuses(p: Params, m: Machine, slba: nat, nr: nat)
    requires Ok(p, m) && p.ZoneOf(slba) < p.nrZones && 0 < nr && m.zones[p.ZoneOf(slba)].zrwav
    requires p.zrwaLbas == 0 && 0 < m.zones[p.ZoneOf(slba)].wp
    ensures var r := ZrwaWriteReply(p, m, slba, nr);
            r.m == m && (r.outcome == Done(InvalidWrite) || r.outcome == Done(ErrBoundary))
  {
  }

  // ---------- refusals ----------

  /** A refused management command or write changes nothing at all, so the fall through from an empty
      zone never stops halfway. */
  lemma RefusalChangesNothing(p: Params, m: Machine, action: Action, slba: nat, zrwa: bool, nr: nat, append: bool)
    requires Ok(p, m) && p.ZoneOf(slba) < p.nrZones && 0 < nr
    ensures var r := SendReply(p, m, action, slba, zrwa); r.outcome != Done(Success) ==> r.m == m
    ensures var r := WriteReply(p, m, slba, nr, append); r.status != Success ==> r.m == m
    ensures var r := ZrwaWriteReply(p, m, slba, nr); r.outcome.Done? && r.outcome.status != Success ==> r.m == m
  {
    hide SendReply, WriteReply, ZrwaWriteReply;
    SendRefusal(p, m, action, slba, zrwa);
    WriteRefusal(p, m, slba, nr, append);
    ZrwaWriteRefusal(p, m, slba, nr);
  }

  lemma SendRefusal(p: Params, m: Machine, action: Action, slba: nat, zrwa: bool)
    requires Ok(p, m) && p.ZoneOf(slba) < p.nrZones
    ensures var r := SendReply(p, m, action, slba, zrwa); r.outcome != Done(Success) ==> r.m == m
  {
    hide Count;
  }

  lemma WriteRefusal(p: Params, m: Machine, slba: nat, nr: nat, append: bool)
    requires Ok(p, m) && p.ZoneOf(slba) < p.nrZones && 0 < nr
    ensures var r := WriteReply(p, m, slba, nr, append); r.status != Success ==> r.m == m
  {
    hide Count;
  }

  lemma ZrwaWriteRefusal(p: Params, m: Machine, slba: nat, nr: nat)
    requires Ok(p, m) && p.ZoneOf(slba) < p.nrZones && 0 < nr
    ensures var r := ZrwaWriteReply(p, m, slba, nr); r.outcome.Done? && r.outcome.status != Success ==> r.m == m
  {
    hide Count, ImplicitFlush;
  }

  /** A write that has to wait for the buffer leaves an open zone alone, and opens a closed one, so
      that trying again does not open it twice. */
  lemma RetryOpensOnce(p: Params, m: Machine, slba: nat, nr: nat)
    requires Ok(p, m) && p.ZoneOf(slba) < p.nrZones && 0 < nr
    requires m.zones[p.ZoneOf(slba)].zrwav && ZrwaWriteReply(p, m, slba, nr).outcome.Retry?
    ensures var n := ZrwaWriteReply(p, m, slba, nr).m;
            && IsOpened(n.zones[p.ZoneOf(slba)].state)
            && (IsOpened(m.zones[p.ZoneOf(slba)].state) ==> n == m)
            && ZrwaWriteReply(p, n, slba, nr) == Result(Retry, n)
  {
  }

  // ---------- select_all ----------

  /** The loop of zns_zmgmt_send over zones `zid` and up; the statuses are not looked at. */
  function SendAll(p: Params, m: Machine, action: Action, zrwa: bool, zid: nat): (r: Result)
    requires Ok(p, m) && zid <= p.nrZones
    ensures Ok(p, r.m) && (r.outcome == Done(Success) || r.outcome.Crash?)
    decreases p.nrZones - zid
  {
    if zid == p.nrZones then Result(Done(Success), m)
    else
      ZoneOfMeaning(p, p.Start(zid), zid);
      SendKeeps(p, m, action, p.Start(zid), zrwa);
      var r := SendReply(p, m, action, p.Start(zid), zrwa);
      if r.outcome.Crash? then r else SendAll(p, r.m, action, zrwa, zid + 1)
  }

  /** Whether closing, finishing or resetting has to leave the zone as it is. */
  predicate Untouched(action: Action, s: ZoneState) {
    match action
    case CloseZone => !IsActive(s)
    case _ => s.ReadOnly? || s.Offline?
  }

  /** The state a zone ends in. */
  function Target(action: Action): ZoneState {
    match action case CloseZone => Closed case FinishZone => Full case _ => Empty
  }

  /** Closing, finishing or resetting all zones does that to every zone that allows it, and to no
      other. */
  lemma {:induction false} SendAllMeaning(p: Params, m: Machine, action: Action, zrwa: bool, zid: nat, i: nat)
    requires Ok(p, m) && zid <= p.nrZones && i < p.nrZones
    requires action in {CloseZone, FinishZone, ResetZone}
    ensures SendAll(p, m, action, zrwa, zid).outcome == Done(Success)
    ensures var n := SendAll(p, m, action, zrwa, zid).m;
            n.zones[i].state
            == if i < zid || Untouched(action, m.zones[i].state) then m.zones[i].state else Target(action)
    decreases p.nrZones - zid
  {
    if zid < p.nrZones {
      ZoneOfMeaning(p, p.Start(zid), zid);
      SendKeeps(p, m, action, p.Start(zid), zrwa);
      SendAllMeaning(p, SendReply(p, m, action, p.Start(zid), zrwa).m, action, zrwa, zid + 1, i);
    }
  }

  /** After closing all zones none is open; after finishing or resetting them none is active, so all
      resources are free but the ones that are lost. */
  lemma AllReleased(p: Params, m: Machine, action: Action, zrwa: bool)
    requires Ok(p, m) && action in {CloseZone, FinishZone, ResetZone}
    ensures var n := SendAll(p, m, action, zrwa, 0).m;
            && Used(n, OpenZone) == 0
            && (!action.CloseZone? ==> Used(n, ActiveZone) == 0 && Used(n, ZrwaZone) == n.leaked)
  {
    var n := SendAll(p, m, action, zrwa, 0).m;
    forall i: nat | i < |n.zones|
      ensures !IsOpened(n.zones[i].state) && (!action.CloseZone? ==> !IsActive(n.zones[i].state))
    {
      SendAllMeaning(p, m, action, zrwa, 0, i);
    }
    CountNone(n.zones, OpenZone);
    CountNone(n.zones, ActiveZone);
    CountNone(n.zones, ZrwaZone);
  }

  // ---------- runs ----------

  /** A command for the namespace, or the release of random write area buffer by a worker. */
  datatype Command =
    | Send(action: Action, slba: nat, zrwa: bool)
    | SendToAll(action: Action, zrwa: bool)
    | Write(slba: nat, nr: nat, append: bool, granted: bool)
    | Release(zid: nat, bytes: nat)

  predicate Possible(p: Params, c: Command) {
    p.Sane() &&
    match c
    case Send(_, slba, _) => p.ZoneOf(slba) < p.nrZones
    case SendToAll(_, _) => true
    case Write(slba, nr, _, _) => p.ZoneOf(slba) < p.nrZones && 0 < nr
    case Release(zid, _) => zid < p.nrZones
  }

  ghost function Apply(p: Params, m: Machine, c: Command): (r: Result)
    requires Ok(p, m) && Possible(p, c)
    ensures Ok(p, r.m)
  {
    match c
    case Send(action, slba, zrwa) => SendKeeps(p, m, action, slba, zrwa); SendReply(p, m, action, slba, zrwa)
    case SendToAll(action, zrwa) => SendAll(p, m, action, zrwa, 0)
    case Write(slba, nr, append, granted) =>
      if m.zones[p.ZoneOf(slba)].zrwav then
        ZrwaWriteKeeps(p, m, slba, nr);
        ZrwaWriteReply(p, m, slba, nr)
      else if granted then
        WriteKeeps(p, m, slba, nr, append);
        Replied(WriteReply(p, m, slba, nr, append))
      else Result(Retry, m)
    case Release(zid, bytes) =>
      BuffersKeep(p, m, Released(m, zid, bytes)); Result(Done(Success), Released(m, zid, bytes))
  }

  function Released(m: Machine, zid: nat, bytes: nat): Machine
    requires zid < |m.buffers|
  {
    m.(buffers := m.buffers[zid := m.buffers[zid] + bytes])
  }

  /** __init_descriptor and __init_resource */
  function Initial(p: Params): Machine {
    Machine(seq(p.nrZones, i requires 0 <= i => Zone(Empty, p.Start(i), p.Start(i), false)),
            seq(p.nrZones, i => p.zrwaBufferBytes), 0)
  }

  lemma InitialOk(p: Params)
    requires p.Sane()
    ensures Ok(p, Initial(p)) && NoneLost(Initial(p))
  {
    var m := Initial(p);
    forall r: Resource ensures Used(m, r) <= p.Total(r) {
      CountNone(m.zones, r);
    }
  }

  predicate AllPossible(p: Params, cs: seq<Command>) {
    p.Sane() && forall c :: c in cs ==> Possible(p, c)
  }

  /** Commands one after the other, up to one that halts the machine. */
  ghost function Run(p: Params, cs: seq<Command>): (r: Result)
    requires AllPossible(p, cs)
    ensures Ok(p, r.m)
  {
    if cs == [] then InitialOk(p); Result(Done(Success), Initial(p))
    else
      var r := Run(p, cs[..|cs| - 1]);
      if r.outcome.Halts() then r else Apply(p, r.m, cs[|cs| - 1])
  }

  lemma SendLosesNone(p: Params, m: Machine, action: Action, slba: nat, zrwa: bool)
    requires Ok(p, m) && NoneLost(m) && p.ZoneOf(slba) < p.nrZones
    ensures NoneLost(SendReply(p, m, action, slba, zrwa).m)
  {
  }

  lemma {:induction false} SendAllLosesNone(p: Params, m: Machine, action: Action, zrwa: bool, zid: nat)
    requires Ok(p, m) && NoneLost(m) && zid <= p.nrZones
    ensures NoneLost(SendAll(p, m, action, zrwa, zid).m)
    decreases p.nrZones - zid
  {
    if zid < p.nrZones {
      ZoneOfMeaning(p, p.Start(zid), zid);
      SendKeeps(p, m, action, p.Start(zid), zrwa);
      SendLosesNone(p, m, action, p.Start(zid), zrwa);
      var r := SendReply(p, m, action, p.Start(zid), zrwa);
      if !r.outcome.Crash? {
        SendAllLosesNone(p, r.m, action, zrwa, zid + 1);
      }
    }
  }

  lemma ApplyLosesNone(p: Params, m: Machine, c: Command)
    requires Ok(p, m) && NoneLost(m) && Possible(p, c)
    ensures NoneLost(Apply(p, m, c).m)
  {
    hide SendAll, SendReply, WriteReply, ZrwaWriteReply, Count;
    match c
    case Send(action, slba, zrwa) => SendLosesNone(p, m, action, slba, zrwa);
    case SendToAll(action, zrwa) => SendAllLosesNone(p, m, action, zrwa, 0);
    case Write(slba, nr, append, granted) =>
      WriteLosesNone(p, m, slba, nr, append);
      ZrwaWriteLosesNone(p, m, slba, nr);
    case Release(zid, bytes) =>
  }

  lemma WriteLosesNone(p: Params, m: Machine, slba: nat, nr: nat, append: bool)
    requires Ok(p, m) && NoneLost(m) && p.ZoneOf(slba) < p.nrZones && 0 < nr
    ensures NoneLost(WriteReply(p, m, slba, nr, append).m)
  {
    hide Count;
  }

  lemma ZrwaWriteLosesNone(p: Params, m: Machine, slba: nat, nr: nat)
    requires Ok(p, m) && NoneLost(m) && p.ZoneOf(slba) < p.nrZones && 0 < nr
    ensures NoneLost(ZrwaWriteReply(p, m, slba, nr).m)
  {
    hide Count, ImplicitFlush;
  }

  /** Over every run, one that halts included: the open and active zones stay within the limits, every
      write pointer is in its zone, at the end only when the zone is full, no zone with a random write
      area is empty, and no zone is read only or offline. */
  lemma {:induction false} RunIsSafe(p: Params, cs: seq<Command>, i: nat)
    requires AllPossible(p, cs) && i < p.nrZones
    ensures var m := Run(p, cs).m;
            && Used(m, OpenZone) == Count(m.zones, OpenZone) <= p.maxOpen
            && Used(m, ActiveZone) == Count(m.zones, ActiveZone) <= p.maxActive
            && Count(m.zones, ZrwaZone) + m.leaked <= p.maxZrwa
            && p.Start(i) <= m.zones[i].wp <= p.End(i)
            && (m.zones[i].wp == p.End(i) ==> m.zones[i].state.Full?)
            && (m.zones[i].zrwav ==> !m.zones[i].state.Empty?)
            && NoneLost(m)
  {
    RunLosesNone(p, cs);
    var m := Run(p, cs).m;
    assert Used(m, OpenZone) <= p.Total(OpenZone);
    assert Used(m, ActiveZone) <= p.Total(ActiveZone);
    assert Used(m, ZrwaZone) <= p.Total(ZrwaZone);
    assert ZoneOk(p, i, m.zones[i]);
  }

  lemma {:induction false} RunLosesNone(p: Params, cs: seq<Command>)
    requires AllPossible(p, cs)
    ensures NoneLost(Run(p, cs).m)
  {
    if cs == [] {
      InitialOk(p);
    } else {
      RunLosesNone(p, cs[..|cs| - 1]);
      var r := Run(p, cs[..|cs| - 1]);
      if !r.outcome.Halts() {
        ApplyLosesNone(p, r.m, cs[|cs| - 1]);
      }
    }
  }

  // ---------- lost resources ----------

  /** A random write area resource is lost exactly by a write in reach of a zone that has one, that
      ends the zone, does not reach beyond the area, and finds room in the buffer for what it flushes:
      in an open zone, or in a closed one that can be opened, after a whole area was taken. */
  lemma LostExactlyWhen(p: Params, m: Machine, slba: nat, nr: nat)
    requires Ok(p, m) && p.ZoneOf(slba) < p.nrZones && 0 < nr && m.zones[p.ZoneOf(slba)].zrwav
    ensures var r := ZrwaWriteReply(p, m, slba, nr);
            var zid := p.ZoneOf(slba);
            var z, end := m.zones[zid], slba + nr;
            && m.leaked <= r.m.leaked <= m.leaked + 1
            && (r.m.leaked == m.leaked + 1 <==>
                  && nr * LBA_BYTES % p.writeUnit == 0 && z.wp <= slba
                  && end == p.End(zid) && end <= z.wp + p.zrwaLbas && 0 < p.zrwaBufferBytes
                  && (|| (IsOpened(z.state) && (end - z.wp) * LBA_BYTES <= m.buffers[zid])
                      || (z.state.Closed? && !IsFull(p, m, OpenZone) && 0 < p.zrwaBytes
                          && p.zrwaBytes + (end - z.wp) * LBA_BYTES <= m.buffers[zid])))
  {
    hide ImplicitFlush, Count;
    var zid := p.ZoneOf(slba);
    var wp, elba := m.zones[zid].wp, slba + nr - 1;
    ReachMeaning(p, m, slba, nr);
    if InReach(p, zid, wp, slba, nr) && (0 < p.zrwafgLbas || elba < wp + p.zrwaLbas) {
      assert ZoneOk(p, zid, m.zones[zid]);
      FlushStaysInside(p, zid, wp, elba);
      FlushAmount(p, zid, wp, elba);
    }
  }

  /** No management command gives a lost resource back or loses one. */
  lemma SendLeaks(p: Params, m: Machine, action: Action, slba: nat, zrwa: bool)
    requires Ok(p, m) && p.ZoneOf(slba) < p.nrZones
    ensures SendReply(p, m, action, slba, zrwa).m.leaked == m.leaked
  {
  }

  /** Two zones of eight LBAs and one random write area resource: the first zone is opened with an
      area and filled by one write.  Then no zone holds the resource, and none can be opened with it. */
  lemma LostExample()
    ensures var p := ExampleParams();
            var cs := [Send(OpenZoneAction, 0, true), Write(0, 8, false, true)];
            && Count(Run(p, cs).m.zones, ZrwaZone) == 0
            && OpenReply(p, Run(p, cs).m, 1, true).status == ZrwaRsrcUnavail
  {
    hide Apply, Run, Count, OpenReply;
    var p := ExampleParams();
    var c0, c1 := Send(OpenZoneAction, 0, true), Write(0, 8, false, true);
    ExampleOpens();
    ExampleFills();
    RunNothing(p);
    RunNext(p, [], c0);
    RunNext(p, [c0], c1);
    assert [] + [c0] == [c0] && [c0] + [c1] == [c0, c1];
    ExampleEnd();
  }

  lemma ExampleEnd()
    ensures Count(ExampleFull().zones, ZrwaZone) == 0
    ensures OpenReply(ExampleParams(), ExampleFull(), 1, true).status == ZrwaRsrcUnavail
  {
    hide Count;
    CountTwo(ExampleFull().zones, ZrwaZone);
    CountTwo(ExampleFull().zones, OpenZone);
    CountTwo(ExampleFull().zones, ActiveZone);
  }

  lemma RunNothing(p: Params)
    requires p.Sane()
    ensures AllPossible(p, []) && Run(p, []) == Result(Done(Success), Initial(p))
  {
  }

  lemma RunNext(p: Params, cs: seq<Command>, c: Command)
    requires AllPossible(p, cs) && Possible(p, c)
    ensures AllPossible(p, cs + [c])
    ensures Run(p, cs + [c]) == if Run(p, cs).outcome.Halts() then Run(p, cs) else Apply(p, Run(p, cs).m, c)
  {
    assert (cs + [c])[..|cs|] == cs;
  }

  function ExampleParams(): Params { Params(2, 8, 2, 2, 1, 8, 2, 4096, 8192, 512) }

  function ExampleOpen(): Machine {
    Machine([Zone(OpenedExpl, 0, 0, true), Zone(Empty, 8, 8, false)], [8192, 8192], 0)
  }

  function ExampleFull(): Machine {
    Machine([Zone(Full, 0, 8, true), Zone(Empty, 8, 8, false)], [4096, 8192], 1)
  }

  lemma ExampleOpens()
    ensures var p := ExampleParams();
            && Ok(p, Initial(p))
            && Apply(p, Initial(p), Send(OpenZoneAction, 0, true)) == Result(Done(Success), ExampleOpen())
  {
    var p := ExampleParams();
    var m := Initial(p);
    InitialOk(p);
    CountTwo(m.zones, ZrwaZone);
    CountTwo(m.zones, OpenZone);
    CountTwo(m.zones, ActiveZone);
    assert Apply(p, m, Send(OpenZoneAction, 0, true)).m.zones == ExampleOpen().zones;
  }

  lemma ExampleFills()
    ensures var p := ExampleParams();
            && Ok(p, ExampleOpen())
            && Apply(p, ExampleOpen(), Write(0, 8, false, true)) == Result(Done(Success), ExampleFull())
  {
    var p := ExampleParams();
    ExampleOpens();
    assert ImplicitFlush(p, 0, 0, 7) == 8;
    assert ZrwaWriteReply(p, ExampleOpen(), 0, 8).m == ExampleFull();
  }

  lemma CountTwo(zones: seq<Zone>, r: Resource)
    requires |zones| == 2
    ensures Count(zones, r) == One(Holds(zones[0], r)) + One(Holds(zones[1], r))
  {
    assert zones[..1][..0] == [];
  }
}
