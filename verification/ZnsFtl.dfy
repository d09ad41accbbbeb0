/** The zoned namespace of zns_mgmt_send.c, zns_read_write.c and zns_ftl.h in place: zone
    descriptors, counters of acquired resources, and the random write area buffers.  The counters
    are proved to be the numbers of zones that hold each resource. */
module ZnsFtlModel {
  import opened Arithmetic
  import opened ZoneMachine
  import opened ZoneLaws

  /** The counters are what the zones hold; for the random write areas, with the lost ones. */
  ghost predicate Counted(acquired: map<Resource, int>, m: Machine) {
    forall r: Resource :: r in acquired && acquired[r] == Used(m, r)
  }

  lemma PutUsed(m: Machine, zid: nat, z: Zone)
    requires zid < |m.zones|
    ensures forall r: Resource :: Used(Put(m, zid, z), r) == Used(m, r) - One(Holds(m.zones[zid], r)) + One(Holds(z, r))
  {
    forall r: Resource
      ensures Used(Put(m, zid, z), r) == Used(m, r) - One(Holds(m.zones[zid], r)) + One(Holds(z, r))
    {
      CountUpdate(m.zones, zid, z, r);
    }
  }

  lemma {:induction false} HeldIsUsed(zones: seq<Zone>, i: nat, r: Resource)
    requires i < |zones| && Holds(zones[i], r)
    ensures 0 < Count(zones, r)
  {
    CountNone(zones, r);
  }

  /** Facts of the invariant about one zone. */
  lemma OkFacts(p: Params, m: Machine, zid: nat)
    requires Ok(p, m) && zid < p.nrZones
    ensures |m.zones| == |m.buffers| == p.nrZones && p.Sane() && ZoneOk(p, zid, m.zones[zid])
    ensures forall r: Resource :: Used(m, r) <= p.Total(r)
    ensures forall r: Resource :: Holds(m.zones[zid], r) ==> 0 < Used(m, r)
  {
    forall r: Resource | Holds(m.zones[zid], r) ensures 0 < Used(m, r) {
      HeldIsUsed(m.zones, zid, r);
    }
  }

  class ZnsFtl {
    const p: Params
    const zoneDescs: array<Zone>
    const zwraBuffers: array<int>
    var acquired: map<Resource, int>
    ghost var leaked: nat

    ghost function State(): Machine
      reads zoneDescs, zwraBuffers, `leaked
    {
      Machine(zoneDescs[..], zwraBuffers[..], leaked)
    }

    ghost predicate Valid()
      reads this, zoneDescs, zwraBuffers
    {
      && zoneDescs.Length == zwraBuffers.Length == p.nrZones
      && Ok(p, State()) && Counted(acquired, State())
    }

    /** zns_init_ftl */
    constructor (p: Params)
      requires p.Sane()
      ensures this.p == p && Valid() && State() == Initial(p)
      ensures forall i :: 0 <= i < p.nrZones ==>
                && zoneDescs[i] == Zone(Empty, i * p.zoneLbas, i * p.zoneLbas, false)
                && zwraBuffers[i] == p.zrwaBufferBytes
    {
      hide Ok;
      this.p := p;
      zoneDescs := new Zone[p.nrZones](i requires 0 <= i => Zone(Empty, p.Start(i), p.Start(i), false));
      zwraBuffers := new int[p.nrZones](i => p.zrwaBufferBytes);
      acquired := map[ActiveZone := 0, OpenZone := 0, ZrwaZone := 0];
      leaked := 0;
      new;
      InitialOk(p);
      assert zoneDescs[..] == Initial(p).zones && zwraBuffers[..] == Initial(p).buffers;
      forall r: Resource ensures r in acquired && acquired[r] == Used(State(), r) {
        CountNone(zoneDescs[..], r);
      }
    }

    /** acquire_zone_resource */
    method AcquireZoneResource(r: Resource) returns (ok: bool)
      requires r in acquired
      modifies `acquired
      ensures ok == (old(acquired)[r] < p.Total(r))
      ensures acquired == if ok then old(acquired)[r := old(acquired)[r] + 1] else old(acquired)
    {
      ok := acquired[r] < p.Total(r);
      if ok {
        acquired := acquired[r := acquired[r] + 1];
      }
    }

    /** release_zone_resource, with its assertion. */
    method ReleaseZoneResource(r: Resource)
      requires r in acquired && 0 < acquired[r]
      modifies `acquired
      ensures acquired == old(acquired)[r := old(acquired)[r] - 1]
    {
      acquired := acquired[r := acquired[r] - 1];
    }

    /** change_zone_state */
    method ChangeZoneState(zid: nat, state: ZoneState)
      requires zid < zoneDescs.Length
      modifies zoneDescs
      ensures zoneDescs[..] == old(zoneDescs[..])[zid := old(zoneDescs[zid]).(state := state)]
    {
      zoneDescs[zid] := zoneDescs[zid].(state := state);
    }

    // ---------- zone management send ----------

    /** __zmgmt_send_close_zone */
    method Close(zid: nat) returns (status: Status)
      requires Valid() && zid < p.nrZones
      modifies `acquired, zoneDescs
      ensures Valid() && zid < |old(State()).zones| && Reply(status, State()) == CloseReply(old(State()), zid)
    {
      hide Ok, Used;
      ghost var m := State();
      CloseKeeps(p, m, zid);
      OkFacts(p, m, zid);
      PutUsed(m, zid, m.zones[zid].(state := ZoneState.Closed));
      match zoneDescs[zid].state
      case OpenedImpl | OpenedExpl =>
        ChangeZoneState(zid, ZoneState.Closed);
        ReleaseZoneResource(OpenZone);
        status := Success;
      case Closed =>
        status := Success;
      case _ =>
        status := InvalidTransition;
    }

    /** The switch cases that fall through in finish and reset: give back what a zone holds. */
    method ReleaseHeld(z: Zone)
      requires forall r: Resource :: r in acquired && (Holds(z, r) ==> 0 < acquired[r])
      modifies `acquired
      ensures forall r: Resource :: r in acquired && acquired[r] == old(acquired)[r] - One(Holds(z, r))
    {
      if IsActive(z.state) {
        if IsOpened(z.state) {
          ReleaseZoneResource(OpenZone);
        }
        ReleaseZoneResource(ActiveZone);
        if z.zrwav {
          ReleaseZoneResource(ZrwaZone);
        }
      }
    }

    /** __zmgmt_send_finish_zone */
    method Finish(zid: nat) returns (status: Status)
      requires Valid() && zid < p.nrZones
      modifies `acquired, zoneDescs
      ensures Valid() && zid < |old(State()).zones| && Reply(status, State()) == FinishReply(old(State()), zid)
    {
      hide Ok, Used;
      ghost var m := State();
      FinishKeeps(p, m, zid);
      OkFacts(p, m, zid);
      PutUsed(m, zid, m.zones[zid].(state := Full));
      var state := zoneDescs[zid].state;
      status := Success;
      if IsActive(state) {
        ReleaseHeld(zoneDescs[zid]);
        ChangeZoneState(zid, Full);
      } else if state.Empty? {
        ChangeZoneState(zid, Full);
      } else if !state.Full? {
        status := InvalidTransition;
      }
    }

    /** __zmgmt_send_open_zone */
    method Open(zid: nat, zrwa: bool) returns (status: Status)
      requires Valid() && zid < p.nrZones
      modifies `acquired, zoneDescs
      ensures Valid() && zid < |old(State()).zones| && Reply(status, State()) == OpenReply(p, old(State()), zid, zrwa)
    {
      hide Ok, Used;
      ghost var m := State();
      OpenKeeps(p, m, zid, zrwa);
      OkFacts(p, m, zid);
      PutUsed(m, zid,
        m.zones[zid].(state := OpenedExpl, zrwav := zoneDescs[zid].zrwav || (zrwa && zoneDescs[zid].state.Empty?)));
      var state := zoneDescs[zid].state;
      status := Success;
      if state.Empty? || state.Closed? {
        if state.Empty? {
          if acquired[ActiveZone] == p.maxActive {
            return NoActiveZone;
          }
          if acquired[OpenZone] == p.maxOpen {
            return NoOpenZone;
          }
          if zrwa {
            if acquired[ZrwaZone] == p.maxZrwa {
              return ZrwaRsrcUnavail;
            }
            var _ := AcquireZoneResource(ZrwaZone);
            zoneDescs[zid] := zoneDescs[zid].(zrwav := true);
          }
          var _ := AcquireZoneResource(ActiveZone);
        }
        var ok := AcquireZoneResource(OpenZone);
        if !ok {
          return NoOpenZone;
        }
        ChangeZoneState(zid, OpenedExpl);
      } else if state.OpenedImpl? {
        ChangeZoneState(zid, OpenedExpl);
      } else if !state.OpenedExpl? {
        status := InvalidTransition;
      }
      assert zoneDescs[..] == OpenReply(p, m, zid, zrwa).m.zones;
    }

    /** __reset_zone */
    method ResetDescriptor(zid: nat)
      requires zid < zoneDescs.Length == zwraBuffers.Length
      modifies zoneDescs, zwraBuffers
      ensures var z := old(zoneDescs[zid]);
              zoneDescs[..] == old(zoneDescs[..])[zid := z.(wp := z.zslba, zrwav := false)]
      ensures zwraBuffers[..]
              == if p.zrwaBufferBytes > 0 then old(zwraBuffers[..])[zid := p.zrwaBufferBytes]
                 else old(zwraBuffers[..])
    {
      zoneDescs[zid] := zoneDescs[zid].(wp := zoneDescs[zid].zslba);
      zoneDescs[zid] := zoneDescs[zid].(zrwav := false);
      if p.zrwaBufferBytes > 0 {
        zwraBuffers[zid] := p.zrwaBufferBytes;
      }
    }

    /** __zmgmt_send_reset_zone */
    method Reset(zid: nat) returns (status: Status)
      requires Valid() && zid < p.nrZones
      modifies `acquired, zoneDescs, zwraBuffers
      ensures Valid() && zid < |old(State()).zones| == |old(State()).buffers|
      ensures Reply(status, State()) == ResetReply(p, old(State()), zid)
    {
      hide Ok, Count;
      ghost var m := State();
      ResetKeeps(p, m, zid);
      OkFacts(p, m, zid);
      PutUsed(m, zid, Zone(Empty, m.zones[zid].zslba, m.zones[zid].zslba, false));
      var state := zoneDescs[zid].state;
      if !state.ReadOnly? && !state.Offline? {
        ReleaseHeld(zoneDescs[zid]);
        ChangeZoneState(zid, Empty);
        ResetDescriptor(zid);
        status := Success;
        assert zoneDescs[..] == ResetReply(p, m, zid).m.zones;
      } else {
        status := InvalidTransition;
      }
    }

    /** __zmgmt_send_offline_zone */
    method TakeOffline(zid: nat) returns (status: Status)
      requires Valid() && zid < p.nrZones
      modifies zoneDescs
      ensures Valid() && zid < |old(State()).zones| && Reply(status, State()) == OfflineReply(old(State()), zid)
    {
      hide Ok, Used;
      ghost var m := State();
      OfflineKeeps(p, m, zid);
      OkFacts(p, m, zid);
      PutUsed(m, zid, m.zones[zid].(state := Offline));
      match zoneDescs[zid].state
      case ReadOnly =>
        ChangeZoneState(zid, Offline);
        status := Success;
      case Offline =>
        status := Success;
      case _ =>
        status := InvalidTransition;
    }

    /** __zmgmt_send_flush_explicit_zrwa */
    method FlushExplicit(slba: nat) returns (outcome: Outcome)
      requires Valid() && p.Sane() && p.ZoneOf(slba) < p.nrZones
      modifies `acquired, zoneDescs
      ensures Valid() && p.ZoneOf(slba) < |old(State()).zones|
      ensures Result(outcome, State()) == FlushReply(p, old(State()), slba)
      ensures outcome == Done(Success) ==>
                zoneDescs[p.ZoneOf(slba)].wp == slba + 1
                && (zoneDescs[p.ZoneOf(slba)].state.Full? <==> slba + 1 == p.End(p.ZoneOf(slba)))
    {
      hide Ok, Used;
      ghost var m := State();
      FlushKeeps(p, m, slba);
      var zid := p.ZoneOf(slba);
      OkFacts(p, m, zid);
      PutUsed(m, zid, WithPointer(p, zid, m.zones[zid], slba + 1));
      var z := zoneDescs[zid];
      // one less than zero is the largest number there is, and then the end of the zone is the minimum
      var zrwaEnd := if 0 < z.wp + p.zrwaLbas < p.End(zid) then z.wp + p.zrwaLbas - 1 else p.End(zid) - 1;
      if !z.zrwav {
        return Done(InvalidZoneOperation);
      }
      if !(slba >= z.wp && slba <= zrwaEnd) {
        return Done(InvalidZoneOperation);
      }
      if p.zrwafgLbas == 0 {
        return Crash;
      }
      if (slba - z.wp + 1) % p.zrwafgLbas != 0 {
        return Done(InvalidField);
      }
      if IsActive(z.state) {
        zoneDescs[zid] := z.(wp := slba + 1);
        if slba + 1 == p.End(zid) {
          if !z.state.Closed? {
            ReleaseZoneResource(OpenZone);
          }
          ReleaseZoneResource(ActiveZone);
          ReleaseZoneResource(ZrwaZone);
          ChangeZoneState(zid, Full);
        }
        outcome := Done(Success);
      } else {
        outcome := Done(InvalidZoneOperation);
      }
      assert zoneDescs[..] == FlushReply(p, m, slba).m.zones;
    }

    /** __zmgmt_send */
    method Send(slba: nat, action: Action, option: bool) returns (outcome: Outcome)
      requires Valid() && p.Sane() && p.ZoneOf(slba) < p.nrZones
      modifies `acquired, zoneDescs, zwraBuffers
      ensures Valid() && p.ZoneOf(slba) < |old(State()).zones| == |old(State()).buffers|
      ensures Result(outcome, State()) == SendReply(p, old(State()), action, slba, option)
    {
      hide Ok, Counted;
      OkFacts(p, State(), p.ZoneOf(slba));
      var zid := p.ZoneOf(slba);
      var status := Success;
      match action {
        case CloseZone => status := Close(zid);
        case FinishZone => status := Finish(zid);
        case OpenZoneAction => status := Open(zid, option);
        case ResetZone => status := Reset(zid);
        case OfflineZone => status := TakeOffline(zid);
        case FlushExplicitZrwa =>
          outcome := FlushExplicit(slba);
          return;
      }
      outcome := Done(status);
    }

    /** zns_zmgmt_send */
    method ZoneManagementSend(slba: nat, action: Action, option: bool, selectAll: bool) returns (outcome: Outcome)
      requires Valid() && p.Sane() && (!selectAll ==> p.ZoneOf(slba) < p.nrZones)
      modifies `acquired, zoneDescs, zwraBuffers
      ensures Valid() && Ok(p, old(State())) && |old(State()).zones| == |old(State()).buffers| == p.nrZones
      ensures Result(outcome, State())
              == if selectAll then SendAll(p, old(State()), action, option, 0)
                 else SendReply(p, old(State()), action, slba, option)
    {
      hide Ok, Counted, SendReply;
      ghost var m := State();
      outcome := Done(Success);
      if selectAll {
        for zid := 0 to p.nrZones
          invariant Valid() && SendAll(p, m, action, option, 0) == SendAll(p, State(), action, option, zid)
        {
          ZoneOfMeaning(p, p.Start(zid), zid);
          var reply := Send(p.Start(zid), action, option);
          if reply.Crash? {
            return Crash;
          }
        }
      } else {
        OkFacts(p, m, p.ZoneOf(slba));
        outcome := Send(slba, action, option);
      }
    }

    // ---------- writes ----------

    /** __increase_write_ptr.  The `ASSERT(0)` it has for a zone with a random write area expands to
        nothing (nvmev.h:69), so such a zone keeps its resource when it fills up. */
    method IncreaseWritePtr(zid: nat, nr: nat)
      requires zid < zoneDescs.Length
      requires forall r: Resource :: r in acquired && (Holds(zoneDescs[zid], r) ==> 0 < acquired[r])
      requires IsOpened(zoneDescs[zid].state)
      modifies `acquired, zoneDescs
      ensures zoneDescs[..]
              == old(zoneDescs[..])[zid := WithPointer(p, zid, old(zoneDescs[zid]), old(zoneDescs[zid]).wp + nr)]
      ensures zoneDescs[zid].wp == old(zoneDescs[zid]).wp + nr
      ensures zoneDescs[zid].state == if zoneDescs[zid].wp == p.End(zid) then Full else old(zoneDescs[zid]).state
      ensures forall i :: 0 <= i < zoneDescs.Length && i != zid ==> zoneDescs[i] == old(zoneDescs[i])
      ensures forall r: Resource ::
        r in acquired
          && acquired[r] == old(acquired)[r] - One(old(zoneDescs[zid]).wp + nr == p.End(zid) && !r.ZrwaZone?)
    {
      var wp := zoneDescs[zid].wp + nr;
      zoneDescs[zid] := zoneDescs[zid].(wp := wp);
      if wp == p.End(zid) {
        ReleaseZoneResource(OpenZone);
        ReleaseZoneResource(ActiveZone);
        ChangeZoneState(zid, Full);
      }
    }

    /** The switch of __zns_write: the zone is open when it succeeds. */
    method OpenForWrite(zid: nat, slba: nat) returns (status: Status)
      requires Valid() && zid < p.nrZones && !zoneDescs[zid].zrwav && slba == zoneDescs[zid].wp
      modifies `acquired, zoneDescs
      ensures Valid() && zid < |old(State()).zones|
      ensures Reply(status, State()) == OpenedReply(p, old(State()), zid)
    {
      hide Ok, Used;
      ghost var m := State();
      OkFacts(p, m, zid);
      PutUsed(m, zid, m.zones[zid].(state := OpenedImpl));
      OpenedKeeps(p, m, zid);
      var state := zoneDescs[zid].state;
      if state.Empty? || state.Closed? {
        if state.Empty? {
          if slba != zoneDescs[zid].zslba {
            return InvalidWrite;
          }
          if acquired[ActiveZone] == p.maxActive {
            return NoActiveZone;
          }
          if acquired[OpenZone] == p.maxOpen {
            return NoOpenZone;
          }
          var _ := AcquireZoneResource(ActiveZone);
        }
        var ok := AcquireZoneResource(OpenZone);
        if !ok {
          return NoOpenZone;
        }
        ChangeZoneState(zid, OpenedImpl);
        return Success;
      }
      match state
      case Full => return ErrFull;
      case ReadOnly => return ErrReadOnly;
      case Offline => return ErrOffline;
      case _ => return Success;
    }

    /** __zns_write, when the write buffer has room or not. */
    method WriteSequential(slba: nat, nr: nat, append: bool, granted: bool) returns (outcome: Outcome)
      requires Valid() && p.Sane() && p.ZoneOf(slba) < p.nrZones && 0 < nr && !zoneDescs[p.ZoneOf(slba)].zrwav
      modifies `acquired, zoneDescs
      ensures Valid() && p.ZoneOf(slba) < |old(State()).zones|
      ensures !granted ==> outcome.Retry? && State() == old(State())
      ensures outcome == Done(Success) ==>
                zoneDescs[p.ZoneOf(slba)].wp == old(zoneDescs[p.ZoneOf(slba)]).wp + nr
                && (zoneDescs[p.ZoneOf(slba)].state.Full?
                    <==> zoneDescs[p.ZoneOf(slba)].wp == p.End(p.ZoneOf(slba)))
      ensures granted ==> outcome.Done?
      ensures granted ==> Reply(outcome.status, State()) == WriteReply(p, old(State()), slba, nr, append)
    {
      hide Ok, Used;
      ghost var m := State();
      var zid := p.ZoneOf(slba);
      OkFacts(p, m, zid);
      WriteKeeps(p, m, slba, nr, append);
      WriteInTwoSteps(p, m, slba, nr, append);
      var at := if append then zoneDescs[zid].wp else slba;
      if !granted {
        return Retry;
      }
      if nr * LBA_BYTES % p.writeUnit != 0 {
        return Done(InvalidWrite);
      }
      if p.ZoneOf(at) != p.ZoneOf(at + nr - 1) {
        return Done(ErrBoundary);
      }
      if at != zoneDescs[zid].wp {
        return Done(InvalidWrite);
      }
      var status := OpenForWrite(zid, at);
      if status != Success {
        return Done(status);
      }
      ghost var k := State();
      OkFacts(p, k, zid);
      PutUsed(k, zid, WithPointer(p, zid, k.zones[zid], k.zones[zid].wp + nr));
      IncreaseWritePtr(zid, nr);
      return Done(Success);
    }

    /** buffer_allocate on a zone's random write area buffer. */
    method AllocateZwra(zid: nat, bytes: nat) returns (ok: bool)
      requires zid < zwraBuffers.Length
      modifies zwraBuffers
      ensures ok <==> 0 < bytes <= old(zwraBuffers[zid])
      ensures zwraBuffers[..]
              == if ok then old(zwraBuffers[..])[zid := old(zwraBuffers[zid]) - bytes] else old(zwraBuffers[..])
    {
      var size := if zwraBuffers[zid] < bytes then 0 else bytes;
      zwraBuffers[zid] := zwraBuffers[zid] - size;
      ok := size != 0;
    }

    /** buffer_release, when a worker finds a scheduled release due. */
    method ReleaseZwra(zid: nat, bytes: nat)
      requires Valid() && zid < p.nrZones
      modifies zwraBuffers
      ensures Valid() && zid < |old(State()).buffers| && State() == Released(old(State()), zid, bytes)
      ensures zwraBuffers[zid] == old(zwraBuffers[zid]) + bytes
    {
      hide Ok;
      ghost var m := State();
      OkFacts(p, m, zid);
      BuffersKeep(p, m, Released(m, zid, bytes));
      zwraBuffers[zid] := zwraBuffers[zid] + bytes;
      assert zwraBuffers[..] == Released(m, zid, bytes).buffers;
    }

    /** The flush at the end of __zns_write_zrwa. */
    method FlushImplicit(zid: nat, elba: nat) returns (outcome: Outcome)
      requires Valid() && zid < p.nrZones && zoneDescs[zid].zrwav && IsOpened(zoneDescs[zid].state)
      requires zoneDescs[zid].wp <= elba < p.End(zid)
      modifies this, zoneDescs, zwraBuffers
      ensures zid < |old(State()).zones| == |old(State()).buffers|
      ensures outcome == FlushingReply(p, old(State()), zid, elba).outcome
      ensures !outcome.Crash? ==> Valid() && State() == FlushingReply(p, old(State()), zid, elba).m
    {
      hide Ok, Count;
      ghost var m := State();
      OkFacts(p, m, zid);
      FlushedKeeps(p, m, zid, elba);
      var wp := zoneDescs[zid].wp;
      var impl := wp + p.zrwaLbas;
      var flush := 0;
      if elba >= impl {
        if p.zrwafgLbas == 0 {
          return Crash;
        }
        flush := DivRoundUp(elba - impl + 1, p.zrwafgLbas) * p.zrwafgLbas;
      } else if elba == p.End(zid) - 1 {
        flush := elba - wp + 1;
      }
      PutUsed(m, zid, WithPointer(p, zid, m.zones[zid], wp + flush));
      if flush > 0 {
        if p.zrwaBufferBytes == 0 {
          return Crash;
        }
        var ok := AllocateZwra(zid, flush * LBA_BYTES);
        if !ok {
          return Retry;
        }
        IncreaseWritePtr(zid, flush);
        leaked := leaked + One(wp + flush == p.End(zid));
      }
      return Done(Success);
    }

    /** The switch of __zns_write_zrwa.  Without buffers it follows a pointer that was never set, and
        its assertion fails when the buffer has no room. */
    method OpenForZrwaWrite(zid: nat) returns (outcome: Outcome)
      requires Valid() && zid < p.nrZones && zoneDescs[zid].zrwav
      modifies `acquired, zoneDescs, zwraBuffers
      ensures zid < |old(State()).zones| == |old(State()).buffers|
      ensures outcome == ZrwaOpenedReply(p, old(State()), zid).outcome
      ensures !outcome.Halts() ==> Valid() && State() == ZrwaOpenedReply(p, old(State()), zid).m
    {
      hide Ok, Count;
      ghost var m := State();
      OkFacts(p, m, zid);
      PutUsed(m, zid, m.zones[zid].(state := OpenedImpl));
      ZrwaOpenedKeeps(p, m, zid);
      var state := zoneDescs[zid].state;
      if state.Closed? || state.Empty? {
        var ok := AcquireZoneResource(OpenZone);
        if !ok {
          return Done(NoOpenZone);
        }
        if p.zrwaBufferBytes == 0 {
          return Crash;
        }
        ok := AllocateZwra(zid, p.zrwaBytes);
        if !ok {
          return Stop;
        }
        ChangeZoneState(zid, OpenedImpl);
        return Done(Success);
      }
      match state
      case Full => return Done(ErrFull);
      case ReadOnly => return Done(ErrReadOnly);
      case Offline => return Done(ErrOffline);
      case _ => return Done(Success);
    }

    /** __zns_write_zrwa */
    method WriteZrwa(slba: nat, nr: nat) returns (outcome: Outcome)
      requires Valid() && p.Sane() && p.ZoneOf(slba) < p.nrZones && 0 < nr && zoneDescs[p.ZoneOf(slba)].zrwav
      modifies this, zoneDescs, zwraBuffers
      ensures p.ZoneOf(slba) < |old(State()).zones| == |old(State()).buffers|
      ensures outcome == ZrwaWriteReply(p, old(State()), slba, nr).outcome
      ensures !outcome.Halts() ==> Valid() && State() == ZrwaWriteReply(p, old(State()), slba, nr).m
    {
      hide Ok, Used, FlushingReply, Counted;
      ghost var m := State();
      var zid := p.ZoneOf(slba);
      var elba := slba + nr - 1;
      OkFacts(p, m, zid);
      ZrwaWriteInTwoSteps(p, m, slba, nr);
      if nr * LBA_BYTES % p.writeUnit != 0 {
        return Done(InvalidWrite);
      }
      if p.ZoneOf(slba) != p.ZoneOf(elba) {
        return Done(ErrBoundary);
      }
      // with `wp + 2 * zrwaLbas == 0` the last LBA in reach is the largest number there is
      if slba < zoneDescs[zid].wp || 0 < zoneDescs[zid].wp + 2 * p.zrwaLbas <= elba {
        return Done(InvalidWrite);
      }
      ZoneOfMeaning(p, elba, zid);
      outcome := OpenForZrwaWrite(zid);
      if outcome != Done(Success) {
        return;
      }
      outcome := FlushImplicit(zid, elba);
    }

    /** zns_write: the zone is found through the page of the first LBA. */
    method ZnsWrite(slba: nat, nr: nat, append: bool, granted: bool) returns (outcome: Outcome)
      requires Valid() && p.Sane() && p.ZoneOf(slba) < p.nrZones && 0 < nr
      modifies this, zoneDescs, zwraBuffers
      ensures Ok(p, old(State())) && Possible(p, Write(slba, nr, append, granted))
      ensures outcome == Apply(p, old(State()), Write(slba, nr, append, granted)).outcome
      ensures !outcome.Halts() ==> Valid() && State() == Apply(p, old(State()), Write(slba, nr, append, granted)).m
    {
      hide Ok, Counted, WriteReply, ZrwaWriteReply;
      ZoneOfPage(p, slba);
      var zid := slba / SECS_PER_PG / (p.zoneLbas / SECS_PER_PG);
      OkFacts(p, State(), zid);
      if !zoneDescs[zid].zrwav {
        outcome := WriteSequential(slba, nr, append, granted);
      } else {
        outcome := WriteZrwa(slba, nr);
      }
    }
  }

  /** Opening a zone with a random write area for a write. */
  function ZrwaOpenedReply(p: Params, m: Machine, zid: nat): Result
    requires zid < |m.zones| == |m.buffers|
  {
    var z := m.zones[zid];
    match z.state
    case Full => Result(Done(ErrFull), m)
    case ReadOnly => Result(Done(ErrReadOnly), m)
    case Offline => Result(Done(ErrOffline), m)
    case OpenedImpl | OpenedExpl => Result(Done(Success), m)
    case Empty | Closed =>
      if IsFull(p, m, OpenZone) then Result(Done(NoOpenZone), m)
      else if p.zrwaBufferBytes == 0 then Result(Crash, m)
      else if p.zrwaBytes == 0 || m.buffers[zid] < p.zrwaBytes then Result(Stop, m)
      else Result(Done(Success), Taken(Put(m, zid, z.(state := OpenedImpl)), zid, p.zrwaBytes))
  }

  lemma ZrwaOpenedKeeps(p: Params, m: Machine, zid: nat)
    requires Ok(p, m) && zid < p.nrZones && m.zones[zid].zrwav
    ensures var r := ZrwaOpenedReply(p, m, zid);
            && Ok(p, r.m)
            && (r.outcome == Done(Success) ==>
                  IsOpened(r.m.zones[zid].state) && r.m.zones[zid].zrwav && r.m.zones[zid].wp == m.zones[zid].wp)
  {
    var r := ZrwaOpenedReply(p, m, zid);
    if r.outcome == Done(Success) && !IsOpened(m.zones[zid].state) {
      var z := m.zones[zid].(state := OpenedImpl);
      PutOk(p, m, zid, z);
      TakenKeeps(p, Put(m, zid, z), zid, p.zrwaBytes);
    }
  }

  /** A random write area write opens its zone and then flushes. */
  lemma ZrwaWriteInTwoSteps(p: Params, m: Machine, slba: nat, nr: nat)
    requires Ok(p, m) && p.ZoneOf(slba) < p.nrZones && 0 < nr && m.zones[p.ZoneOf(slba)].zrwav
    ensures var zid := p.ZoneOf(slba);
            var z := m.zones[zid];
            var elba := slba + nr - 1;
            var r := ZrwaOpenedReply(p, m, zid);
            && |r.m.zones| == |r.m.buffers| == |m.zones|
            && (r.outcome == Done(Success) ==>
                  IsOpened(r.m.zones[zid].state) && r.m.zones[zid].zrwav && r.m.zones[zid].wp == z.wp)
            && (nr * LBA_BYTES % p.writeUnit == 0 && p.ZoneOf(slba) == p.ZoneOf(elba)
                && slba >= z.wp && !TooFar(p, z.wp, elba) ==>
                  var w := ZrwaWriteReply(p, m, slba, nr);
                  if r.outcome == Done(Success) then
                    var f := FlushingReply(p, r.m, zid, elba);
                    w.outcome == f.outcome && (!f.outcome.Crash? ==> w == f)
                  else w == r)
  {
    hide FlushingReply;
    ZrwaOpenedKeeps(p, m, p.ZoneOf(slba));
  }

  /** Opening a zone for a write at its pointer. */
  function OpenedReply(p: Params, m: Machine, zid: nat): Reply
    requires zid < |m.zones|
  {
    var z := m.zones[zid];
    match z.state
    case Full => Reply(ErrFull, m)
    case ReadOnly => Reply(ErrReadOnly, m)
    case Offline => Reply(ErrOffline, m)
    case OpenedImpl | OpenedExpl => Reply(Success, m)
    case Empty | Closed =>
      if z.state.Empty? && z.wp != z.zslba then Reply(InvalidWrite, m)
      else if z.state.Empty? && IsFull(p, m, ActiveZone) then Reply(NoActiveZone, m)
      else if IsFull(p, m, OpenZone) then Reply(NoOpenZone, m)
      else Reply(Success, Put(m, zid, z.(state := OpenedImpl)))
  }

  lemma OpenedKeeps(p: Params, m: Machine, zid: nat)
    requires Ok(p, m) && zid < p.nrZones
    ensures Ok(p, OpenedReply(p, m, zid).m)
    ensures OpenedReply(p, m, zid).status.Success? ==> IsOpened(OpenedReply(p, m, zid).m.zones[zid].state)
  {
    if OpenedReply(p, m, zid).status.Success? && !IsOpened(m.zones[zid].state) {
      PutOk(p, m, zid, m.zones[zid].(state := OpenedImpl));
    }
  }

  /** A write opens its zone and then moves the pointer. */
  lemma WriteInTwoSteps(p: Params, m: Machine, slba: nat, nr: nat, append: bool)
    requires Ok(p, m) && p.ZoneOf(slba) < p.nrZones && 0 < nr
    ensures var zid := p.ZoneOf(slba);
            var z := m.zones[zid];
            var at := if append then z.wp else slba;
            var r := OpenedReply(p, m, zid);
            && |r.m.zones| == |m.zones|
            && (nr * LBA_BYTES % p.writeUnit == 0 && p.ZoneOf(at) == p.ZoneOf(at + nr - 1) && at == z.wp ==>
                  WriteReply(p, m, slba, nr, append)
                  == if r.status.Success?
                     then Reply(Success, Put(r.m, zid, WithPointer(p, zid, r.m.zones[zid], r.m.zones[zid].wp + nr)))
                     else r)
    ensures OpenedReply(p, m, p.ZoneOf(slba)).status.Success?
            ==> IsOpened(OpenedReply(p, m, p.ZoneOf(slba)).m.zones[p.ZoneOf(slba)].state)
  {
    OpenedKeeps(p, m, p.ZoneOf(slba));
  }
}
