/** The zones of a zoned namespace as values, after the Zone State Machine of the NVM Express Zoned
    Namespace Command Set Specification, revision 1.1a, section 2: what every command means for its
    zone, with no counter of resources anywhere.  A resource is used by the zones that hold it. */
module ZoneMachine {
  import opened Arithmetic

  const LBA_BYTES: nat := 512
  const SECS_PER_PG: nat := 8

  datatype ZoneState = Empty | OpenedImpl | OpenedExpl | Closed | ReadOnly | Full | Offline

  /** struct zone_descriptor; the capacity of a zone is its size. */
  datatype Zone = Zone(state: ZoneState, zslba: nat, wp: nat, zrwav: bool)

  datatype Resource = ActiveZone | OpenZone | ZrwaZone

  datatype Status =
    | Success | InvalidField | InvalidZoneOperation | ZrwaRsrcUnavail | ErrBoundary | ErrFull | ErrReadOnly
    | ErrOffline | InvalidWrite | NoActiveZone | NoOpenZone | InvalidTransition

  /** struct znsparams, in LBAs where the code works with LBAs, and the limits of the resources. */
  datatype Params = Params(
    nrZones: nat, zoneLbas: nat, maxActive: nat, maxOpen: nat, maxZrwa: nat,
    zrwaLbas: nat, zrwafgLbas: nat, zrwaBytes: nat, zrwaBufferBytes: nat, writeUnit: nat)
  {
    function Total(r: Resource): nat {
      match r case ActiveZone => maxActive case OpenZone => maxOpen case ZrwaZone => maxZrwa
    }

    function Start(zid: nat): nat { zid * zoneLbas }

    function End(zid: nat): nat { Start(zid) + zoneLbas }

    /** lba_to_zone */
    function ZoneOf(lba: nat): nat
      requires 0 < zoneLbas
    {
      lba / zoneLbas
    }

    /** Zones are whole pages, as zns_init_params asserts, and a flush granule is no larger than the
        random write area.  Both may be zero, as they are in every configuration of ssd_config.h. */
    predicate Sane() { 0 < zoneLbas && zoneLbas % SECS_PER_PG == 0 && 0 < writeUnit && zrwafgLbas <= zrwaLbas }
  }

  /** All zones, what is left of each zone's random write area buffer, and how many random write
      area resources are lost. */
  datatype Machine = Machine(zones: seq<Zone>, buffers: seq<int>, leaked: nat)

  predicate IsOpened(s: ZoneState) { s.OpenedImpl? || s.OpenedExpl? }

  predicate IsActive(s: ZoneState) { IsOpened(s) || s.Closed? }

  /** Whether a zone holds a resource. */
  predicate Holds(z: Zone, r: Resource) {
    match r
    case OpenZone => IsOpened(z.state)
    case ActiveZone => IsActive(z.state)
    case ZrwaZone => IsActive(z.state) && z.zrwav
  }

  function One(b: bool): nat { if b then 1 else 0 }

  /** How many zones hold a resource. */
  function Count(zones: seq<Zone>, r: Resource): (n: nat)
    ensures n <= |zones|
  {
    if zones == [] then 0 else Count(zones[..|zones| - 1], r) + One(Holds(zones[|zones| - 1], r))
  }

  lemma {:induction false} CountUpdate(zones: seq<Zone>, i: nat, z: Zone, r: Resource)
    requires i < |zones|
    ensures Count(zones[i := z], r) == Count(zones, r) - One(Holds(zones[i], r)) + One(Holds(z, r))
  {
    var last := |zones| - 1;
    if i == last {
      assert zones[i := z][..last] == zones[..last];
    } else {
      CountUpdate(zones[..last], i, z, r);
      assert zones[i := z][..last] == zones[..last][i := z];
    }
  }

  lemma {:induction false} CountNone(zones: seq<Zone>, r: Resource)
    ensures Count(zones, r) == 0 <==> forall i :: 0 <= i < |zones| ==> !Holds(zones[i], r)
  {
    if zones != [] {
      var most := zones[..|zones| - 1];
      CountNone(most, r);
      if forall i :: 0 <= i < |zones| ==> !Holds(zones[i], r) {
        forall i | 0 <= i < |most| ensures !Holds(most[i], r) {
          assert most[i] == zones[i];
        }
      } else {
        var i :| 0 <= i < |zones| && Holds(zones[i], r);
        if i < |most| {
          assert most[i] == zones[i];
        }
      }
    }
  }

  /** The units of a resource in use. */
  function Used(m: Machine, r: Resource): nat {
    Count(m.zones, r) + if r.ZrwaZone? then m.leaked else 0
  }

  predicate IsFull(p: Params, m: Machine, r: Resource) { Used(m, r) == p.Total(r) }

  // ---------- the invariant ----------

  /** The write pointer is inside the zone, at its end only when the zone takes no more writes, and
      at its start when the zone is empty; an empty zone has no random write area. */
  ghost predicate ZoneOk(p: Params, zid: nat, z: Zone) {
    && z.zslba == p.Start(zid)
    && p.Start(zid) <= z.wp <= p.End(zid)
    && (z.wp == p.End(zid) ==> z.state.Full? || z.state.ReadOnly? || z.state.Offline?)
    && (z.state.Empty? ==> z.wp == z.zslba && !z.zrwav)
  }

  ghost predicate Ok(p: Params, m: Machine) {
    && p.Sane() && |m.zones| == |m.buffers| == p.nrZones
    && (forall i: nat :: i < |m.zones| ==> ZoneOk(p, i, m.zones[i]))
    && (forall r: Resource :: Used(m, r) <= p.Total(r))
  }

  /** No zone is read only or offline. */
  ghost predicate NoneLost(m: Machine) {
    forall i :: 0 <= i < |m.zones| ==> !m.zones[i].state.ReadOnly? && !m.zones[i].state.Offline?
  }

  /** Where an LBA is. */
  lemma ZoneOfMeaning(p: Params, lba: nat, zid: nat)
    requires p.Sane()
    ensures p.ZoneOf(lba) == zid <==> p.Start(zid) <= lba < p.End(zid)
  {
    if p.Start(zid) <= lba < p.End(zid) {
      DivModUnique(zid, p.zoneLbas, lba - zid * p.zoneLbas);
    }
  }

  /** lpn_to_zone of lba_to_lpn is lba_to_zone. */
  lemma ZoneOfPage(p: Params, lba: nat)
    requires p.Sane()
    ensures lba / SECS_PER_PG / (p.zoneLbas / SECS_PER_PG) == p.ZoneOf(lba)
  {
    var m := p.zoneLbas / SECS_PER_PG;
    var lpn := lba / SECS_PER_PG;
    var zid := lpn / m;
    assert lpn == zid * m + lpn % m;
    assert lba == zid * p.zoneLbas + (lpn % m * SECS_PER_PG + lba % SECS_PER_PG) by {
      assert zid * p.zoneLbas == zid * m * SECS_PER_PG;
    }
    DivModUnique(zid, p.zoneLbas, lpn % m * SECS_PER_PG + lba % SECS_PER_PG);
  }

  function Put(m: Machine, zid: nat, z: Zone): Machine
    requires zid < |m.zones|
  {
    m.(zones := m.zones[zid := z])
  }

  /** One zone changes, and holds no resource of which there was none left. */
  lemma PutOk(p: Params, m: Machine, zid: nat, z: Zone)
    requires Ok(p, m) && zid < p.nrZones && ZoneOk(p, zid, z)
    requires forall r: Resource :: Holds(z, r) && IsFull(p, m, r) ==> Holds(m.zones[zid], r)
    ensures Ok(p, Put(m, zid, z))
    ensures forall r: Resource :: Used(Put(m, zid, z), r) == Used(m, r) - One(Holds(m.zones[zid], r)) + One(Holds(z, r))
  {
    forall r: Resource
      ensures Used(Put(m, zid, z), r) == Used(m, r) - One(Holds(m.zones[zid], r)) + One(Holds(z, r))
    {
      CountUpdate(m.zones, zid, z, r);
    }
    forall r: Resource ensures Used(Put(m, zid, z), r) <= p.Total(r) {
      assert Used(m, r) <= p.Total(r);
    }
  }

  // ---------- zone management send ----------

  datatype Reply = Reply(status: Status, m: Machine)

  /** How a command ends: with a status, with a request to be tried again, or not at all, at an
      assertion (`Stop`) or at a division by zero or a missing buffer (`Crash`). */
  datatype Outcome = Done(status: Status) | Retry | Stop | Crash
  {
    predicate Halts() { Stop? || Crash? }
  }

  /** After a halt the machine is the one before the command. */
  datatype Result = Result(outcome: Outcome, m: Machine)

  function Replied(r: Reply): Result { Result(Done(r.status), r.m) }

  datatype Action = CloseZone | FinishZone | OpenZoneAction | ResetZone | OfflineZone | FlushExplicitZrwa

  function CloseReply(m: Machine, zid: nat): Reply
    requires zid < |m.zones|
  {
    var z := m.zones[zid];
    if IsActive(z.state) then Reply(Success, Put(m, zid, z.(state := Closed))) else Reply(InvalidTransition, m)
  }

  function FinishReply(m: Machine, zid: nat): Reply
    requires zid < |m.zones|
  {
    var z := m.zones[zid];
    if z.state.ReadOnly? || z.state.Offline? then Reply(InvalidTransition, m)
    else Reply(Success, Put(m, zid, z.(state := Full)))
  }

  function OpenReply(p: Params, m: Machine, zid: nat, zrwa: bool): Reply
    requires zid < |m.zones|
  {
    var z := m.zones[zid];
    match z.state
    case Empty =>
      if IsFull(p, m, ActiveZone) then Reply(NoActiveZone, m)
      else if IsFull(p, m, OpenZone) then Reply(NoOpenZone, m)
      else if zrwa && IsFull(p, m, ZrwaZone) then Reply(ZrwaRsrcUnavail, m)
      else Reply(Success, Put(m, zid, z.(state := OpenedExpl, zrwav := zrwa || z.zrwav)))
    case Closed =>
      if IsFull(p, m, OpenZone) then Reply(NoOpenZone, m)
      else Reply(Success, Put(m, zid, z.(state := OpenedExpl)))
    case OpenedImpl | OpenedExpl => Reply(Success, Put(m, zid, z.(state := OpenedExpl)))
    case _ => Reply(InvalidTransition, m)
  }

  function Refilled(p: Params, m: Machine, zid: nat): Machine
    requires zid < |m.buffers|
  {
    if p.zrwaBufferBytes > 0 then m.(buffers := m.buffers[zid := p.zrwaBufferBytes]) else m
  }

  function ResetReply(p: Params, m: Machine, zid: nat): Reply
    requires zid < |m.zones| == |m.buffers|
  {
    var z := m.zones[zid];
    if z.state.ReadOnly? || z.state.Offline? then Reply(InvalidTransition, m)
    else Reply(Success, Refilled(p, Put(m, zid, Zone(Empty, z.zslba, z.zslba, false)), zid))
  }

  function OfflineReply(m: Machine, zid: nat): Reply
    requires zid < |m.zones|
  {
    var z := m.zones[zid];
    if z.state.ReadOnly? || z.state.Offline? then Reply(Success, Put(m, zid, z.(state := Offline)))
    else Reply(InvalidTransition, m)
  }

  /** The write pointer moves to `wp`, and the zone is full when that is its end. */
  function WithPointer(p: Params, zid: nat, z: Zone, wp: nat): Zone {
    z.(wp := wp, state := if wp == p.End(zid) then Full else z.state)
  }

  /** Whether the last LBA of a flush is in the random write area.  The last LBA of the area is
      `wp + zrwaLbas - 1` in unsigned arithmetic: without an area it wraps around at the first zone. */
  predicate InArea(p: Params, zid: nat, wp: nat, slba: nat) {
    wp <= slba < p.End(zid) && (wp + p.zrwaLbas == 0 || slba < wp + p.zrwaLbas)
  }

  /** An explicit flush divides by the granule before it looks at the state. */
  function FlushReply(p: Params, m: Machine, slba: nat): Result
    requires p.Sane() && p.ZoneOf(slba) < |m.zones|
  {
    var zid := p.ZoneOf(slba);
    var z := m.zones[zid];
    if !z.zrwav || !InArea(p, zid, z.wp, slba) then Result(Done(InvalidZoneOperation), m)
    else if p.zrwafgLbas == 0 then Result(Crash, m)
    else if (slba - z.wp + 1) % p.zrwafgLbas != 0 then Result(Done(InvalidField), m)
    else if !IsActive(z.state) then Result(Done(InvalidZoneOperation), m)
    else Result(Done(Success), Put(m, zid, WithPointer(p, zid, z, slba + 1)))
  }

  function SendReply(p: Params, m: Machine, action: Action, slba: nat, zrwa: bool): Result
    requires p.Sane() && p.ZoneOf(slba) < |m.zones| == |m.buffers|
  {
    match action
    case CloseZone => Replied(CloseReply(m, p.ZoneOf(slba)))
    case FinishZone => Replied(FinishReply(m, p.ZoneOf(slba)))
    case OpenZoneAction => Replied(OpenReply(p, m, p.ZoneOf(slba), zrwa))
    case ResetZone => Replied(ResetReply(p, m, p.ZoneOf(slba)))
    case OfflineZone => Replied(OfflineReply(m, p.ZoneOf(slba)))
    case FlushExplicitZrwa => FlushReply(p, m, slba)
  }

  // ---------- writes ----------

  /** A write to a zone without random write area.  `granted` says whether the write buffer had
      room.  A zone append writes at the write pointer. */
  function WriteReply(p: Params, m: Machine, slba: nat, nr: nat, append: bool): Reply
    requires p.Sane() && p.ZoneOf(slba) < |m.zones| && 0 < nr
  {
    var zid := p.ZoneOf(slba);
    var z := m.zones[zid];
    var at := if append then z.wp else slba;
    if nr * LBA_BYTES % p.writeUnit != 0 then Reply(InvalidWrite, m)
    else if p.ZoneOf(at) != p.ZoneOf(at + nr - 1) then Reply(ErrBoundary, m)
    else if at != z.wp then Reply(InvalidWrite, m)
    else match z.state
      case Full => Reply(ErrFull, m)
      case ReadOnly => Reply(ErrReadOnly, m)
      case Offline => Reply(ErrOffline, m)
      case OpenedImpl | OpenedExpl => Reply(Success, Put(m, zid, WithPointer(p, zid, z, z.wp + nr)))
      case Empty | Closed =>
        if z.state.Empty? && z.wp != z.zslba then Reply(InvalidWrite, m)
        else if z.state.Empty? && IsFull(p, m, ActiveZone) then Reply(NoActiveZone, m)
        else if IsFull(p, m, OpenZone) then Reply(NoOpenZone, m)
        else Reply(Success, Put(m, zid, WithPointer(p, zid, z.(state := OpenedImpl), z.wp + nr)))
  }

  /** How far a write up to `elba` moves the write pointer of a zone with a random write area. */
  function ImplicitFlush(p: Params, zid: nat, wp: nat, elba: nat): nat
    requires 0 < p.zrwafgLbas || elba < wp + p.zrwaLbas
  {
    if elba >= wp + p.zrwaLbas then DivRoundUp(elba - (wp + p.zrwaLbas) + 1, p.zrwafgLbas) * p.zrwafgLbas
    else if elba + 1 == p.End(zid) && wp <= elba then elba - wp + 1
    else 0
  }

  function Taken(m: Machine, zid: nat, bytes: nat): Machine
    requires zid < |m.buffers|
  {
    m.(buffers := m.buffers[zid := m.buffers[zid] - bytes])
  }

  /** Room in the buffer for what is flushed, or try again later.  When the flush fills the zone, its
      resource is never given back.  Without a buffer there is nothing to take from. */
  function FlushedReply(p: Params, m: Machine, zid: nat, flush: nat): Result
    requires zid < |m.zones| == |m.buffers|
  {
    if flush == 0 then Result(Done(Success), m)
    else if p.zrwaBufferBytes == 0 then Result(Crash, m)
    else if m.buffers[zid] < flush * LBA_BYTES then Result(Retry, m)
    else
      var z := m.zones[zid];
      var w := WithPointer(p, zid, z, z.wp + flush);
      var n := Taken(Put(m, zid, w), zid, flush * LBA_BYTES);
      Result(Done(Success), n.(leaked := m.leaked + One(z.wp + flush == p.End(zid))))
  }

  /** The end of a random write area write, in an open zone; a write beyond the area divides by the
      granule. */
  function FlushingReply(p: Params, m: Machine, zid: nat, elba: nat): Result
    requires zid < |m.zones| == |m.buffers|
  {
    var wp := m.zones[zid].wp;
    if p.zrwafgLbas == 0 && wp + p.zrwaLbas <= elba then Result(Crash, m)
    else FlushedReply(p, m, zid, ImplicitFlush(p, zid, wp, elba))
  }

  /** Whether a write reaches too far: its last LBA is past `wp + 2 * zrwaLbas - 1`, in unsigned
      arithmetic.  Without an area that wraps around at the first zone, and nothing is too far. */
  predicate TooFar(p: Params, wp: nat, elba: nat) {
    0 < wp + 2 * p.zrwaLbas <= elba
  }

  /** A write to a zone with a random write area.  The assertion fails when the zone was closed and
      its buffer cannot take a whole area again. */
  function ZrwaWriteReply(p: Params, m: Machine, slba: nat, nr: nat): Result
    requires p.Sane() && p.ZoneOf(slba) < |m.zones| == |m.buffers| && 0 < nr
  {
    var zid := p.ZoneOf(slba);
    var z := m.zones[zid];
    var elba := slba + nr - 1;
    if nr * LBA_BYTES % p.writeUnit != 0 then Result(Done(InvalidWrite), m)
    else if p.ZoneOf(slba) != p.ZoneOf(elba) then Result(Done(ErrBoundary), m)
    else if slba < z.wp || TooFar(p, z.wp, elba) then Result(Done(InvalidWrite), m)
    else match z.state
      case Full => Result(Done(ErrFull), m)
      case ReadOnly => Result(Done(ErrReadOnly), m)
      case Offline => Result(Done(ErrOffline), m)
      case OpenedImpl | OpenedExpl => FlushingReply(p, m, zid, elba)
      case Empty | Closed =>
        if IsFull(p, m, OpenZone) then Result(Done(NoOpenZone), m)
        else if p.zrwaBufferBytes == 0 then Result(Crash, m)
        else if p.zrwaBytes == 0 || m.buffers[zid] < p.zrwaBytes then Result(Stop, m)
        else
          var r := FlushingReply(p, Taken(Put(m, zid, z.(state := OpenedImpl)), zid, p.zrwaBytes), zid, elba);
          if r.outcome.Crash? then Result(Crash, m) else r
  }
}
