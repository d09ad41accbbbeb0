/** Which runs end in a failed assertion or in a crash, and on which devices there are such runs. */
module ZoneRuns {
  import opened ZoneMachine
  import opened ZoneLaws

  // ---------- without a close no assertion fails ----------

  /** An active zone with a random write area. */
  predicate HasArea(z: Zone) { IsActive(z.state) && z.zrwav }

  /** Whether a command closes such a zone. */
  ghost predicate ClosesArea(p: Params, m: Machine, c: Command)
    requires Ok(p, m) && Possible(p, c)
  {
    match c
    case Send(action, slba, _) => action.CloseZone? && HasArea(m.zones[p.ZoneOf(slba)])
    case SendToAll(action, _) => action.CloseZone? && exists i :: 0 <= i < |m.zones| && HasArea(m.zones[i])
    case _ => false
  }

  ghost predicate NoneClosed(m: Machine) {
    forall i :: 0 <= i < |m.zones| ==> !(m.zones[i].state.Closed? && m.zones[i].zrwav)
  }

  ghost predicate NoArea(m: Machine) {
    forall i :: 0 <= i < |m.zones| ==> !HasArea(m.zones[i])
  }

  lemma SendClosesNone(p: Params, m: Machine, action: Action, slba: nat, zrwa: bool)
    requires Ok(p, m) && NoneClosed(m) && p.ZoneOf(slba) < p.nrZones
    requires action.CloseZone? ==> !HasArea(m.zones[p.ZoneOf(slba)])
    ensures NoneClosed(SendReply(p, m, action, slba, zrwa).m)
    ensures action.CloseZone? && NoArea(m) ==> NoArea(SendReply(p, m, action, slba, zrwa).m)
  {
  }

  lemma {:induction false} SendAllClosesNone(p: Params, m: Machine, action: Action, zrwa: bool, zid: nat)
    requires Ok(p, m) && NoneClosed(m) && zid <= p.nrZones && (action.CloseZone? ==> NoArea(m))
    ensures NoneClosed(SendAll(p, m, action, zrwa, zid).m)
    decreases p.nrZones - zid
  {
    hide SendReply;
    if zid < p.nrZones {
      ZoneOfMeaning(p, p.Start(zid), zid);
      SendKeeps(p, m, action, p.Start(zid), zrwa);
      SendClosesNone(p, m, action, p.Start(zid), zrwa);
      var r := SendReply(p, m, action, p.Start(zid), zrwa);
      if !r.outcome.Crash? {
        SendAllClosesNone(p, r.m, action, zrwa, zid + 1);
      }
    }
  }

  lemma SendNeverStops(p: Params, m: Machine, action: Action, slba: nat, zrwa: bool)
    requires Ok(p, m) && p.ZoneOf(slba) < p.nrZones
    ensures !SendReply(p, m, action, slba, zrwa).outcome.Stop?
  {
  }

  lemma WriteClosesNone(p: Params, m: Machine, slba: nat, nr: nat, append: bool, granted: bool)
    requires Ok(p, m) && NoneClosed(m) && p.ZoneOf(slba) < p.nrZones && 0 < nr
    ensures var r := Apply(p, m, Write(slba, nr, append, granted)); NoneClosed(r.m) && !r.outcome.Stop?
  {
    hide ImplicitFlush, Count;
  }

  lemma ApplyClosesNone(p: Params, m: Machine, c: Command)
    requires Ok(p, m) && Possible(p, c) && NoneClosed(m) && !ClosesArea(p, m, c)
    ensures NoneClosed(Apply(p, m, c).m) && !Apply(p, m, c).outcome.Stop?
  {
    hide SendAll, SendReply, WriteReply, ZrwaWriteReply;
    match c
    case Send(action, slba, zrwa) =>
      SendClosesNone(p, m, action, slba, zrwa);
      SendNeverStops(p, m, action, slba, zrwa);
    case SendToAll(action, zrwa) => SendAllClosesNone(p, m, action, zrwa, 0);
    case Write(slba, nr, append, granted) => WriteClosesNone(p, m, slba, nr, append, granted);
    case Release(zid, bytes) =>
  }

  /** Whether a run closes a zone with a random write area before it halts. */
  ghost predicate ClosesAt(p: Params, cs: seq<Command>, i: nat)
    requires AllPossible(p, cs) && i < |cs|
  {
    !Run(p, cs[..i]).outcome.Halts() && ClosesArea(p, Run(p, cs[..i]).m, cs[i])
  }

  /** No run fails the assertion of a random write area write unless it closed a zone that has one. */
  lemma {:induction false} StopNeedsClose(p: Params, cs: seq<Command>)
    requires AllPossible(p, cs) && forall i: nat :: i < |cs| ==> !ClosesAt(p, cs, i)
    ensures !Run(p, cs).outcome.Stop? && NoneClosed(Run(p, cs).m)
  {
    hide Apply, ClosesArea;
    if cs == [] {
      RunNothing(p);
    } else {
      var most := cs[..|cs| - 1];
      forall i: nat | i < |most| ensures !ClosesAt(p, most, i) {
        assert most[..i] == cs[..i] && !ClosesAt(p, cs, i);
      }
      StopNeedsClose(p, most);
      assert !ClosesAt(p, cs, |cs| - 1);
      if !Run(p, most).outcome.Halts() {
        ApplyClosesNone(p, Run(p, most).m, cs[|cs| - 1]);
      }
    }
  }

  // ---------- runs on a new device ----------

  /** A device that can open a zone with a random write area and write `unit` LBAs to it. */
  predicate Roomy(p: Params, unit: nat) {
    && p.Sane() && 0 < p.nrZones && 0 < p.maxActive && 0 < p.maxOpen && 0 < p.maxZrwa
    && 0 < unit < p.zoneLbas && unit * LBA_BYTES % p.writeUnit == 0
    && (0 < p.zrwaLbas ==> unit <= p.zrwaLbas)
  }

  function OpenFirst(): Command { Send(OpenZoneAction, 0, true) }
  function CloseFirst(): Command { Send(CloseZone, 0, false) }
  function FlushFirst(): Command { Send(FlushExplicitZrwa, 0, false) }
  function WriteFirst(unit: nat): Command { Write(0, unit, false, true) }

  /** The first zone is open with its random write area, its pointer is at the start, and `taken`
      bytes are gone from its buffer. */
  ghost predicate FirstOpen(p: Params, m: Machine, taken: nat) {
    && Ok(p, m) && 0 < p.nrZones && p.ZoneOf(0) == 0
    && IsOpened(m.zones[0].state) && m.zones[0].zrwav && m.zones[0].wp == 0
    && m.buffers[0] == p.zrwaBufferBytes - taken
  }

  lemma FirstZone(p: Params)
    requires p.Sane()
    ensures p.ZoneOf(0) == 0 && p.Start(0) == 0 && p.End(0) == p.zoneLbas
  {
    ZoneOfMeaning(p, 0, 0);
  }

  lemma OpensFirst(p: Params, unit: nat)
    requires Roomy(p, unit)
    ensures AllPossible(p, [OpenFirst()])
    ensures var r := Run(p, [OpenFirst()]); r.outcome == Done(Success) && FirstOpen(p, r.m, 0)
  {
    hide Count;
    var m := Initial(p);
    FirstZone(p);
    InitialOk(p);
    CountNone(m.zones, ActiveZone);
    CountNone(m.zones, OpenZone);
    CountNone(m.zones, ZrwaZone);
    RunNothing(p);
    RunNext(p, [], OpenFirst());
    assert [] + [OpenFirst()] == [OpenFirst()];
    OpenKeeps(p, m, 0, true);
  }

  /** The same with the zone closed. */
  ghost predicate FirstClosed(p: Params, m: Machine, taken: nat) {
    && Ok(p, m) && 0 < p.nrZones && p.ZoneOf(0) == 0
    && m.zones[0].state.Closed? && m.zones[0].zrwav && m.zones[0].wp == 0 && !IsFull(p, m, OpenZone)
    && m.buffers[0] == p.zrwaBufferBytes - taken
  }

  lemma ClosesFirst(p: Params, m: Machine, taken: nat)
    requires FirstOpen(p, m, taken)
    ensures Possible(p, CloseFirst())
    ensures var r := Apply(p, m, CloseFirst()); r.outcome == Done(Success) && FirstClosed(p, r.m, taken)
  {
    hide Count;
    var z := m.zones[0].(state := Closed);
    PutOk(p, m, 0, z);
    assert Used(m, OpenZone) <= p.Total(OpenZone);
  }

  lemma FirstInReach(p: Params, unit: nat)
    requires Roomy(p, unit)
    ensures InReach(p, 0, 0, 0, unit) && Possible(p, WriteFirst(unit))
  {
    FirstZone(p);
  }

  /** A write within the area of the closed first zone opens it and takes the area from the buffer. */
  lemma WritesFirst(p: Params, m: Machine, taken: nat, unit: nat)
    requires Roomy(p, unit) && FirstClosed(p, m, taken)
    requires 0 < p.zrwaLbas && 0 < p.zrwaBytes <= p.zrwaBufferBytes - taken
    ensures Possible(p, WriteFirst(unit))
    ensures var r := Apply(p, m, WriteFirst(unit)); r.outcome == Done(Success) && FirstOpen(p, r.m, taken + p.zrwaBytes)
  {
    hide Count;
    FirstZone(p);
    FirstInReach(p, unit);
    ReachMeaning(p, m, 0, unit);
    ZrwaWriteKeeps(p, m, 0, unit);
    assert ImplicitFlush(p, 0, 0, unit - 1) == 0;
  }

  // ---------- which devices crash ----------

  lemma SendNeverCrashes(p: Params, m: Machine, action: Action, slba: nat, zrwa: bool)
    requires Ok(p, m) && p.ZoneOf(slba) < p.nrZones && 0 < p.zrwafgLbas
    ensures !SendReply(p, m, action, slba, zrwa).outcome.Crash?
  {
  }

  lemma {:induction false} SendAllNeverCrashes(p: Params, m: Machine, action: Action, zrwa: bool, zid: nat)
    requires Ok(p, m) && zid <= p.nrZones && 0 < p.zrwafgLbas
    ensures !SendAll(p, m, action, zrwa, zid).outcome.Crash?
    decreases p.nrZones - zid
  {
    hide SendReply;
    if zid < p.nrZones {
      ZoneOfMeaning(p, p.Start(zid), zid);
      SendKeeps(p, m, action, p.Start(zid), zrwa);
      SendNeverCrashes(p, m, action, p.Start(zid), zrwa);
      SendAllNeverCrashes(p, SendReply(p, m, action, p.Start(zid), zrwa).m, action, zrwa, zid + 1);
    }
  }

  lemma ApplyNeverCrashes(p: Params, m: Machine, c: Command)
    requires Ok(p, m) && Possible(p, c) && 0 < p.zrwafgLbas && 0 < p.zrwaBufferBytes
    ensures !Apply(p, m, c).outcome.Crash?
  {
    hide SendAll, SendReply, WriteReply, ZrwaWriteReply, Count;
    match c
    case Send(action, slba, zrwa) => SendNeverCrashes(p, m, action, slba, zrwa);
    case SendToAll(action, zrwa) => SendAllNeverCrashes(p, m, action, zrwa, 0);
    case Write(slba, nr, append, granted) =>
      if m.zones[p.ZoneOf(slba)].zrwav {
        CrashesExactlyWhen(p, m, slba, nr);
      }
    case Release(zid, bytes) =>
  }

  lemma {:induction false} RunNeverCrashes(p: Params, cs: seq<Command>)
    requires AllPossible(p, cs) && 0 < p.zrwafgLbas && 0 < p.zrwaBufferBytes
    ensures !Run(p, cs).outcome.Crash?
  {
    hide Apply;
    if cs == [] {
      RunNothing(p);
    } else {
      RunNeverCrashes(p, cs[..|cs| - 1]);
      ApplyNeverCrashes(p, Run(p, cs[..|cs| - 1]).m, cs[|cs| - 1]);
    }
  }

  /** Two commands crash a device without a granule: open a zone with a random write area and flush
      it, or, without an area as well, write to it. */
  lemma TwoCommandsCrash(p: Params, unit: nat)
    requires Roomy(p, unit) && p.zrwafgLbas == 0
    ensures AllPossible(p, [OpenFirst(), FlushFirst()]) && Run(p, [OpenFirst(), FlushFirst()]).outcome.Crash?
    ensures p.zrwaLbas == 0 ==>
              AllPossible(p, [OpenFirst(), WriteFirst(unit)]) && Run(p, [OpenFirst(), WriteFirst(unit)]).outcome.Crash?
  {
    hide Run, Apply, FlushReply, ZrwaWriteReply;
    OpensFirst(p, unit);
    FirstInReach(p, unit);
    var m := Run(p, [OpenFirst()]).m;
    RunNext(p, [OpenFirst()], FlushFirst());
    RunNext(p, [OpenFirst()], WriteFirst(unit));
    assert [OpenFirst()] + [FlushFirst()] == [OpenFirst(), FlushFirst()];
    assert [OpenFirst()] + [WriteFirst(unit)] == [OpenFirst(), WriteFirst(unit)];
    FlushCrashesExactlyWhen(p, m, 0);
    CrashesExactlyWhen(p, m, 0, unit);
    ApplyFirst(p, m, 0, unit);
  }

  lemma ApplyFirst(p: Params, m: Machine, taken: nat, unit: nat)
    requires Roomy(p, unit) && Ok(p, m) && Possible(p, WriteFirst(unit)) && Possible(p, FlushFirst())
    requires p.ZoneOf(0) == 0 && m.zones[0].zrwav
    ensures Apply(p, m, WriteFirst(unit)) == ZrwaWriteReply(p, m, 0, unit)
    ensures Apply(p, m, FlushFirst()) == FlushReply(p, m, 0)
  {
    hide ZrwaWriteReply, FlushReply;
  }

  /** Without a buffer a third command crashes: a write to the zone after it was closed. */
  lemma ThreeCommandsCrash(p: Params, unit: nat)
    requires Roomy(p, unit) && p.zrwaBufferBytes == 0
    ensures var cs := [OpenFirst(), CloseFirst(), WriteFirst(unit)]; AllPossible(p, cs) && Run(p, cs).outcome.Crash?
  {
    hide Run, Apply, FlushReply, ZrwaWriteReply;
    OpensFirst(p, unit);
    FirstInReach(p, unit);
    ClosesFirst(p, Run(p, [OpenFirst()]).m, 0);
    RunNext(p, [OpenFirst()], CloseFirst());
    assert [OpenFirst()] + [CloseFirst()] == [OpenFirst(), CloseFirst()];
    var m := Run(p, [OpenFirst(), CloseFirst()]).m;
    RunNext(p, [OpenFirst(), CloseFirst()], WriteFirst(unit));
    assert [OpenFirst(), CloseFirst()] + [WriteFirst(unit)] == [OpenFirst(), CloseFirst(), WriteFirst(unit)];
    CrashesExactlyWhen(p, m, 0, unit);
    ApplyFirst(p, m, 0, unit);
  }

  /** A device has a run that crashes if and only if its granule or its buffers are zero. */
  lemma SomeRunCrashes(p: Params, unit: nat)
    requires Roomy(p, unit)
    ensures (exists cs :: AllPossible(p, cs) && Run(p, cs).outcome.Crash?)
            <==> p.zrwafgLbas == 0 || p.zrwaBufferBytes == 0
  {
    hide Run, AllPossible;
    if p.zrwafgLbas == 0 {
      TwoCommandsCrash(p, unit);
    } else if p.zrwaBufferBytes == 0 {
      ThreeCommandsCrash(p, unit);
    } else {
      forall cs | AllPossible(p, cs) ensures !Run(p, cs).outcome.Crash? {
        RunNeverCrashes(p, cs);
      }
    }
  }

  // ---------- which devices fail the assertion ----------

  /** Open the first zone, then close it and write to it `n` times. */
  function Rounds(unit: nat, n: nat): seq<Command> {
    if n == 0 then [OpenFirst()] else Rounds(unit, n - 1) + [CloseFirst()] + [WriteFirst(unit)]
  }

  /** Every round takes a whole random write area from the buffer and gives nothing back. */
  lemma {:induction false} RoundsDrain(p: Params, unit: nat, n: nat)
    requires Roomy(p, unit) && n * p.zrwaBytes <= p.zrwaBufferBytes && (0 < n ==> 0 < p.zrwaLbas && 0 < p.zrwaBytes)
    ensures AllPossible(p, Rounds(unit, n))
    ensures var r := Run(p, Rounds(unit, n)); r.outcome == Done(Success) && FirstOpen(p, r.m, n * p.zrwaBytes)
  {
    hide Run, Apply, FirstOpen, FirstClosed, AllPossible, Possible;
    if n == 0 {
      OpensFirst(p, unit);
    } else {
      Product(n - 1, p.zrwaBytes);
      RoundsDrain(p, unit, n - 1);
      var cs := Rounds(unit, n - 1);
      CloseNext(p, cs, (n - 1) * p.zrwaBytes);
      FirstInReach(p, unit);
      WritesFirst(p, Run(p, cs + [CloseFirst()]).m, (n - 1) * p.zrwaBytes, unit);
      RunNext(p, cs + [CloseFirst()], WriteFirst(unit));
    }
  }

  lemma Product(n: int, x: nat)
    ensures n * x + x == (n + 1) * x
  {
  }

  lemma CloseNext(p: Params, cs: seq<Command>, taken: nat)
    requires AllPossible(p, cs) && Run(p, cs).outcome == Done(Success) && FirstOpen(p, Run(p, cs).m, taken)
    ensures AllPossible(p, cs + [CloseFirst()])
    ensures var r := Run(p, cs + [CloseFirst()]); r.outcome == Done(Success) && FirstClosed(p, r.m, taken)
  {
    hide Run, Apply, FirstOpen, FirstClosed;
    ClosesFirst(p, Run(p, cs).m, taken);
    RunNext(p, cs, CloseFirst());
  }

  /** The round after the last one that the buffer has room for fails the assertion. */
  lemma RoundsStop(p: Params, unit: nat, n: nat)
    requires Roomy(p, unit) && 0 < p.zrwaBufferBytes
    requires n * p.zrwaBytes <= p.zrwaBufferBytes && (0 < n ==> 0 < p.zrwaLbas && 0 < p.zrwaBytes)
    requires p.zrwaBytes == 0 || p.zrwaBufferBytes < (n + 1) * p.zrwaBytes
    ensures var cs := Rounds(unit, n) + [CloseFirst()] + [WriteFirst(unit)];
            AllPossible(p, cs) && Run(p, cs).outcome.Stop?
  {
    hide Run, Apply, FirstOpen, ZrwaWriteReply, FlushReply;
    Product(n, p.zrwaBytes);
    RoundsDrain(p, unit, n);
    var cs := Rounds(unit, n);
    CloseNext(p, cs, n * p.zrwaBytes);
    FirstInReach(p, unit);
    var m := Run(p, cs + [CloseFirst()]).m;
    StopsExactlyWhen(p, m, 0, unit);
    ApplyFirst(p, m, n * p.zrwaBytes, unit);
    RunNext(p, cs + [CloseFirst()], WriteFirst(unit));
  }

  /** Every zone's buffer has all its bytes. */
  ghost predicate BuffersFull(p: Params, m: Machine) {
    forall i :: 0 <= i < |m.buffers| ==> p.zrwaBufferBytes <= m.buffers[i]
  }

  lemma SendKeepsBuffers(p: Params, m: Machine, action: Action, slba: nat, zrwa: bool)
    requires Ok(p, m) && BuffersFull(p, m) && p.ZoneOf(slba) < p.nrZones
    ensures BuffersFull(p, SendReply(p, m, action, slba, zrwa).m)
  {
  }

  lemma {:induction false} SendAllKeepsBuffers(p: Params, m: Machine, action: Action, zrwa: bool, zid: nat)
    requires Ok(p, m) && BuffersFull(p, m) && zid <= p.nrZones
    ensures BuffersFull(p, SendAll(p, m, action, zrwa, zid).m)
    decreases p.nrZones - zid
  {
    hide SendReply;
    if zid < p.nrZones {
      ZoneOfMeaning(p, p.Start(zid), zid);
      SendKeeps(p, m, action, p.Start(zid), zrwa);
      SendKeepsBuffers(p, m, action, p.Start(zid), zrwa);
      var r := SendReply(p, m, action, p.Start(zid), zrwa);
      if !r.outcome.Crash? {
        SendAllKeepsBuffers(p, r.m, action, zrwa, zid + 1);
      }
    }
  }

  /** Without an area no write gets to take from a buffer and go on. */
  lemma WriteKeepsBuffers(p: Params, m: Machine, slba: nat, nr: nat)
    requires Ok(p, m) && BuffersFull(p, m) && p.ZoneOf(slba) < p.nrZones && 0 < nr && p.zrwaLbas == 0
    ensures BuffersFull(p, ZrwaWriteReply(p, m, slba, nr).m)
  {
    hide Count;
  }

  lemma ApplyKeepsBuffers(p: Params, m: Machine, c: Command)
    requires Ok(p, m) && Possible(p, c) && BuffersFull(p, m) && p.zrwaLbas == 0 && 0 < p.zrwaBytes <= p.zrwaBufferBytes
    ensures BuffersFull(p, Apply(p, m, c).m) && !Apply(p, m, c).outcome.Stop?
  {
    hide SendAll, SendReply, WriteReply, ZrwaWriteReply, Count;
    match c
    case Send(action, slba, zrwa) =>
      SendKeepsBuffers(p, m, action, slba, zrwa);
      SendNeverStops(p, m, action, slba, zrwa);
    case SendToAll(action, zrwa) => SendAllKeepsBuffers(p, m, action, zrwa, 0);
    case Write(slba, nr, append, granted) =>
      if m.zones[p.ZoneOf(slba)].zrwav {
        StopsExactlyWhen(p, m, slba, nr);
        WriteKeepsBuffers(p, m, slba, nr);
      } else {
        SequentialKeepsBuffers(p, m, slba, nr, append);
      }
    case Release(zid, bytes) =>
  }

  lemma {:induction false} RunKeepsBuffers(p: Params, cs: seq<Command>)
    requires AllPossible(p, cs) && p.zrwaLbas == 0 && 0 < p.zrwaBytes <= p.zrwaBufferBytes
    ensures BuffersFull(p, Run(p, cs).m) && !Run(p, cs).outcome.Stop?
  {
    hide Apply;
    if cs == [] {
      RunNothing(p);
    } else {
      RunKeepsBuffers(p, cs[..|cs| - 1]);
      ApplyKeepsBuffers(p, Run(p, cs[..|cs| - 1]).m, cs[|cs| - 1]);
    }
  }

  lemma SequentialKeepsBuffers(p: Params, m: Machine, slba: nat, nr: nat, append: bool)
    requires Ok(p, m) && p.ZoneOf(slba) < p.nrZones && 0 < nr
    ensures WriteReply(p, m, slba, nr, append).m.buffers == m.buffers
  {
  }

  lemma ApplyBufferless(p: Params, m: Machine, c: Command)
    requires Ok(p, m) && Possible(p, c) && p.zrwaBufferBytes == 0
    ensures !Apply(p, m, c).outcome.Stop?
  {
    hide SendAll, SendReply, WriteReply, ZrwaWriteReply, Count;
    match c
    case Send(action, slba, zrwa) => SendNeverStops(p, m, action, slba, zrwa);
    case SendToAll(action, zrwa) =>
    case Write(slba, nr, append, granted) =>
      if m.zones[p.ZoneOf(slba)].zrwav {
        StopsExactlyWhen(p, m, slba, nr);
      }
    case Release(zid, bytes) =>
  }

  lemma {:induction false} BufferlessNeverStops(p: Params, cs: seq<Command>)
    requires AllPossible(p, cs) && p.zrwaBufferBytes == 0
    ensures !Run(p, cs).outcome.Stop?
  {
    hide Apply;
    if cs == [] {
      RunNothing(p);
    } else {
      BufferlessNeverStops(p, cs[..|cs| - 1]);
      ApplyBufferless(p, Run(p, cs[..|cs| - 1]).m, cs[|cs| - 1]);
    }
  }

  /** A device has a run that fails the assertion if and only if it has buffers, and a random write
      area, or one that never fits into its buffer. */
  lemma SomeRunStops(p: Params, unit: nat)
    requires Roomy(p, unit)
    ensures (exists cs :: AllPossible(p, cs) && Run(p, cs).outcome.Stop?) <==>
            0 < p.zrwaBufferBytes && (0 < p.zrwaLbas || p.zrwaBytes == 0 || p.zrwaBufferBytes < p.zrwaBytes)
  {
    hide Run, AllPossible;
    if 0 < p.zrwaBufferBytes && (0 < p.zrwaLbas || p.zrwaBytes == 0 || p.zrwaBufferBytes < p.zrwaBytes) {
      var n := if p.zrwaLbas == 0 || p.zrwaBytes == 0 then 0 else p.zrwaBufferBytes / p.zrwaBytes;
      LastRound(p.zrwaBufferBytes, p.zrwaBytes);
      RoundsStop(p, unit, n);
    } else {
      forall cs | AllPossible(p, cs) ensures !Run(p, cs).outcome.Stop? {
        if p.zrwaBufferBytes == 0 {
          BufferlessNeverStops(p, cs);
        } else {
          RunKeepsBuffers(p, cs);
        }
      }
    }
  }

  lemma LastRound(a: nat, b: nat)
    ensures 0 < b ==> a / b * b <= a < (a / b + 1) * b
  {
  }
}
