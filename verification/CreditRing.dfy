/** The bandwidth model of channel_model.c as values.  Time is cut into intervals, each with the
    same number of credits.  A ring holds the credits left in the current interval and the ones
    after it; the ledger is the list of all grants ever made. */
module CreditRing {
  import opened Arithmetic

  const UNIT_TIME_INTERVAL: nat := 4000
  const UNIT_XFER_SIZE: nat := 128
  const UNIT_XFER_CREDITS: nat := 1
  const TWO_32: nat := 0x1_0000_0000
  const TWO_64: nat := 0x1_0000_0000_0000_0000

  /** The constants of struct channel_model. */
  datatype Channel = Channel(maxCredits: nat, commandCredits: nat, xferLat: nat)

  /** `left[k]` is what interval `Interval(time) + k` has left; from `validLen` on all are full. */
  datatype Ring = Ring(left: seq<nat>, validLen: nat, time: nat)

  /** `credits` taken from interval `t`. */
  datatype Grant = Grant(t: nat, credits: nat)

  function Interval(time: nat): nat { time / UNIT_TIME_INTERVAL }

  /** The credits of a full slot: memset keeps one byte of max_credits. */
  function Cap(ch: Channel): nat { ch.maxCredits % 256 }

  function Full(n: nat, cap: nat): seq<nat> { seq(n, i => cap) }

  ghost predicate RingOk(r: Ring, cap: nat) {
    && r.validLen <= |r.left| && 0 < |r.left| < TWO_32
    && (forall k :: 0 <= k < |r.left| ==> r.left[k] <= cap)
    && (forall k :: r.validLen <= k < |r.left| ==> r.left[k] == cap)
  }

  // ---------- the ledger ----------

  /** All credits ever granted in interval `t`. */
  function Granted(log: seq<Grant>, t: nat): nat {
    if log == [] then 0
    else Granted(log[..|log| - 1], t) + if log[|log| - 1].t == t then log[|log| - 1].credits else 0
  }

  /** All credits ever granted. */
  function AllGranted(log: seq<Grant>): nat {
    if log == [] then 0 else AllGranted(log[..|log| - 1]) + log[|log| - 1].credits
  }

  lemma {:induction false} GrantedConcat(a: seq<Grant>, b: seq<Grant>, t: nat)
    ensures Granted(a + b, t) == Granted(a, t) + Granted(b, t)
    ensures AllGranted(a + b) == AllGranted(a) + AllGranted(b)
  {
    if b == [] {
      assert a + b == a;
    } else {
      GrantedConcat(a, b[..|b| - 1], t);
      assert (a + b)[..|a + b| - 1] == a + b[..|b| - 1];
    }
  }

  /** The slots show what the ledger leaves from interval `from` on: `cap` credits for every interval,
      less what was ever granted there.  No interval granted more than `cap`, and the intervals past
      `validLen` granted nothing. */
  ghost predicate InStep(left: seq<nat>, validLen: nat, from: nat, log: seq<Grant>, cap: nat) {
    && (forall k: nat :: k < |left| ==> left[k] + Granted(log, from + k) == cap)
    && (forall t: nat :: Granted(log, t) <= cap)
    && (forall t: nat :: from + validLen <= t ==> Granted(log, t) == 0)
  }

  ghost predicate Tracks(r: Ring, log: seq<Grant>, cap: nat) {
    InStep(r.left, r.validLen, Interval(r.time), log, cap)
  }

  /** The slots never show more than the ledger leaves. */
  ghost predicate Bounded(left: seq<nat>, validLen: nat, from: nat, log: seq<Grant>, cap: nat) {
    && (forall k: nat :: k < |left| ==> left[k] + Granted(log, from + k) <= cap)
    && (forall t: nat :: Granted(log, t) <= cap)
    && (forall t: nat :: from + validLen <= t ==> Granted(log, t) == 0)
  }

  ghost predicate Within(r: Ring, log: seq<Grant>, cap: nat) {
    Bounded(r.left, r.validLen, Interval(r.time), log, cap)
  }

  lemma TracksIsWithin(r: Ring, log: seq<Grant>, cap: nat)
    requires Tracks(r, log, cap)
    ensures Within(r, log, cap)
  {
  }

  // ---------- moving the head ----------

  /** The unsigned 32-bit difference of two 64-bit interval numbers. */
  function Distance(later: nat, earlier: nat): (d: nat)
    ensures d < TWO_32
  {
    (Interval(later) - Interval(earlier)) % TWO_32
  }

  /** How many slots chmodel_request passes when the clock reads `now`. */
  function Passed(r: Ring, now: nat): nat {
    if Distance(now, r.time) < r.validLen then Distance(now, r.time) else r.validLen
  }

  function Moved(r: Ring, now: nat, cap: nat): Ring
    requires r.validLen <= |r.left|
  {
    var c := Passed(r, now);
    Ring(r.left[c..] + Full(c, cap), r.validLen - c, now)
  }

  lemma MovedOk(r: Ring, now: nat, cap: nat)
    requires RingOk(r, cap)
    ensures RingOk(Moved(r, now, cap), cap) && |Moved(r, now, cap).left| == |r.left|
  {
  }

  /** The clock went far enough for its 32-bit distance to wrap around to a slot that is in use. */
  ghost predicate Aliased(r: Ring, now: nat, cap: nat) {
    Interval(now) - Interval(r.time) >= TWO_32
    && exists k :: Distance(now, r.time) <= k < r.validLen && k < |r.left| && r.left[k] != cap
  }

  lemma ShiftExact(left: seq<nat>, validLen: nat, from: nat, c: nat, cap: nat, log: seq<Grant>)
    requires c <= validLen <= |left| && InStep(left, validLen, from, log, cap)
    ensures InStep(left[c..] + Full(c, cap), validLen - c, from + c, log, cap)
  {
    hide Granted;
    var l := left[c..] + Full(c, cap);
    forall k: nat | k < |l| ensures l[k] + Granted(log, from + c + k) == cap {
      if k < |left| - c {
        assert left[c + k] + Granted(log, from + (c + k)) == cap;
      }
    }
  }

  /** Far away all intervals are full, so the shifted slots must all be. */
  lemma ShiftPast(left: seq<nat>, validLen: nat, from: nat, to: nat, c: nat, cap: nat, log: seq<Grant>)
    requires c <= validLen <= |left| && InStep(left, validLen, from, log, cap) && from + validLen <= to
    requires forall k :: validLen <= k < |left| ==> left[k] == cap
    ensures InStep(left[c..] + Full(c, cap), validLen - c, to, log, cap)
            <==> forall k :: c <= k < validLen ==> left[k] == cap
  {
    hide Granted;
    var l := left[c..] + Full(c, cap);
    if InStep(l, validLen - c, to, log, cap) {
      forall k | c <= k < validLen ensures left[k] == cap {
        assert l[k - c] == left[k] && l[k - c] + Granted(log, to + (k - c)) == cap;
      }
    }
    if forall k :: c <= k < validLen ==> left[k] == cap {
      forall k: nat | k < |l| ensures l[k] + Granted(log, to + k) == cap {
        if k < |left| - c {
          assert l[k] == left[c + k];
        }
      }
    }
  }

  lemma DistanceIs(later: nat, earlier: nat)
    requires Interval(earlier) <= Interval(later)
    ensures Interval(later) - Interval(earlier) < TWO_32 ==>
              Distance(later, earlier) == Interval(later) - Interval(earlier)
    ensures Distance(later, earlier) <= Interval(later) - Interval(earlier)
  {
  }

  lemma LaterInterval(a: nat, b: nat)
    requires a <= b
    ensures Interval(a) <= Interval(b)
  {
  }

  /** Moving the clamped head keeps the ring in step with the ledger, unless the distance wraps
      around to a slot that is in use. */
  lemma MoveTracks(r: Ring, now: nat, cap: nat, log: seq<Grant>)
    requires RingOk(r, cap) && Tracks(r, log, cap) && r.time <= now
    ensures Tracks(Moved(r, now, cap), log, cap) <==> !Aliased(r, now, cap)
  {
    hide InStep, Granted, Interval, Distance;
    var c := Passed(r, now);
    var from, to := Interval(r.time), Interval(now);
    LaterInterval(r.time, now);
    DistanceIs(now, r.time);
    if to - from < TWO_32 && to - from < r.validLen {
      ShiftExact(r.left, r.validLen, from, c, cap, log);
    } else {
      ShiftPast(r.left, r.validLen, from, to, c, cap, log);
    }
  }

  lemma ShiftBounded(left: seq<nat>, validLen: nat, from: nat, to: nat, c: nat, cap: nat, log: seq<Grant>)
    requires c <= validLen <= |left| && Bounded(left, validLen, from, log, cap)
    requires to == from + c || from + validLen <= to
    requires forall k :: 0 <= k < |left| ==> left[k] <= cap
    ensures Bounded(left[c..] + Full(c, cap), validLen - c, to, log, cap)
  {
    hide Granted;
    var l := left[c..] + Full(c, cap);
    forall k: nat | k < |l| ensures l[k] + Granted(log, to + k) <= cap {
      if k < |left| - c && to == from + c {
        assert left[c + k] + Granted(log, from + (c + k)) <= cap;
      }
    }
  }

  /** However far the clock went, the head's move leaves no slot with more than the ledger does. */
  lemma MoveBounded(r: Ring, now: nat, cap: nat, log: seq<Grant>)
    requires RingOk(r, cap) && Within(r, log, cap) && r.time <= now
    ensures Within(Moved(r, now, cap), log, cap)
  {
    hide Bounded, Granted, Interval, Distance;
    LaterInterval(r.time, now);
    DistanceIs(now, r.time);
    ShiftBounded(r.left, r.validLen, Interval(r.time), Interval(now), Passed(r, now), cap, log);
  }

  // ---------- taking credits ----------

  datatype Take = Take(left: seq<nat>, pos: nat, rest: nat, grants: seq<Grant>)

  function Min(a: nat, b: nat): nat { if a <= b then a else b }

  /** The loop of chmodel_request: take what slot `k` has, then go to the next slot until nothing is
      wanted or the slots end.  Slot `k` belongs to interval `from + k`. */
  function TakeFrom(left: seq<nat>, k: nat, want: nat, from: nat): (t: Take)
    requires k < |left|
    ensures k <= t.pos < |left| == |t.left|
    decreases |left| - k
  {
    var used := Min(want, left[k]);
    var l := left[k := left[k] - used];
    if want > used && k + 1 < |left| then
      var t := TakeFrom(l, k + 1, want - used, from);
      t.(grants := [Grant(from + k, used)] + t.grants)
    else Take(l, k, want - used, [Grant(from + k, used)])
  }

  /** The credits of slots `a` up to `b`. */
  function Sum(left: seq<nat>, a: nat, b: nat): nat
    requires a <= b <= |left|
    decreases b - a
  {
    if a == b then 0 else left[a] + Sum(left, a + 1, b)
  }

  lemma {:induction false} SumSame(l: seq<nat>, m: seq<nat>, a: nat, b: nat)
    requires a <= b <= |l| && |m| == |l| && forall i :: a <= i < b ==> l[i] == m[i]
    ensures Sum(l, a, b) == Sum(m, a, b)
    decreases b - a
  {
    if a < b {
      SumSame(l, m, a + 1, b);
    }
  }

  /** Earliest fit: the slots before the last one touched are emptied and were not enough, no other
      slot changes, and something is left over only when all slots from `k` on are empty. */
  lemma {:induction false} TakeMeaning(left: seq<nat>, k: nat, want: nat, from: nat)
    requires k < |left|
    ensures var t := TakeFrom(left, k, want, from);
            && k <= t.pos < |left| == |t.left|
            && (forall j :: 0 <= j < |left| && (j < k || t.pos < j) ==> t.left[j] == left[j])
            && (forall j :: k <= j < t.pos ==> t.left[j] == 0)
            && t.left[t.pos] <= left[t.pos]
            && (k < t.pos ==> Sum(left, k, t.pos) < want)
            && t.rest == (if want <= Sum(left, k, |left|) then 0 else want - Sum(left, k, |left|))
            && (t.rest > 0 ==> t.pos == |left| - 1 && t.left[t.pos] == 0)
    decreases |left| - k
  {
    var used := Min(want, left[k]);
    var l := left[k := left[k] - used];
    if want > used && k + 1 < |left| {
      TakeMeaning(l, k + 1, want - used, from);
      var t := TakeFrom(l, k + 1, want - used, from);
      SumSame(left, l, k + 1, |left|);
      SumSame(left, l, k + 1, t.pos);
    } else if k + 1 == |left| {
      assert Sum(left, k, |left|) == left[k] + Sum(left, k + 1, |left|);
    }
  }

  /** What the slot of interval `t` lost. */
  function Lost(before: seq<nat>, after: seq<nat>, from: nat, t: nat): int {
    if from <= t < from + |before| && |after| == |before| then before[t - from] as int - after[t - from] else 0
  }

  lemma OneGrant(g: Grant, t: nat)
    ensures Granted([g], t) == if g.t == t then g.credits else 0
    ensures AllGranted([g]) == g.credits
  {
    assert [g][..0] == [];
  }

  /** The grants are what the slots lost, in the intervals of the slots. */
  lemma {:induction false} GrantsAreTaken(left: seq<nat>, k: nat, want: nat, from: nat, t: nat)
    requires k < |left|
    ensures var s := TakeFrom(left, k, want, from);
            && Granted(s.grants, t) == Lost(left, s.left, from, t)
            && s.rest <= want && AllGranted(s.grants) == want - s.rest
            && (forall g :: g in s.grants ==> from + k <= g.t)
    decreases |left| - k
  {
    hide Granted, AllGranted, Sum;
    var used := Min(want, left[k]);
    var l := left[k := left[k] - used];
    OneGrant(Grant(from + k, used), t);
    if want > used && k + 1 < |left| {
      GrantsAreTaken(l, k + 1, want - used, from, t);
      var s := TakeFrom(l, k + 1, want - used, from);
      GrantedConcat([Grant(from + k, used)], s.grants, t);
      TakeMeaning(l, k + 1, want - used, from);
    }
  }

  // ---------- a request ----------

  /** The credits a transfer of `length` bytes wants, in 64-bit and then 32-bit arithmetic. */
  function Units(length: nat): nat {
    ((length + UNIT_XFER_SIZE - 1) % TWO_64 / UNIT_XFER_SIZE) % TWO_32
  }

  function Want(ch: Channel, length: nat): nat {
    (Units(length) * UNIT_XFER_CREDITS % TWO_32 + ch.commandCredits) % TWO_32
  }

  /** The intervals a transfer is held up beyond what its size explains. */
  function Held(ch: Channel, want: nat, delay: nat): nat
    requires 0 < ch.maxCredits
  {
    if delay > want / ch.maxCredits then delay - want / ch.maxCredits else 0
  }

  function Finish(ch: Channel, request: nat, length: nat, delay: nat): nat
    requires 0 < ch.maxCredits
  {
    (request + (ch.xferLat * Units(length) % TWO_32 + Held(ch, Want(ch, length), delay) * UNIT_TIME_INTERVAL)) % TWO_64
  }

  datatype Outcome = Outcome(ring: Ring, grants: seq<Grant>, finish: nat)

  /** Whether chmodel_request gets as far as taking credits. */
  predicate Served(r: Ring, now: nat, request: nat) {
    now <= request && Distance(request, now) < |r.left|
  }

  /** chmodel_request when the clock reads `now`. */
  function Requested(ch: Channel, r: Ring, now: nat, request: nat, length: nat): Outcome
    requires 0 < ch.maxCredits && r.validLen <= |r.left|
  {
    var m := Moved(r, now, Cap(ch));
    if !Served(r, now, request) then Outcome(m, [], request)
    else
      var offs := Distance(request, now);
      var t := TakeFrom(m.left, offs, Want(ch, length), Interval(now));
      Outcome(Ring(t.left, if t.pos + 1 > m.validLen then t.pos + 1 else m.validLen, now), t.grants,
              Finish(ch, request, length, t.pos - offs))
  }

  lemma RequestedOk(ch: Channel, r: Ring, now: nat, request: nat, length: nat)
    requires 0 < ch.maxCredits && RingOk(r, Cap(ch))
    ensures RingOk(Requested(ch, r, now, request, length).ring, Cap(ch))
    ensures |Requested(ch, r, now, request, length).ring.left| == |r.left|
  {
    MovedOk(r, now, Cap(ch));
    if Served(r, now, request) {
      var m := Moved(r, now, Cap(ch));
      TakeMeaning(m.left, Distance(request, now), Want(ch, length), Interval(now));
    }
  }

  /** Slot and ledger of an interval add up to the same before and after. */
  lemma TakeSums(left: seq<nat>, k: nat, want: nat, from: nat, log: seq<Grant>)
    requires k < |left|
    ensures var t := TakeFrom(left, k, want, from);
            && |t.left| == |left|
            && (forall i: nat :: i < |left| ==>
                  t.left[i] + Granted(log + t.grants, from + i) == left[i] + Granted(log, from + i))
            && (forall i: nat :: i < from || from + |left| <= i ==> Granted(log + t.grants, i) == Granted(log, i))
            && (forall i: nat :: t.pos < i < |left| ==> t.left[i] == left[i])
  {
    hide Granted, AllGranted, Sum, TakeFrom;
    var t := TakeFrom(left, k, want, from);
    TakeMeaning(left, k, want, from);
    forall i: nat ensures Granted(log + t.grants, i) == Granted(log, i) + Lost(left, t.left, from, i) {
      GrantedConcat(log, t.grants, i);
      GrantsAreTaken(left, k, want, from, i);
    }
  }

  /** Taking credits keeps the bound, and is in step with the ledger before and after or not at all. */
  lemma TakeTracks(m: Ring, k: nat, want: nat, cap: nat, log: seq<Grant>)
    requires RingOk(m, cap) && Within(m, log, cap) && k < |m.left|
    ensures var t := TakeFrom(m.left, k, want, Interval(m.time));
            var after := Ring(t.left, if t.pos + 1 > m.validLen then t.pos + 1 else m.validLen, m.time);
            && Within(after, log + t.grants, cap)
            && (Tracks(after, log + t.grants, cap) <==> Tracks(m, log, cap))
  {
    hide Granted, Sum, TakeFrom, Interval;
    var from := Interval(m.time);
    var t := TakeFrom(m.left, k, want, from);
    var log' := log + t.grants;
    TakeSums(m.left, k, want, from, log);
    forall i: nat ensures Granted(log', i) <= cap {
      if from <= i < from + |m.left| {
        assert t.left[i - from] + Granted(log', from + (i - from)) <= cap;
      }
    }
    forall i: nat | from + (if t.pos + 1 > m.validLen then t.pos + 1 else m.validLen) <= i
      ensures Granted(log', i) == 0
    {
      if i < from + |m.left| {
        assert t.left[i - from] + Granted(log', from + (i - from))
               == m.left[i - from] + Granted(log, from + (i - from));
      }
    }
  }

  /** A request keeps the bound, and keeps the ring in step with the ledger if and only if its
      distance does not wrap around. */
  lemma RequestTracks(ch: Channel, r: Ring, now: nat, request: nat, length: nat, log: seq<Grant>)
    requires 0 < ch.maxCredits && RingOk(r, Cap(ch)) && Within(r, log, Cap(ch)) && r.time <= now
    ensures var o := Requested(ch, r, now, request, length);
            && Within(o.ring, log + o.grants, Cap(ch))
            && (Tracks(r, log, Cap(ch)) ==>
                  (Tracks(o.ring, log + o.grants, Cap(ch)) <==> !Aliased(r, now, Cap(ch))))
  {
    hide InStep, Bounded, Granted, Interval, Distance, TakeFrom, Moved, Want, Finish, Cap, Passed, Aliased;
    var cap := Cap(ch);
    MoveBounded(r, now, cap, log);
    if Tracks(r, log, cap) {
      MoveTracks(r, now, cap, log);
    }
    MovedOk(r, now, cap);
    MovedTime(r, now, cap);
    if Served(r, now, request) {
      TakeTracks(Moved(r, now, cap), Distance(request, now), Want(ch, length), cap, log);
    } else {
      assert log + [] == log;
    }
  }

  lemma RingFits(r: Ring, cap: nat)
    requires RingOk(r, cap)
    ensures r.validLen <= |r.left|
  {
  }

  lemma MovedTime(r: Ring, now: nat, cap: nat)
    requires r.validLen <= |r.left|
    ensures Moved(r, now, cap).time == now
  {
  }

  /** A request takes everything it wants, or everything there is from its interval on.  It takes
      nothing before the interval asked for exactly when that is less than 2^32 intervals away. */
  lemma RequestTakes(ch: Channel, r: Ring, now: nat, request: nat, length: nat)
    requires 0 < ch.maxCredits && RingOk(r, Cap(ch)) && Served(r, now, request)
    ensures |Moved(r, now, Cap(ch)).left| == |r.left|
    ensures var there := Sum(Moved(r, now, Cap(ch)).left, Distance(request, now), |r.left|);
            AllGranted(Requested(ch, r, now, request, length).grants) == Min(Want(ch, length), there)
    ensures (forall g :: g in Requested(ch, r, now, request, length).grants ==> Interval(request) <= g.t)
            <==> Interval(request) - Interval(now) < TWO_32
  {
    hide Granted, AllGranted, Sum, Interval, Distance, TakeFrom, Moved, Want, Finish, Cap, RingOk;
    RingFits(r, Cap(ch));
    MovedOk(r, now, Cap(ch));
    var m := Moved(r, now, Cap(ch));
    var offs, want, from := Distance(request, now), Want(ch, length), Interval(now);
    LaterInterval(now, request);
    DistanceIs(request, now);
    TakeMeaning(m.left, offs, want, from);
    GrantsAreTaken(m.left, offs, want, from, 0);
    FirstGrant(m.left, offs, want, from);
    var grants := TakeFrom(m.left, offs, want, from).grants;
    assert grants[0] in grants;
  }

  lemma {:induction false} LastGrant(left: seq<nat>, k: nat, want: nat, from: nat)
    requires k < |left|
    ensures var s := TakeFrom(left, k, want, from); s.grants != [] && s.grants[|s.grants| - 1].t == from + s.pos
    decreases |left| - k
  {
    var used := Min(want, left[k]);
    if want > used && k + 1 < |left| {
      var l := left[k := left[k] - used];
      LastGrant(l, k + 1, want - used, from);
      var t := TakeFrom(l, k + 1, want - used, from);
      var all := [Grant(from + k, used)] + t.grants;
      assert all[|all| - 1] == t.grants[|t.grants| - 1];
    }
  }

  /** The number of 128-byte units of a transfer. */
  function Rounded(length: nat): nat { (length + 127) / 128 }

  lemma UnitsAre(length: nat)
    requires length + 127 < TWO_64 && Rounded(length) < TWO_32
    ensures Units(length) == Rounded(length)
  {
  }

  /** When a transfer is done, from what it was granted.  It is served exactly when it asks for the
      clock's interval or one of those in the ring behind it; otherwise it is done at the time it asks
      for, and takes nothing.  A transfer that is served takes what it wants or all there is, and is
      done after its transfer time and one interval for every interval by which its last grant is
      later than the interval asked for, beyond those that its size explains.  All that is said while
      no number wraps around. */
  lemma FinishFromGrants(ch: Channel, r: Ring, now: nat, request: nat, length: nat)
    requires 0 < ch.maxCredits && RingOk(r, Cap(ch))
    requires length + 127 < TWO_64 && Rounded(length) + ch.commandCredits < TWO_32
    requires Interval(request) - Interval(now) < TWO_32
    requires ch.xferLat * Rounded(length) < TWO_32 && request + TWO_32 + |r.left| * UNIT_TIME_INTERVAL < TWO_64
    ensures var o := Requested(ch, r, now, request, length);
            var want := Rounded(length) + ch.commandCredits;
            if request < now || |r.left| <= Interval(request) - Interval(now)
            then o.finish == request && o.grants == []
            else
              && o.grants != [] && Interval(request) <= o.grants[0].t
              && (forall g :: g in o.grants ==> Interval(request) <= g.t)
              && var late := o.grants[|o.grants| - 1].t - Interval(request) - want / ch.maxCredits;
                 o.finish == request + ch.xferLat * Rounded(length)
                             + (if 0 < late then late * UNIT_TIME_INTERVAL else 0)
  {
    hide Moved, Cap, RingOk, TakeFrom, Units, Rounded, Interval, Distance;
    MovedOk(r, now, Cap(ch));
    RingFits(r, Cap(ch));
    UnitsAre(length);
    if now <= request {
      LaterInterval(now, request);
      DistanceIs(request, now);
      var offs := Distance(request, now);
      if offs < |r.left| {
        var m := Moved(r, now, Cap(ch));
        WantIs(ch, length);
        FirstGrant(m.left, offs, Want(ch, length), Interval(now));
        LastGrant(m.left, offs, Want(ch, length), Interval(now));
        GrantsAreTaken(m.left, offs, Want(ch, length), Interval(now), 0);
        TakeMeaning(m.left, offs, Want(ch, length), Interval(now));
        var t := TakeFrom(m.left, offs, Want(ch, length), Interval(now));
        FinishIs(ch, request, length, t.pos - offs, |r.left|);
      }
    }
  }

  /** The ring after a request, from the grants: every slot lost what its interval was granted, and the
      slots in use reach to the last grant or as far as before. */
  lemma RingFromGrants(ch: Channel, r: Ring, now: nat, request: nat, length: nat, k: nat)
    requires 0 < ch.maxCredits && RingOk(r, Cap(ch)) && k < |r.left|
    ensures var o := Requested(ch, r, now, request, length);
            var c := if Distance(now, r.time) < r.validLen then Distance(now, r.time) else r.validLen;
            && o.ring.time == now && |o.ring.left| == |r.left|
            && o.ring.left[k] + Granted(o.grants, Interval(now) + k)
               == (if k + c < |r.left| then r.left[k + c] else ch.maxCredits % 256)
            && var reach := if o.grants == [] then 0 else o.grants[|o.grants| - 1].t - Interval(now) + 1;
               o.ring.validLen == if r.validLen - c < reach then reach else r.validLen - c
  {
    hide RingOk, TakeFrom, Want, Finish, Interval, Distance, Granted;
    MovedOk(r, now, Cap(ch));
    RingFits(r, Cap(ch));
    NoGrants(Interval(now) + k);
    var m := Moved(r, now, Cap(ch));
    if Served(r, now, request) {
      var offs, want := Distance(request, now), Want(ch, length);
      LastGrant(m.left, offs, want, Interval(now));
      GrantsAreTaken(m.left, offs, want, Interval(now), Interval(now) + k);
      TakeMeaning(m.left, offs, want, Interval(now));
    }
  }

  lemma NoGrants(t: nat)
    ensures Granted([], t) == 0
  {
  }

  lemma WantIs(ch: Channel, length: nat)
    requires Units(length) == Rounded(length) && Rounded(length) + ch.commandCredits < TWO_32
    ensures Want(ch, length) == Rounded(length) + ch.commandCredits
  {
    hide Units, Rounded;
  }

  lemma FinishIs(ch: Channel, request: nat, length: nat, delay: nat, n: nat)
    requires 0 < ch.maxCredits && delay < n && Units(length) == Rounded(length)
    requires ch.xferLat * Rounded(length) < TWO_32 && request + TWO_32 + n * UNIT_TIME_INTERVAL < TWO_64
    ensures Finish(ch, request, length, delay)
            == request + ch.xferLat * Rounded(length)
               + (if delay > Want(ch, length) / ch.maxCredits
                  then (delay - Want(ch, length) / ch.maxCredits) * UNIT_TIME_INTERVAL else 0)
  {
    hide Units, Rounded, Want;
    Plain(ch.xferLat * Units(length), Want(ch, length) / ch.maxCredits);
  }

  lemma Plain(x: nat, explained: int)
    ensures x < TWO_32 ==> x % TWO_32 == x
  {
  }

  lemma FirstGrant(left: seq<nat>, k: nat, want: nat, from: nat)
    requires k < |left|
    ensures var s := TakeFrom(left, k, want, from); s.grants != [] && s.grants[0].t == from + k
  {
  }

  // ---------- runs ----------

  datatype Call = Call(now: nat, request: nat, length: nat)
  datatype History = History(ring: Ring, log: seq<Grant>)

  /** chmodel_init */
  function Initial(ch: Channel, n: nat): Ring { Ring(Full(n, Cap(ch)), 0, 0) }

  lemma InitialOk(ch: Channel, n: nat)
    requires 0 < n < TWO_32
    ensures RingOk(Initial(ch, n), Cap(ch)) && Tracks(Initial(ch, n), [], Cap(ch))
  {
  }

  /** A list of requests, one after the other. */
  ghost function Run(ch: Channel, n: nat, calls: seq<Call>): (h: History)
    requires 0 < ch.maxCredits && 0 < n < TWO_32
    ensures RingOk(h.ring, Cap(ch)) && |h.ring.left| == n
    ensures h.ring.time == if calls == [] then 0 else calls[|calls| - 1].now
  {
    if calls == [] then InitialOk(ch, n); History(Initial(ch, n), [])
    else
      var h := Run(ch, n, calls[..|calls| - 1]);
      var c := calls[|calls| - 1];
      RequestedOk(ch, h.ring, c.now, c.request, c.length);
      var o := Requested(ch, h.ring, c.now, c.request, c.length);
      History(o.ring, h.log + o.grants)
  }

  /** The clock never goes back. */
  ghost predicate Monotone(calls: seq<Call>) {
    forall i :: 1 <= i < |calls| ==> calls[i - 1].now <= calls[i].now
  }

  /** Whether the clock of call `i` comes so far that its distance wraps around to a slot in use. */
  ghost predicate AliasedAt(ch: Channel, n: nat, calls: seq<Call>, i: nat)
    requires 0 < ch.maxCredits && 0 < n < TWO_32 && i < |calls|
  {
    Aliased(Run(ch, n, calls[..i]).ring, calls[i].now, Cap(ch))
  }

  /** Whether the ring is in step with the ledger after the first `i` calls. */
  ghost predicate TracksAfter(ch: Channel, n: nat, calls: seq<Call>, i: nat)
    requires 0 < ch.maxCredits && 0 < n < TWO_32 && i <= |calls|
  {
    Tracks(Run(ch, n, calls[..i]).ring, Run(ch, n, calls[..i]).log, Cap(ch))
  }

  lemma {:induction false} RunWithin(ch: Channel, n: nat, calls: seq<Call>)
    requires 0 < ch.maxCredits && 0 < n < TWO_32 && Monotone(calls)
    ensures Within(Run(ch, n, calls).ring, Run(ch, n, calls).log, Cap(ch))
  {
    hide Tracks, Within, RingOk, Interval, Cap, Requested, Aliased;
    if calls == [] {
      InitialOk(ch, n);
      TracksIsWithin(Initial(ch, n), [], Cap(ch));
    } else {
      RunWithin(ch, n, calls[..|calls| - 1]);
      var h := Run(ch, n, calls[..|calls| - 1]);
      var c := calls[|calls| - 1];
      RequestTracks(ch, h.ring, c.now, c.request, c.length, h.log);
    }
  }

  /** A run of requests keeps the ring in step with an unbounded ledger, from the first to the last,
      if and only if no distance wraps around to a slot in use. */
  lemma {:induction false} RunTracks(ch: Channel, n: nat, calls: seq<Call>)
    requires 0 < ch.maxCredits && 0 < n < TWO_32 && Monotone(calls)
    ensures (forall i: nat :: i <= |calls| ==> TracksAfter(ch, n, calls, i))
            <==> (forall i: nat :: i < |calls| ==> !AliasedAt(ch, n, calls, i))
  {
    hide TracksAfter, AliasedAt;
    FirstTracks(ch, n, calls);
    forall i: nat | i < |calls| && TracksAfter(ch, n, calls, i)
      ensures TracksAfter(ch, n, calls, i + 1) <==> !AliasedAt(ch, n, calls, i)
    {
      NextTracks(ch, n, calls, i);
    }
    if forall i: nat :: i <= |calls| ==> TracksAfter(ch, n, calls, i) {
      forall i: nat | i < |calls| ensures !AliasedAt(ch, n, calls, i) {
        assert TracksAfter(ch, n, calls, i + 1);
      }
    }
    if forall i: nat :: i < |calls| ==> !AliasedAt(ch, n, calls, i) {
      TracksUpTo(ch, n, calls, |calls|);
    }
  }

  lemma FirstTracks(ch: Channel, n: nat, calls: seq<Call>)
    requires 0 < ch.maxCredits && 0 < n < TWO_32
    ensures TracksAfter(ch, n, calls, 0)
  {
    hide Tracks, Cap;
    assert calls[..0] == [];
    InitialOk(ch, n);
  }

  lemma NextTracks(ch: Channel, n: nat, calls: seq<Call>, i: nat)
    requires 0 < ch.maxCredits && 0 < n < TWO_32 && Monotone(calls) && i < |calls| && TracksAfter(ch, n, calls, i)
    ensures TracksAfter(ch, n, calls, i + 1) <==> !AliasedAt(ch, n, calls, i)
  {
    hide Tracks, Within, RingOk, Interval, Cap, Requested, Aliased;
    assert calls[..i + 1][..i] == calls[..i];
    var h, c := Run(ch, n, calls[..i]), calls[i];
    TracksIsWithin(h.ring, h.log, Cap(ch));
    RequestTracks(ch, h.ring, c.now, c.request, c.length, h.log);
  }

  lemma {:induction false} TracksUpTo(ch: Channel, n: nat, calls: seq<Call>, m: nat)
    requires 0 < ch.maxCredits && 0 < n < TWO_32 && Monotone(calls) && m <= |calls|
    requires forall i: nat :: i < |calls| ==> !AliasedAt(ch, n, calls, i)
    ensures forall i: nat :: i <= m ==> TracksAfter(ch, n, calls, i)
  {
    hide TracksAfter, AliasedAt;
    if m == 0 {
      FirstTracks(ch, n, calls);
    } else {
      TracksUpTo(ch, n, calls, m - 1);
      NextTracks(ch, n, calls, m - 1);
    }
  }

  /** A clock that advances by less than 2^32 intervals between two requests never wraps around. */
  lemma SteadyNeverAliases(ch: Channel, n: nat, calls: seq<Call>, i: nat)
    requires 0 < ch.maxCredits && 0 < n < TWO_32 && i < |calls| && Monotone(calls)
    requires Interval(calls[i].now) - Interval(if i == 0 then 0 else calls[i - 1].now) < TWO_32
    ensures !AliasedAt(ch, n, calls, i)
  {
    hide Interval;
    assert i > 0 ==> calls[..i][i - 1] == calls[i - 1];
  }

  /** No interval ever grants more than its credits, whatever the clock's jumps. */
  lemma RunIsBounded(ch: Channel, n: nat, calls: seq<Call>, t: nat)
    requires 0 < ch.maxCredits && 0 < n < TWO_32 && Monotone(calls)
    ensures Granted(Run(ch, n, calls).log, t) <= Cap(ch) <= ch.maxCredits
  {
    hide Granted, Run;
    RunWithin(ch, n, calls);
  }

  /** With a clock that jumps by 2^32 intervals the ring keeps the emptied slot of an interval long
      past, whatever its size, and refuses a credit that the ledger still has. */
  lemma JumpLosesCredit(ch: Channel, n: nat)
    requires ch == Channel(1, 0, 0) && 0 < n < TWO_32
    ensures var now := TWO_32 * UNIT_TIME_INTERVAL;
            var h := Run(ch, n, [Call(0, 0, 1), Call(now, now, 1)]);
            && Granted(h.log, 0) == 1 && Granted(h.log, TWO_32) == 0 && Cap(ch) == 1
            && h.ring.left[0] == 0 && Interval(h.ring.time) == TWO_32
            && AliasedAt(ch, n, [Call(0, 0, 1), Call(now, now, 1)], 1)
  {
    hide Requested, Interval, Aliased;
    var now := TWO_32 * UNIT_TIME_INTERVAL;
    var c0, c1 := Call(0, 0, 1), Call(now, now, 1);
    assert [c0, c1][..1] == [c0] && [c0][..0] == [];
    JumpDistances();
    FirstOfJump(ch, n);
    var r := Requested(ch, Initial(ch, n), 0, 0, 1).ring;
    assert Run(ch, n, []) == History(Initial(ch, n), []);
    assert Run(ch, n, [c0]) == History(r, [] + [Grant(0, 1)]);
    SecondOfJump(ch, r);
    var grants := Requested(ch, r, now, now, 1).grants;
    assert Run(ch, n, [c0, c1]).log == [Grant(0, 1)] + grants;
    OneGrant(Grant(0, 1), 0);
    OneGrant(Grant(0, 1), TWO_32);
    GrantedConcat([Grant(0, 1)], grants, 0);
    GrantedConcat([Grant(0, 1)], grants, TWO_32);
  }

  /** The request at time 0 empties the first slot. */
  lemma FirstOfJump(ch: Channel, n: nat)
    requires ch == Channel(1, 0, 0) && 0 < n < TWO_32
    ensures var o := Requested(ch, Initial(ch, n), 0, 0, 1);
            && o.ring == Ring(Full(n, 1)[0 := 0], 1, 0) && o.grants == [Grant(0, 1)]
            && RingOk(Initial(ch, n), Cap(ch))
  {
    hide Want, Finish, Interval, Distance;
    WantsOne(ch);
    JumpDistances();
    InitialOk(ch, n);
    var full := Full(n, 1);
    assert full[0..] + Full(0, 1) == full;
  }

  /** The request 2^32 intervals later takes nothing from that slot. */
  lemma SecondOfJump(ch: Channel, r: Ring)
    requires ch == Channel(1, 0, 0) && 0 < |r.left| < TWO_32 && r == Ring(Full(|r.left|, 1)[0 := 0], 1, 0)
    ensures var now := TWO_32 * UNIT_TIME_INTERVAL;
            var o := Requested(ch, r, now, now, 1);
            && |o.ring.left| == |r.left| && o.ring.left[0] == 0 && o.ring.time == now
            && Granted(o.grants, 0) == 0 && Granted(o.grants, TWO_32) == 0 && Aliased(r, now, 1)
  {
    hide Want, Finish, Interval, Distance, Granted, TakeFrom;
    var now := TWO_32 * UNIT_TIME_INTERVAL;
    JumpDistances();
    assert r.left[0..] + Full(0, 1) == r.left;
    GrantsAreTaken(r.left, 0, Want(ch, 1), TWO_32, 0);
    GrantsAreTaken(r.left, 0, Want(ch, 1), TWO_32, TWO_32);
    TakeMeaning(r.left, 0, Want(ch, 1), TWO_32);
    FirstSlot(r.left, Want(ch, 1), TWO_32);
    assert r.left[0] != 1;
  }

  lemma FirstSlot(left: seq<nat>, want: nat, from: nat)
    requires 0 < |left| && left[0] == 0
    ensures TakeFrom(left, 0, want, from).left[0] == 0
  {
    TakeMeaning(left, 0, want, from);
  }

  lemma JumpDistances()
    ensures var now := TWO_32 * UNIT_TIME_INTERVAL;
            Interval(0) == 0 && Interval(now) == TWO_32 && Distance(now, 0) == Distance(now, now) == Distance(0, 0) == 0
  {
  }

  lemma WantsOne(ch: Channel)
    requires ch == Channel(1, 0, 0)
    ensures Want(ch, 1) == 1
  {
  }

  // ---------- an idle channel ----------

  /** When a transfer is done that only its size holds up. */
  function Undisturbed(ch: Channel, request: nat, length: nat): nat {
    (request + ch.xferLat * Units(length) % TWO_32) % TWO_64
  }

  /** On a ring with all slots full every transfer is held up by nothing but its size, exactly when a
      slot's byte can hold max_credits. */
  lemma IdleIsNotHeld(ch: Channel, r: Ring)
    requires 0 < ch.maxCredits && RingOk(r, Cap(ch)) && 2 <= |r.left| && r.left == Full(|r.left|, Cap(ch))
    ensures (forall now: nat, request: nat, length: nat :: Served(r, now, request) ==>
               Requested(ch, r, now, request, length).finish == Undisturbed(ch, request, length))
            <==> ch.maxCredits < 256
  {
    hide Requested, Undisturbed, Served;
    if ch.maxCredits < 256 {
      forall now: nat, request: nat, length: nat | Served(r, now, request)
        ensures Requested(ch, r, now, request, length).finish == Undisturbed(ch, request, length)
      {
        WideFinish(ch, r, now, request, length);
      }
    } else {
      NarrowFinish(ch, r, NarrowLength(ch));
    }
  }

  lemma WideFinish(ch: Channel, r: Ring, now: nat, request: nat, length: nat)
    requires 0 < ch.maxCredits < 256 && r.validLen <= |r.left| && r.left == Full(|r.left|, Cap(ch))
             && Served(r, now, request)
    ensures Requested(ch, r, now, request, length).finish == Undisturbed(ch, request, length)
  {
    hide TakeFrom, Units, Want, Distance, Passed;
    PassedFits(r, now);
    FullMoved(r.left, Passed(r, now), Cap(ch));
    FullTake(|r.left|, Cap(ch), Distance(request, now), Want(ch, length), Interval(now));
  }

  lemma PassedFits(r: Ring, now: nat)
    ensures Passed(r, now) <= r.validLen
  {
  }

  lemma FullMoved(left: seq<nat>, c: nat, cap: nat)
    requires c <= |left| && left == Full(|left|, cap)
    ensures left[c..] + Full(c, cap) == left
  {
  }

  /** A transfer that wants one credit more than a slot shows. */
  function NarrowLength(ch: Channel): nat {
    (Cap(ch) + 1 - ch.commandCredits) % TWO_32 * UNIT_XFER_SIZE
  }

  lemma NarrowWant(ch: Channel)
    ensures Want(ch, NarrowLength(ch)) == Cap(ch) + 1
  {
    var u: nat := (Cap(ch) + 1 - ch.commandCredits) % TWO_32;
    assert Units(u * UNIT_XFER_SIZE) == u;
  }

  lemma NarrowFinish(ch: Channel, r: Ring, length: nat)
    requires 256 <= ch.maxCredits && RingOk(r, Cap(ch)) && 2 <= |r.left| && r.left == Full(|r.left|, Cap(ch))
    requires length == NarrowLength(ch)
    ensures Served(r, 0, 0) && Requested(ch, r, 0, 0, length).finish != Undisturbed(ch, 0, length)
  {
    hide TakeFrom, Units, Want, Passed, NarrowLength, Interval, Finish, Undisturbed;
    NarrowWant(ch);
    PassedFits(r, 0);
    FullMoved(r.left, Passed(r, 0), Cap(ch));
    NarrowTake(|r.left|, Cap(ch), Interval(0));
    assert Distance(0, 0) == 0;
    LaterFinish(ch, length, TakeFrom(r.left, 0, Cap(ch) + 1, Interval(0)).pos);
  }

  /** A transfer that wants one credit more than a slot shows finishes later for every interval it is
      held up. */
  lemma LaterFinish(ch: Channel, length: nat, delay: nat)
    requires 256 <= ch.maxCredits && Want(ch, length) == Cap(ch) + 1 && 0 < delay < TWO_32
    ensures Finish(ch, 0, length, delay) != Undisturbed(ch, 0, length)
  {
    hide Units, Want;
    NothingExplained(ch);
    MoreLater(ch.xferLat * Units(length) % TWO_32, delay);
  }

  lemma NothingExplained(ch: Channel)
    requires 256 <= ch.maxCredits
    ensures (Cap(ch) + 1) / ch.maxCredits == 0
  {
  }

  lemma MoreLater(x: nat, delay: nat)
    requires x < TWO_32 && 0 < delay < TWO_32
    ensures (0 + (x + delay * UNIT_TIME_INTERVAL)) % TWO_64 != (0 + x) % TWO_64
  {
  }

  lemma NarrowTake(n: nat, cap: nat, from: nat)
    requires 2 <= n
    ensures 0 < TakeFrom(Full(n, cap), 0, cap + 1, from).pos < n
  {
  }

  lemma {:induction false} SumFull(l: seq<nat>, cap: nat, a: nat, b: nat)
    requires a <= b <= |l| && forall i :: a <= i < b ==> l[i] == cap
    ensures Sum(l, a, b) == (b - a) * cap
    decreases b - a
  {
    if a < b {
      SumFull(l, cap, a + 1, b);
      assert (b - a) * cap == cap + (b - (a + 1)) * cap;
    }
  }

  lemma FullTake(n: nat, cap: nat, k: nat, want: nat, from: nat)
    requires 0 < cap && k < n
    ensures TakeFrom(Full(n, cap), k, want, from).pos - k <= want / cap
  {
    hide TakeFrom, Sum;
    var t := TakeFrom(Full(n, cap), k, want, from);
    TakeMeaning(Full(n, cap), k, want, from);
    if k < t.pos {
      SumFull(Full(n, cap), cap, k, t.pos);
      DivAtLeast(want, cap, t.pos - k);
    }
  }

  lemma DivAtLeast(a: nat, b: nat, q: nat)
    requires 0 < b && q * b <= a
    ensures q <= a / b
  {
    if a / b + 1 <= q {
      MulMonotone(b, a / b + 1, q);
      assert false;
    }
  }
}
