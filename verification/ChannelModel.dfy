/** The bandwidth model of channel_model.c in place: one array of credits that is used as a ring. */
module ChannelModelInPlace {
  import opened Arithmetic
  import opened CreditRing

  /** The slots in order from `head` on, around the end of the array. */
  function Rotated(a: seq<nat>, head: nat): (w: seq<nat>)
    requires head <= |a|
    ensures |w| == |a|
  {
    a[head..] + a[..head]
  }

  function Slot(n: nat, head: nat, k: nat): nat
    requires 0 < n
  {
    (head + k) % n
  }

  lemma SlotIs(n: nat, head: nat, k: nat)
    requires head < n && k <= n
    ensures Slot(n, head, k) == if head + k < n then head + k else head + k - n
  {
    if head + k < n {
      DivModUnique(0, n, head + k);
    } else {
      DivModUnique(1, n, head + k - n);
    }
  }

  lemma RotatedAt(a: seq<nat>, head: nat, k: nat, v: nat)
    requires head < |a| && k < |a|
    ensures Slot(|a|, head, k) < |a| && Rotated(a, head)[k] == a[Slot(|a|, head, k)]
    ensures Rotated(a[Slot(|a|, head, k) := v], head) == Rotated(a, head)[k := v]
  {
    SlotIs(|a|, head, k);
    var s := Slot(|a|, head, k);
    if head + k < |a| {
      assert a[s := v][head..] == a[head..][k := v] && a[s := v][..head] == a[..head];
    } else {
      assert a[s := v][..head] == a[..head][s := v] && a[s := v][head..] == a[head..];
    }
  }

  /** `len` slots from `at` on set to `v`. */
  function Filled(a: seq<nat>, at: nat, len: nat, v: nat): (b: seq<nat>)
    requires at + len <= |a|
    ensures |b| == |a|
  {
    a[..at] + Full(len, v) + a[at + len..]
  }

  /** Filling the passed slots and then turning the ring drops them in front and appends full ones. */
  lemma PassedInPlace(a: seq<nat>, head: nat, c: nat, v: nat)
    requires head < |a| && c <= |a| && head + c < |a|
    ensures Rotated(Filled(a, head, c, v), head + c) == Rotated(a, head)[c..] + Full(c, v)
  {
  }

  lemma PassedAround(a: seq<nat>, head: nat, c: nat, v: nat)
    requires head < |a| && c <= |a| <= head + c
    ensures Rotated(Filled(Filled(a, head, |a| - head, v), 0, c - (|a| - head), v), head + c - |a|)
            == Rotated(a, head)[c..] + Full(c, v)
  {
    var m := c - (|a| - head);
    var f := Filled(Filled(a, head, |a| - head, v), 0, m, v);
    assert f == Full(m, v) + a[m..head] + Full(|a| - head, v);
  }

  /** BANDWIDTH_TO_MAX_CREDITS, in 64-bit and then 32-bit arithmetic, for megabytes a second. */
  function MaxCredits(bandwidth: nat): nat {
    bandwidth * 0x10_0000 * UNIT_TIME_INTERVAL % TWO_64 / 1_000_000_000 / UNIT_XFER_SIZE % TWO_32
  }

  /** As long as that does not wrap around, a channel has no credits exactly below 31 megabytes a
      second. */
  lemma SlowChannel(bandwidth: nat)
    requires bandwidth * 0x10_0000 * UNIT_TIME_INTERVAL < TWO_64
    ensures MaxCredits(bandwidth) == 0 <==> bandwidth < 31
  {
    var x := bandwidth * 0x10_0000 * UNIT_TIME_INTERVAL;
    assert x == bandwidth * 4_194_304_000;
    assert x / 1_000_000_000 / UNIT_XFER_SIZE == x / 128_000_000_000;
    assert x / 128_000_000_000 < TWO_32;
  }

  /** BANDWIDTH_TO_TX_TIME, in the same arithmetic. */
  function UnitTime(bandwidth: nat): nat
    requires 0 < bandwidth * 0x10_0000 % TWO_64
  {
    UNIT_XFER_SIZE * 1_000_000_000 / (bandwidth * 0x10_0000 % TWO_64) % TWO_32
  }

  /** As long as nothing wraps around, it is the time that 128 bytes take, in whole nanoseconds, and
      max_credits are the units of 128 bytes that pass in one interval. */
  lemma BandwidthMeaning(bandwidth: nat)
    requires 0 < bandwidth && bandwidth * 0x10_0000 * UNIT_TIME_INTERVAL < TWO_64
    ensures 0 < bandwidth * 0x10_0000 % TWO_64
    ensures var bytes := bandwidth * 0x10_0000;
            && UnitTime(bandwidth) * bytes <= 128 * 1_000_000_000 < (UnitTime(bandwidth) + 1) * bytes
            && MaxCredits(bandwidth) * (128 * 1_000_000_000) <= bytes * 4000
            && bytes * 4000 < (MaxCredits(bandwidth) + 1) * (128 * 1_000_000_000)
  {
    hide UnitTime, MaxCredits;
    UnitTimeIs(bandwidth, bandwidth * 0x10_0000);
    MaxCreditsAre(bandwidth * 0x10_0000 * 4000);
    assert MaxCredits(bandwidth) == CreditsOf(bandwidth * 0x10_0000 * 4000) by { CreditsAre(bandwidth); }
  }

  function CreditsOf(x: nat): nat { x % TWO_64 / 1_000_000_000 / UNIT_XFER_SIZE % TWO_32 }

  lemma CreditsAre(bandwidth: nat)
    ensures MaxCredits(bandwidth) == CreditsOf(bandwidth * 0x10_0000 * 4000)
  {
  }

  lemma MaxCreditsAre(x: nat)
    requires x < TWO_64
    ensures CreditsOf(x) * (128 * 1_000_000_000) <= x < (CreditsOf(x) + 1) * (128 * 1_000_000_000)
  {
    assert x / 1_000_000_000 / UNIT_XFER_SIZE == x / 128_000_000_000 < TWO_32;
  }

  lemma UnitTimeIs(bandwidth: nat, bytes: nat)
    requires 0 < bandwidth && bytes == bandwidth * 0x10_0000 < TWO_64
    ensures 0 < bandwidth * 0x10_0000 % TWO_64
    ensures UnitTime(bandwidth) * bytes <= 128 * 1_000_000_000 < (UnitTime(bandwidth) + 1) * bytes
  {
    hide UnitTime;
    QuotientBounds(128_000_000_000, bytes);
    UnitQuotient(bytes);
    UnitTimeUnfolds(bandwidth, bytes);
  }

  lemma UnitTimeUnfolds(bandwidth: nat, bytes: nat)
    requires bytes == bandwidth * 0x10_0000 && 0 < bytes % TWO_64
    ensures UnitTime(bandwidth) == UNIT_XFER_SIZE * 1_000_000_000 / (bytes % TWO_64) % TWO_32
  {
  }

  lemma UnitQuotient(bytes: nat)
    requires 0x10_0000 <= bytes < TWO_64
    ensures 0 < bytes % TWO_64 && UNIT_XFER_SIZE * 1_000_000_000 / (bytes % TWO_64) % TWO_32 == 128_000_000_000 / bytes
  {
    QuotientShrinks(128_000_000_000, 0x10_0000, bytes);
    NothingWraps(128_000_000_000, bytes, TWO_64, TWO_32);
  }

  lemma NothingWraps(a: nat, b: nat, m: nat, n: nat)
    requires 0 < b < m && a / b < n
    ensures b % m == b && a / (b % m) % n == a / b
  {
    DivModUnique(0, m, b);
    DivModUnique(0, n, a / b);
  }

  lemma QuotientBounds(a: nat, b: nat)
    requires 0 < b
    ensures a / b * b <= a < (a / b + 1) * b
  {
    assert a == b * (a / b) + a % b;
  }

  lemma QuotientShrinks(a: nat, b: nat, c: nat)
    requires 0 < b <= c
    ensures a / c <= a / b
  {
    QuotientBounds(a, b);
    QuotientBounds(a, c);
    if a / b + 1 <= a / c {
      MulMonotone(c, a / b + 1, a / c);
      MulMonotone(a / b + 1, b, c);
    }
  }

  class ChannelModel {
    const maxCredits: nat
    const commandCredits: nat
    const xferLat: nat
    const availCredits: array<nat>
    var head: nat
    var validLen: nat
    var curTime: nat

    function Channel(): Channel { CreditRing.Channel(maxCredits, commandCredits, xferLat) }

    ghost function State(): Ring
      requires head <= availCredits.Length
      reads this, availCredits
    {
      Ring(Rotated(availCredits[..], head), validLen, curTime)
    }

    ghost predicate Valid()
      reads this, availCredits
    {
      && head < availCredits.Length
      && RingOk(State(), Cap(Channel()))
    }

    /** chmodel_init, for a bandwidth in megabytes a second and `n` slots. */
    constructor (bandwidth: nat, n: nat)
      requires 0 < n < TWO_32 && 0 < bandwidth * 0x10_0000 % TWO_64
      ensures Valid() && State() == Initial(Channel(), n)
      ensures forall k :: 0 <= k < n ==> availCredits[k] == maxCredits % 256
      ensures availCredits.Length == n && head == validLen == curTime == 0
      ensures maxCredits == MaxCredits(bandwidth) && xferLat == UnitTime(bandwidth) && commandCredits == 0
    {
      maxCredits := MaxCredits(bandwidth);
      commandCredits := 0;
      xferLat := UnitTime(bandwidth);
      head, validLen, curTime := 0, 0, 0;
      availCredits := new nat[n];
      new;
      SetCredits(0, n);
      InitialOk(Channel(), n);
      assert availCredits[..] == Full(n, Cap(Channel()));
    }

    /** memset of `len` slots from `at` on, one byte each. */
    method SetCredits(at: nat, len: nat)
      requires at + len <= availCredits.Length
      modifies availCredits
      ensures availCredits[..] == Filled(old(availCredits[..]), at, len, maxCredits % 256)
    {
      for i := 0 to len
        invariant forall j :: 0 <= j < availCredits.Length ==>
          availCredits[j] == if at <= j < at + i then maxCredits % 256 else old(availCredits[j])
      {
        availCredits[at + i] := maxCredits % 256;
      }
      assert availCredits[..] == Filled(old(availCredits[..]), at, len, maxCredits % 256);
    }

    /** The slots that `offs` intervals pass are full again, and the head moves on. */
    method PassSlots(offs: nat)
      requires head < availCredits.Length && offs <= availCredits.Length
      modifies `head, availCredits
      ensures head < availCredits.Length
      ensures Rotated(availCredits[..], head)
              == Rotated(old(availCredits[..]), old(head))[offs..] + Full(offs, Cap(Channel()))
    {
      hide Rotated, Filled, Full;
      SlotIs(availCredits.Length, head, offs);
      if head + offs >= availCredits.Length {
        PassedAround(availCredits[..], head, offs, Cap(Channel()));
        SetCredits(head, availCredits.Length - head);
        SetCredits(0, offs - (availCredits.Length - head));
      } else {
        PassedInPlace(availCredits[..], head, offs, Cap(Channel()));
        SetCredits(head, offs);
      }
      head := Slot(availCredits.Length, head, offs);
    }

    /** The head moves to the interval of `now`, and the slots it passes are full again. */
    method MoveHead(now: nat)
      requires Valid()
      modifies this, availCredits
      ensures Valid() && old(State()).validLen <= |old(State()).left|
      ensures State() == Moved(old(State()), now, Cap(Channel()))
    {
      hide RingOk, Distance, Interval, Rotated, Full;
      RingFits(State(), Cap(Channel()));
      MovedOk(State(), now, Cap(Channel()));
      var offs := Distance(now, curTime);
      offs := if offs < validLen then offs else validLen;
      PassSlots(offs);
      curTime := now;
      validLen := validLen - offs;
    }

    /** The loop of chmodel_request: slot after slot from offset `offs` on, until nothing is wanted
        any more or the next slot is the head. */
    method TakeCredits(offs: nat, want: nat) returns (pos: nat, delay: nat, ghost grants: seq<Grant>)
      requires Valid() && offs < availCredits.Length
      modifies availCredits
      ensures var t := TakeFrom(old(State()).left, offs, want, Interval(curTime));
              && State().left == t.left && grants == t.grants
              && pos == Slot(availCredits.Length, head, t.pos) && delay == t.pos - offs
    {
      hide RingOk, Rotated, Slot, Interval;
      ghost var from := Interval(curTime);
      ghost var before := Rotated(availCredits[..], head);
      var remaining := want;
      ghost var k := offs;
      delay := 0;
      pos := Slot(availCredits.Length, head, offs);
      grants := [];
      while true
        invariant offs <= k < availCredits.Length && delay == k - offs
        invariant pos == Slot(availCredits.Length, head, k)
        invariant Continues(before, Rotated(availCredits[..], head), offs, k, want, remaining, from, grants)
        decreases availCredits.Length - k
      {
        SlotFits(availCredits.Length, head, k);
        var consumed := if remaining <= availCredits[pos] then remaining else availCredits[pos];
        RotatedAt(availCredits[..], head, k, availCredits[pos] - consumed);
        TakeStep(before, Rotated(availCredits[..], head), offs, k, want, remaining, from, grants);
        ghost var was := availCredits[..];
        availCredits[pos] := availCredits[pos] - consumed;
        assert availCredits[..] == was[pos := was[pos] - consumed];
        remaining := remaining - consumed;
        grants := grants + [Grant(from + k, consumed)];
        NextSlot(availCredits.Length, head, k);
        if remaining != 0 {
          var next := Slot(availCredits.Length, pos, 1);
          if next != head {
            delay := delay + 1;
            pos := next;
            k := k + 1;
          } else {
            break;
          }
        } else {
          break;
        }
      }
    }

    /** chmodel_request when the clock reads `now`.  Without credits it divides by zero, exactly when
        it gets as far as taking some. */
    method Request(now: nat, request: nat, length: nat) returns (ok: bool, finish: nat, ghost grants: seq<Grant>)
      requires Valid()
      modifies this, availCredits
      ensures Valid() && old(State()).validLen <= |old(State()).left|
      ensures ok <==> 0 < maxCredits || !Served(old(State()), now, request)
      ensures 0 < maxCredits ==>
                Outcome(State(), grants, finish) == Requested(Channel(), old(State()), now, request, length)
      ensures maxCredits == 0 ==> State() == Moved(old(State()), now, Cap(Channel())) && grants == []
      ensures maxCredits == 0 && ok ==> finish == request
    {
      hide RingOk, Distance, Interval, TakeFrom, Moved, Units, Rotated, Slot, Held, Finish, Want;
      ghost var r := State();
      if 0 < maxCredits {
        RequestedOk(Channel(), r, now, request, length);
      }
      MovedOk(r, now, Cap(Channel()));
      RingFits(r, Cap(Channel()));
      MovedTime(r, now, Cap(Channel()));
      MoveHead(now);
      grants := [];
      if request < now {
        return true, request, [];
      }
      var offs := Distance(request, now);
      if offs >= availCredits.Length {
        return true, request, [];
      }
      if maxCredits == 0 {
        return false, 0, [];
      }
      var want := Want(Channel(), length);
      var pos, delay;
      ghost var m := State();
      pos, delay, grants := TakeCredits(offs, want);
      ghost var k := TakeFrom(m.left, offs, want, Interval(now)).pos;
      SlotBack(availCredits.Length, head, k);
      var validLength := if pos >= head then pos - head + 1 else availCredits.Length - (head - pos - 1);
      if validLength > validLen {
        validLen := validLength;
      }
      ok, finish := true, Finish(Channel(), request, length, delay);
    }
  }

  /** The loop has the slots `now` at `k`, with `remaining` still wanted and `grants` made. */
  ghost predicate Continues(before: seq<nat>, now: seq<nat>, offs: nat, k: nat, want: nat, remaining: nat, from: nat,
                            grants: seq<Grant>) {
    offs < |before| && k < |now| &&
    var s, t := TakeFrom(before, offs, want, from), TakeFrom(now, k, remaining, from);
    s == t.(grants := grants + t.grants)
  }

  lemma TakeStep(before: seq<nat>, now: seq<nat>, offs: nat, k: nat, want: nat, remaining: nat, from: nat,
                 grants: seq<Grant>)
    requires Continues(before, now, offs, k, want, remaining, from, grants)
    ensures var used := Min(remaining, now[k]);
            var l := now[k := now[k] - used];
            if remaining > used && k + 1 < |now|
            then Continues(before, l, offs, k + 1, want, remaining - used, from, grants + [Grant(from + k, used)])
            else TakeFrom(before, offs, want, from) == Take(l, k, remaining - used, grants + [Grant(from + k, used)])
  {
    var used := Min(remaining, now[k]);
    var l := now[k := now[k] - used];
    if remaining > used && k + 1 < |now| {
      var t := TakeFrom(l, k + 1, remaining - used, from);
      assert grants + ([Grant(from + k, used)] + t.grants) == grants + [Grant(from + k, used)] + t.grants;
    }
  }

  lemma SlotFits(n: nat, head: nat, k: nat)
    requires head < n && k < n
    ensures Slot(n, head, k) < n
  {
    SlotIs(n, head, k);
  }

  /** chmodel_request's way back from an array index to a distance from the head. */
  lemma SlotBack(n: nat, head: nat, k: nat)
    requires head < n && k < n
    ensures var pos := Slot(n, head, k);
            pos < n && k + 1 == if pos >= head then pos - head + 1 else n - (head - pos - 1)
  {
    SlotIs(n, head, k);
  }

  lemma NextSlot(n: nat, head: nat, k: nat)
    requires head < n && k < n
    ensures Slot(n, Slot(n, head, k), 1) == Slot(n, head, k + 1)
    ensures Slot(n, head, k + 1) == head <==> k + 1 == n
  {
    SlotIs(n, head, k);
    SlotIs(n, head, k + 1);
    SlotIs(n, Slot(n, head, k), 1);
  }
}
