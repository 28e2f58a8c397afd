/** Keeping time from a counter that wraps. */
module ClockTime {
  import opened Arithmetic
  import opened ClockScale

  /** A clock source with its counter of `bits` bits, and the time kept from it. */
  datatype Clock = Clock(mult: nat, shift: nat, bits: nat, cycleLast: nat, time: nat)

  function CyclesSince(c: Clock, raw: nat): nat {
    (raw % Pow2(c.bits) - c.cycleLast) % Pow2(c.bits)
  }

  /** cyc2ns, in 64 bits */
  function Cyc2ns(c: Clock, cycles: nat): nat {
    Shifted(cycles * c.mult % W64, c.shift)
  }

  function Shifted(x: nat, s: nat): nat {
    Quotient(x, Pow2(s))
  }

  /** One call of get_time_ns that reads `raw` from the counter. */
  function Ticked(c: Clock, raw: nat): Clock {
    c.(cycleLast := raw % Pow2(c.bits), time := (c.time + Cyc2ns(c, CyclesSince(c, raw))) % W64)
  }

  class TimeKeeper {
    var clock: Clock

    constructor (c: Clock)
      ensures clock == c
    {
      clock := c;
    }

    /** get_time_ns */
    method GetTimeNs(raw: nat) returns (now: nat)
      requires raw < W64 && clock.bits <= 64 && clock.cycleLast < Pow2(clock.bits)
      modifies this
      ensures clock == Ticked(old(clock), raw) && now == clock.time
    {
      var mask := Pow2(clock.bits);
      var cycleNow := raw % mask;
      var cycleDelta := (cycleNow - clock.cycleLast) % W64 % mask;
      MaskedDifference(cycleNow - clock.cycleLast, clock.bits);
      var nsOffset := Cyc2ns(clock, cycleDelta);
      clock := clock.(cycleLast := cycleNow);
      clock := clock.(time := (clock.time + nsOffset) % W64);
      return clock.time;
    }

    /** is_timeout_non_interruptible */
    method IsTimeout(start: nat, offset: nat, raw: nat) returns (timeout: bool)
      requires start < W64 && offset < W64
      requires raw < W64 && clock.bits <= 64 && clock.cycleLast < Pow2(clock.bits)
      modifies this
      ensures clock == Ticked(old(clock), raw) && timeout == Expired(start, offset, clock.time)
    {
      var now := GetTimeNs(raw);
      var diff := (start + offset - now) % W64;
      return diff >= W64 / 2;
    }
  }

  /** Reducing by 2^64 first makes no difference to a mask of at most 64 bits. */
  lemma MaskedDifference(d: int, bits: nat)
    requires bits <= 64
    ensures d % W64 % Pow2(bits) == d % Pow2(bits)
  {
    Pow2Values();
    Pow2Sum(64 - bits, bits);
    ModOfMod(d, Pow2(64 - bits), Pow2(bits));
  }

  // ------------------------------------------------------------------
  // Timeouts

  /** The sign of the 64-bit difference. */
  predicate Expired(start: nat, offset: nat, now: nat) {
    (start + offset - now) % W64 >= W64 / 2
  }

  /** However often the 64-bit time has wrapped, the test is right as long as the end of
      the timeout is less than half the range away. */
  lemma {:induction false} TimeoutExact(start: nat, offset: nat, now: nat)
    requires -(W64 / 2) <= start + offset - now < W64 / 2
    ensures Expired(start % W64, offset % W64, now % W64) <==> now > start + offset
  {
    var d := start + offset - now;
    var e := start % W64 + offset % W64 - now % W64;
    var k := start / W64 + offset / W64 - now / W64;
    assert e == d - W64 * k;
    if d < 0 {
      DivMod(e, W64, -k - 1, d + W64);
    } else {
      DivMod(e, W64, -k, d);
    }
  }

  // ------------------------------------------------------------------
  // Many calls

  function Run(c: Clock, raws: seq<nat>): Clock {
    if raws == [] then c else Ticked(Run(c, raws[..|raws| - 1]), raws[|raws| - 1])
  }

  /** The counter has counted to `from` and then to `to`, and `c` has seen `from`.  If it
      has not gone round in between, what it shows now tells how far it went. */
  lemma TrueCycles(c: Clock, from: nat, to: nat, raw: nat)
    requires c.cycleLast == from % Pow2(c.bits) && raw % Pow2(c.bits) == to % Pow2(c.bits)
    requires from <= to < from + Pow2(c.bits)
    ensures CyclesSince(c, raw) == to - from
  {
    hide Pow2;
    WrappedDifference(from, to, Pow2(c.bits));
  }

  lemma WrappedDifference(from: nat, to: nat, m: nat)
    requires 0 < m && from <= to < from + m
    ensures (to % m - from % m) % m == to - from
  {
    var e, k := to % m - from % m, to / m - from / m;
    assert to == m * (to / m) + to % m && from == m * (from / m) + from % m;
    assert m * k == m * (to / m) - m * (from / m);
    assert e == m * (-k) + (to - from);
    DivMod(e, m, -k, to - from);
  }

  /** The counts at the calls, and that they are read in time. */
  ghost predicate ReadInTime(c: Clock, start: nat, counts: seq<nat>, raws: seq<nat>) {
    && |counts| == |raws| && Sees(c, start)
    && forall i | 0 <= i < |raws| :: ReadAt(c, CountAt(start, counts, i), counts[i], raws[i])
  }

  ghost predicate ReadAt(c: Clock, from: nat, to: nat, raw: nat) {
    raw % Pow2(c.bits) == to % Pow2(c.bits) && from <= to < from + Pow2(c.bits) && (to - from) * c.mult < W64
  }

  /** The count before the i-th call. */
  ghost function CountAt(start: nat, counts: seq<nat>, i: nat): nat
    requires i <= |counts|
  {
    if i == 0 then start else counts[i - 1]
  }

  /** The time kept is what the cycles make, but for less than a nanosecond for each
      call. */
  ghost predicate Tracks(c: Clock, t: nat, cycles: nat, calls: nat) {
    && Pow2(c.shift) * t <= cycles * c.mult
    && cycles * c.mult <= Pow2(c.shift) * t + calls * (Pow2(c.shift) - 1)
  }

  /** What the clock last saw of its counter. */
  ghost predicate Sees(c: Clock, count: nat) {
    c.cycleLast == count % Pow2(c.bits)
  }

  ghost predicate SameSource(q: Clock, c: Clock) {
    q.mult == c.mult && q.shift == c.shift && q.bits == c.bits
  }

  lemma CallStep(c: Clock, q: Clock, start: nat, from: nat, to: nat, raw: nat, calls: nat)
    requires SameSource(q, c) && Sees(q, from) && ReadAt(c, from, to, raw) && start <= from && RoomFor(c, to - start)
    requires c.time <= q.time && Tracks(c, q.time - c.time, from - start, calls)
    ensures var r := Ticked(q, raw);
            SameSource(r, c) && Sees(r, to) && c.time <= r.time && Tracks(c, r.time - c.time, to - start, calls + 1)
  {
    hide Pow2, Cyc2ns, CyclesSince, Tracks, RoomFor, Ticked;
    TrueCycles(q, from, to, raw);
    TrackMore(c, q, from - start, to - from, calls);
    TickedBy(q, raw, to - from);
  }

  /** Over any number of calls the elapsed cycles are all accounted for, however often the
      counter wraps. */
  lemma {:induction false} KeepsTime(c: Clock, start: nat, counts: seq<nat>, raws: seq<nat>)
    requires ReadInTime(c, start, counts, raws) && start <= CountAt(start, counts, |counts|)
    requires RoomFor(c, CountAt(start, counts, |counts|) - start)
    ensures var r, last := Run(c, raws), CountAt(start, counts, |counts|);
            SameSource(r, c) && Sees(r, last) && c.time <= r.time && Tracks(c, r.time - c.time, last - start, |raws|)
    decreases raws
  {
    hide Pow2, Sees, ReadAt, Tracks, RoomFor, Ticked;
    if raws != [] {
      var n := |raws| - 1;
      var prev, last := CountAt(start, counts, n), counts[n];
      CountsRise(c, start, counts, raws, n);
      assert ReadAt(c, prev, last, raws[n]);
      Forward(c, prev, last, raws[n]);
      EarlierFits(c, prev - start, last - start);
      ReadEarlier(c, start, counts, raws);
      KeepsTime(c, start, counts[..n], raws[..n]);
      CallStep(c, Run(c, raws[..n]), start, prev, last, raws[n], n);
    } else {
      NothingElapsed(c);
    }
  }

  lemma Forward(c: Clock, from: nat, to: nat, raw: nat)
    requires ReadAt(c, from, to, raw)
    ensures from <= to
  {
  }

  /** The time does not come to 2^64. */
  ghost predicate RoomFor(c: Clock, cycles: nat) {
    c.time * Pow2(c.shift) + cycles * c.mult < W64 * Pow2(c.shift)
  }

  lemma TickedBy(q: Clock, raw: nat, delta: nat)
    requires CyclesSince(q, raw) == delta && q.time + Cyc2ns(q, delta) < W64
    ensures Ticked(q, raw) == q.(cycleLast := raw % Pow2(q.bits), time := q.time + Cyc2ns(q, delta))
  {
    hide Pow2, Cyc2ns, CyclesSince;
  }

  lemma NothingElapsed(c: Clock)
    ensures Tracks(c, 0, 0, 0)
  {
  }

  lemma {:induction false} CountsRise(c: Clock, start: nat, counts: seq<nat>, raws: seq<nat>, i: nat)
    requires ReadInTime(c, start, counts, raws) && i <= |raws|
    ensures start <= CountAt(start, counts, i)
    decreases i
  {
    if i > 0 {
      CountsRise(c, start, counts, raws, i - 1);
      assert ReadAt(c, CountAt(start, counts, i - 1), counts[i - 1], raws[i - 1]);
    }
  }

  lemma ReadEarlier(c: Clock, start: nat, counts: seq<nat>, raws: seq<nat>)
    requires ReadInTime(c, start, counts, raws) && raws != []
    ensures ReadInTime(c, start, counts[..|raws| - 1], raws[..|raws| - 1])
  {
    var n := |raws| - 1;
    forall i | 0 <= i < n ensures CountAt(start, counts[..n], i) == CountAt(start, counts, i) && raws[..n][i] == raws[i] {
    }
  }

  lemma EarlierFits(c: Clock, a: nat, b: nat)
    requires a <= b && RoomFor(c, b)
    ensures RoomFor(c, a)
  {
    TimesMore(a, b, c.mult);
  }

  /** One more call. */
  lemma TrackMore(c: Clock, q: Clock, cycles: nat, delta: nat, calls: nat)
    requires q.mult == c.mult && q.shift == c.shift && c.time <= q.time && Tracks(c, q.time - c.time, cycles, calls)
    requires delta * c.mult < W64 && RoomFor(c, cycles + delta)
    ensures q.time + Cyc2ns(q, delta) < W64 && Tracks(c, q.time + Cyc2ns(q, delta) - c.time, cycles + delta, calls + 1)
  {
    hide Pow2, Quotient;
    var p, t, y := Pow2(c.shift), q.time - c.time, Cyc2ns(q, delta);
    assert p * y <= delta * c.mult <= p * y + p - 1;
    assert (cycles + delta) * c.mult == cycles * c.mult + delta * c.mult;
    assert p * (t + y) == p * t + p * y;
    assert (calls + 1) * (p - 1) == calls * (p - 1) + (p - 1);
    var total := q.time + y;
    assert p * total == c.time * p + p * (t + y);
    if total >= W64 {
      TimesMore(W64, total, p);
    }
  }
}
