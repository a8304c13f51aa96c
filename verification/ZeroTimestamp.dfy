/** The zero-timestamp clock of the audio plug-in (platform/shared/uf_zero_timestamp.hpp).

    The clock hands CoreAudio (sampleTime, hostTime) pairs. It follows anchors the daemon publishes while they are
    believable and free-runs at the nominal rate otherwise. The device is an input to be validated, so the first
    results hold for any inputs whatever, in any order, including a host clock that runs backwards. */
module ZeroTimestamp {

  /** A double as it arrives: a finite value, or an infinity or NaN. */
  datatype Double = NotFinite | Finite(value: real)

  datatype Input = Input(now: nat, devValid: bool, devSample: Double, devHost: nat)

  datatype Stamp = Stamp(sampleTime: int, hostTime: nat, seed: nat)

  datatype Clock = Clock(
    period: nat, ticksPerPeriod: nat, staleMargin: nat,
    sample: int, host: nat, seed: nat, offset: int, devSampleSeen: int, locked: bool, started: bool)

  function AtLeastOne(t: real): (n: nat)
    ensures n >= 1
  {
    if t >= 1.0 then t.Floor else 1
  }

  function Fresh(period: nat, ticksPerFrame: real, ticksPerSecond: real): Clock {
    var p := if period != 0 then period else 1;
    Clock(p, AtLeastOne(ticksPerFrame * p as real), AtLeastOne(ticksPerSecond * 43000000.0 / 1000000000.0),
          0, 0, 1, 0, 0, false, false)
  }

  function WithRate(c: Clock, ticksPerFrame: real): Clock {
    c.(ticksPerPeriod := AtLeastOne(ticksPerFrame * c.period as real))
  }

  function StaleTicks(c: Clock): nat { c.staleMargin + c.ticksPerPeriod }

  predicate Plausible(c: Clock, i: Input) {
    && i.devHost != 0 && i.devSample.Finite? && i.devSample.value >= 0.0
    && if i.devHost > i.now then i.devHost - i.now <= c.ticksPerPeriod else i.now - i.devHost <= StaleTicks(c)
  }

  /** The period boundary at or below a device frame count. */
  function Quantised(x: real, period: nat): int
    requires period > 0
  {
    (x / period as real).Floor * period
  }

  predicate WellFormed(c: Clock) { c.period > 0 && c.ticksPerPeriod > 0 }

  predicate Believed(c: Clock, i: Input) { i.devValid && Plausible(c, i) }

  /** The first half of a call: start the clock, then take in the device anchor. */
  function TakeIn(c: Clock, i: Input): (d: Clock)
    requires WellFormed(c)
    ensures WellFormed(d)
  {
    var b := if c.started then c else c.(started := true, host := i.now);
    if !Believed(b, i) then b
    else
      var s := Quantised(i.devSample.value, b.period);
      var g := if !b.locked || s < b.devSampleSeen
               then b.(offset := b.sample + b.period - s, locked := true, seed := b.seed + 1)
               else b;
      var e := g.(devSampleSeen := s);
      if s + e.offset > e.sample && i.devHost >= e.host then e.(sample := s + e.offset, host := i.devHost) else e
  }

  /** The second half: drop a lock that has gone stale, and free-run while unlocked. */
  function Age(c: Clock, now: nat): (d: Clock)
    requires WellFormed(c)
    ensures WellFormed(d)
  {
    if now <= c.host then c
    else
      var lag := now - c.host;
      var u := if c.locked && lag > StaleTicks(c) then c.(locked := false, seed := c.seed + 1) else c;
      if u.locked then u
      else
        var periods := lag / u.ticksPerPeriod;
        u.(sample := u.sample + periods * u.period, host := u.host + periods * u.ticksPerPeriod)
  }

  function Next(c: Clock, i: Input): (d: Clock)
    requires WellFormed(c)
    ensures WellFormed(d)
  {
    Age(TakeIn(c, i), i.now)
  }

  function StampOf(c: Clock): Stamp { Stamp(c.sample, c.host, c.seed) }

  datatype Event = Call(i: Input) | SetTicksPerFrame(ticksPerFrame: real)

  function React(c: Clock, e: Event): (d: Clock)
    requires WellFormed(c)
    ensures WellFormed(d)
  {
    match e
    case Call(i) => Next(c, i)
    case SetTicksPerFrame(t) => WithRate(c, t)
  }

  function Run(c: Clock, events: seq<Event>): (d: Clock)
    requires WellFormed(c)
    ensures WellFormed(d)
    decreases |events|
  {
    if events == [] then c else Run(React(c, events[0]), events[1..])
  }

  // ---- invariants 1 to 3, for any sequence of inputs whatsoever --------------------------------------------

  ghost predicate Inv(c: Clock) {
    && WellFormed(c)
    && c.sample >= 0
    && c.sample % c.period == 0 && c.offset % c.period == 0
  }

  lemma MultiplesAdd(a: int, b: int, p: int)
    requires p > 0 && a % p == 0 && b % p == 0
    ensures (a + b) % p == 0 && (a - b) % p == 0
  {
    var x, y := a / p, b / p;
    assert a == x * p && b == y * p;
    assert a + b == (x + y) * p && a - b == (x - y) * p;
    ModOfMultiple(x + y, p);
    ModOfMultiple(x - y, p);
  }

  lemma ModOfMultiple(k: int, p: int)
    requires p > 0
    ensures (k * p) % p == 0
  {
    var q, r := k * p / p, k * p % p;
    assert k * p == q * p + r;
    assert (k - q) * p == r;
    assert k - q >= 1 ==> (k - q) * p >= p;
    assert k - q <= -1 ==> (k - q) * p <= -p;
  }

  lemma TakeInKeepsInv(c: Clock, i: Input)
    requires Inv(c)
    ensures Inv(TakeIn(c, i))
    ensures TakeIn(c, i).sample >= c.sample
    ensures c.started ==> TakeIn(c, i).host >= c.host
  {
    if i.devSample.Finite? {
      var p := c.period;
      var s := Quantised(i.devSample.value, p);
      ModOfMultiple((i.devSample.value / p as real).Floor, p);
      ModOfMultiple(1, p);
      MultiplesAdd(c.sample, p, p);
      MultiplesAdd(c.sample + p, s, p);
      MultiplesAdd(s, c.offset, p);
      MultiplesAdd(s, c.sample + p - s, p);
    }
  }

  lemma FreeRunLag(lag: nat, tpp: nat)
    requires tpp > 0
    ensures 0 <= lag - lag / tpp * tpp < tpp
  {}

  /** Whole periods, forward. */
  lemma PeriodsForward(sample: int, periods: nat, period: nat, tpp: nat)
    requires period > 0 && tpp > 0 && sample % period == 0
    ensures periods * period >= 0 && periods * tpp >= 0
    ensures (sample + periods * period) % period == 0
  {
    ModOfMultiple(periods, period);
    MultiplesAdd(sample, periods * period, period);
  }

  lemma AgeKeepsInv(c: Clock, now: nat)
    requires Inv(c)
    ensures Inv(Age(c, now))
    ensures Age(c, now).sample >= c.sample && Age(c, now).host >= c.host
    ensures now - Age(c, now).host <= StaleTicks(c)
    ensures Age(c, now).host <= c.host || Age(c, now).host <= now
  {
    if now <= c.host {
      assert Age(c, now) == c;
    } else {
      hide Age;
      var lag := now - c.host;
      var periods := lag / c.ticksPerPeriod;
      FreeRunLag(lag, c.ticksPerPeriod);
      PeriodsForward(c.sample, periods, c.period, c.ticksPerPeriod);
      AgedBy(c, now, lag, periods * c.period, periods * c.ticksPerPeriod);
    }
  }

  lemma AgedBy(c: Clock, now: nat, lag: nat, frames: nat, ticks: nat)
    requires Inv(c) && now == c.host + lag && lag > 0
    requires frames == lag / c.ticksPerPeriod * c.period && ticks == lag / c.ticksPerPeriod * c.ticksPerPeriod
    requires (c.sample + frames) % c.period == 0 && 0 <= lag - ticks < c.ticksPerPeriod
    ensures var d := Age(c, now);
            && Inv(d) && d.sample >= c.sample && d.host >= c.host
            && now - d.host <= StaleTicks(c) && d.host <= now
  {
    var u := if c.locked && lag > StaleTicks(c) then c.(locked := false, seed := c.seed + 1) else c;
    assert Age(c, now) == if u.locked then u else u.(sample := u.sample + frames, host := u.host + ticks);
    hide Age;
  }

  /** One call, from any state the clock can be in, with any input. */
  lemma CallKeepsPromises(c: Clock, i: Input)
    requires Inv(c)
    ensures var d := Next(c, i);
            && Inv(d) && d.started
            && d.sample >= c.sample
            && (c.started ==> d.host >= c.host)
            && i.now - d.host <= StaleTicks(d)
  {
    TakeInKeepsInv(c, i);
    AgeKeepsInv(TakeIn(c, i), i.now);
  }

  /** For every sequence of inputs and rate changes: sampleTime is a non-negative multiple of the period, neither
      time ever decreases, and every call returns a host time no more than the staleness window behind now. */
  lemma {:induction false} RunKeepsPromises(c: Clock, events: seq<Event>)
    requires Inv(c)
    ensures var d := Run(c, events);
            && Inv(d)
            && d.sample >= c.sample
            && (c.started ==> d.started && d.host >= c.host)
    ensures events != [] && events[|events| - 1].Call? ==>
              var d := Run(c, events);
              events[|events| - 1].i.now - d.host <= StaleTicks(d)
    decreases |events|
  {
    if events != [] {
      var d := React(c, events[0]);
      if events[0].Call? { CallKeepsPromises(c, events[0].i); }
      RunKeepsPromises(d, events[1..]);
    }
  }

  /** A clock fresh from its constructor is in such a state, whatever its parameters. */
  lemma FreshClockIsSound(period: nat, ticksPerFrame: real, ticksPerSecond: real)
    ensures Inv(Fresh(period, ticksPerFrame, ticksPerSecond))
  {
    var c := Fresh(period, ticksPerFrame, ticksPerSecond);
    ModOfMultiple(0, c.period);
    assert 0 * c.period == 0;
  }

  /** The host times asked with never run backwards from `from` on, and no rate makes a period longer than `most`. */
  ghost predicate Forward(c: Clock, events: seq<Event>, from: nat, most: nat)
    requires WellFormed(c)
    decreases |events|
  {
    && c.ticksPerPeriod <= most
    && (events != [] ==>
         && (events[0].Call? ==> events[0].i.now >= from)
         && Forward(React(c, events[0]), events[1..], if events[0].Call? then events[0].i.now else from, most))
  }

  function LastNow(events: seq<Event>, from: nat): nat
    decreases |events|
  {
    if events == [] then from else LastNow(events[1..], if events[0].Call? then events[0].i.now else from)
  }

  /** With a host clock that does not run backwards, the anchor handed out is at most one period (the longest in force
      so far) in the future. */
  lemma {:induction false} NeverAPeriodAhead(c: Clock, events: seq<Event>, from: nat, most: nat)
    requires Inv(c) && Forward(c, events, from, most)
    requires c.started ==> c.host <= from + most
    ensures var d := Run(c, events);
            d.started ==> d.host <= LastNow(events, from) + most
    decreases |events|
  {
    if events != [] {
      if events[0].Call? {
        CallKeepsPromises(c, events[0].i);
        AgeKeepsInv(TakeIn(c, events[0].i), events[0].i.now);
        TakeInKeepsInv(c, events[0].i);
      }
      NeverAPeriodAhead(React(c, events[0]), events[1..], if events[0].Call? then events[0].i.now else from, most);
    }
  }

  // ---- invariant 4: the seed ------------------------------------------------------------------------------------

  ghost predicate Gains(c: Clock, i: Input) { !c.locked && Believed(c, i) }

  /** The device's frame count fell while locked: the daemon restarted under us. */
  ghost predicate Restarts(c: Clock, i: Input)
    requires c.period > 0
  {
    c.locked && Believed(c, i) && Quantised(i.devSample.value, c.period) < c.devSampleSeen
  }

  /** A whole newer anchor. */
  ghost predicate Advances(c: Clock, i: Input)
    requires c.period > 0
  {
    c.locked && Believed(c, i) && i.devHost >= c.host && Quantised(i.devSample.value, c.period) + c.offset > c.sample
  }

  /** The anchor in hand is too old and this input brings nothing newer. */
  ghost predicate Loses(c: Clock, i: Input)
    requires c.period > 0
  {
    c.locked && !Restarts(c, i) && !Advances(c, i) && i.now > c.host + StaleTicks(c)
  }

  /** Exactly when the lock is gained, the lock is lost, or the device count falls while locked, the seed moves, by one;
      no call does two of these. */
  lemma SeedMovesExactlyOnDiscontinuity(c: Clock, i: Input)
    requires Inv(c) && (c.locked ==> c.started)
    ensures var d := Next(c, i);
            && d.seed == c.seed + (if Gains(c, i) || Restarts(c, i) || Loses(c, i) then 1 else 0)
            && (Gains(c, i) <==> !c.locked && d.locked)
            && (Loses(c, i) <==> c.locked && !d.locked)
            && (d.locked ==> d.started)
  {}

  // ---- the healthy case: the output is the device clock ---------------------------------------------------------

  /** A device anchor: a period boundary and the host time at which the device reached it. */
  datatype Anchor = Anchor(frames: int, host: nat)

  /** Inputs a healthy daemon produces after anchor `a`: believable anchors whose frames and host time advance
      together, the same anchor read again, or a torn read while the anchor in hand is fresh. */
  ghost predicate Healthy(c: Clock, a: Anchor, inputs: seq<Input>)
    requires WellFormed(c)
    decreases |inputs|
  {
    inputs != [] ==>
      var i := inputs[0];
      if !i.devValid then i.now <= a.host + StaleTicks(c) && Healthy(c, a, inputs[1..])
      else
        && Plausible(c, i)
        && var b := Anchor(Quantised(i.devSample.value, c.period), i.devHost);
           && (b == a || (b.frames > a.frames && b.host >= a.host))
           && Healthy(c, b, inputs[1..])
  }

  /** The last anchor read. */
  function DeviceClock(period: nat, a: Anchor, inputs: seq<Input>): Anchor
    requires period > 0
    decreases |inputs|
  {
    if inputs == [] then a
    else
      var i := inputs[0];
      DeviceClock(period,
                  if i.devValid && i.devSample.Finite?
                  then Anchor(Quantised(i.devSample.value, period), i.devHost)
                  else a,
                  inputs[1..])
  }

  function Calls(inputs: seq<Input>): (events: seq<Event>)
    ensures |events| == |inputs|
    decreases |inputs|
  {
    if inputs == [] then [] else [Call(inputs[0])] + Calls(inputs[1..])
  }

  /** The clock shows anchor `a`, shifted by its offset. */
  ghost predicate Shows(c: Clock, a: Anchor) {
    && c.started && c.locked
    && c.devSampleSeen == a.frames && c.sample == a.frames + c.offset && c.host == a.host
  }

  /** Over any length of healthy run the seed stands still and every stamp is the device's own anchor, shifted by one
      fixed offset, at the device's own host time. */
  lemma {:induction false} HealthyRunIsTheDeviceClock(c: Clock, a: Anchor, inputs: seq<Input>)
    requires Inv(c) && Shows(c, a) && Healthy(c, a, inputs)
    ensures var d := Run(c, Calls(inputs));
            var dev := DeviceClock(c.period, a, inputs);
            && d.seed == c.seed && d.offset == c.offset
            && Shows(d, dev)
            && StampOf(d) == Stamp(dev.frames + c.offset, dev.host, c.seed)
    decreases |inputs|
  {
    if inputs != [] {
      var i := inputs[0];
      var d := Next(c, i);
      CallKeepsPromises(c, i);
      var b := if i.devValid then Anchor(Quantised(i.devSample.value, c.period), i.devHost) else a;
      HealthyCall(c, a, i, b);
      HealthySameRate(c, d, b, inputs[1..]);
      HealthyRunIsTheDeviceClock(d, b, inputs[1..]);
      assert Calls(inputs)[1..] == Calls(inputs[1..]);
    }
  }

  lemma HealthyCall(c: Clock, a: Anchor, i: Input, b: Anchor)
    requires Inv(c) && Shows(c, a) && Healthy(c, a, [i])
    requires b == if i.devValid then Anchor(Quantised(i.devSample.value, c.period), i.devHost) else a
    ensures var d := Next(c, i);
            && Shows(d, b) && d.seed == c.seed && d.offset == c.offset && d.period == c.period
            && d.ticksPerPeriod == c.ticksPerPeriod && d.staleMargin == c.staleMargin
  {}

  lemma {:induction false} HealthySameRate(c: Clock, d: Clock, a: Anchor, inputs: seq<Input>)
    requires WellFormed(c) && WellFormed(d) && Healthy(c, a, inputs)
    requires d.period == c.period && d.ticksPerPeriod == c.ticksPerPeriod && d.staleMargin == c.staleMargin
    ensures Healthy(d, a, inputs)
    decreases |inputs|
  {
    if inputs != [] {
      var i := inputs[0];
      HealthySameRate(c, d, if i.devValid then Anchor(Quantised(i.devSample.value, c.period), i.devHost)
          else a, inputs[1..]);
    }
  }

  /** How a healthy run begins: gaining the lock steps the timeline exactly one period forward onto the device anchor,
      unless the anchor's host time is older than the one already handed out; then the timeline waits, and the next
      newer anchor that is not older puts it on the device clock with no further seed move. */
  lemma GainingTheLock(c: Clock, i: Input)
    requires Inv(c) && c.started && Gains(c, i)
    ensures var d := Next(c, i);
            var a := Anchor(Quantised(i.devSample.value, c.period), i.devHost);
            && d.locked && d.seed == c.seed + 1
            && (i.devHost >= c.host ==> Shows(d, a) && d.sample == c.sample + c.period)
            && (i.devHost < c.host ==> d.sample == c.sample && d.host == c.host && d.devSampleSeen == a.frames
                                       && d.sample + d.period == a.frames + d.offset)
  {}

  lemma WaitingTimelineJoins(c: Clock, i: Input)
    requires Inv(c) && c.started && c.locked && c.sample + c.period == c.devSampleSeen + c.offset
    requires Believed(c, i) && i.devHost >= c.host && Quantised(i.devSample.value, c.period) > c.devSampleSeen
    ensures var d := Next(c, i);
            && Shows(d, Anchor(Quantised(i.devSample.value, c.period), i.devHost))
            && d.seed == c.seed && d.offset == c.offset
  {}

  // ---- a clock on its own ---------------------------------------------------------------------------------------

  /** With no device to believe in, a call moves both times on together, by whole periods, until less than a period is
      left to now. */
  lemma FreeRunAdvances(c: Clock, i: Input)
    requires Inv(c) && c.started && !c.locked && !Believed(c, i) && i.now >= c.host
    ensures var d := Next(c, i);
            && (d.sample - c.sample) * c.ticksPerPeriod == (d.host - c.host) * c.period
            && d.host <= i.now < d.host + c.ticksPerPeriod
            && d == c.(sample := d.sample, host := d.host)
  {
    var lag := i.now - c.host;
    FreeRunLag(lag, c.ticksPerPeriod);
    PeriodsForward(c.sample, lag / c.ticksPerPeriod, c.period, c.ticksPerPeriod);
    SameProduct(lag / c.ticksPerPeriod, c.period, c.ticksPerPeriod);
  }

  lemma SameProduct(n: int, a: int, b: int)
    ensures (n * a) * b == (n * b) * a
  {}

  /** And over any run of such calls the timeline keeps the nominal rate exactly: `period` frames for `ticksPerPeriod`
      ticks, from the first call to the last. */
  lemma {:induction false} FreeRunKeepsTheRate(c: Clock, inputs: seq<Input>)
    requires Inv(c) && c.started && !c.locked && inputs != []
    requires forall k :: 0 <= k < |inputs| ==> !Believed(c, inputs[k]) && inputs[k].now >= c.host
    requires forall j, k :: 0 <= j < k < |inputs| ==> inputs[j].now <= inputs[k].now
    ensures var d := Run(c, Calls(inputs));
            && (d.sample - c.sample) * c.ticksPerPeriod == (d.host - c.host) * c.period
            && d.host <= inputs[|inputs| - 1].now < d.host + c.ticksPerPeriod
            && d == c.(sample := d.sample, host := d.host)
    decreases |inputs|
  {
    var b := Next(c, inputs[0]);
    FreeRunAdvances(c, inputs[0]);
    CallKeepsPromises(c, inputs[0]);
    assert Calls(inputs)[0] == Call(inputs[0]) && Calls(inputs)[1..] == Calls(inputs[1..]);
    if |inputs| == 1 {
      assert Calls(inputs[1..]) == [];
    } else {
      BelievedAlike(c, b, inputs[1..]);
      FreeRunKeepsTheRate(b, inputs[1..]);
      var d := Run(b, Calls(inputs[1..]));
      ProductsAdd(d.sample - b.sample, b.sample - c.sample, c.ticksPerPeriod);
      ProductsAdd(d.host - b.host, b.host - c.host, c.period);
    }
  }

  /** What is believed does not depend on where the timeline stands. */
  lemma BelievedAlike(c: Clock, b: Clock, inputs: seq<Input>)
    requires b == c.(sample := b.sample, host := b.host) && forall k :: 0 <= k < |inputs| ==> !Believed(c, inputs[k])
    ensures forall k :: 0 <= k < |inputs| ==> !Believed(b, inputs[k])
  {}

  lemma ProductsAdd(a: int, b: int, t: int)
    ensures (a + b) * t == a * t + b * t
  {}

  /** An unlocked clock locks on exactly the anchors that are real and fresh: a device time, a sample count that is a
      number and not negative, no more than a period in the future and no older than the staleness window. */
  lemma LocksExactlyOnFreshAnchors(c: Clock, i: Input)
    requires Inv(c) && c.started && !c.locked
    ensures Gains(c, i) <==>
            && i.devValid && i.devHost != 0 && i.devSample.Finite? && i.devSample.value >= 0.0
            && i.devHost - i.now <= c.ticksPerPeriod && i.now - i.devHost <= c.staleMargin + c.ticksPerPeriod
  {}

  /** The rate set is the rate kept: the ticks of a period are the ticks of its frames, to within one, and at least
      one. */
  lemma RateSetsThePeriod(c: Clock, ticksPerFrame: real)
    requires WellFormed(c)
    ensures var t, exact := WithRate(c, ticksPerFrame).ticksPerPeriod, ticksPerFrame * c.period as real;
            if exact >= 1.0 then exact - 1.0 < t as real <= exact else t == 1
    ensures WithRate(c, ticksPerFrame) == c.(ticksPerPeriod := WithRate(c, ticksPerFrame).ticksPerPeriod)
  {}

  // ---- the class ------------------------------------------------------------------------------------------------

  class ZeroTimeStampClock {
    const period: nat
    var ticksPerPeriod: nat
    const staleMarginTicks: nat
    var sample: int
    var host: nat
    var seed: nat
    var offset: int
    var devSampleSeen: int
    var locked: bool
    var started: bool

    ghost function View(): Clock
      reads this
    {
      Clock(period, ticksPerPeriod, staleMarginTicks, sample, host, seed, offset, devSampleSeen, locked, started)
    }

    ghost predicate Valid()
      reads this
    {
      Inv(View()) && (locked ==> started)
    }

    constructor (period: nat, ticksPerFrame: real, ticksPerSecond: real)
      ensures Valid() && View() == Fresh(period, ticksPerFrame, ticksPerSecond)
    {
      var p := if period != 0 then period else 1;
      this.period := p;
      var m := ticksPerSecond * 43000000.0 / 1000000000.0;
      staleMarginTicks := if m >= 1.0 then m.Floor else 1;
      var t := ticksPerFrame * p as real;
      ticksPerPeriod := if t >= 1.0 then t.Floor else 1;
      sample, host, seed, offset, devSampleSeen, locked, started := 0, 0, 1, 0, 0, false, false;
      new;
      FreshClockIsSound(period, ticksPerFrame, ticksPerSecond);
    }

    predicate IsPlausible(now: nat, devSample: Double, devHost: nat)
      reads this
      ensures IsPlausible(now, devSample, devHost) == Plausible(View(), Input(now, true, devSample, devHost))
    {
      if devHost == 0 || devSample.NotFinite? || devSample.value < 0.0 then false
      else if devHost > now then devHost - now <= ticksPerPeriod
      else now - devHost <= staleMarginTicks + ticksPerPeriod
    }

    method SetTicksPerFrame(ticksPerFrame: real)
      requires Valid()
      modifies this`ticksPerPeriod
      ensures Valid() && View() == WithRate(old(View()), ticksPerFrame)
    {
      var t := ticksPerFrame * period as real;
      ticksPerPeriod := if t >= 1.0 then t.Floor else 1;
    }

    method GetNext(now: nat, devValid: bool, devSample: Double, devHost: nat) returns (r: Stamp)
      requires Valid()
      modifies this
      ensures Valid() && View() == Next(old(View()), Input(now, devValid, devSample, devHost))
      ensures r == Stamp(sample, host, seed)
      ensures r.sampleTime >= old(sample) && r.sampleTime % period == 0
      ensures now - r.hostTime <= staleMarginTicks + ticksPerPeriod
    {
      ghost var i := Input(now, devValid, devSample, devHost);
      CallKeepsPromises(View(), i);
      SeedMovesExactlyOnDiscontinuity(View(), i);
      if !started { started := true; host := now; }
      if devValid && IsPlausible(now, devSample, devHost) {
        var s := (devSample.value / period as real).Floor * period;
        if !locked || s < devSampleSeen {
          offset := sample + period - s;
          locked := true;
          seed := seed + 1;
        }
        devSampleSeen := s;
        var out := s + offset;
        if out > sample && devHost >= host { sample := out; host := devHost; }
      }
      assert View() == TakeIn(old(View()), i);
      if now > host {
        var lag := now - host;
        if locked && lag > staleMarginTicks + ticksPerPeriod { locked := false; seed := seed + 1; }
        if !locked {
          var periods := lag / ticksPerPeriod;
          if periods != 0 {
            sample := sample + periods * period;
            host := host + periods * ticksPerPeriod;
          }
        }
      }
      return Stamp(sample, host, seed);
    }
  }
}
