/** The transmit clock servo (platform/daemon/uf-daemon.cpp): a filtered estimate of the device's rate, and an
    accumulator that turns its fractional difference from the nominal cadence into occasional packets one frame
    longer or shorter. Doubles are taken as reals. */
module Servo {
  import opened Cadence

  const BAND: real := 60.0
  const CLAMP: real := 4.0

  /** `base`: what a cadence of unchanged packets delivers, in frames per second. */
  datatype Servo = Servo(base: real, measured: real, ready: bool, accum: real)

  function Fresh(sytInterval: nat, rate: nat): Servo {
    Servo((8000 * sytInterval) as real, rate as real, false, 0.0)
  }

  predicate InBand(s: Servo, sample: real) { s.base - BAND < sample < s.base + BAND }

  /** Once a second: a sample outside the band is rejected, the first one inside is adopted, later ones are filtered. */
  function Sampled(s: Servo, sample: real): Servo {
    if InBand(s, sample)
    then s.(measured := if s.ready then 0.8 * s.measured + 0.2 * sample else sample, ready := true)
    else s
  }

  function Clamped(a: real): real { if a > CLAMP then CLAMP else if a < -CLAMP then -CLAMP else a }

  /** Once a full packet: how many frames it carries, and what debt is left. */
  function Paced(s: Servo, sytInterval: int): (Servo, int) {
    if !s.ready then (s, sytInterval)
    else
      var a := Clamped(s.accum + (s.measured - s.base) / 8000.0);
      if a >= 1.0 then (s.(accum := a - 1.0), sytInterval + 1)
      else if a <= -1.0 then (s.(accum := a + 1.0), sytInterval - 1)
      else (s.(accum := a), sytInterval)
  }

  /** Frames a packet should carry on average under the present estimate. */
  function Target(s: Servo, sytInterval: int): real {
    sytInterval as real + if s.ready then (s.measured - s.base) / 8000.0 else 0.0
  }

  datatype Event = RateSample(sample: real) | FullPacket

  /** `delivered`: frames put into packets. `target`: the sum of the targets in force. */
  datatype Ledger = Ledger(servo: Servo, delivered: int, target: real)

  function Next(l: Ledger, e: Event, sytInterval: int): Ledger {
    match e
    case RateSample(sample) => l.(servo := Sampled(l.servo, sample))
    case FullPacket =>
      var (s, frames) := Paced(l.servo, sytInterval);
      Ledger(s, l.delivered + frames, l.target + Target(l.servo, sytInterval))
  }

  function Run(l: Ledger, events: seq<Event>, sytInterval: int): Ledger
    decreases |events|
  {
    if events == [] then l else Next(Run(l, events[..|events| - 1], sytInterval), events[|events| - 1], sytInterval)
  }

  ghost predicate Inv(l: Ledger, start: Ledger) {
    && l.servo.base == start.servo.base
    && (l.servo.ready ==> InBand(l.servo, l.servo.measured))
    && -1.0 < l.servo.accum < 1.0
    && l.delivered as real - l.target == start.delivered as real - start.target + start.servo.accum - l.servo.accum
  }

  lemma {:induction false} RunKeepsInv(start: Ledger, events: seq<Event>, sytInterval: int)
    requires Inv(start, start)
    ensures Inv(Run(start, events, sytInterval), start)
    decreases |events|
  {
    if events != [] {
      RunKeepsInv(start, events[..|events| - 1], sytInterval);
      var l := Run(start, events[..|events| - 1], sytInterval);
      var t := Next(l, events[|events| - 1], sytInterval);
      if events[|events| - 1].FullPacket? {
        assert t.delivered as real == l.delivered as real + (t.delivered - l.delivered) as real;
      }
    }
  }

  /** For any sequence of rate samples and packets: the estimate stays in the band once there is one, the debt stays
      strictly within one frame, and so the clamp that guards against a runaway never acts. */
  lemma ClampNeverActs(start: Ledger, events: seq<Event>, sytInterval: int)
    requires Inv(start, start)
    ensures var s := Run(start, events, sytInterval).servo;
            && (s.ready ==> s.base - BAND < s.measured < s.base + BAND)
            && -1.0 < s.accum < 1.0
            && (s.ready ==>
                  var next := s.accum + (s.measured - s.base) / 8000.0;
                  Clamped(next) == next)
            && sytInterval - 1 <= Paced(s, sytInterval).1 <= sytInterval + 1
  {
    RunKeepsInv(start, events, sytInterval);
  }

  /** Conservation: over any run the frames delivered differ from the summed target by exactly the change in the
      debt, so by less than one frame plus the debt at the start. */
  lemma NoFrameIsLost(start: Ledger, events: seq<Event>, sytInterval: int)
    requires Inv(start, start) && start.delivered == 0 && start.target == 0.0
    ensures var l := Run(start, events, sytInterval);
            && l.delivered as real - l.target == start.servo.accum - l.servo.accum
            && -1.0 + start.servo.accum < l.delivered as real - l.target < 1.0 + start.servo.accum
  {
    RunKeepsInv(start, events, sytInterval);
  }

  /** What is left of a difference after `n` filter steps, four fifths each. */
  function Left(difference: real, n: nat): real { if n == 0 then difference else 0.8 * Left(difference, n - 1) }

  function Samples(x: real, n: nat): seq<Event> { seq(n, _ => RateSample(x)) }

  /** The estimate converges: under a steady rate inside the band, the first sample is adopted and each later one
      takes a fifth of what is missing. Samples outside the band change nothing. */
  lemma {:induction false} EstimateConverges(l: Ledger, x: real, n: nat, sytInterval: int)
    requires InBand(l.servo, x)
    ensures var s := Run(l, Samples(x, n), sytInterval).servo;
            && (l.servo.ready ==> s.ready && s.measured - x == Left(l.servo.measured - x, n))
            && (!l.servo.ready && n > 0 ==> s.ready && s.measured == x)
            && s.base == l.servo.base && s.accum == l.servo.accum
  {
    if n > 0 {
      EstimateConverges(l, x, n - 1, sytInterval);
      assert Samples(x, n)[..n - 1] == Samples(x, n - 1);
    }
  }

  lemma OutliersAreIgnored(l: Ledger, x: real, sytInterval: int)
    requires !InBand(l.servo, x)
    ensures Next(l, RateSample(x), sytInterval) == l
  {}

  /** The band is placed around 8000 full packets a second. At a rate that is not a multiple of 8000 not every
      packet is full, so no sample within 60 frames of the true rate is ever inside it, and the servo never engages;
      at the other rates every such sample is. */
  lemma EngagesOnlyWhereEveryPacketIsFull(rate: nat, sample: real)
    requires rate in SUPPORTED_RATES && rate as real - BAND < sample < rate as real + BAND
    ensures InBand(Fresh(SessionGeometry(rate).sytInterval, rate), sample) <==> rate % 8000 == 0
  {
    assert rate == 32000 || rate == 44100 || rate == 48000 || rate == 64000 || rate == 88200
        || rate == 96000 || rate == 128000 || rate == 176400 || rate == 192000;
  }

  class ClockServo {
    const baseRate: real
    const sytInterval: nat
    var measuredRate: real
    var servoReady: bool
    var servoAccum: real

    ghost function View(): Servo
      reads this
    {
      Servo(baseRate, measuredRate, servoReady, servoAccum)
    }

    ghost predicate Valid()
      reads this
    {
      sytInterval >= 1 && Inv(Ledger(View(), 0, 0.0), Ledger(View(), 0, 0.0))
    }

    constructor (sytInterval: nat, rate: nat)
      requires sytInterval >= 1
      ensures Valid() && View() == Fresh(sytInterval, rate) && this.sytInterval == sytInterval
    {
      this.sytInterval := sytInterval;
      baseRate := (8000 * sytInterval) as real;
      measuredRate, servoReady, servoAccum := rate as real, false, 0.0;
    }

    method AddSample(fVsBus: real)
      requires Valid()
      modifies this
      ensures Valid() && View() == Sampled(old(View()), fVsBus)
    {
      if fVsBus > baseRate - 60.0 && fVsBus < baseRate + 60.0 {
        measuredRate := if servoReady then 0.8 * measuredRate + 0.2 * fVsBus else fVsBus;
        servoReady := true;
      }
    }

    method FramesForPacket() returns (frames: nat)
      requires Valid()
      modifies this`servoAccum
      ensures Valid() && (View(), frames) == Paced(old(View()), sytInterval)
    {
      frames := sytInterval;
      if servoReady {
        servoAccum := Clamped(servoAccum + (measuredRate - baseRate) / 8000.0);
        if servoAccum >= 1.0 {
          frames := frames + 1;
          servoAccum := servoAccum - 1.0;
        } else if servoAccum <= -1.0 {
          frames := frames - 1;
          servoAccum := servoAccum + 1.0;
        }
      }
    }
  }
}
