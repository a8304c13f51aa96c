/** The self-describing test signal and its analyser (include/uf/protocol/testsig.hpp).

    Every sample carries its channel and its frame index, so a recording says by itself what happened to it. The
    results say what the analyser's verdicts mean: when exactly it calls a recording clean, and that it counts
    deleted runs exactly. */
module TestSignal {
  import opened Arithmetic

  const PERIOD: nat := 0x1_0000       // frames before the index wraps
  const MARKER: nat := 0x80_0000
  const TWO24: nat := 0x100_0000
  const TWO32: nat := 0x1_0000_0000
  const MAX_EVENTS: nat := 64

  type i32 = x: int | -0x8000_0000 <= x < 0x8000_0000

  // ---- the encoding ---------------------------------------------------------------------------------------------

  function BitXor(a: nat, b: nat): nat { if a % 2 != b % 2 then 1 else 0 }

  /** Exclusive or of three bits. */
  function Xor3(a: nat, b: nat): (r: nat)
    ensures r < 8
  {
    BitXor(a, b) + 2 * BitXor(a / 2, b / 2) + 4 * BitXor(a / 4, b / 4)
  }

  function Check(channel: nat, index: nat): (r: nat)
    ensures r < 8
  {
    Xor3(Xor3(channel % 8, index % 8), index / 256 % 8)
  }

  /** The 24-bit value, sign-extended; the marker is its sign bit, so every sample is negative. */
  function Sample(channel: nat, frame: nat): (s: i32)
    ensures -0x80_0000 <= s < 0
  {
    var ch, ix := channel % 16, frame % PERIOD;
    MARKER + ch * 0x8_0000 + ix * 8 + Check(ch, ix) - TWO24
  }

  function Unsigned(s: i32): nat { if s < 0 then s + TWO32 else s }

  function ChannelOf(s: i32): nat { Unsigned(s) / 0x8_0000 % 16 }
  function IndexOf(s: i32): nat { Unsigned(s) / 8 % PERIOD }

  predicate Valid(s: i32) {
    Unsigned(s) % TWO24 >= MARKER && Sample(ChannelOf(s), IndexOf(s)) == s
  }

  lemma FieldsOf(ch: nat, ix: nat, check: nat)
    requires ch < 16 && ix < PERIOD && check < 8
    ensures var u := 0xFF80_0000 + ch * 0x8_0000 + ix * 8 + check;
            u / 0x8_0000 % 16 == ch && u / 8 % PERIOD == ix && u % TWO24 >= MARKER
  {
    var u := 0xFF80_0000 + ch * 0x8_0000 + ix * 8 + check;
    assert u / 0x8_0000 == 8176 + ch;
    assert u / 8 == (0x1FF0 + ch) * 0x1_0000 + ix;
  }

  /** Decoding undoes encoding, and the legal samples are exactly the encodings. */
  lemma Decodes(channel: nat, frame: nat)
    ensures ChannelOf(Sample(channel, frame)) == channel % 16
    ensures IndexOf(Sample(channel, frame)) == frame % PERIOD
    ensures Valid(Sample(channel, frame))
  {
    var ch, ix := channel % 16, frame % PERIOD;
    FieldsOf(ch, ix, Check(ch, ix));
    UnsignedSample(ch, ix, channel, frame);
    AlreadyReduced(ch, 16);
    SamplesRepeat(ch, frame);
  }

  lemma UnsignedSample(ch: nat, ix: nat, channel: nat, frame: nat)
    requires ch == channel % 16 && ix == frame % PERIOD
    ensures Unsigned(Sample(channel, frame)) == 0xFF80_0000 + ch * 0x8_0000 + ix * 8 + Check(ch, ix)
  {}

  lemma ValidIffEncoded(s: i32)
    ensures Valid(s) <==> exists c, f :: s == Sample(c, f)
  {
    if c, f :| s == Sample(c, f) { Decodes(c, f); }
    if Valid(s) { assert s == Sample(ChannelOf(s), IndexOf(s)); }
  }

  lemma BitXorFlips(a: nat, b: nat, c: nat)
    ensures BitXor(a, c) == BitXor(b, c) <==> a % 2 == b % 2
    ensures BitXor(c, a) == BitXor(a, c)
  {}

  lemma ThreeBits(a: nat, b: nat)
    requires a < 8 && b < 8
    ensures a % 2 == b % 2 && a / 2 % 2 == b / 2 % 2 && a / 4 % 2 == b / 4 % 2 <==> a == b
  {}

  lemma ThreeDigits(p: nat, q: nat, r: nat, p2: nat, q2: nat, r2: nat)
    requires p < 2 && q < 2 && r < 2 && p2 < 2 && q2 < 2 && r2 < 2
    ensures p + 2 * q + 4 * r == p2 + 2 * q2 + 4 * r2 <==> p == p2 && q == q2 && r == r2
  {}

  lemma Xor3Flips(a: nat, b: nat, c: nat)
    requires a < 8 && b < 8 && c < 8
    ensures Xor3(a, c) == Xor3(b, c) <==> a == b
    ensures Xor3(c, a) == Xor3(a, c)
  {
    BitXorFlips(a, b, c);
    BitXorFlips(a / 2, b / 2, c / 2);
    BitXorFlips(a / 4, b / 4, c / 4);
    ThreeBits(a, b);
    ThreeDigits(BitXor(a, c), BitXor(a / 2, c / 2), BitXor(a / 4, c / 4),
                BitXor(b, c), BitXor(b / 2, c / 2), BitXor(b / 4, c / 4));
    hide BitXor;
  }

  /** The check digits notice when the low channel bits, the low index bits or the high index bits alone were altered:
      what comes out carries the wrong digits. */
  lemma AlteredFieldShows(ch: nat, ix: nat, ch2: nat, ix2: nat)
    requires ch < 16 && ch2 < 16 && ix < PERIOD && ix2 < PERIOD
    requires || (ch % 8 != ch2 % 8 && ix == ix2)
             || (ch == ch2 && ix % 8 != ix2 % 8 && ix / 256 == ix2 / 256)
             || (ch == ch2 && ix % 8 == ix2 % 8 && ix / 256 % 8 != ix2 / 256 % 8)
    ensures Check(ch, ix) != Check(ch2, ix2)
  {
    var a, b, c := ch % 8, ix % 8, ix / 256 % 8;
    var a2, b2, c2 := ch2 % 8, ix2 % 8, ix2 / 256 % 8;
    hide Xor3;
    if a != a2 {
      Xor3Flips(a, a2, b);
      Xor3Flips(Xor3(a, b), Xor3(a2, b), c);
    } else if b != b2 {
      Xor3Flips(b, b2, a);
      Xor3Flips(b2, b, a);
      Xor3Flips(Xor3(a, b), Xor3(a, b2), c);
    } else {
      Xor3Flips(c, c2, Xor3(a, b));
      Xor3Flips(c2, c, Xor3(a, b));
    }
  }

  /** What one sample says: nothing, an alteration (with whatever channel bits are left), or a coordinate. */
  datatype Reading = Silence | Altered(seen: nat) | Coded(channel: nat, index: nat)

  function Read(s: i32): (r: Reading)
    ensures r.Coded? ==> r.index < PERIOD
  {
    if Valid(s) then Coded(ChannelOf(s), IndexOf(s)) else if s == 0 then Silence else Altered(ChannelOf(s))
  }

  /** Reading loses nothing: a coordinate is read from its own sample and no other, silence from zero and nothing
      else. */
  lemma ReadIsFaithful(s: i32, channel: nat, index: nat)
    requires channel < 16 && index < PERIOD
    ensures Read(s) == Coded(channel, index) <==> s == Sample(channel, index)
    ensures Read(s) == Silence <==> s == 0
    ensures Read(s).Altered? ==> Read(s).seen == Unsigned(s) / 0x8_0000 % 16
  {
    Decodes(channel, index);
    AlreadyReduced(channel, 16);
    AlreadyReduced(index, PERIOD);
  }

  lemma AlreadyReduced(x: nat, m: nat)
    requires x < m
    ensures x % m == x
  {}

  // ---- the analyser ---------------------------------------------------------------------------------------------

  datatype Fault = Gap | Repeat | Backwards | WrongChannel | NotEncoded

  datatype Event = Event(fault: Fault, channel: nat, frame: nat, delta: int, sawChannel: nat)

  datatype Report = Report(started: bool, framesChecked: nat, gaps: nat, repeats: nat, backwards: nat,
      wrongChannel: nat,
                           notEncoded: nat, droppedFrames: nat, events: seq<Event>)
  {
    predicate Clean() {
      started && gaps == 0 && repeats == 0 && backwards == 0 && wrongChannel == 0 && notEncoded == 0
    }
  }

  const EMPTY := Report(false, 0, 0, 0, 0, 0, 0, 0, [])

  /** The event list is capped. */
  function Noted(r: Report, e: Event): Report {
    if |r.events| < MAX_EVENTS then r.(events := r.events + [e]) else r
  }

  datatype Scan = Scan(report: Report, have: bool, prevIndex: nat)

  /** The step from one index to the next, folded to 0 .. PERIOD-1. */
  function Forward(prev: nat, ix: nat): int
    requires prev < PERIOD && ix < PERIOD
  {
    if ix < prev then ix - prev + PERIOD else ix - prev
  }

  /** What the analyser records about one step between valid samples. */
  function Judge(r: Report, prev: nat, ix: nat, want: nat, f: nat, ch: nat): Report
    requires prev < PERIOD && ix < PERIOD
  {
    if ix == (prev + 1) % PERIOD then r
    else
      var d := Forward(prev, ix);
      if d == 0 then Noted(r.(repeats := r.repeats + 1), Event(Repeat, want, f, 0, ch))
      else if d < PERIOD / 2
      then Noted(r.(gaps := r.gaps + 1, droppedFrames := r.droppedFrames + (d - 1)), Event(Gap, want, f, d, ch))
      else Noted(r.(backwards := r.backwards + 1), Event(Backwards, want, f, d - PERIOD, ch))
  }

  function Step(a: Scan, s: Reading, f: nat, want: nat): (b: Scan)
    requires a.prevIndex < PERIOD && (s.Coded? ==> s.index < PERIOD)
    ensures b.prevIndex < PERIOD
  {
    match s
    case Silence =>
      if !a.have then a
      else a.(report := Noted(a.report.(notEncoded := a.report.notEncoded + 1), Event(NotEncoded, want, f, 0, 0)))
    case Altered(seen) =>
      a.(report := Noted(a.report.(notEncoded := a.report.notEncoded + 1), Event(NotEncoded, want, f, 0, seen)))
    case Coded(ch, ix) =>
      var r := if ch != want
               then Noted(a.report.(wrongChannel := a.report.wrongChannel + 1), Event(WrongChannel, want, f, 0, ch))
               else a.report;
      if !a.have then Scan(r.(started := true, framesChecked := r.framesChecked + 1), true, ix)
      else
        var j := Judge(r, a.prevIndex, ix, want, f, ch);
        Scan(j.(framesChecked := j.framesChecked + 1), true, ix)
  }

  /** The readings of one column. */
  type Readings = o: seq<Reading> | forall i :: 0 <= i < |o| && o[i].Coded? ==> o[i].index < PERIOD witness []

  function ReadingsOf(column: seq<i32>): (o: Readings)
    ensures |o| == |column| && forall i :: 0 <= i < |o| ==> o[i] == Read(column[i])
  {
    seq(|column|, i requires 0 <= i < |column| => Read(column[i]))
  }

  function ScanUpTo(column: Readings, n: nat, want: nat): (a: Scan)
    requires n <= |column|
    ensures a.prevIndex < PERIOD
  {
    if n == 0 then Scan(EMPTY, false, 0) else Step(ScanUpTo(column, n - 1, want), column[n - 1], n - 1, want)
  }

  function Analyse(column: seq<i32>, want: nat): Report {
    ScanUpTo(ReadingsOf(column), |column|, want).report
  }

  // ---- what clean means -----------------------------------------------------------------------------------------

  /** Silence, then at least one sample, all being the channel's signal at consecutive frames. */
  ghost predicate SignalFrom(column: seq<i32>, z: nat, start: nat, channel: nat) {
    && z < |column|
    && (forall i :: 0 <= i < z ==> column[i] == 0)
    && (forall i :: z <= i < |column| ==> column[i] == Sample(channel, start + (i - z)))
  }

  ghost predicate IsSignal(column: seq<i32>, channel: nat) {
    channel < 16 && exists z: nat, start: nat :: SignalFrom(column, z, start, channel)
  }

  /** The same of the first `n` readings. */
  ghost predicate ReadsSignal(column: Readings, n: nat, z: nat, start: nat, channel: nat)
    requires n <= |column|
  {
    && (forall i :: 0 <= i < n && i < z ==> column[i] == Silence)
    && (forall i :: z <= i < n ==> column[i] == Coded(channel, (start + (i - z)) % PERIOD))
  }

  lemma ReadsSignalIffSignal(column: seq<i32>, z: nat, start: nat, channel: nat)
    requires channel < 16 && z < |column|
    ensures ReadsSignal(ReadingsOf(column), |column|, z, start, channel) <==> SignalFrom(column, z, start, channel)
  {
    hide Read, Sample;
    forall i | 0 <= i < z
      ensures Read(column[i]) == Silence <==> column[i] == 0
    {
      ReadIsFaithful(column[i], channel, 0);
    }
    forall i | z <= i < |column|
      ensures Read(column[i]) == Coded(channel, (start + (i - z)) % PERIOD) <==>
          column[i] == Sample(channel, start + (i - z))
    {
      ReadIsFaithful(column[i], channel, (start + (i - z)) % PERIOD);
      SamplesRepeat(channel, start + (i - z));
    }
  }

  lemma SamplesRepeat(channel: nat, frame: nat)
    ensures Sample(channel, frame % PERIOD) == Sample(channel, frame)
  {
    AlreadyReduced(frame % PERIOD, PERIOD);
  }

  function Faults(r: Report): nat { r.gaps + r.repeats + r.backwards + r.wrongChannel + r.notEncoded }

  /** One reading that adds no fault is silence before the signal, or the expected channel at the next index. */
  lemma FaultlessStep(a: Scan, s: Reading, f: nat, want: nat)
    requires a.prevIndex < PERIOD && (s.Coded? ==> s.index < PERIOD)
    ensures var b := Step(a, s, f, want);
            && Faults(b.report) >= Faults(a.report)
            && (Faults(b.report) == Faults(a.report) <==>
                  || (s == Silence && !a.have)
                  || (s.Coded? && s.channel == want && (a.have ==> s.index == (a.prevIndex + 1) % PERIOD)))
            && (s == Silence && !a.have ==> b == a)
            && (s.Coded? ==> b.have && b.prevIndex == s.index && (a.have || b.report.started)
                             && (a.report.started ==> b.report.started))
  {}

  lemma SignalGoesOn(column: Readings, n: nat, z: nat, start: nat, channel: nat)
    requires 0 < n <= |column| && z < n && ReadsSignal(column, n - 1, z, start, channel)
    requires column[n - 1] == Coded(channel, (start + (n - 1 - z)) % PERIOD)
    ensures ReadsSignal(column, n, z, start, channel)
  {}

  lemma SignalBegins(column: Readings, n: nat, channel: nat)
    requires 0 < n <= |column| && forall i :: 0 <= i < n - 1 ==> column[i] == Silence
    requires column[n - 1].Coded? && column[n - 1].channel == channel
    ensures ReadsSignal(column, n, n - 1, column[n - 1].index, channel)
  {
    AlreadyReduced(column[n - 1].index, PERIOD);
  }

  /** A faultless scan has read only silence, or silence and then the signal. */
  lemma {:induction false} FaultlessScan(column: Readings, n: nat, want: nat) returns (z: nat, start: nat)
    requires n <= |column| && Faults(ScanUpTo(column, n, want).report) == 0
    ensures var a := ScanUpTo(column, n, want);
            if a.have then a.report.started && z < n && ReadsSignal(column, n, z, start, want)
                           && a.prevIndex == (start + (n - 1 - z)) % PERIOD
            else !a.report.started && forall i :: 0 <= i < n ==> column[i] == Silence
  {
    z, start := 0, 0;
    if n > 0 {
      var a, s := ScanUpTo(column, n - 1, want), column[n - 1];
      hide Step, Faults, ReadsSignal;
      FaultlessStep(a, s, n - 1, want);
      z, start := FaultlessScan(column, n - 1, want);
      if a.have {
        NextIndex(start + (n - 2 - z));
        SignalGoesOn(column, n, z, start, want);
      } else if s.Coded? {
        z, start := n - 1, s.index;
        AlreadyReduced(s.index, PERIOD);
        SignalBegins(column, n, want);
      }
    }
  }

  lemma NextIndex(k: nat)
    ensures (k % PERIOD + 1) % PERIOD == (k + 1) % PERIOD
  {}

  /** A started scan in which every coordinate was the expected channel's: that channel is one a sample can carry. */
  lemma ReadChannel(s: i32)
    ensures Read(s).Coded? ==> Read(s).channel < 16
  {}

  // ---- deleted runs ---------------------------------------------------------------------------------------------

  /** `kept` are the frame numbers that survive of a signal with interior runs deleted. */
  ghost predicate Rising(kept: seq<nat>) {
    forall i, j :: 0 <= i < j < |kept| ==> kept[i] < kept[j]
  }

  /** The same, with no deleted run longer than `most`. */
  ghost predicate Kept(kept: seq<nat>, most: nat) {
    Rising(kept) && forall i, j :: 0 <= i < j < |kept| && j == i + 1 ==> kept[j] <= kept[i] + most + 1
  }

  /** How many runs are missing. */
  function Runs(kept: seq<nat>): nat {
    if |kept| <= 1 then 0
    else Runs(kept[..|kept| - 1]) + if kept[|kept| - 1] == kept[|kept| - 2] + 1 then 0 else 1
  }

  /** How many frames are missing between the first and the last that survive. */
  function Missing(kept: seq<nat>): int {
    if kept == [] then 0 else kept[|kept| - 1] - kept[0] - (|kept| - 1)
  }

  ghost predicate Carries(column: seq<i32>, z: nat, kept: seq<nat>, channel: nat) {
    && |column| == z + |kept|
    && (forall i :: 0 <= i < z ==> column[i] == 0)
    && (forall j :: 0 <= j < |kept| ==> column[z + j] == Sample(channel, kept[j]))
  }

  /** What the analyser has counted. */
  datatype Tally = Tally(gaps: nat, dropped: nat, repeats: nat, backwards: nat)

  function TallyOf(r: Report): Tally { Tally(r.gaps, r.droppedFrames, r.repeats, r.backwards) }

  function Plus(a: Tally, b: Tally): Tally {
    Tally(a.gaps + b.gaps, a.dropped + b.dropped, a.repeats + b.repeats, a.backwards + b.backwards)
  }

  /** What a deleted run is taken for: only its length modulo the period shows. */
  function TakenFor(run: nat): Tally {
    var m := run % PERIOD;
    if m == 0 then Tally(0, 0, 0, 0)
    else if m <= 32766 then Tally(1, m, 0, 0)
    else if m < PERIOD - 1 then Tally(0, 0, 0, 1)
    else Tally(0, 0, 1, 0)
  }

  function Tallied(kept: seq<nat>): Tally
    requires Rising(kept)
  {
    if |kept| <= 1 then Tally(0, 0, 0, 0)
    else Plus(Tallied(kept[..|kept| - 1]), TakenFor(kept[|kept| - 1] - kept[|kept| - 2] - 1))
  }

  function Capped(n: nat): nat { if n < MAX_EVENTS then n else MAX_EVENTS }

  lemma ForwardStep(a: nat, b: nat, run: nat, m: nat)
    requires b == a + 1 + run && m == run % PERIOD
    ensures b % PERIOD == (a % PERIOD + 1) % PERIOD <==> m == 0
    ensures Forward(a % PERIOD, b % PERIOD) == if m == PERIOD - 1 then 0 else m + 1
  {
    var r := a % PERIOD + 1 + m;
    assert b % PERIOD == r % PERIOD;
    assert r % PERIOD == if r < PERIOD then r else r - PERIOD;
    assert (a % PERIOD + 1) % PERIOD == if a % PERIOD + 1 < PERIOD then a % PERIOD + 1 else 0;
  }

  ghost predicate ReadsKept(column: Readings, n: nat, z: nat, kept: seq<nat>, channel: nat)
    requires n <= |column|
  {
    && n == z + |kept|
    && (forall i :: 0 <= i < z ==> column[i] == Silence)
    && (forall j :: 0 <= j < |kept| ==> column[z + j] == Coded(channel, kept[j] % PERIOD))
  }

  /** The next surviving frame: whatever the run before it is taken for, and nothing more. */
  lemma KeptStep(a: Scan, last: nat, next: nat, run: nat, f: nat, channel: nat)
    requires a.have && a.prevIndex == last % PERIOD && next == last + 1 + run
    ensures var r, t := Step(a, Coded(channel, next % PERIOD), f, channel), TakenFor(run);
            && r.have && r.prevIndex == next % PERIOD && TallyOf(r.report) == Plus(TallyOf(a.report), t)
            && r.report.started == a.report.started && r.report.framesChecked == a.report.framesChecked + 1
            && r.report.wrongChannel == a.report.wrongChannel && r.report.notEncoded == a.report.notEncoded
            && |r.report.events| == if t == Tally(0, 0, 0, 0) || |a.report.events| >= MAX_EVENTS then |a.report.events|
                                    else |a.report.events| + 1
  {
    ForwardStep(last, next, run, run % PERIOD);
  }

  /** A report that says what each deleted run is taken for, and nothing else. */
  ghost predicate Reports(r: Report, kept: seq<nat>)
    requires Rising(kept)
  {
    var t := Tallied(kept);
    && TallyOf(r) == t && r.wrongChannel == 0 && r.notEncoded == 0
    && r.framesChecked == |kept| && r.started == (kept != [])
    && |r.events| == Capped(t.gaps + t.repeats + t.backwards)
  }

  ghost predicate Counted(a: Scan, kept: seq<nat>)
    requires Rising(kept)
  {
    && Reports(a.report, kept)
    && a.have == (kept != [])
    && (kept != [] ==> a.prevIndex == kept[|kept| - 1] % PERIOD)
  }

  lemma CountedNext(a: Scan, kept: seq<nat>, next: nat, f: nat, channel: nat)
    requires a.prevIndex < PERIOD && Rising(kept) && Counted(a, kept) && Rising(kept + [next])
    ensures Counted(Step(a, Coded(channel, next % PERIOD), f, channel), kept + [next])
  {
    hide Step, TakenFor, Tallied;
    if kept == [] {
      CountedFirst(a, next, f, channel);
      assert [] + [next] == [next];
    } else {
      var last := kept[|kept| - 1];
      assert (kept + [next])[|kept| - 1] == last && (kept + [next])[|kept|] == next;
      var run := next - last - 1;
      KeptStep(a, last, next, run, f, channel);
      SomethingTaken(run);
      CountedMore(a, Step(a, Coded(channel, next % PERIOD), f, channel), kept, next, run, TakenFor(run));
    }
  }

  lemma CountedMore(a: Scan, b: Scan, kept: seq<nat>, next: nat, run: nat, t: Tally)
    requires kept != [] && Rising(kept) && Rising(kept + [next]) && Counted(a, kept)
    requires next == kept[|kept| - 1] + 1 + run && t == TakenFor(run)
    requires t.gaps + t.repeats + t.backwards == if t == Tally(0, 0, 0, 0) then 0 else 1
    requires b.have && b.prevIndex == next % PERIOD && TallyOf(b.report) == Plus(TallyOf(a.report), t)
    requires b.report.started == a.report.started && b.report.framesChecked == a.report.framesChecked + 1
    requires b.report.wrongChannel == a.report.wrongChannel && b.report.notEncoded == a.report.notEncoded
    requires |b.report.events| == if t == Tally(0, 0, 0, 0) || |a.report.events| >= MAX_EVENTS then |a.report.events|
                                  else |a.report.events| + 1
    ensures Counted(b, kept + [next])
  {
    var more := kept + [next];
    hide TakenFor;
    assert more[..|more| - 1] == kept && more[|more| - 1] == next && more[|more| - 2] == kept[|kept| - 1];
    assert Tallied(more) == Plus(Tallied(kept), t);
    hide Tallied, Rising;
  }

  lemma CountedFirst(a: Scan, next: nat, f: nat, channel: nat)
    requires a.prevIndex < PERIOD && Counted(a, [])
    ensures Counted(Step(a, Coded(channel, next % PERIOD), f, channel), [next])
  {}

  /** A run is taken for one fault at most, and for none only if nothing is counted. */
  lemma SomethingTaken(run: nat)
    ensures var t := TakenFor(run);
            t.gaps + t.repeats + t.backwards == if t == Tally(0, 0, 0, 0) then 0 else 1
  {}

  lemma {:induction false} SilenceScan(column: Readings, n: nat, want: nat)
    requires n <= |column| && forall i :: 0 <= i < n ==> column[i] == Silence
    ensures ScanUpTo(column, n, want) == Scan(EMPTY, false, 0)
  {
    if n > 0 { SilenceScan(column, n - 1, want); }
  }

  lemma NothingCounted()
    ensures Counted(Scan(EMPTY, false, 0), [])
  {}

  lemma {:induction false} ScanCounts(column: Readings, n: nat, z: nat, kept: seq<nat>, channel: nat, a: Scan)
    requires n <= |column| && ReadsKept(column, n, z, kept, channel) && Rising(kept)
    requires a == ScanUpTo(column, n, channel)
    ensures Counted(a, kept)
    decreases |kept|
  {
    hide Step, Counted;
    if kept == [] {
      SilenceScan(column, n, channel);
      NothingCounted();
    } else {
      var before, last := kept[..|kept| - 1], kept[|kept| - 1];
      var b := ScanUpTo(column, n - 1, channel);
      ScanCounts(column, n - 1, z, before, channel, b);
      assert column[z + (|kept| - 1)] == Coded(channel, last % PERIOD);
      assert kept == before + [last];
      CountedNext(b, before, last, n - 1, channel);
    }
  }

  lemma CarriedIsRead(column: seq<i32>, z: nat, kept: seq<nat>, channel: nat)
    requires channel < 16 && Carries(column, z, kept, channel)
    ensures ReadsKept(ReadingsOf(column), |column|, z, kept, channel)
  {
    var o := ReadingsOf(column);
    hide Read, Sample;
    forall i | 0 <= i < z
      ensures o[i] == Silence
    {
      ReadIsFaithful(column[i], channel, 0);
    }
    forall j | 0 <= j < |kept|
      ensures o[z + j] == Coded(channel, kept[j] % PERIOD)
    {
      SamplesRepeat(channel, kept[j]);
      ReadIsFaithful(column[z + j], channel, kept[j] % PERIOD);
    }
  }

  /** For a signal with any number of interior runs deleted, of any length, all the analyser reports is what each
      run is taken for. */
  lemma DeletedRunsAreTallied(column: seq<i32>, z: nat, kept: seq<nat>, channel: nat)
    requires channel < 16 && Carries(column, z, kept, channel) && Rising(kept)
    ensures Reports(Analyse(column, channel), kept)
  {
    var o := ReadingsOf(column);
    CarriedIsRead(column, z, kept, channel);
    hide ReadsKept, Carries, Rising, Reports, ScanUpTo;
    ScanCounts(o, |o|, z, kept, channel, ScanUpTo(o, |o|, channel));
  }

  /** No run is counted for more than it was, and one is counted for what it was exactly when it is at most 32766
      frames. */
  lemma TakenForLess(run: nat)
    ensures var t := TakenFor(run);
            && t.gaps <= 1 && t.dropped <= run
            && (run == 0 ==> t == Tally(0, 0, 0, 0)) && (1 <= run <= 32766 ==> t == Tally(1, run, 0, 0))
            && (run > 32766 ==> t.dropped < run)
  {}

  lemma {:induction false} TalliedIsExact(kept: seq<nat>)
    requires Rising(kept)
    ensures var t := Tallied(kept);
            && t.gaps <= Runs(kept) && t.dropped <= Missing(kept)
            && (t.dropped == Missing(kept) <==> Kept(kept, 32766))
            && (Kept(kept, 32766) ==> t == Tally(Runs(kept), Missing(kept), 0, 0))
    decreases |kept|
  {
    if |kept| > 1 {
      var before, n := kept[..|kept| - 1], |kept| - 1;
      var run := kept[n] - kept[n - 1] - 1;
      TalliedIsExact(before);
      LastRun(kept, before, n, run, 32766);
      TakenForLess(run);
      hide Missing, Kept, TakenFor;
      assert Tallied(kept) == Plus(Tallied(before), TakenFor(run));
      assert Runs(kept) == Runs(before) + if run == 0 then 0 else 1;
      hide Tallied, Runs, Rising;
    }
  }

  lemma LastRun(kept: seq<nat>, before: seq<nat>, n: nat, run: nat, most: nat)
    requires Rising(kept) && |kept| == n + 1 > 1 && before == kept[..n] && run == kept[n] - kept[n - 1] - 1
    ensures Missing(kept) == Missing(before) + run
    ensures Kept(kept, most) <==> Kept(before, most) && run <= most
  {
    assert before[n - 1] == kept[n - 1] && before[0] == kept[0];
    if Kept(before, most) && run <= most {
      forall i, j | 0 <= i < j < |kept| && j == i + 1
        ensures kept[j] <= kept[i] + most + 1
      {
        if j < n { assert before[j] <= before[i] + most + 1; }
      }
    }
    if Kept(kept, most) {
      forall i, j | 0 <= i < j < |before| && j == i + 1
        ensures before[j] <= before[i] + most + 1
      {
        assert kept[j] <= kept[i] + most + 1;
      }
    }
  }

  /** For a signal with any number of interior runs deleted, of any length: the counts are exact, gaps the number of
      runs and droppedFrames the number of frames, if and only if no run is longer than 32766 frames. */
  lemma CountsAreExactIffRunsAreShort(column: seq<i32>, z: nat, kept: seq<nat>, channel: nat)
    requires channel < 16 && Carries(column, z, kept, channel) && Rising(kept)
    ensures var r := Analyse(column, channel);
            r.gaps == Runs(kept) && r.droppedFrames == Missing(kept) <==> Kept(kept, 32766)
  {
    hide Carries, Tallied, Runs, Missing, Analyse;
    DeletedRunsAreTallied(column, z, kept, channel);
    TalliedIsExact(kept);
  }

  /** And then nothing else is reported. */
  lemma DeletedRunsAreCountedExactly(column: seq<i32>, z: nat, kept: seq<nat>, channel: nat)
    requires channel < 16 && Carries(column, z, kept, channel) && Kept(kept, 32766)
    ensures var r := Analyse(column, channel);
            && r.gaps == Runs(kept) && r.droppedFrames == Missing(kept)
            && r.repeats + r.backwards + r.wrongChannel + r.notEncoded == 0
            && r.framesChecked == |kept| && r.started == (kept != [])
            && |r.events| == if Runs(kept) < MAX_EVENTS then Runs(kept) else MAX_EVENTS
  {
    assert Rising(kept);
    hide Carries, Tallied, Runs, Missing, Analyse;
    DeletedRunsAreTallied(column, z, kept, channel);
    TalliedIsExact(kept);
  }

  /** Frames `start`, `start + 1`, ... */
  function Consecutive(start: nat, n: nat): seq<nat> { seq(n, j requires 0 <= j < n => start + j) }

  lemma {:induction false} NothingMissing(start: nat, n: nat)
    ensures Runs(Consecutive(start, n)) == 0 && Missing(Consecutive(start, n)) == 0
  {
    if n > 1 {
      NothingMissing(start, n - 1);
      assert Consecutive(start, n)[..n - 1] == Consecutive(start, n - 1);
    }
  }

  lemma SignalKeepsEverything(column: seq<i32>, z: nat, start: nat, channel: nat)
    requires SignalFrom(column, z, start, channel)
    ensures Carries(column, z, Consecutive(start, |column| - z), channel)
  {
    var kept := Consecutive(start, |column| - z);
    forall j | 0 <= j < |kept|
      ensures column[z + j] == Sample(channel, kept[j])
    {
      assert z <= z + j < |column|;
    }
  }

  lemma SignalIsCountedWhole(column: seq<i32>, z: nat, start: nat, channel: nat)
    requires channel < 16 && SignalFrom(column, z, start, channel)
    ensures Analyse(column, channel).Clean()
  {
    var kept := Consecutive(start, |column| - z);
    SignalKeepsEverything(column, z, start, channel);
    NothingMissing(start, |column| - z);
    assert Kept(kept, 32766);
    hide *;
    DeletedRunsAreCountedExactly(column, z, kept, channel);
  }

  /** The analyser calls a column clean exactly when it is leading silence followed by at least one sample, all of
      them the expected channel's signal at consecutive indices. */
  lemma CleanIffSignal(column: seq<i32>, want: nat)
    ensures Analyse(column, want).Clean() <==> IsSignal(column, want)
  {
    var o := ReadingsOf(column);
    if Analyse(column, want).Clean() {
      var z, start := FaultlessScan(o, |o|, want);
      assert o[z] == Coded(want, (start + (z - z)) % PERIOD);
      ReadChannel(column[z]);
      ReadsSignalIffSignal(column, z, start, want);
    }
    if IsSignal(column, want) {
      var z: nat, start: nat :| SignalFrom(column, z, start, want);
      SignalIsCountedWhole(column, z, start, want);
    }
  }

  function DeletedAt(start: nat, n: nat, run: nat, j: nat): nat { if j < n then start + j else start + run + j }

  /** The first `len` frames that survive when `run` frames are deleted after the first `n`. */
  function Deleted(start: nat, n: nat, run: nat, len: nat): (kept: seq<nat>)
    ensures |kept| == len && Rising(kept)
  {
    seq(len, j requires 0 <= j < len => DeletedAt(start, n, run, j))
  }

  lemma {:induction false} NoneDeletedTally(start: nat, n: nat, run: nat, len: nat)
    requires 1 <= n && len <= n
    ensures Tallied(Deleted(start, n, run, len)) == Tally(0, 0, 0, 0)
    decreases len
  {
    hide TakenFor, Deleted, Tallied, Rising;
    var kept := Deleted(start, n, run, len);
    if len <= 1 {
      TallyOfFew(kept);
    } else {
      var before := Deleted(start, n, run, len - 1);
      NoneDeletedTally(start, n, run, len - 1);
      LastDeleted(start, n, run, len, kept, before, 0);
      TallyOfMore(kept, before, 0);
      NothingTaken(0);
    }
  }

  lemma {:induction false} DeletedTally(start: nat, n: nat, run: nat, more: nat)
    requires n >= 1 && more >= 1
    ensures Tallied(Deleted(start, n, run, n + more)) == TakenFor(run)
    decreases more
  {
    hide TakenFor, Deleted, Tallied, Rising;
    var kept, before := Deleted(start, n, run, n + more), Deleted(start, n, run, n + more - 1);
    if more == 1 {
      NoneDeletedTally(start, n, run, n);
      LastDeleted(start, n, run, n + more, kept, before, run);
      TallyOfMore(kept, before, run);
      PlusNothing(TakenFor(run));
    } else {
      DeletedTally(start, n, run, more - 1);
      LastDeleted(start, n, run, n + more, kept, before, 0);
      TallyOfMore(kept, before, 0);
      NothingTaken(0);
      PlusNothing(TakenFor(run));
    }
  }

  lemma PlusNothing(t: Tally)
    ensures Plus(t, Tally(0, 0, 0, 0)) == t == Plus(Tally(0, 0, 0, 0), t)
  {}

  lemma LastDeleted(start: nat, n: nat, run: nat, len: nat, kept: seq<nat>, before: seq<nat>, gap: nat)
    requires n >= 1 && len > 1 && gap == if len == n + 1 then run else 0
    requires kept == Deleted(start, n, run, len) && before == Deleted(start, n, run, len - 1)
    ensures kept[..|kept| - 1] == before && kept[|kept| - 1] == kept[|kept| - 2] + 1 + gap
  {}

  lemma TallyOfFew(kept: seq<nat>)
    requires Rising(kept) && |kept| <= 1
    ensures Tallied(kept) == Tally(0, 0, 0, 0)
  {}

  lemma TallyOfMore(kept: seq<nat>, before: seq<nat>, gap: nat)
    requires Rising(kept) && Rising(before) && |kept| > 1
    requires before == kept[..|kept| - 1] && kept[|kept| - 1] == kept[|kept| - 2] + 1 + gap
    ensures Tallied(kept) == Plus(Tallied(before), TakenFor(gap))
  {
    hide TakenFor;
  }

  lemma NothingTaken(run: nat)
    requires run == 0
    ensures TakenFor(run) == Tally(0, 0, 0, 0)
  {}

  /** The limit is sharp, and it comes round again. One deleted run is reported as a gap of exactly that many frames
      if and only if it is no longer than 32766. For a longer one only the length modulo the period counts: nothing
      for a whole number of periods, a gap of the remainder up to 32766, a repeat for a remainder of a period less
      one, and a step back for those between. */
  lemma GapVerdict(column: seq<i32>, z: nat, start: nat, n: nat, run: nat, more: nat, channel: nat)
    requires channel < 16 && n >= 1 && run >= 1 && more >= 1
    requires Carries(column, z, Deleted(start, n, run, n + more), channel)
    ensures var r, m := Analyse(column, channel), run % PERIOD;
            && (r.gaps == 1 && r.droppedFrames == run <==> run <= 32766)
            && (m == 0 ==> r.Clean())
            && (1 <= m <= 32766 ==> TallyOf(r) == Tally(1, m, 0, 0))
            && (32767 <= m < PERIOD - 1 ==> TallyOf(r) == Tally(0, 0, 0, 1))
            && (m == PERIOD - 1 ==> TallyOf(r) == Tally(0, 0, 1, 0))
            && r.wrongChannel == 0 && r.notEncoded == 0
  {
    hide Carries, Analyse, Deleted, Rising, Tallied;
    DeletedTally(start, n, run, more);
    DeletedRunsAreTallied(column, z, Deleted(start, n, run, n + more), channel);
    TakenForLess(run);
  }

  // ---- the loops ------------------------------------------------------------------------------------------------

  /** One column of a frame-major recording. */
  function Column(frames: seq<i32>, frameCount: nat, channels: nat, column: nat): seq<i32>
    requires column < channels && frameCount * channels <= |frames|
  {
    seq(frameCount, f requires 0 <= f < frameCount => Picked(frames, frameCount, channels, column, f))
  }

  function Picked(frames: seq<i32>, frameCount: nat, channels: nat, column: nat, f: nat): i32
    requires column < channels && frameCount * channels <= |frames| && f < frameCount
  {
    InBounds(frameCount, channels, column, f);
    frames[f * channels + column]
  }

  /** The verdict on one step between valid samples. */
  method Compare(report: Report, prevIndex: nat, ix: nat, expectChannel: nat, f: nat, ch: nat) returns (r: Report)
    requires prevIndex < PERIOD && ix < PERIOD
    ensures r == Judge(report, prevIndex, ix, expectChannel, f, ch)
  {
    r := report;
    var next := (prevIndex + 1) % PERIOD;
    if ix != next {
      var d: int := ix - prevIndex;
      if d < 0 { d := d + PERIOD; }
      if d == 0 {
        r := Noted(r.(repeats := r.repeats + 1), Event(Repeat, expectChannel, f, 0, ch));
      } else if 0 < d < PERIOD / 2 {
        r := r.(gaps := r.gaps + 1, droppedFrames := r.droppedFrames + (d - 1));
        r := Noted(r, Event(Gap, expectChannel, f, d, ch));
      } else {
        r := Noted(r.(backwards := r.backwards + 1), Event(Backwards, expectChannel, f, d - PERIOD, ch));
      }
    }
  }

  /** The loop body: what one sample adds to the report. */
  method TakeSample(report: Report, have0: bool, prev0: nat, s: i32, f: nat, expectChannel: nat)
    returns (r: Report, have: bool, prevIndex: nat)
    requires prev0 < PERIOD
    ensures prevIndex < PERIOD && Scan(r, have, prevIndex)
        == Step(Scan(report, have0, prev0), Read(s), f, expectChannel)
  {
    r, have, prevIndex := report, have0, prev0;
    if !have && s == 0 { return; }
    var ch, ix := ChannelOf(s), IndexOf(s);
    if !Valid(s) {
      r := Noted(r.(notEncoded := r.notEncoded + 1), Event(NotEncoded, expectChannel, f, 0, ch));
      return;
    }
    if ch != expectChannel {
      r := Noted(r.(wrongChannel := r.wrongChannel + 1), Event(WrongChannel, expectChannel, f, 0, ch));
    }
    if !have {
      have, prevIndex := true, ix;
      r := r.(started := true, framesChecked := r.framesChecked + 1);
      return;
    }
    r := Compare(r, prevIndex, ix, expectChannel, f, ch);
    prevIndex := ix;
    r := r.(framesChecked := r.framesChecked + 1);
  }

  method AnalyseRecording(frames: seq<i32>, frameCount: nat, channels: nat, column: nat, expectChannel: nat)
    returns (r: Report)
    requires column < channels && frameCount * channels <= |frames|
    ensures r == Analyse(Column(frames, frameCount, channels, column), expectChannel)
    ensures r.Clean() <==> IsSignal(Column(frames, frameCount, channels, column), expectChannel)
  {
    ghost var col := Column(frames, frameCount, channels, column);
    ghost var o := ReadingsOf(col);
    CleanIffSignal(col, expectChannel);
    r := EMPTY;
    var have, prevIndex: nat := false, 0;
    for f := 0 to frameCount
      invariant prevIndex < PERIOD && Scan(r, have, prevIndex) == ScanUpTo(o, f, expectChannel)
    {
      InBounds(frameCount, channels, column, f);
      var s := frames[f * channels + column];
      assert s == col[f] && o[f] == Read(s);
      r, have, prevIndex := TakeSample(r, have, prevIndex, s, f, expectChannel);
    }
  }

  /** Frame-major: frame after frame, channel after channel. */
  function Generated(channels: nat, frames: nat): (v: seq<i32>)
  {
    if frames == 0 then [] else Generated(channels, frames - 1) + GeneratedFrame(channels, frames - 1)
  }

  function GeneratedFrame(channels: nat, f: nat): (v: seq<i32>)
    ensures |v| == channels
  {
    seq(channels, c requires 0 <= c < channels => Sample(c, f))
  }

  method Generate(channels: nat, frames: nat) returns (v: seq<i32>)
    ensures v == Generated(channels, frames)
  {
    v := [];
    for f := 0 to frames
      invariant v == Generated(channels, f)
    {
      for c := 0 to channels
        invariant v == Generated(channels, f) + GeneratedFrame(channels, f)[..c]
      {
        v := v + [Sample(c, f)];
      }
    }
  }

  lemma {:induction false} GeneratedLength(channels: nat, frames: nat)
    ensures |Generated(channels, frames)| == frames * channels
  {
    if frames > 0 { GeneratedLength(channels, frames - 1); }
  }

  lemma {:induction false} GeneratedAt(channels: nat, frames: nat, f: nat, c: nat)
    requires c < channels && f < frames
    ensures var v, start := Generated(channels, frames), |Generated(channels, f)|;
            start + c < |v| && v[start + c] == Sample(c, f)
    decreases frames
  {
    hide Sample;
    var w := Generated(channels, frames - 1);
    assert Generated(channels, frames) == w + GeneratedFrame(channels, frames - 1);
    if f < frames - 1 { GeneratedAt(channels, frames - 1, f, c); }
  }

  /** Every column of a generated signal is its channel's signal from frame 0. */
  lemma GeneratedColumnIsSignal(channels: nat, frames: nat, c: nat)
    requires c < channels <= 16 && frames > 0
    ensures |Generated(channels, frames)| == frames * channels
    ensures IsSignal(Column(Generated(channels, frames), frames, channels, c), c)
  {
    GeneratedLength(channels, frames);
    var col := Column(Generated(channels, frames), frames, channels, c);
    hide Sample, Picked, Generated;
    forall f | 0 <= f < frames
      ensures col[f] == Sample(c, 0 + (f - 0))
    {
      GeneratedPicked(channels, frames, c, f, Generated(channels, frames));
    }
    assert SignalFrom(col, 0, 0, c);
  }

  lemma GeneratedPicked(channels: nat, frames: nat, c: nat, f: nat, v: seq<i32>)
    requires c < channels && f < frames && v == Generated(channels, frames) && frames * channels <= |v|
    ensures Picked(v, frames, channels, c, f) == Sample(c, f)
  {
    hide Sample, Generated;
    GeneratedAt(channels, frames, f, c);
    GeneratedLength(channels, f);
  }
}
