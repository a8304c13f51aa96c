/** What the analyser's counters and events say of any recording (include/uf/protocol/testsig.hpp): which samples they
    count, and that every event in the list is true of the sample it points at. */
module TestSignalFaults {
  import opened TestSignal

  // ---- the counters ---------------------------------------------------------------------------------------------

  function One(b: bool): nat { if b then 1 else 0 }

  /** Samples that carry a coordinate at all. */
  function Coordinates(o: Readings, n: nat): nat
    requires n <= |o|
  {
    if n == 0 then 0 else Coordinates(o, n - 1) + One(o[n - 1].Coded?)
  }

  /** Those of another channel. */
  function Strangers(o: Readings, n: nat, want: nat): nat
    requires n <= |o|
  {
    if n == 0 then 0 else Strangers(o, n - 1, want) + One(o[n - 1].Coded? && o[n - 1].channel != want)
  }

  /** Samples that carry none: altered ones anywhere, and silence once the signal has begun. */
  function Blanks(o: Readings, n: nat): nat
    requires n <= |o|
  {
    if n == 0 then 0
    else Blanks(o, n - 1) + One(o[n - 1].Altered? || (o[n - 1].Silence? && Coordinates(o, n - 1) > 0))
  }

  /** Of any recording: framesChecked counts the samples that carry a coordinate, wrongChannel those of another channel,
      and notEncoded those that carry none; it has started if there is one at all. */
  lemma {:induction false} CountersCount(o: Readings, n: nat, want: nat)
    requires n <= |o|
    ensures var a := ScanUpTo(o, n, want);
            && a.report.framesChecked == Coordinates(o, n) && a.report.wrongChannel == Strangers(o, n, want)
            && a.report.notEncoded == Blanks(o, n) && a.have == a.report.started == (Coordinates(o, n) > 0)
  {
    if n > 0 { CountersCount(o, n - 1, want); }
  }

  /** So of the analyser. */
  lemma AnalyserCounts(column: seq<i32>, want: nat)
    ensures var r, o := Analyse(column, want), ReadingsOf(column);
            && r.framesChecked == Coordinates(o, |o|) && r.wrongChannel == Strangers(o, |o|, want)
            && r.notEncoded == Blanks(o, |o|) && r.started == (Coordinates(o, |o|) > 0)
  {
    CountersCount(ReadingsOf(column), |column|, want);
  }

  // ---- the events -----------------------------------------------------------------------------------------------

  /** `j` is the last sample before `f` that carries a coordinate. */
  ghost predicate LastBefore(o: Readings, j: nat, f: nat) {
    j < f <= |o| && o[j].Coded? && forall i :: j < i < f ==> !o[i].Coded?
  }

  /** An index step of `delta`, around the wrap. */
  predicate Steps(from: nat, to: nat, delta: int) { to == (from + delta) % PERIOD }

  /** What an event claims is so. */
  ghost predicate True(e: Event, o: Readings, want: nat) {
    && e.channel == want && e.frame < |o|
    && var s := o[e.frame];
       match e.fault
       case NotEncoded =>
         e.delta == 0 && !s.Coded? && e.sawChannel == if s.Altered? then s.seen else 0
       case WrongChannel => e.delta == 0 && s.Coded? && s.channel == e.sawChannel != want
       case Repeat => e.delta == 0 && Jumped(e, o)
       case Gap => 2 <= e.delta < PERIOD / 2 && Jumped(e, o)
       case Backwards => -(PERIOD / 2) <= e.delta < 0 && Jumped(e, o)
  }

  /** The sample stepped by the event's delta from the last coordinate before it. */
  ghost predicate Jumped(e: Event, o: Readings)
    requires e.frame < |o|
  {
    && o[e.frame].Coded? && o[e.frame].channel == e.sawChannel
    && exists j: nat :: LastBefore(o, j, e.frame) && Steps(o[j].index, o[e.frame].index, e.delta)
  }

  ghost predicate AllTrue(events: seq<Event>, o: Readings, want: nat) {
    forall k :: 0 <= k < |events| ==> True(events[k], o, want)
  }

  lemma NotedTrue(r: Report, e: Event, o: Readings, want: nat)
    requires AllTrue(r.events, o, want) && True(e, o, want)
    ensures AllTrue(Noted(r, e).events, o, want)
  {}

  lemma ForwardSteps(prev: nat, ix: nat)
    requires prev < PERIOD && ix < PERIOD
    ensures Steps(prev, ix, Forward(prev, ix)) && Steps(prev, ix, Forward(prev, ix) - PERIOD)
    ensures 0 <= Forward(prev, ix) < PERIOD && (Forward(prev, ix) == 1 ==> ix == (prev + 1) % PERIOD)
  {
    var d := Forward(prev, ix);
    assert prev + d == ix || prev + d == ix + PERIOD;
  }

  lemma JudgedTrue(r: Report, j: nat, f: nat, want: nat, o: Readings)
    requires AllTrue(r.events, o, want) && LastBefore(o, j, f) && f < |o| && o[f].Coded?
    ensures AllTrue(Judge(r, o[j].index, o[f].index, want, f, o[f].channel).events, o, want)
  {
    var prev, ix, ch := o[j].index, o[f].index, o[f].channel;
    ForwardSteps(prev, ix);
    if ix != (prev + 1) % PERIOD {
      var d := Forward(prev, ix);
      var e := if d == 0 then Event(Repeat, want, f, 0, ch)
               else if d < PERIOD / 2 then Event(Gap, want, f, d, ch) else Event(Backwards, want, f, d - PERIOD, ch);
      assert LastBefore(o, j, e.frame) && Steps(o[j].index, o[e.frame].index, e.delta);
      assert True(e, o, want);
      NotedTrue(r, e, o, want);
    }
  }

  /** The scan knows the last coordinate. */
  ghost predicate Remembers(a: Scan, o: Readings, n: nat, j: nat) {
    a.have ==> LastBefore(o, j, n) && a.prevIndex == o[j].index
  }

  /** Every event in the list is true, whatever was recorded. */
  lemma {:induction false} EventsAreTrue(o: Readings, n: nat, want: nat) returns (j: nat)
    requires n <= |o|
    ensures var a := ScanUpTo(o, n, want);
            && AllTrue(a.report.events, o, want) && Remembers(a, o, n, j)
            && (!a.have ==> forall i :: 0 <= i < n ==> !o[i].Coded?)
  {
    j := 0;
    if n > 0 {
      var a, s, f := ScanUpTo(o, n - 1, want), o[n - 1], n - 1;
      var before := EventsAreTrue(o, n - 1, want);
      j := if s.Coded? then f else before;
      StepTrue(a, o, f, want, before);
    }
  }

  lemma StepTrue(a: Scan, o: Readings, f: nat, want: nat, j: nat)
    requires f < |o| && a.prevIndex < PERIOD && AllTrue(a.report.events, o, want) && Remembers(a, o, f, j)
    ensures AllTrue(Step(a, o[f], f, want).report.events, o, want)
  {
    var s, r := o[f], a.report;
    if s.Coded? {
      var e := Event(WrongChannel, want, f, 0, s.channel);
      var r1 := if s.channel != want then Noted(r.(wrongChannel := r.wrongChannel + 1), e) else r;
      if s.channel != want { NotedTrue(r.(wrongChannel := r.wrongChannel + 1), e, o, want); }
      if a.have { JudgedTrue(r1, j, f, want, o); }
    } else {
      var e := Event(NotEncoded, want, f, 0, if s.Altered? then s.seen else 0);
      NotedTrue(r.(notEncoded := r.notEncoded + 1), e, o, want);
    }
  }

  // ---- counters and events together -----------------------------------------------------------------------------

  datatype Counts = Counts(gaps: nat, repeats: nat, backwards: nat, wrongChannel: nat, notEncoded: nat, dropped: int)

  /** What one event stands for; a gap of `delta` lacks `delta - 1` frames. */
  function Worth(e: Event): Counts {
    match e.fault
    case Gap => Counts(1, 0, 0, 0, 0, e.delta - 1)
    case Repeat => Counts(0, 1, 0, 0, 0, 0)
    case Backwards => Counts(0, 0, 1, 0, 0, 0)
    case WrongChannel => Counts(0, 0, 0, 1, 0, 0)
    case NotEncoded => Counts(0, 0, 0, 0, 1, 0)
  }

  function Sum(a: Counts, b: Counts): Counts {
    Counts(a.gaps + b.gaps, a.repeats + b.repeats, a.backwards + b.backwards, a.wrongChannel + b.wrongChannel,
           a.notEncoded + b.notEncoded, a.dropped + b.dropped)
  }

  function WorthAll(events: seq<Event>): Counts {
    if events == [] then Counts(0, 0, 0, 0, 0, 0)
    else Sum(WorthAll(events[..|events| - 1]), Worth(events[|events| - 1]))
  }

  function CountsOf(r: Report): Counts {
    Counts(r.gaps, r.repeats, r.backwards, r.wrongChannel, r.notEncoded, r.droppedFrames)
  }

  /** The counters are the list's, one event for each fault. */
  ghost predicate Listed(r: Report) { |r.events| == Faults(r) && CountsOf(r) == WorthAll(r.events) }

  /** The counter an event goes with, moved on. */
  function Bumped(r: Report, e: Event): Report
    requires e.fault == Gap ==> e.delta >= 1
  {
    match e.fault
    case Gap => r.(gaps := r.gaps + 1, droppedFrames := r.droppedFrames + (e.delta - 1))
    case Repeat => r.(repeats := r.repeats + 1)
    case Backwards => r.(backwards := r.backwards + 1)
    case WrongChannel => r.(wrongChannel := r.wrongChannel + 1)
    case NotEncoded => r.(notEncoded := r.notEncoded + 1)
  }

  lemma BumpedOnce(r: Report, e: Event, q: Report)
    requires (e.fault == Gap ==> e.delta >= 1) && |r.events| < MAX_EVENTS && q == Noted(Bumped(r, e), e)
    ensures q.events == r.events + [e] && Faults(q) == Faults(r) + 1 && CountsOf(q) == Sum(CountsOf(r), Worth(e))
  {}

  lemma BumpedStaysListed(r: Report, e: Event)
    requires Listed(r) && Faults(r) < MAX_EVENTS && (e.fault == Gap ==> e.delta >= 1)
    ensures Listed(Noted(Bumped(r, e), e)) && Faults(Noted(Bumped(r, e), e)) == Faults(r) + 1
  {
    var q := Noted(Bumped(r, e), e);
    BumpedOnce(r, e, q);
    assert q.events[..|q.events| - 1] == r.events && q.events[|q.events| - 1] == e;
    hide Noted, Bumped, Faults, CountsOf, Sum, Worth;
    assert WorthAll(q.events) == Sum(WorthAll(r.events), Worth(e));
  }

  /** What a step that finds a fault does to the report: one or two events, each with its counter. */
  lemma StepListed(a: Scan, s: Reading, f: nat, want: nat)
    requires a.prevIndex < PERIOD && (s.Coded? ==> s.index < PERIOD)
    requires Listed(a.report) && Faults(Step(a, s, f, want).report) <= MAX_EVENTS
    ensures Listed(Step(a, s, f, want).report)
  {
    hide Listed;
    match s
    case Silence => if a.have { BlankListed(a.report, Event(NotEncoded, want, f, 0, 0)); }
    case Altered(seen) => BlankListed(a.report, Event(NotEncoded, want, f, 0, seen));
    case Coded(ch, ix) => CodedListed(a, ch, ix, f, want);
  }

  lemma BlankListed(r: Report, e: Event)
    requires Listed(r) && e.fault == NotEncoded && Faults(r) < MAX_EVENTS
    ensures Listed(Noted(r.(notEncoded := r.notEncoded + 1), e))
  {
    BumpedStaysListed(r, e);
  }

  lemma CodedListed(a: Scan, ch: nat, ix: nat, f: nat, want: nat)
    requires a.prevIndex < PERIOD && ix < PERIOD && Listed(a.report)
    requires Faults(Step(a, Coded(ch, ix), f, want).report) <= MAX_EVENTS
    ensures Listed(Step(a, Coded(ch, ix), f, want).report)
  {
    hide Listed, Judge;
    var r, e := a.report, Event(WrongChannel, want, f, 0, ch);
    var r1 := if ch != want then Noted(Bumped(r, e), e) else r;
    JudgeOnlyAdds(r1, a.prevIndex, ix, want, f, ch);
    if ch != want { BumpedStaysListed(r, e); }
    if a.have { JudgeListed(r1, a.prevIndex, ix, want, f, ch); }
    var b := Step(a, Coded(ch, ix), f, want);
    var j := if a.have then Judge(r1, a.prevIndex, ix, want, f, ch) else r1;
    assert b.report == j.(started := b.report.started, framesChecked := b.report.framesChecked);
    ListedAlike(j, b.report);
  }

  lemma ListedAlike(r: Report, q: Report)
    requires Listed(r) && q == r.(started := q.started, framesChecked := q.framesChecked)
    ensures Listed(q)
  {
    hide WorthAll;
  }

  lemma JudgeOnlyAdds(r: Report, prev: nat, ix: nat, want: nat, f: nat, ch: nat)
    requires prev < PERIOD && ix < PERIOD
    ensures Faults(Judge(r, prev, ix, want, f, ch)) >= Faults(r)
  {}

  lemma JudgeListed(r: Report, prev: nat, ix: nat, want: nat, f: nat, ch: nat)
    requires prev < PERIOD && ix < PERIOD && Listed(r) && Faults(Judge(r, prev, ix, want, f, ch)) <= MAX_EVENTS
    ensures Listed(Judge(r, prev, ix, want, f, ch))
  {
    hide Listed;
    if ix != (prev + 1) % PERIOD {
      var d := Forward(prev, ix);
      ForwardSteps(prev, ix);
      var e := if d == 0 then Event(Repeat, want, f, 0, ch)
               else if d < PERIOD / 2 then Event(Gap, want, f, d, ch) else Event(Backwards, want, f, d - PERIOD, ch);
      assert Judge(r, prev, ix, want, f, ch) == Noted(Bumped(r, e), e);
      BumpedStaysListed(r, e);
    }
  }

  lemma NothingListed()
    ensures Listed(EMPTY)
  {}

  /** While there are no more faults than the list holds, every counter is the number of its events, and droppedFrames
      what the gaps listed lack. */
  lemma {:induction false} CountersAreTheList(o: Readings, n: nat, want: nat)
    requires n <= |o| && Faults(ScanUpTo(o, n, want).report) <= MAX_EVENTS
    ensures Listed(ScanUpTo(o, n, want).report)
  {
    hide Listed, Step, Faults;
    if n == 0 {
      NothingListed();
    } else {
      FaultlessStep(ScanUpTo(o, n - 1, want), o[n - 1], n - 1, want);
      CountersAreTheList(o, n - 1, want);
      StepListed(ScanUpTo(o, n - 1, want), o[n - 1], n - 1, want);
    }
  }

  /** Of any recording: each event is true of it, and up to 64 faults the counters are exactly the events. */
  lemma ReportIsTrue(column: seq<i32>, want: nat)
    ensures var r, o := Analyse(column, want), ReadingsOf(column);
            AllTrue(r.events, o, want) && (Faults(r) <= MAX_EVENTS ==> Listed(r))
  {
    var o := ReadingsOf(column);
    var j := EventsAreTrue(o, |o|, want);
    if Faults(Analyse(column, want)) <= MAX_EVENTS { CountersAreTheList(o, |o|, want); }
  }
}
