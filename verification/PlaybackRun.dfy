/** The playback path end to end: the plug-in's output callbacks (platform/coreaudio/UFAudioDriver.cpp) running
    against the transmit fill (platform/shared/uf_tx_fill.hpp).

    A callback is not one step here. Its flushes move one staged frame at a time, and the fill may take frames, or
    begin ticks and packets, between any two of them. Every run is shown to be a run of the pipeline, so what holds
    of the pipeline holds from the streams' samples to the packets; and with nothing in between, the steps of a
    callback come to what PlaybackObjects says. */
module PlaybackRun {
  import P = FramePipeline
  import opened PlaybackObjects

  /** What the callback does when the flush it is in has ended: open the cycle this call belongs to, or close the
      complete one. */
  datatype After = Open(c: Contribution, sampleTime: int) | Close

  datatype Phase = Idle | Flushing(f: nat, after: After)

  /** How a stage came about: what it was when the cycle at `time` opened, how many frames that was for, and the streams
      that have written into it since, in order. Between cycles nothing has `begun`. */
  datatype Assembly = Assembly(before: Stage, n: nat, cs: seq<Contribution>, begun: bool, time: int)

  /** One flush: the stage as it was, how many frames it was to publish, how many the ring took, and whether it is
      the flush of a cycle that is complete. */
  datatype Batch = Batch(stage: Stage, frames: nat, taken: nat, cycle: Assembly, complete: bool)

  datatype Sys = Sys(h: Handler, p: P.Pipe, phase: Phase, cycle: Assembly, flushes: seq<Batch>)

  datatype Step = Call(c: Contribution, sampleTime: int) | Turn | BeginTick | BeginPacket | TakeFrame | ResetFill

  ghost predicate Ok(s: Sys) {
    && HandlerOk(s.h) && s.h.writer == s.p.writer
    && (s.phase.Flushing? ==>
          && s.phase.f <= s.h.outFrames && s.flushes != []
          && (s.phase.after.Open? ==> Usable(s.phase.after.c)))
  }

  function Initial(channels: nat, slots: P.SlotArray, stage: Stage): (s: Sys)
    ensures Ok(s)
  {
    Sys(Handler(stage, P.Writer(false, 0), -1, 0, 0), P.Initial(channels, slots), Idle,
        Assembly(stage, 0, [], false, -1), [])
  }

  function StartFlush(s: Sys, after: After): Sys {
    s.(phase := Flushing(0, after), 
        flushes := s.flushes + [Batch(s.h.stage, s.h.outFrames, 0, s.cycle, after.Close?)])
  }

  /** The stream's columns go into the stage; the last stream of the cycle publishes it. */
  function AddColumns(s: Sys, c: Contribution, count: nat): Sys
    requires Usable(c)
  {
    var t := s.(h := s.h.(stage := WithColumns(s.h.stage, c), seen := s.h.seen + 1),
                cycle := s.cycle.(cs := s.cycle.cs + [c]));
    if t.h.seen >= count then StartFlush(t, Close) else t.(phase := Idle)
  }

  function Opening(s: Sys, c: Contribution, t: int): Sys
    requires Usable(c)
  {
    var n := FramesIn(c);
    s.(h := s.h.(stage := Silenced(s.h.stage, n), outCycle := t, outFrames := n, seen := 0),
       cycle := Assembly(s.h.stage, n, [], true, t))
  }

  function EndFlush(s: Sys, after: After, count: nat): Sys
    requires after.Open? ==> Usable(after.c)
  {
    match after
    case Close =>
      s.(h := s.h.(outFrames := 0, outCycle := -1), phase := Idle, cycle := Assembly(s.h.stage, 0, [], false, -1))
    case Open(c, t) => AddColumns(Opening(s, c, t), c, count)
  }

  /** One staged frame offered to the ring. */
  function Offer(s: Sys, f: nat): (t: Sys)
    requires Ok(s) && f < s.h.outFrames
    ensures t == s.(p := P.Next(s.p, P.PushFrame(StagedFrame(s.h.stage, f))), h := s.h.(writer := t.p.writer)) && Ok(t)
  {
    var p := P.Next(s.p, P.PushFrame(StagedFrame(s.h.stage, f)));
    s.(p := p, h := s.h.(writer := p.writer))
  }

  function TakenOneMore(s: Sys): Sys
    requires s.flushes != []
  {
    var n := |s.flushes| - 1;
    s.(flushes := s.flushes[n := s.flushes[n].(taken := s.flushes[n].taken + 1)])
  }

  /** One turn of the flush loop: a frame that goes in, the refusal that ends it, or the end of the stage. */
  function TurnOne(s: Sys, count: nat): Sys
    requires Ok(s)
  {
    match s.phase
    case Idle => s
    case Flushing(f, after) =>
      if f >= s.h.outFrames then EndFlush(s, after, count)
      else
        var t := Offer(s, f);
        if P.Accepts(s.p.ring, s.h.writer)
        then TakenOneMore(t.(phase := Flushing(f + 1, after)))
        else EndFlush(t, after, count)
  }

  function Next(s: Sys, a: Step, count: nat): (t: Sys)
    requires Ok(s)
    ensures Ok(t)
  {
    match a
    case Call(c, t) =>
      if !s.phase.Idle? || !Usable(c) then s
      else if t != s.h.outCycle then StartFlush(s, Open(c, t))
      else AddColumns(s, c, count)
    case Turn => TurnOne(s, count)
    case BeginTick => s.(p := P.Next(s.p, P.BeginTick))
    case BeginPacket => s.(p := P.Next(s.p, P.BeginPacket))
    case TakeFrame => s.(p := P.Next(s.p, P.TakeFrame))
    case ResetFill => s.(p := P.Next(s.p, P.ResetFill))
  }

  function Run(s: Sys, steps: seq<Step>, count: nat): (t: Sys)
    requires Ok(s)
    ensures Ok(t)
    decreases |steps|
  {
    if steps == [] then s else Next(Run(s, steps[..|steps| - 1], count), steps[|steps| - 1], count)
  }

  // ---- every run is a run of the pipeline -----------------------------------------------------------------------

  /** The frames the ring took from one flush: the first ones of the stage. */
  function TakenOf(x: Batch): seq<P.Frame>
    requires x.taken <= x.frames <= MAX_CYCLE_FRAMES
  {
    seq(x.taken, f requires 0 <= f < x.taken => StagedFrame(x.stage, f))
  }

  ghost predicate AllOk(flushes: seq<Batch>) {
    forall i :: 0 <= i < |flushes| ==> flushes[i].taken <= flushes[i].frames <= MAX_CYCLE_FRAMES
  }

  function AllTaken(flushes: seq<Batch>): seq<P.Frame>
    requires AllOk(flushes)
  {
    if flushes == [] then [] else AllTaken(flushes[..|flushes| - 1]) + TakenOf(flushes[|flushes| - 1])
  }

  ghost predicate Current(b: Batch, h: Handler, f: nat) {
    b.stage == h.stage && b.frames == h.outFrames && b.taken == f
  }

  /** What the ring has accepted is what the flushes so far gave it, the last one as far as it has got. */
  ghost predicate Recorded(s: Sys) {
    && AllOk(s.flushes) && s.p.accepted == AllTaken(s.flushes)
    && (s.phase.Flushing? ==>
          && s.flushes != []
          && Current(s.flushes[|s.flushes| - 1], s.h, s.phase.f))
  }

  lemma StartFlushRecords(s: Sys, after: After)
    requires Ok(s) && AllOk(s.flushes) && s.p.accepted == AllTaken(s.flushes)
    ensures Recorded(StartFlush(s, after))
  {
    var t := StartFlush(s, after);
    assert t.flushes[..|t.flushes| - 1] == s.flushes;
    assert TakenOf(t.flushes[|s.flushes|]) == [];
    assert AllTaken(t.flushes) == AllTaken(s.flushes) + [];
  }

  lemma AddColumnsRecords(s: Sys, c: Contribution, count: nat)
    requires Ok(s) && AllOk(s.flushes) && s.p.accepted == AllTaken(s.flushes) && Usable(c)
    ensures Recorded(AddColumns(s, c, count))
  {
    var t := s.(h := s.h.(stage := WithColumns(s.h.stage, c), seen := s.h.seen + 1),
                cycle := s.cycle.(cs := s.cycle.cs + [c]));
    if t.h.seen >= count { StartFlushRecords(t.(phase := Idle), Close); }
  }

  lemma EndFlushRecords(s: Sys, after: After, count: nat)
    requires Ok(s) && AllOk(s.flushes) && s.p.accepted == AllTaken(s.flushes) && (after.Open? ==> Usable(after.c))
    ensures Recorded(EndFlush(s, after, count))
  {
    match after
    case Close =>
    case Open(c, t) =>
      AddColumnsRecords(Opening(s, c, t).(phase := Idle), c, count);
  }

  lemma TakenOneMoreRecords(s: Sys, f: nat, frame: P.Frame)
    requires s.flushes != [] && AllOk(s.flushes) && f < s.h.outFrames <= MAX_CYCLE_FRAMES
    requires Current(s.flushes[|s.flushes| - 1], s.h, f) && frame == StagedFrame(s.h.stage, f)
    ensures AllOk(TakenOneMore(s).flushes) && AllTaken(TakenOneMore(s).flushes) == AllTaken(s.flushes) + [frame]
  {
    var n, t := |s.flushes| - 1, TakenOneMore(s);
    assert t.flushes[..n] == s.flushes[..n];
    assert TakenOf(t.flushes[n]) == TakenOf(s.flushes[n]) + [frame];
  }

  lemma TurnRecords(s: Sys, count: nat, f: nat, after: After)
    requires Ok(s) && Recorded(s) && s.phase == Flushing(f, after)
    ensures Recorded(TurnOne(s, count))
  {
    hide Offer, P.Next, AllTaken;
    if f >= s.h.outFrames {
      EndFlushRecords(s, after, count);
    } else {
      OfferAccepts(s, f);
      var t := Offer(s, f);
      if P.Accepts(s.p.ring, s.h.writer) {
        TakenOneMoreRecords(t.(phase := Flushing(f + 1, after)), f, StagedFrame(s.h.stage, f));
      } else {
        EndFlushRecords(t, after, count);
      }
    }
  }

  lemma OfferAccepts(s: Sys, f: nat)
    requires Ok(s) && f < s.h.outFrames
    ensures var t := Offer(s, f);
            && t.h == s.h.(writer := t.h.writer) && t.phase == s.phase && t.flushes == s.flushes
            && t.p.accepted == if P.Accepts(s.p.ring, s.h.writer) then s.p.accepted + [StagedFrame(s.h.stage, f)]
                               else s.p.accepted
  {}

  lemma NextRecords(s: Sys, a: Step, count: nat)
    requires Ok(s) && Recorded(s)
    ensures Recorded(Next(s, a, count))
  {
    match a
    case Call(c, t) =>
      if s.phase.Idle? && Usable(c) {
        if t != s.h.outCycle { StartFlushRecords(s, Open(c, t)); } else { AddColumnsRecords(s, c, count); }
      }
    case Turn =>
      if s.phase.Flushing? { TurnRecords(s, count, s.phase.f, s.phase.after); }
    case _ =>
  }

  /** The step of the pipeline a step of the system is, if any. */
  function PipeStep(s: Sys, a: Step): seq<P.Step>
    requires Ok(s)
  {
    match a
    case Call(_, _) => []
    case Turn =>
      if s.phase.Flushing? && s.phase.f < s.h.outFrames then [P.PushFrame(StagedFrame(s.h.stage, s.phase.f))] else []
    case BeginTick => [P.BeginTick]
    case BeginPacket => [P.BeginPacket]
    case TakeFrame => [P.TakeFrame]
    case ResetFill => [P.ResetFill]
  }

  lemma NextIsAPipeStep(s: Sys, a: Step, count: nat)
    requires Ok(s)
    ensures Next(s, a, count).p == if PipeStep(s, a) == [] then s.p else P.Next(s.p, PipeStep(s, a)[0])
  {}

  /** For any cycles, streams and schedule: the run is a run of the pipeline, and what the pipeline accepted are the
      frames of each flushed stage, in order, up to that flush's refusal. */
  lemma {:induction false} EveryRunIsAPipeline(channels: nat, slots: P.SlotArray, stage: Stage, steps: seq<Step>,
      count: nat)
    returns (pipe: seq<P.Step>)
    ensures var s := Run(Initial(channels, slots, stage), steps, count);
            s.p == P.Run(P.Initial(channels, slots), pipe) && Recorded(s)
    ensures (forall k :: 0 <= k < |steps| ==> !steps[k].ResetFill?) ==>
              forall k :: 0 <= k < |pipe| ==> !pipe[k].ResetFill?
    decreases |steps|
  {
    pipe := [];
    if steps != [] {
      var before, a := steps[..|steps| - 1], steps[|steps| - 1];
      var s := Run(Initial(channels, slots, stage), before, count);
      pipe := EveryRunIsAPipeline(channels, slots, stage, before, count);
      NextRecords(s, a, count);
      NextIsAPipeStep(s, a, count);
      hide Next, P.Next;
      if PipeStep(s, a) != [] {
        P.RunLast(P.Initial(channels, slots), pipe, PipeStep(s, a)[0]);
        pipe := pipe + [PipeStep(s, a)[0]];
      }
    }
  }

  // ---- every stage is its cycle's streams, whatever the fill does meanwhile -------------------------------------

  ghost predicate AllUsable(cs: seq<Contribution>) { forall c :: c in cs ==> Usable(c) }

  /** The stage is what it was before the cycle, silenced, with the columns of the cycle's streams written in. */
  ghost predicate IsAssembled(stage: Stage, x: Assembly) {
    AllUsable(x.cs) && stage == Assembled(Silenced(x.before, x.n), x.cs)
  }

  /** A flush publishes such a stage, and that of a complete cycle has every stream's columns. */
  ghost predicate BatchOk(b: Batch, count: nat) {
    && IsAssembled(b.stage, b.cycle) && b.frames == b.cycle.n
    && (b.complete && b.cycle.begun ==> |b.cycle.cs| == if count == 0 then 1 else count)
  }

  ghost predicate AllAssembled(s: Sys, count: nat) {
    && IsAssembled(s.h.stage, s.cycle) && s.h.outFrames == s.cycle.n
    && (s.cycle.begun ==> s.h.outCycle == s.cycle.time && s.h.seen == |s.cycle.cs|)
    && (s.cycle.begun && !(s.phase.Flushing? && s.phase.after.Close?) ==> |s.cycle.cs| < count)
    && forall i :: 0 <= i < |s.flushes| ==> BatchOk(s.flushes[i], count)
  }

  lemma NothingSilenced(stage: Stage)
    ensures Silenced(stage, 0) == stage
  {}

  lemma AddColumnsAssembles(s: Sys, c: Contribution, count: nat)
    requires Usable(c) && IsAssembled(s.h.stage, s.cycle) && s.h.outFrames == s.cycle.n
    requires s.cycle.begun ==> s.h.outCycle == s.cycle.time && s.h.seen == |s.cycle.cs|
    requires s.cycle.begun ==> |s.cycle.cs| < count || s.cycle.cs == []
    requires forall i :: 0 <= i < |s.flushes| ==> BatchOk(s.flushes[i], count)
    ensures AllAssembled(AddColumns(s, c, count), count)
  {
    AssembledNext(Silenced(s.cycle.before, s.cycle.n), s.cycle.cs, c);
    hide Assembled, WithColumns, Silenced;
    var t := AddColumns(s, c, count);
    assert IsAssembled(t.h.stage, t.cycle);
  }

  lemma EndFlushAssembles(s: Sys, after: After, count: nat)
    requires AllAssembled(s, count) && (after.Open? ==> Usable(after.c))
    ensures AllAssembled(EndFlush(s, after, count), count)
  {
    match after
    case Close => NothingSilenced(s.h.stage);
    case Open(c, t) => AddColumnsAssembles(Opening(s, c, t), c, count);
  }

  lemma TurnAssembles(s: Sys, count: nat)
    requires Ok(s) && AllAssembled(s, count) && s.phase.Flushing?
    ensures AllAssembled(TurnOne(s, count), count)
  {
    hide IsAssembled, EndFlush, Offer;
    var f, after := s.phase.f, s.phase.after;
    if f >= s.h.outFrames {
      EndFlushAssembles(s, after, count);
    } else {
      var t := Offer(s, f);
      if P.Accepts(s.p.ring, s.h.writer) {
        var u := TakenOneMore(t.(phase := Flushing(f + 1, after)));
        forall i | 0 <= i < |u.flushes|
          ensures BatchOk(u.flushes[i], count)
        {
          assert BatchOk(s.flushes[i], count);
        }
      } else {
        EndFlushAssembles(t, after, count);
      }
    }
  }

  lemma NextAssembles(s: Sys, a: Step, count: nat)
    requires Ok(s) && AllAssembled(s, count)
    ensures AllAssembled(Next(s, a, count), count)
  {
    match a
    case Call(c, t) =>
      if s.phase.Idle? && Usable(c) && t == s.h.outCycle { AddColumnsAssembles(s, c, count); }
    case Turn => if s.phase.Flushing? { TurnAssembles(s, count); }
    case _ =>
  }

  /** In every run, the fill in between or not: the stage of every flush is its cycle's streams, each written over
      the last, on a stage silenced for the cycle, and nothing else; and the flush of a complete cycle has them all.
      */
  lemma {:induction false} FlushesAreAssembled(channels: nat, slots: P.SlotArray, stage: Stage, steps: seq<Step>,
      count: nat)
    ensures AllAssembled(Run(Initial(channels, slots, stage), steps, count), count)
    decreases |steps|
  {
    if steps == [] {
      NothingSilenced(stage);
    } else {
      FlushesAreAssembled(channels, slots, stage, steps[..|steps| - 1], count);
      NextAssembles(Run(Initial(channels, slots, stage), steps[..|steps| - 1], count), steps[|steps| - 1], count);
    }
  }

  /** So a sample of a flushed cycle is the last covering stream's, and silence where no stream covers the column. */
  lemma FlushedSample(b: Batch, count: nat, f: nat, column: nat)
    requires BatchOk(b, count) && SameCycle(b.cycle.cs, b.cycle.n)
    requires f < b.frames <= MAX_CYCLE_FRAMES && column < P.WIDTH
    ensures (forall c :: c in b.cycle.cs ==> !Covers(c, column)) ==> StagedFrame(b.stage, f)[column] == 0
    ensures forall i :: 0 <= i < |b.cycle.cs| && Covers(b.cycle.cs[i], column)
                        && (forall c :: c in b.cycle.cs[i + 1..] ==> !Covers(c, column)) ==>
              Carries(b.cycle.cs[i], f, column, StagedFrame(b.stage, f)[column])
  {
    var x := b.cycle;
    if forall c :: c in x.cs ==> !Covers(c, column) { IdleGroupIsSilent(x.before, x.cs, x.n, f, column); }
    forall i | 0 <= i < |x.cs| && Covers(x.cs[i], column) && (forall c :: c in x.cs[i + 1..] ==> !Covers(c, column))
      ensures Carries(x.cs[i], f, column, StagedFrame(b.stage, f)[column])
    {
      CoveredColumnIsTheStreams(Silenced(x.before, x.n), x.cs, x.n, f, column, i);
    }
  }

  /** From the streams' samples to the packets: for any cycles, streams, packets, ring misses and resets, in any
      order, every real frame sent is a frame some flush gave the ring, cut to the device's channels, and none up to
      the furthest reached is left out; every flush published what its cycle's streams wrote; and while no frame was
      sent twice, which no run without resets does, the frames sent are a prefix of those published. */
  lemma SentIsWhatTheStreamsWrote(channels: nat, slots: P.SlotArray, stage: Stage, steps: seq<Step>, count: nat)
    ensures var s := Run(Initial(channels, slots, stage), steps, count);
            && AllOk(s.flushes) && (forall i :: 0 <= i < |s.flushes| ==> BatchOk(s.flushes[i], count))
            && s.p.fill.channels <= P.WIDTH && |s.p.origin| == |s.p.sent|
            && var published := AllTaken(s.flushes);
               && (forall e :: 0 <= e < |s.p.sent| ==>
                     && s.p.origin[e] < |published|
                     && s.p.sent[e] == published[s.p.origin[e]][..s.p.fill.channels])
               && (forall k: nat :: k < s.p.high ==> P.Reached(s.p.origin, k))
               && (P.Once(s.p) ==>
                     && |s.p.sent| <= |published|
                     && forall e :: 0 <= e < |s.p.sent| ==> s.p.sent[e] == published[e][..s.p.fill.channels])
               && s.p.fill.held == s.p.frames - |s.p.sent| && s.p.misses <= 1
    ensures (forall k :: 0 <= k < |steps| ==> !steps[k].ResetFill?) ==>
              P.Once(Run(Initial(channels, slots, stage), steps, count).p)
  {
    var pipe := EveryRunIsAPipeline(channels, slots, stage, steps, count);
    FlushesAreAssembled(channels, slots, stage, steps, count);
    hide Run, P.Run, IsAssembled, BatchOk, AllTaken;
    P.SentIsAPrefixOfAccepted(channels, slots, pipe);
    P.EachOnceUnlessReplayed(channels, slots, pipe);
    if forall k :: 0 <= k < |pipe| ==> !pipe[k].ResetFill? { P.NoResetNoReplay(channels, slots, pipe); }
  }

  // ---- a callback nobody interrupts -----------------------------------------------------------------------------

  /** Turn after turn until the flush has ended. */
  function Ended(s: Sys, count: nat): Sys
    requires Ok(s) && s.phase.Flushing?
    decreases s.h.outFrames - s.phase.f
  {
    if s.phase.f < s.h.outFrames && P.Accepts(s.p.ring, s.h.writer) then Ended(Next(s, Turn, count), count)
    else Next(s, Turn, count)
  }

  /** Those turns flush exactly as the specified flush does. */
  lemma {:induction false} EndedIsFlushed(s: Sys, count: nat, t: Sys)
    requires Ok(s) && s.phase.Flushing?
    requires var (r, w) := Flushed(s.p.ring, s.h.writer, s.h.stage, s.phase.f, s.h.outFrames);
             t.p.ring == r && t.h == s.h.(writer := w)
    ensures var e, x := Ended(s, count), EndFlush(t, s.phase.after, count);
            e.h == x.h && e.p.ring == t.p.ring && e.phase == x.phase
    decreases s.h.outFrames - s.phase.f
  {
    if s.phase.f < s.h.outFrames && P.Accepts(s.p.ring, s.h.writer) { EndedIsFlushed(Next(s, Turn, count), count, t); }
  }

  /** A whole callback: the call, and the turns of whatever flushes it starts. */
  function Callback(s: Sys, c: Contribution, sampleTime: int, count: nat): Sys
    requires Ok(s) && s.phase.Idle?
  {
    var s1 := Next(s, Call(c, sampleTime), count);
    var s2 := if s1.phase.Flushing? && s1.phase.after.Open? then Settled(s1, count) else s1;
    if s2.phase.Flushing? then Settled(s2, count) else s2
  }

  function Settled(s: Sys, count: nat): (t: Sys)
    requires Ok(s) && s.phase.Flushing?
    ensures Ok(t)
  {
    EndedOk(s, count);
    Ended(s, count)
  }

  lemma {:induction false} EndedOk(s: Sys, count: nat)
    requires Ok(s) && s.phase.Flushing?
    ensures Ok(Ended(s, count))
    decreases s.h.outFrames - s.phase.f
  {
    if s.phase.f < s.h.outFrames && P.Accepts(s.p.ring, s.h.writer) { EndedOk(Next(s, Turn, count), count); }
  }

  /** Uninterrupted, the steps of a callback leave the handler and the ring exactly as the specified callback does. */
  lemma CallbackIsMixed(s: Sys, c: Contribution, sampleTime: int, count: nat)
    requires Ok(s) && s.phase.Idle?
    ensures var t := Callback(s, c, sampleTime, count);
            t.phase.Idle? && (t.h, t.p.ring) == Mixed(s.h, s.p.ring, count, c, sampleTime)
  {
    if Usable(c) {
      var s1 := Next(s, Call(c, sampleTime), count);
      var s2 := s1;
      if s1.phase.Flushing? && s1.phase.after.Open? {
        var (r, w) := Flushed(s.p.ring, s.h.writer, s.h.stage, 0, s.h.outFrames);
        EndedIsFlushed(s1, count, s1.(p := s1.p.(ring := r), h := s1.h.(writer := w)));
        s2 := Settled(s1, count);
      }
      if s2.phase.Flushing? {
        var (r, w) := Flushed(s2.p.ring, s2.h.writer, s2.h.stage, 0, s2.h.outFrames);
        EndedIsFlushed(s2, count, s2.(p := s2.p.(ring := r), h := s2.h.(writer := w)));
      }
    }
  }
}
