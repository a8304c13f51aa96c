/** When playback goes through without a hitch (platform/coreaudio/UFAudioDriver.cpp, platform/shared/uf_shm_ring.hpp,
    platform/shared/uf_tx_fill.hpp): how far the plug-in may run ahead of the fill, and how far behind it may be, for
    every frame offered to be taken in and every frame asked for to be a real one. */
module PlaybackPace {
  import opened Arithmetic
  import opened FramePipeline

  /** A push is refused exactly when eight slots' worth of frames has not been given back; a refusal is counted, and
      loses that frame alone. */
  lemma RefusedExactlyWhenFull(p: Pipe, f: Frame)
    requires Inv(p)
    ensures var q := Next(p, PushFrame(f));
            if |p.accepted| < (p.ring.tail + SLOTS) * FRAMES
            then q.accepted == p.accepted + [f] && q.ring.overruns == p.ring.overruns
            else && q.accepted == p.accepted && q.ring == p.ring.(overruns := p.ring.overruns + 1)
                 && !q.writer.holding
  {}

  /** The frames offered, in order. */
  function Offered(steps: seq<Step>): seq<Frame> {
    if steps == [] then []
    else
      var a := steps[|steps| - 1];
      Offered(steps[..|steps| - 1]) + if a.PushFrame? then [a.f] else []
  }

  /** How many frames were asked for. */
  function Asked(steps: seq<Step>): nat {
    if steps == [] then 0
    else Asked(steps[..|steps| - 1]) + if steps[|steps| - 1].TakeFrame? then 1 else 0
  }

  /** How many frames have gone back to the ring after `n` were taken: whole slots, each with the first frame of the
      next. */
  function Returned(n: nat): nat { if n == 0 then 0 else (n - 1) / FRAMES * FRAMES }

  /** The sides keep pace: the plug-in is never eight slots ahead of what went back, and the fill never asks for more
      than the whole slots offered. */
  ghost predicate InPace(steps: seq<Step>)
    decreases |steps|
  {
    steps == [] ||
    var before, a := steps[..|steps| - 1], steps[|steps| - 1];
    && InPace(before)
    && (a.PushFrame? ==> |Offered(before)| < Returned(Asked(before)) + SLOTS * FRAMES)
    && (a.TakeFrame? ==> Asked(before) < |Offered(before)| / FRAMES * FRAMES)
  }

  /** The pipe while they do, after `n` frames were taken. */
  ghost predicate Smooth(p: Pipe, n: nat) {
    && Inv(p) && p.ring.overruns == 0 && p.fill.held == 0 && !p.fill.dryPacket && Position(p) == n
    && (if n == 0 then p.ring.tail == 0 && p.fill.slot.NoSlot? else p.fill.slot.At? && p.fill.pos >= 1)
  }

  lemma SmoothReturned(p: Pipe, n: nat)
    requires Smooth(p, n)
    ensures Returned(n) == p.ring.tail * FRAMES && |p.accepted| / FRAMES == p.ring.head
  {
    if n > 0 { QuotientIs(n - 1, FRAMES, p.ring.tail); }
    QuotientIs(|p.accepted|, FRAMES, p.ring.head);
  }

  lemma SmoothPush(p: Pipe, n: nat, f: Frame)
    requires Smooth(p, n)
    ensures var q := Next(p, PushFrame(f));
            if |p.accepted| < Returned(n) + SLOTS * FRAMES then Smooth(q, n) && q.accepted == p.accepted + [f]
            else q.ring.overruns > 0
  {
    SmoothReturned(p, n);
    RefusedExactlyWhenFull(p, f);
    PushKeepsInv(p, f);
    OthersSendNothing(p, PushFrame(f));
    hide Inv;
  }

  lemma SmoothTake(p: Pipe, n: nat)
    requires Smooth(p, n)
    ensures var q := Next(p, TakeFrame);
            if n < |p.accepted| / FRAMES * FRAMES then Smooth(q, n + 1) && q.accepted == p.accepted else q.fill.held > 0
  {
    SmoothReturned(p, n);
    TakeKeepsInv(p);
    hide Contents, Streams, Counts, Fading;
  }

  /** No step takes a fault back. */
  lemma FaultsStay(p: Pipe, a: Step)
    requires WriterOk(p)
    ensures Next(p, a).ring.overruns >= p.ring.overruns && Next(p, a).fill.held >= p.fill.held
  {}

  ghost predicate NoReset(steps: seq<Step>) { forall k :: 0 <= k < |steps| ==> !steps[k].ResetFill? }

  lemma {:induction false} PaceDecides(channels: nat, slots: SlotArray, steps: seq<Step>)
    requires NoReset(steps)
    ensures var p := Run(Initial(channels, slots), steps);
            if InPace(steps) then Smooth(p, Asked(steps)) && p.accepted == Offered(steps)
            else p.ring.overruns > 0 || p.fill.held > 0
    decreases |steps|
  {
    RunKeepsInv(channels, slots, steps);
    if steps != [] {
      var before, a := steps[..|steps| - 1], steps[|steps| - 1];
      PaceDecides(channels, slots, before);
      var p := Run(Initial(channels, slots), before);
      FaultsStay(p, a);
      hide Next, Inv;
      if InPace(before) {
        match a
        case PushFrame(f) => SmoothPush(p, Asked(before), f);
        case TakeFrame => SmoothTake(p, Asked(before));
        case _ => SmoothOtherwise(p, a, Asked(before));
      }
    }
  }

  lemma SmoothOtherwise(p: Pipe, a: Step, n: nat)
    requires Smooth(p, n) && (a.BeginTick? || a.BeginPacket?)
    ensures Smooth(Next(p, a), n) && Next(p, a).accepted == p.accepted
  {
    NextKeepsInv(p, a);
  }

  /** In every interleaving without a reset: no push is refused and no frame is held if and only if the two sides keep
      pace. While they do, everything offered is in the ring, and everything asked for was the next frame offered. */
  lemma SmoothExactlyInPace(channels: nat, slots: SlotArray, steps: seq<Step>)
    requires NoReset(steps)
    ensures var p, all := Run(Initial(channels, slots), steps), Offered(steps);
            && (p.ring.overruns == 0 && p.fill.held == 0 <==> InPace(steps))
            && (InPace(steps) ==>
                  && |p.sent| == Asked(steps) <= |all| && p.accepted == all && p.fill.channels <= WIDTH
                  && forall e :: 0 <= e < |p.sent| ==> p.sent[e] == all[e][..p.fill.channels])
  {
    PaceDecides(channels, slots, steps);
    NoResetNoReplay(channels, slots, steps);
    SentIsAPrefixOfAccepted(channels, slots, steps);
    AllAskedFor(channels, slots, steps);
  }

  lemma {:induction false} AllAskedFor(channels: nat, slots: SlotArray, steps: seq<Step>)
    ensures Run(Initial(channels, slots), steps).frames == Asked(steps)
    decreases |steps|
  {
    if steps != [] { AllAskedFor(channels, slots, steps[..|steps| - 1]); }
  }
}
