/** The capture path: the daemon's slot writer (platform/daemon/uf-daemon.cpp), the slot ring, and the plug-in's
    input handler (platform/coreaudio/UFAudioDriver.cpp: fillStageFromRing, OnReadClientInput).

    The handler pulls whole cycles out of the ring and pads a short one with silence. The result says exactly which
    frames each cycle holds, in every interleaving of daemon frames and cycles of any size. */
module CaptureStage {
  import opened HoldDecay
  import P = FramePipeline
  import O = PlaybackObjects
  import opened Arithmetic

  type Frame = P.Frame

  function SilentFrame(): Frame { seq(P.WIDTH, _ => 0) }

  /** The slot the handler holds, if any, and its next frame in it. */
  datatype Reader = Reader(slot: P.SlotRef, frame: nat)

  /** The daemon commits a slot with the device's own channel count; everything else is as on the playback side. */
  function Put(r: P.Ring, w: P.Writer, f: Frame, channels: nat): (P.Ring, P.Writer)
    requires w.holding ==> w.frame < P.FRAMES
  {
    var (r', w') := P.Push(r, w, f);
    var i := r.head % P.SLOTS;
    if r'.head == r.head then (r', w')
    else (r'.(slots := r'.slots[i := r'.slots[i].(channelCount := channels)]), w')
  }

  datatype Pull = Pull(ring: P.Ring, reader: Reader, got: bool, frame: Frame)

  predicate Spent(r: P.Ring, d: Reader) {
    d.slot.NoSlot? || d.slot.index >= P.SLOTS || d.frame >= r.slots[d.slot.index].frameCount
  }

  function FrameAt(r: P.Ring, d: Reader): Frame {
    if d.slot.At? && d.slot.index < P.SLOTS && d.frame < P.FRAMES
    then P.FrameOf(r.slots[d.slot.index], d.frame)
    else SilentFrame()
  }

  /** One turn of the loop. */
  function PullOne(r: P.Ring, d: Reader): (p: Pull)
    ensures p.ring.head == r.head
  {
    if !Spent(r, d) then Pull(r, d.(frame := d.frame + 1), true, FrameAt(r, d))
    else
      var r1 := if d.slot.At? then r.(tail := r.tail + 1) else r;
      if r1.tail == r1.head then Pull(r1.(underruns := r1.underruns + 1), Reader(P.NoSlot, 0), false, SilentFrame())
      else
        var d1 := Reader(P.At(r1.tail % P.SLOTS), 0);
        Pull(r1, d1.(frame := 1), true, FrameAt(r1, d1))
  }

  datatype Filled = Filled(ring: P.Ring, reader: Reader, frames: seq<Frame>)

  /** A cycle of up to `n` frames; the first miss ends it. */
  function Fill(r: P.Ring, d: Reader, n: nat): (c: Filled)
    ensures |c.frames| <= n
    decreases n
  {
    if n == 0 then Filled(r, d, [])
    else
      var p := PullOne(r, d);
      if !p.got then Filled(p.ring, p.reader, [])
      else
        var rest := Fill(p.ring, p.reader, n - 1);
        rest.(frames := [p.frame] + rest.frames)
  }

  lemma FillUnfolds(r: P.Ring, d: Reader, n: nat)
    ensures n == 0 ==> Fill(r, d, n) == Filled(r, d, [])
    ensures n > 0 ==> var p := PullOne(r, d);
                      Fill(r, d, n) == if !p.got then Filled(p.ring, p.reader, [])
                                       else Filled(Fill(p.ring, p.reader, n - 1).ring,
                                           Fill(p.ring, p.reader, n - 1).reader,
                                                   [p.frame] + Fill(p.ring, p.reader, n - 1).frames)
  {}

  // ---- both sides, in any order ---------------------------------------------------------------------------------

  /** The cycle being filled: how many frames were asked for, which it has, and whether it still wants more. */
  datatype Cycle = Cycle(want: nat, got: seq<Frame>, open: bool)

  /** `accepted`: the frames in the slots the daemon committed, and in the one it is filling. `delivered`: the real
      frames of every cycle so far. */
  datatype Capture = Capture(ring: P.Ring, writer: P.Writer, reader: Reader, cycle: Cycle,
                             accepted: seq<Frame>, delivered: seq<Frame>)

  datatype Step =
    | Offer(f: Frame, channels: nat)   // the daemon decodes one frame
    | Restart                          // the daemon's session restarts and drops the slot it was filling
    | Begin(n: nat)                    // a cycle of n frames begins
    | Turn                             // one turn of the handler's fill loop

  function Initial(slots: P.SlotArray): Capture {
    Capture(P.Ring(0, 0, 0, 0, slots), P.Writer(false, 0), Reader(P.NoSlot, 0), Cycle(0, [], false), [], [])
  }

  ghost predicate WriterOk(s: Capture) {
    (s.writer.holding ==> s.writer.frame < P.FRAMES) && s.ring.head * P.FRAMES <= |s.accepted|
  }

  function Pulled(s: Capture, p: Pull): Capture {
    if p.got
    then s.(ring := p.ring, reader := p.reader, delivered := s.delivered + [p.frame],
            cycle := s.cycle.(got := s.cycle.got + [p.frame], open := |s.cycle.got| + 1 < s.cycle.want))
    else s.(ring := p.ring, reader := p.reader, cycle := s.cycle.(open := false))
  }

  function Next(s: Capture, a: Step): (t: Capture)
    requires WriterOk(s)
  {
    match a
    case Offer(f, channels) =>
      var (r, w) := Put(s.ring, s.writer, f, channels);
      s.(ring := r, writer := w, accepted := if P.Accepts(s.ring, s.writer) then s.accepted + [f] else s.accepted)
    case Restart => s.(writer := P.Writer(false, 0), accepted := s.accepted[..s.ring.head * P.FRAMES])
    case Begin(n) => if s.cycle.open then s else s.(cycle := Cycle(n, [], n > 0))
    case Turn => if s.cycle.open then Pulled(s, PullOne(s.ring, s.reader)) else s
  }

  ghost function Run(slots: P.SlotArray, steps: seq<Step>): (t: Capture)
    ensures Inv(t)
    decreases |steps|
  {
    if steps == [] then Initial(slots)
    else
      var s := Run(slots, steps[..|steps| - 1]);
      NextKeepsInv(s, steps[|steps| - 1]);
      Next(s, steps[|steps| - 1])
  }

  // ---- the invariant --------------------------------------------------------------------------------------------

  ghost predicate Cursors(s: Capture) {
    var r, w, d := s.ring, s.writer, s.reader;
    && r.tail <= r.head <= r.tail + P.SLOTS
    && (w.holding ==> w.frame < P.FRAMES && r.head < r.tail + P.SLOTS)
    && |s.accepted| == r.head * P.FRAMES + (if w.holding then w.frame else 0)
    && (d.slot.At? ==> d.slot.index == r.tail % P.SLOTS && r.tail < r.head && 1 <= d.frame <= P.FRAMES)
    && |s.delivered| == r.tail * P.FRAMES + (if d.slot.At? then d.frame else 0)
  }

  ghost predicate Contents(s: Capture) {
    && (forall k :: s.ring.tail <= k < s.ring.head ==>
          && s.ring.slots[k % P.SLOTS].frameCount == P.FRAMES
          && P.Holds(s.ring.slots[k % P.SLOTS], P.FRAMES, s.accepted, k * P.FRAMES))
    && (s.writer.holding ==>
          P.Holds(s.ring.slots[s.ring.head % P.SLOTS], s.writer.frame, s.accepted, s.ring.head * P.FRAMES))
  }

  ghost predicate Prefix(s: Capture) {
    |s.delivered| <= |s.accepted| && s.delivered == s.accepted[..|s.delivered|]
  }

  /** The cycle's frames are the last ones delivered. */
  ghost predicate CycleOk(s: Capture) {
    var c := s.cycle;
    && |c.got| <= c.want && (c.open ==> |c.got| < c.want)
    && |c.got| <= |s.delivered| && c.got == s.delivered[|s.delivered| - |c.got|..]
  }

  ghost predicate Sound(s: Capture) { Cursors(s) && Contents(s) && Prefix(s) }

  ghost predicate Inv(s: Capture) { Sound(s) && CycleOk(s) }

  /** How many committed frames the handler has not had yet. */
  function Waiting(s: Capture): int { s.ring.head * P.FRAMES - |s.delivered| }

  /** The slot being written holds one more of the accepted frames. */
  lemma OpenSlotHolds(s: Capture, f: Frame, channels: nat, t: Capture, i: nat, at: nat)
    requires Sound(s) && P.Accepts(s.ring, s.writer) && t == Next(s, Offer(f, channels))
    requires i == s.ring.head % P.SLOTS && at == if s.writer.holding then s.writer.frame else 0
    ensures P.Holds(t.ring.slots[i], at + 1, t.accepted, s.ring.head * P.FRAMES)
  {
    assert P.Holds(s.ring.slots[i], at, s.accepted, s.ring.head * P.FRAMES);
    P.HoldsOneMore(s.ring.slots[i], at, s.accepted, s.ring.head * P.FRAMES, f);
    var stored := s.ring.slots[i].(audio := P.Store(s.ring.slots[i].audio, at, f));
    assert t.ring.slots[i].audio == stored.audio;
    hide P.Store, Put, Sound;
    assert forall j: nat :: j < at + 1 ==> P.FrameOf(t.ring.slots[i], j) == P.FrameOf(stored, j);
  }

  /** A committed slot says how many frames it has and how wide the device's frames are. */
  lemma CommittedSlotIsLabelled(s: Capture, f: Frame, channels: nat)
    requires Sound(s)
    ensures var t := Next(s, Offer(f, channels));
            t.ring.head > s.ring.head ==>
              var slot := t.ring.slots[s.ring.head % P.SLOTS];
              slot.frameCount == P.FRAMES && slot.channelCount == channels
  {}

  /** A frame from the device is lost exactly when eight slots' worth of frames has not been given back, and that is
      counted. */
  lemma LostExactlyWhenFull(s: Capture, f: Frame, channels: nat)
    requires Sound(s)
    ensures var t := Next(s, Offer(f, channels));
            if |s.accepted| < (s.ring.tail + P.SLOTS) * P.FRAMES
            then t.accepted == s.accepted + [f] && t.ring.overruns == s.ring.overruns
            else t.accepted == s.accepted && t.ring == s.ring.(overruns := s.ring.overruns + 1)
  {}

  /** The committed slots do not change, and hold what they held. */
  lemma CommittedSlotsHold(s: Capture, f: Frame, channels: nat, t: Capture, k: nat)
    requires Sound(s) && P.Accepts(s.ring, s.writer) && t == Next(s, Offer(f, channels))
    requires s.ring.tail <= k < s.ring.head
    ensures t.ring.slots[k % P.SLOTS] == s.ring.slots[k % P.SLOTS]
    ensures P.Holds(t.ring.slots[k % P.SLOTS], P.FRAMES, t.accepted, k * P.FRAMES)
  {
    hide P.Store;
    if k % P.SLOTS == s.ring.head % P.SLOTS { SameSlot(k, s.ring.head, P.SLOTS); }
    assert P.Holds(s.ring.slots[k % P.SLOTS], P.FRAMES, s.accepted, k * P.FRAMES);
    P.HoldsMore(s.ring.slots[k % P.SLOTS], P.FRAMES, s.accepted, k * P.FRAMES, f);
  }

  lemma FrameKeepsInv(s: Capture, f: Frame, channels: nat)
    requires Inv(s)
    ensures Inv(Next(s, Offer(f, channels)))
  {
    if P.Accepts(s.ring, s.writer) {
      var t := Next(s, Offer(f, channels));
      var at := if s.writer.holding then s.writer.frame else 0;
      OpenSlotHolds(s, f, channels, t, s.ring.head % P.SLOTS, at);
      forall k | s.ring.tail <= k < s.ring.head
        ensures t.ring.slots[k % P.SLOTS] == s.ring.slots[k % P.SLOTS]
        ensures P.Holds(t.ring.slots[k % P.SLOTS], P.FRAMES, t.accepted, k * P.FRAMES)
      {
        CommittedSlotsHold(s, f, channels, t, k);
      }
      hide P.Store, P.Holds;
    }
  }

  /** A slot read to its end goes back, and the handler is as if it had held none. */
  lemma SpentGoesBack(s: Capture, b: Capture)
    requires Sound(s) && s.reader.slot.At? && Spent(s.ring, s.reader)
    requires b == s.(ring := s.ring.(tail := s.ring.tail + 1), reader := Reader(P.NoSlot, s.reader.frame))
    ensures Sound(b) && PullOne(b.ring, b.reader) == PullOne(s.ring, s.reader)
  {}

  /** The frame at the handler's place in slot `k` is the next accepted one. */
  lemma FrameIsNext(s: Capture, k: nat, j: nat)
    requires Sound(s) && s.ring.tail <= k < s.ring.head && j < P.FRAMES && |s.delivered| == k * P.FRAMES + j
    ensures |s.delivered| < |s.accepted|
    ensures P.FrameOf(s.ring.slots[k % P.SLOTS], j) == s.accepted[|s.delivered|]
  {
    assert P.Holds(s.ring.slots[k % P.SLOTS], P.FRAMES, s.accepted, k * P.FRAMES);
  }

  lemma PrefixGrows(s: Capture, f: Frame)
    requires Prefix(s) && |s.delivered| < |s.accepted| && f == s.accepted[|s.delivered|]
    ensures Prefix(s.(delivered := s.delivered + [f]))
  {}

  function Delivered(s: Capture, p: Pull): Capture {
    s.(ring := p.ring, reader := p.reader, delivered := if p.got then s.delivered + [p.frame] else s.delivered)
  }

  /** One pull: the next accepted frame if a committed one is waiting, a miss if not. */
  lemma PullKeepsInv(s: Capture, p: Pull, t: Capture)
    requires Sound(s) && p == PullOne(s.ring, s.reader)
    requires t == Delivered(s, p)
    ensures Sound(t) && p.got == (Waiting(s) > 0) && p.ring.head == s.ring.head
    decreases s.reader.slot.At? && Spent(s.ring, s.reader)
  {
    if s.reader.slot.At? && Spent(s.ring, s.reader) {
      var b := s.(ring := s.ring.(tail := s.ring.tail + 1), reader := Reader(P.NoSlot, s.reader.frame));
      SpentGoesBack(s, b);
      PullKeepsInv(b, p, t);
    } else if p.got {
      hide P.Holds, P.FrameOf;
      FrameIsNext(s, s.ring.tail, if s.reader.slot.At? then s.reader.frame else 0);
      PrefixGrows(s, p.frame);
    }
  }

  function After(s: Capture, c: Filled): Capture {
    s.(ring := c.ring, reader := c.reader, delivered := s.delivered + c.frames)
  }

  lemma {:induction false} FillKeepsInv(s: Capture, n: nat, c: Filled, t: Capture)
    requires Sound(s) && c == Fill(s.ring, s.reader, n) && t == After(s, c)
    ensures Sound(t) && t.ring.head == s.ring.head
    ensures |c.frames| == if n < Waiting(s) then n else if Waiting(s) > 0 then Waiting(s) else 0
    decreases n
  {
    hide Sound, PullOne, Fill;
    FillUnfolds(s.ring, s.reader, n);
    if n == 0 {
      assert s.delivered + [] == s.delivered;
      assert t == s;
    } else {
      var p := PullOne(s.ring, s.reader);
      var m := Delivered(s, p);
      PullKeepsInv(s, p, m);
      if p.got {
        var rest := Fill(p.ring, p.reader, n - 1);
        assert s.delivered + c.frames == m.delivered + rest.frames;
        FillKeepsInv(m, n - 1, rest, t);
      } else {
        assert s.delivered + [] == s.delivered;
        assert t == m;
      }
    }
  }

  /** What a cycle holds: the next accepted frames, as many as were asked for or as are waiting. */
  lemma FillIsExact(s: Capture, n: nat, c: Filled, k: nat)
    requires Sound(s) && c == Fill(s.ring, s.reader, n)
    requires k == if n < Waiting(s) then n else Waiting(s)
    ensures |c.frames| == k && |s.delivered| + k <= |s.accepted|
    ensures c.frames == s.accepted[|s.delivered|..|s.delivered| + k]
  {
    var t := After(s, c);
    FillKeepsInv(s, n, c, t);
    assert t.delivered[|s.delivered|..] == c.frames;
  }

  lemma WaitingIsNatural(s: Capture)
    requires Sound(s)
    ensures Waiting(s) >= 0
  {}

  lemma RestartKeepsInv(s: Capture)
    requires Inv(s)
    ensures Inv(Next(s, Restart))
  {
    var t := Next(s, Restart);
    forall k | t.ring.tail <= k < t.ring.head
      ensures P.Holds(t.ring.slots[k % P.SLOTS], P.FRAMES, t.accepted, k * P.FRAMES)
    {
      assert P.Holds(s.ring.slots[k % P.SLOTS], P.FRAMES, s.accepted, k * P.FRAMES);
      assert (k + 1) * P.FRAMES <= t.ring.head * P.FRAMES;
    }
    assert Prefix(t) by { WaitingIsNatural(s); }
  }

  /** One turn: the next accepted frame if a committed one is waiting; otherwise the cycle ends there. */
  lemma TurnIsExact(s: Capture)
    requires Inv(s) && s.cycle.open
    ensures var t := Next(s, Turn);
            && Inv(t)
            && if Waiting(s) > 0
               then && |s.delivered| < |s.accepted|
                    && t.cycle.got == s.cycle.got + [s.accepted[|s.delivered|]]
                    && t.cycle.open == (|t.cycle.got| < t.cycle.want)
               else t.cycle == s.cycle.(open := false)
  {
    var p, t := PullOne(s.ring, s.reader), Next(s, Turn);
    PullTurns(s, p, t);
    TurnKeepsCycle(s, p, t);
  }

  lemma PullTurns(s: Capture, p: Pull, t: Capture)
    requires Sound(s) && p == PullOne(s.ring, s.reader) && t == Pulled(s, p)
    ensures Sound(t) && p.got == (Waiting(s) > 0)
    ensures p.got ==> |s.delivered| < |s.accepted| && p.frame == s.accepted[|s.delivered|]
  {
    var m := Delivered(s, p);
    hide PullOne, P.Holds;
    PullKeepsInv(s, p, m);
    assert Sound(t);
    if p.got {
      assert m.delivered[|s.delivered|] == p.frame;
      assert m.delivered == m.accepted[..|m.delivered|];
    }
  }

  lemma TurnKeepsCycle(s: Capture, p: Pull, t: Capture)
    requires CycleOk(s) && s.cycle.open && t == Pulled(s, p)
    ensures CycleOk(t)
  {}

  lemma NextKeepsInv(s: Capture, a: Step)
    requires Inv(s)
    ensures WriterOk(s) && Inv(Next(s, a))
  {
    match a
    case Offer(f, channels) => FrameKeepsInv(s, f, channels);
    case Restart => RestartKeepsInv(s);
    case Begin(n) =>
    case Turn => if s.cycle.open { TurnIsExact(s); }
  }

  /** In every interleaving of single frames from the daemon, its restarts, and single turns of cycles of any size:
      the real frames of all cycles so far are a prefix of the frames the daemon got into the ring, none lost, none
      twice, none out of order; the cycle in hand holds the last of them; and all that is accepted and not yet
      delivered waits in committed slots, but for the one being filled. */
  lemma CyclesAreAPrefixOfCapture(slots: P.SlotArray, steps: seq<Step>)
    ensures var s := Run(slots, steps);
            && |s.delivered| <= |s.accepted| && s.delivered == s.accepted[..|s.delivered|]
            && |s.cycle.got| <= |s.delivered| && s.cycle.got == s.accepted[|s.delivered| - |s.cycle.got|..|s.delivered|]
            && 0 <= Waiting(s) <= |s.accepted| - |s.delivered| < Waiting(s) + P.FRAMES
  {
    WaitingIsNatural(Run(slots, steps));
  }

  /** A restart takes nothing away that was committed. */
  lemma RestartLosesOnlyTheOpenSlot(slots: P.SlotArray, steps: seq<Step>)
    ensures var s := Run(slots, steps);
            && WriterOk(s)
            && var t := Next(s, Restart);
               && t.delivered == s.delivered && Waiting(t) == Waiting(s) == |t.accepted| - |t.delivered|
               && t.accepted == s.accepted[..|t.accepted|]
  {
    hide Run;
    RestartAlone(Run(slots, steps));
  }

  lemma RestartAlone(s: Capture)
    requires Inv(s)
    ensures var t := Next(s, Restart);
            && t.delivered == s.delivered && Waiting(t) == Waiting(s) == |t.accepted| - |t.delivered|
            && t.accepted == s.accepted[..|t.accepted|]
  {
    hide Contents, Prefix, CycleOk;
  }

  /** The turns of a cycle nobody interrupts. */
  function Settled(s: Capture): Capture
    requires WriterOk(s)
    decreases s.cycle.want - |s.cycle.got|, s.cycle.open
  {
    if s.cycle.open && |s.cycle.got| < s.cycle.want then Settled(Next(s, Turn)) else s
  }

  /** They come to the specified fill. */
  lemma {:induction false} SettledIsFill(s: Capture, c: Filled)
    requires WriterOk(s) && |s.cycle.got| <= s.cycle.want && s.cycle.open == (|s.cycle.got| < s.cycle.want)
    requires c == Fill(s.ring, s.reader, s.cycle.want - |s.cycle.got|)
    ensures var t := Settled(s);
            && t.ring == c.ring && t.reader == c.reader && t.cycle.got == s.cycle.got + c.frames && !t.cycle.open
            && t == s.(ring := t.ring, reader := t.reader, cycle := t.cycle, delivered := s.delivered + c.frames)
            && t.cycle.want == s.cycle.want
    decreases s.cycle.want - |s.cycle.got|
  {
    hide Fill, PullOne;
    FillUnfolds(s.ring, s.reader, s.cycle.want - |s.cycle.got|);
    if s.cycle.open {
      var p, t := PullOne(s.ring, s.reader), Next(s, Turn);
      if p.got {
        SettledIsFill(t, Fill(p.ring, p.reader, t.cycle.want - |t.cycle.got|));
      }
    }
  }

  /** A short cycle counts one underrun, a full one none. */
  lemma {:induction false} FillMisses(r: P.Ring, d: Reader, n: nat)
    ensures var c := Fill(r, d, n); c.ring.underruns == r.underruns + if |c.frames| < n then 1 else 0
    decreases n
  {
    FillUnfolds(r, d, n);
    hide Fill;
    if n > 0 {
      var p := PullOne(r, d);
      if p.got { FillMisses(p.ring, p.reader, n - 1); }
    }
  }

  /** A cycle asked for and left to run holds the next accepted frames, as many as asked for or as are waiting; it is
      then over, and if it came up short that is counted once. */
  lemma ACycleIsServed(s: Capture, n: nat, k: nat)
    requires Inv(s) && !s.cycle.open && k == if n < Waiting(s) then n else Waiting(s)
    ensures var t := Settled(Next(s, Begin(n)));
            && |s.delivered| + k <= |s.accepted|
            && t.cycle == Cycle(n, s.accepted[|s.delivered|..|s.delivered| + k], false)
            && t.delivered == s.delivered + t.cycle.got && t.accepted == s.accepted
            && t.ring.underruns == s.ring.underruns + if k < n then 1 else 0
  {
    var c := Fill(s.ring, s.reader, n);
    hide Fill, Settled, Sound;
    NextKeepsInv(s, Begin(n));
    FillIsExact(s, n, c, k);
    FillMisses(s.ring, s.reader, n);
    SettledIsFill(Next(s, Begin(n)), c);
  }

  // ---- the handler ----------------------------------------------------------------------------------------------

  /** Sample `k` of the stage after a cycle of `n` frames: the real frames, then silence; what lies beyond is
      untouched. */
  function StagedAt(old_: Sample, frames: seq<Frame>, n: nat, k: nat): Sample {
    if k >= n * P.WIDTH then old_ else if k / P.WIDTH < |frames| then frames[k / P.WIDTH][k % P.WIDTH] else 0
  }

  function Staged(stage: O.Stage, frames: seq<Frame>, n: nat): O.Stage {
    seq(|stage|, k requires 0 <= k < |stage| => StagedAt(stage[k], frames, n, k))
  }

  lemma StageIsDone(before: O.Stage, filled: O.Stage, after: O.Stage, done: seq<Frame>, n: nat)
    requires |done| <= n <= O.MAX_CYCLE_FRAMES
    requires forall k :: 0 <= k < |filled| ==>
               filled[k] == if k / P.WIDTH < |done| then done[k / P.WIDTH][k % P.WIDTH] else before[k]
    requires forall k :: 0 <= k < |after| ==> after[k] == if |done| * P.WIDTH <= k < n * P.WIDTH then 0 else filled[k]
    ensures after == Staged(before, done, n)
  {
    forall k | 0 <= k < |after|
      ensures after[k] == StagedAt(before[k], done, n, k)
    {}
  }

  /** Sample `k` of what a stream of `chan` channels from ring column `base` on is handed. */
  function HandedAt(stage: O.Stage, base: nat, chan: nat, frames: nat, k: nat): Sample
    requires chan > 0 && base < P.WIDTH && frames <= O.MAX_CYCLE_FRAMES
  {
    if k / chan < frames && k % chan < Min(chan, P.WIDTH - base)
    then O.StagedFrame(stage, k / chan)[base + k % chan]
    else 0
  }

  function Handed(stage: O.Stage, base: nat, chan: nat, size: nat): seq<Sample> {
    if chan == 0 || base >= P.WIDTH then seq(size, _ => 0)
    else
      var frames := Min(size / chan, O.MAX_CYCLE_FRAMES);
      seq(size, k requires 0 <= k < size => HandedAt(stage, base, chan, frames, k))
  }

  /** Every stream of a cycle gets its own columns of the same frames, and silence where the ring ran dry. */
  lemma StreamSeesItsColumns(stage: O.Stage, frames: seq<Frame>, base: nat, chan: nat, size: nat, n: nat, k: nat)
    requires chan > 0 && n == Min(size / chan, O.MAX_CYCLE_FRAMES) && |frames| <= n
    requires k < size && base + k % chan < P.WIDTH
    ensures Handed(Staged(stage, frames, n), base, chan, size)[k]
            == if k / chan < |frames| then frames[k / chan][base + k % chan] else 0
  {
    hide Staged, HandedAt;
    HandedFromStage(stage, frames, base, chan, n, k, k / chan, k % chan);
  }

  /** And nothing else: no sample for a stream without a place on the ring, for channels beyond the ring's width, or for
      frames beyond the stage. */
  lemma TheRestIsSilent(stage: O.Stage, base: nat, chan: nat, size: nat, k: nat)
    requires k < size
    requires chan == 0 || base + k % chan >= P.WIDTH || k / chan >= O.MAX_CYCLE_FRAMES || k / chan >= size / chan
    ensures Handed(stage, base, chan, size)[k] == 0
  {}

  lemma HandedFromStage(stage: O.Stage, frames: seq<Frame>, base: nat, chan: nat, n: nat, k: nat, f: nat, c: nat)
    requires chan > 0 && |frames| <= n <= O.MAX_CYCLE_FRAMES && f == k / chan && c == k % chan && base + c < P.WIDTH
    ensures HandedAt(Staged(stage, frames, n), base, chan, n, k) == if f < |frames| then frames[f][base + c] else 0
  {
    hide Staged;
    if f < n { StagedSample(stage, frames, n, f, base + c); }
  }

  lemma StagedSample(stage: O.Stage, frames: seq<Frame>, n: nat, f: nat, column: nat)
    requires |frames| <= n <= O.MAX_CYCLE_FRAMES && f < n && column < P.WIDTH
    ensures Staged(stage, frames, n)[f * P.WIDTH + column] == if f < |frames| then frames[f][column] else 0
  {
    var i := f * P.WIDTH + column;
    assert i / P.WIDTH == f && i % P.WIDTH == column;
  }

  lemma QuotientAndRest(k: nat, d: nat, q: nat)
    requires d > 0 && q * d <= k < q * d + d
    ensures k / d == q && k % d == k - q * d
  {
    QuotientIs(k, d, q);
    assert k == d * (k / d) + k % d;
  }

  lemma AtLeast(a: nat, d: nat, q: nat)
    requires d > 0 && q * d <= a
    ensures q <= a / d
  {
    var r := a / d;
    assert a < (r + 1) * d;
    if r < q { MulLe(r + 1, q, d); }
  }

  lemma HandedInFrame(stage: O.Stage, base: nat, chan: nat, frames: nat, f: nat, k: nat, start: nat)
    requires chan > 0 && base < P.WIDTH && f < frames <= O.MAX_CYCLE_FRAMES && start == f * chan
        && start <= k < start + chan
    ensures HandedAt(stage, base, chan, frames, k)
            == if k < start + Min(chan, P.WIDTH - base) then stage[f * P.WIDTH + base + (k - start)] else 0
  {
    QuotientAndRest(k, chan, f);
  }

  lemma HandedBeyond(stage: O.Stage, base: nat, chan: nat, frames: nat, k: nat)
    requires chan > 0 && base < P.WIDTH && frames <= O.MAX_CYCLE_FRAMES && k >= frames * chan
    ensures HandedAt(stage, base, chan, frames, k) == 0
  {
    AtLeast(k, chan, frames);
  }

  class InputHandler {
    const inStage: array<Sample>
    var rdSlot: P.SlotRef
    var rdFrame: nat
    var inCycle: int            // the sample time staged; -1: none

    ghost predicate Valid()
      reads this
    {
      inStage.Length == O.MAX_CYCLE_FRAMES * P.WIDTH && (rdSlot.At? ==> rdSlot.index < P.SLOTS)
    }

    ghost function ReaderView(): Reader
      reads this
    {
      Reader(rdSlot, rdFrame)
    }

    constructor ()
      ensures Valid() && fresh(inStage) && ReaderView() == Reader(P.NoSlot, 0) && inCycle == -1
    {
      inStage := new Sample[O.MAX_CYCLE_FRAMES * P.WIDTH](_ => 0);
      rdSlot, rdFrame, inCycle := P.NoSlot, 0, -1;
    }

    method StoreFrame(f: nat, frame: Frame)
      requires f < O.MAX_CYCLE_FRAMES && inStage.Length == O.MAX_CYCLE_FRAMES * P.WIDTH
      modifies inStage
      ensures forall k :: 0 <= k < inStage.Length ==>
                inStage[k] == if k / P.WIDTH == f then frame[k % P.WIDTH] else old(inStage[k])
    {
      for c := 0 to P.WIDTH
        invariant forall k :: 0 <= k < inStage.Length ==>
                    inStage[k] == if k / P.WIDTH == f && k % P.WIDTH < c then frame[k % P.WIDTH] else old(inStage[k])
      {
        inStage[f * P.WIDTH + c] := frame[c];
      }
    }

    method ZeroFrom(f: nat, n: nat)
      requires f <= n <= O.MAX_CYCLE_FRAMES && inStage.Length == O.MAX_CYCLE_FRAMES * P.WIDTH
      modifies inStage
      ensures forall k :: 0 <= k < inStage.Length ==>
                inStage[k] == if f * P.WIDTH <= k < n * P.WIDTH then 0 else old(inStage[k])
    {
      for i := f * P.WIDTH to n * P.WIDTH
        invariant forall k :: 0 <= k < inStage.Length ==>
                    inStage[k] == if f * P.WIDTH <= k < i then 0 else old(inStage[k])
      {
        inStage[i] := 0;
      }
    }

    /** One turn of the loop's ring work. */
    method PullFrame(capture: O.Ring) returns (got: bool, frame: Frame)
      requires Valid()
      modifies this`rdSlot, this`rdFrame, capture
      ensures Valid()
      ensures Pull(capture.View(), ReaderView(), got, frame) == PullOne(old(capture.View()), old(ReaderView()))
    {
      got, frame := true, SilentFrame();
      if rdSlot.NoSlot? || rdFrame >= capture.slots[rdSlot.index].frameCount {
        if rdSlot.At? { capture.CommitRead(); rdSlot := P.NoSlot; }
        rdSlot := capture.AcquireRead();
        rdFrame := 0;
        if rdSlot.NoSlot? { got := false; return; }
      }
      if rdFrame < P.FRAMES { frame := P.FrameOf(capture.slots[rdSlot.index], rdFrame); }
      rdFrame := rdFrame + 1;
    }

    method FillStageFromRing(capture: O.Ring, frames: nat)
      requires Valid() && frames <= O.MAX_CYCLE_FRAMES
      modifies this`rdSlot, this`rdFrame, inStage, capture
      ensures Valid()
      ensures var c := Fill(old(capture.View()), old(ReaderView()), frames);
              && capture.View() == c.ring && ReaderView() == c.reader
              && inStage[..] == Staged(old(inStage[..]), c.frames, frames)
    {
      hide Fill, PullOne, Staged;
      ghost var end := Fill(capture.View(), ReaderView(), frames);
      ghost var done: seq<Frame> := [];
      var f := 0;
      while f < frames
        invariant Valid() && f == |done| <= frames
        invariant forall k :: 0 <= k < inStage.Length ==>
                    inStage[k] == if k / P.WIDTH < f then done[k / P.WIDTH][k % P.WIDTH] else old(inStage[k])
        invariant var c := Fill(capture.View(), ReaderView(), frames - f); end == c.(frames := done + c.frames)
      {
        FillUnfolds(capture.View(), ReaderView(), frames - f);
        var got, frame := PullFrame(capture);
        if !got { break; }
        StoreFrame(f, frame);
        done := done + [frame];
        f := f + 1;
      }
      FillUnfolds(capture.View(), ReaderView(), 0);
      assert done == end.frames && capture.View() == end.ring && ReaderView() == end.reader;
      ghost var filled := inStage[..];
      ZeroFrom(f, frames);
      StageIsDone(old(inStage[..]), filled, inStage[..], done, frames);
    }

    method OnReadClientInput(capture: O.Ring, sampleTime: int, base: nat, chan: nat, bytes: array<Sample>)
      requires Valid() && bytes != inStage
      modifies this, inStage, capture, bytes
      ensures Valid()
      ensures var usable := chan != 0 && base < P.WIDTH;
              var frames := if usable then Min(bytes.Length / chan, O.MAX_CYCLE_FRAMES) else 0;
              var c := Fill(old(capture.View()), old(ReaderView()), frames);
              if usable && sampleTime != old(inCycle)
              then && capture.View() == c.ring && ReaderView() == c.reader && inCycle == sampleTime
                   && inStage[..] == Staged(old(inStage[..]), c.frames, frames)
              else && capture.View() == old(capture.View()) && ReaderView() == old(ReaderView())
                   && inCycle == old(inCycle) && inStage[..] == old(inStage[..])
      ensures bytes[..] == Handed(inStage[..], base, chan, bytes.Length)
    {
      for i := 0 to bytes.Length
        invariant forall k :: 0 <= k < i ==> bytes[k] == 0
        modifies bytes
      {
        bytes[i] := 0;
      }
      if chan == 0 || base >= P.WIDTH { return; }
      var frames := Min(bytes.Length / chan, O.MAX_CYCLE_FRAMES);
      if sampleTime != inCycle {
        inCycle := sampleTime;
        FillStageFromRing(capture, frames);
      }
      CopyOut(base, chan, frames, bytes);
    }

    method CopyOut(base: nat, chan: nat, frames: nat, bytes: array<Sample>)
      requires inStage.Length == O.MAX_CYCLE_FRAMES * P.WIDTH && bytes != inStage
      requires chan > 0 && base < P.WIDTH && frames == Min(bytes.Length / chan, O.MAX_CYCLE_FRAMES)
      requires forall k :: 0 <= k < bytes.Length ==> bytes[k] == 0
      modifies bytes
      ensures bytes[..] == Handed(inStage[..], base, chan, bytes.Length)
    {
      var n := Min(chan, P.WIDTH - base);
      ghost var stage: O.Stage := inStage[..];
      ghost var end := 0;
      hide HandedAt;
      for f := 0 to frames
        invariant end == f * chan <= bytes.Length
        invariant forall k :: 0 <= k < end ==> bytes[k] == HandedAt(stage, base, chan, frames, k)
        invariant forall k :: end <= k < bytes.Length ==> bytes[k] == 0
      {
        O.InWhole(bytes.Length, f, chan, chan - 1);
        CopyFrameOut(base, chan, f, n, bytes);
        forall k | end <= k < end + chan
          ensures bytes[k] == HandedAt(stage, base, chan, frames, k)
        {
          HandedInFrame(stage, base, chan, frames, f, k, end);
        }
        assert (f + 1) * chan == end + chan;
        end := end + chan;
      }
      forall k | end <= k < bytes.Length
        ensures HandedAt(stage, base, chan, frames, k) == 0
      {
        HandedBeyond(stage, base, chan, frames, k);
      }
    }

    /** One frame's worth of a stream's columns. */
    method CopyFrameOut(base: nat, chan: nat, f: nat, n: nat, bytes: array<Sample>)
      requires inStage.Length == O.MAX_CYCLE_FRAMES * P.WIDTH && bytes != inStage && f < O.MAX_CYCLE_FRAMES
      requires base + n <= P.WIDTH && n <= chan && f * chan + chan <= bytes.Length
      modifies bytes
      ensures forall k :: 0 <= k < bytes.Length ==>
                bytes[k] == if f * chan <= k < f * chan + n
                            then inStage[f * P.WIDTH + base + (k - f * chan)]
                            else old(bytes[k])
    {
      var at := f * chan;
      for c := 0 to n
        invariant forall k :: 0 <= k < bytes.Length ==>
                    bytes[k] == if at <= k < at + c then inStage[f * P.WIDTH + base + (k - at)] else old(bytes[k])
      {
        bytes[at + c] := inStage[f * P.WIDTH + base + c];
      }
    }
  }
}
