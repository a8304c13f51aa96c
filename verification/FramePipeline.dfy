/** The playback path from the plug-in's staged cycles to the frames put into transmit packets:
    platform/coreaudio/UFAudioDriver.cpp (flushStageToRing), the slot ring of platform/shared/uf_shm_ring.hpp, and
    platform/shared/uf_tx_fill.hpp.

    The plug-in copies frames into the slot it holds and commits it when it has 512; the fill takes frames out of
    the slot it holds and, when the ring has none, repeats the last one, fading. A session restart resets the fill.
    The two sides are interleaved frame by frame in any order. The result is a refinement: cut to the device's
    channels, the real frames sent are a prefix of the frames accepted, exactly as long as no reset drops a slot
    that has been read from. */
module FramePipeline {
  import opened HoldDecay
  import opened Arithmetic

  const SLOTS: nat := 8
  const FRAMES: nat := 512          // kFramesPerSlot
  const WIDTH: nat := 28            // kMaxChannels
  const SLOT_SAMPLES: nat := 14336  // kFramesPerSlot * kMaxChannels

  /** One full-width frame. */
  type Frame = f: seq<Sample> | |f| == WIDTH witness seq(WIDTH, _ => 0)

  type Audio = a: seq<Sample> | |a| == SLOT_SAMPLES witness seq(SLOT_SAMPLES, _ => 0)

  datatype Slot = Slot(frameCount: nat, channelCount: nat, audio: Audio)

  type SlotArray = s: seq<Slot> | |s| == SLOTS
    witness seq(SLOTS, _ => Slot(0, 0, seq(SLOT_SAMPLES, _ => 0)))

  datatype Ring = Ring(head: nat, tail: nat, overruns: nat, underruns: nat, slots: SlotArray)

  /** The plug-in's side: whether it holds the slot at the head, and how many frames it has put into it. */
  datatype Writer = Writer(holding: bool, frame: nat)

  datatype SlotRef = NoSlot | At(index: nat)

  /** The state of TxFill. `slot` is a pointer into the ring's slot array. */
  datatype Fill = Fill(channels: nat, slot: SlotRef, pos: nat, held: nat, heldRun: nat,
                       dryPacket: bool, dryTick: bool, last: seq<Sample>)

  // ---- the plug-in: one turn of the flush loop -----------------------------------------------------------------

  function Store(audio: Audio, j: nat, f: Frame): Audio
    requires j < FRAMES
  {
    audio[..j * WIDTH] + f + audio[j * WIDTH + WIDTH..]
  }

  /** Whether the frame went in: refused only when a new slot is needed and the ring is full. */
  predicate Accepts(r: Ring, w: Writer) { w.holding || r.head - r.tail < SLOTS }

  function Push(r: Ring, w: Writer, f: Frame): (Ring, Writer)
    requires w.holding ==> w.frame < FRAMES
  {
    if !Accepts(r, w) then (r.(overruns := r.overruns + 1), Writer(false, 0))
    else
      var at := if w.holding then w.frame else 0;
      var i := r.head % SLOTS;
      var slot := r.slots[i].(audio := Store(r.slots[i].audio, at, f));
      if at + 1 >= FRAMES
      then (r.(slots := r.slots[i := slot.(frameCount := at + 1, channelCount := WIDTH)], head := r.head + 1),
            Writer(false, at + 1))
      else (r.(slots := r.slots[i := slot]), Writer(true, at + 1))
  }

  // ---- the fill: one frame --------------------------------------------------------------------------------------

  /** The sample for channel `c`: zero where the slot is narrower than the device. */
  function SampleAt(slot: Slot, pos: nat, channels: nat, c: nat): Sample {
    var nsrc := if slot.channelCount != 0 then slot.channelCount else channels;
    if c < nsrc && pos * nsrc + c < SLOT_SAMPLES then slot.audio[pos * nsrc + c] else 0
  }

  /** One frame of a slot, as wide as the device. */
  function DeviceFrame(slot: Slot, pos: nat, channels: nat): seq<Sample> {
    seq(channels, c requires 0 <= c < channels => SampleAt(slot, pos, channels, c))
  }

  function Faded(last: seq<Sample>): seq<Sample> {
    seq(|last|, c requires 0 <= c < |last| => Decay(last[c]))
  }

  /** A slot read to its end goes back to the ring. */
  predicate Finished(t: Fill, r: Ring) {
    t.slot.At? && t.slot.index < SLOTS && t.pos >= r.slots[t.slot.index].frameCount
  }

  function GiveBack(t: Fill, r: Ring): (Fill, Ring) {
    if Finished(t, r) then (t.(slot := NoSlot), r.(tail := r.tail + 1)) else (t, r)
  }

  /** The one attempt per packet to get a slot. */
  function Acquire(t: Fill, r: Ring): (Fill, Ring) {
    if !(t.slot.NoSlot? && !t.dryPacket) then (t, r)
    else if r.tail == r.head
    then (t.(pos := 0, dryPacket := true, dryTick := true), r.(underruns := r.underruns + 1))
    else (t.(pos := 0, slot := At(r.tail % SLOTS)), r)
  }

  function Emit(t: Fill, r: Ring): Fill {
    if t.slot.At? && t.slot.index < SLOTS
    then t.(last := DeviceFrame(r.slots[t.slot.index], t.pos, t.channels), pos := t.pos + 1, heldRun := 0)
    else t.(last := if t.heldRun == 0 then t.last else Faded(t.last),
            heldRun := t.heldRun + 1, held := t.held + 1)
  }

  function NextFrame(t: Fill, r: Ring): (Fill, Ring) {
    var (t1, r1) := GiveBack(t, r);
    var (t2, r2) := Acquire(t1, r1);
    (Emit(t2, r2), r2)
  }

  /** The held slot is dropped, and not given back. */
  function Reset(t: Fill): Fill { t.(slot := NoSlot, pos := 0, dryPacket := false, dryTick := false) }

  // ---- both sides, in any order ---------------------------------------------------------------------------------

  /** `accepted`: every frame the plug-in got into the ring. `sent`: every real frame the fill produced; `origin`: which
      accepted frame each of them was; `high`: how many accepted frames have been reached. `frames`: how many frames the
      fill was asked for. `misses`: failed acquires since the packet began. `lastReal`: the last real frame. */
  datatype Pipe = Pipe(ring: Ring, writer: Writer, fill: Fill,
                       accepted: seq<Frame>, sent: seq<seq<Sample>>, origin: seq<nat>, high: nat,
                       frames: nat, misses: nat, lastReal: seq<Sample>)

  datatype Step = PushFrame(f: Frame) | BeginTick | BeginPacket | TakeFrame | ResetFill

  /** TxFill never carries more channels than the ring. */
  function Initial(channels: nat, slots: SlotArray): Pipe {
    var n := if channels > WIDTH then WIDTH else channels;
    var silence: seq<Sample> := seq(n, _ => 0);
    Pipe(Ring(0, 0, 0, 0, slots), Writer(false, 0), Fill(n, NoSlot, 0, 0, 0, false, false, silence),
         [], [], [], 0, 0, 0, silence)
  }

  ghost predicate WriterOk(p: Pipe) { p.writer.holding ==> p.writer.frame < FRAMES }

  function Next(p: Pipe, a: Step): (q: Pipe)
    requires WriterOk(p)
    ensures WriterOk(q)
  {
    match a
    case PushFrame(f) =>
      var (r, w) := Push(p.ring, p.writer, f);
      p.(ring := r, writer := w, accepted := if Accepts(p.ring, p.writer) then p.accepted + [f] else p.accepted)
    case BeginTick => p.(fill := p.fill.(dryTick := false))
    case BeginPacket => p.(fill := p.fill.(dryPacket := false), misses := 0)
    case TakeFrame =>
      var (t, r) := NextFrame(p.fill, p.ring);
      Taken(p, t, r, r.tail * FRAMES + (if t.pos > 0 then t.pos - 1 else 0))
    case ResetFill => p.(fill := Reset(p.fill), misses := 0)
  }

  /** The fill has produced a frame; a real one was accepted frame `at`. */
  function Taken(p: Pipe, t: Fill, r: Ring, at: nat): Pipe
    requires r.underruns >= p.ring.underruns
  {
    var q := p.(fill := t, ring := r, frames := p.frames + 1, misses := p.misses + (r.underruns - p.ring.underruns));
    if t.slot.At?
    then q.(sent := p.sent + [t.last], lastReal := t.last, origin := p.origin + [at], high := Max(p.high, at + 1))
    else q
  }

  function Run(p: Pipe, steps: seq<Step>): (q: Pipe)
    requires WriterOk(p)
    ensures WriterOk(q)
    decreases |steps|
  {
    if steps == [] then p else Next(Run(p, steps[..|steps| - 1]), steps[|steps| - 1])
  }

  // ---- the invariant --------------------------------------------------------------------------------------------

  function FrameOf(slot: Slot, j: nat): Frame
    requires j < FRAMES
  {
    slot.audio[j * WIDTH..j * WIDTH + WIDTH]
  }

  /** The first `n` frames of the slot are the accepted frames from `base` on. */
  ghost predicate Holds(slot: Slot, n: nat, accepted: seq<Frame>, base: nat) {
    n <= FRAMES && base + n <= |accepted| && forall j: nat :: j < n ==> FrameOf(slot, j) == accepted[base + j]
  }

  ghost predicate Cursors(p: Pipe) {
    var r, w, t := p.ring, p.writer, p.fill;
    && r.tail <= r.head <= r.tail + SLOTS
    && (w.holding ==> w.frame < FRAMES && r.head < r.tail + SLOTS)
    && |p.accepted| == r.head * FRAMES + (if w.holding then w.frame else 0)
    && t.channels <= WIDTH && |t.last| == t.channels
    && (t.slot.At? ==> t.slot.index == r.tail % SLOTS && r.tail < r.head && t.pos <= FRAMES)
  }

  /** The accepted frame the fill will produce next. */
  function Position(p: Pipe): nat { p.ring.tail * FRAMES + (if p.fill.slot.At? then p.fill.pos else 0) }

  ghost predicate Contents(p: Pipe)
    requires Cursors(p)
  {
    && (forall k :: p.ring.tail <= k < p.ring.head ==>
          && p.ring.slots[k % SLOTS].frameCount == FRAMES && p.ring.slots[k % SLOTS].channelCount == WIDTH
          && Holds(p.ring.slots[k % SLOTS], FRAMES, p.accepted, k * FRAMES))
    && (p.writer.holding ==>
          Holds(p.ring.slots[p.ring.head % SLOTS], p.writer.frame, p.accepted, p.ring.head * FRAMES))
  }

  /** Accepted frame `k` was among those sent. */
  ghost predicate Reached(origin: seq<nat>, k: nat) { exists e :: 0 <= e < |origin| && origin[e] == k }

  /** Every frame sent is an accepted one, and none of those reached was left out. */
  ghost predicate Streams(p: Pipe) {
    && |p.origin| == |p.sent| && Position(p) <= p.high && p.fill.channels <= WIDTH
    && (forall e :: 0 <= e < |p.sent| ==>
          && p.origin[e] < p.high && p.origin[e] < |p.accepted|
          && p.sent[e] == p.accepted[p.origin[e]][..p.fill.channels])
    && forall k: nat :: k < p.high ==> Reached(p.origin, k)
  }

  ghost predicate Counts(p: Pipe) {
    && p.frames == |p.sent| + p.fill.held
    && p.misses == (if p.fill.dryPacket then 1 else 0)
  }

  /** In a dry spell the frame in hand is the last real one, decayed once for every held frame after the first. */
  ghost predicate Fading(p: Pipe) {
    && |p.lastReal| == |p.fill.last| == p.fill.channels
    && forall c :: 0 <= c < |p.fill.last| ==>
         p.fill.last[c] == DecayN(p.lastReal[c], if p.fill.heldRun == 0 then 0 else p.fill.heldRun - 1)
  }

  ghost predicate Inv(p: Pipe) {
    Cursors(p) && Contents(p) && Streams(p) && Counts(p) && Fading(p)
  }

  lemma StoreKeepsEarlier(slot: Slot, j: nat, f: Frame, i: nat)
    requires i <= j < FRAMES
    ensures FrameOf(slot.(audio := Store(slot.audio, j, f)), i) == if i == j then f else FrameOf(slot, i)
  {
    var front, p, q := slot.audio[..j * WIDTH], i * WIDTH, j * WIDTH;
    var stored: seq<Sample> := front + f + slot.audio[q + WIDTH..];
    if i < j {
      assert stored[..q] == front;
      assert stored[p..p + WIDTH] == stored[..q][p..p + WIDTH] == front[p..p + WIDTH] == slot.audio[p..p + WIDTH];
    } else {
      assert stored[q..q + WIDTH] == f;
    }
  }

  /** Extending a partly written slot by one accepted frame. */
  lemma HoldsOneMore(slot: Slot, n: nat, accepted: seq<Frame>, base: nat, f: Frame)
    requires n < FRAMES && Holds(slot, n, accepted, base) && base + n == |accepted|
    ensures Holds(slot.(audio := Store(slot.audio, n, f)), n + 1, accepted + [f], base)
  {
    var s := slot.(audio := Store(slot.audio, n, f));
    forall j: nat | j < n + 1
      ensures FrameOf(s, j) == (accepted + [f])[base + j]
    {
      StoreKeepsEarlier(slot, n, f, j);
    }
  }

  lemma HoldsMore(slot: Slot, n: nat, accepted: seq<Frame>, base: nat, f: Frame)
    requires Holds(slot, n, accepted, base)
    ensures Holds(slot, n, accepted + [f], base)
  {}

  lemma PushKeepsInv(p: Pipe, f: Frame)
    requires Inv(p)
    ensures Inv(Next(p, PushFrame(f)))
  {
    if Accepts(p.ring, p.writer) {
      var q := Next(p, PushFrame(f));
      var i := p.ring.head % SLOTS;
      var at := if p.writer.holding then p.writer.frame else 0;
      assert Holds(p.ring.slots[i], at, p.accepted, p.ring.head * FRAMES);
      HoldsOneMore(p.ring.slots[i], at, p.accepted, p.ring.head * FRAMES, f);
      var stored := p.ring.slots[i].(audio := Store(p.ring.slots[i].audio, at, f));
      assert q.ring.slots[i].audio == stored.audio;
      assert Holds(q.ring.slots[i], at + 1, q.accepted, p.ring.head * FRAMES) by {
        assert forall j: nat :: j < at + 1 ==> FrameOf(q.ring.slots[i], j) == FrameOf(stored, j);
      }
      forall k | p.ring.tail <= k < p.ring.head
        ensures q.ring.slots[k % SLOTS] == p.ring.slots[k % SLOTS]
        ensures Holds(q.ring.slots[k % SLOTS], FRAMES, q.accepted, k * FRAMES)
      {
        if k % SLOTS == i { SameSlot(k, p.ring.head, SLOTS); }
        HoldsMore(p.ring.slots[k % SLOTS], FRAMES, p.accepted, k * FRAMES, f);
      }
    }
  }

  /** A slot the fill holds emits the accepted frame at its position, cut to the device's channels. */
  lemma EmittedIsAccepted(slot: Slot, pos: nat, channels: nat, accepted: seq<Frame>, base: nat)
    requires Holds(slot, FRAMES, accepted, base) && pos < FRAMES && channels <= WIDTH && slot.channelCount == WIDTH
    ensures DeviceFrame(slot, pos, channels) == accepted[base + pos][..channels]
  {
    assert FrameOf(slot, pos) == accepted[base + pos];
    forall c | 0 <= c < channels
      ensures SampleAt(slot, pos, channels, c) == accepted[base + pos][c]
    {
      assert FrameOf(slot, pos)[c] == slot.audio[pos * WIDTH + c];
    }
  }

  /** The pipe after a finished slot has gone back: the same invariant, and nothing held is finished. */
  lemma GiveBackKeepsInv(p: Pipe)
    requires Inv(p)
    ensures var (t, r) := GiveBack(p.fill, p.ring);
            var q := p.(fill := t, ring := r);
            Inv(q) && (t.slot.At? ==> t.pos < FRAMES) && Position(q) == Position(p)
  {}

  lemma AcquireKeepsInv(p: Pipe)
    requires Inv(p) && (p.fill.slot.At? ==> p.fill.pos < FRAMES)
    ensures var (t, r) := Acquire(p.fill, p.ring);
            var q := p.(fill := t, ring := r, misses := p.misses + (r.underruns - p.ring.underruns));
            && Inv(q) && (t.slot.At? ==> t.pos < FRAMES) && Position(q) == Position(p)
            && p.misses <= q.misses <= 1
  {}

  lemma EmitKeepsInv(p: Pipe, t: Fill)
    requires Inv(p) && (p.fill.slot.At? ==> p.fill.pos < FRAMES) && t == Emit(p.fill, p.ring)
    ensures Inv(Taken(p, t, p.ring, Position(p)))
    ensures Position(Taken(p, t, p.ring, Position(p))) == if t.slot.At? then Position(p) + 1 else Position(p)
  {
    if p.fill.slot.At? {
      var k := p.ring.tail;
      EmittedIsAccepted(p.ring.slots[k % SLOTS], p.fill.pos, p.fill.channels, p.accepted, k * FRAMES);
      OneMoreSent(p, t);
    } else if p.fill.heldRun > 0 {
      forall c | 0 <= c < |t.last|
        ensures t.last[c] == DecayN(p.lastReal[c], t.heldRun - 1)
      {}
    }
  }

  lemma OneMoreSent(p: Pipe, t: Fill)
    requires Streams(p) && t.slot.At? && t.channels == p.fill.channels <= WIDTH && t.pos == p.fill.pos + 1
    requires p.fill.slot.At? && Position(p) < |p.accepted| && t.last == p.accepted[Position(p)][..t.channels]
    ensures Streams(Taken(p, t, p.ring, Position(p)))
  {
    var q := Taken(p, t, p.ring, Position(p));
    assert q.origin[|p.origin|] == Position(p);
    forall k: nat | k < q.high
      ensures Reached(q.origin, k)
    {
      if k < p.high {
        assert Reached(p.origin, k);
        var e :| 0 <= e < |p.origin| && p.origin[e] == k;
        assert q.origin[e] == k;
      } else {
        assert k == Position(p);
      }
    }
  }

  /** One frame taken: a real one is the accepted frame at the fill's position, which then moves on. */
  lemma TakeKeepsInv(p: Pipe)
    requires Inv(p)
    ensures var q := Next(p, TakeFrame);
            && Inv(q) && q.accepted == p.accepted && q.ring.head == p.ring.head
            && q == Taken(p, q.fill, q.ring, Position(p))
            && Position(q) == if q.fill.slot.At? then Position(p) + 1 else Position(p)
  {
    hide Contents, Streams, Counts, Fading, Emit;
    var (t1, r1) := GiveBack(p.fill, p.ring);
    var p1 := p.(fill := t1, ring := r1);
    GiveBackKeepsInv(p);
    var (t2, r2) := Acquire(t1, r1);
    var p2 := p1.(fill := t2, ring := r2, misses := p1.misses + (r2.underruns - r1.underruns));
    AcquireKeepsInv(p1);
    EmitKeepsInv(p2, Emit(t2, r2));
    EmitMoves(t2, r2);
  }

  /** The tick's statistic: it is dry once an acquire in it has failed, and only then. */
  lemma DryTickSaysAMiss(p: Pipe)
    requires WriterOk(p)
    ensures var q := Next(p, TakeFrame);
            q.fill.dryTick == (p.fill.dryTick || q.ring.underruns > p.ring.underruns) && q.misses - p.misses <= 1
    ensures !Next(p, BeginTick).fill.dryTick && !Next(p, ResetFill).fill.dryTick
  {}

  lemma EmitMoves(t: Fill, r: Ring)
    requires t.slot.At? ==> t.slot.index < SLOTS
    ensures Emit(t, r).slot == t.slot && (t.slot.At? ==> Emit(t, r).pos == t.pos + 1)
  {}

  lemma NextKeepsInv(p: Pipe, a: Step)
    requires Inv(p)
    ensures Inv(Next(p, a))
  {
    match a
    case PushFrame(f) => PushKeepsInv(p, f);
    case TakeFrame => TakeKeepsInv(p);
    case BeginTick =>
    case BeginPacket =>
    case ResetFill =>
  }

  lemma {:induction false} RunKeepsInv(channels: nat, slots: SlotArray, steps: seq<Step>)
    ensures Inv(Run(Initial(channels, slots), steps))
    decreases |steps|
  {
    if steps != [] {
      RunKeepsInv(channels, slots, steps[..|steps| - 1]);
      NextKeepsInv(Run(Initial(channels, slots), steps[..|steps| - 1]), steps[|steps| - 1]);
    }
  }

  // ---- what that means ------------------------------------------------------------------------------------------

  /** How many frames were asked for since the last real one. */
  ghost function DrySince(channels: nat, slots: SlotArray, steps: seq<Step>): nat
    decreases |steps|
  {
    if steps == [] then 0
    else
      var before := steps[..|steps| - 1];
      if !steps[|steps| - 1].TakeFrame? then DrySince(channels, slots, before)
      else if |Run(Initial(channels, slots), steps).sent| > |Run(Initial(channels, slots), before).sent| then 0
      else DrySince(channels, slots, before) + 1
  }

  /** The fill has counted a dry spell of `dry` frames; the last real frame is the last one sent, or silence. */
  ghost predicate Held(p: Pipe, dry: nat) {
    && p.fill.heldRun == dry
    && if p.sent == [] then |p.lastReal| == p.fill.channels && forall c :: 0 <= c < |p.lastReal| ==> p.lastReal[c] == 0
       else p.lastReal == p.sent[|p.sent| - 1]
  }

  lemma NextHeld(p: Pipe, a: Step, dry: nat)
    requires Inv(p) && Held(p, dry)
    ensures var q := Next(p, a);
            Held(q, if !a.TakeFrame? then dry else if |q.sent| > |p.sent| then 0 else dry + 1)
  {
    if a.TakeFrame? { TakeIsRealOrHeld(p); } else { OthersKeepTheHold(p, a); }
    hide Inv, Next;
  }

  lemma {:induction false} DrySinceIsHeldRun(channels: nat, slots: SlotArray, steps: seq<Step>)
    ensures Held(Run(Initial(channels, slots), steps), DrySince(channels, slots, steps))
    decreases |steps|
  {
    if steps != [] {
      var before, a := steps[..|steps| - 1], steps[|steps| - 1];
      DrySinceIsHeldRun(channels, slots, before);
      RunKeepsInv(channels, slots, before);
      hide Held, Next, Inv;
      NextHeld(Run(Initial(channels, slots), before), a, DrySince(channels, slots, before));
    }
  }

  lemma OthersKeepTheHold(p: Pipe, a: Step)
    requires WriterOk(p) && !a.TakeFrame?
    ensures var q := Next(p, a);
            && q.fill.channels == p.fill.channels && q.fill.heldRun == p.fill.heldRun
            && q.sent == p.sent && q.lastReal == p.lastReal
  {}

  /** A frame taken is a real one, or one more of a dry spell. */
  lemma TakeIsRealOrHeld(p: Pipe)
    requires Inv(p)
    ensures var q := Next(p, TakeFrame);
            && q.fill.channels == p.fill.channels
            && if |q.sent| > |p.sent| then q.fill.heldRun == 0 && q.sent == p.sent + [q.lastReal]
               else q.fill.heldRun == p.fill.heldRun + 1 && q.sent == p.sent && q.lastReal == p.lastReal
  {
    hide Contents, Streams, Counts, Fading;
  }

  /** In any dry spell the first held frame repeats the last real one exactly, or silence if there has been none; every
      later one is that frame decayed, never larger and never of the other sign; and from the 6145th on every channel is
      silent on the wire. */
  lemma DrySpellFadesToSilence(channels: nat, slots: SlotArray, steps: seq<Step>, c: nat)
    requires c < Run(Initial(channels, slots), steps).fill.channels
    ensures var p, dry := Run(Initial(channels, slots), steps), DrySince(channels, slots, steps);
            && |p.fill.last| == p.fill.channels && (p.sent != [] ==> |p.sent[|p.sent| - 1]| == p.fill.channels)
            && var heard := if p.sent == [] then 0 else p.sent[|p.sent| - 1][c];
               && p.fill.last[c] == DecayN(heard, if dry == 0 then 0 else dry - 1)
               && (heard >= 0 ==> 0 <= p.fill.last[c] <= heard) && (heard <= 0 ==> heard <= p.fill.last[c] <= 0)
               && (dry >= 6145 ==> Wire(p.fill.last[c]) == 0)
  {
    hide Run, Next, Wire, Contents, Streams, Counts;
    RunKeepsInv(channels, slots, steps);
    DrySinceIsHeldRun(channels, slots, steps);
    var p, dry := Run(Initial(channels, slots), steps), DrySince(channels, slots, steps);
    var n := if dry == 0 then 0 else dry - 1;
    var heard := p.lastReal[c];
    assert p.fill.last[c] == DecayN(heard, n);
    MagnitudeNeverGrows(heard, 0, n);
    if dry >= 6145 { SilentAfter6144(heard, n); }
  }

  /** A slot is read at its own width, or the device's if it does not say: what it lacks is silent. */
  lemma SlotIsReadAtItsOwnWidth(slot: Slot, pos: nat, channels: nat, c: nat)
    requires c < channels
    ensures slot.channelCount > 0 && c >= slot.channelCount ==> DeviceFrame(slot, pos, channels)[c] == 0
    ensures slot.channelCount > c && pos * slot.channelCount + c < SLOT_SAMPLES ==>
              DeviceFrame(slot, pos, channels)[c] == slot.audio[pos * slot.channelCount + c]
    ensures slot.channelCount == 0 && pos * channels + c < SLOT_SAMPLES ==>
              DeviceFrame(slot, pos, channels)[c] == slot.audio[pos * channels + c]
  {}

  /** Nothing is stranded: once the plug-in has committed a slot the fill has not finished, the first frame of a new
      packet is a real one. */
  lemma NewPacketFindsCommittedAudio(channels: nat, slots: SlotArray, steps: seq<Step>)
    ensures var p := Next(Run(Initial(channels, slots), steps), BeginPacket);
            Position(p) < p.ring.head * FRAMES ==> |Next(p, TakeFrame).sent| == |p.sent| + 1
  {
    RunKeepsInv(channels, slots, steps);
    var p0 := Run(Initial(channels, slots), steps);
    NextKeepsInv(p0, BeginPacket);
  }

  /** Each frame once: no accepted frame was sent twice. */
  ghost predicate Once(p: Pipe) { Distinct(p.origin) }

  ghost predicate Distinct(origin: seq<nat>) {
    forall e, f :: 0 <= e < f < |origin| ==> origin[e] != origin[f]
  }

  /** Some reset dropped a slot that frames had been taken from. */
  ghost predicate Dropped(channels: nat, slots: SlotArray, steps: seq<Step>)
    decreases |steps|
  {
    steps != [] &&
    var before, a := steps[..|steps| - 1], steps[|steps| - 1];
    var t := Run(Initial(channels, slots), before).fill;
    Dropped(channels, slots, before) || (a.ResetFill? && t.slot.At? && t.pos > 0)
  }

  /** And a real frame was taken after that. */
  ghost predicate Replayed(channels: nat, slots: SlotArray, steps: seq<Step>)
    decreases |steps|
  {
    steps != [] &&
    var before, a := steps[..|steps| - 1], steps[|steps| - 1];
    || Replayed(channels, slots, before)
    || (Dropped(channels, slots, before) && a.TakeFrame? && Run(Initial(channels, slots), steps).fill.slot.At?)
  }

  /** In order so far, and at the highest frame reached unless a slot was dropped. */
  ghost predicate OnTrack(origin: seq<nat>, high: nat, position: nat, dropped: bool) {
    origin == Counting(high) && (dropped <==> position < high)
  }

  /** 0, 1, 2, ... */
  function Counting(n: nat): (s: seq<nat>)
    ensures |s| == n && (n > 0 ==> s[n - 1] == n - 1)
  {
    seq(n, i requires 0 <= i < n => i)
  }

  lemma TakeOnTrack(origin: seq<nat>, high: nat, at: nat, dropped: bool)
    requires OnTrack(origin, high, at, dropped) && at <= high
    ensures if dropped then !Distinct(origin + [at]) else OnTrack(origin + [at], Max(high, at + 1), at + 1, false)
  {
    var all := origin + [at];
    if dropped {
      assert all[at] == at == all[|origin|];
    } else {
      assert all == Counting(at + 1);
    }
  }

  lemma CountingIsDistinct(n: nat)
    ensures Distinct(Counting(n))
  {}

  lemma StillRepeats(origin: seq<nat>, at: nat)
    requires !Distinct(origin)
    ensures !Distinct(origin + [at])
  {
    var e, f :| 0 <= e < f < |origin| && origin[e] == origin[f];
    assert (origin + [at])[e] == (origin + [at])[f];
  }

  /** Every other step leaves what was sent alone; only a reset moves the position, back to the start of its slot. */
  lemma OthersSendNothing(p: Pipe, a: Step)
    requires WriterOk(p) && !a.TakeFrame?
    ensures var q, t := Next(p, a), p.fill;
            && q.origin == p.origin && q.high == p.high
            && Position(q) == Position(p) - if a.ResetFill? && t.slot.At? then t.pos else 0
  {}

  lemma {:induction false} OnTrackOrReplayed(channels: nat, slots: SlotArray, steps: seq<Step>)
    ensures var p := Run(Initial(channels, slots), steps);
            if Replayed(channels, slots, steps) then !Once(p)
            else OnTrack(p.origin, p.high, Position(p), Dropped(channels, slots, steps))
    decreases |steps|
  {
    if steps != [] {
      var before, a := steps[..|steps| - 1], steps[|steps| - 1];
      var p := Run(Initial(channels, slots), before);
      OnTrackOrReplayed(channels, slots, before);
      RunKeepsInv(channels, slots, before);
      if a.TakeFrame? {
        TakeKeepsInv(p);
        var dropped := Dropped(channels, slots, before);
        hide Next, Cursors, Contents, OnTrack, Distinct, Counts, Fading;
        if Replayed(channels, slots, before) {
          StillRepeats(p.origin, Position(p));
        } else {
          TakeOnTrack(p.origin, p.high, Position(p), dropped);
        }
      } else {
        OthersSendNothing(p, a);
      }
    }
  }

  /** For any schedule of frames offered, packets, ring misses and resets: every real frame sent is an accepted one,
      cut to the device's channels, and none up to the furthest reached is left out; each is sent once if and only
      if no real frame was taken after a reset dropped a slot that had been read from. */
  lemma EachOnceUnlessReplayed(channels: nat, slots: SlotArray, steps: seq<Step>)
    ensures var p := Run(Initial(channels, slots), steps);
            && |p.origin| == |p.sent| && p.fill.channels <= WIDTH
            && (forall e :: 0 <= e < |p.sent| ==>
                  p.origin[e] < |p.accepted| && p.sent[e] == p.accepted[p.origin[e]][..p.fill.channels])
            && (forall k: nat :: k < p.high ==> Reached(p.origin, k))
            && (Once(p) <==> !Replayed(channels, slots, steps))
  {
    RunKeepsInv(channels, slots, steps);
    OnTrackOrReplayed(channels, slots, steps);
    CountingIsDistinct(Run(Initial(channels, slots), steps).high);
  }

  /** It does happen: one slot committed, one frame taken from it, a reset, and the same frame again. */
  lemma AResetReplays(f: Frame, slots: SlotArray)
    ensures exists steps :: Replayed(WIDTH, slots, steps) && !Once(Run(Initial(WIDTH, slots), steps))
  {
    hide Run, Next;
    var pushes := seq(FRAMES, _ => PushFrame(f));
    PushesCommit(f, slots, FRAMES);
    var start := Initial(WIDTH, slots);
    var p := Run(start, pushes);
    var s1 := pushes + [TakeFrame];
    var s2 := s1 + [ResetFill];
    var s3 := s2 + [TakeFrame];
    RunLast(start, pushes, TakeFrame);
    TakeFromCommitted(p);
    RunLast(start, s1, ResetFill);
    ResetDrops(Run(start, s1));
    RunLast(start, s2, TakeFrame);
    TakeFromCommitted(Run(start, s2));
    assert s2[..|s2| - 1] == s1 && s3[..|s3| - 1] == s2;
    assert Dropped(WIDTH, slots, s2);
    assert Replayed(WIDTH, slots, s3);
    OnTrackOrReplayed(WIDTH, slots, s3);
  }

  lemma RunLast(p: Pipe, steps: seq<Step>, a: Step)
    requires WriterOk(p)
    ensures Run(p, steps + [a]) == Next(Run(p, steps), a)
  {
    assert (steps + [a])[..|steps + [a]| - 1] == steps;
  }

  lemma ResetDrops(p: Pipe)
    requires WriterOk(p)
    ensures var q := Next(p, ResetFill); q.fill.slot.NoSlot? && !q.fill.dryPacket && q.ring == p.ring
  {}

  lemma TakeFromCommitted(p: Pipe)
    requires WriterOk(p) && p.ring.tail < p.ring.head && p.fill.slot.NoSlot? && !p.fill.dryPacket
    ensures var q := Next(p, TakeFrame);
            q.fill.slot.At? && q.fill.pos == 1 && q.ring.tail == p.ring.tail && q.ring.head == p.ring.head
  {}

  lemma {:induction false} PushesCommit(f: Frame, slots: SlotArray, n: nat)
    requires n <= FRAMES
    ensures var p := Run(Initial(WIDTH, slots), seq(n, _ => PushFrame(f)));
            && p.fill == Initial(WIDTH, slots).fill && p.ring.tail == 0
            && (n < FRAMES ==> p.ring.head == 0 && p.writer == (if n == 0 then Writer(false, 0) else Writer(true, n)))
            && (n == FRAMES ==> p.ring.head == 1)
  {
    if n > 0 {
      PushesCommit(f, slots, n - 1);
      assert seq(n, _ => PushFrame(f))[..n - 1] == seq(n - 1, _ => PushFrame(f));
    }
  }

  /** Without such a replay, and so in every run without resets: the real frames sent are a prefix of the frames
      accepted, each once, in order, cut to the device's channels. Always, held() counts exactly the rest, and a
      packet causes at most one failed acquire. */
  lemma SentIsAPrefixOfAccepted(channels: nat, slots: SlotArray, steps: seq<Step>)
    ensures var p := Run(Initial(channels, slots), steps);
            && p.fill.channels <= WIDTH
            && (!Replayed(channels, slots, steps) ==>
                  && |p.sent| <= |p.accepted|
                  && forall e :: 0 <= e < |p.sent| ==> p.sent[e] == p.accepted[e][..p.fill.channels])
            && p.fill.held == p.frames - |p.sent|
            && p.misses <= 1
  {
    RunKeepsInv(channels, slots, steps);
    OnTrackOrReplayed(channels, slots, steps);
    var p := Run(Initial(channels, slots), steps);
    if !Replayed(channels, slots, steps) && |p.sent| > 0 { assert p.origin[|p.sent| - 1] < |p.accepted|; }
  }

  lemma {:induction false} NoResetNoReplay(channels: nat, slots: SlotArray, steps: seq<Step>)
    requires forall k :: 0 <= k < |steps| ==> !steps[k].ResetFill?
    ensures !Dropped(channels, slots, steps) && !Replayed(channels, slots, steps)
    decreases |steps|
  {
    if steps != [] { NoResetNoReplay(channels, slots, steps[..|steps| - 1]); }
  }
}
