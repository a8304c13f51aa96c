/** The objects on the playback path, with the fields and loops of the source, proved against the functions of
    FramePipeline: the ring (platform/shared/uf_shm_ring.hpp), the transmit fill (platform/shared/uf_tx_fill.hpp)
    and the plug-in's output handler (platform/coreaudio/UFAudioDriver.cpp). */
module PlaybackObjects {
  import opened HoldDecay
  import opened Arithmetic
  import P = FramePipeline

  const MAX_CYCLE_FRAMES: nat := 4096

  class Ring {
    var head: nat
    var tail: nat
    var overruns: nat
    var underruns: nat
    var slots: P.SlotArray

    ghost function View(): P.Ring
      reads this
    {
      P.Ring(head, tail, overruns, underruns, slots)
    }

    constructor (slots: P.SlotArray)
      ensures View() == P.Ring(0, 0, 0, 0, slots)
    {
      head, tail, overruns, underruns := 0, 0, 0, 0;
      this.slots := slots;
    }

    method AcquireWrite() returns (slot: P.SlotRef)
      modifies this`overruns
      ensures head - tail < P.SLOTS ==> slot == P.At(head % P.SLOTS) && overruns == old(overruns)
      ensures head - tail >= P.SLOTS ==> slot == P.NoSlot && overruns == old(overruns) + 1
    {
      if head - tail >= P.SLOTS { overruns := overruns + 1; return P.NoSlot; }
      return P.At(head % P.SLOTS);
    }

    method CommitWrite()
      modifies this`head
      ensures head == old(head) + 1
    {
      head := head + 1;
    }

    method AcquireRead() returns (slot: P.SlotRef)
      modifies this`underruns
      ensures tail != head ==> slot == P.At(tail % P.SLOTS) && underruns == old(underruns)
      ensures tail == head ==> slot == P.NoSlot && underruns == old(underruns) + 1
    {
      if tail == head { underruns := underruns + 1; return P.NoSlot; }
      return P.At(tail % P.SLOTS);
    }

    method CommitRead()
      modifies this`tail
      ensures tail == old(tail) + 1
    {
      tail := tail + 1;
    }
  }

  class TxFill {
    const channels: nat
    var slot: P.SlotRef
    var pos: nat
    var held: nat
    var heldRun: nat
    var dryPacket: bool
    var dryTick: bool
    const last: array<Sample>

    ghost function View(): P.Fill
      reads this, last
      requires channels <= last.Length
    {
      P.Fill(channels, slot, pos, held, heldRun, dryPacket, dryTick, last[..channels])
    }

    ghost predicate Valid()
      reads this
    {
      channels <= P.WIDTH == last.Length && (slot.At? ==> slot.index < P.SLOTS)
    }

    constructor (channels: nat, slots: P.SlotArray)
      ensures Valid() && fresh(last)
      ensures View() == P.Initial(channels, slots).fill
    {
      this.channels := if channels > P.WIDTH then P.WIDTH else channels;
      slot, pos, held, heldRun, dryPacket, dryTick := P.NoSlot, 0, 0, 0, false, false;
      last := new Sample[P.WIDTH](_ => 0);
      new;
      assert last[..this.channels] == P.Initial(channels, slots).fill.last;
    }

    method BeginTick()
      requires Valid()
      modifies this`dryTick
      ensures Valid() && View() == old(View()).(dryTick := false)
    {
      dryTick := false;
    }

    /** What a session restart calls: the held slot is dropped, and stays with the ring. */
    method Reset()
      requires Valid()
      modifies this
      ensures Valid() && View() == P.Reset(old(View()))
    {
      slot, pos, dryPacket, dryTick := P.NoSlot, 0, false, false;
    }

    method BeginPacket()
      requires Valid()
      modifies this`dryPacket
      ensures Valid() && View() == old(View()).(dryPacket := false)
    {
      dryPacket := false;
    }

    /** The samples of the held slot at the current position, cut or padded to the device's channels. */
    method CopyFrame(s: P.Slot)
      requires Valid()
      modifies last
      ensures last[..channels] == P.DeviceFrame(s, pos, channels)
    {
      var nsrc := if s.channelCount != 0 then s.channelCount else channels;
      for c := 0 to channels
        invariant forall k :: 0 <= k < c ==> last[k] == P.SampleAt(s, pos, channels, k)
      {
        last[c] := if c < nsrc && pos * nsrc + c < P.SLOT_SAMPLES then s.audio[pos * nsrc + c] else 0;
      }
    }

    method DecayFrame()
      requires Valid()
      modifies last
      ensures last[..channels] == P.Faded(old(last[..channels]))
    {
      ghost var was := last[..channels];
      for c := 0 to channels
        invariant forall k :: 0 <= k < c ==> last[k] == Decay(was[k])
        invariant forall k :: c <= k < channels ==> last[k] == was[k]
      {
        last[c] := last[c] - Shr8(last[c]);
      }
    }

    method GetFrame(play: Ring) returns (frame: seq<Sample>)
      requires Valid()
      modifies this, last, play
      ensures Valid()
      ensures (View(), play.View()) == P.NextFrame(old(View()), old(play.View()))
      ensures frame == View().last
    {
      ghost var t0, r0 := View(), play.View();
      if slot.At? && pos >= play.slots[slot.index].frameCount { play.CommitRead(); slot := P.NoSlot; }
      assert (View(), play.View()) == P.GiveBack(t0, r0);
      ghost var t1, r1 := View(), play.View();
      if slot.NoSlot? && !dryPacket {
        slot := play.AcquireRead();
        pos := 0;
        if slot.NoSlot? { dryPacket := true; dryTick := true; }
      }
      assert (View(), play.View()) == P.Acquire(t1, r1);
      ghost var t2 := View();
      if slot.At? {
        CopyFrame(play.slots[slot.index]);
        pos := pos + 1;
        heldRun := 0;
      } else {
        if heldRun != 0 { DecayFrame(); }
        heldRun := heldRun + 1;
        held := held + 1;
      }
      assert View() == P.Emit(t2, play.View());
      frame := last[..channels];
    }
  }

  // ---- the plug-in's output handler -----------------------------------------------------------------------------

  /** The staged cycle, one full-width frame after another. */
  type Stage = s: seq<Sample> | |s| == MAX_CYCLE_FRAMES * P.WIDTH witness seq(MAX_CYCLE_FRAMES * P.WIDTH, _ => 0)

  function StagedFrame(stage: Stage, f: nat): P.Frame
    requires f < MAX_CYCLE_FRAMES
  {
    stage[f * P.WIDTH..f * P.WIDTH + P.WIDTH]
  }

  /** Push the staged frames one after another; a refusal drops the rest of the cycle. */
  function Flushed(r: P.Ring, w: P.Writer, stage: Stage, f: nat, n: nat): (P.Ring, P.Writer)
    requires f <= n <= MAX_CYCLE_FRAMES && (w.holding ==> w.frame < P.FRAMES)
    decreases n - f
  {
    if f == n then (r, w)
    else
      var (r', w') := P.Push(r, w, StagedFrame(stage, f));
      if !P.Accepts(r, w) then (r', w') else Flushed(r', w', stage, f + 1, n)
  }

  /** A flush is a run of the pipeline in which only the plug-in moves: every staged frame up to the first refusal is
      offered, and that is all. */
  lemma {:induction false} FlushIsARunOfPushes(p: P.Pipe, stage: Stage, f: nat, n: nat) returns (steps: seq<P.Step>)
    requires f <= n <= MAX_CYCLE_FRAMES && P.WriterOk(p)
    ensures var q := P.Run(p, steps);
            && (q.ring, q.writer) == Flushed(p.ring, p.writer, stage, f, n)
            && q.fill == p.fill && q.sent == p.sent
    ensures |steps| <= n - f && forall k :: 0 <= k < |steps| ==> steps[k] == P.PushFrame(StagedFrame(stage, f + k))
    decreases n - f
  {
    hide P.Run, P.Next, P.Push, P.Accepts, StagedFrame;
    if f == n {
      steps := [];
      RunNothing(p);
    } else {
      var a := P.PushFrame(StagedFrame(stage, f));
      var q := P.Next(p, a);
      PushAlone(p, StagedFrame(stage, f));
      if !P.Accepts(p.ring, p.writer) {
        steps := [a];
        assert [a] == [a] + [];
        RunFrontStep(p, a, []);
        RunNothing(q);
      } else {
        var rest := FlushIsARunOfPushes(q, stage, f + 1, n);
        steps := [a] + rest;
        RunFrontStep(p, a, rest);
      }
    }
  }

  lemma RunNothing(p: P.Pipe)
    requires P.WriterOk(p)
    ensures P.Run(p, []) == p
  {}

  lemma PushAlone(p: P.Pipe, f: P.Frame)
    requires P.WriterOk(p)
    ensures var q := P.Next(p, P.PushFrame(f));
            (q.ring, q.writer) == P.Push(p.ring, p.writer, f) && q.fill == p.fill && q.sent == p.sent
  {}

  lemma {:induction false} RunFrontStep(p: P.Pipe, a: P.Step, rest: seq<P.Step>)
    requires P.WriterOk(p)
    ensures P.Run(p, [a] + rest) == P.Run(P.Next(p, a), rest)
    decreases |rest|
  {
    var all := [a] + rest;
    if rest == [] {
      assert all[..0] == [];
    } else {
      assert all[..|all| - 1] == [a] + rest[..|rest| - 1];
      RunFrontStep(p, a, rest[..|rest| - 1]);
    }
  }

  /** What one stream brings to a cycle: its first ring column, how many channels it carries, and its samples, frame by
      frame. */
  datatype Contribution = Contribution(base: nat, chan: nat, bytes: seq<Sample>)

  predicate Usable(c: Contribution) { c.chan != 0 && c.base < P.WIDTH }

  function FramesIn(c: Contribution): nat
    requires Usable(c)
  {
    Min(|c.bytes| / c.chan, MAX_CYCLE_FRAMES)
  }

  /** How many of its channels fit the ring's width. */
  function Columns(c: Contribution): nat
    requires Usable(c)
  {
    Min(c.chan, P.WIDTH - c.base)
  }

  lemma InWhole(bytes: nat, f: nat, chan: nat, c: nat)
    requires chan > 0 && f < bytes / chan && c < chan
    ensures f * chan + c < bytes
  {
    InBounds(bytes / chan, chan, c, f);
  }

  function SampleOf(c: Contribution, f: nat, column: nat): Sample
    requires Usable(c) && f < FramesIn(c) && column < Columns(c)
  {
    InWhole(|c.bytes|, f, c.chan, column);
    c.bytes[f * c.chan + column]
  }

  /** Sample `k` of the stage once the stream has written its columns into frames below `frames`. */
  function ColumnsAt(old_: Sample, c: Contribution, frames: nat, k: nat): Sample
    requires Usable(c) && frames <= FramesIn(c)
  {
    if k / P.WIDTH < frames && c.base <= k % P.WIDTH < c.base + Columns(c)
    then SampleOf(c, k / P.WIDTH, k % P.WIDTH - c.base)
    else old_
  }

  /** One more frame copied. */
  lemma ColumnsNext(old_: Sample, c: Contribution, f: nat, k: nat, now: Sample)
    requires Usable(c) && f < FramesIn(c)
    requires var start := f * P.WIDTH + c.base;
             now == if start <= k < start + Columns(c) then SampleOf(c, f, k - start) else ColumnsAt(old_, c, f, k)
    ensures now == ColumnsAt(old_, c, f + 1, k)
  {
    hide SampleOf;
    assert k == k / P.WIDTH * P.WIDTH + k % P.WIDTH;
  }

  function WithColumns(stage: Stage, c: Contribution): Stage
    requires Usable(c)
  {
    seq(|stage|, k requires 0 <= k < |stage| => ColumnsAt(stage[k], c, FramesIn(c), k))
  }

  /** A fresh cycle: silence in its first `n` frames. */
  function Silenced(stage: Stage, n: nat): Stage {
    seq(|stage|, k requires 0 <= k < |stage| => if k < n * P.WIDTH then 0 else stage[k])
  }

  datatype Handler = Handler(stage: Stage, writer: P.Writer, outCycle: int, outFrames: nat, seen: nat)

  predicate HandlerOk(h: Handler) {
    h.outFrames <= MAX_CYCLE_FRAMES && (h.writer.holding ==> h.writer.frame < P.FRAMES)
  }

  lemma {:induction false} FlushedWriterOk(r: P.Ring, w: P.Writer, stage: Stage, f: nat, n: nat)
    requires f <= n <= MAX_CYCLE_FRAMES && (w.holding ==> w.frame < P.FRAMES)
    ensures var (_, w') := Flushed(r, w, stage, f, n); w'.holding ==> w'.frame < P.FRAMES
    decreases n - f
  {
    if f < n {
      var (r', w') := P.Push(r, w, StagedFrame(stage, f));
      if P.Accepts(r, w) { FlushedWriterOk(r', w', stage, f + 1, n); }
    }
  }

  function Flush(h: Handler, r: P.Ring): (res: (Handler, P.Ring))
    requires HandlerOk(h)
    ensures HandlerOk(res.0)
  {
    var (r', w') := Flushed(r, h.writer, h.stage, 0, h.outFrames);
    FlushedWriterOk(r, h.writer, h.stage, 0, h.outFrames);
    (h.(writer := w', outFrames := 0), r')
  }

  /** Open a cycle if this call belongs to a new one. */
  function Opened(h: Handler, r: P.Ring, c: Contribution, sampleTime: int): (res: (Handler, P.Ring))
    requires HandlerOk(h) && Usable(c)
    ensures HandlerOk(res.0)
  {
    if sampleTime == h.outCycle then (h, r)
    else
      var (h', r') := Flush(h, r);
      (h'.(stage := Silenced(h'.stage, FramesIn(c)), outCycle := sampleTime, outFrames := FramesIn(c), seen := 0), r')
  }

  /** OnWriteMixedOutput: one stream's call. */
  function Mixed(h: Handler, r: P.Ring, count: nat, c: Contribution, sampleTime: int): (res: (Handler, P.Ring))
    requires HandlerOk(h)
    ensures HandlerOk(res.0)
  {
    if !Usable(c) then (h, r)
    else
      var (h1, r1) := Opened(h, r, c, sampleTime);
      var h2 := h1.(stage := WithColumns(h1.stage, c), seen := h1.seen + 1);
      if h2.seen >= count then
        var (h3, r3) := Flush(h2, r1);
        (h3.(outCycle := -1), r3)
      else (h2, r1)
  }

  /** The calls of one cycle, one stream after another. */
  function Cycle(h: Handler, r: P.Ring, count: nat, cs: seq<Contribution>, sampleTime: int): (res: (Handler, P.Ring))
    requires HandlerOk(h)
    ensures HandlerOk(res.0)
    decreases |cs|
  {
    if cs == [] then (h, r)
    else
      var (h', r') := Mixed(h, r, count, cs[0], sampleTime);
      Cycle(h', r', count, cs[1..], sampleTime)
  }

  /** The stage with every stream's columns written in, in order. */
  function Assembled(stage: Stage, cs: seq<Contribution>): Stage
    requires forall c :: c in cs ==> Usable(c)
    decreases |cs|
  {
    if cs == [] then stage else Assembled(WithColumns(stage, cs[0]), cs[1..])
  }

  /** One more stream. */
  lemma {:induction false} AssembledNext(stage: Stage, cs: seq<Contribution>, c: Contribution)
    requires forall d :: d in cs + [c] ==> Usable(d)
    ensures forall d :: d in cs ==> Usable(d)
    ensures Assembled(stage, cs + [c]) == WithColumns(Assembled(stage, cs), c)
    decreases |cs|
  {
    var all := cs + [c];
    assert forall d :: d in cs ==> d in all;
    assert c in all && all[0] in all;
    hide WithColumns;
    if cs == [] {
      assert all == [c] && all[1..] == [];
    } else {
      assert all[0] == cs[0] && all[1..] == cs[1..] + [c];
      assert forall d :: d in all[1..] ==> d in all;
      AssembledNext(WithColumns(stage, cs[0]), cs[1..], c);
    }
  }

  ghost predicate SameCycle(cs: seq<Contribution>, n: nat) {
    forall c :: c in cs ==> Usable(c) && FramesIn(c) == n
  }

  /** Once a cycle is open, its remaining streams only add columns, until the last one publishes it all. */
  lemma {:induction false} OpenCyclePublishes(h: Handler, r: P.Ring, count: nat, cs: seq<Contribution>,
      sampleTime: int, n: nat)
    requires HandlerOk(h) && cs != [] && SameCycle(cs, n)
    requires h.outCycle == sampleTime && h.outFrames == n && h.seen + |cs| == count
    ensures var (h', r') := Cycle(h, r, count, cs, sampleTime);
            && (r', h'.writer) == Flushed(r, h.writer, Assembled(h.stage, cs), 0, n)
            && h'.outFrames == 0 && h'.outCycle == -1
    decreases |cs|
  {
    var (h', r') := Mixed(h, r, count, cs[0], sampleTime);
    if |cs| > 1 {
      assert h' == h.(stage := WithColumns(h.stage, cs[0]), seen := h.seen + 1) && r' == r;
      OpenCyclePublishes(h', r', count, cs[1..], sampleTime, n);
    } else {
      assert cs[1..] == [];
      assert Assembled(h.stage, cs) == WithColumns(h.stage, cs[0]);
    }
  }

  /** A cycle to which every stream contributes reaches the ring in one piece, as soon as the last one has: the
      frames offered are the assembled ones, starting from silence, and nothing of the cycle is left behind. */
  lemma CycleIsPublishedWhole(h: Handler, r: P.Ring, cs: seq<Contribution>, sampleTime: int, n: nat)
    requires HandlerOk(h) && cs != [] && SameCycle(cs, n)
    requires h.outFrames == 0 && h.outCycle != sampleTime
    ensures var (h', r') := Cycle(h, r, |cs|, cs, sampleTime);
            && (r', h'.writer) == Flushed(r, h.writer, Assembled(Silenced(h.stage, n), cs), 0, n)
            && h'.outFrames == 0 && h'.outCycle == -1
  {
    var (h1, r1) := Opened(h, r, cs[0], sampleTime);
    assert (h1, r1) == (h.(stage := Silenced(h.stage, n), outCycle := sampleTime, outFrames := n, seen := 0), r);
    assert Cycle(h, r, |cs|, cs, sampleTime) == Cycle(h1, r1, |cs|, cs, sampleTime);
    OpenCyclePublishes(h1, r1, |cs|, cs, sampleTime, n);
  }

  ghost predicate Covers(c: Contribution, column: nat)
    requires Usable(c)
  {
    c.base <= column < c.base + Columns(c)
  }

  lemma ColumnAfter(stage: Stage, c: Contribution, f: nat, column: nat)
    requires Usable(c) && f < FramesIn(c) && column < P.WIDTH
    ensures StagedFrame(WithColumns(stage, c), f)[column]
            == if Covers(c, column) then SampleOf(c, f, column - c.base) else StagedFrame(stage, f)[column]
  {
    var k := f * P.WIDTH + column;
    assert k / P.WIDTH == f && k % P.WIDTH == column;
  }

  /** In the assembled cycle a column no stream covers is what it was before the cycle's first stream. */
  lemma {:induction false} UncoveredColumnIsUntouched(stage: Stage, cs: seq<Contribution>, n: nat, f: nat, column: nat)
    requires SameCycle(cs, n) && f < n <= MAX_CYCLE_FRAMES && column < P.WIDTH
    requires forall c :: c in cs ==> !Covers(c, column)
    ensures StagedFrame(Assembled(stage, cs), f)[column] == StagedFrame(stage, f)[column]
    decreases |cs|
  {
    if cs != [] {
      ColumnAfter(stage, cs[0], f, column);
      UncoveredColumnIsUntouched(WithColumns(stage, cs[0]), cs[1..], n, f, column);
    }
  }

  lemma SampleIs(c: Contribution, f: nat, j: nat)
    requires Usable(c) && f < FramesIn(c) && j < Columns(c)
    ensures f * c.chan + j < |c.bytes| && SampleOf(c, f, j) == c.bytes[f * c.chan + j]
  {
    InWhole(|c.bytes|, f, c.chan, j);
  }

  /** A stream's channel `j` lands in its own column: sample `f * chan + j` of what it brought, in frame `f`. */
  lemma ChannelLandsInItsColumn(stage: Stage, c: Contribution, f: nat, j: nat)
    requires Usable(c) && f < FramesIn(c) && j < Columns(c)
    ensures f * c.chan + j < |c.bytes|
    ensures StagedFrame(WithColumns(stage, c), f)[c.base + j] == c.bytes[f * c.chan + j]
  {
    SampleIs(c, f, j);
    ColumnAfter(stage, c, f, c.base + j);
  }

  /** A stream is left out as a whole exactly when none of its channels has a place on the ring. */
  lemma UsableExactlyIfAChannelFits(c: Contribution)
    ensures Usable(c) <==> exists j: nat :: j < c.chan && Fits(c, j)
  {
    if Usable(c) { assert Fits(c, 0); }
  }

  predicate Fits(c: Contribution, j: nat) { c.base + j < P.WIDTH }

  /** Only what does not fit is left out: a frame that is not whole or is beyond the stage, a column beyond the ring's
      width. */
  lemma OnlyWhatDoesNotFitIsLeftOut(c: Contribution)
    requires Usable(c)
    ensures FramesIn(c) <= MAX_CYCLE_FRAMES && FramesIn(c) * c.chan <= |c.bytes|
    ensures FramesIn(c) < MAX_CYCLE_FRAMES ==> |c.bytes| < (FramesIn(c) + 1) * c.chan
    ensures c.base + Columns(c) <= P.WIDTH && Columns(c) <= c.chan
    ensures Columns(c) < c.chan ==> c.base + Columns(c) == P.WIDTH
  {
    var whole := |c.bytes| / c.chan;
    assert whole * c.chan <= |c.bytes| < (whole + 1) * c.chan;
    MulLe(FramesIn(c), whole, c.chan);
  }

  /** The sample is the one the stream's interleaved buffer has for that frame and its channel. */
  ghost predicate Carries(c: Contribution, f: nat, column: nat, sample: Sample)
    requires c.base <= column
  {
    var k := f * c.chan + (column - c.base);
    k < |c.bytes| && sample == c.bytes[k]
  }

  /** A column carries exactly the samples of the last stream that covers it. */
  lemma {:induction false} CoveredColumnIsTheStreams(stage: Stage, cs: seq<Contribution>, n: nat, f: nat, column: nat,
      i: nat)
    requires SameCycle(cs, n) && f < n <= MAX_CYCLE_FRAMES && column < P.WIDTH
    requires i < |cs| && Covers(cs[i], column)
    requires forall c :: c in cs[i + 1..] ==> !Covers(c, column)
    ensures Carries(cs[i], f, column, StagedFrame(Assembled(stage, cs), f)[column])
    decreases |cs|
  {
    if i == 0 {
      ColumnAfter(stage, cs[0], f, column);
      SampleIs(cs[0], f, column - cs[0].base);
      UncoveredColumnIsUntouched(WithColumns(stage, cs[0]), cs[1..], n, f, column);
    } else {
      assert cs[1..][i..] == cs[i + 1..];
      CoveredColumnIsTheStreams(WithColumns(stage, cs[0]), cs[1..], n, f, column, i - 1);
    }
  }

  /** So an idle group comes out silent: a fresh cycle starts from zero in every frame it will publish. */
  lemma IdleGroupIsSilent(stage: Stage, cs: seq<Contribution>, n: nat, f: nat, column: nat)
    requires SameCycle(cs, n) && f < n <= MAX_CYCLE_FRAMES && column < P.WIDTH
    requires forall c :: c in cs ==> !Covers(c, column)
    ensures StagedFrame(Assembled(Silenced(stage, n), cs), f)[column] == 0
  {
    UncoveredColumnIsUntouched(Silenced(stage, n), cs, n, f, column);
  }

  class OutputHandler {
    const outStage: array<Sample>
    var wrSlot: P.SlotRef
    var wrFrame: nat
    var outCycle: int         // the sample time being assembled; -1: none
    var outFrames: nat
    var outStreamsSeen: nat
    const outStreamCount: nat

    ghost predicate Valid(play: Ring)
      reads this, play
    {
      && outStage.Length == MAX_CYCLE_FRAMES * P.WIDTH && outFrames <= MAX_CYCLE_FRAMES
      && (wrSlot.At? ==> wrSlot.index == play.head % P.SLOTS && wrFrame < P.FRAMES)
    }

    ghost function WriterView(): P.Writer
      reads this
    {
      P.Writer(wrSlot.At?, wrFrame)
    }

    constructor (outStreamCount: nat, play: Ring)
      ensures Valid(play) && fresh(outStage) && outStage[..] == seq(outStage.Length, _ => 0)
      ensures WriterView() == P.Writer(false, 0) && outCycle == -1 && outFrames == 0
      ensures this.outStreamCount == outStreamCount
    {
      outStage := new Sample[MAX_CYCLE_FRAMES * P.WIDTH](_ => 0);
      wrSlot, wrFrame, outCycle, outFrames, outStreamsSeen := P.NoSlot, 0, -1, 0, 0;
      this.outStreamCount := outStreamCount;
    }

    method FlushStageToRing(play: Ring)
      requires Valid(play)
      modifies this`wrSlot, this`wrFrame, this`outFrames, play
      ensures Valid(play) && outFrames == 0
      ensures (play.View(), WriterView())
              == Flushed(old(play.View()), old(WriterView()), outStage[..], 0, old(outFrames))
    {
      ghost var end := Flushed(play.View(), WriterView(), outStage[..], 0, outFrames);
      var f := 0;
      while f < outFrames
        invariant Valid(play) && 0 <= f <= outFrames == old(outFrames)
        invariant Flushed(play.View(), WriterView(), outStage[..], f, outFrames) == end
      {
        var accepted := PushStaged(play, f);
        if !accepted { break; }
        f := f + 1;
      }
      outFrames := 0;
    }

    /** One turn of that loop: the staged frame goes into the slot being written, if there is one to be had. */
    method PushStaged(play: Ring, f: nat) returns (accepted: bool)
      requires Valid(play) && f < outFrames
      modifies this`wrSlot, this`wrFrame, play
      ensures Valid(play) && accepted == P.Accepts(old(play.View()), old(WriterView()))
      ensures (play.View(), WriterView())
              == P.Push(old(play.View()), old(WriterView()), StagedFrame(outStage[..], f))
    {
      hide P.Store;
      if wrSlot.NoSlot? {
        wrSlot := play.AcquireWrite();
        wrFrame := 0;
        if wrSlot.NoSlot? { return false; }
      }
      var i := wrSlot.index;
      var frame := outStage[f * P.WIDTH..f * P.WIDTH + P.WIDTH];
      assert frame == StagedFrame(outStage[..], f);
      hide StagedFrame;
      var slot := play.slots[i];
      slot := slot.(audio := P.Store(slot.audio, wrFrame, frame));
      play.slots := play.slots[i := slot];
      wrFrame := wrFrame + 1;
      if wrFrame >= P.FRAMES {
        slot := slot.(frameCount := wrFrame, channelCount := P.WIDTH);
        play.slots := play.slots[i := slot];
        assert play.slots == old(play.slots)[i := slot];
        play.CommitWrite();
        wrSlot := P.NoSlot;
      }
      return true;
    }

    ghost function View(): Handler
      reads this, outStage
      requires outStage.Length == MAX_CYCLE_FRAMES * P.WIDTH
    {
      Handler(outStage[..], WriterView(), outCycle, outFrames, outStreamsSeen)
    }

    method ZeroStage(frames: nat)
      requires outStage.Length == MAX_CYCLE_FRAMES * P.WIDTH && frames <= MAX_CYCLE_FRAMES
      modifies outStage
      ensures outStage[..] == Silenced(old(outStage[..]), frames)
    {
      for k := 0 to frames * P.WIDTH
        invariant forall j :: 0 <= j < outStage.Length ==> outStage[j] == if j < k then 0 else old(outStage[j])
      {
        outStage[k] := 0;
      }
    }

    /** One frame's columns, from `start` in the stage. */
    method CopyRow(c: Contribution, f: nat, start: nat)
      requires outStage.Length == MAX_CYCLE_FRAMES * P.WIDTH && Usable(c)
      requires f < FramesIn(c) && start == f * P.WIDTH + c.base
      modifies outStage
      ensures forall k :: 0 <= k < outStage.Length ==>
                outStage[k] == if start <= k < start + Columns(c) then SampleOf(c, f, k - start) else old(outStage[k])
    {
      for j := 0 to Columns(c)
        invariant forall k :: 0 <= k < outStage.Length ==>
                    outStage[k] == if start <= k < start + j then SampleOf(c, f, k - start) else old(outStage[k])
      {
        InWhole(|c.bytes|, f, c.chan, j);
        outStage[start + j] := c.bytes[f * c.chan + j];
      }
    }

    method CopyColumns(c: Contribution)
      requires outStage.Length == MAX_CYCLE_FRAMES * P.WIDTH && Usable(c)
      modifies outStage
      ensures outStage[..] == WithColumns(old(outStage[..]), c)
    {
      var frames := FramesIn(c);
      for f := 0 to frames
        invariant forall k :: 0 <= k < outStage.Length ==> outStage[k] == ColumnsAt(old(outStage[k]), c, f, k)
      {
        hide ColumnsAt, SampleOf;
        CopyRow(c, f, f * P.WIDTH + c.base);
        forall k | 0 <= k < outStage.Length
          ensures outStage[k] == ColumnsAt(old(outStage[k]), c, f + 1, k)
        {
          ColumnsNext(old(outStage[k]), c, f, k, outStage[k]);
        }
      }
    }

    method OnWriteMixedOutput(play: Ring, c: Contribution, sampleTime: int)
      requires Valid(play)
      modifies this, outStage, play
      ensures Valid(play)
      ensures (View(), play.View()) == Mixed(old(View()), old(play.View()), outStreamCount, c, sampleTime)
    {
      if c.chan == 0 || c.base >= P.WIDTH { return; }
      ghost var h0, r0 := View(), play.View();
      var frames := FramesIn(c);
      if sampleTime != outCycle {
        FlushStageToRing(play);
        assert (View(), play.View()) == Flush(h0, r0);
        outCycle := sampleTime;
        outFrames := frames;
        outStreamsSeen := 0;
        ZeroStage(frames);
      }
      assert (View(), play.View()) == Opened(h0, r0, c, sampleTime);
      ghost var h1, r1 := View(), play.View();
      CopyColumns(c);
      outStreamsSeen := outStreamsSeen + 1;
      ghost var h2 := View();
      assert h2 == h1.(stage := WithColumns(h1.stage, c), seen := h1.seen + 1);
      if outStreamsSeen >= outStreamCount {
        FlushStageToRing(play);
        assert (View(), play.View()) == Flush(h2, r1);
        outCycle := -1;
      }
    }
  }
}
