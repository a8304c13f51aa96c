/** The mixer's way to the device (platform/daemon/uf-daemon.cpp): the pump's command drain with its coalescing,
    rate-limited dirty map, the mixer half of session_start, and the separate drain used while no device is present.

    The pump never renders the whole matrix while streaming. It changes the model, patches the cells the command
    touched into the shadow, and queues them for the device, eight a tick. The invariant says the patched shadow
    always equals a fresh render, and that the device, overlaid with what is queued, always equals the shadow. */
module MixerPump {
  import opened MixerModel

  const WRITES_PER_TICK: nat := 8

  /** A control command as it leaves the queue. `mask` and `value` are the low bytes, the only part that reaches an
      8-bit flags field. */
  datatype Command =
    | SetMixer(kind: SrcKind, src: nat, dest: nat, coeff: u32)
    | SetFader(out: nat, coeff: u32)
    | SetCellFlags(kind: SrcKind, src: nat, dest: nat, mask: bv8, value: bv8)
    | SetOutFlags(out: nat, mask: bv8, value: bv8)
    | SetStereoPair(kind: SrcKind, channel: nat, on: bool)
    | Submix(from: nat, to: nat, clear: bool)
    | SetSettings(settings: int, rate: nat)
    | Other

  type Mask = r: seq<u32> | |r| == CHANNELS witness seq(CHANNELS, _ => 0)

  /** `dirty`: cells changed but not yet pushed, by address. `device`: the device's matrix RAM. `rec`: its record
      mask, of which a session writes the first `dbq` quadlets. `conf`, `clock`: what the device's conf block and
      clock register were last assembled from. */
  datatype Pump = Pump(model: Model, shadow: Image, dirty: map<nat, u32>, device: Image, rec: Mask, dbq: nat, rate: nat,
                       settings: int, conf: int, clock: Clock)

  datatype Clock = Clock(settings: int, rate: nat)

  datatype Event = Drain(c: Command) | WriteTick | SessionStart(dbq: nat, rate: nat)

  function MaskedFlags(f: bv8, mask: bv8, value: bv8): bv8 { (f & !mask) | (value & mask) }

  // ---- the pump's drain -----------------------------------------------------------------------------------------

  /** Store a rendered cell in the shadow and queue it; a later value for the same address replaces it. */
  function PutCell(p: Pump, addr: nat, value: u32): Pump
    requires addr >= MIXER_RAM
  {
    p.(shadow := if IndexOf(addr) < CELLS then p.shadow[IndexOf(addr) := value] else p.shadow,
       dirty := p.dirty[addr := value])
  }

  function PutCrosspoint(p: Pump, kind: SrcKind, src: nat, dest: nat): Pump {
    PutCell(p, CellAddr(kind, src, dest), Quadlet(CellAt(p.model, kind, src, dest)))
  }

  function PutOutput(p: Pump, out: nat): Pump {
    PutCell(p, FaderAddr(out), Quadlet(OutputAt(p.model, out)))
  }

  /** The first `n` sources of a column, inputs and playback. */
  function PutColumn(p: Pump, dest: nat, n: nat): Pump
    decreases n, |p.rec|
  {
    if n == 0 then p
    else PutCrosspoint(PutCrosspoint(PutColumn(p, dest, n - 1), Input, n - 1, dest), Playback, n - 1, dest)
  }

  function MaskBit(rec: Mask, m: Model, dbq: nat, i: nat): u32
    requires i < CHANNELS
  {
    if i < dbq then RecMask(m)[i] else rec[i]
  }

  function MaskWritten(rec: Mask, m: Model, dbq: nat): Mask {
    seq(CHANNELS, i requires 0 <= i < CHANNELS => MaskBit(rec, m, dbq, i))
  }

  function DrainOne(p: Pump, c: Command): Pump {
    match c
    case SetMixer(kind, src, dest, coeff) =>
      var cell := CellAt(p.model, kind, src, dest).(gain := coeff);
      PutCrosspoint(p.(model := WithCell(p.model, kind, src, dest, cell)), kind, src, dest)
    case SetFader(out, coeff) =>
      PutOutput(p.(model := WithOutput(p.model, out, OutputAt(p.model, out).(gain := coeff))), out)
    case SetCellFlags(kind, src, dest, mask, value) =>
      var old_ := CellAt(p.model, kind, src, dest);
      var new_ := old_.(flags := MaskedFlags(old_.flags, mask, value));
      PutCrosspoint(p.(model := WithCell(p.model, kind, src, dest, new_)),
                    kind, src, dest)
    case SetOutFlags(out, mask, value) =>
      var old_ := OutputAt(p.model, out);
      var new_ := old_.(flags := MaskedFlags(old_.flags, mask, value));
      var q := PutOutput(p.(model := WithOutput(p.model, out, new_)), out);
      if Recording(old_) != Recording(new_) then q.(rec := MaskWritten(q.rec, q.model, q.dbq)) else q
    case SetStereoPair(kind, channel, on) => p.(model := SetStereo(p.model, kind, channel, on))
    case Submix(from, to, clear) =>
      var m := if clear then ClearSubmix(p.model, to) else CopySubmix(p.model, from, to);
      PutColumn(p.(model := m), to, CHANNELS)
    case SetSettings(settings, rate) =>
      p.(settings := settings, conf := settings, clock := Clock(settings, if rate != 0 then rate else p.rate))
    case Other => p
  }

  // ---- the rate-limited writes ----------------------------------------------------------------------------------

  lemma {:induction false} LeastOf(s: set<nat>) returns (least: nat)
    requires s != {}
    ensures least in s && forall b :: b in s ==> least <= b
    decreases |s|
  {
    least :| least in s;
    var rest := s - {least};
    if rest != {} {
      var y := LeastOf(rest);
      forall b | b in s
        ensures b == least || b in rest
      {}
      if y < least { least := y; }
    }
  }

  lemma LeastExists(s: set<nat>)
    requires s != {}
    ensures exists a :: a in s && forall b :: b in s ==> a <= b
  {
    var a := LeastOf(s);
  }

  /** The map is walked in address order. */
  ghost function Least(s: set<nat>): (a: nat)
    requires s != {}
    ensures a in s && forall b :: b in s ==> a <= b
  {
    LeastExists(s);
    var a :| a in s && forall b :: b in s ==> a <= b;
    a
  }

  ghost function WriteOne(p: Pump): Pump
    requires p.dirty.Keys != {}
  {
    var a := Least(p.dirty.Keys);
    p.(device := if a >= MIXER_RAM && a == AddrOf(IndexOf(a)) && IndexOf(a) < CELLS
                 then p.device[IndexOf(a) := p.dirty[a]] else p.device,
       dirty := p.dirty - {a})
  }

  ghost function Written(p: Pump, budget: nat): Pump
    decreases budget
  {
    if budget == 0 || p.dirty.Keys == {} then p else Written(WriteOne(p), budget - 1)
  }

  // ---- session_start --------------------------------------------------------------------------------------------

  /** The conf block is written from the settings, the record mask and the whole matrix from the model; what was
      queued stays queued. */
  function Started(p: Pump, dbq: nat, rate: nat): Pump {
    p.(dbq := dbq, rate := rate, conf := p.settings, rec := MaskWritten(p.rec, p.model, dbq),
      shadow := Render(p.model), device := Render(p.model))
  }

  ghost function Next(p: Pump, e: Event): Pump {
    match e
    case Drain(c) => DrainOne(p, c)
    case WriteTick => WrittenKeepsRest(p, WRITES_PER_TICK); Written(p, WRITES_PER_TICK)
    case SessionStart(dbq, rate) => Started(p, dbq, rate)
  }

  ghost function Run(p: Pump, events: seq<Event>): (q: Pump)
    decreases |events|
  {
    if events == [] then p else Next(Run(p, events[..|events| - 1]), events[|events| - 1])
  }

  lemma {:induction false} WrittenKeepsRest(p: Pump, budget: nat)
    ensures var q := Written(p, budget);
            q.model == p.model && q.shadow == p.shadow && q.rec == p.rec && q.dbq == p.dbq && q.rate == p.rate
            && q.settings == p.settings && q.conf == p.conf && q.clock == p.clock
    decreases budget
  {
    if budget != 0 && p.dirty.Keys != {} { WrittenKeepsRest(WriteOne(p), budget - 1); }
  }

  // ---- coherence ------------------------------------------------------------------------------------------------

  /** Every queued write is a cell of the matrix, with the shadow's value. */
  ghost predicate QueueMatches(p: Pump) {
    forall a :: a in p.dirty ==>
      a >= MIXER_RAM && a == AddrOf(IndexOf(a)) && IndexOf(a) < CELLS && p.dirty[a] == p.shadow[IndexOf(a)]
  }

  /** The device, overlaid with what is queued, is the shadow. */
  ghost predicate DeviceMatches(p: Pump) {
    forall i :: 0 <= i < CELLS && AddrOf(i) !in p.dirty ==> p.device[i] == p.shadow[i]
  }

  ghost predicate MaskMatches(p: Pump) {
    forall i :: 0 <= i < p.dbq && i < CHANNELS ==> p.rec[i] == RecMask(p.model)[i]
  }

  ghost predicate Coherent(p: Pump) {
    && p.shadow == Render(p.model)
    && QueueMatches(p) && DeviceMatches(p) && MaskMatches(p)
    && p.conf == p.settings
  }

  lemma PutCellKeepsQueue(p: Pump, addr: nat, value: u32)
    requires addr >= MIXER_RAM && addr == AddrOf(IndexOf(addr)) && IndexOf(addr) < CELLS
    requires QueueMatches(p) && DeviceMatches(p)
    ensures QueueMatches(PutCell(p, addr, value)) && DeviceMatches(PutCell(p, addr, value))
  {}

  lemma IndexOfAddr(i: nat)
    ensures IndexOf(AddrOf(i)) == i
  {}

  lemma Aligned(kind: SrcKind, src: nat, dest: nat)
    ensures CellAddr(kind, src, dest) == AddrOf(IndexOf(CellAddr(kind, src, dest)))
    ensures FaderAddr(src) == AddrOf(IndexOf(FaderAddr(src)))
  {
    var i := dest * 64 + src + (if kind == Playback then 32 else 0);
    assert CellAddr(kind, src, dest) == AddrOf(i);
    IndexOfAddr(i);
    assert FaderAddr(src) == AddrOf(2016 + src);
    IndexOfAddr(2016 + src);
  }

  /** Changing one crosspoint and patching its cell. */
  lemma CrosspointStaysCoherent(p: Pump, kind: SrcKind, src: nat, dest: nat, c: Cell)
    requires Coherent(p) && src < CHANNELS && dest < CHANNELS
    ensures Coherent(PutCrosspoint(p.(model := WithCell(p.model, kind, src, dest, c)), kind, src, dest))
  {
    var m := WithCell(p.model, kind, src, dest, c);
    var q := PutCrosspoint(p.(model := m), kind, src, dest);
    RenderFindsTheCell(m, kind, src, dest);
    Aligned(kind, src, dest);
    PutCellKeepsQueue(p.(model := m), CellAddr(kind, src, dest), Quadlet(c));
    forall i | 0 <= i < CELLS
      ensures q.shadow[i] == Render(m)[i]
    {
      RenderAfterCell(p.model, kind, src, dest, c, i);
    }
    assert q.shadow == Render(m);
  }

  lemma OutputStaysCoherent(p: Pump, out: nat, c: Cell)
    requires Coherent(p) && out < CHANNELS
    ensures var q := PutOutput(p.(model := WithOutput(p.model, out, c)), out);
            && q.shadow == Render(q.model) && QueueMatches(q) && DeviceMatches(q)
            && (Recording(c) == Recording(p.model.outputs[out]) ==> MaskMatches(q))
            && MaskMatches(q.(rec := MaskWritten(q.rec, q.model, q.dbq)))
  {
    var m := WithOutput(p.model, out, c);
    var q := PutOutput(p.(model := m), out);
    Aligned(Input, out, 0);
    PutCellKeepsQueue(p.(model := m), FaderAddr(out), Quadlet(c));
    forall i | 0 <= i < CELLS
      ensures q.shadow[i] == Render(m)[i]
    {
      RenderAfterOutput(p.model, out, c, i);
    }
    assert q.shadow == Render(m);
  }

  /** Whether cell `i` lies in column `dest`, at a source below `n`. */
  predicate InColumn(i: nat, dest: nat, n: nat) { i / 64 == dest && (i % 64 < n || 32 <= i % 64 < 32 + n) }

  /** One crosspoint of the present model patched. */
  lemma CrosspointPatched(p: Pump, kind: SrcKind, src: nat, dest: nat)
    requires src < CHANNELS && dest < CHANNELS && QueueMatches(p) && DeviceMatches(p)
    ensures var q := PutCrosspoint(p, kind, src, dest);
            && QueueMatches(q) && DeviceMatches(q) && q == p.(shadow := q.shadow, dirty := q.dirty)
            && forall i :: 0 <= i < CELLS ==>
                 q.shadow[i] == if i == dest * 64 + src + (if kind == Playback then 32 else 0) then RenderAt(p.model, i)
                                else p.shadow[i]
  {
    CellIndex(kind, src, dest);
    RenderFindsTheCell(p.model, kind, src, dest);
    Aligned(kind, src, dest);
    PutCellKeepsQueue(p, CellAddr(kind, src, dest), Quadlet(CellAt(p.model, kind, src, dest)));
  }

  lemma InColumnNext(i: nat, dest: nat, n: nat)
    requires n < CHANNELS
    ensures InColumn(i, dest, n + 1) <==> InColumn(i, dest, n) || i == dest * 64 + n || i == dest * 64 + n + 32
  {
    assert i == i / 64 * 64 + i % 64;
  }

  /** `q` is `p` with exactly the first `n` sources of column `dest` brought up to date. */
  ghost predicate Patched(p: Pump, q: Pump, dest: nat, n: nat) {
    && QueueMatches(q) && DeviceMatches(q) && q == p.(shadow := q.shadow, dirty := q.dirty)
    && forall i :: 0 <= i < CELLS ==>
         q.shadow[i] == if InColumn(i, dest, n) then RenderAt(p.model, i) else p.shadow[i]
  }

  lemma PatchedNext(p: Pump, q: Pump, dest: nat, n: nat)
    requires n < CHANNELS && dest < CHANNELS && Patched(p, q, dest, n)
    ensures Patched(p, PutCrosspoint(PutCrosspoint(q, Input, n, dest), Playback, n, dest), dest, n + 1)
  {
    var q1 := PutCrosspoint(q, Input, n, dest);
    CrosspointPatched(q, Input, n, dest);
    CrosspointPatched(q1, Playback, n, dest);
    var q2 := PutCrosspoint(q1, Playback, n, dest);
    forall i | 0 <= i < CELLS
      ensures q2.shadow[i] == if InColumn(i, dest, n + 1) then RenderAt(p.model, i) else p.shadow[i]
    {
      InColumnNext(i, dest, n);
    }
  }

  lemma NothingPatched(p: Pump, dest: nat)
    requires QueueMatches(p) && DeviceMatches(p)
    ensures Patched(p, p, dest, 0)
  {}

  lemma {:induction false} ColumnPatched(p: Pump, dest: nat, n: nat)
    requires n <= CHANNELS && dest < CHANNELS && QueueMatches(p) && DeviceMatches(p)
    ensures Patched(p, PutColumn(p, dest, n), dest, n)
  {
    hide Patched, PutCrosspoint, QueueMatches, DeviceMatches, RenderAt;
    if n == 0 {
      NothingPatched(p, dest);
    } else {
      ColumnPatched(p, dest, n - 1);
      PatchedNext(p, PutColumn(p, dest, n - 1), dest, n - 1);
    }
  }

  lemma SubmixOutsideColumn(m: Model, from: nat, to: nat, clear: bool, i: nat)
    requires i < CELLS && to < CHANNELS && !InColumn(i, to, CHANNELS)
    ensures RenderAt(if clear then ClearSubmix(m, to) else CopySubmix(m, from, to), i) == RenderAt(m, i)
  {}

  lemma SubmixStaysCoherent(p: Pump, from: nat, to: nat, clear: bool)
    requires Coherent(p) && to < CHANNELS
    ensures var m := if clear then ClearSubmix(p.model, to) else CopySubmix(p.model, from, to);
            Coherent(PutColumn(p.(model := m), to, CHANNELS))
  {
    var m := if clear then ClearSubmix(p.model, to) else CopySubmix(p.model, from, to);
    var start := p.(model := m);
    ColumnPatched(start, to, CHANNELS);
    SubmixRendersAfresh(p, PutColumn(start, to, CHANNELS), from, to, clear, m);
  }

  lemma SubmixRendersAfresh(p: Pump, q: Pump, from: nat, to: nat, clear: bool, m: Model)
    requires Coherent(p) && to < CHANNELS
    requires m == if clear then ClearSubmix(p.model, to) else CopySubmix(p.model, from, to)
    requires Patched(p.(model := m), q, to, CHANNELS)
    ensures Coherent(q)
  {
    forall i | 0 <= i < CELLS
      ensures q.shadow[i] == RenderAt(m, i)
    {
      if !InColumn(i, to, CHANNELS) { SubmixOutsideColumn(p.model, from, to, clear, i); }
    }
    assert q.shadow == Render(m);
    assert m.outputs == p.model.outputs;
    assert RecMask(m) == RecMask(p.model);
  }

  /** The indices a command must keep within the mixer's channels. */
  predicate InRange(c: Command) {
    match c
    case SetMixer(_, src, dest, _) => src < CHANNELS && dest < CHANNELS
    case SetFader(out, _) => out < CHANNELS
    case SetCellFlags(_, src, dest, _, _) => src < CHANNELS && dest < CHANNELS
    case SetOutFlags(out, _, _) => out < CHANNELS
    case Submix(_, to, _) => to < CHANNELS
    case _ => true
  }

  lemma DrainStaysCoherent(p: Pump, c: Command)
    requires Coherent(p) && InRange(c)
    ensures Coherent(DrainOne(p, c))
  {
    match c
    case SetMixer(kind, src, dest, coeff) =>
      CrosspointStaysCoherent(p, kind, src, dest, CellAt(p.model, kind, src, dest).(gain := coeff));
    case SetFader(out, coeff) =>
      OutputStaysCoherent(p, out, OutputAt(p.model, out).(gain := coeff));
    case SetCellFlags(kind, src, dest, mask, value) =>
      var old_ := CellAt(p.model, kind, src, dest);
      CrosspointStaysCoherent(p, kind, src, dest, old_.(flags := MaskedFlags(old_.flags, mask, value)));
    case SetOutFlags(out, mask, value) =>
      var old_ := OutputAt(p.model, out);
      OutputStaysCoherent(p, out, old_.(flags := MaskedFlags(old_.flags, mask, value)));
    case SetStereoPair(kind, channel, on) =>
      assert Render(SetStereo(p.model, kind, channel, on)) == Render(p.model);
    case Submix(from, to, clear) => SubmixStaysCoherent(p, from, to, clear);
    case SetSettings(_, _) =>
    case Other =>
  }

  lemma WriteOneStaysCoherent(p: Pump)
    requires Coherent(p) && p.dirty.Keys != {}
    ensures Coherent(WriteOne(p))
  {
    var q := WriteOne(p);
    forall i | 0 <= i < CELLS && AddrOf(i) !in q.dirty
      ensures q.device[i] == q.shadow[i]
    {
      IndexOfAddr(i);
    }
  }

  lemma {:induction false} WrittenStaysCoherent(p: Pump, budget: nat, q: Pump)
    requires Coherent(p) && q == Written(p, budget)
    ensures Coherent(q)
    decreases budget
  {
    hide Coherent;
    hide WriteOne;
    if budget == 0 || p.dirty.Keys == {} {
      assert q == p;
    } else {
      var r := WriteOne(p);
      assert q == Written(r, budget - 1);
      assert Coherent(r) by { WriteOneStaysCoherent(p); }
      WrittenStaysCoherent(r, budget - 1, q);
    }
  }

  lemma WriteOneTakesOne(p: Pump)
    requires p.dirty.Keys != {}
    ensures |WriteOne(p).dirty| == |p.dirty| - 1
  {
    assert p.dirty.Keys == WriteOne(p).dirty.Keys + {Least(p.dirty.Keys)};
  }

  lemma {:induction false} WrittenTakesTheBudget(p: Pump, budget: nat)
    ensures |Written(p, budget).dirty| == if |p.dirty| > budget then |p.dirty| - budget else 0
    decreases budget
  {
    assert |p.dirty.Keys| == |p.dirty|;
    if budget != 0 && p.dirty.Keys != {} {
      WriteOneTakesOne(p);
      WrittenTakesTheBudget(WriteOne(p), budget - 1);
    }
  }

  /** The first session makes the device coherent whatever its RAM and its mask held before. */
  lemma FirstSessionIsCoherent(p: Pump, dbq: nat, rate: nat)
    requires p.dirty == map[]
    ensures Coherent(Started(p, dbq, rate))
  {}

  /** Pending cells drain eight a tick, and the device is exact when the last is gone: `n` pending cells need
      ceil(n/8) quiet ticks, no more and no fewer. */
  lemma {:induction false} QuietTicksDrain(p: Pump, ticks: nat)
    requires Coherent(p)
    ensures var q := Run(p, seq(ticks, _ => WriteTick));
            && q.model == p.model && Coherent(q)
            && |q.dirty| == (if |p.dirty| > 8 * ticks then |p.dirty| - 8 * ticks else 0)
            && (|p.dirty| <= 8 * ticks ==> q.dirty == map[] && q.device == Render(p.model))
    decreases ticks
  {
    hide Coherent, Next, Run, Render;
    var events: seq<Event> := seq(ticks, _ => WriteTick);
    if ticks == 0 {
      assert events == [];
      RunNothing(p);
    } else {
      var earlier: seq<Event> := seq(ticks - 1, _ => WriteTick);
      QuietTicksDrain(p, ticks - 1);
      assert events == earlier + [WriteTick];
      RunLast(p, earlier, WriteTick);
      QuietTick(Run(p, earlier), Run(p, events));
    }
    if |p.dirty| <= 8 * ticks { NothingQueuedIsExact(Run(p, events)); }
  }

  lemma QuietTick(p: Pump, q: Pump)
    requires Coherent(p) && q == Next(p, WriteTick)
    ensures Coherent(q) && q.model == p.model && |q.dirty| == if |p.dirty| > 8 then |p.dirty| - 8 else 0
  {
    WrittenStaysCoherent(p, WRITES_PER_TICK, q);
    WrittenTakesTheBudget(p, WRITES_PER_TICK);
    WrittenKeepsRest(p, WRITES_PER_TICK);
  }

  lemma NothingQueuedIsExact(p: Pump)
    requires Coherent(p) && |p.dirty| == 0
    ensures p.dirty == map[] && p.device == Render(p.model)
  {
    assert p.dirty == map[];
    assert p.device == p.shadow;
  }

  // ---- exactly which commands are safe --------------------------------------------------------------------------

  /** A flags command that cannot leave anything but a zero coefficient: it forces the mute and forces the phase
      flag off. */
  predicate ForcesZero(mask: bv8, value: bv8) { mask & 3 == 3 && value & 3 == 1 }

  /** The cell a command would patch when its indices are out of range. */
  predicate OnPadding(addr: nat)
    requires addr >= MIXER_RAM
  {
    IndexOf(addr) < CELLS && !Rendered(IndexOf(addr))
  }

  /** What can be checked of a command before it is applied. */
  predicate Safe(c: Command) {
    || InRange(c)
    || (c.SetCellFlags? && OnPadding(CellAddr(c.kind, c.src, c.dest)) && ForcesZero(c.mask, c.value))
    || (c.SetOutFlags? && OnPadding(FaderAddr(c.out)) && ForcesZero(c.mask, c.value))
  }

  /** A model with every cell at one gain, and a scratch cell of choice. */
  function Uniform(gain: u32, scratch: Cell): Model {
    var row: Row := seq(CHANNELS, _ => Cell(gain, 0));
    var grid: Grid := seq(CHANNELS, _ => row);
    Model(grid, grid, row, {}, {}, scratch)
  }

  function Rested(m: Model): Pump {
    Pump(m, Render(m), map[], Render(m), RecMask(m), CHANNELS, 48000, 0, 0, Clock(0, 48000))
  }

  /** The state in which an unsafe command shows: its scratch cell renders to something other than the cell it lands
      on. */
  function Witness(c: Command): Pump {
    match c
    case SetCellFlags(_, _, _, mask, value) => WitnessForFlags(mask, value)
    case SetOutFlags(_, mask, value) => WitnessForFlags(mask, value)
    case _ => Rested(Uniform(0, Cell(1, 2)))
  }

  function WitnessForFlags(mask: bv8, value: bv8): Pump {
    if ForcesZero(mask, value) then Rested(Uniform(1, Cell(1, 0)))
    else Rested(Uniform(0, Cell(1, if value & mask & 1 == 1 then 2 else 0)))
  }

  lemma RestedIsCoherent(m: Model)
    ensures Coherent(Rested(m))
  {}

  lemma UniformRenders(gain: u32, scratch: Cell, i: nat)
    requires gain <= 1
    ensures RenderAt(Uniform(gain, scratch), i) == if Rendered(i) then gain else 0
  {
    assert (0 as bv8) & 1 == 0 && (0 as bv8) & 2 == 0;
  }

  /** The scratch cell after a flags command is never muted-and-upright unless the command forces that. */
  lemma FlagsShow(mask: bv8, value: bv8)
    ensures !ForcesZero(mask, value) ==>
              Quadlet(Cell(1, MaskedFlags(if value & mask & 1 == 1 then 2 else 0, mask, value))) != 0
    ensures ForcesZero(mask, value) ==> forall f: bv8, g: u32 :: Quadlet(Cell(g, MaskedFlags(f, mask, value))) == 0
  {
    if ForcesZero(mask, value) {
      forall f: bv8, g: u32
        ensures Quadlet(Cell(g, MaskedFlags(f, mask, value))) == 0
      {
        var r := MaskedFlags(f, mask, value);
        assert r & 1 != 0 && r & 2 == 0;
      }
    } else {
      var f: bv8 := if value & mask & 1 == 1 then 2 else 0;
      var r := MaskedFlags(f, mask, value);
      assert r & 1 == 0 || r & 2 != 0;
    }
  }

  /** A patch that does not match the fresh render, or lies outside the matrix, breaks coherence. */
  lemma BadPatchBreaks(p: Pump, addr: nat, value: u32)
    requires addr >= MIXER_RAM
    requires IndexOf(addr) < CELLS ==> value != RenderAt(p.model, IndexOf(addr))
    ensures !Coherent(PutCell(p, addr, value))
  {
    var q := PutCell(p, addr, value);
    if IndexOf(addr) < CELLS {
      assert q.shadow[IndexOf(addr)] != Render(q.model)[IndexOf(addr)];
    } else {
      assert addr in q.dirty;
    }
  }

  lemma {:induction false} ColumnOutOfRangeBreaks(p: Pump, dest: nat, n: nat)
    requires dest >= CHANNELS && n <= CHANNELS && n >= 1
    requires forall i :: 0 <= i < CELLS ==> RenderAt(p.model, i) == 0
    requires Quadlet(p.model.scratch) != 0
    ensures var q := PutColumn(p, dest, n);
            && q.model == p.model && !Coherent(q)
  {
    var q1 := PutColumn(p, dest, n - 1);
    assert q1.model == p.model by { ColumnKeepsModel(p, dest, n - 1); }
    var q2 := PutCrosspoint(q1, Input, n - 1, dest);
    BadPatchBreaks(q2, PlaybackAddr(n - 1, dest), Quadlet(p.model.scratch));
  }

  lemma {:induction false} ColumnKeepsModel(p: Pump, dest: nat, n: nat)
    ensures PutColumn(p, dest, n).model == p.model && PutColumn(p, dest, n).settings == p.settings
  {
    if n > 0 { ColumnKeepsModel(p, dest, n - 1); }
  }

  lemma UnsafeCommandBreaks(c: Command)
    requires !Safe(c)
    ensures Coherent(Witness(c)) && !Coherent(DrainOne(Witness(c), c))
  {
    hide Coherent, DrainOne, Rested, Uniform, WitnessForFlags;
    WitnessIsCoherent(c);
    match c
    case SetMixer(kind, src, dest, coeff) => SetMixerBreaks(Witness(c), kind, src, dest, coeff);
    case SetFader(out, coeff) => SetFaderBreaks(Witness(c), out, coeff);
    case SetCellFlags(kind, src, dest, mask, value) => CellFlagsBreak(Witness(c), kind, src, dest, mask, value);
    case SetOutFlags(out, mask, value) => OutFlagsBreak(Witness(c), out, mask, value);
    case Submix(from, to, clear) => SubmixBreaks(Witness(c), from, to, clear);
    case _ =>
  }

  lemma WitnessIsCoherent(c: Command)
    ensures Coherent(Witness(c))
  {
    hide Coherent, Rested, Uniform;
    RestedIsCoherent(Witness(c).model);
    RestedModel(c);
  }

  lemma RestedModel(c: Command)
    ensures Witness(c) == Rested(Witness(c).model)
  {
    hide Render, RecMask, Uniform;
  }

  lemma SetMixerBreaks(p: Pump, kind: SrcKind, src: nat, dest: nat, coeff: u32)
    requires p == Rested(Uniform(0, Cell(1, 2))) && !InRange(SetMixer(kind, src, dest, coeff))
    ensures !Coherent(DrainOne(p, SetMixer(kind, src, dest, coeff)))
  {
    hide Coherent, Quadlet, Render, RecMask;
    assert WithCell(p.model, kind, src, dest, Cell(coeff, 2)) == p.model.(scratch := Cell(coeff, 2));
    GainPatchBreaks(p, coeff, CellAddr(kind, src, dest));
  }

  lemma SetFaderBreaks(p: Pump, out: nat, coeff: u32)
    requires p == Rested(Uniform(0, Cell(1, 2))) && !InRange(SetFader(out, coeff))
    ensures !Coherent(DrainOne(p, SetFader(out, coeff)))
  {
    hide Coherent, Quadlet, Render, RecMask;
    assert WithOutput(p.model, out, Cell(coeff, 2)) == p.model.(scratch := Cell(coeff, 2));
    GainPatchBreaks(p, coeff, FaderAddr(out));
  }

  lemma CellFlagsBreak(p: Pump, kind: SrcKind, src: nat, dest: nat, mask: bv8, value: bv8)
    requires p == WitnessForFlags(mask, value) && !Safe(SetCellFlags(kind, src, dest, mask, value))
    ensures !Coherent(DrainOne(p, SetCellFlags(kind, src, dest, mask, value)))
  {
    hide Coherent, Quadlet, Rested, WitnessForFlags, MaskedFlags, ForcesZero;
    FlagsPatchBreaks(p, mask, value, CellAddr(kind, src, dest));
  }

  lemma OutFlagsBreak(p: Pump, out: nat, mask: bv8, value: bv8)
    requires p == WitnessForFlags(mask, value) && !Safe(SetOutFlags(out, mask, value))
    ensures !Coherent(DrainOne(p, SetOutFlags(out, mask, value)))
  {
    hide Coherent, Quadlet, Rested, WitnessForFlags, MaskedFlags, ForcesZero;
    FlagsPatchBreaks(p, mask, value, FaderAddr(out));
  }

  /** Inverted zero of one is minus one. */
  lemma InvertedShows()
    ensures Quadlet(Cell(1, 2)) != 0
  {
    assert (2 as bv8) & 1 == 0 && (2 as bv8) & 2 != 0;
  }

  lemma SubmixBreaks(p: Pump, from: nat, to: nat, clear: bool)
    requires p == Rested(Uniform(0, Cell(1, 2))) && to >= CHANNELS
    ensures !Coherent(DrainOne(p, Submix(from, to, clear)))
  {
    InvertedShows();
    hide Coherent, Quadlet, Render, RecMask, RenderAt;
    forall i: nat ensures RenderAt(p.model, i) == 0 { UniformRenders(0, p.model.scratch, i); }
    ColumnOutOfRangeBreaks(p, to, CHANNELS);
  }

  lemma GainPatchBreaks(p: Pump, coeff: u32, addr: nat)
    requires p == Rested(Uniform(0, Cell(1, 2))) && addr >= MIXER_RAM
    ensures var s := Cell(coeff, 2);
            !Coherent(PutCell(p.(model := p.model.(scratch := s)), addr, Quadlet(s)))
  {
    var s := Cell(coeff, 2);
    var m := p.model.(scratch := s);
    assert (2 as bv8) & 1 == 0 && (2 as bv8) & 2 != 0;
    if IndexOf(addr) < CELLS { UniformRenders(0, s, IndexOf(addr)); }
    BadPatchBreaks(p.(model := m), addr, Quadlet(s));
  }

  lemma FlagsPatchBreaks(p: Pump, mask: bv8, value: bv8, addr: nat)
    requires p == WitnessForFlags(mask, value)
    requires addr >= MIXER_RAM && !(OnPadding(addr) && ForcesZero(mask, value))
    ensures var s := p.model.scratch.(flags := MaskedFlags(p.model.scratch.flags, mask, value));
            var q := PutCell(p.(model := p.model.(scratch := s)), addr, Quadlet(s));
            !Coherent(q) && forall rec: Mask :: !Coherent(q.(rec := rec))
  {
    var s := p.model.scratch.(flags := MaskedFlags(p.model.scratch.flags, mask, value));
    var m := p.model.(scratch := s);
    FlagsShow(mask, value);
    if IndexOf(addr) < CELLS {
      UniformRenders(if ForcesZero(mask, value) then 1 else 0, s, IndexOf(addr));
    }
    BadPatchBreaks(p.(model := m), addr, Quadlet(s));
    var q := PutCell(p.(model := m), addr, Quadlet(s));
    forall rec: Mask ensures !Coherent(q.(rec := rec)) {
      BadPatchBreaks(p.(model := m, rec := rec), addr, Quadlet(s));
    }
  }

  /** A zero patch on padding is harmless: the fresh render has zero there too. */
  lemma ZeroOnPaddingStaysCoherent(p: Pump, s: Cell, addr: nat)
    requires Coherent(p) && addr >= MIXER_RAM && OnPadding(addr) && addr == AddrOf(IndexOf(addr)) && Quadlet(s) == 0
    ensures var q := PutCell(p.(model := p.model.(scratch := s)), addr, 0);
            Coherent(q) && Coherent(q.(rec := MaskWritten(q.rec, q.model, q.dbq)))
  {
    var m := p.model.(scratch := s);
    var q := PutCell(p.(model := m), addr, 0);
    PutCellKeepsQueue(p.(model := m), addr, 0);
    assert forall i :: 0 <= i < CELLS ==> RenderAt(m, i) == RenderAt(p.model, i);
    assert q.shadow == Render(m);
    assert RecMask(m) == RecMask(p.model);
  }

  lemma SafeStaysCoherent(p: Pump, c: Command)
    requires Coherent(p) && Safe(c)
    ensures Coherent(DrainOne(p, c))
  {
    hide Coherent;
    if InRange(c) {
      DrainStaysCoherent(p, c);
    } else {
      FlagsShow(c.mask, c.value);
      var s := p.model.scratch.(flags := MaskedFlags(p.model.scratch.flags, c.mask, c.value));
      if c.SetCellFlags? {
        Aligned(c.kind, c.src, c.dest);
        ZeroOnPaddingStaysCoherent(p, s, CellAddr(c.kind, c.src, c.dest));
      } else {
        Aligned(Input, c.out, 0);
        ZeroOnPaddingStaysCoherent(p, s, FaderAddr(c.out));
      }
    }
  }

  lemma NextStaysCoherent(p: Pump, e: Event)
    requires Coherent(p) && (e.Drain? ==> Safe(e.c))
    ensures Coherent(Next(p, e))
  {
    match e
    case Drain(c) => SafeStaysCoherent(p, c);
    case WriteTick => WrittenStaysCoherent(p, WRITES_PER_TICK, Next(p, e));
    case SessionStart(_, _) =>
  }

  /** For every run of safe commands, and so of in-range ones, write ticks and session restarts, in any order: the
      patched shadow is the fresh render, every pending write is the shadow's, the device overlaid with the pending
      writes is the shadow, and the device's record mask is the model's; and its conf block is assembled from the
      settings in force. */
  lemma {:induction false} RunStaysCoherent(p: Pump, events: seq<Event>)
    requires Coherent(p) && forall k :: 0 <= k < |events| && events[k].Drain? ==> Safe(events[k].c)
    ensures Coherent(Run(p, events))
    decreases |events|
  {
    hide Coherent, Next, Safe;
    if events != [] {
      RunStaysCoherent(p, events[..|events| - 1]);
      NextStaysCoherent(Run(p, events[..|events| - 1]), events[|events| - 1]);
    }
  }

  /** A state some run leads to from a first session. A daemon starts with an empty scratch cell; defaults or a
      saved file set the rest of the model. */
  ghost predicate Reachable(p: Pump) {
    exists q: Pump, dbq: nat, rate: nat, events: seq<Event> ::
      q.dirty == map[] && q.model.scratch == Cell(0, 0) && p == Run(Started(q, dbq, rate), events)
  }

  /** An out-of-range command or two set the scratch cell, a tick writes out what they queued, and a restart renders
      everything afresh: what is left is a clean state with the scratch cell of choice. */
  lemma ScratchIsReachable(gain: u32, flags: bv8)
    ensures Reachable(Rested(Uniform(gain, Cell(1, flags))))
  {
    hide Next, Run, Render, RecMask, Started;
    var start := Rested(Uniform(gain, Cell(0, 0)));
    var e1 := [Drain(SetCellFlags(Input, 30, 0, 0xFF, flags))];
    var e2 := e1 + [Drain(SetMixer(Input, 30, 0, 1))];
    var e3 := e2 + [WriteTick];
    var e4 := e3 + [SessionStart(CHANNELS, 48000)];
    RestedIsStarted(Uniform(gain, Cell(0, 0)));
    assert e1 == [] + e1 && start == Run(start, []) by { RunNothing(start); }
    RunLast(start, [], e1[0]);
    RunLast(start, e1, Drain(SetMixer(Input, 30, 0, 1)));
    RunLast(start, e2, WriteTick);
    RunLast(start, e3, SessionStart(CHANNELS, 48000));
    ScratchSet(start, gain, flags, Run(start, e1), Run(start, e2));
    QueueWritten(Run(start, e2), Run(start, e3));
    AfreshIsRested(Run(start, e3), Uniform(gain, Cell(1, flags)), Run(start, e4));
    assert Run(Started(start, CHANNELS, 48000), e4) == Rested(Uniform(gain, Cell(1, flags)));
  }

  lemma RunNothing(p: Pump)
    ensures Run(p, []) == p
  {}

  lemma RunLast(p: Pump, events: seq<Event>, e: Event)
    ensures Run(p, events + [e]) == Next(Run(p, events), e)
  {
    assert (events + [e])[..|events + [e]| - 1] == events;
  }

  lemma RestedIsStarted(m: Model)
    ensures Started(Rested(m), CHANNELS, 48000) == Rested(m)
  {
    hide Render, RecMask;
    assert MaskWritten(RecMask(m), m, CHANNELS) == RecMask(m);
  }

  lemma ScratchSet(start: Pump, gain: u32, flags: bv8, p1: Pump, p2: Pump)
    requires start == Rested(Uniform(gain, Cell(0, 0)))
    requires p1 == Next(start, Drain(SetCellFlags(Input, 30, 0, 0xFF, flags)))
    requires p2 == Next(p1, Drain(SetMixer(Input, 30, 0, 1)))
    ensures p2 == start.(model := Uniform(gain, Cell(1, flags)), shadow := p2.shadow, dirty := p2.dirty)
    ensures |p2.dirty| == 1
  {
    hide Render, RecMask, Quadlet;
    assert MaskedFlags(0, 0xFF, flags) == flags;
    assert p1.model == Uniform(gain, Cell(0, flags));
    var a := CellAddr(Input, 30, 0);
    assert p2.dirty == map[a := Quadlet(Cell(1, flags))];
  }

  lemma QueueWritten(p: Pump, q: Pump)
    requires |p.dirty| == 1 && q == Next(p, WriteTick)
    ensures q == p.(device := q.device, dirty := map[])
  {
    WrittenTakesTheBudget(p, WRITES_PER_TICK);
    WrittenKeepsRest(p, WRITES_PER_TICK);
  }

  lemma AfreshIsRested(p: Pump, m: Model, q: Pump)
    requires p.model == m && p.dirty == map[] && p.settings == 0 && p.clock == Clock(0, 48000)
    requires q == Next(p, SessionStart(CHANNELS, 48000))
    ensures q == Rested(m)
  {
    hide Render, RecMask;
    assert MaskWritten(p.rec, m, CHANNELS) == RecMask(m);
  }

  lemma WitnessIsReachable(c: Command)
    ensures Reachable(Witness(c))
  {
    hide Reachable, Rested, Uniform;
    match c
    case SetCellFlags(_, _, _, mask, value) => FlagsWitnessIsReachable(mask, value);
    case SetOutFlags(_, mask, value) => FlagsWitnessIsReachable(mask, value);
    case _ => ScratchIsReachable(0, 2);
  }

  lemma FlagsWitnessIsReachable(mask: bv8, value: bv8)
    ensures Reachable(WitnessForFlags(mask, value))
  {
    hide Reachable, Rested, Uniform;
    if ForcesZero(mask, value) { ScratchIsReachable(1, 0); }
    else { ScratchIsReachable(0, if value & mask & 1 == 1 then 2 else 0); }
  }

  /** Exactly the safe commands keep the cache equal to the recomputation. The socket does not check indices: any
      command outside `Safe` breaks some coherent state that a run from a first session leads to; the safe ones
      break none at all. */
  lemma SafeExactlyWhenCoherent(c: Command)
    ensures Safe(c) <==> forall p :: Reachable(p) && Coherent(p) ==> Coherent(DrainOne(p, c))
    ensures Safe(c) ==> forall p :: Coherent(p) ==> Coherent(DrainOne(p, c))
  {
    hide Coherent, Reachable, DrainOne, Witness, Safe;
    if Safe(c) {
      forall p | Coherent(p)
        ensures Coherent(DrainOne(p, c))
      {
        SafeStaysCoherent(p, c);
      }
    } else {
      UnsafeCommandBreaks(c);
      WitnessIsReachable(c);
    }
  }

  // ---- the other drain: no device present -----------------------------------------------------------------------

  datatype Idle = Idle(model: Model, shadow: Image, settings: int, changed: bool)

  function IdleOne(s: Idle, c: Command): Idle {
    match c
    case SetMixer(kind, src, dest, coeff) =>
      s.(model := WithCell(s.model, kind, src, dest, CellAt(s.model, kind, src, dest).(gain := coeff)), changed := true)
    case SetFader(out, coeff) =>
      s.(model := WithOutput(s.model, out, OutputAt(s.model, out).(gain := coeff)), changed := true)
    case SetCellFlags(kind, src, dest, mask, value) =>
      var f := CellAt(s.model, kind, src, dest);
      s.(model := WithCell(s.model, kind, src, dest, f.(flags := MaskedFlags(f.flags, mask, value))), changed := true)
    case SetOutFlags(out, mask, value) =>
      var f := OutputAt(s.model, out);
      s.(model := WithOutput(s.model, out, f.(flags := MaskedFlags(f.flags, mask, value))), changed := true)
    case SetStereoPair(kind, channel, on) => s.(model := SetStereo(s.model, kind, channel, on), changed := true)
    case Submix(from, to, clear) =>
      s.(model := if clear then ClearSubmix(s.model, to) else CopySubmix(s.model, from, to), changed := true)
    case SetSettings(settings, _) => s.(settings := settings, changed := true)
    case Other => s
  }

  function IdleFold(s: Idle, cs: seq<Command>): Idle
    decreases |cs|
  {
    if cs == [] then s else IdleOne(IdleFold(s, cs[..|cs| - 1]), cs[|cs| - 1])
  }

  /** drain_ctl_idle: apply everything, then render the whole matrix once if anything was recognised. */
  function IdleDrain(model: Model, shadow: Image, settings: int, cs: seq<Command>): Idle {
    var s := IdleFold(Idle(model, shadow, settings, false), cs);
    if s.changed then s.(shadow := Render(s.model)) else s
  }

  function PumpDrain(p: Pump, cs: seq<Command>): (q: Pump)
    decreases |cs|
  {
    if cs == [] then p else DrainOne(PumpDrain(p, cs[..|cs| - 1]), cs[|cs| - 1])
  }

  lemma {:induction false} DrainsTrackEachOther(p: Pump, cs: seq<Command>)
    requires Coherent(p) && forall k :: 0 <= k < |cs| ==> Safe(cs[k])
    ensures var s := IdleFold(Idle(p.model, p.shadow, p.settings, false), cs);
            var q := PumpDrain(p, cs);
            && s.model == q.model && s.settings == q.settings && Coherent(q)
            && s.shadow == p.shadow && (!s.changed ==> s.model == p.model)
    decreases |cs|
  {
    if cs != [] {
      DrainsTrackEachOther(p, cs[..|cs| - 1]);
      SafeStaysCoherent(PumpDrain(p, cs[..|cs| - 1]), cs[|cs| - 1]);
      OneCommandSameModel(IdleFold(Idle(p.model, p.shadow, p.settings, false), cs[..|cs| - 1]),
                          PumpDrain(p, cs[..|cs| - 1]), cs[|cs| - 1]);
    }
  }

  lemma OneCommandSameModel(s: Idle, q: Pump, c: Command)
    requires s.model == q.model && s.settings == q.settings
    ensures IdleOne(s, c).model == DrainOne(q, c).model && IdleOne(s, c).settings == DrainOne(q, c).settings
    ensures IdleOne(s, c).shadow == s.shadow
    ensures IdleOne(s, c).changed || (!s.changed && IdleOne(s, c).model == s.model)
  {
    if c.Submix? {
      ColumnKeepsModel(q.(model := if c.clear then ClearSubmix(q.model, c.to) else CopySubmix(q.model, c.from, c.to)),
                       c.to, CHANNELS);
    }
  }

  /** The two drains are separate code. For every sequence of safe commands they leave the same model, the same
      settings and the same rendered matrix. */
  lemma DrainsAgree(p: Pump, cs: seq<Command>)
    requires Coherent(p) && forall k :: 0 <= k < |cs| ==> Safe(cs[k])
    ensures var s := IdleDrain(p.model, p.shadow, p.settings, cs);
            var q := PumpDrain(p, cs);
            s.model == q.model && s.settings == q.settings && s.shadow == q.shadow
  {
    DrainsTrackEachOther(p, cs);
  }
}
