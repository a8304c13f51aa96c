/** What each control command does to the mixer (platform/daemon/uf-daemon.cpp, platform/shared/uf_mixer_model.hpp),
    said cell by cell and bit by bit, of both drains. MixerPump says that the device follows the model; this says what
    the model becomes. */
module MixerCommands {
  import opened MixerModel
  import opened MixerPump

  /** The bits under the mask are the command's, the others what they were. */
  ghost predicate Blended(now: bv8, old_: bv8, mask: bv8, value: bv8) {
    now & mask == value & mask && now & !mask == old_ & !mask
  }

  /** `h` is `g` but for one cell, which is `c`. */
  ghost predicate OneCell(g: Grid, h: Grid, src: nat, dest: nat, c: Cell) {
    forall s, d :: 0 <= s < CHANNELS && 0 <= d < CHANNELS ==> h[s][d] == if s == src && d == dest then c else g[s][d]
  }

  /** Exactly one crosspoint changes, and it becomes `c`. */
  ghost predicate OneCrosspoint(m: Model, n: Model, kind: SrcKind, src: nat, dest: nat, c: Cell) {
    && n == m.(inputs := n.inputs, playback := n.playback)
    && (if kind == Input then OneCell(m.inputs, n.inputs, src, dest, c) else n.inputs == m.inputs)
    && (if kind == Playback then OneCell(m.playback, n.playback, src, dest, c) else n.playback == m.playback)
  }

  /** Exactly one output changes, and it becomes `c`. */
  ghost predicate OneOutput(m: Model, n: Model, out: nat, c: Cell) {
    && n == m.(outputs := n.outputs)
    && forall o :: 0 <= o < CHANNELS ==> n.outputs[o] == if o == out then c else m.outputs[o]
  }

  function Crosspoint(m: Model, kind: SrcKind, src: nat, dest: nat): Cell
    requires src < CHANNELS && dest < CHANNELS
  {
    if kind == Input then m.inputs[src][dest] else m.playback[src][dest]
  }

  /** Column `to` of `h` is column `from` of `g`; the other columns are `g`'s. */
  ghost predicate ColumnTaken(g: Grid, h: Grid, from: nat, to: nat)
    requires from < CHANNELS
  {
    forall s, d :: 0 <= s < CHANNELS && 0 <= d < CHANNELS ==> h[s][d] == if d == to then g[s][from] else g[s][d]
  }

  ghost predicate ColumnEmptied(g: Grid, h: Grid, to: nat) {
    forall s, d :: 0 <= s < CHANNELS && 0 <= d < CHANNELS ==> h[s][d] == if d == to then Cell(0, 0) else g[s][d]
  }

  /** Whether channels 2 * pair and 2 * pair + 1 are linked. */
  predicate Linked(m: Model, kind: SrcKind, pair: nat) { pair in if kind == Input then m.stereoIn else m.stereoPb }

  /** Exactly the pair of channel `ch` is linked or unlinked, and none if there is no such channel. */
  ghost predicate PairSet(m: Model, n: Model, kind: SrcKind, ch: nat, on: bool) {
    && n == m.(stereoIn := n.stereoIn, stereoPb := n.stereoPb)
    && forall k: SrcKind, pair: nat ::
         Linked(n, k, pair) == if k == kind && ch < CHANNELS && pair == ch / 2 then on else Linked(m, k, pair)
  }

  /** What a command means for the model. */
  ghost predicate Commanded(m: Model, n: Model, c: Command)
    requires InRange(c)
  {
    match c
    case SetMixer(kind, src, dest, coeff) =>
      OneCrosspoint(m, n, kind, src, dest, Cell(coeff, Crosspoint(m, kind, src, dest).flags))
    case SetFader(out, coeff) => OneOutput(m, n, out, Cell(coeff, m.outputs[out].flags))
    case SetCellFlags(kind, src, dest, mask, value) =>
      var now := Crosspoint(n, kind, src, dest);
      && OneCrosspoint(m, n, kind, src, dest, now) && now.gain == Crosspoint(m, kind, src, dest).gain
      && Blended(now.flags, Crosspoint(m, kind, src, dest).flags, mask, value)
    case SetOutFlags(out, mask, value) =>
      && OneOutput(m, n, out, n.outputs[out]) && n.outputs[out].gain == m.outputs[out].gain
      && Blended(n.outputs[out].flags, m.outputs[out].flags, mask, value)
    case SetStereoPair(kind, channel, on) => PairSet(m, n, kind, channel, on)
    case Submix(from, to, clear) =>
      && n == m.(inputs := n.inputs, playback := n.playback)
      && if clear then ColumnEmptied(m.inputs, n.inputs, to) && ColumnEmptied(m.playback, n.playback, to)
         else if from < CHANNELS
         then ColumnTaken(m.inputs, n.inputs, from, to) && ColumnTaken(m.playback, n.playback, from, to)
         else n == m
    case SetSettings(_, _) => n == m
    case Other => n == m
  }

  lemma MaskBlends(old_: bv8, mask: bv8, value: bv8)
    ensures Blended(MaskedFlags(old_, mask, value), old_, mask, value)
  {
    var now := MaskedFlags(old_, mask, value);
    assert now & mask == value & mask && now & !mask == old_ & !mask;
  }

  lemma StereoIsCommanded(m: Model, kind: SrcKind, ch: nat, on: bool)
    ensures PairSet(m, SetStereo(m, kind, ch, on), kind, ch, on)
  {}

  lemma SubmixIsCommanded(m: Model, from: nat, to: nat, clear: bool)
    requires to < CHANNELS
    ensures Commanded(m, if clear then ClearSubmix(m, to) else CopySubmix(m, from, to), Submix(from, to, clear))
  {}

  lemma CellIsCommanded(m: Model, kind: SrcKind, src: nat, dest: nat, c: Cell)
    requires src < CHANNELS && dest < CHANNELS
    ensures OneCrosspoint(m, WithCell(m, kind, src, dest, c), kind, src, dest, c)
    ensures Crosspoint(WithCell(m, kind, src, dest, c), kind, src, dest) == c
    ensures CellAt(m, kind, src, dest) == Crosspoint(m, kind, src, dest)
  {}

  lemma OutputIsCommanded(m: Model, out: nat, c: Cell)
    requires out < CHANNELS
    ensures OneOutput(m, WithOutput(m, out, c), out, c) && WithOutput(m, out, c).outputs[out] == c
    ensures OutputAt(m, out) == m.outputs[out]
  {}

  /** For every in-range command, the drain with no device makes of the model exactly what the command means. */
  lemma IdleOneIsCommanded(s: Idle, c: Command)
    requires InRange(c)
    ensures var t := IdleOne(s, c);
            Commanded(s.model, t.model, c) && t.settings == (if c.SetSettings? then c.settings else s.settings)
            && t.changed == (s.changed || !c.Other?)
  {
    hide OneCrosspoint, OneOutput, PairSet, Blended, MaskedFlags, WithCell, WithOutput, CellAt, OutputAt, Crosspoint;
    match c
    case SetMixer(kind, src, dest, coeff) =>
      CellIsCommanded(s.model, kind, src, dest, Cell(coeff, Crosspoint(s.model, kind, src, dest).flags));
    case SetFader(out, coeff) => OutputIsCommanded(s.model, out, Cell(coeff, s.model.outputs[out].flags));
    case SetCellFlags(kind, src, dest, mask, value) =>
      var f := Crosspoint(s.model, kind, src, dest);
      MaskBlends(f.flags, mask, value);
      CellIsCommanded(s.model, kind, src, dest, f.(flags := MaskedFlags(f.flags, mask, value)));
    case SetOutFlags(out, mask, value) =>
      var f := s.model.outputs[out];
      MaskBlends(f.flags, mask, value);
      OutputIsCommanded(s.model, out, f.(flags := MaskedFlags(f.flags, mask, value)));
    case SetStereoPair(kind, channel, on) => StereoIsCommanded(s.model, kind, channel, on);
    case Submix(from, to, clear) => SubmixIsCommanded(s.model, from, to, clear);
    case _ =>
  }

  /** And so does the pump's; it adopts settings and assembles conf block and clock from them, and leaves all three
      alone otherwise. */
  lemma DrainOneIsCommanded(p: Pump, c: Command)
    requires InRange(c)
    ensures var q := DrainOne(p, c);
            && Commanded(p.model, q.model, c)
            && (c.SetSettings? ==> q.settings == q.conf == q.clock.settings == c.settings
                                   && q.clock.rate == (if c.rate == 0 then p.rate else c.rate))
            && (!c.SetSettings? ==> q.settings == p.settings && q.conf == p.conf && q.clock == p.clock)
            && q.rate == p.rate && q.dbq == p.dbq
  {
    var s := Idle(p.model, p.shadow, p.settings, false);
    OneCommandSameModel(s, p, c);
    IdleOneIsCommanded(s, c);
    hide Commanded, IdleOne;
    DrainOneAssembles(p, c);
  }

  lemma DrainOneAssembles(p: Pump, c: Command)
    ensures var q := DrainOne(p, c);
            && (c.SetSettings? ==> q.settings == q.conf == q.clock.settings == c.settings
                                   && q.clock.rate == (if c.rate == 0 then p.rate else c.rate))
            && (!c.SetSettings? ==> q.settings == p.settings && q.conf == p.conf && q.clock == p.clock)
            && q.rate == p.rate && q.dbq == p.dbq
  {
    if c.Submix? {
      ColumnKeepsRest(p.(model := if c.clear then ClearSubmix(p.model, c.to) else CopySubmix(p.model, c.from, c.to)),
                      c.to, CHANNELS);
    }
  }

  lemma {:induction false} ColumnKeepsRest(p: Pump, dest: nat, n: nat)
    ensures var q := PutColumn(p, dest, n); q == p.(shadow := q.shadow, dirty := q.dirty)
  {
    if n > 0 { ColumnKeepsRest(p, dest, n - 1); }
  }

  /** A command out of range touches nothing but the scratch cell. */
  lemma OutOfRangeTouchesOnlyScratch(p: Pump, c: Command)
    requires !InRange(c)
    ensures var q := DrainOne(p, c); q.model == p.model.(scratch := q.model.scratch)
  {
    if c.Submix? {
      ColumnKeepsRest(p.(model := if c.clear then ClearSubmix(p.model, c.to) else CopySubmix(p.model, c.from, c.to)),
                      c.to, CHANNELS);
    }
  }

  /** A word of the record mask says whether that output is looped back. */
  lemma RecordMaskIsTheFlags(p: Pump, i: nat)
    requires Coherent(p) && i < p.dbq && i < CHANNELS
    ensures p.rec[i] == if p.model.outputs[i].flags & 4 == 4 then 1 else 0
  {
    var f := p.model.outputs[i].flags;
    assert f & 4 == 4 <==> f & 4 != 0;
  }

  /** Muting an output and unmuting it again is reversible: the gain and the loopback stay, and the record mask is not
      written. */
  lemma MuteIsReversible(p: Pump, out: nat)
    requires out < CHANNELS && p.model.outputs[out].flags & 1 == 0
    ensures var q := DrainOne(p, SetOutFlags(out, 1, 1));
            && Quadlet(q.model.outputs[out]) == (if p.model.outputs[out].flags & 2 == 0 then 0 else TWO32 - 1)
            && q.rec == p.rec && DrainOne(q, SetOutFlags(out, 1, 0)).model == p.model
  {
    var c := p.model.outputs[out];
    MutedFlags(c);
    hide MaskedFlags, Quadlet, RecMask, Render;
    var m := p.model;
    assert WithOutput(WithOutput(m, out, c.(flags := MaskedFlags(c.flags, 1, 1))), out, c) == m;
  }

  lemma MutedFlags(c: Cell)
    requires c.flags & 1 == 0
    ensures var d := c.(flags := MaskedFlags(c.flags, 1, 1));
            && Quadlet(d) == (if c.flags & 2 == 0 then 0 else TWO32 - 1)
            && Recording(d) == Recording(c) && MaskedFlags(d.flags, 1, 0) == c.flags
  {
    var f := c.flags;
    var g := MaskedFlags(f, 1, 1);
    assert g & 4 == f & 4 && g & 2 == f & 2 && g & 1 == 1;
    assert MaskedFlags(g, 1, 0) == f;
    assert f & 2 == 0 <==> !(f & 2 != 0);
  }
}
