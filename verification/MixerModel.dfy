/** The logical mixer and its device image (platform/shared/uf_mixer_model.hpp, platform/shared/uf_mixer_shadow.hpp,
    include/uf/protocol/mixer.hpp).

    The model says what the user means: a gain with a mute and a phase flag for every crosspoint and output. The
    image is the 2048 quadlets the device stores. `RenderAt` gives the image cell by cell; the loops that produce it
    are proved to agree with it, and both ways back into a model are proved to lose nothing the image can express.
    */
module MixerModel {

  const CHANNELS: nat := 28
  const CELLS: nat := 2048
  const MIXER_RAM: nat := 0x8008_0000
  const MIXER_MAX: nat := 0x10000
  const TWO32: nat := 0x1_0000_0000

  type u32 = x: nat | x < TWO32

  datatype SrcKind = Input | Playback

  /** `flags`: 1 muted, 2 inverted, 4 record (outputs only). */
  datatype Cell = Cell(gain: u32, flags: bv8)

  predicate Muted(c: Cell) { c.flags & 1 != 0 }
  predicate Inverted(c: Cell) { c.flags & 2 != 0 }
  predicate Recording(c: Cell) { c.flags & 4 != 0 }

  type Row = r: seq<Cell> | |r| == CHANNELS witness seq(CHANNELS, _ => Cell(0, 0))
  type Grid = g: seq<Row> | |g| == CHANNELS witness seq(CHANNELS, _ => seq(CHANNELS, _ => Cell(0, 0)))
  type Image = i: seq<u32> | |i| == CELLS witness seq(CELLS, _ => 0)

  datatype Model = Model(inputs: Grid, playback: Grid, outputs: Row, stereoIn: set<nat>, stereoPb: set<nat>,
                         scratch: Cell)

  // ---- coefficients ---------------------------------------------------------------------------------------------

  function ClampGain(g: u32): u32 { if g > MIXER_MAX then MIXER_MAX else g }

  /** Magnitude and phase as one signed coefficient; an inverted zero is -1, never 0. */
  function SignedCoeff(magnitude: u32, inverted: bool): int {
    var m := ClampGain(magnitude);
    if !inverted then m else -(if m == 0 then 1 else m)
  }

  /** Two's complement, and back. */
  function CoeffQuadlet(coeff: int): u32
    requires -0x8000_0000 <= coeff < 0x8000_0000
  {
    if coeff < 0 then coeff + TWO32 else coeff
  }

  function QuadletCoeff(q: u32): int { if q >= 0x8000_0000 then q - TWO32 else q }

  function CoeffMagnitude(coeff: int): nat { if coeff < 0 then -coeff else coeff }

  function Quadlet(c: Cell): u32 {
    CoeffQuadlet(SignedCoeff(if Muted(c) then 0 else c.gain, Inverted(c)))
  }

  // ---- addresses ------------------------------------------------------------------------------------------------

  function InputAddr(src: nat, dest: nat): nat { MIXER_RAM + dest * 2 * 0x80 + 4 * src }
  function PlaybackAddr(src: nat, dest: nat): nat { MIXER_RAM + dest * 2 * 0x80 + 0x80 + 4 * src }
  function FaderAddr(out: nat): nat { MIXER_RAM + 0x1f80 + 4 * out }

  function CellAddr(kind: SrcKind, src: nat, dest: nat): nat {
    match kind
    case Input => InputAddr(src, dest)
    case Playback => PlaybackAddr(src, dest)
  }

  function IndexOf(addr: nat): nat
    requires addr >= MIXER_RAM
  {
    (addr - MIXER_RAM) / 4
  }

  function AddrOf(i: nat): nat { MIXER_RAM + 4 * i }

  // ---- access ---------------------------------------------------------------------------------------------------

  /** Out-of-range indices land on the scratch cell. */
  function CellAt(m: Model, kind: SrcKind, src: nat, dest: nat): Cell {
    if src >= CHANNELS || dest >= CHANNELS then m.scratch
    else match kind
         case Input => m.inputs[src][dest]
         case Playback => m.playback[src][dest]
  }

  function Put(g: Grid, src: nat, dest: nat, c: Cell): Grid
    requires src < CHANNELS && dest < CHANNELS
  {
    g[src := g[src][dest := c]]
  }

  function WithCell(m: Model, kind: SrcKind, src: nat, dest: nat, c: Cell): Model {
    if src >= CHANNELS || dest >= CHANNELS then m.(scratch := c)
    else match kind
         case Input => m.(inputs := Put(m.inputs, src, dest, c))
         case Playback => m.(playback := Put(m.playback, src, dest, c))
  }

  function OutputAt(m: Model, out: nat): Cell { if out < CHANNELS then m.outputs[out] else m.scratch }

  function WithOutput(m: Model, out: nat, c: Cell): Model {
    if out < CHANNELS then m.(outputs := m.outputs[out := c]) else m.(scratch := c)
  }

  /** A stereo mask is the set of its bits, one for each pair of channels. */
  function SetStereo(m: Model, kind: SrcKind, ch: nat, on: bool): Model {
    if ch >= CHANNELS then m
    else
      var bit := {ch / 2};
      match kind
      case Playback => m.(stereoPb := if on then m.stereoPb + bit else m.stereoPb - bit)
      case Input => m.(stereoIn := if on then m.stereoIn + bit else m.stereoIn - bit)
  }

  function RecMask(m: Model): (r: seq<u32>)
    ensures |r| == CHANNELS
  {
    seq(CHANNELS, i requires 0 <= i < CHANNELS => if Recording(m.outputs[i]) then 1 else 0)
  }

  // ---- submixes -------------------------------------------------------------------------------------------------

  function ColumnCopied(g: Grid, from: nat, to: nat): Grid
    requires from < CHANNELS && to < CHANNELS
  {
    seq(CHANNELS, s requires 0 <= s < CHANNELS => g[s][to := g[s][from]])
  }

  function ColumnCleared(g: Grid, to: nat): Grid
    requires to < CHANNELS
  {
    seq(CHANNELS, s requires 0 <= s < CHANNELS => g[s][to := Cell(0, 0)])
  }

  function CopySubmix(m: Model, from: nat, to: nat): Model {
    if from >= CHANNELS || to >= CHANNELS || from == to then m
    else m.(inputs := ColumnCopied(m.inputs, from, to), playback := ColumnCopied(m.playback, from, to))
  }

  function ClearSubmix(m: Model, out: nat): Model {
    if out >= CHANNELS then m
    else m.(inputs := ColumnCleared(m.inputs, out), playback := ColumnCleared(m.playback, out))
  }

  /** A copied submix feeds both outputs alike from every source; clearing silences every source into one output.
      Neither touches another column. */
  lemma SubmixColumns(m: Model, from: nat, to: nat, kind: SrcKind, src: nat, dest: nat)
    requires from < CHANNELS && to < CHANNELS && src < CHANNELS && dest < CHANNELS
    ensures CellAt(CopySubmix(m, from, to), kind, src, to) == CellAt(m, kind, src, from)
    ensures CellAt(ClearSubmix(m, to), kind, src, to) == Cell(0, 0)
    ensures dest != to ==> CellAt(CopySubmix(m, from, to), kind, src, dest) == CellAt(m, kind, src, dest)
                           && CellAt(ClearSubmix(m, to), kind, src, dest) == CellAt(m, kind, src, dest)
  {}

  // ---- the image ------------------------------------------------------------------------------------------------

  /** Whether a cell of the image belongs to a crosspoint or a fader, rather than to the padding between them. */
  predicate InputCell(i: nat) { i < 1792 && i % 64 < CHANNELS }
  predicate PlaybackCell(i: nat) { i < 1792 && 32 <= i % 64 < 32 + CHANNELS }
  predicate FaderCell(i: nat) { 2016 <= i < 2016 + CHANNELS }
  predicate Rendered(i: nat) { InputCell(i) || PlaybackCell(i) || FaderCell(i) }

  function RenderAt(m: Model, i: nat): u32 {
    if InputCell(i) then Quadlet(m.inputs[i % 64][i / 64])
    else if PlaybackCell(i) then Quadlet(m.playback[i % 64 - 32][i / 64])
    else if FaderCell(i) then Quadlet(m.outputs[i - 2016])
    else 0
  }

  function Render(m: Model): Image {
    seq(CELLS, i requires 0 <= i < CELLS => RenderAt(m, i))
  }

  lemma CellIndex(kind: SrcKind, src: nat, dest: nat)
    ensures IndexOf(CellAddr(kind, src, dest)) == dest * 64 + src + (if kind == Playback then 32 else 0)
    ensures src < CHANNELS ==>
              var i := dest * 64 + src + (if kind == Playback then 32 else 0);
              i / 64 == dest && i % 64 == src + (if kind == Playback then 32 else 0)
  {}

  /** Every crosspoint and every fader has a cell of its own. */
  lemma RenderFindsTheCell(m: Model, kind: SrcKind, src: nat, dest: nat)
    requires src < CHANNELS && dest < CHANNELS
    ensures IndexOf(CellAddr(kind, src, dest)) < CELLS
    ensures RenderAt(m, IndexOf(CellAddr(kind, src, dest))) == Quadlet(CellAt(m, kind, src, dest))
  {
    CellIndex(kind, src, dest);
  }

  /** Changing one crosspoint changes exactly one cell of the image. */
  lemma RenderAfterCell(m: Model, kind: SrcKind, src: nat, dest: nat, c: Cell, i: nat)
    requires src < CHANNELS && dest < CHANNELS
    ensures RenderAt(WithCell(m, kind, src, dest, c), i)
            == if i == IndexOf(CellAddr(kind, src, dest)) then Quadlet(c) else RenderAt(m, i)
  {
    CellIndex(kind, src, dest);
    assert i == i / 64 * 64 + i % 64;
  }

  lemma RenderAfterOutput(m: Model, out: nat, c: Cell, i: nat)
    requires out < CHANNELS
    ensures RenderAt(WithOutput(m, out, c), i) == if i == IndexOf(FaderAddr(out)) then Quadlet(c) else RenderAt(m, i)
  {}

  // ---- the way back ---------------------------------------------------------------------------------------------

  function Adopt(coeff: int): Cell
    requires -0x8000_0000 <= coeff < 0x8000_0000
  {
    Cell(CoeffMagnitude(coeff), if coeff < 0 then 2 else 0)
  }

  /** Rendering what was adopted gives the adopted coefficient back exactly when it is one the mixer can express. */
  lemma AdoptIsExact(q: u32)
    ensures Quadlet(Adopt(QuadletCoeff(q))) == q <==> CoeffMagnitude(QuadletCoeff(q)) <= MIXER_MAX
  {
    var c := Adopt(QuadletCoeff(q));
    assert (2 as bv8) & 1 == 0 && (2 as bv8) & 2 != 0 && (0 as bv8) & 1 == 0 && (0 as bv8) & 2 == 0;
  }

  /** Every rendered quadlet is one of those, muted-and-inverted cells and over-range gains included. */
  lemma QuadletIsExpressible(c: Cell)
    ensures CoeffMagnitude(QuadletCoeff(Quadlet(c))) <= MIXER_MAX
    ensures Muted(c) && Inverted(c) ==> QuadletCoeff(Quadlet(c)) == -1
    ensures Muted(c) && !Inverted(c) ==> Quadlet(c) == 0
  {}

  /** The coefficient stored for an address in a saved image of any length; a missing cell reads as zero. */
  function StoredAt(cells: seq<u32>, addr: nat): int
    requires addr >= MIXER_RAM
    ensures -0x8000_0000 <= StoredAt(cells, addr) < 0x8000_0000
  {
    if IndexOf(addr) < |cells| then QuadletCoeff(cells[IndexOf(addr)]) else 0
  }

  function ImportCells(m: Model, cells: seq<u32>): Model {
    m.(inputs := seq(CHANNELS, s requires 0 <= s < CHANNELS =>
         seq(CHANNELS, d requires 0 <= d < CHANNELS => Adopt(StoredAt(cells, InputAddr(s, d))))),
       playback := seq(CHANNELS, s requires 0 <= s < CHANNELS =>
         seq(CHANNELS, d requires 0 <= d < CHANNELS => Adopt(StoredAt(cells, PlaybackAddr(s, d))))),
       outputs := seq(CHANNELS, o requires 0 <= o < CHANNELS => Adopt(StoredAt(cells, FaderAddr(o)))))
  }

  lemma ImportedCell(m: Model, cells: seq<u32>, i: nat)
    requires |cells| == CELLS && i < CELLS && Rendered(i)
    ensures RenderAt(ImportCells(m, cells), i) == Quadlet(Adopt(QuadletCoeff(cells[i])))
  {
    if InputCell(i) { CellIndex(Input, i % 64, i / 64); }
    else if PlaybackCell(i) { CellIndex(Playback, i % 64 - 32, i / 64); }
  }

  /** A shorter image is one whose missing cells are zero; stereo pairs are not in an image and stay. */
  lemma ShortImageIsPadded(m: Model, cells: seq<u32>, zeros: seq<u32>)
    requires |cells| + |zeros| == CELLS && forall i :: 0 <= i < |zeros| ==> zeros[i] == 0
    ensures ImportCells(m, cells) == ImportCells(m, cells + zeros)
    ensures var n := ImportCells(m, cells); n.stereoIn == m.stereoIn && n.stereoPb == m.stereoPb
  {
    var n, padded := ImportCells(m, cells), ImportCells(m, cells + zeros);
    forall s | 0 <= s < CHANNELS
      ensures n.inputs[s] == padded.inputs[s] && n.playback[s] == padded.playback[s]
    {
      forall d | 0 <= d < CHANNELS
        ensures n.inputs[s][d] == padded.inputs[s][d] && n.playback[s][d] == padded.playback[s][d]
      {
        CellIndex(Input, s, d);
        CellIndex(Playback, s, d);
      }
    }
    assert n.inputs == padded.inputs && n.playback == padded.playback && n.outputs == padded.outputs;
  }

  /** Importing a saved image and rendering it again gives the image back exactly when its padding is zero and every
      cell holds a coefficient the mixer can express. */
  lemma ImportThenRender(m: Model, cells: Image)
    ensures Render(ImportCells(m, cells)) == cells <==>
            forall i :: 0 <= i < CELLS ==>
              if Rendered(i) then CoeffMagnitude(QuadletCoeff(cells[i])) <= MIXER_MAX else cells[i] == 0
  {
    var r := Render(ImportCells(m, cells));
    forall i | 0 <= i < CELLS
      ensures r[i] == cells[i] <==>
              if Rendered(i) then CoeffMagnitude(QuadletCoeff(cells[i])) <= MIXER_MAX else cells[i] == 0
    {
      if Rendered(i) {
        ImportedCell(m, cells, i);
        AdoptIsExact(cells[i]);
      }
    }
    if forall i :: 0 <= i < CELLS ==> r[i] == cells[i] { assert r == cells; }
  }

  /** For every model: adopting its rendered matrix, into whatever model, and rendering again gives the same matrix. */
  lemma AdoptingTheImageLosesNothing(m: Model, into: Model)
    ensures Render(ImportCells(into, Render(m))) == Render(m)
  {
    var cells := Render(m);
    forall i | 0 <= i < CELLS
      ensures if Rendered(i) then CoeffMagnitude(QuadletCoeff(cells[i])) <= MIXER_MAX else cells[i] == 0
    {
      if InputCell(i) { QuadletIsExpressible(m.inputs[i % 64][i / 64]); }
      else if PlaybackCell(i) { QuadletIsExpressible(m.playback[i % 64 - 32][i / 64]); }
      else if FaderCell(i) { QuadletIsExpressible(m.outputs[i - 2016]); }
    }
    ImportThenRender(into, cells);
  }

  // ---- saving and loading ---------------------------------------------------------------------------------------

  type Gains = g: seq<seq<u32>> | |g| == CHANNELS && forall s :: 0 <= s < CHANNELS ==> |g[s]| == CHANNELS
    witness seq(CHANNELS, _ => seq(CHANNELS, _ => 0))
  type Flags = f: seq<seq<bv8>> | |f| == CHANNELS && forall s :: 0 <= s < CHANNELS ==> |f[s]| == CHANNELS
    witness seq(CHANNELS, _ => seq(CHANNELS, _ => 0))

  datatype Blob = Blob(stereoIn: set<nat>, stereoPb: set<nat>, inputGain: Gains, playbackGain: Gains,
                       outputGain: seq<u32>, inputFlags: Flags, playbackFlags: Flags, outputFlags: seq<bv8>)

  predicate BlobOk(b: Blob) { |b.outputGain| == CHANNELS && |b.outputFlags| == CHANNELS }

  function GainsOf(g: Grid): Gains {
    seq(CHANNELS, s requires 0 <= s < CHANNELS => seq(CHANNELS, d requires 0 <= d < CHANNELS => g[s][d].gain))
  }

  function FlagsOf(g: Grid): Flags {
    seq(CHANNELS, s requires 0 <= s < CHANNELS => seq(CHANNELS, d requires 0 <= d < CHANNELS => g[s][d].flags))
  }

  function ToBlob(m: Model): (b: Blob)
    ensures BlobOk(b)
  {
    Blob(m.stereoIn, m.stereoPb, GainsOf(m.inputs), GainsOf(m.playback),
         seq(CHANNELS, o requires 0 <= o < CHANNELS => m.outputs[o].gain),
         FlagsOf(m.inputs), FlagsOf(m.playback),
         seq(CHANNELS, o requires 0 <= o < CHANNELS => m.outputs[o].flags))
  }

  function Cells(gains: Gains, flags: Flags): Grid {
    seq(CHANNELS, s requires 0 <= s < CHANNELS =>
      seq(CHANNELS, d requires 0 <= d < CHANNELS => Cell(ClampGain(gains[s][d]), flags[s][d])))
  }

  function FromBlob(m: Model, b: Blob): Model
    requires BlobOk(b)
  {
    m.(stereoIn := b.stereoIn, stereoPb := b.stereoPb,
       inputs := Cells(b.inputGain, b.inputFlags), playback := Cells(b.playbackGain, b.playbackFlags),
       outputs := seq(CHANNELS, o requires 0 <= o < CHANNELS => Cell(ClampGain(b.outputGain[o]), b.outputFlags[o])))
  }

  lemma ClampingTwice(gains: Gains, flags: Flags)
    ensures var g := Cells(gains, flags); Cells(GainsOf(g), FlagsOf(g)) == g
  {
    var g := Cells(gains, flags);
    forall s | 0 <= s < CHANNELS
      ensures Cells(GainsOf(g), FlagsOf(g))[s] == g[s]
    {}
  }

  /** The cells of a model, gains limited to the mixer's range. */
  predicate SameUpToClamp(c: Cell, d: Cell) { d == Cell(ClampGain(c.gain), c.flags) }

  /** For every model, save and load keeps every flag (so a mute stays reversible), every gain up to the mixer's
      limit, both stereo masks, the record mask, and the rendered matrix. */
  lemma SaveAndLoad(m: Model, into: Model)
    ensures var l := FromBlob(into, ToBlob(m));
            && Render(l) == Render(m) && RecMask(l) == RecMask(m)
            && l.stereoIn == m.stereoIn && l.stereoPb == m.stereoPb
            && (forall s, d :: 0 <= s < CHANNELS && 0 <= d < CHANNELS ==>
                  SameUpToClamp(m.inputs[s][d], l.inputs[s][d]) && SameUpToClamp(m.playback[s][d], l.playback[s][d]))
            && (forall o :: 0 <= o < CHANNELS ==> SameUpToClamp(m.outputs[o], l.outputs[o]))
            && FromBlob(into, ToBlob(l)) == l
  {
    var l := FromBlob(into, ToBlob(m));
    forall i | 0 <= i < CELLS
      ensures RenderAt(l, i) == RenderAt(m, i)
    {
      if InputCell(i) { assert SameUpToClamp(m.inputs[i % 64][i / 64], l.inputs[i % 64][i / 64]); }
      else if PlaybackCell(i) {
        assert SameUpToClamp(m.playback[i % 64 - 32][i / 64], l.playback[i % 64 - 32][i / 64]);
      }
    }
    assert Render(l) == Render(m);
    assert RecMask(l) == RecMask(m);
    ClampingTwice(GainsOf(m.inputs), FlagsOf(m.inputs));
    ClampingTwice(GainsOf(m.playback), FlagsOf(m.playback));
    assert FromBlob(into, ToBlob(l)).outputs == l.outputs;
  }

  // ---- the loops ------------------------------------------------------------------------------------------------

  class Shadow {
    const cells: array<u32>

    ghost predicate Valid()
      reads this
    {
      cells.Length == CELLS
    }

    constructor ()
      ensures Valid() && fresh(cells) && cells[..] == seq(CELLS, _ => 0)
    {
      cells := new u32[CELLS](_ => 0);
    }

    method Clear()
      requires Valid()
      modifies cells
      ensures forall i :: 0 <= i < CELLS ==> cells[i] == 0
    {
      for i := 0 to CELLS
        invariant forall j :: 0 <= j < i ==> cells[j] == 0
      {
        cells[i] := 0;
      }
    }

    /** An address outside the matrix is dropped. */
    method SetAt(addr: nat, quadlet: u32)
      requires Valid() && addr >= MIXER_RAM
      modifies cells
      ensures cells[..] == if IndexOf(addr) < CELLS then old(cells[..])[IndexOf(addr) := quadlet] else old(cells[..])
    {
      var i := IndexOf(addr);
      if i < CELLS { cells[i] := quadlet; }
    }

    /** One quadlet write for every cell, whatever the device held before. */
    method ApplyAll(device: array<u32>)
      requires Valid() && device.Length == CELLS && device != cells
      modifies device
      ensures device[..] == cells[..]
    {
      for i := 0 to CELLS
        invariant forall j :: 0 <= j < i ==> device[j] == cells[j]
      {
        device[i] := cells[i];
      }
    }
  }

  class Mixer {
    var m: Model

    constructor (m: Model)
      ensures this.m == m
    {
      this.m := m;
    }

    method CopySubmixColumn(from: nat, to: nat)
      modifies this
      ensures m == CopySubmix(old(m), from, to)
    {
      if from >= CHANNELS || to >= CHANNELS || from == to { return; }
      ghost var was := m;
      for s := 0 to CHANNELS
        invariant m.(inputs := was.inputs, playback := was.playback) == was
        invariant forall k :: 0 <= k < CHANNELS ==>
                    && m.inputs[k] == (if k < s then was.inputs[k][to := was.inputs[k][from]] else was.inputs[k])
                    && m.playback[k] == (if k < s then was.playback[k][to := was.playback[k][from]]
                        else was.playback[k])
      {
        m := m.(inputs := Put(m.inputs, s, to, m.inputs[s][from]));
        m := m.(playback := Put(m.playback, s, to, m.playback[s][from]));
      }
      assert m.inputs == ColumnCopied(was.inputs, from, to);
      assert m.playback == ColumnCopied(was.playback, from, to);
    }

    method ClearSubmixColumn(out: nat)
      modifies this
      ensures m == ClearSubmix(old(m), out)
    {
      if out >= CHANNELS { return; }
      ghost var was := m;
      for s := 0 to CHANNELS
        invariant m.(inputs := was.inputs, playback := was.playback) == was
        invariant forall k :: 0 <= k < CHANNELS ==>
                    && m.inputs[k] == (if k < s then was.inputs[k][out := Cell(0, 0)] else was.inputs[k])
                    && m.playback[k] == (if k < s then was.playback[k][out := Cell(0, 0)] else was.playback[k])
      {
        m := m.(inputs := Put(m.inputs, s, out, Cell(0, 0)));
        m := m.(playback := Put(m.playback, s, out, Cell(0, 0)));
      }
      assert m.inputs == ColumnCleared(was.inputs, out);
      assert m.playback == ColumnCleared(was.playback, out);
    }

    /** Cell `i` is one the crosspoint loops have written, at destination `d` and source `s`. */
    predicate Reached(i: nat, d: nat, s: nat) { i < 1792 && (i / 64 < d || (i / 64 == d && i % 64 % 32 < s)) }

    ghost predicate RenderedUpTo(sh: Shadow, d: nat, s: nat)
      reads this, sh, sh.cells
    {
      && sh.Valid()
      && forall i :: 0 <= i < CELLS ==> sh.cells[i] == if Reached(i, d, s) then RenderAt(m, i) else 0
    }

    lemma ReachedNext(i: nat, d: nat, s: nat)
      requires d < CHANNELS && s < CHANNELS
      ensures Reached(i, d, s + 1) <==> Reached(i, d, s) || i == d * 64 + s || i == d * 64 + s + 32
    {
      assert i == i / 64 * 64 + i % 64;
    }

    lemma ReachedRow(i: nat, d: nat)
      requires d < CHANNELS && i < CELLS
      ensures Reached(i, d, CHANNELS) ==> Reached(i, d + 1, 0)
      ensures Reached(i, d + 1, 0) && !Reached(i, d, CHANNELS) ==> RenderAt(m, i) == 0
    {}

    method RenderCrosspoint(sh: Shadow, s: nat, d: nat)
      requires s < CHANNELS && d < CHANNELS && RenderedUpTo(sh, d, s)
      modifies sh.cells
      ensures RenderedUpTo(sh, d, s + 1)
    {
      CellIndex(Input, s, d);
      CellIndex(Playback, s, d);
      sh.SetAt(InputAddr(s, d), Quadlet(m.inputs[s][d]));
      sh.SetAt(PlaybackAddr(s, d), Quadlet(m.playback[s][d]));
      forall i | 0 <= i < CELLS
        ensures sh.cells[i] == if Reached(i, d, s + 1) then RenderAt(m, i) else 0
      {
        ReachedNext(i, d, s);
        assert sh.cells[i] == if i == d * 64 + s + 32 then Quadlet(m.playback[s][d])
                              else if i == d * 64 + s then Quadlet(m.inputs[s][d]) else old(sh.cells[i]);
      }
    }

    method RenderInto(sh: Shadow)
      requires sh.Valid()
      modifies sh.cells
      ensures sh.cells[..] == Render(m)
    {
      sh.Clear();
      for d := 0 to CHANNELS
        invariant RenderedUpTo(sh, d, 0)
      {
        for s := 0 to CHANNELS
          invariant RenderedUpTo(sh, d, s)
        {
          RenderCrosspoint(sh, s, d);
        }
        forall i | 0 <= i < CELLS
          ensures sh.cells[i] == if Reached(i, d + 1, 0) then RenderAt(m, i) else 0
        {
          ReachedRow(i, d);
        }
      }
      for o := 0 to CHANNELS
        invariant sh.Valid()
        invariant forall i :: 0 <= i < CELLS ==> sh.cells[i] == if i < 2016 + o then RenderAt(m, i) else 0
      {
        sh.SetAt(FaderAddr(o), Quadlet(m.outputs[o]));
      }
    }
  }
}
