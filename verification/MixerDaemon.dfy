/** The daemon's mixer code with its own fields and loops (platform/daemon/uf-daemon.cpp), proved against the
    functions of MixerPump. The device is the array its quadlet writes land in. */
module MixerDaemon {
  import opened MixerModel
  import opened MixerPump

  class Daemon {
    var model: Model             // g_model
    const shadow: Shadow         // g_mixer
    var ctlDirty: map<nat, u32>
    var settings: int            // g_settings
    const device: array<u32>     // the matrix RAM behind wq()
    var rec: Mask                // the record mask behind wblock()
    var dbq: nat
    var rate: nat
    var conf: int                // the settings the conf block was last assembled from
    var clock: Clock             // and the clock register

    ghost predicate Valid()
      reads this, shadow
    {
      && shadow.Valid() && device.Length == CELLS && device != shadow.cells
      && forall a :: a in ctlDirty ==> a >= MIXER_RAM
    }

    ghost function View(): Pump
      requires Valid()
      reads this, shadow, shadow.cells, device
    {
      Pump(model, shadow.cells[..], ctlDirty, device[..], rec, dbq, rate, settings, conf, clock)
    }

    constructor (model: Model)
      ensures Valid() && this.model == model && ctlDirty == map[] && fresh(shadow) && fresh(shadow.cells)
          && fresh(device)
    {
      this.model := model;
      shadow := new Shadow();
      ctlDirty := map[];
      settings, conf, clock := 0, 0, Clock(0, 0);
      device := new u32[CELLS](_ => 0);
      rec := seq(CHANNELS, _ => 0);
      dbq, rate := 0, 0;
    }

    /** The `dirty` lambda of the drain. */
    method Dirty(addr: nat, value: u32)
      requires Valid() && addr >= MIXER_RAM
      modifies this`ctlDirty, shadow.cells
      ensures Valid() && View() == PutCell(old(View()), addr, value)
    {
      shadow.SetAt(addr, value);
      ctlDirty := ctlDirty[addr := value];
    }

    method DirtyColumn(dest: nat)
      requires Valid()
      modifies this`ctlDirty, shadow.cells
      ensures Valid() && View() == PutColumn(old(View()), dest, CHANNELS)
    {
      ghost var start := View();
      for sc := 0 to CHANNELS
        invariant Valid() && View() == PutColumn(start, dest, sc)
      {
        Dirty(CellAddr(Input, sc, dest), Quadlet(CellAt(model, Input, sc, dest)));
        Dirty(CellAddr(Playback, sc, dest), Quadlet(CellAt(model, Playback, sc, dest)));
      }
    }

    /** The model's own column loops. */
    method SubmixInPlace(from: nat, to: nat, clear: bool)
      modifies this`model
      ensures model == if clear then ClearSubmix(old(model), to) else CopySubmix(old(model), from, to)
    {
      var mixer := new Mixer(model);
      if clear { mixer.ClearSubmixColumn(to); } else { mixer.CopySubmixColumn(from, to); }
      model := mixer.m;
    }

    method Apply(c: Command)
      requires Valid()
      modifies this, shadow.cells
      ensures Valid() && View() == DrainOne(old(View()), c)
    {
      hide MaskedFlags, Recording, WithCell, CellAt;
      match c
      case SetMixer(kind, src, dest, coeff) =>
        model := WithCell(model, kind, src, dest, CellAt(model, kind, src, dest).(gain := coeff));
        Dirty(CellAddr(kind, src, dest), Quadlet(CellAt(model, kind, src, dest)));
      case SetFader(out, coeff) =>
        model := WithOutput(model, out, OutputAt(model, out).(gain := coeff));
        Dirty(FaderAddr(out), Quadlet(OutputAt(model, out)));
      case SetCellFlags(kind, src, dest, mask, value) =>
        var f := CellAt(model, kind, src, dest);
        model := WithCell(model, kind, src, dest, f.(flags := MaskedFlags(f.flags, mask, value)));
        Dirty(CellAddr(kind, src, dest), Quadlet(CellAt(model, kind, src, dest)));
      case SetOutFlags(out, mask, value) =>
        var f := OutputAt(model, out);
        var wasRec := Recording(f);
        model := WithOutput(model, out, f.(flags := MaskedFlags(f.flags, mask, value)));
        Dirty(FaderAddr(out), Quadlet(OutputAt(model, out)));
        if wasRec != Recording(OutputAt(model, out)) { rec := MaskWritten(rec, model, dbq); }
      case SetStereoPair(kind, channel, on) =>
        model := SetStereo(model, kind, channel, on);
      case Submix(from, to, clear) =>
        SubmixInPlace(from, to, clear);
        DirtyColumn(to);
      case SetSettings(s, newRate) =>
        settings := s;
        conf := s;
        clock := Clock(s, if newRate != 0 then newRate else rate);
      case Other =>
    }

    /** The drain loop: everything the queue hands over in one tick, in order. */
    method DrainQueue(queue: seq<Command>)
      requires Valid()
      modifies this, shadow.cells
      ensures Valid() && View() == PumpDrain(old(View()), queue)
      ensures old(Coherent(View())) && (forall k :: 0 <= k < |queue| ==> Safe(queue[k])) ==> Coherent(View())
    {
      ghost var start := View();
      for k := 0 to |queue|
        invariant Valid() && View() == PumpDrain(start, queue[..k])
      {
        assert queue[..k + 1][..k] == queue[..k];
        Apply(queue[k]);
      }
      assert queue[..|queue|] == queue;
      if Coherent(start) && (forall k :: 0 <= k < |queue| ==> Safe(queue[k])) {
        DrainsTrackEachOther(start, queue);
      }
    }

    /** The first key of the map in address order. */
    method FirstDirty() returns (a: nat)
      requires Valid() && ctlDirty.Keys != {}
      ensures a == Least(ctlDirty.Keys)
    {
      var rest := ctlDirty.Keys;
      a :| a in rest;
      rest := rest - {a};
      while rest != {}
        invariant rest <= ctlDirty.Keys && a in ctlDirty.Keys
        invariant forall b :: b in ctlDirty.Keys && b !in rest ==> a <= b
        decreases |rest|
      {
        var b :| b in rest;
        rest := rest - {b};
        if b < a { a := b; }
      }
      ghost var least := Least(ctlDirty.Keys);
      assert a <= least <= a;
    }

    /** One matrix write. */
    method WriteFirst()
      requires Valid() && ctlDirty.Keys != {}
      modifies this`ctlDirty, device
      ensures Valid() && View() == WriteOne(old(View()))
    {
      var a := FirstDirty();
      if IndexOf(a) < CELLS && a == AddrOf(IndexOf(a)) { device[IndexOf(a)] := ctlDirty[a]; }
      ctlDirty := ctlDirty - {a};
    }

    /** The rate-limited half of the tick: at most eight cells, lowest address first. */
    method WriteDirty() returns (written: nat)
      requires Valid()
      modifies this`ctlDirty, device
      ensures Valid() && View() == Written(old(View()), WRITES_PER_TICK)
      ensures written == if |old(ctlDirty)| < WRITES_PER_TICK then |old(ctlDirty)| else WRITES_PER_TICK
    {
      hide WriteOne;
      ghost var start := View();
      var budget := WRITES_PER_TICK;
      ghost var end := Written(start, budget);
      written := 0;
      while ctlDirty.Keys != {} && written < budget
        invariant Valid() && written <= budget == WRITES_PER_TICK
        invariant Written(View(), budget - written) == end
        invariant |ctlDirty| + written == |old(ctlDirty)|
        decreases budget - written
      {
        WriteOneTakesOne(View());
        WriteFirst();
        written := written + 1;
      }
      assert |ctlDirty.Keys| == |ctlDirty|;
    }

    /** The mixer half of session_start: the conf block, the record mask, a full render, and every cell written. */
    method SessionStart(channels: nat, newRate: nat)
      requires Valid()
      modifies this, shadow.cells, device
      ensures Valid() && View() == Started(old(View()), channels, newRate)
    {
      dbq, rate := channels, newRate;
      conf := settings;
      rec := MaskWritten(rec, model, dbq);
      var mixer := new Mixer(model);
      mixer.RenderInto(shadow);
      shadow.ApplyAll(device);
    }

    /** One command of that drain: the model only. */
    method ApplyIdle(c: Command) returns (recognised: bool)
      requires Valid()
      modifies this`model, this`settings
      ensures Valid()
      ensures forall changed :: Idle(model, shadow.cells[..], settings, changed || recognised)
                                == IdleOne(Idle(old(model), old(shadow.cells[..]), old(settings), changed), c)
    {
      recognised := true;
      match c
      case SetMixer(kind, src, dest, coeff) =>
        model := WithCell(model, kind, src, dest, CellAt(model, kind, src, dest).(gain := coeff));
      case SetFader(out, coeff) =>
        model := WithOutput(model, out, OutputAt(model, out).(gain := coeff));
      case SetCellFlags(kind, src, dest, mask, value) =>
        var f := CellAt(model, kind, src, dest);
        model := WithCell(model, kind, src, dest, f.(flags := MaskedFlags(f.flags, mask, value)));
      case SetOutFlags(out, mask, value) =>
        var f := OutputAt(model, out);
        model := WithOutput(model, out, f.(flags := MaskedFlags(f.flags, mask, value)));
      case SetStereoPair(kind, channel, on) => model := SetStereo(model, kind, channel, on);
      case Submix(from, to, clear) =>
        SubmixInPlace(from, to, clear);
      case SetSettings(s, _) => settings := s;
      case Other => recognised := false;
    }

    /** The drain used while no device is present. */
    method DrainIdle(queue: seq<Command>)
      requires Valid()
      modifies this`model, this`settings, shadow.cells
      ensures Valid()
      ensures Idle(model, shadow.cells[..], settings, true)
              == IdleDrain(old(model), old(shadow.cells[..]), old(settings), queue).(changed := true)
    {
      var changed := false;
      ghost var start := Idle(model, shadow.cells[..], settings, false);
      for k := 0 to |queue|
        invariant Valid() && Idle(model, shadow.cells[..], settings, changed) == IdleFold(start, queue[..k])
        invariant shadow.cells[..] == old(shadow.cells[..])
      {
        assert queue[..k + 1][..k] == queue[..k];
        var recognised := ApplyIdle(queue[k]);
        changed := changed || recognised;
      }
      assert queue[..|queue|] == queue;
      if changed {
        var mixer := new Mixer(model);
        mixer.RenderInto(shadow);
      }
    }
  }
}
