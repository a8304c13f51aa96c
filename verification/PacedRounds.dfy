/** The paced fill that keeps up (platform/daemon/uf-daemon.cpp, platform/ohci-dext/UFFireWireOHCI.cpp): what the pump
    hands over reaches the dext, and as long as interrupts and ticks come often enough, transmission never runs dry,
    whatever the number of laps. */
module PacedRounds {
  import opened Arithmetic
  import opened PacedTransmit
  import X = TransmitRing

  // ---- the hand-over --------------------------------------------------------------------------------------------

  /** The cursor stored in the control block is what the dext refills up to, as far as the ring has room. */
  lemma HandOverReachesTheDext(s: Sys, fullCount: nat)
    requires Inv(s, fullCount) && s.phase.Read?
    ensures var t := Next(s, HandOver);
            && t.control >= s.fill && t.phase == Seen(s.phase.sent)
            && Next(t, Apply(s.fill)).tx.fill == Max(s.tx.fill, Min(s.fill, s.tx.sent + X.SLOTS))
  {
    X.RefilledKeepsInv(s.tx, s.fill);
  }

  /** So is the one passed in a call. */
  lemma CallReachesTheDext(s: Sys, fullCount: nat)
    requires Inv(s, fullCount) && TickDone(s)
    ensures var t := Next(s, Call);
            && t.control >= s.fill && t.phase == Called
            && Next(t, Apply(s.fill)).tx.fill == Max(s.tx.fill, Min(s.fill, s.tx.sent + X.SLOTS))
  {
    X.RefilledKeepsInv(s.tx, s.fill);
  }

  // ---- every run is a run of the transmit ring ------------------------------------------------------------------

  /** Every full packet went out while the dext's fill cursor was ahead of it. */
  ghost predicate KeptAhead(fullCount: nat, steps: seq<Step>)
    decreases |steps|
  {
    steps == [] ||
    var before, a := steps[..|steps| - 1], steps[|steps| - 1];
    var tx := Run(Initial(fullCount), before).tx;
    KeptAhead(fullCount, before) && (a.Wire? && X.Full(tx.cadence, tx.head) ==> tx.head < tx.fill)
  }

  function TxStep(s: Sys, a: Step): seq<X.Step> {
    match a
    case Wire(word) => [X.Transmit(word)]
    case Apply(upTo) => if upTo <= s.control then [X.Refill(upTo)] else []
    case Look => [X.Look]
    case _ => []
  }

  lemma OneTxStep(s: Sys, a: Step, b: X.Step)
    requires Shape(s) && TxStep(s, a) == [b]
    ensures Next(s, a).tx == X.Next(s.tx, b) && !b.Start? && b.Transmit? == a.Wire?
  {}

  lemma {:induction false} EveryRunIsATransmitRun(fullCount: nat, steps: seq<Step>) returns (tx: seq<X.Step>)
    ensures Run(Initial(fullCount), steps).tx == X.Run(X.Started(fullCount), tx)
    ensures X.InTime(fullCount, tx) <==> KeptAhead(fullCount, steps)
    decreases |steps|
  {
    tx := [];
    if steps != [] {
      var before, a := steps[..|steps| - 1], steps[|steps| - 1];
      tx := EveryRunIsATransmitRun(fullCount, before);
      var s := Run(Initial(fullCount), before);
      if TxStep(s, a) != [] {
        var b := TxStep(s, a)[0];
        OneTxStep(s, a, b);
        hide Next, X.Next;
        var all := tx + [b];
        assert all[..|all| - 1] == tx;
        tx := all;
      }
    }
  }

  // ---- rounds -----------------------------------------------------------------------------------------------------

  /** How many packets may go out between two interrupts: a third of the lead, for the cursor that is being written,
      the one handed over, and the one applied. */
  const PER_ROUND: nat := 21

  function Wires(words: seq<nat>): seq<Step> { seq(|words|, i requires 0 <= i < |words| => Wire(words[i])) }
  function Looks(n: nat): seq<Step> { seq(n, _ => Step.Look) }
  function Writes(n: nat): seq<Step> { seq(n, _ => WritePacket) }

  /** Packets go out; the interrupt applies the cursor, scans and publishes; the pump takes the count, hands its
      cursor over and writes up to the target. */
  function Round(control: nat, words: seq<nat>): seq<Step> {
    Wires(words) + [Apply(control)] + Looks(X.SLOTS) + [Publish, Snapshot, HandOver, Resync] + Writes(LEAD)
  }

  /** Round after round, each applying the cursor the last one handed over. */
  function Schedule(fullCount: nat, rounds: seq<seq<nat>>): seq<Step>
    decreases |rounds|
  {
    if rounds == [] then []
    else
      var earlier := Schedule(fullCount, rounds[..|rounds| - 1]);
      earlier + Round(Run(Initial(fullCount), earlier).control, rounds[|rounds| - 1])
  }

  function Total(rounds: seq<seq<nat>>): nat {
    if rounds == [] then 0 else Total(rounds[..|rounds| - 1]) + |rounds[|rounds| - 1]|
  }

  /** Where a round leaves the system: all counted, all ahead, nothing late. */
  ghost predicate InStep(s: Sys, fullCount: nat) {
    && Inv(s, fullCount) && s.intact && TickDone(s) && X.AllSeen(s.tx)
    && s.tx.head <= s.tx.sent
    && s.tx.head + (LEAD - 2 * PER_ROUND) <= s.tx.fill
    && s.tx.head + (LEAD - PER_ROUND) <= Max(s.control, s.tx.fill)
    && s.tx.head + LEAD <= s.fill
  }

  lemma {:induction false} RunAppend(s: Sys, a: seq<Step>, b: seq<Step>)
    requires Shape(s)
    ensures Run(s, a + b) == Run(Run(s, a), b)
    decreases |b|
  {
    hide Next;
    if b == [] {
      assert a + b == a;
    } else {
      var all := a + b;
      assert all[..|all| - 1] == a + b[..|b| - 1];
      RunAppend(s, a, b[..|b| - 1]);
    }
  }

  /** A run with only the controller moving. */
  lemma {:induction false} WiresMove(s: Sys, fullCount: nat, words: seq<nat>)
    requires Inv(s, fullCount) && X.SLOTS <= 2 * fullCount && X.AllSeen(s.tx) && s.tx.head + |words| <= s.tx.fill
    ensures var t := Run(s, Wires(words));
            && Inv(t, fullCount) && X.AllSeen(t.tx)
            && t == s.(tx := t.tx) && t.tx == s.tx.(head := s.tx.head + |words|, status := t.tx.status)
    decreases |words|
  {
    if words != [] {
      var n := |words| - 1;
      WiresMove(s, fullCount, words[..n]);
      assert Wires(words)[..n] == Wires(words[..n]);
      var t := Run(s, Wires(words[..n]));
      hide Inv;
      NextKeepsInv(t, Wire(words[n]), fullCount);
      TxInv(t, fullCount);
      X.NextKeepsAllSeen(t.tx, X.Transmit(words[n]));
    }
  }

  lemma TxInv(s: Sys, fullCount: nat)
    requires Inv(s, fullCount)
    ensures X.Inv(s.tx)
  {}

  /** The interrupt's refill. */
  lemma ApplyMoves(s: Sys, fullCount: nat)
    requires Inv(s, fullCount) && X.SLOTS <= 2 * fullCount && X.AllSeen(s.tx)
    ensures var t := Next(s, Apply(s.control));
            && Inv(t, fullCount) && X.AllSeen(t.tx)
            && t == s.(tx := t.tx) && t.tx == s.tx.(fill := t.tx.fill, status := t.tx.status)
            && t.tx.fill == Max(s.tx.fill, Min(s.control, s.tx.sent + X.SLOTS))
  {
    NextKeepsInv(s, Apply(s.control), fullCount);
    X.RefilledKeepsInv(s.tx, s.control);
    X.RefilledKeepsAllSeen(s.tx, s.control);
    RefillMovesOnlyFill(s.tx, s.control);
  }

  lemma {:induction false} RefillMovesOnlyFill(s: X.Tx, upTo: nat)
    requires X.Ordered(s)
    ensures var t := X.Refilled(s, upTo); t == s.(fill := t.fill, status := t.status)
    decreases s.sent + X.SLOTS - s.fill
  {
    if s.fill < upTo && s.fill - s.sent < X.SLOTS {
      RefillMovesOnlyFill(s.(status := s.status[s.fill % X.SLOTS := 0], fill := s.fill + 1), upTo);
    }
  }

  /** The interrupt's scan, turn by turn: enough turns are the whole scan. */
  lemma {:induction false} LooksScan(s: Sys, fullCount: nat, n: nat, stop: nat)
    requires Inv(s, fullCount) && X.SLOTS <= 2 * fullCount && stop == X.ScanFrom(s.tx.sent, s.tx)
    ensures var t := Run(s, Looks(n));
            Inv(t, fullCount) && t == s.(tx := s.tx.(sent := Min(s.tx.sent + n, stop)))
    decreases n
  {
    if n > 0 {
      LooksScan(s, fullCount, n - 1, stop);
      assert Looks(n)[..n - 1] == Looks(n - 1);
      var t := Run(s, Looks(n - 1));
      NextKeepsInv(t, Step.Look, fullCount);
      hide Inv, X.ScanFrom;
      assert X.Looked(t.tx).sent == Min(s.tx.sent + n, stop);
    }
  }

  /** With everything seen and nothing beyond the cursor, the scan reaches the head. */
  lemma ScanReaches(s: X.Tx)
    requires X.Ordered(s) && X.AllSeen(s) && s.head <= s.fill && s.sent <= s.head
    ensures X.ScanFrom(s.sent, s) >= s.head
  {}

  lemma InvShape(s: Sys, fullCount: nat)
    requires Inv(s, fullCount)
    ensures Shape(s)
  {}

  /** The pump takes the published count, and has no cause to resynchronise. */
  lemma CountTaken(s: Sys, fullCount: nat)
    requires Inv(s, fullCount) && X.SLOTS <= 2 * fullCount && TickDone(s) && s.intact
    requires s.tx.sent + MIN_LEAD <= s.fill <= s.tx.sent + X.SLOTS
    ensures var t := Run(s, [Publish, Snapshot, HandOver, Resync]);
            && Inv(t, fullCount)
            && t == s.(published := s.tx.sent, snap := s.tx.sent, control := Max(s.control, s.fill), phase := Writing)
  {
    InvShape(s, fullCount);
    hide Inv;
    var s1 := Next(s, Publish);
    var s2 := Next(s1, Snapshot);
    var s3 := Next(s2, HandOver);
    var s4 := Next(s3, Resync);
    NextKeepsInv(s, Publish, fullCount);
    NextKeepsInv(s1, Snapshot, fullCount);
    NextKeepsInv(s2, HandOver, fullCount);
    NextKeepsInv(s3, Resync, fullCount);
    FourSteps(s, Publish, Snapshot, HandOver, Resync);
  }

  lemma RunNothing(s: Sys)
    requires Shape(s)
    ensures Run(s, []) == s
  {}

  lemma FourSteps(s: Sys, a: Step, b: Step, c: Step, d: Step)
    requires Shape(s)
    ensures Run(s, [a, b, c, d]) == Next(Next(Next(Next(s, a), b), c), d)
  {
    hide Next, Run;
    assert [a] == [] + [a] && [a, b] == [a] + [b] && [a, b, c] == [a, b] + [c] && [a, b, c, d] == [a, b, c] + [d];
    RunNothing(s);
    RunLast(s, [], a);
    RunLast(s, [a], b);
    RunLast(s, [a, b], c);
    RunLast(s, [a, b, c], d);
  }

  /** The pump's loop, with the head standing behind the cursor. */
  lemma {:induction false} WritesFill(s: Sys, fullCount: nat, n: nat)
    requires Inv(s, fullCount) && X.SLOTS <= 2 * fullCount && s.phase.Writing? && s.intact && s.tx.head < s.fill
    ensures var t := Run(s, Writes(n));
            && Inv(t, fullCount) && t.intact
            && t == s.(fill := t.fill, high := t.high, payload := t.payload, inTime := t.inTime)
            && t.fill == Max(s.fill, Min(s.fill + n, s.snap + LEAD))
    decreases n
  {
    if n > 0 {
      WritesFill(s, fullCount, n - 1);
      assert Writes(n)[..n - 1] == Writes(n - 1);
      var t := Run(s, Writes(n - 1));
      NextKeepsInv(t, WritePacket, fullCount);
      hide Inv;
    }
  }

  /** One round of at most 21 packets leaves the system in step again. */
  lemma RoundStaysInStep(s: Sys, fullCount: nat, words: seq<nat>)
    requires InStep(s, fullCount) && X.SLOTS <= 2 * fullCount && |words| <= PER_ROUND
    ensures var t := Run(s, Round(s.control, words));
            InStep(t, fullCount) && t.tx.head == s.tx.head + |words|
  {
    var s1 := Run(s, Wires(words));
    WiresMove(s, fullCount, words);
    var s2 := Next(s1, Apply(s.control));
    ApplyMoves(s1, fullCount);
    var stop := X.ScanFrom(s2.tx.sent, s2.tx);
    var s3 := Run(s2, Looks(X.SLOTS));
    LooksScan(s2, fullCount, X.SLOTS, stop);
    TxInv(s2, fullCount);
    ScannedInStep(s2, s3, fullCount, stop);
    var s4 := Run(s3, [Publish, Snapshot, HandOver, Resync]);
    CountTaken(s3, fullCount);
    var s5 := Run(s4, Writes(LEAD));
    WritesFill(s4, fullCount, LEAD);
    RoundIsItsParts(s, words, s1, s2, s3, s4);
    hide Run;
    InStepAgain(s3, s4, s5, fullCount);
  }

  /** The scan has reached the head, and everything is still ahead of it. */
  lemma ScannedInStep(s: Sys, t: Sys, fullCount: nat, stop: nat)
    requires Inv(s, fullCount) && Inv(t, fullCount) && X.SLOTS <= 2 * fullCount && X.AllSeen(s.tx)
    requires stop == X.ScanFrom(s.tx.sent, s.tx) && s.tx.head <= s.tx.fill
    requires t == s.(tx := s.tx.(sent := Min(s.tx.sent + X.SLOTS, stop)))
    ensures t.tx.head <= t.tx.sent <= t.tx.head + 1 && X.AllSeen(t.tx) && t.tx.sent >= s.tx.sent
  {
    if s.tx.sent <= s.tx.head { ScanReaches(s.tx); }
    CountIsReported(t, fullCount);
  }

  lemma InStepAgain(s3: Sys, s4: Sys, s5: Sys, fullCount: nat)
    requires Inv(s5, fullCount) && s5.tx == s3.tx && X.AllSeen(s5.tx) && s3.tx.head <= s3.tx.sent <= s3.tx.head + 1
    requires s3.tx.head + (LEAD - 2 * PER_ROUND) <= s3.tx.fill && s3.tx.head + (LEAD - PER_ROUND) <= s3.fill
    requires s4 == s3.(published := s3.tx.sent, snap := s3.tx.sent, control := Max(s3.control, s3.fill),
                       phase := Writing)
    requires s5 == s4.(fill := s5.fill, high := s5.high, payload := s5.payload, inTime := s5.inTime) && s5.intact
    requires s5.fill == Max(s4.fill, Min(s4.fill + LEAD, s4.snap + LEAD))
    ensures InStep(s5, fullCount)
  {
    hide Inv;
  }

  lemma RoundIsItsParts(s: Sys, words: seq<nat>, s1: Sys, s2: Sys, s3: Sys, s4: Sys)
    requires Shape(s) && s1 == Run(s, Wires(words)) && s2 == Next(s1, Apply(s.control))
    requires s3 == Run(s2, Looks(X.SLOTS)) && s4 == Run(s3, [Publish, Snapshot, HandOver, Resync])
    ensures Run(s, Round(s.control, words)) == Run(s4, Writes(LEAD))
  {
    hide Run, Next;
    var a, b, c := Wires(words), Looks(X.SLOTS), [Publish, Snapshot, HandOver, Resync];
    RunLast(s, a, Apply(s.control));
    RunAppend(s, a + [Apply(s.control)], b);
    RunAppend(s, a + [Apply(s.control)] + b, c);
    RunAppend(s, a + [Apply(s.control)] + b + c, Writes(LEAD));
  }

  /** Playback goes on: however many rounds there are, of at most 21 packets each, every full packet went out after it
      was handed back, the dext's count has reached the head after every round, its cursor and the pump's own stay
      ahead, and there has been no resync and no late write, so that every full packet carried its own audio. */
  lemma {:induction false} PlaybackGoesOn(fullCount: nat, rounds: seq<seq<nat>>)
    requires X.SLOTS <= 2 * fullCount && forall i :: 0 <= i < |rounds| ==> |rounds[i]| <= PER_ROUND
    ensures var s := Run(Initial(fullCount), Schedule(fullCount, rounds));
            && s.tx.head == Total(rounds) <= s.tx.sent <= s.tx.head + 1
            && s.tx.head + 22 <= s.tx.fill && s.tx.head + 64 <= s.fill && s.intact
            && InStep(s, fullCount) && KeptAhead(fullCount, Schedule(fullCount, rounds))
    decreases |rounds|
  {
    if rounds == [] {
      InitialInStep(fullCount);
    } else {
      var earlier := rounds[..|rounds| - 1];
      PlaybackGoesOn(fullCount, earlier);
      var s := Run(Initial(fullCount), Schedule(fullCount, earlier));
      RoundStaysInStep(s, fullCount, rounds[|rounds| - 1]);
      RunAppend(Initial(fullCount), Schedule(fullCount, earlier), Round(s.control, rounds[|rounds| - 1]));
      InStepMeans(Run(Initial(fullCount), Schedule(fullCount, rounds)), fullCount);
    }
    InStepWasInTime(fullCount, Schedule(fullCount, rounds));
  }

  /** A run that is in step now never sent a full packet too early. */
  lemma InStepWasInTime(fullCount: nat, steps: seq<Step>)
    requires InStep(Run(Initial(fullCount), steps), fullCount)
    ensures KeptAhead(fullCount, steps)
  {
    hide Run, X.Run, X.InTime, KeptAhead;
    var tx := EveryRunIsATransmitRun(fullCount, steps);
    X.SeenOrBlocked(fullCount, tx);
  }

  lemma InitialInStep(fullCount: nat)
    requires X.SLOTS <= 2 * fullCount
    ensures InStep(Initial(fullCount), fullCount)
  {
    RunKeepsInv(fullCount, []);
  }

  lemma InStepMeans(s: Sys, fullCount: nat)
    requires InStep(s, fullCount) && X.SLOTS <= 2 * fullCount
    ensures s.tx.head <= s.tx.sent <= s.tx.head + 1 && s.tx.head + 22 <= s.tx.fill
    ensures s.tx.head + 64 <= s.fill && s.intact
  {
    CountIsReported(s, fullCount);
  }
}
