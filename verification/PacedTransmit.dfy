/** The daemon's paced transmit fill (platform/daemon/uf-daemon.cpp) on top of the dext's transmit cursors.

    Three agents run against each other: the controller, which transmits one packet a cycle whatever happens; the
    dext, whose interrupt applies the daemon's fill cursor, scans, and publishes the count; and the pump, which
    learns a count, from the status page or by a call, hands over its own cursor, and then writes packets one at a
    time. Every step of one may fall between any two steps of another, down to single turns of the dext's loops. */
module PacedTransmit {
  import opened Cadence
  import opened TransmitRing
  import opened Arithmetic

  const LEAD: nat := 64       // kTxLeadPkts
  const MIN_LEAD: nat := 8    // kTxMinLeadPkts

  /** Where the pump is in its tick: writing (or done with it), holding a count it has read, waiting for the dext to
      answer a call, or holding a count with its own cursor handed over. */
  datatype Phase = Writing | Read(sent: nat) | Called | Seen(sent: nat)

  /** `published`: the count in the status page. `control`: the highest fill cursor handed to the dext, by either
      route. `fill`, `snap`: the pump's own txFillPkt and txLastSent; `high`: how far `fill` ever got. `payload[i]`:
      the packet whose audio is in slot i. `inTime`: packets whose audio was written before the head got to them,
      and not given up by a resync since. `intact`: no resync and no late write has happened yet. */
  datatype Sys = Sys(tx: Tx, published: nat, control: nat, fill: nat, snap: nat, phase: Phase, high: nat,
                     payload: seq<int>, inTime: set<nat>, intact: bool)

  datatype Step =
    | Wire(word: nat)    // the controller transmits packet `head`
    | Apply(upTo: nat)   // the dext refills, as far as it was told or less
    | Look               // one turn of the dext's scan
    | Publish            // the dext publishes its count
    | Snapshot           // the pump reads the status page
    | HandOver           // ... and stores its cursor in the control block
    | Call               // or, when there is nothing to read, hands it over by a call
    | Answer             // ... which the dext answers with its count
    | Fail               // ... or which fails, and the last count stands
    | Resync             // the pump checks where it stands against the count
    | WritePacket        // one turn of the fill loop

  function Initial(fullCount: nat): Sys {
    Sys(TransmitRing.Started(fullCount), 0, 0, SLOTS, 0, Writing, SLOTS, seq(SLOTS, i => i), Below(SLOTS), true)
  }

  function Below(n: nat): (s: set<nat>)
    ensures forall p: nat :: p in s <==> p < n
  {
    if n == 0 then {} else Below(n - 1) + {n - 1}
  }

  /** The fill loop still has packets to write for the current snapshot. */
  predicate Filling(s: Sys) { s.fill < s.snap + LEAD }

  predicate TickDone(s: Sys) { s.phase.Writing? && !Filling(s) }

  /** Where a tick starts writing: the fill cursor, or the resynchronised one. */
  function ResyncedFill(fill: nat, sent: nat): nat {
    if fill < sent + MIN_LEAD || fill - sent > SLOTS then sent + LEAD else fill
  }

  ghost predicate Shape(s: Sys) { Ordered(s.tx) && |s.payload| == SLOTS }

  function Next(s: Sys, a: Step): (t: Sys)
    requires Shape(s)
    ensures Shape(t)
  {
    match a
    case Wire(word) => s.(tx := Transmitted(s.tx, word))
    case Apply(upTo) => if upTo <= s.control then s.(tx := Refilled(s.tx, upTo)) else s
    case Look => s.(tx := Looked(s.tx))
    case Publish => s.(published := s.tx.sent)
    case Snapshot => if TickDone(s) then s.(phase := Read(s.published)) else s
    case HandOver => if s.phase.Read? then s.(control := Max(s.control, s.fill), phase := Seen(s.phase.sent)) else s
    case Call => if TickDone(s) then s.(control := Max(s.control, s.fill), phase := Called) else s
    case Answer => if s.phase.Called? then s.(phase := Seen(s.tx.sent)) else s
    case Fail => if s.phase.Called? then s.(phase := Seen(s.snap)) else s
    case Resync =>
      if !s.phase.Seen? then s
      else
        var sent, fill := s.phase.sent, ResyncedFill(s.fill, s.phase.sent);
        s.(snap := sent, fill := fill, high := Max(s.high, fill), phase := Writing,
           intact := s.intact && fill == s.fill,
           inTime := if fill < s.fill then set p | p in s.inTime && p < fill else s.inTime)
    case WritePacket =>
      if !s.phase.Writing? || !Filling(s) then s
      else
        var t := s.(fill := s.fill + 1, high := Max(s.high, s.fill + 1));
        if !Full(s.tx.cadence, s.fill) then t
        else
          t.(payload := s.payload[s.fill % SLOTS := s.fill],
             inTime := if s.tx.head < s.fill then s.inTime + {s.fill} else s.inTime,
             intact := s.intact && s.tx.head < s.fill)
  }

  function Run(s: Sys, steps: seq<Step>): (t: Sys)
    requires Shape(s)
    ensures Shape(t)
    decreases |steps|
  {
    if steps == [] then s else Next(Run(s, steps[..|steps| - 1]), steps[|steps| - 1])
  }

  /** A count the dext reported at some time. */
  ghost predicate Reported(s: Sys, count: nat) { count <= s.tx.sent && count <= s.tx.head + 1 }

  ghost predicate CursorsAgree(s: Sys) {
    && TransmitRing.Inv(s.tx)
    && Reported(s, s.published) && Reported(s, s.snap)
    && (s.phase.Read? ==> Reported(s, s.phase.sent)) && (s.phase.Seen? ==> Reported(s, s.phase.sent))
    && s.control <= s.high && s.tx.fill <= s.high && s.fill <= s.high && (s.intact ==> s.high == s.fill)
    && s.snap + MIN_LEAD <= s.fill <= s.snap + SLOTS
    && (!s.phase.Writing? ==> !Filling(s))
  }

  ghost predicate PayloadsAgree(s: Sys) {
    && |s.payload| == SLOTS && |s.tx.cadence| == SLOTS
    && (forall p :: p in s.inTime ==> p < s.fill)
    && (forall p :: p in s.inTime && s.tx.head <= p ==> s.payload[p % SLOTS] == p)
    && (s.intact ==> forall p: nat :: p < s.fill && Full(s.tx.cadence, p) ==> p in s.inTime)
  }

  ghost predicate Inv(s: Sys, fullCount: nat) {
    && CursorsAgree(s)
    && PayloadsAgree(s)
    && s.tx.cadence == Pattern(fullCount)
  }

  lemma DextKeepsInv(s: Sys, a: Step, fullCount: nat)
    requires Inv(s, fullCount) && SLOTS <= 2 * fullCount && (a.Apply? || a.Look?)
    ensures Inv(Next(s, a), fullCount)
  {
    match a
    case Apply(upTo) => RefilledKeepsInv(s.tx, upTo);
    case Look => TransmitRing.NextKeepsInv(s.tx, TransmitRing.Look);
  }

  /** Any count the dext can report now is at most one packet ahead of the wire. */
  lemma CountIsReported(s: Sys, fullCount: nat)
    requires Inv(s, fullCount) && SLOTS <= 2 * fullCount
    ensures Reported(s, s.tx.sent)
  {
    AtMostOneAhead(s.tx, fullCount);
  }

  /** A packet written now shares its slot with no other packet still to go out. */
  lemma WindowIsShort(s: Sys, fullCount: nat)
    requires Inv(s, fullCount) && Filling(s)
    ensures s.fill < s.tx.head + SLOTS && PayloadsAgree(s)
  {}

  lemma WriteKeepsPayloads(s: Sys, fullCount: nat)
    requires Inv(s, fullCount) && s.phase.Writing? && Filling(s) && Full(s.tx.cadence, s.fill)
    ensures PayloadsAgree(Next(s, WritePacket))
  {
    var t := Next(s, WritePacket);
    WindowIsShort(s, fullCount);
    hide Inv, Full, Filling, CursorsAgree;
    forall p | p in t.inTime && t.tx.head <= p
      ensures t.payload[p % SLOTS] == p
    {
      if p != s.fill && p % SLOTS == s.fill % SLOTS { SameSlot(p, s.fill, SLOTS); }
    }
  }

  lemma ResyncKeepsInv(s: Sys, fullCount: nat)
    requires Inv(s, fullCount)
    ensures Inv(Next(s, Resync), fullCount)
  {}

  lemma WireKeepsInv(s: Sys, word: nat, fullCount: nat)
    requires Inv(s, fullCount)
    ensures Inv(Next(s, Wire(word)), fullCount)
  {
    TransmittedKeepsInv(s.tx, word);
  }

  lemma WriteKeepsInv(s: Sys, fullCount: nat)
    requires Inv(s, fullCount)
    ensures Inv(Next(s, WritePacket), fullCount)
  {
    if s.phase.Writing? && Filling(s) && Full(s.tx.cadence, s.fill) { WriteKeepsPayloads(s, fullCount); }
  }

  lemma NextKeepsInv(s: Sys, a: Step, fullCount: nat)
    requires Inv(s, fullCount) && SLOTS <= 2 * fullCount
    ensures Inv(Next(s, a), fullCount)
  {
    match a
    case Wire(word) => WireKeepsInv(s, word, fullCount);
    case Apply(_) => DextKeepsInv(s, a, fullCount);
    case Look => DextKeepsInv(s, a, fullCount);
    case Publish => CountIsReported(s, fullCount);
    case Answer => CountIsReported(s, fullCount);
    case Resync => ResyncKeepsInv(s, fullCount);
    case WritePacket => WriteKeepsInv(s, fullCount);
    case _ =>
  }

  lemma {:induction false} RunKeepsInv(fullCount: nat, steps: seq<Step>)
    requires SLOTS <= 2 * fullCount
    ensures Inv(Run(Initial(fullCount), steps), fullCount)
    decreases |steps|
  {
    if steps != [] {
      RunKeepsInv(fullCount, steps[..|steps| - 1]);
      NextKeepsInv(Run(Initial(fullCount), steps[..|steps| - 1]), steps[|steps| - 1], fullCount);
    }
  }

  // ---- what that means -----------------------------------------------------------------------------------

  /** In every interleaving, at any rate that keeps half the ring full: the pump writes only packets 8 to 63 ahead
      of the reported head; once a tick's loop is done it stands 64 to 640 ahead; and the dext never believes in a
      refilled slot the pump has not passed. */
  lemma WritesOnlyInTheWindow(fullCount: nat, steps: seq<Step>)
    requires SLOTS <= 2 * fullCount
    ensures var s := Run(Initial(fullCount), steps);
            && (Filling(s) ==> s.snap + 8 <= s.fill <= s.snap + 63)
            && (!Filling(s) ==> s.snap + 64 <= s.fill <= s.snap + 640)
            && s.tx.fill <= s.high && (s.intact ==> s.tx.fill <= s.fill)
  {
    RunKeepsInv(fullCount, steps);
  }

  /** The cursor only goes back when the pump is given a count more than a ring behind it, and such a count is older
      than the one it had. */
  lemma OnlyAnOlderCountGoesBack(fullCount: nat, steps: seq<Step>)
    requires SLOTS <= 2 * fullCount
    ensures var s := Run(Initial(fullCount), steps);
            var t := Next(s, Resync);
            && (t.fill < s.fill <==> s.phase.Seen? && s.fill > s.phase.sent + SLOTS)
            && (t.fill < s.fill ==> t.snap < s.snap)
  {
    RunKeepsInv(fullCount, steps);
  }

  /** A call that is answered gives the pump the dext's own count; one that fails leaves it where it was. */
  lemma CallTakesTheCountOrNone(s: Sys, fullCount: nat)
    requires Inv(s, fullCount) && s.phase.Called?
    ensures var t := Next(Next(s, Answer), Resync); t.snap == s.tx.sent && t.phase == Writing
    ensures var t := Next(Next(s, Fail), Resync);
            t == s.(phase := Writing)
  {}

  /** It happens: the dext answers a call with 577, and the pump then reads a status page no interrupt has written
      since the start. */
  lemma TheCursorCanGoBack()
    ensures exists steps :: var s := Run(Initial(SLOTS), steps); Next(s, Resync).fill < s.fill
  {
    hide Run, Next;
    var start := Initial(SLOTS);
    LooksState(577, 577);
    var t0 := Wires(577) + Looks(577);
    var t1 := t0 + [Call];
    var t2 := t1 + [Answer];
    var t3 := t2 + [Resync];
    var t4 := t3 + [WritePacket];
    var t5 := t4 + [Snapshot];
    var t6 := t5 + [HandOver];
    RunLast(start, t0, Call);
    RunLast(start, t1, Answer);
    RunLast(start, t2, Resync);
    RunLast(start, t3, WritePacket);
    RunLast(start, t4, Snapshot);
    RunLast(start, t5, HandOver);
    Answered(Run(start, t0), Run(start, t1), Run(start, t2), Run(start, t3));
    Written(Run(start, t3), Run(start, t4), Run(start, t5), Run(start, t6));
    assert Next(Run(start, t6), Resync).fill < Run(start, t6).fill;
  }

  lemma RunLast(s: Sys, steps: seq<Step>, a: Step)
    requires Shape(s)
    ensures Run(s, steps + [a]) == Next(Run(s, steps), a)
  {
    assert (steps + [a])[..|steps + [a]| - 1] == steps;
  }

  /** With the head at 577 and the cursor still at 640, a call is answered with 577. */
  lemma Answered(s: Sys, s1: Sys, s2: Sys, s3: Sys)
    requires Shape(s) && s.phase == Writing && s.snap == 0 && s.fill == SLOTS && s.tx.sent == 577
    requires s1 == Next(s, Call) && s2 == Next(s1, Answer) && s3 == Next(s2, Resync)
    ensures s3.phase == Writing && s3.snap == 577 && s3.fill == SLOTS && s3.published == s.published && s3.tx == s.tx
  {}

  /** The one packet the tick then writes takes the cursor a whole ring past the page's count, which is still zero. */
  lemma Written(s: Sys, s4: Sys, s5: Sys, s6: Sys)
    requires Shape(s) && s.phase == Writing && s.snap == 577 && s.fill == SLOTS && s.published == 0
    requires s4 == Next(s, WritePacket) && s5 == Next(s4, Snapshot) && s6 == Next(s5, HandOver)
    ensures s6.fill == 641 && Next(s6, Resync).fill == 64
  {}

  function Wires(n: nat): seq<Step> { seq(n, _ => Wire(1)) }
  function Looks(n: nat): seq<Step> { seq(n, _ => Step.Look) }

  /** Only the dext's view moves: `head` packets on the wire with their words set, `sent` of them counted. */
  ghost predicate OnlyScanned(s: Sys, head: nat, sent: nat) {
    var i := Initial(SLOTS);
    && |s.tx.status| == SLOTS && s == i.(tx := i.tx.(status := s.tx.status, head := head, sent := sent))
    && forall k :: 0 <= k < head && k < SLOTS ==> s.tx.status[k] != 0
  }

  lemma WireScans(s: Sys, head: nat)
    requires head < SLOTS && OnlyScanned(s, head, 0)
    ensures OnlyScanned(Next(s, Wire(1)), head + 1, 0)
  {}

  lemma LookScans(s: Sys, head: nat, sent: nat)
    requires sent < head <= SLOTS && OnlyScanned(s, head, sent)
    ensures OnlyScanned(Next(s, Step.Look), head, sent + 1)
  {}

  lemma {:induction false} WiresState(n: nat)
    requires n <= SLOTS
    ensures OnlyScanned(Run(Initial(SLOTS), Wires(n)), n, 0)
  {
    if n > 0 {
      hide Next, OnlyScanned;
      WiresState(n - 1);
      assert Wires(n)[..n - 1] == Wires(n - 1);
      WireScans(Run(Initial(SLOTS), Wires(n - 1)), n - 1);
    }
  }

  lemma {:induction false} LooksState(n: nat, m: nat)
    requires m <= n <= SLOTS
    ensures OnlyScanned(Run(Initial(SLOTS), Wires(n) + Looks(m)), n, m)
    decreases m
  {
    hide Next, OnlyScanned;
    var all := Wires(n) + Looks(m);
    if m == 0 {
      WiresState(n);
      assert all == Wires(n);
    } else {
      LooksState(n, m - 1);
      assert all[..|all| - 1] == Wires(n) + Looks(m - 1);
      LookScans(Run(Initial(SLOTS), Wires(n) + Looks(m - 1)), n, m - 1);
    }
  }

  /** If the real head has moved at most 7 packets past the snapshot, the slot about to be written is not the
      slot in flight, its previous packet has already gone out, and the new one has not been reached. */
  lemma NeverWritesTheSlotInFlight(fullCount: nat, steps: seq<Step>)
    requires SLOTS <= 2 * fullCount
    ensures var s := Run(Initial(fullCount), steps);
            s.phase.Writing? && Filling(s) && s.tx.head <= s.snap + 7 ==>
              && s.fill % SLOTS != s.tx.head % SLOTS
              && s.fill - SLOTS < s.tx.head < s.fill
  {
    RunKeepsInv(fullCount, steps);
    var s := Run(Initial(fullCount), steps);
    if Filling(s) && s.tx.head <= s.snap + 7 && s.fill % SLOTS == s.tx.head % SLOTS {
      SameSlot(s.tx.head, s.fill, SLOTS);
    }
  }

  /** The wire refines the pump's intent: whatever resyncs and late writes happened elsewhere, a packet whose
      audio was written before the head reached it goes out with exactly that audio; and while no write was late
      and no resync happened, that is every full packet below the fill cursor. */
  lemma TransmitsItsOwnPayload(fullCount: nat, steps: seq<Step>)
    requires SLOTS <= 2 * fullCount
    ensures var s := Run(Initial(fullCount), steps);
            && (s.tx.head in s.inTime ==> s.payload[s.tx.head % SLOTS] == s.tx.head)
            && (s.intact && s.tx.head < s.fill && Full(s.tx.cadence, s.tx.head) ==>
                s.payload[s.tx.head % SLOTS] == s.tx.head)
  {
    RunKeepsInv(fullCount, steps);
  }

  /** The half-full condition holds at every rate a session can start at. */
  lemma SessionsKeepHalfTheRingFull(rate: nat)
    requires rate in SUPPORTED_RATES
    ensures SLOTS <= 2 * SessionGeometry(rate).fullCount <= 2 * SLOTS
  {
    SupportedGeometry(rate);
  }

  // ---- the pump's own code ---------------------------------------------------------------------------------

  lemma PatternAt(fullCount: nat, p: nat)
    ensures Full(Pattern(fullCount), p) == IsFullPacket(p % SLOTS, fullCount, SLOTS)
  {}

  class PacedFill {
    var txFillPkt: nat
    var txResyncs: nat
    var txLastSent: nat
    const fullCount: nat
    const payload: array<int>   // the packet number whose audio each slot carries

    ghost predicate Valid()
      reads this
    {
      payload.Length == SLOTS
    }

    constructor (fullCount: nat)
      ensures Valid() && this.fullCount == fullCount && txFillPkt == SLOTS && txLastSent == 0 && txResyncs == 0
      ensures fresh(payload)
    {
      this.fullCount := fullCount;
      payload := new int[SLOTS];
      txFillPkt, txResyncs, txLastSent := SLOTS, 0, 0;
    }

    /** One uninterrupted tick. Exactly the full packets between the (resynchronised) fill cursor and the
        target are written, each into its own slot. */
    method Tick(sent: nat)
      requires Valid()
      modifies this, payload
      ensures Valid() && txLastSent == sent
      ensures sent + LEAD <= txFillPkt <= sent + SLOTS
      ensures var from := ResyncedFill(old(txFillPkt), sent);
              && txFillPkt == Max(from, sent + LEAD)
              && txResyncs == old(txResyncs) + (if from == old(txFillPkt) then 0 else 1)
              && (forall p: nat :: from <= p < txFillPkt && Full(Pattern(fullCount), p) ==>
                    payload[p % SLOTS] == p && sent + 8 <= p <= sent + 63)
              && (forall i :: 0 <= i < SLOTS ==>
                    payload[i] == old(payload[i]) || (from <= payload[i] < txFillPkt && payload[i] % SLOTS == i))
    {
      hide Full, Pattern, IsFullPacket;
      txLastSent := sent;
      if txFillPkt < sent + MIN_LEAD || txFillPkt - sent > SLOTS {
        txFillPkt := sent + LEAD;
        txResyncs := txResyncs + 1;
      }
      ghost var from := txFillPkt;
      ghost var cadence := Pattern(fullCount);
      var target := sent + LEAD;
      while txFillPkt < target
        invariant Valid() && from <= txFillPkt && txFillPkt == Max(from, txFillPkt)
        invariant from <= target ==> txFillPkt <= target
        invariant from >= target ==> txFillPkt == from
        invariant txLastSent == sent && txResyncs == old(txResyncs) + (if from == old(txFillPkt) then 0 else 1)
        invariant forall p: nat :: from <= p < txFillPkt && Full(cadence, p) ==> payload[p % SLOTS] == p
        invariant forall i :: 0 <= i < SLOTS ==>
                    payload[i] == old(payload[i]) || (from <= payload[i] < txFillPkt && payload[i] % SLOTS == i)
      {
        var slot := txFillPkt % SLOTS;
        assert Full(cadence, txFillPkt) == IsFullPacket(slot, fullCount, SLOTS) by { PatternAt(fullCount, txFillPkt); }
        if IsFullPacket(slot, fullCount, SLOTS) {
          payload[slot] := txFillPkt;
        }
        txFillPkt := txFillPkt + 1;
      }
    }
  }
}
