/** The transmit DMA cursors (platform/ohci-dext/UFFireWireOHCI.cpp).

    The transmit ring loops forever, so the controller never waits for the dext. The dext clears a slot's
    status word when the slot is refilled and scans forward over words the controller has written since.
    Empty packets are counted as gone without looking at their word. `Tx` holds the dext's cursors and
    status words, which ring packets are full, and `head`, the number of packets the controller has really
    transmitted. */
module TransmitRing {
  import opened Cadence
  import opened Arithmetic

  const SLOTS: nat := 640

  datatype Tx = Tx(sent: nat, fill: nat, status: seq<nat>, cadence: seq<bool>, head: nat)

  datatype Step =
    | Start(fullCount: nat)     // IsoTxStart
    | Transmit(word: nat)       // the controller puts packet `head` on the wire
    | Scan                      // IsoTxSent, and the scan of uf_iso_completion, with nothing in between
    | Look                      // one turn of that scan
    | Refill(upTo: nat)         // uf_it_refill

  /** Which packets of the ring the Bresenham rule makes full. */
  function Pattern(fullCount: nat): (p: seq<bool>)
    ensures |p| == SLOTS
    ensures forall k: nat :: p[k % SLOTS] == FullAt(k, fullCount, SLOTS)
  {
    seq(SLOTS, i requires 0 <= i < SLOTS => IsFullPacket(i, fullCount, SLOTS))
  }

  predicate Full(cadence: seq<bool>, k: nat)
    requires |cadence| == SLOTS
  {
    cadence[k % SLOTS]
  }

  /** Both cursors and the lap between them: the invariant the source states for them. */
  ghost predicate Ordered(s: Tx) {
    && |s.status| == SLOTS && |s.cadence| == SLOTS
    && s.sent <= s.fill <= s.sent + SLOTS
  }

  /** IsoTxStart leaves the whole ring filled with silence and status-cleared. */
  function Started(fullCount: nat): (s: Tx)
    ensures Ordered(s)
  {
    Tx(0, SLOTS, seq(SLOTS, _ => 0), Pattern(fullCount), 0)
  }

  /** A full packet's word becomes non-zero; whether an empty packet's word is written is left open
      (`word` zero means it is not). */
  function Transmitted(s: Tx, word: nat): (t: Tx)
    requires Ordered(s)
    ensures Ordered(t)
  {
    var i := s.head % SLOTS;
    var w := if word != 0 then word else if Full(s.cadence, s.head) then 1 else s.status[i];
    s.(status := s.status[i := w], head := s.head + 1)
  }

  /** The scan: it passes empty packets and full packets whose word is set, up to the fill cursor. */
  function ScanFrom(k: nat, s: Tx): (stop: nat)
    requires |s.status| == SLOTS && |s.cadence| == SLOTS && k <= s.fill
    ensures k <= stop <= s.fill
    ensures forall j :: k <= j < stop ==> !Full(s.cadence, j) || s.status[j % SLOTS] != 0
    ensures stop < s.fill ==> Full(s.cadence, stop) && s.status[stop % SLOTS] == 0
    decreases s.fill - k
  {
    if k < s.fill && !(Full(s.cadence, k) && s.status[k % SLOTS] == 0)
    then ScanFrom(k + 1, s)
    else k
  }

  predicate Passes(s: Tx)
    requires Ordered(s)
  {
    s.sent < s.fill && (!Full(s.cadence, s.sent) || s.status[s.sent % SLOTS] != 0)
  }

  function Looked(s: Tx): (t: Tx)
    requires Ordered(s)
    ensures Ordered(t)
  {
    if Passes(s) then s.(sent := s.sent + 1) else s
  }

  function Scanned(s: Tx): (t: Tx)
    requires Ordered(s)
    ensures Ordered(t)
  {
    s.(sent := ScanFrom(s.sent, s))
  }

  function Refilled(s: Tx, upTo: nat): (t: Tx)
    requires Ordered(s)
    ensures Ordered(t)
    decreases s.sent + SLOTS - s.fill
  {
    if s.fill < upTo && s.fill - s.sent < SLOTS
    then Refilled(s.(status := s.status[s.fill % SLOTS := 0], fill := s.fill + 1), upTo)
    else s
  }

  function Next(s: Tx, a: Step): (t: Tx)
    requires Ordered(s)
    ensures Ordered(t)
  {
    match a
    case Start(fullCount) => if fullCount > SLOTS then s else Started(fullCount)
    case Transmit(word) => Transmitted(s, word)
    case Scan => Scanned(s)
    case Look => Looked(s)
    case Refill(upTo) => Refilled(s, upTo)
  }

  function Run(s: Tx, steps: seq<Step>): (t: Tx)
    requires Ordered(s)
    ensures Ordered(t)
    decreases |steps|
  {
    if steps == [] then s else Next(Run(s, steps[..|steps| - 1]), steps[|steps| - 1])
  }

  // ---- safety against a free-running controller ------------------------------------------------------

  /** Every packet counted as sent but not yet transmitted is an empty one, and a set word of a full
      packet in the window belongs to this lap's transmission. */
  ghost predicate Inv(s: Tx) {
    && Ordered(s)
    && (forall k :: s.head <= k < s.sent ==> !Full(s.cadence, k))
    && (forall k :: s.sent <= k < s.fill && Full(s.cadence, k) && s.status[k % SLOTS] != 0 ==> k < s.head)
  }

  lemma TransmittedKeepsInv(s: Tx, word: nat)
    requires Inv(s)
    ensures Inv(Transmitted(s, word))
  {
    var t := Transmitted(s, word);
    assert s.head < s.sent ==> !Full(s.cadence, s.head);
    forall k | t.sent <= k < t.fill && Full(t.cadence, k) && t.status[k % SLOTS] != 0
      ensures k < t.head
    {
      if k % SLOTS == s.head % SLOTS && k > s.head { SameSlot(s.head, k, SLOTS); }
    }
  }

  lemma ScannedKeepsInv(s: Tx)
    requires Inv(s)
    ensures Inv(Scanned(s))
  {
    var t := Scanned(s);
    assert forall k :: s.sent <= k < t.sent ==> !Full(s.cadence, k) || s.status[k % SLOTS] != 0;
  }

  lemma {:induction false} RefilledKeepsInv(s: Tx, upTo: nat)
    requires Inv(s)
    ensures Inv(Refilled(s, upTo))
    ensures Refilled(s, upTo).sent == s.sent && Refilled(s, upTo).head == s.head
    ensures Refilled(s, upTo).cadence == s.cadence
    ensures Refilled(s, upTo).fill == Max(s.fill, Min(upTo, s.sent + SLOTS))
    decreases s.sent + SLOTS - s.fill
  {
    if s.fill < upTo && s.fill - s.sent < SLOTS {
      var t := s.(status := s.status[s.fill % SLOTS := 0], fill := s.fill + 1);
      RefilledKeepsInv(t, upTo);
    }
  }

  lemma NextKeepsInv(s: Tx, a: Step)
    requires Inv(s)
    ensures Inv(Next(s, a))
  {
    match a
    case Start(_) =>
    case Transmit(word) => TransmittedKeepsInv(s, word);
    case Scan => ScannedKeepsInv(s);
    case Look =>
    case Refill(upTo) => RefilledKeepsInv(s, upTo);
  }

  /** In every interleaving of a free-running controller with scans, refills to arbitrary targets and
      restarts: the cursors stay within one lap of each other, and whatever is counted as sent but is not
      yet on the wire carries no audio. */
  lemma {:induction false} CountedAheadIsEmpty(fullCount: nat, steps: seq<Step>)
    ensures var s := Run(Started(fullCount), steps);
            && Inv(s)
            && s.sent <= s.fill <= s.sent + SLOTS
            && (forall k :: s.head <= k < s.sent ==> !Full(s.cadence, k))
    decreases |steps|
  {
    if steps != [] {
      CountedAheadIsEmpty(fullCount, steps[..|steps| - 1]);
      NextKeepsInv(Run(Started(fullCount), steps[..|steps| - 1]), steps[|steps| - 1]);
    }
  }

  /** With at least half the ring full, the count is at most one packet ahead of the wire. */
  lemma AtMostOneAhead(s: Tx, fullCount: nat)
    requires Inv(s) && s.cadence == Pattern(fullCount) && SLOTS <= 2 * fullCount
    ensures s.sent <= s.head + 1
  {
    NoTwoConsecutiveEmpties(s.head, fullCount, SLOTS);
    assert Full(s.cadence, s.head) || Full(s.cadence, s.head + 1);
  }

  // ---- exactly when the scan catches up ------------------------------------------------------------------

  /** Since the last start, every full packet went out while the fill cursor was ahead of it: the controller never
      sent audio that had not been handed back. */
  ghost predicate InTime(fullCount: nat, steps: seq<Step>)
    decreases |steps|
  {
    steps == [] ||
    var before, a := steps[..|steps| - 1], steps[|steps| - 1];
    if a.Start? && a.fullCount <= SLOTS then true
    else
      var s := Run(Started(fullCount), before);
      InTime(fullCount, before) && (a.Transmit? && Full(s.cadence, s.head) ==> s.head < s.fill)
  }

  /** Every full packet already on the wire was handed back before, and has its word set. */
  ghost predicate AllSeen(s: Tx)
    requires Ordered(s)
  {
    forall k :: s.sent <= k < s.head && Full(s.cadence, k) ==> k < s.fill && s.status[k % SLOTS] != 0
  }

  /** A transmitted full packet the scan cannot pass: it is beyond the fill cursor, or its word was cleared after it
      went out. */
  ghost predicate BlockedAt(s: Tx, p: nat)
    requires Ordered(s)
  {
    s.sent <= p < s.head && Full(s.cadence, p) && (s.fill <= p || s.status[p % SLOTS] == 0)
  }

  ghost predicate Blocked(s: Tx)
    requires Ordered(s)
  {
    exists p :: BlockedAt(s, p)
  }

  lemma {:induction false} RefilledKeepsAllSeen(s: Tx, upTo: nat)
    requires Inv(s) && AllSeen(s)
    ensures AllSeen(Refilled(s, upTo))
    decreases s.sent + SLOTS - s.fill
  {
    if s.fill < upTo && s.fill - s.sent < SLOTS {
      var t := s.(status := s.status[s.fill % SLOTS := 0], fill := s.fill + 1);
      forall k | t.sent <= k < t.head && Full(t.cadence, k)
        ensures t.status[k % SLOTS] != 0
      {
        if k % SLOTS == s.fill % SLOTS { SameSlot(k, s.fill, SLOTS); }
      }
      RefilledKeepsAllSeen(t, upTo);
    }
  }

  lemma {:induction false} RefilledKeepsBlocked(s: Tx, upTo: nat, p: nat)
    requires Inv(s) && BlockedAt(s, p)
    ensures BlockedAt(Refilled(s, upTo), p)
    decreases s.sent + SLOTS - s.fill
  {
    if s.fill < upTo && s.fill - s.sent < SLOTS {
      RefilledKeepsBlocked(s.(status := s.status[s.fill % SLOTS := 0], fill := s.fill + 1), upTo, p);
    }
  }

  /** Once blocked, always blocked: when the controller comes round to the slot again and sets its word, that packet
      is early in turn, and takes the first one's place. */
  lemma NextKeepsBlocked(s: Tx, a: Step, p: nat)
    requires Inv(s) && BlockedAt(s, p) && !(a.Start? && a.fullCount <= SLOTS)
    ensures Blocked(Next(s, a))
  {
    match a
    case Start(_) => assert BlockedAt(s, p);
    case Transmit(word) =>
      if s.head % SLOTS == p % SLOTS {
        SameSlot(p, s.head, SLOTS);
        assert BlockedAt(Next(s, a), s.head);
      } else {
        assert BlockedAt(Next(s, a), p);
      }
    case Scan =>
      BlockedScanStops(s, p);
      assert BlockedAt(Next(s, a), p);
    case Look => assert BlockedAt(Next(s, a), p);
    case Refill(upTo) =>
      RefilledKeepsBlocked(s, upTo, p);
  }

  lemma BlockedScanStops(s: Tx, p: nat)
    requires Ordered(s) && BlockedAt(s, p)
    ensures Scanned(s).sent <= p
  {}

  lemma NextKeepsAllSeen(s: Tx, a: Step)
    requires Inv(s) && AllSeen(s) && (a.Transmit? && Full(s.cadence, s.head) ==> s.head < s.fill)
    ensures AllSeen(Next(s, a))
  {
    if a.Refill? { RefilledKeepsAllSeen(s, a.upTo); }
  }

  lemma {:induction false} SeenOrBlocked(fullCount: nat, steps: seq<Step>)
    ensures var s := Run(Started(fullCount), steps);
            if InTime(fullCount, steps) then AllSeen(s) else Blocked(s)
    decreases |steps|
  {
    if steps != [] {
      var before, a := steps[..|steps| - 1], steps[|steps| - 1];
      var s := Run(Started(fullCount), before);
      SeenOrBlocked(fullCount, before);
      CountedAheadIsEmpty(fullCount, before);
      if a.Start? && a.fullCount <= SLOTS {
      } else if !InTime(fullCount, before) {
        var p :| BlockedAt(s, p);
        NextKeepsBlocked(s, a, p);
      } else if InTime(fullCount, steps) {
        NextKeepsAllSeen(s, a);
      } else {
        assert BlockedAt(Next(s, a), s.head);
      }
    }
  }

  /** A scan reaches every transmitted packet if and only if the head is within the fill cursor and every full
      packet since the last start went out after it was handed back. With at least half the ring full it then lands
      on the head or one empty packet past it. */
  lemma ScanReachesTheHead(fullCount: nat, steps: seq<Step>)
    ensures var s := Run(Started(fullCount), steps);
            && (s.head <= Scanned(s).sent <==> s.head <= s.fill && InTime(fullCount, steps))
            && (forall full: nat :: s.cadence == Pattern(full) && SLOTS <= 2 * full ==> Scanned(s).sent <= s.head + 1)
  {
    var s := Run(Started(fullCount), steps);
    CountedAheadIsEmpty(fullCount, steps);
    ScannedKeepsInv(s);
    SeenOrBlocked(fullCount, steps);
    hide Run, InTime, Pattern;
    if !InTime(fullCount, steps) {
      var p :| BlockedAt(s, p);
      BlockedScanStops(s, p);
    }
    forall full: nat | s.cadence == Pattern(full) && SLOTS <= 2 * full
      ensures Scanned(s).sent <= s.head + 1
    {
      AtMostOneAhead(Scanned(s), full);
    }
  }

  /** A controller that at no point of the run was past the fill cursor never sent a full packet too early. */
  lemma {:induction false} NeverOvertakenIsInTime(fullCount: nat, steps: seq<Step>)
    requires forall k :: 0 <= k <= |steps| ==>
               Run(Started(fullCount), steps[..k]).head <= Run(Started(fullCount), steps[..k]).fill
    ensures InTime(fullCount, steps)
    decreases |steps|
  {
    if steps != [] {
      var before := steps[..|steps| - 1];
      assert forall k :: 0 <= k <= |before| ==> before[..k] == steps[..k];
      NeverOvertakenIsInTime(fullCount, before);
      assert steps[..|steps|] == steps;
    }
  }

  /** A start leaves the whole ring to send: up to 640 packets go out in time at any rate, and a scan counts them all.
      */
  lemma {:induction false} FirstLapIsInTime(fullCount: nat, words: seq<nat>)
    requires |words| <= SLOTS
    ensures var s := Run(Started(fullCount), Sendings(words));
            && s.head == |words| && s.fill == SLOTS && s.sent == 0 && s.cadence == Pattern(fullCount)
            && InTime(fullCount, Sendings(words)) && Scanned(s).sent >= |words|
    decreases |words|
  {
    var steps := Sendings(words);
    if words != [] {
      FirstLapIsInTime(fullCount, words[..|words| - 1]);
      assert steps[..|steps| - 1] == Sendings(words[..|words| - 1]);
    }
    ScanReachesTheHead(fullCount, steps);
  }

  function Sendings(words: seq<nat>): seq<Step> { seq(|words|, i requires 0 <= i < |words| => Transmit(words[i])) }

  /** One full packet sent too early is enough: until a restart no scan reaches the head again, whatever is refilled. */
  lemma {:induction false} StarvedScanStaysBehind(fullCount: nat, steps: seq<Step>, more: seq<Step>)
    requires !InTime(fullCount, steps)
    requires forall k :: 0 <= k < |more| ==> !(more[k].Start? && more[k].fullCount <= SLOTS)
    ensures !InTime(fullCount, steps + more)
    ensures var s := Run(Started(fullCount), steps + more); Scanned(s).sent < s.head
    decreases |more|
  {
    if more == [] {
      assert steps + more == steps;
    } else {
      var before := more[..|more| - 1];
      StarvedScanStaysBehind(fullCount, steps, before);
      assert (steps + more)[..|steps + more| - 1] == steps + before;
    }
    ScanReachesTheHead(fullCount, steps + more);
  }

  /** It does happen. Every packet is full, the controller runs one packet past the fill cursor, that packet is
      scanned up to and handed back: the fill cursor is level with the head again and the scan stays one behind it.
      */
  lemma StarvedScanFallsBehind()
    ensures exists steps ::
              var s := Run(Started(SLOTS), steps);
              s.head <= s.fill && Scanned(s).sent < s.head
  {
    var s := Started(SLOTS);
    var steps := StarvingRun(SLOTS + 1);
    StarvingRunState(SLOTS + 1);
    var t := Run(s, steps);
    ScanAllFull(t, 0);
    var u := Scanned(t);
    var scanned := steps + [Scan];
    assert scanned[..|scanned| - 1] == steps;
    assert Run(s, scanned) == u;
    var refilled := scanned + [Refill(SLOTS + 1)];
    assert refilled[..|refilled| - 1] == scanned;
    var v := u.(status := u.status[0 := 0], fill := SLOTS + 1);
    assert Run(s, refilled) == Refilled(u, SLOTS + 1) == Refilled(v, SLOTS + 1) == v;
    FullAtIsRise(SLOTS, SLOTS, SLOTS);
    assert Full(v.cadence, SLOTS);
    assert v.head == v.fill && Scanned(Run(s, refilled)).sent < Run(s, refilled).head;
  }

  function StarvingRun(n: nat): seq<Step> { seq(n, _ => Transmit(1)) }

  lemma {:induction false} StarvingRunState(n: nat)
    ensures var s := Run(Started(SLOTS), StarvingRun(n));
            && s.sent == 0 && s.fill == SLOTS && s.head == n && s.cadence == Pattern(SLOTS)
            && forall k: nat :: k < n && k < SLOTS ==> s.status[k] != 0
  {
    if n > 0 {
      StarvingRunState(n - 1);
      assert StarvingRun(n)[..n - 1] == StarvingRun(n - 1);
    }
  }

  lemma {:induction false} ScanAllFull(s: Tx, k: nat)
    requires Ordered(s) && s.fill == SLOTS && k <= SLOTS
    requires forall j: nat :: j < SLOTS ==> s.status[j] != 0
    ensures ScanFrom(k, s) == SLOTS
    decreases SLOTS - k
  {
    if k < SLOTS { ScanAllFull(s, k + 1); }
  }

  // ---- the dext's own code ------------------------------------------------------------------------------

  datatype IoReturn = Success | BadArgument | NotReady

  /** The dext's side: cursors in ivars, one status word per descriptor block. */
  class TransmitContext {
    var itRunning: bool
    var itFullCount: nat
    var itSentCursor: nat
    var itFillCursor: nat
    const transferStatus: array<nat>

    ghost predicate Valid()
      reads this, transferStatus
    {
      && transferStatus.Length == SLOTS
      && (itRunning ==> Ordered(View(0)))
    }

    ghost function View(head: nat): Tx
      reads this, transferStatus
    {
      Tx(itSentCursor, itFillCursor, transferStatus[..], Pattern(itFullCount), head)
    }

    constructor ()
      ensures Valid() && !itRunning && fresh(transferStatus)
    {
      itRunning, itFullCount, itSentCursor, itFillCursor := false, 0, 0, 0;
      transferStatus := new nat[SLOTS];
    }

    method IsoTxStart(fullPayloadBytes: nat, fullCount: nat) returns (r: IoReturn)
      requires Valid()
      modifies this, transferStatus
      ensures Valid()
      ensures r == if fullPayloadBytes == 0 || fullPayloadBytes > 2048 || fullCount > SLOTS then BadArgument
          else Success
      ensures r == BadArgument ==> itRunning == old(itRunning) && forall h :: View(h) == old(View(h))
      ensures r == Success ==> itRunning && View(0) == Started(fullCount)
    {
      if fullPayloadBytes == 0 || fullPayloadBytes > 2048 || fullCount > SLOTS { return BadArgument; }
      for i := 0 to SLOTS
        invariant forall j :: 0 <= j < i ==> transferStatus[j] == 0
      {
        transferStatus[i] := 0;
      }
      itRunning, itFullCount, itSentCursor, itFillCursor := true, fullCount, 0, SLOTS;
      assert transferStatus[..] == Started(fullCount).status;
      return Success;
    }

    method IsoTxSent(ghost head: nat) returns (r: IoReturn, sent: nat)
      requires Valid()
      modifies this`itSentCursor
      ensures Valid()
      ensures !itRunning ==> r == NotReady && sent == 0 && View(head) == old(View(head))
      ensures itRunning ==> r == Success && sent == itSentCursor && View(head) == Scanned(old(View(head)))
    {
      if !itRunning { return NotReady, 0; }
      ghost var start := View(head);
      while itSentCursor < itFillCursor
        invariant start.sent <= itSentCursor <= itFillCursor
        invariant ScanFrom(itSentCursor, start) == ScanFrom(start.sent, start)
      {
        var i := itSentCursor % SLOTS;
        assert FullAt(itSentCursor, itFullCount, SLOTS) == Full(start.cadence, itSentCursor);
        if IsFullPacket(i, itFullCount, SLOTS) && transferStatus[i] == 0 { break; }
        itSentCursor := itSentCursor + 1;
      }
      return Success, itSentCursor;
    }

    method Refill(upTo: nat, ghost head: nat)
      requires Valid()
      modifies this`itFillCursor, transferStatus
      ensures Valid()
      ensures View(head) == if itRunning then Refilled(old(View(head)), upTo) else old(View(head))
    {
      if !itRunning { return; }
      ghost var end := Refilled(View(head), upTo);
      while itFillCursor < upTo && itFillCursor - itSentCursor < SLOTS
        invariant Valid() && itRunning && itSentCursor == old(itSentCursor)
        invariant Refilled(View(head), upTo) == end
        decreases itSentCursor + SLOTS - itFillCursor
      {
        var i := itFillCursor % SLOTS;
        ghost var before := transferStatus[..];
        assert Ordered(View(head));
        transferStatus[i] := 0;
        assert transferStatus[..] == before[i := 0];
        itFillCursor := itFillCursor + 1;
        assert Ordered(View(head));
      }
      assert Ordered(View(head));
    }
  }
}
