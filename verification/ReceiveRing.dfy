/** The capture DMA cursors (platform/ohci-dext/UFFireWireOHCI.cpp).

    The controller fills a self-wrapping ring of descriptors and never waits. The dext learns where it is
    only from the descriptors' status words: it scans forward over non-zero words and clears words again as
    the daemon releases packets. `Rx` is the whole situation: the dext's cursors and status words, and,
    from the controller's side, how many packets it has really completed and which packet each slot's
    buffer holds. */
module ReceiveRing {
  import opened Arithmetic

  const SLOTS: nat := 512

  /** `done` packets have really been completed; slot `i`'s buffer holds packet `stored[i]` (-1: none). */
  datatype Rx = Rx(read: nat, write: nat, status: seq<nat>, done: nat, stored: seq<int>)

  predicate WellFormed(s: Rx) {
    |s.status| == SLOTS && |s.stored| == SLOTS
  }

  datatype Step =
    | Start                     // IsoStartContinuous
    | Complete(word: nat)       // the controller finishes one packet and writes its status word
    | Scan                      // IsoCompletedCount, and the scan of uf_iso_completion, with nothing in between
    | Look                      // one turn of that scan
    | Release(upTo: nat)        // uf_iso_release

  function Started(): (s: Rx)
    ensures WellFormed(s)
  {
    Rx(0, 0, seq(SLOTS, _ => 0), 0, seq(SLOTS, _ => -1))
  }

  /** The controller's step. Status words it writes are never zero. */
  function Completed(s: Rx, word: nat): (t: Rx)
    requires WellFormed(s)
    ensures WellFormed(t)
  {
    var i := s.done % SLOTS;
    s.(status := s.status[i := if word == 0 then 1 else word], stored := s.stored[i := s.done], done := s.done + 1)
  }

  /** Where the scan stops: the first slot not finished, or one ring ahead of the read cursor. */
  function ScanFrom(w: nat, read: nat, status: seq<nat>): (stop: nat)
    requires |status| == SLOTS && w <= read + SLOTS
    ensures w <= stop <= read + SLOTS
    ensures forall k :: w <= k < stop ==> status[k % SLOTS] != 0
    ensures stop < read + SLOTS ==> status[stop % SLOTS] == 0
    decreases read + SLOTS - w
  {
    if w - read < SLOTS && status[w % SLOTS] != 0 then ScanFrom(w + 1, read, status) else w
  }

  function Looked(s: Rx): (t: Rx)
    requires WellFormed(s)
    ensures WellFormed(t)
  {
    if s.write < s.read + SLOTS && s.status[s.write % SLOTS] != 0 then s.(write := s.write + 1) else s
  }

  function Scanned(s: Rx): (t: Rx)
    requires WellFormed(s) && s.write <= s.read + SLOTS
    ensures WellFormed(t)
  {
    s.(write := ScanFrom(s.write, s.read, s.status))
  }

  /** Re-arm the slots of packets `from` up to `upTo`. */
  function Rearmed(status: seq<nat>, from: nat, upTo: nat): (r: seq<nat>)
    requires |status| == SLOTS
    ensures |r| == SLOTS
    decreases upTo - from
  {
    if from < upTo then Rearmed(status[from % SLOTS := 0], from + 1, upTo) else status
  }

  function Released(s: Rx, upTo: nat): (t: Rx)
    requires WellFormed(s)
    ensures WellFormed(t)
  {
    var u := Min(upTo, s.write);
    if s.read < u then s.(status := Rearmed(s.status, s.read, u), read := u) else s
  }

  /** The cursor invariant, in the terms of the ring alone. */
  ghost predicate Ordered(s: Rx) {
    && WellFormed(s)
    && s.read <= s.write <= s.read + SLOTS
  }

  /** What relates the cursors to the controller:
      the reported count never exceeds the real one, and a non-zero word in the window still ahead of the
      scan was written for the packet of this very lap. */
  ghost predicate Inv(s: Rx) {
    && Ordered(s)
    && s.write <= s.done
    && (forall k :: s.write <= k < s.read + SLOTS && s.status[k % SLOTS] != 0 ==> k < s.done)
    && (forall k: nat :: k < SLOTS ==> s.stored[k] < s.done && (s.stored[k] >= 0 ==> s.stored[k] % SLOTS == k))
    && (forall k: nat :: k < s.done <= k + SLOTS ==> s.stored[k % SLOTS] == k)
  }

  function Next(s: Rx, a: Step): (t: Rx)
    requires Ordered(s)
    ensures Ordered(t)
  {
    match a
    case Start => Started()
    case Complete(word) => Completed(s, word)
    case Scan => Scanned(s)
    case Look => Looked(s)
    case Release(upTo) => Released(s, upTo)
  }

  function Run(s: Rx, steps: seq<Step>): (t: Rx)
    requires Ordered(s)
    ensures Ordered(t)
    decreases |steps|
  {
    if steps == [] then s else Next(Run(s, steps[..|steps| - 1]), steps[|steps| - 1])
  }

  lemma CompletedKeepsInv(s: Rx, word: nat)
    requires Inv(s)
    ensures Inv(Completed(s, word))
  {
    var t := Completed(s, word);
    forall k | t.write <= k < t.read + SLOTS && t.status[k % SLOTS] != 0
      ensures k < t.done
    {
      if k % SLOTS == s.done % SLOTS && k > s.done { SameSlot(s.done, k, SLOTS); }
    }
    forall k: nat | k < t.done <= k + SLOTS
      ensures t.stored[k % SLOTS] == k
    {
      if k < s.done && k % SLOTS == s.done % SLOTS { SameSlot(k, s.done, SLOTS); }
    }
  }

  lemma {:induction false} RearmedClears(status: seq<nat>, from: nat, upTo: nat, k: nat)
    requires |status| == SLOTS && from <= upTo <= from + SLOTS && from <= k < from + SLOTS
    ensures Rearmed(status, from, upTo)[k % SLOTS] == if k < upTo then 0 else status[k % SLOTS]
    decreases upTo - from
  {
    if from < upTo {
      if k == from {
        RearmedStaysClear(status[from % SLOTS := 0], from + 1, upTo, k);
      } else {
        if k % SLOTS == from % SLOTS { SameSlot(from, k, SLOTS); }
        RearmedClears(status[from % SLOTS := 0], from + 1, upTo, k);
      }
    }
  }

  lemma {:induction false} RearmedStaysClear(status: seq<nat>, from: nat, upTo: nat, k: nat)
    requires |status| == SLOTS && status[k % SLOTS] == 0
    ensures Rearmed(status, from, upTo)[k % SLOTS] == 0
    decreases upTo - from
  {
    if from < upTo { RearmedStaysClear(status[from % SLOTS := 0], from + 1, upTo, k); }
  }

  /** Releasing packets re-arms exactly their slots, seen one lap later. */
  lemma ReleasedStatus(s: Rx, upTo: nat, k: nat)
    requires Ordered(s) && s.read < Min(upTo, s.write) && s.write <= k < Min(upTo, s.write) + SLOTS
    ensures Released(s, upTo).status[k % SLOTS] == if k < s.read + SLOTS then s.status[k % SLOTS] else 0
  {
    var u := Min(upTo, s.write);
    if k < s.read + SLOTS {
      RearmedClears(s.status, s.read, u, k);
    } else {
      assert (k - SLOTS) % SLOTS == k % SLOTS;
      RearmedClears(s.status, s.read, u, k - SLOTS);
    }
  }

  lemma ReleasedKeepsInv(s: Rx, upTo: nat)
    requires Inv(s)
    ensures Inv(Released(s, upTo))
  {
    var t := Released(s, upTo);
    if s.read < Min(upTo, s.write) {
      forall k | t.write <= k < t.read + SLOTS && t.status[k % SLOTS] != 0
        ensures k < t.done
      {
        ReleasedStatus(s, upTo, k);
      }
    }
  }

  lemma ScannedKeepsInv(s: Rx)
    requires Inv(s)
    ensures Inv(Scanned(s))
  {
    var t := Scanned(s);
    if t.write > s.write {
      assert s.status[(t.write - 1) % SLOTS] != 0;
    }
  }

  lemma NextKeepsInv(s: Rx, a: Step)
    requires Inv(s)
    ensures Inv(Next(s, a))
  {
    match a
    case Start =>
    case Complete(word) => CompletedKeepsInv(s, word);
    case Scan => ScannedKeepsInv(s);
    case Look =>
    case Release(upTo) => ReleasedKeepsInv(s, upTo);
  }

  /** In every interleaving of completions, scans and releases to arbitrary targets. */
  lemma {:induction false} CaptureCountIsNeverAhead(steps: seq<Step>)
    ensures var s := Run(Started(), steps);
            s.read <= s.write <= s.read + SLOTS && s.write <= s.done && Inv(s)
    decreases |steps|
  {
    if steps != [] {
      CaptureCountIsNeverAhead(steps[..|steps| - 1]);
      NextKeepsInv(Run(Started(), steps[..|steps| - 1]), steps[|steps| - 1]);
    }
  }

  // ---- exactly when the scan is exact --------------------------------------------------------------

  ghost predicate WithinOneRing(s: Rx) { s.done <= s.read + SLOTS }

  /** Since the last start, no packet was completed a whole ring ahead of the read cursor. */
  ghost predicate NeverLapped(steps: seq<Step>)
    decreases |steps|
  {
    steps == [] ||
    var before, a := steps[..|steps| - 1], steps[|steps| - 1];
    if a.Start? then true
    else
      var s := Run(Started(), before);
      NeverLapped(before) && (a.Complete? ==> s.done < s.read + SLOTS)
  }

  /** Every completed packet not yet counted still shows its word. */
  ghost predicate AllSeen(s: Rx)
    requires Ordered(s)
  {
    WithinOneRing(s) && forall k :: s.write <= k < s.done ==> s.status[k % SLOTS] != 0
  }

  /** A completed packet the scan cannot count: it lies a ring ahead of the reader, or its word was cleared after it
      came. */
  ghost predicate LostAt(s: Rx, p: nat)
    requires Ordered(s)
  {
    s.write <= p < s.done && (s.read + SLOTS <= p || s.status[p % SLOTS] == 0)
  }

  ghost predicate Lost(s: Rx)
    requires Ordered(s)
  {
    exists p :: LostAt(s, p)
  }

  lemma NextKeepsAllSeen(s: Rx, a: Step)
    requires Inv(s) && AllSeen(s) && (a.Complete? ==> s.done < s.read + SLOTS)
    ensures AllSeen(Next(s, a))
  {
    var t := Next(s, a);
    if a.Release? && s.read < Min(a.upTo, s.write) {
      forall k | t.write <= k < t.done
        ensures t.status[k % SLOTS] != 0
      {
        ReleasedStatus(s, a.upTo, k);
      }
    }
  }

  /** Once lost, always lost: when a later packet sets the word again it is itself a ring ahead, and takes the first
      one's place. */
  lemma NextKeepsLost(s: Rx, a: Step, p: nat)
    requires Inv(s) && LostAt(s, p) && !a.Start?
    ensures Lost(Next(s, a))
  {
    var t := Next(s, a);
    match a
    case Complete(_) =>
      if s.done % SLOTS == p % SLOTS {
        SameSlot(p, s.done, SLOTS);
        assert LostAt(t, s.done);
      } else {
        assert LostAt(t, p);
      }
    case Scan =>
      assert t.write <= p;
      assert LostAt(t, p);
    case Look => assert LostAt(t, p);
    case Release(upTo) =>
      if s.read < Min(upTo, s.write) && p < t.read + SLOTS { ReleasedStatus(s, upTo, p); }
      assert LostAt(t, p);
  }

  lemma {:induction false} SeenOrLost(steps: seq<Step>)
    ensures var s := Run(Started(), steps);
            if NeverLapped(steps) then AllSeen(s) else Lost(s)
    decreases |steps|
  {
    if steps != [] {
      var before, a := steps[..|steps| - 1], steps[|steps| - 1];
      var s := Run(Started(), before);
      SeenOrLost(before);
      CaptureCountIsNeverAhead(before);
      if a.Start? {
      } else if !NeverLapped(before) {
        var p :| LostAt(s, p);
        NextKeepsLost(s, a, p);
      } else if NeverLapped(steps) {
        NextKeepsAllSeen(s, a);
      } else {
        assert LostAt(Next(s, a), s.done);
      }
    }
  }

  /** After a scan the reported count is exactly the number of packets the controller has completed, if and only if
      since the last start no packet was completed a whole ring ahead of the read cursor. */
  lemma ScanIsExactUnlessLapped(steps: seq<Step>)
    ensures var s := Run(Started(), steps); Scanned(s).write == s.done <==> NeverLapped(steps)
  {
    CaptureCountIsNeverAhead(steps);
    var s := Run(Started(), steps);
    ScannedKeepsInv(s);
    SeenOrLost(steps);
    if !NeverLapped(steps) {
      var p :| LostAt(s, p);
      assert Scanned(s).write <= p;
    }
  }

  /** A controller that at no point of the run was more than one ring ahead never completed a packet too early. */
  lemma {:induction false} AlwaysWithinOneRing(steps: seq<Step>)
    requires forall k :: 0 <= k <= |steps| ==> WithinOneRing(Run(Started(), steps[..k]))
    ensures NeverLapped(steps)
    decreases |steps|
  {
    if steps != [] {
      var before := steps[..|steps| - 1];
      assert forall k :: 0 <= k <= |before| ==> before[..k] == steps[..k];
      AlwaysWithinOneRing(before);
      assert steps[..|steps|] == steps;
    }
  }

  /** So a lap is never recovered from: until a restart no scan is exact again, whatever is released. */
  lemma {:induction false} LappedScanStaysShort(steps: seq<Step>, more: seq<Step>)
    requires !NeverLapped(steps) && forall k :: 0 <= k < |more| ==> !more[k].Start?
    ensures !NeverLapped(steps + more)
    ensures var s := Run(Started(), steps + more); Scanned(s).write < s.done
    decreases |more|
  {
    if more == [] {
      assert steps + more == steps;
    } else {
      LappedScanStaysShort(steps, more[..|more| - 1]);
      assert (steps + more)[..|steps + more| - 1] == steps + more[..|more| - 1];
    }
    ScanIsExactUnlessLapped(steps + more);
    CaptureCountIsNeverAhead(steps + more);
    ScannedKeepsInv(Run(Started(), steps + more));
  }

  /** It happens: one packet more than a ring, with nothing released. */
  lemma ALapLosesAPacket()
    ensures exists steps :: !NeverLapped(steps) && Scanned(Run(Started(), steps)).write < Run(Started(), steps).done
  {
    var ring := Completions(SLOTS);
    var steps := Completions(SLOTS + 1);
    CompletionsState(SLOTS);
    assert steps[..SLOTS] == ring && steps[SLOTS].Complete?;
    assert !NeverLapped(steps);
    assert steps + [] == steps;
    LappedScanStaysShort(steps, []);
  }

  function Completions(n: nat): seq<Step> { seq(n, _ => Complete(1)) }

  lemma {:induction false} CompletionsState(n: nat)
    ensures var s := Run(Started(), Completions(n)); s.read == 0 && s.done == n
  {
    if n > 0 {
      CompletionsState(n - 1);
      assert Completions(n)[..n - 1] == Completions(n - 1);
    }
  }

  // ---- a reader that keeps up -----------------------------------------------------------------------------------

  /** A release moves the read cursor to its target, or to the write cursor if that is nearer, and never back. */
  lemma ReleaseMovesTheReader(s: Rx, upTo: nat)
    requires Ordered(s)
    ensures var t := Released(s, upTo);
            t.read == Max(s.read, Min(upTo, s.write)) && t.write == s.write && t.done == s.done && t.stored == s.stored
  {}

  function Turns(n: nat): seq<Step> { seq(n, _ => Look) }

  /** The scan, turn by turn: so many turns take the count so far towards where the whole scan would stop, and enough
      of them are the whole scan. */
  lemma {:induction false} TurnsAreTheScan(s: Rx, n: nat)
    requires Ordered(s)
    ensures Run(s, Turns(n)) == s.(write := Min(s.write + n, Scanned(s).write))
    ensures n >= SLOTS ==> Run(s, Turns(n)) == Scanned(s)
  {
    if n > 0 {
      TurnsAreTheScan(s, n - 1);
      assert Turns(n)[..n - 1] == Turns(n - 1);
    }
  }

  /** Rounds of any number of packets each: they come in, are scanned, and everything up to the count is released. */
  function Rounds(words: seq<seq<nat>>): seq<Step> {
    if words == [] then []
    else
      var last := words[|words| - 1];
      Rounds(words[..|words| - 1]) + Arrivals(last) + [Scan, Release(Total(words))]
  }

  function Arrivals(words: seq<nat>): seq<Step> { seq(|words|, i requires 0 <= i < |words| => Complete(words[i])) }

  function Total(words: seq<seq<nat>>): nat {
    if words == [] then 0 else Total(words[..|words| - 1]) + |words[|words| - 1]|
  }

  lemma {:induction false} ArrivalsState(before: seq<Step>, words: seq<nat>, k: nat)
    requires k <= |words|
    ensures var s, t := Run(Started(), before), Run(Started(), before + Arrivals(words)[..k]);
            && t.read == s.read && t.write == s.write && t.done == s.done + k
            && (NeverLapped(before) && s.done + k <= s.read + SLOTS ==> NeverLapped(before + Arrivals(words)[..k]))
    decreases k
  {
    if k == 0 {
      assert before + Arrivals(words)[..0] == before;
    } else {
      ArrivalsState(before, words, k - 1);
      var all := before + Arrivals(words)[..k];
      assert all[..|all| - 1] == before + Arrivals(words)[..k - 1];
    }
  }

  lemma RunLast(steps: seq<Step>, a: Step)
    ensures Run(Started(), steps + [a]) == Next(Run(Started(), steps), a)
    ensures !a.Start? && !a.Complete? ==> NeverLapped(steps + [a]) == NeverLapped(steps)
  {
    assert (steps + [a])[..|steps + [a]| - 1] == steps;
  }

  /** Capture never stops: however many rounds there are, of at most a whole ring of packets each, every packet is
      counted and released, and the controller never laps the reader. */
  lemma {:induction false} CaptureGoesOn(words: seq<seq<nat>>)
    requires forall i :: 0 <= i < |words| ==> |words[i]| <= SLOTS
    ensures var s := Run(Started(), Rounds(words));
            s.read == s.write == s.done == Total(words) && NeverLapped(Rounds(words))
    decreases |words|
  {
    if words != [] {
      var earlier, last := words[..|words| - 1], words[|words| - 1];
      CaptureGoesOn(earlier);
      ArrivalsState(Rounds(earlier), last, |last|);
      assert Arrivals(last)[..|last|] == Arrivals(last);
      hide Run, NeverLapped, Rounds, Next;
      var arrived := Rounds(earlier) + Arrivals(last);
      var scanned := arrived + [Scan];
      RoundEnds(arrived, scanned, Total(words));
      assert Rounds(words) == scanned + [Release(Total(words))] by { RoundsLast(words); }
    }
  }

  lemma TwoMore(steps: seq<Step>, a: Step, b: Step)
    ensures steps + [a, b] == steps + [a] + [b]
  {}

  lemma RoundsLast(words: seq<seq<nat>>)
    requires words != []
    ensures Rounds(words) == Rounds(words[..|words| - 1]) + Arrivals(words[|words| - 1]) + [Scan]
                             + [Release(Total(words))]
  {
    hide Total, Arrivals;
    TwoMore(Rounds(words[..|words| - 1]) + Arrivals(words[|words| - 1]), Scan, Release(Total(words)));
  }

  lemma RoundEnds(arrived: seq<Step>, scanned: seq<Step>, total: nat)
    requires NeverLapped(arrived) && Run(Started(), arrived).done == total && scanned == arrived + [Scan]
    ensures var s := Run(Started(), scanned + [Release(total)]);
            s.read == s.write == s.done == total && NeverLapped(scanned + [Release(total)])
  {
    ScanIsExactUnlessLapped(arrived);
    CaptureCountIsNeverAhead(arrived);
    RunLast(arrived, Scan);
    RunLast(scanned, Release(total));
    ReleaseMovesTheReader(Run(Started(), scanned), total);
  }

  /** The packets handed to the daemon, those between the two cursors, are still the ones the controller
      wrote there, exactly when the controller is within one ring of the read cursor. */
  lemma UnreadPacketsIntact(steps: seq<Step>)
    ensures var s := Run(Started(), steps);
            s.read < s.write ==>
            ((forall k :: s.read <= k < s.write ==> s.stored[k % SLOTS] == k) <==> WithinOneRing(s))
  {
    CaptureCountIsNeverAhead(steps);
    var s := Run(Started(), steps);
    if s.read < s.write && !WithinOneRing(s) {
      var last := NewestInSlot(s.done, s.read);
      assert s.stored[s.read % SLOTS] == last;
    }
  }

  /** The newest completed packet that landed in packet `r`'s slot, when the controller has lapped it. */
  lemma NewestInSlot(done: nat, r: nat) returns (last: nat)
    requires r + SLOTS < done
    ensures last % SLOTS == r % SLOTS && r < last < done <= last + SLOTS
  {
    last := r;
    while last + SLOTS < done
      invariant last % SLOTS == r % SLOTS && r <= last < done
      invariant last == r || r < last
    {
      last := last + SLOTS;
    }
  }

  // ---- the dext's own code ----------------------------------------------------------------------------

  /** The dext's side: cursors in ivars, status words in the descriptor array. */
  class ReceiveContext {
    var isoReadCursor: nat
    var isoWriteCursor: nat
    var isoPackets: nat
    const transferStatus: array<nat>

    ghost predicate Valid()
      reads this, transferStatus
    {
      && transferStatus.Length == SLOTS
      && (isoPackets == 0 || isoPackets == SLOTS)
      && isoReadCursor <= isoWriteCursor <= isoReadCursor + isoPackets
    }

    /** What the dext and the controller share, with the controller's own state supplied. */
    ghost function View(done: nat, stored: seq<int>): Rx
      reads this, transferStatus
    {
      Rx(isoReadCursor, isoWriteCursor, transferStatus[..], done, stored)
    }

    constructor ()
      ensures Valid() && isoPackets == 0 && isoReadCursor == 0 && fresh(transferStatus)
    {
      isoReadCursor, isoWriteCursor, isoPackets := 0, 0, 0;
      transferStatus := new nat[SLOTS];
    }

    method IsoStartContinuous()
      requires Valid()
      modifies this, transferStatus
      ensures Valid() && isoPackets == SLOTS
      ensures View(0, Started().stored) == Started()
    {
      for i := 0 to SLOTS
        invariant forall j :: 0 <= j < i ==> transferStatus[j] == 0
      {
        transferStatus[i] := 0;
      }
      isoPackets, isoWriteCursor, isoReadCursor := SLOTS, 0, 0;
      assert transferStatus[..] == Started().status;
    }

    method IsoCompletedCount(ghost done: nat, ghost stored: seq<int>) returns (total: nat)
      requires Valid() && |stored| == SLOTS
      modifies this`isoWriteCursor
      ensures Valid() && total == isoWriteCursor
      ensures old(isoPackets) == 0 ==> total == old(isoWriteCursor)
      ensures old(isoPackets) != 0 ==> View(done, stored) == Scanned(old(View(done, stored)))
    {
      var n := isoPackets;
      ghost var stop := if n == 0 then isoWriteCursor
                        else ScanFrom(isoWriteCursor, isoReadCursor, transferStatus[..]);
      while isoWriteCursor - isoReadCursor < n
        invariant Valid() && isoPackets == n && isoReadCursor == old(isoReadCursor)
        invariant n == 0 ==> isoWriteCursor == stop
        invariant n != 0 ==> ScanFrom(isoWriteCursor, isoReadCursor, transferStatus[..]) == stop
        decreases isoReadCursor + n - isoWriteCursor
      {
        var i := isoWriteCursor % n;
        if transferStatus[i] == 0 { break; }
        isoWriteCursor := isoWriteCursor + 1;
      }
      total := isoWriteCursor;
    }

    method Release(upTo: nat, ghost done: nat, ghost stored: seq<int>)
      requires Valid() && |stored| == SLOTS
      modifies this`isoReadCursor, transferStatus
      ensures Valid()
      ensures View(done, stored) ==
              if isoPackets == 0 then old(View(done, stored)) else Released(old(View(done, stored)), upTo)
    {
      var n := isoPackets;
      if n == 0 { return; }
      var u := if upTo > isoWriteCursor then isoWriteCursor else upTo;
      ghost var end := Rearmed(transferStatus[..], isoReadCursor, u);
      while isoReadCursor < u
        invariant Valid() && isoPackets == n && old(isoReadCursor) <= isoReadCursor
        invariant old(isoReadCursor) <= u ==> isoReadCursor <= u
        invariant old(isoReadCursor) >= u ==> isoReadCursor == old(isoReadCursor)
        invariant Rearmed(transferStatus[..], isoReadCursor, u) == end
        invariant isoReadCursor == old(isoReadCursor) ==> transferStatus[..] == old(transferStatus[..])
      {
        var i := isoReadCursor % n;
        ghost var before := transferStatus[..];
        transferStatus[i] := 0;
        assert transferStatus[..] == before[i := 0];
        isoReadCursor := isoReadCursor + 1;
      }
    }
  }
}
