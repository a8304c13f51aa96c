/** The sequence lock that guards three pages of shared memory: the clock anchor in the capture ring
    (platform/shared/uf_shm_ring.hpp), the daemon's published state (platform/shared/uf_state_shm.hpp) and
    the dext's status page (platform/ohci-dext/UFFireWireOHCI.cpp, read in platform/daemon/uf-daemon.cpp).

    One proof serves all three: a page of any number of words, a writer that updates any of them between two
    increments of the counter, and a reader that loads any list of them between two loads of the counter. Every
    load and store is a step of its own, and any step of one side may fall between any two of the other. */
module Seqlock {

  type Word = int

  /** The writer is idle, or has made the counter odd and is storing words. */
  datatype Writer = Idle | Loaded(n: nat) | Writing(n: nat)

  /** The reader is out, or has loaded an even counter `s0` and then the words `got` so far. */
  datatype Reader = Out | Reading(s0: nat, got: seq<(nat, Word)>)

  /** What a successful read returned: the counter it validated and the (index, word) pairs it loaded, with,
      for the proof, how many publishes were complete when it began. */
  datatype Result = Result(seed: nat, got: seq<(nat, Word)>, completedAtStart: nat)

  /** `versions[k]` is the whole page after the first `k` publishes. `startedAt` is the number of publishes
      complete when the read in progress began. */
  datatype Page = Page(seq_: nat, words: seq<Word>, writer: Writer, reader: Reader,
                       versions: seq<seq<Word>>, startedAt: nat, results: seq<Result>)

  datatype Step =
    | WLoad | WOdd | WStore(index: nat, value: Word) | WEven
    | RBegin | RLoad(index: nat) | REnd

  /** `rejectZero`: a counter that was never moved means nothing was published yet, so the read is refused
      (the anchor and the status page do this; the state page does not). */
  function Next(s: Page, a: Step, rejectZero: bool): Page {
    match a
    case WLoad => if s.writer.Idle? then s.(writer := Loaded(s.seq_ + 1)) else s
    case WOdd => if s.writer.Loaded? then s.(seq_ := s.writer.n, writer := Writing(s.writer.n)) else s
    case WStore(index, value) =>
      if s.writer.Writing? && index < |s.words| then s.(words := s.words[index := value]) else s
    case WEven =>
      if s.writer.Writing? then s.(seq_ := s.writer.n + 1, writer := Idle, versions := s.versions + [s.words]) else s
    case RBegin =>
      if s.seq_ % 2 == 1 || (rejectZero && s.seq_ == 0) then s.(reader := Out)
      else s.(reader := Reading(s.seq_, []), startedAt := Published(s))
    case RLoad(index) =>
      if s.reader.Reading? && index < |s.words|
      then s.(reader := s.reader.(got := s.reader.got + [(index, s.words[index])]))
      else s
    case REnd =>
      if !s.reader.Reading? then s
      else if s.seq_ != s.reader.s0 then s.(reader := Out)
      else s.(reader := Out, results := s.results + [Result(s.reader.s0, s.reader.got, s.startedAt)])
  }

  /** How many publishes are complete. */
  function Published(s: Page): nat { if s.versions == [] then 0 else |s.versions| - 1 }

  function Initial(words: seq<Word>): Page {
    Page(0, words, Idle, Out, [words], 0, [])
  }

  function Run(s: Page, steps: seq<Step>, rejectZero: bool): Page
    decreases |steps|
  {
    if steps == [] then s
    else Next(Run(s, steps[..|steps| - 1], rejectZero), steps[|steps| - 1], rejectZero)
  }

  /** The loads are words of one version of the page. */
  ghost predicate FromVersion(got: seq<(nat, Word)>, version: seq<Word>) {
    forall j :: 0 <= j < |got| ==> got[j].0 < |version| && got[j].1 == version[got[j].0]
  }

  ghost predicate Sound(r: Result, versions: seq<seq<Word>>) {
    && r.seed == 2 * r.completedAtStart
    && r.completedAtStart < |versions|
    && FromVersion(r.got, versions[r.completedAtStart])
  }

  ghost predicate WriterInv(s: Page) {
    && |s.versions| >= 1
    && (forall k :: 0 <= k < |s.versions| ==> |s.versions[k]| == |s.words|)
    && match s.writer
       case Idle => s.seq_ == 2 * (|s.versions| - 1) && s.words == s.versions[|s.versions| - 1]
       case Loaded(n) => s.seq_ == 2 * (|s.versions| - 1) && n == s.seq_ + 1 && s.words == s.versions[|s.versions| - 1]
       case Writing(n) => s.seq_ == n == 2 * (|s.versions| - 1) + 1
  }

  /** While the counter still stands where the reader found it, everything loaded so far is of one version. */
  ghost predicate ReaderInv(s: Page) {
    s.reader.Reading? ==>
      && s.reader.s0 == 2 * s.startedAt && s.startedAt < |s.versions| && s.reader.s0 <= s.seq_
      && (s.reader.s0 == s.seq_ ==> FromVersion(s.reader.got, s.versions[s.startedAt]))
  }

  ghost predicate Inv(s: Page) {
    && WriterInv(s)
    && ReaderInv(s)
    && forall j :: 0 <= j < |s.results| ==> Sound(s.results[j], s.versions)
  }

  lemma NextKeepsInv(s: Page, a: Step, rejectZero: bool)
    requires Inv(s)
    ensures Inv(Next(s, a, rejectZero))
  {
    var t := Next(s, a, rejectZero);
    forall j | 0 <= j < |s.results|
      ensures Sound(s.results[j], t.versions)
    {
      assert Sound(s.results[j], s.versions);
    }
  }

  lemma {:induction false} RunKeepsInv(words: seq<Word>, steps: seq<Step>, rejectZero: bool)
    ensures Inv(Run(Initial(words), steps, rejectZero))
    decreases |steps|
  {
    if steps != [] {
      RunKeepsInv(words, steps[..|steps| - 1], rejectZero);
      NextKeepsInv(Run(Initial(words), steps[..|steps| - 1], rejectZero), steps[|steps| - 1], rejectZero);
    }
  }

  /** In every interleaving, every successful read returns words of exactly one publish: the latest one that was
      complete when the read began, which the returned counter also identifies. */
  lemma ReadsOnePublish(words: seq<Word>, steps: seq<Step>, rejectZero: bool)
    ensures var s := Run(Initial(words), steps, rejectZero);
            forall j :: 0 <= j < |s.results| ==>
              && s.results[j].seed == 2 * s.results[j].completedAtStart
              && s.results[j].completedAtStart < |s.versions|
              && FromVersion(s.results[j].got, s.versions[s.results[j].completedAtStart])
  {
    RunKeepsInv(words, steps, rejectZero);
    var s := Run(Initial(words), steps, rejectZero);
    forall j | 0 <= j < |s.results|
      ensures Sound(s.results[j], s.versions)
    {}
  }

  // ---- a read nobody disturbs succeeds ---------------------------------------------------------------------

  /** The reader's own steps for a list of indices. */
  function ReadSteps(indices: seq<nat>): seq<Step> {
    [RBegin] + seq(|indices|, i requires 0 <= i < |indices| => RLoad(indices[i])) + [REnd]
  }

  function Loads(words: seq<Word>, indices: seq<nat>): seq<(nat, Word)>
    requires forall i :: 0 <= i < |indices| ==> indices[i] < |words|
  {
    seq(|indices|, i requires 0 <= i < |indices| => (indices[i], words[indices[i]]))
  }

  lemma RunLast(s: Page, steps: seq<Step>, a: Step, rejectZero: bool, all: seq<Step>)
    requires all == steps + [a]
    ensures Run(s, all, rejectZero) == Next(Run(s, steps, rejectZero), a, rejectZero)
  {
    assert all[..|all| - 1] == steps;
  }

  lemma {:induction false} LoadsGather(s: Page, indices: seq<nat>, k: nat, rejectZero: bool)
    requires s.seq_ % 2 == 0 && !(rejectZero && s.seq_ == 0) && k <= |indices|
    requires forall i :: 0 <= i < |indices| ==> indices[i] < |s.words|
    ensures Run(s, ReadSteps(indices)[..k + 1], rejectZero)
            == s.(reader := Reading(s.seq_, Loads(s.words, indices[..k])), startedAt := Published(s))
  {
    var steps := ReadSteps(indices);
    var upTo := steps[..k + 1];
    if k == 0 {
      assert upTo == [RBegin] && Loads(s.words, indices[..0]) == [];
      RunLast(s, [], RBegin, rejectZero, upTo);
    } else {
      LoadsGather(s, indices, k - 1, rejectZero);
      RunLast(s, steps[..k], RLoad(indices[k - 1]), rejectZero, upTo);
      assert Loads(s.words, indices[..k])
          == Loads(s.words, indices[..k - 1]) + [(indices[k - 1], s.words[indices[k - 1]])];
    }
  }

  /** From a stable counter, a read with no writer step inside it returns exactly the words asked for. */
  lemma UndisturbedReadSucceeds(s: Page, indices: seq<nat>, rejectZero: bool)
    requires s.seq_ % 2 == 0 && !(rejectZero && s.seq_ == 0)
    requires forall i :: 0 <= i < |indices| ==> indices[i] < |s.words|
    ensures Run(s, ReadSteps(indices), rejectZero).results
            == s.results + [Result(s.seq_, Loads(s.words, indices), Published(s))]
  {
    var steps := ReadSteps(indices);
    LoadsGather(s, indices, |indices|, rejectZero);
    assert steps[..|steps| - 1] == steps[..|indices| + 1];
    assert indices[..|indices|] == indices;
  }

  /** Whether a read may begin. */
  predicate Admits(s: Page, rejectZero: bool) { s.seq_ % 2 == 0 && !(rejectZero && s.seq_ == 0) }

  ghost predicate NoOtherRead(steps: seq<Step>) {
    forall i :: 0 <= i < |steps| ==> !steps[i].RBegin? && !steps[i].REnd?
  }

  lemma {:induction false} InsideARead(s: Page, inside: seq<Step>, rejectZero: bool)
    requires NoOtherRead(inside)
    ensures var t := Run(Next(s, RBegin, rejectZero), inside, rejectZero);
            && t.results == s.results && t.reader.Reading? == Admits(s, rejectZero)
            && (t.reader.Reading? ==> t.reader.s0 == s.seq_)
    decreases |inside|
  {
    if inside != [] { InsideARead(s, inside[..|inside| - 1], rejectZero); }
  }

  /** Whatever happens inside a read, it returns exactly one result if it was let in and the counter still stands
      where it stood, and none otherwise; either way it is over. */
  lemma SucceedsExactlyWhenStill(s: Page, inside: seq<Step>, rejectZero: bool)
    requires NoOtherRead(inside)
    ensures var t := Run(Next(s, RBegin, rejectZero), inside, rejectZero);
            var u := Next(t, REnd, rejectZero);
            && u.reader.Out? && u == t.(reader := Out, results := u.results)
            && if Admits(s, rejectZero) && t.seq_ == s.seq_
               then |u.results| == |s.results| + 1 && s.results < u.results && u.results[|s.results|].seed == s.seq_
               else u.results == s.results
  {
    InsideARead(s, inside, rejectZero);
  }

  /** The writer's own steps for a page of new values. */
  function PublishSteps(values: seq<Word>): seq<Step> {
    [WLoad, WOdd] + seq(|values|, i requires 0 <= i < |values| => WStore(i, values[i])) + [WEven]
  }

  lemma {:induction false} StoresLand(s: Page, values: seq<Word>, k: nat, rejectZero: bool)
    requires s.writer.Idle? && |values| == |s.words| && k <= |values|
    ensures Run(s, PublishSteps(values)[..k + 2], rejectZero)
            == HalfWritten(s, values[..k] + s.words[k..])
  {
    var steps := PublishSteps(values);
    if k == 0 {
      assert steps[..2] == [WLoad, WOdd] && [WLoad] == [] + [WLoad];
      RunLast(s, [], WLoad, rejectZero, [WLoad]);
      RunLast(s, [WLoad], WOdd, rejectZero, steps[..2]);
      assert values[..0] + s.words[0..] == s.words;
    } else {
      StoresLand(s, values, k - 1, rejectZero);
      RunLast(s, steps[..k + 1], WStore(k - 1, values[k - 1]), rejectZero, steps[..k + 2]);
      StoreOne(s, values, k - 1, rejectZero);
    }
  }

  function HalfWritten(s: Page, words: seq<Word>): Page {
    s.(seq_ := s.seq_ + 1, writer := Writing(s.seq_ + 1), words := words)
  }

  lemma StoreOne(s: Page, values: seq<Word>, k: nat, rejectZero: bool)
    requires k < |values| == |s.words|
    ensures Next(HalfWritten(s, values[..k] + s.words[k..]), WStore(k, values[k]), rejectZero)
            == HalfWritten(s, values[..k + 1] + s.words[k + 1..])
  {
    assert values[..k + 1] + s.words[k + 1..] == (values[..k] + s.words[k..])[k := values[k]];
  }

  /** Publish, then read, with nothing in between: the reader gets what was published, under the next seed. */
  lemma PublishThenRead(s: Page, values: seq<Word>, indices: seq<nat>, rejectZero: bool)
    requires s.writer.Idle? && s.seq_ % 2 == 0 && |values| == |s.words| && s.versions != []
    requires forall i :: 0 <= i < |indices| ==> indices[i] < |values|
    ensures var t := Run(s, PublishSteps(values), rejectZero);
            && t.words == values && t.seq_ == s.seq_ + 2 && t.versions == s.versions + [values]
            && Run(t, ReadSteps(indices), rejectZero).results
               == s.results + [Result(s.seq_ + 2, Loads(values, indices), |s.versions|)]
  {
    var steps := PublishSteps(values);
    StoresLand(s, values, |values|, rejectZero);
    assert steps[..|steps| - 1] == steps[..|values| + 2];
    assert values[..|values|] + s.words[|values|..] == values;
    UndisturbedReadSucceeds(Run(s, steps, rejectZero), indices, rejectZero);
  }

  // ---- the three pages ----------------------------------------------------------------------------------------

  /** The clock anchor: two words, frame count and host time. A read that succeeds returns a pair that was
      published together, by the publish its seed names. */
  lemma AnchorPairsBelongTogether(steps: seq<Step>, j: nat, sampleTime: Word, hostTime: Word)
    requires var s := Run(Initial([0, 0]), steps, true);
             j < |s.results| && s.results[j].got == [(0, sampleTime), (1, hostTime)]
    ensures var s := Run(Initial([0, 0]), steps, true);
            && s.results[j].seed % 2 == 0
            && s.results[j].seed / 2 < |s.versions|
            && s.versions[s.results[j].seed / 2] == [sampleTime, hostTime]
            && s.results[j].seed > 0
  {
    RunKeepsInv([0, 0], steps, true);
    RunKeepsWidth([0, 0], steps, true);
    SeedsArePositive([0, 0], steps);
    var s := Run(Initial([0, 0]), steps, true);
    var r := s.results[j];
    assert Sound(r, s.versions);
    assert r.got[0] == (0, sampleTime) && r.got[1] == (1, hostTime);
  }

  lemma {:induction false} RunKeepsWidth(words: seq<Word>, steps: seq<Step>, rejectZero: bool)
    ensures |Run(Initial(words), steps, rejectZero).words| == |words|
    decreases |steps|
  {
    if steps != [] { RunKeepsWidth(words, steps[..|steps| - 1], rejectZero); }
  }

  lemma {:induction false} SeedsArePositive(words: seq<Word>, steps: seq<Step>)
    ensures var s := Run(Initial(words), steps, true);
            && (s.reader.Reading? ==> s.reader.s0 > 0)
            && forall j :: 0 <= j < |s.results| ==> s.results[j].seed > 0
    decreases |steps|
  {
    if steps != [] { SeedsArePositive(words, steps[..|steps| - 1]); }
  }

  /** The state page: a reader that copies every word, in whatever order, holds one published page. */
  lemma StateCopyIsOnePage(words: seq<Word>, steps: seq<Step>, j: nat, copy: seq<Word>)
    requires var s := Run(Initial(words), steps, false);
             && j < |s.results| && |copy| == |words|
             && forall i :: 0 <= i < |copy| ==> (i, copy[i]) in s.results[j].got
    ensures var s := Run(Initial(words), steps, false);
            && s.results[j].completedAtStart < |s.versions|
            && copy == s.versions[s.results[j].completedAtStart]
  {
    RunKeepsInv(words, steps, false);
    RunKeepsWidth(words, steps, false);
    var s := Run(Initial(words), steps, false);
    var r := s.results[j];
    assert Sound(r, s.versions);
    forall i | 0 <= i < |copy|
      ensures copy[i] == s.versions[r.completedAtStart][i]
    {
      var g: nat :| g < |r.got| && r.got[g] == (i, copy[i]);
    }
  }

  /** The dext's status page: six words, of which the pump loads the first five. The receive count, the
      transmit count and the host time it acts on were written by one interrupt. */
  lemma StatusSnapshotIsOneInterrupt(steps: seq<Step>, j: nat,
                                     irqCount: Word, rxCompleted: Word, txSent: Word, hostTime: Word, cycleTimer: Word)
    requires var s := Run(Initial([0, 0, 0, 0, 0, 0]), steps, true);
             j < |s.results| &&
             s.results[j].got == [(0, irqCount), (1, rxCompleted), (2, txSent), (3, hostTime), (4, cycleTimer)]
    ensures var s := Run(Initial([0, 0, 0, 0, 0, 0]), steps, true);
            && 0 < s.results[j].completedAtStart < |s.versions|
            && |s.versions[s.results[j].completedAtStart]| == 6
            && s.versions[s.results[j].completedAtStart][..5] == [irqCount, rxCompleted, txSent, hostTime, cycleTimer]
  {
    var words := [0, 0, 0, 0, 0, 0];
    RunKeepsInv(words, steps, true);
    RunKeepsWidth(words, steps, true);
    SeedsArePositive(words, steps);
    var s := Run(Initial(words), steps, true);
    var r := s.results[j];
    assert Sound(r, s.versions);
    var v := s.versions[r.completedAtStart];
    assert |v| == 6;
    forall i | 0 <= i < 5
      ensures r.got[i].0 == i && v[i] == r.got[i].1
    {}
  }
}
