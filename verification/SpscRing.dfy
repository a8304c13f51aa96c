/** The shared-memory slot ring (platform/shared/uf_shm_ring.hpp), at the granularity of single loads and
    stores.

    The producer and the consumer share two cursors and eight slots and nothing else. Each acquire is two
    loads, made at different times; each slot is written and read one word at a time; each commit is one
    atomic increment. Any step of one side may fall between any two steps of the other. */
module SpscRing {
  import opened Arithmetic

  const SLOTS: nat := 8

  type Word = int
  type Slot = seq<Word>

  /** Where the producer is: idle, after loading the head, or holding slot `h` for writing. */
  datatype Producer = PIdle | PLoadedHead(h: nat) | PHolding(h: nat)

  /** Where the consumer is: idle, after loading the tail, or holding slot `t` for reading. */
  datatype Consumer = CIdle | CLoadedTail(t: nat) | CHolding(t: nat)

  /** One word the consumer read: word `index` of the slot at position `at` had value `value`. */
  datatype Reading = Reading(at: nat, index: nat, value: Word)

  /** `committed` is every slot's content at the moment it was committed, in order. `released` is what each
      slot held at the moment the consumer gave it back. `readings` is every word ever read. */
  datatype Ring = Ring(
    head: nat, tail: nat, overruns: nat, underruns: nat, slots: seq<Slot>,
    producer: Producer, consumer: Consumer,
    committed: seq<Slot>, released: seq<Slot>, readings: seq<Reading>)

  datatype Step =
    | PLoadHead | PLoadTail | PStore(index: nat, value: Word) | PCommit
    | CLoadTail | CLoadHead | CRead(index: nat) | CCommit

  function Initial(slots: seq<Slot>): Ring {
    Ring(0, 0, 0, 0, slots, PIdle, CIdle, [], [], [])
  }

  /** A step that is not enabled does nothing. */
  function Next(s: Ring, a: Step): (t: Ring)
    requires |s.slots| == SLOTS
    ensures |t.slots| == SLOTS
  {
    match a
    case PLoadHead => if s.producer.PIdle? then s.(producer := PLoadedHead(s.head)) else s
    case PLoadTail =>
      if !s.producer.PLoadedHead? then s
      else if s.producer.h - s.tail >= SLOTS then s.(overruns := s.overruns + 1, producer := PIdle)
      else s.(producer := PHolding(s.producer.h))
    case PStore(index, value) =>
      if !s.producer.PHolding? then s
      else
        var i := s.producer.h % SLOTS;
        if index < |s.slots[i]| then s.(slots := s.slots[i := s.slots[i][index := value]]) else s
    case PCommit =>
      if !s.producer.PHolding? then s
      else s.(head := s.head + 1, producer := PIdle, committed := s.committed + [s.slots[s.producer.h % SLOTS]])
    case CLoadTail => if s.consumer.CIdle? then s.(consumer := CLoadedTail(s.tail)) else s
    case CLoadHead =>
      if !s.consumer.CLoadedTail? then s
      else if s.consumer.t == s.head then s.(underruns := s.underruns + 1, consumer := CIdle)
      else s.(consumer := CHolding(s.consumer.t))
    case CRead(index) =>
      if !s.consumer.CHolding? then s
      else
        var slot := s.slots[s.consumer.t % SLOTS];
        if index < |slot| then s.(readings := s.readings + [Reading(s.consumer.t, index, slot[index])]) else s
    case CCommit =>
      if !s.consumer.CHolding? then s
      else s.(tail := s.tail + 1, consumer := CIdle, released := s.released + [s.slots[s.consumer.t % SLOTS]])
  }

  function Run(s: Ring, steps: seq<Step>): (t: Ring)
    requires |s.slots| == SLOTS
    ensures |t.slots| == SLOTS
    decreases |steps|
  {
    if steps == [] then s else Next(Run(s, steps[..|steps| - 1]), steps[|steps| - 1])
  }

  ghost predicate CursorInv(s: Ring) {
    && |s.slots| == SLOTS
    && s.tail <= s.head <= s.tail + SLOTS
    && |s.committed| == s.head && |s.released| == s.tail
    && (s.producer.PLoadedHead? ==> s.producer.h == s.head)
    && (s.producer.PHolding? ==> s.producer.h == s.head && s.head < s.tail + SLOTS)
    && (s.consumer.CLoadedTail? ==> s.consumer.t == s.tail)
    && (s.consumer.CHolding? ==> s.consumer.t == s.tail && s.tail < s.head)
  }

  /** Slots between the cursors still hold what was committed to them; what was released or read is what was
      committed. */
  ghost predicate ContentInv(s: Ring)
    requires CursorInv(s)
  {
    && (forall k :: s.tail <= k < s.head ==> s.slots[k % SLOTS] == s.committed[k])
    && (forall k :: 0 <= k < s.tail ==> s.released[k] == s.committed[k])
    && (forall j :: 0 <= j < |s.readings| ==> Faithful(s.readings[j], s.committed))
  }

  ghost predicate Faithful(r: Reading, committed: seq<Slot>) {
    r.at < |committed| && r.index < |committed[r.at]| && r.value == committed[r.at][r.index]
  }

  ghost predicate Inv(s: Ring) { CursorInv(s) && ContentInv(s) }

  lemma StoreKeepsInv(s: Ring, index: nat, value: Word)
    requires Inv(s)
    ensures Inv(Next(s, PStore(index, value)))
  {
    var t := Next(s, PStore(index, value));
    if t != s {
      forall k | t.tail <= k < t.head
        ensures t.slots[k % SLOTS] == t.committed[k]
      {
        if k % SLOTS == s.head % SLOTS { SameSlot(k, s.head, SLOTS); }
      }
    }
  }

  lemma NextKeepsInv(s: Ring, a: Step)
    requires Inv(s)
    ensures Inv(Next(s, a))
  {
    match a
    case PStore(index, value) => StoreKeepsInv(s, index, value);
    case PCommit =>
      var t := Next(s, a);
      assert forall j :: 0 <= j < |s.readings| ==> Faithful(s.readings[j], s.committed);
    case _ =>
  }

  lemma {:induction false} RunKeepsInv(slots: seq<Slot>, steps: seq<Step>)
    requires |slots| == SLOTS
    ensures Inv(Run(Initial(slots), steps))
    decreases |steps|
  {
    if steps != [] {
      RunKeepsInv(slots, steps[..|steps| - 1]);
      NextKeepsInv(Run(Initial(slots), steps[..|steps| - 1]), steps[|steps| - 1]);
    }
  }

  /** In every interleaving the depth stays between 0 and 8 and the slot being written is never the slot
      held for reading. */
  lemma WriterAndReaderNeverShareASlot(slots: seq<Slot>, steps: seq<Step>)
    requires |slots| == SLOTS
    ensures var s := Run(Initial(slots), steps);
            && 0 <= s.head - s.tail <= SLOTS
            && (s.producer.PHolding? && s.consumer.CHolding? ==> s.producer.h % SLOTS != s.consumer.t % SLOTS)
  {
    RunKeepsInv(slots, steps);
    var s := Run(Initial(slots), steps);
    if s.producer.PHolding? && s.consumer.CHolding? && s.producer.h % SLOTS == s.consumer.t % SLOTS {
      SameSlot(s.consumer.t, s.producer.h, SLOTS);
    }
  }

  /** In every interleaving the slots consumed are a prefix of the slots committed, in order and unaltered, and
      every single word read is the committed word. */
  lemma ReadsAreAPrefixOfCommits(slots: seq<Slot>, steps: seq<Step>)
    requires |slots| == SLOTS
    ensures var s := Run(Initial(slots), steps);
            && s.released <= s.committed
            && forall j :: 0 <= j < |s.readings| ==>
                 && s.readings[j].at < |s.committed|
                 && s.readings[j].index < |s.committed[s.readings[j].at]|
                 && s.readings[j].value == s.committed[s.readings[j].at][s.readings[j].index]
  {
    RunKeepsInv(slots, steps);
    var s := Run(Initial(slots), steps);
    forall j | 0 <= j < |s.readings|
      ensures Faithful(s.readings[j], s.committed)
    {}
  }

  /** Nothing is refused needlessly: an acquire is refused only on a ring that really was full when the tail was
      loaded, or really was empty when the head was loaded. */
  lemma RefusalsAreReal(slots: seq<Slot>, steps: seq<Step>)
    requires |slots| == SLOTS
    ensures var s := Run(Initial(slots), steps);
            && (Next(s, PLoadTail).overruns != s.overruns ==> s.head - s.tail == SLOTS)
            && (Next(s, CLoadHead).underruns != s.underruns ==> s.head == s.tail)
            && (s.producer.PLoadedHead? && s.head - s.tail < SLOTS ==> Next(s, PLoadTail).producer == PHolding(s.head))
            && (s.consumer.CLoadedTail? && s.tail < s.head ==> Next(s, CLoadHead).consumer == CHolding(s.tail))
  {
    RunKeepsInv(slots, steps);
  }

  // ---- one slot handed over --------------------------------------------------------------------------------------

  function Stores(values: seq<Word>): seq<Step> {
    seq(|values|, i requires 0 <= i < |values| => PStore(i, values[i]))
  }

  function Reads(n: nat): seq<Step> { seq(n, i requires 0 <= i < n => CRead(i)) }

  function Readings(at: nat, values: seq<Word>): seq<Reading> {
    seq(|values|, i requires 0 <= i < |values| => Reading(at, i, values[i]))
  }

  lemma {:induction false} RunAppend(s: Ring, a: seq<Step>, b: seq<Step>)
    requires |s.slots| == SLOTS
    ensures Run(s, a + b) == Run(Run(s, a), b)
    decreases |b|
  {
    hide Next;
    if b == [] {
      assert a + b == a;
    } else {
      var all := a + b;
      assert all[..|all| - 1] == a + b[..|b| - 1];
      RunAppend(s, a, b[..|b| - 1]);
    }
  }

  lemma RunOne(s: Ring, a: Step)
    requires |s.slots| == SLOTS
    ensures Run(s, [a]) == Next(s, a)
  {
    hide Next;
    assert [a][..0] == [];
    assert Run(s, [a][..0]) == s;
  }

  lemma RunTwo(s: Ring, a: Step, b: Step)
    requires |s.slots| == SLOTS
    ensures Run(s, [a, b]) == Next(Next(s, a), b)
  {
    hide Next;
    RunOne(s, a);
    assert [a, b][..1] == [a];
  }

  /** The producer's stores leave its slot holding what was stored, and nothing else changed. */
  lemma {:induction false} StoresFillTheSlot(s: Ring, values: seq<Word>, k: nat, i: nat)
    requires |s.slots| == SLOTS && s.producer.PHolding? && i == s.producer.h % SLOTS
    requires k <= |values| == |s.slots[i]|
    ensures Run(s, Stores(values)[..k]) == s.(slots := s.slots[i := values[..k] + s.slots[i][k..]])
    decreases k
  {
    var steps := Stores(values)[..k];
    if k == 0 {
      assert values[..0] + s.slots[i][0..] == s.slots[i];
    } else {
      StoresFillTheSlot(s, values, k - 1, i);
      var a := PStore(k - 1, values[k - 1]);
      assert Stores(values)[k - 1] == a && steps == Stores(values)[..k - 1] + [a];
      RunAppend(s, Stores(values)[..k - 1], [a]);
      RunOne(Run(s, Stores(values)[..k - 1]), a);
      hide Run;
      var half := values[..k - 1] + s.slots[i][k - 1..];
      assert half[k - 1 := values[k - 1]] == values[..k] + s.slots[i][k..];
    }
  }

  lemma {:induction false} ReadsGetTheSlot(s: Ring, values: seq<Word>, k: nat)
    requires |s.slots| == SLOTS && s.consumer.CHolding? && s.slots[s.consumer.t % SLOTS] == values && k <= |values|
    ensures Run(s, Reads(|values|)[..k])
            == s.(readings := s.readings + Readings(s.consumer.t, values)[..k])
    decreases k
  {
    var turns := Reads(|values|);
    if k > 0 {
      ReadsGetTheSlot(s, values, k - 1);
      assert turns[k - 1] == CRead(k - 1) && turns[..k] == turns[..k - 1] + [CRead(k - 1)];
      RunAppend(s, turns[..k - 1], [CRead(k - 1)]);
      RunOne(Run(s, turns[..k - 1]), CRead(k - 1));
      hide Run;
      var all := Readings(s.consumer.t, values);
      assert all[k - 1] == Reading(s.consumer.t, k - 1, values[k - 1]);
      assert all[..k] == all[..k - 1] + [all[k - 1]];
      assert all[..k] == all[..k - 1] + [Reading(s.consumer.t, k - 1, values[k - 1])];
    }
  }

  function Writing(values: seq<Word>): seq<Step> { [PLoadHead, PLoadTail] + Stores(values) + [PCommit] }
  function Taking(n: nat): seq<Step> { [CLoadTail, CLoadHead] + Reads(n) + [CCommit] }

  /** The producer writes a slot of a ring with room: it becomes the newest committed one, holding what was written. */
  lemma WrittenIsCommitted(s: Ring, values: seq<Word>)
    requires Inv(s) && s.producer.PIdle? && s.head < s.tail + SLOTS && |values| == |s.slots[s.head % SLOTS]|
    ensures Run(s, Writing(values)) ==
            s.(head := s.head + 1, slots := s.slots[s.head % SLOTS := values], committed := s.committed + [values])
  {
    var two: seq<Step> := [PLoadHead, PLoadTail];
    var held := Run(s, two);
    RunTwo(s, PLoadHead, PLoadTail);
    hide Run;
    assert held == s.(producer := PHolding(s.head));
    StoresFillTheSlot(held, values, |values|, s.head % SLOTS);
    assert Stores(values)[..|values|] == Stores(values);
    assert values[..|values|] + s.slots[s.head % SLOTS][|values|..] == values;
    RunAppend(s, two, Stores(values));
    RunAppend(s, two + Stores(values), [PCommit]);
    RunOne(Run(held, Stores(values)), PCommit);
  }

  /** A refusal is counted and changes nothing else: the producer's on a full ring, the consumer's on an empty one. */
  lemma RefusalsAreCounted(s: Ring)
    requires |s.slots| == SLOTS
    ensures s.producer.PIdle? && s.head - s.tail >= SLOTS ==>
              Run(s, [PLoadHead, PLoadTail]) == s.(overruns := s.overruns + 1)
    ensures s.consumer.CIdle? && s.tail == s.head ==>
              Run(s, [CLoadTail, CLoadHead]) == s.(underruns := s.underruns + 1)
  {
    RunTwo(s, PLoadHead, PLoadTail);
    RunTwo(s, CLoadTail, CLoadHead);
  }

  /** The consumer reads a slot of a ring that is not empty: it gets the oldest one committed, word for word, and
      gives it back. */
  lemma ReadIsTheOldest(s: Ring, values: seq<Word>)
    requires Inv(s) && s.consumer.CIdle? && s.tail < s.head && values == s.committed[s.tail]
    ensures Run(s, Taking(|values|)) ==
            s.(tail := s.tail + 1, released := s.released + [values], readings := s.readings + Readings(s.tail, values))
  {
    var two: seq<Step> := [CLoadTail, CLoadHead];
    var held := Run(s, two);
    RunTwo(s, CLoadTail, CLoadHead);
    hide Run;
    assert held == s.(consumer := CHolding(s.tail));
    ReadsGetTheSlot(held, values, |values|);
    assert Reads(|values|)[..|values|] == Reads(|values|);
    assert Readings(s.tail, values)[..|values|] == Readings(s.tail, values);
    RunAppend(s, two, Reads(|values|));
    RunAppend(s, two + Reads(|values|), [CCommit]);
    RunOne(Run(held, Reads(|values|)), CCommit);
  }
}
