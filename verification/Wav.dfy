/** WAV files: the writer (include/uf/protocol/wav.hpp) and the reader of the test-signal tool
    (tools/uf-testsig.cpp).

    The writer emits the canonical 44-byte header; the reader walks whatever chunks it meets. The results say that
    the reader sees through any layout of chunks, and exactly when reading gives back what was written. */
module Wav {
  import T = TestSignal
  import opened Arithmetic

  type i32 = T.i32
  type byte = x: int | 0 <= x < 256

  const TWO16: nat := 0x1_0000
  const TWO24: nat := 0x100_0000
  const TWO32: nat := 0x1_0000_0000

  const RIFF: seq<byte> := [82, 73, 70, 70]
  const WAVE: seq<byte> := [87, 65, 86, 69]
  const FMT: seq<byte> := [102, 109, 116, 32]
  const DATA: seq<byte> := [100, 97, 116, 97]

  // ---- little-endian numbers ------------------------------------------------------------------------------------

  /** The low `n` bytes, lowest first. */
  function Le(v: nat, n: nat): (s: seq<byte>)
    ensures |s| == n
  {
    if n == 0 then [] else [v % 256] + Le(v / 256, n - 1)
  }

  function FromLe(s: seq<byte>): nat { if s == [] then 0 else s[0] + 256 * FromLe(s[1..]) }

  function Pow256(n: nat): nat { if n == 0 then 1 else 256 * Pow256(n - 1) }

  lemma {:induction false} LeRoundTrip(v: nat, n: nat)
    requires v < Pow256(n)
    ensures FromLe(Le(v, n)) == v
  {
    if n > 0 {
      LeRoundTrip(v / 256, n - 1);
      assert Le(v, n)[1..] == Le(v / 256, n - 1);
    }
  }

  lemma FieldRoundTrip(v: nat)
    ensures v < TWO16 ==> FromLe(Le(v, 2)) == v
    ensures v < TWO32 ==> FromLe(Le(v, 4)) == v
  {
    assert Pow256(2) == TWO16 && Pow256(4) == TWO32;
    if v < TWO16 { LeRoundTrip(v, 2); }
    if v < TWO32 { LeRoundTrip(v, 4); }
  }

  /** Byte `i` of `v`, as a shift and a mask give it. */
  function ByteOf(v: nat, i: nat): byte { if i == 0 then v % 256 else ByteOf(v / 256, i - 1) }

  lemma {:induction false} LeGrows(v: nat, n: nat)
    ensures Le(v, n + 1) == Le(v, n) + [ByteOf(v, n)]
  {
    if n > 0 { LeGrows(v / 256, n - 1); }
  }

  method PushLe(b: seq<byte>, v: nat, n: nat) returns (c: seq<byte>)
    ensures c == b + Le(v, n)
  {
    c := b;
    for i := 0 to n
      invariant c == b + Le(v, i)
    {
      c := c + [ByteOf(v, i)];
      LeGrows(v, i);
    }
  }

  method PushTag(b: seq<byte>, tag: seq<byte>) returns (c: seq<byte>)
    requires |tag| == 4
    ensures c == b + tag
  {
    c := b;
    for i := 0 to 4
      invariant c == b + tag[..i]
    {
      c := c + [tag[i]];
    }
  }

  // ---- the writer -----------------------------------------------------------------------------------------------

  function FileHead(form: seq<byte>): seq<byte> { RIFF + form + WAVE }

  function RiffHead(dataBytes: nat): (s: seq<byte>)
    ensures |s| == 12
  {
    FileHead(Le((36 + dataBytes) % TWO32, 4))
  }

  /** The body of the format chunk; both derived fields are cut to their widths. */
  function Format(rate: nat, channels: nat, bits: nat): (s: seq<byte>)
    ensures |s| == 16
  {
    var align := channels * (bits / 8) % TWO16;
    Fields(channels, rate, rate * align % TWO32, align, bits)
  }

  function Fields(channels: nat, rate: nat, byteRate: nat, align: nat, bits: nat): (s: seq<byte>)
    ensures |s| == 16
  {
    Le(1, 2) + Le(channels, 2) + Le(rate, 4) + Le(byteRate, 4) + Le(align, 2) + Le(bits, 2)
  }

  /** Frame-major samples, each its low `width` bytes. */
  function Pcm(samples: seq<i32>, width: nat): (s: seq<byte>)
    ensures |s| == |samples| * width
  {
    if samples == [] then []
    else Pcm(samples[..|samples| - 1], width) + Le(T.Unsigned(samples[|samples| - 1]), width)
  }

  function FormatChunk(rate: nat, channels: nat, bits: nat): (s: seq<byte>)
    ensures |s| == 24
  {
    var f := Format(rate, channels, bits);
    FMT + Le(|f|, 4) + f
  }

  function Header(rate: nat, channels: nat, bits: nat, dataBytes: nat): (s: seq<byte>)
    ensures |s| == 44
  {
    RiffHead(dataBytes) + (FormatChunk(rate, channels, bits) + (DATA + Le(dataBytes, 4)))
  }

  function Written(samples: seq<i32>, rate: nat, channels: nat, bits: nat): (s: seq<byte>)
    ensures |s| == 44 + |samples| * (bits / 8)
  {
    Header(rate, channels, bits, |samples| * (bits / 8) % TWO32) + Pcm(samples, bits / 8)
  }

  lemma Assoc(a: seq<byte>, b: seq<byte>, c: seq<byte>)
    ensures (a + b) + c == a + (b + c)
  {}

  /** The format chunk, field by field. */
  method PushFormat(b: seq<byte>, rate: nat, channels: nat, bits: nat) returns (h: seq<byte>)
    ensures h == b + FormatChunk(rate, channels, bits)
  {
    var align := channels * (bits / 8) % TWO16;
    ghost var size := |Format(rate, channels, bits)|;
    h := PushTag(b, FMT);
    h := PushLe(h, 16, 4);
    Assoc(b, FMT, Le(size, 4));
    ghost var front, f := h, Le(1, 2);
    h := PushLe(h, 1, 2);
    h := PushLe(h, channels, 2);
    Assoc(front, f, Le(channels, 2));
    f := f + Le(channels, 2);
    h := PushLe(h, rate, 4);
    Assoc(front, f, Le(rate, 4));
    f := f + Le(rate, 4);
    h := PushLe(h, rate * align % TWO32, 4);
    Assoc(front, f, Le(rate * align % TWO32, 4));
    f := f + Le(rate * align % TWO32, 4);
    h := PushLe(h, align, 2);
    Assoc(front, f, Le(align, 2));
    f := f + Le(align, 2);
    h := PushLe(h, bits, 2);
    Assoc(front, f, Le(bits, 2));
    f := f + Le(bits, 2);
    assert f == Format(rate, channels, bits);
    Assoc(b, FMT + Le(size, 4), f);
  }

  method WavHeader(rate: nat, channels: nat, bits: nat, dataBytes: nat) returns (h: seq<byte>)
    requires rate < TWO32 && channels < TWO16 && bits < TWO16 && dataBytes < TWO32
    ensures h == Header(rate, channels, bits, dataBytes)
  {
    h := PushTag([], RIFF);
    h := PushLe(h, (36 + dataBytes) % TWO32, 4);
    h := PushTag(h, WAVE);
    ghost var head, fmt := RiffHead(dataBytes), FormatChunk(rate, channels, bits);
    assert h == head;
    h := PushFormat(h, rate, channels, bits);
    h := PushTag(h, DATA);
    h := PushLe(h, dataBytes, 4);
    Assoc(head + fmt, DATA, Le(dataBytes, 4));
    Assoc(head, fmt, DATA + Le(dataBytes, 4));
  }

  /** At most 32-bit samples: past the fourth byte the shift has no meaning. */
  method WriteWav(samples: seq<i32>, rate: nat, channels: nat, bits: nat) returns (out: seq<byte>)
    requires rate < TWO32 && channels < TWO16 && bits < 40
    ensures out == Written(samples, rate, channels, bits)
  {
    var width := bits / 8;
    var dataBytes := |samples| * width % TWO32;
    out := WavHeader(rate, channels, bits, dataBytes);
    ghost var header := out;
    hide Le, Header;
    for i := 0 to |samples|
      invariant out == header + Pcm(samples[..i], width)
    {
      assert samples[..i + 1][..i] == samples[..i];
      out := PushLe(out, T.Unsigned(samples[i]), width);
    }
    assert samples[..|samples|] == samples;
  }

  // ---- the reader -----------------------------------------------------------------------------------------------

  /** What the chunks have said so far. */
  datatype Info = Info(channels: nat, rate: nat, bits: nat, dataOff: nat, dataLen: nat)

  const NOTHING := Info(0, 0, 0, 0, 0)

  datatype Walked = Done(info: Info) | Stuck

  datatype Outcome =
    | Recording(samples: seq<i32>, channels: nat, rate: nat)
    | NotRiffWave
    | NoFmtOrData
    | Not24Bit(bits: nat)
    | NeverReturns

  function U16At(b: seq<byte>, p: nat): nat
    requires p + 2 <= |b|
  {
    FromLe(b[p..p + 2])
  }

  function U32At(b: seq<byte>, p: nat): nat
    requires p + 4 <= |b|
  {
    FromLe(b[p..p + 4])
  }

  lemma {:induction false} FromLeBound(s: seq<byte>)
    ensures FromLe(s) < Pow256(|s|)
  {
    if s != [] { FromLeBound(s[1..]); }
  }

  /** From a chunk's start to the next one's: the sum is a 32-bit one. */
  function Advance(size: nat): nat { (8 + size + size % 2) % TWO32 }

  function TakeChunk(b: seq<byte>, p: nat, st: Info): Info
    requires p + 8 <= |b|
  {
    if b[p..p + 4] == FMT && p + 24 <= |b|
    then st.(channels := U16At(b, p + 10), rate := U32At(b, p + 12), bits := U16At(b, p + 22))
    else if b[p..p + 4] == DATA then st.(dataOff := p + 8, dataLen := U32At(b, p + 4))
    else st
  }

  /** The chunk walk. A chunk whose advance is zero would be visited for ever. */
  function Walk(b: seq<byte>, p: nat, st: Info): Walked
    decreases |b| - p
  {
    if p + 8 > |b| then Done(st)
    else
      var step := Advance(U32At(b, p + 4));
      if step == 0 then Stuck else Walk(b, p + step, TakeChunk(b, p, st))
  }

  /** The sign extension of a 24-bit value. */
  function Extended(v: nat): i32
    requires v < TWO24
  {
    if v >= 0x80_0000 then v - TWO24 else v
  }

  function SampleIn(data: seq<byte>, i: nat): i32
    requires 3 * i + 3 <= |data|
  {
    ThreeBytes(data[3 * i..3 * i + 3]);
    Extended(FromLe(data[3 * i..3 * i + 3]))
  }

  lemma ThreeBytes(s: seq<byte>)
    requires |s| == 3
    ensures FromLe(s) == s[0] + 256 * s[1] + 0x1_0000 * s[2] < TWO24
  {
    assert s[1..][1..] == [s[2]] && [s[2]][1..] == [];
    assert FromLe(s) == s[0] + 256 * FromLe(s[1..]);
    assert FromLe(s[1..]) == s[1] + 256 * FromLe([s[2]]);
    assert FromLe([s[2]]) == s[2] + 256 * FromLe([s[2]][1..]);
  }

  function Decoded(data: seq<byte>): (s: seq<i32>)
    ensures |s| == |data| / 3
  {
    seq(|data| / 3, i requires 0 <= i < |data| / 3 => SampleIn(data, i))
  }

  predicate IsRiffWave(b: seq<byte>) { |b| >= 44 && b[..4] == RIFF && b[8..12] == WAVE }

  /** What the chunks' findings come to. */
  function Verdict(channels: nat, rate: nat, bits: nat, dataLen: nat, data: seq<byte>): Outcome {
    if channels == 0 || dataLen == 0 then NoFmtOrData
    else if bits != 24 then Not24Bit(bits)
    else Recording(Decoded(data), channels, rate)
  }

  /** The bytes of the data chunk that are there. */
  function DataIn(b: seq<byte>, st: Info): seq<byte> {
    if st.dataOff > |b| then []
    else b[st.dataOff..if st.dataOff + st.dataLen > |b| then |b| else st.dataOff + st.dataLen]
  }

  function Read(b: seq<byte>): Outcome {
    if !IsRiffWave(b) then NotRiffWave
    else
      match Walk(b, 12, NOTHING)
      case Stuck => NeverReturns
      case Done(st) => Verdict(st.channels, st.rate, st.bits, st.dataLen, DataIn(b, st))
  }

  /** A walk finds data only past its start, and inside the file. */
  lemma {:induction false} WalkFindsAhead(b: seq<byte>, p: nat, st: Info)
    ensures var w := Walk(b, p, st);
            w.Done? ==> (w.info.dataOff == st.dataOff && w.info.dataLen == st.dataLen) || p + 8 <= w.info.dataOff <= |b|
    decreases |b| - p
  {
    if p + 8 <= |b| {
      var step := Advance(U32At(b, p + 4));
      if step != 0 { WalkFindsAhead(b, p + step, TakeChunk(b, p, st)); }
    }
  }

  /** The reader's sample loop. */
  method DecodeSamples(b: seq<byte>, dataOff: nat, dataLen: nat) returns (out: seq<i32>)
    requires dataOff + dataLen <= |b|
    ensures out == Decoded(b[dataOff..dataOff + dataLen])
  {
    ghost var data := b[dataOff..dataOff + dataLen];
    out := [];
    for i := 0 to dataLen / 3
      invariant out == Decoded(data)[..i]
    {
      hide FromLe;
      var q := dataOff + 3 * i;
      var b0: nat, b1: nat, b2: nat := b[q], b[q + 1], b[q + 2];
      ThreeBytes(data[3 * i..3 * i + 3]);
      out := out + [Extended(b0 + 256 * b1 + 0x1_0000 * b2)];
      assert data[3 * i] == b0 && data[3 * i + 1] == b1 && data[3 * i + 2] == b2;
      assert Decoded(data)[i] == SampleIn(data, i) == out[i];
      assert Decoded(data)[..i + 1] == Decoded(data)[..i] + [Decoded(data)[i]];
    }
  }

  method ReadWav(b: seq<byte>) returns (r: Outcome)
    ensures r == Read(b)
  {
    if |b| < 44 || b[..4] != RIFF || b[8..12] != WAVE { return NotRiffWave; }
    var p, st := 12, NOTHING;
    WalkFindsAhead(b, 12, NOTHING);
    while p + 8 <= |b|
      invariant Walk(b, 12, NOTHING) == Walk(b, p, st)
      decreases |b| - p
    {
      var size := U32At(b, p + 4);
      st := TakeChunk(b, p, st);
      if Advance(size) == 0 { return NeverReturns; }
      p := p + Advance(size);
    }
    if st.channels == 0 || st.dataLen == 0 { return NoFmtOrData; }
    if st.bits != 24 { return Not24Bit(st.bits); }
    var dataLen := if st.dataOff + st.dataLen > |b| then |b| - st.dataOff else st.dataLen;
    var out := DecodeSamples(b, st.dataOff, dataLen);
    return Recording(out, st.channels, st.rate);
  }

  lemma AdvanceIsZeroFor(size: nat)
    requires size < TWO32
    ensures Advance(size) == 0 <==> size == 0xFFFF_FFF7 || size == 0xFFFF_FFF8
    ensures size <= TWO32 - 10 ==> Advance(size) == 8 + size + size % 2
  {}

  /** The chunk starts the walk visits, the last one being where it would stay. */
  ghost predicate Visits(b: seq<byte>, p: nat, q: nat)
    decreases |b| - p
  {
    p + 8 <= |b| && (p == q || (Advance(U32At(b, p + 4)) != 0 && Visits(b, p + Advance(U32At(b, p + 4)), q)))
  }

  /** A chunk that declares one of the two sizes whose advance wraps to zero. */
  ghost predicate Wraps(b: seq<byte>, q: nat) {
    q + 8 <= |b| && (U32At(b, q + 4) == 0xFFFF_FFF7 || U32At(b, q + 4) == 0xFFFF_FFF8)
  }

  lemma {:induction false} StuckExactly(b: seq<byte>, p: nat, st: Info)
    ensures Walk(b, p, st) == Stuck <==> exists q: nat :: Visits(b, p, q) && Wraps(b, q)
    decreases |b| - p
  {
    if p + 8 <= |b| {
      var size := U32At(b, p + 4);
      FromLeBound(b[p + 4..p + 8]);
      assert Pow256(4) == TWO32;
      AdvanceIsZeroFor(size);
      if Advance(size) == 0 {
        assert Visits(b, p, p) && Wraps(b, p);
      } else {
        var next := p + Advance(size);
        StuckExactly(b, next, TakeChunk(b, p, st));
        assert !Wraps(b, p);
        assert forall q: nat :: q != p ==> (Visits(b, p, q) <==> Visits(b, next, q));
        assert forall q: nat :: Visits(b, next, q) ==> q != p by { VisitsAhead(b, next); }
      }
    }
  }

  lemma {:induction false} VisitsAhead(b: seq<byte>, p: nat)
    ensures forall q: nat :: Visits(b, p, q) ==> q >= p
    decreases |b| - p
  {
    if p + 8 <= |b| && Advance(U32At(b, p + 4)) != 0 { VisitsAhead(b, p + Advance(U32At(b, p + 4))); }
  }

  /** The reader returns for every file except those whose walk meets a chunk of size 0xFFFFFFF7 or 0xFFFFFFF8. */
  lemma ReturnsExactly(b: seq<byte>)
    ensures Read(b) == NeverReturns <==> IsRiffWave(b) && exists q: nat :: Visits(b, 12, q) && Wraps(b, q)
  {
    StuckExactly(b, 12, NOTHING);
  }

  /** It happens: a file of 44 bytes whose only chunk, "junk", declares 0xFFFFFFF7 bytes. */
  lemma AFileThatNeverReturns(form: seq<byte>)
    requires |form| == 4
    ensures exists b :: |b| == 44 && LiesAt(b, 0, RIFF + form + WAVE) && Read(b) == NeverReturns
  {
    var junk: seq<byte> := [106, 117, 110, 107];
    var size: seq<byte> := [0xF7, 0xFF, 0xFF, 0xFF];
    var zeros: seq<byte> := seq(24, _ => 0);
    var b: seq<byte> := RIFF + form + WAVE + (junk + size + zeros);
    assert b[..4] == RIFF && b[8..12] == WAVE && b[0..12] == RIFF + form + WAVE;
    assert b[16..20] == size;
    assert FromLe(size) == 0xFFFF_FFF7 by {
      assert size[1..] == [0xFF, 0xFF, 0xFF] && size[1..][1..] == [0xFF, 0xFF] && size[1..][1..][1..] == [0xFF];
      assert size[1..][1..][1..][1..] == [];
    }
    assert Visits(b, 12, 12) && Wraps(b, 12);
    ReturnsExactly(b);
  }

  // ---- what may follow the chunks that matter -------------------------------------------------------------------

  ghost predicate IsFormat(b: seq<byte>, q: nat) { q + 24 <= |b| && b[q..q + 4] == FMT }
  ghost predicate IsData(b: seq<byte>, q: nat) { q + 8 <= |b| && b[q..q + 4] == DATA }

  ghost predicate SaysFormat(b: seq<byte>, q: nat, st: Info) {
    q + 24 <= |b| && U16At(b, q + 10) == st.channels && U32At(b, q + 12) == st.rate && U16At(b, q + 22) == st.bits
  }

  ghost predicate VisitsFormat(b: seq<byte>, p: nat, q: nat) { Visits(b, p, q) && IsFormat(b, q) }

  ghost predicate LastFormat(b: seq<byte>, p: nat, q: nat) {
    VisitsFormat(b, p, q) && forall r: nat :: VisitsFormat(b, p, r) ==> r <= q
  }

  /** No chunk start visited from `p` on declares a size that wraps, none is data, and the last that is a format
      says what `st` says. */
  ghost predicate RestIsHarmless(b: seq<byte>, p: nat, st: Info) {
    && (forall q: nat :: Visits(b, p, q) ==> !Wraps(b, q) && !IsData(b, q))
    && (forall q: nat :: LastFormat(b, p, q) ==> SaysFormat(b, q, st))
  }

  lemma VisitedFrom(b: seq<byte>, p: nat, next: nat)
    requires p + 8 <= |b| && Advance(U32At(b, p + 4)) != 0 && next == p + Advance(U32At(b, p + 4))
    ensures forall q: nat :: Visits(b, p, q) <==> q == p || Visits(b, next, q)
    ensures forall q: nat :: Visits(b, next, q) ==> q > p
    ensures !Wraps(b, p)
  {
    FromLeBound(b[p + 4..p + 8]);
    assert Pow256(4) == TWO32;
    AdvanceIsZeroFor(U32At(b, p + 4));
    VisitsAhead(b, next);
  }

  /** Where the last format is, seen from one chunk earlier. */
  lemma LastFormatFrom(b: seq<byte>, p: nat, next: nat)
    requires p + 8 <= |b| && Advance(U32At(b, p + 4)) != 0 && next == p + Advance(U32At(b, p + 4))
    ensures (exists q: nat :: VisitsFormat(b, next, q)) ==>
               forall q: nat :: LastFormat(b, p, q) <==> LastFormat(b, next, q)
    ensures !(exists q: nat :: VisitsFormat(b, next, q)) ==>
               forall q: nat :: LastFormat(b, p, q) <==> q == p && IsFormat(b, p)
  {
    VisitedFrom(b, p, next);
    hide Visits, IsFormat;
    assert forall q: nat :: VisitsFormat(b, p, q) <==> (q == p && IsFormat(b, p)) || VisitsFormat(b, next, q);
    if r: nat :| VisitsFormat(b, next, r) {
      forall q: nat
        ensures LastFormat(b, p, q) <==> LastFormat(b, next, q)
      {
        if LastFormat(b, p, q) { assert VisitsFormat(b, p, r); }
      }
    }
  }

  /** A walk ends with the findings `want` exactly when nothing on the way wraps or is data, and the last format, or
      else the findings so far, says what is wanted. */
  lemma {:induction false} WalkEndsWith(b: seq<byte>, p: nat, st: Info, want: Info)
    requires st.dataOff == want.dataOff < p + 8 && st.dataLen == want.dataLen
    ensures Walk(b, p, st) == Done(want) <==>
            RestIsHarmless(b, p, want) && ((exists q: nat :: VisitsFormat(b, p, q)) || st == want)
    decreases |b| - p
  {
    if p + 8 <= |b| {
      var step := Advance(U32At(b, p + 4));
      if step == 0 {
        FromLeBound(b[p + 4..p + 8]);
        assert Pow256(4) == TWO32;
        AdvanceIsZeroFor(U32At(b, p + 4));
        assert Visits(b, p, p) && Wraps(b, p);
      } else {
        var next, taken := p + step, TakeChunk(b, p, st);
        assert Visits(b, p, p);
        if IsData(b, p) {
          WalkFindsAhead(b, next, taken);
        } else {
          WalkEndsWith(b, next, taken, want);
          VisitedFrom(b, p, next);
          LastFormatFrom(b, p, next);
          OneMoreHarmless(b, p, next, st, taken, want);
        }
      }
    }
  }

  lemma OneMoreHarmless(b: seq<byte>, p: nat, next: nat, st: Info, taken: Info, want: Info)
    requires p + 8 <= |b| && !IsData(b, p) && !Wraps(b, p) && taken == TakeChunk(b, p, st)
    requires st.dataOff == want.dataOff && st.dataLen == want.dataLen
    requires forall q: nat :: Visits(b, p, q) <==> q == p || Visits(b, next, q)
    requires (exists q: nat :: VisitsFormat(b, next, q)) ==>
               forall q: nat :: LastFormat(b, p, q) <==> LastFormat(b, next, q)
    requires !(exists q: nat :: VisitsFormat(b, next, q)) ==>
               forall q: nat :: LastFormat(b, p, q) <==> q == p && IsFormat(b, p)
    ensures RestIsHarmless(b, next, want) && ((exists q: nat :: VisitsFormat(b, next, q)) || taken == want)
            <==> RestIsHarmless(b, p, want) && ((exists q: nat :: VisitsFormat(b, p, q)) || st == want)
  {
    hide Visits, Wraps, LastFormat, U16At, U32At;
    if q: nat :| VisitsFormat(b, next, q) {
      assert VisitsFormat(b, p, q);
    } else if IsFormat(b, p) {
      assert VisitsFormat(b, p, p);
      assert LastFormat(b, p, p);
      assert forall q: nat :: !LastFormat(b, next, q) by { NoLastFormat(b, next); }
    } else {
      forall q: nat
        ensures !VisitsFormat(b, p, q)
      {
        assert !VisitsFormat(b, next, q);
      }
      assert forall q: nat :: !LastFormat(b, next, q) by { NoLastFormat(b, next); }
    }
  }

  lemma NoLastFormat(b: seq<byte>, p: nat)
    requires !(exists q: nat :: VisitsFormat(b, p, q))
    ensures forall q: nat :: !LastFormat(b, p, q)
  {}

  // ---- any layout of chunks -------------------------------------------------------------------------------------

  datatype Chunk = Chunk(id: seq<byte>, body: seq<byte>)
  {
    /** A format chunk has all its fields; the size does not wrap the reader's sum. */
    ghost predicate Valid() {
      |id| == 4 && |body| <= TWO32 - 10 && (id == FMT ==> |body| >= 16)
    }
  }

  ghost predicate AllValid(cs: seq<Chunk>) { forall i :: 0 <= i < |cs| ==> cs[i].Valid() }

  function Padding(size: nat): seq<byte> { if size % 2 == 1 then [0] else [] }

  function Encode(c: Chunk): seq<byte> { c.id + Le(|c.body|, 4) + c.body + Padding(|c.body|) }

  function EncodeAll(cs: seq<Chunk>): seq<byte> { if cs == [] then [] else Encode(cs[0]) + EncodeAll(cs[1..]) }

  /** What a list of chunks says: the last format and the last data. */
  datatype Content = Content(channels: nat, rate: nat, bits: nat, data: seq<byte>)

  const EMPTY := Content(0, 0, 0, [])

  function Says(c: Chunk, to: Content): Content {
    if c.id == FMT && |c.body| >= 16
    then to.(channels := FromLe(c.body[2..4]), rate := FromLe(c.body[4..8]), bits := FromLe(c.body[14..16]))
    else if c.id == DATA then to.(data := c.body)
    else to
  }

  function SaysAll(cs: seq<Chunk>, to: Content): Content
  {
    if cs == [] then to else SaysAll(cs[1..], Says(cs[0], to))
  }

  function Outcomes(k: Content): Outcome { Verdict(k.channels, k.rate, k.bits, |k.data|, k.data) }

  /** The walk's findings are the chunks' content. `declared` data bytes may be more than the file still holds. */
  ghost predicate Agrees(b: seq<byte>, st: Info, k: Content) {
    && st.channels == k.channels && st.rate == k.rate && st.bits == k.bits
    && st.dataOff <= |b| && DataIn(b, st) == k.data && (st.dataLen == 0 <==> k.data == [])
  }

  ghost predicate LiesAt(b: seq<byte>, p: nat, x: seq<byte>) { p + |x| <= |b| && b[p..p + |x|] == x }

  /** The bytes at `p`: a chunk whose header declares `size` bytes, with `body` there. */
  ghost predicate ChunkAt(b: seq<byte>, p: nat, id: seq<byte>, size: nat, body: seq<byte>) {
    && |id| == 4 && |body| <= size <= TWO32 - 10
    && LiesAt(b, p, id) && LiesAt(b, p + 4, Le(size, 4)) && LiesAt(b, p + 8, body)
  }

  lemma Within(b: seq<byte>, p: nat, q: nat, i: nat, j: nat)
    requires p <= q <= |b| && i <= j <= q - p
    ensures b[p..q][i..j] == b[p + i..p + j]
  {
    assert |b[p..q][i..j]| == |b[p + i..p + j]|;
    assert forall k :: 0 <= k < j - i ==> b[p..q][i..j][k] == b[p + i..p + j][k];
  }

  /** A concatenation found in a file is its parts found one after the other. */
  lemma Apart(b: seq<byte>, p: nat, x: seq<byte>, y: seq<byte>)
    requires LiesAt(b, p, x + y)
    ensures LiesAt(b, p, x) && LiesAt(b, p + |x|, y)
  {
    Within(b, p, p + |x + y|, 0, |x|);
    Within(b, p, p + |x + y|, |x|, |x + y|);
    assert (x + y)[0..|x|] == x && (x + y)[|x|..|x + y|] == y;
  }

  lemma VisitChunk(b: seq<byte>, p: nat, c: Chunk, size: nat, st: Info, k: Content)
    requires ChunkAt(b, p, c.id, size, c.body) && (c.id == FMT ==> |c.body| >= 16)
    requires size == |c.body| || (p + 8 + |c.body| == |b| && c.body != [])
    requires Agrees(b, st, k)
    ensures Agrees(b, TakeChunk(b, p, st), Says(c, k))
  {
    SizeIs(b, p, c.id, size, c.body);
    if c.id == FMT {
      Within(b, p + 8, p + 8 + |c.body|, 2, 4);
      Within(b, p + 8, p + 8 + |c.body|, 4, 8);
      Within(b, p + 8, p + 8 + |c.body|, 14, 16);
    }
  }

  lemma SizeIs(b: seq<byte>, p: nat, id: seq<byte>, size: nat, body: seq<byte>)
    requires ChunkAt(b, p, id, size, body)
    ensures U32At(b, p + 4) == size && Advance(size) == 8 + size + size % 2
  {
    FieldRoundTrip(size);
    AdvanceIsZeroFor(size);
  }

  lemma ChunkFits(b: seq<byte>, p: nat, id: seq<byte>, size: nat, body: seq<byte>)
    requires ChunkAt(b, p, id, size, body)
    ensures p + 8 + |body| <= |b|
  {}

  lemma WalkStep(b: seq<byte>, p: nat, id: seq<byte>, size: nat, body: seq<byte>, st: Info)
    requires ChunkAt(b, p, id, size, body)
    ensures Walk(b, p, st) == Walk(b, p + 8 + size + size % 2, TakeChunk(b, p, st))
  {
    hide ChunkAt, TakeChunk, Le, FromLe, U32At, Advance;
    ChunkFits(b, p, id, size, body);
    SizeIs(b, p, id, size, body);
  }

  lemma EncodedAt(b: seq<byte>, p: nat, c: Chunk)
    requires c.Valid() && LiesAt(b, p, Encode(c))
    ensures ChunkAt(b, p, c.id, |c.body|, c.body) && |Encode(c)| == 8 + |c.body| + |c.body| % 2
  {
    var size := Le(|c.body|, 4);
    Apart(b, p, c.id + size + c.body, Padding(|c.body|));
    Apart(b, p, c.id + size, c.body);
    Apart(b, p, c.id, size);
  }

  lemma LiesWithin(b: seq<byte>, p: nat, x: seq<byte>)
    requires LiesAt(b, p, x)
    ensures p + |x| <= |b|
  {}

  lemma WalkOne(b: seq<byte>, p: nat, c: Chunk, rest: seq<byte>, st: Info, k: Content)
    requires c.Valid() && LiesAt(b, p, Encode(c) + rest) && Agrees(b, st, k)
    ensures p + 8 <= |b|
    ensures LiesAt(b, p + |Encode(c)|, rest) && Agrees(b, TakeChunk(b, p, st), Says(c, k))
    ensures Walk(b, p, st) == Walk(b, p + |Encode(c)|, TakeChunk(b, p, st))
  {
    hide LiesAt, Agrees, TakeChunk, Says, Walk, Encode, Le;
    Apart(b, p, Encode(c), rest);
    EncodedAt(b, p, c);
    LiesWithin(b, p, Encode(c));
    VisitChunk(b, p, c, |c.body|, st, k);
    WalkStep(b, p, c.id, |c.body|, c.body, st);
  }

  lemma {:induction false} WalkChunks(b: seq<byte>, p: nat, cs: seq<Chunk>, st: Info, k: Content, end: nat, w: Walked)
    returns (after: Info)
    requires AllValid(cs) && LiesAt(b, p, EncodeAll(cs)) && Agrees(b, st, k)
    requires end == p + |EncodeAll(cs)| && w == Walk(b, p, st)
    ensures Agrees(b, after, SaysAll(cs, k)) && w == Walk(b, end, after)
    decreases |cs|
  {
    after := st;
    hide Says, TakeChunk, Agrees, Encode, Walk, LiesAt;
    if cs != [] {
      var c := cs[0];
      assert EncodeAll(cs) == Encode(c) + EncodeAll(cs[1..]);
      WalkOne(b, p, c, EncodeAll(cs[1..]), st, k);
      after := WalkChunks(b, p + |Encode(c)|, cs[1..], TakeChunk(b, p, st), Says(c, k), end, w);
    }
  }

  function Bare(c: Chunk, declared: nat): (s: seq<byte>)
    ensures |s| == |c.id| + 4 + |c.body|
  {
    c.id + Le(declared, 4) + c.body
  }

  /** A file of chunks. The last may lack its padding, and may be cut short of the size it declares. */
  function File(form: seq<byte>, cs: seq<Chunk>, last: Chunk, declared: nat): seq<byte> {
    FileHead(form) + (EncodeAll(cs) + Bare(last, declared))
  }

  lemma FileParts(form: seq<byte>, cs: seq<Chunk>, last: Chunk, declared: nat)
    requires |form| == 4 && last.Valid() && |last.body| <= declared <= TWO32 - 10
    ensures var b, p := File(form, cs, last, declared), 12 + |EncodeAll(cs)|;
            && p + 8 + |last.body| == |b| && b[..4] == RIFF && b[8..12] == WAVE && LiesAt(b, 12, EncodeAll(cs))
            && ChunkAt(b, p, last.id, declared, last.body)
  {
    var b, all, e := File(form, cs, last, declared), EncodeAll(cs), Bare(last, declared);
    hide LiesAt, ChunkAt, FileHead, EncodeAll, Bare, Le;
    assert LiesAt(b, 0, FileHead(form) + (all + e)) by { WholeLiesAt(b); }
    Apart(b, 0, FileHead(form), all + e);
    HeadAt(b, form);
    Apart(b, 12, all, e);
    BareAt(b, 12 + |all|, last, declared);
  }

  lemma WholeLiesAt(b: seq<byte>)
    ensures LiesAt(b, 0, b)
  {
    assert b[0..|b|] == b;
  }

  lemma HeadAt(b: seq<byte>, form: seq<byte>)
    requires |form| == 4 && LiesAt(b, 0, FileHead(form))
    ensures |FileHead(form)| == 12 <= |b| && b[..4] == RIFF && b[8..12] == WAVE
  {
    Apart(b, 0, RIFF + form, WAVE);
    Apart(b, 0, RIFF, form);
  }

  lemma BareAt(b: seq<byte>, p: nat, c: Chunk, declared: nat)
    requires c.Valid() && |c.body| <= declared <= TWO32 - 10 && LiesAt(b, p, Bare(c, declared))
    ensures ChunkAt(b, p, c.id, declared, c.body)
  {
    var size := Le(declared, 4);
    Apart(b, p, c.id + size, c.body);
    Apart(b, p, c.id, size);
  }

  /** The reader sees through any layout: whatever chunks come in whatever order, it finds the last format and the
      last data, even if the file was cut off inside its last chunk. */
  lemma ReadsAnyLayout(form: seq<byte>, cs: seq<Chunk>, last: Chunk, declared: nat)
    requires |form| == 4 && AllValid(cs) && last.Valid()
    requires declared == |last.body| || (last.body != [] && |last.body| <= declared <= TWO32 - 10)
    requires |File(form, cs, last, declared)| >= 44
    ensures Read(File(form, cs, last, declared)) == Outcomes(Says(last, SaysAll(cs, EMPTY)))
  {
    var b, p, k := File(form, cs, last, declared), 12 + |EncodeAll(cs)|, SaysAll(cs, EMPTY);
    assert Agrees(b, NOTHING, EMPTY);
    hide FromLe, Le, Says, SaysAll, TakeChunk, EncodeAll, File, Walk, Agrees, DataIn, Verdict;
    FileParts(form, cs, last, declared);
    var st := WalkChunks(b, 12, cs, NOTHING, EMPTY, p, Walk(b, 12, NOTHING));
    VisitChunk(b, p, last, declared, st, k);
    SizeIs(b, p, last.id, declared, last.body);
    WalkEnds(b, p, st, declared);
    AgreedVerdict(b, TakeChunk(b, p, st), Says(last, k));
  }

  lemma WalkEnds(b: seq<byte>, p: nat, st: Info, declared: nat)
    requires p + 8 <= |b| <= p + 8 + declared
    requires U32At(b, p + 4) == declared && Advance(declared) >= 8 + declared
    ensures Walk(b, p, st) == Done(TakeChunk(b, p, st))
  {}

  lemma AgreedVerdict(b: seq<byte>, st: Info, k: Content)
    requires Agrees(b, st, k)
    ensures Verdict(st.channels, st.rate, st.bits, st.dataLen, DataIn(b, st)) == Outcomes(k)
  {}

  lemma {:induction false} SaysInTwoParts(a: seq<Chunk>, c: Chunk, rest: seq<Chunk>, k: Content)
    ensures SaysAll(a + [c] + rest, k) == SaysAll(rest, Says(c, SaysAll(a, k)))
    ensures SaysAll(a + rest, k) == SaysAll(rest, SaysAll(a, k))
    decreases |a|
  {
    var whole := a + [c] + rest;
    if a == [] {
      assert whole == [c] + rest && a + rest == rest && whole[1..] == rest;
    } else {
      assert whole[1..] == a[1..] + [c] + rest && (a + rest)[1..] == a[1..] + rest;
      SaysInTwoParts(a[1..], c, rest, Says(a[0], k));
    }
  }

  /** Chunks the reader does not know, wherever another program put them, change nothing. */
  lemma ForeignChunksDoNotMatter(form: seq<byte>, a: seq<Chunk>, c: Chunk, rest: seq<Chunk>, last: Chunk)
    requires |form| == 4 && AllValid(a) && c.Valid() && AllValid(rest) && last.Valid()
    requires c.id != FMT && c.id != DATA
    requires |File(form, a + rest, last, |last.body|)| >= 44 && |File(form, a + [c] + rest, last, |last.body|)| >= 44
    ensures Read(File(form, a + [c] + rest, last, |last.body|)) == Read(File(form, a + rest, last, |last.body|))
  {
    SaysInTwoParts(a, c, rest, EMPTY);
    ReadsAnyLayout(form, a + [c] + rest, last, |last.body|);
    ReadsAnyLayout(form, a + rest, last, |last.body|);
  }

  // ---- writing, then reading ------------------------------------------------------------------------------------

  /** The low 24 bits, sign-extended. */
  function Low24(s: i32): i32 { Extended(T.Unsigned(s) % TWO24) }

  lemma Low24IsIdentityOn24Bits(s: i32)
    ensures Low24(s) == s <==> -0x80_0000 <= s < 0x80_0000
  {}

  function Low24s(samples: seq<i32>): (s: seq<i32>)
    ensures |s| == |samples|
  {
    seq(|samples|, i requires 0 <= i < |samples| => Low24(samples[i]))
  }

  predicate All24Bit(samples: seq<i32>) { forall i :: 0 <= i < |samples| ==> -0x80_0000 <= samples[i] < 0x80_0000 }

  lemma Low24sIdentity(samples: seq<i32>)
    ensures Low24s(samples) == samples <==> All24Bit(samples)
  {
    forall i | 0 <= i < |samples|
      ensures Low24s(samples)[i] == samples[i] <==> -0x80_0000 <= samples[i] < 0x80_0000
    {
      Low24IsIdentityOn24Bits(samples[i]);
    }
    if Low24s(samples) == samples {
      assert forall i :: 0 <= i < |samples| ==> Low24s(samples)[i] == samples[i];
    }
  }

  lemma {:induction false} PcmAt(samples: seq<i32>, i: nat)
    requires i < |samples|
    ensures Pcm(samples, 3)[3 * i..3 * i + 3] == Le(T.Unsigned(samples[i]), 3)
  {
    var front := samples[..|samples| - 1];
    if i < |front| {
      PcmAt(front, i);
      assert Pcm(samples, 3)[3 * i..3 * i + 3] == Pcm(front, 3)[3 * i..3 * i + 3];
    }
  }

  lemma LowThreeBytes(v: nat)
    ensures FromLe(Le(v, 3)) == v % TWO24
  {
    var s := Le(v, 3);
    assert s == [v % 256, v / 256 % 256, v / 256 / 256 % 256] by {
      assert Le(v, 3) == [v % 256] + Le(v / 256, 2);
      assert Le(v / 256, 2) == [v / 256 % 256] + Le(v / 256 / 256, 1);
      assert Le(v / 256 / 256, 1) == [v / 256 / 256 % 256] + Le(v / 256 / 256 / 256, 0);
    }
    ThreeBytes(s);
    Digits(v, v / 256, v / 256 / 256, v / 256 / 256 / 256);
  }

  lemma Digits(v: nat, a: nat, b: nat, c: nat)
    requires a == v / 256 && b == a / 256 && c == b / 256
    ensures v % 256 + 256 * (a % 256) + 0x1_0000 * (b % 256) == v % TWO24
  {
    var r0, r1, r2 := v - 256 * a, a - 256 * b, b - 256 * c;
    assert v % 256 == r0 && a % 256 == r1 && b % 256 == r2;
    LowDigits(v, c, r0 + 256 * r1 + 0x1_0000 * r2);
  }

  lemma LowDigits(v: nat, high: nat, low: nat)
    requires v == TWO24 * high + low && low < TWO24
    ensures v % TWO24 == low
  {}

  lemma DecodedPcm(samples: seq<i32>)
    ensures Decoded(Pcm(samples, 3)) == Low24s(samples)
  {
    forall i | 0 <= i < |samples|
      ensures SampleIn(Pcm(samples, 3), i) == Low24(samples[i])
    {
      PcmAt(samples, i);
      LowThreeBytes(T.Unsigned(samples[i]));
    }
  }

  lemma OneEncoded(c: Chunk)
    ensures EncodeAll([c]) == Encode(c)
  {
    assert [c][1..] == [];
    assert EncodeAll([c]) == Encode(c) + EncodeAll([]);
  }

  lemma TwoChunks(form: seq<byte>, f: seq<byte>, data: seq<byte>)
    requires |f| % 2 == 0
    ensures FileHead(form) + (FMT + Le(|f|, 4) + f + (DATA + Le(|data|, 4))) + data
            == File(form, [Chunk(FMT, f)], Chunk(DATA, data), |data|)
  {
    var fmt, c := FMT + Le(|f|, 4) + f, Chunk(FMT, f);
    OneEncoded(c);
    assert Encode(c) == fmt;
    Assoc(FileHead(form), fmt + (DATA + Le(|data|, 4)), data);
    Assoc(fmt, DATA + Le(|data|, 4), data);
  }

  /** The written file is one format chunk and one data chunk without padding. */
  lemma WrittenIsTwoChunks(samples: seq<i32>, rate: nat, channels: nat, bits: nat, data: seq<byte>)
    requires data == Pcm(samples, bits / 8) && |data| == |samples| * (bits / 8) % TWO32
    ensures Written(samples, rate, channels, bits)
            == File(Le((36 + |data|) % TWO32, 4), [Chunk(FMT, Format(rate, channels, bits))], Chunk(DATA, data), |data|)
  {
    TwoChunks(Le((36 + |data|) % TWO32, 4), Format(rate, channels, bits), data);
  }

  lemma FormatFields(rate: nat, channels: nat, bits: nat)
    requires rate < TWO32 && channels < TWO16 && bits < TWO16
    ensures var f := Format(rate, channels, bits);
            FromLe(f[2..4]) == channels && FromLe(f[4..8]) == rate && FromLe(f[14..16]) == bits
  {
    var f := Format(rate, channels, bits);
    assert f[2..4] == Le(channels, 2) && f[4..8] == Le(rate, 4) && f[14..16] == Le(bits, 2);
    FieldRoundTrip(channels);
    FieldRoundTrip(rate);
    FieldRoundTrip(bits);
  }

  /** What comes back from a file whose size field and chunk advance fit 32 bits: each sample cut to 24 bits, or the
      reason the reader gives. */
  lemma ReadWritten(samples: seq<i32>, rate: nat, channels: nat, bits: nat)
    requires rate < TWO32 && channels < TWO16 && bits < 40
    requires |samples| * (bits / 8) <= TWO32 - 10
    ensures Read(Written(samples, rate, channels, bits)) ==
            if channels == 0 || |samples| == 0 || bits < 8 then NoFmtOrData
            else if bits != 24 then Not24Bit(bits)
            else Recording(Low24s(samples), channels, rate)
  {
    hide FromLe, Le, Pow256, Written, File, Read;
    var width := bits / 8;
    var data, fmt := Pcm(samples, width), Chunk(FMT, Format(rate, channels, bits));
    assert |data| == 0 <==> |samples| == 0 || width == 0 by { NoBytes(|samples|, width); }
    WrittenIsTwoChunks(samples, rate, channels, bits, data);
    ReadsAnyLayout(Le((36 + |data|) % TWO32, 4), [fmt], Chunk(DATA, data), |data|);
    FormatFields(rate, channels, bits);
    assert SaysAll([fmt], EMPTY) == SaysAll([fmt][1..], Says(fmt, EMPTY)) == Says(fmt, EMPTY);
    if bits == 24 { DecodedPcm(samples); }
  }

  lemma NoBytes(n: nat, width: nat)
    ensures n * width == 0 <==> n == 0 || width == 0
  {}

  /** The first two steps of the walk over any written file, whatever its length. */
  lemma WalkWritten(samples: seq<i32>, rate: nat, channels: nat, bits: nat, b: seq<byte>, dataLen: nat)
    requires rate < TWO32 && channels < TWO16 && bits < 40 && b == Written(samples, rate, channels, bits)
    requires dataLen == |samples| * (bits / 8) % TWO32
    ensures IsRiffWave(b) && |b| == 44 + |samples| * (bits / 8)
    ensures Walk(b, 12, NOTHING) == if Advance(dataLen) == 0 then Stuck
                                    else Walk(b, 36 + Advance(dataLen), Info(channels, rate, bits, 44, dataLen))
  {
    hide Le, Format, FormatChunk, Pcm, Header, Walk, FromLe, IsRiffWave;
    var h, pcm := Header(rate, channels, bits, dataLen), Pcm(samples, bits / 8);
    assert b == h + pcm && b[0..|b|] == b;
    HeaderParts(b, rate, channels, bits, dataLen, pcm);
    assert |b| >= 44 && bits < TWO16;
    hide *;
    FormatThenData(b, rate, channels, bits, dataLen);
  }

  lemma HeaderParts(b: seq<byte>, rate: nat, channels: nat, bits: nat, dataLen: nat, pcm: seq<byte>)
    requires LiesAt(b, 0, Header(rate, channels, bits, dataLen) + pcm)
    ensures IsRiffWave(b) && LiesAt(b, 4, Le((36 + dataLen) % TWO32, 4))
    ensures LiesAt(b, 12, FormatChunk(rate, channels, bits)) && LiesAt(b, 36, DATA) && LiesAt(b, 40, Le(dataLen, 4))
  {
    var head, f, tail := RiffHead(dataLen), FormatChunk(rate, channels, bits), DATA + Le(dataLen, 4);
    var size := Le((36 + dataLen) % TWO32, 4);
    Apart(b, 0, Header(rate, channels, bits, dataLen), pcm);
    Apart(b, 0, head, f + tail);
    Apart(b, 12, f, tail);
    Apart(b, 36, DATA, Le(dataLen, 4));
    HeadAt(b, size);
    Apart(b, 0, RIFF + size, WAVE);
    Apart(b, 0, RIFF, size);
  }

  lemma FieldParts(b: seq<byte>, channels: nat, rate: nat, byteRate: nat, align: nat, bits: nat)
    requires LiesAt(b, 20, Fields(channels, rate, byteRate, align, bits))
    ensures LiesAt(b, 20, Le(1, 2)) && LiesAt(b, 22, Le(channels, 2)) && LiesAt(b, 24, Le(rate, 4))
    ensures LiesAt(b, 28, Le(byteRate, 4)) && LiesAt(b, 32, Le(align, 2)) && LiesAt(b, 34, Le(bits, 2))
  {
    hide Le, LiesAt;
    var f1 := Le(1, 2) + Le(channels, 2);
    var f2 := f1 + Le(rate, 4);
    var f3 := f2 + Le(byteRate, 4);
    var f4 := f3 + Le(align, 2);
    Apart(b, 20, f4, Le(bits, 2));
    Apart(b, 20, f3, Le(align, 2));
    Apart(b, 20, f2, Le(byteRate, 4));
    Apart(b, 20, f1, Le(rate, 4));
    Apart(b, 20, Le(1, 2), Le(channels, 2));
  }

  lemma FormatParts(b: seq<byte>, f: seq<byte>)
    requires |f| == 16 && LiesAt(b, 12, FMT + Le(|f|, 4) + f)
    ensures LiesAt(b, 12, FMT) && LiesAt(b, 16, Le(16, 4)) && LiesAt(b, 20, f)
  {
    hide Le, LiesAt;
    Apart(b, 12, FMT + Le(|f|, 4), f);
    Apart(b, 12, FMT, Le(|f|, 4));
  }

  lemma FieldAt(b: seq<byte>, p: nat, v: nat)
    ensures v < TWO16 && LiesAt(b, p, Le(v, 2)) ==> U16At(b, p) == v
    ensures v < TWO32 && LiesAt(b, p, Le(v, 4)) ==> U32At(b, p) == v
  {
    FieldRoundTrip(v);
  }

  /** The header tells the truth about the file: both size fields are the file's own length, and the derived fields
      are what the format makes them, whenever they fit their widths. */
  lemma HeaderDescribesTheFile(samples: seq<i32>, rate: nat, channels: nat, bits: nat, b: seq<byte>, align: nat,
      byteRate: nat)
    requires b == Written(samples, rate, channels, bits) && align == channels * (bits / 8) && byteRate == rate * align
    requires channels < TWO16 && bits < 40 && align < TWO16 && byteRate < TWO32 && rate < TWO32 && |b| - 8 < TWO32
    ensures |b| == 44 + |samples| * (bits / 8) && IsRiffWave(b)
    ensures U32At(b, 4) == |b| - 8 && U32At(b, 40) == |b| - 44
    ensures b[12..16] == FMT && U32At(b, 16) == 16 && U16At(b, 20) == 1 && b[36..40] == DATA
    ensures U16At(b, 22) == channels && U32At(b, 24) == rate && U16At(b, 34) == bits
    ensures U16At(b, 32) == align && U32At(b, 28) == byteRate
  {
    hide FromLe, Le, Pcm, Format, FormatChunk, Fields, Header, IsRiffWave, Written, LiesAt, U16At, U32At;
    var dataLen := |b| - 44;
    WrittenStarts(samples, rate, channels, bits, b, dataLen);
    HeaderParts(b, rate, channels, bits, dataLen, Pcm(samples, bits / 8));
    FormatIsFields(rate, channels, bits, align, byteRate);
    ReadFields(b, dataLen, channels, rate, byteRate, align, bits);
  }

  lemma WrittenStarts(samples: seq<i32>, rate: nat, channels: nat, bits: nat, b: seq<byte>, dataLen: nat)
    requires b == Written(samples, rate, channels, bits) && dataLen == |b| - 44 < TWO32
    ensures LiesAt(b, 0, Header(rate, channels, bits, dataLen) + Pcm(samples, bits / 8))
  {
    hide Header, Pcm;
    assert b[0..|b|] == b;
  }

  lemma FormatIsFields(rate: nat, channels: nat, bits: nat, align: nat, byteRate: nat)
    requires align == channels * (bits / 8) < TWO16 && byteRate == rate * align < TWO32
    ensures FormatChunk(rate, channels, bits) == FMT + Le(16, 4) + Fields(channels, rate, byteRate, align, bits)
  {
    hide Fields, Le;
  }

  lemma ReadFields(b: seq<byte>, dataLen: nat, channels: nat, rate: nat, byteRate: nat, align: nat, bits: nat)
    requires |b| == 44 + dataLen && 36 + dataLen < TWO32
    requires channels < TWO16 && rate < TWO32 && byteRate < TWO32 && align < TWO16 && bits < TWO16
    requires LiesAt(b, 4, Le((36 + dataLen) % TWO32, 4)) && LiesAt(b, 36, DATA) && LiesAt(b, 40, Le(dataLen, 4))
    requires LiesAt(b, 12, FMT + Le(16, 4) + Fields(channels, rate, byteRate, align, bits))
    ensures U32At(b, 4) == |b| - 8 && U32At(b, 40) == |b| - 44
    ensures b[12..16] == FMT && U32At(b, 16) == 16 && U16At(b, 20) == 1 && b[36..40] == DATA
    ensures U16At(b, 22) == channels && U32At(b, 24) == rate && U16At(b, 34) == bits
    ensures U16At(b, 32) == align && U32At(b, 28) == byteRate
  {
    hide Le, Fields, U16At, U32At;
    FormatParts(b, Fields(channels, rate, byteRate, align, bits));
    FieldParts(b, channels, rate, byteRate, align, bits);
    FieldAt(b, 4, 36 + dataLen);
    FieldAt(b, 40, dataLen);
    FieldAt(b, 16, 16);
    FieldAt(b, 20, 1);
    FieldAt(b, 22, channels);
    FieldAt(b, 24, rate);
    FieldAt(b, 28, byteRate);
    FieldAt(b, 32, align);
    FieldAt(b, 34, bits);
  }

  lemma FormatThenData(b: seq<byte>, rate: nat, channels: nat, bits: nat, dataLen: nat)
    requires rate < TWO32 && channels < TWO16 && bits < TWO16 && dataLen < TWO32 && |b| >= 44
    requires LiesAt(b, 12, FormatChunk(rate, channels, bits)) && LiesAt(b, 36, DATA) && LiesAt(b, 40, Le(dataLen, 4))
    ensures var st := Info(channels, rate, bits, 44, dataLen);
            Walk(b, 12, NOTHING) == if Advance(dataLen) == 0 then Stuck else Walk(b, 36 + Advance(dataLen), st)
  {
    FormatFirst(b, rate, channels, bits, Chunk(FMT, Format(rate, channels, bits)));
    DataNext(b, Info(channels, rate, bits, 0, 0), dataLen);
  }

  lemma NothingAgrees(b: seq<byte>)
    ensures Agrees(b, NOTHING, EMPTY)
  {}

  lemma FormatFirst(b: seq<byte>, rate: nat, channels: nat, bits: nat, f: Chunk)
    requires rate < TWO32 && channels < TWO16 && bits < TWO16 && |b| >= 44
    requires f == Chunk(FMT, Format(rate, channels, bits)) && LiesAt(b, 12, FormatChunk(rate, channels, bits))
    ensures Walk(b, 12, NOTHING) == Walk(b, 36, Info(channels, rate, bits, 0, 0))
  {
    hide Le, FromLe, Format, Walk, LiesAt;
    assert Encode(f) + [] == Encode(f) == FormatChunk(rate, channels, bits);
    NothingAgrees(b);
    hide FormatChunk, Encode, Agrees, ChunkAt, Says;
    FormatFields(rate, channels, bits);
    EncodedAt(b, 12, f);
    WalkOne(b, 12, f, [], NOTHING, EMPTY);
    TakenFormat(b, rate, channels, bits, f, NOTHING);
  }

  lemma TakenFormat(b: seq<byte>, rate: nat, channels: nat, bits: nat, f: Chunk, st: Info)
    requires f.id == FMT && |f.body| == 16 && ChunkAt(b, 12, f.id, 16, f.body) && st == NOTHING
    requires FromLe(f.body[2..4]) == channels && FromLe(f.body[4..8]) == rate && FromLe(f.body[14..16]) == bits
    ensures TakeChunk(b, 12, st) == Info(channels, rate, bits, 0, 0)
  {
    hide FromLe;
    Within(b, 20, 36, 2, 4);
    Within(b, 20, 36, 4, 8);
    Within(b, 20, 36, 14, 16);
  }

  lemma DataNext(b: seq<byte>, st: Info, dataLen: nat)
    requires |b| >= 44 && dataLen < TWO32 && LiesAt(b, 36, DATA) && LiesAt(b, 40, Le(dataLen, 4))
    ensures Walk(b, 36, st)
            == if Advance(dataLen) == 0 then Stuck
               else Walk(b, 36 + Advance(dataLen), st.(dataOff := 44, dataLen := dataLen))
  {
    hide FromLe, Le, U16At, U32At, Advance;
    FieldAt(b, 40, dataLen);
    TakenData(b, st);
    hide TakeChunk;
  }

  lemma TakenData(b: seq<byte>, st: Info)
    requires |b| >= 44 && LiesAt(b, 36, DATA)
    ensures TakeChunk(b, 36, st) == st.(dataOff := 44, dataLen := U32At(b, 40))
  {
    hide FromLe;
    assert b[36..40] == DATA;
    assert DATA[0] != FMT[0];
  }

  /** What reading a written file gives beyond that, where the advance past the data wraps: nothing when it wraps to
      zero, and the bytes the wrapped size still covers when what the walk then lands on is harmless; and only then
      are the header's own findings the last word. */
  lemma ReadLongWritten(samples: seq<i32>, rate: nat, channels: nat, bits: nat, data: seq<byte>, b: seq<byte>, st: Info)
    requires rate < TWO32 && channels < TWO16 && bits < 40
    requires data == Pcm(samples, bits / 8) && b == Written(samples, rate, channels, bits)
    requires st == Info(channels, rate, bits, 44, |data| % TWO32) && st.dataLen <= |data|
    ensures Advance(st.dataLen) == 0 ==> Read(b) == NeverReturns
    ensures Advance(st.dataLen) != 0 && RestIsHarmless(b, 36 + Advance(st.dataLen), st) ==>
              Read(b) == Verdict(channels, rate, bits, st.dataLen, data[..st.dataLen])
    ensures Walk(b, 12, NOTHING) == Done(st) <==>
            Advance(st.dataLen) != 0 && RestIsHarmless(b, 36 + Advance(st.dataLen), st)
  {
    hide Written, Read, Verdict, Walk, DataIn, Pcm, Advance, RestIsHarmless, IsRiffWave;
    WalkWritten(samples, rate, channels, bits, b, st.dataLen);
    DataOfWritten(samples, rate, channels, bits, b, st);
    ReadAfterHeader(b, st, 36 + Advance(st.dataLen));
  }

  /** What the reader makes of a file whose first two chunks have said `st`. */
  lemma ReadAfterHeader(b: seq<byte>, st: Info, p: nat)
    requires IsRiffWave(b) && st.dataOff == 44 && p == 36 + Advance(st.dataLen)
    requires Walk(b, 12, NOTHING) == if Advance(st.dataLen) == 0 then Stuck else Walk(b, p, st)
    ensures Advance(st.dataLen) == 0 ==> Read(b) == NeverReturns
    ensures Advance(st.dataLen) != 0 && RestIsHarmless(b, p, st) ==>
              Read(b) == Verdict(st.channels, st.rate, st.bits, st.dataLen, DataIn(b, st))
    ensures Walk(b, 12, NOTHING) == Done(st) <==> Advance(st.dataLen) != 0 && RestIsHarmless(b, p, st)
  {
    hide Walk, DataIn, IsRiffWave, Advance, RestIsHarmless;
    if Advance(st.dataLen) != 0 {
      AdvancesFar(st.dataLen);
      WalkEndsWith(b, p, st, st);
    }
  }

  lemma AdvancesFar(size: nat)
    ensures Advance(size) == 0 || Advance(size) >= 2
    ensures size < TWO32 && size % 3 == 0 ==> Advance(size) != 0
  {}

  lemma DataOfWritten(samples: seq<i32>, rate: nat, channels: nat, bits: nat, b: seq<byte>, st: Info)
    requires b == Written(samples, rate, channels, bits)
    requires st.dataOff == 44 && st.dataLen <= |samples| * (bits / 8)
    ensures DataIn(b, st) == Pcm(samples, bits / 8)[..st.dataLen]
  {
    hide Pcm, Header;
  }

  /** For every recording of 24-bit samples with at least one channel and one sample: the reader gives back what was
      written if the data is at most 2^32 - 10 bytes, never if it is 2^32 bytes or more, and for the three lengths
      in between exactly if none of the chunk starts the wrapped sum then leads to declares a wrapping size or data,
      and the last format among them repeats the first. */
  lemma RoundTripExactly(samples: seq<i32>, rate: nat, channels: nat, b: seq<byte>, n: nat)
    requires rate < TWO32 && 1 <= channels < TWO16 && |samples| >= 1 && All24Bit(samples)
    requires b == Written(samples, rate, channels, 24) && n == 3 * |samples|
    ensures Read(b) == Recording(samples, channels, rate) <==>
            || n <= TWO32 - 10
            || (n < TWO32 && RestIsHarmless(b, 36 + Advance(n), Info(channels, rate, 24, 44, n)))
  {
    hide Written, Read, RestIsHarmless, Low24s;
    if n <= TWO32 - 10 {
      Low24sIdentity(samples);
      ReadWritten(samples, rate, channels, 24);
    } else {
      WrappedRoundTrip(samples, rate, channels, b, n, Info(channels, rate, 24, 44, n % TWO32));
    }
  }

  lemma WrappedRoundTrip(samples: seq<i32>, rate: nat, channels: nat, b: seq<byte>, n: nat, st: Info)
    requires rate < TWO32 && 1 <= channels < TWO16 && All24Bit(samples) && TWO32 - 10 < n == 3 * |samples|
    requires b == Written(samples, rate, channels, 24) && st == Info(channels, rate, 24, 44, n % TWO32)
    ensures Read(b) == Recording(samples, channels, rate)
            <==> n < TWO32 && RestIsHarmless(b, 36 + Advance(st.dataLen), st)
  {
    hide Written, Read, Walk, Decoded, DataIn, Advance, RestIsHarmless, IsRiffWave, All24Bit;
    WalkWritten(samples, rate, channels, 24, b, st.dataLen);
    AdvancesFar(st.dataLen);
    var p := 36 + Advance(st.dataLen);
    if n < TWO32 {
      WholeDataBack(samples, rate, channels, b, st);
      if RestIsHarmless(b, p, st) { ReadAfterHeader(b, st, p); }
    }
    if Read(b) == Recording(samples, channels, rate) { OnlyHarmless(samples, b, n, st, p); }
  }

  lemma OnlyHarmless(samples: seq<i32>, b: seq<byte>, n: nat, st: Info, p: nat)
    requires IsRiffWave(b) && |b| == 44 + n && n == 3 * |samples| && p == 36 + Advance(st.dataLen)
    requires st.dataOff == 44 && st.dataLen == n % TWO32 && st.bits == 24
    requires Walk(b, 12, NOTHING) == if Advance(st.dataLen) == 0 then Stuck else Walk(b, p, st)
    requires Read(b) == Recording(samples, st.channels, st.rate)
    ensures n < TWO32 && RestIsHarmless(b, p, st)
  {
    AdvancesFar(st.dataLen);
    hide Walk, Decoded, DataIn, IsRiffWave, Advance, RestIsHarmless;
    WalkFindsAhead(b, p, st);
    WalkEndsWith(b, p, st, st);
    var end := Walk(b, 12, NOTHING).info;
    assert Decoded(DataIn(b, end)) == samples;
    DataStartsAt44(b, end, st, n);
  }

  lemma WholeDataBack(samples: seq<i32>, rate: nat, channels: nat, b: seq<byte>, st: Info)
    requires All24Bit(samples) && b == Written(samples, rate, channels, 24)
    requires st.dataOff == 44 && st.dataLen == 3 * |samples|
    ensures Decoded(DataIn(b, st)) == samples
  {
    hide Decoded, Low24s, All24Bit, Written, Pcm, DataIn;
    DataOfWritten(samples, rate, channels, 24, b, st);
    assert Pcm(samples, 3)[..st.dataLen] == Pcm(samples, 3);
    DecodedPcm(samples);
    Low24sIdentity(samples);
  }

  /** Only the data chunk at its own place is long enough. */
  lemma DataStartsAt44(b: seq<byte>, end: Info, st: Info, n: nat)
    requires |b| == 44 + n && n % 3 == 0 && st.dataOff == 44 && st.dataLen == n % TWO32
    requires (end.dataOff == 44 && end.dataLen == st.dataLen) || 44 < end.dataOff <= |b|
    requires |DataIn(b, end)| / 3 == n / 3
    ensures end.dataOff == 44 && n < TWO32
  {}

  /** The tool's two commands end to end: what `gen` writes, `check` reads back with every column clean, for every
      channel count the tool accepts and every length that fits. */
  lemma GeneratedFileIsClean(channels: nat, frames: nat, rate: nat, column: nat)
    requires 1 <= channels <= 16 && frames >= 1 && rate < TWO32 && column < channels
    requires 3 * (frames * channels) <= TWO32 - 10
    ensures |T.Generated(channels, frames)| == frames * channels
    ensures var pcm := T.Generated(channels, frames);
            && Read(Written(pcm, rate, channels, 24)) == Recording(pcm, channels, rate)
            && |pcm| / channels == frames
            && T.Analyse(T.Column(pcm, frames, channels, column), column).Clean()
  {
    var pcm := T.Generated(channels, frames);
    T.GeneratedLength(channels, frames);
    assert |pcm| / channels == frames && |pcm| >= 1 by { Quotient(frames, channels); }
    assert All24Bit(pcm) by { GeneratedIs24Bit(channels, frames); }
    RoundTripExactly(pcm, rate, channels, Written(pcm, rate, channels, 24), 3 * |pcm|);
    T.GeneratedColumnIsSignal(channels, frames, column);
    T.CleanIffSignal(T.Column(pcm, frames, channels, column), column);
  }

  lemma Quotient(a: nat, b: nat)
    requires a >= 1 && b >= 1
    ensures a * b / b == a && a * b >= 1
  {
    MulLe(1, a, b);
    QuotientIs(a * b, b, a);
  }

  lemma {:induction false} GeneratedIs24Bit(channels: nat, frames: nat)
    ensures All24Bit(T.Generated(channels, frames))
  {
    if frames > 0 { GeneratedIs24Bit(channels, frames - 1); }
  }
}
