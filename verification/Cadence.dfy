/** The blocking transmit cadence (include/uf/protocol/channels.hpp, include/uf/protocol/rate.hpp) and
    the packet geometry a session derives from its rate (platform/daemon/uf-daemon.cpp).

    Full packets are spread over a looping ring by a Bresenham rule. The results say that the looped
    ring never loses a fraction: after any number of packets, across any number of laps, the number of
    full ones is exactly the rounded-down share, so the stream never drifts from the sample rate. */
module Cadence {
  import opened Arithmetic

  const RING_LEN: nat := 640
  const CYCLES_PER_SECOND: nat := 8000

  datatype Speed = X1 | X2 | X4

  function SpeedForRate(hz: nat): Speed {
    if hz < 64000 then X1 else if hz < 128000 then X2 else X4
  }

  function FramesPerPacket(s: Speed): nat {
    match s
    case X1 => 8
    case X2 => 16
    case X4 => 32
  }

  const SUPPORTED_RATES: set<nat> := {32000, 44100, 48000, 64000, 88200, 96000, 128000, 176400, 192000}

  function BlockingFullCount(hz: nat, s: Speed): nat {
    hz * RING_LEN / (CYCLES_PER_SECOND * FramesPerPacket(s))
  }

  predicate IsFullPacket(i: nat, full: nat, len: nat)
    requires len > 0
  {
    (i + 1) * full / len > i * full / len
  }

  /** Packet number `k` of the endless stream is packet `k % len` of the ring. */
  predicate FullAt(k: nat, full: nat, len: nat)
    requires len > 0
  {
    IsFullPacket(k % len, full, len)
  }

  /** How many of the first `n` packets of the endless stream are full. */
  function FullPackets(n: nat, full: nat, len: nat): nat
    requires len > 0
  {
    if n == 0 then 0
    else FullPackets(n - 1, full, len) + if FullAt(n - 1, full, len) then 1 else 0
  }

  // ---- division facts ---------------------------------------------------------------------------

  /** Adding whole laps adds whole multiples of `full`. */
  lemma LapQuotient(lap: nat, i: nat, full: nat, len: nat)
    requires len > 0
    ensures (lap * len + i) * full / len == lap * full + i * full / len
  {
    var q := i * full / len;
    assert q * len <= i * full < (q + 1) * len;
    assert (lap * len + i) * full == (lap * full) * len + i * full by {
      assert lap * len * full == (lap * full) * len;
    }
    assert (lap * full + q) * len == (lap * full) * len + q * len;
    assert (lap * full + q + 1) * len == (lap * full) * len + (q + 1) * len;
    QuotientIs((lap * len + i) * full, len, lap * full + q);
  }

  /** One step of the Bresenham line rises by at most one when there are at most `len` full packets. */
  lemma RiseAtMostOne(k: nat, full: nat, len: nat)
    requires len > 0 && full <= len
    ensures k * full / len <= (k + 1) * full / len <= k * full / len + 1
  {
    assert (k + 1) * full == k * full + full;
    RiseOf(k * full, full, len);
  }

  lemma RiseOf(a: nat, full: nat, len: nat)
    requires len > 0 && full <= len
    ensures a / len <= (a + full) / len <= a / len + 1
  {
    var q, r := a / len, (a + full) / len;
    assert q * len <= a < (q + 1) * len && r * len <= a + full < (r + 1) * len;
    assert (q + 2) * len == (q + 1) * len + len;
    if r < q { MulLe(r + 1, q, len); }
    if r > q + 1 { MulLe(q + 2, r, len); }
  }

  /** The looped ring asks the Bresenham question of the unbounded line. */
  lemma FullAtIsRise(k: nat, full: nat, len: nat)
    requires len > 0
    ensures FullAt(k, full, len) <==> (k + 1) * full / len > k * full / len
  {
    var lap, i := k / len, k % len;
    assert k == lap * len + i;
    LapQuotient(lap, i, full, len);
    LapQuotient(lap, i + 1, full, len);
    assert k + 1 == lap * len + (i + 1);
  }

  // ---- the cadence is exact -----------------------------------------------------------------------

  /** For every ring length, every full count and every number of packets, across laps. */
  lemma {:induction false} FullPacketsExact(n: nat, full: nat, len: nat)
    requires len > 0 && full <= len
    ensures FullPackets(n, full, len) == n * full / len
  {
    if n == 0 {
      assert 0 * full == 0;
    } else {
      FullPacketsExact(n - 1, full, len);
      FullAtIsRise(n - 1, full, len);
      RiseAtMostOne(n - 1, full, len);
    }
  }

  lemma RisesOverTwo(k: nat, full: nat, len: nat)
    requires len > 0 && len <= 2 * full
    ensures (k + 2) * full / len > k * full / len
  {
    var q, r := k * full / len, (k + 2) * full / len;
    assert q * len <= k * full;
    assert (k + 2) * full == k * full + 2 * full;
    assert (q + 1) * len == q * len + len;
    assert (r + 1) * len > (k + 2) * full;
    if r <= q { MulLe(r + 1, q + 1, len); }
  }

  /** When at least half the ring is full, two consecutive packets are never both empty, including the
      pair that straddles the wrap. */
  lemma NoTwoConsecutiveEmpties(k: nat, full: nat, len: nat)
    requires len > 0 && len <= 2 * full
    ensures FullAt(k, full, len) || FullAt(k + 1, full, len)
  {
    FullAtIsRise(k, full, len);
    FullAtIsRise(k + 1, full, len);
    RisesOverTwo(k, full, len);
  }

  // ---- sessions -----------------------------------------------------------------------------------

  /** What session_start programs for a rate: frames in a full packet and full packets per lap. */
  datatype Geometry = Geometry(sytInterval: nat, fullCount: nat)

  function SessionGeometry(rate: nat): Geometry {
    if rate % 8000 == 0
    then Geometry(rate / 8000, RING_LEN)
    else Geometry(FramesPerPacket(SpeedForRate(rate)), BlockingFullCount(rate, SpeedForRate(rate)))
  }

  /** Frames put on the wire by the first `n` packets. */
  function FramesSent(n: nat, g: Geometry): nat {
    FullPackets(n, g.fullCount, RING_LEN) * g.sytInterval
  }

  /** At every supported rate the geometry carries exactly rate/8000 frames per packet on average over a
      lap, fits the ring, and leaves at least half of it full. */
  lemma SupportedGeometry(rate: nat)
    requires rate in SUPPORTED_RATES
    ensures var g := SessionGeometry(rate);
            && g.sytInterval > 0
            && 8000 * g.fullCount * g.sytInterval == 640 * rate
            && g.fullCount <= RING_LEN <= 2 * g.fullCount
  {
    assert rate == 32000 || rate == 44100 || rate == 48000 || rate == 64000 || rate == 88200
        || rate == 96000 || rate == 128000 || rate == 176400 || rate == 192000;
  }

  /** A full packet carries the AMDTP interval of its speed, 8, 16 or 32 frames: at the top rate of each speed three
      packets in four are full. */
  lemma TopRatesFillThreeInFour(s: Speed)
    ensures var top := match s case X1 => 48000 case X2 => 96000 case X4 => 192000;
            SpeedForRate(top) == s && BlockingFullCount(top, s) == 480 && 4 * 480 == 3 * RING_LEN
            && 8000 * 480 * FramesPerPacket(s) == RING_LEN * top
  {}

  /** The count of full packets is the rate's share of the ring, rounded down. */
  lemma FullCountIsTheShare(hz: nat, s: Speed)
    ensures var full, whole := BlockingFullCount(hz, s), 8000 * FramesPerPacket(s);
            full * whole <= hz * RING_LEN < full * whole + whole
  {
    var a, d := hz * RING_LEN, 8000 * FramesPerPacket(s);
    assert a == d * (a / d) + a % d;
  }

  /** At every supported rate, after any number of packets, the frames sent are behind rate*n/8000 by
      less than one full packet and never ahead of it; in the non-blocking geometry they are equal. */
  lemma NeverDriftsAPacket(rate: nat, n: nat)
    requires rate in SUPPORTED_RATES
    ensures var g := SessionGeometry(rate);
            && 8000 * FramesSent(n, g) <= rate * n < 8000 * (FramesSent(n, g) + g.sytInterval)
            && (rate % 8000 == 0 ==> 8000 * FramesSent(n, g) == rate * n)
  {
    var g := SessionGeometry(rate);
    SupportedGeometry(rate);
    FullPacketsExact(n, g.fullCount, RING_LEN);
    ShareArithmetic(rate, n, g.fullCount, g.sytInterval);
    if rate % 8000 == 0 {
      WholeShare(rate, n, g.sytInterval);
    }
  }

  lemma WholeShare(rate: nat, n: nat, y: nat)
    requires rate == 8000 * y
    ensures 8000 * (n * RING_LEN / RING_LEN * y) == rate * n
  {
    assert n * RING_LEN / RING_LEN == n;
  }

  lemma ShareArithmetic(rate: nat, n: nat, f: nat, y: nat)
    requires y > 0 && 8000 * f * y == 640 * rate
    ensures var q := n * f / 640;
            8000 * (q * y) <= rate * n < 8000 * (q * y + y)
  {
    var q := n * f / 640;
    var r := n * f % 640;
    assert n * f == 640 * q + r;
    calc {
      640 * (rate * n);
      (640 * rate) * n;
      (8000 * f * y) * n;
      (8000 * y) * (n * f);
      (8000 * y) * (640 * q + r);
      640 * (8000 * (q * y)) + 8000 * (y * r);
    }
    MulLe(r, 639, y);
    assert y * r == r * y;
  }
}
