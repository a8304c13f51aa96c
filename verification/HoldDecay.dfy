/** The decaying hold of the transmit fill (platform/shared/uf_tx_fill.hpp): what repeated `x -= x >> 8` does to a
    32-bit sample, and what the encoder's own `>> 8` makes of it on the wire. */
module HoldDecay {

  /** A 32-bit sample, as the ring carries it. */
  type Sample = x: int | -0x8000_0000 <= x < 0x8000_0000

  /** An arithmetic shift right by eight rounds towards minus infinity; so does division by 256. */
  function Shr8(x: int): int { x / 256 }

  function Decay(x: Sample): Sample { x - Shr8(x) }

  function DecayN(x: Sample, n: nat): Sample {
    if n == 0 then x else Decay(DecayN(x, n - 1))
  }

  /** The 24-bit value the encoder puts on the wire. */
  function Wire(x: Sample): int { Shr8(x) }

  lemma {:induction false} DecaysCompose(x: Sample, a: nat, b: nat)
    ensures DecayN(x, a + b) == DecayN(DecayN(x, a), b)
  {
    if b > 0 { DecaysCompose(x, a, b - 1); }
  }

  /** Decaying never changes the sign and never enlarges the magnitude, however long it goes on. */
  lemma {:induction false} MagnitudeNeverGrows(x: Sample, m: nat, n: nat)
    requires m <= n
    ensures x >= 0 ==> 0 <= DecayN(x, n) <= DecayN(x, m) <= x
    ensures x <= 0 ==> x <= DecayN(x, m) <= DecayN(x, n) <= 0
  {
    if n > 0 { MagnitudeNeverGrows(x, if m < n then m else n - 1, n - 1); }
  }

  /** While a positive value is at least 256*q each decay takes at least q off it. */
  lemma {:induction false} PositiveDrop(x: Sample, n: nat, q: nat)
    requires x >= 0 && q >= 1
    ensures DecayN(x, n) < 256 * q || DecayN(x, n) <= x - n * q
  {
    if n > 0 {
      PositiveDrop(x, n - 1, q);
      MagnitudeNeverGrows(x, n - 1, n);
      assert n * q == (n - 1) * q + q;
    }
  }

  lemma {:induction false} NegativeDrop(x: Sample, n: nat, q: nat)
    requires x <= 0 && q >= 1
    ensures DecayN(x, n) >= -256 * q || DecayN(x, n) >= x + n * q
  {
    if n > 0 {
      NegativeDrop(x, n - 1, q);
      MagnitudeNeverGrows(x, n - 1, n);
      assert n * q == (n - 1) * q + q;
    }
  }

  /** The wire carries the top 24 of the 32 bits. */
  lemma WireIsTheTopBits(x: Sample)
    ensures 256 * Wire(x) <= x < 256 * Wire(x) + 256
  {}

  /** A magnitude reduced by one part in 256, `n` times over. */
  function Fade(m: real, n: nat): real { if n == 0 then m else Fade(m, n - 1) * 255.0 / 256.0 }

  /** The fade is gradual: each frame loses no more than one part in 256, rounded up, so that `n` frames leave at
      least what `n` such reductions would, to within the rounding on the negative side. */
  lemma {:induction false} FadeIsGradual(x: Sample, n: nat)
    ensures x >= 0 ==> DecayN(x, n) as real >= Fade(x as real, n)
    ensures x <= 0 ==> 255.0 - DecayN(x, n) as real >= Fade(255.0 - x as real, n)
  {
    if n > 0 {
      FadeIsGradual(x, n - 1);
      var y := DecayN(x, n - 1);
      OneFade(y);
    }
  }

  lemma OneFade(y: Sample)
    ensures Decay(y) as real >= y as real * 255.0 / 256.0
    ensures 255.0 - Decay(y) as real >= (255.0 - y as real) * 255.0 / 256.0
  {
    assert 256 * (y / 256) <= y < 256 * (y / 256) + 256;
  }

  function Pow2(n: nat): (p: nat)
    ensures p >= 1
  {
    if n == 0 then 1 else 2 * Pow2(n - 1)
  }

  /** 256 decays per halving: from below 256*2^k down to 256 takes 256*k of them. */
  lemma {:induction false} Halvings(x: Sample, k: nat)
    requires -256 * Pow2(k) <= x < 256 * Pow2(k)
    ensures -256 <= DecayN(x, 256 * k) < 256
    decreases k
  {
    if k > 0 {
      var q := Pow2(k - 1);
      var y := DecayN(x, 256);
      if x >= 0 { PositiveDrop(x, 256, q); } else { NegativeDrop(x, 256, q); }
      MagnitudeNeverGrows(x, 0, 256);
      Halvings(y, k - 1);
      DecaysCompose(x, 256, 256 * (k - 1));
    }
  }

  /** The tail: a small negative value climbs by one each time until it is zero, and stays there. */
  lemma {:induction false} NegativeTail(x: Sample, n: nat)
    requires -256 <= x <= 0
    ensures DecayN(x, n) == if x + n < 0 then x + n else 0
  {
    if n > 0 { NegativeTail(x, n - 1); }
  }

  lemma Pow2Of23()
    ensures Pow2(23) == 0x80_0000
  {
    assert Pow2(8) == 256;
    assert Pow2(16) == 65536 by { assert Pow2(12) == 4096; }
    assert Pow2(20) == 0x10_0000;
  }

  /** From any 32-bit sample, 6144 decays bring the wire value to zero, and it stays zero. */
  lemma SilentAfter6144(x: Sample, n: nat)
    requires n >= 6144
    ensures Wire(DecayN(x, n)) == 0
  {
    Pow2Of23();
    Halvings(x, 23);
    var y := DecayN(x, 256 * 23);
    DecaysCompose(x, 256 * 23, n - 256 * 23);
    MagnitudeNeverGrows(x, 256 * 23, n);
    if y < 0 { NegativeTail(y, n - 256 * 23); }
    MagnitudeNeverGrows(y, 0, n - 256 * 23);
  }
}
