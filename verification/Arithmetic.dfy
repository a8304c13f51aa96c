/** Facts about numbers, rows and rings that several components share. */
module Arithmetic {

  function Min(a: nat, b: nat): nat { if a < b then a else b }
  function Max(a: nat, b: nat): nat { if a < b then b else a }

  lemma MulLe(a: int, b: int, d: int)
    requires d > 0 && a <= b
    ensures a * d <= b * d
  {}

  lemma QuotientIs(a: int, d: int, q: int)
    requires d > 0 && q * d <= a < (q + 1) * d
    ensures a / d == q
  {
    var r := a / d;
    assert r * d <= a < (r + 1) * d;
    if r < q { MulLe(r + 1, q, d); }
    if r > q { MulLe(q + 1, r, d); }
  }

  /** Two numbers that share a slot of a ring are whole rings apart. */
  lemma SameSlot(a: nat, b: nat, len: nat)
    requires len > 0 && a % len == b % len && a < b
    ensures a + len <= b
  {
    var p, q := a / len, b / len;
    assert a == p * len + a % len && b == q * len + b % len;
    if q <= p { MulLe(q, p, len); }
    MulLe(p + 1, q, len);
  }

  /** Column `column` of row `row` lies inside `rows` rows of `width`. */
  lemma InBounds(rows: nat, width: nat, column: nat, row: nat)
    requires column < width && row < rows
    ensures 0 <= row * width + column < rows * width
  {
    MulLe(row + 1, rows, width);
    assert (row + 1) * width == row * width + width;
  }
}
