/** The constants and the size rounding every component shares. */
module Config {
  const BLOCK_SIZE: nat := 4096
  const BLOCK_HEADER_SIZE: nat := 80
  const MAX_OBJECT_SIZE: nat := 2008
  const BITMAP_BYTES_COUNT: nat := 64
  /** Bytes of a block left for objects. */
  const OBJECT_AREA: nat := BLOCK_SIZE - BLOCK_HEADER_SIZE

  /** GET_SIZE_WITH_ALIGNMENT: the least multiple of 8 that is not below `size`. */
  function Align(size: nat): (r: nat)
    ensures r % 8 == 0 && size <= r < size + 8
  {
    (if size % 8 == 0 then 0 else 8 - size % 8) + size
  }

  // ----- Products and quotients -----

  function Quotient(x: nat, d: nat): nat
    requires d > 0
  {
    x / d
  }

  lemma MulLe(a: nat, i: nat, j: nat)
    requires i <= j
    ensures a * i <= a * j
  {
  }

  lemma MulNext(a: nat, i: nat)
    ensures a * (i + 1) == a * i + a
  {
  }

  lemma DivBounds(x: nat, d: nat)
    requires d > 0
    ensures d * (x / d) <= x < d * (x / d) + d
  {
  }

  lemma DivAtLeast(x: nat, d: nat, q: nat)
    requires d > 0 && d * q <= x
    ensures q <= x / d
  {
    DivBounds(x, d);
    if x / d < q { MulLe(d, x / d + 1, q); MulNext(d, x / d); }
  }

  lemma DivBelow(x: nat, d: nat, q: nat)
    requires d > 0 && x < d * q
    ensures x / d < q
  {
    DivBounds(x, d);
    if q <= x / d { MulLe(d, q, x / d); }
  }

  /** A whole part of size `d` fits in `x`. */
  lemma WholePart(x: nat, d: nat, i: nat)
    requires d > 0 && i < x / d
    ensures d * i + d <= x
  {
    DivBounds(x, d);
    MulLe(d, i + 1, x / d);
    MulNext(d, i);
  }

  lemma MulOfEights(a: nat, i: nat) returns (k: nat)
    requires a % 8 == 0
    ensures a * i == 8 * k
  {
    var w := a / 8;
    k := w * i;
    assert a * i == (8 * w) * i == 8 * (w * i);
  }
}
