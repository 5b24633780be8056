/** The little non-linear arithmetic the block translation needs. */
module Arith {
  /** The block a byte position falls in, and its place in that block. */
  function BlockOf(q: nat, b: nat): nat
    requires b > 0
  {
    q / b
  }

  function OffsetOf(q: nat, b: nat): (r: nat)
    requires b > 0
    ensures r < b
  {
    q % b
  }

  lemma MulNonNegative(b: int, k: int)
    requires b >= 0 && k >= 0
    ensures b * k >= 0
  {
  }

  lemma MulAtLeast(b: int, k: int)
    requires b > 0 && k >= 1
    ensures b * k >= b
  {
    assert b * k == b * (k - 1) + b;
    MulNonNegative(b, k - 1);
  }

  /** Quotient and remainder are determined by the division equation. */
  lemma DivModUnique(x: int, d: int, r: int, b: int)
    requires b > 0 && x == b * d + r && 0 <= r < b
    ensures x / b == d && x % b == r
  {
    var d', r' := x / b, x % b;
    assert x == b * d' + r';
    assert b * (d - d') == r' - r;
    if d > d' {
      MulAtLeast(b, d - d');
    } else if d < d' {
      MulAtLeast(b, d' - d);
    }
  }

  /** Positions in the `n` bytes from `q` on, when these stay inside the block of `q`. */
  lemma WithinBlock(q: nat, n: nat, x: nat, b: nat)
    requires b > 0 && OffsetOf(q, b) + n <= b
    ensures q <= x < q + n <==> BlockOf(x, b) == BlockOf(q, b) && OffsetOf(q, b) <= OffsetOf(x, b) < OffsetOf(q, b) + n
    ensures BlockOf(x, b) == BlockOf(q, b) ==> x - q == OffsetOf(x, b) - OffsetOf(q, b)
  {
    var d := x / b - q / b;
    assert x == b * (x / b) + x % b && q == b * (q / b) + q % b;
    assert x - q == b * d + (x % b - q % b);
    if d >= 1 {
      MulAtLeast(b, d);
    } else if d <= -1 {
      MulAtLeast(b, -d);
      assert b * d == -(b * -d);
    }
  }

  /** Stepping to the end of the block of `q` reaches the next block at offset 0. */
  lemma NextBlock(q: nat, b: nat)
    requires b > 0
    ensures BlockOf(q + (b - OffsetOf(q, b)), b) == BlockOf(q, b) + 1 && OffsetOf(q + (b - OffsetOf(q, b)), b) == 0
  {
    DivModUnique(q + (b - q % b), q / b + 1, 0, b);
  }

  /** A step that stays short of the end of the block stays in the block. */
  lemma SameBlock(q: nat, n: nat, b: nat)
    requires b > 0 && OffsetOf(q, b) + n < b
    ensures BlockOf(q + n, b) == BlockOf(q, b) && OffsetOf(q + n, b) == OffsetOf(q, b) + n
  {
    DivModUnique(q + n, q / b, q % b + n, b);
  }

  lemma DivMonotone(x: nat, y: nat, b: nat)
    requires b > 0 && x <= y
    ensures BlockOf(x, b) <= BlockOf(y, b)
  {
    var d := x / b - y / b;
    assert x - y == b * d + (x % b - y % b);
    if d >= 1 {
      MulAtLeast(b, d);
      assert false;
    }
  }

  lemma BlockBelow(x: nat, b: nat)
    requires b > 0
    ensures BlockOf(x, b) <= x
  {
    var d := x / b;
    assert x == b * d + x % b;
    MulNonNegative(b - 1, d);
    assert b * d == (b - 1) * d + d;
  }

  /** A position is its block times the block size and its place in the block. */
  lemma PositionSplits(q: nat, b: nat)
    requires b > 0
    ensures q == b * BlockOf(q, b) + OffsetOf(q, b) && OffsetOf(q, b) < b
  {
  }

  function Min(x: nat, y: nat): (r: nat)
    ensures r <= x && r <= y && (r == x || r == y)
  {
    if x < y then x else y
  }
}
