/** Integer facts about the block grid: multiples of the block size, the
    start of the block holding an index, and integer division as used for the
    progress percentage. */
module Arithmetic {

  /** The largest multiple of bs that is at most x: the cropped size of an
      axis of length x, and the first index of the block holding index x. */
  function AlignDown(x: nat, bs: nat): (a: nat)
    requires bs > 0
    ensures a % bs == 0 && a <= x < a + bs
  {
    DivMod(x - x % bs, bs, x / bs, 0);
    x - x % bs
  }

  /** Euclidean division is unique: x == q * bs + d with 0 <= d < bs fixes
      both the quotient and the remainder. */
  lemma DivMod(x: int, bs: int, q: int, d: int)
    requires bs > 0 && x == q * bs + d && 0 <= d < bs
    ensures x / bs == q && x % bs == d
  {
    var q', d' := x / bs, x % bs;
    assert x == q' * bs + d';
    assert (q - q') * bs == q * bs - q' * bs;
    ScaledSign(q - q', bs);
  }

  /** A multiple k * bs of a positive bs is zero, or at least bs away from zero. */
  lemma ScaledSign(k: int, bs: int)
    requires bs > 0
    ensures k >= 1 ==> k * bs >= bs
    ensures k <= -1 ==> k * bs <= -bs
    ensures k == 0 ==> k * bs == 0
  {
    assert k * bs == (k - 1) * bs + bs;
    assert k * bs == (k + 1) * bs - bs;
  }

  /** A block that starts on the block grid inside a length that is a
      multiple of bs ends inside it too. */
  lemma BlockFits(a: nat, n: nat, bs: nat)
    requires bs > 0 && a % bs == 0 && n % bs == 0 && a < n
    ensures a + bs <= n
  {
    var p, q := a / bs, n / bs;
    assert a == p * bs;
    assert n == q * bs;
    assert n - a == (q - p) * bs;
    ScaledSign(q - p, bs);
  }

  /** An index inside the block that starts at a belongs to that block. */
  lemma AlignDownInBlock(a: nat, x: nat, bs: nat)
    requires bs > 0 && a % bs == 0 && a <= x < a + bs
    ensures AlignDown(x, bs) == a
  {
    DivMod(a, bs, a / bs, 0);
    DivMod(x, bs, a / bs, x - a);
  }

  /** The next block of a row or column starts on the block grid. */
  lemma NextOnGrid(a: nat, bs: nat)
    requires bs > 0 && a % bs == 0
    ensures (a + bs) % bs == 0
  {
    DivMod(a, bs, a / bs, 0);
    DivMod(a + bs, bs, a / bs + 1, 0);
  }

  /** Two indices of the block grid that differ are a whole block apart. */
  lemma GridGap(a: nat, b: nat, bs: nat)
    requires bs > 0 && a % bs == 0 && b % bs == 0 && a < b
    ensures a + bs <= b
  {
    BlockFits(a, b, bs);
  }

  /** Integer division by a positive number is monotone. */
  lemma DivMonotone(a: int, b: int, h: int)
    requires h > 0 && a <= b
    ensures a / h <= b / h
  {
    var k := a / h - b / h;
    assert k * h == (a / h) * h - (b / h) * h;
    ScaledSign(k, h);
  }

  /** A quotient by h stays below m when the dividend stays below m * h. */
  lemma DivBelow(x: int, m: int, h: int)
    requires h > 0 && 0 <= x < m * h
    ensures x / h < m
  {
    var k := x / h - m;
    assert k * h == (x / h) * h - m * h;
    ScaledSign(k, h);
  }
}
