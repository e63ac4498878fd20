/** Unsigned words as uthash uses them: masks by a power of two minus one, and right shifts. */
module Bits {

  function Pow2(k: nat): (r: nat)
    ensures r >= 1
  {
    if k == 0 then 1 else 2 * Pow2(k - 1)
  }

  /** C's `x & y` on unsigned words, bit by bit. */
  function BitAnd(x: nat, y: nat): (r: nat)
  {
    if x == 0 || y == 0 then 0
    else (x % 2) * (y % 2) + 2 * BitAnd(x / 2, y / 2)
  }

  /** C's `x >> k` on unsigned words, bit by bit. */
  function ShiftRight(x: nat, k: nat): (r: nat)
  {
    if k == 0 then x else ShiftRight(x / 2, k - 1)
  }

  /** Masking with `2^k - 1` is the remainder modulo `2^k`. */
  lemma {:induction false} MaskIsRemainder(x: nat, k: nat)
    ensures BitAnd(x, Pow2(k) - 1) == x % Pow2(k)
  {
    if x == 0 {
      RemainderUnique(0, Pow2(k), 0, 0);
    } else if k > 0 {
      var m := Pow2(k - 1);
      MaskIsRemainder(x / 2, k - 1);
      RemainderOfHalf(x, m);
      assert Pow2(k) - 1 == 2 * (m - 1) + 1;
      assert BitAnd(x, Pow2(k) - 1) == x % 2 + 2 * BitAnd(x / 2, m - 1);
    }
  }

  lemma RemainderOfHalf(x: nat, m: nat)
    requires m >= 1
    ensures x % (2 * m) == x % 2 + 2 * ((x / 2) % m)
  {
    var q, r := (x / 2) / m, (x / 2) % m;
    assert x == (2 * m) * q + (x % 2 + 2 * r) by {
      assert x / 2 == m * q + r;
    }
    RemainderUnique(x, 2 * m, q, x % 2 + 2 * r);
  }

  /** Euclidean division is determined by its defining equation. */
  lemma RemainderUnique(x: int, d: int, q: int, r: int)
    requires d > 0 && 0 <= r < d && x == d * q + r
    ensures x / d == q && x % d == r
  {
    var q', r' := x / d, x % d;
    var gap := q - q';
    assert d * gap == r' - r by {
      assert d * gap == d * q - d * q';
    }
    if gap >= 1 {
      Scaled(d, gap);
    } else if gap <= -1 {
      Scaled(d, -gap);
    }
  }

  lemma Scaled(d: int, g: int)
    requires d > 0 && g >= 1
    ensures d * g >= d && d * -g <= -d
  {
  }

  /** Shifting right by `k` is division by `2^k`. */
  lemma {:induction false} ShiftIsQuotient(x: nat, k: nat)
    ensures ShiftRight(x, k) == x / Pow2(k)
  {
    if k > 0 {
      ShiftIsQuotient(x / 2, k - 1);
      QuotientOfHalf(x, Pow2(k - 1));
    }
  }

  lemma QuotientOfHalf(x: nat, m: nat)
    requires m >= 1
    ensures x / (2 * m) == (x / 2) / m
  {
    var q, r := (x / 2) / m, (x / 2) % m;
    assert x == (2 * m) * q + (x % 2 + 2 * r) by {
      assert x / 2 == m * q + r;
    }
    RemainderUnique(x, 2 * m, q, x % 2 + 2 * r);
  }
}
