/** The bucket counters of a uthash table and the bound they keep on every chain.

    A bucket's chain may grow to `THRESH * (expandMult + 1)` items before it forces
    the table to double.  The bound is inductive together with a budget: the sum over
    all buckets of what their chains may reach without forcing a doubling never
    exceeds 19 per bucket. */
module ChainBound {
  import opened Bits

  const THRESH := 10
  const INITIAL_NUM_BUCKETS := 32
  const INITIAL_NUM_BUCKETS_LOG2 := 5
  const BUDGET := 19

  /** The two counters of a UT_hash_bucket. */
  datatype Load = Load(count: nat, expandMult: nat)

  /** The chain length at which an insertion into the bucket asks for a doubling. */
  function Limit(b: Load): nat {
    THRESH * (b.expandMult + 1)
  }

  function Count(b: Load): nat {
    b.count
  }

  /** The length the chain has or may reach without asking for a doubling. */
  function Cap(b: Load): nat {
    if b.count >= Limit(b) then b.count else Limit(b) - 1
  }

  /** Items of a bucket beyond the ideal chain length, as a function of the bucket. */
  function Over(ideal: nat): Load -> nat {
    (b: Load) => if b.count > ideal then b.count - ideal else 0
  }

  function SumOf(f: Load -> nat, bs: seq<Load>): nat {
    if bs == [] then 0 else SumOf(f, bs[..|bs| - 1]) + f(bs[|bs| - 1])
  }

  ghost predicate Bounded(bs: seq<Load>) {
    && (forall i :: 0 <= i < |bs| ==> bs[i].count <= Limit(bs[i]))
    && SumOf(Cap, bs) <= BUDGET * |bs|
  }

  function Added(bs: seq<Load>, i: nat): seq<Load>
    requires i < |bs|
  {
    bs[i := bs[i].(count := bs[i].count + 1)]
  }

  function Removed(bs: seq<Load>, i: nat): seq<Load>
    requires i < |bs| && bs[i].count > 0
  {
    bs[i := bs[i].(count := bs[i].count - 1)]
  }

  /** The ideal chain length computed with a shift and a mask. */
  function IdealChainMaxlen(items: nat, log2: nat): nat {
    ShiftRight(items, log2 + 1) + if BitAnd(items, Pow2(log2) * 2 - 1) != 0 then 1 else 0
  }

  /** The multiplier that a doubling with the given ideal length owes a bucket: how many times
      the ideal length goes into the chain, and none for a chain that is not longer. */
  predicate Owed(b: Load, ideal: nat) {
    if b.count <= ideal then b.expandMult == 0
    else ideal * b.expandMult <= b.count < ideal * (b.expandMult + 1)
  }

  /** Dividing anew whenever a chain longer than the ideal grows keeps up with what is owed. */
  lemma OwedAfterOne(b: Load, ideal: nat)
    requires ideal > 0 && Owed(b, ideal)
    ensures var count := b.count + 1;
            Owed(Load(count, if count > ideal then count / ideal else b.expandMult), ideal)
  {
    var q, r := (b.count + 1) / ideal, (b.count + 1) % ideal;
    assert b.count + 1 == ideal * q + r;
    assert ideal * (q + 1) == ideal * q + ideal;
  }

  lemma {:induction false} SumUpdate(f: Load -> nat, bs: seq<Load>, i: nat, b: Load)
    requires i < |bs|
    ensures SumOf(f, bs[i := b]) == SumOf(f, bs) - f(bs[i]) + f(b)
  {
    var n := |bs| - 1;
    if i == n {
      assert bs[i := b][..n] == bs[..n];
    } else {
      assert bs[i := b][..n] == bs[..n][i := b];
      SumUpdate(f, bs[..n], i, b);
    }
  }

  lemma SumOfNone(f: Load -> nat)
    ensures SumOf(f, []) == 0
  {
  }

  lemma SumPrefix(f: Load -> nat, bs: seq<Load>, i: nat)
    requires i < |bs|
    ensures SumOf(f, bs[..i + 1]) == SumOf(f, bs[..i]) + f(bs[i])
  {
    assert bs[..i + 1][..i] == bs[..i];
  }

  lemma {:induction false} SumMonotone(f: Load -> nat, g: Load -> nat, bs: seq<Load>)
    requires forall b :: f(b) <= g(b)
    ensures SumOf(f, bs) <= SumOf(g, bs)
  {
    if bs != [] {
      SumMonotone(f, g, bs[..|bs| - 1]);
    }
  }

  /** Receiving one more item during a doubling: the excess and the item count follow. */
  lemma MoveCounts(bs: seq<Load>, i: nat, ideal: nat, b: Load)
    requires i < |bs| && b.count == bs[i].count + 1
    ensures SumOf(Over(ideal), bs[i := b]) == SumOf(Over(ideal), bs) + (if b.count > ideal then 1 else 0)
    ensures SumOf(Count, bs[i := b]) == SumOf(Count, bs) + 1
  {
    SumUpdate(Over(ideal), bs, i, b);
    SumUpdate(Count, bs, i, b);
  }

  /** The shift-and-mask formula is the ceiling of items over twice the buckets. */
  lemma IdealIsCeiling(items: nat, log2: nat)
    requires items > 0
    ensures var ideal, b := IdealChainMaxlen(items, log2), 2 * Pow2(log2);
            ideal >= 1 && (ideal - 1) * b < items <= ideal * b
  {
    IdealByParts(items, log2);
    hide IdealChainMaxlen, Pow2;
    var b := 2 * Pow2(log2);
    CeilingByParts(items, b, items / b, items % b);
  }

  lemma IdealByParts(items: nat, log2: nat)
    ensures var b := 2 * Pow2(log2);
            IdealChainMaxlen(items, log2) == items / b + if items % b != 0 then 1 else 0
  {
    assert Pow2(log2 + 1) == 2 * Pow2(log2);
    hide Pow2, ShiftRight, BitAnd;
    ShiftIsQuotient(items, log2 + 1);
    MaskIsRemainder(items, log2 + 1);
  }

  lemma CeilingByParts(n: nat, b: nat, q: int, r: int)
    requires b > 0 && n > 0 && q == n / b && r == n % b
    ensures r != 0 ==> q * b < n <= (q + 1) * b
    ensures r == 0 ==> q >= 1 && (q - 1) * b < n <= q * b
  {
    assert n == b * q + r && 0 <= r < b;
    assert (q + 1) * b == q * b + b && (q - 1) * b == q * b - b;
  }

  /** Within the budget the table holds at most 19 items per bucket. */
  lemma ItemsWithinBudget(bs: seq<Load>)
    requires Bounded(bs)
    ensures SumOf(Count, bs) <= BUDGET * |bs|
  {
    SumMonotone(Count, Cap, bs);
  }

  /** An insertion that does not ask for a doubling keeps the bound. */
  lemma AddKeepsBound(bs: seq<Load>, i: nat)
    requires Bounded(bs) && i < |bs|
    requires Added(bs, i)[i].count < Limit(bs[i])
    ensures Bounded(Added(bs, i))
  {
    SumUpdate(Cap, bs, i, Added(bs, i)[i]);
  }

  /** A removal keeps the bound. */
  lemma RemoveKeepsBound(bs: seq<Load>, i: nat)
    requires Bounded(bs) && i < |bs| && bs[i].count > 0
    ensures Bounded(Removed(bs, i))
  {
    SumUpdate(Cap, bs, i, Removed(bs, i)[i]);
  }

  /** An insertion that does ask for a doubling finds an ideal length of at most ten. */
  lemma IdealAtMostTen(bs: seq<Load>, i: nat, log2: nat)
    requires Bounded(bs) && i < |bs| && |bs| == Pow2(log2)
    ensures SumOf(Count, Added(bs, i)) == SumOf(Count, bs) + 1
    ensures 1 <= IdealChainMaxlen(SumOf(Count, Added(bs, i)), log2) <= THRESH
  {
    SumUpdate(Count, bs, i, Added(bs, i)[i]);
    ItemsWithinBudget(bs);
    var items := SumOf(Count, bs) + 1;
    IdealIsCeiling(items, log2);
    TenSuffices(IdealChainMaxlen(items, log2), Pow2(log2), items);
  }

  lemma TenSuffices(ideal: nat, n: nat, items: nat)
    requires n >= 1 && (ideal - 1) * (2 * n) < items <= BUDGET * n + 1
    ensures ideal <= 10
  {
    assert (2 * n) * (ideal - 1) < (2 * n) * 10;
    CancelFactor(2 * n, ideal - 1, 10);
  }

  lemma Larger(a: nat, b: nat, k: nat)
    requires a <= b
    ensures a * k <= b * k
  {
  }

  lemma TimesCap(ideal: nat, q: nat, count: nat)
    requires ideal * q <= count
    ensures ideal * (10 * q + 9) <= 9 * ideal + 10 * count
  {
    assert ideal * (10 * q + 9) == 10 * (ideal * q) + 9 * ideal;
  }

  /** After a doubling every bucket's cap is within ten times its share, plus nine. */
  lemma CapOfExpanded(b: Load, ideal: nat)
    requires 1 <= ideal <= THRESH && Owed(b, ideal)
    ensures b.count <= Limit(b)
    ensures ideal * Cap(b) <= 9 * ideal + 10 * b.count
  {
    if b.count > ideal {
      var q := b.expandMult;
      Larger(ideal, 10, q + 1);
      assert Cap(b) == 10 * q + 9;
      TimesCap(ideal, q, b.count);
    } else if b.count >= 10 {
      assert Cap(b) == 10 && ideal == 10;
    } else {
      assert Cap(b) == 9;
    }
  }

  lemma {:induction false} CapsOfExpanded(bs: seq<Load>, ideal: nat)
    requires 1 <= ideal <= THRESH
    requires forall i :: 0 <= i < |bs| ==> Owed(bs[i], ideal)
    ensures ideal * SumOf(Cap, bs) <= 9 * ideal * |bs| + 10 * SumOf(Count, bs)
  {
    if bs != [] {
      var rest, last := bs[..|bs| - 1], bs[|bs| - 1];
      CapsOfExpanded(rest, ideal);
      CapOfExpanded(last, ideal);
      hide SumOf, Cap, Owed;
      CapsByParts(ideal, SumOf(Cap, rest), Cap(last), |rest|, SumOf(Count, rest), last.count);
    }
  }

  lemma CapsByParts(ideal: nat, c: nat, k: nat, n: nat, items: nat, count: nat)
    requires ideal * c <= 9 * ideal * n + 10 * items && ideal * k <= 9 * ideal + 10 * count
    ensures ideal * (c + k) <= 9 * ideal * (n + 1) + 10 * (items + count)
  {
    assert ideal * (c + k) == ideal * c + ideal * k;
    assert 9 * ideal * (n + 1) == 9 * ideal * n + 9 * ideal;
  }

  /** A doubling that spreads the items over twice the buckets re-establishes the bound,
      however unevenly the hash function spreads them. */
  lemma ExpandKeepsBound(bs: seq<Load>, ideal: nat)
    requires 1 <= ideal <= THRESH
    requires forall i :: 0 <= i < |bs| ==> Owed(bs[i], ideal)
    requires SumOf(Count, bs) <= ideal * |bs|
    ensures Bounded(bs)
  {
    forall i | 0 <= i < |bs|
      ensures bs[i].count <= Limit(bs[i])
    {
      CapOfExpanded(bs[i], ideal);
    }
    CapsOfExpanded(bs, ideal);
    BudgetByParts(ideal, SumOf(Cap, bs), SumOf(Count, bs), |bs|);
  }

  lemma BudgetByParts(ideal: nat, caps: nat, items: nat, n: nat)
    requires ideal >= 1 && ideal * caps <= 9 * ideal * n + 10 * items && items <= ideal * n
    ensures caps <= 19 * n
  {
    var share := ideal * n;
    assert 9 * ideal * n == 9 * share && ideal * (19 * n + 1) == 19 * share + ideal;
    CancelFactor(ideal, caps, 19 * n + 1);
  }

  lemma CancelFactor(k: nat, a: int, b: int)
    requires k >= 1 && k * a < k * b
    ensures a < b
  {
  }

  /** A new table of empty buckets is within the bound. */
  lemma {:induction false} EmptyIsBounded(n: nat)
    ensures Bounded(seq(n, _ => Load(0, 0)))
    ensures SumOf(Count, seq(n, _ => Load(0, 0))) == 0
  {
    SumOfEmpty(seq(n, _ => Load(0, 0)));
  }

  lemma {:induction false} SumOfEmpty(bs: seq<Load>)
    requires forall i :: 0 <= i < |bs| ==> bs[i] == Load(0, 0)
    ensures SumOf(Count, bs) == 0 && SumOf(Cap, bs) == 9 * |bs|
    ensures forall ideal :: SumOf(Over(ideal), bs) == 0
  {
    if bs != [] {
      SumOfEmpty(bs[..|bs| - 1]);
    }
  }
}
