/** Normalised time arithmetic (src/time_ops.h) with a 64-bit time_t: sums, differences and
    scalings that carry between the fields and saturate at the representable range. */
module TimeOps {

  const USEC := 1_000_000
  const NSEC := 1_000_000_000
  const TIME_MAX := 0x7FFF_FFFF_FFFF_FFFF
  const TIME_MIN := -TIME_MAX - 1

  /** The number of sub-second units in a second: timeval or timespec. */
  type Unit = u: int | u == NSEC || u == USEC witness NSEC

  /** struct timespec or struct timeval. */
  datatype Stamp = Stamp(sec: int, sub: int)

  /** A result and whether errno was set to EOVERFLOW. */
  datatype Outcome = Outcome(value: Stamp, overflow: bool)

  predicate Normal(t: Stamp, u: Unit) {
    TIME_MIN <= t.sec <= TIME_MAX && 0 <= t.sub < u
  }

  /** The instant as a whole number of sub-second units. */
  function Total(t: Stamp, u: Unit): int {
    t.sec * u + t.sub
  }

  function MinTotal(u: Unit): int {
    TIME_MIN * u
  }

  function MaxTotal(u: Unit): int {
    TIME_MAX * u + (u - 1)
  }

  predicate Fits(x: int, u: Unit) {
    MinTotal(u) <= x <= MaxTotal(u)
  }

  function Clamp(x: int, u: Unit): (r: int)
    ensures Fits(r, u)
  {
    if x > MaxTotal(u) then MaxTotal(u) else if x < MinTotal(u) then MinTotal(u) else x
  }

  /** C's conversion of a floating-point number to an integer. */
  function Trunc(x: real): int {
    if x >= 0.0 then x.Floor else -((-x).Floor)
  }

  function TruncDiv(x: int, d: int): int
    requires d > 0
  {
    if x >= 0 then x / d else -((-x) / d)
  }

  /** C's `%`: the sign follows the dividend. */
  function TruncMod(x: int, d: int): int
    requires d > 0
  {
    x - TruncDiv(x, d) * d
  }

  /** timeradd2 */
  function Add(a: Stamp, b: Stamp, u: Unit): Outcome {
    var sec, sub := a.sec + b.sec, a.sub + b.sub;
    var sec', sub' :=
      if sub >= u then sec + 1 else if sub < 0 then sec - 1 else sec,
      if sub >= u then sub - u else if sub < 0 then sub + u else sub;
    if sec' > TIME_MAX then Outcome(Stamp(TIME_MAX, u - 1), true)
    else if sec' < TIME_MIN then Outcome(Stamp(TIME_MIN, 0), true)
    else Outcome(Stamp(sec', sub'), false)
  }

  /** timersub2 */
  function Sub(a: Stamp, b: Stamp, u: Unit): Outcome {
    var sec, sub := a.sec - b.sec, a.sub - b.sub;
    var sec', sub' :=
      if sub < 0 then sec - 1 else if sub >= u then sec + 1 else sec,
      if sub < 0 then sub + u else if sub >= u then sub - u else sub;
    if sec' > TIME_MAX || sec' < TIME_MIN then
      Outcome(Stamp(if sec' > 0 then TIME_MAX else TIME_MIN, if sec' > 0 then u - 1 else 0), true)
    else Outcome(Stamp(sec', sub'), false)
  }

  /** The scaled instant, before clamping. */
  function Scaled(a: Stamp, c: real, u: Unit): real {
    (a.sec as real * u as real + a.sub as real) * c
  }

  function ClampReal(x: real, u: Unit): real {
    var max, min := TIME_MAX as real * u as real + (u - 1) as real, TIME_MIN as real * u as real;
    if x > max || x < min then (if x < 0.0 then min else max) else x
  }

  /** A whole number of units as seconds and a non-negative remainder. */
  function Split(time: int, u: Unit): Stamp {
    var sub := TruncMod(time, u);
    var sec := TruncDiv(time - sub, u);
    if sub < 0 then Stamp(sec - 1, sub + u) else Stamp(sec, sub)
  }

  /** timermul2, over exact reals */
  function Mul(a: Stamp, c: real, u: Unit): Outcome {
    var total := Scaled(a, c, u);
    Outcome(Split(Trunc(ClampReal(total, u)), u), total != ClampReal(total, u))
  }

  datatype Cmp = Lt | Le | Eq | Ne | Ge | Gt

  predicate Compare(x: int, cmp: Cmp, y: int) {
    match cmp
    case Lt => x < y
    case Le => x <= y
    case Eq => x == y
    case Ne => x != y
    case Ge => x >= y
    case Gt => x > y
  }

  /** timercmp2 */
  predicate TimerCmp(a: Stamp, cmp: Cmp, b: Stamp) {
    if a.sec == b.sec then Compare(a.sub, cmp, b.sub) else Compare(a.sec, cmp, b.sec)
  }

  /** A normalised stamp is determined by its total. */
  lemma TotalInjective(a: Stamp, b: Stamp, u: Unit)
    requires Normal(a, u) && Normal(b, u) && Total(a, u) == Total(b, u)
    ensures a == b
  {
  }

  lemma TotalFits(a: Stamp, u: Unit)
    requires Normal(a, u)
    ensures Fits(Total(a, u), u)
  {
  }

  /** Addition is integer addition, clamped; overflow is reported exactly when it clamps. */
  lemma AddTotal(a: Stamp, b: Stamp, u: Unit)
    requires Normal(a, u) && Normal(b, u)
    ensures var r := Add(a, b, u);
            && Normal(r.value, u)
            && Total(r.value, u) == Clamp(Total(a, u) + Total(b, u), u)
            && (r.overflow <==> !Fits(Total(a, u) + Total(b, u), u))
  {
  }

  /** Subtraction is integer subtraction, clamped. */
  lemma SubTotal(a: Stamp, b: Stamp, u: Unit)
    requires Normal(a, u) && Normal(b, u)
    ensures var r := Sub(a, b, u);
            && Normal(r.value, u)
            && Total(r.value, u) == Clamp(Total(a, u) - Total(b, u), u)
            && (r.overflow <==> !Fits(Total(a, u) - Total(b, u), u))
  {
  }

  /** Every comparison operator, `<=` and `>=` included, compares the instants. */
  lemma TimerCmpTotal(a: Stamp, cmp: Cmp, b: Stamp, u: Unit)
    requires Normal(a, u) && Normal(b, u)
    ensures TimerCmp(a, cmp, b) <==> Compare(Total(a, u), cmp, Total(b, u))
  {
  }

  lemma TruncMonotone(x: real, y: real)
    requires x <= y
    ensures Trunc(x) <= Trunc(y)
  {
  }

  /** Splitting a whole number of units gives normalised fields of the same instant. */
  lemma SplitTotal(time: int, u: Unit)
    requires Fits(time, u)
    ensures Normal(Split(time, u), u) && Total(Split(time, u), u) == time
  {
    var q := TruncDiv(time, u);
    var sub := TruncMod(time, u);
    assert time - sub == q * u;
    assert TruncDiv(time - sub, u) == q;
  }

  /** Clamping before or after the truncation is the same. */
  lemma ClampThenTrunc(x: real, u: Unit)
    ensures Trunc(ClampReal(x, u)) == Clamp(Trunc(x), u)
    ensures ClampReal(x, u) != x <==> x > MaxTotal(u) as real || x < MinTotal(u) as real
  {
    if u == NSEC {
      ClampThenTruncNsec(x);
    } else {
      ClampThenTruncUsec(x);
    }
  }

  lemma ClampThenTruncNsec(x: real)
    ensures Trunc(ClampReal(x, NSEC)) == Clamp(Trunc(x), NSEC)
    ensures ClampReal(x, NSEC) != x <==> x > MaxTotal(NSEC) as real || x < MinTotal(NSEC) as real
  {
  }

  lemma ClampThenTruncUsec(x: real)
    ensures Trunc(ClampReal(x, USEC)) == Clamp(Trunc(x), USEC)
    ensures ClampReal(x, USEC) != x <==> x > MaxTotal(USEC) as real || x < MinTotal(USEC) as real
  {
  }

  lemma ScaledIsExact(a: Stamp, c: real, u: Unit)
    ensures Scaled(a, c, u) == Total(a, u) as real * c
  {
    assert a.sec as real * u as real + a.sub as real == Total(a, u) as real;
  }

  /** A whole number times a factor, truncated toward zero. */
  function Scale(x: int, c: real): int {
    Trunc(x as real * c)
  }

  /** Scaling is the product truncated toward zero, clamped; overflow is reported exactly
      when the exact product is out of range. */
  lemma MulTotal(a: Stamp, c: real, u: Unit)
    ensures var r, exact := Mul(a, c, u), Total(a, u) as real * c;
            && Normal(r.value, u)
            && Total(r.value, u) == Clamp(Scale(Total(a, u), c), u)
            && (r.overflow <==> exact > MaxTotal(u) as real || exact < MinTotal(u) as real)
  {
    ScaledIsExact(a, c, u);
    MulScaled(a, c, u);
  }

  lemma ScaleMonotone(x: int, y: int, c: real)
    requires x <= y && c >= 0.0
    ensures Scale(x, c) <= Scale(y, c)
  {
    var p, q := x as real * c, y as real * c;
    assert q - p == (y as real - x as real) * c;
    assert p <= q;
    TruncMonotone(p, q);
  }

  lemma ScaleZero(c: real)
    ensures Scale(0, c) == 0
  {
    assert 0.0 * c == 0.0;
  }

  lemma MulScaled(a: Stamp, c: real, u: Unit)
    ensures var r, exact := Mul(a, c, u), Scaled(a, c, u);
            && Normal(r.value, u)
            && Total(r.value, u) == Clamp(Trunc(exact), u)
            && (r.overflow <==> exact > MaxTotal(u) as real || exact < MinTotal(u) as real)
  {
    hide Scaled, ClampReal, Split, Trunc, Normal, Total, MaxTotal, MinTotal;
    var exact := Scaled(a, c, u);
    ClampThenTrunc(exact, u);
    SplitTotal(Clamp(Trunc(exact), u), u);
  }

  lemma {:induction false} RealProduct(x: int, k: int)
    ensures (x * k) as real == x as real * k as real
    decreases if k >= 0 then k else -k
  {
    if k > 0 {
      RealProduct(x, k - 1);
      assert x * k == x * (k - 1) + x;
      assert x as real * k as real == x as real * (k - 1) as real + x as real;
    } else if k < 0 {
      RealProduct(x, k + 1);
      assert x * k == x * (k + 1) - x;
      assert x as real * k as real == x as real * (k + 1) as real - x as real;
    }
  }

  lemma TruncWhole(x: int)
    ensures Trunc(x as real) == x
  {
  }

  /** Scaling by a whole number is integer multiplication, clamped. */
  lemma MulWhole(a: Stamp, k: int, u: Unit)
    ensures Normal(Mul(a, k as real, u).value, u)
    ensures Total(Mul(a, k as real, u).value, u) == Clamp(Total(a, u) * k, u)
  {
    hide Mul, Trunc, Normal, Total, Clamp, Scale;
    MulTotal(a, k as real, u);
    ScaleWhole(Total(a, u), k);
  }

  lemma ScaleWhole(x: int, k: int)
    ensures Scale(x, k as real) == x * k
  {
    RealProduct(x, k);
    var p := x as real * k as real;
    assert p == (x * k) as real;
    TruncWhole(x * k);
  }

  // ----- ticks -----

  /** next_time: the base plus `k` increments */
  function TickValue(base: Stamp, inc: Stamp, k: nat): Stamp {
    Add(base, Mul(inc, k as real, NSEC).value, NSEC).value
  }

  /** A tick on nanoseconds. */
  lemma TickValueNs(base: Stamp, inc: Stamp, k: nat)
    requires Normal(base, NSEC)
    ensures Normal(TickValue(base, inc, k), NSEC)
    ensures Total(TickValue(base, inc, k), NSEC)
         == Clamp(Total(base, NSEC) + Clamp(Total(inc, NSEC) * k, NSEC), NSEC)
  {
    hide Add, Mul, Normal, Total, Clamp;
    MulWhole(inc, k, NSEC);
    AddTotal(base, Mul(inc, k as real, NSEC).value, NSEC);
  }

  lemma TickGrows(inc: int, k: nat, l: nat)
    requires inc > 0 && k < l
    ensures 0 <= inc * k < inc * l
  {
    assert inc * l == inc * k + inc * (l - k);
    assert inc * (l - k) >= 1;
  }

  /** Ticks on one base with a positive increment are pairwise distinct and strictly
      increasing until they saturate. */
  lemma TicksIncrease(base: Stamp, inc: Stamp, k: nat, l: nat)
    requires Normal(base, NSEC) && Normal(inc, NSEC) && Total(inc, NSEC) > 0 && k < l
    requires Fits(Total(inc, NSEC) * l, NSEC) && Fits(Total(base, NSEC) + Total(inc, NSEC) * l, NSEC)
    ensures TimerCmp(TickValue(base, inc, k), Lt, TickValue(base, inc, l))
  {
    hide TickValue, Normal, Total, TimerCmp;
    var i := Total(inc, NSEC);
    TickValueNs(base, inc, k);
    TickValueNs(base, inc, l);
    TickGrows(i, k, l);
    TotalFits(base, NSEC);
    TimerCmpTotal(TickValue(base, inc, k), Lt, TickValue(base, inc, l), NSEC);
  }
}
