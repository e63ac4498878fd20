/** Absolute deadlines on the fake clock, converted to the real clock for the kernel
    (clock_nanosleep, timer_settime, timerfd_settime). */
module Deadlines {
  import opened TimeOps
  import opened FakeClock
  import opened ClockLaws

  /** A deadline on the fake clock `clk` as an instant of the real one. */
  function ToReal(c: Clock, clk: ClockId, req: Stamp): Stamp
    requires c.rateSet ==> c.rate > 0.0
  {
    var timeadj := Sub(req, c.faked, NSEC).value;
    var tdiff := if c.rateSet then Mul(timeadj, 1.0 / c.rate, NSEC).value else timeadj;
    Add(c.start.Of(clk), tdiff, NSEC).value
  }

  /** clock_nanosleep */
  function NanosleepTarget(c: Clock, clk: ClockId, abstime: bool, fakeMonotonic: bool, dontFake: bool, req: Stamp): Stamp
    requires c.rateSet ==> c.rate > 0.0
  {
    if abstime then
      var timeadj := Sub(req, c.faked, NSEC).value;
      var tdiff := if c.rateSet then Mul(timeadj, 1.0 / c.rate, NSEC).value else timeadj;
      if clk.Realtime? then Add(c.start.real_, tdiff, NSEC).value
      else if clk.Monotonic? then (if fakeMonotonic then Add(c.start.mon, tdiff, NSEC).value else req)
      else req
    else if c.rateSet && !dontFake && (clk.Realtime? || clk.Monotonic?) then Mul(req, 1.0 / c.rate, NSEC).value
    else req
  }

  /** normalize_timespec_value */
  function Normalize(t: Stamp): Stamp {
    if 0 <= t.sub < NSEC then t
    else
      var seconds, nanoseconds := TruncDiv(t.sub, NSEC), TruncMod(t.sub, NSEC);
      if nanoseconds < 0 then Stamp(t.sec + seconds - 1, nanoseconds + NSEC)
      else Stamp(t.sec + seconds, nanoseconds)
  }

  /** timer_settime and timerfd_settime: the first expiry; a zero value disarms the timer */
  function TimerTarget(c: Clock, clk: ClockId, abstime: bool, fakeMonotonic: bool, dontFake: bool, value: Stamp): Stamp
    requires c.rateSet ==> c.rate > 0.0
  {
    if dontFake || !(value.sec != 0 || value.sub != 0) then value
    else if abstime then
      var timeadj :=
        if clk.Monotonic? && fakeMonotonic then Sub(value, Normalize(c.faked), NSEC).value
        else if clk.Monotonic? then value
        else Sub(value, c.faked, NSEC).value;
      var tdiff := if c.rateSet then Mul(timeadj, 1.0 / c.rate, NSEC).value else timeadj;
      if clk.Monotonic? && fakeMonotonic then Add(c.start.mon, tdiff, NSEC).value
      else if !clk.Monotonic? then Add(c.start.real_, tdiff, NSEC).value
      else value
    else if c.rateSet then Mul(value, 1.0 / c.rate, NSEC).value
    else value
  }

  /** The deadline is converted at all. */
  predicate Converted(clk: ClockId, fakeMonotonic: bool) {
    clk.Realtime? || (clk.Monotonic? && fakeMonotonic)
  }

  /** Sleeping until a deadline and arming a timer for it aim at the same real instant,
      although one normalises the base first and orders its cases differently. */
  lemma SleepAndTimerAgree(c: Clock, clk: ClockId, fakeMonotonic: bool, req: Stamp)
    requires (c.rateSet ==> c.rate > 0.0) && (clk.Realtime? || clk.Monotonic?) && req != Stamp(0, 0)
    requires Normal(c.faked, NSEC)
    ensures var target := NanosleepTarget(c, clk, true, fakeMonotonic, false, req);
            && target == TimerTarget(c, clk, true, fakeMonotonic, false, req)
            && target == if Converted(clk, fakeMonotonic) then ToReal(c, clk, req) else req
  {
  }

  // ----- on nanoseconds -----

  ghost function Unadjusted(c: Clock, d: int): int
    requires c.rateSet ==> c.rate > 0.0
  {
    if c.rateSet then Clamp(Scale(d, 1.0 / c.rate), NSEC) else d
  }

  ghost function RealNs(c: Clock, clk: ClockId, y: int): int
    requires c.rateSet ==> c.rate > 0.0
  {
    Clamp(Ns(c.start.Of(clk)) + Unadjusted(c, Clamp(y - Ns(c.faked), NSEC)), NSEC)
  }

  /** The field-by-field conversion is the one on nanoseconds. */
  lemma ToRealNs(c: Clock, clk: ClockId, req: Stamp)
    requires Anchors(c, clk) && Normal(req, NSEC) && (c.rateSet ==> c.rate > 0.0)
    ensures Normal(ToReal(c, clk, req), NSEC) && Ns(ToReal(c, clk, req)) == RealNs(c, clk, Ns(req))
  {
    hide Add, Sub, Mul, Normal, Total, Clamp, Scale;
    SubTotal(req, c.faked, NSEC);
    var timeadj := Sub(req, c.faked, NSEC).value;
    if c.rateSet {
      MulTotal(timeadj, 1.0 / c.rate, NSEC);
      AddTotal(c.start.Of(clk), Mul(timeadj, 1.0 / c.rate, NSEC).value, NSEC);
    } else {
      AddTotal(c.start.Of(clk), timeadj, NSEC);
    }
  }

  lemma Reciprocal(r: real)
    requires r > 0.0
    ensures 1.0 / r > 0.0 && (1.0 / r) * r == 1.0
  {
  }

  /** Later deadlines never convert to earlier ones, saturation included. */
  lemma RealNsMonotone(c: Clock, clk: ClockId, y: int, z: int)
    requires y <= z && (c.rateSet ==> c.rate > 0.0)
    ensures RealNs(c, clk, y) <= RealNs(c, clk, z)
  {
    hide Clamp, Scale, Total;
    var f, s := Ns(c.faked), Ns(c.start.Of(clk));
    ClampMonotone(y - f, z - f);
    var d, e := Clamp(y - f, NSEC), Clamp(z - f, NSEC);
    if c.rateSet {
      Reciprocal(c.rate);
      ScaleMonotone(d, e, 1.0 / c.rate);
      ClampMonotone(Scale(d, 1.0 / c.rate), Scale(e, 1.0 / c.rate));
    }
    ClampMonotone(s + Unadjusted(c, d), s + Unadjusted(c, e));
  }

  /** Without a rate the conversion inverts the clock exactly when neither difference nor
      sum saturates. */
  lemma ExactWithoutRate(c: Clock, clk: ClockId, y: int)
    requires Anchors(c, clk) && !c.rateSet && Fits(y, NSEC)
    ensures var f, s := Ns(c.faked), Ns(c.start.Of(clk));
            FakeNs(c, clk, RealNs(c, clk, y)) == y <==> Fits(y - f, NSEC) && Fits(s + (y - f), NSEC)
  {
    hide Normal, Total;
    TotalFits(c.faked, NSEC);
    TotalFits(c.start.Of(clk), NSEC);
  }

  /** With the lowest base the last representable time is too far away: the clock does not show
      it at the instant it converts to. */
  lemma TooFarCounterexample(c: Clock, clk: ClockId)
    requires Anchors(c, clk) && !c.rateSet && Ns(c.faked) == MinTotal(NSEC) && Ns(c.start.Of(clk)) == 0
    ensures FakeNs(c, clk, RealNs(c, clk, MaxTotal(NSEC))) == -1
  {
  }

  // ----- with a rate -----

  lemma ScaleNegative(x: int, c: real)
    ensures Scale(-x, c) == -Scale(x, c)
  {
    var p := x as real * c;
    assert (-x) as real * c == -p;
  }

  lemma ScaleFloor(x: int, c: real)
    requires x >= 0 && c >= 0.0
    ensures var p := x as real * c; p >= 0.0 && 0 <= Scale(x, c) && Scale(x, c) as real <= p < Scale(x, c) as real + 1.0
  {
    var p := x as real * c;
    assert p >= 0.0;
  }

  /** Multiplying two reals by the same positive factor keeps their order, both ways. */
  lemma MultiplyThrough(a: real, b: real, r: real, ar: real, br: real)
    requires r > 0.0 && ar == a * r && br == b * r
    ensures a <= b <==> ar <= br
    ensures a < b <==> ar < br
  {
    assert br - ar == (b - a) * r;
  }

  lemma Undo(x: real, i: real, r: real)
    requires i * r == 1.0
    ensures (x * i) * r == x
  {
    assert (x * i) * r == x * (i * r);
  }

  /** Dividing by the rate and rounding down is the counterpart of multiplying by it. */
  lemma Counterpart(d: int, x: int, i: real, r: real)
    requires r > 0.0 && i > 0.0 && i * r == 1.0 && d >= 0 && x >= 0
    ensures Scale(d, i) >= x <==> x as real * r <= d as real
  {
    hide Scale, Trunc;
    ScaleFloor(d, i);
    Undo(d as real, i, r);
    MultiplyThrough(x as real, d as real * i, r, x as real * r, d as real);
  }

  /** Dividing by the rate, cutting the result, and multiplying back: what is lost beyond the
      cut is less than the rate plus one. */
  lemma RoundTripLoss(d: int, e: int, i: real, r: real)
    requires r > 0.0 && i > 0.0 && i * r == 1.0 && 0 <= d && 0 <= e <= Scale(d, i)
    ensures var t := Scale(d, i);
            && 0 <= Scale(e, r) <= d
            && 0.0 <= (d - Scale(e, r)) as real - (t - e) as real * r < r + 1.0
  {
    hide Scale, Trunc;
    var t := Scale(d, i);
    ScaleFloor(d, i);
    ScaleFloor(e, r);
    Undo(d as real, i, r);
    var tr, er := t as real * r, e as real * r;
    MultiplyThrough(t as real, d as real * i, r, tr, d as real);
    MultiplyThrough(d as real * i, t as real + 1.0, r, d as real, tr + r);
    MultiplyThrough(e as real, t as real, r, er, tr);
    assert (t - e) as real * r == tr - er;
  }

  lemma RoundTripLossBoth(d: int, e: int, r: real)
    requires r > 0.0
    requires var t := Scale(d, 1.0 / r); (d >= 0 ==> 0 <= e <= t) && (d <= 0 ==> t <= e <= 0)
    ensures var t, u := Scale(d, 1.0 / r), Scale(e, r);
            && (d >= 0 ==> 0 <= u <= d) && (d <= 0 ==> d <= u <= 0)
            && -(r + 1.0) < (d - u) as real - (t - e) as real * r < r + 1.0
  {
    hide Scale;
    Reciprocal(r);
    var i := 1.0 / r;
    if d >= 0 {
      RoundTripLoss(d, e, i, r);
    } else {
      ScaleNegative(-d, i);
      ScaleNegative(-e, r);
      RoundTripLoss(-d, -e, i, r);
      var gap := Scale(-d, i) - (-e);
      assert (-gap) as real * r == -(gap as real * r);
    }
  }

  /** The distance of a deadline from the base, within range, and divided by the rate. */
  ghost function Scaled(c: Clock, y: int): int
    requires c.rateSet && c.rate > 0.0
  {
    Scale(Clamp(y - Ns(c.faked), NSEC), 1.0 / c.rate)
  }

  /** What saturation cuts off the deadline `y`, in time of the fake clock: the part of the
      distance that is out of range, and the part of the real instant that is. */
  ghost function Cut(c: Clock, clk: ClockId, y: int): real
    requires c.rateSet && c.rate > 0.0
  {
    var d := y - Ns(c.faked);
    (d - Clamp(d, NSEC)) as real
    + (Scaled(c, y) - (RealNs(c, clk, y) - Ns(c.start.Of(clk)))) as real * c.rate
  }

  /** With a rate the conversion inverts the clock, up to what saturation cuts off, to within
      the rate plus one nanoseconds. */
  lemma CloseWithRate(c: Clock, clk: ClockId, y: int)
    requires Anchors(c, clk) && c.rateSet && c.rate > 0.0 && Fits(y, NSEC)
    ensures var loss := y - FakeNs(c, clk, RealNs(c, clk, y));
            -(c.rate + 1.0) < loss as real - Cut(c, clk, y) < c.rate + 1.0
  {
    hide Normal, Total, Scale, Clamp, FakeNs, RealNs;
    var f, s := Ns(c.faked), Ns(c.start.Of(clk));
    var d, e := Clamp(y - f, NSEC), RealNs(c, clk, y) - s;
    CutTowardStart(c, clk, y);
    RoundTripLossBoth(d, e, c.rate);
    ReadAfterCut(c, clk, y, e);
    var u := Scale(e, c.rate);
    assert (y - (f + u)) as real == (y - f - d) as real + (d - u) as real;
  }

  /** Saturation moves the real instant toward the start, never across it. */
  lemma CutTowardStart(c: Clock, clk: ClockId, y: int)
    requires Anchors(c, clk) && c.rateSet && c.rate > 0.0
    ensures var d := Clamp(y - Ns(c.faked), NSEC);
            var t, e := Scaled(c, y), RealNs(c, clk, y) - Ns(c.start.Of(clk));
            && (d >= 0 ==> 0 <= e <= t) && (d <= 0 ==> t <= e <= 0) && Fits(e, NSEC)
  {
    hide Normal, Total, Scale;
    TotalFits(c.start.Of(clk), NSEC);
    Reciprocal(c.rate);
    ScaleSign(Clamp(y - Ns(c.faked), NSEC), 1.0 / c.rate);
  }

  /** The clock reads back a distance that lies within that of a deadline without clamping. */
  lemma ReadAfterCut(c: Clock, clk: ClockId, y: int, e: int)
    requires Anchors(c, clk) && c.rateSet && c.rate > 0.0 && Fits(y, NSEC) && Fits(e, NSEC)
    requires var d, u := Clamp(y - Ns(c.faked), NSEC), Scale(e, c.rate);
             (d >= 0 ==> 0 <= u <= d) && (d <= 0 ==> d <= u <= 0)
    ensures FakeNs(c, clk, Ns(c.start.Of(clk)) + e) == Ns(c.faked) + Scale(e, c.rate)
  {
    hide Normal, Total, Scale;
    TotalFits(c.faked, NSEC);
  }

  lemma ScaleSign(d: int, i: real)
    requires i > 0.0
    ensures d >= 0 ==> Scale(d, i) >= 0
    ensures d <= 0 ==> Scale(d, i) <= 0
  {
    hide Scale;
    if d >= 0 {
      ScaleFloor(d, i);
    }
    if d <= 0 {
      ScaleFloor(-d, i);
      ScaleNegative(-d, i);
    }
  }

  /** Nothing is cut off exactly when no step is out of range. */
  lemma NothingCutExactly(c: Clock, clk: ClockId, y: int)
    requires Anchors(c, clk) && c.rateSet && c.rate > 0.0
    ensures var t := Scaled(c, y);
            Cut(c, clk, y) == 0.0 <==>
              Fits(y - Ns(c.faked), NSEC) && Fits(t, NSEC) && Fits(Ns(c.start.Of(clk)) + t, NSEC)
  {
    hide Normal, Total, Scale;
    TotalFits(c.start.Of(clk), NSEC);
    var d, t := y - Ns(c.faked), Scaled(c, y);
    ScaleSign(Clamp(d, NSEC), 1.0 / c.rate);
    var g := t - (RealNs(c, clk, y) - Ns(c.start.Of(clk)));
    GapSign(g, c.rate);
  }

  lemma GapSign(g: int, r: real)
    requires r > 0.0
    ensures g > 0 ==> g as real * r > 0.0
    ensures g < 0 ==> g as real * r < 0.0
    ensures g == 0 ==> g as real * r == 0.0
  {
  }

  // ----- deadlines that have passed -----

  lemma PassedScaled(d: int, x: int, i: real, r: real)
    requires r > 0.0 && i > 0.0 && i * r == 1.0 && x >= 0 && d <= Scale(x, r)
    ensures Scale(d, i) <= x
  {
    hide Scale, Trunc;
    if d >= 0 {
      ScaleFloor(x, r);
      ScaleFloor(d, i);
      Undo(d as real, i, r);
      MultiplyThrough(d as real * i, x as real, r, d as real, x as real * r);
    } else {
      ScaleSign(d, i);
    }
  }

  /** A deadline that has passed on the fake clock has passed on the real clock, provided
      the real clock is not before the start time; saturation included. */
  lemma PassedStaysPassed(c: Clock, clk: ClockId, x: int, y: int)
    requires Anchors(c, clk) && (c.rateSet ==> c.rate > 0.0) && Fits(x, NSEC)
    requires Ns(c.start.Of(clk)) <= x && y <= FakeNs(c, clk, x)
    ensures RealNs(c, clk, y) <= x
  {
    hide Normal, Total, Scale;
    TotalFits(c.faked, NSEC);
    TotalFits(c.start.Of(clk), NSEC);
    var f, s := Ns(c.faked), Ns(c.start.Of(clk));
    var e, d := Clamp(x - s, NSEC), Clamp(y - f, NSEC);
    if c.rateSet {
      Reciprocal(c.rate);
      ScaleSign(e, c.rate);
      PassedScaled(d, e, 1.0 / c.rate, c.rate);
    }
  }

  /** `m` nanoseconds before the start are within range and, at the rate, a whole number of
      nanoseconds of the fake clock that are within range too. */
  ghost predicate WholeStepBack(c: Clock, m: int)
    requires c.rateSet ==> c.rate > 0.0
  {
    && Fits(-m, NSEC)
    && if !c.rateSet then Fits(Ns(c.faked) - m, NSEC)
       else var w := Scale(m, c.rate);
            w as real == m as real * c.rate && Fits(-w, NSEC) && Fits(Ns(c.faked) - w, NSEC)
  }

  /** The arithmetic of it: `m` is cut to `e`, its scaled value to `u` and that to `d`. */
  lemma StepBack(m: int, e: int, d: int, i: real, r: real)
    requires r > 0.0 && i > 0.0 && i * r == 1.0 && 0 <= e <= m && 0 <= d <= Scale(e, r)
    ensures 0 <= Scale(d, i) <= e
    ensures Scale(d, i) == m <==> e == m && d == Scale(m, r) && d as real == m as real * r
  {
    hide Scale, Trunc;
    ScaleFloor(e, r);
    ScaleFloor(d, i);
    ScaleFloor(m, r);
    Undo(d as real, i, r);
    MultiplyThrough(d as real * i, e as real, r, d as real, e as real * r);
    Counterpart(d, m, i, r);
    MultiplyThrough(e as real, m as real, r, e as real * r, m as real * r);
  }

  /** Before the start time, the current fake time converts to an instant that has passed
      exactly when the step back is a whole one. */
  lemma BeforeStartExactly(c: Clock, clk: ClockId, x: int)
    requires Anchors(c, clk) && (c.rateSet ==> c.rate > 0.0) && Fits(x, NSEC) && x < Ns(c.start.Of(clk))
    ensures RealNs(c, clk, FakeNs(c, clk, x)) <= x <==> WholeStepBack(c, Ns(c.start.Of(clk)) - x)
  {
    hide Normal, Total, Scale;
    TotalFits(c.faked, NSEC);
    TotalFits(c.start.Of(clk), NSEC);
    if c.rateSet {
      BeforeStartWithRate(c, clk, x);
    }
  }

  lemma BeforeStartWithRate(c: Clock, clk: ClockId, x: int)
    requires Anchors(c, clk) && c.rateSet && c.rate > 0.0 && Fits(x, NSEC) && x < Ns(c.start.Of(clk))
    requires Fits(Ns(c.faked), NSEC) && Fits(Ns(c.start.Of(clk)), NSEC)
    ensures RealNs(c, clk, FakeNs(c, clk, x)) <= x <==> WholeStepBack(c, Ns(c.start.Of(clk)) - x)
  {
    hide Normal, Total, Scale, WholeStepBack;
    var f, s, r := Ns(c.faked), Ns(c.start.Of(clk)), c.rate;
    Reciprocal(r);
    var i := 1.0 / r;
    var m := s - x;
    var e := -Clamp(-m, NSEC);
    ScaleNegative(e, r);
    ScaleSign(e, r);
    var u := -Clamp(-Scale(e, r), NSEC);
    var d := f - Clamp(f - u, NSEC);
    assert FakeNs(c, clk, x) == f - d;
    ScaleNegative(d, i);
    StepBack(m, e, d, i, r);
    assert RealNs(c, clk, f - d) == s - Scale(d, i);
    WholeStepByParts(c, m, e, d);
  }

  lemma WholeStepByParts(c: Clock, m: int, e: int, d: int)
    requires c.rateSet && c.rate > 0.0 && m > 0 && Fits(Ns(c.faked), NSEC)
    requires e == -Clamp(-m, NSEC) && d == Ns(c.faked) - Clamp(Ns(c.faked) + Clamp(-Scale(e, c.rate), NSEC), NSEC)
    ensures e == m && d == Scale(m, c.rate) && d as real == m as real * c.rate <==> WholeStepBack(c, m)
  {
    hide Total, Scale;
    ScaleSign(m, c.rate);
    ScaleSign(e, c.rate);
  }

  /** Every deadline that has passed on the fake clock has passed on the real clock if and
      only if the real clock is not before the start time or the step back is a whole one. */
  lemma PassedExactly(c: Clock, clk: ClockId, x: int)
    requires Anchors(c, clk) && (c.rateSet ==> c.rate > 0.0) && Fits(x, NSEC)
    ensures (forall y | y <= FakeNs(c, clk, x) :: RealNs(c, clk, y) <= x)
       <==> Ns(c.start.Of(clk)) <= x || WholeStepBack(c, Ns(c.start.Of(clk)) - x)
  {
    hide Normal, Total, FakeNs, RealNs, WholeStepBack;
    var now := FakeNs(c, clk, x);
    forall y | y <= now
      ensures RealNs(c, clk, y) <= RealNs(c, clk, now)
    {
      RealNsMonotone(c, clk, y, now);
    }
    if Ns(c.start.Of(clk)) <= x {
      PassedStaysPassed(c, clk, x, now);
    } else {
      BeforeStartExactly(c, clk, x);
    }
  }

  /** Before the start time the truncation toward zero turns the other way: at half speed,
      one nanosecond before the start reads as the anchor, and that reading, taken as a
      deadline, converts to the start, which is still ahead. */
  lemma BeforeStartCounterexample(c: Clock)
    requires Anchors(c, Realtime) && c.rateSet && c.rate == 0.5 && Ns(c.start.real_) > MinTotal(NSEC)
    ensures var start := Ns(c.start.real_);
            FakeNs(c, Realtime, start - 1) == Ns(c.faked) && RealNs(c, Realtime, Ns(c.faked)) == start
  {
    hide Normal, Total;
    TotalFits(c.faked, NSEC);
    TotalFits(c.start.real_, NSEC);
    assert (-1) as real * 0.5 == -0.5;
    ScaleZero(1.0 / 0.5);
  }

  /** Without a rate it takes a base at the very end of the range: the clock cannot show
      anything earlier, and its earliest time converts to the start. */
  lemma LowestBaseCounterexample(c: Clock, clk: ClockId)
    requires Anchors(c, clk) && !c.rateSet && Ns(c.faked) == MinTotal(NSEC) && Ns(c.start.Of(clk)) == 0
    ensures FakeNs(c, clk, -1) == MinTotal(NSEC) && RealNs(c, clk, MinTotal(NSEC)) == 0
  {
  }

  // ----- deadlines that are still ahead -----

  /** The distance from the start, and what the rate makes of it, are within range. */
  ghost predicate InReach(c: Clock, clk: ClockId, x: int)
    requires c.rateSet ==> c.rate > 0.0
  {
    var e := x - Ns(c.start.Of(clk));
    Fits(e, NSEC) && (c.rateSet ==> e as real * c.rate <= MaxTotal(NSEC) as real)
  }

  /** From the start time on, the first deadline ahead converts to an instant not behind
      exactly when the present is in reach. */
  lemma FirstAhead(c: Clock, clk: ClockId, x: int)
    requires Anchors(c, clk) && (c.rateSet ==> c.rate > 0.0) && Fits(x, NSEC)
    requires Ns(c.start.Of(clk)) <= x && FakeNs(c, clk, x) < MaxTotal(NSEC)
    ensures RealNs(c, clk, FakeNs(c, clk, x) + 1) >= x <==> InReach(c, clk, x)
  {
    hide Normal, Total, Scale;
    TotalFits(c.faked, NSEC);
    TotalFits(c.start.Of(clk), NSEC);
    if c.rateSet {
      FirstAheadWithRate(c, clk, x);
    }
  }

  lemma FirstAheadWithRate(c: Clock, clk: ClockId, x: int)
    requires Anchors(c, clk) && c.rateSet && c.rate > 0.0 && Fits(x, NSEC)
    requires Fits(Ns(c.faked), NSEC) && Fits(Ns(c.start.Of(clk)), NSEC)
    requires Ns(c.start.Of(clk)) <= x && FakeNs(c, clk, x) < MaxTotal(NSEC)
    ensures RealNs(c, clk, FakeNs(c, clk, x) + 1) >= x <==> InReach(c, clk, x)
  {
    hide Normal, Total, Scale, InReach;
    var f, s, r := Ns(c.faked), Ns(c.start.Of(clk)), c.rate;
    Reciprocal(r);
    var e := Clamp(x - s, NSEC);
    ScaleSign(e, r);
    var u := Clamp(Scale(e, r), NSEC);
    assert FakeNs(c, clk, x) == f + u;
    var d := Clamp(u + 1, NSEC);
    ScaleSign(d, 1.0 / r);
    assert RealNs(c, clk, f + u + 1) >= x <==> Clamp(Scale(d, 1.0 / r), NSEC) >= x - s;
    ReachScaled(x - s, 1.0 / r, r, (x - s) as real * r);
    InReachByParts(c, clk, x, (x - s) as real * r);
  }

  lemma InReachByParts(c: Clock, clk: ClockId, x: int, p: real)
    requires c.rateSet && c.rate > 0.0 && Ns(c.start.Of(clk)) <= x
    requires p == (x - Ns(c.start.Of(clk))) as real * c.rate
    ensures InReach(c, clk, x) <==> x - Ns(c.start.Of(clk)) <= MaxTotal(NSEC) && p <= MaxTotal(NSEC) as real
  {
    hide Total;
  }

  /** One more than what the clock has added to its base divides to the distance `e` again
      exactly when `e` and its scaled value `p` are in range. */
  lemma ReachScaled(e: int, i: real, r: real, p: real)
    requires r > 0.0 && i > 0.0 && i * r == 1.0 && e >= 0 && p == e as real * r
    ensures var u := Clamp(Scale(Clamp(e, NSEC), r), NSEC);
            Clamp(Scale(Clamp(u + 1, NSEC), i), NSEC) >= e <==>
            e <= MaxTotal(NSEC) && p <= MaxTotal(NSEC) as real
  {
    hide Scale, Clamp, MaxTotal, MinTotal;
    var u := Clamp(Scale(Clamp(e, NSEC), r), NSEC);
    ClampAtLeast(Scale(Clamp(u + 1, NSEC), i), e);
    if e <= MaxTotal(NSEC) {
      ReachWithin(e, i, r, p);
    }
  }

  lemma ReachWithin(e: int, i: real, r: real, p: real)
    requires r > 0.0 && i > 0.0 && i * r == 1.0 && 0 <= e <= MaxTotal(NSEC) && p == e as real * r
    ensures var d := Clamp(Clamp(Scale(e, r), NSEC) + 1, NSEC);
            Scale(d, i) >= e <==> p <= MaxTotal(NSEC) as real
  {
    hide Scale, Clamp, MaxTotal, MinTotal;
    ScaleFloor(e, r);
    RangeOfProduct(p, Scale(e, r));
    Counterpart(Clamp(Clamp(Scale(e, r), NSEC) + 1, NSEC), e, i, r);
  }

  /** A clamped value reaches a number exactly when the value does and the number is in range. */
  lemma ClampAtLeast(t: int, e: int)
    requires e >= 0
    ensures Clamp(t, NSEC) >= e <==> t >= e && e <= MaxTotal(NSEC)
    ensures e <= MaxTotal(NSEC) ==> Clamp(e, NSEC) == e
  {
  }

  lemma RangeOfProduct(p: real, n: int)
    requires n as real <= p < n as real + 1.0 && n >= 0
    ensures Clamp(Clamp(n, NSEC) + 1, NSEC) >= 0
    ensures p <= Clamp(Clamp(n, NSEC) + 1, NSEC) as real <==> p <= MaxTotal(NSEC) as real
  {
  }

  /** Before the start time a deadline ahead is never behind after the conversion. */
  lemma AheadBeforeStart(c: Clock, clk: ClockId, x: int, y: int)
    requires Anchors(c, clk) && (c.rateSet ==> c.rate > 0.0) && Fits(x, NSEC)
    requires x < Ns(c.start.Of(clk)) && y > FakeNs(c, clk, x)
    ensures RealNs(c, clk, y) >= x
  {
    hide Normal, Total, Scale;
    TotalFits(c.faked, NSEC);
    TotalFits(c.start.Of(clk), NSEC);
    if c.rateSet {
      var f, s, r := Ns(c.faked), Ns(c.start.Of(clk)), c.rate;
      Reciprocal(r);
      var i := 1.0 / r;
      var e, d := -Clamp(x - s, NSEC), Clamp(y - f, NSEC);
      ScaleSign(d, i);
      ScaleNegative(e, r);
      ScaleSign(e, r);
      if d < 0 {
        ScaleNegative(-d, i);
        StepBack(s - x, e, -d, i, r);
      }
    }
  }

  /** Every deadline still ahead on the fake clock is not behind on the real clock if and only
      if the real clock is before the start time, or the fake clock has reached the end of
      its range, or the present is in reach. */
  lemma PendingExactly(c: Clock, clk: ClockId, x: int)
    requires Anchors(c, clk) && (c.rateSet ==> c.rate > 0.0) && Fits(x, NSEC)
    ensures (forall y | FakeNs(c, clk, x) < y <= MaxTotal(NSEC) :: RealNs(c, clk, y) >= x)
       <==> || x < Ns(c.start.Of(clk))
            || FakeNs(c, clk, x) == MaxTotal(NSEC)
            || InReach(c, clk, x)
  {
    FakeNsFits(c, clk, x);
    hide Normal, Total, FakeNs, RealNs, InReach, Scale;
    var now := FakeNs(c, clk, x);
    if x < Ns(c.start.Of(clk)) {
      forall y | now < y <= MaxTotal(NSEC)
        ensures RealNs(c, clk, y) >= x
      {
        AheadBeforeStart(c, clk, x, y);
      }
    } else if now < MaxTotal(NSEC) {
      forall y | now < y
        ensures RealNs(c, clk, now + 1) <= RealNs(c, clk, y)
      {
        RealNsMonotone(c, clk, now + 1, y);
      }
      FirstAhead(c, clk, x);
    }
  }

  /** With base and start at the very beginning of the range the clock at 0 shows one nanosecond
      less, and the deadline 0, still ahead, converts to an instant that has passed. */
  lemma OutOfReachCounterexample(c: Clock, clk: ClockId)
    requires Anchors(c, clk) && !c.rateSet && Ns(c.faked) == Ns(c.start.Of(clk)) == MinTotal(NSEC)
    ensures FakeNs(c, clk, 0) == -1 && RealNs(c, clk, 0) == -1
  {
  }

  /** In particular a single deadline ahead, with the present in reach. */
  lemma PendingStaysPending(c: Clock, clk: ClockId, x: int, y: int)
    requires Anchors(c, clk) && (c.rateSet ==> c.rate > 0.0) && Fits(x, NSEC) && Fits(y, NSEC)
    requires y > FakeNs(c, clk, x) && (x < Ns(c.start.Of(clk)) || InReach(c, clk, x))
    ensures RealNs(c, clk, y) >= x
  {
    hide FakeNs, RealNs, InReach;
    PendingExactly(c, clk, x);
  }

  lemma FakeNsFits(c: Clock, clk: ClockId, x: int)
    ensures Fits(FakeNs(c, clk, x), NSEC)
  {
  }

  // ----- on the structs that callers pass -----

  lemma SleepTarget(c: Clock, clk: ClockId, req: Stamp)
    requires (c.rateSet ==> c.rate > 0.0) && (clk.Realtime? || clk.Monotonic?)
    ensures NanosleepTarget(c, clk, true, true, false, req) == ToReal(c, clk, req)
  {
  }

  /** Without a rate, the clock reads exactly the requested time at the instant slept until,
      unless a step saturates. */
  lemma SleepEndsOnTime(c: Clock, clk: ClockId, req: Stamp)
    requires Anchors(c, clk) && !c.rateSet && Normal(req, NSEC) && (clk.Realtime? || clk.Monotonic?)
    ensures var target := NanosleepTarget(c, clk, true, true, false, req);
            var f, s := Ns(c.faked), Ns(c.start.Of(clk));
            Shifted(c, clk, target) == req <==> Fits(Ns(req) - f, NSEC) && Fits(s + (Ns(req) - f), NSEC)
  {
    hide Shifted, ToReal, FakeNs, RealNs, NanosleepTarget;
    SleepTarget(c, clk, req);
    ToRealNs(c, clk, req);
    var target := ToReal(c, clk, req);
    ShiftedNs(c, clk, target);
    TotalFits(req, NSEC);
    ExactWithoutRate(c, clk, Ns(req));
    if Ns(Shifted(c, clk, target)) == Ns(req) {
      TotalInjective(Shifted(c, clk, target), req, NSEC);
    }
  }

  /** A sleep until a time the clock already shows does not wait. */
  lemma NoSleepUntilThePast(c: Clock, clk: ClockId, now: Stamp, req: Stamp)
    requires Anchors(c, clk) && (c.rateSet ==> c.rate > 0.0) && (clk.Realtime? || clk.Monotonic?)
    requires Normal(now, NSEC) && Normal(req, NSEC)
    requires TimerCmp(c.start.Of(clk), Le, now) && TimerCmp(req, Le, Shifted(c, clk, now))
    ensures TimerCmp(NanosleepTarget(c, clk, true, true, false, req), Le, now)
  {
    hide Shifted, ToReal, FakeNs, RealNs, TimerCmp, Normal, Total, NanosleepTarget;
    SleepTarget(c, clk, req);
    ShiftedNs(c, clk, now);
    ToRealNs(c, clk, req);
    TotalFits(now, NSEC);
    TotalFits(req, NSEC);
    TimerCmpTotal(c.start.Of(clk), Le, now, NSEC);
    TimerCmpTotal(req, Le, Shifted(c, clk, now), NSEC);
    PassedStaysPassed(c, clk, Ns(now), Ns(req));
    TimerCmpTotal(ToReal(c, clk, req), Le, now, NSEC);
  }

  // ----- intervals -----

  /** What is passed to the kernel unchanged: intervals without a rate or while faking is
      suspended, times of other clocks, deadlines of a monotonic clock that is not faked, and
      whatever a timer is given that disarms it or comes while faking is suspended. */
  lemma PassedUnchanged(c: Clock, clk: ClockId, abstime: bool, fakeMonotonic: bool, dontFake: bool, req: Stamp)
    requires c.rateSet ==> c.rate > 0.0
    ensures !abstime && (!c.rateSet || dontFake) ==>
              && NanosleepTarget(c, clk, abstime, fakeMonotonic, dontFake, req) == req
              && TimerTarget(c, clk, abstime, fakeMonotonic, dontFake, req) == req
    ensures !clk.Realtime? && !clk.Monotonic? ==> NanosleepTarget(c, clk, abstime, fakeMonotonic, dontFake, req) == req
    ensures abstime && clk.Monotonic? && !fakeMonotonic ==>
              && NanosleepTarget(c, clk, abstime, fakeMonotonic, dontFake, req) == req
              && TimerTarget(c, clk, abstime, fakeMonotonic, dontFake, req) == req
    ensures dontFake || req == Stamp(0, 0) ==> TimerTarget(c, clk, abstime, fakeMonotonic, dontFake, req) == req
  {
  }

  /** A sleep until a deadline is converted even while faking is suspended; a timer of any clock
      but the monotonic one is converted as one of the real-time clock. */
  lemma ConvertedAnyway(c: Clock, clk: ClockId, fakeMonotonic: bool, dontFake: bool, req: Stamp)
    requires (c.rateSet ==> c.rate > 0.0) && req != Stamp(0, 0)
    ensures NanosleepTarget(c, clk, true, fakeMonotonic, dontFake, req)
         == if Converted(clk, fakeMonotonic) then ToReal(c, clk, req) else req
    ensures !clk.Monotonic? ==> TimerTarget(c, clk, true, fakeMonotonic, false, req) == ToReal(c, Realtime, req)
  {
  }

  /** The real interval that a sleep or a timer is given for the interval `req`, on nanoseconds. */
  lemma IntervalNs(c: Clock, clk: ClockId, fakeMonotonic: bool, req: Stamp)
    requires c.rateSet && c.rate > 0.0 && (clk.Realtime? || clk.Monotonic?) && req != Stamp(0, 0)
    ensures var target := NanosleepTarget(c, clk, false, fakeMonotonic, false, req);
            && target == TimerTarget(c, clk, false, fakeMonotonic, false, req)
            && Normal(target, NSEC) && Ns(target) == Clamp(Scale(Ns(req), 1.0 / c.rate), NSEC)
  {
    hide Mul, Scale, Clamp, Normal, Total;
    MulTotal(req, 1.0 / c.rate, NSEC);
  }

  /** The clock does not leave its range from the real time `x` until `d` later. */
  ghost predicate StaysInRange(c: Clock, clk: ClockId, x: int, d: int)
    requires c.rateSet && c.rate > 0.0
  {
    var e := x + d - Ns(c.start.Of(clk));
    Fits(e, NSEC) && Fits(Scale(e, c.rate), NSEC) && Fits(Ns(c.faked) + Scale(e, c.rate), NSEC)
  }

  /** Over the real interval slept for `req` the fake clock advances by `req`: never by more, and
      by less than the rate plus one nanoseconds less. */
  lemma IntervalsAreKept(c: Clock, clk: ClockId, fakeMonotonic: bool, req: Stamp, x: int)
    requires Anchors(c, clk) && c.rateSet && c.rate > 0.0 && (clk.Realtime? || clk.Monotonic?)
    requires req != Stamp(0, 0) && Ns(req) >= 0 && x >= Ns(c.start.Of(clk)) && Fits(Scale(Ns(req), 1.0 / c.rate), NSEC)
    requires var d := Ns(NanosleepTarget(c, clk, false, fakeMonotonic, false, req)); StaysInRange(c, clk, x, d)
    ensures var d := Ns(NanosleepTarget(c, clk, false, fakeMonotonic, false, req));
            var advance := FakeNs(c, clk, x + d) - FakeNs(c, clk, x);
            advance <= Ns(req) && Ns(req) as real - advance as real < c.rate + 1.0
  {
    hide Normal, Total, Scale, NanosleepTarget, TimerTarget;
    TotalFits(c.faked, NSEC);
    IntervalNs(c, clk, fakeMonotonic, req);
    Reciprocal(c.rate);
    var d, e := Scale(Ns(req), 1.0 / c.rate), x - Ns(c.start.Of(clk));
    ScaleSign(Ns(req), 1.0 / c.rate);
    ScaleSign(e, c.rate);
    ScaleMonotone(e, e + d, c.rate);
    AdvanceScaled(Ns(req), e, 1.0 / c.rate, c.rate);
  }

  lemma AdvanceScaled(req: int, e: int, i: real, r: real)
    requires r > 0.0 && i > 0.0 && i * r == 1.0 && req >= 0 && e >= 0
    ensures var advance := Scale(e + Scale(req, i), r) - Scale(e, r);
            advance <= req && req as real - advance as real < r + 1.0
  {
    hide Scale, Trunc;
    var d := Scale(req, i);
    ScaleFloor(req, i);
    ScaleFloor(e, r);
    ScaleFloor(e + d, r);
    Undo(req as real, i, r);
    var dr := d as real * r;
    MultiplyThrough(d as real, req as real * i, r, dr, req as real);
    MultiplyThrough(req as real * i, d as real + 1.0, r, req as real, dr + r);
    assert (e + d) as real * r == e as real * r + dr;
  }
}
