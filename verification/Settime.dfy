/** Setting the fake clock: clock_settime turns the wanted time into an offset string, and
    the next reading parses that string back. */
module Settime {
  import opened Options
  import opened TimeOps
  import opened FakeClock
  import opened ClockLaws

  const EPERM := 1
  const EFAULT := 14
  const EOVERFLOW := 75

  /** double_to_timespec over exact reals */
  function DoubleToTimespec(value: real): Option<Stamp> {
    var whole := value.Floor;
    if (whole >= 0 && whole >= TIME_MAX) || (whole < 0 && whole <= TIME_MIN) then None
    else
      var nsec := Trunc((value - whole as real) * NSEC as real);
      if nsec >= NSEC then Some(Stamp(whole + 1, 0)) else Some(Stamp(whole, nsec))
  }

  /** The offset that clock_settime prints with six decimals, in microseconds. */
  function OffsetMicros(tp: Stamp, current: Stamp): int {
    var offset := (tp.sec - current.sec) as real + (tp.sub - current.sub) as real / NSEC as real;
    (offset * USEC as real + 0.5).Floor
  }

  function Micros(k: int): real {
    k as real / USEC as real
  }

  /** What the calls made by clock_settime return. */
  datatype SetEnvironment = SetEnvironment(printed: bool, setenvErrno: int)

  /** What clock_settime leaves behind: an error, the offset now in the environment, or an
      overflow of the difference in seconds, which C does not define. */
  datatype SetResult = Error(errno: int) | SetEnv(micros: int) | Undefined

  predicate Representable(sec: int) {
    TIME_MIN <= sec <= TIME_MAX
  }

  /** clock_settime: an error that comes before anything is changed changes nothing; one from
      setenv leaves the configuration file switched off. */
  method ClockSettime(p: Process, clk: ClockId, tp: Option<Stamp>, current: Stamp, env: SetEnvironment)
    returns (r: SetResult)
    modifies p`parseConfigFile, p`forceExpiration
    ensures clk != Realtime ==> r == Error(EPERM)
    ensures clk == Realtime && tp.None? ==> r == Error(EFAULT)
    ensures r.Undefined? <==> clk == Realtime && tp.Some? && !Representable(tp.value.sec - current.sec)
    ensures clk == Realtime && tp.Some? && Representable(tp.value.sec - current.sec) ==>
              r == if !env.printed then Error(EOVERFLOW)
                   else if env.setenvErrno != 0 then Error(env.setenvErrno)
                   else SetEnv(OffsetMicros(tp.value, current))
    ensures p.Statics() == if r.SetEnv? then Forced(old(p.Statics()))
                           else if clk == Realtime && tp.Some? && r.Error? && env.printed
                           then old(p.Statics()).(parseConfigFile := false)
                           else old(p.Statics())
  {
    hide OffsetMicros;
    if clk != Realtime {
      return Error(EPERM);
    }
    if tp.None? {
      return Error(EFAULT);
    }
    if !Representable(tp.value.sec - current.sec) {
      return Undefined;
    }
    if !env.printed {
      return Error(EOVERFLOW);
    }
    p.parseConfigFile := false;
    if env.setenvErrno != 0 {
      return Error(env.setenvErrno);
    }
    p.forceExpiration := true;
    r := SetEnv(OffsetMicros(tp.value, current));
  }

  /** The environment takes precedence from now on, and is looked at by the next call. */
  function Forced(s: State): State {
    s.(cache := s.cache.(force := true), parseConfigFile := false)
  }

  /** The printed offset is within half a microsecond of the difference asked for. */
  lemma OffsetMicrosClose(tp: Stamp, current: Stamp)
    ensures -500 <= 1000 * OffsetMicros(tp, current) - (Ns(tp) - Ns(current)) <= 500
  {
    var d := Ns(tp) - Ns(current);
    var offset := (tp.sec - current.sec) as real + (tp.sub - current.sub) as real / NSEC as real;
    assert offset * NSEC as real == d as real;
    assert offset * USEC as real == d as real / 1000.0;
  }

  /** A number of seconds is accepted exactly when it lies strictly between the ends of time_t,
      and becomes the whole nanoseconds at or below it. */
  lemma DoubleToTimespecExactly(value: real)
    ensures DoubleToTimespec(value).Some? <==> TIME_MIN < value.Floor < TIME_MAX
    ensures DoubleToTimespec(value).Some? ==>
              var t := DoubleToTimespec(value).value;
              Normal(t, NSEC) && Ns(t) as real <= value * NSEC as real < Ns(t) as real + 1.0
  {
    var fraction := value - value.Floor as real;
    assert 0.0 <= fraction < 1.0;
    assert 0.0 <= fraction * NSEC as real < NSEC as real;
    assert value * NSEC as real == (value.Floor * NSEC) as real + fraction * NSEC as real;
  }

  /** Reading a number of microseconds back gives exactly that many. */
  lemma MicrosReadBack(k: int)
    ensures DoubleToTimespec(Micros(k)).Some? ==>
              var t := DoubleToTimespec(Micros(k)).value;
              Normal(t, NSEC) && Ns(t) == 1000 * k
  {
    var q, r := k / USEC, k % USEC;
    var v := Micros(k);
    assert k == q * USEC + r;
    assert v == q as real + r as real / USEC as real;
    assert 0.0 <= r as real / USEC as real < 1.0;
    assert v.Floor == q;
    assert (v - q as real) * NSEC as real == (1000 * r) as real;
    assert Trunc((1000 * r) as real) == 1000 * r;
  }

  // ----- what a configuration text means, and what the clock then holds -----

  datatype Meaning = Meaning(base: Base, modifier: Modifier)

  /** The configuration is what its text means; a text that follows a file always does. */
  ghost predicate Agrees(parse: string -> Meaning, cfg: Config) {
    if cfg.base.FollowFile? then parse(cfg.text).base.FollowFile?
    else parse(cfg.text) == Meaning(cfg.base, cfg.modifier)
  }

  /** The configurations a run of calls could look at are what their texts mean. */
  ghost predicate AgreeingCalls(parse: string -> Meaning, calls: seq<Call>) {
    forall k | 0 <= k < |calls| :: AgreeingCall(parse, calls[k])
  }

  ghost predicate AgreeingCall(parse: string -> Meaning, call: Call) {
    Agrees(parse, call.env) && (call.file.Contents? ==> Agrees(parse, call.file.config))
  }

  predicate PlainOffset(m: Meaning) {
    m.base.Offset? && !m.modifier.Rate?
  }

  /** If the text in effect is an offset without a rate, the clock is not frozen and has the
      offset ... */
  ghost predicate Aligned(parse: string -> Meaning, c: Clock) {
    var m := parse(c.saved);
    PlainOffset(m) ==> !c.mode.Freeze? && c.offset == m.base.off
  }

  /** ... and runs at it. */
  ghost predicate Follows(parse: string -> Meaning, c: Clock) {
    && Aligned(parse, c)
    && (PlainOffset(parse(c.saved)) ==> c.faked == Add(c.start.real_, parse(c.saved).base.off, NSEC).value)
  }

  /** Before the first configuration nothing is claimed. */
  lemma FollowsAtFirst(parse: string -> Meaning, c: Clock)
    requires c.saved == "" && !parse("").base.Offset?
    ensures Follows(parse, c)
  {
  }

  /** Every parse that is not skipped establishes it, whatever was before. */
  lemma FollowsParsed(parse: string -> Meaning, c: Clock, cfg: Config, now: Instants)
    requires Agrees(parse, cfg) && (cfg.text != c.saved || cfg.base.FollowFile? || Follows(parse, c))
    ensures Follows(parse, Parsed(c, cfg, now))
  {
    hide Add;
  }

  /** The call uses up the load file. */
  predicate UsesUp(s: State, call: Call) {
    !Skips(s, call) && s.infileSet && call.replay.Exhausted?
  }

  /** The last record then replaces a base that the text in effect, a plain offset, asks for. */
  ghost predicate Replaces(parse: string -> Meaning, s: State, call: Call) {
    var m := parse(After(s, call).clock.saved);
    && UsesUp(s, call) && PlainOffset(m)
    && call.replay.last != Add(call.replay.start.real_, m.base.off, NSEC).value
  }

  /** One call, whatever it looks at and whatever is left of the load file. */
  lemma FollowsAfter(parse: string -> Meaning, s: State, call: Call)
    requires AgreeingCall(parse, call) && Aligned(parse, s.clock) && (s.infileSet ==> Follows(parse, s.clock))
    ensures var s' := After(s, call);
            && (Follows(parse, s'.clock) <==>
                  !Replaces(parse, s, call) && (Parses(s, call) || Follows(parse, s.clock)))
            && Aligned(parse, s'.clock) && (s'.infileSet ==> Follows(parse, s'.clock))
            && (s'.infileSet <==> s.infileSet && !UsesUp(s, call))
  {
    hide Add, Fetched, FakedAfter, Parsed, OutsideLimits, Checked;
    if !Skips(s, call) {
      var n := Counted(s);
      FetchedKeepsFiles(n, call);
      FetchedClock(s, call);
      FakedKeeps(n, call);
      if Parses(s, call) {
        FollowsParsed(parse, s.clock, Source(s.parseConfigFile, call).config, call.now);
      }
    }
  }

  /** Call `i` has replaced the base, and no later call has parsed a text. */
  ghost predicate LeftBehind(parse: string -> Meaning, s: State, calls: seq<Call>, i: nat) {
    && i < |calls| && Replaces(parse, AfterAll(s, calls[..i]), calls[i])
    && forall k | i < k < |calls| :: !Parses(AfterAll(s, calls[..k]), calls[k])
  }

  lemma LeftBehindExtends(parse: string -> Meaning, s: State, calls: seq<Call>, i: nat)
    requires calls != [] && i < |calls| - 1
    ensures var n := |calls| - 1;
            LeftBehind(parse, s, calls, i) <==>
              LeftBehind(parse, s, calls[..n], i) && !Parses(AfterAll(s, calls[..n]), calls[n])
  {
    hide Replaces, Parses, AfterAll;
    var n := |calls| - 1;
    var before := calls[..n];
    assert forall k | 0 <= k < n :: before[..k] == calls[..k] && before[k] == calls[k];
  }

  /** At the end of any run the clock runs at the plain offset in effect if and only if no call
      used up a load file that ends elsewhere without a text being parsed since. */
  lemma {:induction false} FollowsExactly(parse: string -> Meaning, s: State, calls: seq<Call>)
    requires Follows(parse, s.clock) && AgreeingCalls(parse, calls)
    ensures var s' := AfterAll(s, calls);
            && (Follows(parse, s'.clock) <==> !exists i: nat :: LeftBehind(parse, s, calls, i))
            && Aligned(parse, s'.clock) && (s'.infileSet ==> Follows(parse, s'.clock))
  {
    hide Replaces, Parses, After, Aligned, AgreeingCall, LeftBehind, Follows;
    FollowsIsAligned(parse, s.clock);
    if calls == [] {
      NothingLeftBehind(parse, s);
    } else {
      var n := |calls| - 1;
      var before, last := calls[..n], calls[n];
      FollowsExactly(parse, s, before);
      FollowsAfter(parse, AfterAll(s, before), last);
      forall i: nat | i < n
        ensures LeftBehind(parse, s, calls, i) <==>
                  LeftBehind(parse, s, before, i) && !Parses(AfterAll(s, before), last)
      {
        LeftBehindExtends(parse, s, calls, i);
      }
      LastLeftBehind(parse, s, calls);
    }
  }

  lemma FollowsIsAligned(parse: string -> Meaning, c: Clock)
    ensures Follows(parse, c) ==> Aligned(parse, c)
  {
  }

  lemma NothingLeftBehind(parse: string -> Meaning, s: State)
    ensures forall i: nat :: !LeftBehind(parse, s, [], i)
  {
  }

  lemma LastLeftBehind(parse: string -> Meaning, s: State, calls: seq<Call>)
    requires calls != []
    ensures var n := |calls| - 1;
            && (LeftBehind(parse, s, calls, n) <==> Replaces(parse, AfterAll(s, calls[..n]), calls[n]))
            && (forall i: nat | i > n :: !LeftBehind(parse, s, calls, i))
            && (forall i: nat | i >= n :: !LeftBehind(parse, s, calls[..n], i))
  {
    hide Replaces, Parses;
  }

  /** The text parsed when a process starts is what it means; none means an offset unsaid. */
  ghost predicate AgreeingBoot(parse: string -> Meaning, b: Boot) {
    && !parse("").base.Offset?
    && (BootText(b).Contents? ==> Agrees(parse, BootText(b).config))
  }

  lemma FollowsBooted(parse: string -> Meaning, b: Boot)
    requires AgreeingBoot(parse, b)
    ensures Follows(parse, Booted(b).clock)
  {
    hide Parsed, Follows;
    FollowsAtFirst(parse, Unparsed(b));
    if BootText(b).Contents? {
      FollowsParsed(parse, Unparsed(b), BootText(b).config, b.now);
    }
  }

  /** So in every state that a process without a load file reaches from its start the clock
      runs at the plain offset in effect. */
  lemma {:induction false} FollowsAlways(parse: string -> Meaning, b: Boot, calls: seq<Call>)
    requires AgreeingBoot(parse, b) && AgreeingCalls(parse, calls) && !b.infileSet
    ensures Follows(parse, AfterAll(Booted(b), calls).clock) && !AfterAll(Booted(b), calls).infileSet
  {
    hide Booted, Follows, Aligned, AgreeingCall, After, AgreeingBoot;
    if calls == [] {
      FollowsBooted(parse, b);
      BootedInfile(b);
    } else {
      var n := |calls| - 1;
      FollowsAlways(parse, b, calls[..n]);
      var u := AfterAll(Booted(b), calls[..n]);
      FollowsIsAligned(parse, u.clock);
      FollowsAfter(parse, u, calls[n]);
      assert !UsesUp(u, calls[n]);
    }
  }

  lemma BootedInfile(b: Boot)
    ensures Booted(b).infileSet == b.infileSet
  {
  }

  // ----- reading back what was set -----

  /** The clock runs at a plain offset. */
  ghost predicate AtOffset(c: Clock, start: Stamp, off: Stamp) {
    && c.mode.StartAt? && !c.rateSet && !c.tickSet && c.start.real_ == start
    && c.faked == Add(start, off, NSEC).value
  }

  /** A real reading and the offset stay clear of the ends of the representable range. */
  ghost predicate Clear(start: Stamp, off: Stamp, tp: Stamp) {
    && Fits(Ns(start) + Ns(off), NSEC)
    && Fits(Ns(tp) - Ns(start), NSEC)
    && Fits(Ns(tp) + Ns(off), NSEC)
  }

  /** At a plain offset the reading is the real time plus the offset, exactly unless one
      of the three sums saturates. */
  lemma PlainReading(c: Clock, start: Stamp, off: Stamp, tp: Stamp)
    requires AtOffset(c, start, off) && Normal(start, NSEC) && Normal(off, NSEC) && Normal(tp, NSEC)
    requires Clear(start, off, tp)
    ensures Ns(Shifted(c, Realtime, tp)) == Ns(tp) + Ns(off)
  {
    hide Add, Shifted, Normal;
    AddTotal(start, off, NSEC);
    ShiftedNs(c, Realtime, tp);
  }

  /** For a clock started after 1970 and read after its start, the reading is exact if and
      only if neither the offset start nor the offset reading is out of range. */
  lemma PlainReadingExactly(c: Clock, start: Stamp, off: Stamp, tp: Stamp)
    requires AtOffset(c, start, off) && Normal(start, NSEC) && Normal(off, NSEC) && Normal(tp, NSEC)
    requires 0 <= Ns(start) <= Ns(tp)
    ensures Ns(Shifted(c, Realtime, tp)) == Ns(tp) + Ns(off)
       <==> Fits(Ns(start) + Ns(off), NSEC) && Fits(Ns(tp) + Ns(off), NSEC)
  {
    hide Add, Shifted, Normal, Total;
    TotalFits(tp, NSEC);
    AddTotal(start, off, NSEC);
    ShiftedNs(c, Realtime, tp);
  }

  /** If `text` is already in effect, the clock runs as it says. */
  ghost predicate FollowsIf(parse: string -> Meaning, c: Clock, text: string) {
    c.saved == text ==> Follows(parse, c)
  }

  /** No modifiers and no limits in effect, and no load file being replayed. */
  ghost predicate Unmodified(s: State) {
    && !s.clock.mode.Noop? && !s.clock.rateSet && !s.clock.tickSet && !s.infileSet && s.limits == NO_LIMITS
  }

  lemma SettledByLook(parse: string -> Meaning, s: State, call: Call, off: Stamp)
    requires FollowsIf(parse, s.clock, call.env.text) && Agrees(parse, call.env) && call.env.base == Offset(off)
    requires call.env.modifier.NoModifier? && Unmodified(s) && !s.parseConfigFile && !Bypasses(call)
    requires s.cache.force || s.clock.saved == call.env.text
    ensures !Skips(s, call) && Counted(s) == s
    ensures var c := Settled(s, call).clock;
            AtOffset(c, s.clock.start.real_, off) && c.saved == call.env.text
    ensures var s' := After(s, call);
            && AtOffset(s'.clock, s.clock.start.real_, off) && s'.clock.saved == call.env.text
            && FollowsIf(parse, s'.clock, call.env.text) && !s'.parseConfigFile && Unmodified(s')
  {
    hide Add, FakedAfter, Fetched, OutsideLimits;
    NoLimits(s, call);
    LookSettles(parse, s, call, off);
    FakedKeeps(s, call);
    UnloadedKeeps(Fetched(s, call), call);
  }

  lemma LookSettles(parse: string -> Meaning, s: State, call: Call, off: Stamp)
    requires FollowsIf(parse, s.clock, call.env.text) && Agrees(parse, call.env) && call.env.base == Offset(off)
    requires call.env.modifier.NoModifier? && Unmodified(s) && !s.parseConfigFile
    requires s.cache.force || s.clock.saved == call.env.text
    ensures var s' := Fetched(s, call);
            && AtOffset(s'.clock, s.clock.start.real_, off) && s'.clock.saved == call.env.text && s'.clock.offset == off
            && !s'.parseConfigFile && Unmodified(s')
  {
    hide Add;
  }

  /** Reads of the real-time clock with `cfg` in the environment. */
  ghost predicate Reads(calls: seq<Call>, cfg: Config) {
    forall k | 0 <= k < |calls| :: calls[k].env == cfg && calls[k].clk.Realtime? && !calls[k].dontFake
  }

  /** The run after a clock_settime: from the first reading on the clock is at the offset. */
  lemma {:induction false} SettledRun(parse: string -> Meaning, s: State, calls: seq<Call>, cfg: Config, i: nat)
    requires FollowsIf(parse, s.clock, cfg.text) && Agrees(parse, cfg)
    requires cfg.base.Offset? && cfg.modifier.NoModifier?
    requires Unmodified(s) && i < |calls| && Reads(calls, cfg)
    ensures var s' := AfterAll(Forced(s), calls[..i]);
            && !Skips(s', calls[i]) && Counted(s') == s'
            && AtOffset(Settled(s', calls[i]).clock, s.clock.start.real_, cfg.base.off)
            && FollowsIf(parse, s'.clock, cfg.text) && !s'.parseConfigFile && Unmodified(s')
            && s'.clock.start.real_ == s.clock.start.real_
            && (s'.cache.force || s'.clock.saved == cfg.text)
  {
    hide FollowsIf, Follows, Agrees, Settled, After, Skips;
    if i == 0 {
      assert calls[..0] == [];
      SettledByLook(parse, Forced(s), calls[0], cfg.base.off);
    } else {
      SettledRun(parse, s, calls, cfg, i - 1);
      assert calls[..i][..i - 1] == calls[..i - 1];
      var before := AfterAll(Forced(s), calls[..i - 1]);
      SettledByLook(parse, before, calls[i - 1], cfg.base.off);
      SettledByLook(parse, After(before, calls[i - 1]), calls[i], cfg.base.off);
    }
  }

  /** A process without modifiers and no longer replaying a file that can be set to `tp`: `cfg`
      is what the offset then in the environment parses to. */
  ghost predicate Settable(parse: string -> Meaning, s: State, tp: Stamp, current: Stamp, cfg: Config) {
    && FollowsIf(parse, s.clock, cfg.text) && Agrees(parse, cfg) && Unmodified(s)
    && Normal(s.clock.start.real_, NSEC)
    && cfg.modifier.NoModifier? && cfg.base.Offset?
    && DoubleToTimespec(Micros(OffsetMicros(tp, current))) == Some(cfg.base.off)
  }

  /** After clock_settime(tp) at real time `current`, the next and every later reading is the
      wanted time plus the real time that has passed, within half a microsecond, whatever
      configuration was in effect before. */
  lemma ReadsWhatWasSet(parse: string -> Meaning, s: State, tp: Stamp, current: Stamp, cfg: Config,
                        calls: seq<Call>, i: nat)
    requires Settable(parse, s, tp, current, cfg) && Reads(calls, cfg) && i < |calls|
    requires Normal(calls[i].tp, NSEC) && Clear(s.clock.start.real_, cfg.base.off, calls[i].tp)
    ensures var r := ReadingAt(Forced(s), calls, i);
            && r.ret == 0
            && -500 <= Ns(r.tp) - (Ns(tp) + (Ns(calls[i].tp) - Ns(current))) <= 500
  {
    hide FollowsIf, Agrees, Settled, AfterAll, OffsetMicros, DoubleToTimespec, Micros, Shifted, Clear, Normal, Add,
         OutsideLimits;
    var k := OffsetMicros(tp, current);
    OffsetMicrosClose(tp, current);
    MicrosReadBack(k);
    SettledRun(parse, s, calls, cfg, i);
    var before := AfterAll(Forced(s), calls[..i]);
    PlainReading(Settled(before, calls[i]).clock, s.clock.start.real_, cfg.base.off, calls[i].tp);
  }

  /** So does a process that has been running since its start, with or without a load file,
      unless the text asked for is in effect already and a used-up file has replaced its base. */
  lemma SetAfterRun(parse: string -> Meaning, b: Boot, before: seq<Call>, tp: Stamp, current: Stamp, cfg: Config,
                    calls: seq<Call>, i: nat)
    requires AgreeingBoot(parse, b) && AgreeingCalls(parse, before) && Agrees(parse, cfg)
    requires var s := AfterAll(Booted(b), before);
             && Unmodified(s) && Normal(s.clock.start.real_, NSEC)
             && (s.clock.saved == cfg.text ==> !exists j: nat :: LeftBehind(parse, Booted(b), before, j))
    requires cfg.modifier.NoModifier? && cfg.base.Offset? && Reads(calls, cfg) && i < |calls|
    requires DoubleToTimespec(Micros(OffsetMicros(tp, current))) == Some(cfg.base.off)
    requires Normal(calls[i].tp, NSEC)
    requires Clear(AfterAll(Booted(b), before).clock.start.real_, cfg.base.off, calls[i].tp)
    ensures var r := ReadingAt(Forced(AfterAll(Booted(b), before)), calls, i);
            && r.ret == 0
            && -500 <= Ns(r.tp) - (Ns(tp) + (Ns(calls[i].tp) - Ns(current))) <= 500
  {
    hide *;
    FollowsBooted(parse, b);
    FollowsExactly(parse, Booted(b), before);
    var s := AfterAll(Booted(b), before);
    assert Settable(parse, s, tp, current, cfg) by {
      SettableFrom(parse, s, tp, current, cfg);
    }
    ReadsWhatWasSet(parse, s, tp, current, cfg, calls, i);
  }

  lemma SettableFrom(parse: string -> Meaning, s: State, tp: Stamp, current: Stamp, cfg: Config)
    requires s.clock.saved == cfg.text ==> Follows(parse, s.clock)
    requires Agrees(parse, cfg) && Unmodified(s) && Normal(s.clock.start.real_, NSEC)
    requires cfg.modifier.NoModifier? && cfg.base.Offset?
    requires DoubleToTimespec(Micros(OffsetMicros(tp, current))) == Some(cfg.base.off)
    ensures Settable(parse, s, tp, current, cfg)
  {
  }

  /** That exception is exact: the next reading has the offset asked for if and only if it does
      not apply. */
  lemma SetTakesEffectExactly(parse: string -> Meaning, b: Boot, before: seq<Call>, call: Call)
    requires AgreeingBoot(parse, b) && AgreeingCalls(parse, before) && Agrees(parse, call.env)
    requires var s := AfterAll(Booted(b), before); Settling(s, call)
    ensures var s := AfterAll(Booted(b), before);
            Ns(Answer(Forced(s), call).tp) == Ns(call.tp) + Ns(call.env.base.off) <==>
            !(s.clock.saved == call.env.text && exists j: nat :: LeftBehind(parse, Booted(b), before, j))
  {
    hide *;
    FollowsBooted(parse, b);
    FollowsExactly(parse, Booted(b), before);
    NextReadingExactly(parse, AfterAll(Booted(b), before), call);
  }

  /** A first reading after clock_settime, everything well within range. */
  ghost predicate Settling(s: State, call: Call) {
    && Unmodified(s) && call.clk.Realtime? && !call.dontFake && call.env.base.Offset? && call.env.modifier.NoModifier?
    && var start, off := s.clock.start.real_, call.env.base.off;
       && Normal(start, NSEC) && Normal(off, NSEC) && Normal(call.tp, NSEC)
       && (s.clock.saved == call.env.text ==> Normal(s.clock.faked, NSEC))
       && Clear(start, off, call.tp) && MinTotal(NSEC) < Ns(call.tp) + Ns(off) < MaxTotal(NSEC)
  }

  lemma NextReadingExactly(parse: string -> Meaning, s: State, call: Call)
    requires Aligned(parse, s.clock) && Agrees(parse, call.env) && Settling(s, call)
    ensures Ns(Answer(Forced(s), call).tp) == Ns(call.tp) + Ns(call.env.base.off)
       <==> (s.clock.saved == call.env.text ==> Follows(parse, s.clock))
  {
    hide Answer, Follows, Settled, Skips, Shifted, Clear, Normal, Add, Total;
    var off := call.env.base.off;
    if FollowsIf(parse, s.clock, call.env.text) {
      SettledByLook(parse, Forced(s), call, off);
      PlainAnswer(Forced(s), call);
      PlainReading(Settled(Forced(s), call).clock, s.clock.start.real_, off, call.tp);
    } else {
      StaleAnswer(parse, s, call);
    }
  }

  lemma PlainAnswer(s: State, call: Call)
    requires !Skips(s, call) && Counted(s) == s && !s.infileSet && Settled(s, call).clock.mode.StartAt?
    requires !Settled(s, call).clock.tickSet && call.clk.Realtime?
    ensures Answer(s, call).tp == Shifted(Settled(s, call).clock, Realtime, call.tp)
  {
    hide Settled, Shifted, OutsideLimits;
  }

  /** With its text unchanged the clock reads from the base it has. */
  lemma StaleAnswer(parse: string -> Meaning, s: State, call: Call)
    requires Aligned(parse, s.clock) && Agrees(parse, call.env) && Settling(s, call)
    requires s.clock.saved == call.env.text && !Follows(parse, s.clock)
    ensures Ns(Answer(Forced(s), call).tp) != Ns(call.tp) + Ns(call.env.base.off)
  {
    hide Shifted, Add, Normal, Total, OutsideLimits;
    var c, off := s.clock, call.env.base.off;
    NoLimits(Forced(s), call);
    assert Settled(Forced(s), call).clock == c;
    PlainAnswer(Forced(s), call);
    ShiftedNs(c, Realtime, call.tp);
    AddTotal(c.start.real_, off, NSEC);
    if Ns(c.faked) == Ns(c.start.real_) + Ns(off) {
      TotalInjective(c.faked, Add(c.start.real_, off, NSEC).value, NSEC);
    }
  }

  /** Such a process: started at 100 seconds with the offset +5, it uses up a load file that
      ends with time 0.  Set to the same offset again, it reads 100 at 200 seconds. */
  lemma UsedUpFileMisleads(b: Boot, at: Instants, first: Call, call: Call)
    requires b.env == Some(Config("+5.000000", Offset(Stamp(5, 0)), NoModifier)) && !b.excluded
    requires b.infileSet && b.limits == NO_LIMITS && b.start.real_ == at.real_ == Stamp(100, 0)
    requires first.clk.Realtime? && !first.dontFake && first.env == b.env.value
    requires first.replay == Exhausted(Stamp(0, 0), at)
    requires call.clk.Realtime? && !call.dontFake && call.env == b.env.value && call.tp == Stamp(200, 0)
    ensures Answer(Forced(AfterAll(Booted(b), [first])), call).tp == Stamp(100, 0)
  {
    hide After, Booted, AfterAll;
    OneCall(Booted(b), first);
    UsedUp(b, at, first);
  }

  lemma UsedUp(b: Boot, at: Instants, first: Call)
    requires b.env == Some(Config("+5.000000", Offset(Stamp(5, 0)), NoModifier)) && !b.excluded
    requires b.infileSet && b.limits == NO_LIMITS && !Bypasses(first) && first.env == b.env.value
    requires first.replay == Exhausted(Stamp(0, 0), at)
    ensures var s := After(Booted(b), first);
            && s.clock.faked == Stamp(0, 0) && s.clock.start == at && s.clock.saved == b.env.value.text
            && Unmodified(s) && s.clock.mode.StartAt? && !s.parseConfigFile
  {
    hide FakedAfter, Checked, Add;
    FakedKeeps(Booted(b), first);
  }

  /** The same of a process that sets its clock and then reads it. */
  method SetThenRead(ghost parse: string -> Meaning, s: State, tp: Stamp, current: Stamp, env: SetEnvironment,
                     ghost cfg: Config, calls: seq<Call>)
    returns (r: SetResult, out: seq<Reading>)
    requires Settable(parse, s, tp, current, cfg) && Reads(calls, cfg)
    requires forall k | 0 <= k < |calls| ::
               Normal(calls[k].tp, NSEC) && Clear(s.clock.start.real_, cfg.base.off, calls[k].tp)
    ensures r.SetEnv? ==> |out| == |calls|
    ensures r.SetEnv? ==> forall i | 0 <= i < |out| ::
              out[i].ret == 0 && -500 <= Ns(out[i].tp) - (Ns(tp) + (Ns(calls[i].tp) - Ns(current))) <= 500
    ensures r.SetEnv? <==> Representable(tp.sec - current.sec) && env == SetEnvironment(true, 0)
  {
    hide Settable, ReadingAt, Clear, Normal, Total, Process.Statics, Forced, Answer, After;
    var p := new Process(s);
    r := ClockSettime(p, Realtime, Some(tp), current, env);
    out := [];
    if r.SetEnv? {
      out := p.ReadAll(calls);
      forall i | 0 <= i < |out|
        ensures out[i].ret == 0 && -500 <= Ns(out[i].tp) - (Ns(tp) + (Ns(calls[i].tp) - Ns(current))) <= 500
      {
        ReadsWhatWasSet(parse, s, tp, current, cfg, calls, i);
      }
    }
  }
}
