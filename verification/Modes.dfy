/** What each form of a FAKETIME text makes the clocks read, from the start of a process on. */
module Modes {
  import opened Options
  import opened TimeOps
  import opened FakeClock
  import opened ClockLaws

  // ----- one instant per clock -----

  /** Each of the four clocks has an instant of its own; any other goes by the real-time one. */
  lemma InstantsOf(x: Instants)
    ensures x.Of(Realtime) == x.real_ && x.Of(Monotonic) == x.mon
    ensures x.Of(MonotonicRaw) == x.monRaw && x.Of(Boottime) == x.boot && x.Of(OtherClock) == x.real_
  {
  }

  /** Replacing the instant of one clock leaves those of the others. */
  lemma InstantsWith(x: Instants, clk: ClockId, t: Stamp)
    ensures clk.Realtime? ==> x.With(clk, t) == Instants(t, x.mon, x.monRaw, x.boot)
    ensures clk.Monotonic? ==> x.With(clk, t) == Instants(x.real_, t, x.monRaw, x.boot)
    ensures clk.MonotonicRaw? ==> x.With(clk, t) == Instants(x.real_, x.mon, t, x.boot)
    ensures clk.Boottime? ==> x.With(clk, t) == Instants(x.real_, x.mon, x.monRaw, t)
    ensures clk.CpuTime? || clk.OtherClock? ==> x.With(clk, t) == x
  {
  }

  /** A faked call remembers the real time passed in and its answer, for the clock asked for. */
  lemma RemembersPair(s: State, call: Call)
    requires !Skips(s, call) && !s.infileSet && Answer(s, call).ret == 0
    ensures var before, after := Settled(Counted(s), call).clock, After(s, call).clock;
            && after.timecache == before.timecache.With(call.clk, call.tp)
            && after.fakecache == before.fakecache.With(call.clk, Answer(s, call).tp)
  {
    hide FakedAfter, FakedAnswer, OutsideLimits, Instants.With;
    FakedRemembers(Counted(s), call);
  }

  lemma FakedRemembers(s: State, call: Call)
    requires !s.infileSet && FakedAnswer(s, call).ret == 0
    ensures var before, after := Settled(s, call).clock, FakedAfter(s, call).clock;
            && after.timecache == before.timecache.With(call.clk, call.tp)
            && after.fakecache == before.fakecache.With(call.clk, FakedAnswer(s, call).tp)
  {
    hide Settled, Faked, Instants.With;
    SettledOutfile(s, call);
  }

  lemma SettledOutfile(s: State, call: Call)
    ensures Settled(s, call).outfileSet == s.outfileSet
  {
    hide Fetched;
    FetchedKeepsFiles(s, call);
  }

  /** Under FAKETIME_XRESET a new rate moves the start of every clock to its last real time, and
      the base to the last fake time of the real-time clock, if there is one; without it, or
      without a last time, the start stays and the base is the one of the offset. */
  lemma XresetAnchors(c: Clock, cfg: Config, now: Instants)
    requires cfg.text != c.saved && cfg.base.Offset? && cfg.modifier.Rate?
    ensures var c' := Parsed(c, cfg, now);
            && c'.rateSet && c'.rate == cfg.modifier.rate && c'.offset == cfg.base.off
            && (c.xreset && c.timecache.real_.sub >= 0 ==> c'.start == c.timecache && c'.faked == c.fakecache.real_)
            && (!c.xreset || c.timecache.real_.sub < 0 ==>
                  c'.start == c.start && c'.faked == Add(c.start.real_, cfg.base.off, NSEC).value)
  {
    hide Add;
  }

  // ----- a text that stays -----

  /** A process faked without load file or limits, started with a text that does not follow a
      file and of which every look brings that text again, or nothing. */
  ghost predicate Steady(b: Boot, cfg: Config, calls: seq<Call>) {
    && BootText(b) == Contents(cfg) && cfg.text != "" && !cfg.base.FollowFile?
    && !b.excluded && !b.infileSet && b.limits == NO_LIMITS
    && (forall k | 0 <= k < |calls| :: Repeats(b, cfg, calls[k]))
  }

  ghost predicate Repeats(b: Boot, cfg: Config, call: Call) {
    var src := Source(b.env.None?, call);
    src.Contents? ==> src.config.text == cfg.text && !src.config.base.FollowFile?
  }

  /** The clock that the text makes. */
  function Made(b: Boot, cfg: Config): Clock {
    Parsed(Unparsed(b), cfg, b.now)
  }

  lemma BootedClock(b: Boot, cfg: Config, calls: seq<Call>)
    requires Steady(b, cfg, calls)
    ensures var s := Booted(b);
            && s.clock == Made(b, cfg) && s.clock.saved == cfg.text && s.outfileSet == b.outfileSet && Quiet(s, calls)
  {
    hide ParsedBase, ParsedModifier, Source;
    forall k | 0 <= k < |calls|
      ensures SameText(Booted(b), calls[k])
    {
      assert Repeats(b, cfg, calls[k]);
    }
  }

  lemma FakedSame(c: Clock, d: Clock, call: Call, record: bool)
    requires SameSettings(c, d)
    ensures Faked(c, call, record) == Faked(d, call, record)
  {
    hide Add, Sub, Mul, TickValue, Instants.Of;
  }

  /** Every call that is not bypassed is answered by the clock that the text made. */
  lemma SteadyAnswer(b: Boot, cfg: Config, calls: seq<Call>, i: nat)
    requires Steady(b, cfg, calls) && i < |calls| && !Bypasses(calls[i])
    ensures ReadingAt(Booted(b), calls, i) == Faked(Made(b, cfg), calls[i], b.outfileSet)
  {
    hide Booted, Made, AfterAll, After, Faked, Settled, SameText, OutsideLimits, Steady;
    var s := Booted(b);
    BootedClock(b, cfg, calls);
    RunKeepsSettings(s, calls[..i]);
    var before := AfterAll(s, calls[..i]);
    SameTextKept(s, before, calls[i]);
    CallKeepsSettings(before, calls[i]);
    NoLimits(before, calls[i]);
    FakedSame(s.clock, before.clock, calls[i], b.outfileSet);
  }

  // ----- the forms of a text -----

  /** A plain date freezes every clock there, whatever modifier comes with it. */
  lemma DateFreezes(b: Boot, cfg: Config, calls: seq<Call>, i: nat)
    requires Steady(b, cfg, calls) && cfg.base.Absolute? && i < |calls| && !Bypasses(calls[i])
    ensures ReadingAt(Booted(b), calls, i) == Reading(0, cfg.base.at, false, b.outfileSet)
  {
    SteadyAnswer(b, cfg, calls, i);
  }

  /** A modifier alone leaves every clock with the real time. */
  lemma ModifierAloneIsReal(b: Boot, cfg: Config, calls: seq<Call>, i: nat)
    requires Steady(b, cfg, calls) && cfg.base.ModifiersOnly? && i < |calls| && !Bypasses(calls[i])
    ensures ReadingAt(Booted(b), calls, i) == Reading(0, calls[i].tp, false, b.outfileSet)
  {
    SteadyAnswer(b, cfg, calls, i);
  }

  /** What a clock that runs reads: the base, plus what has passed of the clock's own real time
      since its start, at the rate if there is one; each step clamped. */
  ghost function Running(base: int, start: int, rate: Option<real>, now: int): int {
    var passed := Clamp(now - start, NSEC);
    Clamp(base + (if rate.Some? then Clamp(Scale(passed, rate.value), NSEC) else passed), NSEC)
  }

  /** The rate that a modifier sets; ticks aside. */
  function RateOf(m: Modifier): Option<real> {
    if m.Rate? then Some(m.rate) else None
  }

  lemma RunningReads(c: Clock, clk: ClockId, tp: Stamp)
    requires Anchors(c, clk) && Normal(tp, NSEC)
    ensures Normal(Shifted(c, clk, tp), NSEC)
    ensures Ns(Shifted(c, clk, tp))
         == Running(Ns(c.faked), Ns(c.start.Of(clk)), if c.rateSet then Some(c.rate) else None, Ns(tp))
  {
    hide Shifted, Clamp, Scale, Total, Normal;
    ShiftedNs(c, clk, tp);
  }

  /** An offset runs every clock from the start of the process, with the start time plus the
      offset as the base. */
  lemma OffsetRuns(b: Boot, cfg: Config, calls: seq<Call>, i: nat)
    requires Steady(b, cfg, calls) && cfg.base.Offset? && !cfg.modifier.Tick? && i < |calls| && !Bypasses(calls[i])
    requires Normal(b.start.real_, NSEC) && Normal(cfg.base.off, NSEC)
    requires Normal(b.start.Of(calls[i].clk), NSEC) && Normal(calls[i].tp, NSEC)
    ensures var r := ReadingAt(Booted(b), calls, i);
            && r.ret == 0 && !r.ticked && r.recorded == b.outfileSet
            && Ns(r.tp) == Running(Clamp(Ns(b.start.real_) + Ns(cfg.base.off), NSEC), Ns(b.start.Of(calls[i].clk)),
                                   RateOf(cfg.modifier), Ns(calls[i].tp))
  {
    hide Running, Shifted, Clamp, Total, Normal, Add, Steady, ReadingAt, Booted, Instants.Of;
    SteadyAnswer(b, cfg, calls, i);
    OffsetMakes(b, cfg, calls);
    AddTotal(b.start.real_, cfg.base.off, NSEC);
    RunningReads(Made(b, cfg), calls[i].clk, calls[i].tp);
  }

  lemma OffsetMakes(b: Boot, cfg: Config, calls: seq<Call>)
    requires Steady(b, cfg, calls) && cfg.base.Offset?
    ensures var c := Made(b, cfg);
            && c.mode.StartAt? && c.start == b.start && c.faked == Add(b.start.real_, cfg.base.off, NSEC).value
            && c.rateSet == cfg.modifier.Rate? && (cfg.modifier.Rate? ==> c.rate == cfg.modifier.rate)
            && c.tickSet == cfg.modifier.Tick? && (cfg.modifier.Tick? ==> c.tickInc == cfg.modifier.inc)
  {
    hide Add;
  }

  /** A date after '@' runs every clock from the moment of the parse, or from the start of the
      process with FAKETIME_DONT_RESET, with that date as the base. */
  lemma FromRuns(b: Boot, cfg: Config, calls: seq<Call>, i: nat)
    requires Steady(b, cfg, calls) && cfg.base.From? && !cfg.modifier.Tick? && i < |calls| && !Bypasses(calls[i])
    requires Normal(cfg.base.at, NSEC) && Normal(calls[i].tp, NSEC)
    requires Normal((if b.dontReset then b.start else b.now).Of(calls[i].clk), NSEC)
    ensures var r := ReadingAt(Booted(b), calls, i);
            && r.ret == 0 && !r.ticked && r.recorded == b.outfileSet
            && Ns(r.tp) == Running(Ns(cfg.base.at), Ns((if b.dontReset then b.start else b.now).Of(calls[i].clk)),
                                   RateOf(cfg.modifier), Ns(calls[i].tp))
  {
    hide Running, Shifted, Total, Normal, Steady, ReadingAt, Booted, Instants.Of;
    SteadyAnswer(b, cfg, calls, i);
    FromMakes(b, cfg, calls);
    RunningReads(Made(b, cfg), calls[i].clk, calls[i].tp);
  }

  lemma FromMakes(b: Boot, cfg: Config, calls: seq<Call>)
    requires Steady(b, cfg, calls) && cfg.base.From?
    ensures var c := Made(b, cfg);
            && c.mode.StartAt? && c.start == (if b.dontReset then b.start else b.now) && c.faked == cfg.base.at
            && c.rateSet == cfg.modifier.Rate? && (cfg.modifier.Rate? ==> c.rate == cfg.modifier.rate)
            && c.tickSet == cfg.modifier.Tick? && (cfg.modifier.Tick? ==> c.tickInc == cfg.modifier.inc)
  {
  }

  /** With a tick modifier every call consumes a tick and reads the base plus as many increments
      as ticks were consumed before, whatever the real time is. */
  lemma TicksCount(b: Boot, cfg: Config, calls: seq<Call>, i: nat)
    requires Steady(b, cfg, calls) && cfg.modifier.Tick? && i < |calls| && !Bypasses(calls[i])
    requires cfg.base.Offset? || cfg.base.From?
    requires cfg.base.From? ==> Normal(cfg.base.at, NSEC)
    requires cfg.base.Offset? ==> Normal(b.start.real_, NSEC) && Normal(cfg.base.off, NSEC)
    ensures var r := ReadingAt(Booted(b), calls, i);
            var base := if cfg.base.From? then Ns(cfg.base.at) else Clamp(Ns(b.start.real_) + Ns(cfg.base.off), NSEC);
            && r.ret == 0 && r.ticked && r.recorded == b.outfileSet
            && Ns(r.tp) == Clamp(base + Clamp(Ns(cfg.modifier.inc) * calls[i].ticks, NSEC), NSEC)
  {
    hide Clamp, Total, Normal, Add, Steady, ReadingAt, Booted, TickValue, Made;
    SteadyAnswer(b, cfg, calls, i);
    if cfg.base.From? {
      FromMakes(b, cfg, calls);
    } else {
      OffsetMakes(b, cfg, calls);
      AddTotal(b.start.real_, cfg.base.off, NSEC);
    }
    TickValueNs(Made(b, cfg).faked, cfg.modifier.inc, calls[i].ticks);
  }

  // ----- single calls -----

  /** A look at a text that follows a file starts every clock at the file's time, to the second,
      at that moment; with FAKETIME_FOLLOW_ABSOLUTE it freezes them at the file's exact time. */
  lemma FollowedFileReads(s: State, call: Call)
    requires Parses(s, call) && !s.infileSet && !s.clock.rateSet && !s.clock.tickSet && !s.clock.dontReset
    requires var cfg := Source(s.parseConfigFile, call).config; cfg.base.FollowFile? && cfg.modifier.NoModifier?
    requires Normal(call.tp, NSEC) && Normal(call.now.Of(call.clk), NSEC)
    ensures var base, r := Source(s.parseConfigFile, call).config.base, Answer(s, call);
            && r.ret == 0 && !r.ticked
            && (base.absolute ==> r.tp == base.mtime)
            && (!base.absolute && Representable(base.mtime.sec) ==>
                  Ns(r.tp) == Running(base.mtime.sec * 1_000_000_000, Ns(call.now.Of(call.clk)), None, Ns(call.tp)))
  {
    hide Running, Shifted, Fetched, OutsideLimits, Checked, Instants.Of;
    var base := Source(s.parseConfigFile, call).config.base;
    FetchedClock(s, call);
    FetchedKeepsFiles(Counted(s), call);
    if !base.absolute && Representable(base.mtime.sec) {
      RunningReads(Settled(Counted(s), call).clock, call.clk, call.tp);
    }
  }

  predicate Representable(sec: int) {
    TIME_MIN <= sec <= TIME_MAX
  }

  /** While a load file lasts a call within the limits returns its record, as it is. */
  lemma RecordIsReplayed(s: State, call: Call)
    requires !Skips(s, call) && s.infileSet && call.replay.Record?
    ensures Answer(s, call) == Reading(0, call.replay.value, false, false)
  {
  }

  /** With faking suspended or outside the limits the time passed in comes back; a clock for CPU
      time is at most scaled. */
  lemma UnfakedCalls(s: State, call: Call)
    ensures call.dontFake || (!Bypasses(call) && OutsideLimits(s, call)) ==>
              Answer(s, call) == Reading(0, call.tp, false, false)
    ensures !call.dontFake && call.clk.CpuTime? ==>
              var r := Answer(s, call);
              && r.ret == 0 && !r.ticked && !r.recorded
              && (if s.clock.rateSet then Ns(r.tp) == Clamp(Scale(Ns(call.tp), s.clock.rate), NSEC) else r.tp == call.tp)
    ensures Bypasses(call) ==> After(s, call) == s
  {
    hide Mul, Scale, Clamp, Total, OutsideLimits, FakedAnswer, FakedAfter;
    MulTotal(call.tp, s.clock.rate, NSEC);
  }

  /** A command excluded from faking gets an error and the time passed in, as long as no text
      with '@' or '%' is parsed. */
  lemma ExcludedFails(s: State, call: Call)
    requires !Skips(s, call) && s.clock.mode.Noop? && !s.infileSet
    requires Parses(s, call) ==> var base := Source(s.parseConfigFile, call).config.base; !base.From? && !base.FollowFile?
    ensures Answer(s, call) == Reading(-1, call.tp, false, false) && After(s, call).clock.mode.Noop?
  {
    hide Fetched, OutsideLimits, Parsed, FakedAfter;
    FetchedClock(s, call);
    FetchedKeepsFiles(Counted(s), call);
    FakedKeeps(Counted(s), call);
    if Parses(s, call) {
      NoopStays(s.clock, Source(s.parseConfigFile, call).config, call.now);
    }
  }

  lemma NoopStays(c: Clock, cfg: Config, now: Instants)
    requires c.mode.Noop? && !cfg.base.From? && !cfg.base.FollowFile?
    ensures Parsed(c, cfg, now).mode.Noop?
  {
    hide ParsedBase, ParsedModifier;
    BaseKeepsNoop(c, cfg.base, now);
    ModifierKeepsMode(ParsedBase(c, cfg.base, now), cfg.modifier);
  }

  lemma BaseKeepsNoop(c: Clock, base: Base, now: Instants)
    requires c.mode.Noop? && !base.From? && !base.FollowFile?
    ensures ParsedBase(c, base, now).mode.Noop?
  {
    hide Add;
  }

  lemma ModifierKeepsMode(c: Clock, m: Modifier)
    ensures ParsedModifier(c, m).mode == c.mode
  {
  }

  // ----- where a text comes from -----

  /** A look takes FAKETIME if that was set when the process started, or if there is no file;
      else the file's text, and nothing from a file that cannot be read. */
  lemma TextFound(s: State, call: Call)
    ensures Looks(s, call) ==>
              After(s, call).clock.saved ==
                if !s.parseConfigFile || call.file.NoFile? then call.env.text
                else if call.file.Contents? then call.file.config.text
                else s.clock.saved
    ensures !Looks(s, call) ==> After(s, call).clock.saved == s.clock.saved
  {
    hide After, Looks;
    LookOrKeep(s, call);
  }

  /** The text parsed at the start is FAKETIME's, else the file's; later looks keep to that. */
  lemma TextAtStart(b: Boot)
    ensures b.env.Some? ==> Booted(b).clock.saved == b.env.value.text && !Booted(b).parseConfigFile
    ensures b.env.None? ==>
              && Booted(b).parseConfigFile
              && Booted(b).clock.saved == if b.file.Contents? then b.file.config.text else ""
  {
    hide ParsedBase, ParsedModifier;
  }

  /** A call looks exactly when the cache is off, a look is forced, the last one is more than the
      duration ago, or none has been recorded. */
  lemma LooksExactly(s: State, call: Call)
    requires CacheInv(s.cache)
    ensures Looks(s, call) <==>
              && !Skips(s, call)
              && (!s.cache.enabled || s.cache.force || s.cache.lastFetch <= 0 || call.nowSec - s.cache.lastFetch > s.cache.duration)
  {
    hide Skips;
  }

  /** With limits in seconds a call is faked exactly between them, counted on its own clock. */
  lemma LimitedBySeconds(s: State, call: Call)
    requires s.limits.startCalls == s.limits.stopCalls == -1
    requires Normal(call.tp, NSEC) && Normal(s.clock.start.Of(call.clk), NSEC)
    requires Fits(Ns(call.tp) - Ns(s.clock.start.Of(call.clk)), NSEC)
    ensures var passed := Ns(call.tp) - Ns(s.clock.start.Of(call.clk));
            OutsideLimits(s, call) <==>
              || (s.limits.startSecs != -1 && passed < s.limits.startSecs * 1_000_000_000)
              || (s.limits.stopSecs != -1 && passed >= s.limits.stopSecs * 1_000_000_000)
  {
    hide Sub, Instants.Of;
    SubTotal(call.tp, s.clock.start.Of(call.clk), NSEC);
  }
}
