/** Laws of the fake clock over single readings and over whole runs. */
module ClockLaws {
  import opened TimeOps
  import opened FakeClock

  // ----- the reading as a function on nanoseconds -----

  /** The scaled distance from the anchor. */
  ghost function Adjusted(c: Clock, d: int): int {
    if c.rateSet then Clamp(Scale(d, c.rate), NSEC) else d
  }

  /** The reading of a clock that is `x` nanoseconds on the real clock. */
  ghost function FakeNs(c: Clock, clk: ClockId, x: int): int {
    Clamp(Ns(c.faked) + Adjusted(c, Clamp(x - Ns(c.start.Of(clk)), NSEC)), NSEC)
  }

  ghost predicate Anchors(c: Clock, clk: ClockId) {
    Normal(c.faked, NSEC) && Normal(c.start.Of(clk), NSEC)
  }

  /** The field-by-field computation is the one on nanoseconds. */
  lemma ShiftedNs(c: Clock, clk: ClockId, tp: Stamp)
    requires Anchors(c, clk) && Normal(tp, NSEC)
    ensures Normal(Shifted(c, clk, tp), NSEC) && Ns(Shifted(c, clk, tp)) == FakeNs(c, clk, Ns(tp))
  {
    hide Add, Sub, Mul, Normal, Total, Clamp, Scale;
    SubTotal(tp, c.start.Of(clk), NSEC);
    var tdiff := Sub(tp, c.start.Of(clk), NSEC).value;
    if c.rateSet {
      MulTotal(tdiff, c.rate, NSEC);
      AddTotal(c.faked, Mul(tdiff, c.rate, NSEC).value, NSEC);
    } else {
      AddTotal(c.faked, tdiff, NSEC);
    }
  }

  lemma ClampMonotone(x: int, y: int)
    requires x <= y
    ensures Clamp(x, NSEC) <= Clamp(y, NSEC)
  {
  }

  lemma AdjustedMonotone(c: Clock, d: int, e: int)
    requires d <= e && (c.rateSet ==> c.rate > 0.0)
    ensures Adjusted(c, d) <= Adjusted(c, e)
  {
    hide Clamp, Scale;
    if c.rateSet {
      ScaleMonotone(d, e, c.rate);
      ClampMonotone(Scale(d, c.rate), Scale(e, c.rate));
    }
  }

  /** For every positive rate the reading never decreases as the real clock advances,
      saturation included. */
  lemma FakeNsMonotone(c: Clock, clk: ClockId, x: int, y: int)
    requires x <= y && (c.rateSet ==> c.rate > 0.0)
    ensures FakeNs(c, clk, x) <= FakeNs(c, clk, y)
  {
    hide Clamp, Adjusted;
    var s := Ns(c.start.Of(clk));
    ClampMonotone(x - s, y - s);
    AdjustedMonotone(c, Clamp(x - s, NSEC), Clamp(y - s, NSEC));
    ClampMonotone(Ns(c.faked) + Adjusted(c, Clamp(x - s, NSEC)), Ns(c.faked) + Adjusted(c, Clamp(y - s, NSEC)));
  }

  /** The same on the structs: of two real readings in order, the fake ones are in order. */
  lemma ReadingsInOrder(c: Clock, clk: ClockId, tp: Stamp, later: Stamp)
    requires Anchors(c, clk) && Normal(tp, NSEC) && Normal(later, NSEC) && (c.rateSet ==> c.rate > 0.0)
    requires TimerCmp(tp, Le, later)
    ensures TimerCmp(Shifted(c, clk, tp), Le, Shifted(c, clk, later))
  {
    hide Shifted, FakeNs, TimerCmp, Normal, Total;
    ShiftedNs(c, clk, tp);
    ShiftedNs(c, clk, later);
    TimerCmpTotal(tp, Le, later, NSEC);
    FakeNsMonotone(c, clk, Ns(tp), Ns(later));
    TimerCmpTotal(Shifted(c, clk, tp), Le, Shifted(c, clk, later), NSEC);
  }

  // ----- FAKETIME_XRESET: rate changes never turn the clock back -----

  /** A configuration of the form "offset xRate". */
  ghost predicate RateConfig(cfg: Config) {
    cfg.base.Offset? && Normal(cfg.base.off, NSEC) && cfg.modifier.Rate? && cfg.modifier.rate > 0.0
  }

  /** Any configuration a call could look at is of that form. */
  ghost predicate RateCall(call: Call) {
    && call.clk.Realtime? && !call.dontFake && Normal(call.tp, NSEC) && RateConfig(call.env)
    && (call.file.Contents? ==> RateConfig(call.file.config))
  }

  /** The last pair of readings, if there is one, lies on the current line. */
  ghost predicate OnLine(c: Clock) {
    c.timecache.real_.sub >= 0 ==>
      && Normal(c.timecache.real_, NSEC) && Normal(c.fakecache.real_, NSEC)
      && Ns(c.fakecache.real_) == FakeNs(c, Realtime, Ns(c.timecache.real_))
  }

  ghost predicate Rated(c: Clock) {
    && c.xreset && c.mode.StartAt? && !c.tickSet && c.rateSet && c.rate > 0.0
    && Anchors(c, Realtime) && OnLine(c)
  }

  lemma ReanchoredOnLine(c: Clock)
    requires c.rateSet && Normal(c.faked, NSEC)
    ensures FakeNs(c, Realtime, Ns(c.start.real_)) == Ns(c.faked)
  {
    hide Scale;
    ScaleZero(c.rate);
  }

  /** A new offset and rate re-anchor on the last pair of readings. */
  lemma ParsedKeepsLine(c: Clock, cfg: Config, now: Instants)
    requires Rated(c) && RateConfig(cfg)
    ensures var c' := Parsed(c, cfg, now);
            Rated(c') && c'.timecache == c.timecache && c'.fakecache == c.fakecache
  {
    var c' := Parsed(c, cfg, now);
    if c' != c {
      AddTotal(c.start.real_, cfg.base.off, NSEC);
      hide FakeNs, Add;
      if c.timecache.real_.sub >= 0 {
        ReanchoredOnLine(c');
      }
    }
  }

  /** A process whose first configuration has the form starts on a line. */
  lemma BootsOnLine(c: Clock, cfg: Config, now: Instants)
    requires c.xreset && !c.mode.Noop? && !c.tickSet && Normal(c.start.real_, NSEC)
    requires c.timecache.real_.sub < 0 && RateConfig(cfg) && cfg.text != c.saved
    ensures Rated(Parsed(c, cfg, now))
  {
    AddTotal(c.start.real_, cfg.base.off, NSEC);
  }

  /** A process started with FAKETIME_XRESET and a text of the form in FAKETIME or the file. */
  ghost predicate BootsRated(b: Boot) {
    && b.xreset && !b.excluded && !b.infileSet && b.limits == NO_LIMITS && Normal(b.start.real_, NSEC)
    && BootText(b).Contents? && RateConfig(BootText(b).config) && BootText(b).config.text != ""
  }

  lemma BootedIsRated(b: Boot)
    requires BootsRated(b)
    ensures var s := Booted(b);
            && Rated(s.clock) && !s.infileSet && s.limits == NO_LIMITS && s.clock.timecache.real_.sub < 0
  {
    hide Rated, Parsed, RateConfig;
    BootsOnLine(Unparsed(b), BootText(b).config, b.now);
    ParsedKeepsCaches(Unparsed(b), BootText(b).config, b.now);
  }

  lemma ParsedKeepsCaches(c: Clock, cfg: Config, now: Instants)
    ensures Parsed(c, cfg, now).timecache == c.timecache
  {
    hide ParsedBase, ParsedModifier;
    var c1 := ParsedBase(c, cfg.base, now);
    assert c1.timecache == c.timecache by {
      BaseKeepsCaches(c, cfg.base, now);
    }
    ModifierKeepsCaches(c1, cfg.modifier);
  }

  lemma BaseKeepsCaches(c: Clock, base: Base, now: Instants)
    ensures ParsedBase(c, base, now).timecache == c.timecache
  {
    hide Add;
  }

  lemma ModifierKeepsCaches(c: Clock, m: Modifier)
    ensures ParsedModifier(c, m).timecache == c.timecache
  {
  }

  /** One call: the pair it remembers is on the line, and not below the previous one. */
  lemma RatedCall(s: State, call: Call)
    requires Rated(s.clock) && !s.infileSet && s.limits == NO_LIMITS && RateCall(call)
    requires s.clock.timecache.real_.sub >= 0 ==> Ns(s.clock.timecache.real_) <= Ns(call.tp)
    ensures var s', r := After(s, call), Answer(s, call);
            && Rated(s'.clock) && s'.clock.timecache.real_ == call.tp && s'.clock.fakecache.real_ == r.tp
            && r.ret == 0 && !s'.infileSet && s'.limits == NO_LIMITS
            && (s.clock.timecache.real_.sub >= 0 ==> Ns(s.clock.fakecache.real_) <= Ns(r.tp))
  {
    hide FakeNs, Shifted, Parsed, Normal, Checked;
    var c := Fetched(s, call).clock;
    assert Rated(c) && c.timecache == s.clock.timecache && c.fakecache == s.clock.fakecache by {
      var src := Source(s.parseConfigFile, call);
      if src.Contents? {
        ParsedKeepsLine(s.clock, src.config, call.now);
      }
    }
    ShiftedNs(c, Realtime, call.tp);
    if c.timecache.real_.sub >= 0 {
      FakeNsMonotone(c, Realtime, Ns(c.timecache.real_), Ns(call.tp));
    }
    SameLine(c, Remembered(c, Realtime, call.tp, Shifted(c, Realtime, call.tp)), Ns(call.tp));
  }

  /** The remembered pair does not influence the line. */
  lemma SameLine(c: Clock, d: Clock, x: int)
    requires c.faked == d.faked && c.start == d.start && c.rate == d.rate && c.rateSet == d.rateSet
    ensures FakeNs(c, Realtime, x) == FakeNs(d, Realtime, x)
  {
    hide Clamp, Scale;
  }

  /** A run of such calls without a load file or limits, the real clock never going back. */
  ghost predicate RatedCalls(s: State, calls: seq<Call>) {
    && Rated(s.clock) && !s.infileSet && s.limits == NO_LIMITS
    && (forall k | 0 <= k < |calls| :: RateCall(calls[k]))
    && (forall k | 0 <= k < |calls| - 1 :: Ns(calls[k].tp) <= Ns(calls[k + 1].tp))
    && (calls != [] && s.clock.timecache.real_.sub >= 0 ==> Ns(s.clock.timecache.real_) <= Ns(calls[0].tp))
  }

  lemma {:induction false} RatedRun(s: State, calls: seq<Call>, i: nat)
    requires RatedCalls(s, calls) && i < |calls|
    ensures var s' := AfterAll(s, calls[..i + 1]);
            && Rated(s'.clock) && !s'.infileSet && s'.limits == NO_LIMITS && s'.clock.timecache.real_ == calls[i].tp
            && s'.clock.fakecache.real_ == ReadingAt(s, calls, i).tp
    ensures i > 0 ==> Ns(ReadingAt(s, calls, i - 1).tp) <= Ns(ReadingAt(s, calls, i).tp)
  {
    hide Rated, RateCall, After, Answer;
    assert calls[..i + 1][..i] == calls[..i];
    if i == 0 {
      assert calls[..0] == [];
      RatedCall(s, calls[0]);
    } else {
      RatedRun(s, calls, i - 1);
      CallsAreNormal(calls[i - 1]);
      RatedCall(AfterAll(s, calls[..i]), calls[i]);
    }
  }

  lemma CallsAreNormal(call: Call)
    requires RateCall(call)
    ensures call.tp.sub >= 0
  {
  }

  /** Over a whole run of reads and arbitrary rate changes the readings never go backwards. */
  lemma {:induction false} XresetNeverGoesBack(s: State, calls: seq<Call>, i: nat, j: nat)
    requires RatedCalls(s, calls) && i <= j < |calls|
    ensures Ns(ReadingAt(s, calls, i).tp) <= Ns(ReadingAt(s, calls, j).tp)
    decreases j - i
  {
    if i < j {
      hide *;
      XresetNeverGoesBack(s, calls, i, j - 1);
      RatedRun(s, calls, j);
    }
  }

  /** In particular of a process from its start on. */
  lemma XresetFromBoot(b: Boot, calls: seq<Call>, i: nat, j: nat)
    requires BootsRated(b) && i <= j < |calls|
    requires forall k | 0 <= k < |calls| :: RateCall(calls[k])
    requires forall k | 0 <= k < |calls| - 1 :: Ns(calls[k].tp) <= Ns(calls[k + 1].tp)
    ensures Ns(ReadingAt(Booted(b), calls, i).tp) <= Ns(ReadingAt(Booted(b), calls, j).tp)
  {
    hide Rated, RateCall, Booted, ReadingAt, BootsRated;
    BootedIsRated(b);
    XresetNeverGoesBack(Booted(b), calls, i, j);
  }

  /** The same of a process that makes the calls. */
  method ReadUnderXreset(s: State, calls: seq<Call>) returns (out: seq<Reading>)
    requires RatedCalls(s, calls)
    ensures |out| == |calls| && forall i, j | 0 <= i <= j < |out| :: Ns(out[i].tp) <= Ns(out[j].tp)
  {
    hide RatedCalls, ReadingAt;
    out := RunCalls(s, calls);
    forall i, j | 0 <= i <= j < |out|
      ensures Ns(out[i].tp) <= Ns(out[j].tp)
    {
      XresetNeverGoesBack(s, calls, i, j);
    }
  }

  // ----- the configuration cache -----

  /** Every look at the configuration yields `cfg`, or nothing. */
  ghost predicate Unchanging(parseConfigFile: bool, calls: seq<Call>, cfg: Config) {
    forall k | 0 <= k < |calls| :: Offers(Source(parseConfigFile, calls[k]), cfg)
  }

  ghost predicate Offers(src: FileRead, cfg: Config) {
    src.Contents? ==> src.config == cfg
  }

  /** No look has been recorded yet, so the next call looks. */
  ghost predicate Unfetched(k: Cache) {
    k.expired && k.lastFetch <= 0
  }

  /** Two states alike but for their caches: the configuration is in effect, or neither has
      looked yet. */
  ghost predicate Alike(s: State, t: State, cfg: Config) {
    && t == s.(cache := t.cache)
    && (s.clock.saved == cfg.text || (Unfetched(s.cache) && Unfetched(t.cache)))
  }

  /** In the second case the first look must find something. */
  ghost predicate FirstLookWorks(s: State, call: Call, cfg: Config) {
    s.clock.saved != cfg.text ==> Source(s.parseConfigFile, call).Contents?
  }

  lemma {:induction false} CacheOnlySteersLooks(s: State, t: State, calls: seq<Call>, cfg: Config)
    requires Alike(s, t, cfg) && !cfg.base.FollowFile? && Unchanging(s.parseConfigFile, calls, cfg)
    requires forall k | 0 <= k < |calls| :: FirstLookWorks(s, calls[k], cfg)
    ensures Alike(AfterAll(s, calls), AfterAll(t, calls), cfg)
    ensures AfterAll(s, calls).parseConfigFile == s.parseConfigFile
    ensures s.clock.saved == cfg.text ==> AfterAll(s, calls).clock.saved == cfg.text
  {
    if calls != [] {
      hide Alike, Offers, After;
      var before, call := calls[..|calls| - 1], calls[|calls| - 1];
      CacheOnlySteersLooks(s, t, before, cfg);
      CallIgnoresCache(AfterAll(s, before), AfterAll(t, before), call, cfg);
    }
  }

  /** Whether or not a call looks, the configuration is in effect afterwards. */
  lemma LookIgnoresCache(s: State, t: State, call: Call, cfg: Config)
    requires Alike(s, t, cfg) && !cfg.base.FollowFile?
    requires Offers(Source(s.parseConfigFile, call), cfg) && FirstLookWorks(s, call, cfg)
    ensures var s', t' := Fetched(s, call), Fetched(t, call);
            t' == s'.(cache := t'.cache) && s'.clock.saved == cfg.text && s'.parseConfigFile == s.parseConfigFile
  {
    hide ParsedBase, ParsedModifier;
  }

  lemma CallIgnoresCache(s: State, t: State, call: Call, cfg: Config)
    requires Alike(s, t, cfg) && !cfg.base.FollowFile?
    requires Offers(Source(s.parseConfigFile, call), cfg) && FirstLookWorks(s, call, cfg)
    ensures Answer(s, call) == Answer(t, call)
    ensures Alike(After(s, call), After(t, call), cfg) && After(s, call).parseConfigFile == s.parseConfigFile
    ensures s.clock.saved == cfg.text ==> After(s, call).clock.saved == cfg.text
  {
    hide FakedAfter, FakedAnswer, Mul, Outside, Sub, Instants.Of, Unfetched;
    if !Skips(s, call) {
      CountedAlike(s, t, cfg);
      LookIgnoresCache(Counted(s), Counted(t), call, cfg);
      FakedIgnoresCache(Counted(s), Counted(t), call, cfg.text);
    }
  }

  lemma CountedAlike(s: State, t: State, cfg: Config)
    requires Alike(s, t, cfg)
    ensures var s', t' := Counted(s), Counted(t);
            && Alike(s', t', cfg) && s'.parseConfigFile == s.parseConfigFile && s'.clock == s.clock
  {
  }

  /** After the look nothing depends on the cache. */
  lemma FakedIgnoresCache(s: State, t: State, call: Call, text: string)
    requires t == s.(cache := t.cache) && Fetched(t, call) == Fetched(s, call).(cache := Fetched(t, call).cache)
    requires Fetched(s, call).clock.saved == text && Fetched(s, call).parseConfigFile == s.parseConfigFile
    ensures FakedAnswer(s, call) == FakedAnswer(t, call)
    ensures var s', t' := FakedAfter(s, call), FakedAfter(t, call);
            t' == s'.(cache := t'.cache) && s'.clock.saved == text && s'.parseConfigFile == s.parseConfigFile
  {
    hide Settled, Faked, Instants.With, SameSettings;
    SettledIgnoresCache(s, t, call);
    SavedText(s, call);
  }

  lemma SettledIgnoresCache(s: State, t: State, call: Call)
    requires Fetched(t, call) == Fetched(s, call).(cache := Fetched(t, call).cache)
    ensures Settled(t, call) == Settled(s, call).(cache := Settled(t, call).cache)
  {
    hide Fetched;
  }

  /** After the look a call changes neither the text nor where it came from. */
  lemma SavedText(s: State, call: Call)
    ensures FakedAfter(s, call).clock.saved == Fetched(s, call).clock.saved
    ensures FakedAfter(s, call).parseConfigFile == Fetched(s, call).parseConfigFile
  {
    hide FakedAfter, Fetched, Unloaded;
    FakedKeeps(s, call);
    UnloadedKeeps(Fetched(s, call), call);
  }

  /** With an unchanging configuration that does not follow a file, a run reads the same
      times whatever the cache settings are: from a state in which the configuration is in
      effect, and from the initial state if a look never fails. */
  lemma CacheIsTransparent(s: State, cache: Cache, calls: seq<Call>, cfg: Config, i: nat)
    requires Alike(s, s.(cache := cache), cfg) && !cfg.base.FollowFile?
    requires Unchanging(s.parseConfigFile, calls, cfg)
    requires forall k | 0 <= k < |calls| :: FirstLookWorks(s, calls[k], cfg)
    requires i < |calls|
    ensures ReadingAt(s, calls, i) == ReadingAt(s.(cache := cache), calls, i)
  {
    hide AfterAll, Answer, After, Alike, Offers;
    var t := s.(cache := cache);
    CacheOnlySteersLooks(s, t, calls[..i], cfg);
    CallIgnoresCache(AfterAll(s, calls[..i]), AfterAll(t, calls[..i]), calls[i], cfg);
  }

  /** In particular of processes started with and without caching. */
  lemma CacheTransparentFromBoot(b: Boot, enabled: bool, duration: int, calls: seq<Call>, cfg: Config, i: nat)
    requires !cfg.base.FollowFile? && Unchanging(b.env.None?, calls, cfg) && i < |calls|
    requires BootText(b).Contents? ==> BootText(b).config == cfg
    requires !BootText(b).Contents? ==> forall k | 0 <= k < |calls| :: Source(b.env.None?, calls[k]).Contents?
    ensures ReadingAt(Booted(b), calls, i)
         == ReadingAt(Booted(b.(cacheEnabled := enabled, cacheDuration := duration)), calls, i)
  {
    hide ReadingAt, Source, ParsedBase, ParsedModifier;
    CacheIsTransparent(Booted(b), Booted(b).cache.(enabled := enabled, duration := duration), calls, cfg, i);
  }

  /** The same of two processes that differ in nothing but their cache. */
  method ReadWithBothCaches(s: State, cache: Cache, calls: seq<Call>, cfg: Config)
    returns (cached: seq<Reading>, uncached: seq<Reading>)
    requires Alike(s, s.(cache := cache), cfg) && !cfg.base.FollowFile?
    requires Unchanging(s.parseConfigFile, calls, cfg)
    requires forall k | 0 <= k < |calls| :: FirstLookWorks(s, calls[k], cfg)
    ensures |cached| == |calls| && cached == uncached
  {
    hide ReadingAt, Alike, Unchanging, FirstLookWorks;
    cached := RunCalls(s, calls);
    uncached := RunCalls(s.(cache := cache), calls);
    forall i | 0 <= i < |calls|
      ensures cached[i] == uncached[i]
    {
      CacheIsTransparent(s, cache, calls, cfg, i);
    }
  }

  /** Until a look has been recorded at a positive time, every call looks again. */
  ghost predicate CacheInv(k: Cache) {
    k.lastFetch <= 0 ==> k.expired
  }

  ghost function Allowed(duration: int): int {
    if duration < 0 then 0 else duration
  }

  /** The call looks at the configuration. */
  ghost predicate Looks(s: State, call: Call) {
    !Skips(s, call) && Checked(s.cache, call.nowSec).expired
  }

  ghost predicate FindsText(s: State, call: Call) {
    Source(s.parseConfigFile, call).Contents?
  }

  /** The number of the latest call of a run that looked, or -1 ... */
  ghost function LastLook(s: State, calls: seq<Call>): (j: int)
    ensures -1 <= j < |calls|
    decreases |calls|
  {
    var n := |calls| - 1;
    if calls == [] then -1
    else if Looks(AfterAll(s, calls[..n]), calls[n]) then n
    else LastLook(s, calls[..n])
  }

  /** ... and of the latest that looked and found a text: the one in effect. */
  ghost function LastFetch(s: State, calls: seq<Call>): (j: int)
    ensures -1 <= j <= LastLook(s, calls) && (j >= 0 ==> FindsText(s, calls[j]))
    ensures LastLook(s, calls) >= 0 && FindsText(s, calls[LastLook(s, calls)]) ==> j == LastLook(s, calls)
    decreases |calls|
  {
    var n := |calls| - 1;
    if calls == [] then -1
    else if Looks(AfterAll(s, calls[..n]), calls[n]) && FindsText(s, calls[n]) then n
    else LastFetch(s, calls[..n])
  }

  /** One call: a look that finds a text puts it into effect, any look is recorded. */
  lemma LookOrKeep(s: State, call: Call)
    ensures var s' := After(s, call);
            && s'.clock.saved == (if Looks(s, call) && FindsText(s, call)
                                  then Source(s.parseConfigFile, call).config.text else s.clock.saved)
            && s'.cache.lastFetch == (if Looks(s, call) then call.nowSec else s.cache.lastFetch)
            && s'.cache.duration == s.cache.duration && s'.cache.enabled == s.cache.enabled
            && (!s.cache.force ==> !s'.cache.force)
            && (CacheInv(s.cache) ==> CacheInv(s'.cache))
            && (CacheInv(s.cache) && !Skips(s, call) && !Looks(s, call) ==>
                  s.cache.lastFetch > 0 && call.nowSec - s.cache.lastFetch <= s.cache.duration)
            && s'.parseConfigFile == s.parseConfigFile
  {
    hide FakedAfter, Fetched, OutsideLimits, Source;
    if !Skips(s, call) {
      FetchedText(Counted(s), call);
      UnloadedKeeps(Fetched(Counted(s), call), call);
      FakedKeeps(Counted(s), call);
    }
  }

  lemma FetchedText(s: State, call: Call)
    ensures var s', k := Fetched(s, call), Checked(s.cache, call.nowSec);
            && s'.cache == k && s'.parseConfigFile == s.parseConfigFile
            && s'.clock.saved == (if k.expired && FindsText(s, call)
                                  then Source(s.parseConfigFile, call).config.text else s.clock.saved)
  {
    hide ParsedBase, ParsedModifier;
  }

  /** What is in effect after a run, and what the cache knows of it. */
  lemma {:induction false} InEffect(s: State, calls: seq<Call>)
    requires CacheInv(s.cache)
    ensures var s', look, fetch := AfterAll(s, calls), LastLook(s, calls), LastFetch(s, calls);
            && s'.clock.saved == (if fetch < 0 then s.clock.saved
                                  else Source(s.parseConfigFile, calls[fetch]).config.text)
            && s'.cache.lastFetch == (if look < 0 then s.cache.lastFetch else calls[look].nowSec)
            && s'.cache.duration == s.cache.duration && s'.cache.enabled == s.cache.enabled
            && (!s.cache.force ==> !s'.cache.force)
            && CacheInv(s'.cache) && s'.parseConfigFile == s.parseConfigFile
  {
    if calls != [] {
      var n := |calls| - 1;
      InEffect(s, calls[..n]);
      hide After, Looks, CacheInv, Source;
      LookOrKeep(AfterAll(s, calls[..n]), calls[n]);
    }
  }

  /** Every faked answer comes at most the cache duration after a look at the configuration
      (a negative duration counts as zero); if that look found a text, the answer uses it. */
  lemma ConfigIsRecent(s: State, calls: seq<Call>, i: nat)
    requires i < |calls| && Unfetched(s.cache) && !Skips(AfterAll(s, calls[..i]), calls[i])
    ensures var j := LastLook(s, calls[..i + 1]);
            && 0 <= j <= i && calls[i].nowSec - calls[j].nowSec <= Allowed(s.cache.duration)
            && (FindsText(s, calls[j]) ==>
                  AfterAll(s, calls[..i + 1]).clock.saved == Source(s.parseConfigFile, calls[j]).config.text)
  {
    hide Parsed, Faked, Source, Settled, FindsText;
    var upto := calls[..i + 1];
    assert upto[..i] == calls[..i];
    InEffect(s, upto);
    InEffect(s, calls[..i]);
    LookOrKeep(AfterAll(s, calls[..i]), calls[i]);
    var j := LastLook(s, calls[..i]);
    if !Looks(AfterAll(s, calls[..i]), calls[i]) {
      assert LastLook(s, upto) == j && j >= 0 && calls[..i][j] == calls[j];
    }
  }

  // ----- when a text in effect is recent -----

  /** The text in effect at the end of the run was fetched at most the duration before. */
  ghost predicate RecentText(s: State, calls: seq<Call>)
    requires calls != []
  {
    var fetch := LastFetch(s, calls);
    fetch >= 0 && calls[|calls| - 1].nowSec - calls[fetch].nowSec <= s.cache.duration
  }

  /** The cache is in use and nothing forces a look, and the system clock does not go back. */
  ghost predicate Ordinary(s: State, calls: seq<Call>) {
    && Unfetched(s.cache) && s.cache.enabled && !s.cache.force && s.cache.duration >= 0
    && (forall k | 0 <= k < |calls| :: calls[k].nowSec > 0)
    && (forall k, l | 0 <= k <= l < |calls| :: calls[k].nowSec <= calls[l].nowSec)
  }

  /** Then a look that found nothing comes more than the duration after the last that did. */
  lemma {:induction false} FailedLookIsLate(s: State, calls: seq<Call>)
    requires Ordinary(s, calls)
    ensures var look, fetch := LastLook(s, calls), LastFetch(s, calls);
            0 <= fetch < look ==> calls[look].nowSec - calls[fetch].nowSec > s.cache.duration
  {
    hide AfterAll, FindsText, OutsideLimits;
    if calls != [] {
      var n := |calls| - 1;
      FailedLookIsLate(s, calls[..n]);
      InEffect(s, calls[..n]);
    }
  }

  /** The text behind an answer is recent if and only if the latest look found it, and the
      call, if it is one that never looks, would have had no reason to. */
  lemma RecentExactly(s: State, calls: seq<Call>)
    requires calls != [] && Ordinary(s, calls)
    ensures var n, j := |calls| - 1, LastLook(s, calls);
            RecentText(s, calls) <==>
              && j >= 0 && FindsText(s, calls[j])
              && (Skips(AfterAll(s, calls[..n]), calls[n]) ==>
                    !Checked(AfterAll(s, calls[..n]).cache, calls[n].nowSec).expired)
  {
    hide FindsText, AfterAll;
    var n := |calls| - 1;
    FailedLookIsLate(s, calls);
    InEffect(s, calls[..n]);
    assert calls[..n + 1] == calls;
    if !Skips(AfterAll(s, calls[..n]), calls[n]) {
      ConfigIsRecent(s, calls, n);
    }
  }

  /** The calls of the two examples below. */
  function ExampleCall(clk: ClockId, nowSec: int, tp: Stamp, now: Instants, env: Config, file: FileRead): Call {
    Call(clk, tp, false, nowSec, now, env, file, Record(tp), 0)
  }

  /** A clock for CPU time never looks: it goes on with a rate that was replaced longer than
      the cache duration ago. */
  lemma CpuTimeUsesOldRate(s: State, now: Instants, tp: Stamp, before: Config, later: Config)
    requires Unfetched(s.cache) && !s.parseConfigFile && !s.infileSet && s.limits == NO_LIMITS && s.cache.duration >= 0
    requires before.base.Offset? && before.modifier == Rate(2.0) && later.modifier == Rate(3.0)
    requires before.text != s.clock.saved
    ensures var calls := [ExampleCall(Realtime, 1, tp, now, before, NoFile),
                          ExampleCall(CpuTime, s.cache.duration + 2, tp, now, later, NoFile)];
            && !RecentText(s, calls)
            && ReadingAt(s, calls, 1).tp == Mul(tp, 2.0, NSEC).value
  {
    hide Mul, After, OutsideLimits, Checked, AfterAll, LastFetch;
    var first, cpu := ExampleCall(Realtime, 1, tp, now, before, NoFile),
                      ExampleCall(CpuTime, s.cache.duration + 2, tp, now, later, NoFile);
    var calls := [first, cpu];
    TwoCalls(s, calls);
    RateTakesEffect(s, first);
  }

  lemma TwoCalls(s: State, calls: seq<Call>)
    requires |calls| == 2
    ensures AfterAll(s, calls[..0]) == s && AfterAll(s, calls[..1]) == After(s, calls[0])
    ensures AfterAll(s, calls) == After(After(s, calls[0]), calls[1])
    ensures LastLook(s, calls) == if Looks(After(s, calls[0]), calls[1]) then 1 else if Looks(s, calls[0]) then 0 else -1
    ensures !Looks(After(s, calls[0]), calls[1]) ==> LastFetch(s, calls) <= 0
    ensures !FindsText(s, calls[1]) ==> LastFetch(s, calls) <= 0
  {
    hide After, Looks, FindsText;
    assert calls[..1][..0] == [] == calls[..0];
  }

  /** A first look at an offset with a rate puts the rate into effect. */
  lemma RateTakesEffect(s: State, call: Call)
    requires Unfetched(s.cache) && !s.parseConfigFile && !s.infileSet && s.limits == NO_LIMITS && !Bypasses(call)
    requires call.env.base.Offset? && call.env.modifier.Rate? && call.env.text != s.clock.saved
    ensures var c := After(s, call).clock;
            c.rateSet && c.rate == call.env.modifier.rate
  {
    hide FakedAfter, Add;
    FakedKeeps(s, call);
  }

  /** A look at a file that cannot be read counts as a look: the old text stays in effect
      beyond the cache duration. */
  lemma UnreadableKeepsOldText(s: State, now: Instants, tp: Stamp, cfg: Config)
    requires Unfetched(s.cache) && s.parseConfigFile && s.limits == NO_LIMITS && s.cache.duration >= 0
    ensures var calls := [ExampleCall(Realtime, 1, tp, now, cfg, Contents(cfg)),
                          ExampleCall(Realtime, s.cache.duration + 2, tp, now, cfg, Unreadable)];
            && LastLook(s, calls) == 1 && AfterAll(s, calls).clock.saved == cfg.text
            && !RecentText(s, calls)
  {
    hide After, Looks, AfterAll, LastFetch, LastLook;
    var calls := [ExampleCall(Realtime, 1, tp, now, cfg, Contents(cfg)),
                  ExampleCall(Realtime, s.cache.duration + 2, tp, now, cfg, Unreadable)];
    TwoCalls(s, calls);
    LookOrKeep(s, calls[0]);
    LookOrKeep(After(s, calls[0]), calls[1]);
    FirstLooks(s, calls[0]);
    LateLooks(s, calls[0], calls[1]);
  }

  lemma FirstLooks(s: State, call: Call)
    requires Unfetched(s.cache) && s.limits == NO_LIMITS && !Bypasses(call)
    ensures Looks(s, call) && After(s, call).limits == NO_LIMITS
  {
    hide FakedAfter, Settled;
    FakedKeeps(s, call);
    SettledLimits(s, call);
  }

  lemma SettledLimits(s: State, call: Call)
    ensures Settled(s, call).limits == s.limits
  {
  }

  lemma LateLooks(s: State, first: Call, second: Call)
    requires Unfetched(s.cache) && s.limits == NO_LIMITS && !Bypasses(first) && !Bypasses(second)
    requires first.nowSec > 0 && second.nowSec - first.nowSec > s.cache.duration
    ensures Looks(After(s, first), second)
  {
    hide After, Source, OutsideLimits;
    FirstLooks(s, first);
    LookOrKeep(s, first);
    NoLimits(After(s, first), second);
  }

  lemma NoLimits(s: State, call: Call)
    requires s.limits == NO_LIMITS
    ensures !OutsideLimits(s, call) && Counted(s) == s
  {
  }

  // ----- limits of faking -----

  /** The process counts calls, and only the number of calls is limited. */
  ghost predicate CountsOnly(l: Limits) {
    l.startSecs == -1 && l.stopSecs == -1 && (l.startCalls != -1 || l.stopCalls != -1)
  }

  /** Of a run of calls exactly those numbered from the first limit up to the second, counted
      from 1, are faked; the others return the time passed in. */
  lemma {:induction false} LimitedByCalls(s: State, calls: seq<Call>, i: nat)
    requires CountsOnly(s.limits) && s.callcounter == 0 && i < |calls| <= LONG_MAX
    requires forall k | 0 <= k < |calls| :: !Bypasses(calls[k])
    ensures var s', l := AfterAll(s, calls[..i]), s.limits;
            && s'.limits == l && s'.callcounter == i
            && (OutsideLimits(s', calls[i]) <==>
                  (l.startCalls != -1 && i + 1 < l.startCalls) || (l.stopCalls != -1 && i + 1 >= l.stopCalls))
            && (OutsideLimits(s', calls[i]) ==> ReadingAt(s, calls, i).tp == calls[i].tp)
  {
    if i == 0 {
      assert calls[..0] == [];
    } else {
      LimitedByCalls(s, calls, i - 1);
      assert calls[..i][..i - 1] == calls[..i - 1];
      hide AfterAll, FakedAfter, Sub;
      CallCounts(AfterAll(s, calls[..i - 1]), calls[i - 1]);
    }
  }

  lemma CallCounts(s: State, call: Call)
    requires !Bypasses(call)
    ensures After(s, call).limits == s.limits && After(s, call).callcounter == Counted(s).callcounter
  {
    hide FakedAfter, Outside, Sub;
    FakedKeeps(Counted(s), call);
  }

  // ----- settings that a run does not change -----

  /** A look would bring the text in effect, or nothing. */
  ghost predicate SameText(s: State, call: Call) {
    var src := Source(s.parseConfigFile, call);
    src.Contents? ==> src.config.text == s.clock.saved && !src.config.base.FollowFile?
  }

  ghost predicate Quiet(s: State, calls: seq<Call>) {
    !s.infileSet && s.limits == NO_LIMITS && forall k | 0 <= k < |calls| :: SameText(s, calls[k])
  }

  /** The state keeps what a later call depends on. */
  predicate SameCourse(s: State, t: State) {
    && SameSettings(s.clock, t.clock) && t.limits == s.limits && t.infileSet == s.infileSet
    && t.parseConfigFile == s.parseConfigFile && t.outfileSet == s.outfileSet
  }

  lemma LookKeepsSettings(s: State, call: Call)
    requires SameText(s, call)
    ensures var s' := Fetched(s, call);
            s'.clock == s.clock && s' == s.(cache := s'.cache)
  {
    hide Checked;
  }

  lemma CallKeepsSettings(s: State, call: Call)
    requires !s.infileSet && SameText(s, call)
    ensures SameCourse(s, After(s, call))
    ensures Settled(s, call).clock == s.clock
  {
    hide Fetched, FakedAfter, Outside, Sub, SameText, Unloaded;
    SameTextKept(s, Counted(s), call);
    LookKeepsSettings(s, call);
    LookKeepsSettings(Counted(s), call);
    UnloadedKeeps(Fetched(s, call), call);
    UnloadedKeeps(Fetched(Counted(s), call), call);
    FakedKeeps(Counted(s), call);
  }

  /** Under an unchanged text no run of calls changes the settings. */
  lemma {:induction false} RunKeepsSettings(s: State, calls: seq<Call>)
    requires Quiet(s, calls)
    ensures SameCourse(s, AfterAll(s, calls))
  {
    hide After, SameText;
    if calls != [] {
      var n := |calls| - 1;
      RunKeepsSettings(s, calls[..n]);
      SameTextKept(s, AfterAll(s, calls[..n]), calls[n]);
      CallKeepsSettings(AfterAll(s, calls[..n]), calls[n]);
    }
  }

  lemma SameTextKept(s: State, t: State, call: Call)
    requires SameText(s, call) && SameSettings(s.clock, t.clock) && t.parseConfigFile == s.parseConfigFile
    ensures SameText(t, call)
  {
  }
}
