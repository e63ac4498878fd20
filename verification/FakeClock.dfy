/** The fake clock of one process: the parsed configuration, the anchors, the configuration
    cache, and fake_clock_gettime (src/libfaketime.c). */
module FakeClock {
  import opened Options
  import opened TimeOps

  datatype Mode = Freeze | StartAt | Noop

  datatype ClockId = Realtime | Monotonic | MonotonicRaw | Boottime | CpuTime | OtherClock

  /** struct system_time_s: one instant per clock. */
  datatype Instants = Instants(real_: Stamp, mon: Stamp, monRaw: Stamp, boot: Stamp) {
    function Of(clk: ClockId): Stamp {
      match clk
      case Monotonic => mon
      case MonotonicRaw => monRaw
      case Boottime => boot
      case _ => real_
    }

    function With(clk: ClockId, t: Stamp): Instants {
      match clk
      case Realtime => this.(real_ := t)
      case Monotonic => this.(mon := t)
      case MonotonicRaw => this.(monRaw := t)
      case Boottime => this.(boot := t)
      case _ => this
    }
  }

  /** What a FAKETIME string starts with ... */
  datatype Base =
    | Absolute(at: Stamp)                          // a plain date
    | Offset(off: Stamp)                           // + or -
    | From(at: Stamp)                              // @
    | FollowFile(mtime: Stamp, absolute: bool)     // %
    | ModifiersOnly                                // x or i

  /** ... and its modifier. */
  datatype Modifier = NoModifier | Rate(rate: real) | Tick(inc: Stamp)

  /** A configuration string together with what it parses to. */
  datatype Config = Config(text: string, base: Base, modifier: Modifier)

  /** What read_config_file finds: no file, a file it gives up on, or a string. */
  datatype FileRead = NoFile | Unreadable | Contents(config: Config)

  /** The configuration in effect, the anchors, and the last real and fake readings. */
  datatype Clock = Clock(
    mode: Mode, start: Instants, faked: Stamp, fakedSet: bool, offset: Stamp,
    rate: real, rateSet: bool, tickInc: Stamp, tickSet: bool, saved: string,
    timecache: Instants, fakecache: Instants, xreset: bool, dontReset: bool)

  /** The configuration cache. */
  datatype Cache = Cache(lastFetch: int, expired: bool, enabled: bool, duration: int, force: bool)

  /** The static variables of the library that a reading depends on. */
  datatype State = State(
    clock: Clock, cache: Cache, parseConfigFile: bool, infileSet: bool, outfileSet: bool,
    limits: Limits, callcounter: nat)

  /** Faking can be limited to a span of seconds since the start, or of calls; -1 is no limit. */
  datatype Limits = Limits(startSecs: int, stopSecs: int, startCalls: int, stopCalls: int)

  const NO_LIMITS := Limits(-1, -1, -1, -1)
  const LONG_MAX := 0x7FFF_FFFF_FFFF_FFFF

  /** What load_time finds in the shared data: a record to deliver, or the end of the file,
      with the last record and the start time that everyone then adopts. */
  datatype Replay = Record(value: Stamp) | Exhausted(last: Stamp, start: Instants)

  /** One call of fake_clock_gettime: the clock, the real reading passed in, whether faking
      is suspended, and what the call would see if it looked around. */
  datatype Call = Call(
    clk: ClockId, tp: Stamp, dontFake: bool, nowSec: int, now: Instants, env: Config, file: FileRead,
    replay: Replay, ticks: nat)

  /** The outcome of a call: status, reading, whether a shared tick was consumed, and whether
      the reading went to the save file. */
  datatype Reading = Reading(ret: int, tp: Stamp, ticked: bool, recorded: bool)

  function Ns(t: Stamp): int {
    Total(t, NSEC)
  }

  /** Every mode but FT_NOOP gives way to a new one. */
  function Switch(mode: Mode, to: Mode): Mode {
    if mode.Noop? then Noop else to
  }

  function ParsedBase(c: Clock, base: Base, now: Instants): Clock {
    match base
    case Absolute(at) => c.(mode := Switch(c.mode, Freeze), faked := at, fakedSet := true)
    case Offset(off) =>
      c.(mode := Switch(c.mode, StartAt), offset := off, faked := Add(c.start.real_, off, NSEC).value)
    case From(at) => c.(mode := StartAt, faked := at, start := if c.dontReset then c.start else now)
    case FollowFile(mtime, absolute) =>
      c.(mode := if absolute then Freeze else StartAt,
         faked := if absolute then mtime else Stamp(mtime.sec, 0),
         fakedSet := c.fakedSet || absolute,
         start := if c.dontReset then c.start else now)
    case ModifiersOnly => c
  }

  function ParsedModifier(c: Clock, m: Modifier): Clock {
    match m
    case NoModifier => c
    case Rate(r) =>
      var c' := c.(rate := r, rateSet := true);
      if c.xreset && c.timecache.real_.sub >= 0 then c'.(faked := c.fakecache.real_, start := c.timecache) else c'
    case Tick(inc) => c.(tickInc := inc, tickSet := true)
  }

  /** parse_ft_string */
  function Parsed(c: Clock, cfg: Config, now: Instants): Clock {
    if cfg.text == c.saved && !cfg.base.FollowFile? then c
    else
      var c1 := ParsedBase(c, cfg.base, now);
      var c2 := if cfg.base.FollowFile? && c1.fakedSet then c1 else ParsedModifier(c1, cfg.modifier);
      c2.(saved := cfg.text)
  }

  /** The cache check: whether this call looks at the configuration again is recorded in
      `expired`, and when. */
  function Checked(k: Cache, nowSec: int): Cache {
    var expired :=
      || (if k.lastFetch > 0 then nowSec - k.lastFetch > k.duration else k.expired)
      || !k.enabled
      || k.force;
    k.(expired := expired, force := false, lastFetch := if expired then nowSec else k.lastFetch)
  }

  /** The configuration a look yields, if any. */
  function Source(parseConfigFile: bool, call: Call): FileRead {
    if !parseConfigFile || call.file.NoFile? then Contents(call.env) else call.file
  }

  /** The state after the cache check and, when expired, the new look. */
  function Fetched(s: State, call: Call): State {
    var k := Checked(s.cache, call.nowSec);
    var src := Source(s.parseConfigFile, call);
    var c := if k.expired && src.Contents? then Parsed(s.clock, src.config, call.now) else s.clock;
    s.(clock := c, cache := k)
  }

  /** load_time at the end of the file: the last record becomes the base. */
  function Unloaded(s: State, call: Call): State {
    if s.infileSet && call.replay.Exhausted?
    then s.(clock := s.clock.(faked := call.replay.last, start := call.replay.start), infileSet := false)
    else s
  }

  /** The state in which the mode decides on the reading. */
  function Settled(s: State, call: Call): State {
    Unloaded(Fetched(s, call), call)
  }

  /** The call is answered from the load file. */
  predicate Replays(s: State, call: Call) {
    s.infileSet && call.replay.Record?
  }

  /** The reading in FT_START_AT mode without ticks. */
  function Shifted(c: Clock, clk: ClockId, tp: Stamp): Stamp {
    var tdiff := Sub(tp, c.start.Of(clk), NSEC).value;
    var timeadj := if c.rateSet then Mul(tdiff, c.rate, NSEC).value else tdiff;
    Add(c.faked, timeadj, NSEC).value
  }

  /** next_time: the tick counter times the increment, on top of the base. */
  function Ticked(c: Clock, ticks: nat): Stamp {
    TickValue(c.faked, c.tickInc, ticks)
  }

  function Faked(c: Clock, call: Call, record: bool): Reading {
    match c.mode
    case Freeze => Reading(0, if c.fakedSet then c.faked else call.tp, false, record)
    case StartAt =>
      if c.tickSet then Reading(0, Ticked(c, call.ticks), true, record)
      else Reading(0, Shifted(c, call.clk, call.tp), false, record)
    case Noop => Reading(-1, call.tp, false, false)
  }

  /** The clock remembers the latest real and fake reading of the clock asked for. */
  function Remembered(c: Clock, clk: ClockId, tp: Stamp, fake: Stamp): Clock {
    c.(timecache := c.timecache.With(clk, tp), fakecache := c.fakecache.With(clk, fake))
  }

  /** Calls that return before looking at anything. */
  predicate Bypasses(call: Call) {
    call.dontFake || call.clk.CpuTime?
  }

  /** Calls are counted if their number matters. */
  function Counted(s: State): State {
    if (s.limits.startCalls != -1 || s.limits.stopCalls != -1) && s.callcounter < LONG_MAX
    then s.(callcounter := s.callcounter + 1) else s
  }

  predicate Outside(l: Limits, elapsed: int, callcounter: nat) {
    || (l.startSecs != -1 && elapsed < l.startSecs)
    || (l.stopSecs != -1 && elapsed >= l.stopSecs)
    || (l.startCalls != -1 && callcounter < l.startCalls)
    || (l.stopCalls != -1 && callcounter >= l.stopCalls)
  }

  /** The call falls outside the limits of faking. */
  predicate OutsideLimits(s: State, call: Call) {
    Outside(s.limits, Sub(call.tp, s.clock.start.Of(call.clk), NSEC).value.sec, Counted(s).callcounter)
  }

  /** The call is answered with the time passed in, at most scaled. */
  predicate Skips(s: State, call: Call) {
    Bypasses(call) || OutsideLimits(s, call)
  }

  /** The call looks and parses a text. */
  predicate Parses(s: State, call: Call) {
    var src := Source(s.parseConfigFile, call);
    && !Skips(s, call) && Checked(s.cache, call.nowSec).expired && src.Contents?
    && (src.config.text != s.clock.saved || src.config.base.FollowFile?)
  }

  /** fake_clock_gettime: the new state ... */
  function After(s: State, call: Call): State {
    if Bypasses(call) then s
    else if OutsideLimits(s, call) then Counted(s)
    else FakedAfter(Counted(s), call)
  }

  /** ... of a call within the limits ... */
  function FakedAfter(s: State, call: Call): State {
    var s1 := Settled(s, call);
    var r := Faked(s1.clock, call, s1.outfileSet);
    if Replays(s, call) || r.ret != 0 then s1
    else s1.(clock := Remembered(s1.clock, call.clk, call.tp, r.tp))
  }

  /** ... and the reading. */
  function Answer(s: State, call: Call): Reading {
    if call.dontFake then Reading(0, call.tp, false, false)
    else if call.clk.CpuTime? then
      Reading(0, if s.clock.rateSet then Mul(call.tp, s.clock.rate, NSEC).value else call.tp, false, false)
    else if OutsideLimits(s, call) then Reading(0, call.tp, false, false)
    else FakedAnswer(Counted(s), call)
  }

  function FakedAnswer(s: State, call: Call): Reading {
    if Replays(s, call) then Reading(0, call.replay.value, false, false)
    else Faked(Settled(s, call).clock, call, s.outfileSet)
  }

  // ----- the start of a process -----

  const UNSET := Stamp(0, -1)
  const NO_INSTANTS := Instants(UNSET, UNSET, UNSET, UNSET)

  /** What ftpl_really_init finds: the start time, whether this command is excluded from
      faking, FAKETIME if it is set, else the configuration file, and the other settings. */
  datatype Boot = Boot(
    start: Instants, now: Instants, excluded: bool, env: Option<Config>, file: FileRead,
    xreset: bool, dontReset: bool, cacheEnabled: bool, cacheDuration: int,
    infileSet: bool, outfileSet: bool, limits: Limits)

  /** The static variables before anything has been parsed. */
  function Unparsed(b: Boot): Clock {
    Clock(if b.excluded then Noop else Freeze, b.start, UNSET, false, UNSET, 1.0, false, UNSET, false, "",
          NO_INSTANTS, NO_INSTANTS, b.xreset, b.dontReset)
  }

  /** The configuration that is parsed during initialisation, if any. */
  function BootText(b: Boot): FileRead {
    if b.env.Some? then Contents(b.env.value) else b.file
  }

  /** The static variables after initialisation. */
  function Booted(b: Boot): State {
    var c := if BootText(b).Contents? then Parsed(Unparsed(b), BootText(b).config, b.now) else Unparsed(b);
    State(c, Cache(0, true, b.cacheEnabled, b.cacheDuration, false), b.env.None?, b.infileSet, b.outfileSet, b.limits, 0)
  }

  /** A run of calls. */
  function AfterAll(s: State, calls: seq<Call>): State
    decreases |calls|
  {
    if calls == [] then s else After(AfterAll(s, calls[..|calls| - 1]), calls[|calls| - 1])
  }

  /** The i-th reading of a run. */
  function ReadingAt(s: State, calls: seq<Call>, i: nat): Reading
    requires i < |calls|
  {
    Answer(AfterAll(s, calls[..i]), calls[i])
  }

  /** The static variables, as the C functions update them in place. */
  class Process {
    var mode: Mode
    var start: Instants
    var faked: Stamp
    var fakedSet: bool
    var offset: Stamp
    var rate: real
    var rateSet: bool
    var tickInc: Stamp
    var tickSet: bool
    var saved: string
    var timecache: Instants
    var fakecache: Instants
    var lastFetch: int
    var cacheExpired: bool
    var forceExpiration: bool
    var parseConfigFile: bool
    var infileSet: bool
    var callcounter: nat

    const xreset: bool
    const dontReset: bool
    const cacheEnabled: bool
    const cacheDuration: int
    const outfileSet: bool
    const limits: Limits

    constructor (s: State)
      ensures Statics() == s
    {
      var c, k := s.clock, s.cache;
      mode, start, faked, fakedSet, offset := c.mode, c.start, c.faked, c.fakedSet, c.offset;
      rate, rateSet, tickInc, tickSet, saved := c.rate, c.rateSet, c.tickInc, c.tickSet, c.saved;
      timecache, fakecache, xreset, dontReset := c.timecache, c.fakecache, c.xreset, c.dontReset;
      lastFetch, cacheExpired, forceExpiration := k.lastFetch, k.expired, k.force;
      cacheEnabled, cacheDuration := k.enabled, k.duration;
      parseConfigFile, infileSet, outfileSet := s.parseConfigFile, s.infileSet, s.outfileSet;
      limits, callcounter := s.limits, s.callcounter;
    }

    ghost function TheClock(): Clock
      reads this
    {
      Clock(mode, start, faked, fakedSet, offset, rate, rateSet, tickInc, tickSet, saved,
            timecache, fakecache, xreset, dontReset)
    }

    ghost function TheCache(): Cache
      reads this
    {
      Cache(lastFetch, cacheExpired, cacheEnabled, cacheDuration, forceExpiration)
    }

    ghost function Statics(): State
      reads this
    {
      State(TheClock(), TheCache(), parseConfigFile, infileSet, outfileSet, limits, callcounter)
    }

    /** parse_ft_string: the switch on the first character. */
    method ParseBase(base: Base, now: Instants)
      modifies `mode, `start, `faked, `fakedSet, `offset
      ensures TheClock() == ParsedBase(old(TheClock()), base, now)
    {
      hide Add;
      match base {
        case Absolute(at) =>
          if mode != Noop {
            mode := Freeze;
          }
          faked := at;
          fakedSet := true;
        case Offset(off) =>
          if mode != Noop {
            mode := StartAt;
          }
          offset := off;
          faked := Add(start.real_, offset, NSEC).value;
        case From(at) =>
          mode := StartAt;
          faked := at;
          ResetTime(now);
        case FollowFile(mtime, absolute) =>
          mode := StartAt;
          faked := Stamp(mtime.sec, 0);
          if absolute {
            faked := mtime;
            mode := Freeze;
            fakedSet := true;
          }
          ResetTime(now);
        case ModifiersOnly =>
      }
    }

    method ResetTime(now: Instants)
      modifies `start
      ensures start == if dontReset then old(start) else now
    {
      if !dontReset {
        start := now;
      }
    }

    /** parse_ft_string: the modifiers. */
    method ParseModifier(m: Modifier)
      modifies `rate, `rateSet, `tickInc, `tickSet, `faked, `start
      ensures TheClock() == ParsedModifier(old(TheClock()), m)
    {
      match m {
        case Rate(r) =>
          rate := r;
          rateSet := true;
          if xreset && timecache.real_.sub >= 0 {
            faked := fakecache.real_;
            start := timecache;
          }
        case Tick(inc) =>
          tickInc := inc;
          tickSet := true;
        case NoModifier =>
      }
    }

    method ParseFtString(cfg: Config, now: Instants)
      modifies `mode, `start, `faked, `fakedSet, `offset, `rate, `rateSet, `tickInc, `tickSet, `saved
      ensures TheClock() == Parsed(old(TheClock()), cfg, now)
    {
      hide ParsedBase, ParsedModifier;
      if cfg.text == saved {
        if !cfg.base.FollowFile? {
          return;
        }
      }
      ParseBase(cfg.base, now);
      if !cfg.base.FollowFile? || !fakedSet {
        ParseModifier(cfg.modifier);
      }
      saved := cfg.text;
    }

    /** The cache check at the start of fake_clock_gettime. */
    method CheckCache(nowSec: int)
      modifies `lastFetch, `cacheExpired, `forceExpiration
      ensures TheCache() == Checked(old(TheCache()), nowSec)
    {
      if lastFetch > 0 {
        cacheExpired := nowSec - lastFetch > cacheDuration;
      }
      if !cacheEnabled {
        cacheExpired := true;
      }
      if forceExpiration {
        cacheExpired := true;
        forceExpiration := false;
      }
      if cacheExpired {
        lastFetch := nowSec;
      }
    }

    /** The cache check and, when expired, the new look at the configuration. */
    method Refresh(call: Call)
      modifies `mode, `start, `faked, `fakedSet, `offset, `rate, `rateSet, `tickInc, `tickSet, `saved,
               `lastFetch, `cacheExpired, `forceExpiration
      ensures Statics() == Fetched(old(Statics()), call)
    {
      hide Parsed, Checked;
      CheckCache(call.nowSec);
      if cacheExpired {
        if parseConfigFile {
          match call.file {
            case Contents(cfg) => ParseFtString(cfg, call.now);
            case NoFile => ParseFtString(call.env, call.now);
            case Unreadable =>
          }
        } else {
          ParseFtString(call.env, call.now);
        }
      }
    }

    /** fake_clock_gettime */
    method ClockGettime(call: Call) returns (r: Reading)
      modifies this
      ensures Statics() == After(old(Statics()), call) && r == Answer(old(Statics()), call)
    {
      hide Fetched, Unloaded, Faked, Remembered, Mul, TheClock, TheCache;
      if call.dontFake {
        return Reading(0, call.tp, false, false);
      }
      if call.clk.CpuTime? {
        r := CpuTime(call.tp);
        return;
      }
      var outside := CountCall(call);
      if outside {
        return Reading(0, call.tp, false, false);
      }
      FetchedKeepsFiles(Statics(), call);
      Refresh(call);
      var loaded := LoadTime(call);
      if loaded.Some? {
        return Reading(0, loaded.value, false, false);
      }
      r := ByMode(call);
      if r.ret == 0 {
        Remember(call, r.tp);
      }
    }

    /** A run of calls. */
    method ReadAll(calls: seq<Call>) returns (out: seq<Reading>)
      modifies this
      ensures Statics() == AfterAll(old(Statics()), calls)
      ensures |out| == |calls| && forall i | 0 <= i < |out| :: out[i] == ReadingAt(old(Statics()), calls, i)
    {
      hide After, Answer, Statics;
      ghost var s := Statics();
      out := [];
      assert calls[..0] == [];
      while |out| < |calls|
        invariant |out| <= |calls| && Statics() == AfterAll(s, calls[..|out|])
        invariant forall i | 0 <= i < |out| :: out[i] == ReadingAt(s, calls, i)
      {
        var i := |out|;
        assert calls[..i + 1][..i] == calls[..i];
        var r := ClockGettime(calls[i]);
        out := out + [r];
      }
      assert calls[..|out|] == calls;
    }

    /** Per-process timers are only sped up or slowed down. */
    method CpuTime(tp: Stamp) returns (r: Reading)
      ensures r == Reading(0, if TheClock().rateSet then Mul(tp, TheClock().rate, NSEC).value else tp, false, false)
    {
      hide Mul;
      var fake := tp;
      if rateSet {
        fake := Mul(tp, rate, NSEC).value;
      }
      r := Reading(0, fake, false, false);
    }

    /** The limits of faking. */
    method CountCall(call: Call) returns (outside: bool)
      modifies `callcounter
      ensures Statics() == Counted(old(Statics())) && outside == OutsideLimits(old(Statics()), call)
    {
      hide Sub;
      if (limits.startCalls != -1 || limits.stopCalls != -1) && callcounter < LONG_MAX {
        callcounter := callcounter + 1;
      }
      var elapsed := Sub(call.tp, start.Of(call.clk), NSEC).value.sec;
      outside :=
        || (limits.startSecs != -1 && elapsed < limits.startSecs)
        || (limits.stopSecs != -1 && elapsed >= limits.stopSecs)
        || (limits.startCalls != -1 && callcounter < limits.startCalls)
        || (limits.stopCalls != -1 && callcounter >= limits.stopCalls);
    }

    /** load_time */
    method LoadTime(call: Call) returns (t: Option<Stamp>)
      modifies `faked, `start, `infileSet
      ensures Statics() == Unloaded(old(Statics()), call)
      ensures t == if Replays(old(Statics()), call) then Some(call.replay.value) else None
    {
      t := None;
      if infileSet {
        match call.replay {
          case Record(value) => t := Some(value);
          case Exhausted(last, first) => faked, start, infileSet := last, first, false;
        }
      }
    }

    /** The switch on the mode. */
    method ByMode(call: Call) returns (r: Reading)
      ensures r == Faked(TheClock(), call, outfileSet)
    {
      hide Shifted, Ticked;
      var tp, ticked := call.tp, false;
      match mode {
        case Freeze =>
          if fakedSet {
            tp := faked;
          }
        case StartAt =>
          if tickSet {
            tp := NextTime(call.ticks);
            ticked := true;
          } else {
            tp := Shift(call.clk, tp);
          }
        case Noop =>
          return Reading(-1, tp, false, false);
      }
      r := Reading(0, tp, ticked, outfileSet);
    }

    method Remember(call: Call, fake: Stamp)
      modifies `timecache, `fakecache
      ensures Statics() == old(Statics()).(clock := Remembered(old(TheClock()), call.clk, call.tp, fake))
    {
      hide Instants.With;
      timecache := timecache.With(call.clk, call.tp);
      fakecache := fakecache.With(call.clk, fake);
    }

    /** next_time, with the shared counter at `ticks`. */
    method NextTime(ticks: nat) returns (tp: Stamp)
      ensures tp == Ticked(TheClock(), ticks)
    {
      hide Add, Mul;
      var inc := Mul(tickInc, ticks as real, NSEC).value;
      tp := Add(faked, inc, NSEC).value;
    }

    /** The FT_START_AT case without ticks. */
    method Shift(clk: ClockId, tp: Stamp) returns (fake: Stamp)
      ensures fake == Shifted(TheClock(), clk, tp)
    {
      hide Add, Sub, Mul;
      var tdiff := Sub(tp, start.Of(clk), NSEC).value;
      var timeadj := tdiff;
      if rateSet {
        timeadj := Mul(tdiff, rate, NSEC).value;
      }
      fake := Add(faked, timeadj, NSEC).value;
    }
  }

  lemma OneCall(s: State, call: Call)
    ensures AfterAll(s, [call]) == After(s, call) && ReadingAt(s, [call], 0) == Answer(s, call)
  {
    hide After, Answer;
    var calls := [call];
    assert calls[..0] == [];
    assert AfterAll(s, calls) == After(AfterAll(s, calls[..0]), call);
  }

  /** All but the remembered readings. */
  predicate SameSettings(c: Clock, d: Clock) {
    d == c.(timecache := d.timecache, fakecache := d.fakecache)
  }

  /** Once the state is settled, a call changes nothing but the remembered readings. */
  lemma FakedKeeps(s: State, call: Call)
    ensures var s1, s' := Settled(s, call), FakedAfter(s, call);
            SameSettings(s1.clock, s'.clock) && s' == s1.(clock := s'.clock)
  {
    hide Settled, Faked, Instants.With;
  }

  /** A used-up load file changes base and start time, and nothing else. */
  lemma UnloadedKeeps(s: State, call: Call)
    ensures var s' := Unloaded(s, call);
            && s' == s.(clock := s.clock.(faked := s'.clock.faked, start := s'.clock.start), infileSet := s'.infileSet)
            && (!s.infileSet ==> s' == s)
  {
  }

  /** What a look makes of the clock. */
  lemma FetchedClock(s: State, call: Call)
    requires !Skips(s, call)
    ensures var c, cfg := Fetched(Counted(s), call).clock, Source(s.parseConfigFile, call);
            c == if Parses(s, call) then Parsed(s.clock, cfg.config, call.now) else s.clock
  {
    hide ParsedBase, ParsedModifier, OutsideLimits;
  }

  lemma FetchedKeepsFiles(s: State, call: Call)
    ensures Fetched(s, call).infileSet == s.infileSet && Fetched(s, call).outfileSet == s.outfileSet
  {
  }

  /** A process that starts from given statics and makes the calls one after the other reads
      exactly what the run of the specification reads. */
  method RunCalls(s: State, calls: seq<Call>) returns (out: seq<Reading>)
    ensures |out| == |calls| && forall i | 0 <= i < |out| :: out[i] == ReadingAt(s, calls, i)
  {
    hide Process.Statics, ReadingAt;
    var p := new Process(s);
    out := p.ReadAll(calls);
  }
}
