/** File times: what utime, utimes and utimensat store, and what stat reads back. */
module FileTimes {
  import opened Options
  import opened TimeOps
  import opened FakeClock
  import opened ClockLaws
  import opened Settime

  const UTIME_NOW := 0x3FFF_FFFF
  const UTIME_OMIT := 0x3FFF_FFFE

  /** utime: whole seconds */
  function UtimeStored(c: Clock, sec: int): Stamp {
    Stamp(sec - c.offset.sec, 0)
  }

  /** utimes: microseconds, stored by the kernel as nanoseconds */
  function UtimesStored(c: Clock, t: Stamp): Stamp {
    var r := Sub(t, Stamp(c.offset.sec, c.offset.sub / 1000), USEC).value;
    Stamp(r.sec, r.sub * 1000)
  }

  /** What utime and utimes hand to the kernel: nothing if the fake time cannot be read, a null
      pointer, or the access and the modification time. */
  datatype Handed<T> = Failed | Null | Times(access: T, modification: T)

  /** utime */
  method Utime(c: Clock, disabled: bool, times: Option<(int, int)>, readNow: Option<Stamp>) returns (r: Handed<int>)
    ensures disabled && times.None? ==>
              r == if readNow.None? then Failed else Times(readNow.value.sec, readNow.value.sec)
    ensures disabled && times.Some? ==> r == Times(times.value.0, times.value.1)
    ensures !disabled && times.None? ==> r == Null
    ensures !disabled && times.Some? ==>
              r == Times(UtimeStored(c, times.value.0).sec, UtimeStored(c, times.value.1).sec)
  {
    r := if times.None? then Null else Times(times.value.0, times.value.1);
    if disabled {
      if times.None? {
        if readNow.None? {
          return Failed;
        }
        r := Times(readNow.value.sec, readNow.value.sec);
      }
    } else if times.Some? {
      r := Times(times.value.0 - c.offset.sec, times.value.1 - c.offset.sec);
    }
  }

  /** utimes */
  method Utimes(c: Clock, disabled: bool, times: Option<(Stamp, Stamp)>, readNow: Option<Stamp>)
    returns (r: Handed<Stamp>)
    ensures disabled && times.None? ==> r == if readNow.None? then Failed else Times(readNow.value, readNow.value)
    ensures disabled && times.Some? ==> r == Times(times.value.0, times.value.1)
    ensures !disabled && times.None? ==> r == Null
    ensures !disabled && times.Some? ==>
              && r.Times? && UtimesStored(c, times.value.0) == Stamp(r.access.sec, r.access.sub * 1000)
              && UtimesStored(c, times.value.1) == Stamp(r.modification.sec, r.modification.sub * 1000)
  {
    hide Sub;
    r := if times.None? then Null else Times(times.value.0, times.value.1);
    if disabled {
      if times.None? {
        if readNow.None? {
          return Failed;
        }
        r := Times(readNow.value, readNow.value);
      }
    } else if times.Some? {
      var offset := Stamp(c.offset.sec, c.offset.sub / 1000);
      r := Times(Sub(times.value.0, offset, USEC).value, Sub(times.value.1, offset, USEC).value);
    }
  }

  /** What utimensat and futimens hand to the kernel for one of the two times: with utime
      faking disabled the time itself, the fake time for "now"; otherwise the two special
      values themselves, and any other time less the offset. */
  ghost predicate Translated(c: Clock, disabled: bool, t: Stamp, readNow: Option<Stamp>, out: Stamp) {
    && (disabled && t.sub != UTIME_NOW ==> out == t)
    && (disabled && t.sub == UTIME_NOW ==> readNow == Some(out))
    && (!disabled && (t.sub == UTIME_NOW || t.sub == UTIME_OMIT) ==> out == t)
    && (!disabled && Normal(t, NSEC) && Normal(c.offset, NSEC) ==>
          Normal(out, NSEC) && Ns(out) == Clamp(Ns(t) - Ns(c.offset), NSEC))
  }

  /** fake_two_timespec: access and modification time; no times at all count as "now" twice.
      `readNow` is what reading the fake clock gives, if it succeeds; it is asked for at most
      once, and only if needed. */
  method FakeTwoTimespec(c: Clock, disabled: bool, times: Option<(Stamp, Stamp)>, readNow: Option<Stamp>)
    returns (out: Option<seq<Stamp>>, asked: nat)
    ensures var ts := if times.None? then [Stamp(0, UTIME_NOW), Stamp(0, UTIME_NOW)]
                      else [times.value.0, times.value.1];
            var needsNow := disabled && exists j :: 0 <= j < 2 && ts[j].sub == UTIME_NOW;
            && asked == (if needsNow then 1 else 0)
            && (out.None? <==> needsNow && readNow.None?)
            && (out.Some? ==> |out.value| == 2 && forall j | 0 <= j < 2 :: Translated(c, disabled, ts[j], readNow, out.value[j]))
  {
    hide Sub;
    var ts := if times.None? then [Stamp(0, UTIME_NOW), Stamp(0, UTIME_NOW)]
              else [times.value.0, times.value.1];
    var now := Stamp(0, 0);
    var haveNow := false;
    var result: seq<Stamp> := [];
    asked := 0;
    var j := 0;
    while j <= 1
      invariant 0 <= j <= 2 && |result| == j && asked == if haveNow then 1 else 0
      invariant haveNow <==> disabled && exists i :: 0 <= i < j && ts[i].sub == UTIME_NOW
      invariant haveNow ==> readNow == Some(now)
      invariant forall i | 0 <= i < j :: Translated(c, disabled, ts[i], readNow, result[i])
    {
      if disabled || ts[j].sub == UTIME_OMIT || ts[j].sub == UTIME_NOW {
        if disabled && ts[j].sub == UTIME_NOW {
          if !haveNow {
            asked := asked + 1;
            if readNow.None? {
              assert ts[j].sub == UTIME_NOW;
              return None, asked;
            }
            now := readNow.value;
            haveNow := true;
          }
          result := result + [now];
        } else {
          result := result + [ts[j]];
        }
      } else {
        LessOffset(c, ts[j]);
        result := result + [Sub(ts[j], c.offset, NSEC).value];
      }
      j := j + 1;
    }
    out := Some(result);
  }

  lemma LessOffset(c: Clock, t: Stamp)
    ensures var out := Sub(t, c.offset, NSEC).value;
            Normal(t, NSEC) && Normal(c.offset, NSEC) ==>
              Normal(out, NSEC) && Ns(out) == Clamp(Ns(t) - Ns(c.offset), NSEC)
  {
    if Normal(t, NSEC) && Normal(c.offset, NSEC) {
      SubTotal(t, c.offset, NSEC);
    }
  }

  // ----- stat -----

  /** lock_for_stat switches ticks off ... */
  function Unticked(s: State): State {
    s.(clock := s.clock.(tickSet := false))
  }

  /** ... the stored times go through the fake clock one after the other ... */
  function StatReading(s: State, times: seq<Call>, i: nat): Reading
    requires i < |times|
  {
    ReadingAt(Unticked(s), times, i)
  }

  /** ... and unlock_for_stat puts the setting back. */
  function AfterStat(s: State, times: seq<Call>): State {
    var s' := AfterAll(Unticked(s), times);
    s'.(clock := s'.clock.(tickSet := s.clock.tickSet))
  }

  /** fake_statbuf: change, access and modification time */
  method FakeStatbuf(p: Process, ctim: Call, atim: Call, mtim: Call)
    returns (c: Reading, a: Reading, m: Reading)
    modifies p
    ensures var s, times := old(p.Statics()), [ctim, atim, mtim];
            && p.Statics() == AfterStat(s, times)
            && c == StatReading(s, times, 0) && a == StatReading(s, times, 1) && m == StatReading(s, times, 2)
  {
    hide After, Answer, AfterAll, Process.Statics;
    ghost var times := [ctim, atim, mtim];
    StatStates(Unticked(p.Statics()), times);
    var backup := SwitchTicks(p, false);
    c := p.ClockGettime(ctim);
    a := p.ClockGettime(atim);
    m := p.ClockGettime(mtim);
    var _ := SwitchTicks(p, backup);
  }

  method SwitchTicks(p: Process, on: bool) returns (was: bool)
    modifies p`tickSet
    ensures var s := old(p.Statics());
            p.Statics() == s.(clock := s.clock.(tickSet := on)) && was == s.clock.tickSet
  {
    was := p.tickSet;
    p.tickSet := on;
  }

  lemma StatStates(s: State, times: seq<Call>)
    requires |times| == 3
    ensures AfterAll(s, times[..0]) == s
    ensures AfterAll(s, times[..1]) == After(s, times[0])
    ensures AfterAll(s, times[..2]) == After(After(s, times[0]), times[1])
    ensures AfterAll(s, times) == After(After(After(s, times[0]), times[1]), times[2])
  {
    hide After;
    assert times[..1][..0] == times[..0] == [] && times[..2][..1] == times[..1];
  }

  // ----- what stat shows -----

  /** A plain offset is in effect, with or without ticks. */
  ghost predicate AtPlainOffset(parse: string -> Meaning, c: Clock) {
    && Follows(parse, c) && parse(c.saved).base.Offset? && !parse(c.saved).modifier.Rate?
    && c.mode.StartAt? && !c.rateSet
    && Normal(c.start.real_, NSEC) && Normal(c.offset, NSEC)
  }

  ghost predicate RealTimes(times: seq<Call>) {
    forall k | 0 <= k < |times| :: times[k].clk.Realtime? && !times[k].dontFake
  }

  /** Then stat adds the offset to what is stored, consumes no tick and changes no setting. */
  lemma StatAddsOffset(parse: string -> Meaning, s: State, times: seq<Call>, i: nat)
    requires AtPlainOffset(parse, s.clock) && Quiet(s, times) && RealTimes(times) && i < |times|
    requires Normal(times[i].tp, NSEC) && Clear(s.clock.start.real_, s.clock.offset, times[i].tp)
    ensures var r := StatReading(s, times, i);
            && r.ret == 0 && !r.ticked && Normal(r.tp, NSEC)
            && Ns(r.tp) == Ns(times[i].tp) + Ns(s.clock.offset)
    ensures SameSettings(s.clock, AfterStat(s, times).clock)
  {
    hide Add, Shifted, Normal, Clear, After, AfterAll, Settled, SameText, Answer, OutsideLimits;
    var u := Unticked(s);
    assert Quiet(u, times) by {
      hide *;
      SameTextUnticked(s, times);
    }
    RunKeepsSettings(u, times);
    RunKeepsSettings(u, times[..i]);
    var before := AfterAll(u, times[..i]);
    assert SameText(before, times[i]) by {
      SameTextKept(u, before, times[i]);
    }
    CallKeepsSettings(before, times[i]);
    NoLimits(before, times[i]);
    StatAnswer(before, times[i]);
    var c := Settled(before, times[i]).clock;
    assert AtOffset(c, c.start.real_, c.offset);
    PlainReading(c, c.start.real_, c.offset, times[i].tp);
    ShiftedIsNormal(c, times[i].tp);
  }

  lemma StatAnswer(s: State, call: Call)
    requires !Skips(s, call) && Counted(s) == s && !s.infileSet && Settled(s, call).clock.mode.StartAt?
    requires !Settled(s, call).clock.tickSet && call.clk.Realtime?
    ensures var r := Answer(s, call);
            r.ret == 0 && !r.ticked && r.tp == Shifted(Settled(s, call).clock, Realtime, call.tp)
  {
    hide Settled, Shifted, OutsideLimits;
  }

  lemma SameTextUnticked(s: State, calls: seq<Call>)
    requires Quiet(s, calls)
    ensures Quiet(Unticked(s), calls)
  {
    assert forall k | 0 <= k < |calls| :: SameText(s, calls[k]) ==> SameText(Unticked(s), calls[k]);
  }

  lemma ShiftedIsNormal(c: Clock, tp: Stamp)
    requires AtOffset(c, c.start.real_, c.offset)
    requires Normal(c.start.real_, NSEC) && Normal(c.offset, NSEC) && Normal(tp, NSEC)
    ensures Normal(Shifted(c, Realtime, tp), NSEC)
  {
    hide Add, Shifted, Normal;
    AddTotal(c.start.real_, c.offset, NSEC);
    ShiftedNs(c, Realtime, tp);
  }

  // ----- what is set is read back -----

  /** A file time is set in state `s`; then come any calls under an unchanged text; then a
      stat whose i-th time is the one stored. */
  ghost predicate SetThenStat(parse: string -> Meaning, s: State, calls: seq<Call>, times: seq<Call>, i: nat,
                              stored: Stamp)
  {
    && AtPlainOffset(parse, s.clock) && Quiet(s, calls)
    && i < |times| && times[i].tp == stored
    && RealTimes(times) && (forall k | 0 <= k < |times| :: SameText(s, times[k]))
    && Clear(s.clock.start.real_, s.clock.offset, stored)
  }

  lemma ReadsBack(parse: string -> Meaning, s: State, calls: seq<Call>, times: seq<Call>, i: nat, stored: Stamp)
    requires SetThenStat(parse, s, calls, times, i, stored) && Normal(stored, NSEC)
    ensures var r := StatReading(AfterAll(s, calls), times, i);
            && r.ret == 0 && !r.ticked && Normal(r.tp, NSEC)
            && Ns(r.tp) == Ns(stored) + Ns(s.clock.offset)
  {
    hide Add, Normal, Clear, AfterAll, SameText, StatReading, AfterStat;
    RunKeepsSettings(s, calls);
    var s' := AfterAll(s, calls);
    forall k | 0 <= k < |times|
      ensures SameText(s', times[k])
    {
      SameTextKept(s, s', times[k]);
    }
    StatAddsOffset(parse, s', times, i);
  }

  /** A nanosecond time set through utimensat reads back exactly. */
  lemma UtimensatReadsBack(parse: string -> Meaning, s: State, calls: seq<Call>, times: seq<Call>, i: nat,
                           t: Stamp, readNow: Option<Stamp>, stored: Stamp)
    requires Normal(t, NSEC) && Fits(Ns(t) - Ns(s.clock.offset), NSEC)
    requires Translated(s.clock, false, t, readNow, stored)
    requires SetThenStat(parse, s, calls, times, i, stored)
    ensures var r := StatReading(AfterAll(s, calls), times, i);
            r.ret == 0 && !r.ticked && r.tp == t
  {
    hide StatReading, AfterAll, Clear, Quiet, RealTimes, SameText;
    ReadsBack(parse, s, calls, times, i, stored);
    TotalInjective(StatReading(AfterAll(s, calls), times, i).tp, t, NSEC);
  }

  /** A microsecond time set through utimes reads back to the microsecond. */
  lemma UtimesReadsBack(parse: string -> Meaning, s: State, calls: seq<Call>, times: seq<Call>, i: nat, t: Stamp)
    requires Normal(t, USEC)
    requires Fits(Total(t, USEC) - Total(Stamp(s.clock.offset.sec, s.clock.offset.sub / 1000), USEC), USEC)
    requires SetThenStat(parse, s, calls, times, i, UtimesStored(s.clock, t))
    ensures var r := StatReading(AfterAll(s, calls), times, i);
            r.ret == 0 && !r.ticked && Stamp(r.tp.sec, r.tp.sub / 1000) == t
  {
    hide StatReading, AfterAll, Clear, Sub, Quiet, RealTimes, SameText;
    var off := s.clock.offset;
    var off2 := Stamp(off.sec, off.sub / 1000);
    SubTotal(t, off2, USEC);
    var stored := Sub(t, off2, USEC).value;
    MicrosToNanos(stored);
    ReadsBack(parse, s, calls, times, i, UtimesStored(s.clock, t));
    MicrosApart(stored, off, t, StatReading(AfterAll(s, calls), times, i).tp);
  }

  lemma MicrosToNanos(t: Stamp)
    requires Normal(t, USEC)
    ensures Normal(Stamp(t.sec, t.sub * 1000), NSEC) && Ns(Stamp(t.sec, t.sub * 1000)) == 1000 * Total(t, USEC)
  {
  }

  /** Adding an offset in nanoseconds to a difference in microseconds, then dropping the
      nanoseconds, gives the minuend back. */
  lemma MicrosApart(stored: Stamp, off: Stamp, t: Stamp, r: Stamp)
    requires Normal(off, NSEC) && Normal(t, USEC) && Normal(r, NSEC)
    requires Total(stored, USEC) == Total(t, USEC) - Total(Stamp(off.sec, off.sub / 1000), USEC)
    requires Ns(r) == 1000 * Total(stored, USEC) + Ns(off)
    ensures Stamp(r.sec, r.sub / 1000) == t
  {
    assert Ns(r) == 1000 * Total(t, USEC) + off.sub % 1000;
  }

  /** A time in seconds set through utime reads back to the second. */
  lemma UtimeReadsBack(parse: string -> Meaning, s: State, calls: seq<Call>, times: seq<Call>, i: nat, sec: int)
    requires Representable(sec - s.clock.offset.sec)
    requires SetThenStat(parse, s, calls, times, i, UtimeStored(s.clock, sec))
    ensures var r := StatReading(AfterAll(s, calls), times, i);
            r.ret == 0 && !r.ticked && r.tp.sec == sec
  {
    hide StatReading, AfterAll, Clear, Quiet, RealTimes, SameText;
    ReadsBack(parse, s, calls, times, i, UtimeStored(s.clock, sec));
  }

  // ----- when stat does consume a tick -----

  /** The call parses a text with a tick modifier that is not bypassed. */
  predicate BringsTick(s: State, call: Call) {
    && Parses(s, call)
    && var cfg := Source(s.parseConfigFile, call).config;
       && cfg.modifier.Tick?
       && (cfg.base.FollowFile? ==> !cfg.base.absolute && !s.clock.fakedSet)
  }

  /** The clock runs when the call gets to the mode. */
  predicate Runs(s: State, call: Call) {
    if Parses(s, call) then RunsUnder(s.clock.mode, Source(s.parseConfigFile, call).config.base)
    else s.clock.mode.StartAt?
  }

  predicate RunsUnder(mode: Mode, base: Base) {
    match base
    case Absolute(_) => false
    case Offset(_) => !mode.Noop?
    case From(_) => true
    case FollowFile(_, absolute) => !absolute
    case ModifiersOnly => mode.StartAt?
  }

  lemma BaseRuns(c: Clock, base: Base, now: Instants)
    ensures var c' := ParsedBase(c, base, now);
            && (c'.mode.StartAt? <==> RunsUnder(c.mode, base))
            && c'.tickSet == c.tickSet
            && (base.FollowFile? ==> (c'.fakedSet <==> base.absolute || c.fakedSet))
  {
    hide Add;
  }

  lemma ModifierTicks(c: Clock, m: Modifier)
    ensures var c' := ParsedModifier(c, m);
            c'.mode == c.mode && (c'.tickSet <==> c.tickSet || m.Tick?)
  {
  }

  lemma ParsedTicks(c: Clock, cfg: Config, now: Instants)
    requires cfg.text != c.saved || cfg.base.FollowFile?
    ensures var c' := Parsed(c, cfg, now);
            && (c'.mode.StartAt? <==> RunsUnder(c.mode, cfg.base))
            && (c'.tickSet <==> || c.tickSet
                                || (cfg.modifier.Tick? && (cfg.base.FollowFile? ==> !cfg.base.absolute && !c.fakedSet)))
  {
    hide ParsedBase, ParsedModifier, RunsUnder;
    BaseRuns(c, cfg.base, now);
    ModifierTicks(ParsedBase(c, cfg.base, now), cfg.modifier);
  }

  /** What a look does to mode and ticks, on what was in effect and what it is offered. */
  lemma SettledTicks(s: State, call: Call)
    requires !Skips(s, call)
    ensures var c := Settled(Counted(s), call).clock;
            && (c.tickSet <==> s.clock.tickSet || BringsTick(s, call))
            && (c.mode.StartAt? <==> Runs(s, call))
  {
    hide Parsed, RunsUnder, Fetched, OutsideLimits;
    FetchedClock(s, call);
    if Parses(s, call) {
      ParsedTicks(s.clock, Source(s.parseConfigFile, call).config, call.now);
    }
  }

  /** One read, on what was in effect before it and what it is offered. */
  lemma ReadTicks(s: State, call: Call)
    ensures Answer(s, call).ticked <==>
              !Skips(s, call) && !Replays(s, call) && Runs(s, call) && (s.clock.tickSet || BringsTick(s, call))
    ensures After(s, call).clock.tickSet <==> s.clock.tickSet || BringsTick(s, call)
  {
    hide Settled, FakedAfter, Shifted, Ticked, Parses, Runs, OutsideLimits, Instants.With;
    if Skips(s, call) {
      SkippedBringsNothing(s, call);
    } else {
      SettledTicks(s, call);
      FakedKeeps(Counted(s), call);
    }
  }

  lemma SkippedBringsNothing(s: State, call: Call)
    requires Skips(s, call)
    ensures !BringsTick(s, call)
  {
  }

  /** The state before the k-th read of a stat. */
  function Before(s: State, times: seq<Call>, k: nat): State
    requires k <= |times|
  {
    AfterAll(Unticked(s), times[..k])
  }

  /** Within a stat ticks are on exactly after a read that has brought them. */
  lemma {:induction false} TicksSwitchedOn(s: State, times: seq<Call>, i: nat)
    requires i <= |times|
    ensures Before(s, times, i).clock.tickSet <==> exists k :: 0 <= k < i && BringsTick(Before(s, times, k), times[k])
  {
    hide BringsTick, After;
    if i == 0 {
      assert times[..0] == [];
    } else {
      TicksSwitchedOn(s, times, i - 1);
      assert times[..i][..i - 1] == times[..i - 1];
      ReadTicks(Before(s, times, i - 1), times[i - 1]);
    }
  }

  /** A read of a stat consumes a tick if and only if the clock runs, the read is not answered
      from the load file, and this or an earlier read of the same stat has itself looked at
      the configuration and found a new text with a tick modifier.  Such a read gets to
      next_time, which takes the lock that stat is holding: a lock on a file lets it pass,
      and its release then ends the protection of the stat early; the POSIX and System V
      semaphores block it for good. */
  lemma StatTicksExactly(s: State, times: seq<Call>, i: nat)
    requires i < |times|
    ensures StatReading(s, times, i).ticked <==>
              && !Skips(Before(s, times, i), times[i]) && !Replays(Before(s, times, i), times[i])
              && Runs(Before(s, times, i), times[i])
              && exists k :: 0 <= k <= i && BringsTick(Before(s, times, k), times[k])
  {
    hide BringsTick, Answer, Runs, Replays, Skips, AfterAll;
    TicksSwitchedOn(s, times, i);
    ReadTicks(Before(s, times, i), times[i]);
  }

  /** It does happen.  A process reads its configuration file, the file is given a tick modifier,
      and the first call after the cache has expired is a stat.  The stat consumes a tick, and
      then puts the old setting back although the new text counts as parsed, so that no later
      call ticks. */
  lemma StatConsumesTick(b: Boot, first: Call, stat: Call)
    requires b.env.None? && b.file == Contents(Config("+1", Offset(Stamp(1, 0)), NoModifier))
    requires !b.excluded && !b.infileSet && b.limits == NO_LIMITS && b.cacheEnabled
    requires !Bypasses(first) && first.file == b.file && first.nowSec > 0
    requires !Bypasses(stat) && stat.nowSec - first.nowSec > b.cacheDuration
    requires stat.file == Contents(Config("+1 i2", Offset(Stamp(1, 0)), Tick(Stamp(2, 0))))
    ensures var s := AfterAll(Booted(b), [first]);
            var s' := AfterStat(s, [stat]);
            && StatReading(s, [stat], 0).ticked
            && !s'.clock.tickSet && s'.clock.saved == "+1 i2" && !Answer(s', stat).ticked
  {
    hide After, Answer, Booted, Parses, Runs, BringsTick, OutsideLimits, Counted;
    var s := AfterAll(Booted(b), [first]);
    OneCall(Booted(b), first);
    AfterFirst(b, first);
    var u := Unticked(s);
    OneCall(u, stat);
    TickIsFound(u, stat);
    ReadTicks(u, stat);
    ReadTicks(AfterStat(s, [stat]), stat);
    NothingNew(AfterStat(s, [stat]), stat);
  }

  /** What the first call leaves behind. */
  lemma AfterFirst(b: Boot, first: Call)
    requires b.env.None? && b.file == Contents(Config("+1", Offset(Stamp(1, 0)), NoModifier))
    requires !b.excluded && !b.infileSet && b.limits == NO_LIMITS
    requires !Bypasses(first) && first.file == b.file && first.nowSec > 0
    ensures var s := After(Booted(b), first);
            && s.clock.saved == "+1" && s.clock.mode.StartAt? && !s.clock.tickSet
            && s.parseConfigFile && !s.infileSet && s.limits == NO_LIMITS
            && s.cache.lastFetch == first.nowSec && s.cache.duration == b.cacheDuration
  {
    hide FakedAfter, Add;
    FakedKeeps(Booted(b), first);
  }

  lemma TickIsFound(s: State, call: Call)
    requires s.clock.saved == "+1" && s.clock.mode.StartAt? && s.parseConfigFile && !s.infileSet
    requires s.limits == NO_LIMITS && !Bypasses(call)
    requires s.cache.lastFetch > 0 && call.nowSec - s.cache.lastFetch > s.cache.duration
    requires call.file == Contents(Config("+1 i2", Offset(Stamp(1, 0)), Tick(Stamp(2, 0))))
    ensures !Skips(s, call) && Runs(s, call) && BringsTick(s, call) && After(s, call).clock.saved == "+1 i2"
    ensures After(s, call).parseConfigFile
  {
    hide After, FakedAfter, Add;
    assert Source(s.parseConfigFile, call) == call.file;
    LookOrKeep(s, call);
  }

  lemma NothingNew(s: State, call: Call)
    requires !s.clock.tickSet && s.parseConfigFile && call.file.Contents?
    requires s.clock.saved == call.file.config.text && !call.file.config.base.FollowFile?
    ensures !BringsTick(s, call)
  {
    hide OutsideLimits, Checked;
  }
}
