/** The protocol by which processes share one clock: a start time fixed by whoever comes
    first, a counter of ticks, and a recorded file of timestamps replayed record by record
    (ftpl_really_init, next_time, load_time).

    Every access to the shared data happens between taking and releasing one lock.  The
    model interleaves the processes at the level of single reads and writes, so that the
    lock is what keeps them apart. */
module SharedClock {
  import opened Options
  import opened TimeOps

  const MAGIC := 0x46544c42
  const VERSION := 1
  const SHARED_SIZE := 88

  type Pid = nat

  /** struct ft_shared_s, with the real-time start time standing for all clocks. */
  datatype Shared = Shared(magic: int, version: int, size: int, ticks: nat, fileIdx: nat, start: Stamp)

  /** ft_shared_time_valid: -1 nanoseconds mark a time that has not been set. */
  predicate TimeValid(t: Stamp) {
    t.sub == -1 || 0 <= t.sub < NSEC
  }

  /** ft_shared_header_valid */
  predicate HeaderValid(s: Shared) {
    s.magic == MAGIC && s.version == VERSION && s.size == SHARED_SIZE && TimeValid(s.start)
  }

  predicate IsSet(t: Stamp) {
    t.sub != -1
  }

  /** What the processes are configured with: an offset each, a common tick increment, and
      the records of the load file (none without one). */
  datatype Setup = Setup(offsets: seq<Stamp>, inc: Stamp, records: seq<Stamp>)

  /** Where a process stands.  The states from a `...Locked` one up to the matching
      `...Unlock` are inside the critical section. */
  datatype Pc =
    | Off
    | InitLocked | InitWrite | InitUnlock
    | Idle
    | LoadLocked | LoadWrite(idx: nat, value: Stamp) | AnchorWrite | LoadUnlock(ret: Option<Stamp>)
    | WantTick
    | TickLocked | TickWrite(k: nat, value: Stamp) | TickUnlock(value: Stamp)

  /** A process: its start time, base, whether it still replays, and what it has returned. */
  datatype Proc = Proc(pc: Pc, start: Stamp, faked: Stamp, infileSet: bool, out: seq<Stamp>)

  /** The order in which values were taken under the lock. */
  datatype Event = Record(pid: Pid, idx: nat, value: Stamp) | Tick(pid: Pid, k: nat, value: Stamp)

  datatype Sys = Sys(shared: Shared, lock: Option<Pid>, procs: seq<Proc>, log: seq<Event>)

  function Initial(cfg: Setup): Sys {
    Sys(Shared(MAGIC, VERSION, SHARED_SIZE, 0, 0, Stamp(0, -1)), None,
        seq(|cfg.offsets|, _ => Proc(Off, Stamp(0, -1), Stamp(0, -1), false, [])), [])
  }

  predicate Inside(pc: Pc) {
    !(pc.Off? || pc.Idle? || pc.WantTick?)
  }

  function Put(s: Sys, p: Pid, proc: Proc): Sys
    requires p < |s.procs|
  {
    s.(procs := s.procs[p := proc])
  }

  /** Take the lock if it is free, else wait. */
  function Acquire(s: Sys, p: Pid, pc: Pc): Sys
    requires p < |s.procs|
  {
    if s.lock.None? then Put(s.(lock := Some(p)), p, s.procs[p].(pc := pc)) else s
  }

  function Release(s: Sys, p: Pid, proc: Proc): Sys
    requires p < |s.procs|
  {
    Put(s.(lock := None), p, proc)
  }

  /** The next step of process `p`, when the system clock shows `now`. */
  function Next(cfg: Setup, s: Sys, p: Pid, now: Stamp): Sys
    requires p < |s.procs| == |cfg.offsets|
  {
    var proc := s.procs[p];
    match proc.pc
    // start-time setup in ftpl_really_init, then parse_ft_string of the offset
    case Off => Acquire(s, p, InitLocked)
    case InitLocked =>
      if !IsSet(s.shared.start) then Put(s, p, proc.(pc := InitWrite, start := now))
      else Put(s, p, proc.(pc := InitUnlock, start := s.shared.start))
    case InitWrite => Put(s.(shared := s.shared.(start := proc.start)), p, proc.(pc := InitUnlock))
    case InitUnlock =>
      Release(s, p, proc.(pc := Idle, faked := Add(proc.start, cfg.offsets[p], NSEC).value,
                          infileSet := cfg.records != []))
    // a time call: load_time while the file lasts
    case Idle => if proc.infileSet then Acquire(s, p, LoadLocked) else Put(s, p, proc.(pc := WantTick))
    case LoadLocked =>
      if s.shared.fileIdx < |cfg.records| then
        var v := cfg.records[s.shared.fileIdx];
        Put(s.(log := s.log + [Record(p, s.shared.fileIdx, v)]), p, proc.(pc := LoadWrite(s.shared.fileIdx, v)))
      else if cfg.records == [] then s
      else
        var done := proc.(faked := cfg.records[|cfg.records| - 1], infileSet := false);
        if s.shared.ticks == 0 then
          Put(s.(shared := s.shared.(ticks := 1)), p, done.(pc := AnchorWrite, start := now))
        else Put(s, p, done.(pc := LoadUnlock(None), start := s.shared.start))
    case LoadWrite(i, v) => Put(s.(shared := s.shared.(fileIdx := i + 1)), p, proc.(pc := LoadUnlock(Some(v))))
    case AnchorWrite => Put(s.(shared := s.shared.(start := proc.start)), p, proc.(pc := LoadUnlock(None)))
    case LoadUnlock(ret) =>
      if ret.Some? then Release(s, p, proc.(pc := Idle, out := proc.out + [ret.value]))
      else Release(s, p, proc.(pc := WantTick))
    // next_time
    case WantTick => Acquire(s, p, TickLocked)
    case TickLocked =>
      var k := s.shared.ticks;
      var v := TickValue(proc.faked, cfg.inc, k);
      Put(s.(log := s.log + [Tick(p, k, v)]), p, proc.(pc := TickWrite(k, v)))
    case TickWrite(k, v) => Put(s.(shared := s.shared.(ticks := k + 1)), p, proc.(pc := TickUnlock(v)))
    case TickUnlock(v) => Release(s, p, proc.(pc := Idle, out := proc.out + [v]))
  }

  /** One entry of a schedule: which process runs next and what the system clock shows. */
  datatype Turn = Turn(pid: Pid, now: Stamp)

  ghost predicate ValidTurns(cfg: Setup, turns: seq<Turn>) {
    forall i | 0 <= i < |turns| :: turns[i].pid < |cfg.offsets| && Normal(turns[i].now, NSEC)
  }

  function Run(cfg: Setup, turns: seq<Turn>): (s: Sys)
    requires forall i | 0 <= i < |turns| :: turns[i].pid < |cfg.offsets|
    ensures |s.procs| == |cfg.offsets|
    decreases |turns|
  {
    if turns == [] then Initial(cfg)
    else
      var last := turns[|turns| - 1];
      Next(cfg, Run(cfg, turns[..|turns| - 1]), last.pid, last.now)
  }

  // ----- the invariant -----

  /** Past the start-time setup. */
  predicate Up(proc: Proc) {
    !(proc.pc.Off? || proc.pc.InitLocked? || proc.pc.InitWrite? || proc.pc.InitUnlock?)
  }

  /** Done with the load file. */
  predicate Exhausted(cfg: Setup, proc: Proc) {
    cfg.records != [] && Up(proc) && !proc.infileSet
  }

  ghost predicate LockInv(s: Sys) {
    && (s.lock.Some? ==> s.lock.value < |s.procs|)
    && forall p | 0 <= p < |s.procs| :: Inside(s.procs[p].pc) <==> s.lock == Some(p)
  }

  /** The process holding the lock, if any, is the only one with a write outstanding. */
  function Holder(s: Sys): Pc {
    if s.lock.Some? && s.lock.value < |s.procs| then s.procs[s.lock.value].pc else Idle
  }

  /** What is known of each process. */
  ghost predicate ProcInv(cfg: Setup, s: Sys, p: Pid)
    requires p < |s.procs| == |cfg.offsets|
  {
    var proc := s.procs[p];
    && (proc.pc.InitWrite? ==> !IsSet(s.shared.start) && Normal(proc.start, NSEC))
    && (proc.pc.InitUnlock? ==> IsSet(s.shared.start) && proc.start == s.shared.start)
    && (Up(proc) ==> IsSet(s.shared.start))
    && (Up(proc) && cfg.records == [] ==>
          !proc.infileSet && proc.start == s.shared.start && proc.faked == Add(s.shared.start, cfg.offsets[p], NSEC).value)
    && (Exhausted(cfg, proc) ==>
          && proc.faked == cfg.records[|cfg.records| - 1]
          && s.shared.ticks >= 1
          && (!proc.pc.AnchorWrite? ==> proc.start == s.shared.start))
    && (proc.pc.AnchorWrite? ==> Exhausted(cfg, proc) && Normal(proc.start, NSEC) && cfg.records != [])
    && (proc.pc.LoadLocked? || proc.pc.LoadWrite? ==> proc.infileSet)
    && (proc.pc.LoadUnlock? ==> cfg.records != [] && (proc.pc.ret.None? ==> !proc.infileSet))
    && (proc.pc.WantTick? || proc.pc.TickLocked? || proc.pc.TickWrite? || proc.pc.TickUnlock? ==> !proc.infileSet)
  }

  /** Setting the anchor happens before anyone else is done with the file. */
  ghost predicate AnchorInv(cfg: Setup, s: Sys) {
    forall p, q | 0 <= p < |s.procs| && 0 <= q < |s.procs| && p != q ::
      s.procs[p].pc.AnchorWrite? ==> !Exhausted(cfg, s.procs[q])
  }

  /** The number of ticks that precede the first one. */
  function FirstTick(cfg: Setup): nat {
    if cfg.records == [] then 0 else 1
  }

  /** The base a tick of process `p` is counted from. */
  function Base(cfg: Setup, start: Stamp, p: Pid): Stamp
    requires p < |cfg.offsets|
  {
    if cfg.records == [] then Add(start, cfg.offsets[p], NSEC).value else cfg.records[|cfg.records| - 1]
  }

  /** The i-th value taken: the records in order, then ticks without gap or repeat. */
  ghost predicate EventOk(cfg: Setup, start: Stamp, i: nat, e: Event) {
    && e.pid < |cfg.offsets|
    && if i < |cfg.records| then e == Record(e.pid, i, cfg.records[i])
       else var k := i - |cfg.records| + FirstTick(cfg);
            e == Tick(e.pid, k, TickValue(Base(cfg, start, e.pid), cfg.inc, k))
  }

  ghost predicate LogInv(cfg: Setup, s: Sys) {
    forall i | 0 <= i < |s.log| :: EventOk(cfg, s.shared.start, i, s.log[i])
  }

  /** The counters and the length of the log agree, up to a write still outstanding. */
  ghost predicate CountInv(cfg: Setup, s: Sys) {
    var h := Holder(s);
    var taken := s.shared.fileIdx + if h.LoadWrite? then 1 else 0;
    var ticks := s.shared.ticks + if h.TickWrite? then 1 else 0;
    && (h.LoadWrite? ==> h.idx == s.shared.fileIdx)
    && (h.TickWrite? ==> h.k == s.shared.ticks)
    && (s.log != [] ==> IsSet(s.shared.start))
    && taken == (if |s.log| < |cfg.records| then |s.log| else |cfg.records|)
    && (if cfg.records == [] then ticks == |s.log|
        else (ticks == 0 && |s.log| <= |cfg.records|) || (ticks >= 1 && |s.log| == |cfg.records| + ticks - 1))
  }

  /** The value a process is about to return. */
  function Pending(pc: Pc): seq<Stamp> {
    match pc
    case LoadWrite(_, v) => [v]
    case LoadUnlock(Some(v)) => [v]
    case TickWrite(_, v) => [v]
    case TickUnlock(v) => [v]
    case _ => []
  }

  /** The values that process `p` took, in order. */
  function Taken(log: seq<Event>, p: Pid): seq<Stamp> {
    if log == [] then []
    else
      var e := log[|log| - 1];
      Taken(log[..|log| - 1], p) + if e.pid == p then [e.value] else []
  }

  /** Every process returns exactly the values it took. */
  ghost predicate OutInv(s: Sys) {
    forall p | 0 <= p < |s.procs| :: Taken(s.log, p) == Trace(s.procs[p])
  }

  ghost predicate Inv(cfg: Setup, s: Sys) {
    && |s.procs| == |cfg.offsets|
    && HeaderValid(s.shared)
    && LockInv(s)
    && (forall p | 0 <= p < |s.procs| :: ProcInv(cfg, s, p))
    && AnchorInv(cfg, s) && CountInv(cfg, s) && LogInv(cfg, s) && OutInv(s)
  }

  // ----- every step keeps it -----

  lemma InitialInv(cfg: Setup)
    ensures Inv(cfg, Initial(cfg))
  {
  }

  lemma NextLock(cfg: Setup, s: Sys, p: Pid, now: Stamp)
    requires p < |s.procs| == |cfg.offsets| && LockInv(s)
    ensures LockInv(Next(cfg, s, p, now))
  {
    hide Add, Mul;
  }

  lemma NextHeader(cfg: Setup, s: Sys, p: Pid, now: Stamp)
    requires p < |s.procs| == |cfg.offsets| && HeaderValid(s.shared) && ProcInv(cfg, s, p)
    ensures HeaderValid(Next(cfg, s, p, now).shared)
  {
    hide Add, Mul;
  }

  /** The process that moves. */
  lemma NextMover(cfg: Setup, s: Sys, p: Pid, now: Stamp)
    requires p < |s.procs| == |cfg.offsets| && Normal(now, NSEC) && LockInv(s) && ProcInv(cfg, s, p) && CountInv(cfg, s)
    requires HeaderValid(s.shared)
    ensures ProcInv(cfg, Next(cfg, s, p, now), p)
  {
    hide Add, Mul, TickValue;
  }

  /** A process that stands still. */
  lemma NextOther(cfg: Setup, s: Sys, p: Pid, now: Stamp, q: Pid)
    requires p < |s.procs| == |cfg.offsets| && q < |s.procs| && p != q
    requires LockInv(s) && ProcInv(cfg, s, p) && ProcInv(cfg, s, q) && AnchorInv(cfg, s) && CountInv(cfg, s)
    ensures ProcInv(cfg, Next(cfg, s, p, now), q)
  {
    hide Add, Mul, TickValue;
  }

  lemma NextAnchor(cfg: Setup, s: Sys, p: Pid, now: Stamp)
    requires p < |s.procs| == |cfg.offsets| && LockInv(s) && AnchorInv(cfg, s)
    requires forall q | 0 <= q < |s.procs| :: ProcInv(cfg, s, q)
    ensures AnchorInv(cfg, Next(cfg, s, p, now))
  {
    hide Add, Mul, TickValue;
    var s' := Next(cfg, s, p, now);
    forall a, q | 0 <= a < |s'.procs| && 0 <= q < |s'.procs| && a != q && s'.procs[a].pc.AnchorWrite?
      ensures !Exhausted(cfg, s'.procs[q])
    {
      assert ProcInv(cfg, s, a) && ProcInv(cfg, s, q);
      assert Inside(s.procs[a].pc) <==> s.lock == Some(a);
      assert Inside(s.procs[q].pc) <==> s.lock == Some(q);
    }
  }

  lemma NextCount(cfg: Setup, s: Sys, p: Pid, now: Stamp)
    requires p < |s.procs| == |cfg.offsets| && LockInv(s) && CountInv(cfg, s) && ProcInv(cfg, s, p)
    ensures CountInv(cfg, Next(cfg, s, p, now))
  {
    hide Add, Mul, TickValue;
  }

  lemma NextLog(cfg: Setup, s: Sys, p: Pid, now: Stamp)
    requires p < |s.procs| == |cfg.offsets| && LockInv(s) && CountInv(cfg, s) && ProcInv(cfg, s, p) && LogInv(cfg, s)
    ensures LogInv(cfg, Next(cfg, s, p, now))
  {
    hide Add, Mul, TickValue;
  }

  lemma TakenAppend(log: seq<Event>, e: Event, p: Pid)
    ensures Taken(log + [e], p) == Taken(log, p) + if e.pid == p then [e.value] else []
  {
    assert (log + [e])[..|log|] == log;
  }

  /** What the process that moves has returned or is about to return. */
  function Trace(proc: Proc): seq<Stamp> {
    proc.out + Pending(proc.pc)
  }

  /** A step either takes nothing, or takes one value for the process that moves. */
  lemma NextTrace(cfg: Setup, s: Sys, p: Pid, now: Stamp)
    requires p < |s.procs| == |cfg.offsets|
    ensures var s' := Next(cfg, s, p, now);
            && |s'.procs| == |s.procs| && (forall q | 0 <= q < |s.procs| && q != p :: s'.procs[q] == s.procs[q])
            && if s'.log == s.log then Trace(s'.procs[p]) == Trace(s.procs[p])
               else exists e :: s'.log == s.log + [e] && e.pid == p && Trace(s'.procs[p]) == Trace(s.procs[p]) + [e.value]
  {
    hide Add, Mul, TickValue;
    var s' := Next(cfg, s, p, now);
    match s.procs[p].pc {
      case LoadLocked =>
        if s'.log != s.log {
          assert s'.log == s.log + [s'.log[|s.log|]];
        }
      case TickLocked =>
        assert s'.log == s.log + [s'.log[|s.log|]];
      case _ =>
    }
  }

  lemma NextOut(cfg: Setup, s: Sys, p: Pid, now: Stamp)
    requires p < |s.procs| == |cfg.offsets| && OutInv(s)
    ensures OutInv(Next(cfg, s, p, now))
  {
    hide Next, Taken, Pending;
    NextTrace(cfg, s, p, now);
    var s' := Next(cfg, s, p, now);
    if s'.log != s.log {
      var e :| s'.log == s.log + [e] && e.pid == p && Trace(s'.procs[p]) == Trace(s.procs[p]) + [e.value];
      forall q | 0 <= q < |s'.procs|
        ensures Taken(s'.log, q) == Trace(s'.procs[q])
      {
        TakenAppend(s.log, e, q);
      }
    }
  }

  lemma NextInv(cfg: Setup, s: Sys, p: Pid, now: Stamp)
    requires p < |s.procs| == |cfg.offsets| && Normal(now, NSEC) && Inv(cfg, s)
    ensures Inv(cfg, Next(cfg, s, p, now))
  {
    hide Next, HeaderValid, LockInv, ProcInv, AnchorInv, CountInv, LogInv, OutInv;
    NextLength(cfg, s, p, now);
    NextLock(cfg, s, p, now);
    NextHeader(cfg, s, p, now);
    NextMover(cfg, s, p, now);
    forall q | 0 <= q < |s.procs|
      ensures ProcInv(cfg, Next(cfg, s, p, now), q)
    {
      if q != p {
        NextOther(cfg, s, p, now, q);
      }
    }
    NextAnchor(cfg, s, p, now);
    NextCount(cfg, s, p, now);
    NextLog(cfg, s, p, now);
    NextOut(cfg, s, p, now);
  }

  lemma NextLength(cfg: Setup, s: Sys, p: Pid, now: Stamp)
    requires p < |s.procs| == |cfg.offsets|
    ensures |Next(cfg, s, p, now).procs| == |s.procs|
  {
  }

  /** The invariant holds after every schedule. */
  lemma {:induction false} RunInv(cfg: Setup, turns: seq<Turn>)
    requires ValidTurns(cfg, turns)
    ensures Inv(cfg, Run(cfg, turns))
  {
    if turns == [] {
      InitialInv(cfg);
    } else {
      var before, last := turns[..|turns| - 1], turns[|turns| - 1];
      RunInv(cfg, before);
      hide Next, Inv;
      NextInv(cfg, Run(cfg, before), last.pid, last.now);
    }
  }

  // ----- what it means -----

  /** In every run at most one process is inside the critical section, and the shared data
      always passes the header check that an attaching process makes. */
  lemma MutualExclusion(cfg: Setup, turns: seq<Turn>, p: Pid, q: Pid)
    requires ValidTurns(cfg, turns) && p < |cfg.offsets| && q < |cfg.offsets|
    ensures var s := Run(cfg, turns);
            && HeaderValid(s.shared)
            && (Inside(s.procs[p].pc) && Inside(s.procs[q].pc) ==> p == q)
  {
    RunInv(cfg, turns);
  }

  /** Over any number of processes in any interleaving, the values taken are the records of
      the load file in order, each taken once, and after them the last record plus 1, 2, 3,
      ... increments; without a file they are the base of the process plus 0, 1, 2, ...
      increments, counted over all processes together. */
  lemma ReplayThenTicks(cfg: Setup, turns: seq<Turn>, i: nat)
    requires ValidTurns(cfg, turns) && i < |Run(cfg, turns).log|
    ensures var s := Run(cfg, turns);
            var e, n := s.log[i], |cfg.records|;
            && e.pid < |cfg.offsets|
            && (i < n ==> e == Record(e.pid, i, cfg.records[i]))
            && (n > 0 && i >= n ==> e == Tick(e.pid, i - n + 1, TickValue(cfg.records[n - 1], cfg.inc, i - n + 1)))
            && (n == 0 ==>
                  e == Tick(e.pid, i, TickValue(Add(s.shared.start, cfg.offsets[e.pid], NSEC).value, cfg.inc, i)))
  {
    hide Run, Add, Mul, TickValue, OutInv, CountInv, ProcInv, AnchorInv, LockInv;
    RunInv(cfg, turns);
    var s := Run(cfg, turns);
    assert EventOk(cfg, s.shared.start, i, s.log[i]);
  }

  /** Every process returns to its caller exactly the values it took, in order. */
  lemma CallersGetWhatWasTaken(cfg: Setup, turns: seq<Turn>, p: Pid)
    requires ValidTurns(cfg, turns) && p < |cfg.offsets|
    ensures var s := Run(cfg, turns);
            && s.procs[p].out <= Taken(s.log, p)
            && (!Inside(s.procs[p].pc) ==> s.procs[p].out == Taken(s.log, p))
  {
    RunInv(cfg, turns);
    var s := Run(cfg, turns);
    assert Taken(s.log, p) == s.procs[p].out + Pending(s.procs[p].pc);
  }

  /** Once past the load file, processes agree on the anchor: the same start time and the
      last record as the base. */
  lemma SameAnchor(cfg: Setup, turns: seq<Turn>, p: Pid, q: Pid)
    requires ValidTurns(cfg, turns) && p < |cfg.offsets| && q < |cfg.offsets|
    ensures var s := Run(cfg, turns);
            Exhausted(cfg, s.procs[p]) && Exhausted(cfg, s.procs[q]) ==>
              && s.procs[p].start == s.procs[q].start
              && s.procs[p].faked == s.procs[q].faked == cfg.records[|cfg.records| - 1]
  {
    hide Run, Add, Mul, TickValue, OutInv, CountInv, LogInv;
    RunInv(cfg, turns);
    var s := Run(cfg, turns);
    assert ProcInv(cfg, s, p) && ProcInv(cfg, s, q);
    assert p != q && s.procs[p].pc.AnchorWrite? ==> !Exhausted(cfg, s.procs[q]);
    assert p != q && s.procs[q].pc.AnchorWrite? ==> !Exhausted(cfg, s.procs[p]);
  }

  /** Without a load file, processes that are up share the start time, and those with the
      same offset share the base. */
  lemma SameBase(cfg: Setup, turns: seq<Turn>, p: Pid, q: Pid)
    requires ValidTurns(cfg, turns) && cfg.records == [] && p < |cfg.offsets| && q < |cfg.offsets|
    ensures var s := Run(cfg, turns);
            Up(s.procs[p]) && Up(s.procs[q]) ==>
              && s.procs[p].start == s.procs[q].start == s.shared.start && IsSet(s.shared.start)
              && (cfg.offsets[p] == cfg.offsets[q] ==> s.procs[p].faked == s.procs[q].faked)
  {
    hide Run, Add, Mul, TickValue, OutInv, CountInv, LogInv, AnchorInv, LockInv;
    RunInv(cfg, turns);
    var s := Run(cfg, turns);
    assert ProcInv(cfg, s, p) && ProcInv(cfg, s, q);
  }

  /** No load file, or none used up yet. */
  ghost predicate NotUsedUp(cfg: Setup, s: Sys) {
    cfg.records == [] || s.shared.ticks == 0
  }

  /** Then a step never changes a start time that is set. */
  lemma StartIsKept(cfg: Setup, s: Sys, p: Pid, now: Stamp)
    requires p < |s.procs| == |cfg.offsets| && Inv(cfg, s) && NotUsedUp(cfg, s) && IsSet(s.shared.start)
    ensures Next(cfg, s, p, now).shared.start == s.shared.start
  {
    hide Add, Mul, TickValue, OutInv, CountInv, LogInv;
    assert ProcInv(cfg, s, p);
  }

  lemma TicksNeverFall(cfg: Setup, s: Sys, p: Pid, now: Stamp)
    requires p < |s.procs| == |cfg.offsets| && Inv(cfg, s)
    ensures Next(cfg, s, p, now).shared.ticks >= s.shared.ticks
  {
    hide Add, Mul, TickValue, OutInv, LogInv;
    assert Inside(s.procs[p].pc) <==> s.lock == Some(p);
  }

  /** So it stays for the rest of the run, or until a load file is used up. */
  lemma {:induction false} StartPersists(cfg: Setup, turns: seq<Turn>, i: nat)
    requires ValidTurns(cfg, turns) && NotUsedUp(cfg, Run(cfg, turns)) && i <= |turns|
    ensures IsSet(Run(cfg, turns[..i]).shared.start) ==>
              Run(cfg, turns).shared.start == Run(cfg, turns[..i]).shared.start
  {
    if i == |turns| {
      assert turns[..i] == turns;
    } else {
      var before, last := turns[..|turns| - 1], turns[|turns| - 1];
      assert before[..i] == turns[..i];
      hide Next, Inv, IsSet;
      RunInv(cfg, before);
      TicksNeverFall(cfg, Run(cfg, before), last.pid, last.now);
      StartPersists(cfg, before, i);
      if IsSet(Run(cfg, before).shared.start) {
        StartIsKept(cfg, Run(cfg, before), last.pid, last.now);
      }
    }
  }

  /** Turn `i` is that of the first initialiser, in the critical section with no start time
      set and everyone else still to begin, and the system clock shows `t`. */
  ghost predicate ReadFirst(cfg: Setup, turns: seq<Turn>, i: nat, t: Stamp)
    requires ValidTurns(cfg, turns)
  {
    && i < |turns| && turns[i].now == t
    && var s := Run(cfg, turns[..i]);
       && s.procs[turns[i].pid].pc.InitLocked? && !IsSet(s.shared.start)
       && forall q | 0 <= q < |s.procs| && q != turns[i].pid :: s.procs[q].pc.Off?
  }

  lemma ReadFirstExtends(cfg: Setup, turns: seq<Turn>, i: nat, t: Stamp)
    requires ValidTurns(cfg, turns) && turns != [] && ReadFirst(cfg, turns[..|turns| - 1], i, t)
    ensures ReadFirst(cfg, turns, i, t)
  {
    assert turns[..|turns| - 1][..i] == turns[..i];
  }

  /** While the start time is unset, the holder of the lock is alone. */
  lemma FirstIsAlone(cfg: Setup, s: Sys, p: Pid, q: Pid)
    requires |s.procs| == |cfg.offsets| && Inv(cfg, s) && p < |s.procs| && q < |s.procs| && p != q
    requires s.procs[p].pc.InitLocked? && !IsSet(s.shared.start)
    ensures s.procs[q].pc.Off?
  {
    assert Inside(s.procs[p].pc) <==> s.lock == Some(p);
    assert Inside(s.procs[q].pc) <==> s.lock == Some(q);
    assert ProcInv(cfg, s, q);
  }

  /** An initialiser is about to write only after reading the clock with no start time set. */
  lemma StepToWrite(cfg: Setup, s: Sys, p: Pid, now: Stamp, w: Pid)
    requires p < |s.procs| == |cfg.offsets| && w < |s.procs|
    requires w < |Next(cfg, s, p, now).procs| && Next(cfg, s, p, now).procs[w].pc.InitWrite?
    ensures var after := Next(cfg, s, p, now).procs[w];
            if p == w then s.procs[w].pc.InitLocked? && !IsSet(s.shared.start) && after.start == now
            else after == s.procs[w]
  {
    hide Add, Mul, TickValue;
  }

  /** What an initialiser is about to write is what it read first. */
  lemma {:induction false} WritesWhatWasRead(cfg: Setup, turns: seq<Turn>, p: Pid) returns (i: nat)
    requires ValidTurns(cfg, turns) && p < |cfg.offsets| && Run(cfg, turns).procs[p].pc.InitWrite?
    ensures ReadFirst(cfg, turns, i, Run(cfg, turns).procs[p].start)
  {
    var n := |turns| - 1;
    var before, last := turns[..n], turns[n];
    var s := Run(cfg, before);
    hide Next, Inv, IsSet;
    StepToWrite(cfg, s, last.pid, last.now, p);
    if last.pid == p {
      i := n;
      RunInv(cfg, before);
      forall q | 0 <= q < |s.procs| && q != p
        ensures s.procs[q].pc.Off?
      {
        FirstIsAlone(cfg, s, p, q);
      }
    } else {
      i := WritesWhatWasRead(cfg, before, p);
      ReadFirstExtends(cfg, turns, i, s.procs[p].start);
    }
  }

  /** As long as no load file is used up, a step sets the start time only by writing what the
      process read. */
  lemma SetByWriting(cfg: Setup, s: Sys, p: Pid, now: Stamp)
    requires p < |s.procs| == |cfg.offsets| && Inv(cfg, s) && NotUsedUp(cfg, s) && !IsSet(s.shared.start)
    requires IsSet(Next(cfg, s, p, now).shared.start)
    ensures s.procs[p].pc.InitWrite? && Next(cfg, s, p, now).shared.start == s.procs[p].start
  {
    hide Add, Mul, TickValue, OutInv, CountInv, LogInv;
    assert ProcInv(cfg, s, p);
  }

  /** Exactly the first initialiser fixes the start time: what it read from the system clock,
      before any other process had begun, is the start time of the whole run, or until a load
      file is used up. */
  lemma {:induction false} FirstFixesStart(cfg: Setup, turns: seq<Turn>) returns (i: nat)
    requires ValidTurns(cfg, turns) && NotUsedUp(cfg, Run(cfg, turns)) && IsSet(Run(cfg, turns).shared.start)
    ensures ReadFirst(cfg, turns, i, Run(cfg, turns).shared.start)
  {
    var n := |turns| - 1;
    var before, last := turns[..n], turns[n];
    var s := Run(cfg, before);
    hide Next, Inv, IsSet, ReadFirst;
    RunInv(cfg, before);
    TicksNeverFall(cfg, s, last.pid, last.now);
    if IsSet(s.shared.start) {
      i := FirstFixesStart(cfg, before);
      StartIsKept(cfg, s, last.pid, last.now);
      ReadFirstExtends(cfg, turns, i, s.shared.start);
    } else {
      SetByWriting(cfg, s, last.pid, last.now);
      i := WritesWhatWasRead(cfg, before, last.pid);
      ReadFirstExtends(cfg, turns, i, s.procs[last.pid].start);
    }
  }

  // ----- the anchor after a load file -----

  /** Turn `i` is that of the process that finds the load file used up first, inside the
      critical section, and the system clock shows `t`. */
  ghost predicate ReadAtEnd(cfg: Setup, turns: seq<Turn>, i: nat, t: Stamp)
    requires ValidTurns(cfg, turns)
  {
    && i < |turns| && turns[i].now == t
    && var s := Run(cfg, turns[..i]);
       s.procs[turns[i].pid].pc.LoadLocked? && s.shared.fileIdx == |cfg.records| && s.shared.ticks == 0
  }

  lemma ReadAtEndExtends(cfg: Setup, turns: seq<Turn>, i: nat, t: Stamp)
    requires ValidTurns(cfg, turns) && turns != [] && ReadAtEnd(cfg, turns[..|turns| - 1], i, t)
    ensures ReadAtEnd(cfg, turns, i, t)
  {
    assert turns[..|turns| - 1][..i] == turns[..i];
  }

  /** The load file is used up and the new start time has been written. */
  ghost predicate AnchorSet(cfg: Setup, s: Sys) {
    && cfg.records != [] && s.shared.ticks >= 1
    && forall p | 0 <= p < |s.procs| :: !s.procs[p].pc.AnchorWrite?
  }

  /** A process is about to write a new start time only after reading the clock at the end of
      the file. */
  lemma StepToAnchor(cfg: Setup, s: Sys, p: Pid, now: Stamp, w: Pid)
    requires p < |s.procs| == |cfg.offsets| && w < |s.procs| && Inv(cfg, s)
    requires w < |Next(cfg, s, p, now).procs| && Next(cfg, s, p, now).procs[w].pc.AnchorWrite?
    ensures var after := Next(cfg, s, p, now).procs[w];
            if p == w then s.procs[w].pc.LoadLocked? && s.shared.fileIdx == |cfg.records| && s.shared.ticks == 0
                           && after.start == now
            else after == s.procs[w]
  {
    hide Add, Mul, TickValue, OutInv, LogInv, AnchorInv;
    assert Inside(s.procs[p].pc) <==> s.lock == Some(p);
  }

  lemma {:induction false} AnchorWasRead(cfg: Setup, turns: seq<Turn>, p: Pid) returns (i: nat)
    requires ValidTurns(cfg, turns) && p < |cfg.offsets| && Run(cfg, turns).procs[p].pc.AnchorWrite?
    ensures ReadAtEnd(cfg, turns, i, Run(cfg, turns).procs[p].start)
  {
    var n := |turns| - 1;
    var before, last := turns[..n], turns[n];
    var s := Run(cfg, before);
    hide Next, Inv;
    RunInv(cfg, before);
    StepToAnchor(cfg, s, last.pid, last.now, p);
    if last.pid == p {
      i := n;
    } else {
      i := AnchorWasRead(cfg, before, p);
      ReadAtEndExtends(cfg, turns, i, s.procs[p].start);
    }
  }

  /** Past the end of the file a step changes the start time only by writing such a reading. */
  lemma AnchorStep(cfg: Setup, s: Sys, p: Pid, now: Stamp)
    requires p < |s.procs| == |cfg.offsets| && Inv(cfg, s) && AnchorSet(cfg, Next(cfg, s, p, now))
    ensures var s' := Next(cfg, s, p, now);
            if s.procs[p].pc.AnchorWrite? then s'.shared.start == s.procs[p].start
            else AnchorSet(cfg, s) && s'.shared.start == s.shared.start
  {
    hide Add, Mul, TickValue, OutInv, LogInv;
    var s' := Next(cfg, s, p, now);
    assert Inside(s.procs[p].pc) <==> s.lock == Some(p);
    assert ProcInv(cfg, s, p);
    if !s.procs[p].pc.AnchorWrite? {
      assert |s'.procs| == |s.procs| && !s'.procs[p].pc.AnchorWrite?;
      forall q | 0 <= q < |s.procs|
        ensures !s.procs[q].pc.AnchorWrite?
      {
        assert q != p ==> s'.procs[q] == s.procs[q];
      }
    }
  }

  /** After a load file the start time is what the process that first found it used up read
      from the system clock at that moment. */
  lemma {:induction false} FirstAtEndFixesStart(cfg: Setup, turns: seq<Turn>) returns (i: nat)
    requires ValidTurns(cfg, turns) && AnchorSet(cfg, Run(cfg, turns))
    ensures ReadAtEnd(cfg, turns, i, Run(cfg, turns).shared.start)
  {
    if turns == [] {
      assert false;
    } else {
      var n := |turns| - 1;
      var before, last := turns[..n], turns[n];
      var s := Run(cfg, before);
      hide Next, Inv, ReadAtEnd;
      RunInv(cfg, before);
      AnchorStep(cfg, s, last.pid, last.now);
      if s.procs[last.pid].pc.AnchorWrite? {
        i := AnchorWasRead(cfg, before, last.pid);
        ReadAtEndExtends(cfg, turns, i, s.procs[last.pid].start);
      } else {
        i := FirstAtEndFixesStart(cfg, before);
        ReadAtEndExtends(cfg, turns, i, s.shared.start);
      }
    }
  }

  /** So every process that is done with the file, unless just about to write that very reading,
      runs from there: at that moment its clock shows the last record. */
  lemma AnchorOfAll(cfg: Setup, turns: seq<Turn>, p: Pid) returns (i: nat)
    requires ValidTurns(cfg, turns) && p < |cfg.offsets|
    requires Exhausted(cfg, Run(cfg, turns).procs[p])
    ensures ReadAtEnd(cfg, turns, i, Run(cfg, turns).procs[p].start)
    ensures Run(cfg, turns).procs[p].faked == cfg.records[|cfg.records| - 1]
  {
    hide Run, Add, Mul, TickValue, OutInv, CountInv, LogInv;
    RunInv(cfg, turns);
    var s := Run(cfg, turns);
    assert ProcInv(cfg, s, p);
    if s.procs[p].pc.AnchorWrite? {
      i := AnchorWasRead(cfg, turns, p);
    } else {
      assert forall q | 0 <= q < |s.procs| && q != p :: s.procs[q].pc.AnchorWrite? ==> !Exhausted(cfg, s.procs[p]);
      i := FirstAtEndFixesStart(cfg, turns);
    }
  }

  /** That start time stays for the rest of the run. */
  lemma {:induction false} AnchorPersists(cfg: Setup, turns: seq<Turn>, i: nat)
    requires ValidTurns(cfg, turns) && i <= |turns| && AnchorSet(cfg, Run(cfg, turns[..i]))
    ensures AnchorSet(cfg, Run(cfg, turns)) && Run(cfg, turns).shared.start == Run(cfg, turns[..i]).shared.start
  {
    if i == |turns| {
      assert turns[..i] == turns;
    } else {
      var before, last := turns[..|turns| - 1], turns[|turns| - 1];
      assert before[..i] == turns[..i];
      AnchorPersists(cfg, before, i);
      hide Next, Inv;
      RunInv(cfg, before);
      AnchorStays(cfg, Run(cfg, before), last.pid, last.now);
    }
  }

  lemma AnchorStays(cfg: Setup, s: Sys, p: Pid, now: Stamp)
    requires p < |s.procs| == |cfg.offsets| && Inv(cfg, s) && AnchorSet(cfg, s)
    ensures AnchorSet(cfg, Next(cfg, s, p, now)) && Next(cfg, s, p, now).shared.start == s.shared.start
  {
    hide Add, Mul, TickValue, OutInv, LogInv;
    assert Inside(s.procs[p].pc) <==> s.lock == Some(p);
    assert ProcInv(cfg, s, p);
  }

  // ----- progress -----

  /** How many steps of its own a process is at most away from returning a value. */
  function Work(proc: Proc): nat {
    match proc.pc
    case Off => 12
    case InitLocked => 11
    case InitWrite => 10
    case InitUnlock => 9
    case Idle => if proc.infileSet then 8 else 5
    case LoadLocked => 7
    case AnchorWrite => 6
    case LoadUnlock(ret) => if ret.None? then 5 else 1
    case WantTick => 4
    case TickLocked => 3
    case LoadWrite(_, _) => 2
    case TickWrite(_, _) => 2
    case TickUnlock(_) => 1
  }

  /** Every step of a process that need not wait for the lock brings it closer to returning a
      value, or returns one; whoever holds the lock need not wait. */
  lemma StepsMakeProgress(cfg: Setup, turns: seq<Turn>, p: Pid, now: Stamp)
    requires ValidTurns(cfg, turns) && p < |cfg.offsets|
    ensures var s := Run(cfg, turns);
            var was, next := s.procs[p], Next(cfg, s, p, now).procs[p];
            && (s.lock.None? || s.lock == Some(p) ==>
                  (Work(next) < Work(was) && next.out == was.out) || (Work(was) == 1 && |next.out| == |was.out| + 1))
            && (s.lock.Some? ==> s.lock.value < |cfg.offsets|)
  {
    hide Run, Add, Mul, TickValue, OutInv, CountInv, LogInv, AnchorInv;
    RunInv(cfg, turns);
    var s := Run(cfg, turns);
    assert ProcInv(cfg, s, p);
    assert Inside(s.procs[p].pc) <==> s.lock == Some(p);
  }

  /** Offsets, increment and records are normalised times. */
  ghost predicate ValidSetup(cfg: Setup) {
    && Normal(cfg.inc, NSEC)
    && (forall p | 0 <= p < |cfg.offsets| :: Normal(cfg.offsets[p], NSEC))
    && (forall i | 0 <= i < |cfg.records| :: Normal(cfg.records[i], NSEC))
  }

  lemma NormalBase(cfg: Setup, turns: seq<Turn>, p: Pid)
    requires ValidSetup(cfg) && ValidTurns(cfg, turns) && p < |cfg.offsets| && Run(cfg, turns).log != []
    ensures Normal(Base(cfg, Run(cfg, turns).shared.start, p), NSEC)
  {
    if cfg.records == [] {
      hide Run, Add, Mul, TickValue, OutInv, LogInv, ProcInv, AnchorInv, LockInv, Normal;
      RunInv(cfg, turns);
      var i := FirstFixesStart(cfg, turns);
      AddTotal(Run(cfg, turns).shared.start, cfg.offsets[p], NSEC);
    }
  }

  /** Two processes count ticks from the same base. */
  ghost predicate CountTogether(cfg: Setup, p: Pid, q: Pid) {
    cfg.records == [] && p < |cfg.offsets| && q < |cfg.offsets| ==> cfg.offsets[p] == cfg.offsets[q]
  }

  /** The k-th tick of process `p` does not saturate. */
  ghost predicate InRange(cfg: Setup, start: Stamp, p: Pid, k: nat) {
    p < |cfg.offsets| ==>
      && Fits(Total(cfg.inc, NSEC) * k, NSEC)
      && Fits(Total(Base(cfg, start, p), NSEC) + Total(cfg.inc, NSEC) * k, NSEC)
  }

  /** In every run, ticks counted from the same base are returned in the order in which they
      were taken, and are distinct, until they saturate. */
  lemma TicksOfARunIncrease(cfg: Setup, turns: seq<Turn>, i: nat, j: nat)
    requires ValidSetup(cfg) && ValidTurns(cfg, turns) && Total(cfg.inc, NSEC) > 0
    requires |cfg.records| <= i < j < |Run(cfg, turns).log|
    requires var s := Run(cfg, turns);
             && CountTogether(cfg, s.log[i].pid, s.log[j].pid)
             && InRange(cfg, s.shared.start, s.log[j].pid, j - |cfg.records| + FirstTick(cfg))
    ensures TimerCmp(Run(cfg, turns).log[i].value, Lt, Run(cfg, turns).log[j].value)
  {
    hide Run, Add, Mul, TickValue, TimerCmp, Normal, Total, OutInv, CountInv, ProcInv, AnchorInv, LockInv, Fits;
    RunInv(cfg, turns);
    var s := Run(cfg, turns);
    assert EventOk(cfg, s.shared.start, i, s.log[i]) && EventOk(cfg, s.shared.start, j, s.log[j]);
    var first := FirstTick(cfg);
    NormalBase(cfg, turns, s.log[j].pid);
    TicksIncrease(Base(cfg, s.shared.start, s.log[j].pid), cfg.inc,
                  i - |cfg.records| + first, j - |cfg.records| + first);
  }
}
