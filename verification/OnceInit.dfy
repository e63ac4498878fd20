/** ft_init_once_generic: an initialiser that must run once, guarded by an error-checking
    mutex and a four-state flag, called from many threads and re-entrantly from the
    initialiser itself.

    Each thread is a stack of calls; a call made by the initialiser sits on top of the call
    that runs it.  Locking is assumed to fail only with EDEADLK, and pthread_once to succeed. */
module OnceInit {
  import opened Options

  type Tid = nat

  datatype InitState = Uninitialized | Initializing | Ready | Failed

  /** Where one call stands. */
  datatype Pc =
    | Check          // after pthread_once: look whether an earlier call failed
    | Lock           // pthread_mutex_lock
    | Deadlk         // it returned EDEADLK: look at the flag
    | Locked         // it returned 0: look at the flag
    | Running        // initializer_cb() is running
    | Finish         // initializer_cb() has returned
    | Unlock
    | Report         // read the flag once more

  /** A returned call: who made it, what it returned, and what the flag was then. */
  datatype Return = Return(tid: Tid, result: bool, flag: InitState, initialiser: Option<Tid>)

  datatype Sys = Sys(
    flag: InitState, owner: Option<Tid>, stacks: seq<seq<Pc>>,
    starts: nat, initialiser: Option<Tid>, returns_: seq<Return>)

  function Initial(n: nat): Sys {
    Sys(Uninitialized, None, seq(n, _ => []), 0, None, [])
  }

  /** What a thread can do: make a call, let the running initialiser return, or take the
      next step of its topmost call. */
  datatype Action = Call(tid: Tid) | Complete(tid: Tid) | Step(tid: Tid)

  function Top(s: Sys, t: Tid): Option<Pc>
    requires t < |s.stacks|
  {
    if s.stacks[t] == [] then None else Some(s.stacks[t][|s.stacks[t]| - 1])
  }

  function Goto(s: Sys, t: Tid, pc: Pc): Sys
    requires t < |s.stacks| && s.stacks[t] != []
  {
    s.(stacks := s.stacks[t := s.stacks[t][|s.stacks[t]| - 1 := pc]])
  }

  function Ret(s: Sys, t: Tid, result: bool): Sys
    requires t < |s.stacks| && s.stacks[t] != []
  {
    s.(stacks := s.stacks[t := s.stacks[t][..|s.stacks[t]| - 1]],
       returns_ := s.returns_ + [Return(t, result, s.flag, s.initialiser)])
  }

  /** Application code calls in with an empty stack, the initialiser from inside itself. */
  predicate MayCall(s: Sys, t: Tid)
    requires t < |s.stacks|
  {
    Top(s, t).None? || Top(s, t) == Some(Running)
  }

  function Stepped(s: Sys, t: Tid): Sys
    requires t < |s.stacks| && s.stacks[t] != []
  {
    match s.stacks[t][|s.stacks[t]| - 1]
    case Check => if s.flag.Failed? then Ret(s, t, false) else Goto(s, t, Lock)
    case Lock =>
      if s.owner == Some(t) then Goto(s, t, Deadlk)
      else if s.owner.None? then Goto(s.(owner := Some(t)), t, Locked)
      else s
    case Deadlk =>
      if s.flag.Initializing? then Ret(s, t, true)
      else Ret(s.(flag := Failed), t, false)
    case Locked =>
      if s.flag.Uninitialized?
      then Goto(s.(flag := Initializing, starts := s.starts + 1, initialiser := Some(t)), t, Running)
      else Goto(s, t, Unlock)
    case Running => s
    case Finish => Goto(s.(flag := Ready), t, Unlock)
    case Unlock => Goto(s.(owner := None), t, Report)
    case Report => Ret(s, t, s.flag.Ready?)
  }

  function Next(s: Sys, a: Action): Sys
    requires a.tid < |s.stacks|
  {
    match a
    case Call(t) => if MayCall(s, t) then s.(stacks := s.stacks[t := s.stacks[t] + [Check]]) else s
    case Complete(t) => if Top(s, t) == Some(Running) then Goto(s, t, Finish) else s
    case Step(t) => if s.stacks[t] == [] then s else Stepped(s, t)
  }

  function Run(n: nat, actions: seq<Action>): (s: Sys)
    requires forall i | 0 <= i < |actions| :: actions[i].tid < n
    ensures |s.stacks| == n
    decreases |actions|
  {
    if actions == [] then Initial(n)
    else Next(Run(n, actions[..|actions| - 1]), actions[|actions| - 1])
  }

  // ----- the invariant -----

  /** The part of a call that holds the mutex. */
  predicate Holds(pc: Pc) {
    pc.Locked? || pc.Running? || pc.Finish? || pc.Unlock?
  }

  /** Only the bottom call of a stack can hold the mutex, and calls above it exist only
      while it runs the initialiser. */
  predicate StackInv(flag: InitState, owner: Option<Tid>, t: Tid, st: seq<Pc>) {
    && |st| <= 2
    && (|st| == 2 ==> st[0].Running? && (st[1].Check? || st[1].Lock? || st[1].Deadlk?))
    && (|st| == 1 ==> !st[0].Deadlk?)
    && (st != [] && Holds(st[0]) <==> owner == Some(t))
    && (st != [] && (st[0].Running? || st[0].Finish?) ==> flag.Initializing?)
    && (st != [] && st[0].Locked? ==> !flag.Initializing?)
    && (st != [] && st[0].Unlock? ==> flag.Ready?)
    && (st != [] && st[0].Report? ==> flag.Ready?)
  }

  /** A call returned true, with the flag READY unless the initialiser's own thread made it. */
  predicate ReturnOk(r: Return) {
    && r.result
    && (r.flag.Ready? || (r.flag.Initializing? && r.initialiser == Some(r.tid)))
  }

  ghost predicate Inv(s: Sys) {
    && !s.flag.Failed?
    && s.starts == (if s.flag.Uninitialized? then 0 else 1)
    && (s.owner.Some? ==> s.owner.value < |s.stacks|)
    && (s.initialiser.None? <==> s.flag.Uninitialized?)
    && (s.flag.Initializing? ==> s.owner == s.initialiser)
    && (forall t | 0 <= t < |s.stacks| :: StackInv(s.flag, s.owner, t, s.stacks[t]))
    && (forall i | 0 <= i < |s.returns_| :: ReturnOk(s.returns_[i]))
  }

  lemma InitialInv(n: nat)
    ensures Inv(Initial(n))
  {
  }

  lemma NextInv(s: Sys, a: Action)
    requires Inv(s) && a.tid < |s.stacks|
    ensures Inv(Next(s, a))
  {
    var t, s' := a.tid, Next(s, a);
    MoverInv(s, a);
    forall u | 0 <= u < |s'.stacks|
      ensures StackInv(s'.flag, s'.owner, u, s'.stacks[u])
    {
      assert StackInv(s.flag, s.owner, u, s.stacks[u]);
      assert StackInv(s.flag, s.owner, t, s.stacks[t]);
    }
  }

  /** The thread that moves. */
  lemma MoverInv(s: Sys, a: Action)
    requires Inv(s) && a.tid < |s.stacks|
    ensures var s' := Next(s, a); StackInv(s'.flag, s'.owner, a.tid, s'.stacks[a.tid])
  {
    var t, st := a.tid, s.stacks[a.tid];
    assert StackInv(s.flag, s.owner, t, st);
    if |st| == 2 {
      assert s.owner == Some(t);
      assert st[..1] == [st[0]];
    } else if |st| == 1 {
      assert st[..0] == [];
    }
  }

  lemma {:induction false} RunInv(n: nat, actions: seq<Action>)
    requires forall i | 0 <= i < |actions| :: actions[i].tid < n
    ensures Inv(Run(n, actions))
  {
    if actions == [] {
      InitialInv(n);
    } else {
      RunInv(n, actions[..|actions| - 1]);
      NextInv(Run(n, actions[..|actions| - 1]), actions[|actions| - 1]);
    }
  }

  // ----- what it means -----

  /** Over every interleaving of threads and re-entrant calls the initialiser starts at
      most once, and no call fails or ever returns false. */
  lemma StartsAtMostOnce(n: nat, actions: seq<Action>)
    requires forall i | 0 <= i < |actions| :: actions[i].tid < n
    ensures Run(n, actions).starts <= 1 && !Run(n, actions).flag.Failed?
    ensures forall i | 0 <= i < |Run(n, actions).returns_| :: Run(n, actions).returns_[i].result
  {
    RunInv(n, actions);
  }

  /** A thread other than the one initialising gets true only once the flag is READY. */
  lemma OthersSeeReady(n: nat, actions: seq<Action>, i: nat)
    requires forall k | 0 <= k < |actions| :: actions[k].tid < n
    requires i < |Run(n, actions).returns_|
    ensures var r := Run(n, actions).returns_[i];
            r.result && r.initialiser != Some(r.tid) ==> r.flag.Ready?
  {
    RunInv(n, actions);
    assert ReturnOk(Run(n, actions).returns_[i]);
  }

  /** The thread is at the lock call and cannot take its next step. */
  predicate Blocked(s: Sys, t: Tid)
    requires t < |s.stacks|
  {
    Top(s, t) == Some(Lock) && Next(s, Step(t)) == s
  }

  /** A thread is blocked exactly when it is at the lock call and another thread holds the
      mutex. */
  lemma BlockedByAnother(s: Sys, t: Tid)
    requires t < |s.stacks|
    ensures Blocked(s, t) <==> Top(s, t) == Some(Lock) && s.owner.Some? && s.owner != Some(t)
  {
    if Top(s, t) == Some(Lock) && (s.owner.None? || s.owner == Some(t)) {
      var st, s' := s.stacks[t], Next(s, Step(t));
      assert s'.stacks[t][|st| - 1] != st[|st| - 1];
    }
  }

  /** No thread ever waits for itself, and whoever it waits for is not waiting: the holder of
      the mutex can always move on. */
  lemma NoSelfDeadlock(n: nat, actions: seq<Action>, t: Tid)
    requires (forall i | 0 <= i < |actions| :: actions[i].tid < n) && t < n
    ensures var s := Run(n, actions);
            Blocked(s, t) ==>
              && s.owner.Some? && s.owner.value < n && s.owner.value != t && s.stacks[s.owner.value] != []
              && !Blocked(s, s.owner.value)
              && (Next(s, Step(s.owner.value)) != s || Next(s, Complete(s.owner.value)) != s)
  {
    RunInv(n, actions);
    var s := Run(n, actions);
    if Blocked(s, t) {
      hide Run, Next;
      BlockedByAnother(s, t);
      HolderMoves(s, s.owner.value);
    }
  }

  lemma HolderMoves(s: Sys, h: Tid)
    requires Inv(s) && h < |s.stacks| && s.owner == Some(h)
    ensures s.stacks[h] != [] && !Blocked(s, h)
    ensures Next(s, Step(h)) != s || Next(s, Complete(h)) != s
  {
    var st := s.stacks[h];
    assert StackInv(s.flag, s.owner, h, st);
    BlockedByAnother(s, h);
    var s1, s2 := Next(s, Step(h)), Next(s, Complete(h));
    if st[|st| - 1].Running? {
      assert s2.stacks[h][|st| - 1] == Finish;
    } else {
      assert s1.stacks[h] != st by {
        assert |s1.stacks[h]| < |st| || s1.stacks[h][|st| - 1] != st[|st| - 1];
      }
    }
  }

  /** How many steps a call is at most away from its return, the initialiser's own aside. */
  function Work(pc: Pc): nat {
    match pc
    case Check => 7
    case Lock => 6
    case Locked => 5
    case Running => 4
    case Finish => 3
    case Unlock => 2
    case Deadlk => 1
    case Report => 1
  }

  /** The step of a thread that is neither blocked nor running the initialiser brings its
      topmost call closer to its return, or returns; so does the end of the initialiser. */
  lemma StepsMakeProgress(n: nat, actions: seq<Action>, t: Tid)
    requires (forall i | 0 <= i < |actions| :: actions[i].tid < n) && t < n
    ensures var s := Run(n, actions);
            var st := s.stacks[t];
            st != [] && !Blocked(s, t) ==>
              var top := st[|st| - 1];
              var next := Next(s, if top.Running? then Complete(t) else Step(t));
              || (Work(top) == 1 && next.stacks[t] == st[..|st| - 1] && |next.returns_| == |s.returns_| + 1)
              || (exists pc :: Work(pc) < Work(top) && next.stacks[t] == st[|st| - 1 := pc])
  {
    RunInv(n, actions);
    var s := Run(n, actions);
    var st := s.stacks[t];
    assert StackInv(s.flag, s.owner, t, st);
    if st != [] && !Blocked(s, t) {
      hide Run;
      BlockedByAnother(s, t);
      var top := st[|st| - 1];
      var next := Next(s, if top.Running? then Complete(t) else Step(t));
      if Work(top) > 1 {
        var pc := next.stacks[t][|st| - 1];
        assert Work(pc) < Work(top) && next.stacks[t] == st[|st| - 1 := pc];
      }
    }
  }

  /** Once READY, the flag never goes back. */
  lemma {:induction false} ReadyForever(n: nat, actions: seq<Action>, i: nat)
    requires (forall k | 0 <= k < |actions| :: actions[k].tid < n) && i <= |actions|
    ensures Run(n, actions[..i]).flag.Ready? ==> Run(n, actions).flag.Ready?
  {
    if i == |actions| {
      assert actions[..i] == actions;
    } else {
      var before, last := actions[..|actions| - 1], actions[|actions| - 1];
      assert before[..i] == actions[..i];
      ReadyForever(n, before, i);
      RunInv(n, before);
      var s := Run(n, before);
      assert StackInv(s.flag, s.owner, last.tid, s.stacks[last.tid]);
    }
  }
}
