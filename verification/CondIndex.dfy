/** The index of condition variables that run on the monotonic clock
    (pthread_cond_init, pthread_cond_destroy, pthread_cond_timedwait). */
module CondIndex {
  import opened HashNodes
  import opened HashChains
  import FakeClock
  import opened TableRuns
  import Uthash

  datatype Attr = NoAttr | Attr(getclockResult: int, clock: FakeClock.ClockId)

  const ENOMEM := 12

  /** What the calls made by pthread_cond_init return. */
  datatype InitEnv = InitEnv(realMissing: bool, realResult: int, attr: Attr,
                             mallocOk: bool, wrlock: int, unlock: int)

  /** What the calls made by pthread_cond_destroy return. */
  datatype DestroyEnv = DestroyEnv(realResult: int, wrlock: int, unlock: int)

  /** An event in the life of condition variables. */
  datatype Event = Init(cond: int, initEnv: InitEnv) | Destroy(cond: int, destroyEnv: DestroyEnv)

  /** The value pthread_cond_init returns. */
  function InitResult(e: InitEnv): int {
    if e.realMissing then -1
    else if e.realResult != 0 || e.attr.NoAttr? then e.realResult
    else if e.attr.getclockResult != 0 then e.attr.getclockResult
    else if !e.attr.clock.Monotonic? then 0
    else if !e.mallocOk then ENOMEM
    else if e.wrlock != 0 then e.wrlock
    else e.unlock
  }

  /** It is 0 exactly when every step has succeeded, and otherwise what the first step to fail
      reported. */
  lemma InitResultExactly(e: InitEnv)
    ensures InitResult(e) == 0 <==>
              && !e.realMissing && e.realResult == 0
              && (e.attr.NoAttr? || (e.attr.getclockResult == 0 &&
                    (e.attr.clock.Monotonic? ==> e.mallocOk && e.wrlock == 0 && e.unlock == 0)))
    ensures e.realMissing ==> InitResult(e) == -1
    ensures !e.realMissing && e.realResult != 0 ==> InitResult(e) == e.realResult
    ensures !e.realMissing && e.realResult == 0 && e.attr.Attr? && e.attr.getclockResult != 0 ==>
              InitResult(e) == e.attr.getclockResult
    ensures !e.realMissing && e.realResult == 0 && e.attr == Attr(0, FakeClock.Monotonic) ==>
              InitResult(e) == if !e.mallocOk then 12 else if e.wrlock != 0 then e.wrlock else e.unlock
  {
  }

  /** The clock an attribute object chooses for the condition variable. */
  function ChosenClock(a: Attr): FakeClock.ClockId {
    if a.NoAttr? then FakeClock.Realtime else a.clock
  }

  // ----- the plain record, and the entries -----

  /** The live condition variables and their clocks: whatever the library's own lock does, a
      variable is gone once the real destroy has succeeded. */
  function Lives(live: map<int, FakeClock.ClockId>, e: Event): map<int, FakeClock.ClockId> {
    match e
    case Init(c, env) => if InitResult(env) == 0 then live[c := ChosenClock(env.attr)] else live
    case Destroy(c, env) => if env.realResult == 0 then live - {c} else live
  }

  /** The keys in the index, with multiplicity. */
  function Entries(index: multiset<int>, e: Event): multiset<int> {
    match e
    case Init(c, env) =>
      if InitResult(env) == 0 && ChosenClock(env.attr).Monotonic? then index + multiset{c} else index
    case Destroy(c, env) => if env.realResult == 0 && env.wrlock == 0 then index - multiset{c} else index
  }

  function LiveAfter(es: seq<Event>): map<int, FakeClock.ClockId> {
    if es == [] then map[] else Lives(LiveAfter(es[..|es| - 1]), es[|es| - 1])
  }

  function IndexAfter(es: seq<Event>): multiset<int> {
    if es == [] then multiset{} else Entries(IndexAfter(es[..|es| - 1]), es[|es| - 1])
  }

  predicate ChoseMonotonic(live: map<int, FakeClock.ClockId>, c: int) {
    c in live && live[c].Monotonic?
  }

  /** No event initialises a variable that is live at that point. */
  ghost predicate NoDoubleInit(es: seq<Event>) {
    forall k | 0 <= k < |es| :: es[k].Init? ==> es[k].cond !in LiveAfter(es[..k])
  }

  /** A destroy of a variable on the monotonic clock that does not get the write lock. */
  predicate LeavesEntry(live: map<int, FakeClock.ClockId>, e: Event) {
    e.Destroy? && e.destroyEnv.realResult == 0 && e.destroyEnv.wrlock != 0 && ChoseMonotonic(live, e.cond)
  }

  ghost predicate NoEntryLeft(es: seq<Event>) {
    forall k | 0 <= k < |es| :: !LeavesEntry(LiveAfter(es[..k]), es[k])
  }

  /** How many entries of destroyed variables the index holds for `c`: one more for every
      destroy that leaves its entry behind, one less when a destroy of a variable that has
      no entry of its own finds one. */
  function Leftover(es: seq<Event>, c: int): nat {
    if es == [] then 0
    else LeftoverStep(LiveAfter(es[..|es| - 1]), Leftover(es[..|es| - 1], c), es[|es| - 1], c)
  }

  function LeftoverStep(live: map<int, FakeClock.ClockId>, n: nat, e: Event, c: int): nat {
    if e.Init? || e.cond != c || e.destroyEnv.realResult != 0 then n
    else if ChoseMonotonic(live, c) then (if e.destroyEnv.wrlock != 0 then n + 1 else n)
    else if e.destroyEnv.wrlock == 0 && n > 0 then n - 1
    else n
  }

  /** One event: an entry appears or goes only with its variable, or is left over. */
  lemma StepAccountedFor(live: map<int, FakeClock.ClockId>, index: multiset<int>, n: nat, e: Event, c: int)
    requires e.Init? ==> e.cond !in live
    requires index[c] == (if ChoseMonotonic(live, c) then 1 else 0) + n
    ensures Entries(index, e)[c] == (if ChoseMonotonic(Lives(live, e), c) then 1 else 0) + LeftoverStep(live, n, e, c)
  {
  }

  lemma NoDoubleInitPrefix(es: seq<Event>, n: nat)
    requires NoDoubleInit(es) && n <= |es|
    ensures NoDoubleInit(es[..n])
  {
    forall k | 0 <= k < n
      ensures es[..n][k].Init? ==> es[..n][k].cond !in LiveAfter(es[..n][..k])
    {
      assert es[..n][..k] == es[..k];
    }
  }

  /** Every entry belongs to a live variable on the monotonic clock or was left over. */
  lemma {:induction false} EntriesAccountedFor(es: seq<Event>, c: int)
    requires NoDoubleInit(es)
    ensures IndexAfter(es)[c] == (if ChoseMonotonic(LiveAfter(es), c) then 1 else 0) + Leftover(es, c)
  {
    if es != [] {
      var n := |es| - 1;
      NoDoubleInitPrefix(es, n);
      EntriesAccountedFor(es[..n], c);
      hide Entries, Lives, LeftoverStep, ChoseMonotonic;
      StepAccountedFor(LiveAfter(es[..n]), IndexAfter(es[..n]), Leftover(es[..n], c), es[n], c);
    }
  }

  /** A wait on `c` would use the clock that its attribute chose. */
  ghost predicate Agrees(es: seq<Event>, c: int) {
    c in IndexAfter(es) <==> ChoseMonotonic(LiveAfter(es), c)
  }

  /** It does exactly when the variable chose the monotonic clock or has no entry left over. */
  lemma AgreesExactly(es: seq<Event>, c: int)
    requires NoDoubleInit(es)
    ensures Agrees(es, c) <==> ChoseMonotonic(LiveAfter(es), c) || Leftover(es, c) == 0
  {
    EntriesAccountedFor(es, c);
  }

  lemma {:induction false} NothingLeftOver(es: seq<Event>, c: int)
    requires NoEntryLeft(es)
    ensures Leftover(es, c) == 0
  {
    if es != [] {
      var n := |es| - 1;
      assert forall k | 0 <= k < n :: es[..n][..k] == es[..k];
      NothingLeftOver(es[..n], c);
    }
  }

  /** Throughout a run every wait would use the right clock if and only if no destroy of a
      variable on the monotonic clock was refused the write lock. */
  lemma AgreesThroughout(es: seq<Event>)
    requires NoDoubleInit(es)
    ensures (forall k, c | 0 <= k <= |es| :: Agrees(es[..k], c)) <==> NoEntryLeft(es)
  {
    if NoEntryLeft(es) {
      forall k, c | 0 <= k <= |es|
        ensures Agrees(es[..k], c)
      {
        NoDoubleInitPrefix(es, k);
        assert forall j | 0 <= j < k :: es[..k][..j] == es[..j];
        NothingLeftOver(es[..k], c);
        AgreesExactly(es[..k], c);
      }
    } else {
      var k :| 0 <= k < |es| && LeavesEntry(LiveAfter(es[..k]), es[k]);
      var c, upto := es[k].cond, es[..k + 1];
      assert upto[..k] == es[..k];
      NoDoubleInitPrefix(es, k + 1);
      AgreesExactly(upto, c);
      assert Leftover(upto, c) > 0 && !Agrees(upto, c);
    }
  }

  /** A new variable on another clock takes over an address for which an entry is left over. */
  ghost predicate TakesOver(es: seq<Event>, k: nat)
    requires k < |es|
  {
    && es[k].Init? && InitResult(es[k].initEnv) == 0 && !ChosenClock(es[k].initEnv.attr).Monotonic?
    && Leftover(es[..k], es[k].cond) > 0
  }

  /** A live variable on another clock with an entry left over took it over. */
  lemma {:induction false} TookOver(es: seq<Event>, c: int) returns (k: nat)
    requires NoDoubleInit(es) && c in LiveAfter(es) && !LiveAfter(es)[c].Monotonic? && Leftover(es, c) > 0
    ensures k < |es| && TakesOver(es, k)
  {
    var n := |es| - 1;
    var before, e := es[..n], es[n];
    if e.Init? && e.cond == c && InitResult(e.initEnv) == 0 {
      k := n;
    } else {
      NoDoubleInitPrefix(es, n);
      k := TookOver(before, c);
      assert before[..k] == es[..k];
    }
  }

  /** Throughout a run every wait on a live variable would use the right clock if and only if
      no new variable on another clock took over an address with an entry left over. */
  lemma AgreesWhileLive(es: seq<Event>)
    requires NoDoubleInit(es)
    ensures (forall k, c | 0 <= k <= |es| && c in LiveAfter(es[..k]) :: Agrees(es[..k], c))
       <==> (forall k | 0 <= k < |es| :: !TakesOver(es, k))
  {
    hide Agrees, Leftover, TakesOver;
    if k :| 0 <= k < |es| && TakesOver(es, k) {
      NoDoubleInitPrefix(es, k + 1);
      TakeoverMisleads(es, k);
    } else {
      forall k, c | 0 <= k <= |es| && c in LiveAfter(es[..k])
        ensures Agrees(es[..k], c)
      {
        var upto := es[..k];
        NoDoubleInitPrefix(es, k);
        AgreesExactly(upto, c);
        if !Agrees(upto, c) {
          var j := TookOver(upto, c);
          TakesOverExtends(es, k, j);
        }
      }
    }
  }

  lemma TakesOverExtends(es: seq<Event>, n: nat, k: nat)
    requires k < n <= |es| && TakesOver(es[..n], k)
    ensures TakesOver(es, k)
  {
    assert es[..n][..k] == es[..k];
  }

  lemma TakeoverMisleads(es: seq<Event>, k: nat)
    requires k < |es| && TakesOver(es, k) && NoDoubleInit(es[..k + 1])
    ensures es[k].cond in LiveAfter(es[..k + 1]) && !Agrees(es[..k + 1], es[k].cond)
  {
    var upto := es[..k + 1];
    assert upto[..k] == es[..k];
    AgreesExactly(upto, es[k].cond);
  }

  /** What happens then: a variable on the monotonic clock is destroyed while the write lock
      fails, a new one on the default clock takes its address, and a wait on it uses the
      monotonic clock. */
  lemma LeftoverMisleads(c: int, code: int)
    requires code != 0
    ensures var ok := InitEnv(false, 0, Attr(0, FakeClock.Monotonic), true, 0, 0);
            var es := [Init(c, ok), Destroy(c, DestroyEnv(0, code, 0)), Init(c, ok.(attr := NoAttr))];
            && NoDoubleInit(es) && LiveAfter(es) == map[c := FakeClock.Realtime] && c in IndexAfter(es)
  {
    var ok := InitEnv(false, 0, Attr(0, FakeClock.Monotonic), true, 0, 0);
    var es := [Init(c, ok), Destroy(c, DestroyEnv(0, code, 0)), Init(c, ok.(attr := NoAttr))];
    assert es[..1] == [es[0]] && es[..2] == [es[0], es[1]];
    assert es[..1][..0] == [] && es[..2][..1] == es[..1] && es[..3] == es && es[..0] == [];
    assert LiveAfter(es[..0]) == map[];
    assert LiveAfter(es[..1]) == map[c := FakeClock.Monotonic];
    assert LiveAfter(es[..2]) == map[];
    assert IndexAfter(es[..1]) == multiset{c} && IndexAfter(es[..2]) == multiset{c};
  }

  // ----- the index itself -----

  ghost function Bag(s: seq<Node>): multiset<int> {
    multiset(Keys(s))
  }

  lemma BagAppend(s: seq<Node>, n: Node)
    ensures Bag(s + [n]) == Bag(s) + multiset{n.key}
  {
    assert Keys(s + [n]) == Keys(s) + [n.key];
  }

  lemma BagWithout(s: seq<Node>, k: nat)
    requires k < |s|
    ensures Bag(Without(s, k)) == Bag(s) - multiset{s[k].key}
  {
    var ks := Keys(s);
    assert Keys(Without(s, k)) == ks[..k] + ks[k + 1..];
    assert ks == ks[..k] + [ks[k]] + ks[k + 1..];
  }

  lemma InBag(s: seq<Node>, c: int)
    ensures c in Bag(s) <==> exists n | n in s :: n.key == c
  {
    if c in Keys(s) {
      var i :| 0 <= i < |s| && Keys(s)[i] == c;
      assert s[i] in s;
    }
    if n :| n in s && n.key == c {
      KeysIn(s, n);
    }
  }

  /** How pthread_cond_timedwait goes on. */
  datatype Wait = NoDeadline | LockFailed(code: int) | Measured(clock: FakeClock.ClockId)

  class Registry {
    const conds: Uthash.Table

    ghost predicate Valid()
      reads this, conds, conds.order, Members(conds.chains)
    {
      conds.Valid()
    }

    ghost function Index(): multiset<int>
      reads conds
    {
      Bag(conds.order)
    }

    constructor (hash: int -> nat)
      ensures Valid() && Index() == multiset{} && fresh(conds) && conds.order == []
    {
      conds := new Uthash.Table(hash);
    }

    /** HASH_ADD_PTR of a new entry. */
    method Register(cond: int) returns (e: Node)
      requires Valid()
      modifies conds, conds.order
      ensures Valid() && fresh(e) && conds.order == old(conds.order) + [e] && e.key == cond
      ensures Index() == old(Index()) + multiset{cond}
    {
      e := new Node(cond);
      BagAppend(conds.order, e);
      conds.Add(e);
    }

    /** HASH_DEL of an entry. */
    method Unregister(e: Node)
      requires Valid() && e in conds.order
      modifies conds, conds.order
      ensures Valid() && forall n | n in conds.order :: n in old(conds.order)
      ensures Index() == old(Index()) - multiset{e.key}
    {
      ghost var k := conds.Delete(e);
      BagWithout(old(conds.order), k);
    }

    /** pthread_cond_init. */
    method CondInit(cond: int, env: InitEnv) returns (result: int)
      requires Valid()
      modifies conds, conds.order
      ensures Valid() && Index() == Entries(old(Index()), Init(cond, env)) && result == InitResult(env)
      ensures forall n | n in conds.order :: n in old(conds.order) || fresh(n)
    {
      hide Bag, Valid;
      if env.realMissing {
        return -1;
      }
      result := env.realResult;
      if result != 0 || env.attr.NoAttr? {
        return;
      }
      result := env.attr.getclockResult;
      if result != 0 {
        return;
      }
      if env.attr.clock.Monotonic? {
        if !env.mallocOk {
          return ENOMEM;
        }
        result := env.wrlock;
        if result != 0 {
          return;
        }
        result := RegisterUnlessFails(cond, env.unlock);
      }
    }

    /** The part under the write lock: an entry that stays unless the unlocking fails. */
    method RegisterUnlessFails(cond: int, unlock: int) returns (result: int)
      requires Valid()
      modifies conds, conds.order
      ensures Valid() && Index() == (if unlock == 0 then old(Index()) + multiset{cond} else old(Index()))
      ensures result == unlock
      ensures forall n | n in conds.order :: n in old(conds.order) || fresh(n)
    {
      hide Bag, Valid;
      var e := Register(cond);
      result := unlock;
      if result != 0 {
        Unregister(e);
      }
    }

    /** pthread_cond_destroy. */
    method CondDestroy(cond: int, env: DestroyEnv) returns (result: int)
      requires Valid()
      modifies conds, conds.order
      ensures Valid() && Index() == Entries(old(Index()), Destroy(cond, env))
      ensures result == if env.realResult != 0 then env.realResult
                        else if env.wrlock != 0 then env.wrlock else env.unlock
      ensures forall n | n in conds.order :: n in old(conds.order)
    {
      hide Bag;
      result := env.realResult;
      if result != 0 {
        return;
      }
      result := env.wrlock;
      if result != 0 {
        return;
      }
      InBag(conds.order, cond);
      var e := conds.Find(cond);
      if e != null {
        Unregister(e);
      }
      result := env.unlock;
    }

    /** The start of pthread_cond_timedwait: the clock the deadline is measured on. */
    method WaitClock(cond: int, deadline: bool, rdlock: int, unlock: int) returns (w: Wait)
      requires Valid()
      ensures w.NoDeadline? <==> !deadline
      ensures w.LockFailed? <==> deadline && (rdlock != 0 || unlock != 0)
      ensures w.LockFailed? ==> w.code == if rdlock != 0 then rdlock else unlock
      ensures w.Measured? ==> w.clock == if cond in Index() then FakeClock.Monotonic else FakeClock.Realtime
    {
      hide Bag;
      if !deadline {
        return NoDeadline;
      }
      if rdlock != 0 {
        return LockFailed(rdlock);
      }
      InBag(conds.order, cond);
      var e := conds.Find(cond);
      if unlock != 0 {
        return LockFailed(unlock);
      }
      w := Measured(if e != null then FakeClock.Monotonic else FakeClock.Realtime);
    }
  }

  /** A whole run of inits and destroys over a hash table, then a wait.  The clock is the
      monotonic one exactly when the index has an entry; without double init that is the
      clock the attribute chose if and only if none is left over or the choice was the
      monotonic one, so it always is when no destroy was refused the write lock. */
  method Replay(hash: int -> nat, es: seq<Event>, cond: int) returns (clock: FakeClock.ClockId)
    ensures clock.Monotonic? <==> cond in IndexAfter(es)
    ensures NoDoubleInit(es) ==>
              var chose := ChoseMonotonic(LiveAfter(es), cond);
              (clock.Monotonic? <==> chose) <==> chose || Leftover(es, cond) == 0
    ensures NoDoubleInit(es) && NoEntryLeft(es) ==>
              (clock.Monotonic? <==> ChoseMonotonic(LiveAfter(es), cond))
  {
    hide Registry.Valid, Registry.Index, Entries;
    var r := new Registry(hash);
    var i := 0;
    while i < |es|
      invariant 0 <= i <= |es| && r.Valid() && fresh(r) && fresh(r.conds)
      invariant fresh(set n | n in r.conds.order)
      invariant r.Index() == IndexAfter(es[..i])
    {
      var result;
      assert es[..i + 1][..i] == es[..i];
      match es[i] {
        case Init(c, env) => result := r.CondInit(c, env);
        case Destroy(c, env) => result := r.CondDestroy(c, env);
      }
      i := i + 1;
    }
    assert es[..i] == es;
    var w := r.WaitClock(cond, true, 0, 0);
    clock := w.clock;
    if NoDoubleInit(es) {
      AgreesExactly(es, cond);
      if NoEntryLeft(es) {
        NothingLeftOver(es, cond);
      }
    }
  }
}
