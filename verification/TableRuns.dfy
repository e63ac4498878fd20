/** Whole runs of a table: any sequence of additions and removals, bucket doublings, head
    deletions and emptyings included, compared with a plain list of keys. */
module TableRuns {
  import opened ChainBound
  import opened HashNodes
  import opened HashChains
  import Uthash

  /** Callers look a key up first and add only when it is absent. */
  datatype Op = Put(key: int) | Remove(key: int)

  function Dropped(keys: seq<int>, k: int): seq<int> {
    if keys == [] then []
    else if keys[0] == k then Dropped(keys[1..], k)
    else [keys[0]] + Dropped(keys[1..], k)
  }

  function After(keys: seq<int>, op: Op): seq<int> {
    match op
    case Put(k) => if k in keys then keys else keys + [k]
    case Remove(k) => Dropped(keys, k)
  }

  function AfterAll(keys: seq<int>, ops: seq<Op>): seq<int>
    decreases |ops|
  {
    if ops == [] then keys else AfterAll(After(keys, ops[0]), ops[1..])
  }

  ghost function Keys(s: seq<Node>): seq<int> {
    seq(|s|, i requires 0 <= i < |s| => s[i].key)
  }

  predicate Unique(keys: seq<int>) {
    forall i, j | 0 <= i < j < |keys| :: keys[i] != keys[j]
  }

  /** Keys stay unique. */
  lemma UniqueAfter(keys: seq<int>, op: Op)
    requires Unique(keys)
    ensures Unique(After(keys, op))
  {
    match op {
      case Put(k) =>
      case Remove(k) =>
        if i :| 0 <= i < |keys| && keys[i] == k {
          DroppedOnce(keys, i);
        } else {
          DroppedAbsent(keys, k);
        }
    }
  }

  lemma {:induction false} DroppedAbsent(keys: seq<int>, k: int)
    requires k !in keys
    ensures Dropped(keys, k) == keys
  {
    if keys != [] {
      assert k !in keys[1..];
      DroppedAbsent(keys[1..], k);
    }
  }

  lemma {:induction false} DroppedOnce(keys: seq<int>, i: nat)
    requires i < |keys| && Unique(keys)
    ensures Dropped(keys, keys[i]) == keys[..i] + keys[i + 1..]
  {
    if i == 0 {
      assert keys[0] !in keys[1..];
      DroppedAbsent(keys[1..], keys[0]);
    } else {
      DroppedOnce(keys[1..], i - 1);
      assert keys[1..][..i - 1] == keys[1..i] && keys[1..][i..] == keys[i + 1..];
    }
  }

  /** What a run leaves behind, as an observer sees it. */
  datatype Outcome = Outcome(listed: seq<int>, found: bool, items: nat, inhibited: bool, loads: seq<Load>)

  lemma KeysIn(s: seq<Node>, n: Node)
    requires n in s
    ensures n.key in Keys(s)
  {
    var i :| 0 <= i < |s| && s[i] == n;
    assert Keys(s)[i] == n.key;
  }

  lemma KeysAbsent(s: seq<Node>, k: int)
    requires forall n | n in s :: n.key != k
    ensures k !in Keys(s)
  {
  }

  lemma KeysWithout(s: seq<Node>, i: nat)
    requires i < |s| && Unique(Keys(s))
    ensures Keys(Without(s, i)) == Dropped(Keys(s), s[i].key)
  {
    DroppedOnce(Keys(s), i);
    assert Keys(Without(s, i)) == Keys(s)[..i] + Keys(s)[i + 1..];
  }

  method Step(t: Uthash.Table, op: Op)
    requires t.Valid() && Unique(Keys(t.order))
    modifies t, t.order
    ensures t.Valid() && Keys(t.order) == After(Keys(old(t.order)), op)
    ensures forall n | n in t.order :: n in old(t.order) || fresh(n)
  {
    hide Uthash.Table.Valid, Keys, Dropped, Without;
    match op {
      case Put(k) => PutKey(t, k);
      case Remove(k) => RemoveKey(t, k);
    }
  }

  method NewNode(t: Uthash.Table, k: int) returns (n: Node)
    requires t.Valid()
    ensures t.Valid() && fresh(n) && n.key == k
  {
    n := new Node(k);
  }

  method PutKey(t: Uthash.Table, k: int)
    requires t.Valid()
    modifies t, t.order
    ensures t.Valid() && Keys(t.order) == After(Keys(old(t.order)), Put(k))
    ensures forall n | n in t.order :: n in old(t.order) || fresh(n)
  {
    hide Uthash.Table.Valid, Uthash.Table.WouldDouble, Uthash.Table.Doubled, ToBkt;
    var e := t.Find(k);
    if e == null {
      KeysAbsent(t.order, k);
      var n := NewNode(t, k);
      t.Add(n);
      assert Keys(t.order) == Keys(old(t.order)) + [k];
    } else {
      KeysIn(t.order, e);
    }
  }

  method RemoveKey(t: Uthash.Table, k: int)
    requires t.Valid() && Unique(Keys(t.order))
    modifies t, t.order
    ensures t.Valid() && Keys(t.order) == After(Keys(old(t.order)), Remove(k))
    ensures forall n | n in t.order :: n in old(t.order)
  {
    hide Uthash.Table.Valid, Keys, Dropped, Unique;
    var e := t.Find(k);
    if e == null {
      KeysAbsent(t.order, k);
      DroppedAbsent(Keys(t.order), k);
    } else {
      ghost var i := t.Delete(e);
      KeysWithout(old(t.order), i);
    }
  }

  /** Walk the application-order list from the head. */
  method List(t: Uthash.Table) returns (keys: seq<int>)
    requires t.Valid()
    ensures keys == Keys(t.order)
  {
    keys := [];
    var n := t.head;
    while n != null
      invariant |keys| <= |t.order| && n == At(t.order, |keys|)
      invariant keys == Keys(t.order)[..|keys|]
      decreases |t.order| - |keys|
    {
      keys := keys + [n.key];
      n := n.next;
    }
  }

  /** After any run the list holds the keys in order of arrival, a lookup finds exactly
      those, and while expansion is not inhibited every chain is within its limit. */
  method Churn(hash: int -> nat, ops: seq<Op>, key: int) returns (o: Outcome)
    ensures var keys := AfterAll([], ops);
            && o.listed == keys
            && (o.found <==> key in keys)
            && o.items == |keys|
            && SumOf(Count, o.loads) == |keys|
            && (!o.inhibited ==>
                  && |keys| <= 19 * |o.loads|
                  && forall i | 0 <= i < |o.loads| :: o.loads[i].count <= 10 * (o.loads[i].expandMult + 1))
  {
    var t := new Uthash.Table(hash);
    var i := 0;
    assert ops[0..] == ops;
    while i < |ops|
      invariant 0 <= i <= |ops| && t.Valid() && fresh(t) && fresh(set n | n in t.order)
      invariant Unique(Keys(t.order)) && AfterAll(Keys(t.order), ops[i..]) == AfterAll([], ops)
    {
      UniqueAfter(Keys(t.order), ops[i]);
      assert ops[i..][1..] == ops[i + 1..] && ops[i..][0] == ops[i];
      Step(t, ops[i]);
      i := i + 1;
    }
    o := Observe(t, key);
  }

  method Observe(t: Uthash.Table, key: int) returns (o: Outcome)
    requires t.Valid()
    ensures var keys := Keys(t.order);
            && o.listed == keys
            && (o.found <==> key in keys)
            && o.items == |keys|
            && SumOf(Count, o.loads) == |keys|
            && (!o.inhibited ==>
                  && |keys| <= 19 * |o.loads|
                  && forall i | 0 <= i < |o.loads| :: o.loads[i].count <= 10 * (o.loads[i].expandMult + 1))
  {
    var listed := List(t);
    var e := t.Find(key);
    if e != null {
      ghost var i :| 0 <= i < |t.order| && t.order[i] == e;
      assert listed[i] == key;
    }
    if t.head == null {
      o := Outcome(listed, e != null, 0, false, []);
    } else {
      o := Outcome(listed, e != null, t.numItems, t.noexpand, Loads(t.buckets));
      if !t.noexpand {
        ItemsWithinBudget(o.loads);
      }
    }
  }
}
