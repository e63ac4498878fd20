/** The intrusive hash table of src/uthash.h.

    The same nodes are threaded through two linked structures: the application-order
    list (next, prev) and one chain per bucket (hhNext, hhPrev).  The ghost sequences
    `order` and `chains` are what the two structures hold. */
module Uthash {
  import opened Bits
  import opened ChainBound
  import opened HashNodes
  import opened HashChains
  import ListSort
  import MergeSort

  /** A table: the caller's head pointer and the UT_hash_table behind it.  With a null
      head there is no table and the remaining fields carry no meaning. */
  class Table {
    const hash: int -> nat

    var head: Node?
    var tail: Node?
    var buckets: seq<Bucket>
    var numBuckets: nat
    var log2NumBuckets: nat
    var numItems: nat
    var idealChainMaxlen: nat
    var nonidealItems: nat
    var ineffExpands: nat
    var noexpand: bool

    ghost var order: seq<Node>
    ghost var chains: seq<seq<Node>>

    /** The application-order list: head, tail, forward and backward links. */
    ghost predicate AppList()
      reads `head, `tail, `order, order`next, order`prev
    {
      && Distinct(order)
      && head == At(order, 0)
      && (order != [] ==> tail == order[|order| - 1])
      && NextLinks(order)
      && PrevLinks(order)
    }

    /** The bucket table: heads, counts and links of every chain. */
    ghost predicate BucketTable()
      reads `buckets, `numBuckets, `log2NumBuckets, `chains, Members(chains)`hhNext, Members(chains)`hhPrev
    {
      && numBuckets == |buckets| == Pow2(log2NumBuckets)
      && Shape(buckets, chains)
      && ChainLinks(chains)
    }

    ghost function Slot(): Node -> nat
      reads `log2NumBuckets
    {
      SlotOf(hash, log2NumBuckets)
    }

    ghost predicate Hashed()
      reads `order, order`hashv
    {
      HashedNodes(hash, order)
    }

    /** The two structures hold the same nodes. */
    ghost predicate Agree()
      reads `log2NumBuckets, `order, `chains, order`hashv
    {
      Hashed() && ChainsHold(Slot(), order, chains)
    }

    /** The counters of a table whose chains hold `n` items; the chain bound holds while
        expansion is not inhibited. */
    ghost predicate Counting(n: nat)
      reads `numItems, `buckets, `noexpand
    {
      numItems == n && CountingLoads(Loads(buckets), n, noexpand)
    }

    ghost predicate Valid()
      reads this, order, Members(chains)
    {
      if head == null then order == [] && chains == []
      else order != [] && AppList() && BucketTable() && Agree() && Counting(|order|)
    }

    constructor (hash: int -> nat)
      ensures Valid() && order == [] && this.hash == hash
    {
      this.hash := hash;
      head, tail := null, null;
      buckets, numBuckets, log2NumBuckets, numItems := [], 0, 0, 0;
      idealChainMaxlen, nonidealItems, ineffExpands, noexpand := 0, 0, 0, false;
      order, chains := [], [];
    }

    /** HASH_FIND: an element with the given key, if there is one. */
    method Find(key: int) returns (out: Node?)
      requires Valid()
      ensures Valid()
      ensures out != null ==> out in order && out.key == key
      ensures out == null ==> forall n | n in order :: n.key != key
    {
      out := null;
      if head != null {
        var hashv := hash(key);
        var bkt := ToBkt(hashv, log2NumBuckets);
        out := FindInBkt(bkt, key, hashv);
        if out == null {
          forall n | n in order
            ensures n.key != key
          {
            assert n in chains[Slot()(n)];
          }
        }
      }
    }

    /** HASH_FIND_IN_BKT: walk one chain. */
    method FindInBkt(bkt: nat, key: int, hashv: nat) returns (out: Node?)
      requires head != null && BucketTable() && Agree() && bkt < |chains| && hashv == hash(key)
      ensures out != null ==> out in chains[bkt] && out in order && out.key == key
      ensures out == null ==> forall n | n in chains[bkt] :: n.key != key
    {
      ghost var chain := chains[bkt];
      ghost var j := 0;
      out := buckets[bkt].hhHead;
      assert HhNextLinks(chain);
      while out != null && !(out.hashv == hashv && out.key == key)
        invariant 0 <= j <= |chain| && out == At(chain, j)
        invariant forall i | 0 <= i < j :: chain[i].key != key
        decreases |chain| - j
      {
        assert chains[bkt][j] in order;
        out := out.hhNext;
        j := j + 1;
      }
    }

    /** HASH_MAKE_TABLE: a table of empty buckets around a first element. */
    method MakeTable(n: Node)
      modifies this, n`next, n`prev
      ensures order == [n] && AppList() && BucketTable() && Counting(0) && head != null
      ensures ChainsHold(Slot(), [], chains)
      ensures Brandnew() && forall b | 0 <= b < |buckets| :: buckets[b].load.count == 0
    {
      hide Shape, ChainLinks, ChainsHold, CountingLoads, Loads, Pow2, SlotOf;
      n.next, n.prev := null, null;
      tail := n;
      numBuckets := INITIAL_NUM_BUCKETS;
      log2NumBuckets := INITIAL_NUM_BUCKETS_LOG2;
      buckets := seq(INITIAL_NUM_BUCKETS, _ => Bucket(null, Load(0, 0)));
      numItems, idealChainMaxlen, nonidealItems, ineffExpands, noexpand := 0, 0, 0, 0, false;
      head := n;
      order := [n];
      chains := seq(INITIAL_NUM_BUCKETS, _ => []);
      EmptyChains(Slot(), buckets, chains);
      FreshLoads(buckets);
    }

    /** HASH_APPEND_LIST. */
    method AppendList(n: Node)
      requires order != [] && AppList() && n !in order
      modifies `tail, `order, order`next, n`next, n`prev
      ensures order == old(order) + [n] && AppList()
      ensures old(BucketTable()) ==> BucketTable()
    {
      n.next := null;
      n.prev := tail;
      tail.next := n;
      tail := n;
      order := order + [n];
    }

    /** HASH_EXPAND_BUCKETS: twice the buckets, every node moved to its new chain. */
    method ExpandBuckets()
      requires head != null && order != [] && BucketTable() && Agree()
      requires numItems == |order| == SumOf(Count, Loads(buckets))
      modifies `buckets, `numBuckets, `log2NumBuckets, `idealChainMaxlen, `nonidealItems,
               `ineffExpands, `noexpand, `chains, order`hhNext, order`hhPrev
      ensures BucketTable() && Agree()
      ensures numBuckets == 2 * old(numBuckets) && log2NumBuckets == old(log2NumBuckets) + 1
      ensures idealChainMaxlen == IdealChainMaxlen(numItems, old(log2NumBuckets))
      ensures (idealChainMaxlen - 1) * numBuckets < numItems <= idealChainMaxlen * numBuckets
      ensures nonidealItems == SumOf(Over(idealChainMaxlen), Loads(buckets))
      ensures numItems == SumOf(Count, Loads(buckets))
      ensures idealChainMaxlen <= THRESH ==> Bounded(Loads(buckets))
      ensures forall b | 0 <= b < |buckets| :: Owed(buckets[b].load, idealChainMaxlen)
      ensures ineffExpands == (if nonidealItems > numItems / 2 then old(ineffExpands) + 1 else 0)
      ensures noexpand <==> old(noexpand) || ineffExpands > 1
    {
      hide *;
      Doubling();
      var newBuckets;
      ghost var newChains, done;
      newBuckets, newChains, done := Rehash();
      Install(newBuckets, newChains, done);
      ineffExpands := if nonidealItems > ShiftRight(numItems, 1) then ineffExpands + 1 else 0;
      if ineffExpands > 1 {
        noexpand := true;
      }
    }

    /** The end of a doubling: the filled buckets take the place of the old ones. */
    method Install(bs: seq<Bucket>, ghost cs: seq<seq<Node>>, ghost done: seq<Node>)
      requires Rehashed(SlotOf(hash, log2NumBuckets + 1), bs, cs, done) && |done| == numItems == |order|
      requires (forall n | n in done :: n in order) && (forall n | n in order :: n in done)
      requires Hashed() && numBuckets * 2 == |bs| == Pow2(log2NumBuckets + 1)
      requires numItems <= idealChainMaxlen * (numBuckets * 2)
      modifies `buckets, `chains, `numBuckets, `log2NumBuckets
      ensures numBuckets == old(numBuckets) * 2 && log2NumBuckets == old(log2NumBuckets) + 1
      ensures BucketTable() && Agree()
      ensures nonidealItems == SumOf(Over(idealChainMaxlen), Loads(buckets))
      ensures numItems == SumOf(Count, Loads(buckets))
      ensures idealChainMaxlen <= THRESH ==> Bounded(Loads(buckets))
      ensures forall b | 0 <= b < |buckets| :: Owed(buckets[b].load, idealChainMaxlen)
    {
      hide *;
      buckets, chains := bs, cs;
      numBuckets := numBuckets * 2;
      log2NumBuckets := log2NumBuckets + 1;
      Installed(done);
    }

    /** The arithmetic of a doubling. */
    lemma Doubling()
      requires BucketTable() && numItems > 0
      ensures numBuckets * 2 == Pow2(log2NumBuckets + 1)
      ensures ShiftRight(numItems, 1) == numItems / 2
      ensures var ideal := IdealChainMaxlen(numItems, log2NumBuckets);
              && ideal == ShiftRight(numItems, log2NumBuckets + 1)
                          + (if BitAnd(numItems, numBuckets * 2 - 1) != 0 then 1 else 0)
              && ideal >= 1
              && (ideal - 1) * (numBuckets * 2) < numItems <= ideal * (numBuckets * 2)
    {
      IdealIsCeiling(numItems, log2NumBuckets);
      ShiftIsQuotient(numItems, 1);
      assert Pow2(1) == 2;
    }

    /** The first half of a doubling: the new, filled buckets, not yet installed. */
    method Rehash() returns (bs: seq<Bucket>, ghost cs: seq<seq<Node>>, ghost done: seq<Node>)
      requires order != [] && BucketTable() && Agree()
      requires numItems == |order| == SumOf(Count, Loads(buckets))
      modifies `idealChainMaxlen, `nonidealItems, order`hhNext, order`hhPrev
      ensures idealChainMaxlen == IdealChainMaxlen(numItems, log2NumBuckets)
      ensures Rehashed(SlotOf(hash, log2NumBuckets + 1), bs, cs, done) && |bs| == 2 * numBuckets
      ensures (forall n | n in done :: n in order) && (forall n | n in order :: n in done)
      ensures |done| == numItems && Hashed()
    {
      hide *;
      Doubling();
      var empty := seq(2 * numBuckets, _ => Bucket(null, Load(0, 0)));
      ghost var emptyChains: seq<seq<Node>> := seq(2 * numBuckets, _ => []);
      idealChainMaxlen := ShiftRight(numItems, log2NumBuckets + 1)
        + (if BitAnd(numItems, numBuckets * 2 - 1) != 0 then 1 else 0);
      nonidealItems := 0;
      ghost var slot := SlotOf(hash, log2NumBuckets + 1);
      NothingRehashed(slot, empty, emptyChains);
      bs, cs, done := Redistribute(empty, slot, emptyChains);
    }

    /** The start of the rehashing loop. */
    lemma NothingRehashed(slot: Node -> nat, bs: seq<Bucket>, cs: seq<seq<Node>>)
      requires Agree() && slot == SlotOf(hash, log2NumBuckets + 1)
      requires |bs| == |cs| == Pow2(log2NumBuckets + 1) && idealChainMaxlen >= 1 && nonidealItems == 0
      requires forall b | 0 <= b < |bs| :: bs[b] == Bucket(null, Load(0, 0)) && cs[b] == []
      ensures Rehashed(slot, bs, cs, []) && Hashed()
      ensures forall n | n in order :: slot(n) == ToBkt(n.hashv, log2NumBuckets + 1) < |bs|
    {
      hide Pow2, BitAnd;
      SumOfEmpty(Loads(bs));
    }

    /** The filled buckets, once installed, make up a table. */
    lemma Installed(done: seq<Node>)
      requires Rehashed(SlotOf(hash, log2NumBuckets), buckets, chains, done) && |done| == numItems == |order|
      requires (forall n | n in done :: n in order) && (forall n | n in order :: n in done)
      requires Hashed() && numBuckets == |buckets| == Pow2(log2NumBuckets)
      requires numItems <= idealChainMaxlen * numBuckets
      ensures BucketTable() && Agree()
      ensures nonidealItems == SumOf(Over(idealChainMaxlen), Loads(buckets))
      ensures numItems == SumOf(Count, Loads(buckets))
      ensures idealChainMaxlen <= THRESH ==> Bounded(Loads(buckets))
      ensures forall b | 0 <= b < |buckets| :: Owed(buckets[b].load, idealChainMaxlen)
    {
      ChainsHoldSame(Slot(), done, order, chains);
      if idealChainMaxlen <= THRESH {
        ExpandKeepsBound(Loads(buckets), idealChainMaxlen);
      }
    }

    /** The loop over the old buckets. */
    method Redistribute(empty: seq<Bucket>, ghost slot: Node -> nat, ghost emptyChains: seq<seq<Node>>)
      returns (bs: seq<Bucket>, ghost cs: seq<seq<Node>>, ghost done: seq<Node>)
      requires BucketTable() && Agree() && Rehashed(slot, empty, emptyChains, [])
      requires forall n | n in order :: slot(n) == ToBkt(n.hashv, log2NumBuckets + 1) < |empty|
      modifies `nonidealItems, order`hhNext, order`hhPrev
      ensures Rehashed(slot, bs, cs, done) && |bs| == |empty|
      ensures (forall n | n in done :: n in order) && (forall n | n in order :: n in done)
      ensures |done| == SumOf(Count, Loads(buckets))
    {
      hide *;
      ghost var loads, was := Loads(buckets), Slot();
      OldChains();
      var i := 0;
      bs, cs, done := empty, emptyChains, [];
      SumOfNone(Count);
      NoneMoved(was);
      while i < numBuckets
        modifies `nonidealItems, order`hhNext, order`hhPrev
        invariant 0 <= i <= numBuckets && |bs| == |empty|
        invariant Rehashed(slot, bs, cs, done)
        invariant Moved(was, done, i)
        invariant |done| == SumOf(Count, loads[..i])
        invariant forall b | i <= b < numBuckets :: HhNextLinks(chains[b])
      {
        bs, cs, done := MoveChain(i, bs, was, slot, cs, done);
        SumPrefix(Count, loads, i);
        i := i + 1;
      }
      assert loads[..numBuckets] == loads;
      AllMoved(was, done);
    }

    /** What the rehashing loop needs to know of the table it empties. */
    lemma OldChains()
      requires BucketTable() && Agree()
      ensures numBuckets == |buckets| == |chains| == |Loads(buckets)| && ChainsHold(Slot(), order, chains)
      ensures forall b | 0 <= b < numBuckets ::
                && buckets[b].hhHead == At(chains[b], 0)
                && Count(Loads(buckets)[b]) == |chains[b]|
                && HhNextLinks(chains[b])
    {
    }

    lemma NoneMoved(was: Node -> nat)
      ensures Moved(was, [], 0)
    {
    }

    lemma AllMoved(was: Node -> nat, done: seq<Node>)
      requires Moved(was, done, |chains|) && ChainsHold(was, order, chains)
      ensures (forall n | n in done :: n in order) && (forall n | n in order :: n in done)
    {
    }

    /** Of the nodes, exactly those of the first `i` old buckets have been moved. */
    ghost predicate Moved(was: Node -> nat, done: seq<Node>, i: nat)
      reads `order
    {
      && (forall n | n in done :: n in order && was(n) < i)
      && (forall n | n in order && was(n) < i :: n in done)
    }

    /** The loop over one old chain. */
    method MoveChain(i: nat, bs: seq<Bucket>, ghost was: Node -> nat,
                     ghost slot: Node -> nat, ghost cs: seq<seq<Node>>, ghost done: seq<Node>)
      returns (bs': seq<Bucket>, ghost cs': seq<seq<Node>>, ghost done': seq<Node>)
      requires i < |buckets| == |chains| && ChainsHold(was, order, chains)
      requires buckets[i].hhHead == At(chains[i], 0)
      requires forall b | i <= b < |chains| :: HhNextLinks(chains[b])
      requires forall n | n in order :: slot(n) == ToBkt(n.hashv, log2NumBuckets + 1) < |bs|
      requires Rehashed(slot, bs, cs, done) && Moved(was, done, i)
      modifies `nonidealItems, order`hhNext, order`hhPrev
      ensures Rehashed(slot, bs', cs', done') && |bs'| == |bs| && Moved(was, done', i + 1)
      ensures |done'| == |done| + |chains[i]|
      ensures forall b | i < b < |chains| :: HhNextLinks(chains[b])
    {
      hide ToBkt, SumOf, Loads, Rehashed, ChainLinks, BucketTable;
      var thh := buckets[i].hhHead;
      ghost var chain := chains[i];
      ghost var j := 0;
      bs', cs', done' := bs, cs, done;
      assert Distinct(chain) && HhNextLinks(chain);
      while thh != null
        modifies `nonidealItems, order`hhNext, order`hhPrev
        invariant 0 <= j <= |chain| && thh == At(chain, j) && |bs'| == |bs|
        invariant Rehashed(slot, bs', cs', done')
        invariant done' == done + chain[..j]
        invariant forall k {:trigger chain[k].hhNext} | j <= k < |chain| :: chain[k].hhNext == At(chain, k + 1)
        invariant forall b | i < b < |chains| :: HhNextLinks(chains[b])
        decreases |chain| - j
      {
        assert chains[i][j] in order && was(chains[i][j]) == i;
        var nxt := thh.hhNext;
        var bkt := ToBkt(thh.hashv, log2NumBuckets + 1);
        OtherChainsApart(was, order, chains, i, j);
        assert forall n | n in done' :: n in order;
        bs', cs', done' := MoveNode(thh, bkt, bs', slot, cs', done');
        assert chain[..j + 1] == chain[..j] + [chain[j]];
        thh := nxt;
        j := j + 1;
      }
      assert chain[..j] == chain;
      MovedChain(was, done, i);
    }

    lemma MovedChain(was: Node -> nat, done: seq<Node>, i: nat)
      requires i < |chains| && ChainsHold(was, order, chains) && Moved(was, done, i)
      ensures Moved(was, done + chains[i], i + 1)
    {
    }

    /** The state of the rehashing loop: the new buckets hold the nodes of `done`. */
    ghost predicate Rehashed(slot: Node -> nat, bs: seq<Bucket>, cs: seq<seq<Node>>, done: seq<Node>)
      reads `idealChainMaxlen, `nonidealItems, Members(cs)`hhNext, Members(cs)`hhPrev
    {
      && idealChainMaxlen >= 1
      && ChainsHold(slot, done, cs)
      && |bs| == |cs|
      && (forall b | 0 <= b < |bs| ::
            && bs[b].hhHead == At(cs[b], 0)
            && bs[b].load.count == |cs[b]|
            && Owed(bs[b].load, idealChainMaxlen))
      && ChainLinks(cs)
      && nonidealItems == SumOf(Over(idealChainMaxlen), Loads(bs))
      && SumOf(Count, Loads(bs)) == |done|
    }

    /** One step of the rehashing loop: `x` moves to the front of new bucket `bkt`. */
    method MoveNode(x: Node, bkt: nat, bs: seq<Bucket>,
                    ghost slot: Node -> nat, ghost cs: seq<seq<Node>>, ghost done: seq<Node>)
      returns (bs': seq<Bucket>, ghost cs': seq<seq<Node>>, ghost done': seq<Node>)
      requires Rehashed(slot, bs, cs, done) && x !in done && x in order && (forall n | n in done :: n in order)
      requires bkt == slot(x) < |bs|
      modifies `nonidealItems, order`hhPrev, x`hhNext
      ensures Rehashed(slot, bs', cs', done') && |bs'| == |bs| && done' == done + [x]
    {
      hide SumOf, Loads, Over, Members, Distinct, Owed;
      var count := bs[bkt].load.count + 1;
      var mult := bs[bkt].load.expandMult;
      if count > idealChainMaxlen {
        nonidealItems := nonidealItems + 1;
        mult := count / idealChainMaxlen;
      }
      OwedAfterOne(bs[bkt].load, idealChainMaxlen);
      bs' := bs[bkt := Bucket(x, Load(count, mult))];
      LoadsAfterMove(bs, bkt, x, idealChainMaxlen, Load(count, mult));
      HeadIsApart(slot, done, cs, bkt);
      ChainsHoldPush(slot, done, cs, x);
      assert ChainLinks(cs);
      assert forall n | n in cs[bkt] :: n in order;
      PushFront(x, bs[bkt].hhHead, cs, bkt);
      cs' := cs[bkt := [x] + cs[bkt]];
      done' := done + [x];
    }

    lemma LoadsAfterMove(bs: seq<Bucket>, bkt: nat, x: Node, ideal: nat, load: Load)
      requires bkt < |bs| && load.count == bs[bkt].load.count + 1
      ensures var loads := Loads(bs[bkt := Bucket(x, load)]);
              && SumOf(Over(ideal), loads) == SumOf(Over(ideal), Loads(bs)) + (if load.count > ideal then 1 else 0)
              && SumOf(Count, loads) == SumOf(Count, Loads(bs)) + 1
    {
      hide SumOf, Over;
      assert Loads(bs[bkt := Bucket(x, load)]) == Loads(bs)[bkt := load];
      MoveCounts(Loads(bs), bkt, ideal, load);
    }

    /** The first half of HASH_ADD_TO_BKT: count and link. */
    method PushIntoBkt(bkt: nat, n: Node, ghost rest: seq<Node>)
      requires BucketTable() && ChainsHold(Slot(), rest, chains) && n !in rest
      requires bkt == Slot()(n) < |chains|
      requires forall m | m in rest :: m in order
      modifies `buckets, `chains, n`hhNext, n`hhPrev, order`hhPrev
      ensures BucketTable() && ChainsHold(Slot(), rest + [n], chains)
      ensures Loads(buckets) == Added(Loads(old(buckets)), bkt)
    {
      hide Pow2, ToBkt, SlotOf, Loads, Members;
      HeadIsApart(Slot(), rest, chains, bkt);
      ChainsHoldPush(Slot(), rest, chains, n);
      ShapePush(buckets, chains, bkt, n);
      var b := buckets[bkt];
      PushFront(n, b.hhHead, chains, bkt);
      buckets := buckets[bkt := Bucket(n, b.load.(count := b.load.count + 1))];
      chains := chains[bkt := [n] + chains[bkt]];
    }

    /** Whether one more item in bucket `bkt` makes the table double. */
    ghost predicate WouldDouble(bkt: nat)
      requires bkt < |buckets|
      reads `buckets, `noexpand
    {
      buckets[bkt].load.count + 1 >= 10 * (buckets[bkt].load.expandMult + 1) && !noexpand
    }

    /** The table has just doubled: the ideal length is the ceiling of items per bucket, at most
        ten, every bucket has the multiplier it is owed, and a doubling that leaves more than
        half of the items beyond the ideal is one more ineffective one; two inhibit expansion. */
    ghost predicate Doubled(ineffBefore: nat)
      reads `numItems, `numBuckets, `buckets, `idealChainMaxlen, `nonidealItems, `ineffExpands, `noexpand
    {
      && 1 <= idealChainMaxlen <= 10
      && (idealChainMaxlen - 1) * numBuckets < numItems <= idealChainMaxlen * numBuckets
      && nonidealItems == SumOf(Over(idealChainMaxlen), Loads(buckets))
      && (forall b | 0 <= b < |buckets| :: Owed(buckets[b].load, idealChainMaxlen))
      && ineffExpands == (if nonidealItems > numItems / 2 then ineffBefore + 1 else 0)
      && (noexpand <==> ineffExpands > 1)
    }

    /** The table has not doubled: one bucket has one more item, and no other counter moves. */
    ghost predicate Grown(before: seq<Bucket>, bkt: nat, n: nat, ideal: nat, nonideal: nat, ineff: nat, inhibited: bool)
      requires bkt < |before|
      reads `buckets, `numBuckets, `idealChainMaxlen, `nonidealItems, `ineffExpands, `noexpand
    {
      && Loads(buckets) == Added(Loads(before), bkt) && numBuckets == n
      && idealChainMaxlen == ideal && nonidealItems == nonideal && ineffExpands == ineff && noexpand == inhibited
    }

    /** A table around a first element: 32 buckets, and no doubling yet. */
    ghost predicate Brandnew()
      reads `buckets, `numBuckets, `idealChainMaxlen, `nonidealItems, `ineffExpands, `noexpand
    {
      && numBuckets == |buckets| == 32 && (forall b | 0 <= b < |buckets| :: buckets[b].load.expandMult == 0)
      && idealChainMaxlen == nonidealItems == ineffExpands == 0 && !noexpand
    }

    /** HASH_ADD_TO_TABLE and HASH_ADD_TO_BKT: put the newest node of the list into its bucket. */
    method AddToTable(n: Node)
      requires head != null && order != [] && n == order[|order| - 1]
      requires AppList() && Hashed() && BucketTable()
      requires ChainsHold(Slot(), order[..|order| - 1], chains) && Counting(|order| - 1)
      modifies `buckets, `numBuckets, `log2NumBuckets, `numItems, `idealChainMaxlen, `nonidealItems,
               `ineffExpands, `noexpand, `chains, order`hhNext, order`hhPrev
      ensures AppList() && BucketTable() && Agree() && Counting(|order|)
      ensures var bkt := ToBkt(n.hashv, old(log2NumBuckets));
              && bkt < |old(buckets)|
              && (old(WouldDouble(bkt)) ==> numBuckets == 2 * old(numBuckets) && Doubled(old(ineffExpands)))
              && (!old(WouldDouble(bkt)) ==>
                    Grown(old(buckets), bkt, old(numBuckets), old(idealChainMaxlen), old(nonidealItems), old(ineffExpands), old(noexpand)))
    {
      hide BucketTable, Agree, Hashed, ChainsHold, NextLinks, PrevLinks, Distinct, SumOf, Loads, Bounded, ToBkt, Slot,
           IdealChainMaxlen, Added, Members, Doubled;
      ghost var rest := order[..|order| - 1];
      numItems := numItems + 1;
      var bkt := ToBkt(n.hashv, log2NumBuckets);
      BeforePush(n, bkt);
      PushIntoBkt(bkt, n, rest);
      assert rest + [n] == order;
      assert Agree() by {
        AgreeFrom();
      }
      AfterPush(old(buckets), bkt);
      ExpandIfFull(bkt);
    }

    /** The second half of HASH_ADD_TO_BKT: a chain that has reached its limit asks for a doubling. */
    method ExpandIfFull(bkt: nat)
      requires head != null && order != [] && bkt < |buckets| && AppList() && BucketTable() && Agree()
      requires numItems == |order| == SumOf(Count, Loads(buckets))
      requires !noexpand ==> IdealChainMaxlen(numItems, log2NumBuckets) <= THRESH
      requires !noexpand && buckets[bkt].load.count < Limit(buckets[bkt].load) ==> Bounded(Loads(buckets))
      modifies `buckets, `numBuckets, `log2NumBuckets, `idealChainMaxlen, `nonidealItems,
               `ineffExpands, `noexpand, `chains, order`hhNext, order`hhPrev
      ensures AppList() && BucketTable() && Agree() && Counting(|order|)
      ensures if old(buckets[bkt].load.count >= Limit(buckets[bkt].load) && !noexpand)
              then numBuckets == 2 * old(numBuckets) && Doubled(old(ineffExpands))
              else buckets == old(buckets) && numBuckets == old(numBuckets) && noexpand == old(noexpand)
                   && idealChainMaxlen == old(idealChainMaxlen) && nonidealItems == old(nonidealItems)
                   && ineffExpands == old(ineffExpands)
    {
      hide BucketTable, Agree, NextLinks, PrevLinks, Distinct, SumOf, Loads, Bounded, IdealChainMaxlen;
      if buckets[bkt].load.count >= (buckets[bkt].load.expandMult + 1) * THRESH && !noexpand {
        ExpandBuckets();
      }
    }

    lemma BeforePush(n: Node, bkt: nat)
      requires order != [] && n == order[|order| - 1] && AppList() && Hashed() && BucketTable()
      requires ChainsHold(Slot(), order[..|order| - 1], chains) && bkt == ToBkt(n.hashv, log2NumBuckets)
      ensures bkt == Slot()(n) < |chains| == |buckets|
      ensures n !in order[..|order| - 1]
    {
    }

    /** The counters after one more item has been linked into bucket `bkt`. */
    lemma AfterPush(before: seq<Bucket>, bkt: nat)
      requires bkt < |before| && numItems > 0 && BucketTable()
      requires SumOf(Count, Loads(before)) == numItems - 1 && (!noexpand ==> Bounded(Loads(before)))
      requires Loads(buckets) == Added(Loads(before), bkt)
      ensures bkt < |buckets| && numItems == SumOf(Count, Loads(buckets))
      ensures buckets[bkt].load == before[bkt].load.(count := before[bkt].load.count + 1)
      ensures !noexpand && buckets[bkt].load.count < Limit(buckets[bkt].load) ==> Bounded(Loads(buckets))
      ensures !noexpand ==> IdealChainMaxlen(numItems, log2NumBuckets) <= THRESH
    {
      var bs := Loads(before);
      assert Loads(buckets)[bkt] == buckets[bkt].load && bs[bkt] == before[bkt].load;
      assert |bs| == |Loads(buckets)| == |buckets|;
      hide SumOf, IdealChainMaxlen, Pow2, Bounded, Loads;
      SumUpdate(Count, bs, bkt, Added(bs, bkt)[bkt]);
      if !noexpand {
        IdealAtMostTen(bs, bkt, log2NumBuckets);
        if buckets[bkt].load.count < Limit(buckets[bkt].load) {
          AddKeepsBound(bs, bkt);
        }
      }
    }

    lemma AgreeFrom()
      requires Hashed() && ChainsHold(Slot(), order, chains)
      ensures Agree()
    {
    }

    /** HASH_ADD: append a node, whether or not its key is already there. */
    method Add(n: Node)
      requires Valid() && n !in order
      modifies this, n, order
      ensures Valid() && order == old(order) + [n]
      ensures old(head) != null ==>
                var bkt := ToBkt(hash(n.key), old(log2NumBuckets));
                && bkt < |old(buckets)|
                && (old(WouldDouble(bkt)) ==> numBuckets == 2 * old(numBuckets) && Doubled(old(ineffExpands)))
                && (!old(WouldDouble(bkt)) ==>
                      Grown(old(buckets), bkt, old(numBuckets), old(idealChainMaxlen), old(nonidealItems), old(ineffExpands), old(noexpand)))
      ensures old(head) == null ==> Brandnew()
    {
      hide AppList, BucketTable, HashedNodes, ChainsHold, CountingLoads, Doubled, ToBkt, SlotOf, Loads, Added;
      LinkIn(n);
      ghost var bkt, before := ToBkt(n.hashv, log2NumBuckets), buckets;
      AddToTable(n);
      if old(head) == null {
        FirstAdded(before, bkt);
      }
    }

    lemma FirstAdded(before: seq<Bucket>, bkt: nat)
      requires bkt < |before| && Loads(buckets) == Added(Loads(before), bkt)
      requires forall b | 0 <= b < |before| :: before[b].load.expandMult == 0
      ensures |buckets| == |before| && forall b | 0 <= b < |buckets| :: buckets[b].load.expandMult == 0
    {
      assert |Loads(buckets)| == |buckets| && |Loads(before)| == |before|;
      forall b | 0 <= b < |buckets|
        ensures buckets[b].load.expandMult == 0
      {
        assert Loads(buckets)[b] == buckets[b].load && Loads(before)[b] == before[b].load;
      }
    }

    /** The first half of HASH_ADD: the hash value, and the end of the list or a new table. */
    method LinkIn(n: Node)
      requires Valid() && n !in order
      modifies this, n`hashv, n`next, n`prev, order`next
      ensures head != null && order == old(order) + [n] && order[..|order| - 1] == old(order)
      ensures n.hashv == hash(n.key) && AppList() && BucketTable() && Hashed()
      ensures ChainsHold(Slot(), old(order), chains) && Counting(|order| - 1)
      ensures old(head) != null ==>
                && buckets == old(buckets) && log2NumBuckets == old(log2NumBuckets)
                && numBuckets == old(numBuckets) && noexpand == old(noexpand) && ineffExpands == old(ineffExpands)
                && idealChainMaxlen == old(idealChainMaxlen) && nonidealItems == old(nonidealItems)
      ensures old(head) == null ==> Brandnew() && forall b | 0 <= b < |buckets| :: buckets[b].load.count == 0
    {
      hide AppList, BucketTable, HashedNodes, ChainsHold, CountingLoads, ToBkt, SlotOf, Loads;
      n.hashv := hash(n.key);
      ghost var rest := order;
      NoHashed();
      if head == null {
        MakeTable(n);
      } else {
        AppendList(n);
      }
      Appended(rest, n);
    }

    lemma Appended(rest: seq<Node>, n: Node)
      requires order == rest + [n] && HashedNodes(hash, rest) && n.hashv == hash(n.key)
      ensures Hashed() && order[..|order| - 1] == rest && |order| - 1 == |rest|
    {
      hide HashedNodes;
      HashedAppend(hash, rest, n);
    }

    lemma NoHashed()
      ensures HashedNodes(hash, [])
    {
    }

    /** HASH_SRT: sort the application-order list; the buckets are not touched. */
    method Sort(cmp: (Node, Node) -> int)
      requires Valid()
      modifies `head, `tail, `order, order`next, order`prev
      ensures Valid() && order == MergeSort.SortFrom(cmp, 1, old(order))
      ensures multiset(order) == multiset(old(order))
      ensures MergeSort.Consistent(cmp, set n | n in old(order)) ==>
                MergeSort.StableSortOf(cmp, old(order), order)
    {
      if head != null {
        SortNonempty(cmp);
      }
      MergeSort.SortPermutes(cmp, 1, old(order));
      if MergeSort.Consistent(cmp, set n | n in old(order)) {
        MergeSort.SortIsStable(cmp, old(order));
      }
    }

    method SortNonempty(cmp: (Node, Node) -> int)
      requires head != null && Valid()
      modifies `head, `tail, `order, order`next, order`prev
      ensures Valid() && order == MergeSort.SortFrom(cmp, 1, old(order))
    {
      hide AppList, ChainsHold, HashedNodes, CountingLoads, Loads;
      SortList(cmp);
    }

    /** The list part of the sort. */
    method SortList(cmp: (Node, Node) -> int)
      requires order != [] && AppList() && BucketTable() && Agree()
      modifies `head, `tail, `order, order`next, order`prev
      ensures order == MergeSort.SortFrom(cmp, 1, old(order)) && head != null
      ensures AppList() && BucketTable() && Agree()
    {
      hide BucketTable, Agree, HashedNodes, ChainsHold, NextLinks, PrevLinks, Distinct, MergeSort.SortFrom;
      var list, last := SortLinks(cmp);
      Rearranged(cmp);
      head, tail := list, last;
      order := MergeSort.SortFrom(cmp, 1, order);
      AgreeFrom();
    }

    /** Only the list links change. */
    method SortLinks(cmp: (Node, Node) -> int) returns (list: Node?, last: Node?)
      requires order != [] && AppList() && BucketTable() && Agree()
      modifies order`next, order`prev
      ensures BucketTable() && Agree()
      ensures var t := MergeSort.SortFrom(cmp, 1, order);
              && list == At(t, 0) && last == At(t, |t| - 1)
              && Distinct(t) && NextLinks(t) && PrevLinks(t)
    {
      hide ChainsHold, NextLinks, PrevLinks, Distinct, MergeSort.SortFrom, SlotOf, Pow2, Shape;
      list, last := ListSort.Sort(cmp, head, order);
    }

    /** Rearranging the list leaves the chains and the hash values right. */
    lemma Rearranged(cmp: (Node, Node) -> int)
      requires Agree()
      ensures var t := MergeSort.SortFrom(cmp, 1, order);
              |t| == |order| && ChainsHold(Slot(), t, chains) && HashedNodes(hash, t)
    {
      var t := MergeSort.SortFrom(cmp, 1, order);
      MergeSort.SortPermutes(cmp, 1, order);
      MergeSort.SameElements(order, t);
      ChainsHoldSame(Slot(), order, t, chains);
      HashedShuffle(hash, order, t);
    }

    /** HASH_DEL_IN_BKT: unlink the node at position `i` of chain `bkt`. */
    method DelInBkt(bkt: nat, del: Node, ghost nodes: seq<Node>, ghost i: nat)
      requires BucketTable() && bkt < |chains| && i < |chains[bkt]| && chains[bkt][i] == del
      requires ChainsHold(Slot(), nodes, chains)
      modifies `buckets, `chains, nodes`hhNext, nodes`hhPrev
      ensures BucketTable() && chains == old(chains)[bkt := Without(old(chains)[bkt], i)]
      ensures old(buckets)[bkt].load.count > 0 && Loads(buckets) == Removed(Loads(old(buckets)), bkt)
    {
      hide Pow2, SlotOf, ToBkt, Loads, HhPrevLinks;
      assert HhNextLinks(chains[bkt]);
      ShapeRemove(buckets, chains, bkt, i);
      ChainsApart(Slot(), nodes, chains, bkt);
      var b := buckets[bkt];
      b := b.(load := b.load.(count := b.load.count - 1));
      WithoutAt(chains[bkt], i, 0);
      if b.hhHead == del {
        b := b.(hhHead := del.hhNext);
      }
      Unlink(del, chains, bkt, i);
      buckets := buckets[bkt := b];
      chains := chains[bkt := Without(chains[bkt], i)];
    }

    /** One bucket has one item less, and nothing else about the buckets' counters changes. */
    ghost predicate Shrunk(before: seq<Bucket>, bkt: nat)
      requires bkt < |before|
      reads `buckets
    {
      before[bkt].load.count > 0 && Loads(buckets) == Removed(Loads(before), bkt)
    }

    /** HASH_DELETE: remove an element; removing the last one frees the table. */
    method Delete(del: Node) returns (ghost k: nat)
      requires Valid() && del in order
      modifies this, order
      ensures k < |old(order)| && old(order)[k] == del
      ensures Valid() && order == Without(old(order), k)
      ensures order != [] ==>
                var bkt := ToBkt(del.hashv, old(log2NumBuckets));
                && bkt < |old(buckets)| && Shrunk(old(buckets), bkt) && numBuckets == old(numBuckets)
                && idealChainMaxlen == old(idealChainMaxlen) && nonidealItems == old(nonidealItems)
                && ineffExpands == old(ineffExpands) && noexpand == old(noexpand)
    {
      hide AppList, BucketTable, Agree, Counting, ToBkt, Shrunk;
      k :| 0 <= k < |order| && order[k] == del;
      Neighbours(k);
      if del.prev == null && del.next == null {
        head := null;
        order, chains := [], [];
      } else {
        DeleteOneOfMany(del, k);
      }
    }

    method DeleteOneOfMany(del: Node, ghost k: nat)
      requires |order| > 1 && k < |order| && order[k] == del
      requires AppList() && BucketTable() && Agree() && Counting(|order|)
      modifies `head, `tail, `order, `buckets, `chains, `numItems,
               order`next, order`prev, order`hhNext, order`hhPrev
      ensures order == Without(old(order), k) && |order| == |old(order)| - 1 && head != null
      ensures AppList() && BucketTable() && Agree() && Counting(|order|)
      ensures var bkt := ToBkt(del.hashv, log2NumBuckets); bkt < |old(buckets)| && Shrunk(old(buckets), bkt)
    {
      hide AppList, BucketTable, Agree, ChainsHold, HashedNodes, CountingLoads, Loads, ToBkt, Slot, Distinct;
      ghost var nodes := order;
      ghost var i := WhereIs(k);
      UnlinkList(del, k);
      var bkt := ToBkt(del.hashv, log2NumBuckets);
      ChainsHoldRemove(Slot(), nodes, chains, k, bkt, i);
      DelInBkt(bkt, del, nodes, i);
      numItems := numItems - 1;
      AfterRemove(old(buckets), bkt);
      HashedWithout(hash, nodes, k);
      AgreeFrom();
    }

    /** Null neighbours on both sides mean the only element. */
    lemma Neighbours(k: nat)
      requires AppList() && k < |order|
      ensures order[k].prev == At(order, k - 1) && order[k].next == At(order, k + 1)
      ensures order[k].prev == null && order[k].next == null <==> |order| == 1
    {
    }

    /** A node of the list sits at some position of the chain its hash value selects. */
    lemma WhereIs(k: nat) returns (i: nat)
      requires AppList() && BucketTable() && Agree() && k < |order|
      ensures Distinct(order)
      ensures var bkt := ToBkt(order[k].hashv, log2NumBuckets);
              bkt < |chains| == |buckets| && i < |chains[bkt]| && chains[bkt][i] == order[k]
      ensures HashedNodes(hash, order) && ChainsHold(Slot(), order, chains)
    {
      var n := order[k];
      assert n.hashv == hash(n.key);
      assert n in chains[Slot()(n)];
      i :| 0 <= i < |chains[Slot()(n)]| && chains[Slot()(n)][i] == n;
    }

    /** The counters after an item of bucket `bkt` has been unlinked. */
    lemma AfterRemove(before: seq<Bucket>, bkt: nat)
      requires bkt < |before| && before[bkt].load.count > 0
      requires CountingLoads(Loads(before), numItems + 1, noexpand)
      requires Loads(buckets) == Removed(Loads(before), bkt)
      ensures Counting(numItems)
    {
      var bs := Loads(before);
      assert bs[bkt] == before[bkt].load && |bs| == |before|;
      SumUpdate(Count, bs, bkt, Removed(bs, bkt)[bkt]);
      if !noexpand {
        RemoveKeepsBound(bs, bkt);
      }
    }

    /** The list part of HASH_DELETE_HH. */
    method UnlinkList(del: Node, ghost k: nat)
      requires AppList() && |order| > 1 && k < |order| && order[k] == del
      modifies `head, `tail, `order, order`next, order`prev
      ensures order == Without(old(order), k) && AppList() && head != null
      ensures old(BucketTable()) ==> BucketTable()
    {
      hide BucketTable;
      ghost var s := order;
      assert del.next == At(s, k + 1) && del.prev == At(s, k - 1);
      if del == tail {
        tail := del.prev;
      }
      if del.prev != null {
        del.prev.next := del.next;
      } else {
        head := del.next;
      }
      if del.next != null {
        del.next.prev := del.prev;
      }
      DistinctWithout(s, k);
      ListWithout(s, k);
      WithoutAt(s, k, 0);
      WithoutAt(s, k, |s| - 2);
      order := Without(s, k);
    }
  }
}
