/** Bucket chains: which nodes they hold, how they are linked, and the pointer writes
    that put a node at the front of a chain or take it out. */
module HashChains {
  import opened Bits
  import opened ChainBound
  import opened HashNodes

  datatype Bucket = Bucket(hhHead: Node?, load: Load)

  function Loads(bs: seq<Bucket>): seq<Load> {
    seq(|bs|, i requires 0 <= i < |bs| => bs[i].load)
  }

  /** HASH_TO_BKT with a table of 2^log2 buckets. */
  function ToBkt(hashv: nat, log2: nat): (b: nat)
    ensures b < Pow2(log2)
  {
    MaskIsRemainder(hashv, log2);
    BitAnd(hashv, Pow2(log2) - 1)
  }

  /** The chain that a table with 2^log2 buckets selects for a node. */
  ghost function SlotOf(hash: int -> nat, log2: nat): Node -> nat {
    (n: Node) => ToBkt(hash(n.key), log2)
  }

  ghost predicate HhNextLinks(s: seq<Node>)
    reads s`hhNext
  {
    forall i {:trigger s[i].hhNext} | 0 <= i < |s| :: s[i].hhNext == At(s, i + 1)
  }

  ghost predicate HhPrevLinks(s: seq<Node>)
    reads s`hhPrev
  {
    forall i {:trigger s[i].hhPrev} | 0 <= i < |s| :: s[i].hhPrev == At(s, i - 1)
  }

  /** All nodes of all chains. */
  ghost function Members(cs: seq<seq<Node>>): set<Node> {
    set b, i | 0 <= b < |cs| && 0 <= i < |cs[b]| :: cs[b][i]
  }

  ghost predicate ChainLinks(cs: seq<seq<Node>>)
    reads Members(cs)`hhNext, Members(cs)`hhPrev
  {
    forall b | 0 <= b < |cs| :: HhNextLinks(cs[b]) && HhPrevLinks(cs[b])
  }

  /** Every node carries the hash value of its key. */
  ghost predicate HashedNodes(hash: int -> nat, s: seq<Node>)
    reads s`hashv
  {
    forall i {:trigger s[i].hashv} | 0 <= i < |s| :: s[i].hashv == hash(s[i].key)
  }

  lemma HashedAppend(hash: int -> nat, s: seq<Node>, n: Node)
    requires HashedNodes(hash, s) && n.hashv == hash(n.key)
    ensures HashedNodes(hash, s + [n])
  {
  }

  /** A rearrangement keeps the hash values right. */
  lemma HashedShuffle(hash: int -> nat, s: seq<Node>, t: seq<Node>)
    requires HashedNodes(hash, s) && multiset(s) == multiset(t)
    ensures HashedNodes(hash, t)
  {
    forall i {:trigger t[i].hashv} | 0 <= i < |t|
      ensures t[i].hashv == hash(t[i].key)
    {
      assert t[i] in multiset(t) && t[i] in multiset(s);
    }
  }

  lemma HashedWithout(hash: int -> nat, s: seq<Node>, k: nat)
    requires HashedNodes(hash, s) && k < |s|
    ensures HashedNodes(hash, Without(s, k))
  {
    var t := Without(s, k);
    assert forall i | 0 <= i < |t| :: t[i] == s[if i < k then i else i + 1];
  }

  /** What the chains hold: every node of `order` sits in the chain its slot selects, once,
      and nothing else is there. */
  ghost predicate ChainsHold(slot: Node -> nat, order: seq<Node>, cs: seq<seq<Node>>) {
    && (forall b | 0 <= b < |cs| :: Distinct(cs[b]))
    && (forall b, i {:trigger cs[b][i]} | 0 <= b < |cs| && 0 <= i < |cs[b]| ::
          cs[b][i] in order && slot(cs[b][i]) == b)
    && (forall n | n in order :: slot(n) < |cs| && n in cs[slot(n)])
  }

  /** Every bucket points at the first node of its chain and counts its nodes. */
  ghost predicate Shape(bs: seq<Bucket>, cs: seq<seq<Node>>) {
    && |bs| == |cs|
    && forall b | 0 <= b < |bs| :: bs[b].hhHead == At(cs[b], 0) && bs[b].load.count == |cs[b]|
  }

  /** The buckets hold `n` items, within the chain bound while expansion is allowed. */
  ghost predicate CountingLoads(loads: seq<Load>, n: nat, noexpand: bool) {
    n == SumOf(Count, loads) && (!noexpand ==> Bounded(loads))
  }

  /** Empty buckets hold nothing, in empty chains. */
  lemma EmptyChains(slot: Node -> nat, bs: seq<Bucket>, cs: seq<seq<Node>>)
    requires |bs| == |cs| && forall b | 0 <= b < |bs| :: bs[b] == Bucket(null, Load(0, 0)) && cs[b] == []
    ensures Shape(bs, cs) && ChainLinks(cs) && ChainsHold(slot, [], cs)
  {
  }

  /** The counters of a new table. */
  lemma FreshLoads(bs: seq<Bucket>)
    requires |bs| == INITIAL_NUM_BUCKETS && forall b | 0 <= b < |bs| :: bs[b] == Bucket(null, Load(0, 0))
    ensures |bs| == Pow2(INITIAL_NUM_BUCKETS_LOG2) && CountingLoads(Loads(bs), 0, false)
  {
    assert Pow2(5) == 2 * Pow2(4) && Pow2(4) == 2 * Pow2(3) && Pow2(3) == 2 * Pow2(2);
    hide Pow2, SumOf, Bounded;
    assert Loads(bs) == seq(INITIAL_NUM_BUCKETS, _ => Load(0, 0));
    EmptyIsBounded(INITIAL_NUM_BUCKETS);
  }

  lemma ShapePush(bs: seq<Bucket>, cs: seq<seq<Node>>, b: nat, x: Node)
    requires Shape(bs, cs) && b < |bs|
    ensures var bs' := bs[b := Bucket(x, bs[b].load.(count := bs[b].load.count + 1))];
            Shape(bs', cs[b := [x] + cs[b]]) && Loads(bs') == Added(Loads(bs), b)
  {
  }

  /** Taking a node out of its chain. */
  lemma ShapeRemove(bs: seq<Bucket>, cs: seq<seq<Node>>, b: nat, i: nat)
    requires Shape(bs, cs) && b < |bs| && i < |cs[b]|
    ensures bs[b].load.count > 0
    ensures var c := Without(cs[b], i);
            var bs' := bs[b := Bucket(At(c, 0), bs[b].load.(count := bs[b].load.count - 1))];
            Shape(bs', cs[b := c]) && Loads(bs') == Removed(Loads(bs), b)
  {
  }

  /** Chain `b` shares no node with any other, and all its nodes are in the list. */
  lemma ChainsApart(slot: Node -> nat, order: seq<Node>, cs: seq<seq<Node>>, b: nat)
    requires ChainsHold(slot, order, cs) && b < |cs|
    ensures Distinct(cs[b]) && forall n | n in cs[b] :: n in order
    ensures forall c, j, k {:trigger cs[c][j], cs[b][k]} |
              0 <= c < |cs| && c != b && 0 <= j < |cs[c]| && 0 <= k < |cs[b]| :: cs[c][j] != cs[b][k]
  {
  }

  /** The first node of chain `b` appears nowhere else. */
  lemma HeadIsApart(slot: Node -> nat, order: seq<Node>, cs: seq<seq<Node>>, b: nat)
    requires ChainsHold(slot, order, cs) && b < |cs|
    ensures forall c, j {:trigger cs[c][j]} | 0 <= c < |cs| && 0 <= j < |cs[c]| && (c != b || j != 0) :: cs[c][j] != At(cs[b], 0)
  {
    forall c, j {:trigger cs[c][j]} | 0 <= c < |cs| && 0 <= j < |cs[c]| && (c != b || j != 0)
      ensures cs[c][j] != At(cs[b], 0)
    {
      if c == b {
        assert Distinct(cs[b]);
      } else if cs[b] != [] {
        assert slot(cs[b][0]) == b;
      }
    }
  }

  /** A node of chain `i` is in no later chain and not further down its own. */
  lemma OtherChainsApart(slot: Node -> nat, order: seq<Node>, cs: seq<seq<Node>>, i: nat, j: nat)
    requires ChainsHold(slot, order, cs) && i < |cs| && j < |cs[i]|
    ensures cs[i][j] !in cs[i][..j]
    ensures forall k | j < k < |cs[i]| :: cs[i][k] != cs[i][j]
    ensures forall b, k {:trigger cs[b][k]} | i < b < |cs| && 0 <= k < |cs[b]| :: cs[b][k] != cs[i][j]
  {
    assert Distinct(cs[i]);
  }

  /** Putting a new node in front of the chain its slot selects keeps the chains right. */
  lemma ChainsHoldPush(slot: Node -> nat, order: seq<Node>, cs: seq<seq<Node>>, x: Node)
    requires ChainsHold(slot, order, cs) && x !in order && slot(x) < |cs|
    ensures x !in Members(cs)
    ensures ChainsHold(slot, order + [x], cs[slot(x) := [x] + cs[slot(x)]])
  {
    var b := slot(x);
    var after := cs[b := [x] + cs[b]];
    forall c | 0 <= c < |after|
      ensures Distinct(after[c])
    {
      assert Distinct(cs[c]);
      assert forall i | 0 <= i < |cs[b]| :: cs[b][i] in order;
    }
    forall n | n in order + [x]
      ensures slot(n) < |after| && n in after[slot(n)]
    {
      if n == x {
        assert after[b][0] == x;
      } else {
        assert n in order;
        var i :| 0 <= i < |cs[slot(n)]| && cs[slot(n)][i] == n;
        assert slot(n) == b ==> after[b][i + 1] == n;
      }
    }
    forall c, i {:trigger after[c][i]} | 0 <= c < |after| && 0 <= i < |after[c]|
      ensures after[c][i] in order + [x] && slot(after[c][i]) == c
    {
      if c == b {
        assert i > 0 ==> after[c][i] == cs[c][i - 1];
      } else {
        assert after[c][i] == cs[c][i];
      }
    }
  }

  /** Removing a node from the list and from its chain keeps the chains right. */
  lemma ChainsHoldRemove(slot: Node -> nat, order: seq<Node>, cs: seq<seq<Node>>, k: nat, b: nat, i: nat)
    requires ChainsHold(slot, order, cs) && Distinct(order)
    requires k < |order| && b < |cs| && i < |cs[b]| && cs[b][i] == order[k]
    ensures ChainsHold(slot, Without(order, k), cs[b := Without(cs[b], i)])
  {
    var x := order[k];
    var after := cs[b := Without(cs[b], i)];
    DistinctWithout(order, k);
    assert Distinct(cs[b]);
    DistinctWithout(cs[b], i);
    forall c, j {:trigger after[c][j]} | 0 <= c < |after| && 0 <= j < |after[c]|
      ensures after[c][j] in Without(order, k) && slot(after[c][j]) == c
    {
      assert after[c][j] in after[c];
      assert after[c][j] in cs[c];
      var m :| 0 <= m < |cs[c]| && cs[c][m] == after[c][j];
      assert slot(cs[b][i]) == b;
    }
    forall n | n in Without(order, k)
      ensures slot(n) < |after| && n in after[slot(n)]
    {
      assert n in order && n in cs[slot(n)];
    }
    forall c | 0 <= c < |after|
      ensures Distinct(after[c])
    {
      assert Distinct(cs[c]);
    }
  }

  /** Only the set of nodes in the list matters for the chains. */
  lemma ChainsHoldSame(slot: Node -> nat, s: seq<Node>, t: seq<Node>, cs: seq<seq<Node>>)
    requires ChainsHold(slot, s, cs) && (forall n | n in s :: n in t) && (forall n | n in t :: n in s)
    ensures ChainsHold(slot, t, cs)
  {
  }

  /** With the neighbours of node `k` linked to each other, the rest is a chain. */
  lemma RelinkedWithout(s: seq<Node>, k: nat)
    requires k < |s|
    requires forall i {:trigger s[i].hhNext} | 0 <= i < |s| && i != k ::
               s[i].hhNext == if i + 1 == k then At(s, k + 1) else At(s, i + 1)
    requires forall i {:trigger s[i].hhPrev} | 0 <= i < |s| && i != k ::
               s[i].hhPrev == if i - 1 == k then At(s, k - 1) else At(s, i - 1)
    ensures HhNextLinks(Without(s, k)) && HhPrevLinks(Without(s, k))
  {
    var t := Without(s, k);
    forall i {:trigger t[i]} | 0 <= i < |t|
      ensures t[i].hhNext == At(t, i + 1) && t[i].hhPrev == At(t, i - 1)
    {
      WithoutAt(s, k, i);
      WithoutAt(s, k, i + 1);
      WithoutAt(s, k, i - 1);
      var n := s[if i < k then i else i + 1];
      assert t[i] == n && n.hhNext == n.hhNext && n.hhPrev == n.hhPrev;
    }
  }

  /** The pointer writes shared by HASH_ADD_TO_BKT and the rehashing loop: `x` becomes
      the first node of chain `b`, whose first node was `hd`. */
  method PushFront(x: Node, hd: Node?, ghost cs: seq<seq<Node>>, ghost b: nat)
    requires b < |cs| && ChainLinks(cs) && hd == At(cs[b], 0)
    requires x !in Members(cs)
    requires forall c, j {:trigger cs[c][j]} | 0 <= c < |cs| && 0 <= j < |cs[c]| && (c != b || j != 0) :: cs[c][j] != hd
    modifies x`hhNext, x`hhPrev, cs[b]`hhPrev
    ensures ChainLinks(cs[b := [x] + cs[b]])
  {
    x.hhNext := hd;
    x.hhPrev := null;
    if hd != null {
      hd.hhPrev := x;
    }
    ghost var after := cs[b := [x] + cs[b]];
    forall c | 0 <= c < |after|
      ensures HhNextLinks(after[c]) && HhPrevLinks(after[c])
    {
      assert old(HhNextLinks(cs[c])) && old(HhPrevLinks(cs[c]));
      assert forall j | 0 <= j < |cs[c]| :: cs[c][j] in Members(cs);
    }
  }

  /** The pointer writes of HASH_DEL_IN_BKT around node `i` of chain `b`. */
  method Unlink(del: Node, ghost cs: seq<seq<Node>>, ghost b: nat, ghost i: nat)
    requires b < |cs| && i < |cs[b]| && cs[b][i] == del && ChainLinks(cs) && Distinct(cs[b])
    requires forall c, j, k {:trigger cs[c][j], cs[b][k]} |
               0 <= c < |cs| && c != b && 0 <= j < |cs[c]| && 0 <= k < |cs[b]| :: cs[c][j] != cs[b][k]
    modifies cs[b]`hhNext, cs[b]`hhPrev
    ensures ChainLinks(cs[b := Without(cs[b], i)])
  {
    assert HhNextLinks(cs[b]) && HhPrevLinks(cs[b]);
    if del.hhPrev != null {
      del.hhPrev.hhNext := del.hhNext;
    }
    if del.hhNext != null {
      del.hhNext.hhPrev := del.hhPrev;
    }
    RelinkedWithout(cs[b], i);
    ghost var after := cs[b := Without(cs[b], i)];
    forall c | 0 <= c < |after|
      ensures HhNextLinks(after[c]) && HhPrevLinks(after[c])
    {
      assert old(HhNextLinks(cs[c])) && old(HhPrevLinks(cs[c]));
    }
  }
}
