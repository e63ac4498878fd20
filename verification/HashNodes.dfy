/** Hash table elements and the doubly linked application-order list they form. */
module HashNodes {

  /** An element together with its UT_hash_handle. */
  class Node {
    const key: int
    var hashv: nat
    var next: Node?
    var prev: Node?
    var hhNext: Node?
    var hhPrev: Node?

    constructor (key: int)
      ensures this.key == key
    {
      this.key := key;
      hashv := 0;
      next, prev, hhNext, hhPrev := null, null, null, null;
    }
  }

  /** The element at index `i`, or null outside the sequence. */
  ghost function At(s: seq<Node>, i: int): Node? {
    if 0 <= i < |s| then s[i] else null
  }

  ghost predicate Distinct(s: seq<Node>) {
    forall i, j | 0 <= i < j < |s| :: s[i] != s[j]
  }

  ghost function Without(s: seq<Node>, k: nat): seq<Node>
    requires k < |s|
  {
    s[..k] + s[k + 1..]
  }

  /** The node at index `i`, and its neighbours, when the one at `k` has gone. */
  lemma WithoutAt(s: seq<Node>, k: nat, i: int)
    requires k < |s|
    ensures At(Without(s, k), i) == if i < k then At(s, i) else At(s, i + 1)
  {
    var t := Without(s, k);
    if 0 <= i < |t| {
      assert t[i] == if i < k then s[i] else s[i + 1];
    }
  }

  lemma DistinctWithout(s: seq<Node>, k: nat)
    requires Distinct(s) && k < |s|
    ensures Distinct(Without(s, k))
    ensures forall n {:trigger n in Without(s, k)} :: n in Without(s, k) ==> n in s && n != s[k]
    ensures forall n {:trigger n in s} :: n in s && n != s[k] ==> n in Without(s, k)
  {
    var t := Without(s, k);
    forall n | n in s && n != s[k]
      ensures n in t
    {
      var i :| 0 <= i < |s| && s[i] == n;
      assert t[if i < k then i else i - 1] == n;
    }
  }

  ghost predicate NextLinks(s: seq<Node>)
    reads s`next
  {
    forall i {:trigger s[i].next} | 0 <= i < |s| :: s[i].next == At(s, i + 1)
  }

  ghost predicate PrevLinks(s: seq<Node>)
    reads s`prev
  {
    forall i {:trigger s[i].prev} | 0 <= i < |s| :: s[i].prev == At(s, i - 1)
  }

  /** With the neighbours of node `k` linked to each other, the rest is a list. */
  lemma ListWithout(s: seq<Node>, k: nat)
    requires k < |s|
    requires forall i {:trigger s[i].next} | 0 <= i < |s| && i != k ::
               s[i].next == if i + 1 == k then At(s, k + 1) else At(s, i + 1)
    requires forall i {:trigger s[i].prev} | 0 <= i < |s| && i != k ::
               s[i].prev == if i - 1 == k then At(s, k - 1) else At(s, i - 1)
    ensures NextLinks(Without(s, k)) && PrevLinks(Without(s, k))
  {
    var t := Without(s, k);
    forall i {:trigger t[i]} | 0 <= i < |t|
      ensures t[i].next == At(t, i + 1) && t[i].prev == At(t, i - 1)
    {
      WithoutAt(s, k, i);
      WithoutAt(s, k, i + 1);
      WithoutAt(s, k, i - 1);
      var n := s[if i < k then i else i + 1];
      assert t[i] == n && n.next == n.next && n.prev == n.prev;
    }
  }
}
