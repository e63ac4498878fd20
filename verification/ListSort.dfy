/** HASH_SRT: the bottom-up mergesort that relinks the application-order list in place. */
module ListSort {
  import opened HashNodes
  import opened MergeSort

  /** Consecutive nodes are linked forward; where the last one points is left open. */
  ghost predicate RunLinks(s: seq<Node>)
    reads s`next
  {
    forall i {:trigger s[i].next} | 0 <= i < |s| - 1 :: s[i].next == s[i + 1]
  }

  /** The output list so far: linked both ways, the last forward link still open. */
  ghost predicate OutLinks(s: seq<Node>)
    reads s`next, s`prev
  {
    Distinct(s) && RunLinks(s) && PrevLinks(s)
  }

  /** The output and the two inputs share no node. */
  ghost predicate Apart(out: seq<Node>, ps: seq<Node>, qs: seq<Node>) {
    && Distinct(out) && Distinct(ps) && Distinct(qs)
    && (forall n | n in out :: n !in ps && n !in qs)
    && (forall n | n in ps :: n !in qs)
  }

  lemma TakeFirst(out: seq<Node>, ps: seq<Node>, qs: seq<Node>)
    requires Apart(out, ps, qs) && ps != []
    ensures Apart(out + [ps[0]], ps[1..], qs) && ps[0] !in out
  {
    HeadLeaves(ps);
    DistinctAppend(out, ps[0]);
  }

  lemma TakeSecond(out: seq<Node>, ps: seq<Node>, qs: seq<Node>)
    requires Apart(out, ps, qs) && qs != []
    ensures Apart(out + [qs[0]], ps, qs[1..]) && qs[0] !in out
  {
    HeadLeaves(qs);
    DistinctAppend(out, qs[0]);
  }

  lemma HeadLeaves(s: seq<Node>)
    requires s != [] && Distinct(s)
    ensures s[0] in s && s[0] !in s[1..] && Distinct(s[1..]) && forall n | n in s[1..] :: n in s
  {
  }

  lemma DistinctAppend(s: seq<Node>, n: Node)
    requires Distinct(s) && n !in s
    ensures Distinct(s + [n])
  {
  }

  /** Append one node to the output list; the inputs `ps` and `qs` are not disturbed. */
  method Emit(e: Node, tail: Node?, ghost out: seq<Node>, ghost ps: seq<Node>, ghost qs: seq<Node>)
    requires OutLinks(out) && tail == At(out, |out| - 1) && e !in out
    requires Apart(out + [e], ps, qs) && RunLinks(ps) && NextLinks(qs)
    modifies (if tail == null then {} else {tail})`next, e`prev
    ensures OutLinks(out + [e]) && RunLinks(ps) && NextLinks(qs)
  {
    assert tail != null ==> tail in out + [e];
    if tail != null {
      tail.next := e;
    }
    e.prev := tail;
  }

  /** The inner for-loop: the start of the second run and the length of the first. */
  method Advance(p: Node, insize: nat, ghost rest: seq<Node>) returns (q: Node?, psize: nat)
    requires insize > 0 && p == At(rest, 0) && NextLinks(rest)
    ensures psize == Min(insize, |rest|) && q == At(rest, psize)
  {
    q, psize := p, 0;
    var i := 0;
    while i < insize
      invariant psize == i <= insize && i <= |rest| && q == At(rest, i)
      invariant q != null
    {
      psize := psize + 1;
      q := q.next;
      if q == null {
        break;
      }
      i := i + 1;
    }
  }

  /** Stepping from the first node of a run to the next. */
  lemma RunAfterHead(s: seq<Node>)
    requires s != [] && RunLinks(s)
    ensures s[0] in s && RunLinks(s[1..]) && (s[1..] != [] ==> s[0].next == s[1..][0])
  {
  }

  /** Head and tail of the output list after one more node. */
  lemma Ends(out: seq<Node>, e: Node)
    ensures At(out + [e], |out + [e]| - 1) == e
    ensures At(out + [e], 0) == if At(out, |out| - 1) == null then e else At(out, 0)
  {
  }

  lemma NextAfterHead(s: seq<Node>, rest: seq<Node>)
    requires s != [] && NextLinks(s + rest)
    ensures s[0] in s && (s + rest)[1..] == s[1..] + rest && (s + rest)[0] == s[0]
    ensures NextLinks(s[1..] + rest) && s[0].next == At(s[1..] + rest, 0)
  {
    assert (s + rest)[1..] == s[1..] + rest;
    assert (s + rest)[0].next == At(s + rest, 1);
  }

  /** One merge of two runs onto the output.  `ps` is the first run, `qs` the second,
      `rest` what follows it. */
  method MergeRuns(cmp: (Node, Node) -> int, p0: Node?, q0: Node?, psize0: nat, insize: nat,
                   list0: Node?, tail0: Node?,
                   ghost out0: seq<Node>, ghost ps0: seq<Node>, ghost qs0: seq<Node>, ghost rest: seq<Node>)
    returns (q: Node?, list: Node?, tail: Node?, ghost out: seq<Node>)
    requires psize0 == |ps0| && p0 == At(ps0, 0) && RunLinks(ps0)
    requires q0 == At(qs0 + rest, 0) && NextLinks(qs0 + rest)
    requires |qs0| <= insize && (|qs0| < insize ==> rest == [])
    requires OutLinks(out0) && tail0 == At(out0, |out0| - 1) && list0 == At(out0, 0)
    requires Apart(out0, ps0, qs0 + rest)
    modifies out0`next, ps0`next, ps0`prev, qs0`next, qs0`prev
    ensures out == out0 + Merge(cmp, ps0, qs0)
    ensures q == At(rest, 0) && NextLinks(rest)
    ensures OutLinks(out) && tail == At(out, |out| - 1) && list == At(out, 0)
    ensures Apart(out, [], rest)
    ensures forall n | n in out :: n in out0 || n in ps0 || n in qs0
  {
    hide Merge, OutLinks, Apart, RunLinks, NextLinks;
    var p, psize, qsize := p0, psize0, insize;
    q, list, tail, out := q0, list0, tail0, out0;
    ghost var ps, qs := ps0, qs0;
    while psize != 0 || (qsize != 0 && q != null)
      invariant psize == |ps| && (ps != [] ==> p == ps[0]) && RunLinks(ps)
      invariant q == At(qs + rest, 0) && NextLinks(qs + rest)
      invariant |qs| <= qsize && (|qs| < qsize ==> rest == [])
      invariant OutLinks(out) && tail == At(out, |out| - 1) && list == At(out, 0)
      invariant Apart(out, ps, qs + rest)
      invariant forall n | n in ps :: n in ps0
      invariant forall n | n in qs :: n in qs0
      invariant forall n | n in out :: n in out0 || n in ps0 || n in qs0
      invariant out + Merge(cmp, ps, qs) == out0 + Merge(cmp, ps0, qs0)
      decreases |ps| + |qs|
    {
      var e: Node;
      var fromQ := if psize == 0 then true
                   else if qsize == 0 || q == null then false
                   else cmp(p, q) > 0;
      if fromQ {
        TakeRight(cmp, out, ps, qs);
        TakeSecond(out, ps, qs + rest);
        NextAfterHead(qs, rest);
        e := q;
        q := q.next;
        qsize := qsize - 1;
        qs := qs[1..];
      } else {
        TakeLeft(cmp, out, ps, qs);
        TakeFirst(out, ps, qs + rest);
        RunAfterHead(ps);
        e := p;
        p := p.next;
        psize := psize - 1;
        ps := ps[1..];
      }
      assert tail != null ==> tail in out;
      Emit(e, tail, out, ps, qs + rest);
      Ends(out, e);
      if tail == null {
        list := e;
      }
      out := out + [e];
      tail := e;
    }
    assert qs + rest == rest;
  }

  /** One round of a pass: merge the first two runs of the remaining list `rest`. */
  method MergePair(cmp: (Node, Node) -> int, p: Node, insize: nat, list0: Node?, tail0: Node?,
                   ghost s: seq<Node>, ghost out0: seq<Node>, ghost rest: seq<Node>)
    returns (q: Node?, list: Node?, tail: Node?, ghost out: seq<Node>)
    requires insize > 0 && p == At(rest, 0) && NextLinks(rest)
    requires OutLinks(out0) && tail0 == At(out0, |out0| - 1) && list0 == At(out0, 0)
    requires Apart(out0, [], rest)
    requires (forall n | n in out0 :: n in s) && (forall n | n in rest :: n in s)
    modifies s`next, s`prev
    ensures var after := rest[Min(2 * insize, |rest|)..];
            && q == At(after, 0) && NextLinks(after) && Apart(out, [], after)
            && out + Pass(cmp, insize, after) == out0 + Pass(cmp, insize, rest)
    ensures OutLinks(out) && tail == At(out, |out| - 1) && list == At(out, 0)
    ensures forall n | n in out :: n in s
  {
    hide Pass, OutLinks, Apart, RunLinks, NextLinks, PrevLinks, Distinct, Merge;
    var psize;
    q, psize := Advance(p, insize, rest);
    ghost var k := Min(2 * insize, |rest|);
    SplitRuns(out0, rest, psize, k);
    PassStep(cmp, insize, out0, rest);
    assert forall i | 0 <= i < |out0| :: out0[i] in s;
    assert forall i | 0 <= i < |rest| :: rest[i] in s;
    q, list, tail, out := MergeRuns(cmp, p, q, psize, insize, list0, tail0,
                                    out0, rest[..psize], rest[psize..k], rest[k..]);
  }

  /** One pass over the whole list: runs of `insize` nodes are merged pairwise. */
  method MergePass(cmp: (Node, Node) -> int, head: Node, insize: nat, ghost s: seq<Node>)
    returns (list: Node?, tail: Node?, nmerges: nat)
    requires insize > 0 && head == At(s, 0) && Distinct(s) && NextLinks(s)
    modifies s`next, s`prev
    ensures var t := Pass(cmp, insize, s);
            && list == At(t, 0) && tail == At(t, |t| - 1)
            && Distinct(t) && NextLinks(t) && PrevLinks(t)
    ensures nmerges <= 1 <==> |s| <= 2 * insize
  {
    hide Pass, OutLinks, Apart, RunLinks, NextLinks, PrevLinks, Distinct, Merge;
    ghost var out, rest := [], s;
    var p: Node? := head;
    list, tail, nmerges := null, null, 0;
    PassStart(s);
    while p != null
      invariant p == At(rest, 0) && NextLinks(rest)
      invariant OutLinks(out) && tail == At(out, |out| - 1) && list == At(out, 0)
      invariant Apart(out, [], rest)
      invariant forall n | n in out :: n in s
      invariant forall n | n in rest :: n in s
      invariant out + Pass(cmp, insize, rest) == Pass(cmp, insize, s)
      invariant nmerges == 0 ==> rest == s
      invariant nmerges == 1 ==> |rest| == |s| - Min(2 * insize, |s|)
      invariant nmerges >= 2 ==> |s| > 2 * insize
      decreases |rest|
    {
      nmerges := nmerges + 1;
      ghost var k := Min(2 * insize, |rest|);
      p, list, tail, out := MergePair(cmp, p, insize, list, tail, s, out, rest);
      rest := rest[k..];
    }
    PassEnd(cmp, insize, out);
    assert forall i | 0 <= i < |out| :: out[i] in s;
    Terminate(tail, out);
  }

  /** The end of a pass: close the last forward link. */
  method Terminate(tail: Node?, ghost out: seq<Node>)
    requires OutLinks(out) && tail == At(out, |out| - 1)
    modifies out`next
    ensures Distinct(out) && NextLinks(out) && PrevLinks(out)
  {
    if tail != null {
      tail.next := null;
    }
  }

  lemma PassStart(s: seq<Node>)
    requires Distinct(s)
    ensures OutLinks([]) && Apart([], [], s)
  {
  }

  /** The two runs at the front of the remaining list. */
  lemma SplitRuns(out: seq<Node>, rest: seq<Node>, p: nat, k: nat)
    requires p <= k <= |rest| && NextLinks(rest) && Apart(out, [], rest)
    ensures RunLinks(rest[..p]) && rest[p..k] + rest[k..] == rest[p..] && NextLinks(rest[p..])
    ensures Apart(out, rest[..p], rest[p..])
    ensures At(rest[p..], 0) == At(rest, p) && (p > 0 ==> At(rest[..p], 0) == At(rest, 0))
  {
  }

  /** Unfolding one pair of runs of a pass. */
  lemma PassStep(cmp: (Node, Node) -> int, insize: nat, out: seq<Node>, rest: seq<Node>)
    requires insize > 0 && rest != []
    ensures var p, q := Min(insize, |rest|), Min(2 * insize, |rest|);
            out + Pass(cmp, insize, rest) ==
            (out + Merge(cmp, rest[..p], rest[p..q])) + Pass(cmp, insize, rest[q..])
  {
    hide Merge;
  }

  lemma PassEnd(cmp: (Node, Node) -> int, insize: nat, out: seq<Node>)
    requires insize > 0
    ensures out + Pass(cmp, insize, []) == out
  {
  }

  /** HASH_SRT on the list `s`: it becomes the stable bottom-up mergesort of `s`. */
  method Sort(cmp: (Node, Node) -> int, head: Node, ghost s: seq<Node>)
    returns (list: Node?, tail: Node?)
    requires head == At(s, 0) && Distinct(s) && NextLinks(s)
    modifies s`next, s`prev
    ensures var t := SortFrom(cmp, 1, s);
            && list == At(t, 0) && tail == At(t, |t| - 1)
            && Distinct(t) && NextLinks(t) && PrevLinks(t)
  {
    hide Pass, NextLinks, PrevLinks, Distinct;
    var insize, looping := 1, true;
    ghost var cur := s;
    list, tail := head, null;
    while looping
      invariant insize > 0 && |cur| == |s| && (forall n | n in cur :: n in s)
      invariant list == At(cur, 0) && Distinct(cur) && NextLinks(cur)
      invariant looping ==> SortFrom(cmp, insize, cur) == SortFrom(cmp, 1, s)
      invariant !looping ==> cur == SortFrom(cmp, 1, s) && tail == At(cur, |cur| - 1) && PrevLinks(cur)
      decreases looping, |s| - insize
    {
      var nmerges;
      ghost var next := Pass(cmp, insize, cur);
      PassKeeps(cmp, insize, cur);
      assert forall i | 0 <= i < |cur| :: cur[i] in s;
      list, tail, nmerges := MergePass(cmp, list, insize, cur);
      cur := next;
      if nmerges <= 1 {
        looping := false;
      }
      insize := insize * 2;
    }
  }

  lemma PassKeeps(cmp: (Node, Node) -> int, k: nat, s: seq<Node>)
    requires k > 0
    ensures forall n | n in Pass(cmp, k, s) :: n in s
  {
    PassPermutes(cmp, k, s);
    hide Pass;
    var t := Pass(cmp, k, s);
    forall n | n in t
      ensures n in s
    {
      assert n in multiset(t);
      assert n in multiset(s);
    }
  }
}
