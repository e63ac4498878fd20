/** Bottom-up mergesort on sequences: the value that the in-place list sort of uthash
    computes, and the proof that it is a stable sort. */
module MergeSort {

  function Min(a: nat, b: nat): nat {
    if a <= b then a else b
  }

  /** Merge two runs, preferring the left one on ties. */
  function Merge<T>(cmp: (T, T) -> int, xs: seq<T>, ys: seq<T>): (r: seq<T>)
    ensures |r| == |xs| + |ys|
    decreases |xs| + |ys|
  {
    if xs == [] then ys
    else if ys == [] then xs
    else if cmp(xs[0], ys[0]) <= 0 then [xs[0]] + Merge(cmp, xs[1..], ys)
    else [ys[0]] + Merge(cmp, xs, ys[1..])
  }

  /** One pass over the list: neighbouring runs of length `k` are merged pairwise. */
  function Pass<T>(cmp: (T, T) -> int, k: nat, s: seq<T>): (r: seq<T>)
    requires k > 0
    ensures |r| == |s|
    decreases |s|
  {
    if s == [] then []
    else
      var p, q := Min(k, |s|), Min(2 * k, |s|);
      Merge(cmp, s[..p], s[p..q]) + Pass(cmp, k, s[q..])
  }

  /** Passes with doubling run length until one merge covers the list. */
  function SortFrom<T>(cmp: (T, T) -> int, k: nat, s: seq<T>): (r: seq<T>)
    requires k > 0
    ensures |r| == |s|
    decreases if |s| > k then |s| - k else 0
  {
    if |s| <= 2 * k then Pass(cmp, k, s) else SortFrom(cmp, 2 * k, Pass(cmp, k, s))
  }

  lemma Assoc<T>(a: seq<T>, b: seq<T>, c: seq<T>)
    ensures (a + b) + c == a + (b + c)
  {
  }

  /** One step of a merge takes the head of the left run ... */
  lemma MergeLeft<T>(cmp: (T, T) -> int, xs: seq<T>, ys: seq<T>)
    requires xs != [] && (ys == [] || cmp(xs[0], ys[0]) <= 0)
    ensures Merge(cmp, xs, ys) == [xs[0]] + Merge(cmp, xs[1..], ys)
  {
    assert xs == [xs[0]] + xs[1..];
  }

  /** ... or of the right one. */
  lemma MergeRight<T>(cmp: (T, T) -> int, xs: seq<T>, ys: seq<T>)
    requires ys != [] && (xs == [] || cmp(xs[0], ys[0]) > 0)
    ensures Merge(cmp, xs, ys) == [ys[0]] + Merge(cmp, xs, ys[1..])
  {
    assert ys == [ys[0]] + ys[1..];
  }

  lemma TakeLeft<T>(cmp: (T, T) -> int, out: seq<T>, xs: seq<T>, ys: seq<T>)
    requires xs != [] && (ys == [] || cmp(xs[0], ys[0]) <= 0)
    ensures out + Merge(cmp, xs, ys) == (out + [xs[0]]) + Merge(cmp, xs[1..], ys)
  {
    hide Merge;
    MergeLeft(cmp, xs, ys);
    Assoc(out, [xs[0]], Merge(cmp, xs[1..], ys));
  }

  lemma TakeRight<T>(cmp: (T, T) -> int, out: seq<T>, xs: seq<T>, ys: seq<T>)
    requires ys != [] && (xs == [] || cmp(xs[0], ys[0]) > 0)
    ensures out + Merge(cmp, xs, ys) == (out + [ys[0]]) + Merge(cmp, xs, ys[1..])
  {
    hide Merge;
    MergeRight(cmp, xs, ys);
    Assoc(out, [ys[0]], Merge(cmp, xs, ys[1..]));
  }

  /** What a comparison callback promises on the elements it is given. */
  ghost predicate Consistent<T>(cmp: (T, T) -> int, s: set<T>) {
    && (forall x, y | x in s && y in s :: cmp(x, y) > 0 <==> cmp(y, x) < 0)
    && (forall x, y, z | x in s && y in s && z in s ::
          cmp(x, y) <= 0 && cmp(y, z) <= 0 ==> cmp(x, z) <= 0)
  }

  ghost predicate Sorted<T>(cmp: (T, T) -> int, s: seq<T>) {
    forall i, j | 0 <= i < j < |s| :: cmp(s[i], s[j]) <= 0
  }

  /** Every run of length `k`, counted from the front, is sorted. */
  ghost predicate RunsSorted<T>(cmp: (T, T) -> int, k: nat, s: seq<T>)
    requires k > 0
    decreases |s|
  {
    s == [] ||
    (Sorted(cmp, s[..Min(k, |s|)]) && RunsSorted(cmp, k, s[Min(k, |s|)..]))
  }

  /** The elements of `s` that compare equal to `g`, in the order they have in `s`. */
  ghost function Class<T>(cmp: (T, T) -> int, g: T, s: seq<T>): seq<T> {
    if s == [] then []
    else (if cmp(g, s[0]) == 0 then [s[0]] else []) + Class(cmp, g, s[1..])
  }

  /** `t` is `s` rearranged into ascending order, equal elements keeping their order. */
  ghost predicate StableSortOf<T>(cmp: (T, T) -> int, s: seq<T>, t: seq<T>) {
    && multiset(t) == multiset(s)
    && Sorted(cmp, t)
    && forall g | g in s :: Class(cmp, g, t) == Class(cmp, g, s)
  }

  lemma {:induction false} MergePermutes<T>(cmp: (T, T) -> int, xs: seq<T>, ys: seq<T>)
    ensures multiset(Merge(cmp, xs, ys)) == multiset(xs) + multiset(ys)
    decreases |xs| + |ys|
  {
    hide Merge;
    if xs != [] && ys != [] {
      if cmp(xs[0], ys[0]) <= 0 {
        MergePermutes(cmp, xs[1..], ys);
        MergeLeft(cmp, xs, ys);
        assert xs == [xs[0]] + xs[1..];
      } else {
        MergePermutes(cmp, xs, ys[1..]);
        MergeRight(cmp, xs, ys);
        assert ys == [ys[0]] + ys[1..];
      }
    } else {
      MergeWithNone(cmp, xs, ys);
    }
  }

  lemma MergeWithNone<T>(cmp: (T, T) -> int, xs: seq<T>, ys: seq<T>)
    requires xs == [] || ys == []
    ensures Merge(cmp, xs, ys) == if xs == [] then ys else xs
  {
  }

  lemma {:induction false} PassPermutes<T>(cmp: (T, T) -> int, k: nat, s: seq<T>)
    requires k > 0
    ensures multiset(Pass(cmp, k, s)) == multiset(s)
    decreases |s|
  {
    if s != [] {
      var p, q := Min(k, |s|), Min(2 * k, |s|);
      MergePermutes(cmp, s[..p], s[p..q]);
      PassPermutes(cmp, k, s[q..]);
      var m, rest := Merge(cmp, s[..p], s[p..q]), Pass(cmp, k, s[q..]);
      assert Pass(cmp, k, s) == m + rest;
      hide Merge, Pass;
      ThreeParts(s, p, q);
    }
  }

  /** Whatever the callback answers, sorting only rearranges. */
  lemma {:induction false} SortPermutes<T>(cmp: (T, T) -> int, k: nat, s: seq<T>)
    requires k > 0
    ensures multiset(SortFrom(cmp, k, s)) == multiset(s)
    decreases if |s| > k then |s| - k else 0
  {
    PassPermutes(cmp, k, s);
    if |s| > 2 * k {
      SortPermutes(cmp, 2 * k, Pass(cmp, k, s));
    }
  }

  lemma InMerge<T>(cmp: (T, T) -> int, xs: seq<T>, ys: seq<T>, x: T)
    ensures x in Merge(cmp, xs, ys) <==> x in xs || x in ys
  {
    MergePermutes(cmp, xs, ys);
    assert x in multiset(Merge(cmp, xs, ys)) <==> x in multiset(xs) || x in multiset(ys);
  }

  /** Putting an element below all others in front keeps a sequence sorted. */
  lemma SortedCons<T>(cmp: (T, T) -> int, x: T, s: seq<T>)
    requires Sorted(cmp, s) && forall y | y in s :: cmp(x, y) <= 0
    ensures Sorted(cmp, [x] + s)
  {
  }

  lemma {:induction false} MergeSorts<T>(cmp: (T, T) -> int, dom: set<T>, xs: seq<T>, ys: seq<T>)
    requires Consistent(cmp, dom)
    requires (forall x | x in xs :: x in dom) && (forall y | y in ys :: y in dom)
    requires Sorted(cmp, xs) && Sorted(cmp, ys)
    ensures Sorted(cmp, Merge(cmp, xs, ys))
    decreases |xs| + |ys|
  {
    if xs != [] && ys != [] {
      var x, y := xs[0], ys[0];
      if cmp(x, y) <= 0 {
        MergeSorts(cmp, dom, xs[1..], ys);
        forall z | z in Merge(cmp, xs[1..], ys)
          ensures cmp(x, z) <= 0
        {
          InMerge(cmp, xs[1..], ys, z);
          HeadIsLeast(cmp, xs, z);
          HeadIsLeast(cmp, ys, z);
        }
        SortedCons(cmp, x, Merge(cmp, xs[1..], ys));
      } else {
        MergeSorts(cmp, dom, xs, ys[1..]);
        forall z | z in Merge(cmp, xs, ys[1..])
          ensures cmp(y, z) <= 0
        {
          InMerge(cmp, xs, ys[1..], z);
          HeadIsLeast(cmp, xs, z);
          HeadIsLeast(cmp, ys, z);
        }
        SortedCons(cmp, y, Merge(cmp, xs, ys[1..]));
      }
    }
  }

  lemma HeadIsLeast<T>(cmp: (T, T) -> int, s: seq<T>, z: T)
    requires s != [] && Sorted(cmp, s)
    ensures z in s ==> z == s[0] || cmp(s[0], z) <= 0
    ensures z in s[1..] ==> z in s && cmp(s[0], z) <= 0
  {
  }

  /** The part of a class that a single element makes up. */
  ghost function One<T>(cmp: (T, T) -> int, g: T, x: T): seq<T> {
    if cmp(g, x) == 0 then [x] else []
  }

  lemma ClassCons<T>(cmp: (T, T) -> int, g: T, x: T, s: seq<T>)
    ensures Class(cmp, g, [x] + s) == One(cmp, g, x) + Class(cmp, g, s)
  {
    assert ([x] + s)[1..] == s;
  }

  lemma {:induction false} ClassConcat<T>(cmp: (T, T) -> int, g: T, s: seq<T>, t: seq<T>)
    ensures Class(cmp, g, s + t) == Class(cmp, g, s) + Class(cmp, g, t)
  {
    if s == [] {
      assert s + t == t;
    } else {
      var x, r := s[0], s[1..];
      assert s == [x] + r;
      hide Class, One;
      ClassConcat(cmp, g, r, t);
      Assoc([x], r, t);
      ClassCons(cmp, g, x, r);
      ClassCons(cmp, g, x, r + t);
      Assoc(One(cmp, g, x), Class(cmp, g, r), Class(cmp, g, t));
    }
  }

  lemma {:induction false} ClassEmptyAbove<T>(cmp: (T, T) -> int, g: T, s: seq<T>)
    requires forall x | x in s :: cmp(g, x) != 0
    ensures Class(cmp, g, s) == []
  {
    if s != [] {
      assert s[0] in s;
      ClassEmptyAbove(cmp, g, s[1..]);
    }
  }

  /** If the head of a sorted run is above `y`, nothing in the run equals `y`. */
  lemma RunAbove<T>(cmp: (T, T) -> int, dom: set<T>, g: T, xs: seq<T>, y: T)
    requires Consistent(cmp, dom) && g in dom && y in dom && forall x | x in xs :: x in dom
    requires xs != [] && Sorted(cmp, xs) && cmp(xs[0], y) > 0 && cmp(g, y) == 0
    ensures Class(cmp, g, xs) == []
  {
    forall z | z in xs
      ensures cmp(g, z) != 0
    {
      HeadIsLeast(cmp, xs, z);
    }
    ClassEmptyAbove(cmp, g, xs);
  }

  /** Merging keeps the order of equal elements: those of the left run come first. */
  lemma {:induction false} MergeIsStable<T>(
      cmp: (T, T) -> int, dom: set<T>, g: T, xs: seq<T>, ys: seq<T>)
    requires Consistent(cmp, dom) && g in dom
    requires (forall x | x in xs :: x in dom) && (forall y | y in ys :: y in dom)
    requires Sorted(cmp, xs)
    ensures Class(cmp, g, Merge(cmp, xs, ys)) == Class(cmp, g, xs) + Class(cmp, g, ys)
    decreases |xs| + |ys|
  {
    if xs == [] || ys == [] {
    } else if cmp(xs[0], ys[0]) <= 0 {
      var x, r := xs[0], xs[1..];
      assert xs == [x] + r && Merge(cmp, xs, ys) == [x] + Merge(cmp, r, ys);
      MergeIsStable(cmp, dom, g, r, ys);
      hide Class, One, Merge, Consistent, Sorted;
      ClassCons(cmp, g, x, Merge(cmp, r, ys));
      ClassCons(cmp, g, x, r);
      Assoc(One(cmp, g, x), Class(cmp, g, r), Class(cmp, g, ys));
    } else {
      var y, r := ys[0], ys[1..];
      assert ys == [y] + r && Merge(cmp, xs, ys) == [y] + Merge(cmp, xs, r);
      MergeIsStable(cmp, dom, g, xs, r);
      assert cmp(g, y) == 0 ==> Class(cmp, g, xs) == [] by {
        if cmp(g, y) == 0 {
          RunAbove(cmp, dom, g, xs, y);
        }
      }
      hide Class, Merge, Consistent, Sorted;
      ClassCons(cmp, g, y, Merge(cmp, xs, r));
      ClassCons(cmp, g, y, r);
    }
  }

  lemma RunsSortedSplit<T>(cmp: (T, T) -> int, k: nat, s: seq<T>)
    requires k > 0 && s != [] && RunsSorted(cmp, k, s)
    ensures var p, q := Min(k, |s|), Min(2 * k, |s|);
            Sorted(cmp, s[..p]) && Sorted(cmp, s[p..q]) && RunsSorted(cmp, k, s[q..])
  {
    var p, q := Min(k, |s|), Min(2 * k, |s|);
    var t := s[p..];
    if t != [] {
      assert t[..Min(k, |t|)] == s[p..q];
      assert t[Min(k, |t|)..] == s[q..];
    }
  }

  /** A pass over sorted runs doubles their length and keeps equal elements in order. */
  lemma {:induction false} PassSorts<T>(cmp: (T, T) -> int, dom: set<T>, k: nat, s: seq<T>)
    requires Consistent(cmp, dom) && (forall x | x in s :: x in dom)
    requires k > 0 && RunsSorted(cmp, k, s)
    ensures RunsSorted(cmp, 2 * k, Pass(cmp, k, s))
    decreases |s|
  {
    if s != [] {
      var p, q := Min(k, |s|), Min(2 * k, |s|);
      RunsSortedSplit(cmp, k, s);
      MergeSorts(cmp, dom, s[..p], s[p..q]);
      PassSorts(cmp, dom, k, s[q..]);
      var r := Pass(cmp, k, s);
      assert r[..q] == Merge(cmp, s[..p], s[p..q]) && r[q..] == Pass(cmp, k, s[q..]);
    }
  }

  lemma ThreeParts<T>(s: seq<T>, p: nat, q: nat)
    requires p <= q <= |s|
    ensures s == (s[..p] + s[p..q]) + s[q..]
  {
  }

  lemma ClassOfThree<T>(cmp: (T, T) -> int, g: T, a: seq<T>, b: seq<T>, c: seq<T>)
    ensures Class(cmp, g, (a + b) + c) == (Class(cmp, g, a) + Class(cmp, g, b)) + Class(cmp, g, c)
  {
    hide Class;
    ClassConcat(cmp, g, a, b);
    ClassConcat(cmp, g, a + b, c);
  }

  lemma {:induction false} PassIsStable<T>(cmp: (T, T) -> int, dom: set<T>, g: T, k: nat, s: seq<T>)
    requires Consistent(cmp, dom) && g in dom && (forall x | x in s :: x in dom)
    requires k > 0 && RunsSorted(cmp, k, s)
    ensures Class(cmp, g, Pass(cmp, k, s)) == Class(cmp, g, s)
    decreases |s|
  {
    if s != [] {
      var p, q := Min(k, |s|), Min(2 * k, |s|);
      RunsSortedSplit(cmp, k, s);
      var m, rest := Merge(cmp, s[..p], s[p..q]), Pass(cmp, k, s[q..]);
      assert Pass(cmp, k, s) == m + rest;
      hide Merge, Pass, Class, Sorted;
      assert Class(cmp, g, m) == Class(cmp, g, s[..p]) + Class(cmp, g, s[p..q]) by {
        MergeIsStable(cmp, dom, g, s[..p], s[p..q]);
      }
      assert Class(cmp, g, rest) == Class(cmp, g, s[q..]) by {
        PassIsStable(cmp, dom, g, k, s[q..]);
      }
      ClassConcat(cmp, g, m, rest);
      ClassOfThree(cmp, g, s[..p], s[p..q], s[q..]);
      ThreeParts(s, p, q);
    }
  }

  lemma {:induction false} SingletonRuns<T>(cmp: (T, T) -> int, s: seq<T>)
    ensures RunsSorted(cmp, 1, s)
  {
    if s != [] {
      SingletonRuns(cmp, s[1..]);
    }
  }

  lemma SameElements<T>(s: seq<T>, t: seq<T>)
    requires multiset(s) == multiset(t)
    ensures (forall x | x in s :: x in t) && (forall x | x in t :: x in s)
  {
    forall x | x in s
      ensures x in t
    {
      assert x in multiset(s);
      assert x in multiset(t);
    }
    forall x | x in t
      ensures x in s
    {
      assert x in multiset(t);
      assert x in multiset(s);
    }
  }

  lemma ElementsWithin<T>(s: seq<T>, t: seq<T>, dom: set<T>)
    requires multiset(t) == multiset(s) && forall x | x in s :: x in dom
    ensures forall x | x in t :: x in dom
  {
    SameElements(s, t);
  }

  /** `t` rearranges `s` without changing the order of equal elements. */
  ghost predicate StableShuffle<T>(cmp: (T, T) -> int, s: seq<T>, t: seq<T>) {
    multiset(t) == multiset(s) && forall g | g in s :: Class(cmp, g, t) == Class(cmp, g, s)
  }

  lemma PassShuffles<T>(cmp: (T, T) -> int, dom: set<T>, k: nat, s: seq<T>)
    requires Consistent(cmp, dom) && (forall x | x in s :: x in dom)
    requires k > 0 && RunsSorted(cmp, k, s)
    ensures StableShuffle(cmp, s, Pass(cmp, k, s))
  {
    PassPermutes(cmp, k, s);
    forall g | g in s
      ensures Class(cmp, g, Pass(cmp, k, s)) == Class(cmp, g, s)
    {
      PassIsStable(cmp, dom, g, k, s);
    }
  }

  lemma ShuffleThenSort<T>(cmp: (T, T) -> int, s: seq<T>, t: seq<T>, r: seq<T>)
    requires StableShuffle(cmp, s, t) && StableSortOf(cmp, t, r)
    ensures StableSortOf(cmp, s, r)
  {
    SameElements(s, t);
  }

  lemma {:induction false} SortFromIsStable<T>(cmp: (T, T) -> int, dom: set<T>, k: nat, s: seq<T>)
    requires Consistent(cmp, dom) && (forall x | x in s :: x in dom)
    requires k > 0 && RunsSorted(cmp, k, s)
    ensures StableSortOf(cmp, s, SortFrom(cmp, k, s))
    decreases if |s| > k then |s| - k else 0
  {
    var t := Pass(cmp, k, s);
    PassShuffles(cmp, dom, k, s);
    PassSorts(cmp, dom, k, s);
    if |s| <= 2 * k {
      OneRun(cmp, 2 * k, t);
      assert StableSortOf(cmp, s, t);
    } else {
      ElementsWithin(s, t, dom);
      SortFromIsStable(cmp, dom, 2 * k, t);
      ShuffleThenSort(cmp, s, t, SortFrom(cmp, 2 * k, t));
    }
  }

  lemma OneRun<T>(cmp: (T, T) -> int, k: nat, s: seq<T>)
    requires k > 0 && |s| <= k && RunsSorted(cmp, k, s)
    ensures Sorted(cmp, s)
  {
    assert s[..|s|] == s;
  }

  /** The bottom-up mergesort, started with runs of one element, is a stable sort. */
  lemma SortIsStable<T>(cmp: (T, T) -> int, s: seq<T>)
    requires Consistent(cmp, set x | x in s)
    ensures StableSortOf(cmp, s, SortFrom(cmp, 1, s))
  {
    SingletonRuns(cmp, s);
    SortFromIsStable(cmp, set x | x in s, 1, s);
  }
}
