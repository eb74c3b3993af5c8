/** The operations of `include/list/list.h` that are built from `insert`
    and `erase`, as functions on the arena of module `ListArena`.  Each one
    follows the loop of the source step by step (its recursion is that
    loop), and its contract states what the loop achieves on the elements. */
module ListOps {
  import opened ListSpec
  import opened ListLinks
  import opened ListArena

  /** `count` copies of `v`. */
  function Fill<T>(count: nat, v: T): (r: seq<T>)
    ensures |r| == count && forall i :: 0 <= i < count ==> r[i] == v
  {
    seq(count, _ => v)
  }

  /** One copy more is one copy appended. */
  lemma FillAppend<T>(k: nat, v: T)
    ensures Fill(k + 1, v) == Fill(k, v) + [v]
  {
  }

  /** A prefix one longer is the prefix and one element. */
  lemma TakeSnoc<T>(xs: seq<T>, i: nat)
    requires i < |xs|
    ensures xs[..i + 1][..i] == xs[..i] && xs[..i + 1][i] == xs[i] && xs[..0] == [] && xs[..|xs|] == xs
  {
  }

  /** The node numbers `n, n + 1, ..., n + k - 1`: what `k` calls of
      `create_node` hand out in turn. */
  function FreshNodes(n: nat, k: nat): (r: seq<nat>)
    ensures |r| == k && forall i :: 0 <= i < k ==> r[i] == n + i
  {
    seq(k, i => n + i)
  }

  /** The last of `k` fresh nodes is `n + k - 1`. */
  lemma FreshSnoc(n: nat, k: nat, m: nat)
    requires k > 0 && m == n + k - 1
    ensures FreshNodes(n, k) == FreshNodes(n, k - 1) + [m]
  {
  }

  /** `insert(pos, first, last)` with the range given as `xs`, and
      `insert(pos, count, value)` with `xs` the copies: each element is
      inserted before `pos` in turn, the `i`-th one at position `p + i`.
      The elements of `xs` appear at position `p`, in order, in fresh
      nodes; `pos` is now at position `p + |xs|` and the first inserted
      node, if any, at `p`; every other list is untouched. */
  ghost function InsertedAll<T>(h: Arena<T>, s: nat, p: nat, xs: seq<T>): (r: Arena<T>)
    requires Wf(h) && IsList(h, s) && p <= |h.ls[s]|
    ensures Wf(r) && Untouched(h, r, {s}) && IsList(r, s) && |r.nx| == |h.nx| + |xs|
    ensures r.ls[s] == h.ls[s][..p] + FreshNodes(|h.nx|, |xs|) + h.ls[s][p..]
    decreases |xs|
  {
    if xs == [] then
      InsertNone(h.ls[s], p);
      h
    else
      var k := |xs| - 1;
      var h1 := InsertedAll(h, s, p, xs[..k]);
      var r := Inserted(h1, s, p + k, xs[k]);
      FreshSnoc(|h.nx|, |xs|, |h1.nx|);
      InsertNext(h.ls[s], p, FreshNodes(|h.nx|, k), |h1.nx|, FreshNodes(|h.nx|, |xs|), h1.ls[s], r.ls[s]);
      UntouchedTrans(h, h1, r, {s});
      r
  }

  /** The elements of `xs` appear at position `p`, in order; `pos` is now
      at position `p + |xs|` and the first inserted node, if any, at `p`. */
  lemma {:induction false} InsertedAllElems<T>(h: Arena<T>, s: nat, p: nat, xs: seq<T>)
    requires Wf(h) && IsList(h, s) && p <= |h.ls[s]|
    ensures var r := InsertedAll(h, s, p, xs);
      && Elems(r, s) == Elems(h, s)[..p] + xs + Elems(h, s)[p..]
      && NodeAt(s, r.ls[s], p + |xs|) == NodeAt(s, h.ls[s], p)
      && (xs != [] ==> NodeAt(s, r.ls[s], p) == |h.nx|)
    decreases |xs|
  {
    NodeAtRun(s, h.ls[s], p, FreshNodes(|h.nx|, |xs|));
    if xs == [] {
      InsertNone(Elems(h, s), p);
    } else {
      var k := |xs| - 1;
      var h1 := InsertedAll(h, s, p, xs[..k]);
      InsertedAllElems(h, s, p, xs[..k]);
      Snoc(xs);
      InsertNext(Elems(h, s), p, xs[..k], xs[k], xs, Elems(h1, s), Elems(Inserted(h1, s, p + k, xs[k]), s));
    }
  }

  /** `erase(first, last)` for `first` at position `f` and `last` at
      `f + k`: the element at position `f` is erased `k` times. */
  ghost function ErasedRun<T>(h: Arena<T>, s: nat, f: nat, k: nat): (r: Arena<T>)
    requires Wf(h) && IsList(h, s) && f + k <= |h.ls[s]|
    ensures Wf(r) && IsList(r, s) && |r.ls[s]| == |h.ls[s]| - k && |r.nx| == |h.nx|
    decreases k
  {
    if k == 0 then h else Erased(ErasedRun(h, s, f, k - 1), s, f)
  }

  /** The nodes in `[f, f + k)` are cut out. */
  lemma {:induction false} ErasedRunNodes<T>(h: Arena<T>, s: nat, f: nat, k: nat)
    requires Wf(h) && IsList(h, s) && f + k <= |h.ls[s]|
    ensures ErasedRun(h, s, f, k).ls[s] == h.ls[s][..f] + h.ls[s][f + k..]
    decreases k
  {
    if k == 0 {
      EraseNone(h.ls[s], f);
    } else {
      ErasedRunNodes(h, s, f, k - 1);
      EraseNext(h.ls[s], f, f + (k - 1), f + k, ErasedRun(h, s, f, k - 1).ls[s]);
    }
  }

  /** The elements in `[f, f + k)` are cut out. */
  lemma {:induction false} ErasedRunElems<T>(h: Arena<T>, s: nat, f: nat, k: nat)
    requires Wf(h) && IsList(h, s) && f + k <= |h.ls[s]|
    ensures Elems(ErasedRun(h, s, f, k), s) == Elems(h, s)[..f] + Elems(h, s)[f + k..]
    decreases k
  {
    if k == 0 {
      EraseNone(Elems(h, s), f);
    } else {
      ErasedRunElems(h, s, f, k - 1);
      EraseNext(Elems(h, s), f, f + (k - 1), f + k, Elems(ErasedRun(h, s, f, k - 1), s));
    }
  }

  /** Erasing from list `s` leaves every other list alone. */
  lemma {:induction false} ErasedRunUntouched<T>(h: Arena<T>, s: nat, f: nat, k: nat)
    requires Wf(h) && IsList(h, s) && f + k <= |h.ls[s]|
    ensures Untouched(h, ErasedRun(h, s, f, k), {s})
    decreases k
  {
    if k > 0 {
      ErasedRunUntouched(h, s, f, k - 1);
      UntouchedTrans(h, ErasedRun(h, s, f, k - 1), ErasedRun(h, s, f, k), {s});
    }
  }

  /** What `erase(first, last)` does: the elements in `[f, f + k)` are gone,
      `last` is now at position `f`, and every other list is untouched. */
  lemma ErasedRunStep<T>(h: Arena<T>, s: nat, f: nat, k: nat)
    requires Wf(h) && IsList(h, s) && f + k <= |h.ls[s]|
    ensures var r := ErasedRun(h, s, f, k);
      && Untouched(h, r, {s}) && IsList(r, s)
      && r.ls[s] == h.ls[s][..f] + h.ls[s][f + k..]
      && Elems(r, s) == Elems(h, s)[..f] + Elems(h, s)[f + k..]
      && NodeAt(s, r.ls[s], f) == NodeAt(s, h.ls[s], f + k)
  {
    ErasedRunNodes(h, s, f, k);
    ErasedRunElems(h, s, f, k);
    ErasedRunUntouched(h, s, f, k);
    NodeAtCut(s, h.ls[s], f, f + k);
  }

  /** `resize(count, value)`: a longer list is cut back to its first
      `count` elements by `erase(advance(begin(), count), end())`, a shorter
      one is padded by `push_back(value)` until it has `count`. */
  ghost function Resized<T>(h: Arena<T>, s: nat, count: nat, v: T): (r: Arena<T>)
    requires Wf(h) && IsList(h, s)
    ensures Wf(r) && Untouched(h, r, {s}) && IsList(r, s)
    ensures var c := Elems(h, s);
      Elems(r, s) == if count < |c| then c[..count] else c + Fill(count - |c|, v)
  {
    var n := |h.ls[s]|;
    if count < n then
      EraseTail(Elems(h, s), count, count + (n - count));
      ErasedRunStep(h, s, count, n - count);
      ErasedRun(h, s, count, n - count)
    else
      InsertEnd(Elems(h, s), n, Fill(count - n, v));
      InsertedAllElems(h, s, n, Fill(count - n, v));
      InsertedAll(h, s, n, Fill(count - n, v))
  }

  /** `push_back(value)`, that is `insert(end(), value)`: `value` becomes
      the last element. */
  ghost function PushedBack<T>(h: Arena<T>, s: nat, v: T): (r: Arena<T>)
    requires Wf(h) && IsList(h, s)
    ensures Wf(r) && Untouched(h, r, {s}) && IsList(r, s)
    ensures Elems(r, s) == Elems(h, s) + [v]
  {
    InsertEnd(Elems(h, s), |h.ls[s]|, [v]);
    Inserted(h, s, |h.ls[s]|, v)
  }

  /** A `push_back` after appending `xs` at the end appends `xs + [v]`. */
  lemma PushedBackAll<T>(h: Arena<T>, s: nat, xs: seq<T>, v: T)
    requires Wf(h) && IsList(h, s)
    ensures PushedBack(InsertedAll(h, s, |h.ls[s]|, xs), s, v) == InsertedAll(h, s, |h.ls[s]|, xs + [v])
  {
    var p, ys := |h.ls[s]|, xs + [v];
    assert ys[..|xs|] == xs && ys[|xs|] == v;
    var h1 := InsertedAll(h, s, p, xs);
    assert |h1.ls[s]| == p + |xs|;
    assert InsertedAll(h, s, p, ys) == Inserted(h1, s, p + |xs|, v);
  }

  /** `push_front(value)`, that is `insert(begin(), value)`: `value`
      becomes the first element. */
  ghost function PushedFront<T>(h: Arena<T>, s: nat, v: T): (r: Arena<T>)
    requires Wf(h) && IsList(h, s)
    ensures Wf(r) && Untouched(h, r, {s}) && IsList(r, s)
    ensures Elems(r, s) == [v] + Elems(h, s)
  {
    InsertFront(Elems(h, s), v);
    Inserted(h, s, 0, v)
  }

  /** `pop_back()`, that is `erase(--end())` on a non-empty list: the last
      element goes. */
  ghost function PoppedBack<T>(h: Arena<T>, s: nat): (r: Arena<T>)
    requires Wf(h) && IsList(h, s) && h.ls[s] != []
    ensures Wf(r) && Untouched(h, r, {s}) && IsList(r, s)
    ensures Elems(r, s) == Elems(h, s)[..|h.ls[s]| - 1]
  {
    var n := |h.ls[s]|;
    EraseTail(Elems(h, s), n - 1, (n - 1) + 1);
    Erased(h, s, n - 1)
  }

  /** `pop_front()`, that is `erase(begin())` on a non-empty list: the first
      element goes. */
  ghost function PoppedFront<T>(h: Arena<T>, s: nat): (r: Arena<T>)
    requires Wf(h) && IsList(h, s) && h.ls[s] != []
    ensures Wf(r) && Untouched(h, r, {s}) && IsList(r, s)
    ensures Elems(r, s) == Elems(h, s)[1..]
  {
    EraseFirst(Elems(h, s));
    Erased(h, s, 0)
  }

  /** The loop of `remove_if(pred)` from the iterator at position `p`: an
      element satisfying `pred` is erased (the iterator then designates its
      successor), any other is stepped over.  The elements before `p` stay;
      of the rest, those satisfying `pred` go. */
  ghost function RemoveFrom<T>(h: Arena<T>, s: nat, pred: T -> bool, p: nat): (r: Arena<T>)
    requires Wf(h) && IsList(h, s) && p <= |h.ls[s]|
    ensures Wf(r) && Untouched(h, r, {s}) && IsList(r, s)
    ensures Elems(r, s) == Elems(h, s)[..p] + Kept(Elems(h, s)[p..], pred)
    decreases |h.ls[s]| - p
  {
    var c := Elems(h, s);
    if p == |h.ls[s]| then
      KeptEnds(c, pred);
      h
    else if pred(c[p]) then
      var h1 := Erased(h, s, p);
      var r := RemoveFrom(h1, s, pred, p);
      KeptDrop(c, p, pred, Elems(h1, s));
      UntouchedTrans(h, h1, r, {s});
      r
    else
      KeptStep(c, p, pred);
      RemoveFrom(h, s, pred, p + 1)
  }

  /** `remove_if(pred)`: exactly the elements satisfying `pred` go, the
      others keep their order; every other list is untouched. */
  ghost function RemovedIf<T>(h: Arena<T>, s: nat, pred: T -> bool): (r: Arena<T>)
    requires Wf(h) && IsList(h, s)
    ensures Wf(r) && Untouched(h, r, {s}) && IsList(r, s)
    ensures Elems(r, s) == Kept(Elems(h, s), pred)
  {
    KeptEnds(Elems(h, s), pred);
    RemoveFrom(h, s, pred, 0)
  }

  /** The loop of `unique(pred)` with `it` at position `p` and `prev` at
      `p - 1`: when `pred(*prev, *it)` holds `it` is erased, otherwise both
      step forward.  `prev` is always the last element kept. */
  ghost function UniqueFrom<T>(h: Arena<T>, s: nat, pred: (T, T) -> bool, p: nat): (r: Arena<T>)
    requires Wf(h) && IsList(h, s) && 1 <= p <= |h.ls[s]|
    ensures Wf(r) && Untouched(h, r, {s}) && IsList(r, s)
    ensures var c := Elems(h, s); Elems(r, s) == c[..p] + UniqueAfter(c[p - 1], c[p..], pred)
    decreases |h.ls[s]| - p
  {
    var c := Elems(h, s);
    if p == |h.ls[s]| then
      UniqueEnds(c, pred);
      h
    else if pred(c[p - 1], c[p]) then
      var h1 := Erased(h, s, p);
      var r := UniqueFrom(h1, s, pred, p);
      UniqueDrop(c, p, pred, Elems(h1, s));
      UntouchedTrans(h, h1, r, {s});
      r
    else
      UniqueStep(c, p, pred);
      UniqueFrom(h, s, pred, p + 1)
  }

  /** `unique(pred)`: a list of at most one element is left alone; otherwise
      the loop runs from `prev == begin()`.  The result is `Unique` of the
      elements; every other list is untouched. */
  ghost function Uniqued<T>(h: Arena<T>, s: nat, pred: (T, T) -> bool): (r: Arena<T>)
    requires Wf(h) && IsList(h, s)
    ensures Wf(r) && Untouched(h, r, {s}) && IsList(r, s)
    ensures Elems(r, s) == Unique(Elems(h, s), pred)
  {
    UniqueEnds(Elems(h, s), pred);
    if |h.ls[s]| <= 1 then h else UniqueFrom(h, s, pred, 1)
  }
}
