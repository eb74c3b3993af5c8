/** Value-level specifications of the algorithms of `include/list/list.h`:
    what `reverse`, `remove_if`, `unique`, `merge` and `sort` do to the
    sequence of elements, independent of how the nodes are relinked. */
module ListSpec {
  import opened Orders

  /** The elements in reverse order. */
  function Rev<T>(s: seq<T>): (r: seq<T>)
    ensures |r| == |s|
  {
    seq(|s|, i requires 0 <= i < |s| => s[|s| - 1 - i])
  }

  /** Reversing twice restores the original order. */
  lemma RevRev<T>(s: seq<T>)
    ensures Rev(Rev(s)) == s
  {
  }

  /** A sequence of at most one element is its own reverse. */
  lemma RevShort<T>(s: seq<T>)
    requires |s| <= 1
    ensures Rev(s) == s
  {
  }

  /** The elements of `s` that do not satisfy `p`, in their original order:
      what `remove_if(p)` leaves. */
  function Kept<T>(s: seq<T>, p: T -> bool): seq<T>
  {
    if s == [] then [] else (if p(s[0]) then [] else [s[0]]) + Kept(s[1..], p)
  }

  /** `Kept` keeps exactly the elements that fail `p`, never more than there
      were, and all of them exactly when none satisfies `p`. */
  lemma {:induction false} KeptSpec<T>(s: seq<T>, p: T -> bool)
    ensures forall x :: x in Kept(s, p) ==> x in s && !p(x)
    ensures forall x :: x in s && !p(x) ==> x in Kept(s, p)
    ensures multiset(Kept(s, p)) <= multiset(s)
    ensures |Kept(s, p)| <= |s|
    ensures |Kept(s, p)| == |s| <==> forall i :: 0 <= i < |s| ==> !p(s[i])
  {
    if s != [] {
      var t := s[1..];
      assert s == [s[0]] + t;
      KeptSpec(t, p);
      if forall i :: 0 <= i < |s| ==> !p(s[i]) {
        assert forall i :: 0 <= i < |t| ==> !p(t[i]) by {
          forall i | 0 <= i < |t| ensures !p(t[i]) {
            assert t[i] == s[i + 1];
          }
        }
      }
      if |Kept(s, p)| == |s| {
        forall i | 0 <= i < |s| ensures !p(s[i]) {
          if i > 0 {
            assert s[i] == t[i - 1];
          }
        }
      }
    }
  }

  /** A step of the `remove_if` loop at position `p`: erasing an element
      that satisfies `pred` does not change what ends up kept. */
  lemma KeptDrop<T>(c: seq<T>, p: nat, pred: T -> bool, c1: seq<T>)
    requires p < |c| && pred(c[p]) && c1 == c[..p] + c[p + 1..]
    ensures c1[..p] + Kept(c1[p..], pred) == c[..p] + Kept(c[p..], pred)
  {
    assert c1[..p] == c[..p];
    assert c1[p..] == c[p + 1..] == c[p..][1..];
  }

  /** A step of the `remove_if` loop at position `p`: stepping over an
      element that fails `pred` keeps it. */
  lemma KeptStep<T>(c: seq<T>, p: nat, pred: T -> bool)
    requires p < |c| && !pred(c[p])
    ensures c[..p + 1] + Kept(c[p + 1..], pred) == c[..p] + Kept(c[p..], pred)
  {
    assert c[p + 1..] == c[p..][1..];
    assert c[..p + 1] == c[..p] + [c[p]];
  }

  /** The `remove_if` loop starts at position 0 and stops at the end. */
  lemma KeptEnds<T>(c: seq<T>, pred: T -> bool)
    ensures c[..0] + Kept(c[0..], pred) == Kept(c, pred)
    ensures c[..|c|] + Kept(c[|c|..], pred) == c
  {
    assert c[..0] == [] && c[0..] == c;
    assert c[..|c|] == c && c[|c|..] == [];
  }

  /** Kept is idempotent: removing the same elements a second time removes
      nothing. */
  lemma {:induction false} KeptIdempotent<T>(s: seq<T>, p: T -> bool)
    ensures Kept(Kept(s, p), p) == Kept(s, p)
  {
    KeptSpec(s, p);
    var r := Kept(s, p);
    KeptSpec(r, p);
    assert forall i :: 0 <= i < |r| ==> !p(r[i]) by {
      forall i | 0 <= i < |r| ensures !p(r[i]) {
        assert r[i] in Kept(s, p);
      }
    }
    KeptAll(r, p);
  }

  /** When no element satisfies `p`, `Kept` removes nothing. */
  lemma {:induction false} KeptAll<T>(s: seq<T>, p: T -> bool)
    requires forall i :: 0 <= i < |s| ==> !p(s[i])
    ensures Kept(s, p) == s
  {
    if s != [] {
      assert forall i :: 0 <= i < |s[1..]| ==> !p(s[1..][i]) by {
        forall i | 0 <= i < |s[1..]| ensures !p(s[1..][i]) {
          assert s[1..][i] == s[i + 1];
        }
      }
      KeptAll(s[1..], p);
      assert [s[0]] + s[1..] == s;
    }
  }

  /** What `unique(p)` keeps of `s` when the last element kept before it is
      `x`: an element `y` is dropped when `p(x, y)` holds for the last kept
      `x`, and otherwise becomes the last kept. */
  function UniqueAfter<T>(x: T, s: seq<T>, p: (T, T) -> bool): (r: seq<T>)
    ensures |r| <= |s|
    ensures multiset(r) <= multiset(s)
  {
    if s == [] then []
    else
      assert s == [s[0]] + s[1..];
      if p(x, s[0]) then UniqueAfter(x, s[1..], p) else [s[0]] + UniqueAfter(s[0], s[1..], p)
  }

  /** The result of `unique(p)`: the first element stays, and after it
      every element equivalent under `p` to the last kept one is dropped. */
  function Unique<T>(s: seq<T>, p: (T, T) -> bool): (r: seq<T>)
    ensures |r| <= |s|
    ensures |s| > 0 ==> |r| > 0 && r[0] == s[0]
    ensures multiset(r) <= multiset(s)
  {
    if s == [] then []
    else
      assert s == [s[0]] + s[1..];
      [s[0]] + UniqueAfter(s[0], s[1..], p)
  }

  /** A step of the `unique` loop at position `p`, `prev` at `p - 1`:
      erasing an element equivalent to the last kept one does not change
      what ends up kept. */
  lemma UniqueDrop<T>(c: seq<T>, p: nat, pred: (T, T) -> bool, c1: seq<T>)
    requires 1 <= p < |c| && pred(c[p - 1], c[p]) && c1 == c[..p] + c[p + 1..]
    ensures c1[..p] + UniqueAfter(c1[p - 1], c1[p..], pred) == c[..p] + UniqueAfter(c[p - 1], c[p..], pred)
  {
    assert c1[..p] == c[..p];
    assert c1[p - 1] == c[p - 1];
    assert c1[p..] == c[p + 1..] == c[p..][1..];
  }

  /** A step of the `unique` loop at position `p`: an element not
      equivalent to the last kept one is kept and becomes the last kept. */
  lemma UniqueStep<T>(c: seq<T>, p: nat, pred: (T, T) -> bool)
    requires 1 <= p < |c| && !pred(c[p - 1], c[p])
    ensures c[..p + 1] + UniqueAfter(c[p], c[p + 1..], pred) == c[..p] + UniqueAfter(c[p - 1], c[p..], pred)
  {
    assert c[p + 1..] == c[p..][1..];
    assert c[..p + 1] == c[..p] + [c[p]];
  }

  /** The `unique` loop starts with `prev` at the front and stops at the
      end; a list of at most one element is left as it is. */
  lemma UniqueEnds<T>(c: seq<T>, pred: (T, T) -> bool)
    ensures |c| <= 1 ==> Unique(c, pred) == c
    ensures |c| >= 1 ==> c[..1] + UniqueAfter(c[0], c[1..], pred) == Unique(c, pred)
    ensures |c| >= 1 ==> c[..|c|] + UniqueAfter(c[|c| - 1], c[|c|..], pred) == c
  {
    if |c| >= 1 {
      assert c[..1] == [c[0]];
      assert c[..|c|] == c && c[|c|..] == [];
    }
  }

  /** No two neighbours of `UniqueAfter(x, s)` satisfy `p`, and neither does
      `x` with its first element. */
  lemma {:induction false} UniqueAfterNoNeighbours<T>(x: T, s: seq<T>, p: (T, T) -> bool)
    ensures var r := UniqueAfter(x, s, p);
      (r != [] ==> !p(x, r[0])) && forall i :: 0 < i < |r| ==> !p(r[i - 1], r[i])
  {
    if s != [] {
      if p(x, s[0]) {
        UniqueAfterNoNeighbours(x, s[1..], p);
      } else {
        UniqueAfterNoNeighbours(s[0], s[1..], p);
        var t := UniqueAfter(s[0], s[1..], p);
        var r := [s[0]] + t;
        forall i | 0 < i < |r| ensures !p(r[i - 1], r[i]) {
          if i > 1 {
            assert r[i - 1] == t[i - 2] && r[i] == t[i - 1];
          }
        }
      }
    }
  }

  /** No two neighbours of `unique`'s result satisfy `p`. */
  lemma {:induction false} UniqueNoNeighbours<T>(s: seq<T>, p: (T, T) -> bool)
    ensures forall i :: 0 < i < |Unique(s, p)| ==> !p(Unique(s, p)[i - 1], Unique(s, p)[i])
  {
    if s != [] {
      UniqueAfterNoNeighbours(s[0], s[1..], p);
      var t := UniqueAfter(s[0], s[1..], p);
      var r := [s[0]] + t;
      forall i | 0 < i < |r| ensures !p(r[i - 1], r[i]) {
        if i > 1 {
          assert r[i - 1] == t[i - 2] && r[i] == t[i - 1];
        }
      }
    }
  }

  /** `unique` leaves a sequence untouched exactly when no neighbours of it
      satisfy `p` (only if: its result has no such neighbours). */
  lemma {:induction false} UniqueFixpoint<T>(s: seq<T>, p: (T, T) -> bool)
    ensures Unique(s, p) == s <==> forall i :: 0 < i < |s| ==> !p(s[i - 1], s[i])
  {
    UniqueNoNeighbours(s, p);
    if s != [] && forall i :: 0 < i < |s| ==> !p(s[i - 1], s[i]) {
      UniqueAfterKeepsAll(s[0], s[1..], p);
      assert [s[0]] + s[1..] == s;
    }
  }

  /** Without neighbours satisfying `p`, `UniqueAfter` keeps everything. */
  lemma {:induction false} UniqueAfterKeepsAll<T>(x: T, s: seq<T>, p: (T, T) -> bool)
    requires s != [] ==> !p(x, s[0])
    requires forall i :: 0 < i < |s| ==> !p(s[i - 1], s[i])
    ensures UniqueAfter(x, s, p) == s
  {
    if s != [] {
      var t := s[1..];
      forall i | 0 < i < |t| ensures !p(t[i - 1], t[i]) {
        assert t[i - 1] == s[i] && t[i] == s[i + 1];
      }
      if t != [] {
        assert t[0] == s[1];
      }
      UniqueAfterKeepsAll(s[0], t, p);
      assert [s[0]] + t == s;
    }
  }

  /** Adjacent-pair sortedness under `lt`: no element is less than the one
      before it. */
  predicate Sorted<T>(s: seq<T>, lt: (T, T) -> bool)
  {
    forall i :: 0 < i < |s| ==> !lt(s[i], s[i - 1])
  }

  /** In a sorted sequence no element is less than the first one. */
  lemma {:induction false} SortedHead<T(!new)>(s: seq<T>, lt: (T, T) -> bool)
    requires StrictWeakOrder(lt) && Sorted(s, lt) && |s| > 0
    ensures forall i :: 0 <= i < |s| ==> !lt(s[i], s[0])
  {
    if |s| > 1 {
      SortedHead(s[1..], lt);
      forall i | 1 <= i < |s| ensures !lt(s[i], s[0]) {
        assert s[1..][i - 1] == s[i];
        NotLessTransitive(lt, s[0], s[1], s[i]);
      }
    }
  }

  /** The result of `merge(other, comp)`: from the two fronts the element of
      `b` is taken only when it is strictly less than the element of `a`. */
  function Merge<T>(a: seq<T>, b: seq<T>, lt: (T, T) -> bool): (r: seq<T>)
    ensures |r| == |a| + |b|
    ensures multiset(r) == multiset(a) + multiset(b)
    decreases |a| + |b|
  {
    if a == [] then b
    else if b == [] then a
    else if lt(b[0], a[0]) then
      assert b == [b[0]] + b[1..];
      [b[0]] + Merge(a, b[1..], lt)
    else
      assert a == [a[0]] + a[1..];
      [a[0]] + Merge(a[1..], b, lt)
  }

  /** Merging two sorted sequences gives a sorted sequence.  Only asymmetry of
      `lt` is needed. */
  lemma {:induction false} MergeSorted<T>(a: seq<T>, b: seq<T>, lt: (T, T) -> bool)
    requires forall x, y :: lt(x, y) ==> !lt(y, x)
    requires Sorted(a, lt) && Sorted(b, lt)
    ensures Sorted(Merge(a, b, lt), lt)
    decreases |a| + |b|
  {
    if a != [] && b != [] {
      if lt(b[0], a[0]) {
        MergeSorted(a, b[1..], lt);
        var m := Merge(a, b[1..], lt);
        assert m[0] == a[0] || m[0] == b[1];
      } else {
        MergeSorted(a[1..], b, lt);
        var m := Merge(a[1..], b, lt);
        if |a| > 1 {
          assert m[0] == a[1] || m[0] == b[0];
        } else {
          assert m == b;
        }
      }
    }
  }

  /** The elements of `s` equivalent to `x` under `lt`, in order. */
  function Class<T>(s: seq<T>, x: T, lt: (T, T) -> bool): seq<T>
  {
    if s == [] then []
    else (if Equiv(lt, s[0], x) then [s[0]] else []) + Class(s[1..], x, lt)
  }

  lemma {:induction false} ClassAppend<T>(a: seq<T>, b: seq<T>, x: T, lt: (T, T) -> bool)
    ensures Class(a + b, x, lt) == Class(a, x, lt) + Class(b, x, lt)
  {
    if a != [] {
      var h := if Equiv(lt, a[0], x) then [a[0]] else [];
      assert (a + b)[0] == a[0] && (a + b)[1..] == a[1..] + b;
      assert Class(a + b, x, lt) == h + Class(a[1..] + b, x, lt);
      ClassAppend(a[1..], b, x, lt);
      assert Class(a, x, lt) == h + Class(a[1..], x, lt);
    } else {
      assert a + b == b;
    }
  }

  /** A sequence all of whose elements are strictly greater than `x` has no
      element equivalent to `x`. */
  lemma {:induction false} ClassAbove<T>(s: seq<T>, x: T, lt: (T, T) -> bool)
    requires forall i :: 0 <= i < |s| ==> lt(x, s[i])
    ensures Class(s, x, lt) == []
  {
    if s != [] {
      ClassAbove(s[1..], x, lt);
    }
  }

  /** Nothing in a sorted `a` is equivalent to an `x` that is strictly less
      than `a`'s first element. */
  lemma {:induction false} ClassBelowHead<T(!new)>(a: seq<T>, x: T, lt: (T, T) -> bool)
    requires StrictWeakOrder(lt) && Sorted(a, lt) && |a| > 0
    requires lt(x, a[0])
    ensures Class(a, x, lt) == []
  {
    SortedHead(a, lt);
    forall i | 0 <= i < |a| ensures lt(x, a[i]) {
      if !lt(x, a[i]) {
        NotLessTransitive(lt, a[0], a[i], x);
      }
    }
    ClassAbove(a, x, lt);
  }

  /** When `merge` takes `y` ahead of all of a sorted `a`, nothing in `a` is
      equivalent to `y`. */
  lemma ClassBelowTaken<T(!new)>(a: seq<T>, y: T, x: T, lt: (T, T) -> bool)
    requires StrictWeakOrder(lt) && Sorted(a, lt) && |a| > 0
    requires lt(y, a[0]) && Equiv(lt, y, x)
    ensures Class(a, x, lt) == []
  {
    if !lt(x, a[0]) {
      NotLessTransitive(lt, a[0], x, y);
    }
    ClassBelowHead(a, x, lt);
  }

  /** Stability of `merge`: among equivalent elements those of `a` come
      first, then those of `b`, each in their original order. */
  lemma {:induction false} MergeStable<T(!new)>(a: seq<T>, b: seq<T>, x: T, lt: (T, T) -> bool)
    requires StrictWeakOrder(lt) && Sorted(a, lt)
    ensures Class(Merge(a, b, lt), x, lt) == Class(a, x, lt) + Class(b, x, lt)
    decreases |a| + |b|
  {
    if a == [] {
    } else if b == [] {
    } else if lt(b[0], a[0]) {
      MergeStable(a, b[1..], x, lt);
      if Equiv(lt, b[0], x) {
        ClassBelowTaken(a, b[0], x, lt);
      }
      MergeStableTakeB(a, b, x, lt);
    } else {
      assert Sorted(a[1..], lt);
      MergeStable(a[1..], b, x, lt);
      MergeStableTakeA(a, b, x, lt);
    }
  }

  /** One step of `MergeStable` when `merge` takes the front of `b`, given
      that nothing in `a` is equivalent to that front when `x` is. */
  lemma MergeStableTakeB<T>(a: seq<T>, b: seq<T>, x: T, lt: (T, T) -> bool)
    requires a != [] && b != [] && lt(b[0], a[0])
    requires Equiv(lt, b[0], x) ==> Class(a, x, lt) == []
    requires Class(Merge(a, b[1..], lt), x, lt) == Class(a, x, lt) + Class(b[1..], x, lt)
    ensures Class(Merge(a, b, lt), x, lt) == Class(a, x, lt) + Class(b, x, lt)
  {
    var m := Merge(a, b[1..], lt);
    var s := Merge(a, b, lt);
    var h := if Equiv(lt, b[0], x) then [b[0]] else [];
    var ca, cb := Class(a, x, lt), Class(b[1..], x, lt);
    assert Class(s, x, lt) == h + Class(m, x, lt) by {
      assert s == [b[0]] + m;
      assert s[0] == b[0] && s[1..] == m;
    }
    assert Class(b, x, lt) == h + cb;
    if Equiv(lt, b[0], x) {
      EmptyLeft(cb);
      EmptyLeft(h + cb);
    } else {
      EmptyLeft(ca + cb);
      EmptyLeft(cb);
    }
  }

  /** One step of `MergeStable` when `merge` takes the front of `a`. */
  lemma MergeStableTakeA<T>(a: seq<T>, b: seq<T>, x: T, lt: (T, T) -> bool)
    requires a != [] && b != [] && !lt(b[0], a[0])
    requires Class(Merge(a[1..], b, lt), x, lt) == Class(a[1..], x, lt) + Class(b, x, lt)
    ensures Class(Merge(a, b, lt), x, lt) == Class(a, x, lt) + Class(b, x, lt)
  {
    var m := Merge(a[1..], b, lt);
    var s := Merge(a, b, lt);
    var h := if Equiv(lt, a[0], x) then [a[0]] else [];
    assert Class(s, x, lt) == h + Class(m, x, lt) by {
      assert s == [a[0]] + m;
      assert s[0] == a[0] && s[1..] == m;
    }
    assert Class(a, x, lt) == h + Class(a[1..], x, lt);
    AppendAssoc(h, Class(a[1..], x, lt), Class(b, x, lt));
  }

  // Identities on sequences used by the step-by-step proofs of the list
  // operations; each is stated with exactly the terms its callers have.

  /** Inserting `x` after the run `ys` that was inserted at `p`. */
  lemma InsertNext<T>(c: seq<T>, p: nat, ys: seq<T>, x: T, xs: seq<T>, e: seq<T>, e': seq<T>)
    requires p <= |c| && e == c[..p] + ys + c[p..] && xs == ys + [x]
    requires e' == e[..p + |ys|] + [x] + e[p + |ys|..]
    ensures e' == c[..p] + xs + c[p..]
  {
    assert e[..p + |ys|] == c[..p] + ys;
    assert e[p + |ys|..] == c[p..];
  }

  /** Inserting nothing at `p`. */
  lemma InsertNone<T>(c: seq<T>, p: nat)
    requires p <= |c|
    ensures c[..p] + [] + c[p..] == c
  {
  }

  /** Inserting the run `ys` at the end of `c`. */
  lemma InsertEnd<T>(c: seq<T>, p: nat, ys: seq<T>)
    requires p == |c|
    ensures c[..p] + ys + c[p..] == c + ys
  {
  }

  /** Inserting `x` at the front of `c`. */
  lemma InsertFront<T>(c: seq<T>, x: T)
    ensures c[..0] + [x] + c[0..] == [x] + c
  {
  }

  /** A non-empty sequence is its front followed by its last element. */
  lemma Snoc<T>(xs: seq<T>)
    requires xs != []
    ensures xs[..|xs| - 1] + [xs[|xs| - 1]] == xs
  {
  }

  /** Removing the element at `f` once more from `c` with `c[f..j]` already
      removed removes `c[f..j + 1]`. */
  lemma EraseNext<T>(c: seq<T>, f: nat, j: nat, j': nat, e: seq<T>)
    requires f <= j < |c| && j' == j + 1 && e == c[..f] + c[j..]
    ensures e[..f] + e[f + 1..] == c[..f] + c[j'..]
  {
    assert e[..f] == c[..f];
    assert e[f + 1..] == c[j'..];
  }

  /** Removing nothing at `f`. */
  lemma EraseNone<T>(c: seq<T>, f: nat)
    requires f <= |c|
    ensures c[..f] + c[f..] == c
  {
  }

  /** Removing everything from `f` on. */
  lemma EraseTail<T>(c: seq<T>, f: nat, e: nat)
    requires f <= e == |c|
    ensures c[..f] + c[e..] == c[..f]
  {
  }

  /** Removing the first element. */
  lemma EraseFirst<T>(c: seq<T>)
    requires c != []
    ensures c[..0] + c[1..] == c[1..]
  {
  }

  lemma EmptyLeft<T>(a: seq<T>)
    ensures [] + a == a
  {
  }

  lemma AppendAssoc<T>(a: seq<T>, b: seq<T>, c: seq<T>)
    ensures a + (b + c) == (a + b) + c
  {
  }

  /** `c` with its run `c[f..e]` moved to stand before position `p`, which
      lies outside the run. */
  function Moved<T>(c: seq<T>, p: nat, f: nat, e: nat): seq<T>
    requires f <= e <= |c| && p <= |c| && (p < f || e <= p)
  {
    if p < f then c[..p] + c[f..e] + c[p..f] + c[e..] else c[..f] + c[e..p] + c[f..e] + c[p..]
  }

  /** Moving a run rearranges the sequence: same length, same elements. */
  lemma MovedPermutes<T>(c: seq<T>, p: nat, f: nat, e: nat)
    requires f <= e <= |c| && p <= |c| && (p < f || e <= p)
    ensures |Moved(c, p, f, e)| == |c| && multiset(Moved(c, p, f, e)) == multiset(c)
  {
    if p < f {
      var a, b, m, r := c[..p], c[p..f], c[f..e], c[e..];
      assert c == a + b + m + r;
      SwapRuns(a, m, b, r);
    } else {
      var a, m, b, r := c[..f], c[f..e], c[e..p], c[p..];
      assert c == a + m + b + r;
      SwapRuns(a, b, m, r);
    }
  }

  /** Exchanging two adjacent runs keeps the elements. */
  lemma SwapRuns<T>(a: seq<T>, m: seq<T>, b: seq<T>, r: seq<T>)
    ensures multiset(a + m + b + r) == multiset(a + b + m + r)
  {
    assert a + m + b + r == a + (m + b) + r;
    assert a + b + m + r == a + (b + m) + r;
    assert multiset(m + b) == multiset(b + m);
  }

  /** Moving a run is cutting it out and putting it back in at the
      position `p` has in what is left. */
  lemma MovedCut<T>(c: seq<T>, p: nat, f: nat, e: nat)
    requires f <= e <= |c| && p <= |c| && (p < f || e <= p)
    ensures var rest, q := c[..f] + c[e..], if p < f then p else p - (e - f);
      q <= |rest| && Moved(c, p, f, e) == rest[..q] + c[f..e] + rest[q..]
  {
    var rest, q := c[..f] + c[e..], if p < f then p else p - (e - f);
    if p < f {
      assert rest[..q] == c[..p];
      assert rest[q..] == c[p..f] + c[e..];
    } else {
      assert rest[..q] == c[..f] + c[e..p];
      assert rest[q..] == c[p..];
    }
  }

  /** Moving an empty run changes nothing. */
  lemma MovedNone<T>(c: seq<T>, p: nat, f: nat)
    requires f <= |c| && p <= |c|
    ensures Moved(c, p, f, f) == c
  {
  }

  /** Moving an empty run between two sequences leaves both as they were. */
  lemma MovedNoneApart<T>(c: seq<T>, p: nat, d: seq<T>, f: nat)
    requires p <= |c| && f <= |d|
    ensures c[..p] + d[f..f] + c[p..] == c && d[..f] + d[f..] == d
  {
  }

  /** A run of one element. */
  lemma RunOfOne<T>(c: seq<T>, q: nat)
    requires q < |c|
    ensures c[q..q + 1] == [c[q]]
  {
  }

  /** The run of all of `c`, and what is left when it is cut out. */
  lemma RunOfAll<T>(c: seq<T>)
    ensures c[0..|c|] == c && c[..0] + c[|c|..] == []
  {
  }

  /** Moving all of `c` to its end changes nothing. */
  lemma MovedWhole<T>(c: seq<T>)
    ensures Moved(c, |c|, 0, |c|) == c
  {
  }

  /** One step of `merge` that moves the front `b[0]` of the other list
      before position `i`: with `a'`, `b'` the lists after the move, the
      merge of what is left from `i + 1` on is the merge from `i`. */
  lemma MergeTakeB<T>(a: seq<T>, b: seq<T>, i: nat, lt: (T, T) -> bool, a': seq<T>, b': seq<T>, m: seq<T>)
    requires i < |a| && b != [] && lt(b[0], a[i])
    requires a' == a[..i] + [b[0]] + a[i..] && b' == b[..0] + b[1..]
    requires m == a'[..i + 1] + Merge(a'[i + 1..], b', lt)
    ensures m == a[..i] + Merge(a[i..], b, lt)
  {
    assert a'[..i + 1] == a[..i] + [b[0]];
    assert a'[i + 1..] == a[i..];
    assert b' == b[1..];
    assert a[i..][0] == a[i];
    assert Merge(a[i..], b, lt) == [b[0]] + Merge(a[i..], b[1..], lt);
  }

  /** One step of `merge` that keeps `a[i]` where it is. */
  lemma MergeTakeA<T>(a: seq<T>, b: seq<T>, i: nat, lt: (T, T) -> bool, m: seq<T>)
    requires i < |a| && b != [] && !lt(b[0], a[i])
    requires m == a[..i + 1] + Merge(a[i + 1..], b, lt)
    ensures m == a[..i] + Merge(a[i..], b, lt)
  {
    assert a[i..][0] == a[i] && a[i..][1..] == a[i + 1..];
    assert Merge(a[i..], b, lt) == [a[i]] + Merge(a[i + 1..], b, lt);
    assert a[..i + 1] == a[..i] + [a[i]];
  }

  /** The end of `merge` when the other list is exhausted. */
  lemma MergeNoB<T>(a: seq<T>, i: nat, lt: (T, T) -> bool)
    requires i <= |a|
    ensures a == a[..i] + Merge(a[i..], [], lt)
  {
  }

  /** The end of `merge` when this list is exhausted: the rest of the other
      list is spliced before `end()`. */
  lemma MergeRestB<T>(a: seq<T>, b: seq<T>, lt: (T, T) -> bool, m: seq<T>)
    requires m == a[..|a|] + b[0..|b|] + a[|a|..]
    ensures m == a[..|a|] + Merge(a[|a|..], b, lt)
  {
    assert a[|a|..] == [] && b[0..|b|] == b;
  }

  /** A stable sorted rearrangement: sorted, and every class of equivalent
      elements appears in its original order. */
  ghost predicate StableSortOf<T(!new)>(r: seq<T>, s: seq<T>, lt: (T, T) -> bool)
  {
    Sorted(r, lt) && forall x :: Class(r, x, lt) == Class(s, x, lt)
  }

  /** Each element of `s` occurs in its own class as often as in `s`. */
  lemma {:induction false} ClassCount<T(!new)>(s: seq<T>, x: T, lt: (T, T) -> bool)
    requires forall y :: !lt(y, y)
    ensures multiset(Class(s, x, lt))[x] == multiset(s)[x]
  {
    if s != [] {
      assert s == [s[0]] + s[1..];
      ClassCount(s[1..], x, lt);
    }
  }

  /** Keeping every class in its original order keeps the multiset of
      elements: a stable sort is a permutation. */
  lemma {:induction false} StableSortIsPermutation<T(!new)>(r: seq<T>, s: seq<T>, lt: (T, T) -> bool)
    requires StrictWeakOrder(lt) && StableSortOf(r, s, lt)
    ensures multiset(r) == multiset(s)
  {
    forall x ensures multiset(r)[x] == multiset(s)[x] {
      ClassCount(r, x, lt);
      ClassCount(s, x, lt);
      assert Class(r, x, lt) == Class(s, x, lt);
    }
  }

  /** `cs[hi - 1] + ... + cs[lo]`: the contents of the counters of `sort`'s
      ladder, oldest (highest) first. */
  function Ladder<T>(cs: seq<seq<T>>, lo: nat, hi: nat): seq<T>
    requires lo <= hi <= |cs|
    decreases hi - lo
  {
    if lo == hi then [] else Ladder(cs, lo + 1, hi) + cs[lo]
  }

  /** A ladder whose counters in `[lo, hi)` are all empty is empty. */
  lemma {:induction false} LadderEmpty<T>(cs: seq<seq<T>>, lo: nat, hi: nat)
    requires lo <= hi <= |cs|
    requires forall k :: lo <= k < hi ==> cs[k] == []
    ensures Ladder(cs, lo, hi) == []
    decreases hi - lo
  {
    if lo < hi {
      LadderEmpty(cs, lo + 1, hi);
    }
  }

  /** The ladder splits at any counter. */
  lemma {:induction false} LadderSplit<T>(cs: seq<seq<T>>, lo: nat, mid: nat, hi: nat)
    requires lo <= mid <= hi <= |cs|
    ensures Ladder(cs, lo, hi) == Ladder(cs, mid, hi) + Ladder(cs, lo, mid)
    decreases mid - lo
  {
    if lo < mid {
      LadderSplit(cs, lo + 1, mid, hi);
    }
  }

  /** The ladder only depends on the counters in `[lo, hi)`. */
  lemma {:induction false} LadderFrame<T>(cs: seq<seq<T>>, ds: seq<seq<T>>, lo: nat, hi: nat)
    requires lo <= hi <= |cs| && hi <= |ds|
    requires forall k :: lo <= k < hi ==> cs[k] == ds[k]
    ensures Ladder(cs, lo, hi) == Ladder(ds, lo, hi)
    decreases hi - lo
  {
    if lo < hi {
      LadderFrame(cs, ds, lo + 1, hi);
    }
  }

  function Pow2(k: nat): (r: nat)
    ensures r >= 1
  {
    if k == 0 then 1 else 2 * Pow2(k - 1)
  }

  lemma {:induction false} Pow2Monotone(i: nat, j: nat)
    requires i <= j
    ensures Pow2(i) <= Pow2(j)
    decreases j - i
  {
    if i < j {
      Pow2Monotone(i, j - 1);
    }
  }
}
