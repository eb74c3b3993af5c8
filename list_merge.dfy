/** `merge` of `include/list/list.h` as a function on the arena of module
    `ListArena`, built from the `splice` forms of module `ListMoves`: the
    nodes of the other list are moved, never copied. */
module ListMerge {
  import opened Orders
  import opened ListSpec
  import opened ListArena
  import opened ListMoves

  /** The loop of `merge(other, comp)` with `it1` at position `i` of list
      `s` and `it2` at the front of list `t` (every node before it has
      moved already): while neither iterator is at its end, the front of
      `t` is spliced before `it1` when `comp(*it2, *it1)`, else `it1`
      advances; then whatever is left of `t` is spliced before `end()`. */
  ghost function MergeFrom<T>(h: Arena<T>, s: nat, t: nat, lt: (T, T) -> bool, i: nat): (r: Arena<T>)
    requires Wf(h) && IsList(h, s) && IsList(h, t) && s != t && i <= |h.ls[s]|
    ensures Wf(r) && Untouched(h, r, {s, t}) && IsList(r, s) && IsList(r, t) && |r.nx| == |h.nx|
    ensures r.ls[t] == []
    decreases |h.ls[s]| + |h.ls[t]| - i
  {
    var S, T := h.ls[s], h.ls[t];
    if i == |S| || T == [] then
      if T != [] then
        RunOfAll(T);
        Spliced(h, s, |S|, t, 0, |T|)
      else
        SplicedNone(h, s, i, t, 0);
        h
    else if lt(Elems(h, t)[0], Elems(h, s)[i]) then
      var h1 := SplicedOne(h, s, i, t, 0);
      var r := MergeFrom(h1, s, t, lt, i + 1);
      UntouchedTrans(h, h1, r, {s, t});
      r
    else
      MergeFrom(h, s, t, lt, i + 1)
  }

  /** The elements `MergeFrom` leaves: those before `it1` stay, the rest of
      list `s` is merged with list `t`, and `t` ends up empty. */
  lemma {:induction false} MergeFromElems<T>(h: Arena<T>, s: nat, t: nat, lt: (T, T) -> bool, i: nat)
    requires Wf(h) && IsList(h, s) && IsList(h, t) && s != t && i <= |h.ls[s]|
    ensures var r := MergeFrom(h, s, t, lt, i);
      && Elems(r, s) == Elems(h, s)[..i] + Merge(Elems(h, s)[i..], Elems(h, t), lt)
      && Elems(r, t) == []
    decreases |h.ls[s]| + |h.ls[t]| - i
  {
    var S, T := h.ls[s], h.ls[t];
    var a, b := Elems(h, s), Elems(h, t);
    if i == |S| || T == [] {
      if T != [] {
        MergeRestB(a, b, lt, Elems(Spliced(h, s, |S|, t, 0, |T|), s));
      } else {
        MergeNoB(a, i, lt);
      }
    } else if lt(b[0], a[i]) {
      var h1 := SplicedOne(h, s, i, t, 0);
      MergeFromElems(h1, s, t, lt, i + 1);
      MergeTakeB(a, b, i, lt, Elems(h1, s), Elems(h1, t), Elems(MergeFrom(h1, s, t, lt, i + 1), s));
    } else {
      MergeFromElems(h, s, t, lt, i + 1);
      MergeTakeA(a, b, i, lt, Elems(MergeFrom(h, s, t, lt, i + 1), s));
    }
  }

  /** `merge(other, comp)`: nothing happens when `other` is this list;
      otherwise the loop starts at both fronts. */
  ghost function Merged<T>(h: Arena<T>, s: nat, t: nat, lt: (T, T) -> bool): (r: Arena<T>)
    requires Wf(h) && IsList(h, s) && IsList(h, t)
    ensures Wf(r) && Untouched(h, r, {s, t}) && IsList(r, s) && IsList(r, t) && |r.nx| == |h.nx|
  {
    if s == t then
      SplicedNone(h, s, 0, t, 0);
      h
    else
      MergeFrom(h, s, t, lt, 0)
  }

  /** `merge` leaves the merge of the two element sequences in this list
      and empties the other one; merging a list with itself changes
      nothing. */
  lemma MergedElems<T>(h: Arena<T>, s: nat, t: nat, lt: (T, T) -> bool)
    requires Wf(h) && IsList(h, s) && IsList(h, t)
    ensures var r := Merged(h, s, t, lt);
      && (s != t ==> Elems(r, s) == Merge(Elems(h, s), Elems(h, t), lt) && Elems(r, t) == [])
      && (s == t ==> r == h)
  {
    if s != t {
      MergeFromElems(h, s, t, lt, 0);
      var a := Elems(h, s);
      assert a[..0] + Merge(a[0..], Elems(h, t), lt) == Merge(a, Elems(h, t), lt) by {
        assert a[0..] == a;
      }
    }
  }

  /** Two sorted lists merge into a sorted list holding the elements of
      both, and among equivalent elements those of this list come first,
      each group in its original order. */
  lemma MergedSortedStable<T(!new)>(h: Arena<T>, s: nat, t: nat, lt: (T, T) -> bool, x: T)
    requires Wf(h) && IsList(h, s) && IsList(h, t) && s != t
    requires StrictWeakOrder(lt) && Sorted(Elems(h, s), lt) && Sorted(Elems(h, t), lt)
    ensures var r := Merged(h, s, t, lt);
      && Sorted(Elems(r, s), lt)
      && multiset(Elems(r, s)) == multiset(Elems(h, s)) + multiset(Elems(h, t))
      && Class(Elems(r, s), x, lt) == Class(Elems(h, s), x, lt) + Class(Elems(h, t), x, lt)
  {
    MergedElems(h, s, t, lt);
    MergeSorted(Elems(h, s), Elems(h, t), lt);
    MergeStable(Elems(h, s), Elems(h, t), x, lt);
  }
}
