/** `sort(comp)` of `include/list/list.h`: the bottom-up merge sort with a
    `carry` list and a ladder of 64 `counter` lists.  Counter `j` is empty or
    holds a sorted run of `2^j` elements; each element taken from the front
    of the list is carried up the ladder, merging with every full counter it
    meets, and is set down at the first empty one.  At the end the counters
    are merged from the bottom up into the top one, which is swapped into
    the list.

    The first half of this module states the ladder on sequences of element
    sequences; the second half ties it to the lists of the arena. */
module ListSort {
  import opened Orders
  import opened ListSpec
  import opened ListArena
  import opened ListMoves
  import opened ListMerge

  /** `list counter[64]`. */
  const CounterCount: nat := 64

  /** A size that fits in the 64-bit `size_t` of the source. */
  const SizeLimit: nat := Pow2(64)

  /** A strict weak ordering is asymmetric. */
  lemma Asymmetric<T(!new)>(lt: (T, T) -> bool)
    requires StrictWeakOrder(lt)
    ensures forall a, b :: lt(a, b) ==> !lt(b, a)
  {
    forall a, b | lt(a, b) ensures !lt(b, a) {
      assert lt(a, b) && lt(b, a) ==> lt(a, a);
    }
  }

  /** The counters `C` between `lo` and `fill`: those below `lo` and from
      `fill` on are empty, the others sorted and each either empty or of
      size `2^j`. */
  predicate Rungs<T>(C: seq<seq<T>>, lo: nat, fill: nat, lt: (T, T) -> bool)
  {
    && lo <= fill <= |C|
    && (forall j :: 0 <= j < lo ==> C[j] == [])
    && (forall j :: fill <= j < |C| ==> C[j] == [])
    && (forall j :: lo <= j < fill ==> Sorted(C[j], lt) && (C[j] == [] || |C[j]| == Pow2(j)))
  }

  /** The counters from `lo` on, oldest first, followed by the carried run
      `Cc`, hold the elements `P` taken so far, with every class of
      equivalent elements in the order it was taken. */
  ghost predicate Holds<T(!new)>(C: seq<seq<T>>, lo: nat, fill: nat, Cc: seq<T>, P: seq<T>, lt: (T, T) -> bool)
  {
    && lo <= fill <= |C|
    && |Ladder(C, lo, fill)| + |Cc| == |P|
    && forall x :: Class(Ladder(C, lo, fill) + Cc, x, lt) == Class(P, x, lt)
  }

  /** A counter holds `2^j` elements, and there are fewer than `2^64`
      elements: `j` is below 64. */
  lemma CarryBound(i: nat, n: nat)
    requires Pow2(i) <= n < SizeLimit
    ensures i < CounterCount
  {
    if i >= 64 {
      Pow2Monotone(64, i);
    }
  }

  /** `counter[i].merge(carry, comp); carry.swap(counter[i++])`: a full
      counter `i` absorbs the carried run, which then moves on with twice
      the size; counter `i` is left empty. */
  lemma LadderMerge<T(!new)>(C: seq<seq<T>>, i: nat, fill: nat, Cc: seq<T>, P: seq<T>, lt: (T, T) -> bool)
    requires StrictWeakOrder(lt)
    requires Rungs(C, i, fill, lt) && Holds(C, i, fill, Cc, P, lt)
    requires i < fill && C[i] != [] && Sorted(Cc, lt) && |Cc| == Pow2(i)
    ensures var C', M := C[i := []], Merge(C[i], Cc, lt);
      && Rungs(C', i + 1, fill, lt) && Holds(C', i + 1, fill, M, P, lt)
      && Sorted(M, lt) && |M| == Pow2(i + 1)
  {
    var C', M := C[i := []], Merge(C[i], Cc, lt);
    Asymmetric(lt);
    MergeSorted(C[i], Cc, lt);
    var L' := Ladder(C, i + 1, fill);
    assert Ladder(C, i, fill) == L' + C[i];
    LadderFrame(C, C', i + 1, fill);
    forall x ensures Class(L' + M, x, lt) == Class(P, x, lt) {
      MergeStable(C[i], Cc, x, lt);
      ClassAppend(L', M, x, lt);
      ClassAppend(L' + C[i], Cc, x, lt);
      ClassAppend(L', C[i], x, lt);
    }
  }

  /** Setting the carried run down at the empty counter `i`, above empty
      counters only, puts it on top of the ladder. */
  lemma PlacedLadder<T>(C: seq<seq<T>>, i: nat, fill: nat, Cc: seq<T>)
    requires i <= fill <= |C| && i < |C| && (i == fill || C[i] == [])
    requires forall j :: 0 <= j < i ==> C[j] == []
    ensures var fill' := if i == fill then fill + 1 else fill;
      Ladder(C[i := Cc], 0, fill') + [] == Ladder(C, i, fill) + Cc
  {
    var fill', C' := if i == fill then fill + 1 else fill, C[i := Cc];
    LadderSplit(C', 0, i, fill');
    LadderEmpty(C', 0, i);
    LadderFrame(C, C', i + 1, fill');
    var L := Ladder(C, i + 1, fill');
    assert Ladder(C', i, fill') == L + Cc;
    assert Ladder(C, i, fill) == L by {
      if i < fill {
        assert Ladder(C, i, fill) == L + C[i];
      }
    }
  }

  /** `carry.swap(counter[i]); if (i == fill) ++fill;`: the carried run is
      set down at the empty counter `i`, and the ladder grows when `i` was
      one past its top. */
  lemma LadderPlace<T(!new)>(C: seq<seq<T>>, i: nat, fill: nat, Cc: seq<T>, P: seq<T>, lt: (T, T) -> bool)
    requires Rungs(C, i, fill, lt) && Holds(C, i, fill, Cc, P, lt) && Sorted(Cc, lt) && |Cc| == Pow2(i)
    requires i < |C| && (i == fill || C[i] == [])
    ensures var fill', C' := if i == fill then fill + 1 else fill, C[i := Cc];
      Rungs(C', 0, fill', lt) && Holds(C', 0, fill', [], P, lt)
  {
    PlacedLadder(C, i, fill, Cc);
  }

  /** The counters below `i - 1` and from `fill` on are empty, the others
      sorted: the state of `for (int i = 1; i < fill; ++i)`. */
  predicate Folding<T>(C: seq<seq<T>>, i: nat, fill: nat, lt: (T, T) -> bool)
  {
    && 1 <= i <= fill <= |C|
    && (forall j :: 0 <= j < i - 1 ==> C[j] == [])
    && (forall j :: fill <= j < |C| ==> C[j] == [])
    && (forall j :: i - 1 <= j < fill ==> Sorted(C[j], lt))
  }


  /** Folding counter `i - 1` into counter `i`, above empty counters only,
      leaves the counters above `i` followed by the merged run. */
  lemma FoldedLadder<T>(C: seq<seq<T>>, i: nat, fill: nat, M: seq<T>)
    requires 1 <= i < fill <= |C| && forall j :: 0 <= j < i - 1 ==> C[j] == []
    ensures var C', L := C[i := M][i - 1 := []], Ladder(C, i + 1, fill);
      && Ladder(C', 0, fill) + [] == L + M
      && Ladder(C, 0, fill) + [] == L + (C[i] + C[i - 1])
  {
    var C' := C[i := M][i - 1 := []];
    var L := Ladder(C, i + 1, fill);
    LadderSplit(C, 0, i - 1, fill);
    LadderSplit(C', 0, i - 1, fill);
    LadderEmpty(C, 0, i - 1);
    LadderEmpty(C', 0, i - 1);
    LadderFrame(C, C', i + 1, fill);
    assert Ladder(C, i - 1, fill) == L + C[i] + C[i - 1];
    assert Ladder(C', i - 1, fill) == L + M + [];
  }

  /** Merging two runs of a sequence, the first of them sorted, keeps every
      class of equivalent elements as it was. */
  lemma ClassMerged<T(!new)>(L: seq<T>, a: seq<T>, b: seq<T>, lt: (T, T) -> bool)
    requires StrictWeakOrder(lt) && Sorted(a, lt)
    ensures forall x :: Class(L + Merge(a, b, lt), x, lt) == Class(L + (a + b), x, lt)
  {
    forall x ensures Class(L + Merge(a, b, lt), x, lt) == Class(L + (a + b), x, lt) {
      MergeStable(a, b, x, lt);
      ClassAppend(L, Merge(a, b, lt), x, lt);
      ClassAppend(L, a + b, x, lt);
      ClassAppend(a, b, x, lt);
    }
  }

  /** `counter[i].merge(counter[i - 1], comp)`: counter `i` absorbs the
      newer elements of counter `i - 1`, which is left empty. */
  lemma LadderFold<T(!new)>(C: seq<seq<T>>, i: nat, fill: nat, P: seq<T>, lt: (T, T) -> bool)
    requires StrictWeakOrder(lt)
    requires Folding(C, i, fill, lt) && i < fill && Holds(C, 0, fill, [], P, lt)
    ensures var C' := C[i := Merge(C[i], C[i - 1], lt)][i - 1 := []];
      Folding(C', i + 1, fill, lt) && Holds(C', 0, fill, [], P, lt)
  {
    var M := Merge(C[i], C[i - 1], lt);
    Asymmetric(lt);
    MergeSorted(C[i], C[i - 1], lt);
    FoldedLadder(C, i, fill, M);
    ClassMerged(Ladder(C, i + 1, fill), C[i], C[i - 1], lt);
  }

  /** After the last fold the top counter holds a stable sort of everything
      taken, and every other counter is empty. */
  lemma LadderFolded<T(!new)>(C: seq<seq<T>>, fill: nat, P: seq<T>, lt: (T, T) -> bool)
    requires Folding(C, fill, fill, lt) && Holds(C, 0, fill, [], P, lt)
    ensures StableSortOf(C[fill - 1], P, lt)
    ensures forall j :: 0 <= j < |C| && j != fill - 1 ==> C[j] == []
  {
    LadderSplit(C, 0, fill - 1, fill);
    LadderEmpty(C, 0, fill - 1);
    assert Ladder(C, fill - 1, fill) == C[fill - 1];
    assert Ladder(C, 0, fill) + [] == C[fill - 1];
  }

  // The loops of `sort` on sequences: `e0` are the elements of the list
  // when `sort` starts, `rest` those still in it, `C` the counters' and
  // `Cc` the carry's.

  /** The state of the main loop `while (!empty())`: `rest` is a suffix of
      `e0`, the carry is empty and the ladder holds the elements taken. */
  ghost predicate TakingSeq<T(!new)>(e0: seq<T>, rest: seq<T>, C: seq<seq<T>>, Cc: seq<T>, fill: nat, lt: (T, T) -> bool)
  {
    && |e0| < SizeLimit && |C| == CounterCount && Cc == []
    && |rest| <= |e0| && rest == e0[|e0| - |rest|..]
    && Rungs(C, 0, fill, lt) && Holds(C, 0, fill, [], e0[..|e0| - |rest|], lt)
  }

  /** The state of the inner loop `while (i < fill && !counter[i].empty())`:
      the counters below `i` are empty and the carry holds a sorted run of
      `2^i` elements taken after those of the counters from `i` on. */
  ghost predicate CarryingSeq<T(!new)>(e0: seq<T>, rest: seq<T>, C: seq<seq<T>>, Cc: seq<T>, fill: nat, i: nat, lt: (T, T) -> bool)
  {
    && |e0| < SizeLimit && |C| == CounterCount && i < CounterCount
    && |rest| < |e0| && rest == e0[|e0| - |rest|..]
    && Sorted(Cc, lt) && |Cc| == Pow2(i)
    && Rungs(C, i, fill, lt) && Holds(C, i, fill, Cc, e0[..|e0| - |rest|], lt)
  }

  /** The state of `for (int i = 1; i < fill; ++i)`: the list and the carry
      are empty and the counters hold every element. */
  ghost predicate FoldingSeq<T(!new)>(e0: seq<T>, rest: seq<T>, C: seq<seq<T>>, Cc: seq<T>, fill: nat, i: nat, lt: (T, T) -> bool)
  {
    && |C| == CounterCount && rest == [] && Cc == []
    && Folding(C, i, fill, lt) && Holds(C, 0, fill, [], e0, lt)
  }

  /** The main loop starts with every counter empty. */
  lemma StartSeq<T(!new)>(e0: seq<T>, C: seq<seq<T>>, lt: (T, T) -> bool)
    requires |e0| < SizeLimit && |C| == CounterCount && forall j :: 0 <= j < |C| ==> C[j] == []
    ensures TakingSeq(e0, e0, C, [], 0, lt)
  {
    assert e0[|e0| - |e0|..] == e0 && e0[..|e0| - |e0|] == [];
    assert Ladder(C, 0, 0) + [] == [];
  }

  /** `carry.splice(carry.begin(), *this, begin())`: the front element
      becomes the carried run. */
  lemma TakeSeq<T(!new)>(e0: seq<T>, rest: seq<T>, C: seq<seq<T>>, fill: nat, lt: (T, T) -> bool)
    requires TakingSeq(e0, rest, C, [], fill, lt) && rest != []
    ensures CarryingSeq(e0, rest[1..], C, [rest[0]], fill, 0, lt)
  {
    var m := |e0| - |rest|;
    var P, L := e0[..m], Ladder(C, 0, fill);
    assert rest[0] == e0[m] && rest[1..] == e0[m + 1..];
    assert e0[..m + 1] == P + [e0[m]];
    assert L + [] == L;
    forall y ensures Class(L + [e0[m]], y, lt) == Class(P + [e0[m]], y, lt) {
      ClassAppend(L, [e0[m]], y, lt);
      ClassAppend(P, [e0[m]], y, lt);
    }
  }

  /** `counter[i].merge(carry, comp); carry.swap(counter[i++])`. */
  lemma MergeSeq<T(!new)>(e0: seq<T>, rest: seq<T>, C: seq<seq<T>>, Cc: seq<T>, fill: nat, i: nat, lt: (T, T) -> bool)
    requires StrictWeakOrder(lt)
    requires CarryingSeq(e0, rest, C, Cc, fill, i, lt) && i < fill && C[i] != []
    ensures CarryingSeq(e0, rest, C[i := []], Merge(C[i], Cc, lt), fill, i + 1, lt)
  {
    LadderMerge(C, i, fill, Cc, e0[..|e0| - |rest|], lt);
    CarryBound(i + 1, |e0|);
  }

  /** `carry.swap(counter[i]); if (i == fill) ++fill;`: the carry takes the
      empty counter. */
  lemma PlaceSeq<T(!new)>(e0: seq<T>, rest: seq<T>, C: seq<seq<T>>, Cc: seq<T>, fill: nat, i: nat, lt: (T, T) -> bool)
    requires CarryingSeq(e0, rest, C, Cc, fill, i, lt) && (fill <= i || C[i] == [])
    ensures TakingSeq(e0, rest, C[i := Cc], C[i], if i == fill then fill + 1 else fill, lt)
  {
    LadderPlace(C, i, fill, Cc, e0[..|e0| - |rest|], lt);
  }

  /** The main loop ends with the list empty; a list of at least one
      element has filled at least one counter. */
  lemma StartFoldSeq<T(!new)>(e0: seq<T>, C: seq<seq<T>>, Cc: seq<T>, fill: nat, lt: (T, T) -> bool)
    requires TakingSeq(e0, [], C, Cc, fill, lt) && e0 != []
    ensures 1 <= fill && FoldingSeq(e0, [], C, Cc, fill, 1, lt)
  {
    assert e0[..|e0| - 0] == e0;
    assert |Ladder(C, 0, fill)| == |e0|;
  }

  /** `counter[i].merge(counter[i - 1], comp)`. */
  lemma FoldSeq<T(!new)>(e0: seq<T>, C: seq<seq<T>>, fill: nat, i: nat, lt: (T, T) -> bool)
    requires StrictWeakOrder(lt) && FoldingSeq(e0, [], C, [], fill, i, lt) && i < fill
    ensures FoldingSeq(e0, [], C[i := Merge(C[i], C[i - 1], lt)][i - 1 := []], [], fill, i + 1, lt)
  {
    LadderFold(C, i, fill, e0, lt);
  }

  // The ladder on the lists of the arena.

  /** The element sequences of the counter lists `cs`. */
  ghost function Counts<T>(h: Arena<T>, cs: seq<nat>): (r: seq<seq<T>>)
    requires Wf(h) && forall j :: 0 <= j < |cs| ==> IsList(h, cs[j])
    ensures |r| == |cs| && forall j :: 0 <= j < |cs| ==> r[j] == Elems(h, cs[j])
  {
    seq(|cs|, j requires 0 <= j < |cs| => Elems(h, cs[j]))
  }

  /** The lists `sort` works with in arena `h`, started from arena `h0`:
      the sorted list `l` of `h0`, and `carry` and the counters `cs`,
      created after `h0` and all different; no other list of `h0` has
      changed. */
  ghost predicate Frame<T>(h0: Arena<T>, h: Arena<T>, l: nat, carry: nat, cs: seq<nat>)
  {
    && Wf(h0) && IsList(h0, l) && Untouched(h0, h, {l})
    && IsList(h, l) && IsList(h, carry) && l < |h0.nx| <= carry
    && (forall j :: 0 <= j < |cs| ==> IsList(h, cs[j]) && |h0.nx| <= cs[j] && cs[j] != carry)
    && (forall j, k :: 0 <= j < k < |cs| ==> cs[j] != cs[k])
  }

  /** A step that only touches lists `a` and `b`, each `l` or a temporary,
      and leaves them lists keeps the frame and every list it did not
      touch. */
  lemma FrameKept<T>(h0: Arena<T>, h: Arena<T>, h': Arena<T>, l: nat, carry: nat, cs: seq<nat>, a: nat, b: nat)
    requires Frame(h0, h, l, carry, cs) && Untouched(h, h', {a, b}) && IsList(h', a) && IsList(h', b)
    requires (a == l || |h0.nx| <= a) && (b == l || |h0.nx| <= b)
    ensures Frame(h0, h', l, carry, cs)
    ensures forall j :: 0 <= j < |cs| && cs[j] != a && cs[j] != b ==> Counts(h', cs)[j] == Counts(h, cs)[j]
    ensures l != a && l != b ==> Elems(h', l) == Elems(h, l)
    ensures carry != a && carry != b ==> Elems(h', carry) == Elems(h, carry)
  {
    forall j | 0 <= j < |cs|
      ensures IsList(h', cs[j]) && (cs[j] != a && cs[j] != b ==> Elems(h', cs[j]) == Elems(h, cs[j]))
    {
      if cs[j] != a && cs[j] != b {
        assert SameList(h, h', cs[j]);
      }
    }
    if l != a && l != b {
      assert SameList(h, h', l);
    }
    if carry != a && carry != b {
      assert SameList(h, h', carry);
    }
    forall t: nat | IsList(h0, t) && t !in {l} ensures SameList(h0, h', t) {
      assert SameList(h0, h, t);
      assert SameList(h, h', t);
    }
  }

  /** `carry.swap(counter[i])` exchanges the two lists' elements. */
  lemma SwapCarry<T>(h0: Arena<T>, h: Arena<T>, l: nat, carry: nat, cs: seq<nat>, i: nat)
    requires Frame(h0, h, l, carry, cs) && i < |cs|
    ensures var h' := Swapped(h, carry, cs[i]);
      && Frame(h0, h', l, carry, cs) && Elems(h', l) == Elems(h, l) && Elems(h', carry) == Elems(h, cs[i])
      && Counts(h', cs) == Counts(h, cs)[i := Elems(h, carry)]
  {
    FrameKept(h0, h, Swapped(h, carry, cs[i]), l, carry, cs, carry, cs[i]);
  }

  /** `counter[i].merge(carry, comp)` merges the carry into counter `i`
      and empties it. */
  lemma MergeCarry<T>(h0: Arena<T>, h: Arena<T>, l: nat, carry: nat, cs: seq<nat>, i: nat, lt: (T, T) -> bool)
    requires Frame(h0, h, l, carry, cs) && i < |cs|
    ensures var h' := Merged(h, cs[i], carry, lt);
      && Frame(h0, h', l, carry, cs) && Elems(h', l) == Elems(h, l) && Elems(h', carry) == []
      && Counts(h', cs) == Counts(h, cs)[i := Merge(Elems(h, cs[i]), Elems(h, carry), lt)]
  {
    MergedElems(h, cs[i], carry, lt);
    FrameKept(h0, h, Merged(h, cs[i], carry, lt), l, carry, cs, cs[i], carry);
  }

  /** `counter[i].merge(counter[i - 1], comp)` merges counter `i - 1` into
      counter `i` and empties it. */
  lemma MergeCounter<T>(h0: Arena<T>, h: Arena<T>, l: nat, carry: nat, cs: seq<nat>, i: nat, lt: (T, T) -> bool)
    requires Frame(h0, h, l, carry, cs) && 0 < i < |cs|
    ensures var h', C := Merged(h, cs[i], cs[i - 1], lt), Counts(h, cs);
      && Frame(h0, h', l, carry, cs) && Elems(h', l) == Elems(h, l) && Elems(h', carry) == Elems(h, carry)
      && Counts(h', cs) == C[i := Merge(C[i], C[i - 1], lt)][i - 1 := []]
  {
    var h', C := Merged(h, cs[i], cs[i - 1], lt), Counts(h, cs);
    MergedElems(h, cs[i], cs[i - 1], lt);
    FrameKept(h0, h, h', l, carry, cs, cs[i], cs[i - 1]);
    var D := C[i := Merge(C[i], C[i - 1], lt)][i - 1 := []];
    forall j | 0 <= j < |cs| ensures Counts(h', cs)[j] == D[j] {
      if j != i && j != i - 1 {
        assert cs[j] != cs[i] && cs[j] != cs[i - 1];
      }
    }
  }

  /** Nothing touched. */
  lemma UntouchedSelf<T>(h: Arena<T>, touched: set<nat>)
    requires Wf(h)
    ensures Untouched(h, h, touched)
  {
    forall t: nat | IsList(h, t) && t !in touched ensures SameList(h, h, t) {
    }
  }

  /** While `carry` and the counters are constructed: every list made so
      far is empty and the list to sort is as it was. */
  ghost predicate Creating<T>(h0: Arena<T>, h: Arena<T>, l: nat, carry: nat, cs: seq<nat>)
  {
    && Frame(h0, h, l, carry, cs) && |cs| <= CounterCount
    && Elems(h, l) == Elems(h0, l) && Elems(h, carry) == []
    && forall j :: 0 <= j < |cs| ==> Elems(h, cs[j]) == []
  }

  /** `list carry;` */
  lemma CreateCarry<T>(h0: Arena<T>, l: nat)
    requires Wf(h0) && IsList(h0, l)
    ensures Creating(h0, Created(h0), l, |h0.nx|, [])
  {
    var r := Created(h0);
    assert SameList(h0, r, l);
    forall t: nat | IsList(h0, t) && t !in {l} ensures SameList(h0, r, t) {
      assert SameList(h0, r, t);
    }
  }

  /** One more of `list counter[64];`. */
  lemma CreateCounter<T>(h0: Arena<T>, h: Arena<T>, l: nat, carry: nat, cs: seq<nat>)
    requires Creating(h0, h, l, carry, cs) && |cs| < CounterCount
    ensures Creating(h0, Created(h), l, carry, cs + [|h.nx|])
  {
    var r, c, cs' := Created(h), |h.nx|, cs + [|h.nx|];
    assert SameList(h, r, l) && SameList(h, r, carry);
    forall j | 0 <= j < |cs| ensures SameList(h, r, cs[j]) && cs[j] != c {
      assert SameList(h, r, cs[j]);
    }
    forall t: nat | IsList(h0, t) && t !in {l} ensures SameList(h0, r, t) {
      assert SameList(h0, h, t);
      assert SameList(h, r, t);
    }
    assert forall j :: 0 <= j < |cs'| ==> cs'[j] == if j < |cs| then cs[j] else c;
  }

  /** The arena forms of the loop states. */
  ghost predicate Taking<T(!new)>(h0: Arena<T>, h: Arena<T>, l: nat, carry: nat, cs: seq<nat>, fill: nat, lt: (T, T) -> bool)
  {
    Frame(h0, h, l, carry, cs) && TakingSeq(Elems(h0, l), Elems(h, l), Counts(h, cs), Elems(h, carry), fill, lt)
  }

  ghost predicate Carrying<T(!new)>(h0: Arena<T>, h: Arena<T>, l: nat, carry: nat, cs: seq<nat>, fill: nat, i: nat, lt: (T, T) -> bool)
  {
    Frame(h0, h, l, carry, cs) && CarryingSeq(Elems(h0, l), Elems(h, l), Counts(h, cs), Elems(h, carry), fill, i, lt)
  }

  ghost predicate Finishing<T(!new)>(h0: Arena<T>, h: Arena<T>, l: nat, carry: nat, cs: seq<nat>, fill: nat, i: nat, lt: (T, T) -> bool)
  {
    Frame(h0, h, l, carry, cs) && FoldingSeq(Elems(h0, l), Elems(h, l), Counts(h, cs), Elems(h, carry), fill, i, lt)
  }

  /** Once every list is constructed the main loop starts. */
  lemma StartTaking<T(!new)>(h0: Arena<T>, h: Arena<T>, l: nat, carry: nat, cs: seq<nat>, lt: (T, T) -> bool)
    requires Creating(h0, h, l, carry, cs) && |cs| == CounterCount && |Elems(h0, l)| < SizeLimit
    ensures Taking(h0, h, l, carry, cs, 0, lt)
  {
    StartSeq(Elems(h0, l), Counts(h, cs), lt);
  }

  /** `carry.splice(carry.begin(), *this, begin())`. */
  lemma SortTake<T(!new)>(h0: Arena<T>, h: Arena<T>, l: nat, carry: nat, cs: seq<nat>, fill: nat, lt: (T, T) -> bool)
    requires Taking(h0, h, l, carry, cs, fill, lt) && Elems(h, l) != []
    ensures var h' := SplicedOne(h, carry, 0, l, 0);
      Carrying(h0, h', l, carry, cs, fill, 0, lt) && |Elems(h', l)| < |Elems(h, l)|
  {
    var h' := SplicedOne(h, carry, 0, l, 0);
    var rest := Elems(h, l);
    FrameKept(h0, h, h', l, carry, cs, carry, l);
    assert Counts(h', cs) == Counts(h, cs);
    assert Elems(h', carry) == [rest[0]] by {
      assert Elems(h, carry)[..0] + [rest[0]] + Elems(h, carry)[0..] == [rest[0]];
    }
    assert Elems(h', l) == rest[1..] by {
      assert rest[..0] + rest[0 + 1..] == rest[1..];
    }
    TakeSeq(Elems(h0, l), rest, Counts(h, cs), fill, lt);
  }

  /** `counter[i].merge(carry, comp); carry.swap(counter[i++])`. */
  lemma SortMerge<T(!new)>(h0: Arena<T>, h: Arena<T>, l: nat, carry: nat, cs: seq<nat>, fill: nat, i: nat, lt: (T, T) -> bool)
    requires StrictWeakOrder(lt)
    requires Carrying(h0, h, l, carry, cs, fill, i, lt) && i < fill && Elems(h, cs[i]) != []
    ensures var h1 := Merged(h, cs[i], carry, lt);
      var h2 := Swapped(h1, carry, cs[i]);
      Carrying(h0, h2, l, carry, cs, fill, i + 1, lt) && Elems(h2, l) == Elems(h, l)
  {
    var h1 := Merged(h, cs[i], carry, lt);
    MergeCarry(h0, h, l, carry, cs, i, lt);
    SwapCarry(h0, h1, l, carry, cs, i);
    assert Counts(Swapped(h1, carry, cs[i]), cs) == Counts(h, cs)[i := []];
    MergeSeq(Elems(h0, l), Elems(h, l), Counts(h, cs), Elems(h, carry), fill, i, lt);
  }

  /** `carry.swap(counter[i]); if (i == fill) ++fill;`. */
  lemma SortPlace<T(!new)>(h0: Arena<T>, h: Arena<T>, l: nat, carry: nat, cs: seq<nat>, fill: nat, i: nat, lt: (T, T) -> bool)
    requires Carrying(h0, h, l, carry, cs, fill, i, lt) && (fill <= i || Elems(h, cs[i]) == [])
    ensures var h' := Swapped(h, carry, cs[i]);
      Taking(h0, h', l, carry, cs, if i == fill then fill + 1 else fill, lt) && Elems(h', l) == Elems(h, l)
  {
    SwapCarry(h0, h, l, carry, cs, i);
    PlaceSeq(Elems(h0, l), Elems(h, l), Counts(h, cs), Elems(h, carry), fill, i, lt);
  }

  /** The main loop ends with the list empty. */
  lemma StartFinishing<T(!new)>(h0: Arena<T>, h: Arena<T>, l: nat, carry: nat, cs: seq<nat>, fill: nat, lt: (T, T) -> bool)
    requires Taking(h0, h, l, carry, cs, fill, lt) && Elems(h, l) == [] && Elems(h0, l) != []
    ensures 1 <= fill && Finishing(h0, h, l, carry, cs, fill, 1, lt)
  {
    StartFoldSeq(Elems(h0, l), Counts(h, cs), Elems(h, carry), fill, lt);
  }

  /** `counter[i].merge(counter[i - 1], comp)`. */
  lemma SortFold<T(!new)>(h0: Arena<T>, h: Arena<T>, l: nat, carry: nat, cs: seq<nat>, fill: nat, i: nat, lt: (T, T) -> bool)
    requires StrictWeakOrder(lt)
    requires Finishing(h0, h, l, carry, cs, fill, i, lt) && i < fill
    ensures Finishing(h0, Merged(h, cs[i], cs[i - 1], lt), l, carry, cs, fill, i + 1, lt)
  {
    MergeCounter(h0, h, l, carry, cs, i, lt);
    FoldSeq(Elems(h0, l), Counts(h, cs), fill, i, lt);
  }

  /** The state while the temporaries are destroyed: list `l` holds the
      elements `S`, and `carry` and the counters below `k` still exist. */
  ghost predicate Releasing<T>(h0: Arena<T>, h: Arena<T>, l: nat, carry: nat, cs: seq<nat>, k: nat, S: seq<T>)
  {
    k <= |cs| && Frame(h0, h, l, carry, cs[..k]) && Elems(h, l) == S
  }

  /** `swap(counter[fill - 1])`: the list takes the top counter, a stable
      sort of its old elements. */
  lemma SortFinish<T(!new)>(h0: Arena<T>, h: Arena<T>, l: nat, carry: nat, cs: seq<nat>, fill: nat, lt: (T, T) -> bool)
    requires Finishing(h0, h, l, carry, cs, fill, fill, lt)
    ensures var h' := Swapped(h, l, cs[fill - 1]);
      Releasing(h0, h', l, carry, cs, |cs|, Elems(h', l)) && StableSortOf(Elems(h', l), Elems(h0, l), lt)
  {
    var h' := Swapped(h, l, cs[fill - 1]);
    FrameKept(h0, h, h', l, carry, cs, l, cs[fill - 1]);
    LadderFolded(Counts(h, cs), fill, Elems(h0, l), lt);
    assert cs[..|cs|] == cs;
  }

  /** The destructor of `counter[k - 1]`. */
  lemma ReleaseCounter<T>(h0: Arena<T>, h: Arena<T>, l: nat, carry: nat, cs: seq<nat>, k: nat, S: seq<T>)
    requires Releasing(h0, h, l, carry, cs, k, S) && 0 < k
    ensures Releasing(h0, Destroyed(h, cs[k - 1]), l, carry, cs, k - 1, S)
  {
    var c := cs[k - 1];
    var h' := Destroyed(h, c);
    assert cs[..k][k - 1] == c;
    assert SameList(h, h', l) && SameList(h, h', carry);
    forall j | 0 <= j < k - 1 ensures IsList(h', cs[j]) {
      assert cs[..k][j] == cs[j] && cs[j] != c;
      assert SameList(h, h', cs[j]);
    }
    forall t: nat | IsList(h0, t) && t !in {l} ensures SameList(h0, h', t) {
      assert SameList(h0, h, t);
      assert SameList(h, h', t);
    }
  }

  /** The destructor of `carry`, after those of the counters. */
  lemma ReleaseCarry<T>(h0: Arena<T>, h: Arena<T>, l: nat, carry: nat, cs: seq<nat>, S: seq<T>)
    requires Releasing(h0, h, l, carry, cs, 0, S)
    ensures var h' := Destroyed(h, carry);
      Wf(h') && IsList(h', l) && Untouched(h0, h', {l}) && Elems(h', l) == S
  {
    var h' := Destroyed(h, carry);
    assert SameList(h, h', l);
    forall t: nat | IsList(h0, t) && t !in {l} ensures SameList(h0, h', t) {
      assert SameList(h0, h, t);
      assert SameList(h, h', t);
    }
  }

  /** A list of at most one element is already stably sorted. */
  lemma SortShort<T(!new)>(s: seq<T>, lt: (T, T) -> bool)
    requires |s| <= 1
    ensures StableSortOf(s, s, lt)
  {
  }
}
