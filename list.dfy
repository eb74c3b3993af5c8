/** The doubly-linked circular list with a sentinel of `include/list/list.h`.

    All nodes live in one `ListHeap`, the arena of module `ListArena` held in
    fields: node `n` has the links `nx[n]` (`next`) and `pv[n]` (`prev`), and
    a data node has the payload `d[n]`.  A `list` object is its embedded
    sentinel node together with its `sz` field, so a list is named by the
    number of its sentinel `l`, and `sz[l]` is its size.  Keeping every list
    in one heap lets `splice`, `merge`, `swap` and `sort` move nodes from one
    list to another by relinking them, as the source does; no payload is
    copied.  The ghost fields give the data nodes of each list front to back
    (`ls`) and the list every node belongs to (`ow`).

    An iterator is a node together with a ghost position `p` in its list
    (`end()` is the sentinel, at position `|ls[l]|`).  Every method performs
    the link updates of the source on the fields and states the new heap
    as the function of module `ListArena`, `ListOps`, `ListMoves` or
    `ListMerge` that describes the step; what those functions do to the
    elements is proved there. */
module List {
  import opened Orders
  import opened ListSpec
  import opened ListLinks
  import opened ListArena
  import opened ListOps
  import opened ListMoves
  import opened ListMerge
  import opened ListSort

  /** The predicate `remove(value)` hands to `remove_if`. */
  function EqualTo<T(==)>(v: T): T -> bool
  {
    x => x == v
  }

  class ListHeap<T(==, !new)> {
    var nx: seq<nat>
    var pv: seq<nat>
    var d: map<nat, T>
    var sz: seq<nat>
    ghost var ow: seq<int>
    ghost var ls: seq<seq<nat>>

    /** The whole heap as a value. */
    ghost function State(): Arena<T>
      reads this
    {
      Arena(nx, pv, d, ow, sz, ls)
    }

    ghost predicate Valid()
      reads this
    {
      Wf(State())
    }

    /** The elements of list `l`, front to back. */
    ghost function Contents(l: nat): seq<T>
      reads this
      requires Valid() && IsList(State(), l)
    {
      Elems(State(), l)
    }

    /** An empty heap. */
    constructor ()
      ensures State() == Arena([], [], map[], [], [], []) && Valid()
    {
      nx, pv, d, sz := [], [], map[], [];
      ow, ls := [], [];
    }

    /** `link_nodes(a, b)`: `a->next = b; b->prev = a`. */
    method LinkNodes(a: nat, b: nat)
      requires a < |nx| && b < |pv|
      modifies this
      ensures nx == old(nx)[a := b] && pv == old(pv)[b := a]
      ensures d == old(d) && sz == old(sz) && ow == old(ow) && ls == old(ls)
    {
      nx := nx[a := b];
      pv := pv[b := a];
    }

    /** `insert_node(pos, n)`: `n` goes between `pos->prev` and `pos`. */
    method InsertNode(pos: nat, n: nat)
      requires |pv| == |nx| && pos < |nx| && n < |nx| && pv[pos] < |nx|
      modifies this
      ensures nx == old(nx)[old(pv)[pos] := n][n := pos]
      ensures pv == old(pv)[n := old(pv)[pos]][pos := n]
      ensures d == old(d) && sz == old(sz) && ow == old(ow) && ls == old(ls)
    {
      var before := pv[pos];
      LinkNodes(before, n);
      LinkNodes(n, pos);
    }

    /** `unlink_node(n)`: `n->prev` and `n->next` become neighbours. */
    method UnlinkNode(n: nat)
      requires |pv| == |nx| && n < |nx| && nx[n] < |nx| && pv[n] < |nx|
      modifies this
      ensures nx == old(nx)[old(pv)[n] := old(nx)[n]]
      ensures pv == old(pv)[old(nx)[n] := old(pv)[n]]
      ensures d == old(d) && sz == old(sz) && ow == old(ow) && ls == old(ls)
    {
      LinkNodes(pv[n], nx[n]);
    }

    /** `create_node(value)` for list `l`: the fresh node `|nx|` holds
        `value`; its links point at itself (they stand for the null links
        of the source) until it is linked in. */
    method CreateNode(ghost l: nat, value: T) returns (n: nat)
      modifies this
      ensures n == old(|nx|)
      ensures nx == old(nx) + [n] && pv == old(pv) + [n] && d == old(d)[n := value]
      ensures ow == old(ow) + [l] && sz == old(sz) + [0] && ls == old(ls) + [[]]
    {
      n := |nx|;
      nx, pv := nx + [n], pv + [n];
      d := d[n := value];
      ow, sz, ls := ow + [l], sz + [0], ls + [[]];
    }

    /** `destroy_node(n)`: node `n` gives up its payload and its list. */
    method DestroyNode(n: nat)
      requires n < |ow|
      modifies this
      ensures d == old(d) - {n} && ow == old(ow)[n := -1]
      ensures nx == old(nx) && pv == old(pv) && sz == old(sz) && ls == old(ls)
    {
      d := d - {n};
      ow := ow[n := -1];
    }

    /** `list()`: a new sentinel linked to itself, with `sz == 0`. */
    method NewList() returns (l: nat)
      requires Valid()
      modifies this
      ensures l == old(|nx|) && State() == Created(old(State()))
    {
      l := |nx|;
      nx, pv := nx + [l], pv + [l];
      ow, sz, ls := ow + [l], sz + [0], ls + [[]];
    }

    /** `front()`: the first element; the list must not be empty. */
    function Front(l: nat): (v: T)
      reads this
      requires Valid() && IsList(State(), l) && sz[l] != 0
      ensures v == Contents(l)[0]
    {
      assert ListWf(nx, pv, d, ow, l, sz[l], ls[l]);
      d[nx[l]]
    }

    /** `back()`: the last element; the list must not be empty. */
    function Back(l: nat): (v: T)
      reads this
      requires Valid() && IsList(State(), l) && sz[l] != 0
      ensures v == Contents(l)[|Contents(l)| - 1]
    {
      assert ListWf(nx, pv, d, ow, l, sz[l], ls[l]);
      RingPrev(nx, pv, l, ls[l], sz[l]);
      d[pv[l]]
    }

    /** `begin()`: the node at position 0 (the sentinel when empty). */
    function Begin(l: nat): (n: nat)
      reads this
      requires Valid() && IsList(State(), l)
      ensures n == NodeAt(l, ls[l], 0)
    {
      assert ListWf(nx, pv, d, ow, l, sz[l], ls[l]);
      nx[l]
    }

    /** `++it` for the iterator at position `p`, which must not be `end()`. */
    function Succ(l: nat, it: nat, ghost p: nat): (n: nat)
      reads this
      requires Valid() && IsList(State(), l) && p < |ls[l]| && it == NodeAt(l, ls[l], p)
      ensures n == NodeAt(l, ls[l], p + 1)
    {
      assert ListWf(nx, pv, d, ow, l, sz[l], ls[l]);
      RingStep(nx, pv, l, ls[l], p);
      nx[it]
    }

    /** `--it` for the iterator at position `p`, which must not be
        `begin()`. */
    function Pred(l: nat, it: nat, ghost p: nat): (n: nat)
      reads this
      requires Valid() && IsList(State(), l) && 0 < p <= |ls[l]| && it == NodeAt(l, ls[l], p)
      ensures n == NodeAt(l, ls[l], p - 1)
    {
      assert ListWf(nx, pv, d, ow, l, sz[l], ls[l]);
      RingStep(nx, pv, l, ls[l], p - 1);
      pv[it]
    }

    /** `*it` for the iterator at position `p`. */
    function Get(l: nat, it: nat, ghost p: nat): (v: T)
      reads this
      requires Valid() && IsList(State(), l) && p < |ls[l]| && it == NodeAt(l, ls[l], p)
      ensures v == Contents(l)[p]
    {
      assert ListWf(nx, pv, d, ow, l, sz[l], ls[l]);
      d[it]
    }

    /** `size()`. */
    function Size(l: nat): (n: nat)
      reads this
      requires Valid() && IsList(State(), l)
      ensures n == |Contents(l)|
    {
      assert ListWf(nx, pv, d, ow, l, sz[l], ls[l]);
      sz[l]
    }

    /** `empty()`. */
    function Empty(l: nat): (b: bool)
      reads this
      requires Valid() && IsList(State(), l)
      ensures b <==> Contents(l) == []
    {
      assert ListWf(nx, pv, d, ow, l, sz[l], ls[l]);
      sz[l] == 0
    }

    /** `insert(pos, value)` (and `emplace(pos, value)`): a new node holding
        `value` goes immediately before `pos`, at position `p`; the iterator
        to it is returned. */
    method Insert(l: nat, pos: nat, ghost p: nat, value: T) returns (it: nat)
      requires Valid() && IsList(State(), l) && p <= |ls[l]| && pos == NodeAt(l, ls[l], p)
      modifies this
      ensures State() == Inserted(old(State()), l, p, value) && it == old(|nx|)
    {
      ghost var ids := ls[l];
      assert ListWf(nx, pv, d, ow, l, sz[l], ids);
      RingPrev(nx, pv, l, ids, p);
      it := CreateNode(l, value);
      InsertNode(pos, it);
      sz := sz[l := sz[l] + 1];
      ls := ls[l := ids[..p] + [it] + ids[p..]];
    }

    /** `erase(pos)` for `pos` at position `p` (not `end()`): the node is
        unlinked and destroyed; the iterator to its successor, now at
        position `p`, is returned. */
    method Erase(l: nat, pos: nat, ghost p: nat) returns (next: nat)
      requires Valid() && IsList(State(), l) && p < |ls[l]| && pos == NodeAt(l, ls[l], p)
      modifies this
      ensures State() == Erased(old(State()), l, p) && next == NodeAt(l, ls[l], p)
    {
      ghost var ids := ls[l];
      assert ListWf(nx, pv, d, ow, l, sz[l], ids);
      RingStep(nx, pv, l, ids, p);
      NodeAtErase(l, ids, p, p);
      next := nx[pos];
      UnlinkNode(pos);
      DestroyNode(pos);
      sz := sz[l := sz[l] - 1];
      ls := ls[l := ids[..p] + ids[p + 1..]];
    }

    /** `clear()`: the loop destroys every data node front to back, then the
        sentinel is linked to itself and `sz` becomes 0. */
    method Clear(l: nat)
      requires Valid() && IsList(State(), l)
      modifies this
      ensures State() == Cleared(old(State()), l)
    {
      ghost var ids := ls[l];
      assert ListWf(nx, pv, d, ow, l, sz[l], ids);
      var curr := nx[l];
      ghost var k := 0;
      while curr != l
        invariant k <= |ids| && curr == NodeAt(l, ids, k)
        invariant nx == old(nx) && pv == old(pv) && sz == old(sz) && ls == old(ls) && |ow| == |nx|
        invariant d == Drop(old(d), ids[..k]) && ow == Kill(old(ow), ids[..k])
        decreases |ids| - k
      {
        RingStep(nx, pv, l, ids, k);
        var next := nx[curr];
        DestroyNode(curr);
        assert ids[..k + 1][..k] == ids[..k];
        curr := next;
        k := k + 1;
      }
      assert ids[..k] == ids;
      nx, pv := nx[l := l], pv[l := l];
      sz := sz[l := 0];
      ls := ls[l := []];
    }

    /** The destructor `~list()`: `clear()`; the sentinel goes with the
        list object. */
    method Destroy(l: nat)
      requires Valid() && IsList(State(), l)
      modifies this
      ensures State() == Destroyed(old(State()), l)
    {
      Clear(l);
      ow := ow[l := -1];
    }

    /** `insert(pos, first, last)` with the range given as `xs`: nothing
        happens for an empty range and `pos` is returned; otherwise the
        first element is inserted and the iterator to it is kept, then the
        others are inserted before `pos` in turn. */
    method InsertRange(l: nat, pos: nat, ghost p: nat, xs: seq<T>) returns (it: nat)
      requires Valid() && IsList(State(), l) && p <= |ls[l]| && pos == NodeAt(l, ls[l], p)
      modifies this
      ensures State() == InsertedAll(old(State()), l, p, xs) && it == NodeAt(l, ls[l], p)
    {
      if |xs| == 0 {
        return pos;
      }
      ghost var h0 := State();
      it := Insert(l, pos, p, xs[0]);
      TakeSnoc(xs, 0);
      var i := 1;
      while i < |xs|
        invariant 1 <= i <= |xs| && State() == InsertedAll(h0, l, p, xs[..i]) && it == |h0.nx|
      {
        InsertedAllElems(h0, l, p, xs[..i]);
        var _ := Insert(l, pos, p + i, xs[i]);
        TakeSnoc(xs, i);
        i := i + 1;
      }
      InsertedAllElems(h0, l, p, xs);
    }

    /** `insert(pos, count, value)`: nothing happens for `count == 0` and
        `pos` is returned; otherwise `count` copies of `value` are inserted
        before `pos` and the iterator to the first one is returned. */
    method InsertCount(l: nat, pos: nat, ghost p: nat, count: nat, value: T) returns (it: nat)
      requires Valid() && IsList(State(), l) && p <= |ls[l]| && pos == NodeAt(l, ls[l], p)
      modifies this
      ensures State() == InsertedAll(old(State()), l, p, Fill(count, value)) && it == NodeAt(l, ls[l], p)
    {
      if count == 0 {
        return pos;
      }
      ghost var h0, xs := State(), Fill(count, value);
      it := Insert(l, pos, p, value);
      TakeSnoc(xs, 0);
      var i := 1;
      while i < count
        invariant 1 <= i <= count && State() == InsertedAll(h0, l, p, xs[..i]) && it == |h0.nx|
      {
        InsertedAllElems(h0, l, p, xs[..i]);
        var _ := Insert(l, pos, p + i, value);
        TakeSnoc(xs, i);
        i := i + 1;
      }
      InsertedAllElems(h0, l, p, xs);
      assert xs[..count] == xs;
    }

    /** `erase(first, last)` for `first` at position `f` and `last` at `e`:
        `first = erase(first)` until it reaches `last`, which is returned. */
    method EraseRange(l: nat, first: nat, ghost f: nat, last: nat, ghost e: nat) returns (r: nat)
      requires Valid() && IsList(State(), l) && f <= e <= |ls[l]|
      requires first == NodeAt(l, ls[l], f) && last == NodeAt(l, ls[l], e)
      modifies this
      ensures State() == ErasedRun(old(State()), l, f, e - f) && r == last
    {
      ghost var h0 := State();
      assert ListWf(nx, pv, d, ow, l, sz[l], h0.ls[l]);
      var it := first;
      ghost var k := 0;
      while it != last
        invariant k <= e - f && State() == ErasedRun(h0, l, f, k) && it == NodeAt(l, h0.ls[l], f + k)
        decreases e - f - k
      {
        RingPositions(l, h0.ls[l], f + k, e);
        ErasedRunStep(h0, l, f, k);
        it := Erase(l, it, f);
        k := k + 1;
        ErasedRunStep(h0, l, f, k);
      }
      RingPositions(l, h0.ls[l], f + k, e);
      r := last;
    }

    /** `std::advance(it, n)` from position `p`: `++it`, `n` times. */
    method Advance(l: nat, it: nat, ghost p: nat, n: nat) returns (r: nat)
      requires Valid() && IsList(State(), l) && p + n <= |ls[l]| && it == NodeAt(l, ls[l], p)
      ensures r == NodeAt(l, ls[l], p + n)
    {
      r := it;
      var i := 0;
      while i < n
        invariant i <= n && r == NodeAt(l, ls[l], p + i)
      {
        r := Succ(l, r, p + i);
        i := i + 1;
      }
    }

    /** `std::distance(first, last)` for `first` at position `f` and `last`
        at `e`: the number of `++first` steps until `last`. */
    method Distance(l: nat, first: nat, ghost f: nat, last: nat, ghost e: nat) returns (count: nat)
      requires Valid() && IsList(State(), l) && f <= e <= |ls[l]|
      requires first == NodeAt(l, ls[l], f) && last == NodeAt(l, ls[l], e)
      ensures count == e - f
    {
      assert ListWf(nx, pv, d, ow, l, sz[l], ls[l]);
      count := 0;
      var it := first;
      while it != last
        invariant f + count <= e && it == NodeAt(l, ls[l], f + count)
        decreases e - f - count
      {
        RingPositions(l, ls[l], f + count, e);
        it := Succ(l, it, f + count);
        count := count + 1;
      }
      RingPositions(l, ls[l], f + count, e);
    }

    /** `push_back(value)`: `insert(end(), value)`. */
    method PushBack(l: nat, value: T)
      requires Valid() && IsList(State(), l)
      modifies this
      ensures State() == PushedBack(old(State()), l, value)
    {
      var _ := Insert(l, l, |ls[l]|, value);
    }

    /** `emplace_back(value)`: `emplace(end(), value)`, then `back()`. */
    method EmplaceBack(l: nat, value: T) returns (r: T)
      requires Valid() && IsList(State(), l)
      modifies this
      ensures State() == PushedBack(old(State()), l, value) && r == value
    {
      var _ := Insert(l, l, |ls[l]|, value);
      r := Back(l);
    }

    /** `pop_back()`: `erase(--end())`; the list must not be empty. */
    method PopBack(l: nat)
      requires Valid() && IsList(State(), l) && ls[l] != []
      modifies this
      ensures State() == PoppedBack(old(State()), l)
    {
      assert ListWf(nx, pv, d, ow, l, sz[l], ls[l]);
      var last := Pred(l, l, |ls[l]|);
      var _ := Erase(l, last, |ls[l]| - 1);
    }

    /** `push_front(value)`: `insert(begin(), value)`. */
    method PushFront(l: nat, value: T)
      requires Valid() && IsList(State(), l)
      modifies this
      ensures State() == PushedFront(old(State()), l, value)
    {
      var _ := Insert(l, Begin(l), 0, value);
    }

    /** `emplace_front(value)`: `emplace(begin(), value)`, then `front()`. */
    method EmplaceFront(l: nat, value: T) returns (r: T)
      requires Valid() && IsList(State(), l)
      modifies this
      ensures State() == PushedFront(old(State()), l, value) && r == value
    {
      var _ := Insert(l, Begin(l), 0, value);
      r := Front(l);
    }

    /** `pop_front()`: `erase(begin())`; the list must not be empty. */
    method PopFront(l: nat)
      requires Valid() && IsList(State(), l) && ls[l] != []
      modifies this
      ensures State() == PoppedFront(old(State()), l)
    {
      assert ListWf(nx, pv, d, ow, l, sz[l], ls[l]);
      var _ := Erase(l, Begin(l), 0);
    }

    /** `resize(count, value)`: a longer list loses everything from
        position `count` on; a shorter one gets `push_back(value)` until it
        has `count` elements. */
    method Resize(l: nat, count: nat, value: T)
      requires Valid() && IsList(State(), l)
      modifies this
      ensures State() == Resized(old(State()), l, count, value)
    {
      ghost var h0 := State();
      assert ListWf(nx, pv, d, ow, l, sz[l], ls[l]);
      var n := sz[l];
      if count < n {
        var it := Advance(l, Begin(l), 0, count);
        var _ := EraseRange(l, it, count, l, n);
      } else {
        var i := n;
        while i < count
          invariant n <= i <= count && State() == InsertedAll(h0, l, n, Fill(i - n, value))
        {
          PushedBackAll(h0, l, Fill(i - n, value), value);
          FillAppend(i - n, value);
          PushBack(l, value);
          i := i + 1;
        }
      }
    }

    /** `remove_if(pred)`: the loop erases every element satisfying `pred`
        and steps over the others; the number erased is returned. */
    method RemoveIf(l: nat, pred: T -> bool) returns (removed: nat)
      requires Valid() && IsList(State(), l)
      modifies this
      ensures State() == RemovedIf(old(State()), l, pred) && removed == |old(ls[l])| - |ls[l]|
    {
      ghost var h0 := State();
      removed := 0;
      var it := Begin(l);
      ghost var p := 0;
      while it != l
        invariant Valid() && IsList(State(), l) && p <= |ls[l]| && it == NodeAt(l, ls[l], p)
        invariant RemoveFrom(State(), l, pred, p) == RemoveFrom(h0, l, pred, 0)
        invariant removed + |ls[l]| == |h0.ls[l]|
        decreases |ls[l]| - p
      {
        assert ListWf(nx, pv, d, ow, l, sz[l], ls[l]);
        if pred(Get(l, it, p)) {
          it := Erase(l, it, p);
          removed := removed + 1;
        } else {
          it := Succ(l, it, p);
          p := p + 1;
        }
      }
      assert ListWf(nx, pv, d, ow, l, sz[l], ls[l]);
    }

    /** `remove(value)`: `remove_if` with equality to `value`. */
    method Remove(l: nat, value: T) returns (removed: nat)
      requires Valid() && IsList(State(), l)
      modifies this
      ensures State() == RemovedIf(old(State()), l, EqualTo(value)) && removed == |old(ls[l])| - |ls[l]|
    {
      removed := RemoveIf(l, EqualTo(value));
    }

    /** `unique(pred)`: nothing happens when `sz <= 1`; otherwise `prev`
        starts at the front and `it` after it, and `it` is erased when
        `pred(*prev, *it)`, else both step forward.  The number erased is
        returned. */
    method Unique(l: nat, pred: (T, T) -> bool) returns (removed: nat)
      requires Valid() && IsList(State(), l)
      modifies this
      ensures State() == Uniqued(old(State()), l, pred) && removed == |old(ls[l])| - |ls[l]|
    {
      assert ListWf(nx, pv, d, ow, l, sz[l], ls[l]);
      if sz[l] <= 1 {
        return 0;
      }
      ghost var h0 := State();
      removed := 0;
      var it := Begin(l);
      var prev := it;
      it := Succ(l, it, 0);
      ghost var p := 1;
      while it != l
        invariant Valid() && IsList(State(), l) && 1 <= p <= |ls[l]| && it == NodeAt(l, ls[l], p)
        invariant prev == ls[l][p - 1]
        invariant UniqueFrom(State(), l, pred, p) == UniqueFrom(h0, l, pred, 1)
        invariant removed + |ls[l]| == |h0.ls[l]|
        decreases |ls[l]| - p
      {
        assert ListWf(nx, pv, d, ow, l, sz[l], ls[l]);
        if pred(Get(l, prev, p - 1), Get(l, it, p)) {
          it := Erase(l, it, p);
          removed := removed + 1;
        } else {
          prev := it;
          it := Succ(l, it, p);
          p := p + 1;
        }
      }
      assert ListWf(nx, pv, d, ow, l, sz[l], ls[l]);
    }

    /** `reverse()`: nothing happens when `sz <= 1`; otherwise the
        `do`-`while` loop exchanges `prev` and `next` of the current node
        and moves to its new `prev` (its old `next`), from the sentinel
        round the ring back to the sentinel. */
    method Reverse(l: nat)
      requires Valid() && IsList(State(), l)
      modifies this
      ensures State() == Reversed(old(State()), l)
    {
      ghost var h0 := State();
      ReverseBounds(h0, l);
      if sz[l] <= 1 {
        return;
      }
      ghost var ns := [l] + ls[l];
      assert ns[..0] == [];
      var curr := l;
      ghost var k := 0;
      while true
        invariant k <= |h0.ls[l]| && curr == ns[k]
        invariant nx == Flip(h0.nx, h0.pv, ns[..k]) && pv == Flip(h0.pv, h0.nx, ns[..k])
        invariant d == h0.d && ow == h0.ow && sz == h0.sz && ls == h0.ls
        decreases |ns| - k
      {
        ReverseVisit(h0, l, k);
        var t := nx[curr];
        nx := nx[curr := pv[curr]];
        pv := pv[curr := t];
        curr := pv[curr];
        if curr == l {
          break;
        }
        k := k + 1;
      }
      assert ns[..k + 1] == ns;
      ls := ls[l := Rev(ls[l])];
    }

    /** `swap(other)`: nothing happens when both lists are empty; when one
        is empty the other's run is hung from its sentinel and the other
        sentinel is linked to itself; otherwise four `link_nodes` calls
        exchange the runs.  Then the sizes are exchanged. */
    method Swap(l: nat, o: nat)
      requires Valid() && IsList(State(), l) && IsList(State(), o)
      modifies this
      ensures State() == Swapped(old(State()), l, o)
    {
      ghost var h0 := State();
      SwapBounds(h0, l, o);
      SwapSelf(h0, l);
      if sz[l] == 0 && sz[o] == 0 {
        return;
      }
      if sz[l] == 0 {
        var first, last := nx[o], pv[o];
        LinkNodes(l, first);
        LinkNodes(last, l);
        nx, pv := nx[o := o], pv[o := o];
      } else if sz[o] == 0 {
        var first, last := nx[l], pv[l];
        LinkNodes(o, first);
        LinkNodes(last, o);
        nx, pv := nx[l := l], pv[l := l];
      } else {
        var thisFirst, thisLast, otherFirst, otherLast := nx[l], pv[l], nx[o], pv[o];
        LinkNodes(l, otherFirst);
        LinkNodes(otherLast, l);
        LinkNodes(o, thisFirst);
        LinkNodes(thisLast, o);
      }
      sz := sz[l := sz[o]][o := sz[l]];
      ow, ls := Swapped(h0, l, o).ow, Swapped(h0, l, o).ls;
      if l == o {
        assert nx == h0.nx && pv == h0.pv && sz == h0.sz;
      }
    }

    /** `splice(pos, other, first, last)` for `pos` at position `p` of list
        `l` and the run `[first, last)` at positions `[f, e)` of list `o`:
        nothing happens when `first == last`; otherwise `count` is the
        distance, `link_nodes(first->prev, last)` cuts the run out,
        `link_nodes(pos->prev, first)` and `link_nodes(last_prev, pos)`
        hang it before `pos`, and `count` moves from one size to the
        other.  Within one list `pos` must lie outside the run. */
    method Splice(l: nat, pos: nat, ghost p: nat, o: nat, first: nat, ghost f: nat, last: nat, ghost e: nat)
      requires Valid() && IsList(State(), l) && IsList(State(), o) && p <= |ls[l]| && f <= e <= |ls[o]|
      requires pos == NodeAt(l, ls[l], p) && first == NodeAt(o, ls[o], f) && last == NodeAt(o, ls[o], e)
      requires l == o && f < e ==> p < f || e <= p
      modifies this
      ensures State() == Spliced(old(State()), l, p, o, f, e)
    {
      ghost var h0 := State();
      ListPositions(h0, o, f, e);
      if first == last {
        return;
      }
      var count := Distance(o, first, f, last, e);
      SpliceLinks(h0, l, p, o, f, e);
      ghost var r := Relinked(h0, l, p, o, f, e);
      var lastPrev := pv[last];
      LinkNodes(pv[first], last);
      var posPrev := pv[pos];
      LinkNodes(posPrev, first);
      LinkNodes(lastPrev, pos);
      sz := sz[o := sz[o] - count];
      sz := sz[l := sz[l] + count];
      ow, ls := r.ow, r.ls;
      RelinkedStep(h0, l, p, o, f, e, count, h0.pv[first], last, first, lastPrev, pos, State());
    }

    /** `splice(pos, other, it)` for `it` at position `q` of list `o`:
        nothing happens when `pos` is `it` or the node after it; otherwise
        `unlink_node(it)` and `insert_node(pos, it)` move the node and the
        sizes change by one. */
    method SpliceOne(l: nat, pos: nat, ghost p: nat, o: nat, it: nat, ghost q: nat)
      requires Valid() && IsList(State(), l) && IsList(State(), o) && p <= |ls[l]| && q < |ls[o]|
      requires pos == NodeAt(l, ls[l], p) && it == NodeAt(o, ls[o], q)
      modifies this
      ensures State() == SplicedOne(old(State()), l, p, o, q)
    {
      ghost var h0 := State();
      var next := Succ(o, it, q);
      SpliceOnePositions(h0, l, p, o, q);
      if pos == it || pos == next {
        return;
      }
      SplicedOneRelinked(h0, l, p, o, q);
      MoveNode(l, pos, p, o, it, q);
    }

    /** The relinking of `splice(pos, other, it)` once `pos` is known to be
        neither `it` nor the node after it. */
    method MoveNode(l: nat, pos: nat, ghost p: nat, o: nat, it: nat, ghost q: nat)
      requires Valid() && IsList(State(), l) && IsList(State(), o) && p <= |ls[l]| && q < |ls[o]|
      requires pos == NodeAt(l, ls[l], p) && it == ls[o][q]
      requires l == o ==> p < q || q + 1 <= p
      modifies this
      ensures State() == Relinked(old(State()), l, p, o, q, q + 1)
    {
      ghost var h0 := State();
      SpliceLinks(h0, l, p, o, q, q + 1);
      ghost var r := Relinked(h0, l, p, o, q, q + 1);
      ghost var a, b := nx[it], pv[it];
      UnlinkNode(it);
      assert nx == h0.nx[b := a] && pv == h0.pv[a := b];
      InsertNode(pos, it);
      sz := sz[o := sz[o] - 1];
      sz := sz[l := sz[l] + 1];
      ow, ls := r.ow, r.ls;
      RelinkedStep(h0, l, p, o, q, q + 1, 1, h0.pv[it], h0.nx[it], it, it, pos, State());
    }

    /** `splice(pos, other)`: nothing happens when `other` is empty;
        otherwise `splice(pos, other, other.begin(), other.end())`.  Within
        one list only `pos == end()` is meaningful. */
    method SpliceAll(l: nat, pos: nat, ghost p: nat, o: nat)
      requires Valid() && IsList(State(), l) && IsList(State(), o) && p <= |ls[l]| && pos == NodeAt(l, ls[l], p)
      requires l == o ==> p == |ls[l]|
      modifies this
      ensures State() == SplicedAll(old(State()), l, p, o)
    {
      assert ListWf(nx, pv, d, ow, o, sz[o], ls[o]);
      if Empty(o) {
        return;
      }
      Splice(l, pos, p, o, Begin(o), 0, o, |ls[o]|);
    }

    /** `merge(other, comp)`: nothing happens when `other` is this list;
        otherwise, while neither iterator is at its end, the front of
        `other` is spliced before `it1` when `comp(*it2, *it1)`, else `it1`
        advances; what is left of `other` is spliced before `end()`. */
    method Merge(l: nat, o: nat, lt: (T, T) -> bool)
      requires Valid() && IsList(State(), l) && IsList(State(), o)
      modifies this
      ensures State() == Merged(old(State()), l, o, lt)
    {
      if l == o {
        return;
      }
      ghost var h0 := State();
      var it1 := Begin(l);
      var it2 := Begin(o);
      ghost var i := 0;
      while it1 != l && it2 != o
        invariant Valid() && IsList(State(), l) && IsList(State(), o) && i <= |ls[l]|
        invariant it1 == NodeAt(l, ls[l], i) && it2 == NodeAt(o, ls[o], 0)
        invariant MergeFrom(State(), l, o, lt, i) == MergeFrom(h0, l, o, lt, 0)
        decreases |ls[l]| + |ls[o]| - i
      {
        ListPositions(State(), l, i, |ls[l]|);
        ListPositions(State(), o, 0, |ls[o]|);
        ghost var S, T := ls[l], ls[o];
        if lt(Get(o, it2, 0), Get(l, it1, i)) {
          var next := Succ(o, it2, 0);
          SpliceOne(l, it1, i, o, it2, 0);
          NodeAtRun(l, S, i, [T[0]]);
          NodeAtCut(o, T, 0, 1);
          it2 := next;
        } else {
          it1 := Succ(l, it1, i);
        }
        i := i + 1;
      }
      ListPositions(State(), l, i, |ls[l]|);
      ListPositions(State(), o, 0, |ls[o]|);
      if it2 != o {
        Splice(l, l, |ls[l]|, o, it2, 0, o, |ls[o]|);
      }
    }

    /** `sort(comp)`: a stable merge sort that relinks the nodes of the
        list through the temporaries `carry` and `counter[64]`.  The list
        ends up a stable sort of its elements, and every other list is as
        it was.  The size of a list is a `size_t`, below `2^64`. */
    method Sort(l: nat, lt: (T, T) -> bool)
      requires Valid() && IsList(State(), l) && StrictWeakOrder(lt) && |ls[l]| < SizeLimit
      modifies this
      ensures Valid() && IsList(State(), l) && Untouched(old(State()), State(), {l})
      ensures StableSortOf(Contents(l), old(Contents(l)), lt)
      ensures multiset(Contents(l)) == multiset(old(Contents(l)))
    {
      ghost var h0 := State();
      if Size(l) <= 1 {
        SortShort(Contents(l), lt);
        UntouchedSelf(h0, {l});
        return;
      }
      var carry, counter := MakeTemps(l);
      StartTaking(h0, State(), l, carry, counter[..], lt);
      var fill := TakeAll(h0, l, carry, counter, lt);
      StartFinishing(h0, State(), l, carry, counter[..], fill, lt);
      FoldAll(h0, l, carry, counter, fill, lt);
      SortFinish(h0, State(), l, carry, counter[..], fill, lt);
      Swap(l, counter[fill - 1]);
      ReleaseTemps(h0, l, carry, counter, Contents(l));
      StableSortIsPermutation(Contents(l), Elems(h0, l), lt);
    }

    /** `list carry; list counter[64];`: 65 new empty lists. */
    method MakeTemps(l: nat) returns (carry: nat, counter: array<nat>)
      requires Valid() && IsList(State(), l)
      modifies this
      ensures fresh(counter) && counter.Length == CounterCount
      ensures Valid() && Creating(old(State()), State(), l, carry, counter[..])
    {
      ghost var h0 := State();
      CreateCarry(h0, l);
      carry := NewList();
      counter := new nat[CounterCount];
      for j := 0 to CounterCount
        invariant Valid() && Creating(h0, State(), l, carry, counter[..j])
      {
        CreateCounter(h0, State(), l, carry, counter[..j]);
        var c := NewList();
        counter[j] := c;
        assert counter[..j + 1] == counter[..j] + [c];
      }
      assert counter[..] == counter[..CounterCount];
    }

    /** The main loop `while (!empty())` of `sort`: each element taken from
        the front is carried up the ladder of counters. */
    method TakeAll(ghost h0: Arena<T>, l: nat, carry: nat, counter: array<nat>, lt: (T, T) -> bool) returns (fill: nat)
      requires StrictWeakOrder(lt) && Valid() && Taking(h0, State(), l, carry, counter[..], 0, lt)
      modifies this
      ensures Valid() && Taking(h0, State(), l, carry, counter[..], fill, lt) && Elems(State(), l) == []
    {
      fill := 0;
      while !Empty(l)
        invariant Valid() && Taking(h0, State(), l, carry, counter[..], fill, lt)
        decreases |ls[l]|
      {
        ghost var g := State();
        SortTake(h0, g, l, carry, counter[..], fill, lt);
        SpliceOne(carry, Begin(carry), 0, l, Begin(l), 0);
        var i := 0;
        while i < fill && !Empty(counter[i])
          invariant Valid() && Carrying(h0, State(), l, carry, counter[..], fill, i, lt)
          invariant |ls[l]| < |g.ls[l]|
          decreases fill - i
        {
          SortMerge(h0, State(), l, carry, counter[..], fill, i, lt);
          Merge(counter[i], carry, lt);
          Swap(carry, counter[i]);
          i := i + 1;
        }
        SortPlace(h0, State(), l, carry, counter[..], fill, i, lt);
        Swap(carry, counter[i]);
        if i == fill {
          fill := fill + 1;
        }
      }
    }

    /** `for (int i = 1; i < fill; ++i) counter[i].merge(counter[i - 1], comp);` */
    method FoldAll(ghost h0: Arena<T>, l: nat, carry: nat, counter: array<nat>, fill: nat, lt: (T, T) -> bool)
      requires StrictWeakOrder(lt) && Valid() && Finishing(h0, State(), l, carry, counter[..], fill, 1, lt)
      modifies this
      ensures Valid() && Finishing(h0, State(), l, carry, counter[..], fill, fill, lt)
    {
      for i := 1 to fill
        invariant Valid() && Finishing(h0, State(), l, carry, counter[..], fill, i, lt)
      {
        SortFold(h0, State(), l, carry, counter[..], fill, i, lt);
        Merge(counter[i], counter[i - 1], lt);
      }
    }

    /** The destructors of `counter[63]` down to `counter[0]` and of
        `carry`, in reverse order of construction. */
    method ReleaseTemps(ghost h0: Arena<T>, l: nat, carry: nat, counter: array<nat>, ghost S: seq<T>)
      requires Valid() && Releasing(h0, State(), l, carry, counter[..], counter.Length, S)
      modifies this
      ensures Valid() && IsList(State(), l) && Untouched(h0, State(), {l}) && Elems(State(), l) == S
    {
      var k: nat := counter.Length;
      while k > 0
        invariant Valid() && Releasing(h0, State(), l, carry, counter[..], k, S)
      {
        ReleaseCounter(h0, State(), l, carry, counter[..], k, S);
        Destroy(counter[k - 1]);
        k := k - 1;
      }
      ReleaseCarry(h0, State(), l, carry, counter[..], S);
      Destroy(carry);
    }
  }
}
