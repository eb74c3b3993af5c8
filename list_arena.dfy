/** The node arena behind the lists of `include/list/list.h`, as a value.

    Every node, sentinel or data node, is a number.  `nx[n]` and `pv[n]` are
    the `next` and `prev` links of node `n`, `d[n]` the payload of a data
    node, and `ow[n]` the sentinel of the list the node belongs to (a
    sentinel belongs to its own list; -1 once the node is destroyed).  A list
    is named by its sentinel `s`: `sz[s]` is its `sz` field and `ls[s]` its
    data nodes front to back (both are unused at other nodes).  The functions
    here state what each relinking step of the source does to this value;
    the class in module `List` performs the steps on its fields. */
module ListArena {
  import opened ListSpec
  import opened ListLinks

  datatype Arena<T> = Arena(
    nx: seq<nat>, pv: seq<nat>, d: map<nat, T>, ow: seq<int>, sz: seq<nat>, ls: seq<seq<nat>>)

  /** The payloads of the nodes `ids`, in order. */
  function Values<T>(d: map<nat, T>, ids: seq<nat>): (r: seq<T>)
    requires forall i :: 0 <= i < |ids| ==> ids[i] in d
    ensures |r| == |ids| && forall i :: 0 <= i < |ids| ==> r[i] == d[ids[i]]
  {
    seq(|ids|, i requires 0 <= i < |ids| => d[ids[i]])
  }

  /** Inserting the nodes `seg` at position `p` inserts their payloads. */
  lemma ValuesInsert<T>(d: map<nat, T>, ids: seq<nat>, p: nat, seg: seq<nat>)
    requires p <= |ids|
    requires forall i :: 0 <= i < |ids| ==> ids[i] in d
    requires forall i :: 0 <= i < |seg| ==> seg[i] in d
    ensures var r := ids[..p] + seg + ids[p..];
      (forall i :: 0 <= i < |r| ==> r[i] in d) &&
      Values(d, r) == Values(d, ids)[..p] + Values(d, seg) + Values(d, ids)[p..]
  {
    var r := ids[..p] + seg + ids[p..];
    forall i | 0 <= i < |r| ensures r[i] in d && r[i] == if i < p then ids[i] else if i < p + |seg| then seg[i - p] else ids[i - |seg|] {
    }
  }

  /** Cutting the nodes `ids[f..e]` out cuts their payloads out. */
  lemma ValuesCut<T>(d: map<nat, T>, ids: seq<nat>, f: nat, e: nat)
    requires f <= e <= |ids|
    requires forall i :: 0 <= i < |ids| ==> ids[i] in d
    ensures var r := ids[..f] + ids[e..];
      (forall i :: 0 <= i < |r| ==> r[i] in d) &&
      (forall i :: 0 <= i < e - f ==> ids[f..e][i] in d) &&
      Values(d, r) == Values(d, ids)[..f] + Values(d, ids)[e..] &&
      Values(d, ids[f..e]) == Values(d, ids)[f..e]
  {
    var r := ids[..f] + ids[e..];
    forall i | 0 <= i < |r| ensures r[i] in d && r[i] == if i < f then ids[i] else ids[i - f + e] {
    }
  }

  /** Payloads only depend on the entries of the nodes asked for. */
  lemma ValuesFrame<T>(d: map<nat, T>, d': map<nat, T>, ids: seq<nat>)
    requires forall i :: 0 <= i < |ids| ==> ids[i] in d && ids[i] in d' && d'[ids[i]] == d[ids[i]]
    ensures Values(d', ids) == Values(d, ids)
  {
  }

  /** The nodes `ids` all belong to list `s` and hold a payload. */
  ghost predicate Owned<T>(ow: seq<int>, d: map<nat, T>, s: nat, ids: seq<nat>)
  {
    forall i :: 0 <= i < |ids| ==> ids[i] < |ow| && ow[ids[i]] == s && ids[i] in d
  }

  /** The list with sentinel `s`, size field `n` and data nodes `ids` is well
      formed in the heap `nx`, `pv`, `d`, `ow`. */
  ghost predicate ListWf<T>(nx: seq<nat>, pv: seq<nat>, d: map<nat, T>, ow: seq<int>, s: nat, n: nat, ids: seq<nat>)
  {
    && Ring(nx, pv, s, ids) && |ow| == |nx|
    && ow[s] == s && s !in d && n == |ids|
    && Owned(ow, d, s, ids)
  }

  /** `create_node` followed by `insert_node(pos, node)`. */
  lemma InsertWf<T>(nx: seq<nat>, pv: seq<nat>, d: map<nat, T>, ow: seq<int>, s: nat, ids: seq<nat>, p: nat, v: T)
    requires ListWf(nx, pv, d, ow, s, |ids|, ids) && p <= |ids|
    requires forall m :: m in d ==> m < |nx|
    ensures var n, pos, before := |nx|, NodeAt(s, ids, p), PrevAt(s, ids, p);
      var ids' := ids[..p] + [n] + ids[p..];
      && pv[pos] == before
      && ListWf((nx + [n])[before := n][n := pos], (pv + [n])[n := before][pos := n], d[n := v], ow + [s], s, |ids| + 1, ids')
      && Values(d[n := v], ids') == Values(d, ids)[..p] + [v] + Values(d, ids)[p..]
  {
    var n, pos, before := |nx|, NodeAt(s, ids, p), PrevAt(s, ids, p);
    var ids' := ids[..p] + [n] + ids[p..];
    var d' := d[n := v];
    RingPrev(nx, pv, s, ids, p);
    var nx1, pv1 := nx + [n], pv + [n];
    RingFrame(nx, pv, nx1, pv1, s, ids);
    assert Detached(nx1, s, ids, [n]);
    RingInsert(nx1, pv1, s, ids, p, [n]);
    assert forall i :: 0 <= i < |ids'| ==> ids'[i] == n || ids'[i] in ids;
    ValuesFrame(d, d', ids);
    ValuesInsert(d', ids, p, [n]);
    assert Values(d', [n]) == [v];
  }

  /** Node `s` is the sentinel of a list of `h`. */
  ghost predicate IsList<T>(h: Arena<T>, s: nat)
  {
    s < |h.ow| && h.ow[s] == s
  }

  /** Every list of the arena is well formed and every payload belongs to
      an allocated node.  (A list's facts are only drawn out when its
      `ListWf` is mentioned.) */
  ghost predicate Wf<T>(h: Arena<T>)
  {
    && |h.pv| == |h.nx| && |h.ow| == |h.nx| && |h.sz| == |h.nx| && |h.ls| == |h.nx|
    && (forall m :: m in h.d ==> m < |h.nx|)
    && forall s: nat {:trigger ListWf(h.nx, h.pv, h.d, h.ow, s, h.sz[s], h.ls[s])} ::
      IsList(h, s) ==> ListWf(h.nx, h.pv, h.d, h.ow, s, h.sz[s], h.ls[s])
  }

  /** The elements of list `s`. */
  ghost function Elems<T>(h: Arena<T>, s: nat): (r: seq<T>)
    requires Wf(h) && IsList(h, s)
    ensures |r| == |h.ls[s]| == h.sz[s]
  {
    assert ListWf(h.nx, h.pv, h.d, h.ow, s, h.sz[s], h.ls[s]);
    Values(h.d, h.ls[s])
  }

  /** Node `m` has the same links, owner and payload in `h` and `h'`. */
  ghost predicate NodeKept<T>(h: Arena<T>, h': Arena<T>, m: nat)
  {
    && m < |h.nx| && m < |h.pv| && m < |h.ow|
    && m < |h'.nx| && m < |h'.pv| && m < |h'.ow|
    && h'.nx[m] == h.nx[m] && h'.pv[m] == h.pv[m] && h'.ow[m] == h.ow[m]
    && (m in h'.d <==> m in h.d) && (m in h.d ==> h'.d[m] == h.d[m])
  }

  /** List `t` of `h` is still a list in `h'`, with the same size, nodes and
      elements. */
  ghost predicate SameList<T>(h: Arena<T>, h': Arena<T>, t: nat)
    requires Wf(h) && Wf(h') && IsList(h, t)
  {
    IsList(h', t) && h'.sz[t] == h.sz[t] && h'.ls[t] == h.ls[t] && Elems(h', t) == Elems(h, t)
  }

  /** Every list outside `touched` has the same nodes and elements in `h'`
      as in `h`.  (A list's facts are only drawn out when `SameList` is
      mentioned for it.) */
  ghost predicate Untouched<T>(h: Arena<T>, h': Arena<T>, touched: set<nat>)
  {
    && Wf(h) && Wf(h')
    && forall t: nat {:trigger SameList(h, h', t)} :: IsList(h, t) && t !in touched ==> SameList(h, h', t)
  }

  /** Steps that each leave the lists outside `touched` alone leave them
      alone together. */
  lemma UntouchedTrans<T>(h1: Arena<T>, h2: Arena<T>, h3: Arena<T>, touched: set<nat>)
    requires Untouched(h1, h2, touched) && Untouched(h2, h3, touched)
    ensures Untouched(h1, h3, touched)
  {
    forall t: nat | IsList(h1, t) && t !in touched ensures SameList(h1, h3, t) {
      assert SameList(h1, h2, t) && SameList(h2, h3, t);
    }
  }

  /** A step that changes only nodes of the lists in `touched` (and new
      nodes) keeps every other list well formed and unchanged. */
  lemma Frame<T>(h: Arena<T>, h': Arena<T>, touched: set<nat>)
    requires Wf(h)
    requires |h'.pv| == |h'.nx| && |h'.ow| == |h'.nx| && |h'.sz| == |h'.nx| && |h'.ls| == |h'.nx|
    requires |h.nx| <= |h'.nx|
    requires  (forall m :: m in h'.d ==> m < |h'.nx|)
    requires forall m :: 0 <= m < |h.nx| && h.ow[m] !in touched ==> NodeKept(h, h', m)
    requires forall t: nat :: IsList(h, t) && t !in touched ==> h'.sz[t] == h.sz[t] && h'.ls[t] == h.ls[t]
    requires forall t: nat :: IsList(h', t) && (t in touched || !IsList(h, t)) ==>
      ListWf(h'.nx, h'.pv, h'.d, h'.ow, t, h'.sz[t], h'.ls[t])
    ensures Wf(h') && Untouched(h, h', touched)
  {
    forall t: nat | IsList(h', t) && IsList(h, t) && t !in touched
      ensures ListWf(h'.nx, h'.pv, h'.d, h'.ow, t, h'.sz[t], h'.ls[t])
    {
      var ids := h.ls[t];
      assert ListWf(h.nx, h.pv, h.d, h.ow, t, h.sz[t], ids);
      assert NodeKept(h, h', t);
      forall i | 0 <= i < |ids| ensures NodeKept(h, h', ids[i]) {
        assert h.ow[ids[i]] == t;
      }
      RingFrame(h.nx, h.pv, h'.nx, h'.pv, t, ids);
    }
    assert Wf(h');
    forall t: nat | IsList(h, t) && t !in touched ensures SameList(h, h', t) {
      var ids := h.ls[t];
      assert ListWf(h.nx, h.pv, h.d, h.ow, t, h.sz[t], ids);
      assert NodeKept(h, h', t);
      forall i | 0 <= i < |ids| ensures NodeKept(h, h', ids[i]) {
        assert h.ow[ids[i]] == t;
      }
    }
  }

  /** `list()`: a fresh sentinel `|nx|`, linked to itself, heads a new
      empty list; every existing list is untouched. */
  ghost function Created<T>(h: Arena<T>): (r: Arena<T>)
    requires Wf(h)
    ensures !IsList(h, |h.nx|) && IsList(r, |h.nx|) && |r.nx| == |h.nx| + 1
    ensures Wf(r) && Untouched(h, r, {}) && r.ls[|h.nx|] == [] && Elems(r, |h.nx|) == []
  {
    var s := |h.nx|;
    var r := Arena(h.nx + [s], h.pv + [s], h.d, h.ow + [s], h.sz + [0], h.ls + [[]]);
    RingEmpty(r.nx, r.pv, s);
    Frame(h, r, {});
    r
  }

  /** `insert(pos, value)` at position `p` of list `s`: `create_node` makes
      the fresh node `n == |nx|`, then `insert_node(pos, n)` links it in
      between `pos->prev` and `pos`, and `sz` grows by one.  The list gains `value` at position
      `p`; every other list is untouched. */
  ghost function Inserted<T>(h: Arena<T>, s: nat, p: nat, v: T): (r: Arena<T>)
    requires Wf(h) && IsList(h, s) && p <= |h.ls[s]|
    ensures Wf(r) && Untouched(h, r, {s}) && IsList(r, s) && |r.nx| == |h.nx| + 1
    ensures r.ls[s] == h.ls[s][..p] + [|h.nx|] + h.ls[s][p..]
    ensures Elems(r, s) == Elems(h, s)[..p] + [v] + Elems(h, s)[p..]
  {
    var ids := h.ls[s];
    assert ListWf(h.nx, h.pv, h.d, h.ow, s, h.sz[s], ids);
    InsertWf(h.nx, h.pv, h.d, h.ow, s, ids, p, v);
    var n, pos := |h.nx|, NodeAt(s, ids, p);
    var nx1, pv1 := h.nx + [n], h.pv + [n];
    assert pv1[pos] == h.pv[pos];
    var r := Arena(nx1[pv1[pos] := n][n := pos], pv1[n := pv1[pos]][pos := n], h.d[n := v], h.ow + [s],
      (h.sz + [0])[s := h.sz[s] + 1], (h.ls + [[]])[s := ids[..p] + [n] + ids[p..]]);
    assert h.ow[pos] == s && h.ow[h.pv[pos]] == s;
    Frame(h, r, {s});
    r
  }

  /** `unlink_node(n)` and `destroy_node(n)` for the node `n` at position
      `p`: the list loses `n` and its payload. */
  lemma EraseWf<T>(nx: seq<nat>, pv: seq<nat>, d: map<nat, T>, ow: seq<int>, s: nat, ids: seq<nat>, p: nat)
    requires ListWf(nx, pv, d, ow, s, |ids|, ids) && p < |ids|
    ensures var n, ids' := ids[p], ids[..p] + ids[p + 1..];
      && nx[n] == NodeAt(s, ids', p) && pv[n] == PrevAt(s, ids, p) && ow[nx[n]] == s && ow[pv[n]] == s
      && ListWf(nx[pv[n] := nx[n]], pv[nx[n] := pv[n]], d - {n}, ow[n := -1], s, |ids| - 1, ids')
      && Values(d - {n}, ids') == Values(d, ids)[..p] + Values(d, ids)[p + 1..]
  {
    var n, ids' := ids[p], ids[..p] + ids[p + 1..];
    RingStep(nx, pv, s, ids, p);
    RingUnlink(nx, pv, s, ids, p, p + 1);
    assert NodeAt(s, ids', p) == NodeAt(s, ids, p + 1);
    EraseOwned(d, ow, s, ids, p);
  }

  /** Destroying the `p`-th node keeps the other nodes owned and their
      payloads. */
  lemma EraseOwned<T>(d: map<nat, T>, ow: seq<int>, s: nat, ids: seq<nat>, p: nat)
    requires Owned(ow, d, s, ids) && Distinct(s, ids) && p < |ids| && s < |ow| && ow[s] == s && s !in d
    ensures var n, ids' := ids[p], ids[..p] + ids[p + 1..];
      && ow[n := -1][s] == s && ow[n := -1][NodeAt(s, ids', p)] == s && ow[n := -1][PrevAt(s, ids, p)] == s
      && Owned(ow[n := -1], d - {n}, s, ids')
      && Values(d - {n}, ids') == Values(d, ids)[..p] + Values(d, ids)[p + 1..]
  {
    var n, ids' := ids[p], ids[..p] + ids[p + 1..];
    forall i | 0 <= i < |ids'| ensures ids'[i] == (if i < p then ids[i] else ids[i + 1]) && ids'[i] != n {
    }
    ValuesCut(d, ids, p, p + 1);
    ValuesFrame(d, d - {n}, ids');
  }

  /** `erase(pos)` at position `p` of list `s`: `unlink_node(n)` joins the
      neighbours of `n`, then `destroy_node(n)` releases it and `sz` shrinks
      by one.  The list loses its `p`-th element; every other list is
      untouched. */
  ghost function Erased<T>(h: Arena<T>, s: nat, p: nat): (r: Arena<T>)
    requires Wf(h) && IsList(h, s) && p < |h.ls[s]|
    ensures Wf(r) && Untouched(h, r, {s}) && IsList(r, s) && |r.nx| == |h.nx|
    ensures r.ls[s] == h.ls[s][..p] + h.ls[s][p + 1..]
    ensures Elems(r, s) == Elems(h, s)[..p] + Elems(h, s)[p + 1..]
  {
    var ids := h.ls[s];
    assert ListWf(h.nx, h.pv, h.d, h.ow, s, h.sz[s], ids);
    EraseWf(h.nx, h.pv, h.d, h.ow, s, ids, p);
    var n := ids[p];
    var r := Arena(h.nx[h.pv[n] := h.nx[n]], h.pv[h.nx[n] := h.pv[n]], h.d - {n}, h.ow[n := -1],
      h.sz[s := |ids| - 1], h.ls[s := ids[..p] + ids[p + 1..]]);
    forall m | 0 <= m < |h.nx| && h.ow[m] !in {s} ensures NodeKept(h, r, m) {
      assert m != n && m != h.nx[n] && m != h.pv[n];
    }
    Frame(h, r, {s});
    r
  }

  /** The payloads left after `destroy_node` of each of `gone` in turn. */
  ghost function Drop<T>(d: map<nat, T>, gone: seq<nat>): map<nat, T>
  {
    if gone == [] then d else Drop(d, gone[..|gone| - 1]) - {gone[|gone| - 1]}
  }

  /** The owners left after `destroy_node` of each of `gone` in turn. */
  ghost function Kill(ow: seq<int>, gone: seq<nat>): (r: seq<int>)
    ensures |r| == |ow|
  {
    if gone == [] then ow
    else
      var o, n := Kill(ow, gone[..|gone| - 1]), gone[|gone| - 1];
      if n < |o| then o[n := -1] else o
  }

  /** `d'` and `ow'` are `d` and `ow` with the nodes `gone` destroyed. */
  ghost predicate Released<T>(d: map<nat, T>, ow: seq<int>, d': map<nat, T>, ow': seq<int>, gone: seq<nat>)
  {
    && (forall m :: m in d' ==> m in d && m !in gone && d'[m] == d[m])
    && (forall m :: m in d && m !in gone ==> m in d')
    && |ow'| == |ow| && (forall m :: 0 <= m < |ow| ==> ow'[m] == if m in gone then -1 else ow[m])
  }

  /** Destroying the nodes one by one destroys exactly those nodes. */
  lemma {:induction false} DropKill<T>(d: map<nat, T>, ow: seq<int>, gone: seq<nat>)
    requires forall i :: 0 <= i < |gone| ==> gone[i] < |ow|
    ensures Released(d, ow, Drop(d, gone), Kill(ow, gone), gone)
  {
    if gone != [] {
      var g, n := gone[..|gone| - 1], gone[|gone| - 1];
      DropKill(d, ow, g);
      assert gone == g + [n];
      assert forall m :: m in gone <==> m in g || m == n;
    }
  }

  /** `clear()` on list `s`: every data node is destroyed, the sentinel is
      linked to itself again and `sz` is 0; every other list is untouched. */
  ghost function Cleared<T>(h: Arena<T>, s: nat): (r: Arena<T>)
    requires Wf(h) && IsList(h, s)
    ensures Wf(r) && Untouched(h, r, {s}) && IsList(r, s) && |r.nx| == |h.nx|
    ensures r.ls[s] == [] && Elems(r, s) == []
  {
    var ids := h.ls[s];
    assert ListWf(h.nx, h.pv, h.d, h.ow, s, h.sz[s], ids);
    var r := Arena(h.nx[s := s], h.pv[s := s], Drop(h.d, ids), Kill(h.ow, ids), h.sz[s := 0], h.ls[s := []]);
    DropKill(h.d, h.ow, ids);
    RingEmpty(r.nx, r.pv, s);
    forall m | 0 <= m < |h.nx| && h.ow[m] !in {s} ensures NodeKept(h, r, m) {
      assert m !in ids;
    }
    assert ListWf(r.nx, r.pv, r.d, r.ow, s, r.sz[s], r.ls[s]);
    Frame(h, r, {s});
    r
  }

  /** The destructor `~list()`: `clear()`, then the sentinel is released
      and the list no longer exists; every other list is untouched. */
  ghost function Destroyed<T>(h: Arena<T>, s: nat): (r: Arena<T>)
    requires Wf(h) && IsList(h, s)
    ensures Wf(r) && Untouched(h, r, {s}) && !IsList(r, s) && |r.nx| == |h.nx|
  {
    var c := Cleared(h, s);
    assert ListWf(c.nx, c.pv, c.d, c.ow, s, c.sz[s], c.ls[s]);
    var r := Arena(c.nx, c.pv, c.d, c.ow[s := -1], c.sz, c.ls);
    Frame(c, r, {s});
    UntouchedTrans(h, c, r, {s});
    r
  }
}
