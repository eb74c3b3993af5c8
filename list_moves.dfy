/** The operations of `include/list/list.h` that move nodes instead of
    creating or destroying them (`splice`, `swap`, `reverse`, `merge`), as
    functions on the arena of module `ListArena`.  No payload is copied: the
    moved nodes keep their numbers and payloads and change owner. */
module ListMoves {
  import opened Orders
  import opened ListSpec
  import opened ListLinks
  import opened ListArena

  /** The owners after the nodes `ns` have moved to list `o`. */
  ghost function Reown(ow: seq<int>, ns: seq<nat>, o: int): (r: seq<int>)
    ensures |r| == |ow| && forall m :: 0 <= m < |ow| ==> r[m] == if m in ns then o else ow[m]
  {
    seq(|ow|, m requires 0 <= m < |ow| => if m in ns then o else ow[m])
  }

  /** The nodes of two different lists are apart. */
  lemma ListsApart<T>(h: Arena<T>, s: nat, t: nat)
    requires Wf(h) && IsList(h, s) && IsList(h, t) && s != t
    ensures Apart(s, h.ls[s], t, h.ls[t])
  {
    assert ListWf(h.nx, h.pv, h.d, h.ow, s, h.sz[s], h.ls[s]);
    assert ListWf(h.nx, h.pv, h.d, h.ow, t, h.sz[t], h.ls[t]);
  }

  /** Ownership and payloads after the run `jds[f..e]` of list `t` moved
      before position `p` of the different list `s`. */
  lemma MoveOwned<T>(d: map<nat, T>, ow: seq<int>, s: nat, ids: seq<nat>, p: nat, t: nat, jds: seq<nat>, f: nat, e: nat)
    requires Owned(ow, d, s, ids) && Owned(ow, d, t, jds) && Distinct(t, jds) && s != t
    requires s < |ow| && t < |ow| && ow[s] == s && ow[t] == t
    requires p <= |ids| && f <= e <= |jds|
    ensures var seg, ow' := jds[f..e], Reown(ow, jds[f..e], s);
      var ids', rest := ids[..p] + seg + ids[p..], jds[..f] + jds[e..];
      && ow'[s] == s && ow'[t] == t
      && Owned(ow', d, s, ids') && Owned(ow', d, t, rest)
  {
    var seg, ow' := jds[f..e], Reown(ow, jds[f..e], s);
    var ids', rest := ids[..p] + seg + ids[p..], jds[..f] + jds[e..];
    CutParts(t, jds, f, e);
    forall i | 0 <= i < |ids'| ensures ids'[i] < |ow'| && ow'[ids'[i]] == s && ids'[i] in d {
      if p <= i < p + |seg| {
        assert ids'[i] == seg[i - p];
      } else {
        var x := ids'[i];
        assert x == ids[if i < p then i else i - |seg|];
        assert ow[x] == s;
        assert forall y :: y in seg ==> ow[y] == t;
      }
    }
    forall i | 0 <= i < |rest| ensures rest[i] < |ow'| && ow'[rest[i]] == t && rest[i] in d {
      assert Outside(t, rest, rest[i]) ==> false;
      assert rest[i] !in seg;
    }
    assert s !in seg && t !in seg;
  }

  /** The payloads of the two lists after the run `jds[f..e]` moved. */
  lemma MovedApart<T>(d: map<nat, T>, ids: seq<nat>, p: nat, jds: seq<nat>, f: nat, e: nat)
    requires forall i :: 0 <= i < |ids| ==> ids[i] in d
    requires forall i :: 0 <= i < |jds| ==> jds[i] in d
    requires p <= |ids| && f <= e <= |jds|
    ensures Values(d, ids[..p] + jds[f..e] + ids[p..]) == Values(d, ids)[..p] + Values(d, jds)[f..e] + Values(d, ids)[p..]
    ensures Values(d, jds[..f] + jds[e..]) == Values(d, jds)[..f] + Values(d, jds)[e..]
  {
    ValuesCut(d, jds, f, e);
    ValuesInsert(d, ids, p, jds[f..e]);
  }

  /** Ownership and payloads after the run `ids[f..e]` of list `s` moved
      before position `p` of the same list. */
  lemma MoveOwnedWithin<T>(d: map<nat, T>, ow: seq<int>, s: nat, ids: seq<nat>, p: nat, f: nat, e: nat)
    requires Owned(ow, d, s, ids) && Distinct(s, ids) && s < |ow| && ow[s] == s
    requires f <= e <= |ids| && p <= |ids| && (p < f || e <= p)
    ensures var ow', rest, q := Reown(ow, ids[f..e], s), ids[..f] + ids[e..], if p < f then p else p - (e - f);
      && q <= |rest| && ow'[s] == s
      && Owned(ow', d, s, rest[..q] + ids[f..e] + rest[q..])
  {
    var ow', rest, q := Reown(ow, ids[f..e], s), ids[..f] + ids[e..], if p < f then p else p - (e - f);
    var seg := ids[f..e];
    var ids' := rest[..q] + seg + rest[q..];
    CutParts(s, ids, f, e);
    forall i | 0 <= i < |ids'| ensures ids'[i] < |ow'| && ow'[ids'[i]] == s && ids'[i] in d {
      if q <= i < q + |seg| {
        assert ids'[i] == seg[i - q];
      } else {
        assert ids'[i] == rest[if i < q then i else i - |seg|];
      }
    }
  }

  /** The nodes, and so the payloads, of a list whose run `ids[f..e]` moved
      before position `p`. */
  lemma MovedWithin<T>(d: map<nat, T>, ids: seq<nat>, p: nat, f: nat, e: nat)
    requires forall i :: 0 <= i < |ids| ==> ids[i] in d
    requires f <= e <= |ids| && p <= |ids| && (p < f || e <= p)
    ensures var rest, q := ids[..f] + ids[e..], if p < f then p else p - (e - f);
      && q <= |rest| && rest[..q] + ids[f..e] + rest[q..] == Moved(ids, p, f, e)
      && Values(d, Moved(ids, p, f, e)) == Moved(Values(d, ids), p, f, e)
  {
    var rest, q := ids[..f] + ids[e..], if p < f then p else p - (e - f);
    MovedCut(ids, p, f, e);
    ValuesCut(d, ids, f, e);
    ValuesInsert(d, rest, q, ids[f..e]);
    MovedCut(Values(d, ids), p, f, e);
  }

  /** The two lists after the non-empty run `jds[f..e]` of list `t` moved
      before position `p` of the different list `s`, with the nodes the
      three `link_nodes` calls touch and their owners. */
  lemma MoveWf<T>(nx: seq<nat>, pv: seq<nat>, d: map<nat, T>, ow: seq<int>, s: nat, ids: seq<nat>, p: nat,
                  t: nat, jds: seq<nat>, f: nat, e: nat)
    requires ListWf(nx, pv, d, ow, s, |ids|, ids) && ListWf(nx, pv, d, ow, t, |jds|, jds) && Apart(s, ids, t, jds)
    requires p <= |ids| && f < e <= |jds|
    ensures var a, b, first, last := PrevAt(t, jds, f), NodeAt(t, jds, e), jds[f], jds[e - 1];
      var pos := NodeAt(s, ids, p);
      var nx1: seq<nat>, pv1: seq<nat> := nx[a := b], pv[b := a];
      && pos < |pv| && pv1[pos] < |ow| && a < |ow| && b < |ow| && first < |ow| && last < |ow|
      && ow[a] == t && ow[b] == t && ow[first] == t && ow[last] == t && ow[pos] == s && ow[pv1[pos]] == s
      && (forall j :: 0 <= j < e - f ==> jds[f..e][j] < |ow| && jds[f..e][j] != s && jds[f..e][j] != t && ow[jds[f..e][j]] == t)
      && var nx', pv', ow' := nx1[pv1[pos] := first][last := pos], pv1[first := pv1[pos]][pos := last], Reown(ow, jds[f..e], s);
      var ids', rest := ids[..p] + jds[f..e] + ids[p..], jds[..f] + jds[e..];
      && ListWf(nx', pv', d, ow', s, |ids| + (e - f), ids')
      && ListWf(nx', pv', d, ow', t, |jds| - (e - f), rest)
  {
    RingMove(nx, pv, s, ids, p, t, jds, f, e);
    MoveOwned(d, ow, s, ids, p, t, jds, f, e);
    CutParts(t, jds, f, e);
    if p > 0 {
      assert PrevAt(s, ids, p) == ids[p - 1];
    }
    if p < |ids| {
      assert NodeAt(s, ids, p) == ids[p];
    }
    if f > 0 {
      assert PrevAt(t, jds, f) == jds[f - 1];
    }
    if e < |jds| {
      assert NodeAt(t, jds, e) == jds[e];
    }
  }

  /** The list after its non-empty run `ids[f..e]` moved before position
      `p` outside the run, with the nodes the three `link_nodes` calls touch. */
  lemma MoveWfWithin<T>(nx: seq<nat>, pv: seq<nat>, d: map<nat, T>, ow: seq<int>, s: nat, ids: seq<nat>,
                        p: nat, f: nat, e: nat)
    requires ListWf(nx, pv, d, ow, s, |ids|, ids) && f < e <= |ids| && p <= |ids| && (p < f || e <= p)
    ensures var a, b, first, last := PrevAt(s, ids, f), NodeAt(s, ids, e), ids[f], ids[e - 1];
      var pos, rest, q := NodeAt(s, ids, p), ids[..f] + ids[e..], if p < f then p else p - (e - f);
      var nx1: seq<nat>, pv1: seq<nat> := nx[a := b], pv[b := a];
      && q <= |rest| && pos < |pv| && pv1[pos] < |ow| && a < |ow| && b < |ow| && first < |ow| && last < |ow|
      && ow[a] == s && ow[b] == s && ow[first] == s && ow[last] == s && ow[pos] == s && ow[pv1[pos]] == s
      && (forall j :: 0 <= j < e - f ==> ids[f..e][j] < |ow| && ids[f..e][j] != s && ow[ids[f..e][j]] == s)
      && var nx', pv', ow' := nx1[pv1[pos] := first][last := pos], pv1[first := pv1[pos]][pos := last], Reown(ow, ids[f..e], s);
      && ListWf(nx', pv', d, ow', s, |ids|, rest[..q] + ids[f..e] + rest[q..])
  {
    var rest, q := ids[..f] + ids[e..], if p < f then p else p - (e - f);
    RingMoveWithin(nx, pv, s, ids, p, f, e);
    MoveOwnedWithin(d, ow, s, ids, p, f, e);
    CutParts(s, ids, f, e);
    if q > 0 {
      assert PrevAt(s, rest, q) == rest[q - 1];
    }
    if q < |rest| {
      assert NodeAt(s, rest, q) == rest[q];
    }
    if f > 0 {
      assert PrevAt(s, ids, f) == ids[f - 1];
    }
    if e < |ids| {
      assert NodeAt(s, ids, e) == ids[e];
    }
  }

  /** `splice(pos, other, first, last)` with `pos` at position `p` of list
      `s` and `first`, `last` at positions `f <= e` of list `t`: nothing
      happens when `first == last`; otherwise `link_nodes(first->prev,
      last)` cuts the run out, `link_nodes(pos->prev, first)` and
      `link_nodes(last_prev, pos)` put it before `pos`, and the sizes move
      by `count`.  When `t` is `s` itself, `pos` must lie outside the run
      (moving a run into itself breaks the ring). */
  ghost function Spliced<T>(h: Arena<T>, s: nat, p: nat, t: nat, f: nat, e: nat): (r: Arena<T>)
    requires Wf(h) && IsList(h, s) && IsList(h, t) && p <= |h.ls[s]| && f <= e <= |h.ls[t]|
    requires s == t && f < e ==> p < f || e <= p
    ensures Wf(r) && Untouched(h, r, {s, t}) && IsList(r, s) && IsList(r, t) && |r.nx| == |h.nx|
    ensures s != t ==> && r.ls[s] == h.ls[s][..p] + h.ls[t][f..e] + h.ls[s][p..]
                       && r.ls[t] == h.ls[t][..f] + h.ls[t][e..]
                       && Elems(r, s) == Elems(h, s)[..p] + Elems(h, t)[f..e] + Elems(h, s)[p..]
                       && Elems(r, t) == Elems(h, t)[..f] + Elems(h, t)[e..]
    ensures s == t && (p < f || e <= p) ==> r.ls[s] == Moved(h.ls[s], p, f, e) && Elems(r, s) == Moved(Elems(h, s), p, f, e)
  {
    if f == e then
      SplicedNone(h, s, p, t, f);
      h
    else if s == t then
      SplicedWithin(h, s, p, f, e);
      Relinked(h, s, p, t, f, e)
    else
      SplicedApart(h, s, p, t, f, e);
      Relinked(h, s, p, t, f, e)
  }

  /** The arena right after the three `link_nodes` calls and the size
      updates of a `splice` of a non-empty run; the ghost owners of the run
      become `s`. */
  ghost function Relinked<T>(h: Arena<T>, s: nat, p: nat, t: nat, f: nat, e: nat): Arena<T>
    requires Wf(h) && IsList(h, s) && IsList(h, t) && p <= |h.ls[s]| && f < e <= |h.ls[t]|
    requires s == t ==> p < f || e <= p
  {
    var S, T := h.ls[s], h.ls[t];
    var a, b, first, last := PrevAt(t, T, f), NodeAt(t, T, e), T[f], T[e - 1];
    var pos := NodeAt(s, S, p);
    SpliceBounds(h, s, p, t, f, e);
    var nx1: seq<nat>, pv1: seq<nat> := h.nx[a := b], h.pv[b := a];
    var k := e - f;
    var sz1 := h.sz[t := h.sz[t] - k];
    var rest := T[..f] + T[e..];
    var q := if p < f then p else p - k;
    Arena(nx1[pv1[pos] := first][last := pos], pv1[first := pv1[pos]][pos := last], h.d,
      Reown(h.ow, T[f..e], s), sz1[s := sz1[s] + k],
      if s == t then h.ls[s := rest[..q] + T[f..e] + rest[q..]] else h.ls[t := rest][s := S[..p] + T[f..e] + S[p..]])
  }

  /** An empty run moves nothing. */
  lemma SplicedNone<T>(h: Arena<T>, s: nat, p: nat, t: nat, f: nat)
    requires Wf(h) && IsList(h, s) && IsList(h, t) && p <= |h.ls[s]| && f <= |h.ls[t]|
    ensures Untouched(h, h, {s, t})
    ensures h.ls[s][..p] + h.ls[t][f..f] + h.ls[s][p..] == h.ls[s] && h.ls[t][..f] + h.ls[t][f..] == h.ls[t]
    ensures Elems(h, s)[..p] + Elems(h, t)[f..f] + Elems(h, s)[p..] == Elems(h, s)
    ensures Elems(h, t)[..f] + Elems(h, t)[f..] == Elems(h, t)
    ensures s == t ==> Moved(h.ls[s], p, f, f) == h.ls[s] && Moved(Elems(h, s), p, f, f) == Elems(h, s)
  {
    MovedNoneApart(h.ls[s], p, h.ls[t], f);
    MovedNoneApart(Elems(h, s), p, Elems(h, t), f);
    if s == t {
      MovedNone(h.ls[s], p, f);
      MovedNone(Elems(h, s), p, f);
    }
  }

  /** The nodes a `splice` of a non-empty run relinks exist. */
  lemma SpliceBounds<T>(h: Arena<T>, s: nat, p: nat, t: nat, f: nat, e: nat)
    requires Wf(h) && IsList(h, s) && IsList(h, t) && p <= |h.ls[s]| && f < e <= |h.ls[t]|
    ensures var S, T := h.ls[s], h.ls[t];
      var a, b, first, last := PrevAt(t, T, f), NodeAt(t, T, e), T[f], T[e - 1];
      var pos := NodeAt(s, S, p);
      && a < |h.nx| && b < |h.nx| && first < |h.nx| && last < |h.nx| && pos < |h.nx|
      && h.pv[b := a][pos] < |h.nx| && e - f <= h.sz[t]
  {
    var S, T := h.ls[s], h.ls[t];
    assert ListWf(h.nx, h.pv, h.d, h.ow, s, h.sz[s], S);
    assert ListWf(h.nx, h.pv, h.d, h.ow, t, h.sz[t], T);
    if p < |S| {
      assert NodeAt(s, S, p) == S[p];
    }
    if f > 0 {
      assert PrevAt(t, T, f) == T[f - 1];
    }
    if e < |T| {
      assert NodeAt(t, T, e) == T[e];
    }
    RingPrev(h.nx, h.pv, s, S, p);
  }

  /** What the list operations read before relinking a non-empty run:
      the nodes exist, `first->prev` is the node before the run, `last->prev`
      its last node and that node's `next` is `last`. */
  lemma SpliceLinks<T>(h: Arena<T>, s: nat, p: nat, t: nat, f: nat, e: nat)
    requires Wf(h) && IsList(h, s) && IsList(h, t) && p <= |h.ls[s]| && f < e <= |h.ls[t]|
    ensures var S, T := h.ls[s], h.ls[t];
      var a, b, first, last := PrevAt(t, T, f), NodeAt(t, T, e), T[f], T[e - 1];
      var pos := NodeAt(s, S, p);
      && |h.pv| == |h.nx| && |h.sz| == |h.nx| && s < |h.sz| && t < |h.sz|
      && a < |h.nx| && b < |h.nx| && first < |h.nx| && last < |h.nx| && pos < |h.nx|
      && h.pv[first] == a && h.pv[b] == last && h.nx[last] == b && NodeAt(t, T, f) == first
      && h.pv[b := a][pos] < |h.nx| && e - f <= h.sz[t]
  {
    var T := h.ls[t];
    SpliceBounds(h, s, p, t, f, e);
    assert ListWf(h.nx, h.pv, h.d, h.ow, t, h.sz[t], T);
    RingPrev(h.nx, h.pv, t, T, f);
    RingPrev(h.nx, h.pv, t, T, e);
    RingStep(h.nx, h.pv, t, T, e - 1);
    assert NodeAt(t, T, e - 1) == T[e - 1];
  }

  /** Positions of a list are designated by different nodes. */
  lemma ListPositions<T>(h: Arena<T>, t: nat, f: nat, e: nat)
    requires Wf(h) && IsList(h, t) && f <= e <= |h.ls[t]|
    ensures NodeAt(t, h.ls[t], f) == NodeAt(t, h.ls[t], e) <==> f == e
  {
    assert ListWf(h.nx, h.pv, h.d, h.ow, t, h.sz[t], h.ls[t]);
    RingPositions(t, h.ls[t], f, e);
  }

  /** The links `splice` makes, written with the nodes the source names:
      `a` before the run, `b` after it, `first` and `lp` its first and last
      node and `pos` the node it goes before; `k` nodes change lists. */
  lemma RelinkedStep<T>(h: Arena<T>, s: nat, p: nat, t: nat, f: nat, e: nat, k: nat,
                        a: nat, b: nat, first: nat, lp: nat, pos: nat, r: Arena<T>)
    requires Wf(h) && IsList(h, s) && IsList(h, t) && p <= |h.ls[s]| && f < e <= |h.ls[t]|
    requires s == t ==> p < f || e <= p
    requires k == e - f && pos == NodeAt(s, h.ls[s], p)
    requires a == PrevAt(t, h.ls[t], f) && b == NodeAt(t, h.ls[t], e)
    requires first == h.ls[t][f] && lp == h.ls[t][e - 1]
    requires a < |h.nx| && b < |h.pv| && pos < |h.pv| && first < |h.pv| && lp < |h.nx|
    requires h.pv[b := a][pos] < |h.nx|
    requires k <= h.sz[t]
    requires r.nx == h.nx[a := b][h.pv[b := a][pos] := first][lp := pos]
    requires r.pv == h.pv[b := a][first := h.pv[b := a][pos]][pos := lp]
    requires r.sz == h.sz[t := h.sz[t] - k][s := h.sz[t := h.sz[t] - k][s] + k]
    requires r.d == h.d
    requires r.ow == Relinked(h, s, p, t, f, e).ow
    requires r.ls == Relinked(h, s, p, t, f, e).ls
    ensures r == Relinked(h, s, p, t, f, e)
  {
  }

  /** A non-empty run moved within list `s`. */
  lemma SplicedWithin<T>(h: Arena<T>, s: nat, p: nat, f: nat, e: nat)
    requires Wf(h) && IsList(h, s) && p <= |h.ls[s]| && f < e <= |h.ls[s]| && (p < f || e <= p)
    ensures var r := Relinked(h, s, p, s, f, e);
      Wf(r) && Untouched(h, r, {s, s}) && IsList(r, s) && |r.nx| == |h.nx|
      && r.ls[s] == Moved(h.ls[s], p, f, e) && Elems(r, s) == Moved(Elems(h, s), p, f, e)
  {
    var S, r := h.ls[s], Relinked(h, s, p, s, f, e);
    SpliceBounds(h, s, p, s, f, e);
    var a, b, first, last := PrevAt(s, S, f), NodeAt(s, S, e), S[f], S[e - 1];
    var pos := NodeAt(s, S, p);
    var pv1: seq<nat> := h.pv[b := a];
    RelinkedShape(h, s, p, s, f, e);
    SplicedWithinList(h, s, p, f, e);
    SplicedWithinOwners(h, s, p, f, e);
    SplicedFrame(h, r, s, s, S[f..e], {a, b, pos, first, last, pv1[pos]});
    ElemsMovedWithin(h, r, s, p, f, e);
  }

  /** The sizes and shapes `splice` leaves alone: the arena keeps its
      nodes and payloads, only the ghost owners of the run change, the
      other lists keep their sizes and nodes, and links change only at the
      six nodes the `link_nodes` calls name. */
  lemma RelinkedShape<T>(h: Arena<T>, s: nat, p: nat, t: nat, f: nat, e: nat)
    requires Wf(h) && IsList(h, s) && IsList(h, t) && p <= |h.ls[s]| && f < e <= |h.ls[t]|
    requires s == t ==> p < f || e <= p
    ensures var r := Relinked(h, s, p, t, f, e);
      |r.nx| == |h.nx| && |r.pv| == |r.nx| && |r.ow| == |r.nx| && |r.sz| == |r.nx| && |r.ls| == |r.nx|
      && r.d == h.d && r.ow == Reown(h.ow, h.ls[t][f..e], s) && IsList(r, s) && IsList(r, t)
      && (forall x: nat :: IsList(h, x) && x != s && x != t ==> r.sz[x] == h.sz[x] && r.ls[x] == h.ls[x])
    ensures var S, T, r := h.ls[s], h.ls[t], Relinked(h, s, p, t, f, e);
      var a, b, first, last := PrevAt(t, T, f), NodeAt(t, T, e), T[f], T[e - 1];
      var pos := NodeAt(s, S, p);
      && a < |h.nx| && b < |h.nx| && first < |h.nx| && last < |h.nx| && pos < |h.nx|
      && var pv1: seq<nat> := h.pv[b := a];
      && pv1[pos] < |h.nx|
      && (forall m :: 0 <= m < |h.nx| && m !in {a, b, pos, first, last, pv1[pos]} ==> r.nx[m] == h.nx[m] && r.pv[m] == h.pv[m])
  {
    SpliceBounds(h, s, p, t, f, e);
    assert ListWf(h.nx, h.pv, h.d, h.ow, t, h.sz[t], h.ls[t]);
    assert t !in h.ls[t][f..e];
  }

  /** The list, and the owners of the nodes relinked, after a run moved
      within it. */
  lemma SplicedWithinList<T>(h: Arena<T>, s: nat, p: nat, f: nat, e: nat)
    requires Wf(h) && IsList(h, s) && p <= |h.ls[s]| && f < e <= |h.ls[s]| && (p < f || e <= p)
    ensures var S, r := h.ls[s], Relinked(h, s, p, s, f, e);
      var a, b, first, last := PrevAt(s, S, f), NodeAt(s, S, e), S[f], S[e - 1];
      var pos := NodeAt(s, S, p);
      && a < |h.nx| && b < |h.nx| && first < |h.nx| && last < |h.nx| && pos < |h.nx|
      && var pv1: seq<nat> := h.pv[b := a];
      && pv1[pos] < |h.nx| && |r.sz| == |h.sz| && |r.ls| == |h.ls|
      && ListWf(r.nx, r.pv, r.d, r.ow, s, r.sz[s], r.ls[s]) && r.ls[s] == Moved(S, p, f, e)
  {
    var S := h.ls[s];
    SpliceBounds(h, s, p, s, f, e);
    assert ListWf(h.nx, h.pv, h.d, h.ow, s, h.sz[s], S);
    MoveWfWithin(h.nx, h.pv, h.d, h.ow, s, S, p, f, e);
    MovedCut(S, p, f, e);
  }

  /** The nodes a `splice` within list `s` relinks, and the run it moves,
      all belong to `s`. */
  lemma SplicedWithinOwners<T>(h: Arena<T>, s: nat, p: nat, f: nat, e: nat)
    requires Wf(h) && IsList(h, s) && p <= |h.ls[s]| && f < e <= |h.ls[s]| && (p < f || e <= p)
    ensures var S := h.ls[s];
      var a, b, first, last := PrevAt(s, S, f), NodeAt(s, S, e), S[f], S[e - 1];
      var pos := NodeAt(s, S, p);
      && a < |h.nx| && b < |h.nx| && first < |h.nx| && last < |h.nx| && pos < |h.nx|
      && var pv1: seq<nat> := h.pv[b := a];
      && pv1[pos] < |h.nx|
      && h.ow[a] == s && h.ow[b] == s && h.ow[first] == s && h.ow[last] == s && h.ow[pos] == s && h.ow[pv1[pos]] == s
      && (forall j :: 0 <= j < e - f ==> S[f..e][j] < |h.nx| && S[f..e][j] != s && h.ow[S[f..e][j]] == s)
  {
    var S := h.ls[s];
    SpliceBounds(h, s, p, s, f, e);
    assert ListWf(h.nx, h.pv, h.d, h.ow, s, h.sz[s], S);
    MoveWfWithin(h.nx, h.pv, h.d, h.ow, s, S, p, f, e);
  }

  /** A non-empty run of list `t` moved into the different list `s`. */
  lemma SplicedApart<T>(h: Arena<T>, s: nat, p: nat, t: nat, f: nat, e: nat)
    requires Wf(h) && IsList(h, s) && IsList(h, t) && s != t && p <= |h.ls[s]| && f < e <= |h.ls[t]|
    ensures var r := Relinked(h, s, p, t, f, e);
      && Wf(r) && Untouched(h, r, {s, t}) && IsList(r, s) && IsList(r, t) && |r.nx| == |h.nx|
      && r.ls[s] == h.ls[s][..p] + h.ls[t][f..e] + h.ls[s][p..] && r.ls[t] == h.ls[t][..f] + h.ls[t][e..]
      && Elems(r, s) == Elems(h, s)[..p] + Elems(h, t)[f..e] + Elems(h, s)[p..]
      && Elems(r, t) == Elems(h, t)[..f] + Elems(h, t)[e..]
  {
    var S, T, r := h.ls[s], h.ls[t], Relinked(h, s, p, t, f, e);
    SpliceBounds(h, s, p, t, f, e);
    var a, b, first, last := PrevAt(t, T, f), NodeAt(t, T, e), T[f], T[e - 1];
    var pos := NodeAt(s, S, p);
    var pv1: seq<nat> := h.pv[b := a];
    RelinkedShape(h, s, p, t, f, e);
    SplicedApartLists(h, s, p, t, f, e);
    SplicedApartOwners(h, s, p, t, f, e);
    SplicedFrame(h, r, s, t, T[f..e], {a, b, pos, first, last, pv1[pos]});
    ElemsMovedApart(h, r, s, p, t, f, e);
  }

  /** The two lists, and the owners of the nodes relinked, after a run of
      `t` moved into `s`. */
  lemma SplicedApartLists<T>(h: Arena<T>, s: nat, p: nat, t: nat, f: nat, e: nat)
    requires Wf(h) && IsList(h, s) && IsList(h, t) && s != t && p <= |h.ls[s]| && f < e <= |h.ls[t]|
    ensures var S, T, r := h.ls[s], h.ls[t], Relinked(h, s, p, t, f, e);
      var a, b, first, last := PrevAt(t, T, f), NodeAt(t, T, e), T[f], T[e - 1];
      var pos := NodeAt(s, S, p);
      && a < |h.nx| && b < |h.nx| && first < |h.nx| && last < |h.nx| && pos < |h.nx|
      && var pv1: seq<nat> := h.pv[b := a];
      && pv1[pos] < |h.nx| && |r.sz| == |h.sz| && |r.ls| == |h.ls|
      && r.ls[s] == S[..p] + T[f..e] + S[p..] && r.ls[t] == T[..f] + T[e..]
      && ListWf(r.nx, r.pv, r.d, r.ow, s, r.sz[s], r.ls[s]) && ListWf(r.nx, r.pv, r.d, r.ow, t, r.sz[t], r.ls[t])
  {
    var S, T := h.ls[s], h.ls[t];
    SpliceBounds(h, s, p, t, f, e);
    assert ListWf(h.nx, h.pv, h.d, h.ow, s, h.sz[s], S);
    assert ListWf(h.nx, h.pv, h.d, h.ow, t, h.sz[t], T);
    ListsApart(h, s, t);
    MoveWf(h.nx, h.pv, h.d, h.ow, s, S, p, t, T, f, e);
  }

  /** The nodes a `splice` from `t` into `s` relinks belong to the list
      they are taken from, and the run, which holds no sentinel, to `t`. */
  lemma SplicedApartOwners<T>(h: Arena<T>, s: nat, p: nat, t: nat, f: nat, e: nat)
    requires Wf(h) && IsList(h, s) && IsList(h, t) && s != t && p <= |h.ls[s]| && f < e <= |h.ls[t]|
    ensures var S, T := h.ls[s], h.ls[t];
      var a, b, first, last := PrevAt(t, T, f), NodeAt(t, T, e), T[f], T[e - 1];
      var pos := NodeAt(s, S, p);
      && a < |h.nx| && b < |h.nx| && first < |h.nx| && last < |h.nx| && pos < |h.nx|
      && var pv1: seq<nat> := h.pv[b := a];
      && pv1[pos] < |h.nx|
      && h.ow[a] == t && h.ow[b] == t && h.ow[first] == t && h.ow[last] == t && h.ow[pos] == s && h.ow[pv1[pos]] == s
      && (forall j :: 0 <= j < e - f ==> T[f..e][j] < |h.nx| && T[f..e][j] != s && T[f..e][j] != t && h.ow[T[f..e][j]] == t)
  {
    var S, T := h.ls[s], h.ls[t];
    SpliceBounds(h, s, p, t, f, e);
    assert ListWf(h.nx, h.pv, h.d, h.ow, s, h.sz[s], S);
    assert ListWf(h.nx, h.pv, h.d, h.ow, t, h.sz[t], T);
    ListsApart(h, s, t);
    MoveWf(h.nx, h.pv, h.d, h.ow, s, S, p, t, T, f, e);
  }

  /** The elements after a run moved within list `s`. */
  lemma ElemsMovedWithin<T>(h: Arena<T>, r: Arena<T>, s: nat, p: nat, f: nat, e: nat)
    requires Wf(h) && IsList(h, s) && Wf(r) && IsList(r, s) && r.d == h.d
    requires f <= e <= |h.ls[s]| && p <= |h.ls[s]| && (p < f || e <= p) && r.ls[s] == Moved(h.ls[s], p, f, e)
    ensures Elems(r, s) == Moved(Elems(h, s), p, f, e)
  {
    assert ListWf(h.nx, h.pv, h.d, h.ow, s, h.sz[s], h.ls[s]);
    MovedWithin(h.d, h.ls[s], p, f, e);
  }

  /** The elements of both lists after a run of `t` moved into `s`. */
  lemma ElemsMovedApart<T>(h: Arena<T>, r: Arena<T>, s: nat, p: nat, t: nat, f: nat, e: nat)
    requires Wf(h) && IsList(h, s) && IsList(h, t) && Wf(r) && IsList(r, s) && IsList(r, t) && r.d == h.d
    requires p <= |h.ls[s]| && f <= e <= |h.ls[t]|
    requires r.ls[s] == h.ls[s][..p] + h.ls[t][f..e] + h.ls[s][p..] && r.ls[t] == h.ls[t][..f] + h.ls[t][e..]
    ensures Elems(r, s) == Elems(h, s)[..p] + Elems(h, t)[f..e] + Elems(h, s)[p..]
    ensures Elems(r, t) == Elems(h, t)[..f] + Elems(h, t)[e..]
  {
    assert ListWf(h.nx, h.pv, h.d, h.ow, s, h.sz[s], h.ls[s]);
    assert ListWf(h.nx, h.pv, h.d, h.ow, t, h.sz[t], h.ls[t]);
    MovedApart(h.d, h.ls[s], p, h.ls[t], f, e);
  }

  /** A `splice` from `t` to `s` changes the links only at the nodes
      `changed` of those two lists and the owners only of the run `seg` of
      `t`, none of which is a sentinel: every other list is untouched. */
  lemma SplicedFrame<T>(h: Arena<T>, r: Arena<T>, s: nat, t: nat, seg: seq<nat>, changed: set<nat>)
    requires Wf(h) && IsList(h, s) && IsList(h, t)
    requires |r.nx| == |h.nx| && |r.pv| == |r.nx| && |r.ow| == |r.nx| && |r.sz| == |r.nx| && |r.ls| == |r.nx|
    requires r.d == h.d
    requires forall m :: m in changed ==> m < |h.nx| && (h.ow[m] == s || h.ow[m] == t)
    requires forall m :: 0 <= m < |h.nx| && m !in changed ==> r.nx[m] == h.nx[m] && r.pv[m] == h.pv[m]
    requires forall j :: 0 <= j < |seg| ==> seg[j] < |h.nx| && h.ow[seg[j]] == t && seg[j] != s && seg[j] != t
    requires r.ow == Reown(h.ow, seg, s)
    requires forall x: nat :: IsList(h, x) && x != s && x != t ==> r.sz[x] == h.sz[x] && r.ls[x] == h.ls[x]
    requires IsList(r, s) && ListWf(r.nx, r.pv, r.d, r.ow, s, r.sz[s], r.ls[s])
    requires IsList(r, t) && ListWf(r.nx, r.pv, r.d, r.ow, t, r.sz[t], r.ls[t])
    ensures Wf(r) && Untouched(h, r, {s, t})
  {
    forall m | 0 <= m < |h.nx| && h.ow[m] !in {s, t} ensures NodeKept(h, r, m) {
      assert m !in seg;
    }
    forall x: nat | IsList(r, x) ensures IsList(h, x) {
      assert x !in seg;
    }
    Frame(h, r, {s, t});
  }

  /** `splice(pos, other, it)` with `pos` at position `p` of list `s` and
      `it` at position `q` of list `t`: nothing happens when `pos` is `it`
      or the node after it; otherwise `unlink_node` and `insert_node` make
      the same three `link_nodes` calls as the range form with `first ==
      it` and `last == next(it)`, and the sizes move by one. */
  ghost function SplicedOne<T>(h: Arena<T>, s: nat, p: nat, t: nat, q: nat): (r: Arena<T>)
    requires Wf(h) && IsList(h, s) && IsList(h, t) && p <= |h.ls[s]| && q < |h.ls[t]|
    ensures Wf(r) && Untouched(h, r, {s, t}) && IsList(r, s) && IsList(r, t) && |r.nx| == |h.nx|
    ensures s != t ==> && r.ls[s] == h.ls[s][..p] + [h.ls[t][q]] + h.ls[s][p..]
                       && r.ls[t] == h.ls[t][..q] + h.ls[t][q + 1..]
                       && Elems(r, s) == Elems(h, s)[..p] + [Elems(h, t)[q]] + Elems(h, s)[p..]
                       && Elems(r, t) == Elems(h, t)[..q] + Elems(h, t)[q + 1..]
    ensures s == t ==> Elems(r, s) == if p == q || p == q + 1 then Elems(h, s) else Moved(Elems(h, s), p, q, q + 1)
  {
    var S, T := h.ls[s], h.ls[t];
    var pos, it, next := NodeAt(s, S, p), T[q], NodeAt(t, T, q + 1);
    SpliceOnePositions(h, s, p, t, q);
    if pos == it || pos == next then
      SplicedNone(h, s, p, t, q);
      h
    else
      RunOfOne(h.ls[t], q);
      RunOfOne(Elems(h, t), q);
      Spliced(h, s, p, t, q, q + 1)
  }

  /** When `pos` is neither `it` nor the node after it, `splice(pos, other,
      it)` is the relinking of the run `[q, q + 1)`. */
  lemma SplicedOneRelinked<T>(h: Arena<T>, s: nat, p: nat, t: nat, q: nat)
    requires Wf(h) && IsList(h, s) && IsList(h, t) && p <= |h.ls[s]| && q < |h.ls[t]|
    requires var pos := NodeAt(s, h.ls[s], p); pos != h.ls[t][q] && pos != NodeAt(t, h.ls[t], q + 1)
    ensures s == t ==> p < q || q + 1 <= p
    ensures SplicedOne(h, s, p, t, q) == Relinked(h, s, p, t, q, q + 1)
  {
    SpliceOnePositions(h, s, p, t, q);
  }

  /** `pos` is `it` or the node after it exactly when both are in the same
      list and `pos` is at position `q` or `q + 1`. */
  lemma SpliceOnePositions<T>(h: Arena<T>, s: nat, p: nat, t: nat, q: nat)
    requires Wf(h) && IsList(h, s) && IsList(h, t) && p <= |h.ls[s]| && q < |h.ls[t]|
    ensures var S, T := h.ls[s], h.ls[t];
      var pos, it, next := NodeAt(s, S, p), T[q], NodeAt(t, T, q + 1);
      (pos == it || pos == next) <==> s == t && (p == q || p == q + 1)
  {
    var S, T := h.ls[s], h.ls[t];
    if s != t {
      ListsApart(h, s, t);
      PositionOutside(s, S, t, T, p);
      if q + 1 < |T| {
        assert NodeAt(t, T, q + 1) == T[q + 1];
      }
    } else {
      assert ListWf(h.nx, h.pv, h.d, h.ow, s, h.sz[s], S);
      assert NodeAt(s, S, q) == S[q];
      RingPositions(s, S, p, q);
      RingPositions(s, S, p, q + 1);
    }
  }

  /** `splice(pos, other)` with `pos` at position `p` of list `s`: nothing
      happens when `other` is empty; otherwise all of `other` is spliced
      before `pos`.  Splicing a list into itself is only well defined at
      `end()`, where it changes nothing. */
  ghost function SplicedAll<T>(h: Arena<T>, s: nat, p: nat, t: nat): (r: Arena<T>)
    requires Wf(h) && IsList(h, s) && IsList(h, t) && p <= |h.ls[s]|
    requires s == t ==> p == |h.ls[s]|
    ensures Wf(r) && Untouched(h, r, {s, t}) && IsList(r, s) && IsList(r, t) && |r.nx| == |h.nx|
    ensures s != t ==> && r.ls[s] == h.ls[s][..p] + h.ls[t] + h.ls[s][p..] && r.ls[t] == []
                       && Elems(r, s) == Elems(h, s)[..p] + Elems(h, t) + Elems(h, s)[p..] && Elems(r, t) == []
    ensures s == t ==> Elems(r, s) == Elems(h, s)
  {
    if h.ls[t] == [] then
      SplicedNone(h, s, p, t, 0);
      h
    else
      RunOfAll(h.ls[t]);
      RunOfAll(Elems(h, t));
      MovedWhole(Elems(h, s));
      Spliced(h, s, p, t, 0, |h.ls[t]|)
  }

  /** The links after `swap`: when this list is empty, `other`'s run is
      hung between this sentinel's links and `other`'s sentinel is linked
      to itself; symmetrically when `other` is empty; otherwise four
      `link_nodes` calls exchange the two runs.  `ft`, `lt`, `fs`, `ls` are
      the first and last nodes of `t` and `s`, read from the sentinels. */
  function SwapNext(nx: seq<nat>, s: nat, t: nat, es: bool, et: bool, fs: nat, ls: nat, ft: nat, lt: nat): (r: seq<nat>)
    requires s < |nx| && t < |nx| && fs < |nx| && ls < |nx| && ft < |nx| && lt < |nx|
    ensures |r| == |nx| && forall m :: 0 <= m < |nx| && m !in {s, t, fs, ls, ft, lt} ==> r[m] == nx[m]
  {
    if es then nx[s := ft][lt := s][t := t]
    else if et then nx[t := fs][ls := t][s := s]
    else nx[s := ft][lt := s][t := fs][ls := t]
  }

  /** The `prev` links after `swap`, as `SwapNext`. */
  function SwapPrev(pv: seq<nat>, s: nat, t: nat, es: bool, et: bool, fs: nat, ls: nat, ft: nat, lt: nat): (r: seq<nat>)
    requires s < |pv| && t < |pv| && fs < |pv| && ls < |pv| && ft < |pv| && lt < |pv|
    ensures |r| == |pv| && forall m :: 0 <= m < |pv| && m !in {s, t, fs, ls, ft, lt} ==> r[m] == pv[m]
  {
    if es then pv[ft := s][s := lt][t := t]
    else if et then pv[fs := t][t := ls][s := s]
    else pv[ft := s][s := lt][fs := t][t := ls]
  }

  /** The two lists after `swap` of lists that are apart and not both
      empty: each now holds the other's nodes. */
  lemma SwapWf<T>(nx: seq<nat>, pv: seq<nat>, d: map<nat, T>, ow: seq<int>, s: nat, ids: seq<nat>, t: nat, jds: seq<nat>)
    requires ListWf(nx, pv, d, ow, s, |ids|, ids) && ListWf(nx, pv, d, ow, t, |jds|, jds) && Apart(s, ids, t, jds)
    requires ids != [] || jds != []
    ensures var fs, ls, ft, lt := nx[s], pv[s], nx[t], pv[t];
      && fs < |nx| && ls < |nx| && ft < |nx| && lt < |nx|
      && ow[fs] == s && ow[ls] == s && ow[ft] == t && ow[lt] == t
      && var nx', pv' := SwapNext(nx, s, t, ids == [], jds == [], fs, ls, ft, lt), SwapPrev(pv, s, t, ids == [], jds == [], fs, ls, ft, lt);
      var ow' := Reown(Reown(ow, jds, s), ids, t);
      && ListWf(nx', pv', d, ow', s, |jds|, jds) && ListWf(nx', pv', d, ow', t, |ids|, ids)
  {
    var fs, ls, ft, lt := nx[s], pv[s], nx[t], pv[t];
    var ow' := Reown(Reown(ow, jds, s), ids, t);
    RingPrev(nx, pv, s, ids, |ids|);
    RingPrev(nx, pv, t, jds, |jds|);
    assert Linked(nx, pv, s, NodeAt(s, ids, 0)) && Linked(nx, pv, t, NodeAt(t, jds, 0));
    if ids != [] {
      assert fs == ids[0] && ls == ids[|ids| - 1];
    }
    if jds != [] {
      assert ft == jds[0] && lt == jds[|jds| - 1];
    }
    forall i | 0 <= i < |jds| ensures ow'[jds[i]] == s {
      assert jds[i] !in ids;
    }
    forall i | 0 <= i < |ids| ensures ow'[ids[i]] == t {
    }
    assert ow'[s] == s && ow'[t] == t;
    ApartSymmetric(s, ids, t, jds);
    if ids == [] {
      RingHandOver(nx, pv, s, t, jds);
    } else if jds == [] {
      RingHandOver(nx, pv, t, s, ids);
      assert nx[t := fs][ls := t][s := s] == nx[t := fs][ls := t][s := s];
    } else {
      RingExchange(nx, pv, s, ids, t, jds);
    }
  }

  /** `swap(other)` of list `s` with list `t`: the lists exchange nodes
      and sizes.  Swapping a list with itself rewrites each link with the
      value it already has, and so changes nothing. */
  ghost function Swapped<T>(h: Arena<T>, s: nat, t: nat): (r: Arena<T>)
    requires Wf(h) && IsList(h, s) && IsList(h, t)
    ensures Wf(r) && Untouched(h, r, {s, t}) && IsList(r, s) && IsList(r, t) && |r.nx| == |h.nx|
    ensures r.ls[s] == h.ls[t] && r.ls[t] == h.ls[s] && Elems(r, s) == Elems(h, t) && Elems(r, t) == Elems(h, s)
  {
    SwapBounds(h, s, t);
    if s == t || (h.sz[s] == 0 && h.sz[t] == 0) then
      SwapNone(h, s, t);
      h
    else
      var es, et := h.sz[s] == 0, h.sz[t] == 0;
      var fs, ls, ft, lt := h.nx[s], h.pv[s], h.nx[t], h.pv[t];
      var r := Arena(SwapNext(h.nx, s, t, es, et, fs, ls, ft, lt), SwapPrev(h.pv, s, t, es, et, fs, ls, ft, lt), h.d,
        Reown(Reown(h.ow, h.ls[t], s), h.ls[s], t), h.sz[s := h.sz[t]][t := h.sz[s]], h.ls[s := h.ls[t]][t := h.ls[s]]);
      SwappedLists(h, s, t, r);
      r
  }

  /** The sentinels' links point at existing nodes. */
  lemma SwapBounds<T>(h: Arena<T>, s: nat, t: nat)
    requires Wf(h) && IsList(h, s) && IsList(h, t)
    ensures h.nx[s] < |h.nx| && h.pv[s] < |h.nx| && h.nx[t] < |h.nx| && h.pv[t] < |h.nx|
    ensures h.sz[s] == |h.ls[s]| && h.sz[t] == |h.ls[t]|
  {
    assert ListWf(h.nx, h.pv, h.d, h.ow, s, h.sz[s], h.ls[s]);
    assert ListWf(h.nx, h.pv, h.d, h.ow, t, h.sz[t], h.ls[t]);
    RingPrev(h.nx, h.pv, s, h.ls[s], |h.ls[s]|);
    RingPrev(h.nx, h.pv, t, h.ls[t], |h.ls[t]|);
    if h.ls[s] != [] {
      assert h.pv[s] == h.ls[s][|h.ls[s]| - 1];
    }
    if h.ls[t] != [] {
      assert h.pv[t] == h.ls[t][|h.ls[t]| - 1];
    }
  }

  /** Nothing to exchange. */
  lemma SwapNone<T>(h: Arena<T>, s: nat, t: nat)
    requires Wf(h) && IsList(h, s) && IsList(h, t) && (s == t || (h.sz[s] == 0 && h.sz[t] == 0))
    ensures Untouched(h, h, {s, t}) && h.ls[s] == h.ls[t] && Elems(h, s) == Elems(h, t)
  {
    assert ListWf(h.nx, h.pv, h.d, h.ow, s, h.sz[s], h.ls[s]);
    assert ListWf(h.nx, h.pv, h.d, h.ow, t, h.sz[t], h.ls[t]);
  }

  /** The sentinel is the `next` of its `prev` and the `prev` of its
      `next`, so relinking it to them changes nothing. */
  lemma SwapSelf<T>(h: Arena<T>, s: nat)
    requires Wf(h) && IsList(h, s)
    ensures h.nx[s] < |h.nx| && h.pv[s] < |h.nx| && h.nx[h.pv[s]] == s && h.pv[h.nx[s]] == s
  {
    var ids := h.ls[s];
    assert ListWf(h.nx, h.pv, h.d, h.ow, s, h.sz[s], ids);
    RingPrev(h.nx, h.pv, s, ids, |ids|);
    if ids != [] {
      RingStep(h.nx, h.pv, s, ids, |ids| - 1);
    }
  }

  /** Two different lists, not both empty, after `swap`. */
  lemma SwappedLists<T>(h: Arena<T>, s: nat, t: nat, r: Arena<T>)
    requires Wf(h) && IsList(h, s) && IsList(h, t) && s != t && (h.sz[s] != 0 || h.sz[t] != 0)
    requires h.nx[s] < |h.nx| && h.pv[s] < |h.nx| && h.nx[t] < |h.nx| && h.pv[t] < |h.nx|
    requires var es, et := h.sz[s] == 0, h.sz[t] == 0;
      var fs, ls, ft, lt := h.nx[s], h.pv[s], h.nx[t], h.pv[t];
      r == Arena(SwapNext(h.nx, s, t, es, et, fs, ls, ft, lt), SwapPrev(h.pv, s, t, es, et, fs, ls, ft, lt), h.d,
        Reown(Reown(h.ow, h.ls[t], s), h.ls[s], t), h.sz[s := h.sz[t]][t := h.sz[s]], h.ls[s := h.ls[t]][t := h.ls[s]])
    ensures Wf(r) && Untouched(h, r, {s, t}) && IsList(r, s) && IsList(r, t) && |r.nx| == |h.nx|
    ensures r.ls[s] == h.ls[t] && r.ls[t] == h.ls[s] && Elems(r, s) == Elems(h, t) && Elems(r, t) == Elems(h, s)
  {
    SwappedListsWf(h, s, t, r);
    SwapFrame(h, r, s, t, {s, t, h.nx[s], h.pv[s], h.nx[t], h.pv[t]});
  }

  /** The two lists, and the owners of the nodes relinked, after `swap`. */
  lemma SwappedListsWf<T>(h: Arena<T>, s: nat, t: nat, r: Arena<T>)
    requires Wf(h) && IsList(h, s) && IsList(h, t) && s != t && (h.sz[s] != 0 || h.sz[t] != 0)
    requires h.nx[s] < |h.nx| && h.pv[s] < |h.nx| && h.nx[t] < |h.nx| && h.pv[t] < |h.nx|
    requires var es, et := h.sz[s] == 0, h.sz[t] == 0;
      var fs, ls, ft, lt := h.nx[s], h.pv[s], h.nx[t], h.pv[t];
      r == Arena(SwapNext(h.nx, s, t, es, et, fs, ls, ft, lt), SwapPrev(h.pv, s, t, es, et, fs, ls, ft, lt), h.d,
        Reown(Reown(h.ow, h.ls[t], s), h.ls[s], t), h.sz[s := h.sz[t]][t := h.sz[s]], h.ls[s := h.ls[t]][t := h.ls[s]])
    ensures var S, T := h.ls[s], h.ls[t];
      && ListWf(r.nx, r.pv, r.d, r.ow, s, r.sz[s], r.ls[s]) && ListWf(r.nx, r.pv, r.d, r.ow, t, r.sz[t], r.ls[t])
      && h.ow[h.nx[s]] == s && h.ow[h.pv[s]] == s && h.ow[h.nx[t]] == t && h.ow[h.pv[t]] == t
      && (forall i :: 0 <= i < |S| ==> S[i] != t)
      && (forall j :: 0 <= j < |T| ==> T[j] != s)
  {
    var S, T := h.ls[s], h.ls[t];
    assert ListWf(h.nx, h.pv, h.d, h.ow, s, h.sz[s], S);
    assert ListWf(h.nx, h.pv, h.d, h.ow, t, h.sz[t], T);
    ListsApart(h, s, t);
    SwapWf(h.nx, h.pv, h.d, h.ow, s, S, t, T);
  }

  /** `swap` changes the links only at the nodes `changed` of the two
      lists and gives each list the other's nodes: every other list is
      untouched. */
  lemma SwapFrame<T>(h: Arena<T>, r: Arena<T>, s: nat, t: nat, changed: set<nat>)
    requires Wf(h) && IsList(h, s) && IsList(h, t) && s != t
    requires |r.nx| == |h.nx| && |r.pv| == |r.nx| && |r.ow| == |r.nx| && |r.sz| == |r.nx| && |r.ls| == |r.nx|
    requires r.d == h.d
    requires forall m :: m in changed ==> m < |h.nx| && (h.ow[m] == s || h.ow[m] == t)
    requires forall m :: 0 <= m < |h.nx| && m !in changed ==> r.nx[m] == h.nx[m] && r.pv[m] == h.pv[m]
    requires forall i :: 0 <= i < |h.ls[s]| ==> h.ls[s][i] != t
    requires forall j :: 0 <= j < |h.ls[t]| ==> h.ls[t][j] != s
    requires r.ow == Reown(Reown(h.ow, h.ls[t], s), h.ls[s], t)
    requires forall x: nat :: IsList(h, x) && x != s && x != t ==> r.sz[x] == h.sz[x] && r.ls[x] == h.ls[x]
    requires IsList(r, s) && ListWf(r.nx, r.pv, r.d, r.ow, s, r.sz[s], r.ls[s])
    requires IsList(r, t) && ListWf(r.nx, r.pv, r.d, r.ow, t, r.sz[t], r.ls[t])
    ensures Wf(r) && Untouched(h, r, {s, t})
  {
    assert ListWf(h.nx, h.pv, h.d, h.ow, s, h.sz[s], h.ls[s]);
    assert ListWf(h.nx, h.pv, h.d, h.ow, t, h.sz[t], h.ls[t]);
    forall m | 0 <= m < |h.nx| && h.ow[m] !in {s, t} ensures NodeKept(h, r, m) {
      assert m !in h.ls[s] && m !in h.ls[t];
    }
    forall x: nat | IsList(r, x) ensures IsList(h, x) {
      assert x !in h.ls[s] && x !in h.ls[t];
    }
    Frame(h, r, {s, t});
  }

  /** `a` with the entry of every node of `ns` taken from `b`: after the
      `do`-`while` loop of `reverse` has visited the nodes `ns`, their
      `next` links hold the old `prev` links and the other way round. */
  function Flip(a: seq<nat>, b: seq<nat>, ns: seq<nat>): (r: seq<nat>)
    requires |b| == |a| && forall i :: 0 <= i < |ns| ==> ns[i] < |a|
    ensures |r| == |a| && forall m :: 0 <= m < |a| ==> r[m] == if m in ns then b[m] else a[m]
    decreases |ns|
  {
    if ns == [] then a
    else
      var c := ns[|ns| - 1];
      assert ns == ns[..|ns| - 1] + [c];
      Flip(a, b, ns[..|ns| - 1])[c := b[c]]
  }

  /** The payloads of the reversed nodes are the reversed payloads. */
  lemma ValuesRev<T>(d: map<nat, T>, ids: seq<nat>)
    requires forall i :: 0 <= i < |ids| ==> ids[i] in d
    ensures (forall i :: 0 <= i < |ids| ==> Rev(ids)[i] in d) && Values(d, Rev(ids)) == Rev(Values(d, ids))
  {
    var n, r := |ids|, Rev(ids);
    forall i | 0 <= i < n ensures r[i] in d {
      assert r[i] == ids[n - 1 - i];
    }
    var a, v := Values(d, r), Values(d, ids);
    var b := Rev(v);
    forall i | 0 <= i < n ensures a[i] == b[i] {
      assert a[i] == d[r[i]] && r[i] == ids[n - 1 - i];
      assert b[i] == v[n - 1 - i];
    }
    assert |a| == |b|;
  }

  /** `reverse()` of list `s`: nothing happens when `sz <= 1`; otherwise the
      loop starting at the sentinel exchanges `prev` and `next` of every
      node of the ring, in ring order, and the list holds its elements in
      reverse. */
  ghost function Reversed<T>(h: Arena<T>, s: nat): (r: Arena<T>)
    requires Wf(h) && IsList(h, s)
    ensures Wf(r) && Untouched(h, r, {s}) && IsList(r, s) && |r.nx| == |h.nx|
    ensures r.ls[s] == Rev(h.ls[s]) && Elems(r, s) == Rev(Elems(h, s))
  {
    ReverseBounds(h, s);
    if h.sz[s] <= 1 then
      RevShort(h.ls[s]);
      RevShort(Elems(h, s));
      h
    else
      var ns := [s] + h.ls[s];
      var r := Arena(Flip(h.nx, h.pv, ns), Flip(h.pv, h.nx, ns), h.d, h.ow, h.sz, h.ls[s := Rev(h.ls[s])]);
      ReversedList(h, s, r);
      r
  }

  /** The nodes the loop of `reverse` visits exist. */
  lemma ReverseBounds<T>(h: Arena<T>, s: nat)
    requires Wf(h) && IsList(h, s)
    ensures h.sz[s] == |h.ls[s]| && Untouched(h, h, {s})
    ensures var ns := [s] + h.ls[s]; forall i :: 0 <= i < |ns| ==> ns[i] < |h.nx|
  {
    assert ListWf(h.nx, h.pv, h.d, h.ow, s, h.sz[s], h.ls[s]);
  }

  /** The step of the `do`-`while` loop of `reverse` at the `k`-th node of
      the ring `[s] + ls[s]`: that node still has its old links, exchanging
      them flips one more node, and its old `next` is the node visited next
      (the sentinel again after the last data node). */
  lemma ReverseVisit<T>(h: Arena<T>, s: nat, k: nat)
    requires Wf(h) && IsList(h, s) && k <= |h.ls[s]|
    ensures var ns := [s] + h.ls[s];
      && (forall i :: 0 <= i < |ns| ==> ns[i] < |h.nx|)
      && Flip(h.nx, h.pv, ns[..k])[ns[k]] == h.nx[ns[k]]
      && Flip(h.pv, h.nx, ns[..k])[ns[k]] == h.pv[ns[k]]
      && Flip(h.nx, h.pv, ns[..k + 1]) == Flip(h.nx, h.pv, ns[..k])[ns[k] := h.pv[ns[k]]]
      && Flip(h.pv, h.nx, ns[..k + 1]) == Flip(h.pv, h.nx, ns[..k])[ns[k] := h.nx[ns[k]]]
      && h.nx[ns[k]] == (if k < |h.ls[s]| then ns[k + 1] else s)
      && (k < |h.ls[s]| ==> ns[k + 1] != s)
  {
    var ids := h.ls[s];
    var ns := [s] + ids;
    ReverseBounds(h, s);
    assert ListWf(h.nx, h.pv, h.d, h.ow, s, h.sz[s], ids);
    assert ns[..k + 1][..k] == ns[..k];
    forall i | 0 <= i < k ensures ns[..k][i] != ns[k] {
      assert ns[..k][i] == ns[i];
      if i > 0 {
        assert ns[i] == ids[i - 1] && ns[k] == ids[k - 1];
      }
    }
    if k > 0 {
      assert ns[k] == ids[k - 1] == NodeAt(s, ids, k - 1);
      RingStep(h.nx, h.pv, s, ids, k - 1);
    }
    if k < |ids| {
      assert ns[k + 1] == ids[k];
    }
  }

  /** The list after `reverse` has relinked it. */
  lemma ReversedList<T>(h: Arena<T>, s: nat, r: Arena<T>)
    requires Wf(h) && IsList(h, s)
    requires var ns := [s] + h.ls[s];
      && (forall i :: 0 <= i < |ns| ==> ns[i] < |h.nx|)
      && r == Arena(Flip(h.nx, h.pv, ns), Flip(h.pv, h.nx, ns), h.d, h.ow, h.sz, h.ls[s := Rev(h.ls[s])])
    ensures Wf(r) && Untouched(h, r, {s}) && IsList(r, s) && |r.nx| == |h.nx|
    ensures r.ls[s] == Rev(h.ls[s]) && Elems(r, s) == Rev(Elems(h, s))
  {
    ReversedListWf(h, s, r);
    ReversedFrame(h, s, r);
    ElemsRev(h, s, r);
  }

  /** `reverse` relinks only the nodes of list `s`. */
  lemma ReversedFrame<T>(h: Arena<T>, s: nat, r: Arena<T>)
    requires Wf(h) && IsList(h, s)
    requires var ns := [s] + h.ls[s];
      && (forall i :: 0 <= i < |ns| ==> ns[i] < |h.nx|)
      && r == Arena(Flip(h.nx, h.pv, ns), Flip(h.pv, h.nx, ns), h.d, h.ow, h.sz, h.ls[s := Rev(h.ls[s])])
    requires ListWf(r.nx, r.pv, r.d, r.ow, s, r.sz[s], r.ls[s]) && IsList(r, s)
    ensures Wf(r) && Untouched(h, r, {s})
  {
    var ns := [s] + h.ls[s];
    assert ListWf(h.nx, h.pv, h.d, h.ow, s, h.sz[s], h.ls[s]);
    forall m | 0 <= m < |h.nx| && h.ow[m] !in {s} ensures NodeKept(h, r, m) {
      assert m !in ns;
    }
    Frame(h, r, {s});
  }

  /** The elements of a list whose nodes were reversed are reversed. */
  lemma ElemsRev<T>(h: Arena<T>, s: nat, r: Arena<T>)
    requires Wf(h) && IsList(h, s) && Wf(r) && IsList(r, s) && r.d == h.d && r.ls[s] == Rev(h.ls[s])
    ensures Elems(r, s) == Rev(Elems(h, s))
  {
    assert ListWf(h.nx, h.pv, h.d, h.ow, s, h.sz[s], h.ls[s]);
    ValuesRev(h.d, h.ls[s]);
  }

  /** The ring of the list after `reverse` has relinked it. */
  lemma ReversedListWf<T>(h: Arena<T>, s: nat, r: Arena<T>)
    requires Wf(h) && IsList(h, s)
    requires var ns := [s] + h.ls[s];
      && (forall i :: 0 <= i < |ns| ==> ns[i] < |h.nx|)
      && r == Arena(Flip(h.nx, h.pv, ns), Flip(h.pv, h.nx, ns), h.d, h.ow, h.sz, h.ls[s := Rev(h.ls[s])])
    ensures ListWf(r.nx, r.pv, r.d, r.ow, s, r.sz[s], r.ls[s]) && IsList(r, s)
  {
    assert ListWf(h.nx, h.pv, h.d, h.ow, s, h.sz[s], h.ls[s]);
    FlipWf(h.nx, h.pv, h.d, h.ow, s, h.ls[s]);
  }

  /** Exchanging `next` and `prev` on the sentinel and on every node of a
      well-formed list gives the well-formed list of the reversed nodes. */
  lemma FlipWf<T>(nx: seq<nat>, pv: seq<nat>, d: map<nat, T>, ow: seq<int>, s: nat, ids: seq<nat>)
    requires ListWf(nx, pv, d, ow, s, |ids|, ids)
    ensures var ns := [s] + ids;
      && (forall i :: 0 <= i < |ns| ==> ns[i] < |nx|)
      && ListWf(Flip(nx, pv, ns), Flip(pv, nx, ns), d, ow, s, |ids|, Rev(ids))
  {
    var ns, n := [s] + ids, |ids|;
    forall i | 0 <= i < |ns| ensures ns[i] < |nx| {
      if i > 0 {
        assert ns[i] == ids[i - 1];
      }
    }
    RingReverse(nx, pv, s, ids);
    forall p | 0 <= p < n ensures Rev(ids)[p] in ns && ow[Rev(ids)[p]] == s && Rev(ids)[p] in d {
      assert ns[n - p] == ids[n - 1 - p];
    }
    assert ns[0] == s;
    RingFrame(pv, nx, Flip(nx, pv, ns), Flip(pv, nx, ns), s, Rev(ids));
  }

  /** Reversing twice restores the list. */
  lemma ReversedTwice<T>(h: Arena<T>, s: nat)
    requires Wf(h) && IsList(h, s)
    ensures Elems(Reversed(Reversed(h, s), s), s) == Elems(h, s)
  {
    RevRev(Elems(h, s));
  }
}
