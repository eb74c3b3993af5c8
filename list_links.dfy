/** The link structure of `include/list/list.h`: every node (the sentinel
    `NodeBase` as well as a data `Node`) has a `next` and a `prev` link.
    Nodes are numbered; `nx[n]` and `pv[n]` are the links of node `n`.

    A list with sentinel `s` whose data nodes are `ids` (front to back) is a
    ring: following `next` from `s` visits `ids` in order and returns to `s`,
    and `prev` is the inverse of `next` on those nodes. */
module ListLinks {
  import opened ListSpec

  /** Node `a`'s `next` is `b` and `b`'s `prev` is `a`. */
  predicate Linked(nx: seq<nat>, pv: seq<nat>, a: nat, b: nat)
  {
    a < |nx| && b < |pv| && nx[a] == b && pv[b] == a
  }

  /** The node an iterator at position `p` of the list designates:
      the `p`-th data node, or the sentinel (`end()`) for `p == |ids|`. */
  function NodeAt(s: nat, ids: seq<nat>, p: nat): (n: nat)
    requires p <= |ids|
    ensures n == s <==> p == |ids| || ids[p] == s
  {
    if p < |ids| then ids[p] else s
  }

  /** The node before position `p`: the sentinel for `p == 0`. */
  function PrevAt(s: nat, ids: seq<nat>, p: nat): nat
    requires p <= |ids|
  {
    if p == 0 then s else ids[p - 1]
  }

  /** The sentinel and the data nodes are pairwise different nodes. */
  predicate Distinct(s: nat, ids: seq<nat>)
  {
    && (forall i :: 0 <= i < |ids| ==> ids[i] != s)
    && (forall i, j :: 0 <= i < j < |ids| ==> ids[i] != ids[j])
  }

  /** The ring invariant of a list with sentinel `s` and data nodes `ids`. */
  predicate Ring(nx: seq<nat>, pv: seq<nat>, s: nat, ids: seq<nat>)
  {
    && |pv| == |nx| && s < |nx|
    && (forall i :: 0 <= i < |ids| ==> ids[i] < |nx|)
    && Distinct(s, ids)
    && Linked(nx, pv, s, NodeAt(s, ids, 0))
    && forall p, q :: 0 <= p < |ids| && q == p + 1 ==> Linked(nx, pv, ids[p], NodeAt(s, ids, q))
  }

  /** The links inside a detached run of nodes. */
  predicate Chain(nx: seq<nat>, pv: seq<nat>, seg: seq<nat>)
  {
    forall q, r :: 0 <= q && r == q + 1 < |seg| ==> Linked(nx, pv, seg[q], seg[r])
  }

  /** `link_nodes(a, b)` makes `a`, `b` linked and keeps every link that
      does not leave `a` or enter `b`. */
  lemma LinkedUpdate(nx: seq<nat>, pv: seq<nat>, a: nat, b: nat, x: nat, y: nat)
    requires a < |nx| && b < |pv|
    requires (x == a && y == b) || (x != a && y != b && Linked(nx, pv, x, y))
    ensures Linked(nx[a := b], pv[b := a], x, y)
  {
  }

  /** Iterator arithmetic on a ring: `++` moves from position `p` to `p + 1`,
      and `prev` of position `p` is the node before it. */
  lemma RingStep(nx: seq<nat>, pv: seq<nat>, s: nat, ids: seq<nat>, p: nat)
    requires Ring(nx, pv, s, ids) && p < |ids|
    ensures nx[NodeAt(s, ids, p)] == NodeAt(s, ids, p + 1)
    ensures pv[NodeAt(s, ids, p + 1)] == NodeAt(s, ids, p)
    ensures pv[NodeAt(s, ids, p)] == PrevAt(s, ids, p)
  {
    if p > 0 {
      assert Linked(nx, pv, ids[p - 1], NodeAt(s, ids, p));
    }
  }

  /** The `prev` of position `p`, `end()` included, is the node before it. */
  lemma RingPrev(nx: seq<nat>, pv: seq<nat>, s: nat, ids: seq<nat>, p: nat)
    requires Ring(nx, pv, s, ids) && p <= |ids|
    ensures pv[NodeAt(s, ids, p)] == PrevAt(s, ids, p)
  {
    if p > 0 {
      assert Linked(nx, pv, ids[p - 1], NodeAt(s, ids, p));
    }
  }

  /** Positions of a ring are designated by different nodes. */
  lemma RingPositions(s: nat, ids: seq<nat>, p: nat, q: nat)
    requires Distinct(s, ids) && p <= |ids| && q <= |ids|
    ensures NodeAt(s, ids, p) == NodeAt(s, ids, q) <==> p == q
  {
  }

  /** After inserting node `n` at position `q`, the nodes before it keep
      their positions and the ones from `q` on move up by one. */
  lemma NodeAtInsert(s: nat, ids: seq<nat>, q: nat, n: nat, j: nat)
    requires q <= |ids| && j <= |ids|
    ensures NodeAt(s, ids[..q] + [n] + ids[q..], if j < q then j else j + 1) == NodeAt(s, ids, j)
  {
  }

  /** After inserting the run `seg` at position `p`, the node that was at
      `p` is at `p + |seg|`, and the run starts at `p`. */
  lemma NodeAtRun(s: nat, ids: seq<nat>, p: nat, seg: seq<nat>)
    requires p <= |ids|
    ensures var r := ids[..p] + seg + ids[p..];
      && NodeAt(s, r, p + |seg|) == NodeAt(s, ids, p)
      && (seg != [] ==> NodeAt(s, r, p) == seg[0])
  {
  }

  /** After cutting out `ids[f..e]`, position `f` is the node that was at
      `e`. */
  lemma NodeAtCut(s: nat, ids: seq<nat>, f: nat, e: nat)
    requires f <= e <= |ids|
    ensures NodeAt(s, ids[..f] + ids[e..], f) == NodeAt(s, ids, e)
  {
  }

  /** After removing position `q`, the nodes before it keep their positions
      and the ones after it move down by one. */
  lemma NodeAtErase(s: nat, ids: seq<nat>, q: nat, j: nat)
    requires q < |ids| && j < |ids|
    ensures NodeAt(s, ids[..q] + ids[q + 1..], j) == NodeAt(s, ids, if j < q then j else j + 1)
  {
  }

  /** A ring only depends on the links of its own nodes. */
  lemma RingFrame(nx: seq<nat>, pv: seq<nat>, nx': seq<nat>, pv': seq<nat>, s: nat, ids: seq<nat>)
    requires Ring(nx, pv, s, ids) && |pv'| == |nx'| && |nx| <= |nx'|
    requires nx'[s] == nx[s] && pv'[s] == pv[s]
    requires forall p :: 0 <= p < |ids| ==> nx'[ids[p]] == nx[ids[p]] && pv'[ids[p]] == pv[ids[p]]
    ensures Ring(nx', pv', s, ids)
  {
    forall p | 0 <= p < |ids| ensures Linked(nx', pv', ids[p], NodeAt(s, ids, p + 1)) {
      assert Linked(nx, pv, ids[p], NodeAt(s, ids, p + 1));
    }
  }

  /** A list whose sentinel links to itself is the empty ring. */
  lemma RingEmpty(nx: seq<nat>, pv: seq<nat>, s: nat)
    requires |pv| == |nx| && s < |nx| && nx[s] == s && pv[s] == s
    ensures Ring(nx, pv, s, [])
  {
  }

  /** Cutting a run out of distinct nodes leaves distinct nodes. */
  lemma DistinctCut(s: nat, ids: seq<nat>, f: nat, e: nat)
    requires Distinct(s, ids) && f <= e <= |ids|
    ensures Distinct(s, ids[..f] + ids[e..])
  {
    var r := ids[..f] + ids[e..];
    forall i, j | 0 <= i < j < |r| ensures r[i] != r[j] {
      var i', j' := if i < f then i else i - f + e, if j < f then j else j - f + e;
      assert r[i] == ids[i'] && r[j] == ids[j'];
    }
  }

  /** Position `p` of the ring left by cutting out `ids[f..e]` is linked to
      position `p + 1` after `link_nodes(a, b)`. */
  lemma UnlinkAt(nx: seq<nat>, pv: seq<nat>, s: nat, ids: seq<nat>, f: nat, e: nat, p: nat)
    requires Ring(nx, pv, s, ids) && f < e <= |ids|
    requires p < |ids| - (e - f)
    ensures var a, b, r := PrevAt(s, ids, f), NodeAt(s, ids, e), ids[..f] + ids[e..];
      Linked(nx[a := b], pv[b := a], r[p], NodeAt(s, r, p + 1))
  {
    var a, b, r := PrevAt(s, ids, f), NodeAt(s, ids, e), ids[..f] + ids[e..];
    if p + 1 < f {
      assert r[p] == ids[p] && NodeAt(s, r, p + 1) == ids[p + 1];
      assert Linked(nx, pv, ids[p], NodeAt(s, ids, p + 1));
      LinkedUpdate(nx, pv, a, b, ids[p], ids[p + 1]);
    } else if p + 1 == f {
      assert r[p] == a && NodeAt(s, r, p + 1) == b;
      LinkedUpdate(nx, pv, a, b, a, b);
    } else {
      var q := p - f + e;
      assert r[p] == ids[q] && NodeAt(s, r, p + 1) == NodeAt(s, ids, q + 1);
      assert Linked(nx, pv, ids[q], NodeAt(s, ids, q + 1));
      LinkedUpdate(nx, pv, a, b, ids[q], NodeAt(s, ids, q + 1));
    }
  }

  /** `link_nodes(first->prev, last)` cuts the run `ids[f..e]` out of the
      ring: the remaining nodes form the ring and the run keeps its inner
      links. */
  lemma {:induction false} RingUnlink(nx: seq<nat>, pv: seq<nat>, s: nat, ids: seq<nat>, f: nat, e: nat)
    requires Ring(nx, pv, s, ids) && f < e <= |ids|
    ensures var a, b := PrevAt(s, ids, f), NodeAt(s, ids, e);
      && Ring(nx[a := b], pv[b := a], s, ids[..f] + ids[e..])
      && Chain(nx[a := b], pv[b := a], ids[f..e])
  {
    var a, b := PrevAt(s, ids, f), NodeAt(s, ids, e);
    var nx', pv' := nx[a := b], pv[b := a];
    var r := ids[..f] + ids[e..];
    DistinctCut(s, ids, f, e);
    forall p | 0 <= p < |r| ensures Linked(nx', pv', r[p], NodeAt(s, r, p + 1)) {
      UnlinkAt(nx, pv, s, ids, f, e, p);
    }
    if f > 0 {
      assert Linked(nx, pv, s, NodeAt(s, ids, 0));
      assert NodeAt(s, r, 0) == ids[0];
      LinkedUpdate(nx, pv, a, b, s, ids[0]);
    } else {
      assert NodeAt(s, r, 0) == b;
      LinkedUpdate(nx, pv, a, b, a, b);
    }
    var seg := ids[f..e];
    forall q | 0 <= q < |seg| - 1 ensures Linked(nx', pv', seg[q], seg[q + 1]) {
      assert Linked(nx, pv, ids[f + q], NodeAt(s, ids, f + q + 1));
      LinkedUpdate(nx, pv, a, b, ids[f + q], ids[f + q + 1]);
    }
  }

  /** A run `seg` of nodes outside the ring: distinct, none of them the
      sentinel or one of `ids`, all of them allocated. */
  predicate Detached(nx: seq<nat>, s: nat, ids: seq<nat>, seg: seq<nat>)
  {
    && Distinct(s, seg)
    && (forall q :: 0 <= q < |seg| ==> seg[q] < |nx|)
    && (forall i, j :: 0 <= i < |ids| && 0 <= j < |seg| ==> ids[i] != seg[j])
  }

  /** Inserting a detached run into distinct nodes leaves distinct nodes. */
  lemma DistinctInsert(nx: seq<nat>, s: nat, ids: seq<nat>, p: nat, seg: seq<nat>)
    requires Distinct(s, ids) && p <= |ids| && Detached(nx, s, ids, seg)
    ensures Distinct(s, ids[..p] + seg + ids[p..])
  {
    var r := ids[..p] + seg + ids[p..];
    var n := |seg|;
    forall i | 0 <= i < |r| ensures r[i] == if i < p then ids[i] else if i < p + n then seg[i - p] else ids[i - n] {
    }
    forall i, j | 0 <= i < j < |r| ensures r[i] != r[j] {
    }
  }

  /** Position `i` of the ring with the run `seg` inserted at `p` is linked
      to position `i + 1` after the two `link_nodes`. */
  lemma InsertAt(nx: seq<nat>, pv: seq<nat>, s: nat, ids: seq<nat>, p: nat, seg: seq<nat>, i: nat)
    requires Ring(nx, pv, s, ids) && p <= |ids|
    requires |seg| > 0 && Chain(nx, pv, seg) && Detached(nx, s, ids, seg)
    requires i < |ids| + |seg|
    ensures var a, b, first, last := PrevAt(s, ids, p), NodeAt(s, ids, p), seg[0], seg[|seg| - 1];
      var r := ids[..p] + seg + ids[p..];
      Linked(nx[a := first][last := b], pv[first := a][b := last], r[i], NodeAt(s, r, i + 1))
  {
    var a, b, first, last := PrevAt(s, ids, p), NodeAt(s, ids, p), seg[0], seg[|seg| - 1];
    var r := ids[..p] + seg + ids[p..];
    var n := |seg|;
    var nx1, pv1 := nx[a := first], pv[first := a];
    var x, y := r[i], NodeAt(s, r, i + 1);
    if p > 0 {
      assert Linked(nx, pv, ids[p - 1], NodeAt(s, ids, p));
    }
    if i + 1 < p {
      assert x == ids[i] && y == ids[i + 1];
      assert Linked(nx, pv, ids[i], NodeAt(s, ids, i + 1));
      LinkedUpdate(nx, pv, a, first, x, y);
    } else if i + 1 == p {
      assert x == a && y == first;
      LinkedUpdate(nx, pv, a, first, x, y);
    } else if i + 1 < p + n {
      assert x == seg[i - p] && y == seg[i - p + 1];
      assert Linked(nx, pv, seg[i - p], seg[i - p + 1]);
      LinkedUpdate(nx, pv, a, first, x, y);
    } else if i + 1 == p + n {
      assert x == last && y == b;
    } else {
      assert x == ids[i - n] && y == NodeAt(s, ids, i - n + 1);
      assert Linked(nx, pv, ids[i - n], NodeAt(s, ids, i - n + 1));
      LinkedUpdate(nx, pv, a, first, x, y);
    }
    LinkedUpdate(nx1, pv1, last, b, x, y);
  }

  /** `link_nodes(pos->prev, first)` then `link_nodes(last, pos)` put a
      detached run `seg` before position `p` of a ring. */
  lemma {:induction false} RingInsert(nx: seq<nat>, pv: seq<nat>, s: nat, ids: seq<nat>, p: nat, seg: seq<nat>)
    requires Ring(nx, pv, s, ids) && p <= |ids|
    requires |seg| > 0 && Chain(nx, pv, seg) && Detached(nx, s, ids, seg)
    ensures var a, b, first, last := PrevAt(s, ids, p), NodeAt(s, ids, p), seg[0], seg[|seg| - 1];
      Ring(nx[a := first][last := b], pv[first := a][b := last], s, ids[..p] + seg + ids[p..])
  {
    var a, b, first, last := PrevAt(s, ids, p), NodeAt(s, ids, p), seg[0], seg[|seg| - 1];
    var nx1, pv1 := nx[a := first], pv[first := a];
    var nx', pv' := nx1[last := b], pv1[b := last];
    var r := ids[..p] + seg + ids[p..];
    DistinctInsert(nx, s, ids, p, seg);
    forall i | 0 <= i < |r| ensures Linked(nx', pv', r[i], NodeAt(s, r, i + 1)) {
      InsertAt(nx, pv, s, ids, p, seg, i);
    }
    var y := NodeAt(s, r, 0);
    if p > 0 {
      assert Linked(nx, pv, s, NodeAt(s, ids, 0));
      assert y == ids[0];
      LinkedUpdate(nx, pv, a, first, s, y);
    } else {
      assert y == first;
      LinkedUpdate(nx, pv, a, first, s, y);
    }
    LinkedUpdate(nx1, pv1, last, b, s, y);
  }

  /** `link_nodes(&sentinel, first)` then `link_nodes(last, &sentinel)` make a
      detached run the whole of the list with sentinel `s`. */
  lemma {:induction false} RingClose(nx: seq<nat>, pv: seq<nat>, s: nat, seg: seq<nat>)
    requires |seg| > 0 && Chain(nx, pv, seg) && Detached(nx, s, [], seg)
    requires |pv| == |nx| && s < |nx|
    ensures var first, last := seg[0], seg[|seg| - 1];
      Ring(nx[s := first][last := s], pv[first := s][s := last], s, seg)
  {
    var first, last := seg[0], seg[|seg| - 1];
    var nx1, pv1 := nx[s := first], pv[first := s];
    var nx', pv' := nx1[last := s], pv1[s := last];
    forall q | 0 <= q < |seg| ensures Linked(nx', pv', seg[q], NodeAt(s, seg, q + 1)) {
      if q < |seg| - 1 {
        assert Linked(nx, pv, seg[q], seg[q + 1]);
        LinkedUpdate(nx, pv, s, first, seg[q], seg[q + 1]);
        LinkedUpdate(nx1, pv1, last, s, seg[q], seg[q + 1]);
      } else {
        LinkedUpdate(nx1, pv1, last, s, last, s);
      }
    }
    LinkedUpdate(nx, pv, s, first, s, first);
    LinkedUpdate(nx1, pv1, last, s, s, first);
  }

  /** The links inside a ring's run of data nodes. */
  lemma RingChain(nx: seq<nat>, pv: seq<nat>, s: nat, ids: seq<nat>)
    requires Ring(nx, pv, s, ids)
    ensures Chain(nx, pv, ids)
  {
    forall q, r | 0 <= q && r == q + 1 < |ids| ensures Linked(nx, pv, ids[q], ids[r]) {
      assert Linked(nx, pv, ids[q], NodeAt(s, ids, r));
    }
  }

  /** Two lists share no node. */
  predicate Apart(s: nat, ids: seq<nat>, t: nat, jds: seq<nat>)
  {
    && s != t
    && (forall i :: 0 <= i < |ids| ==> ids[i] != t)
    && (forall j :: 0 <= j < |jds| ==> jds[j] != s)
    && (forall i, j :: 0 <= i < |ids| && 0 <= j < |jds| ==> ids[i] != jds[j])
  }

  /** Node `x` is neither the sentinel nor a data node of the list. */
  predicate Outside(s: nat, ids: seq<nat>, x: nat)
  {
    x != s && forall i :: 0 <= i < |ids| ==> ids[i] != x
  }

  /** Relinking nodes outside a ring keeps the ring. */
  lemma RingFrameOutside(nx: seq<nat>, pv: seq<nat>, s: nat, ids: seq<nat>,
                         a: nat, a': nat, b: nat, b': nat, c: nat, c': nat, d: nat, d': nat)
    requires Ring(nx, pv, s, ids) && a < |nx| && b < |nx| && c < |nx| && d < |nx|
    requires Outside(s, ids, a) && Outside(s, ids, b) && Outside(s, ids, c) && Outside(s, ids, d)
    ensures Ring(nx[a := a'][b := b'], pv[c := c'][d := d'], s, ids)
  {
    RingFrame(nx, pv, nx[a := a'][b := b'], pv[c := c'][d := d'], s, ids);
  }

  /** The run `ids[f..e]` and what is left around it. */
  lemma CutParts(s: nat, ids: seq<nat>, f: nat, e: nat)
    requires Distinct(s, ids) && f <= e <= |ids|
    ensures var rest, seg := ids[..f] + ids[e..], ids[f..e];
      && |rest| == |ids| - (e - f) && |seg| == e - f
      && (forall i :: 0 <= i < |rest| ==> rest[i] == if i < f then ids[i] else ids[i - f + e])
      && (forall j :: 0 <= j < |seg| ==> seg[j] == ids[f + j] && Outside(s, rest, seg[j]))
      && Distinct(s, seg)
  {
    var rest, seg := ids[..f] + ids[e..], ids[f..e];
    forall i | 0 <= i < |rest| ensures rest[i] == if i < f then ids[i] else ids[i - f + e] {
    }
  }

  /** A run cut from a list apart from `s` is detached from `s`, and what is
      left of that list is still apart from `s`. */
  lemma CutApart(nx: seq<nat>, s: nat, ids: seq<nat>, t: nat, jds: seq<nat>, f: nat, e: nat)
    requires Apart(s, ids, t, jds) && Distinct(t, jds) && f <= e <= |jds|
    requires forall j :: 0 <= j < |jds| ==> jds[j] < |nx|
    ensures Detached(nx, s, ids, jds[f..e]) && Apart(s, ids, t, jds[..f] + jds[e..])
    ensures forall j :: 0 <= j < e - f ==> Outside(t, jds[..f] + jds[e..], jds[f..e][j])
  {
    CutParts(t, jds, f, e);
  }

  /** Being apart is symmetric. */
  lemma ApartSymmetric(s: nat, ids: seq<nat>, t: nat, jds: seq<nat>)
    requires Apart(s, ids, t, jds)
    ensures Apart(t, jds, s, ids)
  {
  }

  /** The node at a position of a list, and the one before it, are outside
      a list apart from it. */
  lemma PositionOutside(s: nat, ids: seq<nat>, t: nat, jds: seq<nat>, p: nat)
    requires Apart(s, ids, t, jds) && p <= |ids|
    ensures Outside(t, jds, NodeAt(s, ids, p)) && Outside(t, jds, PrevAt(s, ids, p))
  {
    if p < |ids| {
      assert NodeAt(s, ids, p) == ids[p];
    }
    if p > 0 {
      assert PrevAt(s, ids, p) == ids[p - 1];
    }
  }

  /** `splice(pos, other, first, last)` between two lists: after
      `link_nodes(first->prev, last)` the run `jds[f..e]` is cut out of list
      `t`, and `link_nodes(pos->prev, first)`, `link_nodes(last_prev, pos)`
      put it before position `p` of list `s`.  The `prev` links read on the
      way are the ones the ring predicts. */
  lemma {:induction false} RingMove(nx: seq<nat>, pv: seq<nat>, s: nat, ids: seq<nat>, p: nat,
                                    t: nat, jds: seq<nat>, f: nat, e: nat)
    requires Ring(nx, pv, s, ids) && Ring(nx, pv, t, jds) && Apart(s, ids, t, jds)
    requires p <= |ids| && f < e <= |jds|
    ensures var a, b, first, last := PrevAt(t, jds, f), NodeAt(t, jds, e), jds[f], jds[e - 1];
      var pos := NodeAt(s, ids, p);
      var nx1, pv1 := nx[a := b], pv[b := a];
      && pos < |pv| && pv[b] == last && pv1[pos] == PrevAt(s, ids, p)
      && Ring(nx1[pv1[pos] := first][last := pos], pv1[first := pv1[pos]][pos := last], s, ids[..p] + jds[f..e] + ids[p..])
      && Ring(nx1[pv1[pos] := first][last := pos], pv1[first := pv1[pos]][pos := last], t, jds[..f] + jds[e..])
  {
    var a, b, first, last := PrevAt(t, jds, f), NodeAt(t, jds, e), jds[f], jds[e - 1];
    var pos, pa := NodeAt(s, ids, p), PrevAt(s, ids, p);
    var nx1, pv1 := nx[a := b], pv[b := a];
    var seg, rest := jds[f..e], jds[..f] + jds[e..];
    RingPrev(nx, pv, s, ids, p);
    RingPrev(nx, pv, t, jds, e);
    RingUnlink(nx, pv, t, jds, f, e);
    ApartSymmetric(s, ids, t, jds);
    PositionOutside(t, jds, s, ids, f);
    PositionOutside(t, jds, s, ids, e);
    RingFrameOutside(nx, pv, s, ids, a, b, a, b, b, a, b, a);
    CutApart(nx1, s, ids, t, jds, f, e);
    RingInsert(nx1, pv1, s, ids, p, seg);
    PositionOutside(s, ids, t, rest, p);
    assert seg[0] == first && seg[|seg| - 1] == last;
    assert Outside(t, rest, seg[0]) && Outside(t, rest, seg[|seg| - 1]);
    RingFrameOutside(nx1, pv1, t, rest, pa, first, last, pos, first, pa, pos, last);
  }

  /** `splice(pos, *this, first, last)` with `pos` outside `[first, last)`:
      the run is cut out, leaving `rest`, and put before the node at `p`,
      which is position `q` of `rest`.  `pos->prev` is read after the cut. */
  lemma {:induction false} RingMoveWithin(nx: seq<nat>, pv: seq<nat>, s: nat, ids: seq<nat>, p: nat, f: nat, e: nat)
    requires Ring(nx, pv, s, ids) && f < e <= |ids| && p <= |ids| && (p < f || e <= p)
    ensures var a, b, first, last := PrevAt(s, ids, f), NodeAt(s, ids, e), ids[f], ids[e - 1];
      var pos, rest, q := NodeAt(s, ids, p), ids[..f] + ids[e..], if p < f then p else p - (e - f);
      var nx1, pv1 := nx[a := b], pv[b := a];
      && q <= |rest| && pos < |pv| && pv[b] == last && pos == NodeAt(s, rest, q) && pv1[pos] == PrevAt(s, rest, q)
      && Ring(nx1[pv1[pos] := first][last := pos], pv1[first := pv1[pos]][pos := last], s, rest[..q] + ids[f..e] + rest[q..])
  {
    var a, b, first, last := PrevAt(s, ids, f), NodeAt(s, ids, e), ids[f], ids[e - 1];
    var pos, rest, q := NodeAt(s, ids, p), ids[..f] + ids[e..], if p < f then p else p - (e - f);
    var nx1, pv1 := nx[a := b], pv[b := a];
    var seg := ids[f..e];
    RingPrev(nx, pv, s, ids, e);
    RingUnlink(nx, pv, s, ids, f, e);
    CutParts(s, ids, f, e);
    assert pos == NodeAt(s, rest, q);
    RingPrev(nx1, pv1, s, rest, q);
    assert Detached(nx1, s, rest, seg);
    RingInsert(nx1, pv1, s, rest, q, seg);
  }

  /** `swap` when only the other list `t` is non-empty: its run `jds` is
      hung between `s`'s sentinel links and `t`'s sentinel is linked to
      itself. */
  lemma {:induction false} RingHandOver(nx: seq<nat>, pv: seq<nat>, s: nat, t: nat, jds: seq<nat>)
    requires Ring(nx, pv, s, []) && Ring(nx, pv, t, jds) && Apart(s, [], t, jds) && jds != []
    ensures var first, last := jds[0], jds[|jds| - 1];
      var nx', pv' := nx[s := first][last := s][t := t], pv[first := s][s := last][t := t];
      Ring(nx', pv', s, jds) && Ring(nx', pv', t, [])
  {
    var first, last := jds[0], jds[|jds| - 1];
    var nx1, pv1 := nx[s := first][last := s], pv[first := s][s := last];
    RingChain(nx, pv, t, jds);
    RingClose(nx, pv, s, jds);
    RingFrame(nx1, pv1, nx1[t := t], pv1[t := t], s, jds);
    RingEmpty(nx1[t := t], pv1[t := t], t);
  }

  /** `swap` of two non-empty lists: four `link_nodes` hang each run
      between the other sentinel's links. */
  lemma {:induction false} RingExchange(nx: seq<nat>, pv: seq<nat>, s: nat, ids: seq<nat>, t: nat, jds: seq<nat>)
    requires Ring(nx, pv, s, ids) && Ring(nx, pv, t, jds) && Apart(s, ids, t, jds) && ids != [] && jds != []
    ensures var sf, sl, tf, tl := ids[0], ids[|ids| - 1], jds[0], jds[|jds| - 1];
      var nx', pv' := nx[s := tf][tl := s][t := sf][sl := t], pv[tf := s][s := tl][sf := t][t := sl];
      Ring(nx', pv', s, jds) && Ring(nx', pv', t, ids)
  {
    var sf, sl, tf, tl := ids[0], ids[|ids| - 1], jds[0], jds[|jds| - 1];
    var nx1, pv1 := nx[s := tf][tl := s], pv[tf := s][s := tl];
    var nx2: seq<nat>, pv2: seq<nat> := nx1[t := sf][sl := t], pv1[sf := t][t := sl];
    RingChain(nx, pv, s, ids);
    RingChain(nx, pv, t, jds);
    RingClose(nx, pv, s, jds);
    forall q, r | 0 <= q && r == q + 1 < |ids| ensures Linked(nx1, pv1, ids[q], ids[r]) {
      assert Linked(nx, pv, ids[q], ids[r]);
    }
    RingClose(nx1, pv1, t, ids);
    RingFrame(nx1, pv1, nx2, pv2, s, jds);
  }

  /** Swapping `next` and `prev` on every node of a ring gives the ring of
      the reversed list. */
  lemma {:induction false} RingReverse(nx: seq<nat>, pv: seq<nat>, s: nat, ids: seq<nat>)
    requires Ring(nx, pv, s, ids)
    ensures Ring(pv, nx, s, Rev(ids))
  {
    var r := Rev(ids);
    var n := |ids|;
    forall i, j | 0 <= i < j < n ensures r[i] != r[j] {
      assert r[i] == ids[n - 1 - i] && r[j] == ids[n - 1 - j];
    }
    forall i | 0 <= i < n ensures r[i] != s && r[i] < |nx| {
      assert r[i] == ids[n - 1 - i];
    }
    if n > 0 {
      assert Linked(nx, pv, ids[n - 1], NodeAt(s, ids, n));
      assert NodeAt(s, r, 0) == ids[n - 1];
    }
    forall i | 0 <= i < n ensures Linked(pv, nx, r[i], NodeAt(s, r, i + 1)) {
      assert r[i] == ids[n - 1 - i];
      if i + 1 < n {
        assert NodeAt(s, r, i + 1) == ids[n - 2 - i];
        assert Linked(nx, pv, ids[n - 2 - i], NodeAt(s, ids, n - 1 - i));
      } else {
        assert Linked(nx, pv, s, NodeAt(s, ids, 0));
      }
    }
  }
}
