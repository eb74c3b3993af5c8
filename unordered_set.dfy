/** The separate-chaining hash set of `include/unordered_set/unordered_set.h`.

    The bucket array `buckets_` is an array of chains; chain `b` holds, front
    to back, the keys of the nodes reached from `buckets_[b]` by `next`.  A key
    stands in chain `hash(key) % bucket_count`, once.  `max_load_factor_` is
    the default `1.0f`, so the load-factor tests compare `size_` with
    `bucket_count_` directly. */
module HashSet {

  datatype Option<T> = None | Some(value: T)

  /** `default_bucket_count`. */
  const DefaultBucketCount: nat := 16

  /** No key twice. */
  ghost predicate Distinct<K>(s: seq<K>)
  {
    forall i, j :: 0 <= i < j < |s| ==> s[i] != s[j]
  }

  /** Every key of chain `b` hashes to `b`. */
  ghost predicate Placed<K(!new)>(hash: K -> nat, cs: seq<seq<K>>)
  {
    && |cs| > 0
    && forall b, j :: 0 <= b < |cs| && 0 <= j < |cs[b]| ==> hash(cs[b][j]) % |cs| == b
  }

  /** The chains `cs` hold the keys `elems`: each in the chain its hash
      selects, and each once. */
  ghost predicate Chains<K(!new)>(hash: K -> nat, cs: seq<seq<K>>, elems: set<K>)
  {
    && Placed(hash, cs)
    && (forall b :: 0 <= b < |cs| ==> Distinct(cs[b]))
    && forall x :: x in elems <==> x in cs[hash(x) % |cs|]
  }

  /** Empty chains hold no key. */
  lemma ChainsEmpty<K(!new)>(hash: K -> nat, cs: seq<seq<K>>)
    requires |cs| > 0 && forall b :: 0 <= b < |cs| ==> cs[b] == []
    ensures Chains(hash, cs, {})
  {
  }

  /** A key is stored exactly when it is in its own chain. */
  lemma ChainsFind<K(!new)>(hash: K -> nat, cs: seq<seq<K>>, elems: set<K>, x: K)
    requires Chains(hash, cs, elems)
    ensures x in elems <==> x in cs[hash(x) % |cs|]
    ensures forall b :: 0 <= b < |cs| && x in cs[b] ==> b == hash(x) % |cs| && x in elems
  {
    forall b | 0 <= b < |cs| && x in cs[b] ensures b == hash(x) % |cs| {
      var j :| 0 <= j < |cs[b]| && cs[b][j] == x;
    }
  }

  /** The `bucket_count_` `rehash_impl(n)` allocates, as written, with
      `max_load_factor_` 1: the request, raised to `size_ + 1` when it is
      below `size_`. */
  function RehashTargetAsWritten(n: nat, size: nat): (r: nat)
    ensures r >= n && r >= size
    ensures n < size ==> r == size + 1
  {
    if n < size then size + 1 else n
  }

  /** As written, `rehash(0)` on an empty set allocates no bucket at all;
      after it every `bucket_index` takes a remainder by zero, and even
      `insert` cannot recover, since `check_and_rehash` then asks for
      `2 * 0` buckets. */
  lemma RehashToNoBuckets()
    ensures RehashTargetAsWritten(0, 0) == 0
    ensures RehashTargetAsWritten(2 * RehashTargetAsWritten(0, 0), 0) == 0
  {
  }

  /** The bucket count the model allocates: as written, but never below
      one, so every bucket index is defined. */
  function RehashTarget(n: nat, size: nat): (r: nat)
    ensures r >= 1 && r >= n && r >= size
    ensures RehashTargetAsWritten(n, size) > 0 ==> r == RehashTargetAsWritten(n, size)
    ensures n < size ==> r > size
  {
    var t := RehashTargetAsWritten(n, size);
    if t == 0 then 1 else t
  }

  /** Prepending an absent key to its chain stores it. */
  lemma ChainsPrepend<K(!new)>(hash: K -> nat, cs: seq<seq<K>>, elems: set<K>, v: K)
    requires Chains(hash, cs, elems) && v !in elems
    ensures var i := hash(v) % |cs|; Chains(hash, cs[i := [v] + cs[i]], elems + {v})
  {
    var i := hash(v) % |cs|;
    var cs' := cs[i := [v] + cs[i]];
    forall b, j | 0 <= b < |cs'| && 0 <= j < |cs'[b]| ensures hash(cs'[b][j]) % |cs'| == b {
      if b == i && j > 0 {
        assert cs'[b][j] == cs[b][j - 1];
      }
    }
    assert Distinct(cs'[i]) by {
      forall p, q | 0 <= p < q < |cs'[i]| ensures cs'[i][p] != cs'[i][q] {
        assert cs'[i][q] == cs[i][q - 1];
        if p > 0 {
          assert cs'[i][p] == cs[i][p - 1];
        }
      }
    }
    forall x ensures x in elems + {v} <==> x in cs'[hash(x) % |cs'|] {
      if hash(x) % |cs| == i {
        assert x in cs'[i] <==> x == v || x in cs[i];
      }
    }
  }

  /** A chain without its key at position `j` keeps every other key, each
      still once. */
  lemma RemoveAt<K>(c: seq<K>, j: nat)
    requires Distinct(c) && j < |c|
    ensures var c' := c[..j] + c[j + 1..];
      && Distinct(c') && (forall x :: x in c' <==> x in c && x != c[j])
      && forall t :: 0 <= t < |c'| ==> c'[t] in c
  {
    var c' := c[..j] + c[j + 1..];
    assert forall t :: 0 <= t < |c'| ==> c'[t] == c[if t < j then t else t + 1];
    forall p, q | 0 <= p < q < |c'| ensures c'[p] != c'[q] {
      assert c'[p] == c[if p < j then p else p + 1];
      assert c'[q] == c[if q < j then q else q + 1];
    }
    forall x | x in c && x != c[j] ensures x in c' {
      var t :| 0 <= t < |c| && c[t] == x;
      assert x == c'[if t < j then t else t - 1];
    }
  }

  /** Removing the key at position `j` of its chain deletes it. */
  lemma ChainsRemove<K(!new)>(hash: K -> nat, cs: seq<seq<K>>, elems: set<K>, i: nat, j: nat)
    requires Chains(hash, cs, elems) && i < |cs| && j < |cs[i]|
    ensures var k := cs[i][j];
      && k in elems && i == hash(k) % |cs|
      && Chains(hash, cs[i := cs[i][..j] + cs[i][j + 1..]], elems - {k})
  {
    var k := cs[i][j];
    var c, c' := cs[i], cs[i][..j] + cs[i][j + 1..];
    var cs' := cs[i := c'];
    RemoveAt(c, j);
    ChainsFind(hash, cs, elems, k);
    forall b, t | 0 <= b < |cs'| && 0 <= t < |cs'[b]| ensures hash(cs'[b][t]) % |cs'| == b {
      if b == i {
        ChainsFind(hash, cs, elems, c'[t]);
      }
    }
    forall x ensures x in elems - {k} <==> x in cs'[hash(x) % |cs'|] {
      ChainsFind(hash, cs, elems, x);
    }
  }

  /** The state of the loops of `rehash_impl`: the new chains `ns` hold the
      keys of old chains `cs` below `i` and the first `j` keys of chain `i`,
      each in its new place, once. */
  ghost predicate Moving<K(!new)>(hash: K -> nat, cs: seq<seq<K>>, ns: seq<seq<K>>, i: nat, j: nat)
    requires |cs| > 0
  {
    && Placed(hash, ns) && i <= |cs| && (i < |cs| ==> j <= |cs[i]|)
    && (forall b :: 0 <= b < |ns| ==> Distinct(ns[b]))
    && forall x :: x in ns[hash(x) % |ns|] <==>
        var b := hash(x) % |cs|; x in cs[b] && (b < i || (b == i && x in cs[b][..j]))
  }

  /** Fresh empty chains hold nothing moved yet. */
  lemma MovingStart<K(!new)>(hash: K -> nat, cs: seq<seq<K>>, ns: seq<seq<K>>)
    requires |cs| > 0 && |ns| > 0 && forall b :: 0 <= b < |ns| ==> ns[b] == []
    ensures Moving(hash, cs, ns, 0, 0)
  {
  }

  /** `node->next = new_buckets[new_idx]; new_buckets[new_idx] = node;` for
      the key at position `j` of old chain `i`. */
  lemma MovingStep<K(!new)>(hash: K -> nat, cs: seq<seq<K>>, elems: set<K>, ns: seq<seq<K>>, i: nat, j: nat)
    requires Chains(hash, cs, elems) && Moving(hash, cs, ns, i, j) && i < |cs| && j < |cs[i]|
    ensures var x := cs[i][j]; var k := hash(x) % |ns|;
      Moving(hash, cs, ns[k := [x] + ns[k]], i, j + 1)
  {
    var x := cs[i][j];
    var k := hash(x) % |ns|;
    assert hash(x) % |cs| == i;
    assert x !in cs[i][..j] by {
      forall t | 0 <= t < j ensures cs[i][..j][t] != x {
        assert cs[i][t] != cs[i][j];
      }
    }
    assert cs[i][..j + 1] == cs[i][..j] + [x];
    var ns' := ns[k := [x] + ns[k]];
    forall b, t | 0 <= b < |ns'| && 0 <= t < |ns'[b]| ensures hash(ns'[b][t]) % |ns'| == b {
      if b == k && t > 0 {
        assert ns'[b][t] == ns[b][t - 1];
      }
    }
    assert Distinct(ns'[k]) by {
      forall p, q | 0 <= p < q < |ns'[k]| ensures ns'[k][p] != ns'[k][q] {
        assert ns'[k][q] == ns[k][q - 1];
        if p > 0 {
          assert ns'[k][p] == ns[k][p - 1];
        }
      }
    }
    forall y ensures y in ns'[hash(y) % |ns'|] <==>
        var b := hash(y) % |cs|; y in cs[b] && (b < i || (b == i && y in cs[b][..j + 1]))
    {
      if hash(y) % |ns| == k {
        assert y in ns'[k] <==> y == x || y in ns[k];
      }
    }
  }

  /** The inner loop has walked chain `i` to its end. */
  lemma MovingNext<K(!new)>(hash: K -> nat, cs: seq<seq<K>>, ns: seq<seq<K>>, i: nat)
    requires |cs| > 0 && i < |cs| && Moving(hash, cs, ns, i, |cs[i]|)
    ensures Moving(hash, cs, ns, i + 1, 0)
  {
    assert cs[i][..|cs[i]|] == cs[i];
  }

  /** Once every old chain is walked the new chains hold the same keys. */
  lemma MovingDone<K(!new)>(hash: K -> nat, cs: seq<seq<K>>, elems: set<K>, ns: seq<seq<K>>)
    requires Chains(hash, cs, elems) && Moving(hash, cs, ns, |cs|, 0)
    ensures Chains(hash, ns, elems)
  {
  }

  /** The chains one after another: the order in which the iterator visits
      the keys. */
  function Flatten<K>(cs: seq<seq<K>>): (r: seq<K>)
  {
    if cs == [] then [] else Flatten(cs[..|cs| - 1]) + cs[|cs| - 1]
  }

  /** One chain more. */
  lemma FlattenTake<K>(cs: seq<seq<K>>, b: nat)
    requires b < |cs|
    ensures Flatten(cs[..b + 1]) == Flatten(cs[..b]) + cs[b]
  {
    assert cs[..b + 1][..b] == cs[..b];
  }

  /** Empty chains add nothing. */
  lemma {:induction false} FlattenEmpties<K>(cs: seq<seq<K>>, b: nat, c: nat)
    requires b <= c <= |cs| && forall k :: b <= k < c ==> cs[k] == []
    ensures Flatten(cs[..c]) == Flatten(cs[..b])
    decreases c - b
  {
    if b < c {
      FlattenEmpties(cs, b, c - 1);
      FlattenTake(cs, c - 1);
    }
  }

  /** A prefix of the chains flattens to a prefix. */
  lemma {:induction false} FlattenPrefix<K>(cs: seq<seq<K>>, b: nat)
    requires b <= |cs|
    ensures |Flatten(cs[..b])| <= |Flatten(cs)|
    ensures Flatten(cs)[..|Flatten(cs[..b])|] == Flatten(cs[..b])
    decreases |cs| - b
  {
    if b < |cs| {
      FlattenPrefix(cs, b + 1);
      FlattenTake(cs, b);
      var F, F1, F0 := Flatten(cs), Flatten(cs[..b + 1]), Flatten(cs[..b]);
      assert F[..|F0|] == F[..|F1|][..|F0|];
    } else {
      assert cs[..b] == cs;
    }
  }

  /** Key `j` of chain `b` is visited at position `|Flatten(cs[..b])| + j`. */
  lemma FlattenAt<K>(cs: seq<seq<K>>, b: nat, j: nat)
    requires b < |cs| && j < |cs[b]|
    ensures |Flatten(cs[..b])| + j < |Flatten(cs)|
    ensures Flatten(cs)[|Flatten(cs[..b])| + j] == cs[b][j]
  {
    FlattenTake(cs, b);
    FlattenPrefix(cs, b + 1);
    var F, F1 := Flatten(cs), Flatten(cs[..b + 1]);
    assert F[|Flatten(cs[..b])| + j] == F[..|F1|][|Flatten(cs[..b])| + j];
  }

  /** The keys of the chains below `b`, each once. */
  lemma {:induction false} FlattenKeysUpTo<K(!new)>(hash: K -> nat, cs: seq<seq<K>>, elems: set<K>, b: nat)
    requires Chains(hash, cs, elems) && b <= |cs|
    ensures Distinct(Flatten(cs[..b]))
    ensures forall x :: x in Flatten(cs[..b]) <==> x in elems && hash(x) % |cs| < b
  {
    if b > 0 {
      FlattenKeysUpTo(hash, cs, elems, b - 1);
      FlattenTake(cs, b - 1);
      var P, c := Flatten(cs[..b - 1]), cs[b - 1];
      forall x ensures x in c <==> x in elems && hash(x) % |cs| == b - 1 {
        ChainsFind(hash, cs, elems, x);
      }
      forall p, q | 0 <= p < q < |P + c| ensures (P + c)[p] != (P + c)[q] {
        if p < |P| && q >= |P| {
          assert (P + c)[p] in P && (P + c)[q] in c;
        } else if p >= |P| {
          assert (P + c)[p] == c[p - |P|] && (P + c)[q] == c[q - |P|];
        }
      }
    } else {
      assert cs[..0] == [];
    }
  }

  /** A sequence without repeats is as long as the set of its keys is
      large. */
  lemma {:induction false} DistinctCard<K>(s: seq<K>)
    requires Distinct(s)
    ensures |set x | x in s| == |s|
  {
    if s != [] {
      var t := s[..|s| - 1];
      assert Distinct(t);
      DistinctCard(t);
      assert s == t + [s[|s| - 1]];
      assert s[|s| - 1] !in t;
      assert (set x | x in s) == (set x | x in t) + {s[|s| - 1]};
    }
  }

  /** Walking the chains one after another visits every stored key, each
      exactly once, `size()` keys in all. */
  lemma FlattenKeys<K(!new)>(hash: K -> nat, cs: seq<seq<K>>, elems: set<K>)
    requires Chains(hash, cs, elems)
    ensures Distinct(Flatten(cs)) && |Flatten(cs)| == |elems|
    ensures forall x :: x in Flatten(cs) <==> x in elems
  {
    FlattenKeysUpTo(hash, cs, elems, |cs|);
    assert cs[..|cs|] == cs;
    DistinctCard(Flatten(cs));
    assert (set x | x in Flatten(cs)) == elems;
  }

  /** The chain of bucket `n` holds exactly the keys that hash to `n`. */
  lemma BucketKeys<K(!new)>(hash: K -> nat, cs: seq<seq<K>>, elems: set<K>, n: nat)
    requires Chains(hash, cs, elems) && n < |cs|
    ensures |cs[n]| == |set x | x in elems && hash(x) % |cs| == n|
  {
    forall x ensures x in cs[n] <==> x in elems && hash(x) % |cs| == n {
      ChainsFind(hash, cs, elems, x);
    }
    DistinctCard(cs[n]);
    assert (set x | x in cs[n]) == set x | x in elems && hash(x) % |cs| == n;
  }

  /** `allocate_buckets(count)`: `count` empty chains. */
  method AllocateBuckets<K>(count: nat) returns (a: array<seq<K>>)
    ensures fresh(a) && a.Length == count && forall b :: 0 <= b < count ==> a[b] == []
  {
    a := new seq<K>[count];
    for i := 0 to count
      invariant forall b :: 0 <= b < i ==> a[b] == []
    {
      a[i] := [];
    }
  }

  /** The loops of `rehash_impl`: every node of the old chains `ob`, chain
      by chain and front to back, is prepended to its chain in the empty
      new array `nb`. */
  method Relink<K(!new)>(hash: K -> nat, ghost elems: set<K>, ob: array<seq<K>>, nb: array<seq<K>>)
    requires ob != nb && Chains(hash, ob[..], elems)
    requires nb.Length > 0 && forall b :: 0 <= b < nb.Length ==> nb[b] == []
    modifies nb
    ensures Chains(hash, nb[..], elems)
  {
    ghost var cs := ob[..];
    MovingStart(hash, cs, nb[..]);
    for i := 0 to ob.Length
      invariant Moving(hash, cs, nb[..], i, 0)
    {
      var chain := ob[i];
      var j := 0;
      while j < |chain|
        invariant j <= |chain| && Moving(hash, cs, nb[..], i, j)
      {
        MovingStep(hash, cs, elems, nb[..], i, j);
        var x := chain[j];
        var k := hash(x) % nb.Length;
        nb[k] := [x] + nb[k];
        j := j + 1;
      }
      MovingNext(hash, cs, nb[..], i);
    }
    MovingDone(hash, cs, elems, nb[..]);
  }

  /** An iterator: `current_bucket_` and the position of `current_node_` in
      that chain, `None` for the null node. */
  datatype Cursor = Cursor(bucket: nat, node: Option<nat>)

  class UnorderedSet<K(==, !new)> {
    var hash: K -> nat
    var buckets: array<seq<K>>
    var size: nat
    /** The keys stored. */
    ghost var elems: set<K>

    /** The chains hold exactly `elems`, `size_` counts them, and the load
        factor `size_ / bucket_count_` stays within `max_load_factor` 1. */
    ghost predicate Valid()
      reads this, buckets
    {
      Chains(hash, buckets[..], elems) && size == |elems| && size <= buckets.Length
    }

    /** `unordered_set()`: 16 empty buckets. */
    constructor (hash: K -> nat)
      ensures Valid() && fresh(buckets) && this.hash == hash
      ensures elems == {} && buckets.Length == DefaultBucketCount
    {
      var a := AllocateBuckets(DefaultBucketCount);
      this.hash := hash;
      buckets := a;
      size := 0;
      elems := {};
    }

    /** `unordered_set(bucket_count, hash)`: the buckets asked for, or 16
        when that is 0. */
    constructor WithBuckets(count: nat, hash: K -> nat)
      ensures Valid() && fresh(buckets) && this.hash == hash
      ensures elems == {} && buckets.Length == if count > 0 then count else DefaultBucketCount
    {
      var a := AllocateBuckets(if count > 0 then count else DefaultBucketCount);
      this.hash := hash;
      buckets := a;
      size := 0;
      elems := {};
    }

    /** `bucket_count()`. */
    function BucketCount(): (n: nat)
      reads this, buckets
      requires Valid()
      ensures n > 0 && n == buckets.Length
    {
      buckets.Length
    }

    /** `bucket_index(key)`. */
    function BucketIndex(key: K): (i: nat)
      reads this
      requires buckets.Length > 0
      ensures i < buckets.Length
    {
      hash(key) % buckets.Length
    }

    /** `bucket(key)`: the bucket whose chain holds `key` if it is stored. */
    function Bucket(key: K): (i: nat)
      reads this, buckets
      requires Valid()
      ensures i < buckets.Length && (key in elems <==> key in buckets[i])
    {
      ChainsFind(hash, buckets[..], elems, key);
      BucketIndex(key)
    }

    /** `size()`. */
    function Size(): (n: nat)
      reads this, buckets
      requires Valid()
      ensures n == |elems|
    {
      size
    }

    /** `empty()`. */
    function Empty(): (b: bool)
      reads this, buckets
      requires Valid()
      ensures b <==> elems == {}
    {
      size == 0
    }

    /** An iterator that points at a key, or has the null node past the
        last bucket. */
    ghost predicate ValidCursor(it: Cursor)
      reads this, buckets
    {
      if it.node.Some? then it.bucket < buckets.Length && it.node.value < |buckets[it.bucket]|
      else it.bucket >= buckets.Length
    }

    /** How many keys the iteration has passed: the position of the key in
        `Flatten`, and the number of keys for the null node. */
    ghost function Rank(it: Cursor): nat
      reads this, buckets
      requires ValidCursor(it)
    {
      if it.node.None? then |Flatten(buckets[..])|
      else |Flatten(buckets[..][..it.bucket])| + it.node.value
    }

    /** `*it`: the key at the iterator's position in the iteration. */
    function Key(it: Cursor): (k: K)
      reads this, buckets
      requires Valid() && ValidCursor(it) && it.node.Some?
      ensures k in elems && Rank(it) < |Flatten(buckets[..])| && k == Flatten(buckets[..])[Rank(it)]
    {
      FlattenAt(buckets[..], it.bucket, it.node.value);
      ChainsFind(hash, buckets[..], elems, buckets[it.bucket][it.node.value]);
      buckets[it.bucket][it.node.value]
    }

    /** `end()`: bucket `bucket_count_` with the null node, past every key
        of the iteration. */
    function End(): (it: Cursor)
      reads this, buckets
      requires Valid()
      ensures it.node.None? && ValidCursor(it) && Rank(it) == |elems|
    {
      FlattenKeys(hash, buckets[..], elems);
      Cursor(buckets.Length, None)
    }

    /** `begin()`: the front of the first non-empty chain, or `end()`. */
    method Begin() returns (it: Cursor)
      requires Valid()
      ensures ValidCursor(it) && Rank(it) == 0 && (it.node.None? ==> it == End())
    {
      for i := 0 to buckets.Length
        invariant forall b :: 0 <= b < i ==> buckets[b] == []
      {
        if buckets[i] != [] {
          FlattenEmpties(buckets[..], 0, i);
          assert buckets[..][..0] == [];
          return Cursor(i, Some(0));
        }
      }
      FlattenEmpties(buckets[..], 0, buckets.Length);
      assert buckets[..][..0] == [] && buckets[..][..buckets.Length] == buckets[..];
      return End();
    }

    /** `advance_to_next_node()`: the next node of the chain if there is
        one, else the front of the next non-empty chain, else the null
        node; the iteration moves on by exactly one key. */
    method Advance(it: Cursor) returns (r: Cursor)
      requires Valid() && ValidCursor(it)
      ensures ValidCursor(r)
      ensures it.node.Some? ==> Rank(r) == Rank(it) + 1
      ensures it.node.Some? && r.node.None? ==> r == End()
      ensures it.node.None? ==> r.node.None?
    {
      if it.node.Some? && it.node.value + 1 < |buckets[it.bucket]| {
        return Cursor(it.bucket, Some(it.node.value + 1));
      }
      var b := it.bucket + 1;
      while b < buckets.Length
        invariant it.bucket < b && (it.node.Some? ==> b <= buckets.Length)
        invariant forall k :: it.bucket < k < b ==> k < buckets.Length && buckets[k] == []
      {
        if buckets[b] != [] {
          if it.node.Some? {
            AdvancedAcross(buckets[..], it.bucket, b);
          }
          return Cursor(b, Some(0));
        }
        b := b + 1;
      }
      if it.node.Some? {
        AdvancedAcross(buckets[..], it.bucket, b);
        assert buckets[..][..buckets.Length] == buckets[..];
      }
      return Cursor(b, None);
    }

    /** `find(key)`: walks the key's chain. */
    method Find(key: K) returns (it: Cursor)
      requires Valid()
      ensures ValidCursor(it) && (it.node.Some? <==> key in elems)
      ensures it.node.Some? ==> Key(it) == key
      ensures it.node.None? ==> it == End()
    {
      ChainsFind(hash, buckets[..], elems, key);
      var idx := BucketIndex(key);
      var chain := buckets[idx];
      var j := 0;
      while j < |chain|
        invariant j <= |chain| && forall t :: 0 <= t < j ==> chain[t] != key
      {
        if chain[j] == key {
          return Cursor(idx, Some(j));
        }
        j := j + 1;
      }
      return End();
    }

    /** `contains(key)`: `find(key) != end()`. */
    method Contains(key: K) returns (b: bool)
      requires Valid()
      ensures b <==> key in elems
    {
      var it := Find(key);
      b := it.node != End().node;
    }

    /** `count(key)`: 1 for a stored key, 0 otherwise. */
    method Count(key: K) returns (c: nat)
      requires Valid()
      ensures c == if key in elems then 1 else 0
    {
      var it := Find(key);
      c := if it.node != End().node then 1 else 0;
    }

    /** `bucket_size(n)`: the length of chain `n`, which is the number of
        stored keys that hash to `n`. */
    method BucketSize(n: nat) returns (count: nat)
      requires Valid() && n < buckets.Length
      ensures count == |buckets[n]|
      ensures count == |set x | x in elems && hash(x) % buckets.Length == n|
    {
      BucketKeys(hash, buckets[..], elems, n);
      var node := buckets[n];
      count := 0;
      while node != []
        invariant count + |node| == |buckets[n]|
      {
        node := node[1..];
        count := count + 1;
      }
    }

    /** `rehash_impl(n)`: every node is moved to its chain in a fresh array
        of `RehashTarget(n, size)` buckets. */
    method RehashImpl(n: nat)
      requires Valid()
      modifies this
      ensures Valid() && fresh(buckets) && buckets.Length == RehashTarget(n, size)
      ensures elems == old(elems) && size == old(size) && hash == old(hash)
    {
      var m := n;
      if m < size {
        m := size + 1;
      }
      if m == 0 {
        m := 1;
      }
      var nb: array<seq<K>> := AllocateBuckets(m);
      Relink(hash, elems, buckets, nb);
      buckets := nb;
    }

    /** `check_and_rehash()`: doubles the buckets, through `rehash_impl`,
        exactly when one more key would exceed the load factor. */
    method CheckAndRehash()
      requires Valid()
      modifies this
      ensures Valid() && elems == old(elems) && size == old(size) && hash == old(hash)
      ensures size < buckets.Length
      ensures size + 1 > old(buckets.Length) ==> fresh(buckets) && buckets.Length == RehashTarget(2 * old(buckets.Length), size)
      ensures size + 1 <= old(buckets.Length) ==> buckets == old(buckets)
    {
      if size + 1 > buckets.Length {
        RehashImpl(buckets.Length * 2);
      }
    }

    /** `rehash(count)`. */
    method Rehash(count: nat)
      requires Valid()
      modifies this
      ensures Valid() && fresh(buckets) && buckets.Length == RehashTarget(count, size)
      ensures elems == old(elems) && size == old(size) && hash == old(hash)
    {
      RehashImpl(count);
    }

    /** `reserve(count)`: `rehash(count / 1.0 + 1)`. */
    method Reserve(count: nat)
      requires Valid()
      modifies this
      ensures Valid() && fresh(buckets) && buckets.Length == RehashTarget(count + 1, size)
      ensures elems == old(elems) && size == old(size) && hash == old(hash)
    {
      Rehash(count + 1);
    }

    /** Prepends the absent `v` to its chain; both callers run
        `check_and_rehash` first, so the bucket count leaves room for it. */
    method Link(v: K) returns (it: Cursor)
      requires Valid() && v !in elems && size < buckets.Length
      modifies this, buckets
      ensures Valid() && elems == old(elems) + {v} && size == old(size) + 1
      ensures buckets == old(buckets) && hash == old(hash)
      ensures ValidCursor(it) && it.node.Some? && Key(it) == v
    {
      var idx := BucketIndex(v);
      ChainsPrepend(hash, buckets[..], elems, v);
      buckets[idx] := [v] + buckets[idx];
      size := size + 1;
      elems := elems + {v};
      it := Cursor(idx, Some(0));
    }

    /** `insert(value)`: `check_and_rehash` first, so the buckets may grow
        even when the key is already there; then a new key is prepended to
        its chain. */
    method Insert(v: K) returns (it: Cursor, inserted: bool)
      requires Valid()
      modifies this, buckets
      ensures Valid() && inserted == (v !in old(elems)) && elems == old(elems) + {v}
      ensures size == old(size) + if inserted then 1 else 0
      ensures ValidCursor(it) && it.node.Some? && Key(it) == v
      ensures buckets.Length == if old(size) + 1 > old(buckets.Length)
        then RehashTarget(2 * old(buckets.Length), old(size)) else old(buckets.Length)
      ensures hash == old(hash)
      ensures size <= buckets.Length
    {
      CheckAndRehash();
      it := Find(v);
      if it.node.Some? {
        return it, false;
      }
      it := Link(v);
      inserted := true;
    }

    /** `emplace(value)`: the chain is searched before `check_and_rehash`,
        so the buckets only grow when the key is new. */
    method Emplace(v: K) returns (it: Cursor, inserted: bool)
      requires Valid()
      modifies this, buckets
      ensures Valid() && inserted == (v !in old(elems)) && elems == old(elems) + {v}
      ensures size == old(size) + if inserted then 1 else 0
      ensures ValidCursor(it) && it.node.Some? && Key(it) == v
      ensures buckets.Length == if inserted && old(size) + 1 > old(buckets.Length)
        then RehashTarget(2 * old(buckets.Length), old(size)) else old(buckets.Length)
      ensures hash == old(hash)
      ensures size <= buckets.Length
    {
      it := Find(v);
      if it.node.Some? {
        return it, false;
      }
      CheckAndRehash();
      it := Link(v);
      inserted := true;
    }

    /** `erase(key)`: unlinks the key from its chain, through `prev` or the
        bucket head; 1 when it was there, 0 otherwise. */
    method Erase(key: K) returns (removed: nat)
      requires Valid()
      modifies buckets, this
      ensures Valid() && removed == (if key in old(elems) then 1 else 0)
      ensures elems == old(elems) - {key} && size == old(size) - removed
      ensures buckets == old(buckets) && hash == old(hash)
    {
      ChainsFind(hash, buckets[..], elems, key);
      var idx := BucketIndex(key);
      var chain := buckets[idx];
      var j := 0;
      while j < |chain|
        invariant j <= |chain| && forall t :: 0 <= t < j ==> chain[t] != key
      {
        if chain[j] == key {
          ChainsRemove(hash, buckets[..], elems, idx, j);
          if j > 0 {
            buckets[idx] := chain[..j] + chain[j + 1..];
          } else {
            assert chain[..0] + chain[1..] == chain[1..];
            buckets[idx] := chain[1..];
          }
          size := size - 1;
          elems := elems - {key};
          return 1;
        }
        j := j + 1;
      }
      return 0;
    }

    /** `clear()`: every chain emptied, `size_ = 0`; the bucket array
        stays. */
    method Clear()
      requires Valid()
      modifies this, buckets
      ensures Valid() && elems == {} && size == 0 && buckets == old(buckets) && hash == old(hash)
      ensures forall b :: 0 <= b < buckets.Length ==> buckets[b] == []
    {
      var a := buckets;
      for i := 0 to a.Length
        invariant unchanged(this) && forall b :: 0 <= b < i ==> a[b] == []
      {
        a[i] := [];
      }
      ChainsEmpty(hash, a[..]);
      size := 0;
      elems := {};
    }

    /** `swap(other)`: the two sets exchange buckets, sizes and hash
        functions. */
    method Swap(other: UnorderedSet<K>)
      requires Valid() && other.Valid()
      modifies this, other
      ensures Valid() && other.Valid()
      ensures buckets == old(other.buckets) && other.buckets == old(buckets)
      ensures elems == old(other.elems) && other.elems == old(elems)
      ensures size == old(other.size) && other.size == old(size)
      ensures hash == old(other.hash) && other.hash == old(hash)
    {
      var b, s, h := buckets, size, hash;
      ghost var e := elems;
      buckets, size, hash, elems := other.buckets, other.size, other.hash, other.elems;
      other.buckets, other.size, other.hash, other.elems := b, s, h, e;
    }
  }

  /** Advancing past the last key of chain `b` over the empty chains up to
      `c` moves on by one position in `Flatten`. */
  lemma AdvancedAcross<K>(cs: seq<seq<K>>, b: nat, c: nat)
    requires b < c <= |cs| && cs[b] != [] && forall k :: b < k < c ==> cs[k] == []
    ensures |Flatten(cs[..c])| == |Flatten(cs[..b])| + |cs[b]|
  {
    FlattenTake(cs, b);
    FlattenEmpties(cs, b + 1, c);
  }
}
