/**
 * The value-level behaviour of the chained hash map of hashmap.cpp: ten
 * buckets, each a chain of key/value nodes kept in insertion order. The class
 * in hashmaps.dfy is proved against these functions.
 */
module Chains {
  import opened Common
  import opened Hashing

  /** The key and value of one `key_val_pair` node. */
  datatype Entry = Entry(key: int, value: int)

  /** The bucket array: chain i is the list hanging off `buckets[i]`. */
  type Table = seq<seq<Entry>>

  /** The freshly created bucket array: every chain empty. */
  function EmptyTable(): (t: Table)
    ensures |t| == BucketCount
    ensures forall i :: 0 <= i < |t| ==> t[i] == []
  {
    seq(BucketCount, _ => [])
  }

  // ---------------------------------------------------------------------
  // One chain
  // ---------------------------------------------------------------------

  /**
   * How far the walk `front = front->next` gets before it meets `key`: the
   * index of the first node carrying `key`, or the chain length when none does.
   */
  function Find(c: seq<Entry>, key: int): (i: nat)
    ensures i <= |c|
    ensures i < |c| ==> c[i].key == key
    ensures forall j :: 0 <= j < i ==> c[j].key != key
    decreases |c|
  {
    if |c| == 0 then 0
    else if c[0].key == key then 0
    else 1 + Find(c[1..], key)
  }

  /** Find is pinned down by its contract: the first match, or the length. */
  lemma FindIs(c: seq<Entry>, key: int, i: nat)
    requires i <= |c|
    requires i < |c| ==> c[i].key == key
    requires forall j :: 0 <= j < i ==> c[j].key != key
    ensures Find(c, key) == i
  {
  }

  /** Two chains with the same keys in the same order are walked alike. */
  lemma FindSameKeys(c: seq<Entry>, d: seq<Entry>, key: int)
    requires |c| == |d|
    requires forall j :: 0 <= j < |c| ==> c[j].key == d[j].key
    ensures Find(c, key) == Find(d, key)
  {
    FindIs(d, key, Find(c, key));
  }

  /** The value stored under `key` in one chain, if any. */
  function ChainLookup(c: seq<Entry>, key: int): Option<int>
  {
    var i := Find(c, key);
    if i < |c| then Some(c[i].value) else None
  }

  /** `put` on the key's own chain: overwrite the first match in place, or append at the tail. */
  function ChainPut(c: seq<Entry>, key: int, value: int): seq<Entry>
  {
    var i := Find(c, key);
    if i < |c| then c[i := Entry(key, value)] else c + [Entry(key, value)]
  }

  /** The keys of a list of nodes, in the same order. */
  function KeysOf(es: seq<Entry>): (ks: seq<int>)
    ensures |ks| == |es|
    ensures forall i :: 0 <= i < |es| ==> ks[i] == es[i].key
  {
    seq(|es|, i requires 0 <= i < |es| => es[i].key)
  }

  /** On one chain: the put key now maps to the put value, every other key is untouched. */
  lemma ChainLookupAfterPut(c: seq<Entry>, key: int, value: int, other: int)
    ensures ChainLookup(ChainPut(c, key, value), key) == Some(value)
    ensures other != key ==> ChainLookup(ChainPut(c, key, value), other) == ChainLookup(c, other)
  {
    var d := ChainPut(c, key, value);
    var i := Find(c, key);
    if i < |c| {
      FindSameKeys(c, d, key);
      FindSameKeys(c, d, other);
    } else {
      assert forall j :: 0 <= j < |c| ==> d[j] == c[j];
      FindIs(d, key, |c|);
      if other != key {
        var k := Find(c, other);
        if k < |c| {
          FindIs(d, other, k);
        } else {
          FindIs(d, other, |d|);
        }
      }
    }
  }

  /** No key occurs twice in a list of nodes. */
  ghost predicate DistinctKeys(es: seq<Entry>)
  {
    forall j, k :: 0 <= j < k < |es| ==> es[j].key != es[k].key
  }

  /** Every node of chain `c` hashes to bucket `b`. */
  ghost predicate ChainIn(c: seq<Entry>, b: int)
  {
    forall j :: 0 <= j < |c| ==> BucketOf(c[j].key) == b
  }

  /** `put` on a chain of bucket `b`, of a key hashing to `b`, keeps the chain in `b` and repeat-free. */
  lemma ChainPutKeeps(c: seq<Entry>, b: int, key: int, value: int)
    requires ChainIn(c, b) && DistinctKeys(c) && BucketOf(key) == b
    ensures ChainIn(ChainPut(c, key, value), b) && DistinctKeys(ChainPut(c, key, value))
  {
    var d := ChainPut(c, key, value);
    var i := Find(c, key);
    if i < |c| {
      assert forall j :: 0 <= j < |c| ==> d[j].key == c[j].key;
    } else {
      assert forall j :: 0 <= j < |c| ==> d[j] == c[j];
      assert d[|c|].key == key;
    }
  }

  /** Two repeat-free lists with no key in common concatenate to a repeat-free list. */
  lemma DistinctKeysAppend(a: seq<Entry>, b: seq<Entry>)
    requires DistinctKeys(a) && DistinctKeys(b)
    requires forall x, y :: x in a && y in b ==> x.key != y.key
    ensures DistinctKeys(a + b)
  {
    var ab := a + b;
    forall m, n | 0 <= m < n < |ab|
      ensures ab[m].key != ab[n].key
    {
      if n < |a| {
        assert ab[m] == a[m] && ab[n] == a[n];
      } else if m < |a| {
        assert ab[m] in a && ab[n] in b;
      } else {
        assert ab[m] == b[m - |a|] && ab[n] == b[n - |a|];
      }
    }
  }

  // ---------------------------------------------------------------------
  // The bucket array
  // ---------------------------------------------------------------------

  /** Every node sits in the bucket its key hashes to, and no chain repeats a key. */
  ghost predicate Placed(t: seq<seq<Entry>>)
  {
    forall i :: 0 <= i < |t| ==> ChainIn(t[i], i) && DistinctKeys(t[i])
  }

  /** The map's invariant: ten buckets, each key once, in bucket hash(key) % 10. */
  ghost predicate WellFormed(t: Table)
  {
    |t| == BucketCount && Placed(t)
  }

  /** `get`: the value of the first node with `key` in its bucket; None stands for the `out_of_range` throw. */
  function Lookup(t: Table, key: int): Option<int>
    requires |t| == BucketCount
  {
    ChainLookup(t[BucketOf(key)], key)
  }

  /** `put`: only the chain of the key's bucket changes. */
  function Put(t: Table, key: int, value: int): (r: Table)
    requires |t| == BucketCount
    ensures |r| == BucketCount
  {
    t[BucketOf(key) := ChainPut(t[BucketOf(key)], key, value)]
  }

  /** `containsKey`/`get` succeed exactly when some node of the key's bucket carries the key. */
  lemma LookupFindsBucket(t: Table, key: int)
    requires |t| == BucketCount
    ensures Lookup(t, key).Some? <==> exists j :: 0 <= j < |t[BucketOf(key)]| && t[BucketOf(key)][j].key == key
  {
    var c := t[BucketOf(key)];
    if Find(c, key) == |c| {
      assert forall j :: 0 <= j < |c| ==> c[j].key != key;
    }
  }

  /**
   * A present key has its value overwritten in place: the chain keeps its
   * length and its keys in order. An absent key gets one new node at the tail
   * of its bucket. No other bucket changes.
   */
  lemma PutShape(t: Table, key: int, value: int)
    requires |t| == BucketCount
    ensures forall i :: 0 <= i < BucketCount && i != BucketOf(key) ==> Put(t, key, value)[i] == t[i]
    ensures Lookup(t, key).Some? ==> KeysOf(Put(t, key, value)[BucketOf(key)]) == KeysOf(t[BucketOf(key)])
    ensures Lookup(t, key).None? ==> Put(t, key, value)[BucketOf(key)] == t[BucketOf(key)] + [Entry(key, value)]
  {
    var c := t[BucketOf(key)];
    var d := Put(t, key, value)[BucketOf(key)];
    if Find(c, key) < |c| {
      assert KeysOf(d) == KeysOf(c);
    }
  }

  /** `get` after `put(key, value)` yields `value` for `key` and is unchanged for every other key. */
  lemma LookupAfterPut(t: Table, key: int, value: int, other: int)
    requires |t| == BucketCount
    ensures Lookup(Put(t, key, value), key) == Some(value)
    ensures other != key ==> Lookup(Put(t, key, value), other) == Lookup(t, other)
  {
    ChainLookupAfterPut(t[BucketOf(key)], key, value, other);
  }

  /** `put` keeps every key in its own bucket and at most once. */
  lemma PutPreservesWellFormed(t: Table, key: int, value: int)
    requires WellFormed(t)
    ensures WellFormed(Put(t, key, value))
  {
    var b := BucketOf(key);
    ChainPutKeeps(t[b], b, key, value);
  }

  /** The nodes of all chains, bucket by bucket, each chain from head to tail. */
  function Flatten(t: seq<seq<Entry>>): seq<Entry>
    decreases |t|
  {
    if |t| == 0 then [] else Flatten(t[..|t| - 1]) + t[|t| - 1]
  }

  /** `keys()`: bucket order, then chain order. */
  function Keys(t: Table): seq<int>
  {
    KeysOf(Flatten(t))
  }

  /** A node is listed by Flatten exactly when it belongs to some chain. */
  lemma {:induction false} FlattenMembers(t: seq<seq<Entry>>)
    ensures forall e :: e in Flatten(t) <==> exists i :: 0 <= i < |t| && e in t[i]
    decreases |t|
  {
    if |t| > 0 {
      var p := t[..|t| - 1];
      FlattenMembers(p);
      assert forall i :: 0 <= i < |p| ==> p[i] == t[i];
    }
  }

  /** In a placed bucket array no key is listed twice. */
  lemma {:induction false} FlattenDistinct(t: seq<seq<Entry>>)
    requires Placed(t)
    ensures DistinctKeys(Flatten(t))
    decreases |t|
  {
    if |t| > 0 {
      var p := t[..|t| - 1];
      var c := t[|t| - 1];
      assert forall i :: 0 <= i < |p| ==> p[i] == t[i];
      FlattenDistinct(p);
      FlattenMembers(p);
      forall x, y | x in Flatten(p) && y in c
        ensures x.key != y.key
      {
        var i :| 0 <= i < |p| && x in p[i];
        assert BucketOf(x.key) == i;
      }
      DistinctKeysAppend(Flatten(p), c);
    }
  }

  /** In a well-formed table, `key` maps to `value` exactly when the node (key, value) is listed. */
  lemma FlattenLookup(t: Table, key: int, value: int)
    requires WellFormed(t)
    ensures Entry(key, value) in Flatten(t) <==> Lookup(t, key) == Some(value)
  {
    FlattenMembers(t);
    var c := t[BucketOf(key)];
    var i := Find(c, key);
    if Entry(key, value) in Flatten(t) {
      var b :| 0 <= b < |t| && Entry(key, value) in t[b];
      var j :| 0 <= j < |t[b]| && t[b][j] == Entry(key, value);
      assert BucketOf(key) == b;
      FindIs(c, key, j);
    }
    if Lookup(t, key) == Some(value) {
      assert c[i] == Entry(key, value);
    }
  }

  /** `keys()` lists each stored key exactly once: no repeats, and a key is listed iff `get` finds it. */
  lemma KeysExactlyOnce(t: Table, key: int)
    requires WellFormed(t)
    ensures forall m, n :: 0 <= m < n < |Keys(t)| ==> Keys(t)[m] != Keys(t)[n]
    ensures key in Keys(t) <==> Lookup(t, key).Some?
  {
    FlattenDistinct(t);
    var f := Flatten(t);
    if key in Keys(t) {
      var n :| 0 <= n < |f| && Keys(t)[n] == key;
      FlattenLookup(t, key, f[n].value);
    }
    if Lookup(t, key).Some? {
      FlattenLookup(t, key, Lookup(t, key).value);
      var n :| 0 <= n < |f| && f[n] == Entry(key, Lookup(t, key).value);
      assert Keys(t)[n] == key;
    }
  }

  /** A series of `put` calls, first to last. */
  function PutAll(t: Table, es: seq<Entry>): (r: Table)
    requires |t| == BucketCount
    ensures |r| == BucketCount
    decreases |es|
  {
    if |es| == 0 then t
    else
      var last := es[|es| - 1];
      Put(PutAll(t, es[..|es| - 1]), last.key, last.value)
  }

  /** Putting a list and then another is putting their concatenation. */
  lemma {:induction false} PutAllAppend(t: Table, a: seq<Entry>, b: seq<Entry>)
    requires |t| == BucketCount
    ensures PutAll(t, a + b) == PutAll(PutAll(t, a), b)
    decreases |b|
  {
    if |b| > 0 {
      assert (a + b)[..|a + b| - 1] == a + b[..|b| - 1];
      PutAllAppend(t, a, b[..|b| - 1]);
    } else {
      assert a + b == a;
    }
  }

  /** Keys new to a bucket, all hashing to it, are appended to its chain in order. */
  lemma {:induction false} AppendChain(u: Table, b: nat, c: seq<Entry>)
    requires |u| == BucketCount && b < BucketCount
    requires ChainIn(c, b)
    requires DistinctKeys(u[b] + c)
    ensures PutAll(u, c) == u[b := u[b] + c]
    decreases |c|
  {
    if |c| > 0 {
      var c' := c[..|c| - 1];
      var e := c[|c| - 1];
      var chain := u[b] + c';
      var whole := u[b] + c;
      assert forall j :: 0 <= j < |chain| ==> whole[j] == chain[j];
      assert whole[|chain|] == e;
      AppendChain(u, b, c');
      FindIs(chain, e.key, |chain|);
      assert chain + [e] == whole;
    } else {
      assert u[b] + c == u[b];
    }
  }

  /** The bucket array holding only the first `b` chains of `t`. */
  function Partial(t: Table, b: nat): (r: Table)
    requires |t| == BucketCount
  {
    seq(BucketCount, i requires 0 <= i < BucketCount => if i < b then t[i] else [])
  }

  /** Appending chain `b` of a well-formed table to the first `b` chains gives the first `b + 1`. */
  lemma PartialStep(t: Table, b: nat)
    requires WellFormed(t) && b < BucketCount
    ensures PutAll(Partial(t, b), t[b]) == Partial(t, b + 1)
  {
    var u := Partial(t, b);
    assert u[b] + t[b] == t[b];
    AppendChain(u, b, t[b]);
    assert u[b := t[b]] == Partial(t, b + 1);
  }

  /** Putting the nodes of the first `b` chains into an empty table rebuilds exactly those chains. */
  lemma {:induction false} RebuildPrefix(t: Table, b: nat)
    requires WellFormed(t) && b <= BucketCount
    ensures PutAll(EmptyTable(), Flatten(t[..b])) == Partial(t, b)
    decreases b
  {
    if b == 0 {
      assert Partial(t, 0) == EmptyTable();
    } else {
      RebuildPrefix(t, b - 1);
      assert t[..b][..b - 1] == t[..b - 1];
      PutAllAppend(EmptyTable(), Flatten(t[..b - 1]), t[b - 1]);
      PartialStep(t, b - 1);
    }
  }

  /**
   * Putting the listed nodes of a well-formed table, in `keys()` order, into an
   * empty table rebuilds it exactly: the same chains, hence the same `keys()`.
   */
  lemma Rebuild(t: Table)
    requires WellFormed(t)
    ensures PutAll(EmptyTable(), Flatten(t)) == t
  {
    RebuildPrefix(t, BucketCount);
    assert t[..BucketCount] == t;
    assert Partial(t, BucketCount) == t;
  }
}
