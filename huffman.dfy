/**
 * `buildEncodingTree` of util.h with its `prioritize` ordering: one leaf per
 * key of the frequency map, in `keys()` order, then repeated merges of the two
 * trees with the lowest counts until a single tree is left.
 */
module Huffman {
  import opened Common
  import opened Hashing
  import opened Chains
  import HashMaps

  /**
   * A `HuffmanNode`: a leaf carries a character and its count; a merged node
   * carries the sum of its children's counts, its character is NOT_A_CHAR.
   */
  datatype Tree = Leaf(sym: int, count: int) | Node(count: int, zero: Tree, one: Tree)

  /** The node's `character` field. */
  function Character(t: Tree): int
  {
    if t.Leaf? then t.sym else NotAChar
  }

  /** The leaves from left to right, each as its (character, count) pair. */
  function LeafEntries(t: Tree): seq<Entry>
  {
    match t
    case Leaf(s, c) => [Entry(s, c)]
    case Node(_, z, o) => LeafEntries(z) + LeafEntries(o)
  }

  /** The characters that label some leaf. */
  ghost function LeafSymbols(t: Tree): set<int>
  {
    set e | e in LeafEntries(t) :: e.key
  }

  /** Every merged node counts exactly what its two children count. */
  predicate Summed(t: Tree)
  {
    match t
    case Leaf(_, _) => true
    case Node(c, z, o) => c == z.count + o.count && Summed(z) && Summed(o)
  }

  /** The leaves of all the trees of a queue, with multiplicity. */
  ghost function QueueLeaves(q: seq<Tree>): multiset<Entry>
    decreases |q|
  {
    if |q| == 0 then multiset{} else QueueLeaves(q[..|q| - 1]) + multiset(LeafEntries(q[|q| - 1]))
  }

  /** The sum of the counts of the trees of a queue. */
  function Total(q: seq<Tree>): int
    decreases |q|
  {
    if |q| == 0 then 0 else Total(q[..|q| - 1]) + q[|q| - 1].count
  }

  /** The sum of the values of a list of pairs. */
  function SumValues(f: seq<Entry>): int
    decreases |f|
  {
    if |f| == 0 then 0 else SumValues(f[..|f| - 1]) + f[|f| - 1].value
  }

  lemma {:induction false} QueueSplit(a: seq<Tree>, b: seq<Tree>)
    ensures QueueLeaves(a + b) == QueueLeaves(a) + QueueLeaves(b)
    ensures Total(a + b) == Total(a) + Total(b)
    decreases |b|
  {
    if |b| == 0 {
      assert a + b == a;
    } else {
      assert (a + b)[..|a + b| - 1] == a + b[..|b| - 1];
      QueueSplit(a, b[..|b| - 1]);
    }
  }

  lemma QueueSingle(t: Tree)
    ensures QueueLeaves([t]) == multiset(LeafEntries(t))
    ensures Total([t]) == t.count
  {
    assert [t][..0] == [];
  }

  // ---------------------------------------------------------------------
  // The priority queue
  // ---------------------------------------------------------------------

  /**
   * Where `top()` finds its tree: one with the lowest count, since
   * `prioritize` orders by count alone; among equal counts this model takes
   * the one queued first.
   */
  function MinIndex(q: seq<Tree>): (i: nat)
    requires |q| > 0
    ensures i < |q|
    decreases |q|
  {
    if |q| == 1 then 0
    else
      var k := MinIndex(q[..|q| - 1]);
      if q[|q| - 1].count < q[k].count then |q| - 1 else k
  }

  /** `top()` sees no lower count anywhere in the queue, and none as low before it. */
  lemma {:induction false} MinIndexLowest(q: seq<Tree>)
    requires |q| > 0
    ensures forall j :: 0 <= j < |q| ==> q[MinIndex(q)].count <= q[j].count
    ensures forall j :: 0 <= j < MinIndex(q) ==> q[MinIndex(q)].count < q[j].count
    decreases |q|
  {
    if |q| > 1 {
      var p := q[..|q| - 1];
      MinIndexLowest(p);
      var k := MinIndex(p);
      forall j | 0 <= j < |q|
        ensures q[MinIndex(q)].count <= q[j].count
        ensures j < MinIndex(q) ==> q[MinIndex(q)].count < q[j].count
      {
        if j < |q| - 1 {
          assert q[j] == p[j];
        }
      }
    }
  }

  /** The queue after `pop()` has taken the tree at `i`. */
  function RemoveAt(q: seq<Tree>, i: nat): (r: seq<Tree>)
    requires i < |q|
    ensures |r| == |q| - 1
  {
    q[..i] + q[i + 1..]
  }

  lemma Around<T>(q: seq<T>, i: nat)
    requires i < |q|
    ensures q == q[..i] + [q[i]] + q[i + 1..]
  {
    assert q[i..] == [q[i]] + q[i + 1..];
    assert q == q[..i] + q[i..];
  }

  lemma SplitAround(a: seq<Tree>, x: Tree, b: seq<Tree>)
    ensures QueueLeaves(a + [x] + b) == QueueLeaves(a + b) + multiset(LeafEntries(x))
    ensures Total(a + [x] + b) == Total(a + b) + x.count
  {
    QueueSplit(a + [x], b);
    QueueSplit(a, [x]);
    QueueSplit(a, b);
    QueueSingle(x);
  }

  /** Popping a tree hands over its leaves and its count and keeps the rest of the queue. */
  lemma RemoveAtKeeps(q: seq<Tree>, i: nat)
    requires i < |q|
    ensures QueueLeaves(RemoveAt(q, i)) + multiset(LeafEntries(q[i])) == QueueLeaves(q)
    ensures Total(RemoveAt(q, i)) + q[i].count == Total(q)
  {
    Around(q, i);
    SplitAround(q[..i], q[i], q[i + 1..]);
  }

  /**
   * Pop the tree at `i`, then the tree at `j` of what is left, and push a node
   * with the first as `zero`, the second as `one` and the sum of their counts.
   */
  function Join(q: seq<Tree>, i: nat, j: nat): (r: seq<Tree>)
    requires i < |q| && j < |q| - 1
    ensures |r| == |q| - 1
  {
    var first := q[i];
    var rest := RemoveAt(q, i);
    var second := rest[j];
    RemoveAt(rest, j) + [Node(first.count + second.count, first, second)]
  }

  /** One turn of the merge loop: join the lowest tree and the next lowest. */
  function MergeStep(q: seq<Tree>): (r: seq<Tree>)
    requires |q| >= 2
    ensures |r| == |q| - 1
  {
    var i := MinIndex(q);
    Join(q, i, MinIndex(RemoveAt(q, i)))
  }

  /**
   * Joining a tree of lowest count with a tree of lowest count among the rest
   * pushes a node whose `zero` is no higher than any tree of the queue and
   * whose `one` is no higher than any tree left behind.
   */
  lemma JoinPicksMinima(q: seq<Tree>, i: nat, j: nat)
    requires i < |q| && j < |q| - 1
    requires forall k :: 0 <= k < |q| ==> q[i].count <= q[k].count
    requires forall k :: 0 <= k < |q| - 1 ==> RemoveAt(q, i)[j].count <= RemoveAt(q, i)[k].count
    ensures var r := Join(q, i, j);
      var m := r[|r| - 1];
      && m.Node?
      && m.count == m.zero.count + m.one.count
      && m.zero == q[i]
      && m.zero.count <= m.one.count
      && (forall k :: 0 <= k < |r| - 1 ==> m.one.count <= r[k].count)
  {
    var rest := RemoveAt(q, i);
    var r := Join(q, i, j);
    JoinIs(q, i, j);
    assert r[|r| - 1] == Node(q[i].count + rest[j].count, q[i], rest[j]);
    assert rest[j] == q[if j < i then j else j + 1];
    forall k | 0 <= k < |r| - 1
      ensures rest[j].count <= r[k].count
    {
      assert r[k] == rest[if k < j then k else k + 1];
    }
  }

  /**
   * The node a merge pushes joins two trees of lowest count: its `zero` has
   * the lowest count of the queue, its `one` no more than any tree left
   * behind, and its count is theirs added.
   */
  lemma MergeStepPicksMinima(q: seq<Tree>)
    requires |q| >= 2
    ensures var r := MergeStep(q);
      var m := r[|r| - 1];
      && m.Node?
      && m.count == m.zero.count + m.one.count
      && m.zero == q[MinIndex(q)]
      && (forall k :: 0 <= k < |q| ==> m.zero.count <= q[k].count)
      && m.zero.count <= m.one.count
      && (forall k :: 0 <= k < |r| - 1 ==> m.one.count <= r[k].count)
  {
    var i := MinIndex(q);
    var j := MinIndex(RemoveAt(q, i));
    MinIndexLowest(q);
    MinIndexLowest(RemoveAt(q, i));
    JoinPicksMinima(q, i, j);
  }

  /** Two trees popped one after the other and joined again: the queue's leaves are whole again. */
  lemma Rejoin<T>(q: multiset<T>, rest: multiset<T>, left: multiset<T>, x: multiset<T>, y: multiset<T>)
    requires rest + x == q && left + y == rest
    ensures left + (x + y) == q
  {
  }

  lemma JoinIs(q: seq<Tree>, i: nat, j: nat)
    requires i < |q| && j < |q| - 1
    ensures Join(q, i, j) == RemoveAt(RemoveAt(q, i), j) + [Node(q[i].count + RemoveAt(q, i)[j].count, q[i], RemoveAt(q, i)[j])]
  {
  }

  /** Pushing the join of two trees adds the leaves and the counts of both. */
  lemma PushJoin(left: seq<Tree>, x: Tree, y: Tree)
    ensures QueueLeaves(left + [Node(x.count + y.count, x, y)])
      == QueueLeaves(left) + (multiset(LeafEntries(x)) + multiset(LeafEntries(y)))
    ensures Total(left + [Node(x.count + y.count, x, y)]) == Total(left) + (x.count + y.count)
  {
    var node := Node(x.count + y.count, x, y);
    QueueSplit(left, [node]);
    QueueSingle(node);
    assert LeafEntries(node) == LeafEntries(x) + LeafEntries(y);
  }

  /** Popping the trees at `i` and then `j` and pushing their join loses no leaf and no count. */
  lemma JoinKeeps(q: seq<Tree>, i: nat, j: nat)
    requires i < |q| && j < |q| - 1
    ensures QueueLeaves(Join(q, i, j)) == QueueLeaves(q)
    ensures Total(Join(q, i, j)) == Total(q)
  {
    var rest := RemoveAt(q, i);
    var left := RemoveAt(rest, j);
    JoinIs(q, i, j);
    RemoveAtKeeps(q, i);
    RemoveAtKeeps(rest, j);
    PushJoin(left, q[i], rest[j]);
    Rejoin(QueueLeaves(q), QueueLeaves(rest), QueueLeaves(left), multiset(LeafEntries(q[i])), multiset(LeafEntries(rest[j])));
  }

  /** Every tree of the queue sums its counts. */
  predicate AllSummed(q: seq<Tree>)
  {
    forall k :: 0 <= k < |q| ==> Summed(q[k])
  }

  lemma RemoveAtSummed(q: seq<Tree>, i: nat)
    requires i < |q| && AllSummed(q)
    ensures AllSummed(RemoveAt(q, i))
  {
    var r := RemoveAt(q, i);
    forall k | 0 <= k < |r|
      ensures Summed(r[k])
    {
      assert r[k] == q[if k < i then k else k + 1];
    }
  }

  lemma PushSummed(q: seq<Tree>, t: Tree)
    requires AllSummed(q) && Summed(t)
    ensures AllSummed(q + [t])
  {
    forall k | 0 <= k < |q + [t]|
      ensures Summed((q + [t])[k])
    {
      assert (q + [t])[k] == if k < |q| then q[k] else t;
    }
  }

  /** A join keeps every count summed. */
  lemma JoinSummed(q: seq<Tree>, i: nat, j: nat)
    requires i < |q| && j < |q| - 1 && AllSummed(q)
    ensures AllSummed(Join(q, i, j))
  {
    var rest := RemoveAt(q, i);
    RemoveAtSummed(q, i);
    RemoveAtSummed(rest, j);
    assert Summed(q[i]) && Summed(rest[j]);
    PushSummed(RemoveAt(rest, j), Node(q[i].count + rest[j].count, q[i], rest[j]));
  }

  /** A merge loses no leaf, keeps the total count, and keeps every count summed. */
  lemma MergeStepKeeps(q: seq<Tree>)
    requires |q| >= 2
    requires AllSummed(q)
    ensures QueueLeaves(MergeStep(q)) == QueueLeaves(q)
    ensures Total(MergeStep(q)) == Total(q)
    ensures AllSummed(MergeStep(q))
  {
    var i := MinIndex(q);
    var j := MinIndex(RemoveAt(q, i));
    JoinKeeps(q, i, j);
    JoinSummed(q, i, j);
  }

  /** The merge loop `while (g.size() > 1)`, then `g.top()`. */
  function MergeAll(q: seq<Tree>): Tree
    requires |q| >= 1
    decreases |q|
  {
    if |q| == 1 then q[0] else MergeAll(MergeStep(q))
  }

  /** A turn of the merge loop leaves a queue that merges into the same tree. */
  lemma MergeAllStep(q: seq<Tree>, i: nat, j: nat, next: seq<Tree>)
    requires |q| >= 2 && i == MinIndex(q) && j == MinIndex(RemoveAt(q, i))
    requires next == RemoveAt(RemoveAt(q, i), j) + [Node(q[i].count + RemoveAt(q, i)[j].count, q[i], RemoveAt(q, i)[j])]
    ensures MergeAll(next) == MergeAll(q)
  {
    JoinIs(q, i, j);
  }

  /**
   * The tree left by the merge loop holds exactly the leaves of the queue,
   * its count is the queue's total, every merged node sums its children, and
   * it is a merged node as soon as the queue held two trees.
   */
  lemma {:induction false} MergeAllKeeps(q: seq<Tree>)
    requires |q| >= 1
    requires AllSummed(q)
    ensures multiset(LeafEntries(MergeAll(q))) == QueueLeaves(q)
    ensures Summed(MergeAll(q))
    ensures MergeAll(q).count == Total(q)
    ensures |q| >= 2 ==> MergeAll(q).Node?
    decreases |q|
  {
    if |q| == 1 {
      QueueSingle(q[0]);
      assert q == [q[0]];
    } else {
      MergeStepKeeps(q);
      MergeStepPicksMinima(q);
      MergeAllKeeps(MergeStep(q));
      if |q| == 2 {
        assert MergeAll(MergeStep(q)) == MergeStep(q)[0];
      }
    }
  }

  /** The queue the first loop fills: a leaf per (key, value) pair, in `keys()` order. */
  function Leaves(f: seq<Entry>): (q: seq<Tree>)
  {
    seq(|f|, i requires 0 <= i < |f| => Leaf(f[i].key, f[i].value))
  }

  lemma {:induction false} LeavesKeep(f: seq<Entry>)
    ensures QueueLeaves(Leaves(f)) == multiset(f)
    ensures Total(Leaves(f)) == SumValues(f)
    ensures AllSummed(Leaves(f))
    decreases |f|
  {
    if |f| > 0 {
      var n := |f| - 1;
      assert Leaves(f)[..n] == Leaves(f[..n]);
      assert f == f[..n] + [f[n]];
      LeavesKeep(f[..n]);
    }
  }

  /** The tree `buildEncodingTree` returns for a map holding at least one key. */
  function HuffmanTree(t: Table): Tree
    requires |t| == BucketCount && |Flatten(t)| > 0
  {
    MergeAll(Leaves(Flatten(t)))
  }

  /** Sequences holding the same multiset hold the same elements. */
  lemma SameMembers<T>(a: seq<T>, b: seq<T>)
    requires multiset(a) == multiset(b)
    ensures forall e :: e in a <==> e in b
  {
    forall e
      ensures e in a <==> e in b
    {
      assert e in a <==> e in multiset(a);
      assert e in b <==> e in multiset(b);
    }
  }

  /** A tree whose leaves are the nodes of a well-formed map labels its leaves with exactly the map's keys. */
  lemma LeafSymbolsAreKeys(t: Table, root: Tree)
    requires WellFormed(t) && forall e :: e in LeafEntries(root) <==> e in Flatten(t)
    ensures forall key :: key in LeafSymbols(root) <==> key in Keys(t)
  {
    var f := Flatten(t);
    forall key
      ensures key in LeafSymbols(root) <==> key in Keys(t)
    {
      if key in Keys(t) {
        var k :| 0 <= k < |f| && f[k].key == key;
        assert f[k] in f;
      }
      if key in LeafSymbols(root) {
        var e :| e in LeafEntries(root) && e.key == key;
        var k :| 0 <= k < |f| && f[k] == e;
        assert Keys(t)[k] == key;
      }
    }
  }

  /** A tree whose leaves are the pairs of a well-formed map has a leaf for each key, with that key's value. */
  lemma LeavesMatchMap(t: Table, root: Tree)
    requires WellFormed(t) && multiset(LeafEntries(root)) == multiset(Flatten(t))
    ensures forall key, n :: Entry(key, n) in LeafEntries(root) <==> Lookup(t, key) == Some(n)
    ensures forall key :: key in LeafSymbols(root) <==> key in Keys(t)
  {
    SameMembers(LeafEntries(root), Flatten(t));
    forall key, n
      ensures Entry(key, n) in LeafEntries(root) <==> Lookup(t, key) == Some(n)
    {
      FlattenLookup(t, key, n);
    }
    LeafSymbolsAreKeys(t, root);
  }

  /**
   * The tree has one leaf per key of the map, carrying that key's count; every
   * merged node counts the sum of its children, so the root counts the sum of
   * all values; the root is a merged node exactly when the map holds two keys
   * or more.
   */
  lemma HuffmanTreeShape(t: Table)
    requires WellFormed(t) && |Flatten(t)| > 0
    ensures multiset(LeafEntries(HuffmanTree(t))) == multiset(Flatten(t))
    ensures forall key, n :: Entry(key, n) in LeafEntries(HuffmanTree(t)) <==> Lookup(t, key) == Some(n)
    ensures forall key :: key in LeafSymbols(HuffmanTree(t)) <==> key in Keys(t)
    ensures Summed(HuffmanTree(t))
    ensures HuffmanTree(t).count == SumValues(Flatten(t))
    ensures HuffmanTree(t).Node? <==> |Flatten(t)| >= 2
  {
    var f := Flatten(t);
    LeavesKeep(f);
    MergeAllKeeps(Leaves(f));
    LeavesMatchMap(t, HuffmanTree(t));
    if |f| == 1 {
      assert HuffmanTree(t) == Leaves(f)[0];
    }
  }

  /**
   * `buildEncodingTree(map)`: push a leaf for every key of `keys()` with the
   * count `get` returns, then merge the two lowest trees until one is left.
   * `top()` on an empty queue is undefined, so the map must hold a key.
   */
  method BuildEncodingTree(m: HashMaps.HashMap) returns (root: Tree)
    requires m.Valid() && |Keys(m.buckets[..])| > 0
    ensures root == HuffmanTree(m.buckets[..])
  {
    ghost var t := m.buckets[..];
    ghost var f := Flatten(t);
    var keys := m.Keys();
    var queue: seq<Tree> := [];
    for i := 0 to |keys|
      invariant queue == Leaves(f)[..i]
    {
      HashMaps.KeyAt(t, i);
      var value := m.Get(keys[i]);
      queue := queue + [Leaf(keys[i], value.value)];
    }
    assert queue == Leaves(f);
    root := MergeQueue(queue);
  }

  /**
   * The second loop of `buildEncodingTree`: while the queue holds two trees
   * or more, pop the lowest, pop the next lowest, and push their parent.
   */
  method MergeQueue(q: seq<Tree>) returns (root: Tree)
    requires |q| >= 1
    ensures root == MergeAll(q)
  {
    var queue := q;
    while |queue| > 1
      invariant 1 <= |queue| && MergeAll(queue) == MergeAll(q)
      decreases |queue|
    {
      ghost var before := queue;
      var i := MinIndex(queue);
      var first := queue[i];
      queue := RemoveAt(queue, i);
      var j := MinIndex(queue);
      var second := queue[j];
      queue := RemoveAt(queue, j);
      queue := queue + [Node(first.count + second.count, first, second)];
      MergeAllStep(before, i, j, queue);
    }
    root := queue[0];
  }
}
