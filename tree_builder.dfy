/** Greedy tree construction: `build_huffman_tree`.

    The priority queue is a sequence of trees. `heapq` orders nodes by frequency alone, so
    which of two equal-weight nodes it pops first depends on its internal layout. This model
    fixes the tie-break: among the lightest nodes, the one nearest the front of the queue is
    popped first, the queue starts with the leaves in the dict's key order, and every merged
    node joins at the back. The exact shape of the tree (`Huffman`) depends on that choice; the
    weight, leaf and count properties proved below do not. */
module TreeBuilder {
  import opened HuffmanTypes
  import opened Frequencies

  /** The characters at the leaves of every tree of the queue, tree by tree. */
  function ForestSymbols(q: seq<Tree>): seq<char> {
    if q == [] then [] else Symbols(q[0]) + ForestSymbols(q[1..])
  }

  /** The combined weight of the trees of the queue. */
  function ForestWeight(q: seq<Tree>): nat {
    if q == [] then 0 else q[0].weight + ForestWeight(q[1..])
  }

  /** `[HuffmanNode(char, freq) for char, freq in char_frequencies.items()]`. */
  function InitialQueue(order: seq<char>, count: map<char, nat>): (q: seq<Tree>)
    requires forall c | c in order :: c in count
    ensures |q| == |order|
    ensures forall i {:trigger q[i]} | 0 <= i < |order| :: q[i] == Leaf(order[i], count[order[i]])
  {
    if order == [] then [] else [Leaf(order[0], count[order[0]])] + InitialQueue(order[1..], count)
  }

  lemma {:induction false} ForestAppend(a: seq<Tree>, b: seq<Tree>)
    ensures ForestSymbols(a + b) == ForestSymbols(a) + ForestSymbols(b)
    ensures ForestWeight(a + b) == ForestWeight(a) + ForestWeight(b)
  {
    if a == [] {
      assert a + b == b;
    } else {
      assert (a + b)[0] == a[0] && (a + b)[1..] == a[1..] + b;
      ForestAppend(a[1..], b);
    }
  }

  /** Taking the tree at `k` out of the queue takes its symbols and its weight out of the queue's. */
  lemma ForestRemove(q: seq<Tree>, k: nat)
    requires k < |q|
    ensures multiset(ForestSymbols(Remove(q, k))) + multiset(Symbols(q[k])) == multiset(ForestSymbols(q))
    ensures ForestWeight(Remove(q, k)) + q[k].weight == ForestWeight(q)
  {
    SplitAt(q, k);
    ForestAppend(q[..k], [q[k]] + q[k + 1..]);
    ForestAppend([q[k]], q[k + 1..]);
    ForestAppend(q[..k], q[k + 1..]);
    assert ForestSymbols([q[k]]) == Symbols(q[k]);
  }

  lemma {:induction false} InitialQueueForest(order: seq<char>, count: map<char, nat>)
    requires forall c | c in order :: c in count
    ensures ForestSymbols(InitialQueue(order, count)) == order
    ensures ForestWeight(InitialQueue(order, count)) == Weighted(order, count, One)
    ensures Sound(InitialQueue(order, count), count)
  {
    InitialQueueSound(order, count);
    if order != [] {
      var c, rest := order[0], order[1..];
      var leaf, tail := Leaf(c, count[c]), InitialQueue(rest, count);
      assert InitialQueue(order, count) == [leaf] + tail;
      InitialQueueForest(rest, count);
      ForestAppend([leaf], tail);
      SingletonForest(leaf);
      assert ForestSymbols([leaf] + tail) == order by {
        assert [c] + rest == order;
      }
      assert ForestWeight([leaf] + tail) == Weighted(order, count, One) by {
        assert One(c) == 1;
        assert Weighted(order, count, One) == count[c] * One(c) + Weighted(rest, count, One);
      }
    }
  }

  lemma InitialQueueSound(order: seq<char>, count: map<char, nat>)
    requires forall c | c in order :: c in count
    ensures Sound(InitialQueue(order, count), count)
  {
    var q := InitialQueue(order, count);
    forall t | t in q ensures WellWeighted(t) && LeavesAgree(t, count) {
      var i :| 0 <= i < |q| && q[i] == t;
    }
  }

  /** The position `heappop` takes a tree from: the first of the lightest trees, as a scan from
      the front that moves only to a strictly lighter tree finds it. */
  function MinIndex(q: seq<Tree>): (k: nat)
    requires |q| > 0
    ensures k < |q|
    ensures forall i | 0 <= i < |q| :: q[k].weight <= q[i].weight
    ensures forall j | 0 <= j < k :: q[j].weight > q[k].weight
  {
    ScanIsLightest(q, 0, 1);
    Scan(q, 0, 1)
  }

  /** The rest of that scan, with `k` the lightest position among the first `j`. */
  function Scan(q: seq<Tree>, k: nat, j: nat): (r: nat)
    requires k < j <= |q|
    ensures r < |q|
    decreases |q| - j
  {
    if j == |q| then k
    else Scan(q, if q[j].weight < q[k].weight then j else k, j + 1)
  }

  /** A scan started from a lightest position among the first `j` ends at the first lightest
      position overall. */
  lemma {:induction false} ScanIsLightest(q: seq<Tree>, k: nat, j: nat)
    requires k < j <= |q|
    requires forall i | 0 <= i < j :: q[k].weight <= q[i].weight
    requires forall i | 0 <= i < k :: q[i].weight > q[k].weight
    ensures forall i | 0 <= i < |q| :: q[Scan(q, k, j)].weight <= q[i].weight
    ensures forall i | 0 <= i < Scan(q, k, j) :: q[i].weight > q[Scan(q, k, j)].weight
    decreases |q| - j
  {
    if j < |q| {
      ScanIsLightest(q, if q[j].weight < q[k].weight then j else k, j + 1);
    }
  }

  /** `heapq.heappop`: takes out a lightest tree, the one nearest the front among equals. */
  method PopMin(queue: seq<Tree>) returns (k: nat, m: Tree, rest: seq<Tree>)
    requires |queue| > 0
    ensures k == MinIndex(queue)
    ensures k < |queue| && m == queue[k] && rest == Remove(queue, k)
    ensures forall t | t in queue :: m.weight <= t.weight
    ensures forall j | 0 <= j < k :: queue[j].weight > m.weight
  {
    k := 0;
    var j := 1;
    while j < |queue|
      invariant k < j <= |queue|
      invariant Scan(queue, k, j) == MinIndex(queue)
    {
      if queue[j].weight < queue[k].weight {
        k := j;
      }
      j := j + 1;
    }
    m := queue[k];
    rest := Remove(queue, k);
    forall t | t in queue ensures m.weight <= t.weight {
      var i :| 0 <= i < |queue| && queue[i] == t;
    }
  }

  /** One turn of the construction loop on the queue: the lightest tree and the lightest of
      the rest leave it, and the node merging them joins at the back. */
  function Combine(q: seq<Tree>): (next: seq<Tree>)
    requires |q| > 1
    ensures |next| == |q| - 1
  {
    Join(q[MinIndex(q)], Remove(q, MinIndex(q)))
  }

  /** The second half of a turn: the lightest tree of `rest` leaves it and the node merging
      `left` with it joins at the back. */
  function Join(left: Tree, rest: seq<Tree>): (next: seq<Tree>)
    requires |rest| > 0
    ensures |next| == |rest|
  {
    var j := MinIndex(rest);
    Remove(rest, j) + [Node(left.weight + rest[j].weight, left, rest[j])]
  }

  /** The queue without its tree at `i`. */
  function Remove<T>(q: seq<T>, i: nat): (r: seq<T>)
    requires i < |q|
    ensures |r| == |q| - 1
  {
    q[..i] + q[i + 1..]
  }

  /** `Combine` spelled out step by step. */
  lemma CombineIs(q: seq<Tree>, i: nat, rest: seq<Tree>, j: nat, rest': seq<Tree>, next: seq<Tree>)
    requires |q| > 1 && i == MinIndex(q) && rest == Remove(q, i)
    requires |rest| > 0 && j == MinIndex(rest) && rest' == Remove(rest, j)
    requires next == rest' + [Node(q[i].weight + rest[j].weight, q[i], rest[j])]
    ensures next == Combine(q)
  {
  }

  /** The tree the construction loop ends with: turns are taken until one tree is left. It
      has the queue's leaf characters, with their multiplicities, and weighs the queue's total
      weight. */
  function Huffman(q: seq<Tree>): (t: Tree)
    requires |q| > 0
    ensures multiset(Symbols(t)) == multiset(ForestSymbols(q))
    ensures t.weight == ForestWeight(q)
    decreases |q|
  {
    if |q| == 1 then
      SingletonForest(q[0]);
      assert q == [q[0]];
      q[0]
    else
      CombineKeeps(q, map[]);
      Huffman(Combine(q))
  }

  /** Popping two trees and pushing their merge keeps the queue's leaves and its weight. */
  lemma MergeForest(queue: seq<Tree>, i: nat, rest: seq<Tree>, j: nat, rest': seq<Tree>,
                    merged: Tree, next: seq<Tree>)
    requires i < |queue| && rest == Remove(queue, i)
    requires j < |rest| && rest' == Remove(rest, j)
    requires merged == Node(queue[i].weight + rest[j].weight, queue[i], rest[j])
    requires next == rest' + [merged]
    ensures multiset(ForestSymbols(next)) == multiset(ForestSymbols(queue))
    ensures ForestWeight(next) == ForestWeight(queue)
  {
    ForestRemove(queue, i);
    ForestRemove(rest, j);
    ForestAppend(rest', [merged]);
    SingletonForest(merged);
    assert multiset(Symbols(merged)) == multiset(Symbols(queue[i])) + multiset(Symbols(rest[j]));
    assert multiset(ForestSymbols(next)) == multiset(ForestSymbols(rest')) + multiset(Symbols(merged));
  }

  lemma SingletonForest(t: Tree)
    ensures ForestSymbols([t]) == Symbols(t) && ForestWeight([t]) == t.weight
  {
    assert [t][1..] == [];
  }

  lemma SplitAt<T>(q: seq<T>, k: nat)
    requires k < |q|
    ensures q == q[..k] + ([q[k]] + q[k + 1..])
  {
  }

  lemma RemoveOne<T>(q: seq<T>, k: nat)
    requires k < |q|
    ensures multiset(Remove(q, k)) == multiset(q) - multiset{q[k]}
  {
    SplitAt(q, k);
    assert multiset(q) == multiset(q[..k]) + multiset{q[k]} + multiset(q[k + 1..]);
  }

  lemma RemoveTwo<T>(q: seq<T>, i: nat, rest: seq<T>, j: nat, rest': seq<T>, x: T, next: seq<T>)
    requires i < |q| && rest == Remove(q, i)
    requires j < |rest| && rest' == Remove(rest, j)
    requires next == rest' + [x]
    ensures multiset(rest) == multiset(q) - multiset{q[i]}
    ensures multiset(next) == multiset(q) - multiset{q[i], rest[j]} + multiset{x}
    ensures q[i] in q && rest[j] in q
    ensures forall t | t in next :: t in q || t == x
  {
    RemoveOne(q, i);
    RemoveOne(rest, j);
    var m := multiset(q);
    assert m - multiset{q[i]} - multiset{rest[j]} == m - multiset{q[i], rest[j]};
    assert rest[j] in multiset(rest);
    RemoveWithin(q, i);
    RemoveWithin(rest, j);
  }

  lemma RemoveWithin<T>(q: seq<T>, i: nat)
    requires i < |q|
    ensures forall t | t in Remove(q, i) :: t in q
  {
    forall t | t in Remove(q, i) ensures t in q {
      assert t in q[..i] || t in q[i + 1..];
    }
  }

  /** One turn of the construction loop (`heappop` twice, `heappush` once): the lightest tree
      becomes the left child, the lightest of the others the right child, and their merge,
      weighing their sum, replaces the two in the queue. The queue's leaves and its total
      weight do not change. */
  method MergeTwo(queue: seq<Tree>) returns (next: seq<Tree>, merged: Tree)
    requires |queue| > 1
    ensures next == Combine(queue) && merged == next[|next| - 1]
    ensures merged.Node? && merged.weight == merged.left.weight + merged.right.weight
    ensures merged.left in queue && merged.right in queue
    ensures forall t | t in queue :: merged.left.weight <= t.weight
    ensures forall t | t in multiset(queue) - multiset{merged.left} :: merged.right.weight <= t.weight
    ensures multiset(next) == multiset(queue) - multiset{merged.left, merged.right} + multiset{merged}
    ensures forall t | t in next :: t in queue || t == merged
    ensures |next| == |queue| - 1
    ensures multiset(ForestSymbols(next)) == multiset(ForestSymbols(queue))
    ensures ForestWeight(next) == ForestWeight(queue)
  {
    var i, left, rest := PopMin(queue);
    var j, right, rest' := PopMin(rest);
    merged := Node(left.weight + right.weight, left, right);
    next := rest' + [merged];
    MergeForest(queue, i, rest, j, rest', merged, next);
    RemoveTwo(queue, i, rest, j, rest', merged, next);
    CombineIs(queue, i, rest, j, rest', next);
  }

  /** Every tree of the queue keeps the weight invariant and agrees with the counts. */
  predicate Sound(queue: seq<Tree>, count: map<char, nat>) {
    forall t | t in queue :: WellWeighted(t) && LeavesAgree(t, count)
  }

  /** Merging two trees of a sound queue into a node weighing their sum keeps the queue sound. */
  lemma MergeSound(queue: seq<Tree>, next: seq<Tree>, merged: Tree, count: map<char, nat>)
    requires Sound(queue, count)
    requires merged.Node? && merged.weight == merged.left.weight + merged.right.weight
    requires merged.left in queue && merged.right in queue
    requires forall t | t in next :: t in queue || t == merged
    ensures Sound(next, count)
  {
  }

  /** A turn keeps the queue's leaves, its total weight and its soundness. */
  lemma CombineKeeps(q: seq<Tree>, count: map<char, nat>)
    requires |q| > 1
    ensures multiset(ForestSymbols(Combine(q))) == multiset(ForestSymbols(q))
    ensures ForestWeight(Combine(q)) == ForestWeight(q)
    ensures Sound(q, count) ==> Sound(Combine(q), count)
  {
    var i := MinIndex(q);
    var rest := Remove(q, i);
    var j := MinIndex(rest);
    var rest' := Remove(rest, j);
    var merged := Node(q[i].weight + rest[j].weight, q[i], rest[j]);
    var next := rest' + [merged];
    CombineIs(q, i, rest, j, rest', next);
    MergeForest(q, i, rest, j, rest', merged, next);
    RemoveTwo(q, i, rest, j, rest', merged, next);
    if Sound(q, count) {
      MergeSound(q, next, merged, count);
    }
  }

  /** The greedily built tree of a sound queue keeps the weight invariant and the counts. */
  lemma {:induction false} HuffmanKeeps(q: seq<Tree>, count: map<char, nat>)
    requires |q| > 0 && Sound(q, count)
    ensures WellWeighted(Huffman(q)) && LeavesAgree(Huffman(q), count)
    decreases |q|
  {
    if |q| == 1 {
      assert q[0] in q;
    } else {
      CombineKeeps(q, count);
      HuffmanKeeps(Combine(q), count);
    }
  }

  /** `build_huffman_tree`: merges the two lightest trees until one is left. An empty table
      fails, as `priority_queue[0]` does on an empty list. The result is the greedy tree of the
      initial queue; it keeps the weight invariant, its leaves are the table's characters, each
      once with its own count, and the root weighs the sum of all counts. */
  method BuildTree(f: FreqTable) returns (r: Result<Tree>)
    requires f.Valid()
    ensures r.Err? <==> f.order == []
    ensures r.Err? ==> r.error == InvalidInput
    ensures r.Ok? ==> r.value == Huffman(InitialQueue(f.order, f.count))
    ensures r.Ok? ==> WellWeighted(r.value) && LeavesAgree(r.value, f.count)
    ensures r.Ok? ==> multiset(Symbols(r.value)) == multiset(f.order)
    ensures r.Ok? ==> NoDuplicates(Symbols(r.value))
    ensures r.Ok? ==> r.value.weight == Total(f)
  {
    var queue := InitialQueue(f.order, f.count);
    ghost var initial := queue;
    while |queue| > 1
      invariant |queue| == 0 <==> |initial| == 0
      invariant |queue| > 0 ==> Huffman(queue) == Huffman(initial)
      decreases |queue|
    {
      var merged;
      queue, merged := MergeTwo(queue);
    }
    if |queue| == 0 {
      return Err(InvalidInput);
    }
    r := Ok(queue[0]);
    InitialQueueForest(f.order, f.count);
    HuffmanKeeps(initial, f.count);
    NoDuplicatesPermutation(Symbols(r.value), f.order);
  }

  /** With counts a:1, b:1 and c:5 the two light leaves are merged first, and the heavy leaf
      joins at the root. */
  lemma HuffmanMergesLightestFirst()
    ensures Huffman([Leaf('a', 1), Leaf('b', 1), Leaf('c', 5)])
      == Node(7, Node(2, Leaf('a', 1), Leaf('b', 1)), Leaf('c', 5))
  {
    var q := [Leaf('a', 1), Leaf('b', 1), Leaf('c', 5)];
    var rest := [Leaf('b', 1), Leaf('c', 5)];
    var ab := Node(2, Leaf('a', 1), Leaf('b', 1));
    var last := [Leaf('c', 5), ab];
    assert Scan(q, 0, 3) == 0 && MinIndex(q) == 0 && Remove(q, 0) == rest;
    assert Scan(rest, 0, 2) == 0 && MinIndex(rest) == 0 && Remove(rest, 0) == [Leaf('c', 5)];
    assert Combine(q) == last;
    assert Scan(last, 1, 2) == 1 && MinIndex(last) == 1 && Remove(last, 1) == [Leaf('c', 5)];
    assert Combine(last) == [Node(7, ab, Leaf('c', 5))];
  }
}
