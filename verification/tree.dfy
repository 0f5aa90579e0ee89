/** The Huffman tree (Node.hpp) and its construction by repeatedly merging
    the two lightest nodes of a priority queue (`buildTree`, `createTree`). */
module Trees {
  import opened Types
  import opened Wrappers
  import opened Frequency

  /** A node of the tree. A node with no children is a leaf carrying a
      symbol; every other node has both children. */
  datatype Tree =
    | Leaf(symbol: Byte, weight: nat)
    | Internal(weight: nat, left: Tree, right: Tree)

  /** Every internal node weighs what its two children weigh together. */
  predicate WellFormed(t: Tree) {
    match t
    case Leaf(_, _) => true
    case Internal(w, l, r) => w == l.weight + r.weight && WellFormed(l) && WellFormed(r)
  }

  /** The symbols on the leaves of `t`, with multiplicity. */
  function Symbols(t: Tree): multiset<Byte> {
    match t
    case Leaf(s, _) => multiset{s}
    case Internal(_, l, r) => Symbols(l) + Symbols(r)
  }

  /** The leaves pushed into the queue, one per symbol/count pair, in order. */
  function LeavesOf(ps: seq<SymbolFreq>): seq<Tree> {
    seq(|ps|, k requires 0 <= k < |ps| => Leaf(ps[k].symbol, ps[k].freq))
  }

  // ---- the queue as a sequence ------------------------------------------

  predicate AllWellFormed(q: seq<Tree>) {
    forall k | 0 <= k < |q| :: WellFormed(q[k])
  }

  /** Total weight of the nodes in the queue. */
  function Weights(q: seq<Tree>): nat {
    if |q| == 0 then 0 else q[0].weight + Weights(q[1..])
  }

  /** All leaf symbols below the nodes in the queue. */
  function ForestSymbols(q: seq<Tree>): multiset<Byte> {
    if |q| == 0 then multiset{} else Symbols(q[0]) + ForestSymbols(q[1..])
  }

  lemma {:induction false} ForestConcat(a: seq<Tree>, b: seq<Tree>)
    ensures Weights(a + b) == Weights(a) + Weights(b)
    ensures ForestSymbols(a + b) == ForestSymbols(a) + ForestSymbols(b)
  {
    if |a| > 0 {
      assert (a + b)[0] == a[0];
      assert (a + b)[1..] == a[1..] + b;
      ForestConcat(a[1..], b);
    } else {
      assert a + b == b;
    }
  }

  /** Position of the lightest node; among equally light nodes, the one
      nearest the front of the queue. */
  function FirstMin(q: seq<Tree>): (i: nat)
    requires |q| > 0
    ensures i < |q|
    ensures forall k | 0 <= k < |q| :: q[i].weight <= q[k].weight
    ensures forall k | 0 <= k < i :: q[i].weight < q[k].weight
  {
    if |q| == 1 then 0
    else
      var j := FirstMin(q[1..]) + 1;
      if q[0].weight <= q[j].weight then 0 else j
  }

  /** The queue after `pop()` of the node at position `i`. */
  function Without(q: seq<Tree>, i: nat): (r: seq<Tree>)
    requires i < |q|
    ensures |r| == |q| - 1
    ensures multiset(r) + multiset{q[i]} == multiset(q)
  {
    assert q == q[..i] + [q[i]] + q[i + 1..];
    q[..i] + q[i + 1..]
  }

  /** Popping a node removes exactly its weight and its leaf symbols. */
  lemma WithoutContents(q: seq<Tree>, i: nat)
    requires i < |q|
    ensures Weights(Without(q, i)) + q[i].weight == Weights(q)
    ensures ForestSymbols(Without(q, i)) + Symbols(q[i]) == ForestSymbols(q)
  {
    var front, back := q[..i], q[i + 1..];
    assert q == front + q[i..];
    assert q[i..][0] == q[i] && q[i..][1..] == back;
    ForestConcat(front, q[i..]);
    ForestConcat(front, back);
  }

  lemma WithoutAt(q: seq<Tree>, i: nat)
    requires i < |q|
    ensures forall k | 0 <= k < |q| - 1 :: Without(q, i)[k] == q[if k < i then k else k + 1]
  {
  }

  lemma WithoutWellFormed(q: seq<Tree>, i: nat)
    requires i < |q| && AllWellFormed(q)
    ensures AllWellFormed(Without(q, i))
  {
    WithoutAt(q, i);
  }

  lemma AppendWellFormed(q: seq<Tree>, t: Tree)
    requires AllWellFormed(q) && WellFormed(t)
    ensures AllWellFormed(q + [t])
  {
  }

  /** One round of the building loop: pop the lightest node (left child),
      pop the lightest remaining node (right child), push their parent. */
  function Merge(q: seq<Tree>): (q': seq<Tree>)
    requires |q| >= 2
    ensures |q'| == |q| - 1
    ensures q'[|q'| - 1].Internal?
    ensures q'[|q'| - 1].weight == q'[|q'| - 1].left.weight + q'[|q'| - 1].right.weight
  {
    var i := FirstMin(q);
    var rest := Without(q, i);
    var j := FirstMin(rest);
    var node := Internal(q[i].weight + rest[j].weight, q[i], rest[j]);
    var kept := Without(rest, j);
    assert (kept + [node])[|kept|] == node;
    kept + [node]
  }

  lemma MergeUnfold(q: seq<Tree>, i: nat, j: nat)
    requires |q| >= 2 && i == FirstMin(q) && j == FirstMin(Without(q, i))
    ensures Merge(q) == Without(Without(q, i), j) + [Internal(q[i].weight + Without(q, i)[j].weight, q[i], Without(q, i)[j])]
  {
  }

  /** A merge neither adds nor loses weight. */
  lemma MergeKeepsWeight(q: seq<Tree>)
    requires |q| >= 2
    ensures Weights(Merge(q)) == Weights(q)
  {
    var i := FirstMin(q);
    var rest := Without(q, i);
    var j := FirstMin(rest);
    var node := Internal(q[i].weight + rest[j].weight, q[i], rest[j]);
    var kept := Without(rest, j);
    MergeUnfold(q, i, j);
    assert Merge(q) == kept + [node];
    WithoutContents(q, i);
    WithoutContents(rest, j);
    ForestConcat(kept, [node]);
    SingletonForest(node);
  }

  lemma SingletonForest(t: Tree)
    ensures Weights([t]) == t.weight && ForestSymbols([t]) == Symbols(t)
  {
    assert [t][1..] == [];
  }

  lemma MultisetRegroup(x: multiset<Byte>, y: multiset<Byte>, z: multiset<Byte>, r: multiset<Byte>, q: multiset<Byte>)
    requires x + z == r && r + y == q
    ensures x + (y + z) == q
  {
  }

  /** A merge neither adds nor loses leaf symbols. */
  lemma MergeKeepsSymbols(q: seq<Tree>)
    requires |q| >= 2
    ensures ForestSymbols(Merge(q)) == ForestSymbols(q)
  {
    var i := FirstMin(q);
    var rest := Without(q, i);
    var j := FirstMin(rest);
    var node := Internal(q[i].weight + rest[j].weight, q[i], rest[j]);
    var kept := Without(rest, j);
    MergeUnfold(q, i, j);
    WithoutContents(q, i);
    WithoutContents(rest, j);
    ForestConcat(kept, [node]);
    SingletonForest(node);
    MultisetRegroup(ForestSymbols(kept), Symbols(q[i]), Symbols(rest[j]), ForestSymbols(rest), ForestSymbols(q));
  }

  /** A merge of well-formed nodes yields well-formed nodes. */
  lemma MergeKeepsWellFormed(q: seq<Tree>)
    requires |q| >= 2
    ensures AllWellFormed(q) ==> AllWellFormed(Merge(q))
  {
    if !AllWellFormed(q) {
      return;
    }
    var i := FirstMin(q);
    var rest := Without(q, i);
    var j := FirstMin(rest);
    var node := Internal(q[i].weight + rest[j].weight, q[i], rest[j]);
    var kept := Without(rest, j);
    MergeUnfold(q, i, j);
    WithoutWellFormed(q, i);
    WithoutWellFormed(rest, j);
    AppendWellFormed(kept, node);
  }

  /** A merge pops exactly two nodes and pushes their parent: the left child
      is a lightest node of the queue, and the right child is no heavier than
      anything left in the queue. */
  lemma MergeTakesLightest(q: seq<Tree>)
    requires |q| >= 2
    ensures var q' := Merge(q);
      && multiset(q'[..|q'| - 1]) + multiset{q'[|q'| - 1].left, q'[|q'| - 1].right} == multiset(q)
      && (forall k | 0 <= k < |q| :: q'[|q'| - 1].left.weight <= q[k].weight)
      && (forall k | 0 <= k < |q'| - 1 :: q'[|q'| - 1].right.weight <= q'[k].weight)
  {
    var i := FirstMin(q);
    var rest := Without(q, i);
    var j := FirstMin(rest);
    var node := Internal(q[i].weight + rest[j].weight, q[i], rest[j]);
    var kept := Without(rest, j);
    var q' := Merge(q);
    assert q' == kept + [node] by {
      MergeUnfold(q, i, j);
    }
    assert q'[..|q'| - 1] == kept;
    assert multiset(kept) + multiset{q[i], rest[j]} == multiset(q) by {
      assert multiset(kept) + multiset{rest[j]} == multiset(rest);
      assert multiset(rest) + multiset{q[i]} == multiset(q);
    }
    WithoutAt(rest, j);
    forall k | 0 <= k < |q'| - 1 ensures rest[j].weight <= q'[k].weight {
      assert q'[k] == kept[k];
      assert kept[k] == rest[if k < j then k else k + 1];
    }
  }

  /** Merge until one node is left, and return it. */
  function Reduce(q: seq<Tree>): (t: Tree)
    requires |q| >= 1
    ensures t.weight == Weights(q)
    ensures Symbols(t) == ForestSymbols(q)
    ensures AllWellFormed(q) ==> WellFormed(t)
    ensures |q| >= 2 ==> t.Internal?
    decreases |q|
  {
    if |q| == 1 then
      assert q[1..] == [];
      q[0]
    else
      MergeKeepsWeight(q);
      MergeKeepsSymbols(q);
      MergeKeepsWellFormed(q);
      Reduce(Merge(q))
  }

  /** `buildTree` (class `HuffmanTree`) loops while the queue holds more than
      one node and then takes its top, which for an empty queue is undefined.
      `createTree` (class `Huffman`) loops while the size is not 1, so an empty
      queue is popped at once, and with a single leaf the loop never runs and
      the root pointer stays null. */
  function BuildTree(q: seq<Tree>, v: Variant): (r: Result<Tree, Error>)
    ensures r.Success? <==> |q| >= 2 || (|q| == 1 && v.HuffmanTreeClass?)
    ensures r.Failure? ==> r.error == (if |q| == 0 then EmptyQueue else NullRoot)
    ensures r.Success? && |q| >= 2 ==> r.value.Internal?
    ensures r.Success? ==> r.value.weight == Weights(q) && Symbols(r.value) == ForestSymbols(q)
    ensures r.Success? && AllWellFormed(q) ==> WellFormed(r.value)
  {
    if |q| == 0 then Failure(EmptyQueue)
    else if |q| == 1 && v.HuffmanClass? then Failure(NullRoot)
    else Success(Reduce(q))
  }

  /** The leaves weigh what the counts add up to. */
  lemma {:induction false} LeavesWeigh(ps: seq<SymbolFreq>)
    ensures Weights(LeavesOf(ps)) == Frequencies(ps)
  {
    if |ps| > 0 {
      assert LeavesOf(ps)[1..] == LeavesOf(ps[1..]);
      LeavesWeigh(ps[1..]);
    }
  }

  /** The leaves built from the present list carry each present symbol
      exactly once and nothing else. */
  lemma {:induction false} LeavesOfPresent(freq: seq<nat>, from: nat)
    requires |freq| == TableSize && from <= TableSize
    ensures forall s: Byte ::
      ForestSymbols(LeavesOf(PresentFrom(freq, from)))[s] == (if from <= s < TableSize && freq[s] > 0 then 1 else 0)
    decreases TableSize - from
  {
    if from < TableSize {
      var ps := PresentFrom(freq, from);
      var rest := PresentFrom(freq, from + 1);
      LeavesOfPresent(freq, from + 1);
      if freq[from] > 0 {
        assert ps == [SymbolFreq(from, freq[from])] + rest;
        assert LeavesOf(ps)[1..] == LeavesOf(rest);
      }
    }
  }
}
