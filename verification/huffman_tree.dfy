/**
 * The Huffman tree of the canonical codec: its nodes, the frequency-ordered
 * queue and the greedy builder that compress and decompress share.
 */
module HuffmanTree {
  import opened Wrappers
  import opened Arith
  import opened Bits
  import opened PriorityQueue

  /** 2^64: unsigned 64-bit arithmetic is modulo this. */
  const U64Modulus: nat := 0x1_0000_0000_0000_0000

  /** An unsigned 64-bit value. */
  type u64 = x: nat | x < 0x1_0000_0000_0000_0000

  /**
   * A tree node. A leaf holds a byte value 0..255 and no children; an
   * internal node (byte -1 in the source) owns its two children, either of
   * which may be null.
   */
  datatype Node =
    | Leaf(freq: u64, sym: byte)
    | Internal(freq: u64, left: Option<Node>, right: Option<Node>)

  /** The queue's ordering: a sorts after b, so the least frequency comes out first. */
  predicate NodeComparator(a: Node, b: Node)
  {
    a.freq > b.freq
  }

  /** Unsigned 64-bit addition, which wraps. */
  function Add64(a: u64, b: u64): (r: u64)
    ensures r % 0x1_0000_0000_0000_0000 == (a + b) % 0x1_0000_0000_0000_0000
    ensures a + b < 0x1_0000_0000_0000_0000 ==> r == a + b
  {
    if a + b < 0x1_0000_0000_0000_0000 then a + b else a + b - 0x1_0000_0000_0000_0000
  }

  /** Frequency of a child; a null child counts as 0. */
  function ChildFreq(c: Option<Node>): u64
  {
    match c
    case None => 0
    case Some(n) => n.freq
  }

  /** Every internal node's frequency is the (wrapping) sum of its children's. */
  predicate SumsConsistent(n: Node)
  {
    match n
    case Leaf(_, _) => true
    case Internal(f, l, r) =>
      && f == Add64(ChildFreq(l), ChildFreq(r))
      && (l.Some? ==> SumsConsistent(l.value))
      && (r.Some? ==> SumsConsistent(r.value))
  }

  /** No internal node has a null child. */
  predicate Full(n: Node)
  {
    match n
    case Leaf(_, _) => true
    case Internal(_, l, r) => l.Some? && r.Some? && Full(l.value) && Full(r.value)
  }

  /** The byte values held by the leaves. */
  function LeafSet(n: Node): set<byte>
  {
    match n
    case Leaf(_, s) => {s}
    case Internal(_, l, r) =>
      (if l.Some? then LeafSet(l.value) else {}) + (if r.Some? then LeafSet(r.value) else {})
  }

  /** The queue keys: the frequency of each queued node. */
  function Freqs(f: seq<Node>): (keys: seq<nat>)
    ensures |keys| == |f|
    ensures forall k :: 0 <= k < |f| ==> keys[k] == f[k].freq
  {
    seq(|f|, k requires 0 <= k < |f| => f[k].freq)
  }

  /** The leaf sets of the queued nodes. */
  function LeafSets(f: seq<Node>): (sets: seq<set<byte>>)
    ensures |sets| == |f|
    ensures forall k :: 0 <= k < |f| ==> sets[k] == LeafSet(f[k])
  {
    seq(|f|, k requires 0 <= k < |f| => LeafSet(f[k]))
  }

  /**
   * One iteration of the build loop: pop the least node a, pop the next
   * least node b, push a new internal node with children a (left) and
   * b (right) and frequency a.freq + b.freq.
   */
  function MergeStep(forest: seq<Node>): (r: seq<Node>)
    requires |forest| >= 2
    ensures |r| == |forest| - 1
  {
    var i := MinIndex(Freqs(forest));
    var a := forest[i];
    var rest := RemoveAt(forest, i);
    var j := MinIndex(Freqs(rest));
    var b := rest[j];
    RemoveAt(rest, j) + [Internal(Add64(a.freq, b.freq), Some(a), Some(b))]
  }

  /** The build loop: merge until one node, the root, remains. */
  function Merge(forest: seq<Node>): Node
    requires |forest| > 0
    decreases |forest|
  {
    if |forest| == 1 then forest[0] else Merge(MergeStep(forest))
  }

  /** Every node in the queue keeps the sum invariant. */
  ghost predicate QueueInvariant(forest: seq<Node>)
  {
    forall k :: 0 <= k < |forest| ==> SumsConsistent(forest[k])
  }

  /** Every node in the queue is full. */
  ghost predicate QueueFull(forest: seq<Node>)
  {
    forall k :: 0 <= k < |forest| ==> Full(forest[k])
  }

  /** The parts of one merge: the two popped positions and what the queue becomes. */
  lemma MergeStepParts(forest: seq<Node>) returns (i: nat, j: nat)
    requires |forest| >= 2
    ensures i == MinIndex(Freqs(forest)) && i < |forest|
    ensures j == MinIndex(Freqs(RemoveAt(forest, i))) && j < |forest| - 1
    ensures var rest := RemoveAt(forest, i);
      MergeStep(forest) == RemoveAt(rest, j)
        + [Internal(Add64(forest[i].freq, rest[j].freq), Some(forest[i]), Some(rest[j]))]
  {
    i := MinIndex(Freqs(forest));
    j := MinIndex(Freqs(RemoveAt(forest, i)));
  }

  /** The queue keys follow a removal. */
  lemma FreqsRemoveAt(f: seq<Node>, i: nat)
    requires i < |f|
    ensures Freqs(RemoveAt(f, i)) == RemoveAt(Freqs(f), i)
  {
    RemoveAtIndex(f, i);
    RemoveAtIndex(Freqs(f), i);
  }

  /** The leaf sets follow a removal. */
  lemma LeafSetsRemoveAt(f: seq<Node>, i: nat)
    requires i < |f|
    ensures LeafSets(RemoveAt(f, i)) == RemoveAt(LeafSets(f), i)
  {
    RemoveAtIndex(f, i);
    RemoveAtIndex(LeafSets(f), i);
  }

  /** The queue keys follow a push. */
  lemma FreqsPush(f: seq<Node>, n: Node)
    ensures Freqs(f + [n]) == Freqs(f) + [n.freq]
  {
  }

  /** The leaf sets follow a push. */
  lemma LeafSetsPush(f: seq<Node>, n: Node)
    ensures LeafSets(f + [n]) == LeafSets(f) + [LeafSet(n)]
  {
  }

  /**
   * The node a merge pushes: an internal node whose children are the least
   * node of the queue (left) and the least of the others (right), so no
   * queued node is ordered ahead of either.
   */
  lemma MergeStepTop(forest: seq<Node>)
    requires |forest| >= 2
    ensures var r := MergeStep(forest);
      var top := r[|r| - 1];
      && top.Internal? && top.left.Some? && top.right.Some?
      && top.freq == Add64(top.left.value.freq, top.right.value.freq)
      && (forall k :: 0 <= k < |forest| ==> !NodeComparator(top.left.value, forest[k]))
      && (forall k :: 0 <= k < |r| - 1 ==> !NodeComparator(top.right.value, r[k]))
  {
    var i, j := MergeStepParts(forest);
    var rest := RemoveAt(forest, i);
    MinIndexLeast(Freqs(forest));
    MinIndexLeast(Freqs(rest));
    var r := MergeStep(forest);
    assert forall k :: 0 <= k < |r| - 1 ==> r[k] == RemoveAt(rest, j)[k];
    RemoveAtIndex(rest, j);
  }

  /** Removing a node keeps every remaining node's sums consistent and fullness. */
  lemma QueueRemoveAt(forest: seq<Node>, i: nat)
    requires i < |forest|
    ensures QueueInvariant(forest) ==> QueueInvariant(RemoveAt(forest, i))
    ensures QueueFull(forest) ==> QueueFull(RemoveAt(forest, i))
  {
  }

  /** Pushing a node keeps the queue's invariants when the node has them. */
  lemma QueuePush(forest: seq<Node>, n: Node)
    ensures QueueInvariant(forest) && SumsConsistent(n) ==> QueueInvariant(forest + [n])
    ensures QueueFull(forest) && Full(n) ==> QueueFull(forest + [n])
  {
    assert forall k :: 0 <= k < |forest| ==> (forest + [n])[k] == forest[k];
  }

  /** One merge keeps the sum invariant and the fullness of every queued node. */
  lemma MergeStepKeepsNodes(forest: seq<Node>)
    requires |forest| >= 2
    ensures QueueInvariant(forest) ==> QueueInvariant(MergeStep(forest))
    ensures QueueFull(forest) ==> QueueFull(MergeStep(forest))
  {
    var i, j := MergeStepParts(forest);
    var rest := RemoveAt(forest, i);
    var a, b := forest[i], rest[j];
    var top := Internal(Add64(a.freq, b.freq), Some(a), Some(b));
    QueueRemoveAt(forest, i);
    QueueRemoveAt(rest, j);
    QueuePush(RemoveAt(rest, j), top);
  }

  /** Wrapping the sum of two values does not change a total modulo 2^64. */
  lemma Add64Mod(x: nat, a: u64, b: u64)
    ensures (x + Add64(a, b)) % 0x1_0000_0000_0000_0000 == (x + a + b) % 0x1_0000_0000_0000_0000
  {
    if a + b >= 0x1_0000_0000_0000_0000 {
      DivUnique(x + a + b, 0x1_0000_0000_0000_0000,
                (x + Add64(a, b)) / 0x1_0000_0000_0000_0000 + 1,
                (x + Add64(a, b)) % 0x1_0000_0000_0000_0000);
    }
  }

  /** One merge keeps the set of leaf values in the queue. */
  lemma MergeStepKeepsLeaves(forest: seq<Node>)
    requires |forest| >= 2
    ensures Union(LeafSets(MergeStep(forest))) == Union(LeafSets(forest))
  {
    var i, j := MergeStepParts(forest);
    var rest := RemoveAt(forest, i);
    var rest2 := RemoveAt(rest, j);
    var top := Internal(Add64(forest[i].freq, rest[j].freq), Some(forest[i]), Some(rest[j]));
    LeafSetsRemoveAt(forest, i);
    LeafSetsRemoveAt(rest, j);
    LeafSetsPush(rest2, top);
    UnionRemoveAt(LeafSets(forest), i);
    UnionRemoveAt(LeafSets(rest), j);
    UnionAppend(LeafSets(rest2), [LeafSet(top)]);
    assert Union([LeafSet(top)]) == LeafSet(top) + Union([]);
  }

  /** The exact totals before and after one merge. */
  lemma MergeStepSums(forest: seq<Node>) returns (x: nat, a: u64, b: u64)
    requires |forest| >= 2
    ensures Sum(Freqs(forest)) == x + a + b
    ensures Sum(Freqs(MergeStep(forest))) == x + Add64(a, b)
  {
    var i, j := MergeStepParts(forest);
    var rest := RemoveAt(forest, i);
    var rest2 := RemoveAt(rest, j);
    a, b := forest[i].freq, rest[j].freq;
    x := Sum(Freqs(rest2));
    FreqsRemoveAt(forest, i);
    FreqsRemoveAt(rest, j);
    FreqsPush(rest2, Internal(Add64(a, b), Some(forest[i]), Some(rest[j])));
    SumRemoveAt(Freqs(forest), i);
    SumRemoveAt(Freqs(rest), j);
    SumAppend(Freqs(rest2), [Add64(a, b)]);
    assert Sum([Add64(a, b) as nat]) == Add64(a, b) + Sum([]);
  }

  /** One merge keeps the total frequency of the queue modulo 2^64. */
  lemma MergeStepKeepsTotal(forest: seq<Node>)
    requires |forest| >= 2
    ensures Sum(Freqs(MergeStep(forest))) % U64Modulus == Sum(Freqs(forest)) % U64Modulus
  {
    var x, a, b := MergeStepSums(forest);
    Add64Mod(x, a, b);
  }

  /**
   * The build loop ends with one root: it keeps the sum invariant, holds
   * exactly the leaf values of the queue, has the queue's total frequency
   * (modulo 2^64), is full when the queue was, and is internal when at least
   * two nodes were queued.
   */
  lemma {:induction false} MergeInvariants(forest: seq<Node>)
    requires |forest| > 0
    requires QueueInvariant(forest)
    ensures SumsConsistent(Merge(forest))
    ensures LeafSet(Merge(forest)) == Union(LeafSets(forest))
    ensures Merge(forest).freq == Sum(Freqs(forest)) % U64Modulus
    ensures QueueFull(forest) ==> Full(Merge(forest))
    ensures |forest| >= 2 ==> Merge(forest).Internal?
    decreases |forest|
  {
    if |forest| == 1 {
      assert Union(LeafSets(forest)) == LeafSet(forest[0]) + Union([]);
    } else {
      MergeStepKeepsNodes(forest);
      MergeStepKeepsLeaves(forest);
      MergeStepKeepsTotal(forest);
      MergeInvariants(MergeStep(forest));
      if |forest| == 2 {
        var r := MergeStep(forest);
        assert Merge(forest) == r[0];
      }
    }
  }

  /** The values from i on with a nonzero count. */
  function PresentFrom(freq: seq<u64>, i: nat): set<byte>
    requires |freq| == 256 && i <= 256
    decreases 256 - i
  {
    if i == 256 then {}
    else if freq[i] > 0 then {i as byte} + PresentFrom(freq, i + 1)
    else PresentFrom(freq, i + 1)
  }

  /** The byte values with a nonzero count. */
  function Present(freq: seq<u64>): set<byte>
    requires |freq| == 256
  {
    PresentFrom(freq, 0)
  }

  /** A value is in PresentFrom(freq, i) exactly when it is at least i and counted. */
  lemma {:induction false} PresentFromMember(freq: seq<u64>, i: nat)
    requires |freq| == 256 && i <= 256
    ensures forall b: byte :: b in PresentFrom(freq, i) <==> i <= b && freq[b] > 0
    decreases 256 - i
  {
    if i < 256 {
      PresentFromMember(freq, i + 1);
    }
  }

  /** A value is present exactly when its count is nonzero. */
  lemma PresentMember(freq: seq<u64>)
    requires |freq| == 256
    ensures forall b: byte :: b in Present(freq) <==> freq[b] > 0
  {
    PresentFromMember(freq, 0);
  }

  /**
   * The queue's initial contents: one leaf per value from i on with a
   * nonzero count, in ascending value order.
   */
  function LeavesFrom(freq: seq<u64>, i: nat): (r: seq<Node>)
    requires |freq| == 256 && i <= 256
    ensures |r| <= 256 - i
    decreases 256 - i
  {
    if i == 256 then []
    else if freq[i] > 0 then [Leaf(freq[i], i)] + LeavesFrom(freq, i + 1)
    else LeavesFrom(freq, i + 1)
  }

  /**
   * Leaves in strictly ascending value order, one per value from i on with a
   * nonzero count, each carrying that count.
   */
  ghost predicate AscendingLeaves(freq: seq<u64>, i: nat, r: seq<Node>)
    requires |freq| == 256
  {
    && (forall k :: 0 <= k < |r| ==> r[k].Leaf? && i <= r[k].sym && freq[r[k].sym] > 0)
    && (forall k :: 0 <= k < |r| ==> r[k] == Leaf(freq[r[k].sym], r[k].sym))
    && (forall k, l :: 0 <= k < l < |r| ==> r[k].sym < r[l].sym)
  }

  /** The initial queue is a run of ascending leaves. */
  lemma {:induction false} LeavesFromShape(freq: seq<u64>, i: nat)
    requires |freq| == 256 && i <= 256
    ensures AscendingLeaves(freq, i, LeavesFrom(freq, i))
    decreases 256 - i
  {
    if i < 256 {
      LeavesFromShape(freq, i + 1);
      var r' := LeavesFrom(freq, i + 1);
      var r := LeavesFrom(freq, i);
      if freq[i] > 0 {
        assert r == [Leaf(freq[i], i)] + r';
        assert forall k :: 1 <= k < |r| ==> r[k] == r'[k - 1];
      } else {
        assert r == r';
      }
    }
  }

  /** The initial queue covers exactly the values with a nonzero count, one leaf each. */
  lemma {:induction false} LeavesFromCover(freq: seq<u64>, i: nat)
    requires |freq| == 256 && i <= 256
    ensures Union(LeafSets(LeavesFrom(freq, i))) == PresentFrom(freq, i)
    ensures |LeavesFrom(freq, i)| == |PresentFrom(freq, i)|
    decreases 256 - i
  {
    if i < 256 {
      LeavesFromCover(freq, i + 1);
      var r := LeavesFrom(freq, i);
      var r' := LeavesFrom(freq, i + 1);
      if freq[i] > 0 {
        assert i as byte !in PresentFrom(freq, i + 1) by {
          PresentFromMember(freq, i + 1);
        }
        assert LeafSets(r) == [{i as byte}] + LeafSets(r');
        assert LeafSets(r)[1..] == LeafSets(r');
      }
    }
  }

  /** The initial queue carries the total count of the table from i on. */
  lemma {:induction false} LeavesFromSum(freq: seq<u64>, i: nat)
    requires |freq| == 256 && i <= 256
    ensures Sum(Freqs(LeavesFrom(freq, i))) == Sum(freq[i..])
    decreases 256 - i
  {
    if i < 256 {
      LeavesFromSum(freq, i + 1);
      var r := LeavesFrom(freq, i);
      assert freq[i..][1..] == freq[i + 1..];
      if freq[i] > 0 {
        assert Freqs(r)[1..] == Freqs(LeavesFrom(freq, i + 1));
      }
    }
  }

  /** The number of distinct byte values: the source's symbolCount. */
  function SymbolCount(freq: seq<u64>): (n: nat)
    requires |freq| == 256
    ensures n == |Present(freq)| && n <= 256
  {
    LeavesFromCover(freq, 0);
    |LeavesFrom(freq, 0)|
  }

  /** With an empty table there is nothing to queue. */
  lemma NoLeaves(freq: seq<u64>)
    requires |freq| == 256 && |LeavesFrom(freq, 0)| == 0
    ensures Present(freq) == {}
  {
    LeavesFromCover(freq, 0);
  }

  /** The root built for a single present value: its leaf under a wrapping internal node. */
  function SingleRoot(leaf: Node): Node
  {
    Internal(leaf.freq, Some(leaf), None)
  }

  /** With one value present, the queue holds exactly its leaf. */
  lemma OneLeafPresent(freq: seq<u64>)
    requires |freq| == 256 && |LeavesFrom(freq, 0)| == 1
    ensures LeavesFrom(freq, 0)[0].Leaf?
    ensures Present(freq) == {LeavesFrom(freq, 0)[0].sym}
  {
    var leaves := LeavesFrom(freq, 0);
    LeavesFromShape(freq, 0);
    LeavesFromCover(freq, 0);
    UnionSingle(LeafSets(leaves));
  }

  /** With one value present, its leaf carries the table's whole count. */
  lemma OneLeafTotal(freq: seq<u64>)
    requires |freq| == 256 && |LeavesFrom(freq, 0)| == 1
    ensures LeavesFrom(freq, 0)[0].freq == Sum(freq) % U64Modulus
  {
    var leaves := LeavesFrom(freq, 0);
    LeavesFromSum(freq, 0);
    assert freq[0..] == freq;
    assert Sum(Freqs(leaves)) == leaves[0].freq + Sum([]);
  }

  /** With one value present, the builder wraps its leaf. */
  lemma OneLeaf(freq: seq<u64>)
    requires |freq| == 256 && |LeavesFrom(freq, 0)| == 1
    ensures var root := SingleRoot(LeavesFrom(freq, 0)[0]);
      && Present(freq) != {}
      && root.Internal? && SumsConsistent(root)
      && LeafSet(root) == Present(freq)
      && root.freq == Sum(freq) % U64Modulus
      && (forall s :: s in Present(freq) && Present(freq) == {s} ==>
            root == Internal(freq[s], Some(Leaf(freq[s], s)), None))
      && SymbolCount(freq) == 1
  {
    var leaf := LeavesFrom(freq, 0)[0];
    assert leaf == Leaf(freq[leaf.sym], leaf.sym) by {
      LeavesFromShape(freq, 0);
    }
    OneLeafPresent(freq);
    OneLeafTotal(freq);
    forall s | s in Present(freq) && Present(freq) == {s}
      ensures s == leaf.sym
    {
      assert leaf.sym in {s};
    }
  }

  /** The initial queue is made of leaves, so it starts with both queue invariants. */
  lemma LeavesQueue(freq: seq<u64>)
    requires |freq| == 256
    ensures QueueInvariant(LeavesFrom(freq, 0)) && QueueFull(LeavesFrom(freq, 0))
  {
    LeavesFromShape(freq, 0);
  }

  /** The first two queued leaves hold two distinct present values. */
  lemma FirstTwoLeaves(freq: seq<u64>)
    requires |freq| == 256 && |LeavesFrom(freq, 0)| >= 2
    ensures var leaves := LeavesFrom(freq, 0);
      && leaves[0].Leaf? && leaves[1].Leaf?
      && leaves[0].sym < leaves[1].sym
      && leaves[0].sym in Present(freq) && leaves[1].sym in Present(freq)
  {
    var leaves := LeavesFrom(freq, 0);
    assert && leaves[0].Leaf? && leaves[1].Leaf?
           && leaves[0].sym < leaves[1].sym
           && freq[leaves[0].sym] > 0 && freq[leaves[1].sym] > 0 by {
      LeavesFromShape(freq, 0);
    }
    var a, b := leaves[0].sym, leaves[1].sym;
    assert a in Present(freq) && b in Present(freq) by {
      PresentMember(freq);
    }
  }

  /** With two or more leaves queued, at least two distinct values are present. */
  lemma ManyPresent(freq: seq<u64>)
    requires |freq| == 256 && |LeavesFrom(freq, 0)| >= 2
    ensures Present(freq) != {}
    ensures forall s :: s in Present(freq) ==> Present(freq) != {s}
    ensures SymbolCount(freq) >= 2
  {
    var leaves := LeavesFrom(freq, 0);
    FirstTwoLeaves(freq);
    var a, b := leaves[0].sym, leaves[1].sym;
    forall s | s in Present(freq)
      ensures Present(freq) != {s}
    {
      if s == a {
        assert b !in {s};
      } else {
        assert a !in {s};
      }
    }
  }

  /** With two or more values present, the merged root has the queue's leaves and total. */
  lemma ManyLeaves(freq: seq<u64>)
    requires |freq| == 256 && |LeavesFrom(freq, 0)| >= 2
    ensures var root := Merge(LeavesFrom(freq, 0));
      && Present(freq) != {}
      && root.Internal? && SumsConsistent(root) && Full(root)
      && LeafSet(root) == Present(freq)
      && root.freq == Sum(freq) % U64Modulus
      && (forall s :: s in Present(freq) ==> Present(freq) != {s})
      && SymbolCount(freq) >= 2
  {
    var leaves := LeavesFrom(freq, 0);
    LeavesQueue(freq);
    LeavesFromCover(freq, 0);
    assert Sum(Freqs(leaves)) == Sum(freq) by {
      LeavesFromSum(freq, 0);
      assert freq[0..] == freq;
    }
    ManyPresent(freq);
    MergeInvariants(leaves);
  }

  /**
   * The tree builder shared by compress and decompress: no tree for an
   * empty table; a single present value becomes a leaf wrapped as the left
   * child of an internal root with a null right child; otherwise the
   * greedy merge of the ascending leaves.
   */
  function BuildTree(freq: seq<u64>): (root: Option<Node>)
    requires |freq| == 256
    ensures root.None? <==> Present(freq) == {}
    ensures root.Some? ==> root.value.Internal? && SumsConsistent(root.value)
    ensures root.Some? ==> LeafSet(root.value) == Present(freq)
    ensures root.Some? ==> root.value.freq == Sum(freq) % U64Modulus
    ensures forall s :: s in Present(freq) && Present(freq) == {s} ==>
              root == Some(Internal(freq[s], Some(Leaf(freq[s], s)), None))
    ensures SymbolCount(freq) >= 2 ==> Full(root.value)
  {
    var leaves := LeavesFrom(freq, 0);
    if |leaves| == 0 then
      NoLeaves(freq);
      None
    else if |leaves| == 1 then
      OneLeaf(freq);
      Some(SingleRoot(leaves[0]))
    else
      ManyLeaves(freq);
      Some(Merge(leaves))
  }
}
