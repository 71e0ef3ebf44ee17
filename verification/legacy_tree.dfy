/**
 * The tree of the older, root-level codec: nodes that carry a character,
 * an `int` frequency and two possibly-null children, a node being a leaf
 * exactly when both children are null. Counts live in a hash map, and the
 * builder runs the same two-least merge as the canonical codec, starting
 * from the leaves in the map's iteration order.
 */
module LegacyTree {
  import opened Wrappers
  import opened Bits
  import opened PriorityQueue
  import opened HuffmanTree
  import opened Codes

  /** INT_MAX: counts and their sums are `int`. */
  const IntMax: nat := 0x7FFF_FFFF

  /**
   * A tree node. The leaf constructor stores a character and its count with
   * null children; the internal constructor stores the NUL character and a
   * count, and the builder then attaches the children.
   */
  datatype HNode = HNode(ch: byte, freq: int, left: Option<HNode>, right: Option<HNode>)

  /** The leaf test every traversal uses: no left and no right child. */
  predicate IsLeaf(n: HNode)
  {
    n.left.None? && n.right.None?
  }

  /** The same tree as a canonical tree: childless nodes become leaves, counts are dropped. */
  function ToNode(n: HNode): Node
  {
    if IsLeaf(n) then Leaf(0, n.ch)
    else
      Internal(0,
               if n.left.Some? then Some(ToNode(n.left.value)) else None,
               if n.right.Some? then Some(ToNode(n.right.value)) else None)
  }

  /** A canonical tree as legacy nodes: leaves keep their value and count, internal nodes hold NUL. */
  function FromNode(n: Node): HNode
  {
    match n
    case Leaf(f, s) => HNode(s, f, None, None)
    case Internal(f, l, r) =>
      HNode(0, f,
            if l.Some? then Some(FromNode(l.value)) else None,
            if r.Some? then Some(FromNode(r.value)) else None)
  }

  /** Count of a child; a null child counts as 0. */
  function Weight(c: Option<HNode>): int
  {
    if c.Some? then c.value.freq else 0
  }

  /** Every node with a child has as count the exact sum of its children's counts. */
  predicate Sums(n: HNode)
  {
    && (!IsLeaf(n) ==> n.freq == Weight(n.left) + Weight(n.right))
    && (n.left.Some? ==> Sums(n.left.value))
    && (n.right.Some? ==> Sums(n.right.value))
  }

  /**
   * calculateFrequency: `frequency[c]++` for each character in order, a
   * missing key starting from 0.
   */
  function CountChars(text: seq<byte>): map<byte, int>
  {
    if |text| == 0 then map[]
    else
      var m := CountChars(text[..|text| - 1]);
      var c := text[|text| - 1];
      m[c := (if c in m then m[c] else 0) + 1]
  }

  /** The map has a key for exactly the characters of the text, each counting its occurrences. */
  lemma {:induction false} CountCharsCounts(text: seq<byte>)
    ensures forall c :: c in CountChars(text) <==> c in text
    ensures forall c :: c in CountChars(text) ==> CountChars(text)[c] == multiset(text)[c]
  {
    if |text| > 0 {
      var init := text[..|text| - 1];
      CountCharsCounts(init);
      assert text == init + [text[|text| - 1]];
    }
  }

  /** Every count is positive and fits an `int`. */
  ghost predicate Counted(m: map<byte, int>)
  {
    forall c :: c in m ==> 0 < m[c] <= IntMax
  }

  /** An input of at most INT_MAX characters never overflows a count. */
  lemma CountCharsCounted(text: seq<byte>)
    requires |text| <= IntMax
    ensures Counted(CountChars(text))
  {
    CountCharsCounts(text);
    forall c | c in CountChars(text)
      ensures 0 < CountChars(text)[c] <= IntMax
    {
      assert multiset(text)[c] <= |multiset(text)|;
    }
  }

  /**
   * An iteration order of the map: every key exactly once. The hash map's
   * actual order is unspecified, so the builder takes it as a parameter.
   */
  ghost predicate IsOrder(m: map<byte, int>, order: seq<byte>)
  {
    && (forall i, j :: 0 <= i < j < |order| ==> order[i] != order[j])
    && (forall c :: c in order <==> c in m)
  }

  /** The initial queue: one leaf per key, pushed in iteration order. */
  function LeafQueue(m: map<byte, int>, order: seq<byte>): (q: seq<Node>)
    requires Counted(m)
    requires forall c :: c in order ==> c in m
    ensures |q| == |order|
  {
    if |order| == 0 then []
    else [Leaf(m[order[0]], order[0])] + LeafQueue(m, order[1..])
  }

  /**
   * buildHuffmanTree: no root for an empty map; otherwise the two-least
   * merge of the leaves, so that a single leaf is returned bare as the root.
   */
  function BuildTree(m: map<byte, int>, order: seq<byte>): Option<HNode>
    requires Counted(m) && IsOrder(m, order)
  {
    if |order| == 0 then None else Some(FromNode(Merge(LeafQueue(m, order))))
  }

  /**
   * generateCodes: a null node adds nothing; a leaf records the path taken
   * ("0" when the path is empty); otherwise left appends 0 and right appends
   * 1, a later assignment overwriting an earlier one.
   */
  function GenerateCodes(n: Option<HNode>, code: seq<bool>): map<byte, seq<bool>>
  {
    match n
    case None => map[]
    case Some(h) =>
      if IsLeaf(h) then map[h.ch := if code == [] then [false] else code]
      else GenerateCodes(h.left, code + [false]) + GenerateCodes(h.right, code + [true])
  }

  /** generateCodes computes the canonical code table of the same tree. */
  lemma {:induction false} GenerateCodesAgree(h: HNode, code: seq<bool>)
    ensures GenerateCodes(Some(h), code) == BuildCodes(ToNode(h), code)
  {
    if !IsLeaf(h) {
      if h.left.Some? {
        GenerateCodesAgree(h.left.value, code + [false]);
      }
      if h.right.Some? {
        GenerateCodesAgree(h.right.value, code + [true]);
      }
    }
  }

  /** The legacy code table is prefix-free and has a code for exactly the leaf characters. */
  lemma GenerateCodesPrefixFree(h: HNode)
    ensures PrefixFree(GenerateCodes(Some(h), []))
    ensures GenerateCodes(Some(h), []).Keys == LeafSet(ToNode(h))
  {
    GenerateCodesAgree(h, []);
    CodesPrefixFree(ToNode(h));
    BuildCodesKeys(ToNode(h), []);
  }

  /** The same canonical tree with every count erased to 0. */
  function Uncounted(n: Node): Node
  {
    match n
    case Leaf(_, s) => Leaf(0, s)
    case Internal(_, l, r) =>
      Internal(0,
               if l.Some? then Some(Uncounted(l.value)) else None,
               if r.Some? then Some(Uncounted(r.value)) else None)
  }

  /**
   * Converting a full canonical tree and reading it back gives the same tree
   * with its counts erased: the same shape and the same leaf values.
   */
  lemma {:induction false} FromNodeShape(n: Node)
    requires Full(n)
    ensures ToNode(FromNode(n)) == Uncounted(n)
    ensures Full(ToNode(FromNode(n)))
    ensures LeafSet(ToNode(FromNode(n))) == LeafSet(n)
    ensures ToNode(FromNode(n)).Internal? <==> n.Internal?
  {
    if n.Internal? {
      FromNodeShape(n.left.value);
      FromNodeShape(n.right.value);
    }
  }

  /** Exact (non-wrapping) sums in a canonical tree. */
  predicate ExactSums(n: Node)
  {
    match n
    case Leaf(_, _) => true
    case Internal(f, l, r) =>
      && f == ChildFreq(l) + ChildFreq(r)
      && (l.Some? ==> ExactSums(l.value))
      && (r.Some? ==> ExactSums(r.value))
  }

  /** Exact sums carry over to the converted tree. */
  lemma {:induction false} FromNodeSums(n: Node)
    requires ExactSums(n)
    ensures Sums(FromNode(n))
  {
    if n.Internal? {
      if n.left.Some? {
        FromNodeSums(n.left.value);
      }
      if n.right.Some? {
        FromNodeSums(n.right.value);
      }
    }
  }

  /** Every queued node has exact sums. */
  ghost predicate QueueExact(forest: seq<Node>)
  {
    forall k :: 0 <= k < |forest| ==> ExactSums(forest[k])
  }

  /** While the queue's total fits 64 bits, a merge adds exactly and keeps the total. */
  lemma MergeStepExact(forest: seq<Node>)
    requires |forest| >= 2 && QueueExact(forest) && Sum(Freqs(forest)) < U64Modulus
    ensures QueueExact(MergeStep(forest))
    ensures Sum(Freqs(MergeStep(forest))) == Sum(Freqs(forest))
  {
    var i, j := MergeStepParts(forest);
    var rest := RemoveAt(forest, i);
    var rest2 := RemoveAt(rest, j);
    var a, b := forest[i], rest[j];
    FreqsRemoveAt(forest, i);
    FreqsRemoveAt(rest, j);
    SumRemoveAt(Freqs(forest), i);
    SumRemoveAt(Freqs(rest), j);
    assert a.freq + b.freq < U64Modulus;
    var top := Internal(Add64(a.freq, b.freq), Some(a), Some(b));
    assert ExactSums(top) by {
      RemoveAtIndex(forest, i);
      RemoveAtIndex(rest, j);
    }
    assert QueueExact(rest2) by {
      RemoveAtIndex(forest, i);
      RemoveAtIndex(rest, j);
    }
    assert QueueExact(rest2 + [top]) by {
      assert forall k :: 0 <= k < |rest2| ==> (rest2 + [top])[k] == rest2[k];
    }
    FreqsPush(rest2, top);
    SumAppend(Freqs(rest2), [top.freq]);
    assert Sum([top.freq as nat]) == top.freq + Sum([]);
  }

  /** While the queue's total fits 64 bits, the merged tree has exact sums. */
  lemma {:induction false} MergeExact(forest: seq<Node>)
    requires |forest| > 0 && QueueExact(forest) && Sum(Freqs(forest)) < U64Modulus
    ensures ExactSums(Merge(forest))
    decreases |forest|
  {
    if |forest| > 1 {
      MergeStepExact(forest);
      MergeExact(MergeStep(forest));
    }
  }

  /** The queued leaves cover exactly the listed characters. */
  lemma {:induction false} LeafQueueLeaves(m: map<byte, int>, order: seq<byte>)
    requires Counted(m)
    requires forall c :: c in order ==> c in m
    ensures forall c :: c in Union(LeafSets(LeafQueue(m, order))) <==> c in order
  {
    if |order| > 0 {
      var q := LeafQueue(m, order);
      LeafQueueLeaves(m, order[1..]);
      assert q == [q[0]] + LeafQueue(m, order[1..]);
      assert LeafSets(q) == [{order[0]}] + LeafSets(LeafQueue(m, order[1..]));
      UnionAppend([{order[0]}], LeafSets(LeafQueue(m, order[1..])));
      assert Union([{order[0]}]) == {order[0]} + Union([]);
      assert order == [order[0]] + order[1..];
    }
  }

  /** The queued leaves start out with both queue invariants and exact sums. */
  lemma {:induction false} LeafQueueNodes(m: map<byte, int>, order: seq<byte>)
    requires Counted(m)
    requires forall c :: c in order ==> c in m
    ensures QueueInvariant(LeafQueue(m, order)) && QueueFull(LeafQueue(m, order))
    ensures QueueExact(LeafQueue(m, order))
  {
    if |order| > 0 {
      LeafQueueNodes(m, order[1..]);
      var q := LeafQueue(m, order);
      assert forall k :: 1 <= k < |q| ==> q[k] == LeafQueue(m, order[1..])[k - 1];
    }
  }

  /** The number of characters of text whose value is listed in order, counting each listed value once. */
  function Occurrences(text: seq<byte>, order: seq<byte>): nat
  {
    if |order| == 0 then 0 else multiset(text)[order[0]] + Occurrences(text, order[1..])
  }

  /** The queue's total is the number of listed characters in the text. */
  lemma {:induction false} LeafQueueTotal(text: seq<byte>, order: seq<byte>)
    requires Counted(CountChars(text))
    requires forall c :: c in order ==> c in CountChars(text)
    ensures Sum(Freqs(LeafQueue(CountChars(text), order))) == Occurrences(text, order)
  {
    if |order| > 0 {
      var m := CountChars(text);
      var q := LeafQueue(m, order);
      LeafQueueTotal(text, order[1..]);
      CountCharsCounts(text);
      assert Freqs(q) == [m[order[0]] as nat] + Freqs(LeafQueue(m, order[1..]));
    }
  }

  /** One more character adds its number of listings. */
  lemma {:induction false} OccurrencesSnoc(init: seq<byte>, c: byte, order: seq<byte>)
    ensures Occurrences(init + [c], order) == Occurrences(init, order) + multiset(order)[c]
  {
    if |order| > 0 {
      OccurrencesSnoc(init, c, order[1..]);
      assert order == [order[0]] + order[1..];
    }
  }

  /** A value listed once in a list without repeats has multiplicity one. */
  lemma {:induction false} ListedOnce(order: seq<byte>, c: byte)
    requires forall i, j :: 0 <= i < j < |order| ==> order[i] != order[j]
    requires c in order
    ensures multiset(order)[c] == 1
  {
    assert order == [order[0]] + order[1..];
    if order[0] == c {
      assert c !in order[1..];
    } else {
      ListedOnce(order[1..], c);
    }
  }

  /** Listing every character of the text once accounts for the whole text. */
  lemma {:induction false} OccurrencesAll(text: seq<byte>, order: seq<byte>)
    requires forall i, j :: 0 <= i < j < |order| ==> order[i] != order[j]
    requires forall c :: c in text ==> c in order
    ensures Occurrences(text, order) == |text|
  {
    if |text| == 0 {
      ZeroOccurrences(order);
    } else {
      var init := text[..|text| - 1];
      var c := text[|text| - 1];
      assert text == init + [c];
      OccurrencesAll(init, order);
      OccurrencesSnoc(init, c, order);
      ListedOnce(order, c);
    }
  }

  /** Nothing occurs in the empty text. */
  lemma {:induction false} ZeroOccurrences(order: seq<byte>)
    ensures Occurrences([], order) == 0
  {
    if |order| > 0 {
      ZeroOccurrences(order[1..]);
    }
  }

  /** calculateFrequency's counts, queued in any iteration order, add up to the text's length. */
  lemma CountCharsTotal(text: seq<byte>, order: seq<byte>)
    requires |text| <= IntMax && IsOrder(CountChars(text), order)
    ensures Counted(CountChars(text))
    ensures Sum(Freqs(LeafQueue(CountChars(text), order))) == |text|
  {
    CountCharsCounted(text);
    CountCharsCounts(text);
    LeafQueueTotal(text, order);
    OccurrencesAll(text, order);
  }
  /** A non-empty text has at least one key to queue; an empty one has none. */
  lemma OrderEmpty(text: seq<byte>, order: seq<byte>)
    requires IsOrder(CountChars(text), order)
    ensures |order| == 0 <==> |text| == 0
  {
    CountCharsCounts(text);
    if |text| > 0 {
      assert text[0] in order;
    }
    if |order| > 0 {
      assert order[0] in text;
    }
  }

  /** buildHuffmanTree returns no root exactly for the empty text. */
  lemma BuildTreeNone(text: seq<byte>, order: seq<byte>)
    requires |text| <= IntMax && IsOrder(CountChars(text), order)
    ensures Counted(CountChars(text))
    ensures BuildTree(CountChars(text), order).None? <==> |text| == 0
  {
    CountCharsCounted(text);
    OrderEmpty(text, order);
  }

  /**
   * For a non-empty text the root carries the text's length, every node
   * with a child sums its children exactly, every internal node has both
   * children, and the leaves hold exactly the text's characters.
   */
  lemma BuildTreeRoot(text: seq<byte>, order: seq<byte>) returns (root: HNode)
    requires 0 < |text| <= IntMax && IsOrder(CountChars(text), order)
    ensures Counted(CountChars(text))
    ensures BuildTree(CountChars(text), order) == Some(root)
    ensures root.freq == |text| && Sums(root) && Full(ToNode(root))
    ensures forall c :: c in LeafSet(ToNode(root)) <==> c in text
  {
    var m := CountChars(text);
    CountCharsTotal(text, order);
    OrderEmpty(text, order);
    var q := LeafQueue(m, order);
    LeafQueueNodes(m, order);
    root := MergedRoot(q);
    assert forall c :: c in LeafSet(ToNode(root)) <==> c in text by {
      LeafQueueLeaves(m, order);
      CountCharsCounts(text);
    }
  }

  /** The converted merge of a queue whose total fits an `int`. */
  lemma MergedRoot(q: seq<Node>) returns (root: HNode)
    requires |q| > 0 && QueueInvariant(q) && QueueFull(q) && QueueExact(q)
    requires Sum(Freqs(q)) <= IntMax
    ensures root == FromNode(Merge(q))
    ensures root.freq == Sum(Freqs(q)) && Sums(root) && Full(ToNode(root))
    ensures LeafSet(ToNode(root)) == Union(LeafSets(q))
  {
    var n := Merge(q);
    MergeInvariants(q);
    MergeExact(q);
    FromNodeShape(n);
    FromNodeSums(n);
    root := FromNode(n);
  }

  /** With one distinct character the root is a bare leaf holding it: no internal node is built. */
  lemma BareLeafRoot(text: seq<byte>, order: seq<byte>)
    requires 0 < |text| <= IntMax && IsOrder(CountChars(text), order)
    requires forall i :: 0 <= i < |text| ==> text[i] == text[0]
    ensures Counted(CountChars(text))
    ensures BuildTree(CountChars(text), order) == Some(HNode(text[0], |text|, None, None))
  {
    var m := CountChars(text);
    CountCharsTotal(text, order);
    assert order == [text[0]] by {
      CountCharsCounts(text);
      OnlyListed(order, text[0]);
    }
    var q := LeafQueue(m, order);
    assert q == [Leaf(m[text[0]], text[0])];
    assert Sum(Freqs(q)) == m[text[0]] + Sum([]);
  }

  /** A list without repeats whose every entry is c, and which holds c, is just c. */
  lemma OnlyListed(order: seq<byte>, c: byte)
    requires forall i, j :: 0 <= i < j < |order| ==> order[i] != order[j]
    requires forall k :: 0 <= k < |order| ==> order[k] == c
    requires c in order
    ensures order == [c]
  {
    ListedOnce(order, c);
    AllListed(order, c);
  }

  /** A list whose every entry is c lists c as many times as it is long. */
  lemma {:induction false} AllListed(order: seq<byte>, c: byte)
    requires forall k :: 0 <= k < |order| ==> order[k] == c
    ensures multiset(order)[c] == |order|
  {
    if |order| > 0 {
      AllListed(order[1..], c);
      assert order == [c] + order[1..];
    }
  }

  /** With two distinct characters the root has a child, so it is not a leaf. */
  lemma InternalRoot(text: seq<byte>, order: seq<byte>, i: nat)
    requires |text| <= IntMax && IsOrder(CountChars(text), order)
    requires i < |text| && text[i] != text[0]
    ensures Counted(CountChars(text))
    ensures BuildTree(CountChars(text), order).Some?
    ensures ToNode(BuildTree(CountChars(text), order).value).Internal?
    ensures !IsLeaf(BuildTree(CountChars(text), order).value)
  {
    var m := CountChars(text);
    CountCharsCounted(text);
    CountCharsCounts(text);
    assert text[0] in order && text[i] in order;
    var a :| 0 <= a < |order| && order[a] == text[0];
    var b :| 0 <= b < |order| && order[b] == text[i];
    assert a != b;
    var q := LeafQueue(m, order);
    LeafQueueNodes(m, order);
    MergeInvariants(q);
    FromNodeShape(Merge(q));
  }
}
