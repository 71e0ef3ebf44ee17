/**
 * The legacy codec's tree encoding: a preorder stream of markers, '0' for
 * a null node, '1' and the character for a leaf, '2' followed by both
 * subtrees for an internal node.
 */
module LegacyFormat {
  import opened Wrappers
  import opened Bits
  import opened HuffmanTree
  import opened LegacyTree

  /** The marker bytes '0', '1' and '2'. */
  const NullMarker: byte := 48
  const LeafMarker: byte := 49
  const InternalMarker: byte := 50

  /** serializeTree. */
  function Serialize(t: Option<HNode>): seq<byte>
  {
    match t
    case None => [NullMarker]
    case Some(n) =>
      if IsLeaf(n) then [LeafMarker, n.ch]
      else [InternalMarker] + Serialize(n.left) + Serialize(n.right)
  }

  /**
   * deserializeTree reading from position pos: the node read and the
   * position after it. A failed read leaves the stream at its end, where
   * every later read fails as well. An unknown marker is consumed and gives
   * null, and so does a leaf marker with no character after it. An internal
   * node is created before its children are read, so it survives their
   * failure with null children.
   */
  function Deserialize(file: seq<byte>, pos: nat): (r: (Option<HNode>, nat))
    requires pos <= |file|
    ensures pos <= r.1 <= |file|
    ensures pos == |file| ==> r == (None, pos)
    ensures pos < |file| && file[pos] != LeafMarker && file[pos] != InternalMarker ==> r == (None, pos + 1)
    ensures pos < |file| && file[pos] == LeafMarker && pos + 1 == |file| ==> r == (None, |file|)
    ensures r.0.Some? ==> pos < |file| && (file[pos] == LeafMarker || file[pos] == InternalMarker)
    decreases |file| - pos
  {
    if pos == |file| then (None, pos)
    else if file[pos] == NullMarker then (None, pos + 1)
    else if file[pos] == LeafMarker then
      if pos + 1 == |file| then (None, |file|)
      else (Some(HNode(file[pos + 1], 0, None, None)), pos + 2)
    else if file[pos] == InternalMarker then
      var l := Deserialize(file, pos + 1);
      var r := Deserialize(file, l.1);
      (Some(HNode(0, 0, l.0, r.0)), r.1)
    else (None, pos + 1)
  }

  /**
   * What deserializing a serialized tree gives: the same shape and leaf
   * characters, with every count reset to 0 and internal characters NUL.
   */
  function Strip(t: Option<HNode>): Option<HNode>
  {
    match t
    case None => None
    case Some(n) =>
      if IsLeaf(n) then Some(HNode(n.ch, 0, None, None))
      else Some(HNode(0, 0, Strip(n.left), Strip(n.right)))
  }

  /** Stripping keeps the shape and leaf characters: it serializes the same and reads as the same tree. */
  lemma {:induction false} StripShape(t: Option<HNode>)
    ensures Serialize(Strip(t)) == Serialize(t)
    ensures Strip(t).Some? <==> t.Some?
    ensures t.Some? ==> ToNode(Strip(t).value) == ToNode(t.value)
    ensures t.Some? ==> (IsLeaf(Strip(t).value) <==> IsLeaf(t.value))
  {
    if t.Some? && !IsLeaf(t.value) {
      StripShape(t.value.left);
      StripShape(t.value.right);
    }
  }

  /** Reading back a serialized tree, wherever it sits in the file, gives it stripped and ends right after it. */
  lemma {:induction false} DeserializeSerialize(t: Option<HNode>, pre: seq<byte>, post: seq<byte>)
    ensures Deserialize(pre + Serialize(t) + post, |pre|) == (Strip(t), |pre| + |Serialize(t)|)
  {
    var file := pre + Serialize(t) + post;
    match t
    case None =>
      assert file[|pre|] == NullMarker;
    case Some(n) =>
      if IsLeaf(n) {
        assert file[|pre|] == LeafMarker && file[|pre| + 1] == n.ch;
      } else {
        var sl, sr := Serialize(n.left), Serialize(n.right);
        assert file[|pre|] == InternalMarker;
        assert file == (pre + [InternalMarker]) + sl + (sr + post);
        DeserializeSerialize(n.left, pre + [InternalMarker], sr + post);
        assert file == (pre + [InternalMarker] + sl) + sr + post;
        DeserializeSerialize(n.right, pre + [InternalMarker] + sl, post);
      }
  }

  /** The whole-stream form: a serialized tree at the start of a file. */
  lemma DeserializeAtStart(t: Option<HNode>, post: seq<byte>)
    ensures Deserialize(Serialize(t) + post, 0) == (Strip(t), |Serialize(t)|)
  {
    DeserializeSerialize(t, [], post);
    assert [] + Serialize(t) + post == Serialize(t) + post;
  }
}
