/**
 * The legacy codec's whole-file operations. A compressed file is the
 * serialized tree, the separator byte 0xFF, the text length as eight
 * little-endian bytes, and the MSB-first packed code bits with the last
 * byte zero-padded; the number of code bits is not stored.
 */
module LegacyCodec {
  import opened Wrappers
  import opened Arith
  import opened Bits
  import opened LittleEndian
  import opened HuffmanTree
  import opened Codes
  import opened Decoder
  import Container
  import opened LegacyTree
  import opened LegacyFormat

  /** The reasons the legacy compressFile and decompressFile return false, and the decoder's crash. */
  datatype LegacyError =
    | EmptyInput    // compress: the input text is empty
    | NoTree        // compress: no root was built; decompress: the tree read back is null
    | BadSeparator  // decompress: the byte after the tree is missing or not 0xFF
    | ShortLength   // decompress: fewer than eight bytes remain for the text length
    | NullChild     // decompress: the walk stepped to a null child and dereferenced it

  /** The byte written between the tree and the text length. */
  const Separator: byte := 255

  /**
   * The decode loop: from node cur, step right on 1 and left on 0; a
   * childless node reached emits its character and the walk resumes at the
   * root; stop once want characters are out or the bits run out. None
   * when a step lands on a null child, whose children the leaf test then
   * reads.
   */
  function Walk(root: HNode, cur: HNode, bits: seq<bool>, want: nat): Option<seq<byte>>
    decreases |bits|
  {
    if want == 0 || |bits| == 0 then Some([])
    else
      var c := if bits[0] then cur.right else cur.left;
      if c.None? then None
      else if IsLeaf(c.value) then Prepend(c.value.ch, Walk(root, root, bits[1..], want - 1))
      else Walk(root, c.value, bits[1..], want)
  }

  /** The legacy decode loop is the canonical tree walk on the same tree. */
  lemma {:induction false} WalkAgree(root: HNode, cur: HNode, bits: seq<bool>, want: nat)
    ensures Walk(root, cur, bits, want) == Decode(ToNode(root), ToNode(cur), bits, want)
    decreases |bits|
  {
    if want > 0 && |bits| > 0 {
      var c := if bits[0] then cur.right else cur.left;
      if c.Some? {
        if IsLeaf(c.value) {
          WalkAgree(root, root, bits[1..], want - 1);
        } else {
          WalkAgree(root, c.value, bits[1..], want);
        }
      }
    }
  }

  /** The bytes compressFile writes for a tree, a text length and the packed code bits. */
  function FileOf(root: HNode, size: nat, payload: seq<byte>): seq<byte>
  {
    Serialize(Some(root)) + ([Separator] + WriteLE(size, 8) + payload)
  }

  /** The packed code bits of text under the codes of root. */
  function Payload(root: HNode, text: seq<byte>): seq<byte>
  {
    Pack(Encode(GenerateCodes(Some(root), []), text))
  }

  /**
   * compressFile: an empty text is refused; otherwise count, build the tree
   * (from the leaves in the map's iteration order), derive the codes and
   * write tree, separator, length and packed bits.
   */
  function Compress(text: seq<byte>, order: seq<byte>): (r: Result<seq<byte>, LegacyError>)
    requires |text| <= IntMax && IsOrder(CountChars(text), order)
    ensures r.Failure? <==> |text| == 0
    ensures r.Failure? ==> r.error == EmptyInput
    ensures r.Success? ==> |r.value| >= 10
  {
    if |text| == 0 then Failure(EmptyInput)
    else
      CountCharsCounted(text);
      BuildTreeNone(text, order);
      var root := LegacyTree.BuildTree(CountChars(text), order).value;
      Success(FileOf(root, |text|, Payload(root, text)))
  }

  /** The decode loop over the payload bytes, and the final length check that only warns. */
  function DecodeBody(root: HNode, payload: seq<byte>, size: nat): (r: Result<Container.Decompressed, LegacyError>)
    ensures r.Failure? ==> r.error == NullChild
    ensures r.Success? ==> |r.value.data| <= size
    ensures r.Success? ==> (r.value.sizeMismatch <==> |r.value.data| != size)
  {
    var bits := Unpack(payload);
    WalkAgree(root, root, bits, size);
    DecodeBound(ToNode(root), ToNode(root), bits, size);
    match Walk(root, root, bits, size)
    case None => Failure(NullChild)
    case Some(out) => Success(Container.Decompressed(out, |out| != size))
  }

  /** The stored text length: the eight bytes after the separator at end. */
  function StoredLength(file: seq<byte>, end: nat): nat
    requires end + 9 <= |file|
  {
    ReadLE(file[end + 1..end + 9])
  }

  /**
   * decompressFile: read the tree (null: give up), the separator (missing
   * or not 0xFF: give up) and the length (short: give up), then decode
   * every remaining byte.
   */
  function Decompress(file: seq<byte>): (r: Result<Container.Decompressed, LegacyError>)
    ensures r == Failure(NoTree) <==> Deserialize(file, 0).0.None?
    ensures r.Success? ==> Deserialize(file, 0).1 + 9 <= |file|
    ensures r.Success? ==> |r.value.data| <= StoredLength(file, Deserialize(file, 0).1)
    ensures r.Success? ==> (r.value.sizeMismatch <==> |r.value.data| != StoredLength(file, Deserialize(file, 0).1))
  {
    var tree := Deserialize(file, 0);
    var end := tree.1;
    if tree.0.None? then Failure(NoTree)
    else if end == |file| || file[end] != Separator then Failure(BadSeparator)
    else if |file| - (end + 1) < 8 then Failure(ShortLength)
    else DecodeBody(tree.0.value, file[end + 9..], StoredLength(file, end))
  }

  /** The fields that follow a tree of s bytes. */
  lemma FileFields(s: seq<byte>, size: nat, payload: seq<byte>)
    ensures var file := s + ([Separator] + WriteLE(size, 8) + payload);
      && |file| == |s| + 9 + |payload|
      && file[|s|] == Separator
      && file[|s| + 1..|s| + 9] == WriteLE(size, 8)
      && file[|s| + 9..] == payload
  {
  }

  /** A file whose tree ends at end, followed by the separator, a length and a payload. */
  lemma DecompressFields(file: seq<byte>, t: HNode, end: nat, size: nat, payload: seq<byte>)
    requires Deserialize(file, 0) == (Some(t), end)
    requires end + 9 <= |file| && file[end] == Separator
    requires file[end + 1..end + 9] == WriteLE(size, 8) && file[end + 9..] == payload
    requires size < U64Modulus
    ensures Decompress(file) == DecodeBody(t, payload, size)
  {
    Pow256Values();
    ReadWriteLE(size, 8);
  }

  /** What a compressed file reads as: the stripped tree, then the decode of the payload at the stored length. */
  lemma DecompressFile(root: HNode, size: nat, payload: seq<byte>)
    requires size < U64Modulus
    ensures Strip(Some(root)).Some?
    ensures Decompress(FileOf(root, size, payload)) == DecodeBody(Strip(Some(root)).value, payload, size)
  {
    var s := Serialize(Some(root));
    var rest := [Separator] + WriteLE(size, 8) + payload;
    StripShape(Some(root));
    DeserializeAtStart(Some(root), rest);
    FileFields(s, size, payload);
    DecompressFields(s + rest, Strip(Some(root)).value, |s|, size, payload);
  }

  /** Below a root with a child, the payload of a text whose characters all have codes decodes to the text. */
  lemma DecodeBodyPayload(root: HNode, text: seq<byte>)
    requires ToNode(root).Internal?
    requires forall i :: 0 <= i < |text| ==> text[i] in LeafSet(ToNode(root))
    ensures Strip(Some(root)).Some?
    ensures DecodeBody(Strip(Some(root)).value, Payload(root, text), |text|) == Success(Container.Decompressed(text, false))
  {
    var node := ToNode(root);
    var bits := Encode(GenerateCodes(Some(root), []), text);
    StripShape(Some(root));
    var stripped := Strip(Some(root)).value;
    GenerateCodesAgree(root, []);
    BuildCodesKeys(node, []);
    UnpackPack(bits);
    WalkAgree(stripped, stripped, Unpack(Pack(bits)), |text|);
    DecodeEncode(node, text, Zeros(PadLength(|bits|)));
  }

  /** The tree Compress writes for a text with two distinct characters: it has a child and holds the text's characters. */
  lemma WrittenRoot(text: seq<byte>, order: seq<byte>, i: nat) returns (root: HNode)
    requires |text| <= IntMax && IsOrder(CountChars(text), order)
    requires i < |text| && text[i] != text[0]
    ensures Compress(text, order) == Success(FileOf(root, |text|, Payload(root, text)))
    ensures ToNode(root).Internal?
    ensures forall c :: c in LeafSet(ToNode(root)) <==> c in text
  {
    InternalRoot(text, order, i);
    root := BuildTreeRoot(text, order);
  }

  /** The legacy round trip: a text with two distinct characters comes back unchanged, without a warning. */
  lemma CompressDecompress(text: seq<byte>, order: seq<byte>, i: nat)
    requires |text| <= IntMax && IsOrder(CountChars(text), order)
    requires i < |text| && text[i] != text[0]
    ensures Compress(text, order).Success?
    ensures Decompress(Compress(text, order).value) == Success(Container.Decompressed(text, false))
  {
    var root := WrittenRoot(text, order, i);
    DecompressFile(root, |text|, Payload(root, text));
    DecodeBodyPayload(root, text);
  }

  /**
   * The crash: with a single distinct character the root is a bare leaf,
   * and the first bit of the payload steps from it to a null child.
   */
  lemma LoneCharCrash(text: seq<byte>, order: seq<byte>)
    requires 0 < |text| <= IntMax && IsOrder(CountChars(text), order)
    requires forall i :: 0 <= i < |text| ==> text[i] == text[0]
    ensures Compress(text, order).Success?
    ensures Decompress(Compress(text, order).value) == Failure(NullChild)
  {
    BareLeafRoot(text, order);
    var root := HNode(text[0], |text|, None, None);
    var bits := Encode(GenerateCodes(Some(root), []), text);
    assert |bits| > 0;
    DecompressFile(root, |text|, Payload(root, text));
  }

  /**
   * The builder with a lone leaf wrapped the way the canonical builder
   * does: as the left child of an internal root with no right child.
   */
  function BuildTreeFixed(m: map<byte, int>, order: seq<byte>): (root: Option<HNode>)
    requires Counted(m) && IsOrder(m, order)
    ensures root.None? <==> |order| == 0
    ensures root.Some? ==> !IsLeaf(root.value)
  {
    match LegacyTree.BuildTree(m, order)
    case None => None
    case Some(r) => if IsLeaf(r) then Some(HNode(0, r.freq, Some(r), None)) else Some(r)
  }

  /** compressFile building its tree with BuildTreeFixed. */
  function CompressFixed(text: seq<byte>, order: seq<byte>): (r: Result<seq<byte>, LegacyError>)
    requires |text| <= IntMax && IsOrder(CountChars(text), order)
    ensures r.Failure? <==> |text| == 0
    ensures r.Failure? ==> r.error == EmptyInput
  {
    if |text| == 0 then Failure(EmptyInput)
    else
      CountCharsCounted(text);
      BuildTreeNone(text, order);
      OrderEmpty(text, order);
      var root := BuildTreeFixed(CountChars(text), order).value;
      Success(FileOf(root, |text|, Payload(root, text)))
  }

  /** The tree CompressFixed writes: it has a child and its leaves hold exactly the text's characters. */
  lemma FixedRoot(text: seq<byte>, order: seq<byte>) returns (root: HNode)
    requires 0 < |text| <= IntMax && IsOrder(CountChars(text), order)
    ensures CompressFixed(text, order) == Success(FileOf(root, |text|, Payload(root, text)))
    ensures ToNode(root).Internal?
    ensures forall c :: c in LeafSet(ToNode(root)) <==> c in text
  {
    var built := BuildTreeRoot(text, order);
    OrderEmpty(text, order);
    root := BuildTreeFixed(CountChars(text), order).value;
    assert LeafSet(ToNode(root)) == LeafSet(ToNode(built));
  }

  /** The fixed round trip: every non-empty text comes back unchanged from the unchanged decompressor. */
  lemma CompressFixedDecompress(text: seq<byte>, order: seq<byte>)
    requires 0 < |text| <= IntMax && IsOrder(CountChars(text), order)
    ensures CompressFixed(text, order).Success?
    ensures Decompress(CompressFixed(text, order).value) == Success(Container.Decompressed(text, false))
  {
    var root := FixedRoot(text, order);
    DecompressFile(root, |text|, Payload(root, text));
    DecodeBodyPayload(root, text);
  }
}
