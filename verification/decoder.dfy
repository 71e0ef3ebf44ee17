/**
 * The tree walk that turns bits back into bytes: start at the root, step
 * left on 0 and right on 1, emit a leaf's value and return to the root,
 * and stop once the wanted number of bytes has been produced or the bits
 * run out.
 */
module Decoder {
  import opened Wrappers
  import opened Bits
  import opened HuffmanTree
  import opened Codes

  /** b in front of a decoded result; a failed decode stays failed. */
  function Prepend(b: byte, r: Option<seq<byte>>): (p: Option<seq<byte>>)
    ensures p.Some? <==> r.Some?
    ensures p.Some? ==> |p.value| == |r.value| + 1 && p.value[0] == b && p.value[1..] == r.value
  {
    if r.Some? then Some([b] + r.value) else None
  }

  /**
   * Decodes bits from node cur of the tree rooted at root, producing at most
   * want bytes. None when a step reaches a null child (or starts below a
   * leaf): the source dereferences that null pointer.
   */
  function Decode(root: Node, cur: Node, bits: seq<bool>, want: nat): Option<seq<byte>>
    decreases |bits|
  {
    if want == 0 || |bits| == 0 then Some([])
    else
      match cur
      case Leaf(_, _) => None
      case Internal(_, l, r) =>
        var c := if bits[0] then r else l;
        if c.None? then None
        else if c.value.Leaf? then Prepend(c.value.sym, Decode(root, root, bits[1..], want - 1))
        else Decode(root, c.value, bits[1..], want)
  }

  /** Decoding never produces more than the wanted count. */
  lemma {:induction false} DecodeBound(root: Node, cur: Node, bits: seq<bool>, want: nat)
    ensures Decode(root, cur, bits, want).Some? ==> |Decode(root, cur, bits, want).value| <= want
    decreases |bits|
  {
    if want > 0 && |bits| > 0 && cur.Internal? {
      var c := if bits[0] then cur.right else cur.left;
      if c.Some? {
        if c.value.Leaf? {
          DecodeBound(root, root, bits[1..], want - 1);
        } else {
          DecodeBound(root, c.value, bits[1..], want);
        }
      }
    }
  }

  /** Walking a whole leaf path emits that leaf's value and resumes at the root. */
  lemma {:induction false} DecodeOne(root: Node, cur: Node, path: seq<bool>, tail: seq<bool>, want: nat, b: byte)
    requires want > 0 && |path| > 0 && LeafAt(cur, path, b)
    ensures Decode(root, cur, path + tail, want) == Prepend(b, Decode(root, root, tail, want - 1))
    decreases |path|
  {
    var bits := path + tail;
    assert bits[0] == path[0] && bits[1..] == path[1..] + tail;
    assert cur.Internal?;
    var c := if path[0] then cur.right else cur.left;
    assert c.Some? && Follow(cur, path) == Follow(c.value, path[1..]);
    if |path| == 1 {
      assert c.value.Leaf? && c.value.sym == b;
      assert bits[1..] == tail;
    } else {
      assert c.value.Internal?;
      DecodeOne(root, c.value, path[1..], tail, want, b);
    }
  }

  /** Walking part of a leaf path emits nothing and fails nowhere. */
  lemma {:induction false} DecodeInside(root: Node, cur: Node, path: seq<bool>, q: seq<bool>, want: nat, b: byte)
    requires want > 0 && LeafAt(cur, path, b)
    requires IsPrefix(q, path) && |q| < |path|
    ensures Decode(root, cur, q, want) == Some([])
    decreases |q|
  {
    if |q| > 0 {
      var c := if path[0] then cur.right else cur.left;
      assert q[0] == path[0];
      assert |path| >= 2;
      assert IsPrefix(q[1..], path[1..]);
      DecodeInside(root, c.value, path[1..], q[1..], want, b);
    }
  }

  /** Below an internal root, the code table's encoding of data decodes back to data, whatever follows it. */
  lemma {:induction false} DecodeEncode(root: Node, data: seq<byte>, tail: seq<bool>)
    requires root.Internal?
    requires forall i :: 0 <= i < |data| ==> data[i] in BuildCodes(root, [])
    ensures Decode(root, root, Encode(BuildCodes(root, []), data) + tail, |data|) == Some(data)
  {
    if |data| > 0 {
      var codes := BuildCodes(root, []);
      var c := codes[data[0]];
      var rest := Encode(codes, data[1..]);
      assert Encode(codes, data) + tail == c + (rest + tail);
      RootCodes(root);
      DecodeOne(root, root, c, rest + tail, |data|, data[0]);
      DecodeEncode(root, data[1..], tail);
      assert [data[0]] + data[1..] == data;
    }
  }

  /**
   * A proper prefix of the encoding decodes without failing to a proper
   * prefix of data: at least the last byte is missing.
   */
  lemma {:induction false} DecodeEncodePrefix(root: Node, data: seq<byte>, bits: seq<bool>)
    requires root.Internal?
    requires forall i :: 0 <= i < |data| ==> data[i] in BuildCodes(root, [])
    requires IsPrefix(bits, Encode(BuildCodes(root, []), data))
    requires |bits| < |Encode(BuildCodes(root, []), data)|
    ensures Decode(root, root, bits, |data|).Some?
    ensures |Decode(root, root, bits, |data|).value| < |data|
    ensures Decode(root, root, bits, |data|).value == data[..|Decode(root, root, bits, |data|).value|]
  {
    var codes := BuildCodes(root, []);
    var c := codes[data[0]];
    var rest := Encode(codes, data[1..]);
    assert Encode(codes, data) == c + rest;
    RootCodes(root);
    if |bits| < |c| {
      DecodeInside(root, root, c, bits, |data|, data[0]);
    } else {
      var bits' := bits[|c|..];
      assert bits == c + bits';
      assert IsPrefix(bits', rest);
      DecodeOne(root, root, c, bits', |data|, data[0]);
      DecodeEncodePrefix(root, data[1..], bits');
    }
  }
}
