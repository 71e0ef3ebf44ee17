/**
 * The code table of the canonical codec: each leaf's code is the path from
 * the root to it, 0 for a left step and 1 for a right step, and the input is
 * encoded by concatenating the codes of its bytes.
 */
module Codes {
  import opened Wrappers
  import opened Bits
  import opened HuffmanTree

  /**
   * The subtree reached from n by following path (false = left, true =
   * right), or None when the path leaves the tree through a null child or
   * tries to go below a leaf.
   */
  function Follow(n: Node, path: seq<bool>): Option<Node>
    decreases |path|
  {
    if |path| == 0 then Some(n)
    else
      match n
      case Leaf(_, _) => None
      case Internal(_, l, r) =>
        var c := if path[0] then r else l;
        if c.None? then None else Follow(c.value, path[1..])
  }

  /** Following path from n ends at a leaf holding b. */
  predicate LeafAt(n: Node, path: seq<bool>, b: byte)
  {
    Follow(n, path).Some? && Follow(n, path).value.Leaf? && Follow(n, path).value.sym == b
  }

  /** Following p and then q is following p + q. */
  lemma {:induction false} FollowAppend(n: Node, p: seq<bool>, q: seq<bool>)
    ensures Follow(n, p + q) == (if Follow(n, p).Some? then Follow(Follow(n, p).value, q) else None)
    decreases |p|
  {
    if |p| == 0 {
      assert p + q == q;
    } else if n.Internal? {
      var c := if p[0] then n.right else n.left;
      assert (p + q)[0] == p[0];
      assert (p + q)[1..] == p[1..] + q;
      if c.Some? {
        FollowAppend(c.value, p[1..], q);
      }
    }
  }

  /**
   * buildCodes(node, code): a leaf records the code accumulated on the way
   * down ("0" when that is empty, i.e. the root itself is a leaf); an internal
   * node recurses left with a 0 appended and then right with a 1 appended,
   * so a value found on both sides keeps the right-hand code; a null child
   * adds nothing.
   */
  function BuildCodes(n: Node, code: seq<bool>): map<byte, seq<bool>>
  {
    match n
    case Leaf(_, s) => map[s := if code == [] then [false] else code]
    case Internal(_, l, r) =>
      (if l.Some? then BuildCodes(l.value, code + [false]) else map[])
      + (if r.Some? then BuildCodes(r.value, code + [true]) else map[])
  }

  /** p is a prefix of s. */
  predicate IsPrefix(p: seq<bool>, s: seq<bool>)
  {
    |p| <= |s| && s[..|p|] == p
  }

  /** No code is a prefix of another value's code. */
  predicate PrefixFree(codes: map<byte, seq<bool>>)
  {
    forall a, b :: a in codes && b in codes && a != b ==> !IsPrefix(codes[a], codes[b])
  }

  /** The table has an entry for exactly the values held by the leaves. */
  lemma {:induction false} BuildCodesKeys(n: Node, code: seq<bool>)
    ensures BuildCodes(n, code).Keys == LeafSet(n)
  {
    match n
    case Leaf(_, _) =>
    case Internal(_, l, r) =>
      if l.Some? {
        BuildCodesKeys(l.value, code + [false]);
      }
      if r.Some? {
        BuildCodesKeys(r.value, code + [true]);
      }
  }

  /** A path to a leaf below one child of n, behind that child's step, is a path from n. */
  lemma StepDown(n: Node, code: seq<bool>, side: bool, c: seq<bool>, b: byte)
    requires n.Internal? && (if side then n.right else n.left).Some?
    requires IsPrefix(code + [side], c)
    requires LeafAt((if side then n.right else n.left).value, c[|code| + 1..], b)
    ensures IsPrefix(code, c) && LeafAt(n, c[|code|..], b)
  {
    assert c[..|code| + 1] == code + [side];
    assert c[..|code|] == code;
    var rest := c[|code|..];
    assert rest[0] == side && rest[1..] == c[|code| + 1..];
  }

  /**
   * Every code extends the code accumulated so far and, below an internal
   * node or a non-empty prefix, its remaining bits lead from n to a leaf
   * holding that value.
   */
  lemma {:induction false} CodesReachLeaves(n: Node, code: seq<bool>)
    ensures forall b :: b in BuildCodes(n, code) ==> IsPrefix(code, BuildCodes(n, code)[b])
    ensures n.Internal? || code != [] ==>
              forall b :: b in BuildCodes(n, code) ==>
                IsPrefix(code, BuildCodes(n, code)[b]) && LeafAt(n, BuildCodes(n, code)[b][|code|..], b)
  {
    var codes := BuildCodes(n, code);
    match n
    case Leaf(_, s) =>
      assert codes.Keys == {s};
      if code != [] {
        assert codes[s][|code|..] == [];
      }
    case Internal(_, l, r) =>
      var lc := if l.Some? then BuildCodes(l.value, code + [false]) else map[];
      var rc := if r.Some? then BuildCodes(r.value, code + [true]) else map[];
      assert codes == lc + rc;
      forall b | b in codes
        ensures IsPrefix(code, codes[b]) && LeafAt(n, codes[b][|code|..], b)
      {
        if b in rc {
          CodesReachLeaves(r.value, code + [true]);
          StepDown(n, code, true, rc[b], b);
        } else {
          CodesReachLeaves(l.value, code + [false]);
          StepDown(n, code, false, lc[b], b);
        }
      }
  }

  /** Below an internal root every code is a non-empty path to its value's leaf. */
  lemma RootCodes(root: Node)
    requires root.Internal?
    ensures forall b :: b in BuildCodes(root, []) ==>
              |BuildCodes(root, [])[b]| > 0 && LeafAt(root, BuildCodes(root, [])[b], b)
  {
    CodesReachLeaves(root, []);
    forall b | b in BuildCodes(root, [])
      ensures |BuildCodes(root, [])[b]| > 0 && LeafAt(root, BuildCodes(root, [])[b], b)
    {
      var c := BuildCodes(root, [])[b];
      assert c[0..] == c;
    }
  }

  /** Two leaf paths, one a prefix of the other, are the same path to the same leaf. */
  lemma LeafPathsNotNested(n: Node, p: seq<bool>, q: seq<bool>, a: byte, b: byte)
    requires LeafAt(n, p, a) && LeafAt(n, q, b) && IsPrefix(p, q)
    ensures p == q && a == b
  {
    var rest := q[|p|..];
    assert q == p + rest;
    FollowAppend(n, p, rest);
  }

  /** The table built from any root is prefix-free. */
  lemma CodesPrefixFree(root: Node)
    ensures PrefixFree(BuildCodes(root, []))
  {
    var codes := BuildCodes(root, []);
    if root.Internal? {
      RootCodes(root);
      forall a, b | a in codes && b in codes && a != b
        ensures !IsPrefix(codes[a], codes[b])
      {
        if IsPrefix(codes[a], codes[b]) {
          LeafPathsNotNested(root, codes[a], codes[b], a, b);
        }
      }
    } else {
      assert codes.Keys == {root.sym};
    }
  }

  /** codes[b] in the source's table of strings: the empty string when b has no code. */
  function CodeOf(codes: map<byte, seq<bool>>, b: byte): seq<bool>
  {
    if b in codes then codes[b] else []
  }

  /** The encoded bit string: the codes of the input's bytes, in order. */
  function Encode(codes: map<byte, seq<bool>>, data: seq<byte>): seq<bool>
  {
    if |data| == 0 then [] else CodeOf(codes, data[0]) + Encode(codes, data[1..])
  }

  /** Encoding splits over concatenation of the input. */
  lemma {:induction false} EncodeAppend(codes: map<byte, seq<bool>>, a: seq<byte>, b: seq<byte>)
    ensures Encode(codes, a + b) == Encode(codes, a) + Encode(codes, b)
  {
    if |a| > 0 {
      assert (a + b)[0] == a[0];
      assert (a + b)[1..] == a[1..] + b;
      EncodeAppend(codes, a[1..], b);
    } else {
      assert a + b == b;
    }
  }
}
