/**
 * What decompress makes of a file compress wrote: the format's round trip
 * (with the payload read up to the trailer), the byte the decode loop as
 * written loses, and the inputs the readers turn away.
 */
module RoundTrip {
  import opened Wrappers
  import opened Arith
  import opened Bits
  import opened LittleEndian
  import opened PriorityQueue
  import opened HuffmanTree
  import opened Codes
  import opened Decoder
  import opened Container

  /** The table loop's accumulator after the entries for the values below i. */
  function Below(freq: seq<u64>, i: nat): (t: seq<u64>)
    requires |freq| == 256 && i <= 256
    ensures |t| == 256
  {
    if i == 0 then EmptyTable()
    else if freq[i - 1] > 0 then Below(freq, i - 1)[i - 1 := freq[i - 1]]
    else Below(freq, i - 1)
  }

  /** The accumulator holds the counts of the values below i and zero above. */
  lemma {:induction false} BelowAt(freq: seq<u64>, i: nat, b: nat)
    requires |freq| == 256 && i <= 256 && b < 256
    ensures Below(freq, i)[b] == if b < i then freq[b] else 0
  {
    if i > 0 {
      BelowAt(freq, i - 1, b);
    }
  }

  /** After all the entries the accumulator is the table itself. */
  lemma BelowAll(freq: seq<u64>)
    requires |freq| == 256
    ensures Below(freq, 256) == freq
  {
    forall b | 0 <= b < 256
      ensures Below(freq, 256)[b] == freq[b]
    {
      BelowAt(freq, 256, b);
    }
  }

  /** A slice of a slice is a slice. */
  lemma SliceOfSlice(s: seq<byte>, a: nat, b: nat, c: nat, d: nat)
    requires a <= b <= |s| && c <= d <= b - a
    ensures s[a..b][c..d] == s[a + c..a + d]
  {
    forall k | 0 <= k < d - c
      ensures s[a..b][c..d][k] == s[a + c..a + d][k]
    {
    }
  }

  /** One table entry, as written, reads back as its value byte and its count. */
  lemma ReadEntry(file: seq<byte>, pos: nat, freq: seq<u64>, i: nat)
    requires |freq| == 256 && i < 256 && freq[i] > 0
    requires pos + |TableBytes(freq, i)| <= |file|
    requires file[pos..pos + |TableBytes(freq, i)|] == TableBytes(freq, i)
    ensures pos + 9 + |TableBytes(freq, i + 1)| == pos + |TableBytes(freq, i)| <= |file|
    ensures file[pos] == i
    ensures ReadLEAt(file, pos + 1, 8) == (freq[i] as nat, pos + 9)
    ensures file[pos + 9..pos + |TableBytes(freq, i)|] == TableBytes(freq, i + 1)
  {
    var t := TableBytes(freq, i);
    var w := WriteLE(freq[i], 8);
    var rest := TableBytes(freq, i + 1);
    assert t == ([i as byte] + w) + rest;
    assert t[1..9] == w && t[9..] == rest;
    assert file[pos] == t[0];
    SliceOfSlice(file, pos, pos + |t|, 1, 9);
    SliceOfSlice(file, pos, pos + |t|, 9, |t|);
    Pow256Values();
    ReadWriteLE(freq[i], 8);
  }

  /** One entry of the table loop: the value byte, then its count, stored in the accumulator. */
  lemma ParseTableEntry(file: seq<byte>, pos: nat, n: nat, acc: seq<u64>, i: byte, v: u64)
    requires pos < |file| && |acc| == 256 && file[pos] == i && v < U64Max
    requires ReadLEAt(file, pos + 1, 8) == (v as nat, pos + 9)
    ensures ParseTable(file, pos, n + 1, acc) == ParseTable(file, pos + 9, n, acc[i := v])
  {
  }

  /** The table loop reads back the entries the compressor wrote for the values from i on. */
  lemma {:induction false} ParseTableBytes(file: seq<byte>, pos: nat, freq: seq<u64>, i: nat)
    requires |freq| == 256 && i <= 256 && Sum(freq) < U64Max
    requires pos + |TableBytes(freq, i)| <= |file|
    requires file[pos..pos + |TableBytes(freq, i)|] == TableBytes(freq, i)
    ensures ParseTable(file, pos, |LeavesFrom(freq, i)|, Below(freq, i))
            == Success((freq, pos + |TableBytes(freq, i)|))
    decreases 256 - i
  {
    if i == 256 {
      BelowAll(freq);
    } else if freq[i] > 0 {
      ReadEntry(file, pos, freq, i);
      ParseTableBytes(file, pos + 9, freq, i + 1);
      AtMostSum(freq, i);
      ParseTableEntry(file, pos, |LeavesFrom(freq, i + 1)|, Below(freq, i), i as byte, freq[i]);
    } else {
      ParseTableBytes(file, pos, freq, i + 1);
    }
  }

  /** The slices of a six-part concatenation. */
  lemma Parts(a: seq<byte>, b: seq<byte>, c: seq<byte>, d: seq<byte>, e: seq<byte>, f: seq<byte>)
    ensures var s := a + b + c + d + e + f;
      var i := |a| + |b|;
      var j := i + |c|;
      var k := j + |d|;
      && |s| == k + |e| + |f|
      && s[..|a|] == a
      && s[|a|..i] == b
      && s[i..j] == c
      && s[j..k] == d
      && s[k..k + |e|] == e
      && s[|s| - |f|..] == f
  {
    var s := a + b + c + d + e + f;
    var i := |a| + |b|;
    var j := i + |c|;
    var k := j + |d|;
    assert s == (a + b + c + d) + e + f;
    assert s[..k] == a + b + c + d;
    assert s[..j] == a + b + c;
    assert s[..i] == a + b;
  }

  /** The pieces of a compressed file, at their offsets. */
  lemma LayoutParts(size: nat, freq: seq<u64>, bits: seq<bool>)
    requires |freq| == 256
    ensures var file := Layout(size, freq, bits);
      var t := TableBytes(freq, 0);
      var p := Pack(bits);
      && |file| == 14 + |t| + |p| + 8
      && file[..4] == Magic
      && file[4..12] == WriteLE(size, 8)
      && file[12..14] == WriteLE(SymbolCount(freq), 2)
      && file[14..14 + |t|] == t
      && file[14 + |t|..14 + |t| + |p|] == p
      && file[|file| - 8..] == WriteLE(|bits|, 8)
  {
    Parts(Magic, WriteLE(size, 8), WriteLE(SymbolCount(freq), 2), TableBytes(freq, 0), Pack(bits), WriteLE(|bits|, 8));
  }

  /** A field read where an LE write of v < 256^n sits yields v. */
  lemma ReadField(file: seq<byte>, pos: nat, v: nat, n: nat)
    requires pos + n <= |file| && v < Pow256(n)
    requires file[pos..pos + n] == WriteLE(v, n)
    ensures ReadLEAt(file, pos, n) == (v, pos + n)
  {
    ReadWriteLE(v, n);
  }

  /** ParseHeader, step by step, on a file whose fields read as given. */
  lemma ParseHeaderSteps(file: seq<byte>, size: nat, count: nat, freq: seq<u64>, end: nat)
    requires |file| >= 14 && file[..4] == Magic
    requires ReadLEAt(file, 4, 8) == (size, 12) && ReadLEAt(file, 12, 2) == (count, 14)
    requires size < U64Max && count < U64Max
    requires ParseTable(file, 14, count, EmptyTable()) == Success((freq, end))
    requires BuildTree(freq).Some?
    ensures ParseHeader(file) == Success(Header(size, BuildTree(freq).value, end))
  {
  }

  /** The size and symbol-count fields read back as written. */
  lemma HeaderFields(file: seq<byte>, size: nat, count: nat)
    requires 14 <= |file| && size < U64Max && count <= 256
    requires file[4..12] == WriteLE(size, 8)
    requires file[12..14] == WriteLE(count, 2)
    ensures ReadLEAt(file, 4, 8) == (size, 12) && ReadLEAt(file, 12, 2) == (count, 14)
  {
    Pow256Values();
    ReadField(file, 4, size, 8);
    ReadField(file, 12, count, 2);
  }

  /** The table written after the header reads back, from the empty accumulator, as the counts. */
  lemma TableField(file: seq<byte>, freq: seq<u64>)
    requires |freq| == 256 && Sum(freq) < U64Max
    requires 14 + |TableBytes(freq, 0)| <= |file|
    requires file[14..14 + |TableBytes(freq, 0)|] == TableBytes(freq, 0)
    ensures ParseTable(file, 14, SymbolCount(freq), EmptyTable()) == Success((freq, 14 + |TableBytes(freq, 0)|))
  {
    ParseTableBytes(file, 14, freq, 0);
  }

  /** A file with the header and table fields of those counts parses back to the size, the tree built from them and the payload offset. */
  lemma ParseFields(file: seq<byte>, size: nat, freq: seq<u64>)
    requires |freq| == 256 && size < U64Max && Sum(freq) < U64Max && Present(freq) != {}
    requires 14 + |TableBytes(freq, 0)| <= |file|
    requires file[..4] == Magic
    requires file[4..12] == WriteLE(size, 8)
    requires file[12..14] == WriteLE(SymbolCount(freq), 2)
    requires file[14..14 + |TableBytes(freq, 0)|] == TableBytes(freq, 0)
    ensures ParseHeader(file) == Success(Header(size, BuildTree(freq).value, 14 + |TableBytes(freq, 0)|))
  {
    HeaderFields(file, size, SymbolCount(freq));
    TableField(file, freq);
    ParseHeaderSteps(file, size, SymbolCount(freq), freq, 14 + |TableBytes(freq, 0)|);
  }

  /** The payload of a file, as the format defines it and as the loop reads it, when p sits before the trailer. */
  lemma PayloadSlices(file: seq<byte>, start: nat, p: seq<byte>)
    requires |file| == start + |p| + 8
    requires file[start..start + |p|] == p
    ensures PayloadFixed(file, start) == p
    ensures |p| > 0 ==> PayloadAsRead(file, start) == p[..|p| - 1]
  {
    if |p| > 0 {
      assert file[start..|file| - 9] == file[start..start + |p|][..|p| - 1];
    }
  }

  /** The payload and trailer of a file holding the packed bits and then their count. */
  lemma PayloadFields(file: seq<byte>, start: nat, bits: seq<bool>)
    requires |bits| < U64Modulus
    requires |file| == start + |Pack(bits)| + 8
    requires file[start..start + |Pack(bits)|] == Pack(bits)
    requires file[|file| - 8..] == WriteLE(|bits|, 8)
    ensures var p := Pack(bits);
      && TotalBits(file) == |bits|
      && PayloadFixed(file, start) == p
      && (|p| > 0 ==> PayloadAsRead(file, start) == p[..|p| - 1])
  {
    Pow256Values();
    ReadWriteLE(|bits|, 8);
    PayloadSlices(file, start, Pack(bits));
  }

  /** Compress writes the layout of the counts of data and of its code bits. */
  lemma CompressLayout(data: seq<byte>)
    requires 0 < |data| < U64Max
    ensures Present(CountFreq(data)) != {} && Sum(CountFreq(data)) < U64Max
    ensures Compress(data) == Success(Layout(|data|, CountFreq(data), CodeBits(data)))
  {
    FirstPresent(data);
  }

  /** The code bits are the encoding of data under the codes of the tree built from its counts, which cover every input byte. */
  lemma CodeFacts(data: seq<byte>)
    requires 0 < |data| < U64Max
    ensures BuildTree(CountFreq(data)).Some?
    ensures var root := BuildTree(CountFreq(data)).value;
      && root.Internal?
      && CodeBits(data) == Encode(BuildCodes(root, []), data)
      && (forall i :: 0 <= i < |data| ==> data[i] in BuildCodes(root, []))
  {
    var freq := CountFreq(data);
    FirstPresent(data);
    var root := BuildTree(freq).value;
    BuildCodesKeys(root, []);
    PresentOccurring(data);
  }

  /** The code bits of non-empty input are not empty: every code has at least one bit. */
  lemma CodeBitsNonEmpty(data: seq<byte>)
    requires 0 < |data| < U64Max
    ensures |CodeBits(data)| > 0
  {
    CodeFacts(data);
    var root := BuildTree(CountFreq(data)).value;
    var codes := BuildCodes(root, []);
    RootCodes(root);
    assert Encode(codes, data) == codes[data[0]] + Encode(codes, data[1..]);
  }

  /** The bits the loop walks for a payload that is the packed bits, cut at their count: exactly the bits. */
  lemma UnpackPacked(bits: seq<bool>)
    ensures var u := Unpack(Pack(bits));
      (if |bits| < |u| then u[..|bits|] else u) == bits
  {
    UnpackPack(bits);
  }

  /** What the reader finds in a file laid out by compress: its header, its payload and its trailer. */
  lemma LayoutFile(size: nat, freq: seq<u64>, bits: seq<bool>) returns (start: nat)
    requires |freq| == 256 && size < U64Max && Sum(freq) < U64Max && Present(freq) != {}
    requires |bits| < U64Modulus
    ensures var file := Layout(size, freq, bits);
      var p := Pack(bits);
      && ParseHeader(file) == Success(Header(size, BuildTree(freq).value, start))
      && |file| == start + |p| + 8
      && TotalBits(file) == |bits|
      && PayloadFixed(file, start) == p
      && (|p| > 0 ==> PayloadAsRead(file, start) == p[..|p| - 1])
  {
    var file := Layout(size, freq, bits);
    start := 14 + |TableBytes(freq, 0)|;
    LayoutParts(size, freq, bits);
    ParseFields(file, size, freq);
    PayloadFields(file, start, bits);
  }

  /** Where compress puts things: the header the reader parses, the payload and the trailer. */
  lemma CompressedFile(data: seq<byte>) returns (h: Header)
    requires 0 < |data| < U64Max
    requires |CodeBits(data)| < U64Modulus
    ensures Compress(data).Success? && BuildTree(CountFreq(data)).Some?
    ensures var file := Compress(data).value;
      var bits := CodeBits(data);
      && ParseHeader(file) == Success(h)
      && h.originalSize == |data|
      && h.root == BuildTree(CountFreq(data)).value
      && |file| == h.dataStart + |Pack(bits)| + 8
      && TotalBits(file) == |bits|
      && PayloadFixed(file, h.dataStart) == Pack(bits)
      && (|Pack(bits)| > 0 ==> PayloadAsRead(file, h.dataStart) == Pack(bits)[..|Pack(bits)| - 1])
  {
    CompressLayout(data);
    var start := LayoutFile(|data|, CountFreq(data), CodeBits(data));
    h := Header(|data|, BuildTree(CountFreq(data)).value, start);
  }

  /** The tree built from the counts decodes the code bits back to the input. */
  lemma CodeBitsDecode(data: seq<byte>)
    requires 0 < |data| < U64Max
    ensures BuildTree(CountFreq(data)).Some?
    ensures var root := BuildTree(CountFreq(data)).value;
      Decode(root, root, CodeBits(data), |data|) == Some(data)
  {
    CodeFacts(data);
    var root := BuildTree(CountFreq(data)).value;
    DecodeEncode(root, data, []);
    assert CodeBits(data) + [] == CodeBits(data);
  }

  /** DecompressFixed on a file whose header parses and whose payload holds the packed bits of data's encoding. */
  lemma DecompressFixedFile(file: seq<byte>, h: Header, bits: seq<bool>, data: seq<byte>)
    requires ParseHeader(file) == Success(h) && h.originalSize == |data|
    requires h.dataStart + 8 <= |file|
    requires PayloadFixed(file, h.dataStart) == Pack(bits) && TotalBits(file) == |bits|
    requires Decode(h.root, h.root, bits, |data|) == Some(data)
    ensures DecompressFixed(file) == Success(Decompressed(data, false))
  {
    UnpackPacked(bits);
  }

  /**
   * The format's round trip: with the payload read up to the trailer, every
   * non-empty input comes back unchanged and without the size warning.
   */
  lemma CompressDecompressFixed(data: seq<byte>)
    requires 0 < |data| < U64Max
    requires |CodeBits(data)| < U64Modulus
    ensures Compress(data).Success?
    ensures DecompressFixed(Compress(data).value) == Success(Decompressed(data, false))
  {
    var h := CompressedFile(data);
    CodeBitsDecode(data);
    DecompressFixedFile(Compress(data).value, h, CodeBits(data), data);
  }

  /** Unpacking all but the last packed byte yields a proper prefix of the bits. */
  lemma UnpackAllButLast(bits: seq<bool>)
    requires |bits| > 0
    ensures |Pack(bits)| > 0
    ensures var u := Unpack(Pack(bits)[..|Pack(bits)| - 1]);
      |u| < |bits| && IsPrefix(u, bits)
  {
    var p := Pack(bits);
    var init := p[..|p| - 1];
    assert p == init + [p[|p| - 1]];
    UnpackAppend(init, [p[|p| - 1]]);
    UnpackPack(bits);
    var u := Unpack(init);
    assert u == Unpack(p)[..|u|];
    assert Unpack(p)[..|u|] == bits[..|u|];
  }

  /** Decompress as written on a file whose decoded payload bits u fall short of the bit count. */
  lemma DecompressShortFile(file: seq<byte>, h: Header, u: seq<bool>, data: seq<byte>)
    requires ParseHeader(file) == Success(h) && h.originalSize == |data|
    requires Unpack(PayloadAsRead(file, h.dataStart)) == u && |u| < TotalBits(file)
    requires Decode(h.root, h.root, u, |data|).Some?
    requires |Decode(h.root, h.root, u, |data|).value| < |data|
    ensures Decompress(file) == Success(Decompressed(Decode(h.root, h.root, u, |data|).value, true))
  {
  }

  /**
   * As written, decompress drops the last payload byte, so no non-empty
   * input survives: the output is a proper prefix of the input, and the
   * size warning is printed.
   */
  lemma CompressDecompressLosesTail(data: seq<byte>)
    requires 0 < |data| < U64Max
    requires |CodeBits(data)| < U64Modulus
    ensures Compress(data).Success?
    ensures Decompress(Compress(data).value).Success?
    ensures var out := Decompress(Compress(data).value).value;
      && |out.data| < |data|
      && out.data == data[..|out.data|]
      && out.sizeMismatch
  {
    var h := CompressedFile(data);
    CodeFacts(data);
    CodeBitsNonEmpty(data);
    var bits := CodeBits(data);
    var file := Compress(data).value;
    var p := Pack(bits);
    UnpackAllButLast(bits);
    var u := Unpack(p[..|p| - 1]);
    DecodeEncodePrefix(h.root, data, u);
    DecompressShortFile(file, h, u, data);
  }

  /**
   * An input of 2^64 - 1 bytes is written with a size field of eight 0xFF
   * bytes, which the reader cannot tell from a stream that ran out.
   */
  lemma MaxSizeRejected(data: seq<byte>)
    requires |data| == U64Max
    ensures Compress(data).Success?
    ensures Decompress(Compress(data).value) == Failure(CorruptHeader)
    ensures DecompressFixed(Compress(data).value) == Failure(CorruptHeader)
  {
    var freq := CountFreq(data);
    var file := Layout(|data|, freq, CodeBits(data));
    LayoutParts(|data|, freq, CodeBits(data));
    Pow256Values();
    ReadWriteLE(|data|, 8);
    assert ReadLEAt(file, 4, 8).0 == U64Max;
  }

  /** A file that stops inside the header is corrupt. */
  lemma ShortHeaderRejected(file: seq<byte>)
    requires 4 <= |file| < 14 && file[..4] == Magic
    ensures Decompress(file) == Failure(CorruptHeader)
    ensures DecompressFixed(file) == Failure(CorruptHeader)
  {
  }

  /** The empty table has no present value. */
  lemma EmptyTableAbsent()
    ensures Present(EmptyTable()) == {}
  {
    PresentMember(EmptyTable());
    assert forall b: byte :: b !in Present(EmptyTable()) by {
      forall b: byte ensures b !in Present(EmptyTable()) {
        assert EmptyTable()[b] == 0;
      }
    }
  }

  /** A header announcing no table entries leaves no symbols. */
  lemma EmptyTableRejected(size: nat, rest: seq<byte>)
    requires size < U64Max
    ensures Decompress(Magic + WriteLE(size, 8) + [0, 0] + rest) == Failure(NoSymbols)
    ensures DecompressFixed(Magic + WriteLE(size, 8) + [0, 0] + rest) == Failure(NoSymbols)
  {
    var file := Magic + WriteLE(size, 8) + [0, 0] + rest;
    assert file[..4] == Magic;
    assert file[4..12] == WriteLE(size, 8);
    assert file[12..14] == WriteLE(0, 2);
    Pow256Values();
    ReadField(file, 4, size, 8);
    ReadField(file, 12, 0, 2);
    EmptyTableAbsent();
    assert ParseTable(file, 14, 0, EmptyTable()) == Success((EmptyTable(), 14));
  }

  /** A symbol count announcing more entries than the bytes after the header can hold is rejected. */
  lemma TableCutOffRejected(file: seq<byte>)
    requires |file| >= 14 && file[..4] == Magic && ReadLE(file[4..12]) != U64Max
    requires 14 + 9 * ReadLE(file[12..14]) > |file|
    ensures Decompress(file).Failure? && DecompressFixed(file).Failure?
    ensures Decompress(file).error == TruncatedTable || Decompress(file).error == CorruptTable
    ensures DecompressFixed(file).error == Decompress(file).error
  {
    Pow256Values();
    assert ReadLEAt(file, 4, 8) == (ReadLE(file[4..12]), 12);
    assert ReadLEAt(file, 12, 2) == (ReadLE(file[12..14]), 14);
    TruncatedTableRejected(file, 14, ReadLE(file[12..14]), EmptyTable());
  }

  /** A first table entry whose count bytes are all 0xFF is rejected as corrupt. */
  lemma AllOnesCountFileRejected(file: seq<byte>)
    requires |file| >= 23 && file[..4] == Magic && ReadLE(file[4..12]) != U64Max
    requires ReadLE(file[12..14]) > 0
    requires forall i :: 15 <= i < 23 ==> file[i] == 255
    ensures Decompress(file) == Failure(CorruptTable)
    ensures DecompressFixed(file) == Failure(CorruptTable)
  {
    Pow256Values();
    assert ReadLEAt(file, 4, 8) == (ReadLE(file[4..12]), 12);
    assert ReadLEAt(file, 12, 2) == (ReadLE(file[12..14]), 14);
    AllOnesCountRejected(file, 14, ReadLE(file[12..14]), EmptyTable());
  }

  /** A lone symbol sits on the left of the wrapping node, so its code is the single bit 0. */
  lemma LoneSymbolCode(freq: seq<u64>, s: byte)
    requires |freq| == 256 && Present(freq) == {s}
    ensures BuildTree(freq).Some?
    ensures BuildCodes(BuildTree(freq).value, []) == map[s := [false]]
  {
    assert s in Present(freq);
    var root := BuildTree(freq).value;
    assert root == Internal(freq[s], Some(Leaf(freq[s], s)), None);
    assert BuildCodes(root, []) == BuildCodes(Leaf(freq[s], s), [] + [false]) + map[];
    assert [] + [false] == [false];
  }

  /**
   * Under a lone-symbol tree a 1 bit steps to the missing right child: the
   * walk dereferences null, whatever bits follow.
   */
  lemma LoneSymbolStrayBit(freq: seq<u64>, s: byte, bits: seq<bool>, want: nat)
    requires |freq| == 256 && Present(freq) == {s}
    requires want > 0 && |bits| > 0 && bits[0]
    ensures BuildTree(freq).Some?
    ensures Decode(BuildTree(freq).value, BuildTree(freq).value, bits, want) == None
  {
    assert s in Present(freq);
  }
}
