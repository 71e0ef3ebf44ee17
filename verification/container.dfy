/**
 * The canonical codec's file format and its two whole-file operations.
 *
 * A compressed file is "HUB1", the original size as LE64, the number of
 * distinct byte values as LE16, one entry per present value in ascending
 * order (the value, then its count as LE64), the MSB-first packed code bits
 * with the last byte zero-padded, and the number of code bits as LE64.
 */
module Container {
  import opened Wrappers
  import opened Arith
  import opened Bits
  import opened LittleEndian
  import opened PriorityQueue
  import opened HuffmanTree
  import opened Codes
  import opened Decoder

  /** The reasons compress and decompress give up, and the one crash the decoder can run into. */
  datatype Error =
    | EmptyInput      // compress: the input file is empty
    | BadMagic        // decompress: fewer than four bytes, or not "HUB1"
    | CorruptHeader   // decompress: the size or the symbol count read as UINT64_MAX
    | TruncatedTable  // decompress: the stream ended where a table entry's value byte was due
    | CorruptTable    // decompress: an entry's count read as UINT64_MAX
    | NoSymbols       // decompress: the table has no nonzero count
    | NullChild       // decompress: the walk stepped to a null child and dereferenced it

  /** A successful decompression: the bytes written, and whether the size warning was printed. */
  datatype Decompressed = Decompressed(data: seq<byte>, sizeMismatch: bool)

  /** "HUB1". */
  const Magic: seq<byte> := [72, 85, 66, 49]

  /** The table with every count zero. */
  function EmptyTable(): (t: seq<u64>)
    ensures |t| == 256
  {
    seq(256, _ => 0)
  }

  /** `freq[b]++` for each byte of the input, in order. */
  function CountFreq(data: seq<byte>): (freq: seq<u64>)
    requires |data| < U64Modulus
    ensures |freq| == 256 && Sum(freq) == |data|
  {
    if |data| == 0 then
      EmptyTableSum();
      EmptyTable()
    else
      var last := data[|data| - 1];
      var f := CountFreq(data[..|data| - 1]);
      AtMostSum(f, last);
      SumUpdate(f, last, f[last] + 1);
      f[last := f[last] + 1]
  }

  /** A table of zeros sums to zero. */
  lemma {:induction false} ZeroSum(s: seq<nat>)
    requires forall i :: 0 <= i < |s| ==> s[i] == 0
    ensures Sum(s) == 0
  {
    if |s| > 0 {
      ZeroSum(s[1..]);
    }
  }

  /** The empty table counts nothing. */
  lemma EmptyTableSum()
    ensures Sum(EmptyTable()) == 0
  {
    ZeroSum(EmptyTable());
  }

  /** Each count is the number of occurrences of its value. */
  lemma {:induction false} CountFreqCounts(data: seq<byte>)
    requires |data| < U64Modulus
    ensures forall b: byte :: CountFreq(data)[b] == multiset(data)[b]
  {
    if |data| > 0 {
      var init := data[..|data| - 1];
      CountFreqCounts(init);
      assert data == init + [data[|data| - 1]];
    }
  }

  /** The present values are exactly the values that occur in the input. */
  lemma PresentOccurring(data: seq<byte>)
    requires |data| < U64Modulus
    ensures forall b: byte :: b in Present(CountFreq(data)) <==> b in data
  {
    CountFreqCounts(data);
    PresentMember(CountFreq(data));
  }

  /** The first input byte has a nonzero count, so the table is not empty. */
  lemma FirstPresent(data: seq<byte>)
    requires 0 < |data| < U64Modulus
    ensures data[0] in Present(CountFreq(data))
  {
    PresentOccurring(data);
  }

  /**
   * The table entries from value i on: each present value, then its count
   * as LE64, in ascending value order.
   */
  function TableBytes(freq: seq<u64>, i: nat): seq<byte>
    requires |freq| == 256 && i <= 256
    decreases 256 - i
  {
    if i == 256 then []
    else if freq[i] > 0 then [i as byte] + WriteLE(freq[i], 8) + TableBytes(freq, i + 1)
    else TableBytes(freq, i + 1)
  }

  /** Nine bytes per present value. */
  lemma {:induction false} TableBytesLength(freq: seq<u64>, i: nat)
    requires |freq| == 256 && i <= 256
    ensures |TableBytes(freq, i)| == 9 * |LeavesFrom(freq, i)|
    decreases 256 - i
  {
    if i < 256 {
      TableBytesLength(freq, i + 1);
    }
  }

  /** The bytes of a file the compressor writes for its input, bits and table. */
  function Layout(size: nat, freq: seq<u64>, bits: seq<bool>): seq<byte>
    requires |freq| == 256
  {
    Magic + WriteLE(size, 8) + WriteLE(SymbolCount(freq), 2) + TableBytes(freq, 0) + Pack(bits) + WriteLE(|bits|, 8)
  }

  /** The code bits compress writes for data: every byte's code, in input order. */
  function CodeBits(data: seq<byte>): (bits: seq<bool>)
    requires 0 < |data| < U64Modulus
  {
    FirstPresent(data);
    Encode(BuildCodes(BuildTree(CountFreq(data)).value, []), data)
  }

  /**
   * compress: empty input is refused; otherwise count, build the tree, derive
   * the codes and write header, table, packed bits and bit count.
   */
  function Compress(data: seq<byte>): (r: Result<seq<byte>, Error>)
    requires |data| < U64Modulus
    ensures r.Failure? <==> |data| == 0
    ensures r.Failure? ==> r.error == EmptyInput
    ensures r.Success? ==> |r.value| >= 22 && r.value[..4] == Magic
  {
    if |data| == 0 then Failure(EmptyInput)
    else Success(Layout(|data|, CountFreq(data), CodeBits(data)))
  }

  /** The compressed size: 22 bytes of header and trailer, nine per distinct value, and the packed bits. */
  lemma CompressSize(data: seq<byte>)
    requires 0 < |data| < U64Modulus
    ensures Compress(data).Success?
    ensures |Compress(data).value| == 22 + 9 * SymbolCount(CountFreq(data)) + |Pack(CodeBits(data))|
  {
    TableBytesLength(CountFreq(data), 0);
  }

  /** What the header and table give the decoder: the size, the rebuilt tree and where the payload starts. */
  datatype Header = Header(originalSize: nat, root: Node, dataStart: nat)

  /**
   * The table loop: count entries, each a value byte (EOF: truncated) and an
   * LE64 count (UINT64_MAX: corrupt), later entries overwriting earlier ones.
   */
  function ParseTable(file: seq<byte>, pos: nat, count: nat, freq: seq<u64>): (r: Result<(seq<u64>, nat), Error>)
    requires pos <= |file| && |freq| == 256
    ensures r.Success? ==> |r.value.0| == 256 && pos <= r.value.1 <= |file|
    ensures r.Failure? ==> r.error == TruncatedTable || r.error == CorruptTable
    decreases count
  {
    if count == 0 then Success((freq, pos))
    else if pos == |file| then Failure(TruncatedTable)
    else
      var entry := ReadLEAt(file, pos + 1, 8);
      if entry.0 == U64Max then Failure(CorruptTable)
      else
        Pow256Values();
        ParseTable(file, entry.1, count - 1, freq[file[pos] := entry.0])
  }

  /** A table announced with more entries than the bytes left can hold is rejected. */
  lemma {:induction false} TruncatedTableRejected(file: seq<byte>, pos: nat, count: nat, freq: seq<u64>)
    requires pos <= |file| && |freq| == 256
    requires pos + 9 * count > |file|
    ensures ParseTable(file, pos, count, freq).Failure?
    decreases count
  {
    if count > 0 && pos < |file| {
      var entry := ReadLEAt(file, pos + 1, 8);
      Pow256Values();
      if entry.0 != U64Max {
        TruncatedTableRejected(file, entry.1, count - 1, freq[file[pos] := entry.0]);
      }
    }
  }

  /** An entry whose eight count bytes are all 0xFF reads as the sentinel: the table is corrupt. */
  lemma AllOnesCountRejected(file: seq<byte>, pos: nat, count: nat, freq: seq<u64>)
    requires pos + 9 <= |file| && |freq| == 256 && count > 0
    requires forall i :: pos + 1 <= i < pos + 9 ==> file[i] == 255
    ensures ParseTable(file, pos, count, freq) == Failure(CorruptTable)
  {
    AllOnesLookLikeEndOfStream(file, pos + 1);
  }

  /**
   * decompress up to the payload: check the magic, read size and count
   * (UINT64_MAX from either is corrupt), read the table and rebuild the
   * tree as compress built it.
   */
  function ParseHeader(file: seq<byte>): (r: Result<Header, Error>)
    ensures r.Failure? ==> r.error != NullChild && r.error != EmptyInput
    ensures r.Failure? && r.error == BadMagic <==> |file| < 4 || file[..4] != Magic
    ensures r.Success? ==> 14 <= r.value.dataStart <= |file| && r.value.root.Internal?
    ensures r.Success? ==> r.value.originalSize == ReadLE(file[4..12]) < U64Max
  {
    if |file| < 4 || file[..4] != Magic then Failure(BadMagic)
    else
      var size := ReadLEAt(file, 4, 8);
      var count := ReadLEAt(file, size.1, 2);
      if size.0 == U64Max || count.0 == U64Max then Failure(CorruptHeader)
      else
        var table := ParseTable(file, count.1, count.0, EmptyTable());
        if table.Failure? then Failure(table.error)
        else
          var root := BuildTree(table.value.0);
          if root.None? then Failure(NoSymbols)
          else Success(Header(size.0, root.value, table.value.1))
  }

  /** The trailer: the last eight bytes as LE64, the number of valid code bits. */
  function TotalBits(file: seq<byte>): nat
    requires |file| >= 8
  {
    ReadLE(file[|file| - 8..])
  }

  /**
   * The decode loop over the payload bytes it reads: their bits, MSB first,
   * cut at the trailer's bit count, walked until the original size is reached.
   */
  function DecodePayload(h: Header, payload: seq<byte>, totalBits: nat): (r: Result<Decompressed, Error>)
    ensures r.Failure? ==> r.error == NullChild
    ensures r.Success? ==> |r.value.data| <= h.originalSize
    ensures r.Success? ==> (r.value.sizeMismatch <==> |r.value.data| != h.originalSize)
  {
    var bits := Unpack(payload);
    var used := if totalBits < |bits| then bits[..totalBits] else bits;
    DecodeBound(h.root, h.root, used, h.originalSize);
    match Decode(h.root, h.root, used, h.originalSize)
    case None => Failure(NullChild)
    case Some(out) => Success(Decompressed(out, |out| != h.originalSize))
  }

  /**
   * The payload bytes the decode loop actually decodes: it breaks as soon as
   * the position after the byte just read is within eight bytes of the end,
   * so the byte right before the trailer is read but never decoded.
   */
  function PayloadAsRead(file: seq<byte>, dataStart: nat): (p: seq<byte>)
    requires dataStart <= |file|
    ensures dataStart + 9 <= |file| ==> |p| == |file| - 9 - dataStart
    ensures dataStart + 9 > |file| ==> p == []
  {
    if dataStart + 9 <= |file| then file[dataStart..|file| - 9] else []
  }

  /** The payload the format defines: everything between the table and the trailer. */
  function PayloadFixed(file: seq<byte>, dataStart: nat): (p: seq<byte>)
    requires dataStart <= |file|
    ensures dataStart + 8 <= |file| ==> |p| == |file| - 8 - dataStart
    ensures dataStart + 8 > |file| ==> p == []
  {
    if dataStart + 8 <= |file| then file[dataStart..|file| - 8] else []
  }

  /** decompress as written. */
  function Decompress(file: seq<byte>): (r: Result<Decompressed, Error>)
    ensures r == Failure(BadMagic) <==> |file| < 4 || file[..4] != Magic
    ensures r.Success? ==> |file| >= 14
    ensures r.Success? ==> |r.value.data| <= ReadLE(file[4..12])
    ensures r.Success? ==> (r.value.sizeMismatch <==> |r.value.data| != ReadLE(file[4..12]))
  {
    match ParseHeader(file)
    case Failure(e) => Failure(e)
    case Success(h) => DecodePayload(h, PayloadAsRead(file, h.dataStart), TotalBits(file))
  }

  /** decompress with the loop decoding every byte before the trailer. */
  function DecompressFixed(file: seq<byte>): (r: Result<Decompressed, Error>)
    ensures r == Failure(BadMagic) <==> |file| < 4 || file[..4] != Magic
    ensures r.Success? ==> |file| >= 14
    ensures r.Success? ==> |r.value.data| <= ReadLE(file[4..12])
    ensures r.Success? ==> (r.value.sizeMismatch <==> |r.value.data| != ReadLE(file[4..12]))
  {
    match ParseHeader(file)
    case Failure(e) => Failure(e)
    case Success(h) => DecodePayload(h, PayloadFixed(file, h.dataStart), TotalBits(file))
  }
}
