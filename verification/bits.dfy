/**
 * Bytes, bit strings and the MSB-first bit packing shared by both codecs.
 * A code string of '0'/'1' characters is a seq<bool> (true = '1').
 */
module Bits {
  import opened Arith

  /** An unsigned 8-bit value. */
  type byte = x: int | 0 <= x < 256

  /** k zero bits: the padding appended to the final partial byte. */
  function Zeros(k: nat): (z: seq<bool>)
    ensures |z| == k
    ensures forall i :: 0 <= i < k ==> !z[i]
  {
    seq(k, _ => false)
  }

  /** The n low bits of x, most significant first. */
  function ToBits(x: nat, n: nat): (r: seq<bool>)
    ensures |r| == n
  {
    if n == 0 then [] else ToBits(x / 2, n - 1) + [x % 2 == 1]
  }

  /** The number whose binary digits, most significant first, are b. */
  function FromBits(b: seq<bool>): (r: nat)
    ensures r < Pow2(|b|)
  {
    if |b| == 0 then 0
    else 2 * FromBits(b[..|b| - 1]) + (if b[|b| - 1] then 1 else 0)
  }

  /** Eight bits, most significant first, as one byte. */
  function ByteOfBits(b: seq<bool>): (r: byte)
    requires |b| == 8
    ensures r == FromBits(b)
  {
    assert Pow2(8) == 256;
    FromBits(b)
  }

  /** Reading back the bits of a number in range gives the number. */
  lemma {:induction false} FromToBits(x: nat, n: nat)
    requires x < Pow2(n)
    ensures FromBits(ToBits(x, n)) == x
  {
    if n > 0 {
      var t := ToBits(x, n);
      var h := x / 2;
      assert h < Pow2(n - 1) by {
        QuotientBelow(x, 2, Pow2(n - 1));
      }
      FromToBits(h, n - 1);
      assert FromBits(t) == 2 * h + x % 2 by {
        assert t[..n - 1] == ToBits(h, n - 1);
      }
    }
  }

  /** Writing out the value of a bit string gives the bit string. */
  lemma {:induction false} ToFromBits(b: seq<bool>)
    ensures ToBits(FromBits(b), |b|) == b
  {
    if |b| > 0 {
      var init := b[..|b| - 1];
      var last := b[|b| - 1];
      var v := FromBits(b);
      DivUnique(v, 2, FromBits(init), if last then 1 else 0);
      ToFromBits(init);
      assert ToBits(v, |b|) == ToBits(FromBits(init), |init|) + [last];
      assert b == init + [last];
    }
  }

  /** Bit j of ToBits(x, n) is `(x >> (n-1-j)) & 1`: the string is most significant first. */
  lemma {:induction false} BitAt(x: nat, n: nat, j: nat)
    requires j < n
    ensures ToBits(x, n)[j] == ((x / Pow2(n - 1 - j)) % 2 == 1)
  {
    if j < n - 1 {
      BitAt(x / 2, n - 1, j);
      DivDiv(x, 2, Pow2(n - 2 - j));
    }
  }

  /** Appending k zero bits is a left shift by k. */
  lemma {:induction false} FromBitsZeros(b: seq<bool>, k: nat)
    ensures FromBits(b + Zeros(k)) == FromBits(b) * Pow2(k)
  {
    if k > 0 {
      var c := b + Zeros(k);
      var c' := b + Zeros(k - 1);
      assert c == c' + [false];
      FromBitsSnoc(c', false);
      FromBitsZeros(b, k - 1);
      MulDouble(FromBits(b), Pow2(k - 1));
    } else {
      assert b + Zeros(k) == b;
    }
  }

  /** Appending one bit doubles the value and adds the bit: `buffer <<= 1; buffer |= bit`. */
  lemma FromBitsSnoc(b: seq<bool>, bit: bool)
    ensures FromBits(b + [bit]) == 2 * FromBits(b) + (if bit then 1 else 0)
  {
    assert (b + [bit])[..|b|] == b;
  }

  /**
   * Groups bits into bytes, most significant bit first; a final partial group
   * is padded with zero bits on the low side.
   */
  function Pack(bits: seq<bool>): (r: seq<byte>)
    ensures |bits| <= 8 * |r| < |bits| + 8
    decreases |bits|
  {
    if |bits| == 0 then []
    else if |bits| < 8 then [ByteOfBits(bits + Zeros(8 - |bits|))]
    else [ByteOfBits(bits[..8])] + Pack(bits[8..])
  }

  /** The bits of each byte, most significant first, in byte order. */
  function Unpack(bytes: seq<byte>): (r: seq<bool>)
    ensures |r| == 8 * |bytes|
  {
    if |bytes| == 0 then [] else ToBits(bytes[0], 8) + Unpack(bytes[1..])
  }

  /** Number of zero bits that pad n bits up to whole bytes. */
  function PadLength(n: nat): (p: nat)
    ensures p < 8 && (n + p) % 8 == 0
  {
    if n == 0 then 0 else if n < 8 then 8 - n else PadLength(n - 8)
  }

  /** A final partial group unpacks to its bits and the padding. */
  lemma UnpackPackShort(bits: seq<bool>)
    requires 0 < |bits| < 8
    ensures Unpack(Pack(bits)) == bits + Zeros(PadLength(|bits|))
  {
    var full := bits + Zeros(8 - |bits|);
    ToFromBits(full);
    assert Pack(bits) == [ByteOfBits(full)];
    assert Unpack([ByteOfBits(full)]) == ToBits(FromBits(full), 8) + Unpack([]);
  }

  /** A full group unpacks to its bits ahead of the rest. */
  lemma UnpackPackGroup(bits: seq<bool>)
    requires |bits| >= 8
    ensures Unpack(Pack(bits)) == bits[..8] + Unpack(Pack(bits[8..]))
  {
    var p := Pack(bits);
    assert p[0] == ByteOfBits(bits[..8]);
    assert p[1..] == Pack(bits[8..]);
    ToFromBits(bits[..8]);
  }

  /** Unpacking what was packed yields the bits followed by the zero padding only. */
  lemma {:induction false} UnpackPack(bits: seq<bool>)
    ensures Unpack(Pack(bits)) == bits + Zeros(PadLength(|bits|))
    decreases |bits|
  {
    if |bits| == 0 {
    } else if |bits| < 8 {
      UnpackPackShort(bits);
    } else {
      var rest := bits[8..];
      UnpackPackGroup(bits);
      UnpackPack(rest);
      assert bits[..8] + (rest + Zeros(PadLength(|rest|))) == bits + Zeros(PadLength(|bits|));
    }
  }

  /** Packing the bits of whole bytes gives the bytes back. */
  lemma {:induction false} PackUnpack(bytes: seq<byte>)
    ensures Pack(Unpack(bytes)) == bytes
  {
    if |bytes| > 0 {
      var u := Unpack(bytes);
      assert Pow2(8) == 256;
      FromToBits(bytes[0], 8);
      assert u[..8] == ToBits(bytes[0], 8);
      assert u[8..] == Unpack(bytes[1..]);
      PackUnpack(bytes[1..]);
    }
  }

  /** Unpacking distributes over concatenation. */
  lemma {:induction false} UnpackAppend(a: seq<byte>, c: seq<byte>)
    ensures Unpack(a + c) == Unpack(a) + Unpack(c)
  {
    if |a| > 0 {
      assert (a + c)[0] == a[0];
      assert (a + c)[1..] == a[1..] + c;
      UnpackAppend(a[1..], c);
      var h := ToBits(a[0], 8);
      assert Unpack(a + c) == h + (Unpack(a[1..]) + Unpack(c));
      assert Unpack(a) == h + Unpack(a[1..]);
      assert h + (Unpack(a[1..]) + Unpack(c)) == (h + Unpack(a[1..])) + Unpack(c);
    } else {
      assert a + c == c;
    }
  }

  /** Packing a byte-aligned prefix separately does not change the packed bytes. */
  lemma {:induction false} PackAligned(a: seq<bool>, c: seq<bool>)
    requires |a| % 8 == 0
    ensures Pack(a + c) == Pack(a) + Pack(c)
    decreases |a|
  {
    if |a| > 0 {
      assert |a| >= 8;
      assert (a + c)[..8] == a[..8];
      assert (a + c)[8..] == a[8..] + c;
      PackAligned(a[8..], c);
      var h := [ByteOfBits(a[..8])];
      assert Pack(a + c) == h + (Pack(a[8..]) + Pack(c));
      assert Pack(a) == h + Pack(a[8..]);
      assert h + (Pack(a[8..]) + Pack(c)) == (h + Pack(a[8..])) + Pack(c);
    } else {
      assert a + c == c;
    }
  }

  /** `buffer <<= 1; if (bit) buffer |= 1;` on an unsigned 8-bit buffer: the top bit falls off. */
  function ShiftBit(buffer: byte, bit: bool): byte
  {
    var b := if bit then 1 else 0;
    if buffer < 128 then buffer * 2 + b else buffer * 2 - 256 + b
  }

  /** `buffer <<= k` on an unsigned 8-bit buffer: k single shifts in zero bits. */
  function ShiftUp(buffer: byte, k: nat): byte
    decreases k
  {
    if k == 0 then buffer else ShiftUp(ShiftBit(buffer, false), k - 1)
  }

  /** One step of the packing loop: `buffer <<= 1; if (bit) buffer |= 1;` on a buffer holding fewer than eight bits. */
  lemma ShiftIn(bits: seq<bool>, start: nat, i: nat, buffer: nat)
    requires start <= i < |bits| && i - start < 8
    requires buffer == FromBits(bits[start..i])
    ensures buffer < 256
    ensures ShiftBit(buffer, bits[i]) == FromBits(bits[start..i + 1])
  {
    var held := bits[start..i];
    assert FromBits(held) < 128 by {
      Pow2Byte();
      Pow2Mono(|held|, 7);
    }
    assert bits[start..i + 1] == held + [bits[i]];
    FromBitsSnoc(held, bits[i]);
  }

  /** Flushing a full buffer appends the packed group to the packed prefix. */
  lemma FlushGroup(bits: seq<bool>, start: nat)
    requires start + 8 <= |bits| && start % 8 == 0
    ensures Pack(bits[..start + 8]) == Pack(bits[..start]) + [ByteOfBits(bits[start..start + 8])]
  {
    var group := bits[start..start + 8];
    PackAligned(bits[..start], group);
    assert bits[..start + 8] == bits[..start] + group;
    assert group[..8] == group;
    assert Pack(group) == [ByteOfBits(group[..8])] + Pack(group[8..]);
  }

  /** One pass of the packing loop keeps its invariant, flushing or not. */
  lemma PackStep(bits: seq<bool>, start: nat, i: nat, out: seq<byte>, buffer: byte)
    requires start <= i < |bits| && i - start < 8 && start % 8 == 0
    requires out == Pack(bits[..start])
    requires buffer == FromBits(bits[start..i])
    ensures i + 1 - start < 8 ==> ShiftBit(buffer, bits[i]) == FromBits(bits[start..i + 1])
    ensures i + 1 - start == 8 ==>
              && out + [ShiftBit(buffer, bits[i])] == Pack(bits[..i + 1])
              && FromBits(bits[i + 1..i + 1]) == 0
  {
    ShiftIn(bits, start, i, buffer);
    if i + 1 - start == 8 {
      FlushGroup(bits, start);
      assert bits[start..start + 8] == bits[start..i + 1];
      assert ByteOfBits(bits[start..i + 1]) == FromBits(bits[start..i + 1]);
      assert bits[i + 1..i + 1] == [];
    }
  }

  /** Shifting k zero bits into a buffer that has room for them appends them to its bits. */
  lemma {:induction false} ShiftUpZeros(b: seq<bool>, k: nat)
    requires |b| + k <= 8
    ensures FromBits(b) < 256
    ensures ShiftUp(FromBits(b), k) == FromBits(b + Zeros(k))
    decreases k
  {
    assert FromBits(b) < 256 by {
      Pow2Byte();
      Pow2Mono(|b|, 8);
    }
    if k == 0 {
      assert b + Zeros(k) == b;
    } else {
      assert FromBits(b) < 128 by {
        Pow2Byte();
        Pow2Mono(|b|, 7);
      }
      FromBitsSnoc(b, false);
      ShiftUpZeros(b + [false], k - 1);
      assert b + [false] + Zeros(k - 1) == b + Zeros(k);
    }
  }

  /** A final partial group packs to one zero-padded byte. */
  lemma PackShort(bits: seq<bool>)
    requires 0 < |bits| < 8
    ensures |Pack(bits)| == 1
    ensures Pack(bits)[0] == FromBits(bits + Zeros(8 - |bits|))
  {
  }

  /** The final partial group, shifted up to the most significant end, is its padded byte. */
  lemma ShiftUpPartial(tail: seq<bool>)
    requires 0 < |tail| < 8
    ensures FromBits(tail) < 256
    ensures Pack(tail) == [ShiftUp(FromBits(tail), 8 - |tail|)]
  {
    PackShort(tail);
    ShiftUpZeros(tail, 8 - |tail|);
    assert Pack(tail) == [Pack(tail)[0]];
  }

  /** After the loop: the partial buffer, shifted up, completes the packed bytes. */
  lemma FinishPack(bits: seq<bool>, start: nat, out: seq<byte>, buffer: nat)
    requires start <= |bits| < start + 8 && start % 8 == 0
    requires out == Pack(bits[..start])
    requires buffer == FromBits(bits[start..])
    ensures buffer < 256
    ensures start < |bits| ==> out + [ShiftUp(buffer, 8 - (|bits| - start))] == Pack(bits)
    ensures start == |bits| ==> out == Pack(bits)
  {
    if start < |bits| {
      var tail := bits[start..];
      ShiftUpPartial(tail);
      assert Pack(bits) == out + Pack(tail) by {
        PackAligned(bits[..start], tail);
        assert bits == bits[..start] + tail;
      }
    } else {
      assert bits[..start] == bits;
    }
  }

  /** The packing loop's invariant: whole groups packed, the partial group held in the buffer. */
  predicate PackState(bits: seq<bool>, start: nat, i: nat, out: seq<byte>, buffer: nat)
  {
    && start <= i <= |bits| && i - start < 8 && start % 8 == 0
    && out == Pack(bits[..start])
    && buffer == FromBits(bits[start..i])
  }

  /** One pass of the packing loop body: shift in the next bit, flushing a full buffer. */
  method PushBit(bits: seq<bool>, start: nat, i: nat, out: seq<byte>, buffer: byte)
    returns (start': nat, out': seq<byte>, buffer': byte)
    requires i < |bits| && PackState(bits, start, i, out, buffer)
    ensures PackState(bits, start', i + 1, out', buffer')
  {
    PackStep(bits, start, i, out, buffer);
    buffer' := ShiftBit(buffer, bits[i]);
    start', out' := start, out;
    if i + 1 - start == 8 {
      out' := out + [buffer'];
      buffer' := 0;
      start' := i + 1;
    }
  }

  /**
   * The packing loop of the compressor: shift each code bit into an 8-bit
   * buffer, flush it when eight bits are held, and shift the final partial
   * buffer up to the most significant end. Also counts the bits.
   */
  method PackStream(bits: seq<bool>) returns (out: seq<byte>, totalBits: nat)
    ensures out == Pack(bits)
    ensures totalBits == |bits|
  {
    var buffer: byte := 0;
    var start: nat := 0;
    totalBits := 0;
    out := [];
    var i: nat := 0;
    while i < |bits|
      invariant totalBits == i
      invariant PackState(bits, start, i, out, buffer)
    {
      start, out, buffer := PushBit(bits, start, i, out, buffer);
      totalBits := totalBits + 1;
      i := i + 1;
    }
    assert bits[start..i] == bits[start..];
    FinishPack(bits, start, out, buffer);
    var count := i - start;
    if count > 0 {
      buffer := ShiftUp(buffer, 8 - count);
      out := out + [buffer];
    }
  }
}
