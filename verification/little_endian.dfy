/** Little-endian unsigned integers of a fixed byte width, and the stream reader built on them. */
module LittleEndian {
  import opened Arith
  import opened Bits

  /** UINT64_MAX, the value the reader returns when the stream runs out. */
  const U64Max: nat := 0xFFFF_FFFF_FFFF_FFFF

  /** The n low bytes of v, least significant first (values of n bytes or more are truncated). */
  function WriteLE(v: nat, n: nat): (r: seq<byte>)
    ensures |r| == n
  {
    if n == 0 then [] else [v % 256] + WriteLE(v / 256, n - 1)
  }

  /** The value of a little-endian byte string. */
  function ReadLE(s: seq<byte>): (v: nat)
    ensures v < Pow256(|s|)
  {
    if |s| == 0 then 0 else s[0] + 256 * ReadLE(s[1..])
  }

  /** Reading back an n-byte write of a value below 256^n gives the value. */
  lemma {:induction false} ReadWriteLE(v: nat, n: nat)
    requires v < Pow256(n)
    ensures ReadLE(WriteLE(v, n)) == v
  {
    if n > 0 {
      assert v / 256 < Pow256(n - 1) by {
        QuotientBelow(v, 256, Pow256(n - 1));
      }
      ReadWriteLE(v / 256, n - 1);
      assert WriteLE(v, n)[1..] == WriteLE(v / 256, n - 1);
    }
  }

  /** Writing back a value read from n bytes gives the same n bytes. */
  lemma {:induction false} WriteReadLE(s: seq<byte>)
    ensures WriteLE(ReadLE(s), |s|) == s
  {
    if |s| > 0 {
      var v := ReadLE(s);
      var t := ReadLE(s[1..]);
      assert v / 256 == t && v % 256 == s[0] by {
        DivUnique(v, 256, t, s[0]);
      }
      WriteReadLE(s[1..]);
      assert s == [s[0]] + s[1..];
    }
  }

  /** Byte i of the write is `(v >> 8i) & 0xFF`: it carries bits 8i..8i+7 of v. */
  lemma {:induction false} ByteOfWriteLE(v: nat, n: nat, i: nat)
    requires i < n
    ensures WriteLE(v, n)[i] == (v / Pow256(i)) % 256
  {
    if i > 0 {
      ByteOfWriteLE(v / 256, n - 1, i - 1);
      DivDiv(v, 256, Pow256(i - 1));
    }
  }

  /** n bytes of 0xFF read as 256^n - 1. */
  lemma {:induction false} AllOnesReadLE(s: seq<byte>)
    requires forall i :: 0 <= i < |s| ==> s[i] == 255
    ensures ReadLE(s) == Pow256(|s|) - 1
  {
    if |s| > 0 {
      AllOnesReadLE(s[1..]);
    }
  }

  /**
   * readLE on a stream positioned at pos: the n bytes found there, or
   * UINT64_MAX, with the stream exhausted, when fewer than n bytes remain.
   */
  function ReadLEAt(file: seq<byte>, pos: nat, n: nat): (r: (nat, nat))
    requires pos <= |file|
    ensures pos <= r.1 <= |file|
    ensures pos + n <= |file| ==> r.1 == pos + n && r.0 < Pow256(n)
    ensures pos + n > |file| ==> r == (U64Max, |file|)
  {
    if pos + n <= |file| then (ReadLE(file[pos..pos + n]), pos + n) else (U64Max, |file|)
  }

  /** The reader recovers every value written at its position. */
  lemma ReadLEAtWrite(prefix: seq<byte>, v: nat, n: nat, rest: seq<byte>)
    requires v < Pow256(n)
    ensures ReadLEAt(prefix + WriteLE(v, n) + rest, |prefix|, n) == (v, |prefix| + n)
  {
    var file := prefix + WriteLE(v, n) + rest;
    assert file[|prefix|..|prefix| + n] == WriteLE(v, n);
    ReadWriteLE(v, n);
  }

  /**
   * The end-of-stream sentinel is also a legitimate value: eight 0xFF bytes
   * read exactly as a read past the end does.
   */
  lemma AllOnesLookLikeEndOfStream(file: seq<byte>, pos: nat)
    requires pos + 8 <= |file|
    requires forall i :: pos <= i < pos + 8 ==> file[i] == 255
    ensures ReadLEAt(file, pos, 8).0 == ReadLEAt(file, |file|, 8).0 == U64Max
  {
    AllOnesReadLE(file[pos..pos + 8]);
    Pow256Values();
  }
}
