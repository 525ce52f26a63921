/** Multi-byte words read from a byte stream, as `AUFile::read_word` assembles them
    (lib/au-file-processing/src/AUFile.cpp, lines 85-99).

    The source ORs each byte, shifted into its lane, into a 64-bit word. The byte
    is promoted to a 32-bit `int` before the shift, so a lane whose value reaches
    bit 31 is a negative `int`, and converting it to `uint64` sets the upper 32
    bits as well. Lanes never overlap, so the OR of the lanes is their sum; the
    model writes it as a sum. */
module Words {
  import opened Powers
  import opened AuErrors

  type Byte = b: int | 0 <= b < 256

  /** `read_word` refuses to read more bytes than this. */
  const MaxWordBytes: nat := 8
  /** Beyond this many bytes a lane shift reaches 32 bits on an `int`, which is undefined. */
  const MaxDefinedBytes: nat := 4
  /** The upper 32 bits, set when a negative `int` lane is converted to `uint64`. */
  const SignExtension: nat := 0xFFFF_FFFF_0000_0000

  /** A file opened for reading: its bytes and the current read position. */
  datatype Stream = Stream(bytes: seq<Byte>, pos: nat)

  function Reverse<T>(s: seq<T>): (r: seq<T>)
    ensures |r| == |s|
    ensures forall i :: 0 <= i < |s| ==> r[i] == s[|s| - 1 - i]
  {
    seq(|s|, i requires 0 <= i < |s| => s[|s| - 1 - i])
  }

  /** The shift applied to the i-th of n bytes. */
  function LaneShift(i: nat, n: nat, bigEndian: bool): nat
    requires i < n
  {
    if bigEndian then 8 * (n - 1 - i) else 8 * i
  }

  /** `b << shift` on the byte promoted to `int`, as it is OR-ed into the `uint64` word. */
  function Lane(b: Byte, shift: nat): nat
  {
    var v := b * Pow2(shift);
    if v >= 0x8000_0000 then v + SignExtension else v
  }

  /** The word after the first i iterations of the read loop. */
  function Assemble(bs: seq<Byte>, bigEndian: bool, i: nat): nat
    requires i <= |bs|
  {
    if i == 0 then 0
    else Assemble(bs, bigEndian, i - 1) + Lane(bs[i - 1], LaneShift(i - 1, |bs|, bigEndian))
  }

  /** The word `read_word` returns for the bytes bs read in the given order. */
  function WordValue(bs: seq<Byte>, bigEndian: bool): nat
    requires |bs| <= MaxDefinedBytes
  {
    Assemble(bs, bigEndian, |bs|)
  }

  /** Reads an n-byte word at the stream's position and advances past it. A word of
      no bytes reads nothing, wherever the stream stands, and is 0. */
  function ReadWord(s: Stream, n: nat, bigEndian: bool): (r: Result<(nat, Stream)>)
    ensures n > MaxWordBytes ==> r == Failure(TooManyBytes)
    ensures r.Success? <==> n <= MaxDefinedBytes && (n == 0 || s.pos + n <= |s.bytes|)
    ensures r.Success? ==> r.value.1 == Stream(s.bytes, s.pos + n)
    ensures n == 0 ==> r == Success((0, s))
  {
    if n > MaxWordBytes then Failure(TooManyBytes)
    else if n > MaxDefinedBytes then Failure(ShiftOverflow)
    else if n == 0 then Success((0, s))
    else if s.pos + n > |s.bytes| then Failure(EndOfStream)
    else Success((WordValue(s.bytes[s.pos..s.pos + n], bigEndian), Stream(s.bytes, s.pos + n)))
  }

  // ---------------------------------------------------------------------------
  // Reference interpretations of a byte sequence as an unsigned number

  /** Most significant byte first: the sum of bs[i] * 256^(|bs|-1-i). */
  function BeValue(bs: seq<Byte>): nat
  {
    if |bs| == 0 then 0 else 256 * BeValue(bs[..|bs| - 1]) + bs[|bs| - 1]
  }

  /** Least significant byte first: the sum of bs[i] * 256^i. */
  function LeValue(bs: seq<Byte>): nat
  {
    if |bs| == 0 then 0 else bs[0] + 256 * LeValue(bs[1..])
  }

  /** The most significant byte read is at least 0x80 and lands in the lane shifted by 24. */
  predicate SignExtends(bs: seq<Byte>, bigEndian: bool)
  {
    |bs| == 4 && (if bigEndian then bs[0] else bs[3]) >= 0x80
  }

  function Extension(bs: seq<Byte>, bigEndian: bool): nat
  {
    if SignExtends(bs, bigEndian) then SignExtension else 0
  }

  lemma Pow2Lanes()
    ensures Pow2(8) == 256 && Pow2(16) == 65536 && Pow2(24) == 16777216
  {
    Pow2Add(8, 8);
    Pow2Add(16, 8);
  }

  /** Only the lane shifted by 24 can reach bit 31. */
  lemma LaneSplit(b: Byte, shift: nat)
    requires shift == 0 || shift == 8 || shift == 16 || shift == 24
    ensures Lane(b, shift) == b * Pow2(shift) + (if shift == 24 && b >= 0x80 then SignExtension else 0)
  {
    Pow2Lanes();
  }

  lemma Distribute(hi: nat, lo: nat, p: nat)
    ensures (256 * hi + lo) * p == hi * (256 * p) + lo * p
  {
  }

  lemma {:induction false} AssembleBigEndian(bs: seq<Byte>, i: nat)
    requires |bs| <= MaxDefinedBytes && i <= |bs|
    ensures Assemble(bs, true, i)
         == BeValue(bs[..i]) * Pow2(8 * (|bs| - i)) + (if i >= 1 then Extension(bs, true) else 0)
  {
    if i > 0 {
      var n := |bs|;
      AssembleBigEndian(bs, i - 1);
      var shift := 8 * (n - i);
      LaneSplit(bs[i - 1], shift);
      var p := Pow2(shift);
      Pow2Add(8, shift);
      Pow2Lanes();
      assert 8 * (n - (i - 1)) == 8 + shift;
      assert Pow2(8 * (n - (i - 1))) == 256 * p;
      var hi := BeValue(bs[..i - 1]);
      assert bs[..i][..i - 1] == bs[..i - 1];
      assert BeValue(bs[..i]) == 256 * hi + bs[i - 1];
      Distribute(hi, bs[i - 1], p);
      assert Lane(bs[i - 1], shift) == bs[i - 1] * p + (if i == 1 then Extension(bs, true) else 0);
    }
  }

  lemma Distribute256(v: nat, b: nat, p: nat)
    ensures 256 * (v + b * p) == 256 * v + b * (256 * p)
  {
  }

  lemma {:induction false} LeValueSnoc(s: seq<Byte>, b: Byte)
    ensures LeValue(s + [b]) == LeValue(s) + b * Pow2(8 * |s|)
    decreases |s|
  {
    if |s| == 0 {
      assert (s + [b])[1..] == [];
    } else {
      var t, p := s[1..], Pow2(8 * (|s| - 1));
      assert (s + [b])[1..] == t + [b];
      LeValueSnoc(t, b);
      Pow2Add(8, 8 * (|s| - 1));
      Pow2Lanes();
      assert Pow2(8 * |s|) == 256 * p;
      Distribute256(LeValue(t), b, p);
    }
  }

  lemma {:induction false} AssembleLittleEndian(bs: seq<Byte>, i: nat)
    requires |bs| <= MaxDefinedBytes && i <= |bs|
    ensures Assemble(bs, false, i) == LeValue(bs[..i]) + (if i == 4 then Extension(bs, false) else 0)
  {
    if i > 0 {
      AssembleLittleEndian(bs, i - 1);
      LaneSplit(bs[i - 1], 8 * (i - 1));
      assert bs[..i] == bs[..i - 1] + [bs[i - 1]];
      LeValueSnoc(bs[..i - 1], bs[i - 1]);
    }
  }

  /** `read_word` in big-endian order: the unsigned big-endian value, plus the upper
      32 bits when four bytes are read and the first is at least 0x80. */
  lemma ReadWordBigEndian(bs: seq<Byte>)
    requires |bs| <= MaxDefinedBytes
    ensures WordValue(bs, true) == BeValue(bs) + Extension(bs, true)
  {
    AssembleBigEndian(bs, |bs|);
    assert bs[..|bs|] == bs;
    if |bs| == 0 {
      assert !SignExtends(bs, true);
    }
  }

  /** `read_word` in little-endian order: the unsigned little-endian value, plus the
      upper 32 bits when four bytes are read and the last is at least 0x80. */
  lemma ReadWordLittleEndian(bs: seq<Byte>)
    requires |bs| <= MaxDefinedBytes
    ensures WordValue(bs, false) == LeValue(bs) + Extension(bs, false)
  {
    AssembleLittleEndian(bs, |bs|);
    assert bs[..|bs|] == bs;
  }

  lemma {:induction false} BeValueIsLeValueOfReverse(bs: seq<Byte>)
    ensures BeValue(bs) == LeValue(Reverse(bs))
    decreases |bs|
  {
    if |bs| > 0 {
      var init := bs[..|bs| - 1];
      BeValueIsLeValueOfReverse(init);
      assert Reverse(bs)[1..] == Reverse(init);
    }
  }

  /** A big-endian read of a byte sequence equals a little-endian read of its reversal,
      sign extension included. */
  lemma ByteOrderReversal(bs: seq<Byte>)
    requires |bs| <= MaxDefinedBytes
    ensures WordValue(bs, true) == WordValue(Reverse(bs), false)
  {
    ReadWordBigEndian(bs);
    ReadWordLittleEndian(Reverse(bs));
    BeValueIsLeValueOfReverse(bs);
  }

  lemma {:induction false} BeValueBound(bs: seq<Byte>)
    ensures BeValue(bs) < Pow2(8 * |bs|)
    decreases |bs|
  {
    if |bs| > 0 {
      BeValueBound(bs[..|bs| - 1]);
      Pow2Add(8, 8 * (|bs| - 1));
      Pow2Lanes();
    }
  }

  /** Without sign extension the word fits in 8 * n bits; with it, the word's upper 32 bits
      are all set and it still fits in 64 bits. */
  lemma WordRange(bs: seq<Byte>, bigEndian: bool)
    requires |bs| <= MaxDefinedBytes
    ensures !SignExtends(bs, bigEndian) ==> WordValue(bs, bigEndian) < Pow2(8 * |bs|)
    ensures SignExtends(bs, bigEndian) ==> SignExtension <= WordValue(bs, bigEndian) < SignExtension + Pow2(32)
  {
    if bigEndian {
      ReadWordBigEndian(bs);
      BeValueBound(bs);
    } else {
      ReadWordLittleEndian(bs);
      ReadWordBigEndian(Reverse(bs));
      BeValueIsLeValueOfReverse(Reverse(bs));
      assert Reverse(Reverse(bs)) == bs;
      BeValueBound(Reverse(bs));
    }
  }
}
