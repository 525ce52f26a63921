/** PCM sample decoding, `AUFile::read_data` (lib/au-file-processing/src/AUFile.cpp,
    lines 101-110). */
module Samples {
  import opened Powers
  import opened AuErrors
  import opened Words
  import opened AuHeader

  /** Encoding 3 is 16-bit linear PCM, the only one with a word size. */
  const PcmEncoding: nat := 3
  const PcmWordBytes: nat := 2

  /** Lines 102-104: the word size is 2 bytes for encoding 3 and 0 otherwise. */
  function WordSize(encoding: nat): nat
  {
    if encoding == PcmEncoding then PcmWordBytes else 0
  }

  /** `(short)` on a 16-bit word: its two's complement reading. */
  function ToShort(w: nat): (r: int)
    requires w < 0x1_0000
    ensures -0x8000 <= r < 0x8000
    ensures (w - r) % 0x1_0000 == 0
  {
    if w >= 0x8000 then w - 0x1_0000 else w
  }

  /** A byte read as a signed 8-bit number. */
  function SignedByte(b: Byte): int
  {
    if b >= 0x80 then b - 0x100 else b
  }

  /** A 2-byte word as `read_word` returns it; it never sign-extends. */
  function Word16(bs: seq<Byte>, bigEndian: bool): (w: nat)
    requires |bs| == PcmWordBytes
    ensures w < 0x1_0000
  {
    WordRange(bs, bigEndian);
    Pow2Lanes();
    WordValue(bs, bigEndian)
  }

  /** count successive 2-byte words from the stream's position, each as a signed sample. */
  function ReadSamples(s: Stream, count: nat, bigEndian: bool): (r: Result<seq<int>>)
    ensures r.Success? <==> count == 0 || s.pos + PcmWordBytes * count <= |s.bytes|
    ensures r.Failure? ==> r.error == EndOfStream
    ensures r.Success? ==> |r.value| == count
    ensures r.Success? ==> forall i :: 0 <= i < count ==>
              var p := s.pos + PcmWordBytes * i;
              r.value[i] == ToShort(Word16(s.bytes[p..p + PcmWordBytes], bigEndian))
    decreases count
  {
    if count == 0 then Success([])
    else
      var w :- ReadWord(s, PcmWordBytes, bigEndian);
      var rest :- ReadSamples(w.1, count - 1, bigEndian);
      Success([ToShort(Word16(s.bytes[s.pos..s.pos + PcmWordBytes], bigEndian))] + rest)
  }

  /** Lines 101-110 with the default argument: seek to the data offset and decode
      dataSize / wordSize samples. Any encoding but 16-bit PCM would divide by a zero
      word size; the model fails with UnsupportedEncoding instead. */
  function ReadData(bytes: seq<Byte>, h: Header, bigEndian: bool): (r: Result<seq<int>>)
    ensures h.encoding != PcmEncoding ==> r == Failure(UnsupportedEncoding)
    ensures h.encoding == PcmEncoding ==>
              (r.Success? <==> h.dataSize < PcmWordBytes || h.dataOffset + h.dataSize / 2 * 2 <= |bytes|)
    ensures r.Success? ==> |r.value| == h.dataSize / 2
    ensures r.Success? ==> forall i :: 0 <= i < |r.value| ==> -0x8000 <= r.value[i] <= 0x7fff
  {
    if WordSize(h.encoding) == 0 then Failure(UnsupportedEncoding)
    else ReadSamples(Stream(bytes, h.dataOffset), h.dataSize / WordSize(h.encoding), bigEndian)
  }

  /** A big-endian sample is its first byte, signed, times 256 plus its second byte. */
  lemma BigEndianSample(bytes: seq<Byte>, h: Header, i: nat)
    requires ReadData(bytes, h, true).Success? && i < |ReadData(bytes, h, true).value|
    ensures var p := h.dataOffset + 2 * i;
            p + 1 < |bytes| &&
            ReadData(bytes, h, true).value[i] == SignedByte(bytes[p]) * 256 + bytes[p + 1]
  {
    var p := h.dataOffset + 2 * i;
    var bs := bytes[p..p + 2];
    ReadWordBigEndian(bs);
    assert bs[..1][..0] == [];
    assert BeValue(bs) == 256 * BeValue(bs[..1]) + bs[1];
  }

  /** So the sign of a big-endian sample is the top bit of its first byte. */
  lemma SampleSign(bytes: seq<Byte>, h: Header, i: nat)
    requires ReadData(bytes, h, true).Success? && i < |ReadData(bytes, h, true).value|
    ensures h.dataOffset + 2 * i < |bytes|
    ensures ReadData(bytes, h, true).value[i] < 0 <==> bytes[h.dataOffset + 2 * i] >= 0x80
  {
    BigEndianSample(bytes, h, i);
  }
}
