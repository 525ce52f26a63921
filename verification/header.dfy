/** The `.au` header: six 32-bit words read at the start of the file, with the
    two-attempt byte-order detection of the `AUFile` constructor
    (lib/au-file-processing/src/AUFile.cpp, lines 40-57). */
module AuHeader {
  import opened Powers
  import opened AuErrors
  import opened Words

  /** ".snd" read as a big-endian word. */
  const Magic: nat := 0x2e736e64
  /** Every header field is read as a 4-byte word. */
  const FieldBytes: nat := 4
  /** Six header words. */
  const HeaderBytes: nat := 24

  datatype Header = Header(magic: nat, dataOffset: nat, dataSize: nat, encoding: nat, sampleRate: nat, channels: nat)

  /** The byte order the header was found in, and the stream just past the magic word. */
  datatype Detected = Detected(bigEndian: bool, rest: Stream)

  /** The header, the byte order it was found in, and the stream just past it. */
  datatype Parsed = Parsed(header: Header, bigEndian: bool, rest: Stream)

  /** The magic word as read under the given byte order. */
  function MagicUnder(bytes: seq<Byte>, bigEndian: bool): nat
    requires |bytes| >= FieldBytes
  {
    WordValue(bytes[..FieldBytes], bigEndian)
  }

  /** Reads the magic word under the hint; on a mismatch flips the order, rewinds
      to offset 0 and reads it again; a second mismatch is "Bad File Encoding". */
  function DetectByteOrder(bytes: seq<Byte>, hint: bool): (r: Result<Detected>)
    ensures r.Success? <==>
              |bytes| >= FieldBytes && (MagicUnder(bytes, hint) == Magic || MagicUnder(bytes, !hint) == Magic)
    ensures r.Success? ==> MagicUnder(bytes, r.value.bigEndian) == Magic && r.value.rest == Stream(bytes, FieldBytes)
    ensures r.Success? && r.value.bigEndian != hint ==> MagicUnder(bytes, hint) != Magic
    ensures |bytes| < FieldBytes ==> r == Failure(EndOfStream)
    ensures |bytes| >= FieldBytes && r.Failure? ==> r.error == BadFileEncoding
  {
    var first :- ReadWord(Stream(bytes, 0), FieldBytes, hint);
    if first.0 == Magic then
      Success(Detected(hint, first.1))
    else
      // the first read succeeded, so this one, over the same bytes, does too
      var second := ReadWord(Stream(bytes, 0), FieldBytes, !hint);
      if second.Success? && second.value.0 == Magic then Success(Detected(!hint, second.value.1))
      else Failure(BadFileEncoding)
  }

  /** Lines 40-57: detect the byte order, then read the five remaining fields in it. */
  function ParseHeader(bytes: seq<Byte>, hint: bool): (r: Result<Parsed>)
    ensures r.Success? <==> DetectByteOrder(bytes, hint).Success? && |bytes| >= HeaderBytes
    ensures r.Success? ==>
              var o := r.value.bigEndian;
              && o == DetectByteOrder(bytes, hint).value.bigEndian
              && r.value.header == Header(Magic, WordValue(bytes[4..8], o), WordValue(bytes[8..12], o),
                                          WordValue(bytes[12..16], o), WordValue(bytes[16..20], o),
                                          WordValue(bytes[20..24], o))
              && r.value.rest == Stream(bytes, HeaderBytes)
  {
    var d :- DetectByteOrder(bytes, hint);
    var offset :- ReadWord(d.rest, FieldBytes, d.bigEndian);
    var size :- ReadWord(offset.1, FieldBytes, d.bigEndian);
    var encoding :- ReadWord(size.1, FieldBytes, d.bigEndian);
    var rate :- ReadWord(encoding.1, FieldBytes, d.bigEndian);
    var channels :- ReadWord(rate.1, FieldBytes, d.bigEndian);
    Success(Parsed(Header(Magic, offset.0, size.0, encoding.0, rate.0, channels.0), d.bigEndian, channels.1))
  }

  // ---------------------------------------------------------------------------
  // Properties

  lemma BeValue4(bs: seq<Byte>)
    requires |bs| == 4
    ensures BeValue(bs) == bs[0] as int * 0x100_0000 + bs[1] as int * 0x1_0000 + bs[2] as int * 0x100 + bs[3]
  {
    assert bs[..1][..0] == [];
    assert BeValue(bs[..1]) == bs[0];
    assert bs[..2][..1] == bs[..1];
    assert BeValue(bs[..2]) == 256 * BeValue(bs[..1]) + bs[1];
    assert bs[..3][..2] == bs[..2];
    assert BeValue(bs[..3]) == 256 * BeValue(bs[..2]) + bs[2];
    assert BeValue(bs) == 256 * BeValue(bs[..3]) + bs[3];
  }

  lemma LeValue4(bs: seq<Byte>)
    requires |bs| == 4
    ensures LeValue(bs) == bs[0] + bs[1] as int * 0x100 + bs[2] as int * 0x1_0000 + bs[3] as int * 0x100_0000
  {
    assert bs[3..][1..] == [];
    assert LeValue(bs[3..]) == bs[3];
    assert bs[2..][1..] == bs[3..];
    assert LeValue(bs[2..]) == bs[2] + 256 * LeValue(bs[3..]);
    assert bs[1..][1..] == bs[2..];
    assert LeValue(bs[1..]) == bs[1] + 256 * LeValue(bs[2..]);
  }

  /** The magic word under each byte order: no four bytes read as the magic both ways. */
  lemma MagicNotPalindromic(bs: seq<Byte>)
    requires |bs| == FieldBytes
    ensures !(WordValue(bs, true) == Magic && WordValue(bs, false) == Magic)
  {
    ReadWordBigEndian(bs);
    ReadWordLittleEndian(bs);
    BeValue4(bs);
    LeValue4(bs);
  }

  /** The resolved order is big-endian exactly when the magic reads big-endian. */
  lemma ResolvedOrder(bytes: seq<Byte>, hint: bool)
    requires DetectByteOrder(bytes, hint).Success?
    ensures DetectByteOrder(bytes, hint).value.bigEndian <==> MagicUnder(bytes, true) == Magic
  {
    MagicNotPalindromic(bytes[..FieldBytes]);
  }

  /** The initial hint decides nothing: detection succeeds or fails the same way and
      resolves the same order under either hint. */
  lemma DetectionIgnoresHint(bytes: seq<Byte>)
    ensures DetectByteOrder(bytes, true) == DetectByteOrder(bytes, false)
  {
    if |bytes| >= FieldBytes {
      MagicNotPalindromic(bytes[..FieldBytes]);
    }
  }

  /** So the header fields do not depend on the hint either. */
  lemma ParseIgnoresHint(bytes: seq<Byte>)
    ensures ParseHeader(bytes, true) == ParseHeader(bytes, false)
  {
    DetectionIgnoresHint(bytes);
  }

  /** A file that starts with ".snd" is read big-endian whatever the hint, and each
      field is the unsigned big-endian value of its four bytes, with the upper 32 bits
      set when the field's first byte is 0x80 or more (so the "unknown size"
      0xffffffff reads as 2^64 - 1). */
  lemma SndFileIsBigEndian(bytes: seq<Byte>, hint: bool)
    requires |bytes| >= HeaderBytes && bytes[..4] == [0x2e, 0x73, 0x6e, 0x64]
    ensures ParseHeader(bytes, hint).Success?
    ensures ParseHeader(bytes, hint).value.bigEndian
    ensures ParseHeader(bytes, hint).value.header
         == Header(Magic, BeValue(bytes[4..8]) + Extension(bytes[4..8], true),
                   BeValue(bytes[8..12]) + Extension(bytes[8..12], true),
                   BeValue(bytes[12..16]) + Extension(bytes[12..16], true),
                   BeValue(bytes[16..20]) + Extension(bytes[16..20], true),
                   BeValue(bytes[20..24]) + Extension(bytes[20..24], true))
  {
    ReadWordBigEndian(bytes[..4]);
    BeValue4(bytes[..4]);
    assert MagicUnder(bytes, true) == Magic;
    ParseIgnoresHint(bytes);
    ResolvedOrder(bytes, hint);
    ReadWordBigEndian(bytes[4..8]);
    ReadWordBigEndian(bytes[8..12]);
    ReadWordBigEndian(bytes[12..16]);
    ReadWordBigEndian(bytes[16..20]);
    ReadWordBigEndian(bytes[20..24]);
  }

  /** The header of a 2048-byte, 8 kHz, mono, 16-bit PCM file whose samples start at
      offset 24, parsed with the little-endian hint: the retry finds it big-endian. */
  lemma ExampleHeaderViaRetry(bytes: seq<Byte>)
    requires |bytes| == HeaderBytes && bytes[..4] == [0x2e, 0x73, 0x6e, 0x64]
    requires bytes[4..8] == [0, 0, 0, 24] && bytes[8..12] == [0, 0, 0x08, 0x00] && bytes[12..16] == [0, 0, 0, 3]
    requires bytes[16..20] == [0, 0, 0x1f, 0x40] && bytes[20..24] == [0, 0, 0, 1]
    ensures ParseHeader(bytes, false) == Success(Parsed(Header(Magic, 24, 2048, 3, 8000, 1), true, Stream(bytes, 24)))
  {
    SndFileIsBigEndian(bytes, false);
    BeValue4(bytes[4..8]);
    BeValue4(bytes[8..12]);
    BeValue4(bytes[12..16]);
    BeValue4(bytes[16..20]);
    BeValue4(bytes[20..24]);
  }
}
