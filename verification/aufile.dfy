/** The `AUFile` constructor as one pipeline (lib/au-file-processing/src/AUFile.cpp,
    lines 9-83 and 112-163): check the name, read the header, decode the samples,
    slice them into frames, window and transform each frame, and summarise the
    magnitudes of the first FFT_SIZE / 2 bins as the feature vector.

    The file is its bytes. The floating-point pieces the source takes from the C++
    library are parameters: the Hamming window coefficients, the twiddle table,
    `std::abs` of a complex value and `std::sqrt`. */
module AuFileModel {
  import opened Powers
  import opened AuErrors
  import opened Words
  import opened AuHeader
  import opened Samples
  import opened Label
  import opened Framing
  import opened Statistics
  import opened Rings
  import opened ComplexRing
  import opened Fft
  import opened Dft

  /** FFT_SIZE is 2^9. */
  const FftBits: nat := 9

  /** What the constructor leaves in the object. */
  datatype AuFile = AuFile(musicStyle: string, header: Header, bigEndian: bool, samples: seq<int>, features: seq<real>)

  /** The library's floating-point pieces: the window of FFT_SIZE coefficients, the
      FFT_SIZE / 2 twiddle factors, the complex magnitude and the square root. */
  datatype Analysis = Analysis(window: seq<real>, twiddles: seq<Complex>, magnitude: Complex -> real, root: real -> real)

  predicate ValidAnalysis(a: Analysis)
  {
    |a.window| == FftSize && |a.twiddles| == HalfFft
  }

  lemma FftSizeIsPow2()
    ensures Pow2(FftBits) == FftSize && Pow2(FftBits) / 2 == HalfFft
  {
  }

  /** Lines 115-118: each sample as a complex value with imaginary part zero. */
  function Lifted(frame: seq<int>): (c: seq<Complex>)
    ensures |c| == |frame|
    ensures forall i :: 0 <= i < |frame| ==> c[i] == Complex(frame[i] as real, 0.0)
  {
    seq(|frame|, i requires 0 <= i < |frame| => FromReal(frame[i] as real))
  }

  /** Lines 127-137 for one frame: window the lifted samples, run the
      decimation-in-time transform, and take the magnitudes of the first FFT_SIZE / 2
      bins (line 149). */
  function Spectrum(a: Analysis, frame: seq<int>): (mags: seq<real>)
    requires ValidAnalysis(a) && |frame| == FftSize
    ensures |mags| == HalfFft
  {
    FftSizeIsPow2();
    var spectrum := Dit(Field(), Windowed(a.window, Lifted(frame)), a.twiddles, FftBits);
    seq(HalfFft, b requires 0 <= b < HalfFft => a.magnitude(spectrum[b]))
  }

  /** Every frame's magnitudes, in frame order. */
  function Magnitudes(a: Analysis, frames: seq<seq<int>>): (mags: seq<seq<real>>)
    requires ValidAnalysis(a)
    requires forall f :: 0 <= f < |frames| ==> |frames[f]| == FftSize
    ensures |mags| == |frames|
    ensures forall f :: 0 <= f < |frames| ==> mags[f] == Spectrum(a, frames[f])
  {
    seq(|frames|, f requires 0 <= f < |frames| => Spectrum(a, frames[f]))
  }

  /** Lines 112-162 and 70-71: the feature vector of a signal with at least one whole
      chunk whose frames all stay within it. */
  function Features(a: Analysis, samples: seq<int>): (features: seq<real>)
    requires ValidAnalysis(a) && |samples| >= FftSize && FramesInBounds(|samples|)
    ensures |features| == FftSize
  {
    FrameCountEven(|samples|);
    FeatureVector(Magnitudes(a, Frames(samples)), a.root)
  }

  /** The constructor: NotAuFile before the file is read, then the header with its
      byte-order retry, then the samples, always decoded big-endian (line 58 passes no
      byte order, so the default of AUFile.h line 34 applies). A signal shorter than
      one chunk has no frames, and the source would divide zero by zero; a last chunk
      followed by less than half a chunk makes the source copy past the end. */
  function Open(path: string, bytes: seq<Byte>, hint: bool, a: Analysis): (r: Result<AuFile>)
    requires ValidAnalysis(a)
    ensures r.Success? ==> |r.value.features| == FftSize
    ensures r.Success? ==> |r.value.samples| >= FftSize && FramesInBounds(|r.value.samples|)
    ensures CheckedStyle(path).Failure? ==> r == Failure(NotAuFile)
  {
    var style :- CheckedStyle(path);
    var parsed :- ParseHeader(bytes, hint);
    var samples :- ReadData(bytes, parsed.header, true);
    if |samples| < FftSize then Failure(NoFrames)
    else if !FramesInBounds(|samples|) then Failure(FrameOutOfBounds)
    else
      Success(AuFile(style, parsed.header, parsed.bigEndian, samples, Features(a, samples)))
  }

  // ---------------------------------------------------------------------------
  // Properties

  /** Opening succeeds exactly when every step does: the name ends in ".au", the magic
      word matches under some byte order, the samples can be read, and there is at least
      one whole chunk whose frames all stay within the signal. */
  lemma OpenSucceedsIff(path: string, bytes: seq<Byte>, hint: bool, a: Analysis)
    requires ValidAnalysis(a)
    ensures Open(path, bytes, hint, a).Success? <==>
              && CheckedStyle(path).Success?
              && ParseHeader(bytes, hint).Success?
              && var samples := ReadData(bytes, ParseHeader(bytes, hint).value.header, true);
                 samples.Success? && |samples.value| >= FftSize
                 && |samples.value| % FftSize >= HalfFft
  {
    if CheckedStyle(path).Success? && ParseHeader(bytes, hint).Success? {
      var samples := ReadData(bytes, ParseHeader(bytes, hint).value.header, true);
      if samples.Success? {
        FramesInBoundsIff(|samples.value|);
      }
    }
  }

  /** The object records the name's style, the parsed header and resolved byte order,
      and the samples decoded big-endian whatever that order was. */
  lemma OpenRecordsItsInputs(path: string, bytes: seq<Byte>, hint: bool, a: Analysis)
    requires ValidAnalysis(a)
    ensures Open(path, bytes, hint, a).Success? ==>
            var f := Open(path, bytes, hint, a).value;
            && f.musicStyle == CheckedStyle(path).value
            && ParseHeader(bytes, hint) == Success(Parsed(f.header, f.bigEndian, Stream(bytes, HeaderBytes)))
            && ReadData(bytes, f.header, true) == Success(f.samples)
            && f.features == Features(a, f.samples)
  {
    if Open(path, bytes, hint, a).Success? {
      var parsed := ParseHeader(bytes, hint);
      assert CheckedStyle(path).Success? && parsed.Success?;
      var samples := ReadData(bytes, parsed.value.header, true);
      assert samples.Success? && |samples.value| >= FftSize && FramesInBounds(|samples.value|);
      assert Open(path, bytes, hint, a).value
          == AuFile(CheckedStyle(path).value, parsed.value.header, parsed.value.bigEndian, samples.value, Features(a, samples.value));
    }
  }

  /** When the twiddle table holds the powers of a w with w^256 = -1, as the source's
      table of exp(-2 pi i k / 512) does, bin b of a frame's spectrum is the magnitude of
      bin b of the discrete Fourier transform of the windowed frame. */
  lemma SpectrumIsDft(a: Analysis, frame: seq<int>, w: Complex, b: nat)
    requires ValidAnalysis(a) && |frame| == FftSize && b < HalfFft
    requires IsTwiddleTable(Field(), a.twiddles, w) && Pow(Field(), w, HalfFft) == Neg(One)
    ensures FftSize == Pow2(FftBits)
    ensures Spectrum(a, frame)[b] == a.magnitude(Transform(Field(), Windowed(a.window, Lifted(frame)), w, FftBits)[b])
  {
    FftSizeIsPow2();
    FieldIsCommRing();
    DitComputesTransform(Field(), Windowed(a.window, Lifted(frame)), a.twiddles, w, FftBits);
  }

  /** The byte-order hint changes nothing: the retry resolves the same order, and the
      samples are read big-endian regardless. */
  lemma OpenIgnoresHint(path: string, bytes: seq<Byte>, a: Analysis)
    requires ValidAnalysis(a)
    ensures Open(path, bytes, true, a) == Open(path, bytes, false, a)
  {
    ParseIgnoresHint(bytes);
  }

  /** The features are the per-bin means of the frames' magnitudes followed by the
      square roots of the per-bin variances, over at least two frames. */
  lemma FeatureLayout(a: Analysis, samples: seq<int>, b: nat)
    requires ValidAnalysis(a) && |samples| >= FftSize && FramesInBounds(|samples|) && b < HalfFft
    ensures var mags := Magnitudes(a, Frames(samples));
            && |mags| >= 2
            && (forall r :: 0 <= r < |mags| ==> |mags[r]| == HalfFft)
            && Features(a, samples)[b] == Mean(Column(mags, b))
            && Features(a, samples)[HalfFft + b] == a.root(Variance(Column(mags, b)))
  {
    FrameCountEven(|samples|);
  }
}
