# A verified model of the `.au` feature extractor

This project models the core of a music-genre feature extractor for Sun/NeXT `.au` audio
files (magic word `0x2e736e64`, ".snd"; encoding 3 is 16-bit linear PCM), together with the
class-selection rule of its predictor. It is written in Dafny and every contract is proved.

The pieces, one module each:

- `Words` (words.dfy): `AUFile::read_word`, which assembles a word of up to 8 bytes from a byte
  stream in big- or little-endian order.
- `AuHeader` (header.dfy): the six header words and the magic-word check. On a mismatch the check
  rewinds once and retries with the flipped byte order.
- `Samples` (samples.dfy): `AUFile::read_data`, which turns byte pairs into signed 16-bit samples.
- `Label` (label.dfy): the ".au" extension check and the music style taken from the file name.
- `Framing` (framing.dfy): the half-overlapping frames of `process_signal`.
- `Statistics` (statistics.dfy): the per-bin means and deviations, the feature layout and
  `featuresNormalize`.
- `BitReverse` (bitreverse.dfy): `bit_reverse_array` and `bit_reverse_reorder`.
- `Fft` (fft.dfy): the butterfly loops of `iterativeDITFFT` and `iterativeDIFFFT`, and `windowing`.
- `Dft` (dft.dfy): the theorem that the iterative decimation-in-time loop computes the discrete
  Fourier transform. It holds over any commutative ring whose twiddle table holds the powers of
  a w with w^(DIM/2) = -1.
- `AuFileModel` (aufile.dfy): the `AUFile` constructor as one pipeline from path and bytes to
  the feature vector.
- `Predict` (predict.dfy): the linear class scores and the running maximum seeded with
  (-1, -5000).
- Support modules:
  - `AuErrors` (errors.dfy) holds the error kinds and a `Result` type.
  - `Powers` (powers.dfy) holds powers of two and small division facts.
  - `Rings` (ring.dfy) holds a commutative ring given by its operations.
  - `ComplexRing` (complex.dfy) holds exact complex numbers over `real`, which form such a ring.

A file is its byte sequence. Errors the source raises with exceptions, or leaves as undefined
behaviour, are values of `AuErrors.Error`:

- `NotAuFile`
- `BadFileEncoding`
- `TooManyBytes`
- `ShiftOverflow`
- `EndOfStream`
- `UnsupportedEncoding`
- `FrameOutOfBounds`
- `NoFrames`

The buffers the C++ code changes in place are sequences here. Each loop is a method returning
the new sequence, and its contract relates that sequence to a functional definition.

### Source behaviour the model keeps

- The samples are always decoded big-endian, whatever byte order the header detection found.
  The constructor calls `read_data` at lib/au-file-processing/src/AUFile.cpp:58 without a byte
  order, so the default `true` of lib/au-file-processing/include/AUFile.h:34 applies. The model
  does the same.
- The frames come two per whole chunk of N samples, at k·N and k·N + N/2, which gives 2·⌊len/N⌋
  frames. The second frame of the last chunk reads past the signal unless len mod N ≥ N/2. The
  model makes this a precondition of `Framing.Frames` and the error `FrameOutOfBounds` in
  `AuFileModel.Open`.
- When the encoding is not 3 the source divides by a zero word size. When there are no frames
  it computes 0/0 and underflows a `size_t` divisor. The model reports `UnsupportedEncoding` and
  `NoFrames` instead.

## Model

| member | source | states |
|---|---|---|
| Words.ReadWord | lib/au-file-processing/src/AUFile.cpp:85-99 | More than 8 bytes fails with TooManyBytes before anything is read. Otherwise the read succeeds exactly when at most 4 bytes are asked for and either none are asked for or they are all present. The stream then advances by exactly n bytes. A read of no bytes gives 0 and leaves the stream where it stands, even at or past its end. |
| Words.ReadWordBigEndian | lib/au-file-processing/src/AUFile.cpp:92-93 | The big-endian word is the sum of b_i·256^(n−1−i). A fourth byte of 0x80 or more also adds the sign extension of the C++ `int` shift. |
| Words.ReadWordLittleEndian | lib/au-file-processing/src/AUFile.cpp:94-95 | The little-endian word is the sum of b_i·256^i, plus the sign extension when the top byte is 0x80 or more. |
| Words.AssembleBigEndian | lib/au-file-processing/src/AUFile.cpp:90-96 | After i iterations of the loop, the word holds the big-endian value of the first i bytes, shifted to their final lane. |
| Words.AssembleLittleEndian | lib/au-file-processing/src/AUFile.cpp:90-96 | After i iterations of the loop, the word holds the little-endian value of the first i bytes. |
| Words.ByteOrderReversal | lib/au-file-processing/src/AUFile.cpp:90-96 | A big-endian read of a byte sequence equals a little-endian read of its reversal. |
| Words.BeValueIsLeValueOfReverse | lib/au-file-processing/src/AUFile.cpp:92-95 | The big-endian value of the bytes is the little-endian value of their reversal. |
| Words.WordRange | lib/au-file-processing/src/AUFile.cpp:85-99 | Without sign extension an n-byte word is below 256^n. With it, the word lies in [0xFFFF_FFFF_0000_0000, 2^64): the upper 32 bits of the 64-bit word are all set. |
| AuHeader.DetectByteOrder | lib/au-file-processing/src/AUFile.cpp:40-52 | Detection succeeds exactly when the first word is the magic under the hint or under the flipped hint. The order returned is one under which it is the magic, and it differs from the hint only if the hint failed. Short input gives EndOfStream. Any other failure is BadFileEncoding. |
| AuHeader.ParseHeader | lib/au-file-processing/src/AUFile.cpp:40-57 | Parsing succeeds exactly when detection succeeds and all 24 header bytes are present. The five fields are then the words at offsets 4, 8, 12, 16 and 20, read in the detected order, and the stream stands at offset 24. |
| AuHeader.MagicNotPalindromic | lib/au-file-processing/src/AUFile.cpp:41-48 | No 4 bytes read as the magic in both byte orders, so at most one order is accepted. |
| AuHeader.ResolvedOrder | lib/au-file-processing/src/AUFile.cpp:40-52 | The resolved order is big-endian exactly when the magic reads big-endian. |
| AuHeader.DetectionIgnoresHint | lib/au-file-processing/src/AUFile.cpp:40-52 | The detection result, success or failure, is the same for either hint. |
| AuHeader.ParseIgnoresHint | lib/au-file-processing/src/AUFile.cpp:40-57 | The parsed header and resolved order are the same for either hint. |
| AuHeader.SndFileIsBigEndian | lib/au-file-processing/src/AUFile.cpp:40-57 | A file starting with ".snd" and holding 24 header bytes is accepted as big-endian under either hint. Each field is the big-endian value of its 4 bytes, with the upper 32 bits of the 64-bit word set when the first of them is 0x80 or more. |
| AuHeader.ExampleHeaderViaRetry | lib/au-file-processing/src/AUFile.cpp:40-57 | The header {24, 2048, 3, 8000, 1}, parsed with the little-endian hint, is recovered through the retry with its fields intact. |
| Samples.ToShort | lib/au-file-processing/src/AUFile.cpp:107 | The `(short)` cast lands in [−32768, 32767] and agrees with the word modulo 2^16. |
| Samples.ReadSamples | lib/au-file-processing/src/AUFile.cpp:106-108 | Reading count words succeeds exactly when 2·count bytes remain, and fails otherwise with EndOfStream. Sample i is the 16-bit word at position + 2i, cast to short. |
| Samples.ReadData | lib/au-file-processing/src/AUFile.cpp:101-110 | An encoding other than 3 is rejected. With encoding 3, reading succeeds exactly when the data fits after the offset. It then yields ⌊data_size/2⌋ samples, all in [−32768, 32767]. |
| Samples.BigEndianSample | lib/au-file-processing/src/AUFile.cpp:58 | With the default big-endian argument, sample i is the signed high byte times 256 plus the low byte, taken at data_offset + 2i. |
| Samples.SampleSign | lib/au-file-processing/src/AUFile.cpp:107 | A sample is negative exactly when the high bit of its first byte is set. |
| Label.CheckedStyle | lib/au-file-processing/src/AUFile.cpp:21-29 | The only failure is NotAuFile. |
| Label.LastIndexBefore | lib/au-file-processing/src/AUFile.cpp:21 | Finds the last occurrence of a character before a bound, or −1 when there is none. |
| Label.FindFirst | lib/au-file-processing/src/AUFile.cpp:28 | `find` returns the first occurrence, with \|s\| standing for `npos`. |
| Label.FilenameIsLastComponent | lib/au-file-processing/src/AUFile.cpp:27 | The file name is a suffix of the path with no '/'. It is either the whole path or starts right after a '/', so it is the last path component. |
| Label.AuExtensionIff | lib/au-file-processing/src/AUFile.cpp:21 | The extension is ".au" exactly when the name ends in ".au" and has at least one character before the dot. |
| Label.StyleIsDotFreePrefix | lib/au-file-processing/src/AUFile.cpp:27-29 | The style is a prefix of the file name and contains no '.'. |
| Label.AcceptedPath | lib/au-file-processing/src/AUFile.cpp:21-29 | A path is accepted exactly when its file name ends in ".au" after at least one character. The style is then the longest dot-free prefix, followed by a '.'. |
| Label.GenreExample | lib/au-file-processing/src/AUFile.cpp:21-29 | "pop/pop.7.au" is accepted with the style "pop". |
| Framing.FramesInBoundsIff | lib/au-file-processing/src/AUFile.cpp:119-125 | Every frame copy stays inside the signal exactly when len < 512 or len mod 512 ≥ 256. |
| Framing.FramesUpTo | lib/au-file-processing/src/AUFile.cpp:119-138 | After k chunks there are 2k frames. Each lies within the signal and is the 512 samples starting at its frame start. |
| Framing.Frames | lib/au-file-processing/src/AUFile.cpp:113-138 | There are 2·⌊len/512⌋ frames, each 512 samples long. |
| Framing.FrameLayout | lib/au-file-processing/src/AUFile.cpp:124-125 | Frame 2k is the samples [512k, 512(k+1)). Frame 2k+1 is the samples [512k+256, 512k+768). |
| Framing.FrameCountEven | lib/au-file-processing/src/AUFile.cpp:113-138 | The frame count is even, and at least 2 when there is a whole chunk. |
| Statistics.Column | lib/au-file-processing/src/AUFile.cpp:147-150 | Gives one bin's magnitude from every frame, in frame order. |
| Statistics.FeatureVector | lib/au-file-processing/src/AUFile.cpp:70-71 | The vector has 512 entries. Entry b is the mean of bin b over all frames. Entry 256 + b is the root of the (n−1)-divisor variance of bin b. |
| Statistics.MeanBounds | lib/au-file-processing/src/AUFile.cpp:151-153 | The mean lies between any lower and upper bound of the values. |
| Statistics.DeviationsFromMeanCancel | lib/au-file-processing/src/AUFile.cpp:151-161 | Deviations from the mean sum to zero. |
| Statistics.VarianceZeroIffConstant | lib/au-file-processing/src/AUFile.cpp:154-161 | The variance before the square root is non-negative. It is zero exactly when every value equals the mean. |
| Statistics.ConstantBin | lib/au-file-processing/src/AUFile.cpp:151-161 | A bin with the same magnitude in every frame has that mean and zero variance. |
| Statistics.Normalize | lib/au-file-processing/src/AUFile.cpp:250-254 | Keeps the length, and each normalised feature times stddev[i] plus avg[i] gives back the original feature. |
| Statistics.NormalizeRoundTrip | lib/au-file-processing/src/AUFile.cpp:250-254 | Normalising and denormalising are inverse to each other, in both orders. |
| BitReverse.RevBound | lib/au-file-processing/include/fourier_transforms/fft.h:24-33 | The m-bit reversal of i is below 2^m. |
| BitReverse.RevInvolution | lib/au-file-processing/include/fourier_transforms/fft.h:24-33 | Reversing the m bits of i twice gives i back. |
| BitReverse.RevInjective | lib/au-file-processing/include/fourier_transforms/fft.h:24-33 | Distinct indices below 2^m have distinct reversals, so reversal is a bijection. |
| BitReverse.ReverseBits | lib/au-file-processing/include/fourier_transforms/fft.h:25-33 | The shift loop computes the m-bit reversal of i. |
| BitReverse.ScrambledBound | lib/au-file-processing/include/fourier_transforms/fft.h:34-37 | Every table entry satisfies i ≤ scrambled[i] < 2^m. |
| BitReverse.BitReverseArray | lib/au-file-processing/include/fourier_transforms/fft.h:22-40 | The table has 2^m entries. Entry i is rev(i) when i < rev(i), otherwise i, so it lies in [i, 2^m). |
| BitReverse.PartialStep | lib/au-file-processing/include/fourier_transforms/fft.h:46-50 | Each loop pass swaps entry i with entry rev(i) exactly when i < rev(i). |
| BitReverse.BitReverseReorder | lib/au-file-processing/include/fourier_transforms/fft.h:43-52 | The reorder puts W[rev(i)] at position i and keeps the multiset of entries. |
| BitReverse.PermutedInvolution | lib/au-file-processing/include/fourier_transforms/fft.h:43-52 | Reordering twice gives the original buffer back. |
| Fft.TwiddleBound | lib/au-file-processing/include/fourier_transforms/fft.h:97-99 | Every twiddle index j·2^(stages−stage) of a stage ≥ 1 is below DIM/2. |
| Fft.DitButterfly | lib/au-file-processing/include/fourier_transforms/fft.h:96-102 | In block k of stage s, k+j+halfSize < DIM and the twiddle index is in range. Position k+j becomes u+v and k+j+halfSize becomes u−v, where v = x[k+j+halfSize]·tf[j·2^(m−s)]. |
| Fft.DitBlock | lib/au-file-processing/include/fourier_transforms/fft.h:97-102 | One block's butterflies finish that block of the stage and change no position beyond it. |
| Fft.DitStage | lib/au-file-processing/include/fourier_transforms/fft.h:93-103 | Stage 0 leaves the buffer unchanged, since halfSize is 0. Any later stage produces exactly that stage's butterflies. |
| Fft.DitNextStage | lib/au-file-processing/include/fourier_transforms/fft.h:93-103 | A pass of the stage loop after stages 1 to stage − 1 leaves stages 1 to stage done. The pass of stage 0 leaves the reordered buffer as it is. |
| Fft.IterativeDit | lib/au-file-processing/include/fourier_transforms/fft.h:84-106 | The loop computes the reorder followed by stages 1 to m. |
| Fft.DifIndices | lib/au-file-processing/include/fourier_transforms/fft.h:156-163 | In problem k of pass q, j + halfSize < DIM and jTwiddle < DIM/2, and both positions fall at the expected offsets of their problem. |
| Fft.DifButterfly | lib/au-file-processing/include/fourier_transforms/fft.h:158-163 | Position j becomes x[j] + x[j+halfSize], and j+halfSize becomes W·(x[j] − x[j+halfSize]), with W = tf[i·numOfProblem]. |
| Fft.DifProblem | lib/au-file-processing/include/fourier_transforms/fft.h:157-164 | One problem's butterflies finish that problem of the pass and change no position beyond it. |
| Fft.DifStage | lib/au-file-processing/include/fourier_transforms/fft.h:155-167 | One pass of the while loop produces exactly that pass's butterflies. |
| Fft.IterativeDif | lib/au-file-processing/include/fourier_transforms/fft.h:149-170 | The loop computes the m halving passes followed by the bit-reversal reorder. |
| Fft.Windowing | lib/au-file-processing/include/fourier_transforms/fft.h:188-197 | The length is unchanged and s'[i] = w[i]·s[i]. |
| Fft.WindowedRoundTrip | lib/au-file-processing/include/fourier_transforms/fft.h:188-197 | Windowing with a non-zero window and then with its reciprocals gives the frame back. |
| Dft.EvalSplit | lib/au-file-processing/include/fourier_transforms/fft.h:84-106 | A transform of size 2L splits into its even and odd halves at z², recombined with one factor of z. |
| Dft.StagesComputeState | lib/au-file-processing/include/fourier_transforms/fft.h:90-104 | After s stages the buffer holds, in each block of 2^s, the butterfly recursion of that block. |
| Dft.ButterfliesEval | lib/au-file-processing/include/fourier_transforms/fft.h:92-103 | Offset t of block b after s stages is the size-2^s transform of the samples x[rev(b) + r·2^(m−s)], evaluated at w^(2^(m−s)·t). |
| Dft.StateFinal | lib/au-file-processing/include/fourier_transforms/fft.h:84-106 | After the last stage, the single block holds the transform. |
| Dft.DitComputesTransform | lib/au-file-processing/include/fourier_transforms/fft.h:84-106 | The iterative decimation-in-time result is the discrete Fourier transform X[t] = Σ x[r]·w^(t·r), whenever tf[k] = w^k and w^(DIM/2) = −1. |
| AuFileModel.Spectrum | lib/au-file-processing/src/AUFile.cpp:127-137 | Gives one magnitude per retained bin, FFT_SIZE/2 in all. |
| AuFileModel.SpectrumIsDft | lib/au-file-processing/src/AUFile.cpp:114-149 | When tf[k] = w^k and w^256 = −1, bin b of a frame's spectrum is the magnitude of bin b of the discrete Fourier transform of the windowed frame. |
| AuFileModel.Magnitudes | lib/au-file-processing/src/AUFile.cpp:146-150 | Gives every frame's spectrum, in frame order. |
| AuFileModel.Features | lib/au-file-processing/src/AUFile.cpp:70-71 | The feature vector has exactly FFT_SIZE entries. |
| AuFileModel.Open | lib/au-file-processing/src/AUFile.cpp:9-83 | A successful open yields FFT_SIZE features over a signal whose frames are all in bounds. A rejected name is NotAuFile before the bytes are looked at. |
| AuFileModel.OpenSucceedsIff | lib/au-file-processing/src/AUFile.cpp:21-64 | The constructor succeeds exactly when the name is accepted, the header parses and the samples can be read. There must also be at least one whole chunk, with len mod 512 ≥ 256. |
| AuFileModel.OpenRecordsItsInputs | lib/au-file-processing/src/AUFile.cpp:27-58 | The object holds the name's style, the parsed header and resolved order, and the samples read big-endian whatever that order was. |
| AuFileModel.OpenIgnoresHint | lib/au-file-processing/src/AUFile.cpp:40-58 | The result is the same for either byte-order hint. |
| AuFileModel.FeatureLayout | lib/au-file-processing/src/AUFile.cpp:146-162 | Over at least two frames, feature b is the mean of bin b's magnitudes, and feature 256 + b is the root of their variance. |
| Predict.Step | predicting/src/main.cpp:116-120 | A maximum still at −5000 is replaced outright. Otherwise only a strictly greater score replaces it. |
| Predict.SelectUpTo | predicting/src/main.cpp:109-120 | The running maximum is either (−1, −5000) or an index already scored, paired with its score. |
| Predict.Predict | predicting/src/main.cpp:107-125 | The ranking has one entry per class, in index order, each with its score Σ coef·feat − intercept. The result is the selection over those scores. |
| Predict.DotReadsPrefix | predicting/src/main.cpp:113-115 | A score reads only as many features as the class has coefficients. |
| Predict.NoClasses | predicting/src/main.cpp:109-110 | With no classes the result stays (−1, −5000). |
| Predict.FirstClassSeeds | predicting/src/main.cpp:116-117 | The first class always replaces the sentinel, whatever its score. |
| Predict.SelectIsFirstMax | predicting/src/main.cpp:116-120 | If no score is exactly −5000, every prefix's selection is its first largest score. |
| Predict.SelectChoosesFirstMax | predicting/src/main.cpp:116-120 | If no score is exactly −5000, the selected index is i exactly when i is the first index of a largest score. |
| Predict.SentinelOverwritten | predicting/src/main.cpp:116-117 | A class scoring exactly −5000 is overwritten by a lower next score, which is then selected although it is not a maximum. |

## Left out

- File and stream I/O is not modelled. The file is its byte sequence, and `seekg` is an index into it.
- The directory walk, command-line parsing, timing, verbose printing and JSON model loading are
  left out. None of them computes the features.
- The Python training script is left out, since it is a foreign-library step.
- `export_csv` and `operator<<` are left out. They only format numbers as text.
- The parallel execution policies are left out. Sums run left to right over exact reals, where
  the order does not matter.
- Floating point is not modelled: values are exact reals and exact complex numbers over them.
- The transcendental values are parameters:
  - the twiddle table (`exp`),
  - the Hamming window coefficients (`cos`),
  - the complex magnitude (`std::abs`),
  - the square root.
- The recursive DIT and DIF variants are left out. The feature extractor calls only the
  iterative DIT transform (lib/au-file-processing/src/AUFile.cpp:132-133). The iterative DIF
  transform is modelled because fft.h defines it next to the DIT one.
- The dead square-root transform at lib/au-file-processing/src/AUFile.cpp:140-141 is left out,
  because line 154 overwrites its result.
- Words.ReadWord: reads of 5 to 8 bytes fail with ShiftOverflow. Their value is not modelled,
  because the source shifts an `int` by 32 bits or more there.
- Words.ReadWord: a read that runs past the end of the bytes fails with EndOfStream. The source
  does not check `file.read` and ORs in whatever the byte variable then holds.
- Samples.ReadData: an encoding other than 3 is an explicit UnsupportedEncoding failure, not the
  division by a zero word size.
- AuFileModel.Open: a signal shorter than one chunk fails with NoFrames, and a signal whose last
  half-shifted frame would overrun fails with FrameOutOfBounds. The source has undefined behaviour
  in both cases.
- Statistics.Normalize: requires non-zero deviations and vectors at least as long as the
  features. The source checks neither, and with a zero deviation it produces an IEEE infinity or
  NaN, which reals cannot represent.
- Fft.IterativeDif: is proved equal to its pass-by-pass definition, not to the discrete Fourier
  transform. The transform theorem is proved for the decimation-in-time loop, which the feature
  extractor uses.
- Fft.Windowing: requires |s| ≤ |w|, because the source indexes the fixed window array without
  a check.
- No inverse transform exists in the source, so no FFT round trip is stated.
