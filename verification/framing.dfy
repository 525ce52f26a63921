/** Slicing the decoded signal into half-overlapping frames, the loop of
    `AUFile::process_signal` (lib/au-file-processing/src/AUFile.cpp, lines 112-138).

    For each whole chunk k of FFT_SIZE samples the loop copies two frames: the chunk
    itself, starting at k * FFT_SIZE, and the frame half a chunk later, starting at
    k * FFT_SIZE + FFT_SIZE / 2. The second frame of the last chunk reads past the
    end of the signal unless at least half a chunk of samples follows it. */
module Framing {

  /** FFT_SIZE (lib/au-file-processing/include/AUFile.h, line 4). */
  const FftSize: nat := 512
  const HalfFft: nat := 256

  /** Line 113: whole chunks of FFT_SIZE samples. */
  function ChunkCount(len: nat): nat
  {
    len / FftSize
  }

  /** Two frames per chunk. */
  function FrameCount(len: nat): nat
  {
    2 * ChunkCount(len)
  }

  /** Frame 2k starts at k * FFT_SIZE and frame 2k + 1 half a frame later. */
  function FrameStart(f: nat): nat
  {
    (f / 2) * FftSize + (f % 2) * HalfFft
  }

  /** Every frame the loop copies lies within the signal. */
  predicate FramesInBounds(len: nat)
  {
    forall f :: 0 <= f < FrameCount(len) ==> FrameStart(f) + FftSize <= len
  }

  /** The frames stay in bounds exactly when there is no whole chunk, or the last
      whole chunk is followed by at least half a chunk. */
  lemma FramesInBoundsIff(len: nat)
    ensures FramesInBounds(len) <==> len < FftSize || len % FftSize >= HalfFft
  {
    var c := ChunkCount(len);
    if len >= FftSize && len % FftSize < HalfFft {
      var f := 2 * c - 1;
      assert f / 2 == c - 1 && f % 2 == 1;
      assert FrameStart(f) + FftSize > len;
    }
    if len % FftSize >= HalfFft {
      forall f | 0 <= f < FrameCount(len)
        ensures FrameStart(f) + FftSize <= len
      {
        assert f / 2 <= c - 1;
      }
    }
  }

  /** The frames copied by the first k iterations of the loop, in order. */
  function FramesUpTo<T>(signal: seq<T>, k: nat): (frames: seq<seq<T>>)
    requires k <= ChunkCount(|signal|) && FramesInBounds(|signal|)
    ensures |frames| == 2 * k
    ensures forall f :: 0 <= f < |frames| ==> FrameStart(f) + FftSize <= |signal|
    ensures forall f :: 0 <= f < |frames| ==> frames[f] == signal[FrameStart(f)..FrameStart(f) + FftSize]
  {
    if k == 0 then []
    else
      var c := k - 1;
      assert FrameStart(2 * c + 1) + FftSize <= |signal|;
      FramesUpTo(signal, c)
        + [signal[c * FftSize..(c + 1) * FftSize], signal[c * FftSize + HalfFft..(c + 1) * FftSize + HalfFft]]
  }

  /** Lines 119-138: all frames, two per whole chunk. */
  function Frames<T>(signal: seq<T>): (frames: seq<seq<T>>)
    requires FramesInBounds(|signal|)
    ensures |frames| == FrameCount(|signal|)
    ensures forall f :: 0 <= f < |frames| ==> |frames[f]| == FftSize
  {
    FramesUpTo(signal, ChunkCount(|signal|))
  }

  /** Frame 2k is chunk k and frame 2k + 1 starts half a frame into it. */
  lemma FrameLayout<T>(signal: seq<T>, k: nat)
    requires FramesInBounds(|signal|) && k < ChunkCount(|signal|)
    ensures k * FftSize + HalfFft + FftSize <= |signal|
    ensures Frames(signal)[2 * k] == signal[k * FftSize..(k + 1) * FftSize]
    ensures Frames(signal)[2 * k + 1] == signal[k * FftSize + HalfFft..k * FftSize + HalfFft + FftSize]
  {
    assert (2 * k) / 2 == k && (2 * k) % 2 == 0;
    assert (2 * k + 1) / 2 == k && (2 * k + 1) % 2 == 1;
    assert FrameStart(2 * k + 1) + FftSize <= |signal|;
  }

  /** With one whole chunk or more there are at least two frames, so the (n - 1)
      divisor of the deviation is at least one. */
  lemma FrameCountEven(len: nat)
    ensures FrameCount(len) % 2 == 0
    ensures len >= FftSize ==> FrameCount(len) >= 2
  {
  }
}
