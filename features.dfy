/** The shape of the vector `extract_video_features` returns, and which of
    its branches produces it. The histogram and ORB values come from OpenCV
    and every segment is then divided by a floating-point norm; neither is
    modelled. What is modelled is the integer content of the fallback vector,
    the layout of the full one, and the conditions choosing between them. */
module Features {
  import opened Arith
  import opened Wrappers
  import opened Tokens
  import opened TextVector
  import opened SizeVector
  import opened FramePicks

  /** `calcHist` over 8 hue, 8 saturation and 4 value bins. */
  const HistBins: nat := 8 * 8 * 4

  /** The length of an ORB descriptor, and of `orb_mean`. */
  const OrbLen: nat := 32

  /** How many frames are sampled when the caller gives no count. */
  const DefaultNumFrames: nat := 8

  const FallbackLength: nat := SizeEntries + TextDim
  const FullLength: nat := HistBins + OrbLen + TextDim

  /** Which concatenation the function returns. */
  datatype Layout = SizeAndName | HistogramOrbName

  function LayoutLength(l: Layout): nat {
    match l
    case SizeAndName => FallbackLength
    case HistogramOrbName => FullLength
  }

  /** What an opened capture reports. */
  datatype Capture = Capture(isOpen: bool, frameCount: int)

  /** The branches of `extract_video_features` on a capture sampled at
      `numFrames` frames: `None` is the function returning `None`;
      `histogramRead` says whether any sampled frame gave a colour histogram,
      which needs at least one frame to have been sampled. */
  function ExtractLayout(cv2: bool, cap: Capture, numFrames: int, histogramRead: bool): (r: Option<Layout>)
    ensures r.None? <==> cv2 && (!cap.isOpen || cap.frameCount <= 0)
    ensures r == Some(HistogramOrbName) <==>
              cv2 && cap.isOpen && cap.frameCount > 0 && numFrames >= 1 && histogramRead
    ensures r == Some(HistogramOrbName) ==> |FramesRead(cv2, cap, numFrames)| >= 1
  {
    if !cv2 then Some(SizeAndName)
    else if !cap.isOpen || cap.frameCount <= 0 then None
    else if numFrames <= 0 || !histogramRead then Some(SizeAndName)
    else Some(HistogramOrbName)
  }

  /** The frames the capture is asked to seek to: none without OpenCV or
      before the guards pass, otherwise the evenly spread picks. */
  function FramesRead(cv2: bool, cap: Capture, numFrames: int): (fs: seq<int>)
    ensures forall k :: 0 <= k < |fs| ==> 0 <= fs[k] < cap.frameCount
    ensures cv2 && cap.isOpen && cap.frameCount > 0 ==> |fs| == Max(0, numFrames)
    ensures !(cv2 && cap.isOpen && cap.frameCount > 0) ==> fs == []
  {
    if cv2 && cap.isOpen && cap.frameCount > 0 then Picks(cap.frameCount, numFrames) else []
  }

  /** The fallback vector before its two segments are normalised:
      `concatenate([size_vec, text_vec])`. */
  function FallbackRaw(size: nat, name: string): (v: seq<nat>)
    ensures |v| == FallbackLength
    ensures IsBytes(v[..SizeEntries]) && DecodeLE(v[..SizeEntries]) == size % Pow2(64)
    ensures v[SizeEntries..] == CountVector(Tokenize(name), TextDim)
    ensures Sum(v[SizeEntries..]) == |Tokenize(name)|
  {
    var v := SizeBytes(size) + CountVector(Tokenize(name), TextDim);
    assert v[..SizeEntries] == SizeBytes(size);
    assert v[SizeEntries..] == CountVector(Tokenize(name), TextDim);
    SizeBytesDecode(size);
    CountVectorSum(Tokenize(name), TextDim);
    v
  }

  /** `concatenate([color_hist_acc[:256], orb_mean[:32], text_vec])`. */
  function FullFeature<T>(hist: seq<T>, orb: seq<T>, text: seq<T>): (v: seq<T>)
    ensures |v| <= HistBins + OrbLen + |text|
    ensures |hist| == HistBins && |orb| == OrbLen && |text| == TextDim ==>
              |v| == FullLength &&
              v[..HistBins] == hist &&
              v[HistBins..HistBins + OrbLen] == orb &&
              v[HistBins + OrbLen..] == text
  {
    var v := hist[..Min(|hist|, HistBins)] + orb[..Min(|orb|, OrbLen)] + text;
    assert |hist| == HistBins && |orb| == OrbLen ==>
             v[..HistBins] == hist && v[HistBins..HistBins + OrbLen] == orb &&
             v[HistBins + OrbLen..] == text;
    v
  }

  // ---------------------------------------------------------------------
  // Lemmas

  /** Every returned vector has the length of its layout, 72 or 352: the
      fallback concatenation for `SizeAndName`, and the full one for
      `HistogramOrbName` given the 256 histogram bins `calcHist` produces and
      the 32 entries of `orb_mean`, with a 64-entry text vector. */
  lemma ExtractedLengths<T>(cv2: bool, cap: Capture, numFrames: int, histogramRead: bool,
                            size: nat, name: string, hist: seq<T>, orb: seq<T>, text: seq<T>)
    requires ExtractLayout(cv2, cap, numFrames, histogramRead).Some?
    requires |hist| == HistBins && |orb| == OrbLen
    requires |text| == TextDim
    ensures var l := ExtractLayout(cv2, cap, numFrames, histogramRead).value;
            (l == SizeAndName ==> |FallbackRaw(size, name)| == LayoutLength(l) == 72) &&
            (l == HistogramOrbName ==> |FullFeature(hist, orb, text)| == LayoutLength(l) == 352)
  {
  }

  /** With the default of eight samples and at least eight frames, eight
      distinct frames are read, the first being frame 0. */
  lemma DefaultSamplesDistinct(cap: Capture)
    requires cap.isOpen && cap.frameCount >= DefaultNumFrames
    ensures var fs := FramesRead(true, cap, DefaultNumFrames);
            |fs| == DefaultNumFrames && fs[0] == 0 &&
            forall j, k :: 0 <= j < k < |fs| ==> fs[j] < fs[k]
  {
    PicksStrictlyIncreasing(cap.frameCount, DefaultNumFrames);
  }
}
