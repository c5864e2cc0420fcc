/**
 * The digit recogniser `SimpleASR` of get_response/asr.py, without the
 * neural network: cutting a recording into one window per non-silent chunk,
 * padding or cutting each window to the classifier's input length, and
 * joining the predicted digit names into a transcript.
 */
module SimpleAsr {
  import opened PyStr

  /** `SimpleASR.label`: the classifier's output index and the digit it names. */
  const Label: map<int, string> := map[
    0 := "zero", 1 := "one", 2 := "two", 3 := "three", 4 := "four",
    5 := "five", 6 := "six", 7 := "seven", 8 := "eight", 9 := "nine"]

  /** What the classifier's arg-max can be: one of its ten classes. */
  type ClassIndex = i: int | 0 <= i < 10

  predicate IsLowerLetter(c: char) {
    'a' <= c <= 'z'
  }

  /** Every class has a label, made of lower-case letters only. */
  lemma LabelTable(i: ClassIndex)
    ensures i in Label && Label[i] != []
    ensures forall k :: 0 <= k < |Label[i]| ==> IsLowerLetter(Label[i][k])
  {
  }

  // ---------------------------------------------------------------------
  // _get_features: pad or cut to the classifier's input length
  // ---------------------------------------------------------------------

  /** The number of samples the classifier takes. */
  const FeatureLength: nat := 44000

  /**
   * The pad-or-slice step of `_get_features`: the first 44000 samples of a
   * long recording, or a short one followed by zeros up to 44000 samples.
   */
  function PadOrTruncate(wav: seq<int>): (r: seq<int>)
    ensures |r| == FeatureLength
    ensures forall k :: 0 <= k < |wav| && k < FeatureLength ==> r[k] == wav[k]
    ensures forall k :: |wav| <= k < FeatureLength ==> r[k] == 0
  {
    if |wav| >= FeatureLength then wav[..FeatureLength]
    else wav + seq(FeatureLength - |wav|, _ => 0)
  }

  /** Trailing silence does not change the features, so the step is idempotent. */
  lemma PadOrTruncateIgnoresTrailingZeros(wav: seq<int>, n: nat)
    ensures PadOrTruncate(wav + seq(n, _ => 0)) == PadOrTruncate(wav)
    ensures PadOrTruncate(PadOrTruncate(wav)) == PadOrTruncate(wav)
  {
    var a, b := PadOrTruncate(wav + seq(n, _ => 0)), PadOrTruncate(wav);
    forall k | 0 <= k < FeatureLength ensures a[k] == b[k] {
      if k < |wav| {
        assert (wav + seq(n, _ => 0))[k] == wav[k];
      } else if k < |wav| + n {
        assert (wav + seq(n, _ => 0))[k] == 0;
      }
    }
  }

  // ---------------------------------------------------------------------
  // _split_digits: one widened window per non-silent chunk
  // ---------------------------------------------------------------------

  /** A non-silent stretch of the recording, in milliseconds, as silence detection reports it. */
  datatype Chunk = Chunk(start: int, end: int)

  /** `int(math.fabs(frame_rate * 0.2))`: a fifth of a second of samples. */
  function AddedWindow(frameRate: int): (w: nat)
    ensures var rate := if frameRate < 0 then -frameRate else frameRate;
      5 * w <= rate < 5 * w + 5
  {
    (if frameRate < 0 then -frameRate else frameRate) / 5
  }

  /** `math.ceil(ms / 1000 * frame_rate)`: the first sample at or after `ms` milliseconds. */
  function MsToSample(ms: int, frameRate: int): (pos: int)
    ensures 1000 * pos - 1000 < ms * frameRate <= 1000 * pos
  {
    -((-(ms * frameRate)) / 1000)
  }

  /** `start_pos`: the chunk's first sample moved back by the window, but not before 0. */
  function StartPos(c: Chunk, frameRate: int): (pos: nat)
    ensures pos >= MsToSample(c.start, frameRate) - AddedWindow(frameRate)
    ensures pos == 0 || pos == MsToSample(c.start, frameRate) - AddedWindow(frameRate)
  {
    var p := MsToSample(c.start, frameRate) - AddedWindow(frameRate);
    if p > 0 then p else 0
  }

  /** `end_pos`: the chunk's end sample moved on by the window, but not past the recording. */
  function EndPos(c: Chunk, frameRate: int, n: nat): (pos: int)
    ensures pos <= n && pos <= MsToSample(c.end, frameRate) + AddedWindow(frameRate)
    ensures pos == n || pos == MsToSample(c.end, frameRate) + AddedWindow(frameRate)
  {
    var p := MsToSample(c.end, frameRate) + AddedWindow(frameRate);
    if p < n then p else n
  }

  /**
   * `tf_audio[start_pos:end_pos]`: once the end bound is not negative (a
   * negative one would count from the end), exactly the samples from
   * `start_pos` up to `end_pos`, and empty when the window is empty.
   */
  function Segment(audio: seq<int>, frameRate: int, c: Chunk): (seg: seq<int>)
    ensures var s, e := StartPos(c, frameRate), EndPos(c, frameRate, |audio|);
      e >= 0 ==>
        |seg| == (if s <= e then e - s else 0)
        && forall k :: 0 <= k < |seg| ==> seg[k] == audio[s + k]
  {
    Slice(audio, StartPos(c, frameRate), EndPos(c, frameRate, |audio|))
  }

  /**
   * The window covers the chunk: each sample of the recording that lies in
   * the chunk itself is in the segment, at its offset from `start_pos`.
   */
  lemma SegmentCoversChunk(audio: seq<int>, frameRate: int, c: Chunk, j: int)
    requires 0 <= j < |audio|
    requires MsToSample(c.start, frameRate) <= j < MsToSample(c.end, frameRate)
    ensures var s := StartPos(c, frameRate);
      s <= j && j - s < |Segment(audio, frameRate, c)| && Segment(audio, frameRate, c)[j - s] == audio[j]
  {
  }

  /** `_split_digits`: one segment per chunk, in the order of the chunks. */
  method SplitDigits(audio: seq<int>, frameRate: int, chunks: seq<Chunk>) returns (segments: seq<seq<int>>)
    ensures |segments| == |chunks|
    ensures forall k :: 0 <= k < |chunks| ==> segments[k] == Segment(audio, frameRate, chunks[k])
  {
    segments := [];
    var addedWindow := AddedWindow(frameRate);
    for i := 0 to |chunks|
      invariant |segments| == i
      invariant forall k :: 0 <= k < i ==> segments[k] == Segment(audio, frameRate, chunks[k])
    {
      var startPos := MsToSample(chunks[i].start, frameRate) - addedWindow;
      if startPos < 0 {
        startPos := 0;
      }
      var endPos := MsToSample(chunks[i].end, frameRate) + addedWindow;
      if endPos > |audio| {
        endPos := |audio|;
      }
      segments := segments + [Slice(audio, startPos, endPos)];
    }
  }

  // ---------------------------------------------------------------------
  // _transcribe: classify every segment and join the labels
  // ---------------------------------------------------------------------

  /** The label of every predicted class, in order. */
  function Words(predictions: seq<ClassIndex>): (words: seq<string>)
    ensures |words| == |predictions|
    ensures forall k :: 0 <= k < |words| ==> words[k] in Label.Values
  {
    seq(|predictions|, k requires 0 <= k < |predictions| => LabelTable(predictions[k]); Label[predictions[k]])
  }

  /** The transcript `_transcribe` promises: the labels joined by single spaces. */
  function Transcript(predictions: seq<ClassIndex>): string
  {
    Join(Words(predictions), ' ')
  }

  /**
   * The class the classifier picks for each chunk's padded segment; the
   * network, its spectrogram and the arg-max are the opaque `classify`.
   */
  function Predictions(audio: seq<int>, frameRate: int, chunks: seq<Chunk>, classify: seq<int> -> ClassIndex): (p: seq<ClassIndex>)
    ensures |p| == |chunks|
  {
    seq<ClassIndex>(|chunks|, k requires 0 <= k < |chunks| => classify(PadOrTruncate(Segment(audio, frameRate, chunks[k]))))
  }

  /** " w1 w2 ... wn": the text the loop of `_transcribe` accumulates before `strip()`. */
  function SpaceLed(words: seq<string>): string
  {
    if words == [] then "" else SpaceLed(words[..|words| - 1]) + " " + words[|words| - 1]
  }

  /** One more prediction adds a space and its label to the accumulated text. */
  lemma SpaceLedStep(predictions: seq<ClassIndex>, i: nat)
    requires i < |predictions|
    ensures predictions[i] in Label
    ensures SpaceLed(Words(predictions[..i + 1])) == SpaceLed(Words(predictions[..i])) + " " + Label[predictions[i]]
  {
    LabelTable(predictions[i]);
    var w := Words(predictions[..i + 1]);
    assert w[..|w| - 1] == Words(predictions[..i]);
  }

  /** The accumulated text is a space followed by the words joined by single spaces. */
  lemma {:induction false} SpaceLedIsJoin(words: seq<string>)
    requires words != []
    ensures SpaceLed(words) == " " + Join(words, ' ')
  {
    if |words| > 1 {
      var init := words[..|words| - 1];
      SpaceLedIsJoin(init);
      JoinSnoc(init, words[|words| - 1], ' ');
      assert init + [words[|words| - 1]] == words;
    }
  }

  /** Stripping the accumulated text leaves the labels joined by single spaces. */
  lemma StripSpaceLed(predictions: seq<ClassIndex>)
    ensures Strip(SpaceLed(Words(predictions))) == Transcript(predictions)
  {
    var words := Words(predictions);
    if words != [] {
      SpaceLedIsJoin(words);
      var j := Join(words, ' ');
      forall k | 0 <= k < |words| ensures words[k] != [] {
        LabelTable(predictions[k]);
      }
      JoinEnds(words, ' ');
      LabelTable(predictions[0]);
      LabelTable(predictions[|predictions| - 1]);
      assert !IsSpace(j[0]) && !IsSpace(j[|j| - 1]);
      StripLeadingSpace(j);
    }
  }

  /**
   * `_transcribe`: split the recording, classify the padded segment of
   * every chunk and join the labels of the predicted classes.
   */
  method Transcribe(audio: seq<int>, frameRate: int, chunks: seq<Chunk>, classify: seq<int> -> ClassIndex)
    returns (text: string)
    ensures text == Transcript(Predictions(audio, frameRate, chunks, classify))
  {
    var segments := SplitDigits(audio, frameRate, chunks);
    ghost var predicted := Predictions(audio, frameRate, chunks, classify);
    var resultText := "";
    for i := 0 to |segments|
      invariant resultText == SpaceLed(Words(predicted[..i]))
    {
      var sample := PadOrTruncate(segments[i]);
      var prediction := classify(sample);
      assert prediction == predicted[i];
      SpaceLedStep(predicted, i);
      resultText := resultText + " " + Label[prediction];
      assert resultText == SpaceLed(Words(predicted[..i + 1]));
    }
    assert predicted[..|segments|] == predicted;
    StripSpaceLed(predicted);
    text := Strip(resultText);
  }

  /**
   * A transcript has one word per chunk, each a label, and splitting it on
   * single spaces gives the labels back in chunk order; it neither starts nor
   * ends with a space, and with no chunk it is empty.
   */
  lemma TranscriptWords(predictions: seq<ClassIndex>)
    ensures predictions == [] ==> Transcript(predictions) == ""
    ensures predictions != [] ==> Split(Transcript(predictions), ' ') == Words(predictions)
    ensures var t := Transcript(predictions);
      predictions != [] ==> t != [] && t[0] != ' ' && t[|t| - 1] != ' '
  {
    var words := Words(predictions);
    if predictions != [] {
      forall k | 0 <= k < |words| ensures ' ' !in words[k] && words[k] != [] {
        LabelTable(predictions[k]);
      }
      SplitJoin(words, ' ');
      JoinEnds(words, ' ');
      assert words[0][0] in words[0];
      assert words[|words| - 1][|words[|words| - 1]| - 1] in words[|words| - 1];
    }
  }
}
