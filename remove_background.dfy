/**
 * removeBackground in src/utils/imageProcessor.ts: the order of its steps,
 * the progress it reports, the segment it picks, the errors it raises and
 * the image it hands back. The segmentation model, the canvas contexts,
 * the pixels the browser draws and the PNG encoder are foreign code; what
 * they yield is given as an Environment.
 */
module BackgroundRemoval {
  import opened Wrappers
  import opened ImageResize
  import opened AlphaMask

  /**
   * One entry of the segmenter's result. The score is absent for models
   * that do not score their segments (a null or undefined score never
   * compares greater than 0.5); the mask is absent when the entry carries
   * none.
   */
  datatype Segment = Segment(labelText: string, score: Option<real>, mask: Option<seq<real>>)

  /** What awaiting the segmenter yields: a rejection, a value that is no array, or an array. */
  datatype SegmenterOutput = Throws | NotAnArray | Segments(segments: seq<Segment>)

  /** The errors removeBackground rethrows, one per failing step. */
  datatype Error =
    | ModelUnavailable           // the pipeline(...) call rejected
    | NoCanvasContext            // 'Could not get canvas context'
    | SegmenterFailed            // the segmenter(...) call rejected
    | InvalidSegmentationResult  // 'Invalid segmentation result'
    | NoSuitableMask             // 'No suitable mask found'
    | NoOutputContext            // 'Could not get output canvas context'
    | DrawFailed                 // drawImage from a canvas with a zero side throws a DOMException
    | BlobFailed                 // 'Failed to create image blob'

  /**
   * The results of the foreign calls in one run: the image's natural size,
   * whether the model loads, whether each 2d context is available, the
   * segmenter's output, the RGBA bytes getImageData reads back from the
   * output canvas, and whether the PNG encoder produces a blob for a canvas
   * with pixels.
   */
  datatype Environment = Environment(
    naturalWidth: nat,
    naturalHeight: nat,
    modelLoads: bool,
    contextAvailable: bool,
    segmentation: SegmenterOutput,
    outputContextAvailable: bool,
    drawn: seq<int>,
    encoderSucceeds: bool)

  /**
   * What the browser guarantees of the bytes getImageData returns for the
   * output canvas: four bytes per pixel of the working size, each in 0..255.
   */
  predicate DrawnFitsCanvas(env: Environment)
  {
    var dims := Fit(env.naturalWidth, env.naturalHeight);
    |env.drawn| == 4 * (dims.width * dims.height) &&
    forall k :: 0 <= k < |env.drawn| ==> 0 <= env.drawn[k] <= 255
  }

  /**
   * The PNG blob handed back: the output canvas's size and the RGBA buffer
   * passed to putImageData before encoding.
   */
  datatype Png = Png(width: nat, height: nat, rgba: seq<int>)

  /** The progress values passed to onProgress, in order, and how the promise settles. */
  datatype Report = Report(progress: seq<int>, outcome: Result<Png, Error>)

  /** The progress milestones 0.1, 0.3, 0.5, 0.8 and 1, as percentages. */
  const Milestones: seq<int> := [10, 30, 50, 80, 100]

  /**
   * The predicate given to result.find: labelled 'person', or scored above
   * 0.5. A segment without a score qualifies only by its label.
   */
  predicate IsForeground(s: Segment)
    ensures s.labelText == "person" ==> IsForeground(s)
    ensures s.score.None? ==> (IsForeground(s) <==> s.labelText == "person")
  {
    s.labelText == "person" || (s.score.Some? && s.score.value > 0.5)
  }

  /** Array.find with IsForeground: the index of the first matching segment, if any. */
  function FindForeground(segments: seq<Segment>): (r: Option<nat>)
    ensures r.Some? ==> r.value < |segments| && IsForeground(segments[r.value])
    ensures r.Some? ==> forall j :: 0 <= j < r.value ==> !IsForeground(segments[j])
    ensures r.None? ==> forall j :: 0 <= j < |segments| ==> !IsForeground(segments[j])
  {
    if |segments| == 0 then None
    else if IsForeground(segments[0]) then Some(0)
    else match FindForeground(segments[1..])
      case None => None
      case Some(i) => Some(i + 1)
  }

  /** Whether segments[i] is the first segment IsForeground accepts. */
  predicate IsFirstForeground(segments: seq<Segment>, i: int)
  {
    0 <= i < |segments| && IsForeground(segments[i]) &&
    forall j :: 0 <= j < i ==> !IsForeground(segments[j])
  }

  /**
   * `result.find(...)?.mask`: the first foreground segment decides. Its mask
   * is chosen, or, when it has none, no mask is, whatever later segments
   * carry; with no foreground segment there is no mask.
   */
  function SelectMask(segments: seq<Segment>): (m: Option<seq<real>>)
    ensures forall i :: IsFirstForeground(segments, i) ==> m == segments[i].mask
    ensures (forall j :: 0 <= j < |segments| ==> !IsForeground(segments[j])) ==> m.None?
  {
    match FindForeground(segments)
    case None => None
    case Some(i) => segments[i].mask
  }

  /** No mask is selected exactly when no segment matches or the first match has no mask. */
  lemma SelectMaskNone(segments: seq<Segment>)
    ensures SelectMask(segments).None? <==>
      (forall j :: 0 <= j < |segments| ==> !IsForeground(segments[j])) ||
      (exists i :: 0 <= i < |segments| && IsForeground(segments[i]) && segments[i].mask.None? &&
         forall j :: 0 <= j < i ==> !IsForeground(segments[j]))
  {
  }

  /**
   * The selection is not "take the first entry": a leading background
   * segment with a low score is passed over for the person behind it.
   */
  lemma SelectionSkipsBackground(sky: seq<real>, person: seq<real>)
    ensures SelectMask([Segment("sky", Some(0.2), Some(sky)), Segment("person", None, Some(person))]) == Some(person)
  {
    var segments := [Segment("sky", Some(0.2), Some(sky)), Segment("person", None, Some(person))];
    assert IsFirstForeground(segments, 1);
  }

  /** Whether the segmenter's output passes the 'Invalid segmentation result' guard. */
  predicate IsNonEmptyArray(out: SegmenterOutput)
  {
    out.Segments? && |out.segments| > 0
  }

  /**
   * The specification of removeBackground: progress is appended at each
   * milestone, and the first failing step settles the promise with its error.
   */
  function Run(env: Environment): (report: Report)
    ensures 1 <= |report.progress| <= |Milestones|
    ensures report.progress == Milestones[..|report.progress|]
    ensures report.outcome.Ok? ==> report.progress == Milestones
  {
    var p1 := [10];
    if !env.modelLoads then Report(p1, Err(ModelUnavailable))
    else
      var p2 := p1 + [30];
      if !env.contextAvailable then Report(p2, Err(NoCanvasContext))
      else
        var dims := Fit(env.naturalWidth, env.naturalHeight);
        var p3 := p2 + [50];
        if env.segmentation.Throws? then Report(p3, Err(SegmenterFailed))
        else
          var p4 := p3 + [80];
          if !IsNonEmptyArray(env.segmentation) then Report(p4, Err(InvalidSegmentationResult))
          else match SelectMask(env.segmentation.segments)
            case None => Report(p4, Err(NoSuitableMask))
            case Some(mask) =>
              if !env.outputContextAvailable then Report(p4, Err(NoOutputContext))
              else if dims.width == 0 || dims.height == 0 then Report(p4, Err(DrawFailed))
              else
                var pixels := MaskedPixels(env.drawn, mask);
                var p5 := p4 + [100];
                if !env.encoderSucceeds then Report(p5, Err(BlobFailed))
                else Report(p5, Ok(Png(dims.width, dims.height, pixels)))
  }

  /** Reported progress only ever increases. */
  lemma ProgressIncreasing(env: Environment)
    ensures var p := Run(env).progress;
      forall i, j :: 0 <= i < j < |p| ==> p[i] < p[j]
  {
  }

  /**
   * Every error raised before the mask is applied leaves a strict prefix
   * of the milestones: 1 is never reported. Only the blob encoder fails
   * after 1 has been reported.
   */
  lemma ErrorStopsProgress(env: Environment)
    requires Run(env).outcome.Err?
    ensures Run(env).outcome.error != BlobFailed <==> |Run(env).progress| < |Milestones|
    ensures Run(env).outcome.error != BlobFailed ==> 100 !in Run(env).progress
  {
  }

  /** The steps that must succeed before the output canvas is drawn. */
  predicate ReachesDraw(env: Environment)
  {
    env.modelLoads && env.contextAvailable && IsNonEmptyArray(env.segmentation) &&
    SelectMask(env.segmentation.segments).Some? && env.outputContextAvailable
  }

  /** The steps that must succeed before the mask is applied: a drawable canvas too. */
  predicate MaskApplied(env: Environment)
  {
    var dims := Fit(env.naturalWidth, env.naturalHeight);
    ReachesDraw(env) && dims.width > 0 && dims.height > 0
  }

  /** Progress 1 is reported if and only if the mask has been applied. */
  lemma DoneOnlyAfterMask(env: Environment)
    ensures 100 in Run(env).progress <==> MaskApplied(env)
    ensures MaskApplied(env) <==> Run(env).progress == Milestones
  {
  }

  /**
   * 'Invalid segmentation result' is raised exactly when the earlier steps
   * succeed and the segmenter yields no array or an empty one; the output
   * canvas is never reached, and 0.8 is the last progress reported.
   */
  lemma InvalidResultIff(env: Environment)
    ensures Run(env).outcome == Err(InvalidSegmentationResult) <==>
      env.modelLoads && env.contextAvailable && !env.segmentation.Throws? &&
      (env.segmentation.NotAnArray? || |env.segmentation.segments| == 0)
    ensures Run(env).outcome == Err(InvalidSegmentationResult) ==>
      Run(env).progress == [10, 30, 50, 80] && !ReachesDraw(env)
  {
  }

  /**
   * 'No suitable mask found' is raised exactly when the segmenter yields a
   * non-empty array in which no segment is foreground or the first
   * foreground segment has no mask.
   */
  lemma NoSuitableMaskIff(env: Environment)
    ensures Run(env).outcome == Err(NoSuitableMask) <==>
      env.modelLoads && env.contextAvailable && IsNonEmptyArray(env.segmentation) &&
      (FindForeground(env.segmentation.segments).None? ||
       env.segmentation.segments[FindForeground(env.segmentation.segments).value].mask.None?)
  {
  }

  /**
   * Drawing the working canvas into the output canvas fails exactly when
   * the earlier steps succeed and the working canvas has a zero side; 0.8
   * is then the last progress reported, and no encoding is attempted.
   */
  lemma DrawFailedIff(env: Environment)
    ensures Run(env).outcome == Err(DrawFailed) <==>
      ReachesDraw(env) &&
      (Fit(env.naturalWidth, env.naturalHeight).width == 0 || Fit(env.naturalWidth, env.naturalHeight).height == 0)
    ensures Run(env).outcome == Err(DrawFailed) ==> Run(env).progress == [10, 30, 50, 80]
  {
  }

  /**
   * An image with a zero side, or so elongated that its scaled short side
   * rounds to 0 (in either orientation), fails at the draw once it gets
   * there: no mask is applied and 1 is never reported.
   */
  lemma CollapsedImageFails(env: Environment)
    requires ReachesDraw(env)
    ensures Run(env).outcome == Err(DrawFailed) <==>
      env.naturalWidth == 0 || env.naturalHeight == 0 ||
      (NeedsResize(env.naturalWidth, env.naturalHeight) &&
       if env.naturalWidth > env.naturalHeight
       then 2 * env.naturalHeight * MaxDimension < env.naturalWidth
       else 2 * env.naturalWidth * MaxDimension < env.naturalHeight)
    ensures Run(env).outcome == Err(DrawFailed) ==> Run(env).progress == [10, 30, 50, 80]
  {
    FitHasZeroSide(env.naturalWidth, env.naturalHeight);
  }

  /**
   * On success the blob has the working dimensions of the image, both
   * non-zero, and the buffer passed to putImageData holds the drawn pixels
   * with the alpha of the first foreground segment's mask. When the drawn
   * bytes are what the browser yields, that buffer holds one RGBA quad of
   * bytes per pixel, and with one mask score per pixel each pixel in it
   * keeps its colour and takes its alpha from its own score.
   */
  lemma SuccessContents(env: Environment)
    requires Run(env).outcome.Ok?
    ensures MaskApplied(env)
    ensures var png := Run(env).outcome.value;
      var mask := SelectMask(env.segmentation.segments).value;
      Dims(png.width, png.height) == Fit(env.naturalWidth, env.naturalHeight) &&
      png.width > 0 && png.height > 0 && png.width <= MaxDimension && png.height <= MaxDimension &&
      png.rgba == MaskedPixels(env.drawn, mask)
    ensures var png := Run(env).outcome.value;
      DrawnFitsCanvas(env) ==>
        |png.rgba| == 4 * (png.width * png.height) &&
        forall k :: 0 <= k < |png.rgba| ==> 0 <= png.rgba[k] <= 255
    ensures var png := Run(env).outcome.value;
      var mask := SelectMask(env.segmentation.segments).value;
      DrawnFitsCanvas(env) && |mask| == png.width * png.height ==>
        forall k :: 0 <= k < |png.rgba| ==>
          png.rgba[k] == if k % 4 == 3 then Alpha(mask[k / 4]) else env.drawn[k]
  {
    var mask := SelectMask(env.segmentation.segments).value;
    var dims := Fit(env.naturalWidth, env.naturalHeight);
    if DrawnFitsCanvas(env) {
      MaskKeepsBytes(env.drawn, mask);
      if |mask| == dims.width * dims.height {
        MaskFullCoverage(env.drawn, mask, dims.width * dims.height);
      }
    }
  }

  /**
   * removeBackground, step by step: a working canvas sized by
   * ResizeImageIfNeeded, an output canvas of the same size, the drawn bytes
   * copied into a pixel buffer that ApplyMask updates in place, and each
   * onProgress call appended to the progress trace.
   */
  method RemoveBackground(env: Environment) returns (report: Report)
    ensures report == Run(env)
  {
    var progress := [10];
    if !env.modelLoads {
      return Report(progress, Err(ModelUnavailable));
    }
    progress := progress + [30];
    var canvas := new Canvas();
    if !env.contextAvailable {
      return Report(progress, Err(NoCanvasContext));
    }
    var wasResized := ResizeImageIfNeeded(canvas, env.naturalWidth, env.naturalHeight);
    progress := progress + [50];
    if env.segmentation.Throws? {
      return Report(progress, Err(SegmenterFailed));
    }
    progress := progress + [80];
    if !IsNonEmptyArray(env.segmentation) {
      return Report(progress, Err(InvalidSegmentationResult));
    }
    var personMask := SelectMask(env.segmentation.segments);
    if personMask.None? {
      return Report(progress, Err(NoSuitableMask));
    }
    var output := new Canvas();
    output.width := canvas.width;
    output.height := canvas.height;
    if !env.outputContextAvailable {
      return Report(progress, Err(NoOutputContext));
    }
    if output.width == 0 || output.height == 0 {
      return Report(progress, Err(DrawFailed));
    }
    var data := new int[|env.drawn|](k requires 0 <= k < |env.drawn| => env.drawn[k]);
    assert data[..] == env.drawn;
    ApplyMask(data, personMask.value);
    progress := progress + [100];
    if !env.encoderSucceeds {
      return Report(progress, Err(BlobFailed));
    }
    return Report(progress, Ok(Png(output.width, output.height, data[..])));
  }
}
