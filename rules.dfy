/** The pure decisions of the converter: which decoder a suffix selects,
    where the output goes, the colour mode a frame is converted to, the
    duration read for an image frame, the lossless flag, and the timing of
    video frames. */
module Rules {
  import opened Media
  import opened Paths

  /** The decoder path a file takes, chosen by its suffix. */
  datatype Route = ImageRoute | VideoRoute | Unsupported

  const ImageSuffixes: seq<string> := [".jpg", ".jpeg", ".png", ".bmp", ".gif"]
  const VideoSuffixes: seq<string> := [".mp4", ".avi", ".mov", ".mkv"]

  /** Classification by the lower-cased suffix. */
  function Classify(suffix: string): Route
  {
    var extension := Lower(suffix);
    if extension in ImageSuffixes then ImageRoute
    else if extension in VideoSuffixes then VideoRoute
    else Unsupported
  }

  /** The text of the error raised for an unsupported suffix: a fixed
      message followed by the extension. */
  function UnsupportedMessage(extension: string): (m: string)
    ensures |m| > |extension| && m[|m| - |extension|..] == extension
    ensures m[..|m| - |extension|] == "Format non supporté: "
  {
    "Format non supporté: " + extension
  }

  predicate IsLowerCase(s: string)
  {
    forall i :: 0 <= i < |s| ==> !('A' <= s[i] <= 'Z')
  }

  lemma LowerOfLowerCase(s: string)
    requires IsLowerCase(s)
    ensures Lower(s) == s
  {
    assert forall i :: 0 <= i < |s| ==> Lower(s)[i] == s[i];
  }

  lemma SuffixListsAreLowerCase()
    ensures forall e :: e in ImageSuffixes ==> IsLowerCase(e) && Lower(e) == e
    ensures forall e :: e in VideoSuffixes ==> IsLowerCase(e) && Lower(e) == e
  {
    forall e | e in ImageSuffixes + VideoSuffixes ensures IsLowerCase(e) && Lower(e) == e {
      assert IsLowerCase(e);
      LowerOfLowerCase(e);
    }
  }

  /** A suffix takes the image path exactly when it equals one of the image
      extensions up to case, the video path exactly when it equals one of the
      video extensions up to case, and is unsupported otherwise. */
  lemma ClassifyBySuffixSets(suffix: string)
    ensures Classify(suffix) == ImageRoute <==>
              exists e :: e in ImageSuffixes && SameIgnoringCase(suffix, e)
    ensures Classify(suffix) == VideoRoute <==>
              (exists e :: e in VideoSuffixes && SameIgnoringCase(suffix, e)) &&
              !(exists e :: e in ImageSuffixes && SameIgnoringCase(suffix, e))
    ensures Classify(suffix) == Unsupported <==>
              forall e :: e in ImageSuffixes + VideoSuffixes ==> !SameIgnoringCase(suffix, e)
  {
    SuffixListsAreLowerCase();
    forall e | e in ImageSuffixes + VideoSuffixes
      ensures SameIgnoringCase(suffix, e) <==> Lower(suffix) == e
    {
      LowerCharacterises(suffix, e);
    }
  }

  /** Classification ignores case. */
  lemma ClassifyIgnoresCase(a: string, b: string)
    requires SameIgnoringCase(a, b)
    ensures Classify(a) == Classify(b)
  {
    LowerCharacterises(a, b);
  }

  /** A supported suffix starts with a dot and has at least four
      characters, as every listed extension does. */
  lemma SupportedSuffixShape(suffix: string)
    requires Classify(suffix) != Unsupported
    ensures |suffix| >= 4 && suffix[0] == '.'
  {
    assert Lower(suffix)[0] == LowerChar(suffix[0]);
  }

  /** The output of an input file: `<output dir>/<stem>.webp`. */
  function OutputPath(outputDir: string, input: FilePath): FilePath
  {
    FilePath(outputDir, Stem(input.name) + ".webp")
  }

  /** The temporary path an intermediate save writes first. */
  function TempPath(output: FilePath): FilePath
  {
    FilePath(output.dir, WithSuffix(output.name, ".temp.webp"))
  }

  /** The temporary path is a sibling of the output, and never the output
      itself, whatever its name. */
  lemma TempPathIsSibling(output: FilePath)
    ensures TempPath(output).dir == output.dir
    ensures TempPath(output) != output
  {
    assert ".temp.webp"[5] == '.';
    NewInnerDotSuffixChanges(output.name, ".temp.webp");
  }

  /** For every supported input the output lies in the output directory,
      keeps the input's stem and has the suffix ".webp"; its temporary
      sibling is `<stem>.temp.webp` beside it, a different path. */
  lemma OutputNaming(outputDir: string, input: FilePath)
    requires Classify(Suffix(input.name)) != Unsupported
    ensures OutputPath(outputDir, input).dir == outputDir
    ensures Stem(OutputPath(outputDir, input).name) == Stem(input.name)
    ensures Suffix(OutputPath(outputDir, input).name) == ".webp"
    ensures TempPath(OutputPath(outputDir, input)) ==
              FilePath(outputDir, Stem(input.name) + ".temp.webp")
    ensures TempPath(OutputPath(outputDir, input)) != OutputPath(outputDir, input)
  {
    SupportedSuffixShape(Suffix(input.name));
    StemSuffixSplit(input.name);
    SplitOfJoined(Stem(input.name), ".webp");
    var stem := Stem(input.name);
    assert |stem + ".temp.webp"| != |stem + ".webp"|;
  }

  /** Two inputs can share a path: the output of an image named
      `<stem>.temp.png` is the temporary path of a video named `<stem>.mp4`
      converted to the same directory, so an intermediate save of the video
      removes it. */
  lemma TempPathCollision(outputDir: string, imageDir: string, videoDir: string, stem: string)
    requires |stem| > 0
    ensures Classify(Suffix(stem + ".temp.png")) == ImageRoute
    ensures Classify(Suffix(stem + ".mp4")) == VideoRoute
    ensures OutputPath(outputDir, FilePath(imageDir, stem + ".temp.png")) ==
              TempPath(OutputPath(outputDir, FilePath(videoDir, stem + ".mp4")))
  {
    TempNameCollision(stem);
    ClassifyExamples();
  }

  /** `.png` selects the image decoder and `.mp4` the video decoder. */
  lemma ClassifyExamples()
    ensures Classify(".png") == ImageRoute && Classify(".mp4") == VideoRoute
  {
    SuffixListsAreLowerCase();
    assert ImageSuffixes[2] == ".png" && VideoSuffixes[0] == ".mp4";
  }

  /** The colour mode a frame is converted to: RGBA when it has an alpha
      channel or is a palette image with a transparency entry, else RGB. */
  function TargetMode(mode: string, info: Info): (m: ColourMode)
    ensures m == RGBA <==> mode == "RGBA" || mode == "LA" || (mode == "P" && "transparency" in info)
    ensures mode != "RGBA" && mode != "LA" && mode != "P" ==> m == RGB
  {
    if mode in ["RGBA", "LA"] || (mode == "P" && "transparency" in info) then RGBA else RGB
  }

  /** `dict.get(key, default)`. */
  function Get(info: Info, key: string, default: InfoValue): InfoValue
  {
    if key in info then info[key] else default
  }

  /** The duration of an image frame, read from the info dictionary of the
      frame the cursor is on. The frame number plays no part: the result is
      the stored duration when there is one that is not None, and 100 ms
      otherwise. */
  function FrameDuration(info: Info, frameNumber: nat): (d: int)
    ensures "duration" in info && info["duration"].IntValue? ==> d == info["duration"].n
    ensures !("duration" in info && info["duration"].IntValue?) ==> d == 100
  {
    var first := Get(info, "duration", NoneValue);
    var duration :=
      if first == NoneValue && "loop" in info then Get(info, "duration", IntValue(100)) else first;
    if duration != NoneValue then duration.n else 100
  }

  /** The lossless flag passed at every save. */
  function Lossless(quality: int): bool
  {
    quality >= 95
  }

  /** The parameters of the animated-image save. */
  function AnimatedParams(durations: seq<int>, quality: int): SaveParams
  {
    SaveParams(true, Some(PerFrame(durations)), Some(0), quality, true, Lossless(quality))
  }

  /** The parameters of the static-image save (no animation arguments). */
  function StaticParams(quality: int): SaveParams
  {
    SaveParams(false, None, None, quality, false, Lossless(quality))
  }

  /** The parameters of every video save. */
  function VideoParams(frameDuration: int, quality: int): SaveParams
  {
    SaveParams(true, Some(Uniform(frameDuration)), Some(0), quality, true, Lossless(quality))
  }

  /** At all three save sites lossless encoding is chosen exactly for
      quality 95 and above; every save passes the quality through, and the
      animated saves loop forever and minimise size. */
  lemma LosslessAtEverySaveSite(durations: seq<int>, frameDuration: int, quality: int)
    ensures AnimatedParams(durations, quality).lossless <==> quality >= 95
    ensures StaticParams(quality).lossless <==> quality >= 95
    ensures VideoParams(frameDuration, quality).lossless <==> quality >= 95
    ensures AnimatedParams(durations, quality).quality == quality
    ensures StaticParams(quality).quality == quality
    ensures VideoParams(frameDuration, quality).quality == quality
    ensures AnimatedParams(durations, quality).loop == Some(0)
    ensures VideoParams(frameDuration, quality).loop == Some(0)
  {
  }

  /** The frame rate used for a video: the reported one when positive,
      30 otherwise. */
  function EffectiveFps(reported: real): (fps: real)
    ensures fps > 0.0
    ensures reported <= 0.0 ==> fps == 30.0
    ensures reported > 0.0 ==> fps == reported
  {
    if reported <= 0.0 then 30.0 else reported
  }

  /** `int(1000 / fps)`: the quotient truncated toward zero, which for a
      positive rate is its floor: the whole number of milliseconds with at
      most one millisecond of the exact frame period cut off. */
  function VideoFrameDuration(fps: real): (d: int)
    requires fps > 0.0
    ensures d >= 0
    ensures d as real <= 1000.0 / fps < d as real + 1.0
  {
    (1000.0 / fps).Floor
  }

  /** A video whose reported rate is not positive gets 33 ms frames. */
  lemma DefaultVideoTiming(reported: real)
    requires reported <= 0.0
    ensures VideoFrameDuration(EffectiveFps(reported)) == 33
  {
    assert 33.0 <= 1000.0 / 30.0 < 34.0;
  }
}
