/** What converting one input file does, as a function of the file: the
    error it raises, if any, and the saves it makes, in order. */
module Pipeline {
  import opened Media
  import opened Paths
  import opened Rules
  import opened Batching
  import opened Decoders

  /** The error a file's conversion raises, or None when it completes. */
  function FileError(f: InputFile): Option<string>
  {
    match Classify(Suffix(f.path.name))
    case ImageRoute => (match f.image
                        case OpenFailed(reason) => Some(reason)
                        case Opened(_) => None)
    case VideoRoute => None
    case Unsupported => Some(UnsupportedMessage(Lower(Suffix(f.path.name))))
  }

  /** The saves of the image path: one animated save of every frame with its
      own duration, or one static save of the only frame. */
  function ImageCommits(output: FilePath, image: ImageOpen, quality: int): seq<Commit>
  {
    match image
    case OpenFailed(_) => []
    case Opened(src) =>
      if |src| >= 2 then
        [Commit(output, WebpFile(DecodeAll(src), AnimatedParams(DurationsOf(src), quality)), true)]
      else
        [Commit(output, WebpFile([DecodeFrame(src[0])], StaticParams(quality)), true)]
  }

  /** The saves a sequence of batches turns into, all for one target with
      the same parameters. */
  function AsCommits(target: FilePath, bs: seq<Batch<Frame>>, params: SaveParams): (r: seq<Commit>)
    ensures |r| == |bs|
  {
    if bs == [] then []
    else AsCommits(target, bs[..|bs| - 1], params) +
         [Commit(target, WebpFile(bs[|bs| - 1].frames, params), bs[|bs| - 1].isFinal)]
  }

  /** The frame duration of every save of a video. */
  function VideoDuration(video: VideoSource): int
  {
    VideoFrameDuration(EffectiveFps(video.fps))
  }

  /** The saves of the video path: one per batch of the decoded stream. */
  function VideoCommits(output: FilePath, video: VideoSource, quality: int): seq<Commit>
  {
    AsCommits(output, Batches(DecodeVideo(video.frames)), VideoParams(VideoDuration(video), quality))
  }

  /** The saves of a video are its intermediate saves followed, when it has
      frames, by one final save of the remainder. */
  lemma VideoCommitsSplit(output: FilePath, video: VideoSource, quality: int)
    ensures VideoCommits(output, video, quality) ==
              IntermediateSaves(output, DecodeVideo(video.frames), |video.frames|,
                                VideoParams(VideoDuration(video), quality)) +
              (if video.frames == [] then []
               else [Commit(output, WebpFile(Remainder(DecodeVideo(video.frames)),
                                             VideoParams(VideoDuration(video), quality)), true)])
  {
    var s := DecodeVideo(video.frames);
    var params := VideoParams(VideoDuration(video), quality);
    FlushCountBounds(|s|);
    if s != [] {
      AsCommitsSnoc(output, Flushes(s, FlushCount(|s|)), Batch(Remainder(s), true), params);
    }
  }

  /** The saves converting one file makes. */
  function FileCommits(outputDir: string, f: InputFile, quality: int): seq<Commit>
  {
    match Classify(Suffix(f.path.name))
    case ImageRoute => ImageCommits(OutputPath(outputDir, f.path), f.image, quality)
    case VideoRoute => VideoCommits(OutputPath(outputDir, f.path), f.video, quality)
    case Unsupported => []
  }

  /** The saves converting the first `k` files in order makes. */
  function CommitsUpTo(outputDir: string, files: seq<InputFile>, k: nat, quality: int): seq<Commit>
    requires k <= |files|
  {
    if k == 0 then []
    else CommitsUpTo(outputDir, files, k - 1, quality) + FileCommits(outputDir, files[k - 1], quality)
  }

  /** The saves converting every file in order makes. */
  function AllCommits(outputDir: string, files: seq<InputFile>, quality: int): seq<Commit>
  {
    CommitsUpTo(outputDir, files, |files|, quality)
  }

  /** The batches a sequence of saves hands to the encoder. */
  function CommittedBatches(cs: seq<Commit>): (r: seq<Batch<Frame>>)
    ensures |r| == |cs|
  {
    seq(|cs|, i requires 0 <= i < |cs| => Batch(cs[i].file.frames, cs[i].isFinal))
  }

  lemma {:induction false} AsCommitsAt(target: FilePath, bs: seq<Batch<Frame>>, params: SaveParams, j: nat)
    requires j < |bs|
    ensures AsCommits(target, bs, params)[j] ==
              Commit(target, WebpFile(bs[j].frames, params), bs[j].isFinal)
  {
    if j < |bs| - 1 {
      AsCommitsAt(target, bs[..|bs| - 1], params, j);
    }
  }

  lemma AsCommitsSnoc(target: FilePath, bs: seq<Batch<Frame>>, b: Batch<Frame>, params: SaveParams)
    ensures AsCommits(target, bs + [b], params) ==
              AsCommits(target, bs, params) + [Commit(target, WebpFile(b.frames, params), b.isFinal)]
  {
    assert (bs + [b])[..|bs|] == bs;
  }

  /** The intermediate saves of stream `s` made once its first `n` frames
      are read. */
  function IntermediateSaves(target: FilePath, s: seq<Frame>, n: nat, params: SaveParams): (r: seq<Commit>)
    requires n <= |s|
    ensures |r| == FlushCount(n)
  {
    FlushesLength(s, FlushCount(n));
    AsCommits(target, Flushes(s, FlushCount(n)), params)
  }

  /** The saves made when the buffer holds `frames` after a read: one
      non-final save of it once it exceeds the ceiling, none before. */
  function PushedSaves(target: FilePath, frames: seq<Frame>, params: SaveParams): seq<Commit>
  {
    if |frames| > Ceiling then [Commit(target, WebpFile(frames, params), false)] else []
  }

  /** What the buffer holds after those saves: its last frame once it was
      saved, all of it otherwise. */
  function Pushed(frames: seq<Frame>): seq<Frame>
  {
    if |frames| > Ceiling then frames[|frames| - 1..] else frames
  }

  /** One frame read at position `p` of stream `s` onto the buffer
      `s[BufferStart(p) .. p]`. When the buffer then exceeds the ceiling, the
      saves gain one non-final commit of the buffer and the buffer is cut to
      its last frame; otherwise the saves stay and the frame is kept. Either
      way the buffer is again the stream from `BufferStart(p + 1)` to `p + 1`. */
  lemma BufferStep(target: FilePath, s: seq<Frame>, p: nat, frames: seq<Frame>, params: SaveParams)
    requires p < |s| && BufferStart(p) <= p
    requires frames == s[BufferStart(p) .. p] + [s[p]]
    ensures BufferStart(p + 1) <= p + 1
    ensures IntermediateSaves(target, s, p + 1, params) ==
              IntermediateSaves(target, s, p, params) + PushedSaves(target, frames, params)
    ensures Pushed(frames) == s[BufferStart(p + 1) .. p + 1]
  {
    AdvanceArithmetic(p);
    if |frames| > Ceiling {
      BufferOverflows(target, s, p, frames, params);
    } else {
      assert FlushCount(p + 1) == FlushCount(p);
      assert frames == s[BufferStart(p + 1) .. p + 1];
    }
  }

  /** The case of `BufferStep` where the buffer exceeds the ceiling. */
  lemma BufferOverflows(target: FilePath, s: seq<Frame>, p: nat, frames: seq<Frame>, params: SaveParams)
    requires p < |s| && BufferStart(p) <= p
    requires frames == s[BufferStart(p) .. p] + [s[p]] && |frames| > Ceiling
    ensures BufferStart(p + 1) == p
    ensures IntermediateSaves(target, s, p + 1, params) ==
              IntermediateSaves(target, s, p, params) + [Commit(target, WebpFile(frames, params), false)]
  {
    FlushOnOverflow(s, p);
    assert frames == s[BufferStart(p) .. p + 1];
    AsCommitsSnoc(target, Flushes(s, FlushCount(p)), Batch(frames, false), params);
  }

  /** A file's conversion raises exactly when its suffix is unsupported or
      it is an image that cannot be opened; a video never raises. */
  lemma FileErrorCases(f: InputFile)
    ensures FileError(f).Some? <==>
              Classify(Suffix(f.path.name)) == Unsupported ||
              (Classify(Suffix(f.path.name)) == ImageRoute && f.image.OpenFailed?)
    ensures Classify(Suffix(f.path.name)) == Unsupported ==>
              FileError(f) == Some(UnsupportedMessage(Lower(Suffix(f.path.name))))
  {
  }

  /** A video is saved once per `Ceiling` frames after the first, plus once
      more, finally, when it has frames. */
  lemma VideoSaveCount(output: FilePath, video: VideoSource, quality: int)
    ensures |VideoCommits(output, video, quality)| ==
              FlushCount(|video.frames|) + (if video.frames == [] then 0 else 1)
  {
    FinalCommitIffFrames(DecodeVideo(video.frames));
  }

  /** What converting one file saves: nothing exactly when the conversion
      raises or the file is a video without frames; one save for an image
      that opens; one save per batch for a video; every save is meant for
      the file's output path. */
  lemma FileSaveCount(outputDir: string, f: InputFile, quality: int)
    ensures FileCommits(outputDir, f, quality) == [] <==>
              FileError(f).Some? || (Classify(Suffix(f.path.name)) == VideoRoute && f.video.frames == [])
    ensures Classify(Suffix(f.path.name)) == ImageRoute && f.image.Opened? ==>
              |FileCommits(outputDir, f, quality)| == 1
    ensures Classify(Suffix(f.path.name)) == VideoRoute ==>
              |FileCommits(outputDir, f, quality)| ==
                FlushCount(|f.video.frames|) + (if f.video.frames == [] then 0 else 1)
    ensures forall c :: c in FileCommits(outputDir, f, quality) ==> c.target == OutputPath(outputDir, f.path)
  {
    if Classify(Suffix(f.path.name)) == VideoRoute {
      VideoSaveCount(OutputPath(outputDir, f.path), f.video, quality);
      VideoCommitsAreBatches(OutputPath(outputDir, f.path), f.video, quality);
    }
  }

  /** A file whose conversion raises makes no save: an unsupported suffix is
      never converted, and an image that cannot be opened is never written. */
  lemma FailedFileSavesNothing(outputDir: string, f: InputFile, quality: int)
    requires FileError(f).Some?
    ensures FileCommits(outputDir, f, quality) == []
  {
  }

  /** An image that opens is saved exactly once, with a final save to its
      output path. When it has several frames, the save carries every frame
      and one duration per frame, in the container's order, and both are
      converted by the same colour rule as a single-frame image. */
  lemma {:induction false} ImageSavedOnce(output: FilePath, src: FrameStack, quality: int)
    ensures |ImageCommits(output, Opened(src), quality)| == 1
    ensures ImageCommits(output, Opened(src), quality)[0].target == output
    ensures ImageCommits(output, Opened(src), quality)[0].isFinal
    ensures |src| >= 2 ==>
              var p := ImageCommits(output, Opened(src), quality)[0].file;
              |p.frames| == |src| && p.params.duration == Some(PerFrame(DurationsOf(src))) &&
              |DurationsOf(src)| == |p.frames| &&
              forall i :: 0 <= i < |src| ==> p.frames[i] == Frame(TargetMode(src[i].mode, src[i].info), src[i].pixels)
    ensures |src| == 1 ==>
              ImageCommits(output, Opened(src), quality)[0].file.frames ==
                [Frame(TargetMode(src[0].mode, src[0].info), src[0].pixels)]
    ensures ImageCommits(output, Opened(src), quality)[0].file.params ==
              if |src| >= 2 then AnimatedParams(DurationsOf(src), quality) else StaticParams(quality)
  {
  }

  /** Every save a file's conversion makes passes the quality through and
      is lossless exactly for quality 95 and above. */
  lemma QualityOfFileSaves(outputDir: string, f: InputFile, quality: int)
    ensures forall c :: c in FileCommits(outputDir, f, quality) ==>
              c.file.params.quality == quality && (c.file.params.lossless <==> quality >= 95)
  {
    if Classify(Suffix(f.path.name)) == VideoRoute {
      VideoCommitsAreBatches(OutputPath(outputDir, f.path), f.video, quality);
    }
  }

  /** The saves of a video are exactly its batches, each with the one
      uniform frame duration of the file. */
  lemma VideoCommitsAreBatches(output: FilePath, video: VideoSource, quality: int)
    ensures CommittedBatches(VideoCommits(output, video, quality)) == Batches(DecodeVideo(video.frames))
    ensures forall c :: c in VideoCommits(output, video, quality) ==>
              c.target == output && c.file.params == VideoParams(VideoDuration(video), quality)
  {
    var bs := Batches(DecodeVideo(video.frames));
    var p := VideoParams(VideoDuration(video), quality);
    var cs := VideoCommits(output, video, quality);
    forall j | 0 <= j < |bs| ensures cs[j] == Commit(output, WebpFile(bs[j].frames, p), bs[j].isFinal) {
      AsCommitsAt(output, bs, p, j);
    }
  }

  /** The saves of a video, stitched (each later save's carried first frame
      dropped), reproduce every decoded frame in stream order. */
  lemma VideoSavesReconstructStream(output: FilePath, video: VideoSource, quality: int)
    ensures Stitch(CommittedBatches(VideoCommits(output, video, quality))) == DecodeVideo(video.frames)
  {
    VideoCommitsAreBatches(output, video, quality);
    StitchReconstructs(DecodeVideo(video.frames));
  }
}
