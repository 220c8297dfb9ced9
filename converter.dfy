/** The conversion thread: it converts its files in order, emits one event
    per file and a final completion event, and writes WebP outputs into the
    output directory. */
module Converter {
  import opened Media
  import opened Paths
  import opened Rules
  import opened Batching
  import opened Decoders
  import opened Storage
  import opened Pipeline
  import opened Events

  class ConversionThread {
    const files: seq<InputFile>
    const quality: int
    const outputDir: string
    const store: OutputStore
    var events: seq<Event>

    constructor (files: seq<InputFile>, quality: int, outputDir: string, store: OutputStore)
      ensures this.files == files && this.quality == quality
      ensures this.outputDir == outputDir && this.store == store && events == []
    {
      this.files := files;
      this.quality := quality;
      this.outputDir := outputDir;
      this.store := store;
      events := [];
    }

    /** Converts every file in order; a file that raises yields its error
        message and the loop goes on; progress follows only a file that
        converted; completion is emitted once, at the end. */
    method Run()
      requires store.Valid()
      modifies this`events, store
      ensures store.Valid()
      ensures events == old(events) + ExpectedEvents(files)
      ensures store.log == old(store.log) + AllCommits(outputDir, files, quality)
    {
      var total := |files|;
      ghost var reports := Reports(files);
      var i := 1;
      while i <= total
        invariant 1 <= i <= total + 1
        invariant store.Valid()
        invariant events == old(events) + LoopEvents(reports, i - 1)
        invariant store.log == old(store.log) + CommitsUpTo(outputDir, files, i - 1, quality)
      {
        ConvertAndReport(i);
        LoopEventsSnoc(reports, i - 1);
        AppendAssociates(old(events), LoopEvents(reports, i - 1), [EventFor(reports, i - 1)]);
        AppendAssociates(old(store.log), CommitsUpTo(outputDir, files, i - 1, quality),
                         FileCommits(outputDir, files[i - 1], quality));
        i := i + 1;
      }
      events := events + [Finished];
    }

    /** One pass of the loop: converts the `i`-th file (counting from 1) and
        emits its progress, or its error message when the conversion raised. */
    method ConvertAndReport(i: nat)
      requires 1 <= i <= |files| && store.Valid()
      modifies this`events, store
      ensures store.Valid()
      ensures events == old(events) + [EventFor(Reports(files), i - 1)]
      ensures store.log == old(store.log) + FileCommits(outputDir, files[i - 1], quality)
    {
      var file := files[i - 1];
      var err := ConvertFile(file);
      match err {
        case None =>
          events := events + [Progress(Percent(i, |files|))];
        case Some(reason) =>
          events := events + [Error(FailureMessage(file.path, reason))];
      }
    }

    /** Chooses the decoder path by suffix; an unsupported suffix raises
        without converting anything. */
    method ConvertFile(file: InputFile) returns (err: Option<string>)
      requires store.Valid()
      modifies store
      ensures store.Valid()
      ensures err == FileError(file)
      ensures store.log == old(store.log) + FileCommits(outputDir, file, quality)
    {
      var extension := Lower(Suffix(file.path.name));
      var outputPath := OutputPath(outputDir, file.path);
      match Classify(Suffix(file.path.name)) {
        case ImageRoute =>
          err := ConvertImage(file.image, outputPath);
        case VideoRoute =>
          ConvertVideo(file.video, outputPath);
          err := None;
        case Unsupported =>
          err := Some(UnsupportedMessage(extension));
      }
    }

    /** Tries to move to the second frame and always returns to the first. */
    method IsAnimated(img: ImageContainer) returns (animated: bool)
      requires img.Valid()
      modifies img
      ensures img.Valid() && img.cursor == 0
      ensures animated <==> |img.frames| >= 2
    {
      var eof := img.Seek(1);
      animated := !eof;
      eof := img.Seek(0);
    }

    /** The frame loop of an animated image: from the first frame on, one
        converted frame and one duration per container frame, until the
        seek past the last frame reports end-of-file. */
    method CollectFrames(img: ImageContainer) returns (frames: seq<Frame>, durations: seq<int>)
      requires img.Valid() && img.cursor == 0
      modifies img
      ensures img.Valid()
      ensures frames == DecodeAll(img.frames)
      ensures durations == DurationsOf(img.frames)
    {
      frames, durations := [], [];
      while true
        invariant img.Valid()
        invariant |frames| == |durations| == img.cursor
        invariant forall i :: 0 <= i < img.cursor ==> frames[i] == DecodeFrame(img.frames[i])
        invariant forall i :: 0 <= i < img.cursor ==> durations[i] == FrameDuration(img.frames[i].info, i)
        decreases |img.frames| - img.cursor
      {
        var current := img.Convert(TargetMode(img.Mode(), img.Info()));
        frames := frames + [current];
        durations := durations + [FrameDuration(img.Info(), img.Tell())];
        var eof := img.Seek(img.Tell() + 1);
        if eof {
          break;
        }
      }
      assert |frames| == |img.frames|;
    }

    /** Saves an image: every frame with its duration when it is animated,
        its only frame otherwise. Opening a file that is not an image raises. */
    method ConvertImage(image: ImageOpen, outputPath: FilePath) returns (err: Option<string>)
      requires store.Valid()
      modifies store
      ensures store.Valid()
      ensures err == if image.OpenFailed? then Some(image.reason) else None
      ensures store.log == old(store.log) + ImageCommits(outputPath, image, quality)
    {
      if image.OpenFailed? {
        err := Some(image.reason);
        return;
      }
      var src := image.frames;
      var img := new ImageContainer.Open(src);
      var animated := IsAnimated(img);
      if animated {
        var frames, durations := CollectFrames(img);
        if |frames| > 0 {
          var file := WebpFile([frames[0]] + frames[1..], AnimatedParams(durations, quality));
          assert file == WebpFile(DecodeAll(src), AnimatedParams(DurationsOf(src), quality));
          store.Save(outputPath, file);
          RecordCommit(Commit(outputPath, file, true));
        }
      } else {
        var frame := img.Convert(TargetMode(img.Mode(), img.Info()));
        assert frame == DecodeFrame(src[0]);
        var file := WebpFile([frame], StaticParams(quality));
        store.Save(outputPath, file);
        RecordCommit(Commit(outputPath, file, true));
      }
      err := None;
    }

    /** Logs a save whose writes to the directory are already made. */
    ghost method RecordCommit(c: Commit)
      requires store.files == Apply(Replay(store.initial, store.log), c)
      modifies store`log
      ensures store.Valid() && store.log == old(store.log) + [c]
    {
      ReplaySnoc(store.initial, store.log, c);
      store.log := store.log + [c];
    }

    /** Reads the video frame by frame into a buffer; past `Ceiling` frames
        the buffer is saved as an intermediate batch and cut back to its last
        frame; at the end a non-empty buffer is saved as the final batch.
        The output path ends up holding the final batch only. */
    method ConvertVideo(video: VideoSource, outputPath: FilePath)
      requires store.Valid()
      modifies store
      ensures store.Valid()
      ensures store.log == old(store.log) + VideoCommits(outputPath, video, quality)
      ensures video.frames != [] ==>
                outputPath in store.files &&
                store.files[outputPath] ==
                  WebpFile(Remainder(DecodeVideo(video.frames)), VideoParams(VideoDuration(video), quality))
    {
      var cap := new VideoCapture.Open(video);
      var fps := cap.fps;
      fps := EffectiveFps(fps);
      var frameDuration := VideoFrameDuration(fps);
      var frames := ReadFrames(cap, outputPath, frameDuration);
      cap.Release();
      VideoCommitsSplit(outputPath, video, quality);
      FlushCountBounds(|video.frames|);
      if frames != [] {
        ghost var before := store.log;
        SaveWebpAnimation(frames, outputPath, frameDuration, true);
        AppendAssociates(old(store.log), before[|old(store.log)|..], store.log[|before|..]);
      } else {
        assert |video.frames| == 0;
      }
    }

    /** The read loop of the video path. The buffer holds at most `Ceiling`
        frames between reads (`Ceiling + 1` just before an intermediate
        save); every intermediate save is one non-final batch, and what is
        left at the end of the stream is the remainder. */
    method ReadFrames(cap: VideoCapture, outputPath: FilePath, frameDuration: int)
      returns (frames: seq<Frame>)
      requires store.Valid() && cap.Valid() && cap.position == 0
      modifies store, cap`position
      ensures store.Valid() && cap.Valid()
      ensures frames == Remainder(DecodeVideo(cap.stream))
      ensures store.log == old(store.log) +
                IntermediateSaves(outputPath, DecodeVideo(cap.stream), |cap.stream|,
                                  VideoParams(frameDuration, quality))
    {
      frames := [];
      ghost var s := DecodeVideo(cap.stream);
      ghost var params := VideoParams(frameDuration, quality);
      ghost var committed: seq<Commit> := [];
      while true
        invariant cap.Valid()
        invariant store.Valid()
        invariant BufferStart(cap.position) <= cap.position
        invariant frames == s[BufferStart(cap.position) .. cap.position]
        invariant store.log == old(store.log) + committed
        invariant committed == IntermediateSaves(outputPath, s, cap.position, params)
        decreases |cap.stream| - cap.position
      {
        ghost var p := cap.position;
        var ret, raw := cap.Read();
        if !ret {
          assert p == |s|;
          break;
        }
        assert s[p] == VideoFrame(raw);
        BufferStep(outputPath, s, p, frames + [VideoFrame(raw)], params);
        ghost var saved;
        frames, saved := PushFrame(frames + [VideoFrame(raw)], outputPath, frameDuration);
        AppendAssociates(old(store.log), committed, saved);
        committed := committed + saved;
      }
    }

    /** Puts a buffer that has just gained a frame back under the ceiling:
        once it holds more than `Ceiling` frames it is saved as an
        intermediate batch and only its last frame is kept. */
    method PushFrame(frames: seq<Frame>, outputPath: FilePath, frameDuration: int)
      returns (next: seq<Frame>, ghost saved: seq<Commit>)
      requires store.Valid() && frames != []
      modifies store
      ensures store.Valid()
      ensures next == Pushed(frames)
      ensures saved == PushedSaves(outputPath, frames, VideoParams(frameDuration, quality))
      ensures store.log == old(store.log) + saved
    {
      next := frames;
      saved := [];
      if |frames| > Ceiling {
        SaveWebpAnimation(frames, outputPath, frameDuration, false);
        saved := [Commit(outputPath, WebpFile(frames, VideoParams(frameDuration, quality)), false)];
        next := frames[|frames| - 1..];
      }
    }

    /** Saves a batch of video frames: nothing when it is empty; in place
        when it is final; otherwise to the temporary path, which is then
        moved over the output path. */
    method SaveWebpAnimation(frames: seq<Frame>, outputPath: FilePath, frameDuration: int, isFinal: bool)
      requires store.Valid()
      modifies store
      ensures store.Valid()
      ensures frames == [] ==> store.log == old(store.log) && store.files == old(store.files)
      ensures frames != [] ==>
                store.log == old(store.log) +
                  [Commit(outputPath, WebpFile(frames, VideoParams(frameDuration, quality)), isFinal)]
      ensures frames != [] ==>
                store.files[outputPath] == WebpFile(frames, VideoParams(frameDuration, quality))
    {
      if frames == [] {
        return;
      }
      var saveParams := VideoParams(frameDuration, quality);
      var file := WebpFile([frames[0]] + frames[1..], saveParams);
      assert file == WebpFile(frames, saveParams);
      ghost var before := store.files;
      if isFinal {
        store.Save(outputPath, file);
      } else {
        var tempPath := TempPath(outputPath);
        store.Save(tempPath, file);
        if outputPath in store.files && tempPath in store.files {
          store.Move(tempPath, outputPath);
        } else if tempPath in store.files {
          store.Move(tempPath, outputPath);
        }
        WriteThenMove(before, tempPath, outputPath, file);
      }
      RecordCommit(Commit(outputPath, file, isFinal));
    }
  }
}
