# WebP conversion thread, modelled in Dafny

WebP-Converter is a small desktop tool. The user drops images and videos onto a
window, and a background `ConversionThread` converts each file to WebP in an
output directory. This project models that thread (`main.py`). The model
abstracts frames to opaque tokens and the decoders to sources of frames. It then
proves what the thread does with them.

- **Driver (`run`).** The files are converted strictly in order.
  - A file whose conversion raises gives one error message, and the loop goes on.
  - A file that converts gives one progress percentage.
  - `finished` is emitted once, after the last file.
  - The signals are modelled as an event log (`Events`). `Run` is proved to
    emit exactly `ExpectedEvents(files)`, a function of the files alone.
- **Classification and naming (`convert_file`).**
  - The lower-cased suffix selects the image decoder, the video decoder, or an
    "unsupported" error.
  - The output is always `<output dir>/<stem>.webp`.
  - Suffix and stem follow the rules of Python's `pathlib`. They are modelled in
    `Paths`.
- **Images (`convert_image`).**
  - The container is a class with a frame cursor (`seek`/`tell`).
  - `is_animated` probes frame 1 and always returns the cursor to frame 0.
  - Animated images: the frame loop collects one converted frame and one
    duration per container frame, in order.
  - Single-frame images: saved once, statically.
  - Colour mode: RGBA for `RGBA`, `LA`, or a palette image with transparency;
    RGB otherwise.
  - Lossless encoding is used exactly when quality is 95 or more.
- **Videos (`convert_video`, `save_webp_animation`).**
  - The capture is a class read one frame at a time.
  - Frame rate: a non-positive reported rate becomes 30.
  - Every frame lasts `int(1000 / fps)` ms.
  - Frames are buffered. Once the buffer holds more than 300 frames, it is saved
    as an intermediate batch and cut back to its last frame. At the end of the
    stream, a non-empty buffer is saved as the final batch.
  - An intermediate save writes `<stem>.temp.webp` and moves it over the output.
  - Both are proved against the function `Batches` of the decoded stream:
    - the sizes of the batches;
    - the carried frame;
    - that the batches stitched together give back the stream.
- **Output directory (`Storage.OutputStore`).**
  - The directory is a map from paths to written files.
  - A ghost log records every save in order.
  - The class invariant says the map is the replay of the log.
  - Consequences:
    - the output path holds the latest save made for it;
    - an intermediate save removes its temporary path, even when that path is
      another input's output: the input `a.temp.png` writes `a.temp.webp`,
      which an intermediate save of `a.mp4` deletes (`Rules.TempPathCollision`
      with `Storage.ApplyEffect`).

The code overwrites the output with every batch. So a video longer than 300
frames ends up holding only its last batch (`Batching.LatestCommitIsPartial`).
The comment at main.py:166 and the TODO at main.py:168 show that merging the
batches was intended. Both branches still move the temporary file over the
output, and the model does the same.

Further behaviour the model keeps as the code has it:

- the video frame duration is `int(1000 / fps)`, which truncates;
- progress is emitted only after a file that converted; a file whose conversion
  raises emits its error message instead (main.py:28-32);
- later batches of a video overwrite earlier ones (main.py:164-171).

Modules follow the pipeline, one file each:

| File | Module |
|---|---|
| `media.dfy` | `Media`: values |
| `paths.dfy` | `Paths` |
| `rules.dfy` | `Rules`: pure decisions |
| `decoders.dfy` | `Decoders` |
| `batching.dfy` | `Batching` |
| `storage.dfy` | `Storage` |
| `pipeline.dfy` | `Pipeline`: per-file saves as functions |
| `events.dfy` | `Events` |
| `converter.dfy` | `Converter`: the thread |

## Model

| member | source | states |
|---|---|---|
| Converter.ConversionThread.constructor | main.py:18-22 | The thread keeps the file list, the quality and the output directory, and has emitted nothing yet. |
| Converter.ConversionThread.Run | main.py:24-33 | The events emitted are exactly one event per file, in input order, followed by `Finished`. The saves are exactly those of converting every file in order. The directory stays the replay of its save log. |
| Converter.ConversionThread.ConvertAndReport | main.py:28-32 | For file `i`: its error message naming the path when the conversion raised, otherwise the progress of `i` files out of the total; plus that file's saves. |
| Converter.ConversionThread.ConvertFile | main.py:37-46 | The conversion raises exactly the error `FileError` predicts. An unsupported suffix raises "Format non supporté" with the lower-cased suffix and saves nothing. Otherwise it makes the saves of the selected decoder path. |
| Converter.ConversionThread.IsAnimated | main.py:48-55 | The result is true exactly when the container has a second frame, and the cursor is back on frame 0 either way. |
| Converter.ConversionThread.CollectFrames | main.py:75-87 | Starting on frame 0, the loop returns every container frame converted by the colour rule, and the duration of every frame, both in traversal order and of equal length. It stops on the end-of-file from seeking past the last frame. |
| Converter.ConversionThread.ConvertImage | main.py:68-111 | An image that cannot be opened raises and saves nothing. An animated image gets one final save of all its frames with per-frame durations. A still image gets one static save of its converted frame. |
| Converter.ConversionThread.ConvertVideo | main.py:113-143 | The saves are exactly the batches of the decoded stream, at the one frame duration of the file. A non-empty video leaves its output path holding the final batch, the remainder. |
| Converter.ConversionThread.ReadFrames | main.py:124-140 | After the stream is exhausted, the buffer is the remainder, and the saves made so far are exactly the intermediate batches. Throughout, the buffer is the stream from `BufferStart` up to the read position. |
| Converter.ConversionThread.PushFrame | main.py:135-138 | A buffer of more than 300 frames is saved as one non-final batch and cut to its last frame. A shorter buffer is kept and nothing is saved. |
| Converter.ConversionThread.SaveWebpAnimation | main.py:145-171 | An empty batch changes nothing. Otherwise exactly one save of those frames with the video parameters is logged, and the output path holds them, whether written in place (final) or through the temporary path and a move (intermediate). |
| Decoders.DecodeFrame | main.py:78-82 | A container frame is converted to the mode `Rules.TargetMode` picks and keeps its pixels. `Converter.ConversionThread.CollectFrames` is proved to collect exactly these frames. |
| Decoders.DecodeAll | main.py:76-83 | The `frames` list of the animated branch: every container frame converted by `Decoders.DecodeFrame`, in traversal order, one per frame. `Converter.ConversionThread.CollectFrames` is proved to return exactly it, and `Pipeline.ImageSavedOnce` shows it is what the animated save writes. |
| Decoders.DurationsOf | main.py:84 | The duration of every container frame, read by `Rules.FrameDuration`, in traversal order and one per frame. `Converter.ConversionThread.CollectFrames` is proved to collect exactly these durations. |
| Decoders.DecodeVideo | main.py:131-133 | Every frame read from the capture becomes an RGB frame with its raster, one per frame and in stream order. `Pipeline.VideoSavesReconstructStream` proves the saves give these frames back. |
| Decoders.VideoFrame | main.py:131-132 | `cvtColor` to RGB followed by `Image.fromarray`: an RGB frame carrying the captured raster. `Decoders.DecodeVideo` applies it to every frame read. |
| Decoders.ImageContainer.Open | main.py:69 | An opened container has its cursor on the first frame. |
| Decoders.ImageContainer.Tell | main.py:84-85 | `img.tell()`: the number of the frame under the cursor. `Converter.ConversionThread.CollectFrames` seeks to the frame after it. |
| Decoders.ImageContainer.Mode | main.py:78 | `img.mode` of the frame under the cursor, read by the colour rule (also main.py:107). |
| Decoders.ImageContainer.Info | main.py:78 | `img.info` of the frame under the cursor, read by the colour rule (also main.py:107) and by the frame duration (main.py:60-63). |
| Decoders.ImageContainer.Convert | main.py:79-82 | `img.convert(mode)`: the frame under the cursor in the given colour mode, keeping its pixels (also main.py:108-110). `Converter.ConversionThread.CollectFrames` is proved to collect `Decoders.DecodeFrame` of each frame through it. |
| Decoders.ImageContainer.Seek | main.py:85-87 | Seeking reports end-of-file exactly when the frame number is past the last frame, and then the cursor stays. Otherwise the cursor moves there. |
| Decoders.VideoCapture.Open | main.py:114-117 | An opened capture holds the source's frames and reported rate, is at the first frame and is not released. |
| Decoders.VideoCapture.Read | main.py:126-128 | A read succeeds exactly when frames remain. It then returns the next frame and advances by one; otherwise the position is unchanged. |
| Decoders.VideoCapture.Release | main.py:139-140 | The capture is released. |
| Paths.RFind | main.py:38 | The result is the index of the last occurrence of the character, or -1 when there is none. |
| Paths.Suffix | main.py:38 | The suffix is the name from its last dot on, when that dot is neither the first nor the last character, and empty otherwise. `Paths.StemSuffixSplit` proves stem and suffix rebuild the name. |
| Paths.Stem | main.py:39 | The stem is the name without its suffix. `Paths.StemSuffixSplit` and `Paths.SplitOfJoined` state its properties. |
| Paths.WithSuffix | main.py:164 | `with_suffix` keeps the stem and puts the new suffix after it. `Paths.WithSuffixReplaces` proves its properties. |
| Paths.WithSuffixReplaces | main.py:164 | The result ends with the new suffix. What precedes it, followed by the old suffix, is the original name. A name without a suffix just gets the new one appended. |
| Paths.NewInnerDotSuffixChanges | main.py:164 | Giving a name a suffix with a dot after its first character, such as `.temp.webp`, always changes the name. |
| Paths.StemSuffixSplit | main.py:38-39 | Stem followed by suffix is the whole name. A suffix is empty, or a dot followed by at least one character and no further dot. |
| Paths.SplitOfJoined | main.py:39 | Joining a non-empty stem with a dotted extension and splitting again gives back the stem and the extension. |
| Paths.Lower | main.py:38 | `.lower()` lower-cases the suffix character by character, keeping its length. `Paths.LowerCharacterises` proves it identifies exactly the strings equal ignoring case, and is idempotent. |
| Paths.LowerCharacterises | main.py:38 | Two strings lower-case to the same string exactly when they are equal ignoring case. Lower-casing is idempotent. |
| Rules.Classify | main.py:38-46 | The lower-cased suffix selects the image route for `.jpg`, `.jpeg`, `.png`, `.bmp`, `.gif`, the video route for `.mp4`, `.avi`, `.mov`, `.mkv`, and is unsupported otherwise. `Rules.ClassifyBySuffixSets` and `Rules.ClassifyIgnoresCase` prove its properties. |
| Rules.UnsupportedMessage | main.py:46 | The error text is exactly "Format non supporté: " followed by the extension. |
| Rules.OutputPath | main.py:39 | The output is `<stem>.webp` in the output directory. `Rules.OutputNaming` proves its properties. |
| Rules.TempPath | main.py:164 | The temporary path replaces the output's suffix with `.temp.webp`. `Rules.TempPathIsSibling` proves its properties. |
| Rules.TempPathIsSibling | main.py:164 | The temporary path lies in the output's directory and is never the output itself. |
| Rules.ClassifyBySuffixSets | main.py:41-46 | A suffix takes the image path exactly when it matches an image extension ignoring case, and the video path exactly when it matches a video extension and no image extension. It is unsupported exactly when it matches none. |
| Rules.ClassifyIgnoresCase | main.py:38 | Suffixes equal ignoring case are classified alike. |
| Rules.SupportedSuffixShape | main.py:41-44 | A supported suffix starts with a dot and has at least four characters. |
| Rules.OutputNaming | main.py:39 | For every supported input, the output lies in the output directory, keeps the input's stem and has the suffix `.webp`. Its temporary path `<stem>.temp.webp` (main.py:164) is a different path. |
| Rules.TempPathCollision | main.py:39 | For any non-empty stem, `<stem>.temp.png` is an image and `<stem>.temp.webp` is its output. `<stem>.mp4` is a video, and its temporary path (main.py:164), in the same output directory, is that same path. |
| Rules.ClassifyExamples | main.py:41-44 | `.png` selects the image decoder and `.mp4` the video decoder. |
| Rules.TargetMode | main.py:78-81 | The mode is RGBA exactly for `RGBA`, `LA`, or `P` with a `transparency` entry. Every other mode gives RGB. The same function serves the static branch (main.py:107-110). |
| Rules.Get | main.py:60 | `dict.get(key, default)`: the stored value when the key is present, the default otherwise (also main.py:63). `Rules.FrameDuration` is stated in its terms. |
| Rules.FrameDuration | main.py:57-66 | The duration is the stored `duration` when the info has one that is not None, and 100 otherwise. The frame number has no influence. |
| Rules.Lossless | main.py:103 | The lossless flag is `quality >= 95`, the same test at every save site (also main.py:111, 157). `Rules.LosslessAtEverySaveSite` proves it for each set of save parameters. |
| Rules.AnimatedParams | main.py:94-104 | The animated-image save: all frames, the per-frame durations, `loop=0`, the quality, size minimised, and the lossless flag. `Rules.LosslessAtEverySaveSite` and `Pipeline.ImageSavedOnce` state its properties. |
| Rules.StaticParams | main.py:111 | The static-image save: no animation arguments, the quality and the lossless flag. `Rules.LosslessAtEverySaveSite` and `Pipeline.ImageSavedOnce` state its properties. |
| Rules.VideoParams | main.py:149-158 | The video save: all frames, one uniform frame duration, `loop=0`, the quality, size minimised, and the lossless flag. `Rules.LosslessAtEverySaveSite` and `Pipeline.VideoCommitsAreBatches` state its properties. |
| Rules.LosslessAtEverySaveSite | main.py:149-158 | At the animated-image, static-image and video save sites (also main.py:103, 111), lossless is chosen exactly when quality is 95 or more. Quality is passed through. The animated saves loop forever. |
| Rules.EffectiveFps | main.py:117-119 | The rate used is always positive: 30 when the reported rate is not positive, the reported rate otherwise. |
| Rules.VideoFrameDuration | main.py:121 | The duration is the whole number of milliseconds of the frame period, truncated: at most the exact period and less than one below it. |
| Rules.DefaultVideoTiming | main.py:117-121 | A video with no usable frame rate gets 33 ms frames. |
| Batching.FlushCount | main.py:136-137 | The number of non-final saves made once `n` frames are read: none until 301 frames are read, then one more every 300 frames. It is below `n / 300`. `Batching.FlushCountBounds` and `Batching.OverflowPosition` state its properties. |
| Batching.BufferStart | main.py:138 | Where the buffer starts in the stream once `n` frames are read: 300 frames on per non-final save. The invariant of `Converter.ConversionThread.ReadFrames` keeps the buffer equal to the stream from here on. |
| Batching.Flushes | main.py:136-137 | The first `k` non-final saves: save `j` holds the 301 frames from position 300 j on. `Batching.BatchSizes`, `Batching.CarryOver` and `Batching.StitchReconstructs` state its properties. |
| Batching.Remainder | main.py:138-143 | What the buffer holds when the stream ends: the stream from the frame carried by the last overflow on. `Converter.ConversionThread.ReadFrames` is proved to end with this buffer, and `Batching.BatchSizes` bounds it. |
| Batching.Batches | main.py:125-143 | Every save a video stream causes, in order: one non-final batch per overflow of the buffer, then the remainder as the final batch when the stream is non-empty. `Converter.ConversionThread.ReadFrames` and `Converter.ConversionThread.ConvertVideo` are proved to make exactly these saves, and `Batching.BatchSizes`, `Batching.CarryOver`, `Batching.FinalCommitIffFrames` and `Batching.StitchReconstructs` state its properties. |
| Batching.OverflowPosition | main.py:136 | The read that takes the buffer past 300 frames is at position 300 k + 300, where k saves were made before it. After it, one more save has been made and the buffer starts at the frame just read, the last frame of the batch just saved. |
| Batching.FlushCountBounds | main.py:136-138 | Between reads, the buffer never starts past the decoded frames and holds at most 300 of them. It is non-empty once a frame is decoded. |
| Batching.FlushOnOverflow | main.py:136-138 | Reading a frame that takes the buffer past 300 adds one non-final commit of exactly that buffer. The buffer then restarts at the frame just read, the last frame of that commit. |
| Batching.BatchSizes | main.py:136-143 | Every non-final batch holds exactly 301 frames. The final batch holds between 1 and 300 frames and is the last batch. |
| Batching.FinalCommitIffFrames | main.py:142-143 | A final batch exists exactly when the stream is non-empty, and it is then the last batch. No earlier batch is final. |
| Batching.CarryOver | main.py:138 | Each batch after the first starts with the frame the previous batch ended with. |
| Batching.StitchReconstructs | main.py:125-143 | Concatenating the batches, with every later batch's carried first frame dropped, gives back the decoded stream exactly, in order. |
| Batching.LatestCommitIsPartial | main.py:166-171 | For a stream longer than 300 frames, the final batch alone holds fewer frames than the stream. |
| Pipeline.FileError | main.py:37-46 | The error a file's conversion raises: the unsupported message for an unsupported suffix, the open error for an image that cannot be opened, and none otherwise. `Pipeline.FileErrorCases` states the cases. |
| Pipeline.FileErrorCases | main.py:41-46 | A conversion raises exactly when the suffix is unsupported or the file is an image that cannot be opened. An unsupported suffix raises "Format non supporté" with the lower-cased suffix. |
| Pipeline.ImageCommits | main.py:68-111 | The saves of an image: none when it cannot be opened, otherwise one final save, animated or static. `Pipeline.ImageSavedOnce` proves its contents. |
| Pipeline.VideoDuration | main.py:117-121 | The frame duration of every save of a video: `Rules.VideoFrameDuration` of the rate `Rules.EffectiveFps` returns. `Rules.DefaultVideoTiming` gives its value for an unusable rate. |
| Pipeline.VideoCommits | main.py:113-143 | The saves of a video are its batches at the file's frame duration: intermediate ones first, then the final one. `Pipeline.VideoCommitsSplit`, `Pipeline.VideoCommitsAreBatches` and `Pipeline.VideoSaveCount` prove its properties. |
| Pipeline.AsCommits | main.py:145-171 | One save per batch, in order, to the same target with the same parameters, final exactly when the batch is. `Pipeline.VideoCommitsAreBatches` states its properties. |
| Pipeline.VideoSaveCount | main.py:125-143 | A video is saved once per overflow of the buffer, plus once finally exactly when it has frames. |
| Pipeline.FileCommits | main.py:37-46 | The saves of one file: none for an unsupported suffix, otherwise those of the image or video path to the file's output path. `Pipeline.FileSaveCount` and `Pipeline.QualityOfFileSaves` prove its properties. |
| Pipeline.CommitsUpTo | main.py:27-29 | The saves of converting the first `k` files in order: those of the first `k - 1` files, then those of file `k`. |
| Pipeline.AllCommits | main.py:27-29 | The saves of converting every file in order. `Converter.ConversionThread.Run` is proved to make exactly these saves. |
| Pipeline.FileSaveCount | main.py:37-46 | A file makes no save exactly when its conversion raises or it is a video without frames. An image that opens makes one save, a video one save per batch. Every save goes to the file's output path. |
| Pipeline.QualityOfFileSaves | main.py:149-158 | Every save of every file carries the thread's quality (also main.py:103, 111), and is lossless exactly when quality is 95 or more. |
| Pipeline.VideoCommitsSplit | main.py:137-143 | A video's saves are its intermediate saves, followed by one final save of the remainder exactly when the video has frames. |
| Pipeline.IntermediateSaves | main.py:136-137 | The non-final saves made once the first `n` frames are read, one per overflow. `Converter.ConversionThread.ReadFrames` is proved to make exactly these, and `Pipeline.BufferStep` advances them by one frame. |
| Pipeline.PushedSaves | main.py:136-137 | The saves after one frame is pushed: one non-final save of the buffer when it holds more than 300 frames, none otherwise. `Converter.ConversionThread.PushFrame` is proved to make exactly these. |
| Pipeline.Pushed | main.py:138 | The buffer after one push: its last frame when it was saved, all of it otherwise. `Converter.ConversionThread.PushFrame` is proved to leave exactly it. |
| Pipeline.BufferStep | main.py:133-138 | One frame read onto the buffer: the saves grow by the pushed batch, reproducing the saves the function predicts for one more frame. The buffer is again the stream from `BufferStart`. |
| Pipeline.FailedFileSavesNothing | main.py:41-46 | A file whose conversion raises (an unsupported suffix, or an image that cannot be opened) makes no save. |
| Pipeline.ImageSavedOnce | main.py:71-111 | An image that opens is saved exactly once, finally, to its output path. An animated image's save carries every frame, under the colour rule, with one duration per frame, and the animated parameters. A still image's save carries its one converted frame and the static parameters. |
| Pipeline.VideoCommitsAreBatches | main.py:136-143 | The saves of a video are exactly its batches. All go to the output path with the file's single frame duration. |
| Pipeline.VideoSavesReconstructStream | main.py:125-143 | The saves of a video, stitched, reproduce every decoded frame in stream order. |
| Storage.Apply | main.py:160-171 | One save applied to the directory: a final save writes its target; an intermediate save also removes its temporary path. `Storage.ApplyEffect` proves its effect. |
| Storage.ApplyEffect | main.py:160-171 | After one save the target holds the saved file. An intermediate save leaves no temporary file. Every other path keeps its presence and contents. |
| Storage.Replay | main.py:160-171 | The output directory after a sequence of saves, applied in order by `Storage.Apply`. The class invariant of `Storage.OutputStore` ties the directory to it, and `Storage.LatestSaveInSlot` and `Storage.UntouchedPath` state its properties. |
| Storage.OutputStore.Save | main.py:161 | A save overwrites its path with the written file and changes nothing else. |
| Storage.OutputStore.Move | main.py:169 | A move removes the source and puts its file at the destination, replacing what was there. |
| Storage.LatestSaveInSlot | main.py:160-171 | After any non-empty run of saves, the target of the last save holds exactly what it saved. An intermediate save leaves no temporary file. |
| Storage.UntouchedPath | main.py:160-171 | A path that no save targets, and that is no intermediate save's temporary path, keeps its presence and its contents. |
| Storage.WriteThenMove | main.py:164-171 | Writing the temporary path and moving it over the target is the same as writing the target and removing the temporary path. |
| Events.Reports | main.py:28-31 | The outcome of every file, in order: its path and the error its conversion raises, if any. |
| Events.EventFor | main.py:28-32 | The event of file `i`: the failure message naming its path and reason when its conversion raised, otherwise the progress after `i + 1` files. `Converter.ConversionThread.ConvertAndReport` emits exactly it, and `Events.EventPerFile` states its cases. |
| Events.LoopEvents | main.py:27-32 | The events of the first `k` files, one each, in order. |
| Events.EventsOf | main.py:24-33 | The events of the loop followed by `finished`. |
| Events.ExpectedEvents | main.py:24-33 | What a run emits: one event per file in input order, then `finished`. `Converter.ConversionThread.Run` is proved to emit exactly this, and `Events.EventPerInputFile`, `Events.FinishedOnceAtEnd` and `Events.ProgressNonDecreasing` state its properties. |
| Events.FinishedOnceAtEnd | main.py:33 | `finished` is the last event and occurs exactly once, after one event per file. |
| Events.EventPerFile | main.py:27-32 | The event of file `j` is an error exactly when its conversion raised. It then names the file and the reason; otherwise it is the progress after `j + 1` files. |
| Events.EventPerInputFile | main.py:27-32 | The same per-file statement for the events of a run over the input files, in terms of the error each file's conversion raises. |
| Events.Percent | main.py:30 | The progress after `i` of `total` files lies between 0 and 100 and is 100 after the last file. |
| Events.PathText | main.py:32 | The path's text starts with its directory and ends with its name, with at most one separator between them. |
| Events.FailureMessage | main.py:32 | The message is "Erreur lors de la conversion de ", then the path's text, then ": " and the reason at the end. |
| Events.PercentBounds | main.py:30 | Progress percentages lie between 0 and 100, grow with the number of files done, and reach 100 at the last file. |
| Events.ProgressNonDecreasing | main.py:27-30 | Any two progress events of a run are in non-decreasing order, and both lie between 0 and 100. |
| Events.CompletesAtHundred | main.py:30 | When the last file converts, its progress event is 100. |

## Left out

- User interface: `DropArea`, `MainWindow`, `main`, the dialogs and the progress bar (main.py:173-308) are not part of this model.
- Threads and signals:
  - `QThread` and the `pyqtSignal` plumbing are modelled as appends to the thread's event log.
  - Concurrency with the UI is not modelled.
  - That includes the one case that reaches the driver loop. The window passes its own `self.files` list to the thread (main.py:280-281). `add_files` (main.py:262-265) can extend that same list during a run, and it re-enables "Convertir".
  - `enumerate` (main.py:27) would then visit the added files, while `total_files` (main.py:26) keeps the old count. Progress could then pass 100, and `finished` would come only after the added files.
  - The model's file list is a `const` of the thread, so `Events.PercentBounds` and `Events.ProgressNonDecreasing` hold only for a list that does not change during the run.
- Pixel work is not modelled; frames are opaque tokens.
  - PIL's `convert` keeps the token and records the target colour mode.
  - `cv2.cvtColor` and `Image.fromarray` give an RGB frame with the capture's token.
- What each decoder finds in a file is part of the model's input:
  - `Image.open` gives the container's frames or an error;
  - `cv2.VideoCapture` gives the reported frame rate and the frames.
  Decoding itself is not modelled.
- File-system failures are not modelled: the encoder and the move never fail. `Path.exists` reads the output-directory map.
- Decoders.VideoCapture.Read: a capture that fails mid-stream is modelled as the end of the stream, which is what `read` reports.
- Rules.EffectiveFps: the frame rate is a real number. A NaN or infinite rate from OpenCV is not modelled.
- Events.Percent: progress is `i * 100 / total` in exact integer arithmetic.
  - The code computes `int((i / total) * 100)` in floating point, which can be one lower (29 of 100 files gives 28).
  - Floating point is not modelled.
- Paths.Lower: lower-casing covers ASCII letters only. Python's full Unicode case mapping is not modelled.
- Converter.ConversionThread.Run: the outer handler, "Erreur générale" (main.py:34-35), is not modelled. In the model nothing outside a file's conversion can raise.
- Rules.FrameDuration: the bare `except` (main.py:65-66) is not modelled, because reading a dictionary cannot fail in the model. An info value is either Python's None or an integer duration.
- Dead code: `avg_duration` (main.py:91) is computed and never used, so it is not modelled.
- WebP merging of batches: it is not implemented (the TODO at main.py:168). The model keeps the overwrite behaviour of the code.
- Rules.VideoFrameDuration: `1000 / fps` is modelled as exact division of reals, truncated.
  - Python divides in floating point, and the rounded quotient can reach the next whole number.
  - For the float nearest 0.1, `int(1000 / fps)` is 10000, while the exact quotient truncates to 9999.
- Events.PathText: a path is written as its directory, one separator and its name. The further normalisation of `str(Path)` (repeated separators, `.` components) is not modelled.
- The `with` block around `Image.open` (main.py:69) is not modelled: closing the container has no effect on the outputs.
