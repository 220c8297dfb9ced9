/** The two decoders as abstract sources of frames: an image container with
    a frame cursor (`seek`/`tell`), and a video capture read one frame at a
    time. What each decoder finds in a file is part of the input file. */
module Decoders {
  import opened Media
  import opened Rules

  /** The frames of an opened image container; an opened container always
      has at least its first frame. */
  type FrameStack = s: seq<SourceFrame> | |s| >= 1
    witness [SourceFrame("RGB", map[], Raster(0))]

  /** The outcome of opening a file as an image: the open raises, or it gives
      the container's frames. */
  datatype ImageOpen = OpenFailed(reason: string) | Opened(frames: FrameStack)

  /** A video stream: the frame rate the capture reports and the frames it
      delivers, in the stream's native channel order. */
  datatype VideoSource = VideoSource(fps: real, frames: seq<Raster>)

  /** An input file: its path, what the image decoder makes of it, and what
      the video decoder makes of it. */
  datatype InputFile = InputFile(path: FilePath, image: ImageOpen, video: VideoSource)

  /** One container frame converted for the encoder. */
  function DecodeFrame(f: SourceFrame): Frame
  {
    Frame(TargetMode(f.mode, f.info), f.pixels)
  }

  /** Every container frame converted, in traversal order. */
  function DecodeAll(src: seq<SourceFrame>): (r: seq<Frame>)
    ensures |r| == |src|
  {
    seq(|src|, i requires 0 <= i < |src| => DecodeFrame(src[i]))
  }

  /** The duration read for every container frame, in traversal order. */
  function DurationsOf(src: seq<SourceFrame>): (r: seq<int>)
    ensures |r| == |src|
  {
    seq(|src|, i requires 0 <= i < |src| => FrameDuration(src[i].info, i))
  }

  /** A video frame after the BGR-to-RGB conversion and `Image.fromarray`. */
  function VideoFrame(raw: Raster): Frame
  {
    Frame(RGB, raw)
  }

  /** Every frame of a video stream converted, in stream order. */
  function DecodeVideo(raw: seq<Raster>): (r: seq<Frame>)
    ensures |r| == |raw|
  {
    seq(|raw|, i requires 0 <= i < |raw| => VideoFrame(raw[i]))
  }

  /** An opened image container with its frame cursor. The mode, info and
      pixels it shows are those of the frame under the cursor. */
  class ImageContainer {
    const frames: FrameStack
    var cursor: nat

    ghost predicate Valid()
      reads this
    {
      cursor < |frames|
    }

    /** `Image.open`: the cursor starts on the first frame. */
    constructor Open(frames: FrameStack)
      ensures Valid() && this.frames == frames && cursor == 0
    {
      this.frames := frames;
      cursor := 0;
    }

    function Tell(): nat
      reads this
    {
      cursor
    }

    function Mode(): string
      reads this
      requires Valid()
    {
      frames[cursor].mode
    }

    function Info(): Info
      reads this
      requires Valid()
    {
      frames[cursor].info
    }

    /** `convert(mode)` of the frame under the cursor. */
    function Convert(mode: ColourMode): Frame
      reads this
      requires Valid()
    {
      Frame(mode, frames[cursor].pixels)
    }

    /** `seek(n)`: moves the cursor to frame `n`, or reports end-of-file
        (the `EOFError`) and leaves the cursor where it was. */
    method Seek(n: nat) returns (eof: bool)
      requires Valid()
      modifies this
      ensures Valid()
      ensures eof <==> n >= |frames|
      ensures cursor == if eof then old(cursor) else n
    {
      eof := n >= |frames|;
      if !eof {
        cursor := n;
      }
    }
  }

  /** An opened video capture with its read position. */
  class VideoCapture {
    const stream: seq<Raster>
    const fps: real
    var position: nat
    var released: bool

    ghost predicate Valid()
      reads this
    {
      position <= |stream|
    }

    constructor Open(source: VideoSource)
      ensures Valid() && stream == source.frames && fps == source.fps
      ensures position == 0 && !released
    {
      stream := source.frames;
      fps := source.fps;
      position := 0;
      released := false;
    }

    /** `read()`: the next frame and `true`, or `false` at the end of the
        stream (the frame returned then is a placeholder for Python's None). */
    method Read() returns (ret: bool, frame: Raster)
      requires Valid()
      modifies this`position
      ensures Valid()
      ensures ret <==> old(position) < |stream|
      ensures ret ==> frame == stream[old(position)] && position == old(position) + 1
      ensures !ret ==> position == old(position)
    {
      ret := position < |stream|;
      if ret {
        frame := stream[position];
        position := position + 1;
      } else {
        frame := Raster(0);
      }
    }

    /** `release()`. */
    method Release()
      modifies this`released
      ensures released
    {
      released := true;
    }
  }
}
