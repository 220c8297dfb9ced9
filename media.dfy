/** The values the conversion pipeline passes around: decoded frames, the
    parameters handed to the WebP encoder, written files and file paths.
    Pixel data is an opaque token: no pixel work is modelled. */
module Media {

  datatype Option<+T> = None | Some(value: T)

  /** Pixel data of one raster, identified only by a token. */
  datatype Raster = Raster(id: nat)

  /** A value of an image's `info` dictionary, as far as the converter
      tells values apart: Python's `None`, or any other value (shown as an
      integer, which is what a frame duration is). */
  datatype InfoValue = NoneValue | IntValue(n: int)

  type Info = map<string, InfoValue>

  /** One frame of an image container, as the decoder exposes it while its
      cursor is on that frame: the mode name ("RGB", "RGBA", "LA", "P", "L",
      ...), the frame's info dictionary, and its pixels. */
  datatype SourceFrame = SourceFrame(mode: string, info: Info, pixels: Raster)

  /** The two colour modes a frame is converted to before encoding. */
  datatype ColourMode = RGB | RGBA

  /** A frame ready for the encoder. */
  datatype Frame = Frame(mode: ColourMode, pixels: Raster)

  /** The `duration` argument of an animated save: one value per frame
      (animated images) or one value for every frame (videos). */
  datatype Durations = PerFrame(each: seq<int>) | Uniform(all: int)

  /** The keyword arguments of one WebP save call; `None` stands for an
      argument the call does not pass. */
  datatype SaveParams = SaveParams(
    saveAll: bool,
    duration: Option<Durations>,
    loop: Option<int>,
    quality: int,
    minimizeSize: bool,
    lossless: bool)

  /** What a WebP save writes: the frames in order, with the parameters. */
  datatype WebpFile = WebpFile(frames: seq<Frame>, params: SaveParams)

  /** A file-system path: its directory and its final component. */
  datatype FilePath = FilePath(dir: string, name: string)

  /** One save of an output: the path it is meant for, what is written there,
      and whether it is a final save (written in place) or an intermediate
      one (written to a temporary path, then moved over the target). */
  datatype Commit = Commit(target: FilePath, file: WebpFile, isFinal: bool)

  /** Appending to a log in two steps is appending the two parts at once. */
  lemma AppendAssociates<T>(a: seq<T>, b: seq<T>, c: seq<T>)
    ensures (a + b) + c == a + (b + c)
  {
  }
}
