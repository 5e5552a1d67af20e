/** Values shared by the viewer's main thread, its loader worker and the decoders. */
module ViewerTypes {

  /** One past the largest `Uint32` / `uint32_t`. */
  const U32_LIMIT: int := 0x1_0000_0000

  /** A 32-bit unsigned quantity (SDL ticks, frame deadlines, `fileSizeKB`). */
  type U32 = x: int | 0 <= x < U32_LIMIT

  datatype Option<+T> = None | Some(value: T)

  /** Life-cycle of one catalogue entry. */
  datatype ImageState = Unloaded | Loading | Loaded | Failed

  /** A decoded multi-frame image: one display delay (milliseconds) per frame.
      The frame pixels only feed the GPU upload, which is not modelled. */
  datatype GifAnimation = GifAnimation(delays: seq<U32>)
  {
    function Count(): nat { |delays| }
  }

  /** One catalogue entry (`ImageMetadata`). `textureID` 0 means "no texture".
      The three `gif` fields are the animation state the renderer uses. */
  datatype ImageMetadata = ImageMetadata(
    path: string,
    fullWidth: int,
    fullHeight: int,
    fileSizeKB: U32,
    state: ImageState,
    textureID: nat,
    gifAnimation: Option<GifAnimation>,
    gifCurrentFrame: nat,
    gifNextFrameTime: U32)

  /** The zero-initialised entry the directory scan creates for a file name. */
  function NewEntry(path: string): (m: ImageMetadata)
    ensures m.path == path && m.state == Unloaded && m.textureID == 0
    ensures m.gifAnimation == None
  {
    ImageMetadata(path, 0, 0, 0, Unloaded, 0, None, 0, 0)
  }

  /** What a decoder hands back: a buffer (or NULL) and the dimensions it reported. */
  datatype DecodeOutput = DecodeOutput(data: Option<seq<bv8>>, width: int, height: int)

  /** A decode outcome travelling from the worker to the main thread (`LoadResult`). */
  datatype LoadResult = LoadResult(index: int, data: Option<seq<bv8>>, width: int, height: int, success: bool)

  /** The result the worker builds for `index`: it succeeds exactly when the decoder returned a buffer. */
  function ResultOf(index: int, out: DecodeOutput): (r: LoadResult)
    ensures r.index == index && r.data == out.data
    ensures r.success <==> r.data.Some?
    ensures r.width == out.width && r.height == out.height
  {
    LoadResult(index, out.data, out.width, out.height, out.data.Some?)
  }
}
