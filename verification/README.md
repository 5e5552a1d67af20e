# sharkpix core, modelled in Dafny

sharkpix is an SDL/OpenGL image viewer. It decodes images on a background worker thread.
The main thread asks for the image at an index through a single request slot. Each
request overwrites whatever request is still pending, and the worker takes the slot and
clears it, so the latest request wins. Decoded
buffers come back through a FIFO of results. The main thread drains that FIFO once per frame.
A successful result for the image on screen is uploaded as the only resident texture, and
every other texture is evicted; a failed one marks the image as failed. A result for any other image is stale and is discarded.

This project models that bookkeeping, the helpers around it, and the pixel-repacking loops
of the decoders:

- `types.dfy` (`ViewerTypes`): catalogue entries (`ImageMetadata`), their four states,
  decode results (`LoadResult`), and 32-bit quantities.
- `image_list.dfy` (`ImageLists`): the growable catalogue array. It is a class over an
  `array`. Capacity starts at 8 and doubles, and a failed reallocation leaves the list as
  it was.
- `channels.dfy` (`Channels`): the request slot (an `int` with sentinel -1) and the result
  FIFO, both as classes, modelled sequentially.
- `extensions.dfy` (`Extensions`): finding the suffix after the last dot, case-insensitive
  dispatch to a decoder with the stb fallback, the 13-extension catalogue filter, and
  `bytes / 1024`. The dispatch table is proved equal to an independent case-by-case
  definition (`DecoderFor`), and the loops that scan the tables are proved equal to
  these functions.
- `cache.dfy` (`Cache`): navigation and result application, as functions of a `View`
  value. The invariants the main thread keeps are stated as `Consistent`: entry states,
  texture ownership, the drawn index and the single-slot cache. The file proves that
  navigation (`SetCurrent`), applying one result (`ApplyResult`) and draining a queue of
  them (`ApplyAll`) preserve them; `viewer.dfy` adds the scan's appends and the worker's
  size write. Eviction on its own does not preserve them (it can strip the texture of the
  drawn entry); it keeps them only as part of a successful `ApplyResult`, which makes the
  kept entry the drawn one.
- `playback.dfy` (`Playback`): the animation tick and the draw guard of `renderFrame`.
- `viewer.dfy` (`Viewer`): the application state as a class (`AppState`). Its methods are
  the directory filter, `setCurrentImage`, the drain loop, the texture unloading, one
  iteration of the worker and the render guard. Each method is proved to move the state
  exactly as the corresponding `Cache`/`Playback` function says.
- `image_loaders.dfy` (`ImageLoaders`): the loaders that repack pixels, over arrays:
  - the TIFF raster unpack, with a round trip back to the raster;
  - the HEIF/AVIF strided row copy;
  - the JPEG scanline layout;
  - the WebP copy;
  - the SPNG success/failure contract.

  What a codec library reports arrives as a record of outcomes. Each allocation that can
  fail is a boolean parameter or a field of that record.

Three facts about the code shape the invariants:

- `Consistent` states only that a `Loaded` entry has a non-zero texture, together with
  "at most one entry holds a texture". The converse does not hold in the code: a failure
  result for the displayed entry marks it `Failed` without deleting its texture
  (main.c:296-302).
- The worker writes `fileSizeKB` of the entry it loads (main.c:214-216), and
  `LoaderIteration` models that write.
- During the main loop, eviction happens only when a successful result for the displayed
  entry is applied (main.c:293), not when an entry is selected. The other call, at teardown
  (main.c:503), is left out below.

`main.c` and `modules/render.c` both define `setCurrentImage`, `loader_request_load` and
`ImageMetadata_setFileSize`, with the same bodies. Each is modelled once, and the rows below
cite the `main.c` copy.

## Model

| member | source | states |
|---|---|---|
| ViewerTypes.NewEntry | main.c:390-392 | a scanned name becomes an `Unloaded` entry with that path, no texture and no animation |
| ViewerTypes.ResultOf | main.c:242-250 | the worker's result carries the index, the decoder's buffer and dimensions, and `success` exactly when the buffer is non-null |
| ImageLists.NextCapacity | main.c:35-36 | a full list grows to 8 when it had no storage and to twice its capacity otherwise, so the capacity always grows |
| ImageLists.GrowthStaysOnLadder | main.c:35-39 | growth keeps the capacity on the ladder 0, 8, 16, 32, ... |
| ImageLists.ImageList.constructor | main.c:30-32 | a new list is empty with capacity 0 |
| ImageLists.ImageList.Add | main.c:34-42 | with room, the item is appended in place and earlier entries are unchanged; when full and the reallocation succeeds, the item is appended into fresh storage of the next capacity; when it fails, size, capacity and storage are unchanged; `size <= capacity` always holds |
| Channels.RequestSlot.constructor | main.c:164 | the slot starts empty (-1) |
| Channels.RequestSlot.Request | main.c:183-188 | a request overwrites whatever is pending |
| Channels.RequestSlot.Take | main.c:209 | taking returns the pending value and leaves the slot at -1 |
| Channels.Supersession | main.c:183-211 | of two requests before the worker wakes, the worker sees only the second, and the slot is then empty |
| Channels.ResultQueue.constructor | main.c:47-49 | the queue starts empty |
| Channels.ResultQueue.Enqueue | main.c:59-69 | the result is appended at the tail; when the node allocation fails it is dropped and the queue is unchanged |
| Channels.ResultQueue.Dequeue | main.c:71-83 | on an empty queue it reports failure and changes nothing; otherwise it returns the head and removes exactly it |
| Channels.FifoOrder | main.c:59-83 | two results come out in the order they went in, and the queue is then empty |
| Channels.EnqueueThenDrain | main.c:59-83 | any sequence of enqueued results is dequeued in the same order |
| Extensions.SameIgnoringCase | main.c:236 | `strcasecmp(a, b) == 0`, compared character by character after ASCII lower-casing; equal strings have equal lengths |
| Extensions.SameIgnoringCaseIsLowerEq | main.c:236 | `strcasecmp(a, b) == 0` holds exactly when the ASCII-lower-cased strings are equal |
| Extensions.LastDot | main.c:217 | `strrchr(path, '.')`: the position found holds a dot and no later position does; absent exactly when the name has no dot |
| Extensions.Extension | main.c:217 | the extension is a non-empty suffix of the path that starts with its only dot; absent exactly when there is no dot |
| Extensions.ExtensionOfSuffix | main.c:217 | whatever precedes it, a name ending in a dot-led suffix without further dots has that suffix as its extension |
| Extensions.SelectDecoder | main.c:217-241 | the decoder the worker picks for a path: the first table entry matching the extension, else stb; its contract says a name without a dot always gets stb, and `SelectDecoderIsDecoderFor` states the rest |
| Extensions.LoaderTableLower | main.c:223-234 | every key of the dispatch table is lower case |
| Extensions.FirstMatchLower | main.c:235-240 | against lower-case keys, case-insensitive matching of the extension is matching of its lower-cased form |
| Extensions.FirstMatchFinds | main.c:235-240 | the table scan returns the decoder of an entry whose key matches, or reports that no key matches |
| Extensions.LoaderTableAgrees | main.c:223-234 | each table entry maps its key as the case-by-case definition `DecoderFor` does |
| Extensions.DecoderForOnlyKeys | main.c:223-234 | `DecoderFor` names a dedicated decoder only for a key of the table |
| Extensions.TableLookupIsDecoderFor | main.c:223-240 | on a lower-case extension, the table scan with the stb fallback equals `DecoderFor` |
| Extensions.SelectDecoderIsDecoderFor | main.c:217-241 | for every path with an extension, the dispatched decoder is `DecoderFor` of the lower-cased extension |
| Extensions.DispatchSpelling | main.c:217-241 | a name ending in any letter-case spelling of a dot-led extension is dispatched as that extension's lower-case form |
| Extensions.JpegAliases | main.c:225-226 | `.jpg` and `.JPEG` both go to libjpeg-turbo |
| Extensions.HeifAliases | main.c:228-229 | `.heif` and `.HEIC` both go to libheif |
| Extensions.AvifUsesHeif | main.c:230 | `.avif` and `.AVIF` both go to libheif |
| Extensions.TiffAliases | main.c:231-232 | `.tif` and `.TiFf` both go to libtiff |
| Extensions.GifFallsBack | main.c:218-241 | `.gif` has no table entry and falls back to stb |
| Extensions.NoDotFallsBack | main.c:217-219 | a name without a dot always goes to stb |
| Extensions.LookupLoader | main.c:217-241 | the worker's loop over the table, stopping at the first match, returns exactly `SelectDecoder(path)` |
| Extensions.IsListedImage | main.c:386-395 | the scan's loop over the 13 extensions accepts a name exactly when its extension matches one of them, ignoring case |
| Extensions.IsCatalogued | main.c:386-395 | the scan's filter: a name is accepted exactly when it has an extension matching one of the 13, ignoring case; its contract says an accepted name has at least four characters, the shortest listed extension, and `IsListedImage` is proved equal to it |
| Extensions.TableKeysCatalogued | main.c:376 | every key of the dispatch table is one of the 13 catalogue extensions |
| Extensions.DispatchedFilesAreCatalogued | main.c:217-241 | every file that gets a dedicated decoder also passes the catalogue filter |
| Extensions.FileSizeKB | main.c:85-87 | `fileSizeKB`: `bytes / 1024` truncated to 32 bits, never more than the size in KiB |
| Extensions.FileSizeKBIsFloor | main.c:85-87 | below 4 TiB, `fileSizeKB` is the floor of the size in KiB |
| Cache.Evicted | main.c:115-123 | an unloaded entry has no texture and zero dimensions; `Loaded` becomes `Unloaded`; other states and the path are kept |
| Cache.EvictAllExcept | main.c:125-130 | every entry but the kept one becomes `Evicted` of its old value; the kept one is unchanged; the length is kept |
| Cache.EvictionIdempotent | main.c:125-130 | evicting twice is evicting once |
| Cache.WrapIndex | main.c:257-259 | navigation lands in `[0, size)` and leaves an in-range index alone |
| Cache.ApplyResult | main.c:273-302 | applying a result keeps the catalogue length, the displayed index and the pending request |
| Cache.ApplyAll | main.c:272-303 | draining keeps the catalogue length, the displayed index and the pending request |
| Cache.ApplyAllSnoc | main.c:272 | draining one more result is applying it after the others, in queue order |
| Cache.SuccessesSnoc | main.c:275-290 | the buffers freed by the drain are those of the successful results, in order |
| Cache.SetCurrent | main.c:256-268 | `setCurrentImage` on the view: the catalogue length, the drawn index and the texture counter are kept; on a non-empty list the current index lands in `[0, size)`; the pending request is either kept or becomes the new current index |
| Cache.SetCurrentCases | main.c:256-268 | no-op on an empty list; `>= size` wraps to 0 and `< 0` to `size - 1`; no-op when already current; otherwise the index becomes current, a non-`Loaded` entry becomes `Loading` and is requested, and a `Loaded` entry issues no request |
| Cache.SetCurrentKeepsConsistent | main.c:256-268 | navigation keeps every invariant of `Consistent` |
| Cache.StaleResultDiscarded | main.c:274-278 | a stale result changes no texture, drawn index or texture counter, and turns only a `Loading` entry into `Unloaded` |
| Cache.CurrentSuccessLoads | main.c:279-295 | a success for the displayed entry loads it with the result's dimensions and a texture no other entry holds, and makes it the drawn entry; every other entry ends with no texture and zero dimensions, and any that were `Loaded` become `Unloaded` |
| Cache.CurrentFailureFails | main.c:296-302 | a failure for the displayed entry marks it `Failed`, clears the drawn index only when it pointed there, and leaves every other entry unchanged |
| Cache.ApplyResultKeepsConsistent | main.c:273-302 | applying any in-range result keeps every invariant |
| Cache.ApplyAllKeepsConsistent | main.c:270-304 | draining any queue of in-range results keeps every invariant |
| Cache.StaleDrainUploadsNothing | main.c:274-278 | however many stale results are drained, no texture, drawn index or texture counter changes |
| Cache.SingleResidentTexture | main.c:292-293 | while a texture is drawn, its entry holds it and no other entry holds one |
| Cache.OpenAndDrain | main.c:256-295 | opening an entry and draining its successful result leaves it displayed, loaded and drawn, with no other texture resident |
| Playback.Tick | modules/render.c:64-69 | `updateGifAnimation` at time `now`: only the frame index and the deadline change, and a frame index in `[0, count)` stays there |
| Playback.StaticNeverTicks | modules/render.c:65 | no animation, or a single frame: the tick changes nothing |
| Playback.WaitsForDeadline | modules/render.c:67 | before the deadline the tick changes nothing |
| Playback.AdvancesOneFrame | modules/render.c:67-69 | when due, the frame advances by exactly one, modulo the count, however late the tick is; without wrap-around the next deadline is `now` plus the new frame's delay; nothing else changes |
| Playback.FrameStaysInRange | modules/render.c:68 | over any sequence of ticks, a frame index in `[0, count)` stays there and the animation is untouched |
| Playback.TimingScenario | modules/render.c:64-69 | with delays 100 and 200: a tick 50 ms late shows frame 1 due 200 ms later; a tick 400 ms late still advances only one frame; an early tick changes nothing |
| Playback.ShouldDraw | modules/render.c:81-84 | the draw guard of `renderFrame`: it passes only when the active index names a `Loaded` entry holding a texture |
| Playback.DrawsExactlyWhenActive | modules/render.c:81-84 | under the invariants, `renderFrame` draws exactly when a texture is active |
| Viewer.Catalogue | main.c:382-395 | the scan adds no more entries than names; each is the fresh `NewEntry` of one of the names, `Unloaded`, without a texture, and with a catalogued extension; every name with a catalogued extension gets its entry; `CatalogueAppend` gives the exact value, one entry per catalogued name in listing order |
| Viewer.WithFileSize | main.c:214-216 | the worker's `stat` branch: only `fileSizeKB` may change, nothing changes when `stat` fails, and the recorded size never exceeds the file's size in KiB |
| Viewer.AppendKeepsConsistent | main.c:392 | appending unloaded, texture-less entries keeps every invariant |
| Viewer.SameResidencyKeepsConsistent | main.c:209-216 | the worker's file-size write and its take of the slot keep every invariant |
| Viewer.ScanStep | main.c:382-395 | scanning one more name extends the catalogue by that name's entry, if any |
| Viewer.CatalogueAppend | main.c:382-395 | the catalogue of a longer name list is the old catalogue plus the new name's entry, if any |
| Viewer.AppState.constructor | main.c:404-414 | `init_app_state`, followed by the slot and queue set-up of `loader_start` (main.c:162-169): the viewer starts with an empty catalogue, no current or drawn index, an empty slot and queue, and a state satisfying `Consistent` |
| Viewer.AppState.FindImagesInDirectory | main.c:382-395 | the scan appends `Catalogue(names)` to the list and changes nothing else in the view |
| Viewer.AppState.AddIfListed | main.c:386-395 | one name is appended as a new entry exactly when its extension is catalogued |
| Viewer.AppState.SetCurrentImage | main.c:256-268 | the new state is `SetCurrent` of the old one; the result queue is untouched |
| Viewer.AppState.UnloadTexture | main.c:115-123 | entry `k` becomes `Evicted` of its old value; every other slot of the array is unchanged |
| Viewer.AppState.UnloadAllTexturesExcept | main.c:125-130 | the list becomes `EvictAllExcept` of its old contents; the unused tail of the array is unchanged |
| Viewer.AppState.ProcessLoaderResults | main.c:270-304 | the new state is `ApplyAll` of the old state over the old queue, in order; the queue ends empty; the freed buffers are exactly those of the successful results |
| Viewer.AppState.ApplyLoadResult | main.c:273-302 | one drained result moves the state as `ApplyResult` says |
| Viewer.AppState.DiscardStale | main.c:274-278 | a stale result moves the state as `ApplyResult` says for a result not for the displayed index |
| Viewer.AppState.UploadCurrent | main.c:279-295 | a success for the displayed index moves the state as `ApplyResult` says |
| Viewer.AppState.FailCurrent | main.c:296-302 | a failure for the displayed index moves the state as `ApplyResult` says |
| Viewer.AppState.LoaderIteration | main.c:209-251 | the slot is taken and cleared; a taken -1 changes nothing; otherwise the entry's file size is recorded when `stat` succeeds, and the result of the decoder chosen by `SelectDecoder` is enqueued, unless the node allocation fails |
| Viewer.AppState.UpdateGifAnimation | modules/render.c:64-76 | entry `k` becomes `Tick` of its old value at `now`; nothing else changes |
| Viewer.AppState.RenderFrame | modules/render.c:78-87 | it draws exactly when `ShouldDraw` holds; when it does not, nothing changes; when it does, only the active entry is ticked |
| ImageLoaders.CopyInto | modules/image_loaders.c:84 | `memcpy(dst + at, src, n)`: bytes `at .. at + n` become `src`, and every other byte of the buffer is unchanged |
| ImageLoaders.UnpackedAt | modules/image_loaders.c:110-116 | the unpacked output has four bytes per pixel, and bytes `4i .. 4i+3` are bits 0-7, 8-15, 16-23 and 24-31 of `raster[i]` |
| ImageLoaders.PackUnpack | modules/image_loaders.c:110-116 | no information is lost: reassembling each group of four bytes gives back the raster |
| ImageLoaders.UnpackRaster | modules/image_loaders.c:109-116 | the loop writing through the output pointer fills the buffer with exactly `Unpacked(raster)` |
| ImageLoaders.TiffOutputBytesExactIff | modules/image_loaders.c:107 | the allocation `npixels * 4` as written is the `4 * npixels` bytes the loop writes exactly when `npixels < 2^30` |
| ImageLoaders.TiffOutputOverflowWitness | modules/image_loaders.c:100-116 | a 32768 x 32768 image has 2^30 pixels; the buffer as written gets 0 bytes while the loop writes 2^32 |
| ImageLoaders.LoadTiff | modules/image_loaders.c:95-122 | a buffer is returned exactly when the open, the raster allocation, the read and the output allocation succeed; it is fresh, has `4 * npixels` bytes and holds `Unpacked(raster)`; the raster is freed on every path after its allocation; the file is closed on every path after the open |
| ImageLoaders.PackedRowAt | modules/image_loaders.c:82-86 | output byte `y * width * 4 + x` is plane byte `y * stride + x`, and the output has `height * width * 4` bytes |
| ImageLoaders.CopyPlaneRows | modules/image_loaders.c:82-86 | the row loop fills the buffer with the first `width * 4` bytes of each of the `height` rows, packed tightly in order |
| ImageLoaders.LoadHeif | modules/image_loaders.c:56-93 | a buffer is returned exactly when every libheif step succeeds, the plane is non-null and the allocation succeeds; it is fresh, has `width * height * 4` bytes and holds the packed rows; the dimensions are written exactly when the decode succeeds |
| ImageLoaders.ReadScanlines | modules/image_loaders.c:242-246 | the scanline loop leaves scanline `k` at offset `k * row_stride`, with the scanlines concatenated in order |
| ImageLoaders.JpegScanlineAt | modules/image_loaders.c:237-245 | byte `x` of scanline `k` is at output offset `k * row_stride + x`, inside the `height * row_stride` buffer |
| ImageLoaders.LoadJpeg | modules/image_loaders.c:210-251 | a buffer is returned exactly when the read, the decode and both allocations succeed; it is fresh, has `height * width * components` bytes and holds the scanlines in order; the dimensions are the decoder's once the header is read and decoding starts (even if the output allocation then fails), and the caller's values on the earlier returns |
| ImageLoaders.LoadWebP | modules/image_loaders.c:26-54 | a buffer is returned exactly when the read, the decode and the copy allocation succeed; it is fresh, has `width * height * 4` bytes and equals libwebp's output; the dimensions are those `WebPDecodeRGBA` writes once it is called, and the caller's values before that |
| ImageLoaders.LoadSpng | modules/image_loaders.c:178-208 | a buffer is returned exactly when every step succeeds; the dimensions are written only on a successful decode; a failed decode frees the buffer and returns null |

## Left out

- Threads, the mutexes and the condition variable (`loader_start`, `loader_stop`, the waits in `loader_thread_func`). The slot and the queue are plain sequential state, and one worker iteration is one method call.
- The race on `fileSizeKB` between the worker and the main thread. The model performs the write at the worker's step.
- The linked nodes of the result queue. The queue is a sequence, so "`head` is null exactly when `tail` is null" holds by construction and is not a separate statement.
- All OpenGL and SDL calls: texture creation and upload, shaders, the window title, event polling. A texture name is a counter `nextTexture` that hands out non-zero names. GL object lifetime is not tracked, so overwriting `textureID` without `glDeleteTextures` (a second successful result for the displayed entry) does not show up as a leak.
- Floating-point view maths (`resetView`, the matrices, zoom and pan), `ImageMetadata_getFileSizeMB`, and `updateWindowTitle`.
- Directory enumeration, `stat` on directory entries and the `strverscmp`/`qsort` ordering. The scan takes the names of the regular files as a sequence, in listing order, and the sort afterwards is not modelled.
- `Viewer.AppState.AddIfListed`: the scan's reallocation is always taken to succeed. `ImageLists.ImageList.Add` models the failure on its own.
- `Viewer.AppState.LoaderIteration`: the decoders are an abstract function from decoder and path to an optional buffer with dimensions, and `stat` is a parameter. Neither stb's loader nor libjxl is modelled (`loadImage_Jxl` depends on the library's status sequencing).
- The codec libraries themselves (libtiff, libheif, libjpeg-turbo, libwebp, libspng): their outcomes are fields of the `...Source` records. The file reads of the WebP and JPEG loaders are one success flag each.
- `ImageLoaders.LoadJpeg`: a libjpeg error raised during the scanline loop longjmps to a handler that returns NULL without freeing the output buffer. The model treats every decode error as raised before that allocation, so it does not show this leak.
- `ImageLoaders.LoadJpeg`: `row_stride = (*width) * output_components` and `(*height) * row_stride` are `int` products, and the row offset `output_scanline * row_stride` is 32-bit `unsigned`. The model computes all three exactly. So it does not show what happens from 2^31 output bytes on (a 40000 x 40000 RGBA image, say), where the product overflows and the scanline loop would write past the buffer.
- `ImageLoaders.LoadHeif`: `(*width) * (*height) * 4` is computed in `int`, and the model takes the product as exact. It requires the plane to hold `height * stride` bytes with `stride >= width * 4`, which libheif guarantees for an interleaved plane.
- `ImageLoaders.LoadWebP`: `(*width) * (*height) * 4` is computed in `int`, and the model takes the product as exact.
- `ImageLoaders.LoadTiff`: `npixels = (*width) * (*height)` is a signed `int` product stored in a `uint32_t`. It is modelled as a product modulo 2^32 (`TiffPixelCount`), and the model takes libtiff to fill exactly that many raster words. So it does not show what happens from 2^31 pixels on (a 65537 x 65536 image, say), where the `int` product overflows, the raster (modules/image_loaders.c:101) is sized by the wrapped count, and `TIFFReadRGBAImage` writes `width * height` words past it.
- `Cache.SetCurrentKeepsConsistent`, `Cache.ApplyAllKeepsConsistent` and the other preservation lemmas are stated on the `View` functions. The `AppState` methods are proved equal to those functions rather than carrying the invariants in their own contracts.
- Teardown after the main loop (main.c:502-512): `loader_stop`, the final `unloadAllTexturesExcept(-1)`, the frees of the list and the GL objects, and `SDL_Quit`. It ends the program, so no invariant is stated about it.
- `Channels.ResultQueue.Enqueue`: when the node allocation fails, the dropped result's pixel buffer is not freed, and its entry stays `Loading` until it is selected again and a new result arrives. The model drops the result and the entry stays `Loading`, as in the code, but it does not track the leaked buffer.
- `ImageLoaders.UnpackRaster`: `TIFFReadRGBAImage` fills the raster with its origin at the lower-left, so TIFF rows come out bottom-up while the other decoders give top-down rows. The raster is taken as libtiff delivers it, and the orientation is not stated.
- `Viewer.AppState.UpdateGifAnimation`: the texture sub-image upload of the new frame is not modelled. The `Uint32` wrap of `now + delay` is modelled explicitly (modulo 2^32).

## Findings

| source | as written | input that shows it | evidently intended | confidence | as-written member | corrected member |
|---|---|---|---|---|---|---|
| modules/image_loaders.c:107 | `malloc(npixels * 4)` multiplies a `uint32_t` in 32-bit unsigned arithmetic, so the size wraps when `npixels >= 2^30`, while the loop at lines 110-116 still writes `4 * npixels` bytes | a 32768 x 32768 TIFF: `npixels = 2^30`, the allocation is 0 bytes and the loop writes 2^32 bytes past it | allocate exactly `4 * npixels` bytes (size_t arithmetic, as the raster allocation at line 101 does) | high, not executed | ImageLoaders.TiffOutputOverflowWitness | ImageLoaders.LoadTiff |
