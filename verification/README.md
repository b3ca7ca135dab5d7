# dx_watermark in Dafny

This project models the core of dx_watermark. dx_watermark is a Windows tool that stamps a
watermark onto video in two ways:

- **Live screen recording.** It captures the desktop with DXGI output duplication, draws the
  hardware mouse pointer onto each captured image, blends a watermark over the image on the
  GPU with Direct3D 11, and encodes the result with FFmpeg.
- **File transcoding.** It decodes a video file, blends the watermark into every frame, and
  encodes the frames again. The blend runs either on the GPU (`VideoProcessor`) or inside an
  FFmpeg filter graph (`FFmpegWatermarkProcessor`).

The model covers these parts:

- the pointer overlay (`MouseHandler`) and the pointer-shape decoders;
- the off-screen compositor (`D3DProcessor`);
- desktop capture (`DXGICapture`);
- the recorder loop (`ScreenRecorder`);
- the two transcoders, which share their input and output opening code;
- watermark preparation (`WatermarkRenderer`): the tiled text watermark and the centred PNG
  watermark.

How it is modelled:

- Byte buffers are `seq<byte>`.
- Every GPU, duplication and FFmpeg call is an outcome parameter: a boolean, or a small
  datatype carrying the data the call returns.
- Each chain of set-up steps of the form "do the next step, stop at the first failure" is one
  generic function, `Prelude.FailFast`. Its result is the list of steps attempted.
- Pixel addressing has a single definition, in `Layout`.
- Most operations are pure functions. Each has a partner: a per-pixel meaning lemma, a round
  trip, an invariant or a reference definition. The loops of the transcoders are methods.
  Each of those methods is proved equal to a reference function over the whole input.

Some behaviour of the code that a reader might not expect, and that the model keeps:

- **Filter-graph opacity.** `InitializeFilter` takes an `alpha` argument and never reads it
  (src/FFmpegWatermarkProcessor.cpp:222, 295-298). Its graph ends in `overlay=0:0`, and the
  opacity appears nowhere in it (`FilterGraph.AlphaIsIgnored`).
- **Unchecked flush results.** No result is checked during the decoder flush or the filter
  flush of the filter-graph transcoder (src/FFmpegWatermarkProcessor.cpp:444-487). The
  model gives those calls outcome parameters that change nothing, or leaves them out.
- **Unchecked trailer.** `VideoProcessor` ignores the result of writing the trailer
  (src/VideoProcessor.cpp:478), so its success does not depend on it.
- **Pointer drawing.** The texture guard at src/MouseHandler.cpp:416 means the pointer is
  never drawn (see Findings).

Modules, one per file:

| module | file |
|---|---|
| `Prelude` | prelude.dfy |
| `Layout` | layout.dfy |
| `Pixels` | pixels.dfy |
| `CursorShape` | cursor_shape.dfy |
| `MouseHandler` | mouse_handler.dfy |
| `D3DProcessor` | d3d_processor.dfy |
| `DxgiCapture` | dxgi_capture.dfy |
| `ScreenRecorder` | screen_recorder.dfy |
| `MediaIO` | media_io.dfy |
| `VideoProcessor` | video_processor.dfy |
| `WatermarkRenderer` | watermark_renderer.dfy |
| `FilterGraph` | filter_graph.dfy |
| `FFmpegWatermark` | ffmpeg_watermark.dfy |

## Model

| member | source | states |
|---|---|---|
| Prelude.FailFast | src/D3DProcessor.cpp:18-29 | The steps a chain of early-returning set-up calls attempts: a prefix of the order, every step before the last one succeeded, and when the chain stops early its last step is the one that failed |
| Prelude.FailFastFirstFailure | src/D3DProcessor.cpp:23-28 | A chain succeeds exactly when it attempts every step and the last succeeds; it never goes past the first failing step |
| Prelude.FirstFailureOfFailFast | src/D3DProcessor.cpp:23-28 | The number of steps attempted is one more than the number of leading successes, or the whole order when all succeed |
| CursorShape.ShapeTypeOf | src/MouseHandler.cpp:395-408 | Exactly the format codes 1 (monochrome), 2 (colour) and 4 (masked colour) are recognised, and each decodes back to its code |
| CursorShape.ShapeCodeRoundTrip | src/MouseHandler.cpp:395-408 | The format codes and the three pointer formats are in one-to-one correspondence |
| CursorShape.MonoColor | src/MouseHandler.cpp:268-298 | The AND/XOR truth table: AND set and XOR clear is transparent, XOR set is opaque white, both clear is opaque black; the colour channels are always equal |
| CursorShape.DecodeMonochrome | src/MouseHandler.cpp:250-314 | A monochrome shape decodes exactly when both bit masks lie inside the shape buffer, into a w*h*4-byte sprite |
| CursorShape.DecodeMonochromePixels | src/MouseHandler.cpp:253-298 | Sprite pixel (y, x) is the truth-table colour of bit x of row y of the AND mask and of the XOR mask, which starts h rows of pitch bytes later |
| CursorShape.DecodeColor | src/MouseHandler.cpp:316-330 | A colour shape decodes exactly when its h rows of w*4 bytes, pitch bytes apart, lie inside the buffer |
| CursorShape.DecodeColorPixels | src/MouseHandler.cpp:316-330 | Sprite pixel (y, x) is the four bytes at y*pitch + 4x of the shape buffer, in order |
| CursorShape.DecodeMaskedColor | src/MouseHandler.cpp:332-380 | A masked-colour shape decodes exactly when the colour bytes and the mask rows after them lie inside the buffer |
| CursorShape.DecodeMaskedColorPixels | src/MouseHandler.cpp:332-380 | Sprite pixel (y, x) is the colour pixel at its unpadded offset when its mask bit is set, and transparent black otherwise |
| CursorShape.MaskedColorAgreesWithColor | src/MouseHandler.cpp:316-380 | For unpadded rows with every mask bit set, the masked-colour decode equals the colour decode |
| MouseHandler.Fresh | src/MouseHandler.cpp:59-62 | A new handler is not initialised, has no pending shape, no sprite texture and no target view, and its pointer is invisible with an empty shape buffer |
| MouseHandler.Initialize | src/MouseHandler.cpp:68-183 | Records the screen size, then creates the nine pipeline objects in order, stopping at the first failure; the handler is marked initialised only when all succeed, and the pointer state is untouched |
| MouseHandler.UpdateMouse | src/MouseHandler.cpp:185-218 | Position and visibility follow the frame only when it carries a mouse update; a frame announcing a shape resizes the shape buffer, and a successful shape query stores the shape, size, pitch and hot spot and marks the sprite dirty; nothing else changes |
| MouseHandler.UpdateMouseQuiet | src/MouseHandler.cpp:185-218 | A frame with neither a mouse update nor a shape leaves the handler unchanged |
| MouseHandler.UpdateMouseReadsOnlyPointer | src/MouseHandler.cpp:185-218 | The pointer state after an update depends only on the pointer state before it and on the frame |
| MouseHandler.CreateMouseTexture | src/MouseHandler.cpp:221-248 | Succeeds exactly when the shape buffer is non-empty and both GPU calls succeed; the texture has the current shape size, an empty buffer creates nothing, and a failed view keeps the texture |
| MouseHandler.DecodeShape | src/MouseHandler.cpp:395-408 | An unknown format code decodes to nothing; a decoded sprite has w*h*4 bytes |
| MouseHandler.WriteSprite | src/MouseHandler.cpp:300-412 | The sprite (the top-left shapeWidth x shapeHeight pixels of the texture; other texels keep earlier bytes, not tracked) is written and the dirty flag cleared exactly when the shape decodes, the texture maps and the shape fits in the texture; a decoded, mapped shape larger than the texture is reported as an overrun; any outcome other than a write leaves the handler unchanged |
| MouseHandler.UpdateMouseTexture | src/MouseHandler.cpp:382-413 | As written: nothing happens unless the sprite is dirty and the shape is non-empty; an existing texture is reused at its old size, so the refresh overruns it exactly when a decodable, mapped shape is wider or taller than it; the dirty flag is cleared exactly when the decoded sprite was written |
| MouseHandler.UpdateMouseTextureCorrected | src/MouseHandler.cpp:386-392 | Corrected: the texture is recreated whenever its size differs from the shape's, so the refresh never overruns, and a written sprite's texture has exactly the shape's size |
| MouseHandler.StaleTextureOverruns | src/MouseHandler.cpp:386-392 | For every dirty shape wider or taller than the existing texture, the refresh as written overruns it and the corrected refresh writes the sprite |
| MouseHandler.SpriteOverrunExample | src/MouseHandler.cpp:322-326 | A 2x1 colour pointer after a 1x1 texture: as written it overruns, corrected it is written |
| MouseHandler.UnknownTypeStaysDirty | src/MouseHandler.cpp:395-412 | A shape of unknown format stays dirty whatever the GPU answers |
| MouseHandler.PointerConstants | src/MouseHandler.cpp:444-458 | The constant block puts the sprite's corner at the pointer position minus the hot spot, next to the screen size and the sprite size |
| MouseHandler.DrawSprite | src/MouseHandler.cpp:422-483 | The target view is created once; a draw happens exactly when a view exists; the constants are those of the current pointer if the buffer maps and the previous ones otherwise; the previously bound target is bound again on return |
| MouseHandler.RenderMouse | src/MouseHandler.cpp:415-484 | As written: an uninitialised handler, a hidden pointer or a missing sprite texture returns at once, changes nothing and draws nothing |
| MouseHandler.RenderMouseNeverDraws | src/MouseHandler.cpp:416-420 | As written: a handler that starts without a sprite texture never gets one and never draws, whatever calls it receives |
| MouseHandler.RenderMouseCorrected | src/MouseHandler.cpp:415-420 | Corrected order, with the refresh before the texture guard and the refresh that recreates a texture of the wrong size: nothing is drawn unless the handler is initialised and the pointer visible; a draw implies a sprite texture |
| MouseHandler.RenderMouseCorrectedDraws | src/MouseHandler.cpp:415-420 | With the corrected order, a dirty, decodable shape is drawn on the first request, using the decoded sprite, and the dirty flag is cleared |
| MouseHandler.RenderMouseCorrectedSession | src/MouseHandler.cpp:415-420 | Initialise, update with a visible pointer and a shape, then render: this draws once with the corrected order and never as written |
| MouseHandler.Cleanup | src/MouseHandler.cpp:486-501 | Releases every GPU object and clears the initialised flag; the pointer state, screen size and dirty flag are kept |
| D3DProcessor.Initialize | src/D3DProcessor.cpp:18-29 | Records the frame size, then creates the device, compiles the shaders and creates the buffers and the sampler, stopping at the first failure; success means a render target and a staging texture of the frame size |
| D3DProcessor.InitializeTexturesAgree | src/D3DProcessor.cpp:63-103 | The render target and the staging texture always have the same size, and the staging texture exists only after the render target |
| D3DProcessor.QuadCoversViewport | src/D3DProcessor.cpp:191-212 | The six indices draw two clockwise triangles over the four vertices whose areas add up to the whole clip square, and each vertex samples the texture corner at its own screen corner |
| D3DProcessor.CreateTextureFromData | src/D3DProcessor.cpp:254-288 | The texture exists when its creation succeeds and has the given size and w*h*4 bytes; success also needs the view |
| D3DProcessor.CreateTextureFromDataRoundTrip | src/D3DProcessor.cpp:269-276 | A texture created from RGB data is opaque, and dropping its alpha gives the RGB data back |
| D3DProcessor.CreateTextureFromRgba | src/D3DProcessor.cpp:290-315 | The texture holds exactly the given RGBA bytes, at the given size |
| D3DProcessor.UpdateTextureData | src/D3DProcessor.cpp:317-331 | Always succeeds, keeps the texture's size, and writes w*h*4 bytes |
| D3DProcessor.UpdateMatchesCreate | src/D3DProcessor.cpp:317-331 | Updating a texture writes the same pixels as creating one from the same RGB data |
| D3DProcessor.BlendTextures | src/D3DProcessor.cpp:333-415 | Always reports success; a failed map of the staging texture leaves the output buffer as it was |
| D3DProcessor.BlendTexturesReadback | src/D3DProcessor.cpp:396-412 | Output byte c of pixel (y, x) comes from staging byte y*RowPitch + 4x + c, whatever the output held before |
| D3DProcessor.BlendTexturesRoundTrip | src/D3DProcessor.cpp:396-412 | An opaque RGB frame uploaded row by row into a padded staging texture reads back as the same frame |
| DxgiCapture.Fresh | src/DXGICapture.cpp:9-12 | A new capturer owns a fresh pointer overlay, is not initialised and has no capture texture |
| DxgiCapture.Initialize | src/DXGICapture.cpp:18-41 | A second call does nothing; otherwise it is ready exactly when the device, every duplication step and the pointer overlay (at the desktop size) succeed; the desktop size is recorded once the output description has been read |
| DxgiCapture.InitializeIdempotent | src/DXGICapture.cpp:19-21 | Initialising again after a successful initialisation changes nothing |
| DxgiCapture.ProcessFrame | src/DXGICapture.cpp:150-184 | Succeeds exactly when the texture query succeeds and the capture texture exists or can be created; the texture is created once, at the first image's size; a failure changes nothing |
| DxgiCapture.CaptureFrame | src/DXGICapture.cpp:118-148 | Fails before initialisation; a timeout is a success that changes nothing; any other acquire failure fails; an acquired image passes its pointer update to the overlay, is processed and is always released |
| DxgiCapture.CapturedTextureCreatedOnce | src/DXGICapture.cpp:161-175 | Once the capture texture exists, later captures keep its size whatever the desktop images are |
| DxgiCapture.Cleanup | src/DXGICapture.cpp:203-217 | Releases the pointer overlay, the duplication and the textures and clears the initialised flag; the desktop size is kept |
| DxgiCapture.InitializeAfterCleanup | src/DXGICapture.cpp:34-37 | After release, initialisation cannot complete: it fails on the way or reaches the released pointer overlay |
| Pixels.ExpandRgbToRgbaPixels | src/D3DProcessor.cpp:269-276 | Byte c < 3 of pixel i of the RGBA buffer is byte c of pixel i of the RGB input, and its alpha is 255 |
| Pixels.DropAlphaPixels | src/ScreenRecorder.cpp:339-346 | Byte c of pixel i of the RGB result is byte c of pixel i of the RGBA input |
| Pixels.DropAlphaOfExpand | src/D3DProcessor.cpp:269-276 | Dropping the alpha of an expanded RGB buffer gives the RGB buffer back |
| Pixels.ExpandOfDropAlpha | src/D3DProcessor.cpp:269-276 | Expanding a buffer after dropping its alpha gives the buffer back exactly when every pixel is opaque |
| Pixels.ReadbackRgbPixels | src/D3DProcessor.cpp:399-410 | Byte c of tight RGB pixel (y, x) is staging byte y*pitch + 4x + c |
| Pixels.ReadbackIgnoresAlphaAndPadding | src/D3DProcessor.cpp:399-410 | Two staging buffers that agree on the colour bytes read back identically, whatever their alpha bytes and row padding hold |
| Pixels.SwizzleBgraToRgbaPixels | src/ScreenRecorder.cpp:288-301 | Tight RGBA pixel (y, x) is the BGRA pixel at y*pitch + 4x with red and blue exchanged |
| Pixels.DropAlphaOfSwizzleAt | src/ScreenRecorder.cpp:288-346 | Byte c of RGB pixel (y, x) after swizzling and dropping alpha is byte 2 - c of the captured BGRA pixel |
| Pixels.SwapRedBlueBytesPixels | src/WatermarkRenderer.cpp:125-130 | Swapping exchanges bytes 0 and 2 of every pixel and keeps bytes 1 and 3 |
| Pixels.SwapRedBlueBytesInvolution | src/WatermarkRenderer.cpp:125-130 | Swapping twice gives the buffer back |
| Pixels.TightRepackRows | src/VideoProcessor.cpp:255-260 | Byte i of row y of the tight result is byte y*pitch + i of the padded source |
| Pixels.PackRowsContents | src/ScreenRecorder.cpp:357-361 | Row copies put byte i of tight row y at y*linesize + i, and leave every padding byte of the destination unchanged |
| Pixels.TightRepackOfPackRows | src/ScreenRecorder.cpp:357-361 | Copying tight rows into a padded buffer and repacking them gives the tight data back |
| Pixels.ContiguousCopy | src/VideoProcessor.cpp:301 | One contiguous copy of n bytes replaces the first n bytes of the destination and keeps the rest |
| Pixels.ContiguousCopyUnpadded | src/VideoProcessor.cpp:301 | When rows carry no padding, one contiguous copy reads back row by row as the source |
| Pixels.ContiguousCopyShearsPaddedRows | src/VideoProcessor.cpp:301 | When rows are padded, one contiguous copy does not read back row by row as the source; a concrete source shows it |
| Pixels.SwizzleIsSwapOfRepack | src/ScreenRecorder.cpp:288-301 | Swizzling a padded BGRA capture equals repacking its rows tightly and then exchanging red and blue |
| Pixels.ReadbackOfPaddedExpansion | src/D3DProcessor.cpp:396-412 | RGB data expanded to opaque RGBA, stored with padded rows and read back, gives the RGB data back |
| ScreenRecorder.InitializeCapture | src/ScreenRecorder.cpp:116-149 | Succeeds exactly when capture, the compositor at the desktop size and (with a watermark) its texture succeed; on success the recorder has the desktop size and holds the watermark pixels; it records whether this recording was given watermark pixels, and after success frames are blended exactly when it was; without pixels an earlier watermark texture is kept |
| ScreenRecorder.StaleWatermarkNotBlended | src/ScreenRecorder.cpp:52-53 | A recorder reused without watermark pixels keeps its earlier watermark texture but does not blend it, since the blend also needs this call's watermark data (line 307) |
| ScreenRecorder.Settings | src/ScreenRecorder.cpp:184-195 | The encoder runs at the given size with time base 1/fps, frame rate fps/1 (so one timestamp tick per frame) and a key frame every fps frames (one per second), two B-frames, 4 Mbit/s, preset "fast" and tune "zerolatency" |
| ScreenRecorder.InitializeEncoder | src/ScreenRecorder.cpp:151-239 | Succeeds exactly when every encoder step does (a container with no file skips opening one); success records the settings for the given size and rate and resets the frame counter, and failure changes nothing |
| ScreenRecorder.Composite | src/ScreenRecorder.cpp:307-346 | Unless this recording was given watermark pixels and a watermark texture exists, the frame is the capture with its alpha dropped; with one, the video texture is created once (the first time, when both GPU calls succeed) and updated in place after that |
| ScreenRecorder.CaptureAndProcessFrame | src/ScreenRecorder.cpp:241-406 | A frame is produced exactly when capture, texture query, staging copy and map succeed, the captured image is at least the desktop size, and (with a watermark) the video texture exists or is created; it is stamped with the frame counter, which then advances; success also needs send and receive. A mapped image smaller than the desktop in either direction is reported as an overrun, with the recorder unchanged |
| ScreenRecorder.CaptureAndProcessFramePlain | src/ScreenRecorder.cpp:288-361 | Without blending (no watermark pixels for this recording, or no watermark texture), for a captured image at least the desktop size, byte c of pixel (y, x) of the encoder frame, at y*linesize + 3x + c, is byte 2 - c of the captured BGRA pixel |
| ScreenRecorder.RotatedCaptureOverruns | src/ScreenRecorder.cpp:288-301 | When the acquired image has the desktop's sides swapped (a quarter-turn rotated output) and the desktop is not square, the conversion loop would read past it: the frame overruns, and no timestamp is used |
| ScreenRecorder.VideoTextureCreatedOnce | src/ScreenRecorder.cpp:313-330 | The video texture is created at the frame size from the captured pixels and keeps that size afterwards |
| ScreenRecorder.FrameDurationMs | src/ScreenRecorder.cpp:75 | The frame duration is 1000/fps rounded toward zero: positive for rates up to 1000, zero above |
| ScreenRecorder.SleepMs | src/ScreenRecorder.cpp:90-94 | The loop sleeps only when the frame took less than its duration, and then for exactly the remainder |
| ScreenRecorder.Iterate | src/ScreenRecorder.cpp:77-95 | One loop pass: a failed frame is skipped with no sleep, a produced frame is stamped with the counter and the counter advances |
| ScreenRecorder.RecordLoop | src/ScreenRecorder.cpp:77-95 | Runs duration*fps passes; stamps are consecutive from the starting counter, and the counter ends advanced by the number of frames produced |
| ScreenRecorder.RecordScreen | src/ScreenRecorder.cpp:43-114 | Recording starts exactly when capture and encoder set-up succeed; the encoder is opened at the desktop size and the requested rate; frames are blended exactly when watermark pixels were given; it then runs duration*fps passes with stamps 0, 1, 2, …, each presented before `duration` seconds at the time base |
| MediaIO.FirstVideoStream | src/VideoProcessor.cpp:91-102 | The index of the first video stream, or -1 exactly when the container has none |
| MediaIO.FirstVideoStreamAppend | src/VideoProcessor.cpp:91-102 | Appending streams does not change which video stream is found first |
| MediaIO.VideoDimensions | src/VideoProcessor.cpp:33-74 | A size is returned exactly when the file opens, is probed and has a video stream, and it is the first video stream's size |
| MediaIO.OpenInput | src/VideoProcessor.cpp:76-140 | Opens the input in seven steps, stopping at the first failure; success finds the first video stream and takes the decoder's frame size, and failure keeps the old size |
| MediaIO.OpenInputNeedsVideo | src/VideoProcessor.cpp:91-102 | An input without a video stream is never opened, and no decoder is looked for |
| MediaIO.OutputOrder | src/VideoProcessor.cpp:142-224 | The output steps run from allocating the container to writing the header; a file is opened only when the format needs one |
| MediaIO.OpenOutput | src/VideoProcessor.cpp:142-224 | Opens the output, stopping at the first failure; success means the header was written |
| VideoProcessor.ProcessFrame | src/VideoProcessor.cpp:226-311 | The RGB frame carries the decoded frame's timestamps and colour properties and no picture type; as written, its first w*h*3 bytes are the blended RGB and the rest of the scratch buffer is kept |
| VideoProcessor.ProcessFrameNeverFails | src/VideoProcessor.cpp:226-311 | With the textures in place, processing a frame always produces a frame |
| VideoProcessor.TightRgbAt | src/VideoProcessor.cpp:255-260 | Byte c of tight pixel (y, x) is byte y*linesize + 3x + c of the decoded RGB frame |
| VideoProcessor.ProcessFrameTexture | src/VideoProcessor.cpp:263-267 | The video texture is updated with the tight RGB frame, made opaque |
| VideoProcessor.ProcessFrameUploadsTightRows | src/VideoProcessor.cpp:255-267 | Texture byte c of pixel (y, x) is decoded byte y*linesize + 3x + c, and its alpha is 255 |
| VideoProcessor.ProcessFrameCorrectedReadsBack | src/VideoProcessor.cpp:301 | Corrected copy: the output frame reads back row by row as the blended RGB, for any padding |
| VideoProcessor.ProcessFrameUnpaddedReadsBack | src/VideoProcessor.cpp:301 | As written: the output frame reads back as the blended RGB when its rows carry no padding |
| VideoProcessor.Build | src/VideoProcessor.cpp:330-353 | The transcoder has the decoder's size, a watermark texture holding the watermark pixels, and an opaque video texture of the frame size |
| VideoProcessor.Prepare | src/VideoProcessor.cpp:321-388 | Set-up runs in order, stopping at the first failure; a transcoder exists exactly when every step succeeds |
| VideoProcessor.DecodedFrames | src/VideoProcessor.cpp:405-442 | The decoder delivers no more frames than the accepted video packets carry |
| VideoProcessor.OutputsKeepEveryFrame | src/VideoProcessor.cpp:405-442 | Every decoded frame is processed and encoded, in order |
| VideoProcessor.ProcessFrames | src/VideoProcessor.cpp:410-438 | The receive loop turns each frame into its processed frame, in order |
| VideoProcessor.ReadPackets | src/VideoProcessor.cpp:405-442 | The read loop delivers exactly the frames of the accepted video packets and processes each of them |
| VideoProcessor.IgnoredPacketsDeliverNothing | src/VideoProcessor.cpp:405-408 | A packet of another stream, or one the decoder rejects, delivers no frame |
| VideoProcessor.ProcessVideo | src/VideoProcessor.cpp:313-486 | Fails without encoding when set-up fails; otherwise every frame of the read loop and of the decoder flush is processed and counted, and success does not depend on the trailer |
| WatermarkRenderer.Initialize | src/WatermarkRenderer.cpp:17-34 | Creates the 2D factory and then the text factory, stopping at the first failure |
| WatermarkRenderer.TileAxis | src/WatermarkRenderer.cpp:92-93 | The loop positions along one axis: start, start + step, …, every one below the bound, and the next one past it |
| WatermarkRenderer.TileAxisLength | src/WatermarkRenderer.cpp:92-93 | The number of positions is the ceiling of (bound - start)/step, or none |
| WatermarkRenderer.TileAxisCovers | src/WatermarkRenderer.cpp:92-93 | Every coordinate from the start up to the bound falls in the step of some position |
| WatermarkRenderer.TileAxisGap | src/WatermarkRenderer.cpp:92-93 | A coordinate whose offset into its step is at least the box extent lies in no box |
| WatermarkRenderer.TileGrid | src/WatermarkRenderer.cpp:89-109 | One box per row position and column position |
| WatermarkRenderer.TileGridAt | src/WatermarkRenderer.cpp:89-109 | Box (ky, kx), in row-major drawing order, spans from (-100 + 280kx, -50 + 120ky) to 500 columns right and 100 rows down |
| WatermarkRenderer.TilesSpanEveryColumn | src/WatermarkRenderer.cpp:92-93 | Columns of tiles span the whole image width: every column from -100 up to width + 100 lies in some tile's horizontal extent |
| WatermarkRenderer.TileRowsLeaveGaps | src/WatermarkRenderer.cpp:92-99 | Boxes are 100 rows high and rows of boxes are 120 apart, so the 20 rows between two rows of boxes lie in no box |
| WatermarkRenderer.CreateTiledWatermark | src/WatermarkRenderer.cpp:36-133 | Steps run in order, stopping at the first failure; the tiles are drawn when drawing ends; on success the output is the bitmap with red and blue exchanged, and exchanging again gives the bitmap back |
| WatermarkRenderer.OffsetX | src/WatermarkRenderer.cpp:244 | The horizontal offset centres the scaled image inside the target |
| WatermarkRenderer.OffsetY | src/WatermarkRenderer.cpp:245 | The vertical offset centres the scaled image inside the target |
| WatermarkRenderer.Centered | src/WatermarkRenderer.cpp:240-264 | The centred image has the target size |
| WatermarkRenderer.CenteredAt | src/WatermarkRenderer.cpp:240-264 | A target pixel inside the centred rectangle takes the scaled pixel, with red and blue exchanged; every other pixel is zero |
| WatermarkRenderer.PlaceScaledIsCentered | src/WatermarkRenderer.cpp:248-264 | The placement loop over the zero-filled buffer produces exactly the centred image |
| WatermarkRenderer.NonTransparentZero | src/WatermarkRenderer.cpp:267-281 | No pixel counts as non-transparent exactly when every alpha byte is zero |
| WatermarkRenderer.CountNonTransparent | src/WatermarkRenderer.cpp:267-272 | The loop over every fourth byte counts the pixels with a non-zero alpha |
| WatermarkRenderer.LoadWatermarkFromPng | src/WatermarkRenderer.cpp:135-282 | Steps run in order, stopping at the first failure; on success the watermark is the centred image, and it counts as empty exactly when every pixel is transparent; on failure the previous data is kept |
| FilterGraph.ParseIntDecimal | src/FFmpegWatermarkProcessor.cpp:239-243 | Every integer written into the buffer-source arguments reads back as itself |
| FilterGraph.DecimalInjective | src/FFmpegWatermarkProcessor.cpp:239-243 | Distinct integers are written differently |
| FilterGraph.EscapePath | src/FFmpegWatermarkProcessor.cpp:286-292 | Escaping replaces each backslash with a forward slash and keeps every other character |
| FilterGraph.EscapePathInPlace | src/FFmpegWatermarkProcessor.cpp:286-292 | The in-place loop computes the escaped path |
| FilterGraph.EscapePathIdempotent | src/FFmpegWatermarkProcessor.cpp:286-292 | An escaped path has no backslash, and escaping it again changes nothing |
| FilterGraph.EscapePathKeepsQuotes | src/FFmpegWatermarkProcessor.cpp:286-292 | Escaping neither adds nor removes single quotes |
| FilterGraph.AspectDenominator | src/FFmpegWatermarkProcessor.cpp:242-243 | The aspect denominator is never zero: zero becomes one |
| FilterGraph.BufferSourceAspect | src/FFmpegWatermarkProcessor.cpp:238-243 | The arguments end with a denominator that reads back as the non-zero aspect denominator |
| FilterGraph.FilterDescriptionMovie | src/FFmpegWatermarkProcessor.cpp:295-298 | For a path without quotes, the argument string the graph parser hands to the movie filter is exactly the escaped path |
| FilterGraph.ColonCutsMovieFileName | src/FFmpegWatermarkProcessor.cpp:286-298 | As written, for every quote-free path containing ':', the movie filter opens only the escaped path's text before the first ':' |
| FilterGraph.DriveLetterPathExample | src/FFmpegWatermarkProcessor.cpp:286-298 | As written, `C:\wm.png` makes the movie filter open the file `C` |
| FilterGraph.FilterDescriptionCorrectedMovie | src/FFmpegWatermarkProcessor.cpp:286-298 | Corrected, with each ':' escaped: for every quote-free path the movie filter opens the whole path, its backslashes turned into slashes |
| FilterGraph.InitializeFilter | src/FFmpegWatermarkProcessor.cpp:222-328 | Steps run in order, stopping at the first failure; the source arguments are built once the graph exists, and the description (as written, or corrected) once the sink formats are set |
| FilterGraph.FilterReached | src/FFmpegWatermarkProcessor.cpp:222-328 | The source is attempted exactly when the graph was allocated, and the parse exactly when the first four steps succeed |
| FilterGraph.AlphaIsIgnored | src/FFmpegWatermarkProcessor.cpp:222-328 | The opacity argument does not affect the filter graph |
| FFmpegWatermark.CountsAndFailures | src/FFmpegWatermarkProcessor.cpp:444-502 | The corrected counter plus the failed writes is the number of writes; as written, the counter also counts every failed flush write |
| FFmpegWatermark.FlushOvercountExample | src/FFmpegWatermarkProcessor.cpp:469-487 | One filter-flush write that fails is counted as encoded as written and not counted when corrected |
| FFmpegWatermark.RunWritesInStageOrder | src/FFmpegWatermarkProcessor.cpp:368-502 | Writes happen in stage order: main loop, decoder flush, filter flush, encoder flush |
| FFmpegWatermark.SkippedPacketChangesNothing | src/FFmpegWatermarkProcessor.cpp:369-377 | A packet of another stream, or one the decoder rejects, causes no write and no decoded frame |
| FFmpegWatermark.Drain | src/FFmpegWatermarkProcessor.cpp:405-418 | Draining the encoder writes one packet per answer, in order, and counts the writes that count |
| FFmpegWatermark.FeedEncoder | src/FFmpegWatermarkProcessor.cpp:392-426 | Each filtered frame is sent and its packets written; in the main loop a frame the encoder rejects is skipped |
| FFmpegWatermark.FlushFrames | src/FFmpegWatermarkProcessor.cpp:446-467 | The decoder flush feeds every remaining frame to the filter and encodes what comes out, whatever the add returns |
| FFmpegWatermark.ReceiveFrames | src/FFmpegWatermarkProcessor.cpp:380-432 | Every received frame is counted; frames are filtered and encoded up to the first one the filter rejects, which is counted and then ends the loop |
| FFmpegWatermark.ReadPackets | src/FFmpegWatermarkProcessor.cpp:368-440 | The read loop writes and counts exactly what each video packet's frames produce, in order |
| FFmpegWatermark.Transcode | src/FFmpegWatermarkProcessor.cpp:368-502 | The read loop and the three flushes together write the reference sequence and count the decoded and the encoded frames |
| FFmpegWatermark.ProcessVideo | src/FFmpegWatermarkProcessor.cpp:330-523 | Set-up runs in order, stopping at the first failure, with nothing decoded or written; otherwise the whole transcode runs, and success means the trailer was written |

## Left out

- Shader code, rasterisation and the blend equation are left out. The GPU's rendered pixels
  are a parameter, the staging bytes that `D3DProcessor.BlendTextures` reads back. The model
  cannot evaluate HLSL or floating-point colour.
- GPU synchronisation is left out. This covers the flush before the readback in
  `D3DProcessor.BlendTextures` and the clearing of the render target. The model has no
  asynchronous GPU, and the rendered pixels are a parameter.
- Logging, console output and error-string formatting are left out. They have no effect on
  the results.
- Sleeping and the clock are left out. `ScreenRecorder.RecordLoop` takes each frame's
  elapsed time as a parameter.
- `DXGICapture::SaveTextureToFile` (src/DXGICapture.cpp:186-201) is left out. It writes a
  debug image to disk.
- The cleanup of `D3DProcessor`, `ScreenRecorder`, `VideoProcessor` and
  `FFmpegWatermarkProcessor` is left out. It only frees GPU and FFmpeg objects. None of them
  is part of the modelled state, and no model operation runs after them.
- Shader compilation, the input layout, the sampler and blend states, and the swscale
  contexts are outcome parameters only. Their contents are GPU and FFmpeg data.
- The recorder's encoder settings are recorded as values (`ScreenRecorder.Settings`); what
  FFmpeg does with them, and the pixel format and global-header flag, are left out. The
  transcoders' encoder options are left out: they are passed to FFmpeg and do not affect
  the modelled state.
- The decoder, filter and encoder queues are not simulated. What each receive call returns is
  given as data: the frames a packet yields and the answers of every send, add and write.
  EAGAIN and end-of-stream are the end of such a sequence.
- The C++ integer widths are not modelled. Sizes are `nat`, so the 32-bit products in the
  buffer arithmetic cannot wrap, and negative sizes from FFmpeg are not represented.
- The scaling of the PNG with Direct2D's floating-point aspect fit
  (src/WatermarkRenderer.cpp:208-213) is left out. The scaled image and its size are
  parameters. `WatermarkRenderer.LoadWatermarkFromPng` requires that the scaled image fits
  inside the target, which the aspect fit guarantees.
- The text layout of the tiled watermark is left out. Each tile is its box: the drawn text is
  Direct2D's output.
- Paths that contain a single quote are left out of the filter description.
  `FilterGraph.FilterDescriptionMovie` requires a path without quotes. A quote would end the
  movie argument early, as it does in FFmpeg's own parser.
- FilterGraph.MovieFileName: FFmpeg's option parser is modelled only as far as the file name
  needs: the text up to the first unescaped ':', with backslash escapes removed. Its
  key=value detection, quoting and whitespace trimming are left out, so paths containing
  '=' or with leading or trailing spaces are not covered by
  `FilterGraph.FilterDescriptionCorrectedMovie`.
- MouseHandler.UpdateMouseTexture: as written, a sprite larger than the texture is written
  past it. That is undefined behaviour, so the model stops with the `Overrun` outcome and
  leaves the handler unchanged. The corrected refresh never reaches it.
- Frame-size agreement between the decoder and the scratch buffers is assumed.
  `VideoProcessor.ProcessFrame` requires it: the source allocates them from the same decoder
  context.
- CursorShape.Decode: the source never checks that a shape's reads stay inside the shape
  buffer. The model returns no sprite for such a shape and keeps it dirty, where the source
  would read out of bounds.
- DxgiCapture.ProcessFrame: the texture copy and the pointer draw are stated through the
  overlay's state. The captured texture records which desktop image it holds, not its bytes.
- ScreenRecorder.CaptureAndProcessFrame: the recorder's size comes from the output's desktop
  coordinates (src/DXGICapture.cpp:89-90), and the mapped copy has the size of the acquired
  image (src/DXGICapture.cpp:161-170). Nothing in the source makes them equal. When the image
  is smaller, the conversion loop at src/ScreenRecorder.cpp:288-301 reads past it, which is
  undefined behaviour. The model stops there with the `overrun` flag, producing no frame and
  leaving the recorder unchanged.
- ScreenRecorder.RecordScreen: a frame rate of zero is excluded (`requires fps != 0`, also on
  `ScreenRecorder.FrameDurationMs`). The source divides by it unguarded
  (src/ScreenRecorder.cpp:75), which is undefined behaviour.
- ScreenRecorder.Composite: the blend is the compositor's readback. Its content is the GPU
  parameter described above, so the watermark's effect on the pixels is not stated.
- VideoProcessor.ProcessVideo: the scale from the decoder's format to RGB and from RGB to the
  encoder's format are parameters: the decoded frame carries its RGB conversion. Encoding
  and muxing are counted, not simulated.

## Findings

| source | as written | input that shows it | evidently intended | confidence | as-written member | corrected member |
|---|---|---|---|---|---|---|
| src/MouseHandler.cpp:416-420 | `RenderMouse` returns when the sprite texture does not exist, before `UpdateMouseTexture`, the only call that creates it | A fresh handler that is initialised and then receives a visible pointer with a shape, followed by any render requests | Refresh the sprite before checking for the texture, so the first render creates it and the pointer is drawn | not executed | MouseHandler.RenderMouseNeverDraws | MouseHandler.RenderMouseCorrectedSession |
| src/VideoProcessor.cpp:301 | The blended RGB is copied into the output frame with one `memcpy` of w*h*3 bytes, ignoring the frame's row stride | A frame at least two rows high whose linesize is larger than w*3: the second row lands inside the first row's padding | Copy row by row at `linesize`, as the screen recorder does (src/ScreenRecorder.cpp:357-361) | not executed | Pixels.ContiguousCopyShearsPaddedRows | VideoProcessor.ProcessFrameCorrectedReadsBack |
| src/MouseHandler.cpp:386-392 | The sprite texture is created only when none exists, although the comment above the guard says it is recreated when the size changes; every later shape is written row by row at its own size into the old texture | A 1x1 texture left from an earlier pointer, then a dirty 2x1 colour pointer: its 8-byte row is written into a texture row that holds 4 | Recreate the texture whenever its size differs from the shape's. The as-written draw never reaches this code (first row), so it shows once that is fixed | not executed | MouseHandler.SpriteOverrunExample | MouseHandler.UpdateMouseTextureCorrected |
| src/FFmpegWatermarkProcessor.cpp:286-298 | Backslashes are turned into slashes, but ':' is not escaped; the movie filter's option parser splits its argument at ':' | `C:\wm.png`: the movie filter opens `C`, and `/wm.png` becomes its format option | Escape ':' as `\:` in the quoted path, so the movie filter receives the whole path | not executed | FilterGraph.DriveLetterPathExample | FilterGraph.FilterDescriptionCorrectedMovie |
| src/FFmpegWatermarkProcessor.cpp:480-481 | The decoder-flush and filter-flush loops add to `encodedFrames` after every `av_interleaved_write_frame`, whether it succeeded or not; the main loop and the encoder flush count only successes | One frame left in the filter at end of stream whose packet write fails: it is counted as encoded | Count a flush write only when it succeeds, as lines 410-416 and 496-499 do | not executed | FFmpegWatermark.FlushOvercountExample | FFmpegWatermark.CountsAndFailures |
