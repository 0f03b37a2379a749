# A model of the nouveau 2D transfer, NV04 acceleration and Xv video core

This project models the part of the nouveau X.Org driver that:

- moves pixels between host memory and the GPU (`src/nouveau_exa.c`);
- drives the NV04 fill, blit and image-from-CPU objects (`src/nv04_exa.c`);
- serves the Xv overlay and blitter video ports (`src/nv_video.c`);
- programs the NV04 video overlay (`src/nv04_video_overlay.c`).

Everything is written as pure functions over immutable data. This includes:

- the command channel, a list of packets with a mark, a submission count and an armed flush handler;
- memories, as sequences of bytes;
- the Xv port record;
- the overlay register block.

Hardware reads, the memory allocator's answer, buffer-map results and the clock are inputs.

Modules:

- **`CArith`**: C arithmetic, namely truncating division, 16.16 packing, alignment and single bits.
- **`Hw`**: the channel. `BEGIN_RING`/`OUT_RING` appends a packet, `MARK_RING`/`MARK_UNDO` rolls back, and `FIRE_RING` submits.
- **`MemCopy`**: `NVAccelMemcpyRect`, together with the rectangle vocabulary (`Row`, `Fits`, `InRect`, `OnlyRect`).
- **`Transfer`**: the chunked M2MF (memory-to-memory-format engine) loops of `NVAccelDownloadM2MF` and `NVAccelUploadM2MF`. This covers:
  - the chunk plan: at most `min(GART size / line length, 2047)` lines per chunk, where the GART is the CPU/GPU staging buffer;
  - the OFFSET_IN packets;
  - the NV50 tiled/linear addressing (`Tiled` is `nv50_style_tiled_pixmap`);
  - rollback on failure.
- **`Exa`**: the two transfer entry points and their fallback chain. Upload tries IFC (image from CPU) or SIFC, then M2MF, then a mapped CPU copy. Download tries M2MF, then a mapped CPU copy.
- **`Nv04Exa`**: the NV04 EXA (X acceleration architecture) hooks. This covers the ROP cache, `PrepareSolid`/`Solid`/`DoneSolid`, `PrepareCopy`/`Copy`/`DoneCopy`, the three flush handlers and `NV04EXAUploadIFC`.
- **`Video`**: the Xv port attributes, the timer callback, stopping the overlay and overlay memory.
- **`VideoImage`**: `NVQueryImageAttributes`, the buffer, pitch and rectangle logic of `NVPutImage`, and `NVAllocSurface`.
- **`VideoCopy`**: `NVMoveDWORDS`, `NVCopyData422`, `NVCopyDataRGB` and `NVCopyData420`, written as methods with loops.
- **`Nv04Overlay`**: the NV04 overlay's port attributes, the register values of `NV04PutOverlayImage`, and `NV04StopOverlay`.

## Model

| member | source | states |
|---|---|---|
| MemCopy.MemcpyRect | src/nouveau_exa.c:27-41 | every one of the `h` destination rows equals the corresponding source row, and every cell outside the destination rectangle keeps its value |
| MemCopy.FastPathIsRowCopy | src/nouveau_exa.c:31-34 | when both pitches equal the line length, the single block `memcpy` leaves exactly what the row-by-row loop leaves |
| MemCopy.RectCopyDetermined | src/nouveau_exa.c:27-41 | the rectangle-copy contract has one solution: two memories that both meet it for the same inputs are equal |
| MemCopy.MemcpyRectCells | src/nouveau_exa.c:35-39 | cell `i` of destination row `k` is cell `i` of source row `k` |
| MemCopy.ContiguousRect | src/nouveau_exa.c:31-34 | with pitch equal to the line length, the rectangle is exactly the contiguous block of `len * h` cells |
| Hw.UndoRestores | src/nouveau_exa.c:75-84 | `MARK_UNDO` after `MARK_RING` restores exactly the packets written before the mark, whatever was written in between |
| Hw.WordsRoundTrip | src/nouveau_exa.c:124-127 | reading back the plain words of a packet gives the words written |
| Transfer.ChunkCap | src/nouveau_exa.c:56-66 | the line cap is at most 2047, its lines fit the GART, and when it is below 2047 one more line would not fit |
| Transfer.ChunkCapPositive | src/nouveau_exa.c:56-66 | a chunk carries at least one line if and only if the GART holds at least one line |
| Transfer.GartTooSmallNeverEnds | src/nouveau_exa.c:68-73 | with a GART smaller than one line the count is 0, so one loop iteration leaves `h` unchanged |
| Transfer.Plan | src/nouveau_exa.c:68-151 | the chunks cover exactly `h` lines; each carries between 1 and the cap; every chunk but the last carries the full cap |
| Transfer.PlanPositions | src/nouveau_exa.c:148-151 | each chunk starts at the row, and on a linear surface at the byte offset, where the lines before it end |
| Transfer.PlanLength | src/nouveau_exa.c:68-151 | the number of chunks is the line count divided by the cap, rounded up |
| Transfer.PlanExamples | src/nouveau_exa.c:65-73 | 2047 lines make one chunk; 2048 make two; 4096 make three, the last carrying 2 lines |
| Transfer.SurfaceLayout | src/nouveau_exa.c:87-100 | a tiled surface gets the seven-word descriptor whose start word decodes to `y` and `x * cpp`; a linear one gets the single word 1 |
| Transfer.TiledDescriptorSide | src/nouveau_exa.c:86-111 | the tiled descriptor sits on the surface side only: LINEAR_IN for a download, LINEAR_OUT for an upload |
| Transfer.OffsetInRoundTrip | src/nouveau_exa.c:115-129 | decoding the OFFSET_IN packet gives the intended copy. A download copies `count` lines from the surface at the chunk offset and surface pitch into the GART at stride `lineLen`; an upload does the reverse |
| Transfer.ChunkPackets | src/nouveau_exa.c:77-129 | a chunk is two packets before NV50 and five from NV50 on, starting with DMA_BUFFER_IN and ending with its OFFSET_IN |
| Transfer.DownloadLoop | src/nouveau_exa.c:68-152 | the loop reports success if and only if every chunk completed; it never submits and keeps the destination's size |
| Transfer.DownloadStops | src/nouveau_exa.c:75-84 | a loop that fails at its first chunk leaves the channel as it was and the destination untouched, with at most one failed map |
| Transfer.DownloadPackets | src/nouveau_exa.c:75-129 | after the loop the channel holds exactly the packets of the completed chunks, in order: a failed chunk's packets are rolled back |
| Transfer.DownloadMaps | src/nouveau_exa.c:131-146 | every GART map is followed by its unmap, and the number of maps equals the number of completed chunks |
| Transfer.DownloadRows | src/nouveau_exa.c:135-145 | line `k` of completed chunk `i` lands in destination row `Lines(before i) + k`, from what the GART held; nothing outside the completed rows changes |
| Transfer.UploadLoop | src/nouveau_exa.c:182-267 | success if and only if every chunk completed; the channel is submitted once per completed chunk |
| Transfer.UploadStops | src/nouveau_exa.c:189-214 | a loop that fails at its first chunk leaves no packet and no submission. A failed map stages nothing; a later failure leaves one staging |
| Transfer.UploadPackets | src/nouveau_exa.c:205-261 | the channel holds exactly the packets of the completed chunks, in order |
| Transfer.UploadMaps | src/nouveau_exa.c:189-203 | every GART map is followed by its unmap, one map per staging |
| Transfer.UploadStaging | src/nouveau_exa.c:192-202 | each staging of the GART holds the source lines of its chunk, packed at stride `lineLen` |
| Transfer.StagingRoundTrip | src/nouveau_exa.c:192-202 | packing lines into the GART and unpacking them at another pitch reproduces the source lines |
| Transfer.DownloadDeliversSurface | src/nouveau_exa.c:68-152 | when the engine carries out each chunk's OFFSET_IN from the surface contents, every delivered destination row equals the corresponding surface row |
| Transfer.Locate | src/nouveau_exa.c:148-151 | every row of a run of chunks lies in exactly the chunk and line whose preceding lines add up to it |
| Exa.PlanOf | src/nouveau_exa.c:56-73 | the chunks of a transfer cover exactly `h` lines; each carries between 1 and 2047 and, when the GART holds a line, fits the GART |
| Exa.ChunksAtMostLines | src/nouveau_exa.c:68-73 | there are never more chunks than lines |
| Exa.DownloadM2mf | src/nouveau_exa.c:44-155 | the download changes the destination only inside the rectangle; on success the channel holds every planned chunk's packets and nothing was submitted |
| Exa.UploadM2mf | src/nouveau_exa.c:158-270 | on success the channel holds every planned chunk's packets, and it was submitted once per chunk |
| Exa.DownloadFromScreen | src/nouveau_exa.c:365-391 | the M2MF path is taken if and only if there is a GART and the download succeeds; otherwise the result succeeds if and only if the map succeeds. A mapped copy delivers every row, none for a zero width; nothing outside the rectangle changes |
| Exa.DownloadFallbackOverwrites | src/nouveau_exa.c:379-390 | after a failed M2MF attempt, the CPU fallback leaves exactly the rectangle copy from the mapped surface into the original buffer |
| Exa.DownloadDelivers | src/nouveau_exa.c:365-391 | a download that succeeds by either path delivers every row of the surface rectangle, provided the engine carries out what it is asked; with a GART this is stated for a linear surface only |
| Exa.UploadToScreen | src/nouveau_exa.c:394-441 | the path is IFC if and only if the upload is small and IFC accepts it; SIFC likewise on NV50; M2MF if and only if neither did and the GART upload succeeded. A mapped copy writes every row; only the rectangle changes, and only on that path. An upload of no lines is accepted unless IFC would take it with a padded line |
| Exa.EmptyUploadAllowed | src/nv04_exa.c:328-333 | an upload of no lines is allowed exactly when IFC would not take it with a padded line, the case whose loop never ends |
| Exa.ZeroWidthUploadAllowed | src/nouveau_exa.c:405-426 | an upload of zero width is allowed exactly when there is no GART or SIFC takes it on NV50: IFC refuses it, and M2MF would divide by the zero line length at src/nouveau_exa.c:170 |
| Exa.UploadByIfcPushesLines | src/nouveau_exa.c:408-415 | an IFC upload pushes one packet per line after the four head packets and leaves no flush handler armed; every row arrives in full unless the pixels are 16-bit and the width is 3 modulo 4, where the last line loses its last two pixels to stack bytes |
| Exa.UploadByM2mfStands | src/nouveau_exa.c:428-434 | an M2MF upload leaves every planned chunk's packets in order and submits once per chunk |
| Nv04Exa.ExtendPlanemask | src/nv04_exa.c:86 | below 32 bits per pixel the low `bpp` bits are kept and every bit from `bpp` to 31 is set; at 32, where the C shift is undefined, the model reads it as adding nothing |
| Nv04Exa.MaskedShiftFillsAll | src/nv04_exa.c:86 | under the x86 reading of the shift at 32 bits per pixel (count masked to 0), every planemask becomes `~0` |
| Nv04Exa.ExtendedIsFull | src/nv04_exa.c:86-87 | the extended planemask is `~0` if and only if every pixel bit of the caller's planemask is set; at 32 bits, under the model's reading of the shift, only if the planemask already was `~0` |
| Nv04Exa.ExtendIdempotent | src/nv04_exa.c:86 | extending twice is extending once, so replaying with the stored planemask takes the same branch |
| Nv04Exa.SetRop | src/nv04_exa.c:41-63 | the cache ends at the target ROP, and the ROP word is sent only when the cache differed. A partial planemask loads the pattern first; returning to a full one first restores the all-ones pattern |
| Nv04Exa.SetRopCached | src/nv04_exa.c:41-63 | a second identical call sends no ROP word, only the planemask pattern if there is one |
| Nv04Exa.OperationSetup | src/nv04_exa.c:87-96 | OPERATION is SRCCOPY for a plain copy and ROP_AND otherwise; the ROP cache moves only in the second case |
| Nv04Exa.SolidColor | src/nv04_exa.c:102-109 | on a 16-bit surface the widened colour lands back as the caller's pixel with bit 11 cleared, the effect of the mask `0xF100`; otherwise the colour passes through unchanged |
| Nv04Exa.Expand565AsWrittenReduces | src/nv04_exa.c:102-107 | the widening as written, filled into a 16-bit surface, gives the pixel with its lowest red bit cleared and every other bit kept |
| Nv04Exa.Expand565RoundTrip | src/nv04_exa.c:102-107 | the R5G6B5 pixel widened to 8 bits per channel reduces back to itself |
| Nv04Exa.Expand565AsWrittenLosesRed | src/nv04_exa.c:106 | with mask `0xF100` the dark red pixel `0x0800` fills as black |
| Nv04Exa.Expand565AsWrittenIgnoresBit11 | src/nv04_exa.c:106 | with mask `0xF100`, bit 11 of the colour never reaches the result |
| Nv04Exa.Expand565AsWrittenWhite | src/nv04_exa.c:106 | with mask `0xF100`, white widens to `0xF6FFFF` and lands as red 30 instead of 31 |
| Nv04Exa.SolidFormat | src/nv04_exa.c:115-116 | A8R8G8B8 is replaced by Y32; every other format is kept |
| Nv04Exa.SolidSetup | src/nv04_exa.c:74-128 | accepted if and only if the operation is plain or the surface is not 32-bit, and the surface has a format. A refused ROP on 32 bits writes nothing. An accepted fill ends with the surface, colour-format and colour packets, the colour widened as `SolidColor` states |
| Nv04Exa.PrepareSolid | src/nv04_exa.c:74-135 | on success the operands (with the extended planemask) are stored and the solid handler is armed; on failure neither changes; the channel gains exactly the setup packets, including the colour as the code widens it |
| Nv04Exa.Fire | src/nv04_exa.c:137-155 | `FIRE_RING` submits once and keeps the operands and armed handler |
| Nv04Exa.Replay | src/nv04_exa.c:65-72 | the flush handler keeps the operands, handler and submission count, and only appends packets |
| Nv04Exa.Solid | src/nv04_exa.c:137-155 | one rectangle packet carrying the origin and size, 16-bit truncated as the shifts do; a submission exactly when the area is at least 512 |
| Nv04Exa.Done | src/nv04_exa.c:157-164 | the handler is disarmed and nothing is written |
| Nv04Exa.FireAfterDone | src/nv04_exa.c:157-164 | once disarmed, a submission writes nothing more |
| Nv04Exa.CopySetup | src/nv04_exa.c:176-213 | accepted if and only if the depths match and the ROP and format constraints hold; mismatched depths write nothing. The last packet carries both pitches, the source read and the destination written |
| Nv04Exa.PrepareCopy | src/nv04_exa.c:176-221 | on success both pixmaps and the operands are stored and the copy handler is armed; on failure nothing is stored |
| Nv04Exa.Copy | src/nv04_exa.c:223-240 | one blit packet with the source point, destination point and size, 16-bit truncated as the shifts do; a submission exactly when the area is at least 512 |
| Nv04Exa.IfcResubmitPackets | src/nv04_exa.c:251-272 | the destination surface twice, then the stored point, output size and input size |
| Nv04Exa.FlushReplaysSame | src/nv04_exa.c:65-72 | after the first submission, every further submission writes the same packets |
| Nv04Exa.SolidReplayRestoresSetup | src/nv04_exa.c:65-72 | a submission in mid-fill writes the fill's surface, colour format and colour again |
| Nv04Exa.PushRoundTrip | src/nv04_exa.c:336 | the bytes pushed inline are the bytes the hardware reads back |
| Nv04Exa.Shape | src/nv04_exa.c:305-309 | the padded width is a multiple of 8 bytes, so it holds both colour words; `id` is a quarter of it, and the input width in pixels is the padding divided by `cpp` |
| Nv04Exa.TwoBytePadding | src/nv04_exa.c:305-307 | the padding is 2 bytes if and only if the pixels are 16-bit and the width is 3 modulo 4 |
| Nv04Exa.WidthFits | src/nv04_exa.c:305-313 | the padded width in pixels covers the line and stays below 2^16 |
| Nv04Exa.LastLine | src/nv04_exa.c:341-348 | the padded last line as evidently intended has `id` words and begins with the whole source line |
| Nv04Exa.LastLineAsWrittenLosesPixels | src/nv04_exa.c:341-348 | for three 16-bit pixels, the epilogue as written pushes the first pixel and then stack bytes |
| Nv04Exa.LastLineAsWrittenOverreads | src/nv04_exa.c:343-347 | with 6 padding bytes the epilogue pushes 12 bytes from the 8-byte buffer: the last word of the last line is the 4 stack bytes past the buffer's end |
| Nv04Exa.LastLineAsWrittenAgrees | src/nv04_exa.c:341-348 | with 4 or 6 padding bytes the epilogue as written pushes the intended last line; with 2 it pushes all but the line's last 4 bytes, then stack bytes |
| Nv04Exa.EmptyPaddedUploadRunsAway | src/nv04_exa.c:328-333 | for no lines and a padded line, `h--` starts the loop at -1, which runs 2^32 - 1 times |
| Nv04Exa.WhileRuns | src/nv04_exa.c:331 | the run count of `while (h--)` is the start value taken modulo 2^32 |
| Nv04Exa.UploadIfc | src/nv04_exa.c:274-352 | accepted if and only if the architecture is below NV50, at most 1024 lines, a line of at least 4 bytes, cpp 2 or 4, a surface format and at most 1792 words; a refusal changes nothing. On acceptance the IFC operands are stored, the surface and point packets are the IFC handler's for them, one line packet follows per row as `IfcBody` states, `point_y` has moved past the whole lines and the handler is left disarmed |
| Nv04Exa.IfcBody | src/nv04_exa.c:331-348 | the line packets deliver every whole row; a padded last row arrives in full except with 2 padding bytes, where its last 4 bytes are replaced by stack bytes |
| Nv04Exa.BodyAsWrittenDeliversAll | src/nv04_exa.c:331-348 | unless the padding is 2 bytes, the packets as pushed deliver every row |
| Nv04Exa.IfcBodyIntended | src/nv04_exa.c:331-348 | with the evidently intended epilogue, the line packets deliver every source row, the padded last one included |
| Nv04Exa.LinesDelivered | src/nv04_exa.c:333-340 | each whole-line packet delivers its row |
| Video.Int32RoundTrip | src/nv_video.c:504-506 | any `INT32` stored into the `CARD32` colour key reads back unchanged |
| Video.Defaults | src/nv_video.c:141-153 | neutral brightness, hue, contrast and saturation; the screen's colour key; autopaint and double buffering on; BT.601 |
| Video.HueIsRemainder | src/nv_video.c:493-497 | the C remainder and the correction to non-negative give the Euclidean remainder modulo 360 |
| Video.SetOverlayAttr | src/nv_video.c:473-525 | BadMatch if and only if the atom is unknown, BadValue if and only if it is known and out of range; both leave the port alone |
| Video.GetOverlayAttr | src/nv_video.c:529-554 | succeeds if and only if the atom is readable, else BadMatch |
| Video.OverlaySetGet | src/nv_video.c:473-554 | a successful set reads back as the value set, the hue reduced modulo 360 |
| Video.OverlaySetLeavesOthers | src/nv_video.c:473-554 | setting one attribute leaves every other readable attribute unchanged |
| Video.OverlayDefaultsRead | src/nv_video.c:518-519 | after set-defaults every attribute reads its default value |
| Video.OverlayTableAccepted | src/nv_video.c:86-98 | every value the attribute table advertises is accepted |
| Video.BrightnessAboveTable | src/nv_video.c:478-481 | the setter accepts brightness 512, one above the table's maximum of 511, and it reads back |
| Video.SetBlitAttr | src/nv_video.c:557-574 | the vblank switch exists if and only if the card can wait for vblank; set-defaults turns it on exactly then; nothing else changes |
| Video.GetBlitAttr | src/nv_video.c:577-588 | only the vblank switch is readable, and it reads 1 if and only if it is on |
| Video.BlitSetGet | src/nv_video.c:557-588 | on a card that can wait for vblank, a successful set reads back |
| Video.FreeMem | src/nv_video.c:214-237 | the port is left without memory, with one free exactly when it had a block |
| Video.OverlayTimer | src/nv_video.c:262-277 | past the deadline an off-timer port is stopped and given FREE_DELAY more on the 32-bit clock, and a free-timer port frees its memory and goes idle. Before the deadline nothing changes. The answer is whether the callback is still needed |
| Video.BlitTimer | src/nv_video.c:279-286 | past its deadline the blit port frees its memory and goes idle; before it, nothing changes |
| Video.TimerCallback | src/nv_video.c:240-289 | nothing happens while the VT is switched away; idle ports are untouched; the callback stays armed if and only if a port still needs it |
| Video.StopOverlayVideo | src/nv_video.c:444-465 | a V4L-grabbed port is untouched. On exit the port ends idle and without memory. Otherwise a playing port starts the off timer OFF_DELAY from now, modulo 2^32, and a non-playing port keeps its status |
| Video.StopThenTimersRelease | src/nv_video.c:240-465 | when neither deadline wraps, stop, then two timer runs past the two delays: the overlay is stopped once, the memory freed once, the port idle and the callback disarmed |
| Video.Deadline | src/nv_video.c:267 | the deadline is the 32-bit residue of `now` plus the delay |
| Video.DeadlineWrapsEarly | src/nv_video.c:461 | within the delay of the top of the 32-bit clock, the deadline wraps to before `now` |
| Video.StopNearWrapSwitchesOffAtOnce | src/nv_video.c:444-465 | a stop within OFF_DELAY of the top of the 32-bit clock is followed by a switch-off at the very next timer run |
| Video.AllocateOverlayMemory | src/nv_video.c:195-212 | a block at least `size * bpp` bytes is kept; otherwise it is freed and the allocator's answer returned |
| Video.OverlayMemoryReuse | src/nv_video.c:195-212 | memory is kept if and only if it is large enough, and a freed block is never returned |
| VideoImage.QueryImageAttributes | src/nv_video.c:947-1000 | both sides are clamped to 2046 and the width rounded up to even. A planar image also gets an even height, pitches that are multiples of 4 and ordered plane offsets. A packed image's size is pitch times height. An unknown format gets 0 |
| VideoImage.QueryIdempotent | src/nv_video.c:947-1000 | asking again with the answered size gives the same answer |
| VideoImage.QueryPlanesInside | src/nv_video.c:962-997 | every row of every plane ends before the next plane begins, and the last ends within the size |
| VideoImage.SourceLayoutAsWritten | src/nv_video.c:804-824 | the destination pitch is the row bytes rounded up to a multiple of 64; an unknown format has no layout |
| VideoImage.LayoutAgreesWhenEven | src/nv_video.c:804-824 | for an even width, and an even height when planar, the layout used is the one the code computes |
| VideoImage.OddPackedPitchAsWritten | src/nv_video.c:815 | a 3-pixel-wide YUY2 image has pitch 6 as written and 8 in the layout used |
| VideoImage.OddPlanarLayoutAsWritten | src/nv_video.c:807-810 | for a 9 x 3 YV12 image, the chroma pitch is 4 where the query answered 8, and the second plane is read at 36 where the query put it at 48 |
| VideoImage.LayoutMatchesQuery | src/nv_video.c:804-824 | the corrected layout reads every plane at the pitch and offset the query told the client, and the query's size is the frame's |
| VideoImage.NewSize | src/nv_video.c:825-828 | the pixels asked for cover at most one frame, or two when double buffering |
| VideoImage.NewSizeExact | src/nv_video.c:825-828 | when the pixel size divides the pitch, the bytes asked for are exactly one frame, or two |
| VideoImage.ChooseBuffer | src/nv_video.c:836-852 | a single buffer always writes half 0 and shows. A double buffer skips if and only if the hardware holds the current half, and writes the current half if and only if it does not skip |
| VideoImage.NextBuffer | src/nv_video.c:937 | the current buffer flips if and only if the overlay showed the frame |
| VideoImage.ShownFramesAlternate | src/nv_video.c:836-937 | two overlay frames shown in turn use different halves |
| VideoImage.BusyFrameOverwritesNewest | src/nv_video.c:843-847 | a frame that finds its half held overwrites the half just shown and leaves the choice as it was |
| VideoImage.ExpandedBox | src/nv_video.c:860-867 | the widened source box lies within the image |
| VideoImage.ExpandedBoxCovers | src/nv_video.c:860-867 | a column (row) is copied if and only if its pixel meets the window widened by one pixel on each side |
| VideoImage.CopyRect | src/nv_video.c:871-914 | the copy covers the box. Planar copies start on even columns and rows and cover whole 2 x 2 samples; packed 4:2:2 copies cover whole macropixels; RGB copies are the box itself |
| VideoImage.OddPlanarHeightOverrunsAsWritten | src/nv_video.c:825-877 | a 2 x 1 YV12 frame double buffered at 4 bytes a pixel copies two lines into a half with room for one, past the memory's end |
| VideoImage.ClampDrawSize | src/nv_video.c:773-778 | the overlay widens a drawn side to an eighth of the source, never shrinking it; the blitter keeps it |
| VideoImage.ClampIdempotent | src/nv_video.c:773-778 | clamping a clamped size changes nothing |
| VideoImage.HalfStart | src/nv_video.c:845-851 | the second half starts at half the buffer's bytes, rounded down |
| VideoImage.Deliver | src/nv_video.c:922-939 | the frame is shown if and only if it is not skipped. The overlay flips the buffer and is on; the blitter starts the free timer FREE_DELAY ahead on the 32-bit clock; settings are kept |
| VideoImage.PutImage | src/nv_video.c:734-942 | a V4L-grabbed port or an invisible window gives Success with nothing done; an unknown format gives BadImplementation |
| VideoImage.Place | src/nv_video.c:835-939 | a placed frame succeeds in the given memory; a single buffer is written at the start and shown |
| VideoImage.AllocFailureDropsMemory | src/nv_video.c:830-833 | BadAlloc if and only if a visible known frame finds no memory large enough and none is granted; the port then has no memory and its old block was freed |
| VideoImage.PutImagePlaces | src/nv_video.c:825-939 | a copied frame was placed in memory large enough: the old block when it was, else the granted one |
| VideoImage.PutImageKeepsSettings | src/nv_video.c:734-942 | only memory, status, current buffer and deadline change, and the buffer index stays valid |
| VideoImage.PlaceFollowsChoice | src/nv_video.c:836-939 | the frame is written at the half the buffer choice picked and shown unless skipped |
| VideoImage.ShownImagesAlternate | src/nv_video.c:836-939 | two shown frames of the same image go to different halves of the same memory |
| VideoImage.PutImageWritesInside | src/nv_video.c:825-914 | a frame never spills into the other half or past the port's memory |
| VideoImage.PutImageReadsInside | src/nv_video.c:804-914 | for a queried image the copy reads only bytes of the image, each from its own plane |
| VideoImage.SurfacePitch | src/nv_video.c:1022-1023 | a multiple of 64 holding two bytes for each of the `w` pixels, less than 66 bytes over |
| VideoImage.AllocSurface | src/nv_video.c:1006-1049 | a grabbed port gives BadAlloc and an oversized surface BadValue, both with nothing changed. Success comes with memory and a grabbed, idle, stopped port. A failed allocation leaves the pitch set and the memory gone |
| VideoImage.SurfaceHoldsFrame | src/nv_video.c:1006-1049 | the surface pitch is the overlay's packed 4:2:2 pitch, and the memory holds a frame |
| VideoCopy.MoveDwords | src/nv_video.c:664-687 | the `n` words land at the destination and nothing else changes |
| VideoCopy.CopyData422 | src/nv_video.c:701-711 | the rectangle copy of `w / 2` words per line |
| VideoCopy.CopyDataRgb | src/nv_video.c:714-727 | the rectangle copy of `w` words per line |
| VideoCopy.PasteIsMemcpyRect | src/nv_video.c:706-710 | pasting a source rectangle's rows one pitch apart is `NVAccelMemcpyRect`'s rectangle copy |
| VideoCopy.PackYuy2Bytes | src/nv_video.c:634 | the packed word lands in memory as Y0 U Y1 V |
| VideoCopy.UnpackLine420 | src/nv_video.c:627-651 | reading a packed line back gives the luma row and both chroma rows it was made from |
| VideoCopy.PackLine | src/nv_video.c:625-651 | one line is the packed 4:2:2 line of its samples |
| VideoCopy.CopyData420 | src/nv_video.c:610-660 | line `j` is packed from luma row `j` and chroma row `j / 2`, one pitch apart |
| VideoCopy.CopyData420Pixels | src/nv_video.c:610-660 | pair `k` of output line `j` holds lumas `2k` and `2k+1` of row `j` and chroma `k` of row `j / 2` |
| VideoCopy.PasteRowsPlaces | src/nv_video.c:653-654 | pasting puts each row at its pitch offset and touches nothing else |
| Nv04Overlay.SetAttr | src/nv04_video_overlay.c:142-169 | BadMatch if and only if the atom is not brightness, colour key, autopaint or set-defaults; BadValue if and only if it is out of range; both leave the port alone |
| Nv04Overlay.GetAttr | src/nv04_video_overlay.c:180-196 | succeeds if and only if the atom is brightness, colour key or autopaint; else `BadMatch` with 0 |
| Nv04Overlay.SetAgreesWithOverlay | src/nv04_video_overlay.c:142-169 | on its four atoms the NV04 setter is the generic one; any other atom is refused with the port unchanged |
| Nv04Overlay.GetAgreesWithOverlay | src/nv04_video_overlay.c:180-196 | on its three readable atoms the NV04 getter is the generic one |
| Nv04Overlay.Nv04SetGet | src/nv04_video_overlay.c:142-196 | a successful set reads back as the value set |
| Nv04Overlay.Nv04SetLeavesOthers | src/nv04_video_overlay.c:142-196 | setting one attribute leaves the others as they read |
| Nv04Overlay.Nv04DefaultsRead | src/nv04_video_overlay.c:163-164 | after set-defaults: brightness 0, autopaint 1, the screen's colour key |
| Nv04Overlay.StepSize | src/nv04_video_overlay.c:92 | the largest 5.11 step with `step * (drw - 1) <= (src - 1) * 2048`, fitting 16 bits |
| Nv04Overlay.StepUnscaled | src/nv04_video_overlay.c:92 | drawing a span at its own size steps exactly `0x800` |
| Nv04Overlay.CscShift | src/nv04_video_overlay.c:98-100 | over the accepted brightness the truncated shift is within ±62 |
| Nv04Overlay.CscNeutralBand | src/nv04_video_overlay.c:98-100 | brightness −8..8 leaves the offsets neutral (`0x69`, `0x3E`, `0x89`) |
| Nv04Overlay.CscSymmetric | src/nv04_video_overlay.c:98-100 | the offsets are bytes, and opposite brightnesses move them symmetrically around neutral |
| Nv04Overlay.WindowStart | src/nv04_video_overlay.c:87 | the top half decodes to the box's top row in overlay lines, the bottom half to its left column |
| Nv04Overlay.WindowSize | src/nv04_video_overlay.c:89-90 | the top half decodes to the box's height in overlay lines, the bottom half to its width |
| Nv04Overlay.StepWord | src/nv04_video_overlay.c:92 | the top half decodes to the vertical step, the bottom half to the horizontal step |
| Nv04Overlay.PutOverlay | src/nv04_video_overlay.c:62-125 | the port becomes `CLIENT_VIDEO_ON`. The window, size and steps decode to the box and the double-scanned height. Both buffers get the frame's start and pitch with no offset. The control is `0x111`. The SU state flips bit 16 of what was read; OE and RM are reset. The colour key register holds the port's key as 32 bits, the converter offsets are those of the port's brightness with no adjustment, and the filter and FIFO registers get `0x001`, `0x111`, `0x03` and `0x38` |
| Nv04Overlay.SetThenPutProgramsAttribute | src/nv04_video_overlay.c:98-116 | a colour key the client sets reads back as an `INT32` from the key register of the next frame; a brightness the client sets gives byte offsets moved equally from neutral, neutral exactly within eight steps of zero |
| Nv04Overlay.CscShiftBounds | src/nv04_video_overlay.c:98-100 | the red offset is neutral exactly for a brightness in [-8, 8], and the three offsets move by the same amount |
| Nv04Overlay.StopOverlay | src/nv04_video_overlay.c:202-211 | video is switched off with the other control bits kept, OE/SU/RM are reset, and no other register changes |
| Nv04Overlay.StopIdempotent | src/nv04_video_overlay.c:202-211 | stopping twice is stopping once |
| Nv04Overlay.PutThenStop | src/nv04_video_overlay.c:62-211 | a stopped frame leaves the control at `0x110` (colour key and YUY2 kept) and the window in place |
| Nv04Overlay.ClampedScalable | src/nv_video.c:773-778 | after the clamp, any drawn side of at least 2 gives a step that exists |
| Nv04Overlay.OnePixelDrawUnscalable | src/nv04_video_overlay.c:92 | the clamp lets a one-pixel drawn side through, for which the step divides by zero |

## Left out

- Register I/O (`nvWriteVIDEO`, `nvWriteRAMDAC`, `nvReadRAMDAC`) is not modelled as I/O. The values read are parameters, and the values written are fields of a returned record.
- The libdrm internals behind `BEGIN_RING`, `OUT_RELOC*`, `MARK_RING` and `nouveau_bo_map` are left out. The map and relocation results are per-chunk inputs; ring-space accounting and `WAIT_RING` flushing are not modelled.
- Method numbers and the `NVROP` table are named symbolically. They come from headers that are not part of this model.
- `NVAccelGetCtxSurf2DFormatFromPixmap` is an input: the pixmap's format, or none.
- `NV50EXAUploadSIFC` is an input, namely whether it succeeded.
- `exaMarkSync` and `NVSync` are left out: they only synchronise.
- Big-endian branches are left out; the model is little-endian. This covers `NVMoveDWORDSSwapped` and the big-endian packing in `NVCopyData420`.
- `NVResetVideo` is left out: it uses floating-point sine and cosine.
- Colour-key painting and region bookkeeping are left out. This covers `xf86XVFillKeyHelper`, `REGION_*` and `xf86XVClipVideoHelper`, whose result (visible, and the 16.16 window) is an input. A "clip emptied" flag stands for `REGION_EMPTY`. The `REGION_COPY` of the clip boxes into the port's clip when a frame is put with autopaint on (src/nv_video.c:309, src/nv04_video_overlay.c:56) is not modelled, so after a stop and a put the flag still reads as emptied.
- VideoImage.Deliver, VideoImage.PutImageKeepsSettings, Nv04Overlay.PutOverlay: keep the "clip emptied" flag unchanged, since the clip boxes a put copies are not modelled.
- `NVPutOverlayImage` (NV10 and later), `NVPutBlitImage`, `NVStopBlitVideo`, `NVQueryBestSize`, the surface hooks other than `NVAllocSurface`, and the adaptor setup are not part of this model.
- The NV04 overlay adaptor is never registered (the `TODO` in `NVInitVideo`, src/nv_video.c:1327-1330). The NV04 operations are modelled on their own, with `NVPutImage`'s clamped sizes as inputs.
- The server time (`currentTime`) is a `now` parameter, a 32-bit millisecond count; deadlines wrap modulo 2^32 as the `CARD32` sums do.
- The bits per pixel of an Xv frame are 1, 2 or 4, as for an 8-, 16- or 32-bit screen.
- Nv04Overlay.PutOverlay: requires a drawn span of at least two pixels per side, a source of at least one pixel, the clamp's `src < 8 * drw + 8`, and a box within the 16-bit register halves. A one-pixel drawn span divides by zero (`OnePixelDrawUnscalable`), and the C code does not guard it.
- Nv04Overlay.PutOverlay: the SU state written at line 123 XORs a register read; the value read is the parameter `suRead`, not the zero written at line 72.
- Nv04Overlay.StopOverlay: acts on the modelled register record rather than reading `0x244` back from hardware.
- MemCopy.MemcpyRect: requires the destination pitch to be at least the line length, so rows do not overlap. The C code does not check this.
- Nv04Exa.ExtendPlanemask, Nv04Exa.ExtendedIsFull, Nv04Exa.SolidSetup, Nv04Exa.CopySetup: at 32 bits per pixel `~0 << bitsPerPixel` (src/nv04_exa.c:86 and 193) shifts an `int` by its full width, which C leaves undefined. The model reads it as adding no bits, so a 32-bit planemask other than `~0`, or a ROP other than `GXcopy`, is refused. On x86 the count is masked to 0, every planemask becomes `~0` (`MaskedShiftFillsAll`), and a `GXcopy` fill or copy would be accepted as SRCCOPY.
- Transfer.Plan: follows the code for 4096 lines, which gives three chunks (2047, 2047, 2), not two.
- Exa.DownloadFromScreen: requires a positive destination pitch, and, with a GART, a line of at least one byte, since `GART->size / line_len` divides by it, and, when there are lines, a GART holding at least one line, since with less the M2MF loop never ends (`Transfer.GartTooSmallNeverEnds`). Without a GART a zero width is modelled: nothing is copied and the download succeeds. It also requires the column's byte offset `x * cpp` to fit 16 bits (`Transfer.Xfer.Valid`) on every surface, though the code packs it only into the NV50 tiled descriptor (src/nouveau_exa.c:96).
- Exa.UploadToScreen: an upload of no lines that IFC would take with a padded line is not allowed: the loop in src/nv04_exa.c:328-333 never ends for it (`Nv04Exa.EmptyPaddedUploadRunsAway`). Every other upload of no lines is modelled. With a GART, when neither IFC nor SIFC took the upload, it requires a line of at least one byte, since the M2MF upload divides the GART's size by it (src/nouveau_exa.c:170), and, when there are lines, a GART holding at least one line, since with less the loop never ends (`Transfer.GartTooSmallNeverEnds`). A zero-width upload that SIFC takes, or one without a GART, is modelled (`ZeroWidthUploadAllowed`). It also requires the column's byte offset `x * cpp` to fit 16 bits (`Transfer.Xfer.Valid`) on every surface, though the M2MF code packs it only into the NV50 tiled descriptor (src/nouveau_exa.c:96).
- Nv04Exa.UploadIfc: the same upload of no lines with a padded line is excluded, for the same reason.
- VideoImage.PutImage: lays the frame out from the width rounded up to even and, for planar formats, the height rounded up to even, as the query answered. The code uses the width and height as passed. The two agree at even sizes (`LayoutAgreesWhenEven`). At odd sizes the model does not give the code's pitches, for packed formats too (`OddPackedPitchAsWritten`).
- VideoImage.Place: copies with that same rounded layout, so at odd sizes it does not give the code's pitches.
- Exa.DownloadDelivers: the M2MF engine's behaviour is an assumption passed in (`EngineServes`), since the hardware is not modelled. With a GART it is stated only for a linear surface: the NV50 tiled addressing is not served by that assumption.

## Findings

| source | as written | input that shows it | evidently intended | confidence | as-written member | corrected member |
|---|---|---|---|---|---|---|
| src/nv04_exa.c:341-348 | the padded last line copies `padbytes` bytes of the source into the 8-byte buffer and pushes `aux` words from it | a line of three 16-bit pixels (`line_len` 6, `padbytes` 2): only the first pixel reaches the hardware. Any 16-bit line of width 3 modulo 4 loses its last two pixels. With 6 padding bytes, 12 bytes are pushed from the 8-byte buffer | copy the rest of the line (`4 * aux - padbytes` bytes) into the buffer, so the whole line is pushed | not executed | Nv04Exa.LastLineAsWrittenLosesPixels | Nv04Exa.IfcBodyIntended |
| src/nv_video.c:807-810 | the planar pitches and plane offsets come from the width and height as passed, which the query rounded up | a 9 x 3 YV12 image: chroma pitch 4 where the query answered 8, and the second plane at 36 where the query put it at 48 | compute the layout from the even width and height the query answered | not executed | VideoImage.OddPlanarLayoutAsWritten | VideoImage.LayoutMatchesQuery |
| src/nv_video.c:825-877 | memory is sized for `height` lines, but a planar copy rounds the line count up to even | a 2 x 1 YV12 frame, double buffered at 4 bytes a pixel: 128 bytes are allocated, yet two 64-byte lines are copied into the second half | size the frame for the even height the copy covers | not executed | VideoImage.OddPlanarHeightOverrunsAsWritten | VideoImage.PutImageWritesInside |
| src/nv04_exa.c:106 | the red field (the code's `b`) is extracted with mask `0xF100` | the dark red pixel `0x0800` fills a 16-bit surface as black | mask `0xF800`, bits 11 to 15 | not executed | Nv04Exa.Expand565AsWrittenLosesRed | Nv04Exa.Expand565RoundTrip |
