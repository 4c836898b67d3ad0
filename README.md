# 32blit pixel blending and USB command stream, in Dafny

This project models two parts of the 32blit firmware and proves
properties of them.

1. **The software pixel blender, `32blit/graphics/blend.cpp`.**
   - The integer helpers `alpha` (two and three arguments) and `blend`.
   - The RGB888 run writers `blend_rgba_rgb`, `copy_rgba_rgb` and `copy_rgba_rgb_opt`.
   - The fill runs `RGBA_RGBA`, `RGBA_RGB_OPTIMIZED`, `RGBA_RGB`, `P_P` and `M_M`. These draw one pen onto `cnt` pixels of a surface.
   - The copy runs `RGBA_RGBA`, `RGBA_RGB`, `P_P` and `M_M`. These draw `cnt` pixels of a source surface.
2. **The USB CDC command framer, `32blit-stm32/Src/CDCCommandStream.cpp`.**
   - `Stream(data, len)` finds a four-byte header, reads a four-byte command word (a FourCC) and dispatches the rest of the packet to the handler registered for that word. It keeps its progress between packets.
   - The ring of packet buffers (the FIFO) between the USB receive interrupt and the main loop.

## How the model is built

- **Memory.** Memory is an `array<byte>` with `byte = 0..255`.
  - A 32-bit word is the datatype `Word` of its four little-endian bytes (`words.dfy`). Every shift and mask in the source works on whole bytes. `Words.ValueDigits` ties a `Word` to its uint32_t value.
  - The hardware address of a destination, modulo 4, is the explicit parameter `phase` (a field of `Surface`). The word-storing paths depend on it.
- **C++ integer conversions are written out.**
  - `Wrap32` gives uint32_t wrap-around and `ToU16` a uint16_t store.
  - `ToU8` covers a uint8_t store or a `const uint8_t&` argument.
  - `Asr8` is the arithmetic shift `>> 8` of a possibly negative int, which is floor division by 256.
- **Surfaces and the accelerator.**
  - A surface (`Surfaces.Surface`) holds:
    - its pixel array;
    - an optional mask array;
    - its global alpha;
    - an optional palette;
    - the `use_dma2d` flag;
    - the alignment phase.
  - The DMA2D accelerator is the class `Surfaces.Accelerator`. It records the requests it receives. It may change the destination bytes of a request's run, and no other bytes.
- **Loops.** Each run function is a method over the destination array, and its loops carry their invariants.
  - Its `ensures` gives every byte of the buffer after the call, as a function of the bytes before it.
  - Each pixel follows the three-way rule `Surfaces.Over`: at a combined alpha of 255 or more the colour is written, at a positive alpha it is blended in, and at alpha 0 the byte is kept.
- **Code as written and corrected code.** Where the source has a fault, the member named after the source function models the code *as written*, fault included. A member ending in `Fixed` is the corrected routine, proved to meet the intended specification. See "Findings".
- **The command framer.**
  - It is the class `CommandStream.CommandStream`. Its fields are those of the C++ object, and the packet FIFO's lengths are a `seq<byte>`.
  - The effect of one packet is the function `StepAsWritten` (or `StepFixed`) on a `Machine` value. The methods `Stream` and `StreamFixed` are proved to produce exactly that effect.
  - Handlers are foreign code. A handler is a number (`HandlerId`), and `m_commandHandlers` is a map whose missing keys read as null. What `StreamInit` and `StreamData` answer is passed in as the parameters `init` and `result`.
  - The data handed to a handler is recorded as the `(start, count)` of the `AddData` call.
- **Constants from the header file.** `CDCCommandStream.h` is not part of this model. The four header bytes and `CDC_FIFO_BUFFERS` are constructor parameters.

## Model

| member | source | states |
|---|---|---|
| Pixels.Asr8 | 32blit/graphics/blend.cpp:28 | `x >> 8` on an int is the r with 256r <= x < 256r + 256, so it rounds down for negative x too |
| Pixels.Alpha2OfBytes | 32blit/graphics/blend.cpp:19-21 | for byte inputs, alpha(a1, a2) does not wrap, is at most 256, and is 256 exactly when both are 255 |
| Pixels.Alpha3OfBytes | 32blit/graphics/blend.cpp:23-25 | for byte inputs, alpha(a1, a2, a3) does not wrap, is at most 256, and is 256 exactly when all three are 255 |
| Pixels.OpaqueCombinesTo256 | 32blit/graphics/blend.cpp:19-25 | alpha(255, 255) and alpha(255, 255, 255) are 256, so a fully opaque chain passes every `>= 255` test |
| Pixels.OpaqueSurfaceAddsOne | 32blit/graphics/blend.cpp:19-21 | on a surface of alpha 255 the combined alpha is the pen's alpha plus one |
| Pixels.Recombined | 32blit/graphics/blend.cpp:350 | combining an alpha of at most 256 again with a mask byte gives at most 257, and 257 exactly for 256 and 255 |
| Pixels.BlendZero | 32blit/graphics/blend.cpp:27-29 | blend(s, d, 0) == d |
| Pixels.BlendIntBetween | 32blit/graphics/blend.cpp:28 | before the uint8_t conversion the blend lies between d and s |
| Pixels.BlendBetween | 32blit/graphics/blend.cpp:27-29 | for every alpha, blend(s, d, a) lies between d and s, both included, so the conversion never wraps |
| Pixels.BlendSame | 32blit/graphics/blend.cpp:27-29 | blending a byte into itself changes nothing |
| Pixels.FullAlphaMissesEndpoints | 32blit/graphics/blend.cpp:27-29 | blend(255, 0, 255) == 254 and blend(0, 255, 255) == 1 |
| Pixels.ScaledDifference | 32blit/graphics/blend.cpp:28 | the product a * (s - d) keeps the sign of s - d and is at most 255 times it |
| Pixels.RgbByteChannel | 32blit/graphics/blend.cpp:100-102 | byte k of an RGB888 run of one pen is channel k mod 3 |
| Words.ValueDigits | 32blit/graphics/blend.cpp:52 | byte k of a Word is the k-th base-256 digit of its value: the word is a little-endian uint32_t |
| Words.RgbrIsRunWord | 32blit/graphics/blend.cpp:52-54 | replacing A with R in the loaded pen word gives the bytes r, g, b, r |
| Words.RotatePack | 32blit/graphics/blend.cpp:61 | the rotation step turns the word x0 x1 x2 x3 into x1 x2 x3 x1 |
| Words.RotateRunWord | 32blit/graphics/blend.cpp:80 | one rotation advances the run word by one byte, which is also a four-byte advance of the RGB pattern |
| Words.RunWordPeriod | 32blit/graphics/blend.cpp:80 | the run word and the run byte repeat every three bytes |
| Words.NextOfGroupIsRotate | 32blit/graphics/blend.cpp:181-182 | the dw2/dw3 step of the twelve-byte loop is the same rotation |
| Words.TopMaskStoresZero | 32blit/graphics/blend.cpp:115 | storing `s32 & 0xff000000` into a byte stores 0 whatever s32 holds |
| Words.HalfBytes | 32blit/graphics/blend.cpp:290-292 | a 16-bit word (hi << 8) \| lo is stored as lo then hi |
| Surfaces.FillAlphaRange | 32blit/graphics/blend.cpp:246 | the combined alpha is at most 256; without a mask it is >= 255 iff pen alpha + surface alpha >= 509, and with a mask iff the three sum to >= 764 |
| Surfaces.Alpha2Opaque | 32blit/graphics/blend.cpp:19-21 | alpha(a1, a2) >= 255 iff a1 + a2 >= 509 |
| Surfaces.Alpha3Opaque | 32blit/graphics/blend.cpp:23-25 | alpha(a1, a2, a3) >= 255 iff a1 + a2 + a3 >= 764 |
| Surfaces.Accelerator.RgbaRgb | 32blit/graphics/blend.cpp:336 | a call to the accelerator appends its request, and leaves every destination byte outside the run's 3 * count bytes as it was |
| RgbRuns.Lead | 32blit/graphics/blend.cpp:58 | the alignment loop runs fewer than four times and leaves the address a multiple of four |
| RgbRuns.LeadIsFirstAligned | 32blit/graphics/blend.cpp:58 | the alignment loop stops at the first aligned address |
| RgbRuns.Span | 32blit/graphics/blend.cpp:57-87 | the word paths as written touch at most 3c bytes and miss fewer than four; they touch all 3c exactly when c <= 4 or what is left after the lead bytes is a multiple of four |
| RgbRuns.GroupsThenWords | 32blit/graphics/blend.cpp:177-191 | twelve-byte groups followed by single words cover the same whole words as single words alone |
| RgbRuns.WordPathsAgreeWithBytes | 32blit/graphics/blend.cpp:91-203 | the copy routines as written produce the naive r, g, b run if c <= 4 or the start is aligned and 3c is a multiple of 4; for a pen with nonzero red, only then |
| RgbRuns.FivePixelsAtPhaseThree | 32blit/graphics/blend.cpp:113-137 | a 5-pixel run at phase 3 has its first byte zeroed and only 13 of its 15 bytes written |
| RgbRuns.PixelBytes | 32blit/graphics/blend.cpp:101 | pixel j of an RGB888 run holds r, g, b at bytes 3j, 3j+1 and 3j+2 |
| RgbRuns.StoreWord | 32blit/graphics/blend.cpp:128 | `*d32 = w` stores the four bytes of w little-endian and changes nothing else |
| RgbRuns.BlendPixels | 32blit/graphics/blend.cpp:40-47 | the short blend loop blends exactly bytes start .. start + 3c towards the run pattern |
| RgbRuns.CopyPixels | 32blit/graphics/blend.cpp:98-103 | the short copy loop writes exactly bytes start .. start + 3c with the run pattern |
| RgbRuns.BlendRgbaRgb | 32blit/graphics/blend.cpp:31-89 | blend_rgba_rgb as written: the first Span(c, phase) bytes are blended towards the run pattern, the trailing bytes and everything else are unchanged |
| RgbRuns.BlendRgbaRgbFixed | 32blit/graphics/blend.cpp:31-89 | the corrected blend_rgba_rgb blends exactly the 3c bytes of the run, for every c and phase |
| RgbRuns.BlendLead | 32blit/graphics/blend.cpp:56-62 | the alignment prologue blends the lead bytes and leaves the word rotated to the next position |
| RgbRuns.BlendWordAt | 32blit/graphics/blend.cpp:72-77 | one word store blends four bytes towards the run pattern at their positions |
| RgbRuns.BlendWords | 32blit/graphics/blend.cpp:56-84 | the prologue and word loop blend the first Span(c, phase) bytes and return the word for the next position |
| RgbRuns.BlendTail | 32blit/graphics/blend.cpp:85-87 | the trailing loop, started where the words end, blends the remaining bytes |
| RgbRuns.CopyRgbaRgb | 32blit/graphics/blend.cpp:91-139 | copy_rgba_rgb as written: for c > 4 the lead bytes become 0 and the trailing bytes are not written |
| RgbRuns.CopyRgbaRgbOpt | 32blit/graphics/blend.cpp:141-203 | copy_rgba_rgb_opt as written writes exactly what copy_rgba_rgb writes |
| RgbRuns.CopyRgbaRgbFixed | 32blit/graphics/blend.cpp:91-139 | the corrected copy_rgba_rgb writes the naive r, g, b run over exactly 3c bytes |
| RgbRuns.CopyRgbaRgbOptFixed | 32blit/graphics/blend.cpp:141-203 | the corrected copy_rgba_rgb_opt writes the naive run over exactly 3c bytes, as the byte loop does |
| RgbRuns.CopyLead | 32blit/graphics/blend.cpp:114-118 | the as-written prologue sets the lead bytes to 0 |
| RgbRuns.CopyLeadFixed | 32blit/graphics/blend.cpp:114-118 | the corrected prologue writes the run pattern into the lead bytes |
| RgbRuns.CopyWordAt | 32blit/graphics/blend.cpp:128 | one stored run word writes the four run bytes at its position |
| RgbRuns.CopyWords | 32blit/graphics/blend.cpp:126-131 | the word loop writes count whole words of the run pattern |
| RgbRuns.CopyGroupAt | 32blit/graphics/blend.cpp:184-186 | one group writes twelve bytes of the run pattern |
| RgbRuns.CopyGroups | 32blit/graphics/blend.cpp:177-188 | the group loop writes 12 * c96 bytes of the run pattern |
| RgbRuns.CopyGroupsThenWords | 32blit/graphics/blend.cpp:176-196 | groups and then words write every whole word up to the end of the run |
| RgbRuns.CopyTail | 32blit/graphics/blend.cpp:135-137 | the trailing loop, started where the words end, writes the remaining bytes |
| Fill.RgbaPixel | 32blit/graphics/blend.cpp:246-257 | one RGBA8888 pixel: opaque writes r, g, b, 255; a positive alpha blends all four bytes (alpha towards pen.a); alpha 0 keeps them; nothing else changes |
| Fill.RgbaRgba | 32blit/graphics/blend.cpp:241-259 | each of the cnt pixels follows the RGBA8888 rule at its own combined alpha (mask or not); bytes outside [4off, 4(off+cnt)) are untouched |
| Fill.RgbPixel | 32blit/graphics/blend.cpp:270-278 | one RGB888 pixel follows the three-way rule; nothing else changes |
| Fill.RgbaRgbOptimized | 32blit/graphics/blend.cpp:261-324 | every pixel of the run follows the three-way rule at its combined alpha, through the masked loop, the 16-bit pair stores or the blend loop; bytes outside the run are untouched |
| Fill.MaskedRgbPixels | 32blit/graphics/blend.cpp:265-279 | the masked loop applies the three-way rule per pixel with the three-argument alpha |
| Fill.StoreHalf | 32blit/graphics/blend.cpp:298 | a uint16_t store writes its low byte then its high byte |
| Fill.StoreDual | 32blit/graphics/blend.cpp:298-300 | three 16-bit stores write two whole pixels r, g, b |
| Fill.SolidDuals | 32blit/graphics/blend.cpp:286-303 | the pair loop writes exactly 2 * uDuals pixels of the pen colour |
| Fill.SolidPixelAt | 32blit/graphics/blend.cpp:308 | three bytes r, g, b at 3j are pixel j in the pen colour |
| Fill.SolidPixels | 32blit/graphics/blend.cpp:306-309 | the tail loop writes the remaining pixels of the pen colour |
| Fill.BlendedPixels | 32blit/graphics/blend.cpp:313-321 | blending at any alpha below 255 (0 included, where blend keeps the byte) agrees with the three-way rule |
| Fill.MaskedAlphaWraps | 32blit/graphics/blend.cpp:350-351 | on an opaque surface under a full mask byte, a pen of alpha 254 or 255 is opaque by the combined alpha, yet the masked path blends it at alpha 0 or 1 |
| Fill.RgbaRgb | 32blit/graphics/blend.cpp:326-355 | fill RGBA_RGB as written: only without a mask and with use_dma2d does it call the accelerator (and no byte outside the run changes); with a mask each pixel is blended at the wrapped alpha; otherwise the word paths' bytes |
| Fill.MaskedBlendAsWritten | 32blit/graphics/blend.cpp:349-353 | the masked loop blends each pixel at alpha(a, mask) converted to uint8_t |
| Fill.BlendOnePixel | 32blit/graphics/blend.cpp:351 | blend_rgba_rgb with c = 1 blends exactly the three bytes of one pixel |
| Fill.RgbaRgbFixed | 32blit/graphics/blend.cpp:326-355 | corrected fill RGBA_RGB: the same accelerator rule (the request is recorded, no byte outside the run changes), and otherwise every pixel follows the three-way rule at its combined alpha |
| Fill.PP | 32blit/graphics/blend.cpp:385-394 | each of the cnt bytes becomes pen.a unless pen.a is 0, when no byte changes |
| Fill.MM | 32blit/graphics/blend.cpp:396-402 | each of the cnt bytes becomes blend(pen.a, old, dest.alpha) |
| Copy.CoversByEnds | 32blit/graphics/blend.cpp:485 | when the first and last source pixels of a stepped run exist, every one between does |
| Copy.RgbPixelsFrom | 32blit/graphics/blend.cpp:457-473 | pixel doff + i follows the three-way rule with the pen read from source pixel soff + i * step |
| Copy.RgbaRgb | 32blit/graphics/blend.cpp:430-475 | copy RGBA_RGB as written: the three-way rule per pixel with the source read at soff + i, whatever src_step is |
| Copy.RgbaRgbFixed | 32blit/graphics/blend.cpp:430-475 | copy RGBA_RGB reading source pixel soff + i * src_step |
| Copy.RgbaCopyPixel | 32blit/graphics/blend.cpp:415-424 | one four-byte slot: opaque writes r, g, b and keeps the fourth byte, translucent blends all four, alpha 0 keeps all |
| Copy.RgbaSlotsFrom | 32blit/graphics/blend.cpp:410-427 | each slot of the run follows the copy rule with its source pen and the destination pixel's combined alpha |
| Copy.RgbaRgba | 32blit/graphics/blend.cpp:405-428 | copy RGBA_RGBA as written: slots start at byte 3 * doff with a stride of 4, the fourth byte is blended towards pen.b, and src_step is ignored |
| Copy.StrideStartsInEarlierPixel | 32blit/graphics/blend.cpp:407 | for doff >= 1 the first byte written (the red channel of slot 0) is byte (3 doff) mod 4 of the earlier destination pixel (3 doff) div 4; for doff = 1 it is the alpha byte of pixel 0 |
| Copy.FourthByteTowardsBlue | 32blit/graphics/blend.cpp:421 | blending towards blue halves the alpha of an opaque destination under a black pen at half coverage; towards alpha it stays 255 |
| Copy.StepIgnored | 32blit/graphics/blend.cpp:426 | for any src_step other than 1, the second source pixel onward differs from the one the code reads |
| Copy.RgbaRgbaFixed | 32blit/graphics/blend.cpp:405-428 | corrected copy RGBA_RGBA: pixel doff + i (bytes 4(doff+i) ..) follows the copy rule with source soff + i * step and the fourth byte blended towards pen.a |
| Copy.PP | 32blit/graphics/blend.cpp:477-487 | dest[doff+i] becomes src[soff + i * src_step] when that byte is nonzero and is unchanged otherwise |
| Copy.MM | 32blit/graphics/blend.cpp:489-497 | dest[doff+i] becomes blend(src[soff + i * src_step], old, dest.alpha) |
| CommandStream.SetByte | 32blit-stm32/Src/CDCCommandStream.cpp:115-121 | writing byte k of the command word changes byte k and no other |
| CommandStream.LookupAfterRegister | 32blit-stm32/Src/CDCCommandStream.cpp:20-23 | after registering, the word looks up its new handler and every other word its old one; the lookup's null insertion changes no lookup |
| CommandStream.ScanHeader | 32blit-stm32/Src/CDCCommandStream.cpp:85-108 | the scan stops right after the fourth consecutive match with both positions reset, or at the end of the packet with a header position below 4 |
| CommandStream.ScanHeaderSound | 32blit-stm32/Src/CDCCommandStream.cpp:85-108 | a reported header is the four bytes just before the scan position; an unfinished one is the start of the header at the end of the data |
| CommandStream.ScanHeaderResumes | 32blit-stm32/Src/CDCCommandStream.cpp:85-108 | progress persists across packets: scanning a then b is scanning a + b |
| CommandStream.ShiftScan | 32blit-stm32/Src/CDCCommandStream.cpp:87-108 | the scan depends only on the bytes from its position on |
| CommandStream.HeaderAtStart | 32blit-stm32/Src/CDCCommandStream.cpp:87-108 | a packet starting with the header is recognised after its first four bytes |
| CommandStream.MismatchNotRetested | 32blit-stm32/Src/CDCCommandStream.cpp:102-106 | the byte that breaks a partial match is not compared with the first header byte, so 1 1 2 3 4 does not contain header 1 2 3 4 |
| CommandStream.GatherAsWritten | 32blit-stm32/Src/CDCCommandStream.cpp:113-127 | the command loop as written ends in Dispatch with four bytes, or in stDetectCommandWord at index len + 1: it reads index len |
| CommandStream.FinishAsWritten | 32blit-stm32/Src/CDCCommandStream.cpp:132-141 | the stDetectCommandWord loop always dispatches, reading the missing bytes from the packet start whatever its length |
| CommandStream.GatherFixed | 32blit-stm32/Src/CDCCommandStream.cpp:113-141 | the corrected loop reads only inside the packet, ending in Dispatch or in stDetectCommandWord at the packet end |
| CommandStream.GatherFixedResumes | 32blit-stm32/Src/CDCCommandStream.cpp:113-141 | corrected: a command word split across two packets is gathered as if it came in one |
| CommandStream.ShiftGather | 32blit-stm32/Src/CDCCommandStream.cpp:113-127 | gathering depends only on the bytes from its position on |
| CommandStream.GatherFixedWord | 32blit-stm32/Src/CDCCommandStream.cpp:113-127 | four bytes gathered at once are the little-endian word of those bytes |
| CommandStream.FrontAsWritten | 32blit-stm32/Src/CDCCommandStream.cpp:85-142 | the header and command phases leave positions in range, and reach Processing only from Processing, at packet index 0 |
| CommandStream.FrontFixed | 32blit-stm32/Src/CDCCommandStream.cpp:85-142 | the same, and the corrected phases never pass the packet end |
| CommandStream.AfterResult | 32blit-stm32/Src/CDCCommandStream.cpp:167-193 | processing continues iff the answer is srContinue or a first srNeedData; otherwise Detect; NeedData counts a retry |
| CommandStream.Back | 32blit-stm32/Src/CDCCommandStream.cpp:144-194 | dispatch uses the registered handler (inserting null for an unknown word); no handler or a refused StreamInit goes back to Detect; the handler gets the rest of the packet exactly while processing; the answers move the state as AfterResult says |
| CommandStream.StepAsWritten | 32blit-stm32/Src/CDCCommandStream.cpp:78-198 | one packet keeps the machine in a state it can be in between packets |
| CommandStream.StepFixed | 32blit-stm32/Src/CDCCommandStream.cpp:78-198 | corrected: the same, and the count handed to the handler ends exactly at the packet end |
| CommandStream.ProcessingStep | 32blit-stm32/Src/CDCCommandStream.cpp:164-194 | while processing, the whole packet goes to the handler and the state stays Processing iff srContinue or a first srNeedData |
| CommandStream.SplitCommandAsWritten | 32blit-stm32/Src/CDCCommandStream.cpp:83 | a header that ends a packet makes the code as written dispatch the word 0, x0, x1, x2 for the command x0 x1 x2 x3 |
| CommandStream.SplitCommandFixed | 32blit-stm32/Src/CDCCommandStream.cpp:83 | corrected, the same packets dispatch x0 x1 x2 x3 |
| CommandStream.ReadPastPacketAsWritten | 32blit-stm32/Src/CDCCommandStream.cpp:116 | header plus three command bytes ending a packet: the byte after the packet completes the word, and the handler is given 0xffffffff bytes |
| CommandStream.ReadPastPacketFixed | 32blit-stm32/Src/CDCCommandStream.cpp:116 | corrected, the three bytes wait for the next packet and nothing is dispatched |
| CommandStream.Queued | 32blit-stm32/Src/CDCCommandStream.cpp:206-258 | the queued lengths, oldest first, are the used slots from the read position on |
| CommandStream.QueuedPush | 32blit-stm32/Src/CDCCommandStream.cpp:222-233 | recording a length in the slot after the queue appends it |
| CommandStream.QueuedPop | 32blit-stm32/Src/CDCCommandStream.cpp:249-258 | advancing the read position drops the oldest length |
| CommandStream.ScanLoop | 32blit-stm32/Src/CDCCommandStream.cpp:87-108 | the scan loop computes ScanHeader |
| CommandStream.GatherLoopAsWritten | 32blit-stm32/Src/CDCCommandStream.cpp:113-127 | the command loop as written computes GatherAsWritten |
| CommandStream.FinishLoopAsWritten | 32blit-stm32/Src/CDCCommandStream.cpp:134-139 | the stDetectCommandWord loop as written computes FinishAsWritten |
| CommandStream.GatherLoopFixed | 32blit-stm32/Src/CDCCommandStream.cpp:113-139 | the corrected loop computes GatherFixed |
| CommandStream.CommandStream.Contents | 32blit-stm32/Src/CDCCommandStream.cpp:209 | the queue holds fewer packets than there are buffers |
| CommandStream.CommandStream.Init | 32blit-stm32/Src/CDCCommandStream.cpp:13-18 | Init returns to Detect with header position 0 and no USB resume pending, and changes nothing else |
| CommandStream.CommandStream.AddCommandHandler | 32blit-stm32/Src/CDCCommandStream.cpp:20-23 | the handler map gains or replaces the entry for the word; nothing else changes |
| CommandStream.CommandStream.DispatchAndProcess | 32blit-stm32/Src/CDCCommandStream.cpp:144-194 | the fields after dispatch and processing are those Back computes |
| CommandStream.CommandStream.ReadAsWritten | 32blit-stm32/Src/CDCCommandStream.cpp:85-142 | the fields after the header and command phases are those FrontAsWritten computes |
| CommandStream.CommandStream.Stream | 32blit-stm32/Src/CDCCommandStream.cpp:78-198 | Stream(data, len) as written has exactly the effect StepAsWritten gives, keeps the object valid, and returns true iff the state is not Detect |
| CommandStream.CommandStream.ReadFixed | 32blit-stm32/Src/CDCCommandStream.cpp:85-142 | the corrected phases leave the fields FrontFixed computes |
| CommandStream.CommandStream.StreamFixed | 32blit-stm32/Src/CDCCommandStream.cpp:78-198 | the corrected Stream has exactly the effect StepFixed gives and returns true iff the state is not Detect |
| CommandStream.CommandStream.GetFifoWriteBuffer | 32blit-stm32/Src/CDCCommandStream.cpp:206-220 | the buffer at the write position while fewer than N - 1 are used, and it holds no queued packet; otherwise none and a USB resume pending; no FIFO field changes |
| CommandStream.CommandStream.ReleaseFifoWriteBuffer | 32blit-stm32/Src/CDCCommandStream.cpp:222-233 | the length is recorded at the write position, the write position advances modulo N, the count grows by one: the queue gains the length at its back |
| CommandStream.CommandStream.GetFifoReadElement | 32blit-stm32/Src/CDCCommandStream.cpp:235-247 | the element at the read position iff the count is nonzero (it holds the oldest queued length), none iff the queue is empty; nothing changes |
| CommandStream.CommandStream.ReleaseFifoReadElement | 32blit-stm32/Src/CDCCommandStream.cpp:249-258 | the count drops by one and the read position advances modulo N: the oldest length leaves the queue |

## Where the code and its description differ

The model follows the code.

- `alpha(255, 255)` is 256, not 255. Opacity still works because every caller tests `>= 255`.
- `blend(s, d, 255)` can miss s by one: `blend(255, 0, 255)` is 254.
- The copy runs have no RGB888 word fast path. Each is a plain per-pixel loop.
- Every `do … while (--cnt)` loop needs `cnt >= 1`. At 0 the counter wraps and the loop runs about 2^32 times. The members that model such loops require it; "## Left out" lists them.
- Copy `M_M` blends every destination byte towards the source byte, 0 included. A source byte of 0 therefore moves the destination towards 0; it does not leave the destination as it was (lines 489-497, `Copy.MM`).
- The combined alpha `alpha(pen.a, surface.alpha)` counts as opaque once the two sum to 509 or more. A pen of alpha 254 on an opaque surface is drawn opaque.

## Left out

- The values the DMA2D accelerator writes into the run. Its register programming is hardware. `Surfaces.Accelerator` records each request and promises only that no byte outside the run changes.
- `CDCCommandStream::Stream(void)`: USB resume and stall handling driven by `HAL_GetTick` and the USB driver (I/O and timing). The FIFO operations it calls are modelled.
- `LogTimeTaken`, `GetTimeTaken`, `m_uDispatchTime`, `blit_disable_ADC`/`blit_enable_ADC` and the `FIFO_DEBUG` counters: logging, timing and peripheral control.
- The handlers' `StreamInit` and `StreamData`, and the `m_dataStream` object. They are foreign code. Their answers are parameters, and `AddData` is recorded.
- The packet bytes stored in the FIFO buffers. Only each buffer's recorded length is modelled, as `CommandStream.CommandStream.Contents`. Which buffer a pointer names is its slot number.
- Real pointers: the destination address appears only through its phase modulo 4. Overlap between source and destination, or between data and mask, is excluded by the preconditions (`MaskApart`, `src.data != dest.data`).
- `CDCCommandStream.h` is not part of this model. The header bytes and the buffer count are constructor parameters.
- Signed overflow in the byte shifts: at lines 61, 77, 117, 130, 167, 181-182 and 195 a byte (or 16-bit value) is promoted to a signed `int` before being shifted left by 24 (or 16). For a value of 128 or more the result does not fit an `int`, which is undefined behaviour before C++20. `Words.Shl24` and `Words.Shl16` model the wrapped 32-bit pattern that the compiler produces in practice.
- CommandStream.CommandStream.ReleaseFifoWriteBuffer: requires a free buffer, which the source does not check. Its callers release only a buffer GetFifoWriteBuffer returned.
- CommandStream.CommandStream.ReleaseFifoReadElement: requires a queued packet, which the source does not check. Its callers release only an element GetFifoReadElement returned; without one the unsigned count would wrap.
- CommandStream.CommandStream.Stream: requires four readable bytes and one more beyond the packet in the buffer (`len < |mem|`, `4 <= |mem|`), so that the reads past the end are defined. What the code as written reads there is whatever that memory holds: the model takes the caller's bytes.
- Surfaces.Accelerator.RgbaRgb: stands for the hardware call `api.dma2d_RGBA_RGB`. It does not state the values written inside the run, only that nothing outside it changes.
- Fill.RgbaRgb: when it calls the accelerator, the contract does not state the values inside the run, only that nothing outside it changes.
- Fill.RgbaRgbFixed: when it calls the accelerator, the contract does not state the values inside the run, only that nothing outside it changes.
- Fill.RgbaRgba: requires `cnt >= 1`, because the do-while counter wraps at 0 and the source would run about 2^32 pixels.
- Fill.RgbaRgb: requires `c >= 1` on the paths that end in a do-while (the mask loop, and copy_rgba_rgb_opt for an opaque pen without the accelerator), because the counter wraps at 0.
- Fill.RgbaRgbFixed: requires `c >= 1` on the same paths as Fill.RgbaRgb, for the same reason.
- Fill.RgbaRgbOptimized: requires `cnt >= 1` on the masked path only, because that do-while counter wraps at 0.
- Fill.PP: requires `cnt >= 1`, because the do-while counter wraps at 0.
- Fill.MM: requires `cnt >= 1`, because the do-while counter wraps at 0.
- Copy.RgbaRgb: requires `cnt >= 1`, because the do-while counter wraps at 0.
- Copy.RgbaRgbFixed: requires `cnt >= 1`, because the do-while counter wraps at 0.
- Copy.RgbaRgba: requires `cnt >= 1`, because the do-while counter wraps at 0.
- Copy.RgbaRgbaFixed: requires `cnt >= 1`, because the do-while counter wraps at 0.
- Copy.PP: requires `cnt >= 1`, because the do-while counter wraps at 0.
- Copy.MM: requires `cnt >= 1`, because the do-while counter wraps at 0.
- RgbRuns.CopyRgbaRgb: requires `c >= 1`, because the do-while of the short case wraps its counter at 0.
- RgbRuns.CopyRgbaRgbOpt: requires `c >= 1`, because the do-while of the short case wraps its counter at 0.
- RgbRuns.CopyRgbaRgbFixed: requires `c >= 1`, for the same do-while as CopyRgbaRgb.
- RgbRuns.CopyRgbaRgbOptFixed: requires `c >= 1`, for the same do-while as CopyRgbaRgbOpt.

## Findings

| source | as written | input that shows it | evidently intended | confidence | as-written member | corrected member |
|---|---|---|---|---|---|---|
| 32blit/graphics/blend.cpp:115 | `*d = s32 & 0xff000000` stores 0 into each lead byte of copy_rgba_rgb | 5 pixels of pen (10, 20, 30, 255) at phase 3: byte 0 becomes 0 instead of 10 | `*d = s32 & 0xff` | high, not executed | RgbRuns.CopyRgbaRgb | RgbRuns.CopyRgbaRgbFixed |
| 32blit/graphics/blend.cpp:165 | the same store in copy_rgba_rgb_opt | the same run | `*d = s32 & 0xff` | high, not executed | RgbRuns.CopyRgbaRgbOpt | RgbRuns.CopyRgbaRgbOptFixed |
| 32blit/graphics/blend.cpp:84 | `d = (uint8_t*)de` before `while (d < de)`: blend_rgba_rgb never blends the trailing bytes | 5 pixels at phase 3: only 13 of 15 bytes are touched (Span(5, 3) = 13) | `d = (uint8_t*)d32` | high, not executed | RgbRuns.BlendRgbaRgb | RgbRuns.BlendRgbaRgbFixed |
| 32blit/graphics/blend.cpp:134 | the same in copy_rgba_rgb | the same run: bytes 13 and 14 keep their old values | `d = (uint8_t*)d32` | high, not executed | RgbRuns.FivePixelsAtPhaseThree | RgbRuns.CopyRgbaRgbFixed |
| 32blit/graphics/blend.cpp:199 | the same in copy_rgba_rgb_opt | the same run | `d = (uint8_t*)d32` | high, not executed | RgbRuns.WordPathsAgreeWithBytes | RgbRuns.CopyRgbaRgbOptFixed |
| 32blit/graphics/blend.cpp:350-351 | the surface alpha (up to 256) is combined with the mask again and passed as uint8_t | pen alpha 255, surface alpha 255, mask byte 255: combined 257, passed as 1; pen alpha 254 gives 0 | the three-argument alpha and the opaque/blend/skip rule, as in the other runs | high, not executed | Fill.MaskedAlphaWraps | Fill.RgbaRgbFixed |
| 32blit/graphics/blend.cpp:407 | copy RGBA_RGBA starts at byte `doff * 3` with a stride of 4 | doff = 1: the first byte written is byte 3, the alpha of pixel 0 | `doff * 4` | high, not executed | Copy.StrideStartsInEarlierPixel | Copy.RgbaRgbaFixed |
| 32blit/graphics/blend.cpp:421 | the fourth byte is blended towards `pen->b` | black opaque pen at coverage 128 over alpha 255: alpha becomes 127 | `pen->a` | high, not executed | Copy.FourthByteTowardsBlue | Copy.RgbaRgbaFixed |
| 32blit/graphics/blend.cpp:426 | copy RGBA_RGBA and RGBA_RGB advance the source by one pixel and ignore `src_step` | src_step = -1 (a mirrored blit): pixel 1 reads soff + 1 instead of soff - 1 | advance by `src_step` pixels, as P_P and M_M do | medium, not executed | Copy.StepIgnored | Copy.RgbaRgbFixed |
| 32blit-stm32/Src/CDCCommandStream.cpp:116 | `pScanPos > data + len` lets the command loop read the byte after the packet | header plus 5, 6, 7 ending a 7-byte packet: the word is completed with byte 7 and AddData gets 0xffffffff bytes | `pScanPos >= data + len` | high, not executed | CommandStream.ReadPastPacketAsWritten | CommandStream.ReadPastPacketFixed |
| 32blit-stm32/Src/CDCCommandStream.cpp:83 | `uCommand` is a local reset to 0 each call, and the stDetectCommandWord loop reads without a length check | header ending packet 1, command x0 x1 x2 x3 in packet 2: the word dispatched is 0 x0 x1 x2 | keep the partial word in the object and read only within the packet | high, not executed | CommandStream.SplitCommandAsWritten | CommandStream.SplitCommandFixed |
