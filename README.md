# DitherDemon pixel pipeline, modelled in Dafny

DitherDemon renders an RGBA raster (`width * height * 4` bytes, row-major,
R, G, B, A per pixel, stored in a `Uint8ClampedArray`) through a fixed
chain of in-place passes: tone adjustments (contrast, midtone, highlights,
luminance clip), one noise or spatial filter (gaussian, salt and pepper,
box blur, pixelate), colour inversion, one dithering algorithm, and a border
compositor. Every render starts from a copy of the original image and is
pushed onto an undo history of at most 20 snapshots.

This project models that core and proves what it promises:

- `pixels.dfy` (`Pixels`): the byte stores of JavaScript typed arrays
  (`ToByteClamped` = round half to even and clamp, `ToUint8` = truncate),
  `Math.round`, and the shape predicates (alpha unchanged, gray image).
- `tone.dfy` (`Tone`): applyContrast, applyMidtone, applyHighlights,
  applyLuminanceThreshold, applyColorInversion.
- `filters.dfy` (`Filters`): applySaltPepperNoise, applyGaussianNoise,
  applyBlur, applyPixelate.
- `diffusion.dfy` (`Diffusion`): the in-place error-diffusion scan shared by
  floydSteinbergDithering, atkinsonDithering, jarvisJudiceNinkeDithering,
  stuckiDithering, ditherChannel and ditherChannelWithPalette, as one engine
  over a kernel (list of taps) and a quantizer (threshold 128 or nearest
  palette entry).
- `byte_diffusion.dfy` (`ByteDiffusion`): errorDiffusionDithering, which
  works on a fresh `Uint8Array` copy with clamped neighbour updates.
- `bayer.dfy` (`Bayer`): createBayerMatrix and the recursive Bayer matrix.
- `dithering.dfy` (`Dithering`): the grayscale algorithms of dithering.js
  (the four in-place diffusion dithers, Burkes, Bayer, random, Sierra).
- `channels.dfy` (`Channels`): the channel extraction and copy-back loops of
  the colour variants and of applyDithering.
- `color_dithering.dfy` (`ColorDithering`) and `color_random.dfy`
  (`ColorRandom`): the per-channel colour variants and their N-level palettes.
- `dispatch.dfy` (`Dispatch`): applyDithering, the grayscale conversion and
  the choice of algorithm by name.
- `border.dfy` (`Border`), `frame.dfy` (`Frame`), `silhouette.dfy`
  (`Silhouette`), `apply_border.dfy` (`ApplyBorder`): hexToRgb,
  checkForTransparency, the rectangular frames, the borders around
  transparent areas, and applyBorder.
- `history.dfy` (`UndoHistory`): the undo/redo stacks of app.js as a class.
- `pipeline.dfy` (`Pipeline`): the stage order of applyFilters.

The passes that work in place on the image are methods over `array<int>`
proved against a specification function of the old contents
(`data[..] == Contrast(old(data[..]), factor)`); the properties are lemmas
about those functions. JavaScript numbers are `real`; every store into a
typed array goes through `ToByteClamped` or `ToUint8`. `Math.random()` is an
injected sequence of draws, consumed in the order the source calls it.

Where the code and the design description differ, the model follows the
code:

- applyDithering discards the array burkesDithering returns, so "burkes"
  only converts the image to gray; Burkes itself is modelled and proved
  binary on its own.
- sierraDithering has no body: "sierra" also only converts to gray.
- A dithering name applyDithering does not know is not an error: it also
  only converts to gray.
- createBayerMatrix rounds a size that is not a power of two down, but
  bayerDithering keeps indexing with the unrounded size; the model of
  bayerDithering therefore requires a power of two (see Left out).
- An image whose alpha dips below 255 but never reaches 0 takes the
  transparent-area path, which only grows from fully transparent pixels, so
  it gets no border at all (`ApplyBorder.PartialTransparencyGetsNoBorder`).

## Model

| member | source | states |
|---|---|---|
| Pixels.ToByteClamped | src/js/imageProcessing.js:30-32 | a store into a Uint8ClampedArray is a byte: 0 at or below 0, 255 at or above 255, within 0.5 of the value in between, and even on an exact half |
| Pixels.StoreByte | src/js/imageProcessing.js:100-102 | a value that already is a byte is stored unchanged |
| Pixels.ToUint8 | dithering/js/dithering.js:11-14 | a store into a Uint8Array is a byte, the floor of the value for values in [0, 256) |
| Pixels.MathRound | src/js/imageProcessing.js:242-244 | Math.round gives the integer within half a unit, halves rounded up |
| Tone.Contrast | src/js/imageProcessing.js:26-34 | applyContrast never writes alpha and keeps bytes bytes |
| Tone.ContrastColour | src/js/imageProcessing.js:29-33 | every colour byte becomes the stored v * factor + 128 * (1 - factor) |
| Tone.ContrastUnitFactor | src/js/imageProcessing.js:26-34 | factor 1 leaves every byte unchanged |
| Tone.ContrastFixesMidGray | src/js/imageProcessing.js:27-32 | 128 is a fixed point for every factor |
| Tone.ApplyContrast | src/js/imageProcessing.js:26-34 | the array afterwards is Contrast of its old contents |
| Tone.Midtone | src/js/imageProcessing.js:43-47 | the table lookup never writes alpha and stores bytes |
| Tone.MidtoneColour | src/js/imageProcessing.js:43-47 | every colour byte becomes its table entry, stored |
| Tone.MidtoneIdentityTable | src/js/imageProcessing.js:36-48 | the identity table (gamma 1) changes nothing |
| Tone.ApplyMidtone | src/js/imageProcessing.js:43-47 | the array afterwards is Midtone of its old contents |
| Tone.Highlights | src/js/imageProcessing.js:50-61 | applyHighlights never writes alpha |
| Tone.HighlightsColour | src/js/imageProcessing.js:54-59 | a byte at most 192 is unchanged; a colour byte goes through 192 + (v - 192) * value / 100 when above 192 |
| Tone.HighlightByteBounds | src/js/imageProcessing.js:56-58 | for value in [0, 100] the result is a byte, and a value above 192 stays between 192 and itself |
| Tone.HighlightsCompress | src/js/imageProcessing.js:50-61 | for value in [0, 100] bytes stay bytes and every byte above 192 moves down towards 192, never below it |
| Tone.HighlightsFullValue | src/js/imageProcessing.js:50-61 | value 100 changes nothing |
| Tone.ApplyHighlights | src/js/imageProcessing.js:50-61 | the array afterwards is Highlights of its old contents |
| Tone.LuminanceClip | src/js/imageProcessing.js:63-73 | applyLuminanceThreshold never writes alpha |
| Tone.LuminanceClipPixel | src/js/imageProcessing.js:66-72 | a pixel turns white exactly when 0.299 R + 0.587 G + 0.114 B > value * 2.55, otherwise it keeps its colour |
| Tone.LuminanceAtMost255 | src/js/imageProcessing.js:67-68 | the luminance of byte channels is at most 255 |
| Tone.LuminanceClipFullValue | src/js/imageProcessing.js:63-73 | a threshold of 100 or more clips nothing |
| Tone.ApplyLuminanceThreshold | src/js/imageProcessing.js:63-73 | the array afterwards is LuminanceClip of its old contents |
| Tone.Invert | src/js/imageProcessing.js:97-105 | R, G and B become 255 - v; alpha is never written |
| Tone.InvertInvolution | src/js/imageProcessing.js:97-105 | inverting twice restores every byte |
| Tone.ApplyColorInversion | src/js/imageProcessing.js:97-105 | the array afterwards is Invert of its old contents |
| Filters.Speck | src/js/imageProcessing.js:91 | the second draw picks 0 or 255 |
| Filters.SaltPepperFrom | src/js/imageProcessing.js:87-94 | the scan from pixel i on keeps the buffer length (its meaning is in the three lemmas below) |
| Filters.SaltPepper | src/js/imageProcessing.js:86-95 | the whole pass keeps the buffer length |
| Filters.SaltPepperFromPrefix | src/js/imageProcessing.js:87-94 | the pass from pixel i on never writes a byte before i |
| Filters.SaltPepperFromAlpha | src/js/imageProcessing.js:87-94 | the pass never writes an alpha byte |
| Filters.DrawIndexFrom | src/js/imageProcessing.js:87-91 | the draw deciding pixel q comes after one draw for every earlier pixel and at most two |
| Filters.DrawIndex | src/js/imageProcessing.js:87-91 | the draw deciding pixel q lies between q/4 and 2(q/4), with the colour draw after it still in the sequence |
| Filters.SaltPepperFromStart | src/js/imageProcessing.js:89-93 | the first pixel of the pass is speckled with the next draw's colour when the next unused draw is below the intensity, and kept otherwise |
| Filters.SaltPepperFromSkip | src/js/imageProcessing.js:87-94 | the pass from pixel i equals the pass from the next pixel after pixel i's one or two draws, and later pixels' bytes and deciding draws are unchanged |
| Filters.SaltPepperFromPixel | src/js/imageProcessing.js:87-94 | every pixel of the pass from i on is speckled with the colour draw when its own deciding draw is below the intensity, and kept otherwise |
| Filters.SaltPepperPixel | src/js/imageProcessing.js:86-95 | a pixel changes only when its deciding draw is below the intensity, and it then gets R = G = B = 0 or 255 as the following draw says |
| Filters.SaltPepperShape | src/js/imageProcessing.js:86-95 | alpha is never written and every pixel is decided by its own draw, so it is kept or turned pure black or white |
| Filters.SaltPepperNoHit | src/js/imageProcessing.js:89 | with no draw below the intensity the image is unchanged |
| Filters.SaltPepperAllHit | src/js/imageProcessing.js:89-92 | with every draw below the intensity every pixel is black or white |
| Filters.ApplySaltPepperNoise | src/js/imageProcessing.js:86-95 | the array afterwards is SaltPepper of its old contents with two draws per pixel |
| Pixels.Clamp | src/js/imageProcessing.js:80-82 | Math.min(Math.max(v, 0), 255), also used for the Math.max(0, Math.min(255, v)) of dithering.js, lies in [0, 255] and is v when v already does |
| Filters.GaussianNoise | src/js/imageProcessing.js:75-84 | the pass keeps the buffer length |
| Filters.GaussianPixel | src/js/imageProcessing.js:80-82 | channel c of pixel p gets draw 3p + c; alpha is kept |
| Filters.GaussianShape | src/js/imageProcessing.js:75-84 | alpha untouched, bytes stay bytes, intensity 0 changes nothing |
| Filters.ApplyGaussianNoise | src/js/imageProcessing.js:75-84 | the array afterwards is GaussianNoise of its old contents |
| Filters.KernelSize | src/js/imageProcessing.js:181 | the kernel size lies in [3, 11] |
| Filters.HalfKernel | src/js/imageProcessing.js:182 | half the kernel size, floored, lies in [1, 5] |
| Filters.ClampCoord | src/js/imageProcessing.js:194-195 | an edge-clamped coordinate lies inside the image and is unchanged when already inside |
| Filters.Blurred | src/js/imageProcessing.js:176-212 | applyBlur never writes alpha |
| Filters.RowSumOfConstant | src/js/imageProcessing.js:193-202 | a window row adds n samples |
| Filters.WindowSumOfConstant | src/js/imageProcessing.js:192-203 | the window adds exactly (2h + 1) samples per row over its rows |
| Filters.MeanOfCopies | src/js/imageProcessing.js:207-209 | the mean of n copies of v is v |
| Filters.BlurValueOfConstant | src/js/imageProcessing.js:192-209 | a constant channel blurs to the same value at every pixel |
| Filters.BlurOfConstant | src/js/imageProcessing.js:176-212 | a channel holding one byte value everywhere is left as it is |
| Filters.WindowSums | src/js/imageProcessing.js:186-203 | the window loops compute the three window sums and count (2h + 1)^2 samples |
| Filters.WindowRow | src/js/imageProcessing.js:193-202 | the inner window loop adds the 2h + 1 edge-clamped samples of one window row to the running sums and count |
| Filters.BlurAtByte | src/js/imageProcessing.js:206-209 | each colour byte of pixel (y, x) is its stored window mean; alpha comes from the copy |
| Filters.BlurAtPixel | src/js/imageProcessing.js:206-209 | the four bytes of pixel (y, x) in the blurred image |
| Filters.BlurPixel | src/js/imageProcessing.js:186-209 | one pixel's bytes take their blurred value, every other byte is unchanged |
| Filters.BlurColor | src/js/imageProcessing.js:186-209 | the three values stored for a pixel are its blurred colour bytes |
| Filters.ApplyBlur | src/js/imageProcessing.js:176-212 | the array afterwards is Blurred of its old contents, every sample read from the unmodified copy |
| Filters.BlockSize | src/js/imageProcessing.js:216 | the block size lies in [1, 100] |
| Filters.Pixelated | src/js/imageProcessing.js:214-257 | applyPixelate never writes alpha |
| Filters.PixelateBlockUniform | src/js/imageProcessing.js:246-254 | two pixels of the same block get the same colour |
| Filters.PixelateUnitBlock | src/js/imageProcessing.js:214-257 | blocks of one pixel change nothing |
| Filters.UnitBlockAt | src/js/imageProcessing.js:231-253 | with blocks of one pixel every byte keeps its value |
| Filters.BlockRowSumOfConstant | src/js/imageProcessing.js:232-238 | a block row adds n samples |
| Filters.BlockSumOfConstant | src/js/imageProcessing.js:231-239 | a block adds rows * cols samples, only in-bounds ones |
| Filters.RoundedMeanOfCopies | src/js/imageProcessing.js:242-244 | the rounded mean of equal samples is that sample |
| Filters.BlockMeanOfConstant | src/js/imageProcessing.js:225-244 | a constant channel averages to its value over any edge block |
| Filters.PixelateAtOfConstant | src/js/imageProcessing.js:246-253 | each byte of a constant channel keeps its value |
| Filters.PixelateOfConstant | src/js/imageProcessing.js:214-257 | a channel holding one byte value everywhere is left as it is |
| Filters.BlockAverage | src/js/imageProcessing.js:225-244 | the sampling loops compute the three rounded block means over the in-bounds pixels |
| Filters.BlockRow | src/js/imageProcessing.js:232-239 | the inner sampling loop adds the in-bounds pixels of one block row to the running sums and count |
| Filters.MeansColourBlock | src/js/imageProcessing.js:242-253 | the stored rounded means are the colour of every pixel of the block |
| Filters.FillStepAt | src/js/imageProcessing.js:249-252 | writing one pixel moves one byte from its original to its pixelated value |
| Filters.FillStep | src/js/imageProcessing.js:249-252 | writing one pixel of a block adds it to the pixelated region |
| Filters.NextBlockRow | src/js/imageProcessing.js:248 | a row of a block ends at the right edge of the image or of the block |
| Filters.NextBlock | src/js/imageProcessing.js:247 | a block ends at the bottom edge of the image or of the block |
| Filters.NextRowOfBlocks | src/js/imageProcessing.js:223 | a row of blocks ends past the right edge |
| Filters.NothingWritten | src/js/imageProcessing.js:219-222 | before the first block every byte is original |
| Filters.AllBlocks | src/js/imageProcessing.js:222-256 | past the bottom edge every byte holds its pixelated value |
| Filters.FillBlockRow | src/js/imageProcessing.js:248-253 | the inner writing loop pixelates one row of the block |
| Filters.FillBlock | src/js/imageProcessing.js:247-254 | the writing loops pixelate the whole block |
| Filters.PixelateRowOfBlocks | src/js/imageProcessing.js:223-255 | the x loop pixelates one row of blocks |
| Filters.ApplyPixelate | src/js/imageProcessing.js:214-257 | the array afterwards is Pixelated of its old contents: every in-bounds pixel of a block holds the block's rounded mean |
| Diffusion.FloydSteinbergKernel | dithering/js/dithering.js:64-69 | the four taps point forward and their weights add up to 1 |
| Diffusion.AtkinsonKernel | dithering/js/dithering.js:172-179 | the six taps point forward and their weights add up to 6/8 |
| Diffusion.JarvisJudiceNinkeKernel | dithering/js/dithering.js:212-230 | the twelve taps, weighted in 48ths, point forward and their weights add up to 1 |
| Diffusion.StuckiKernel | dithering/js/dithering.js:277-295 | the twelve taps, weighted in 42nds, point forward and their weights add up to 1 |
| Diffusion.ClosestFrom | dithering/js/colorDithering.js:64-70 | the scan from entry i on ends at or after the current best, inside the palette |
| Diffusion.ClosestFromNearest | dithering/js/colorDithering.js:64-70 | the scan from entry i on ends on a nearest entry, the first one on a tie |
| Diffusion.ClosestIndex | dithering/js/colorDithering.js:61-70 | the chosen entry is nearest to the sample and no earlier entry is as near (strict < keeps the lower index) |
| Diffusion.FindClosest | dithering/js/colorDithering.js:161-170 | the palette loop returns the entry ClosestIndex names |
| Diffusion.Deposit | dithering/js/dithering.js:199-203 | one tap keeps the buffer length |
| Diffusion.Spread | dithering/js/dithering.js:195-204 | the tap loop keeps the buffer length |
| Diffusion.Visit | dithering/js/dithering.js:183-204 | one step of the scan keeps the buffer length |
| Diffusion.Diffused | dithering/js/dithering.js:181-206 | the scan keeps the buffer length |
| Diffusion.DepositKeepsEarlier | dithering/js/dithering.js:199-203 | a forward tap never touches the current or an earlier sample |
| Diffusion.SpreadKeepsEarlier | dithering/js/dithering.js:195-204 | spreading along forward taps never touches the current or an earlier sample |
| Diffusion.ForwardIsLater | dithering/js/dithering.js:196-201 | an in-bounds forward tap names a later sample in row-major order |
| Diffusion.VisitKeepsEarlier | dithering/js/dithering.js:183-204 | a visit quantizes its own sample and leaves every earlier one alone |
| Diffusion.DiffusedPrefixQuantized | dithering/js/dithering.js:181-206 | after k visits the first k samples are quantizer levels |
| Diffusion.QuantizeIsLevel | dithering/js/dithering.js:187 | the threshold gives 0 or 255, the nearest-entry rule a palette entry |
| Diffusion.DiffusedQuantized | dithering/js/dithering.js:181-206 | after the pass every sample is a level: 0 or 255, or a palette entry |
| Diffusion.SpreadAt | dithering/js/dithering.js:195-204 | each sample receives the error times the weights of the in-bounds taps naming it |
| Diffusion.HandedIsLandedShare | dithering/js/dithering.js:195-204 | the shares handed to in-bounds neighbours add up to the error times their weights |
| Diffusion.SpreadSum | dithering/js/dithering.js:195-204 | spreading adds exactly the in-bounds shares to the image total: out-of-bounds shares are dropped |
| Diffusion.AllLandedWeight | dithering/js/dithering.js:200 | when every tap is in bounds the landed weight is the kernel's whole weight |
| Diffusion.VisitIsReplaceAndSpread | dithering/js/dithering.js:184-192 | a visit stores the quantized value, then spreads (old - new) / scale |
| Diffusion.VisitSum | dithering/js/dithering.js:183-204 | a visit removes its quantization error from the total and adds the in-bounds shares of the scaled error |
| Diffusion.InteriorVisitConserves | dithering/js/dithering.js:52-72 | away from the borders, at scale 1, a unit-weight kernel keeps the image total |
| Diffusion.InteriorAtkinsonLoses | dithering/js/dithering.js:166-207 | away from the borders, at scale 1, Atkinson drops a quarter of each error |
| Diffusion.DepositInPlace | dithering/js/dithering.js:199-203 | the body of the tap loop updates the buffer as Deposit |
| Diffusion.SpreadInPlace | dithering/js/dithering.js:195-204 | the tap loop updates the buffer as Spread |
| Diffusion.VisitInPlace | dithering/js/dithering.js:183-204 | one step updates the buffer as Visit |
| Diffusion.DiffusedStep | dithering/js/dithering.js:181-183 | visiting (x, y) is the step from y * width + x visits to one more |
| Diffusion.DiffuseRow | dithering/js/dithering.js:182-205 | the x loop visits one row |
| Diffusion.Diffuse | dithering/js/dithering.js:181-206 | the buffer afterwards is Diffused of its old contents over all samples |
| ByteDiffusion.Uint8Copy | dithering/js/dithering.js:11-14 | the copy holds bytes, the floor of every sample in [0, 256) |
| ByteDiffusion.ByteShare | dithering/js/dithering.js:40-43 | the clamped neighbour update is a byte |
| ByteDiffusion.ByteDeposit | dithering/js/dithering.js:38-44 | one tap keeps the length |
| ByteDiffusion.ByteSpread | dithering/js/dithering.js:34-45 | the tap loop keeps the length |
| ByteDiffusion.ByteVisit | dithering/js/dithering.js:19-45 | one step keeps the length |
| ByteDiffusion.ByteDiffused | dithering/js/dithering.js:17-47 | the scan keeps the length |
| ByteDiffusion.ByteDepositKeepsEarlier | dithering/js/dithering.js:38-44 | a forward tap never touches the current or an earlier sample |
| ByteDiffusion.ByteSpreadKeepsEarlier | dithering/js/dithering.js:34-45 | the tap loop never touches the current or an earlier sample |
| ByteDiffusion.ByteSpreadBytes | dithering/js/dithering.js:40-43 | neighbour updates never leave the byte range |
| ByteDiffusion.ByteDiffusedPrefix | dithering/js/dithering.js:17-47 | after k visits all samples are bytes and the first k are 0 or 255 |
| ByteDiffusion.ByteDiffusedBinary | dithering/js/dithering.js:9-50 | errorDiffusionDithering returns only 0 and 255 for any input and forward kernel |
| ByteDiffusion.ByteDepositInPlace | dithering/js/dithering.js:38-44 | the body of the tap loop updates the copy as ByteDeposit |
| ByteDiffusion.ByteSpreadInPlace | dithering/js/dithering.js:34-45 | the tap loop updates the copy as ByteSpread |
| ByteDiffusion.ByteVisitInPlace | dithering/js/dithering.js:19-45 | one step updates the copy as ByteVisit |
| ByteDiffusion.CopyToUint8 | dithering/js/dithering.js:11-14 | the copy loop fills a fresh array with Uint8Copy of the buffer |
| ByteDiffusion.ByteDiffuse | dithering/js/dithering.js:17-47 | the scan leaves ByteDiffused of the copy |
| ByteDiffusion.ErrorDiffusionDithering | dithering/js/dithering.js:9-50 | a fresh result holding the dithered copy; the caller's buffer is not modified |
| Dithering.FloydSteinbergDithering | dithering/js/dithering.js:52-72 | the buffer afterwards is the scan with the Floyd-Steinberg kernel and threshold 128 |
| Dithering.AtkinsonDithering | dithering/js/dithering.js:166-207 | the buffer afterwards is the scan with the Atkinson kernel and threshold 128 |
| Dithering.JarvisJudiceNinkeDithering | dithering/js/dithering.js:208-256 | the buffer afterwards is the scan with the JJN kernel and threshold 128 |
| Dithering.StuckiDithering | dithering/js/dithering.js:273-321 | the buffer afterwards is the scan with the Stucki kernel and threshold 128 |
| Dithering.GrayDiffusionBinary | dithering/js/dithering.js:52-321 | the four in-place diffusion dithers leave only 0 and 255, for any input and scale |
| Dithering.BurkesScale | dithering/js/dithering.js:328 | the clamped scale lies in [0.1, 2.0] and is the scale when it already does |
| Dithering.BurkesKernel | dithering/js/dithering.js:330-338 | the seven taps point forward and their weights add up to the clamped scale |
| Dithering.BurkesWeights | dithering/js/dithering.js:330-338 | the thirty-seconds times a add up to a |
| Dithering.BurkesDithering | dithering/js/dithering.js:327-341 | returns a fresh errorDiffusionDithering result and leaves the buffer alone |
| Dithering.BurkesBinary | dithering/js/dithering.js:327-341 | the Burkes result holds only 0 and 255 |
| Dithering.SierraDithering | dithering/js/dithering.js:343-347 | the buffer is unchanged |
| Dithering.RandomDithered | dithering/js/dithering.js:155-164 | the pass keeps the length |
| Dithering.RandomThreshold | dithering/js/dithering.js:159-161 | every sample is 0 or 255, and 0 exactly when it is below draw * 255 * scale |
| Dithering.RandomMonotone | dithering/js/dithering.js:155-164 | with the same draws a lighter input never gives a darker output |
| Dithering.RandomBrightIsWhite | dithering/js/dithering.js:159-161 | for draws in [0, 1) a sample of at least 255 * scale is white |
| Dithering.RandomDithering | dithering/js/dithering.js:155-164 | the buffer afterwards is RandomDithered with one draw per sample in row-major order |
| Dithering.OrderedDithered | dithering/js/dithering.js:74-102 | the pass keeps the length |
| Dithering.OrderedMonotone | dithering/js/dithering.js:84-101 | with the same matrix a lighter input never gives a darker output |
| Dithering.ThresholdBounds | dithering/js/dithering.js:90-96 | thresholds lie in [0, 255 / scale), and are 0 exactly on the cell holding 0 |
| Dithering.FractionBelowOne | dithering/js/dithering.js:91-96 | an entry below N * N gives a threshold below 255 / scale, 0 exactly for entry 0 |
| Dithering.OrderedBlack | dithering/js/dithering.js:90-99 | a black sample turns white exactly on the cells whose matrix entry is 0 |
| Dithering.OrderedWhite | dithering/js/dithering.js:90-99 | with scale at least 1 a white sample stays white |
| Dithering.BayerDithering | dithering/js/dithering.js:74-102 | the buffer afterwards is OrderedDithered with the matrix of the given side |
| Dithering.OrderedRow | dithering/js/dithering.js:85-100 | one row of the buffer is thresholded, the rows after it are untouched |
| Dithering.OrderedPixel | dithering/js/dithering.js:90-99 | the new sample is 0 below the scaled matrix threshold of its position and 255 otherwise |
| Bayer.Log2FloorBounds | dithering/js/dithering.js:113 | 2^floor(log2 n) <= n < 2^(floor(log2 n) + 1) |
| Bayer.Log2OfPow2 | dithering/js/dithering.js:113 | floor(log2 2^k) = k |
| Bayer.BitAnd | dithering/js/dithering.js:111 | the & of two non-negative numbers is at most either of them |
| Bayer.PowerOfTwoTest | dithering/js/dithering.js:111 | size & (size - 1) is 0 exactly when the positive size is a power of two |
| Bayer.PowerOfTwoIff | dithering/js/dithering.js:111-113 | a positive size is a power of two exactly when it equals 2^floor(log2 size), so the rewrite keeps powers of two |
| Bayer.Pow2IsPowerOfTwo | dithering/js/dithering.js:113 | the rewritten size 2^k is a power of two |
| Bayer.NormalizedSize | dithering/js/dithering.js:111-114 | the side built is the largest power of two not above the size, the size itself when it is one |
| Bayer.BayerBase | dithering/js/dithering.js:116-121 | the 2 x 2 matrix is [[0, 2], [3, 1]] |
| Bayer.BayerRange | dithering/js/dithering.js:109-153 | every entry of the N x N matrix lies in [0, N * N) |
| Bayer.BayerInjective | dithering/js/dithering.js:109-153 | no two cells share an entry |
| Bayer.BayerPosition | dithering/js/dithering.js:109-153 | every value in [0, N * N) occurs at some cell, so the matrix is a permutation |
| Bayer.SetQuadrants | dithering/js/dithering.js:136-148 | one step writes 4M, 4M + 2, 4M + 3 and 4M + 1 into the four quadrants and nothing else |
| Bayer.FillFromHalf | dithering/js/dithering.js:125-152 | the quadrant loops turn the half-size matrix into the full one |
| Bayer.CreateBayerMatrix | dithering/js/dithering.js:109-153 | a fresh matrix of side NormalizedSize(size) holding the Bayer entries |
| Channels.Channel | dithering/js/colorDithering.js:18-25 | buffer c holds byte c of every pixel, in pixel order |
| Channels.Merged | dithering/js/colorDithering.js:33-40 | the copy back never writes alpha |
| Channels.MergedByte | dithering/js/colorDithering.js:36-38 | byte c of pixel p becomes sample p of buffer c, stored |
| Channels.ChannelOfMerged | dithering/js/colorDithering.js:18-40 | splitting after the copy back gives each buffer's stored bytes |
| Channels.MergedChannelByte | dithering/js/colorDithering.js:33-40 | copying back an untouched buffer restores each byte |
| Channels.MergeOfChannels | dithering/js/colorDithering.js:18-40 | splitting and copying back untouched buffers restores the image |
| Channels.ExtractChannels | dithering/js/colorDithering.js:13-25 | three fresh distinct buffers holding R, G and B |
| Channels.WriteBack | dithering/js/colorDithering.js:33-40 | the image afterwards is Merged of its old contents and the three buffers |
| Channels.StorePixel | dithering/js/colorDithering.js:35-38 | one pixel receives its three stored samples, extending the copied-back prefix by four bytes |
| ColorDithering.Palette | dithering/js/colorDithering.js:110-113 | the palette has levels entries |
| ColorDithering.PaletteRange | dithering/js/colorDithering.js:110-113 | the palette starts at 0, ends at 255 and holds bytes only |
| ColorDithering.PaletteNondecreasing | dithering/js/colorDithering.js:110-113 | later entries are never darker |
| ColorDithering.PaletteIncreasing | dithering/js/colorDithering.js:110-113 | with at most 256 levels consecutive entries are strictly increasing |
| ColorDithering.PaletteOfFour | dithering/js/colorDithering.js:110-113 | four levels give [0, 85, 170, 255] |
| ColorDithering.InPaletteOfFour | dithering/js/colorDithering.js:110-113 | an entry of the four-level palette is one of 0, 85, 170, 255 |
| ColorDithering.BuildPalette | dithering/js/colorDithering.js:110-113 | the push loop builds Palette(levels) |
| ColorDithering.TwoLevelNearest | dithering/js/colorDithering.js:53-70 | with [0, 255] the nearest entry is 255 exactly above 127.5 |
| ColorDithering.ChannelDiffused | dithering/js/colorDithering.js:154-196 | the pass keeps the buffer length |
| ColorDithering.ColorDiffused | dithering/js/colorDithering.js:104-144 | the colour pass never writes alpha |
| ColorDithering.ChannelLevel | dithering/js/colorDithering.js:154-196 | after the pass every sample is a palette entry |
| ColorDithering.ColorDiffusedLevels | dithering/js/colorDithering.js:104-144 | every R, G and B byte of the result is a palette entry, for any image and scale |
| ColorDithering.ColorDiffusedInPalette | dithering/js/colorDithering.js:104-144 | every non-alpha byte of the result is a palette entry |
| ColorDithering.ColorBinary | dithering/js/colorDithering.js:7-41 | colorFloydSteinbergDithering leaves every R, G and B byte at 0 or 255 |
| ColorDithering.ColorByte | dithering/js/colorDithering.js:131-143 | byte c of pixel p is sample p of the dithered channel c, stored |
| ColorDithering.ColorChannelsIndependent | dithering/js/colorDithering.js:121-133 | each output channel depends only on the same input channel |
| ColorDithering.DitherChannel | dithering/js/colorDithering.js:50-96 | the buffer afterwards is the Floyd-Steinberg scan with the palette [0, 255] |
| ColorDithering.DitherChannelWithPalette | dithering/js/colorDithering.js:154-196 | the buffer afterwards is the Floyd-Steinberg scan with the given palette |
| ColorDithering.ColorFloydSteinbergDithering | dithering/js/colorDithering.js:7-41 | the image afterwards is ColorDiffused with [0, 255] |
| ColorDithering.ColorFloydSteinbergWithPalette | dithering/js/colorDithering.js:104-144 | the image afterwards is ColorDiffused with Palette(levels) |
| ColorRandom.ChannelDraws | dithering/js/colorRandomDithering.js:28-30 | channel c consumes draws c * n to c * n + n - 1, in pixel order |
| ColorRandom.RandomChannel | dithering/js/colorRandomDithering.js:50-66 | the channel pass keeps the length |
| ColorRandom.ColorRandomDithered | dithering/js/colorRandomDithering.js:7-41 | colorRandomDithering never writes alpha |
| ColorRandom.RandomChannelAt | dithering/js/colorRandomDithering.js:54-64 | sample p of channel c is 0 exactly when byte c of pixel p is below its own draw * 255 * scale, else 255 |
| ColorRandom.ColorRandomThreshold | dithering/js/colorRandomDithering.js:7-41 | byte c of pixel p is 0 exactly when it was below its draw * 255 * scale, else 255 |
| ColorRandom.ColorRandomDithering | dithering/js/colorRandomDithering.js:7-41 | the image afterwards is ColorRandomDithered |
| ColorRandom.PaletteIndexInRange | dithering/js/colorRandomDithering.js:134-135 | for a threshold of at least 0 the clamped index is a valid position |
| ColorRandom.PaletteIndexBands | dithering/js/colorRandomDithering.js:134-135 | entry k is chosen exactly when t / 255 * length lies in [k, k + 1), the last entry taking everything above |
| ColorRandom.RandomPaletteDithered | dithering/js/colorRandomDithering.js:124-141 | the channel pass keeps the length |
| ColorRandom.PaletteChannel | dithering/js/colorRandomDithering.js:101-103 | each channel pass keeps the length |
| ColorRandom.ColorRandomPaletteDithered | dithering/js/colorRandomDithering.js:74-114 | colorRandomWithPalette never writes alpha |
| ColorRandom.PaletteChannelAt | dithering/js/colorRandomDithering.js:124-139 | sample p is the palette entry its own draw selects |
| ColorRandom.ColorRandomPaletteByte | dithering/js/colorRandomDithering.js:74-114 | byte c of pixel p is the palette entry draw c * n + p selects, a palette member |
| ColorRandom.ColorRandomPaletteInPalette | dithering/js/colorRandomDithering.js:74-114 | every non-alpha byte of the result is a palette entry |
| ColorRandom.ColorRandomPaletteIgnoresInput | dithering/js/colorRandomDithering.js:124-139 | the output does not depend on the input samples |
| ColorRandom.DitherChannelRandomWithPalette | dithering/js/colorRandomDithering.js:124-141 | the buffer afterwards is RandomPaletteDithered |
| ColorRandom.ColorRandomWithPalette | dithering/js/colorRandomDithering.js:74-114 | the image afterwards is ColorRandomPaletteDithered with Palette(levels) |
| Dispatch.Name | src/js/imageProcessing.js:113-165 | every known algorithm has a non-empty name |
| Dispatch.ParseOfName | src/js/imageProcessing.js:113-165 | every known algorithm is selected by its own name |
| Dispatch.NameOfParse | src/js/imageProcessing.js:113-165 | a name that selects a known algorithm is that algorithm's name |
| Dispatch.Grayed | src/js/imageProcessing.js:135-138 | the grayscale conversion never writes alpha |
| Dispatch.GrayedIsGray | src/js/imageProcessing.js:135-138 | afterwards R = G = B in every pixel, all bytes |
| Dispatch.GrayResult | src/js/imageProcessing.js:149-165 | the chosen algorithm keeps the buffer length |
| Dispatch.Dithered | src/js/imageProcessing.js:107-174 | applyDithering never writes alpha |
| Dispatch.NoneIsIdentity | src/js/imageProcessing.js:113-115 | "none" changes nothing |
| Dispatch.BroadcastIsGray | src/js/imageProcessing.js:168-173 | copying one buffer into R, G and B gives a gray image |
| Dispatch.GrayPathIsGray | src/js/imageProcessing.js:134-173 | on the grayscale path every pixel ends with R = G = B |
| Dispatch.GrayPathBinary | src/js/imageProcessing.js:134-173 | the grayscale dithers other than Burkes and Sierra leave R, G and B at 0 or 255 |
| Dispatch.GrayResultBinary | src/js/imageProcessing.js:149-160 | the binary grayscale dithers leave every sample of the buffer at 0 or 255 |
| Dispatch.GrayMergedBinary | src/js/imageProcessing.js:141-174 | after the copy back of a binary grayscale dither every R, G and B byte is 0 or 255 |
| Dispatch.GrayPathResult | src/js/imageProcessing.js:134-173 | the grayscale path is convert, take the red buffer, run the algorithm, copy back |
| Dispatch.BroadcastOfGray | src/js/imageProcessing.js:168-173 | copying the red buffer of a gray image back restores it |
| Dispatch.PassThroughOnlyGrays | src/js/imageProcessing.js:161-165 | "burkes", "sierra" and unknown names only convert the image to gray |
| Dispatch.PassThroughBuffer | src/js/imageProcessing.js:161-165 | burkes, sierra and unknown names leave the scalar buffer as it was |
| Dispatch.PaletteVariantsFourLevels | src/js/imageProcessing.js:121-131 | the palette variants, called with 4 levels, leave every R, G and B byte in {0, 85, 170, 255} |
| Dispatch.GrayConvert | src/js/imageProcessing.js:135-138 | the conversion loop leaves Grayed of the old image |
| Dispatch.GrayKernel | src/js/imageProcessing.js:149-160 | each error-diffusion name picks a kernel whose taps all point forward and whose weights sum to more than 0 and at most 1 |
| Dispatch.RunGray | src/js/imageProcessing.js:149-165 | after the algorithm switch the buffer is GrayResult of its old contents |
| Dispatch.RunGrayDiffusion | src/js/imageProcessing.js:149-160 | the four error-diffusion branches leave GrayResult of the old buffer |
| Dispatch.GrayBuffer | src/js/imageProcessing.js:141-147 | a fresh buffer holding the red byte of every pixel |
| Dispatch.DitherGray | src/js/imageProcessing.js:141-173 | fill, run and copy back leave the merged algorithm result |
| Dispatch.ApplyDithering | src/js/imageProcessing.js:107-174 | the image afterwards is Dithered of its old contents for the parsed name |
| Border.TrimStart | dithering/js/border.js:192 | parseInt skips a leading run of white space and no more |
| Border.DigitRun | dithering/js/border.js:192 | parseInt reads the longest leading run of hex digits |
| Border.ToInt32 | dithering/js/border.js:193-195 | the bitwise operators see a 32-bit value, the number itself below 2^31 |
| Border.LowByte | dithering/js/border.js:193-195 | & 255 gives a byte |
| Border.StripHash | dithering/js/border.js:189 | one leading "#" is removed, nothing else |
| Border.HexToRgb | dithering/js/border.js:187-198 | every component is a byte, whatever the text |
| Border.ParseSixDigits | dithering/js/border.js:192 | parseInt of six hex digits is their value |
| Border.HexToRgbPairs | dithering/js/border.js:187-198 | "#RRGGBB" gives the three two-digit pairs as red, green and blue |
| Border.HexRoundTrip | dithering/js/border.js:187-198 | reading back the "#rrggbb" text of a colour gives the colour |
| Border.CheckForTransparency | dithering/js/border.js:205-215 | true exactly when some alpha byte is below 255 |
| Border.Recolored | dithering/js/border.js:264-270 | painting a set of pixels never writes alpha |
| Border.RecoloredMore | dithering/js/border.js:264-270 | painting one more pixel extends the painted set |
| Border.RecoloredTwice | dithering/js/border.js:264-270 | painting the same pixels twice is painting them once |
| Border.StorePixel | dithering/js/border.js:86-89 | three stores at a pixel inside the image paint it; a store outside is dropped |
| Border.Members | dithering/js/border.js:235 | the Set holds exactly the pixels added to it |
| Border.PaintAll | dithering/js/border.js:264-270 | the last loop paints exactly the collected pixels |
| Frame.StripInFrame | dithering/js/border.js:103-118 | a store of a side strip lands inside the frame |
| Frame.PaintSpan | dithering/js/border.js:85-90 | one row loop paints its columns and only frame pixels |
| Frame.ApplyBorderToImageData | dithering/js/border.js:78-120 | the image afterwards has exactly the frame pixels (row or column within thickness of an edge) painted |
| Frame.InnerCovered | dithering/js/border.js:143-179 | the two inner loops reach every pixel of the inner frame |
| Frame.PaintInnerRows | dithering/js/border.js:143-160 | the first loop paints the inner top rows and their mirror rows across the full width |
| Frame.PaintInnerStrips | dithering/js/border.js:163-179 | the second loop paints the left and right inner strips of the rows between |
| Frame.ApplyInnerBorderToImageData | dithering/js/border.js:131-180 | the image afterwards has exactly the inner frame pixels painted |
| Frame.InnerFrameRing | dithering/js/border.js:131-180 | when the strips fit in a row, the inner frame is the ring offset .. offset + thickness - 1 from the edges |
| Frame.InnerFrameAtZeroOffset | dithering/js/border.js:131-180 | with offset 0 the inner frame is the outer frame |
| Frame.SecondFrameMeetsFirst | dithering/js/border.js:43-66 | the second frame overlaps the first exactly in its full rows within the first frame's side columns |
| Silhouette.ChebyshevAtMostManhattan | dithering/js/border.js:318 | the taxicab distance is never below the chessboard distance |
| Silhouette.InWindow | dithering/js/border.js:245-251 | every cell of the clipped window is within Chebyshev distance thickness |
| Silhouette.WindowCell | dithering/js/border.js:245-251 | every pixel within that distance lies in the clipped window |
| Silhouette.MarkRow | dithering/js/border.js:251-256 | the innermost loop adds every visible pixel of a window row |
| Silhouette.MarkWindow | dithering/js/border.js:243-259 | the window loops add every visible pixel within reach of the transparent one |
| Silhouette.WindowCovered | dithering/js/border.js:250-258 | a fully scanned window holds every pixel the transparent one seeds |
| Silhouette.CollectRow | dithering/js/border.js:239-260 | one row of the first pass adds the pixels its transparent pixels seed |
| Silhouette.CollectBorder | dithering/js/border.js:235-261 | the Set holds exactly the visible pixels within Chebyshev distance thickness of a fully transparent pixel |
| Silhouette.ApplyBorderAroundTransparentAreas | dithering/js/border.js:225-271 | the image afterwards has exactly those pixels painted |
| Silhouette.WindowDistance | dithering/js/border.js:318 | the distance computed is the taxicab distance between the two pixels |
| Silhouette.MeasureCell | dithering/js/border.js:312-326 | a visible cell gets a distance no larger than this one, and distances only go down |
| Silhouette.MeasureRow | dithering/js/border.js:311-328 | the innermost loop records every visible cell of a window row |
| Silhouette.MeasureWindow | dithering/js/border.js:302-330 | the window loops record every pixel within reach of the transparent one |
| Silhouette.MeasureImageRow | dithering/js/border.js:298-331 | one row of the first pass records its transparent pixels' windows |
| Silhouette.MeasureImage | dithering/js/border.js:294-332 | each recorded distance is the smallest taxicab distance to a seeding transparent pixel |
| Silhouette.SelectRing | dithering/js/border.js:335-340 | the second pass keeps exactly the entries with offset < d <= offset + thickness |
| Silhouette.RingIsInnerSilhouette | dithering/js/border.js:294-340 | the entries kept are exactly the inner silhouette |
| Silhouette.ApplyInnerBorderAroundTransparentAreas | dithering/js/border.js:282-350 | the image afterwards has exactly the inner silhouette painted |
| Silhouette.SilhouettesReadAlphaOnly | dithering/js/border.js:243-254 | both silhouettes depend on the alpha bytes alone |
| Silhouette.NoClearPixelNoSilhouette | dithering/js/border.js:243 | without a fully transparent pixel both silhouettes are empty |
| Silhouette.InnerSilhouetteWithinSilhouette | dithering/js/border.js:304-318 | the taxicab ring lies inside the square silhouette of the same reach |
| Silhouette.RingsDisjoint | dithering/js/border.js:337 | rings at consecutive offsets share no pixel |
| ApplyBorder.Bordered | dithering/js/border.js:16-68 | applyBorder never writes alpha |
| ApplyBorder.ApplyBorder | dithering/js/border.js:16-68 | the image afterwards is Bordered of its old contents, transparency decided once, on the incoming image |
| ApplyBorder.BorderPixelsReadAlphaOnly | dithering/js/border.js:27-66 | which pixels the borders take depends on alpha alone |
| ApplyBorder.BorderedByte | dithering/js/border.js:30-67 | each colour byte: second colour where the second border reaches, else first colour where the first does, else unchanged; alpha unchanged |
| ApplyBorder.ClearPixelsKept | dithering/js/border.js:243-254 | a fully transparent pixel is never recoloured |
| ApplyBorder.PartialTransparencyGetsNoBorder | dithering/js/border.js:27-67 | when some alpha byte is below 255 and none is 0, neither the first nor the second border changes any byte |
| ApplyBorder.OpaqueImageGetsFrame | dithering/js/border.js:38-40 | a fully opaque image gets the rectangular frame |
| ApplyBorder.SecondSilhouetteOutsideFirstRing | dithering/js/border.js:43-56 | on the transparent path the second border never takes a pixel whose taxicab distance to a transparent one is at most thickness |
| UndoHistory.SavedKeepsRecent | src/js/app.js:512-521 | saving keeps at most 20 snapshots, the new one on top and the others the most recent in order, and empties redo |
| UndoHistory.MovesKeepBound | src/js/app.js:526-551 | undo, redo and clearing keep at most 20 snapshots in the two stacks |
| UndoHistory.ButtonsMatchActions | src/js/app.js:559-575 | each button is enabled exactly when its action would change something |
| UndoHistory.UndoThenRedo | src/js/app.js:526-551 | when undo is enabled, undo followed by redo restores both stacks |
| UndoHistory.RedoThenUndo | src/js/app.js:526-551 | with a non-empty history, a redo followed by undo restores both stacks |
| UndoHistory.UndoShowsPrevious | src/js/app.js:529-534 | undo shows the snapshot below the old top and enables redo |
| UndoHistory.History.constructor | src/js/app.js:89-91 | both stacks start empty |
| UndoHistory.History.Save | src/js/app.js:505-524 | the stacks afterwards are Saved of the old ones |
| UndoHistory.History.Undo | src/js/app.js:526-538 | the stacks afterwards are Undone of the old ones; returns the snapshot to show |
| UndoHistory.History.Redo | src/js/app.js:540-551 | the stacks afterwards are Redone of the old ones; returns the snapshot to show |
| UndoHistory.History.Clear | src/js/app.js:333-334 | both stacks are emptied |
| UndoHistory.History.ButtonStates | src/js/app.js:559-575 | undo enabled exactly with more than one snapshot, redo exactly with a non-empty redo stack |
| Pipeline.Adjusted | src/js/app.js:429-432 | the four tone stages never write alpha |
| Pipeline.Noised | src/js/app.js:435-463 | the filter stage never writes alpha |
| Pipeline.Inverted | src/js/app.js:466-468 | the inversion stage never writes alpha |
| Pipeline.DitherStage | src/js/app.js:471-481 | the dithering stage never writes alpha |
| Pipeline.BorderStage | src/js/app.js:484-493 | the border stage never writes alpha |
| Pipeline.Filtered | src/js/app.js:418-493 | the rendered image keeps every alpha byte of the original |
| Pipeline.RunAdjustments | src/js/app.js:429-432 | contrast, midtone, highlights, luminance in that order |
| Pipeline.RunNoiseFilter | src/js/app.js:435-463 | the filter chosen by name, only at positive intensity |
| Pipeline.RunDithering | src/js/app.js:471-481 | dithering unless "none", the matrix size passed only for "bayer" |
| Pipeline.ApplyFilters | src/js/app.js:418-502 | a fresh copy of the original rendered by Filtered, pushed onto the history unless replaying |
| Pipeline.NeutralSettingsKeepImage | src/js/app.js:429-493 | the neutral controls render the original image |
| Pipeline.BorderDrawnLast | src/js/app.js:483-493 | every border pixel ends in the border colour whatever the earlier stages did |
| Pipeline.BinaryDitherLeavesBlackAndWhite | src/js/app.js:470-493 | a two-level grayscale dither without border leaves R, G and B at 0 or 255 |

## Left out

- The DOM, event wiring, canvas, zoom and pan, file loading, download and
  presets of app.js: user interface and browser I/O. applyHistoryState only
  puts the snapshot on the canvas and sets the controls; the model returns
  the snapshot instead.
- Math.random: its draws are a parameter (a sequence of reals, consumed in
  the order the source calls it); nothing is claimed about their
  distribution.
- JavaScript numbers are modelled as exact reals: IEEE-754 rounding, NaN and
  infinities are not modelled. Divisions by the scale require a non-zero
  scale, the palettes at least 2 levels.
- Tone.Midtone: the lookup table computed with Math.pow (a real exponent) is
  a parameter; the model checks only that it has 256 entries.
- Border.ParseHex: parseInt's rounding of values beyond 2^53 to the nearest
  double is not modelled; the exact value is used.
- Border.Members: JavaScript Set and Map iteration is modelled on a sequence
  of keys in insertion order, which is the order the source iterates.
- Dithering.BayerDithering: requires a power-of-two matrix size. The source
  rounds other sizes down when it builds the matrix, but indexes it with
  the unrounded size, reading cells that do not exist.
- Bayer.BitAnd: models `&` on non-negative operands only; JavaScript first
  converts both operands with ToInt32, which changes sizes of 2^31 and
  above; the model's test on such sizes is the mathematical one.
- Bayer.CreateBayerMatrix: requires a size of at least 2; size 1 recurses
  without end in the source.
- Diffusion.InteriorVisitConserves: stated for scale 1 and pixels whose taps
  all land; other scales scale the handed-on error (VisitSum states the
  general case).
- Pipeline.ApplyFilters: the values read from the controls (parseFloat,
  parseInt, the contrast and midtone division by 100) are given as a
  record of already-parsed numbers; only contrast / 100 is computed.
