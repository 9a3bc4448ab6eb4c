# Background removal pipeline — Dafny model

This project models the processing core of the background-vanisher web
application: `src/utils/imageProcessor.ts`. That file does three things,
and each is a module here:

- **ImageResize** (`resize.dfy`): `resizeImageIfNeeded` fits the image into a
  working canvas whose sides are at most 1024 pixels. An image within the
  bound keeps its size and the function returns `false`. Otherwise the
  strictly longer side becomes 1024, the height when the sides are equal. The
  other side becomes `Math.round(side * 1024 / longer)`, and the function
  returns `true`. For non-negative integers, `Math.round(a / b)` is modelled
  exactly as `(2a + b) / (2b)` (`RoundDiv`). The canvas is a class whose
  `width`/`height` fields the method sets.
- **AlphaMask** (`alpha_mask.dfy`): the compositing loop. For each mask
  index `i` it stores `Math.round(mask[i] * 255)` into byte `4i + 3` of the
  RGBA buffer that `getImageData` returns. That buffer is a
  `Uint8ClampedArray`, so a store past its end is ignored and a stored value
  is clamped to 0..255. The buffer is an `array<int>` that `ApplyMask`
  updates in place. Its effect is specified by `MaskedPixels`, the same
  stores written as a function on sequences.
- **BackgroundRemoval** (`remove_background.dfy`): `removeBackground`. It
  covers the order of the steps, the progress values passed to
  `onProgress` (as percentages 10, 30, 50, 80, 100), the guards on the
  segmenter's result, the choice of mask, and the error each failing step
  raises. `Run` is the specification as a function. `RemoveBackground` is
  the step-by-step method: it creates both canvases, calls
  `ResizeImageIfNeeded` and runs `ApplyMask` on a pixel array, and it is
  proved equal to `Run`.
- **Wrappers** (`wrappers.dfy`): `Option` and `Result`.

The results of foreign code are inputs, collected in `Environment`. That
covers the model loader, the segmenter, the two `getContext` calls, the bytes
the browser draws, and the PNG encoder. Mask scores are `real` numbers, so
rounding is exact.

Notes on the code as modelled:
- The mask is chosen with `result.find`. That finds the first segment labelled
  `'person'` or scored above 0.5. It is not simply `result[0]`.
- The score is used as is. It is not inverted.
- The mask's length is never compared with the pixel count. A short mask
  leaves the remaining alphas as drawn. A long mask's extra stores fall past
  the end of the buffer and are ignored.
- A working canvas with a zero side occurs for an image with a zero side, or
  for one so elongated that its scaled short side rounds to 0. It passes every
  guard up to the output context. Then `drawImage` from it throws a
  `DOMException`, rethrown after progress 0.8 (`DrawFailed`). Before that,
  `toDataURL` at line 73 gives `"data:,"` for such a canvas, so the segmenter
  receives an empty image. The run reaches `DrawFailed` only when the
  segmenter still returns a result for it; if it rejects, the run ends in
  `SegmenterFailed` after 0.5.
- A failed blob encoding rejects after progress 1 has been reported. So the
  "no further progress after a failure" rule gives a strict prefix of the
  milestones for every error except that one.

## Model

| member | source | states |
|---|---|---|
| ImageResize.RoundDiv | src/utils/imageProcessor.ts:23-26 | `Math.round(a / b)`: the result lies within half a unit of a / b, with the upper half included (ties round up) |
| ImageResize.RoundDivUnique | src/utils/imageProcessor.ts:23-26 | the rounded value is the only integer with that property |
| ImageResize.Fit | src/utils/imageProcessor.ts:18-39 | the working dimensions: both sides are ≤ 1024 for every natural size |
| ImageResize.FitUnchangedWhenSmall | src/utils/imageProcessor.ts:36-39 | both sides ≤ 1024: no resize, and the dimensions are unchanged |
| ImageResize.FitLongSide | src/utils/imageProcessor.ts:21-29 | above the bound, a strictly wider image gets width 1024; any other image, a square included, gets height 1024 |
| ImageResize.ScaledShortSide | src/utils/imageProcessor.ts:22-28 | the scaled short side is at most its original value and at most 1024 |
| ImageResize.FitNoUpscaling | src/utils/imageProcessor.ts:18-39 | no working side exceeds its natural side |
| ImageResize.FitLongerSideCapped | src/utils/imageProcessor.ts:18-39 | the longer working side equals min(longer natural side, 1024) |
| ImageResize.FitProportional | src/utils/imageProcessor.ts:22-28 | the scaled short side is within ½ pixel of short·1024/long |
| ImageResize.FitShortSideZero | src/utils/imageProcessor.ts:22-28 | the scaled short side is 0 exactly when short·1024/long < ½ |
| ImageResize.FitHasZeroSide | src/utils/imageProcessor.ts:18-39 | the working canvas has a zero side exactly when the image has one, or when it is resized and short·1024/long < ½ |
| ImageResize.StripCollapses | src/utils/imageProcessor.ts:22-24 | a 3000×1 image becomes 1024×0 |
| ImageResize.FitExamples | src/utils/imageProcessor.ts:18-39 | 2000×1000 → 1024×512; 500×500 is unchanged; 2000×2000 → 1024×1024 |
| ImageResize.Canvas.constructor | src/utils/imageProcessor.ts:62 | `document.createElement('canvas')` yields a 300×150 canvas |
| ImageResize.ResizeImageIfNeeded | src/utils/imageProcessor.ts:13-40 | the return value is `NeedsResize` (the line 21 test: either side exceeds 1024); the canvas gets the fitted dimensions |
| AlphaMask.Round | src/utils/imageProcessor.ts:114 | `Math.round`: the result is within half a unit of x, with halves rounded towards +∞ |
| AlphaMask.Clamp | src/utils/imageProcessor.ts:109-115 | a value stored into the `Uint8ClampedArray` becomes a byte: unchanged within 0..255, 0 below, 255 above |
| AlphaMask.Alpha | src/utils/imageProcessor.ts:114-115 | the stored alpha is a byte; for a score in [0,1] it is the nearest integer to score·255; score ≥ 1 gives 255 (opaque) and score ≤ 0 gives 0 (transparent) |
| AlphaMask.AlphaMonotone | src/utils/imageProcessor.ts:114 | a higher score never gives a lower alpha |
| AlphaMask.Store | src/utils/imageProcessor.ts:115 | a typed-array store changes at most the one index, which must be inside the array, to the clamped value; the length is kept |
| AlphaMask.ApplyPrefix | src/utils/imageProcessor.ts:112-116 | the loop never changes the buffer's length |
| AlphaMask.MaskedPixels | src/utils/imageProcessor.ts:112-116 | the whole loop keeps the buffer's length |
| AlphaMask.ApplyPrefixAt | src/utils/imageProcessor.ts:112-116 | after n iterations, byte k is Alpha(mask[k/4]) if it is the alpha byte of one of the first n pixels, and unchanged otherwise |
| AlphaMask.MaskedPixelsAt | src/utils/imageProcessor.ts:112-116 | the same, for the whole loop |
| AlphaMask.MaskKeepsUnwritten | src/utils/imageProcessor.ts:109-116 | RGB bytes keep their values, and so do alpha bytes of pixels past the end of the mask |
| AlphaMask.MaskFullCoverage | src/utils/imageProcessor.ts:106-116 | with one score per pixel, every colour byte is kept and every alpha is Alpha(score of that pixel) |
| AlphaMask.MaskIdempotent | src/utils/imageProcessor.ts:112-116 | applying the same mask again leaves the buffer unchanged |
| AlphaMask.MaskKeepsBytes | src/utils/imageProcessor.ts:109-115 | a buffer of bytes in 0..255 stays one |
| AlphaMask.ApplyMask | src/utils/imageProcessor.ts:112-116 | the in-place loop leaves the array equal to MaskedPixels of its old contents |
| BackgroundRemoval.IsForeground | src/utils/imageProcessor.ts:86-87 | a segment labelled 'person' qualifies; a segment without a score qualifies exactly when labelled 'person' |
| BackgroundRemoval.FindForeground | src/utils/imageProcessor.ts:85-88 | `result.find`: the index found is that of a 'person' or >0.5-score segment, and no earlier segment qualifies; if none is found, no segment qualifies |
| BackgroundRemoval.SelectMask | src/utils/imageProcessor.ts:85-88 | `find(...)?.mask`: the mask is that of the first qualifying segment (absent if it has none), and no mask when no segment qualifies |
| BackgroundRemoval.SelectMaskNone | src/utils/imageProcessor.ts:85-92 | no mask exactly when no segment qualifies or the first qualifying one has no mask |
| BackgroundRemoval.SelectionSkipsBackground | src/utils/imageProcessor.ts:85-88 | a leading low-score 'sky' segment is passed over for the 'person' behind it |
| BackgroundRemoval.Run | src/utils/imageProcessor.ts:45-138 | the progress trace is a non-empty prefix of 10, 30, 50, 80, 100; on success it is the full sequence |
| BackgroundRemoval.ProgressIncreasing | src/utils/imageProcessor.ts:50-120 | reported progress is strictly increasing |
| BackgroundRemoval.ErrorStopsProgress | src/utils/imageProcessor.ts:49-138 | every error except the blob failure leaves a strict prefix without 100; the blob failure is the only error raised after 100 |
| BackgroundRemoval.DoneOnlyAfterMask | src/utils/imageProcessor.ts:90-120 | 100 is reported exactly when every guard passed and the canvas has non-zero sides, so the mask was applied; then the whole sequence has been reported |
| BackgroundRemoval.InvalidResultIff | src/utils/imageProcessor.ts:76-82 | 'Invalid segmentation result' exactly when the earlier steps succeed and the result fails `IsNonEmptyArray` (the line 80 guard: not an array, or empty); it is raised after 80, and the output canvas is never reached |
| BackgroundRemoval.NoSuitableMaskIff | src/utils/imageProcessor.ts:80-92 | 'No suitable mask found' exactly when the result is a non-empty array with no qualifying segment, or whose first qualifying segment has no mask |
| BackgroundRemoval.DrawFailedIff | src/utils/imageProcessor.ts:95-106 | drawing into the output canvas fails exactly when every earlier guard passed and the working canvas has a zero side; progress stops at 80 |
| BackgroundRemoval.CollapsedImageFails | src/utils/imageProcessor.ts:18-106 | once the draw is reached, it fails exactly for an image with a zero side, or one whose scaled short side rounds to 0 in either orientation; progress stops at 80 |
| BackgroundRemoval.SuccessContents | src/utils/imageProcessor.ts:94-135 | on success the blob has the fitted dimensions, both non-zero and ≤ 1024, and the buffer passed to `putImageData` is the drawn pixels with the selected mask's alphas; given the browser's 4·w·h drawn bytes, that buffer holds 4·w·h bytes in 0..255, and with one score per pixel each pixel in it keeps its RGB and takes its alpha from its own score |
| BackgroundRemoval.RemoveBackground | src/utils/imageProcessor.ts:45-140 | the step-by-step pipeline (canvases, resize, in-place mask loop, progress calls) produces exactly Run's report |

## Left out

- The transformers.js `pipeline` and segmenter calls and the global `env` settings (src/utils/imageProcessor.ts:1-5, 53-57, 76). They are a foreign library. Whether each call rejects, and what it returns, are inputs.
- Canvas drawing (`drawImage`, `toDataURL`, `putImageData`). These are browser calls, and how they paint pixels is not modelled. The bytes `getImageData` returns are an input (`Environment.drawn`), and `DrawnFitsCanvas` states what the browser guarantees of them. The one drawing failure modelled is a canvas with a zero side (`DrawFailed`). The first `drawImage`, of the image into the working canvas at lines 32/38, is assumed to succeed. Whether `toBlob` yields a blob is an input. The blob is modelled as the canvas size plus the RGBA buffer passed to `putImageData`, not as PNG bytes.
- `loadImage` and `loadImageFromUrl`. These are asynchronous image decoding and network I/O.
- SuccessContents: the blob's `rgba` is the ImageData buffer handed to `putImageData`, not what the encoded PNG decodes to. Browsers may store canvas pixels premultiplied by alpha. So colour bytes of pixels that are not fully opaque can change on the way into the PNG (a fully transparent pixel usually reads back as 0,0,0), and that colour loss is not modelled.
- Floating point. Mask scores and `Math.round` are over exact reals, and `RoundDiv` is exact rational rounding. `RoundDiv` agrees with IEEE doubles for realistic image sizes: an exact quotient that is not a half-integer lies at least 1/(2·long) from one, far more than a double's rounding error. NaN scores are not modelled.
- Alpha: rounds the exact real `score·255`, whereas the code rounds the double product. When that product lies within one double-rounding step of a half, the two can differ by one. For example, the double nearest 1/510 times 255 rounds to exactly 0.5 as a double, so the code stores 1 where `Alpha` gives 0.
- Progress values are integer percentages, and the status strings passed to `onProgress` are left out. `console.error` in the catch block is logging only.
- The React components and animation variants (`src/components/*`, `src/pages/Index.tsx`, `src/lib/transitions.ts`) are presentation code.
