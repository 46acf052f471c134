# vtk.js labelmap painting, Base64 decoding and volume properties in Dafny

This project models three pieces of sequential logic from vtk.js and proves
properties of the model.

- **The paint filter's worker** (`PaintFilter.worker.js`). It keeps a session
  made of:
  - a flat labelmap buffer, its dimensions, the previous brush sample and a
    slicing mode.

  It serves three operations:
  - `start` allocates a zeroed buffer.
  - `paint` stamps an ellipsoidal brush. Every voxel of the brush's clamped
    bounding box that lies inside the ellipsoid seeds a threshold walk (a
    DDA) from the previous sample towards the current one, and the walk
    writes 1 into each in-bounds voxel it visits.
  - `paintRectangle` fills the rows of a box clamped to the volume.
- **The Base64 decoder** (`Base64/index.js`):
  - a reverse lookup table that accepts the alphabets of sections 4 and 5
    of RFC 4648 together;
  - the character filter, and the scan that splits a string into
    `=`-terminated chunks;
  - the bit arithmetic that turns 4, 3 or 2 sextets into 3, 2 or 1 bytes;
  - the size computation and chunk-by-chunk writing of `toArrayBuffer`.
- **The volume property container** (`VolumeProperty/index.js`):
  - four per-component records of settings and transfer-function handles;
  - index-checked getters and setters, weight clamping and colour-channel
    switching;
  - a modification time that is the latest of the property's own time and
    the times of the transfer functions it tracks.

Modules:
- `Wrappers`: `Option`.
- `Order`: `Min` and `Max` on integers and reals.
- `Grid`: points, dimensions, and the bijection between voxels and flat
  indices.
- `Dda`: the walk and its closed form.
- `PaintWorker`: the session and its operations.
- `PaintProperties`: lemmas about the paint operations.
- `Base64`: the table, the group arithmetic and a reference encoder.
- `Base64Chunks`: the chunk scan.
- `Base64Decode`: sizes, chunk writing and `toArrayBuffer`.
- `Base64RoundTrip`: the decoder against the encoder.
- `VolumeProperty`: the property container.

Points where the model follows the code rather than the obvious reading:

- **The walk stops short.** The walk resets its threshold to `step`
  instead of carrying the remainder over. So along the dominant axis it
  advances only once every two iterations, and it covers about half the
  distance between the samples. With samples (0,0,0) and then (3,0,0), the
  walk from the origin ends at (2,0,0) and never reaches (3,0,0).
  `Dda.DominantAxisHalfway` and `Dda.StopsShortExample` state this. The
  stroke therefore does not paint the voxel of the current sample itself:
  (3,0,0) is left unpainted by that call.
- **Paint before `start`.** `paint` before any `start` runs with zero
  dimensions and writes nothing. `PaintWorker.Idle` is that state.
- **A missing final `=`.** A Base64 string whose last group is not followed
  by `=` has that group dropped by the chunk scan. A standard padded
  encoding of a multiple of three bytes therefore decodes to nothing.
  `Base64RoundTrip.UnterminatedDecodesNothing` states this.
- **`toArrayBuffer` as written cannot decode.** `Base64Decode.ToArrayBuffer`
  and `Base64Decode.Decode` model the decoder the code evidently intends.
  The code as written throws, or writes wrong bytes at wrong offsets, for
  the reasons listed under Findings. Each defect is modelled as written
  next to its correction.

## Model

| member | source | states |
|---|---|---|
| PaintWorker.Start | Sources/Filters/General/PaintFilter/PaintFilter.worker.js:130-137 | `start` yields an all-zero buffer of length d0*d1*d2, no previous sample, and the given dimensions and slicing mode |
| PaintWorker.PaintBox | Sources/Filters/General/PaintFilter/PaintFilter.worker.js:22-40 | each unlocked axis range lies within [0, dim-1] and is non-empty when the volume is; the axis locked by an X/Y/Z slicing mode is exactly [c, c] at the raw center coordinate |
| PaintWorker.MakeStroke | Sources/Filters/General/PaintFilter/PaintFilter.worker.js:18-59 | the walk plan built from the previous sample (the current one on a first paint) has deltas in [1, step] and unit increments |
| Dda.MakePlan | Sources/Filters/General/PaintFilter/PaintFilter.worker.js:46-59 | delta is abs(point-prev)+1 per axis, inc is -1 exactly when the coordinate decreases, and step equals one of the deltas (their maximum) |
| Dda.AdvanceFollowsClosedForm | Sources/Filters/General/PaintFilter/PaintFilter.worker.js:91-97 | one threshold update with reset to `step` takes the threshold and coordinate of iteration s to those of iteration s+1 in the closed form start + inc * (s / (step/delta + 1)) |
| Dda.WalkUnitSteps | Sources/Filters/General/PaintFilter/PaintFilter.worker.js:77-97 | from one iteration to the next each coordinate changes by 0 or by the axis increment |
| Dda.MovesBounded | Sources/Filters/General/PaintFilter/PaintFilter.worker.js:78-97 | within the step+1 iterations an axis advances at most delta-1 times |
| Dda.WalkWithinSegment | Sources/Filters/General/PaintFilter/PaintFilter.worker.js:70-97 | every visited coordinate lies between the walk's start and the start shifted by point - prevPoint |
| Dda.StationaryWalk | Sources/Filters/General/PaintFilter/PaintFilter.worker.js:46-59 | when both samples coincide, step is 1 and the walk never leaves its start |
| Dda.DominantAxisHalfway | Sources/Filters/General/PaintFilter/PaintFilter.worker.js:91-97 | on the axis whose delta equals step, the walk advances only step/2 times |
| Dda.StopsShortExample | Sources/Filters/General/PaintFilter/PaintFilter.worker.js:77-98 | for samples (0,0,0) then (3,0,0) the walk from the origin ends at (2,0,0) and never visits (3,0,0) |
| Grid.Index | Sources/Filters/General/PaintFilter/PaintFilter.worker.js:87 | the flat index of an in-bounds voxel lies in [0, d0*d1*d2) |
| Grid.VoxelAt | Sources/Filters/General/PaintFilter/PaintFilter.worker.js:42-43 | every buffer index decodes to an in-bounds voxel whose flat index is that index |
| Grid.VoxelAtIndex | Sources/Filters/General/PaintFilter/PaintFilter.worker.js:87 | decoding the flat index of an in-bounds voxel gives back the voxel |
| Grid.IndexInjective | Sources/Filters/General/PaintFilter/PaintFilter.worker.js:87 | two in-bounds voxels share a flat index if and only if they are equal |
| PaintWorker.StampWalk | Sources/Filters/General/PaintFilter/PaintFilter.worker.js:77-98 | after one walk, an entry is 1 exactly when the walk visits its voxel and is otherwise unchanged; the length is kept |
| PaintWorker.Paint | Sources/Filters/General/PaintFilter/PaintFilter.worker.js:13-105 | `paint` keeps the buffer length, sets an entry to 1 exactly when some seed's walk visits its voxel, leaves all others unchanged (so only 1s are written and 1s stay 1), and stores the point as the previous sample |
| PaintProperties.PaintBoxCoversEllipsoid | Sources/Filters/General/PaintFilter/PaintFilter.worker.js:22-27 | every in-bounds voxel of the ellipsoid lies in the clamped box on each unlocked axis |
| PaintProperties.PaintedByWitness | Sources/Filters/General/PaintFilter/PaintFilter.worker.js:62-98 | a seed in the box and in the ellipsoid whose walk reaches a voxel within step+1 iterations makes it painted |
| PaintProperties.PaintedWitness | Sources/Filters/General/PaintFilter/PaintFilter.worker.js:62-98 | every painted voxel has such a seed and iteration |
| PaintProperties.StationaryPaintStampsEllipsoid | Sources/Filters/General/PaintFilter/PaintFilter.worker.js:18-20 | on a first paint, or with the previous sample equal to the point, a voxel is painted if and only if it lies in the box and in the ellipsoid |
| PaintProperties.FirstPaintExact | Sources/Filters/General/PaintFilter/PaintFilter.worker.js:18-69 | on such a paint an in-bounds voxel is painted if and only if it lies in the ellipsoid and, under an X/Y/Z slicing mode, on the locked plane of the center |
| PaintProperties.PaintedIsSweptBrush | Sources/Filters/General/PaintFilter/PaintFilter.worker.js:62-98 | every painted voxel is an ellipsoid voxel translated by an offset lying between prevPoint - point and 0 on each axis |
| PaintProperties.SliceZPaintStaysBetweenSamples | Sources/Filters/General/PaintFilter/PaintFilter.worker.js:36-39 | with the Z slicing mode a painted voxel's z lies between the previous and the current sample's z |
| PaintProperties.HalfVoxelBrushPaintsCenter | Sources/Filters/General/PaintFilter/PaintFilter.worker.js:62-69 | a first paint with radius 0.5 on every axis paints exactly the center voxel |
| PaintProperties.HalfVoxelEllipsoid | Sources/Filters/General/PaintFilter/PaintFilter.worker.js:65-69 | the ellipsoid of radius 0.5 holds exactly its center among integer points |
| PaintWorker.RectBox | Sources/Filters/General/PaintFilter/PaintFilter.worker.js:111-116 | the rectangle's box is clamped into the volume on every axis |
| PaintWorker.Fill | Sources/Filters/General/PaintFilter/PaintFilter.worker.js:124 | `fill(value, start, end)` keeps the length and sets exactly the positions between the relative-index-clamped start and end |
| PaintWorker.FillRow | Sources/Filters/General/PaintFilter/PaintFilter.worker.js:121-126 | one row fill sets exactly the voxels (x, j, k) with x in the row's range and keeps every other entry |
| PaintWorker.PaintRectangle | Sources/Filters/General/PaintFilter/PaintFilter.worker.js:107-127 | `paintRectangle` sets exactly the voxels of the clamped box to 1 and changes nothing else in the session |
| PaintProperties.RectBoxSymmetric | Sources/Filters/General/PaintFilter/PaintFilter.worker.js:111-116 | the box does not depend on the order of the two corners |
| PaintProperties.RectangleIdempotent | Sources/Filters/General/PaintFilter/PaintFilter.worker.js:121-126 | filling the same rectangle twice gives the same buffer as filling it once |
| PaintProperties.RectangleExactIndices | Sources/Filters/General/PaintFilter/PaintFilter.worker.js:111-126 | the entry at i + j*d0 + k*d0*d1 becomes 1 exactly when each coordinate is within max(min, 0)..min(max, dim-1), and is unchanged otherwise |
| PaintProperties.EmptyRectangleWritesNothing | Sources/Filters/General/PaintFilter/PaintFilter.worker.js:121-126 | when one of the clamped ranges is empty the buffer is unchanged |
| PaintProperties.FillRowAsWrittenWrapsAround | Sources/Filters/General/PaintFilter/PaintFilter.worker.js:111-124 | in a 4x4x4 volume with corner x coordinates -10 and -20, the box is empty on x, yet the row fill as written sets every entry 0..54 (entry 54 is voxel (2,1,3), outside the box) and leaves only 55..63 at 0 |
| PaintProperties.FillRowMatchesAsWritten | Sources/Filters/General/PaintFilter/PaintFilter.worker.js:121-126 | for every x-range with end at least -1 (every in-volume range and every empty one ending at -1) the code as written and the corrected row fill agree |
| Base64.Lookup | Sources/Common/Core/Base64/index.js:31-39 | the table has an entry for a character if and only if it is valid |
| Base64.CodeMapsToPosition | Sources/Common/Core/Base64/index.js:35-39 | each of the 64 characters of the code string maps to its position |
| Base64.ValidCharacters | Sources/Common/Core/Base64/index.js:31-47 | a character is valid if and only if it is in the code string or is `-` or `_`; a valid code character's entry points back to it |
| Base64.DecodeQuad | Sources/Common/Core/Base64/index.js:86-102 | a full group gives the three bytes of the 24-bit big-endian value a<<18 + b<<12 + c<<6 + d |
| Base64.DecodeTriple | Sources/Common/Core/Base64/index.js:107-122 | a three-sextet tail gives the two bytes of a<<10 + b<<4 + c>>2 |
| Base64.QuadRoundTrip | Sources/Common/Core/Base64/index.js:86-102 | decoding the four sextets that encode three bytes gives back the bytes |
| Base64.QuadInjective | Sources/Common/Core/Base64/index.js:86-102 | re-encoding the bytes of a decoded group gives back its four sextets |
| Base64.TripleRoundTrip | Sources/Common/Core/Base64/index.js:107-122 | decoding the three sextets that encode two bytes gives back the bytes |
| Base64.DecodePairAsWritten | Sources/Common/Core/Base64/index.js:123-133 | as written, the byte's high six bits are the first sextet and its low two bits are the first sextet's top bits, so the second sextet is never read |
| Base64.DecodePair | Sources/Common/Core/Base64/index.js:123-133 | corrected, the byte's high six bits are the first sextet and its low two bits the second sextet's top bits |
| Base64.PairRoundTrip | Sources/Common/Core/Base64/index.js:123-133 | the corrected pair decoding gives back the byte the two sextets encode |
| Base64.PairAsWrittenLosesLowBits | Sources/Common/Core/Base64/index.js:123-133 | "AQ" (sextets 0 and 16) encodes the byte 1, which the corrected pair decoding returns and the code as written decodes to 0 |
| Base64.ChunkBytes | Sources/Common/Core/Base64/index.js:73-141 | a chunk of n sextets yields 3 bytes per full group, plus 2 for a remainder of 3, 1 for a remainder of 2, and none for a remainder of 1 |
| Base64Chunks.ScanWellFormed | Sources/Common/Core/Base64/index.js:49-71 | every chunk starts and ends at a valid character, counts the valid characters in its span, contains no `=`, and lies before the next one; an open chunk is followed only by skipped characters |
| Base64Chunks.ChunkCounts | Sources/Common/Core/Base64/index.js:54-69 | every emitted chunk has 1 <= count <= end - start + 1 |
| Base64Chunks.CountsCoverValid | Sources/Common/Core/Base64/index.js:54-69 | the emitted counts plus the open chunk's count add up to the number of valid characters of the string |
| Base64Chunks.EmitsOnlyOnTerminator | Sources/Common/Core/Base64/index.js:61-64 | a scan step appends a chunk only on `=` with a chunk open, and then appends exactly that chunk and closes it |
| Base64Chunks.UnterminatedTailIgnored | Sources/Common/Core/Base64/index.js:61-70 | appending text without `=` never changes the chunks returned, so an unterminated trailing chunk is never emitted |
| Base64Chunks.StrayTerminatorsIgnored | Sources/Common/Core/Base64/index.js:61-68 | `=` with no chunk open changes nothing |
| Base64Chunks.ValidRunIsOneChunk | Sources/Common/Core/Base64/index.js:54-60 | a run of valid characters opens one chunk at its first character and counts all of them |
| Base64Chunks.TerminatedRun | Sources/Common/Core/Base64/index.js:54-64 | a run of valid characters followed by `=`s yields exactly one chunk covering the run |
| Base64Chunks.ScanAppend | Sources/Common/Core/Base64/index.js:54-69 | after a prefix that leaves no chunk open, the chunks of the rest are those of the rest on its own, shifted by the prefix length |
| Base64Decode.WriteChunk | Sources/Common/Core/Base64/index.js:73-144 | corrected chunk writing skips the characters themselves (not their indices) and writes as many bytes as the chunk's valid characters determine |
| Base64Decode.WriteChunkAsWritten | Sources/Common/Core/Base64/index.js:81-98 | as written, a chunk throws exactly when it has two or more valid characters (it reaches a skip loop); a chunk of at most one character completes and writes nothing |
| Base64Decode.TotalSizeAsWrittenExceeds | Sources/Common/Core/Base64/index.js:148-153 | the size as written, the sum of (count - count%4)*3 + count%4, is at least the size needed and larger as soon as one chunk is non-empty |
| Base64Decode.TotalSizeAsWrittenOverAllocates | Sources/Common/Core/Base64/index.js:148-153 | for one chunk of four characters the size as written is 12 where 3 bytes are needed |
| Base64Decode.DstOffsetAsWritten | Sources/Common/Core/Base64/index.js:157-160 | as written, the offset never falls behind the bytes written so far (`Written`), is 0 exactly when nothing was written, and runs ahead of them exactly when some chunk before the last one wrote bytes; a chunk that writes bytes raises it |
| Base64Decode.DstOffsetAsWrittenSkips | Sources/Common/Core/Base64/index.js:157-160 | after two one-byte chunks the offset as written is 3 although they fill only 2 bytes, so a third chunk starts one byte late |
| Base64Decode.DecodeLength | Sources/Common/Core/Base64/index.js:146-156 | the decoded bytes are exactly as many as the corrected total size |
| Base64Decode.ToArrayBuffer | Sources/Common/Core/Base64/index.js:146-163 | the corrected `toArrayBuffer` (offsets not added twice) fills a buffer of the corrected total size with the chunks' bytes in order |
| Base64RoundTrip.CharsDecode | Sources/Common/Core/Base64/index.js:31-47 | reading the code characters of a sextet sequence back through the table gives the sequence |
| Base64RoundTrip.SextetsDecode | Sources/Common/Core/Base64/index.js:81-136 | the sextets of a byte sequence, decoded four at a time and then the tail, give back the bytes |
| Base64RoundTrip.DecodeEncode | Sources/Common/Core/Base64/index.js:146-163 | the section 4 RFC 4648 encoding of any bytes, followed by `=`, decodes back to the bytes |
| Base64RoundTrip.UnterminatedDecodesNothing | Sources/Common/Core/Base64/index.js:61-70 | an encoding of a multiple of three bytes with no `=` after it decodes to no bytes |
| Base64RoundTrip.EncodeExample | Sources/Common/Core/Base64/index.js:35-36 | the bytes 65, 66, 67 encode to "QUJD" |
| Base64RoundTrip.SkipLoopThrows | Sources/Common/Core/Base64/index.js:82-85 | "QUJD=" is one chunk of four characters that decodes to 65, 66, 67, while `writeChunk` as written throws on it |
| VolumeProperty.New | Sources/Rendering/Core/VolumeProperty/index.js:294-313 | a new property has four components, each with one colour channel, weight 1.0, shade 0, the source's lighting defaults and no transfer functions |
| VolumeProperty.ComponentMTime | Sources/Rendering/Core/VolumeProperty/index.js:23-51 | one loop iteration raises the time to at least every tracked handle's time, and the result is the previous time or one of those times |
| VolumeProperty.GetMTime | Sources/Rendering/Core/VolumeProperty/index.js:18-55 | the time is at least the property's own time and every tracked handle's time (gray with 1 channel, RGB with 3, scalar opacity, gradient opacity unless disabled), and equals one of them |
| VolumeProperty.NewMTime | Sources/Rendering/Core/VolumeProperty/index.js:18-55 | a new property's time is its own, whatever its handles' times |
| VolumeProperty.MTimeIgnoresUntracked | Sources/Rendering/Core/VolumeProperty/index.js:18-55 | the time depends on handle times only through the tracked handles |
| VolumeProperty.GetColorChannels | Sources/Rendering/Core/VolumeProperty/index.js:57-64 | on a valid property the result is 0 exactly for an index outside 0..3, and 1 or 3 otherwise |
| VolumeProperty.Clamp | Sources/Rendering/Core/VolumeProperty/index.js:206 | the weight stored lies in [0, 1] and equals the value when the value is already there |
| VolumeProperty.SetComponentWeight | Sources/Rendering/Core/VolumeProperty/index.js:200-211 | for an index in 0..3 only that weight changes, to the clamped value; any other index leaves the property unchanged; the time becomes the next counter value only when something changed |
| VolumeProperty.GetComponentWeight | Sources/Rendering/Core/VolumeProperty/index.js:213-220 | on a valid property the weight returned lies in [0, 1] |
| VolumeProperty.WeightSetThenGet | Sources/Rendering/Core/VolumeProperty/index.js:200-220 | reading back gives the clamped value for an index in 0..3 and 0.0 for any other; setting the same weight twice equals setting it once |
| VolumeProperty.SetGrayTransferFunction | Sources/Rendering/Core/VolumeProperty/index.js:67-77 | the component gets the gray function and one colour channel, no other component changes, and each actual change draws the next counter value, so the time ends one or two past the counter, or stays when nothing changed |
| VolumeProperty.SetRGBTransferFunction | Sources/Rendering/Core/VolumeProperty/index.js:95-105 | the component gets the RGB function and three colour channels, no other component changes, and each actual change draws the next counter value, so the time ends one or two past the counter, or stays when nothing changed |
| VolumeProperty.ColorChannelSwitch | Sources/Rendering/Core/VolumeProperty/index.js:24-36 | after setting a gray (RGB) function the channel count reads 1 (3), the new function's time counts in the modification time, and the other colour function's does not unless it is also an opacity function |
| VolumeProperty.SetScalarOpacity | Sources/Rendering/Core/VolumeProperty/index.js:123-128 | only the component's scalar opacity changes, and the time becomes the next counter value exactly when it differs |
| VolumeProperty.SetGradientOpacity | Sources/Rendering/Core/VolumeProperty/index.js:143-148 | only the component's gradient opacity changes, and the time becomes the next counter value exactly when it differs |
| VolumeProperty.OpacityTracking | Sources/Rendering/Core/VolumeProperty/index.js:38-51 | a scalar opacity function always counts in the modification time; a gradient opacity function counts when it is not disabled and not otherwise |
| VolumeProperty.Put | Sources/Rendering/Core/VolumeProperty/index.js:260-265 | storing a setting changes that setting to the value and leaves every other field of the record alone |
| VolumeProperty.SetSetting | Sources/Rendering/Core/VolumeProperty/index.js:256-266 | a generic setter stores the value as given, with no range check, and the time becomes the next counter value exactly when the stored value differs |
| VolumeProperty.SettingSetThenGet | Sources/Rendering/Core/VolumeProperty/index.js:256-273 | the getter returns the value just set, other settings are unchanged, setting twice equals setting once, and storing the current value changes nothing, time included |
| VolumeProperty.SettersPreserveValid | Sources/Rendering/Core/VolumeProperty/index.js:200-266 | every setter keeps four components with 1 or 3 channels and weights in [0, 1] |
| VolumeProperty.ChangesAreVisible | Sources/Rendering/Core/VolumeProperty/index.js:18-266 | when the shared counter is at least every time handed out so far, a setter call that changes the property makes `getMTime` return the property's fresh time, which is later than what `getMTime` returned before, transfer functions included |
| VolumeProperty.FreshChangeVisible | Sources/Rendering/Core/VolumeProperty/index.js:18-55 | a change stamped later than every time handed out so far is what `getMTime` reports afterwards, and it is later than what `getMTime` reported before |

## Left out

- The worker plumbing is not modelled: `registerWebworker`, the operation registration and the `end` operation's transfer of the buffer to the caller (PaintFilter.worker.js:129, 140-146). It is message passing with nothing to state beyond "return the buffer".
- `new self[bufferType]` picks the typed array by name at run time. The buffer is a sequence of unbounded integers, so element width and wrap-around are not modelled.
- Brush and rectangle coordinates are integers. In the source, non-integer coordinates behave in two ways, and neither is modelled. In `paint`, `buffer[index] = 1` with a non-integer index is silently dropped. In `paintRectangle`, `fill` truncates a non-integer start or end toward zero.
- The brush radius is a positive exact real. A zero radius makes the source compute 0/0 and fail the ellipsoid test; the model's `InEllipsoid` rejects it the same way, but the lemmas assume positive radii where they need them. Floating-point rounding is not modelled.
- The slicing mode has four cases: X, Y, Z and unlocked. Every other value of the enum, and null, behave as unlocked, as in the source. The enum's own constants are not part of this model.
- `console.error` for a Base64 chunk with one sextet left over is not modelled; that branch writes nothing, as in the source.
- The VolumeProperty getters that lazily create transfer functions (`getGrayTransferFunction`, `getRGBTransferFunction`, `getScalarOpacity`, `getGradientOpacity`, `getStoredGradientOpacity`) are not modelled, and neither is `createDefaultGradientOpacity`. They build foreign objects; transfer functions are opaque handles with a modification time given by a function `mtimeOf`.
- The validated `setShade`/`shadeOn`/`shadeOff` and `setDisableGradientOpacity` (VolumeProperty/index.js:183-198, 222-240) are not modelled separately. The generic setters defined later in the same function replace them, so `VolumeProperty.SetSetting` is the effective behaviour.
- `vtkErrorMacro` logging, `macro.setGet` for `independentComponents`/`interpolationType`, the interpolation-type helpers and `enumToString` are not modelled.
- Setting values are reals. JavaScript's looser values are not modelled: booleans, `null`, and NaN (which is never equal to itself). `disableGradientOpacity` counts as enabled exactly when it is 0.
- PaintWorker.PaintRectangle: models the corrected row fill `PaintWorker.FillRow`. It agrees with the source whenever the larger corner x coordinate is at least -1 (`PaintProperties.FillRowMatchesAsWritten`). When both corners have x <= -2, the source's fill can wrap: for a row with `index + xend + 1 < 0`, such as the row y = z = 0, it sets entries counted from the end of the buffer. The model does not reproduce that (see Findings).
- Strings are sequences of Unicode code points, while the source indexes UTF-16 code units. After a character outside the Basic Multilingual Plane, the chunk `start`/`end` offsets of `Base64Chunks.Scan` are therefore smaller than the source's. The decoded bytes are the same, since such a character is not a Base64 character in either.
- `modified()` takes the next value of a counter shared by every object. The counter itself is not modelled. Each setter takes its value before the call as the parameter `clock`, and `VolumeProperty.ChangesAreVisible` takes as a hypothesis that it is at least every time handed out so far.
- VolumeProperty.SetGrayTransferFunction: like the other per-index setters (`SetRGBTransferFunction`, `SetScalarOpacity`, `SetGradientOpacity`, `SetSetting`), it requires an index of an existing component. The source dereferences `componentData[index]` unchecked and throws a TypeError for any other index.

## Findings

| source | as written | input that shows it | evidently intended | confidence | as-written member | corrected member |
|---|---|---|---|---|---|---|
| Sources/Filters/General/PaintFilter/PaintFilter.worker.js:111-124 | an empty x-range still calls `fill(1, index + xstart, index + xend + 1)`; when `index + xend + 1` is negative, `fill` counts it from the end of the buffer | 4x4x4 volume, corners with x = -10 and x = -20: the range is 0..-10, yet every entry 0..54 is set, including voxel (2,1,3) (index 54), which lies outside the box | an empty range writes nothing | high (not executed) | PaintProperties.FillRowAsWrittenWrapsAround | PaintWorker.FillRow |
| Sources/Common/Core/Base64/index.js:83-98 | the skip loops call `isValidChar(charIdx)` with a number, whose `charCodeAt` is undefined, so the call throws | "QUJD=" (one chunk of four characters) | skip invalid characters of the string, i.e. `isValidChar(b64Str[charIdx])` | high (not executed) | Base64RoundTrip.SkipLoopThrows | Base64Decode.WriteChunk |
| Sources/Common/Core/Base64/index.js:127-131 | the remain-2 branch reads the same character twice, without advancing `charIdx` | "AQ==", the encoding of the byte 1: once the skip loops no longer throw, it decodes to 0 | read the second sextet for the low bits | high (not executed) | Base64.PairAsWrittenLosesLowBits | Base64.DecodePair |
| Sources/Common/Core/Base64/index.js:152 | `totalSize += (count - remain) * 3 + remain` allocates 3 bytes per character of full groups | one chunk of four characters needs 3 bytes, and 12 are allocated | (count / 4) * 3 plus 2 or 1 for a remainder of 3 or 2 | high (not executed) | Base64Decode.TotalSizeAsWrittenOverAllocates | Base64Decode.DecodeLength |
| Sources/Common/Core/Base64/index.js:159 | `dstOffset += writeChunk(...)` adds the absolute offset that `writeChunk` returns to the old offset | three chunks of one byte each ("AA=AA=AA="): once the skip loops no longer throw, the third chunk is written from offset 3 instead of 2, leaving offset 2 unwritten | `dstOffset = writeChunk(...)` | high (not executed) | Base64Decode.DstOffsetAsWrittenSkips | Base64Decode.ToArrayBuffer |
