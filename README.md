# Pocket-Pitwall: telemetry ingestion and car interpolation

This project models the core of the Pocket-Pitwall replay screen
(`Pocket-Pitwall/src/main.cpp`). The program runs on a 240x135 handheld
display and shows a Formula 1 session replayed from a server. Five parts are
modelled:

- **The frame decoder.** The WebSocket text callback reads frames of the form
  `"<ms>|id,x,y,pos|id,x,y,pos|..."`. It turns the timestamp into an `H:MM:SS`
  clock and each chunk into a record. A chunk is kept when the third chained
  comma search hits. The model follows the Arduino `String` semantics the code
  relies on: `indexOf` returns -1 on a miss, `substring` converts `int` bounds
  to `unsigned` and swaps reversed bounds, and `toInt` is `atol` clamped to a
  32-bit `long`.
- **The car table.** It lives in the `Pitwall.Replay` class (the global
  `std::map<int, Car> cars` and `gameTimeStr`). Each kept record retargets one
  car: a new car, or one still at X = 0, jumps to the target; otherwise it
  gets a step of one sixth of the remaining gap. On each render tick every
  active car not shown at exactly (0,0) jumps to its target when the X gap
  exceeds 500, and otherwise moves one step.
- **The projection.** `worldToScreen` and the fit computed in
  `loadSessionData` place the track's bounding box, with a 10-pixel margin,
  in the 180x135 map area. Floats stored into `int` truncate toward zero.
- **`bakeTrack`.** It clears the background layer, draws the pit-lane and
  track polylines, then draws the sidebar chrome.
- **The sidebar and roster lookups.**
  - The sidebar ranks active cars by (position, number) with `std::sort`,
    modelled as an in-place sort of an array, and lists the first six.
  - Sidebar rows and car markers take the *first* roster entry with the car's
    number. Without one, a row shows "???" and a marker is white.
  - The fastest-lap name takes the *last* matching entry.
  - Team colours are parsed with `strtol(hex, NULL, 16)` and split into
    channels.

Modules: `Wrappers` (Option), `Text` (the C and Arduino string and number
routines), `Frame`, `Physics`, `Geometry`, `Roster`, `Sidebar`, `Pitwall`.

In a few places the code behaves in ways a reader might not expect; the
model follows the code:

- A chunk with exactly one comma is also kept. The failed second search
  returns -1, so the third search restarts at index 0 and finds the first
  comma again. The record then reads `(a, b, a, b)`.
- The Y flip is not strict. Truncation can put two different heights on the
  same row.
- Nothing guards against a zero-width or zero-height track box. The model
  requires a positive extent.
- A car whose shown X is exactly 0 is re-snapped on every record. A car shown
  at exactly (0,0) is never advanced.

## Model

| member | source | states |
|---|---|---|
| Text.IndexOf | Pocket-Pitwall/src/main.cpp:128 | `indexOf` from an offset returns -1 or an index at or after the offset holding the character |
| Text.IndexOfSkips | Pocket-Pitwall/src/main.cpp:140 | no occurrence lies between the offset and the returned index; on -1, none lies after the offset |
| Text.IndexOfFinds | Pocket-Pitwall/src/main.cpp:143 | the first occurrence at or after the offset is the one returned |
| Text.IndexOfMisses | Pocket-Pitwall/src/main.cpp:143 | a search past the last occurrence returns -1 |
| Text.IndexOfCount | Pocket-Pitwall/src/main.cpp:143 | a search misses exactly when no occurrence follows the offset; a hit leaves one fewer after it |
| Text.Unsigned | Pocket-Pitwall/src/main.cpp:146-149 | an `int` bound passed to `substring` keeps its value when non-negative and becomes at least 2^31 when negative |
| Text.SubstringSlice | Pocket-Pitwall/src/main.cpp:142 | `substring` is the slice for bounds in range, clamps the right bound, is empty from the end on, and swaps reversed bounds |
| Text.CopySlice | Pocket-Pitwall/src/main.cpp:142 | the character copy of `substring` yields exactly the slice |
| Text.StrToL | Pocket-Pitwall/src/main.cpp:57 | `strtol` in base 10 or 16 yields a value within the 32-bit `long` range |
| Text.ToInt | Pocket-Pitwall/src/main.cpp:132 | `toInt` yields a value within the 32-bit `long` range |
| Text.SkipSpace | Pocket-Pitwall/src/main.cpp:132 | the index returned is at or after the start and holds no white space, or is the end |
| Text.SkipSpaceSkips | Pocket-Pitwall/src/main.cpp:132 | every character skipped before that index is white space |
| Text.CDiv | Pocket-Pitwall/src/main.cpp:133 | C integer division truncates toward zero: q*b never exceeds a non-negative a and comes within b of it, and mirrors that for a negative a |
| Text.CMod | Pocket-Pitwall/src/main.cpp:135 | C remainder pairs with truncating division and takes the dividend's sign |
| Text.Substring | Pocket-Pitwall/src/main.cpp:142-149 | Arduino `substring`: reversed bounds swapped, empty from the end on, right bound clamped; characterised by `Text.SubstringSlice` |
| Text.Printf | Pocket-Pitwall/src/main.cpp:135 | `%0Nd`: a minus sign for negatives, then the digits zero-padded to the width; characterised by `Text.ToIntPrintf` |
| Text.ToIntPrintf | Pocket-Pitwall/src/main.cpp:132-135 | a number printed with `%d` or `%0Nd` and followed by a non-digit reads back by `toInt` as itself |
| Text.DigitsOfDecimal | Pocket-Pitwall/src/main.cpp:135 | the decimal digits printed for a natural number read back as that number |
| Frame.DecodeChunk | Pocket-Pitwall/src/main.cpp:143-149 | the three chained comma searches, kept when the third hits; characterised by `Frame.ChunkAcceptance`, `Frame.ThreeCommaFields` and `Frame.OneCommaFields` |
| Frame.Fields | Pocket-Pitwall/src/main.cpp:146-149 | the four `substring(...).toInt()` fields cut at the search results, bounds converted to `unsigned`; characterised by `Frame.CommasAt`, `Frame.OneCommaAt` and `Frame.ChunkAcceptance` |
| Frame.ChunkAcceptance | Pocket-Pitwall/src/main.cpp:143-145 | a chunk is kept exactly when it holds one comma or at least three |
| Frame.SearchesAccept | Pocket-Pitwall/src/main.cpp:143-145 | the third search hits exactly when the chunk holds one comma or at least three |
| Frame.ThreeCommaFields | Pocket-Pitwall/src/main.cpp:143-149 | `a,b,c,d` with comma-free `a`, `b`, `c` decodes to `(toInt a, toInt b, toInt c, toInt d)` |
| Frame.ThreeCommaLayout | Pocket-Pitwall/src/main.cpp:143-149 | in `a,b,c,d` the three commas are the first three and `substring` cuts out `a`, `b`, `c` and `d` |
| Frame.CommasAt | Pocket-Pitwall/src/main.cpp:143-149 | a chunk whose first three commas are at p, q, r decodes to the fields between them |
| Frame.OneCommaFields | Pocket-Pitwall/src/main.cpp:143-149 | `a,b` without further commas is kept and decodes to `(toInt a, toInt b, toInt a, toInt b)` |
| Frame.OneCommaAt | Pocket-Pitwall/src/main.cpp:143-149 | a chunk with its only comma at p decodes to the two sides, each read twice |
| Frame.SplitPieces | Pocket-Pitwall/src/main.cpp:139-142 | no chunk between separators holds the separator bar |
| Frame.JoinSplit | Pocket-Pitwall/src/main.cpp:139-142 | the chunks joined with the separator bar give back the text after the timestamp |
| Frame.SplitAtFirst | Pocket-Pitwall/src/main.cpp:140-142 | the first chunk ends at the first separator bar and the rest is split the same way |
| Frame.Kept | Pocket-Pitwall/src/main.cpp:145 | a chunk yields at most one record |
| Frame.Accepted | Pocket-Pitwall/src/main.cpp:139-168 | a frame yields at most one record per chunk |
| Frame.ChunkEnd | Pocket-Pitwall/src/main.cpp:140-141 | a chunk ends at the next separator bar or at the end of the text |
| Frame.RecordsFromStep | Pocket-Pitwall/src/main.cpp:139-167 | from any start, the records are the chunk up to its end followed by those after it |
| Frame.SplitAt | Pocket-Pitwall/src/main.cpp:140-142 | a chunk found by the separator search is the first piece of the split |
| Frame.TwoDigits | Pocket-Pitwall/src/main.cpp:135 | `%02d` of a number below 100 has two characters |
| Frame.HoursMinutesSeconds | Pocket-Pitwall/src/main.cpp:133-135 | hours, minutes and seconds recompose the total seconds, with minutes below 60 |
| Frame.ClockOfNatural | Pocket-Pitwall/src/main.cpp:133-135 | for a non-negative timestamp the clock is `%d:%02d:%02d` of hours, minutes and seconds |
| Frame.ReadClockFields | Pocket-Pitwall/src/main.cpp:135 | `H:MM:SS` has its colons in place and each field reads back as the number printed |
| Frame.ClockReadsBack | Pocket-Pitwall/src/main.cpp:132-136 | the clock of a non-negative timestamp reads back as minutes and seconds below 60 that recompose its whole seconds |
| Frame.Clock | Pocket-Pitwall/src/main.cpp:132-136 | `%d:%02d:%02d` of the hours, minutes and seconds of `ms / 1000`, with C division; characterised by `Frame.ClockReadsBack` |
| Frame.DecodeFrame | Pocket-Pitwall/src/main.cpp:128-149 | a frame without a separator bar is dropped; otherwise the clock of the timestamp and the accepted records of the chunks after it; characterised by `Frame.DecodeFrameDrops`, `Pitwall.ApplyFromSplit` (the chunk loop applies exactly these records), `Frame.JoinSplit` and `Frame.SplitPieces` |
| Frame.DecodeFrameDrops | Pocket-Pitwall/src/main.cpp:128-129 | a frame is dropped exactly when it holds no separator bar |
| Physics.ApplyRecord | Pocket-Pitwall/src/main.cpp:151-165 | one record adds or retargets its car only: target, position and active set; an unplaced car jumps with zero step, a placed car keeps its position and reaches the target in six steps |
| Physics.ApplyAll | Pocket-Pitwall/src/main.cpp:139-168 | the records applied one after another in wire order; characterised by `Physics.ApplyAllKeys`, `Physics.ApplyAllUntouched` and `Physics.ApplyAllLatestWins` |
| Physics.ApplyAllKeys | Pocket-Pitwall/src/main.cpp:139-168 | after a frame the table holds the old cars plus every car with a record |
| Physics.ApplyAllActive | Pocket-Pitwall/src/main.cpp:158 | applying records keeps every tracked car active |
| Physics.ApplyAllUntouched | Pocket-Pitwall/src/main.cpp:139-168 | a car without a record in the frame is left as it was |
| Physics.ApplyAllLatestWins | Pocket-Pitwall/src/main.cpp:155-158 | the last record for a car in a frame decides its target and position |
| Physics.AdvanceCar | Pocket-Pitwall/src/main.cpp:198-210 | a tick skips inactive cars and cars at (0,0), snaps both axes when the X gap exceeds 500, and otherwise adds the step; nothing else changes |
| Physics.AlongBounds | Pocket-Pitwall/src/main.cpp:164-165 | a point of the glide lies between start and target, never farther from the target, and is the target after six steps |
| Physics.GlideStep | Pocket-Pitwall/src/main.cpp:204-209 | a tick of a gliding car moves it to the next point of the glide |
| Physics.Glide | Pocket-Pitwall/src/main.cpp:198-210 | k ticks of a gliding car reach the k-th point of the glide |
| Physics.GlideReachesTarget | Pocket-Pitwall/src/main.cpp:151-165 | after a record within 500 of a placed car, k ticks keep it between start and target and six ticks land it on the target |
| Physics.TicksKeepTarget | Pocket-Pitwall/src/main.cpp:198-210 | ticks change only the shown position |
| Geometry.Trunc | Pocket-Pitwall/src/main.cpp:72-73 | a float stored into an `int` is truncated toward zero |
| Geometry.TruncMonotonic | Pocket-Pitwall/src/main.cpp:72-73 | truncation never reverses order |
| Geometry.Fit | Pocket-Pitwall/src/main.cpp:105-109 | the scale and the centring offsets of `loadSessionData`; characterised by `Geometry.FitScale` and `Geometry.BoxLandsInMapArea` |
| Geometry.FitRatio | Pocket-Pitwall/src/main.cpp:106-108 | the smaller of the two axis ratios; characterised by `Geometry.FitRatioFills` and `Geometry.FitRatioLargest` |
| Geometry.Centre | Pocket-Pitwall/src/main.cpp:109 | the truncated offset that centres the scaled box; characterised by `Geometry.CentreWithin` |
| Geometry.WorldToScreen | Pocket-Pitwall/src/main.cpp:71-74 | the pixel of a world point; characterised by `Geometry.ProjectionMonotonic`, `Geometry.BoxLandsInMapArea` and `Geometry.FlipNotStrict` |
| Geometry.ScreenX | Pocket-Pitwall/src/main.cpp:72 | `offX + (wx - minX) * scale`, truncated |
| Geometry.ScreenY | Pocket-Pitwall/src/main.cpp:73 | `135 - (offY + (wy - minY) * scale)`, truncated |
| Geometry.OnScreen | Pocket-Pitwall/src/main.cpp:214 | the cull test keeps pixels in 0..240 by 0..135, bounds included |
| Geometry.FitRatioFills | Pocket-Pitwall/src/main.cpp:106-108 | the chosen scale is positive, overflows neither usable axis and fills one of them |
| Geometry.FitRatioLargest | Pocket-Pitwall/src/main.cpp:106-108 | any larger scale overflows an axis |
| Geometry.CentreWithin | Pocket-Pitwall/src/main.cpp:109 | the centring offset is at least the margin and at most half the free space |
| Geometry.FitScale | Pocket-Pitwall/src/main.cpp:105-109 | the fitted projection fills one axis, overflows neither, and has offsets within the margin and half the map area |
| Geometry.BoxLandsInMapArea | Pocket-Pitwall/src/main.cpp:71-74 | every point of the track box lands in columns 10..170 and rows 10..125 and is not culled |
| Geometry.ProjectionMonotonic | Pocket-Pitwall/src/main.cpp:71-74 | screen X never decreases with world X and screen Y never increases with world Y |
| Geometry.FlipNotStrict | Pocket-Pitwall/src/main.cpp:73 | two different heights can land on the same row |
| Geometry.Segment | Pocket-Pitwall/src/main.cpp:79-80 | one segment is a line in the path's colour |
| Geometry.PathLines | Pocket-Pitwall/src/main.cpp:78-85 | a polyline of n > 1 points gives n-1 segments, segment i joining points i and i+1; fewer points give none |
| Geometry.PathLinesJoin | Pocket-Pitwall/src/main.cpp:78-85 | each segment starts where the previous one ends |
| Geometry.DrawPath | Pocket-Pitwall/src/main.cpp:78-81 | the loop appends exactly the polyline's segments, in order |
| Geometry.BakeTrack | Pocket-Pitwall/src/main.cpp:76-88 | the layer is cleared, then the pit lane, the track and the chrome are drawn; the result depends only on the projection and the paths |
| Roster.Channels | Pocket-Pitwall/src/main.cpp:58 | the shifts and masks give three bytes |
| Roster.ChannelsOfPacked | Pocket-Pitwall/src/main.cpp:56-58 | splitting a packed 0xRRGGBB gives back its three bytes |
| Roster.HexColour | Pocket-Pitwall/src/main.cpp:56-58 | `strtol` base 16 split into channels; characterised by `Roster.HexColourOfSixDigits` |
| Roster.HexColourOfSixDigits | Pocket-Pitwall/src/main.cpp:56-58 | six hex digits give the channels of their three digit pairs |
| Roster.SixDigits | Pocket-Pitwall/src/main.cpp:57 | `strtol` base 16 of six hex digits is the packed value of the three pairs |
| Roster.FirstIndex | Pocket-Pitwall/src/main.cpp:187 | the first roster entry with the number, or -1 exactly when there is none |
| Roster.LastIndex | Pocket-Pitwall/src/main.cpp:119 | the last roster entry with the number, or -1 exactly when there is none |
| Roster.Shown | Pocket-Pitwall/src/main.cpp:186-187 | the first matching driver's name and colour, or "???" in white; computed by `Roster.Lookup` and `Roster.MarkerColour` |
| Roster.Lookup | Pocket-Pitwall/src/main.cpp:186-187 | the sidebar shows the first matching driver's name and colour, or "???" in white |
| Roster.MarkerColour | Pocket-Pitwall/src/main.cpp:216-217 | a marker takes the first matching driver's colour, or white |
| Roster.FastestLapName | Pocket-Pitwall/src/main.cpp:117-119 | the fastest-lap name is the last matching driver's, otherwise unchanged |
| Roster.FirstAndLastAgree | Pocket-Pitwall/src/main.cpp:119 | first and last match find a driver together and agree when numbers are unique |
| Roster.RepeatedNumberDisagrees | Pocket-Pitwall/src/main.cpp:187 | with a number listed twice, the sidebar and the fastest-lap line name different drivers |
| Sidebar.SortEntries | Pocket-Pitwall/src/main.cpp:180 | the sort leaves the pairs ascending and a permutation of the input |
| Sidebar.CollectEntries | Pocket-Pitwall/src/main.cpp:179 | one (position, number) pair per active car, each exactly once |
| Sidebar.PermutationDistinct | Pocket-Pitwall/src/main.cpp:180 | sorting keeps the pairs distinct |
| Sidebar.OneEntryPerCar | Pocket-Pitwall/src/main.cpp:179 | an active car has a single entry |
| Sidebar.SortedTop | Pocket-Pitwall/src/main.cpp:180-184 | the first rows of a sorted list rank above every entry left out |
| Sidebar.SortedEntries | Pocket-Pitwall/src/main.cpp:178-180 | the sorted list holds exactly the active cars' entries, ascending and distinct |
| Sidebar.RankOrder | Pocket-Pitwall/src/main.cpp:178-184 | the listed cars are active, strictly ascending, one per car, min(6, active) of them, and rank above every active car left out |
| Sidebar.SidebarRows | Pocket-Pitwall/src/main.cpp:182-191 | row i sits at y = 25 + 15i with the first matching driver's colour and the label `pos.name` |
| Sidebar.Label | Pocket-Pitwall/src/main.cpp:189 | `"%d.%s"` of the position and the name; characterised by `Sidebar.LabelReadsBack` |
| Sidebar.LabelReadsBack | Pocket-Pitwall/src/main.cpp:189 | a row's label reads back as the position printed |
| Pitwall.ApplyChunk | Pocket-Pitwall/src/main.cpp:143-166 | one chunk's record applied when kept; characterised by `Pitwall.ApplyChunkKept` |
| Pitwall.ApplyFrom | Pocket-Pitwall/src/main.cpp:139-167 | the chunk loop from a start offset; characterised by `Pitwall.ApplyFromSplit` |
| Pitwall.MarkFor | Pocket-Pitwall/src/main.cpp:200-219 | the dot one tick draws for a car: none when it does not move or lands off screen, otherwise at its new pixel with its first roster colour and a ring at position 1 |
| Pitwall.ApplyChunkKept | Pocket-Pitwall/src/main.cpp:143-166 | handling a chunk applies the zero or one record it keeps |
| Pitwall.ApplyFromSplit | Pocket-Pitwall/src/main.cpp:138-168 | the chunk loop applies, in wire order, the records of the chunks after the timestamp |
| Pitwall.Replay.constructor | Pocket-Pitwall/src/main.cpp:35-51 | the table starts empty and the clock at "00:00" |
| Pitwall.Replay.Apply | Pocket-Pitwall/src/main.cpp:151-165 | the car's table entry is updated field by field as `ApplyRecord` |
| Pitwall.Replay.OnChunk | Pocket-Pitwall/src/main.cpp:142-166 | a chunk is decoded and its record applied if kept |
| Pitwall.Replay.NextChunk | Pocket-Pitwall/src/main.cpp:139-167 | one loop turn handles exactly the chunk up to the next separator bar (or the end), applying its record if kept, and continues one past it; the remaining loop then does the rest |
| Pitwall.Replay.ApplyChunks | Pocket-Pitwall/src/main.cpp:138-168 | the loop applies every chunk from the start offset; cars stay active |
| Pitwall.Replay.OnText | Pocket-Pitwall/src/main.cpp:126-168 | a frame without a separator bar changes nothing; otherwise the clock is the frame's and its records are applied in wire order, and all cars stay active |
| Pitwall.Replay.DrawReplay | Pocket-Pitwall/src/main.cpp:198-220 | every car advances one tick; a marker is made for each car that moved and is on screen, with its first roster colour and a leader ring at position 1; the numbers and clock are kept and every car stays active |
| Pitwall.Replay.TickCar | Pocket-Pitwall/src/main.cpp:199-219 | one car is advanced and its marker made, or none when skipped or culled; every car stays active |

## Left out

- Wi-Fi, HTTP, JSON parsing and the WebSocket transport (`fetchJSON`,
  `setup`, `loop`, the state machine and the 33 ms draw throttle) are I/O.
  The roster, the track bounds, the paths and each text frame are
  parameters of the model.
- Drawing primitives and `color565` belong to the display library. Draws are
  modelled as a list of calls, and colours as their three channels.
- The text printed by `drawSidebar` (the clock at 185,5 and the "FL:" line
  at 192) is output only and is not modelled.
- Physics.ApplyRecord, Physics.AdvanceCar and Geometry.WorldToScreen use
  exact reals, not 32-bit floats. Float rounding, and the conversion of the
  `int` target to `float`, are not modelled.
- Geometry.Fit: requires a positive width and height. With a zero extent the
  code divides by zero in floats, which reals cannot express.
- Text.ToInt: the timestamp is read into a 32-bit `long` (clamped), and the
  conversion of that value to `int` does not wrap. On the target, `long` and
  `int` are both 32 bits wide.
- Pitwall.Replay.OnText: the payload is read up to its first NUL byte. The
  model takes the frame as a string without NUL characters and ignores the
  `length` argument.
- Pitwall.Replay.DrawReplay: `std::map` visits cars in ascending order, so
  later dots are painted over earlier ones. The model visits the cars in any
  order and returns the markers as a map, so the order of overlapping dots is
  not modelled. Each car's tick is independent of the others.
- Sidebar.CollectEntries: collects in any order. The sort that follows makes
  the result independent of that order.
- `meta.winnerName` is never used by the program and is not modelled.
