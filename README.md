# Payday banner generator: a verified model of its frame logic

The payday banner generator draws the "POLICE ASSAULT IN PROGRESS" style
banner: a translucent strip that blinks in, grows to full width and scrolls a
marquee of text and skull glyphs. Beside the strip sits a square threat
indicator, and the background pulses between two colours. The program can
export the animation as a video or a GIF and picks a loop length for it.

This Dafny project models the deterministic logic of that program
(`payday_banner.py`):

- `Text`: the pieces of Python's `str` that the code relies on. This covers
  `isspace`, slicing with out-of-range bounds, `strip` and ASCII `upper`.
- `Numeric`: Python's `int()` on floats, which truncates toward zero, and
  float `%`, which floors. Both are defined on Dafny's exact `real`, with the
  arithmetic facts the proofs need.
- `FileNames`: `sanitize_filename` and `generate_export_filename`. The clock
  reading is passed in as a `DateTime`.
- `Marquee`: `get_skulls` (a label→count table with a default of 1) and the
  repeating text unit the banner scrolls.
- `Colors`: the `#RRGGBB` parse and format helpers and `darken_color`.
  `auto_generate_bg_colors` is the method `ColorSettings.AutoGenerateBgColors`
  on a small class that holds the three colour settings it reads and writes.
- `Renderer`: `draw_frame` as a function from time, configuration, canvas
  size and the measured pixel width of one text unit to a `Scene`. A `Scene`
  is a description of what is drawn, not pixels. It holds:
  - the canvas size and indicator opacity;
  - the banner width and background colour;
  - the banner and indicator positions;
  - the x positions at which the text is tiled;
  - the eight corner accents and the indicator triangle.

  The tiling `while` loop is the method `TileMarquee`. `DrawFrame` and
  `DrawScene` compute the frame step by step, as the source does, and are
  proved equal to the `Frame` function.
- `LoopSync`: `estimate_loop_duration` and the bounded search of
  `_find_lcm_duration`. The search loop is the method `FindLcmDuration`,
  which is proved equal to the function `LcmDuration`.

Errors are values:
- a negative canvas size is `Failure(BadCanvasSize)`, where the image library
  raises;
- a colour string that `int(…, 16)` rejects is `Failure(BadColor)`, where
  Python raises `ValueError`.

These two checks happen in the same order as in the source.

Two behaviours of the code are easy to misread, and the model keeps them as
written:

- Banner and indicator are not centred as one unit. `draw_frame` computes the
  horizontal offset without the 10 px gap, so `banner_x` is always 20 and the
  indicator ends 10 px before the right edge (`Renderer.LayoutFullWidth`).
- `estimate_loop_duration` divides the raw measured width by 200, with no
  100 px fallback for a degenerate measurement. Only `draw_frame` substitutes
  100 px (`Renderer.UnitWidth`).

## Model

| member | source | states |
|---|---|---|
| Text.Slice | payday_banner.py:36 | `s[i:j]` never fails. For in-range bounds it is the plain subsequence, and an upper bound past the end clamps to the end. |
| Text.LeadingSpace | payday_banner.py:35 | Counts the whitespace characters at the start of a string: all of them are whitespace, and the next one is not. |
| Text.Strip | payday_banner.py:35 | The result is the slice of the input that starts right after its leading whitespace, and everything after the slice is whitespace. It neither starts nor ends in whitespace, and it is the input itself when there is no whitespace. |
| Text.Upper | payday_banner.py:217 | Same length. Every ASCII lower-case letter is shifted to upper case and every other character is kept. |
| FileNames.FallbackSafe | payday_banner.py:37 | The fallback name `"export"` holds neither forbidden characters nor whitespace. |
| FileNames.RemoveForbidden | payday_banner.py:34 | No character of `<>:"/\|?*` is left, every kept character comes from the input, and a clean input is unchanged. |
| FileNames.RemoveForbiddenCounts | payday_banner.py:34 | Every character outside `<>:"/\|?*` is kept as often as it occurs in the input. |
| FileNames.RemoveForbiddenAppend | payday_banner.py:34 | Deletion works character by character: the result for `a + b` is the result for `a` followed by the result for `b`, so the kept characters stay in order. |
| FileNames.RemoveForbiddenChar | payday_banner.py:34 | A single character is deleted exactly when it is forbidden. |
| FileNames.CollapseSpace | payday_banner.py:35 | No whitespace is left. Every character is `_` or from the input, and input without whitespace is unchanged. |
| FileNames.CollapseSpaceRun | payday_banner.py:35 | A maximal whitespace run between two pieces becomes exactly one `_`: collapsing `a + ws + b` gives collapse(`a`) + `_` + collapse(`b`). |
| FileNames.CollapseSpaceEmpty | payday_banner.py:35 | The collapsed text is empty exactly when the text is. |
| FileNames.CollapseSpaceKeepsWords | payday_banner.py:35 | Replacing whitespace runs by `_` keeps the non-space characters in the same order. |
| FileNames.Cleaned | payday_banner.py:34-35 | After deletion, strip and collapse, the text is safe (no forbidden character, no whitespace), made of `_` and input characters, and a safe input is unchanged. |
| FileNames.StripKeepsWords | payday_banner.py:35 | `strip()` keeps every non-space character, in order. |
| FileNames.StripEmpty | payday_banner.py:35 | `strip()` gives the empty string exactly when the text is all whitespace. |
| FileNames.CleanedWords | payday_banner.py:34-35 | The cleaned text holds exactly the non-space characters left after deletion, in the same order; only whitespace changes, into `_`. |
| FileNames.CleanedEmpty | payday_banner.py:34-35 | The cleaned text is empty exactly when the text holds nothing but forbidden characters and whitespace. |
| FileNames.SanitizeFilename | payday_banner.py:32-37 | The name is never empty and always safe. It is at most `max_length` long unless it is the fallback `"export"`, and it is the fallback or made of `_` and input characters. |
| FileNames.SanitizeFilenameCut | payday_banner.py:32-37 | The name is the cleaned text cut by `[:max_length]` unless that is empty, and then `"export"`. A blank text or a bound of 0 gives `"export"`; otherwise a positive bound keeps the first `min(max_length, len)` characters. |
| FileNames.SanitizeSafe | payday_banner.py:32-37 | A non-empty safe name no longer than `max_length` is returned unchanged. |
| FileNames.SanitizeIdempotent | payday_banner.py:32-37 | When `"export"` fits in `max_length` (so for the default 50), sanitising twice equals sanitising once. |
| FileNames.FormatTimestamp | payday_banner.py:42 | `%Y%m%d_%H%M%S` gives 15 characters with `_` at position 8. |
| FileNames.ReadDigitsOfDigits | payday_banner.py:42 | Zero-padded decimal digits of a number that fits the width read back as that number. |
| FileNames.TimestampRoundTrip | payday_banner.py:42 | A valid date and time (four-digit year) is recovered from its formatted timestamp. |
| FileNames.ExportFileName | payday_banner.py:40-44 | The stem of the export name is exactly `sanitize_filename(banner_text)`. For a valid clock reading, that stem is non-empty, safe and at most 50 characters long, and it is followed by `_`, a timestamp that parses back to the given time, `.` and the format. |
| FileNames.NameParts | payday_banner.py:44 | Any non-empty safe stem of at most 50 characters, joined with `_`, the timestamp, `.` and the format, splits back into those parts. |
| Marquee.SkullCount | payday_banner.py:115-119 | A number is used as given. A label outside the table gives 1, and any label gives a count in 0..10. |
| Marquee.LevelNamesCount | payday_banner.py:101-113 | Each of the eleven difficulty labels maps to its own position in the list, its number of skulls. |
| Marquee.Repeat | payday_banner.py:121 | `[x] * n` has `max(n, 0)` elements, all equal to `x`. |
| Marquee.Join | payday_banner.py:121 | `sep.join(parts)` has the parts' total length plus one separator per neighbouring pair, starts with the first part, and puts a separator right after it. |
| Marquee.JoinLayout | payday_banner.py:121 | Every part of `sep.join(parts)` sits at `PartStart`: the total length of the parts before it plus one separator for each of them. Exactly one separator lies between each part and the next, ending where the next part starts. |
| Marquee.JoinSkulls | payday_banner.py:121 | Joining `n ≥ 1` skull glyphs with `" "` gives `2n-1` characters alternating glyph and space. |
| Marquee.GetSkulls | payday_banner.py:100-121 | A count of 0 or less gives two spaces. A positive count `n` gives length `2n+1`, with the glyph U+2126 at odd positions and spaces elsewhere. |
| Marquee.SkullCountMatches | payday_banner.py:100-121 | The suffix holds exactly as many skull glyphs as the level's count, and none for a non-positive count. |
| Marquee.BaseMessage | payday_banner.py:215-217 | The message is never empty and holds no lower-case ASCII letter. Empty custom text gives the default phrase. Otherwise the message has the custom text's length, each ASCII lower-case letter is raised to its capital, and every other character is kept. |
| Marquee.MarqueeUnit | payday_banner.py:214-221 | The unit is the message, then `" /// "` followed by the level's skull suffix, then `" /// "`, and its length is the sum of the parts. |
| Marquee.SkullsInAppend | payday_banner.py:221 | The skull glyphs of a concatenation are those of its parts added up. |
| Marquee.SkullsInNone | payday_banner.py:221 | A string without the glyph holds no skulls. |
| Marquee.MarqueeUnitSkulls | payday_banner.py:214-221 | The unit holds the level's skulls (none for a non-positive count) on top of any the message itself holds; the separators add none. |
| Colors.HexValue | payday_banner.py:146 | A hex digit's value lies in 0..15. |
| Colors.LowerHex | payday_banner.py:146 | Lowering a hex digit gives a lower-case hex digit: `'A'`..`'F'` move up by 32, the rest are kept. |
| Colors.HexValueNibble | payday_banner.py:675-679 | A digit's value is the one whose `{:x}` digit is the digit's lower-case form, so `'A'`..`'F'` are worth 10..15 like `'a'`..`'f'`. |
| Colors.Nibble | payday_banner.py:679 | `{:02x}` writes a value 0..15 as the lower-case digit whose value it is. |
| Colors.ParseHexField | payday_banner.py:146 | `int(s, 16)` on a slice of at most two characters fails on the empty slice. When it succeeds the value lies in -15..255, and two hex digits give `16·hi + lo`. |
| Colors.IntTrim | payday_banner.py:146 | The result is an infix of the text, and everything cut from either end is whitespace that `int()` skips. The result neither starts nor ends with such whitespace, so exactly the blanks at both ends are removed. |
| Colors.ParseHexFieldMeans | payday_banner.py:146 | On every slice of at most two characters the field parser equals an independent reading of `int(s, 16)`: trim `int()`'s whitespace, then read an optional sign and one or more hex digits of either case. |
| Colors.StripHashes | payday_banner.py:146 | `lstrip('#')` removes a prefix made only of `#` and leaves a string that does not start with `#`. |
| Colors.HexToRgb | payday_banner.py:675-676 | `hex_to_rgb` fails when four or fewer characters follow the hashes, and a colour it returns has every channel in -15..255. |
| Colors.LowerCaseColor | payday_banner.py:675-679 | Lowering a well-formed colour gives `#` and six lower-case digits, each the lower-case form of the original, and leaves a lower-case colour unchanged. |
| Colors.HexDigits | payday_banner.py:679 | The hex digits of `n` are one digit below 16 and two digits, high nibble first, below 256. |
| Colors.Hex02 | payday_banner.py:679 | `{:02x}` gives at least two characters and a leading `-` for a negative value. A byte is written as exactly two lower-case digits, high nibble first. |
| Colors.Hex02Parses | payday_banner.py:675-679 | A byte formatted with `{:02x}` has two characters and parses back to itself. |
| Colors.RgbToHex | payday_banner.py:678-679 | `rgb_to_hex` starts with `#` and has at least 7 characters; a colour with byte channels gives `#` and exactly six lower-case hex digits. |
| Colors.HexColorFields | payday_banner.py:675-676 | On a well-formed colour of either case, `hex_to_rgb` reads the slices at 1, 3 and 5. |
| Colors.RgbRoundTrip | payday_banner.py:675-679 | `hex_to_rgb(rgb_to_hex(c)) == c` for every colour with byte channels. |
| Colors.HexRoundTrip | payday_banner.py:675-679 | A well-formed `#rrggbb` of either case parses to byte channels and formats back to its lower-case form, so a lower-case one comes back unchanged. |
| Colors.FieldRoundTrip | payday_banner.py:675-679 | Two hex digits of either case parse to a byte that formats back to their lower-case forms. |
| Colors.ScaleChannel | payday_banner.py:684 | `int(v * factor)` with a factor in [0, 1] is a byte no larger than `v`. |
| Colors.DarkenValid | payday_banner.py:681-684 | Darkening by a factor in [0, 1] gives a valid colour with no channel brighter than before. |
| Colors.DarkenColor | payday_banner.py:681-684 | `darken_color` fails exactly when `hex_to_rgb` does, and otherwise gives a string starting with `#`. |
| Colors.DarkenColorDarker | payday_banner.py:681-684 | `darken_color` on a well-formed colour of either case succeeds and gives a lower-case well-formed colour with no channel brighter than the input's. |
| Colors.PulseOfByte | payday_banner.py:789-797 | On a byte, `int(v*0.80)` is `⌊4v/5⌋` and `int(v*0.40)` is `⌊2v/5⌋`, and `0 ≤ 40% ≤ 80% ≤ v`. |
| Colors.PulseColorsOfValid | payday_banner.py:789-797 | Pulse A is 4/5 and pulse B is 2/5 of each channel, rounded down, and both are valid colours. |
| Colors.ParseMainColor | payday_banner.py:782-787 | Reading the fields at offsets 1, 3 and 5 fails on a string of five or fewer characters, and gives channels in -15..255. |
| Colors.AutoBgColors | payday_banner.py:780-803 | The pulse colours exist exactly when the main colour parses at offsets 1, 3 and 5, and both start with `#`. |
| Colors.MainColorAgrees | payday_banner.py:782-787 | On a well-formed colour, reading the fields at offsets 1, 3 and 5 agrees with `hex_to_rgb`. |
| Colors.AutoBgColorsSpec | payday_banner.py:780-803 | For a well-formed main colour of either case both generated colours are lower-case well-formed hex, and they parse to 4/5 and 2/5 of the main colour. |
| Colors.DefaultColors | payday_banner.py:412-415 | The default main colour `#FFEF00` reads as (255, 239, 0), and auto-generation at start-up turns it into the background pair `#ccbf00` and `#665f00`. |
| Colors.DefaultFields | payday_banner.py:412 | The default `#FFEF00` is a well-formed colour and reads as (255, 239, 0). |
| Colors.FormatsAs | payday_banner.py:799-800 | The two default pulse colours format as `#ccbf00` and `#665f00`. |
| Colors.ColorSettings.AutoGenerateBgColors | payday_banner.py:780-803 | The main colour is unchanged. On success both background settings become the 80%/40% pair, and when the main colour does not parse they are left as they were. |
| Renderer.IndicatorOpacity | payday_banner.py:156-163 | The opacity is 0 or 255, and 255 whenever the intro is off or its blink time is over. |
| Renderer.OpacityBlink | payday_banner.py:157-163 | During the intro blink the indicator is shown iff `t mod 0.5 ≤ 0.25`. |
| Renderer.OpacityPeriodic | payday_banner.py:158-163 | During the blink, moving by whole half-second periods does not change the opacity. |
| Renderer.BannerWidth | payday_banner.py:165-178 | For a canvas at least 100 wide the width lies in [0, canvas−100]. It is the full target with no intro or once expanded, and 0 during the blink. |
| Renderer.GrowBounds | payday_banner.py:174-176 | `int(target·progress)` with progress in [0, 1] lies in [0, target]. |
| Renderer.GrowMono | payday_banner.py:176 | More progress never gives a narrower banner. |
| Renderer.WidthMonotone | payday_banner.py:165-178 | The banner width never decreases over time. |
| Renderer.Cycle | payday_banner.py:188 | `(loop_time·speed) % 1.0` lies in [0, 1). |
| Renderer.MixFactor | payday_banner.py:185-193 | The mix factor lies in [0, 1], and is 0 whenever the pulse speed is not positive. |
| Renderer.MixStart | payday_banner.py:188-191 | The triangle wave starts at 0. |
| Renderer.MixPeak | payday_banner.py:188-193 | The wave reaches 1 at the middle of every cycle. |
| Renderer.MixPeriodic | payday_banner.py:187-193 | Shifting the loop time by whole cycles `k/speed` leaves the mix factor unchanged. |
| Renderer.BlendBounds | payday_banner.py:195-197 | `a + (b−a)·m` lies between `a` and `b`, and is `a` at `m = 0` and `b` at `m = 1`. |
| Renderer.LerpBetween | payday_banner.py:195-197 | Each channel after `int()` lies between the two colours' channels, and is exactly the first at `m = 0` and the second at `m = 1`. |
| Renderer.BackgroundColor | payday_banner.py:180-198 | Every channel lies between the two background colours. It is exactly the first colour until the banner is expanded, and always when the speed is not positive. |
| Renderer.BackgroundPeriodic | payday_banner.py:180-198 | After expansion, whole pulse cycles `1/speed` later the background colour is the same. |
| Renderer.BannerX | payday_banner.py:201-202 | The banner's left edge is at 20 for every canvas width. |
| Renderer.LayoutFit | payday_banner.py:128-206 | In fit mode the banner sits `padding` from the top and from the bottom, and the indicator `padding + 10` from the top. |
| Renderer.LayoutFixed | payday_banner.py:128-206 | In fixed mode the canvas is 1080 high, with the banner at y 500 and the indicator at y 510. |
| Renderer.LayoutFullWidth | payday_banner.py:200-206 | At full width the banner starts at x 20 and the indicator ends 10 px before the right edge. |
| Renderer.ScrollTime | payday_banner.py:230-232 | The scroll time is never negative, and it is 0 until the banner reaches full width, so the marquee stands still during the blink and the expansion. |
| Renderer.ScrollOffset | payday_banner.py:234 | The scroll offset is never negative, and it is 0 until the banner reaches full width. |
| Renderer.UnitWidth | payday_banner.py:236-238 | The unit width is at least 1, and is the measurement whenever that is at least 1. |
| Renderer.ScrollStart | payday_banner.py:240 | The first tile starts in (−unit, 0]. |
| Renderer.ScrollStartPeriodic | payday_banner.py:240 | Growing the offset by one unit does not move the first tile. |
| Renderer.ScrollOneUnit | payday_banner.py:229-234 | After expansion, `unit/200` seconds later the offset has grown by exactly one unit. |
| Renderer.ScrollPeriodic | payday_banner.py:229-240 | After expansion, whole multiples of `unit/200` seconds later the first tile is at the same place: the scroll wraps seamlessly. |
| Renderer.Tiles | payday_banner.py:244-247 | There is a tile iff the start is left of the banner's right edge; the first tile is at the start, and every tile lies between the start and the edge. |
| Renderer.TilesShape | payday_banner.py:244-247 | Tile `i` is at `start + i·unit` and left of the banner's right edge. There is a tile iff the start is left of that edge, and the last tile reaches the edge. |
| Renderer.TilesCover | payday_banner.py:244-247 | Every pixel column from the start to the banner's edge lies under some tile. |
| Renderer.TileMarquee | payday_banner.py:244-247 | The `while` loop terminates and draws exactly the tile sequence `Tiles`. |
| Renderer.Corners | payday_banner.py:249-271 | There are eight accents. The bottom ones mirror the top ones, the right ones mirror the left ones, and all lie inside a banner at least 20 wide. The top-left pair is the bar from (0, 0) to (20, 3) and the bar from (0, 0) to (3, 20). |
| Renderer.Triangle | payday_banner.py:281-288 | The outline is closed: apex, right foot, left foot, apex. The feet are the bottom-right and bottom-left corners of the square inset 12 px in the indicator. The apex is 12 px below the top, centred between the feet (x = left + 30). |
| Renderer.DrawFrame | payday_banner.py:123-290 | Step by step, the result is exactly `Frame`: the size error, then the colour error, then the scene. |
| Renderer.DrawScene | payday_banner.py:150-288 | With the tiling loop run only for a visible banner, the scene is exactly `FrameScene`. |
| Renderer.Frame | payday_banner.py:123-148 | A frame fails with `BadCanvasSize` iff the canvas size is negative, and with `BadColor` iff the size is good but a colour does not parse. Otherwise it is the scene of the parsed colours. |
| Renderer.FrameScene | payday_banner.py:150-247 | The scene has the canvas size, the banner width, background colour and indicator opacity of the moment, and holds a banner exactly when that width is positive, tiled from the scroll position. |
| Renderer.Compose | payday_banner.py:200-288 | The banner is drawn exactly when its width is positive, at that width and 80 high, over the background at alpha 180, with the marquee unit and the eight `Corners` accents in the main colour, both fully opaque (alpha 255). It is placed at `BannerX` and `BannerY`, with the text at `TextY` and a text unit `UnitWidth` wide. The indicator is drawn exactly when its opacity is positive. It is a 60×60 box at `IndicatorX` and `IndicatorY` in the main colour at that opacity, and its outline is the `Triangle` anchored at the box's top-left corner, in black at the same opacity. |
| Renderer.FrameTilesCover | payday_banner.py:208-247 | A drawn banner has a unit of at least 1 and at least one tile, the first in (−unit, 0]. Tiles are evenly spaced, left of the edge, and cover every column of the banner. |
| Renderer.FirstFrameWithoutIntro | payday_banner.py:150-198 | With the intro off, the first frame already shows the full-width banner over the first background colour and the fully opaque indicator. |
| Renderer.FrameLayout | payday_banner.py:200-279 | In a drawn frame the banner is at x 20 and the indicator starts 10 px after it. Both are centred on the canvas's vertical middle. |
| LoopSync.FirstAlignedLeast | payday_banner.py:352-356 | The search returns the least aligned count in range, and when it finds none, no count in range aligns. |
| LoopSync.LoopCount | payday_banner.py:352-359 | The count is the least `n ≤ max_loops` at which the cycles align within tolerance, or 1 when none does. |
| LoopSync.CyclesRange | payday_banner.py:356 | At least one cycle lasts at least one cycle, and more cycles never last less. |
| LoopSync.LcmDuration | payday_banner.py:332-359 | `cycle_b` when `cycle_a ≤ 0` and `cycle_a` when only `cycle_b ≤ 0`. Otherwise it is `n` cycles of `cycle_a`, where `n` is the least count up to `max_loops` at which the cycles align, or 1 when none aligns. That lies between one and `max_loops` cycles. |
| LoopSync.FindLcmDuration | payday_banner.py:332-359 | The loop with early return computes `LcmDuration`. Two fallbacks apply: `cycle_b` when `cycle_a ≤ 0`, and `cycle_a` when `cycle_b ≤ 0`. Otherwise it is `cycle_a` times the least aligned count. |
| LoopSync.FlickerCycle | payday_banner.py:318-323 | The flicker cycle is positive iff the pulse speed is. |
| LoopSync.EstimateLoopDuration | payday_banner.py:292-330 | The estimate computes `LoopDuration`. |
| LoopSync.LoopDurationWholeCycles | payday_banner.py:315-330 | For a real measurement the estimate is between 1 and 10 whole text cycles. |
| LoopSync.LoopDurationStatic | payday_banner.py:326-327 | With the pulse off the estimate is one text cycle, `measured/200`. |
| LoopSync.LoopDurationExample | payday_banner.py:292-359 | A 400 px unit at pulse speed 0.5 loops in 2 seconds. |
| LoopSync.LoopDuration | payday_banner.py:292-330 | The estimate is never negative, and for a real measurement it lies between one and ten text cycles. |
| LoopSync.LoopScrollSeamless | payday_banner.py:292-330 | After expansion, a loop of the estimated length returns the marquee to the same scroll position. |
| LoopSync.LoopPulseSeamless | payday_banner.py:292-330 | After expansion, a loop whose length is an exact multiple of the pulse cycle also returns the background to the same colour. |

## Left out

- The Tk control panel, its themes, dialogs and preview scheduling are not part of this model. They are user interface.
- The export thread, progress updates and the video and GIF writers are not modelled. They are concurrency and foreign I/O.
- Font discovery and loading are not modelled: they probe the file system and the font library. The measured pixel width of one text unit is an input (`measured`).
- Pixels are not modelled. PIL's rasterisation (`rectangle`, `text`, `line`, `paste`) becomes the rectangles, positions, colours and opacities recorded in the `Scene`.
- IEEE floating point is not modelled. Times, speeds, cycles and products use exact `real` arithmetic, so rounding at float precision is not captured.
- The `datetime.now()` clock read is not modelled. The timestamp is a parameter, and `TimestampRoundTrip` covers four-digit years only.
- `draw_frame`'s `height_val` parameter is not modelled: the code never reads it.
- The defaults of `config.get(…)` are not modelled. The configuration record always holds every key, as the application's configuration always does.
- Text.Upper: covers ASCII letters only. Python's full Unicode case mapping is not modelled.
- Colors.ParseHexField: accepts ASCII hex digits, a sign and surrounding whitespace. Non-ASCII digits, which `int()` also accepts, are not modelled.
- Renderer.BannerWidth: its contract does not restate the expansion-phase value `int(target·progress)`. Over that phase it gives the bounds, and `WidthMonotone` gives the ordering.
- LoopSync.LoopDurationWholeCycles: requires a measurement of at least 1 px. `estimate_loop_duration` has no fallback, and a zero measurement makes the text cycle 0, so the loop length falls back to the flicker cycle.
