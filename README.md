# Segments watchface: time-to-ring arithmetic, wedge loops and centre label

A Dafny model of the computational core of a Pebble watchface that draws two
concentric progress rings and a centre number. Every second the face reads the
local time and converts it into seconds since midnight. From that it draws:

- an outer ring that sweeps once every five minutes (300 s, 1.2 degrees per second);
- an inner ring that sweeps once per day (one degree per 240 s);
- a label with the number of the current five-minute block. The count-up form
  is `hour * 12 + minute / 5`. The count-down form, which the face uses
  because its `COUNT_UP` switch is false, is `288` minus that.

Each ring is drawn by filling a disc and then stamping one background-coloured
wedge for every whole degree from the computed angle up to 359.

The project has three modules, one per concern of `main.c`:

- `Clock` (`clock.dfy`) covers the clock reading and seconds since midnight.
  Its inverse `FromSeconds` and the proof that seconds since midnight order
  readings exactly as the clock does give the inverse and ordering properties.
- `Label` (`label.dfy`) covers the block numbers, the decimal text `%d`
  produces, and `snprintf` writing that text into a `char` array with a byte
  limit. It also holds `set_time_label` on a buffer of the size the call
  passes, and the buffer-size finding below.
- `Rings` (`rings.dfy`) covers both sweep angles and the wedge loop as a method
  that records each angle it stamps. It also holds the two redraw procedures.

The source computes both angles in `double` and truncates to `unsigned int`.
The model keeps that expression exactly, over `real`
(`MinuteAngleExact`, `HourAngleExact`). It proves that truncating it gives the
integer formulas `(x % 300) * 6 / 5` and `x / 240`, and that the exact quotient
is a whole number plus a multiple of 1/5 (outer ring) or of 1/240 (inner ring).

A clock reading admits `second == 60`, the leap second that a broken-down C time
may carry. The reading 23:59:60 is 86400 s, which gives an inner-ring angle of
360 and an empty wedge loop. `HourDisplayUpdate` states this.

Other variants of this watchface use 6-minute segments and a 360 s cycle; this
`main.c` uses 5-minute blocks, a 300 s cycle and 288 blocks, and the model
follows it.

## Model

| member | source | states |
|---|---|---|
| `Clock.WellFormed` | main.c:53 | a reading holds the field ranges of a broken-down local time: hour 0-23, minute 0-59, second 0-60 (60 being a leap second) |
| `Clock.TotalSeconds` | main.c:55 | seconds since midnight of a reading lie in [0, 86400]; they reach 86400 only at the leap second 23:59:60, and are below 86400 for every reading without one |
| `Clock.FromSeconds` | main.c:55 | every second count below 86400 is the seconds-since-midnight of the reading it returns (count to reading and back gives the same count), which has fields in range and no leap second |
| `Clock.TotalSecondsInverse` | main.c:55 | for readings without a leap second, converting a reading to seconds and back gives the same reading, so no two such readings share a second count (the leap reading 00:00:60 shares 60 s with 00:01:00) |
| `Clock.TotalSecondsOrder` | main.c:55 | for readings without a leap second, one reading is earlier than another (hour, then minute, then second) exactly when its second count is smaller, and equal counts mean equal readings |
| `Label.CountUpBlock` | main.c:37 | the count-up block number lies in [0, 287] and is 0 exactly during 00:00-00:04 |
| `Label.CountDownBlock` | main.c:39 | the count-down block number lies in [1, 288], and count-up plus count-down is always 288 |
| `Label.BlockNumber` | main.c:36-40 | the label's number is in [0, 287] when counting up and in [1, 288] when counting down |
| `Label.CountUpBlockIsCycleIndex` | main.c:37 | for readings without a leap second, the count-up block equals the seconds since midnight divided by 300, the index of the outer ring's current cycle |
| `Label.BlockMonotone` | main.c:36-40 | as the time of day advances, the count-up block never decreases and the count-down block never increases |
| `Label.CountDownLandmarks` | main.c:39 | the count-down number is 288 at 00:00, 144 at 12:00 and 1 at 23:55 |
| `Label.Decimal` | main.c:44 | the `%d` text of a non-negative number is at least one character long and made of decimal digits only |
| `Label.DecimalWellFormed` | main.c:44 | the `%d` text of a block number is non-empty, consists of digits only, and starts with '0' only for the number 0 (no leading zeros) |
| `Label.DecimalRoundTrip` | main.c:44 | reading the `%d` text back as a base-10 number gives the original number |
| `Label.DecimalLength` | main.c:44 | the `%d` text of n has at most k characters exactly when n < 10^k |
| `Label.LabelDigits` | main.c:36-44 | every block number the label can show has 1 to 3 digits, and has 2 or more exactly when it is at least 10 |
| `Label.BytesStored` | main.c:44 | snprintf with size s stores between 1 and s bytes, never more than the text plus its terminator, stores the whole text plus terminator exactly when the text is shorter than s, and otherwise stores exactly s bytes (s - 1 characters and the terminator) |
| `Label.CString` | main.c:47 | the text a terminated buffer displays is a prefix of the buffer without a NUL, and is followed by the NUL if it stops before the end |
| `Label.CStringOfTerminated` | main.c:47 | a buffer holding text, a NUL and then anything displays exactly that text |
| `Label.Snprintf` | main.c:44 | formatting n with size s writes the digits that fit before the last allowed byte and then a NUL, returns the full text length, and leaves every later byte untouched |
| `Label.SetTimeLabel` | main.c:34-48 | with a buffer of at least 4 bytes, the buffer then displays the full decimal text of the block number (which reads back as that number and is shorter than 4 characters), and every byte after the terminator is untouched |
| `Label.LabelFitsBuffer` | main.c:43-44 | with size 4 the label text is never truncated: snprintf stores all its digits and the terminator |
| `Label.DeclaredBufferOverflow` | main.c:43-44 | as written, snprintf stores more bytes than the 2-byte buffer holds exactly when the block number is 10 or more |
| `Label.MidnightOverflow` | main.c:39-44 | at 00:00 the count-down label "288" takes 4 bytes, two more than the declared buffer |
| `Rings.MinuteAngle` | main.c:56 | the outer-ring angle is below 360 and is 0 exactly at multiples of 300 seconds |
| `Rings.HourAngle` | main.c:79 | the inner-ring angle is below 360 for every second count of an ordinary day, is exactly 360 at 86400, and is 0 exactly during the first 240 seconds |
| `Rings.MinuteAngleExact` | main.c:56 | the exact value of `(x % 300) * 360.0 / 300.0` before truncation lies in [0, 360) |
| `Rings.HourAngleExact` | main.c:79 | the exact value of `x / 240.0` before truncation is non-negative, below 360 for every second count of an ordinary day, and exactly 360 at 86400 |
| `Rings.MinuteAngleTruncates` | main.c:56 | truncating the exact quotient `(x % 300) * 360 / 300` gives `MinuteAngle(x)`; the quotient exceeds it by a multiple of 1/5 below 1 |
| `Rings.HourAngleTruncates` | main.c:79 | truncating the exact quotient `x / 240` gives `HourAngle(x)`; the quotient exceeds it by a multiple of 1/240 below 1 |
| `Rings.MinuteAngleMonotone` | main.c:56 | within one 300-second cycle the outer-ring angle never decreases |
| `Rings.MinuteAnglePeriodic` | main.c:56 | the outer-ring angle repeats every 300 seconds |
| `Rings.HourAngleMonotone` | main.c:79 | the inner-ring angle never decreases as the seconds grow |
| `Rings.MinuteRingRestartsWithBlock` | main.c:37-56 | for readings without a leap second, the outer ring is at 0 exactly when the time is the start of the label's current five-minute block |
| `Rings.LeapSecondRestartsRingEarly` | main.c:37-56 | at a leap second hh:m4:60 the outer ring is already at 0, since the seconds reach the start of the next block, while the label still shows the current block; the ring restarts one second before the label changes |
| `Rings.AngleLandmarks` | main.c:55-79 | 00:05:30 is 330 s with outer angle 36; the inner angle is 0 at midnight, 180 at noon, 359 at 23:59:59 and 360 at 23:59:60 |
| `Rings.RingsNest` | main.c:61-92 | radii nest without overlap (50 < 54 < 55 < 60), and each wedge path (62, 56) reaches past its ring's outer radius |
| `Rings.HourWedgeReachesMinuteBand` | main.c:19-69 | the hour wedge path (56) reaches 1 pixel past the minute ring's inner radius (55) and stays inside its outer radius (60) |
| `Rings.StampWedges` | main.c:64-67 | the loop stamps exactly the degrees start, start+1, ..., 359, in strictly increasing order and each once (360 - start stamps, none when start >= 360), and terminates |
| `Rings.MinuteDisplayUpdate` | main.c:51-72 | the outer ring stamps between 1 and 360 wedges, from its angle up to 359, then sets the label buffer to the block number's decimal text, shorter than 4 characters, leaving every byte after the terminator untouched |
| `Rings.HourDisplayUpdate` | main.c:74-93 | the inner ring stamps the wedges from its angle up to 359; it stamps none exactly at the leap second 23:59:60 |

## Left out

- Reading the clock with `time(NULL)` and `localtime` (main.c:52-53, main.c:75-76) is not modelled. The reading is an input; each redraw takes one.
- Window, layer and text-layer lifecycle (main.c:100-164) is toolkit plumbing and is not modelled. This covers `main_window_load`, `main_window_unload`, `init`, `deinit`, `main` and the layer handles.
- The second tick handler and `layer_mark_dirty` (main.c:95-98) are event plumbing and are not modelled.
- The wedge geometry is not modelled, because it is foreign trigonometry. This covers `gpath_rotate_to`, `gpath_draw_filled`, the fixed-point `TRIG_MAX_ANGLE / 360.0` conversion and `graphics_fill_circle`. Each wedge is recorded as the whole degree it is rotated to. Only the wedge paths' lengths and the ring radii are kept, as constants.
- Pixels, colours and fonts are not modelled. `Rings.HourWedgeReachesMinuteBand` shows that the hour wedges (56) reach past the minute ring's inner radius (55). The hour layer is added after the minute layer (main.c:111-113 after main.c:104-106) and so is drawn over it. Its background-coloured wedges therefore plausibly erase a 1-pixel strip at the inside of the minute ring, over the degrees from the hour angle to 359. This was not executed; the model does not rasterise anything.
- `Rings.MinuteAngleTruncates`: IEEE double rounding is not modelled; the quotient is exact over `real`. Because the exact quotient is whole or at least 1/5 from the next whole degree, and every value stays below 360, rounding to the nearest double cannot change the truncated result.
- `Rings.HourAngleTruncates`: IEEE double rounding is not modelled, for the same reason with a gap of 1/240.
- `Label.Snprintf` models only the `%d` conversion of a non-negative number. No block number is ever negative, so `-` signs and other formats are not modelled.
- Overflow of the 32-bit `int` and `unsigned int` arithmetic is not modelled. No reading in range comes near it: the largest value is 86400.
- `Label.SetTimeLabel` and `Rings.MinuteDisplayUpdate` model the buffer as an array of at least 4 bytes, which is the corrected size. The declared 2-byte buffer is covered only by `Label.DeclaredBufferOverflow`, which counts the bytes written past its end. What those stray bytes overwrite depends on memory layout and is not modelled.

## Findings

| source | as written | input that shows it | evidently intended | confidence | as-written member | corrected member |
|---|---|---|---|---|---|---|
| main.c:43-44 | the label buffer is initialised from a one-character string, so it has 2 bytes, yet snprintf is told it may write 4 | 00:00:00 counting down: block 288, text "288" plus terminator is 4 bytes, 2 past the end; any block number of 10 or more overflows | a buffer of at least 4 bytes (3 digits plus terminator) | not executed; high | `Label.DeclaredBufferOverflow` | `Label.SetTimeLabel` |
