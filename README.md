# WordClock input and display core, in Dafny

This project models two parts of a word clock's firmware:

- **Button input** (`button.dfy`, module `ButtonInput`). This is the debounce and click-classification machine of one push button.
  - `update()` takes the millisecond clock and the pin level. It moves the button between `Released`, `Pressed`, `ClickedSingle` and `ClickedDouble`. It records when the press started and when it ended. On a completed gesture it raises a sticky single-click or double-click flag.
  - `perform_clicks()` runs one update. It then reads and clears at most one flag, single before double, and dispatches the matching action if that action is set.
  - The state-changing C++ class is modelled as the class `Button`. Its methods `Update` and `PerformClicks` are specified by the pure functions `Step`, `Resolve` and `Poll` on a `ButtonState` value. The properties are proved as lemmas about those functions.
- **LED segment painter** (`led_array.dfy`, module `LedStrip`). An `LedArray` is the half-open range `[start, end)` of one word on the face.
  - `paint(color)` writes the color into the strip's pixel buffer at every index of the range, except the unmounted light 89.
  - The buffer is an `array<bv32>` of the strip's 116 pixels, and `Paint` updates it in place. It is specified by the function `Painted` on the buffer's contents.

Modelling choices:

- The clock (`millis()`) and the pin (`digitalRead()`) are parameters of `Update` and `PerformClicks`.
- `unsigned long` is 32 bits wide on the controller, so `now - start_time` is modelled as `Elapsed`: the difference modulo 2^32. `Update` therefore has no precondition on the order of timestamps. The gesture lemmas assume that the clock does not wrap during the gesture. `ExampleTimelines` shows a press that spans a wrap.
- The two action pointers are modelled by whether each one is set. `PerformClicks` returns the click it resolved and whether an action is invoked, instead of calling through a pointer.
- `perform_clicks()` turns interrupts off around its update and flag clearing. The model treats the whole call as one atomic step.

Two timing details follow the code exactly:

- The second release must come strictly more than 50 ms after the second press (etc/code/wordclock/a/Button.cpp:63). A release no more than 50 ms after the second press is ignored; the next released reading more than 50 ms after the second press completes the double click.
- The double-click window is measured from the first press, `start_time`, not from the first release (etc/code/wordclock/a/Button.cpp:54).

Series of readings: the interrupt routine calls `update()` and the main loop calls `perform_clicks()`, in any interleaving. An `Event` is one such reading of the clock and the pin. Its `polled` field says which of the two entry points took it. `Trace` runs a series of events and lists the click each one reports. The gesture lemmas allow any number of intermediate readings inside each phase, as long as their levels and times fit that phase. After the click window closes, `SingleClickGesture` covers a poll as the next reading and `SingleClickLateIsr` covers interrupt updates before the poll.

## Model

| member | source | states |
|---|---|---|
| `ButtonInput.Elapsed` | etc/code/wordclock/a/Button.cpp:46 | the unsigned difference `now - since` is the time that, added to `since` modulo 2^32, gives `now`; it is the plain difference when `since <= now` and wraps otherwise |
| `ButtonInput.ThresholdsOrdered` | etc/code/wordclock/a/Button.hpp:7-8 | the debounce threshold (50) is positive and below the click threshold (300) |
| `ButtonInput.Code` | etc/code/wordclock/a/Button.hpp:14-19 | each of the four states has a code below 4, and code 0 belongs to `Released` alone |
| `ButtonInput.Decode` | etc/code/wordclock/a/Button.hpp:14-22 | a stored `uint8_t` code names a state exactly when it is below 4, and then the state's code is that value |
| `ButtonInput.DecodeCode` | etc/code/wordclock/a/Button.hpp:14-19 | decoding a state's code gives back that state |
| `ButtonInput.Step` | etc/code/wordclock/a/Button.cpp:32-71 | one `update()` keeps the invariant: flags are pending only in `Released`, and never both at once |
| `ButtonInput.Resolve` | etc/code/wordclock/a/Button.cpp:19-29 | the flag read-and-clear reports a single click exactly when the single flag is set; it reports a double click exactly when only the double flag is set; it clears only the reported flag and changes nothing else; under the invariant it leaves no flag pending |
| `ButtonInput.Poll` | etc/code/wordclock/a/Button.cpp:16-30 | one `perform_clicks()` keeps the invariant and leaves no flag pending |
| `ButtonInput.Dispatches` | etc/code/wordclock/a/Button.cpp:19-29 | an action runs only for a reported click; for a single click it runs exactly when the single action is set (line 22), for a double click exactly when the double action is set (line 26) |
| `ButtonInput.StepKeepsFlags` | etc/code/wordclock/a/Button.hpp:40-45 | `update()` only produces flags: under the invariant a pending flag survives an update, and an update from a state with no flag raises a flag only when it lands in `Released` |
| `ButtonInput.PendingFlagFreezes` | etc/code/wordclock/a/Button.cpp:37-44 | while a flag is pending, an update changes nothing, even on a press |
| `ButtonInput.ResolveOnlyConsumes` | etc/code/wordclock/a/Button.hpp:40-45 | the read-and-clear never raises a flag and never changes the state or the timestamps |
| `ButtonInput.ClickReportedOnce` | etc/code/wordclock/a/Button.cpp:16-30 | after a poll reports a click the button is idle, and the next poll reports no click whatever it reads |
| `ButtonInput.Apply` | etc/code/wordclock/a/Button.cpp:16-71 | one reading taken by the interrupt's `update()` or the loop's `perform_clicks()` keeps the invariant; an interrupt update reports no click |
| `ButtonInput.Trace` | etc/code/wordclock/a/Button.cpp:16-71 | any interleaving of updates and polls from a state that satisfies the invariant reports one result per reading and ends in a state that satisfies it |
| `ButtonInput.TraceSteady` | etc/code/wordclock/a/Button.cpp:36-70 | readings that each leave a flag-free button unchanged report nothing, in any mix of updates and polls, and leave the button where it was |
| `ButtonInput.HeldIsSteady` | etc/code/wordclock/a/Button.cpp:45-52 | while `Pressed`, a further pressed reading changes nothing |
| `ButtonInput.WaitIsSteady` | etc/code/wordclock/a/Button.cpp:53-61 | in `ClickedSingle` and no more than 300 ms after the press, a released reading, or a pressed one no more than 50 ms after the release, changes nothing |
| `ButtonInput.SecondHoldIsSteady` | etc/code/wordclock/a/Button.cpp:62-67 | in `ClickedDouble`, a pressed reading, or a released one no more than 50 ms after the second press, changes nothing |
| `ButtonInput.ReleasedTail` | etc/code/wordclock/a/Button.cpp:16-44 | released readings on a `Released` button with at most a double flag keep it released with its timestamps; they report no single click, and the pending double click is reported at most once, and if any of the readings is a poll it has been reported by the end |
| `ButtonInput.BounceAbsorbed` | etc/code/wordclock/a/Button.cpp:37-52 | with no click under way, a series in which every press is released less than 50 ms after it began, read by any mix of updates and polls, reports nothing and ends in `Released` or `Pressed` with no flag: `Pressed` exactly when the last reading is a press, so a press released within 50 ms returns the button to `Released` (lines 46-47) |
| `ButtonInput.EdgeBounceAbsorbed` | etc/code/wordclock/a/Button.cpp:37-52 | from an idle button, alternating edges that start with a press and follow each other by less than 50 ms report nothing, leave no flag, and end `Pressed` exactly when the last edge is a press and `Released` otherwise |
| `ButtonInput.BurstOfBounces` | etc/code/wordclock/a/Button.cpp:37-52 | edges at 0, 20, 40, 60, 80 and 100 ms, the last read by a poll, report nothing and leave the button idle |
| `ButtonInput.PressAndHold` | etc/code/wordclock/a/Button.cpp:37-52 | a press on an idle button and any pressed readings after it leave it `Pressed` since the press, and report nothing |
| `ButtonInput.ReleaseAndWait` | etc/code/wordclock/a/Button.cpp:45-61 | a release at least 50 ms after the press, then readings inside the 300 ms window that are released or within 50 ms of the release, leave the button in `ClickedSingle` with the release time recorded, and report nothing |
| `ButtonInput.FirstClick` | etc/code/wordclock/a/Button.cpp:37-61 | press, hold, release at least 50 ms later and wait, with any intermediate readings of that kind, leave the button waiting in `ClickedSingle` with both times recorded, and report nothing |
| `ButtonInput.SingleClickGesture` | etc/code/wordclock/a/Button.cpp:16-56 | after `FirstClick`, the first poll more than 300 ms after the press reports a single click, whatever level it reads; in the whole series exactly one single click and no double click is reported, the last reading reports it, and the button ends idle |
| `ButtonInput.IsrWhilePending` | etc/code/wordclock/a/Button.cpp:37-44 | while a flag is pending, any number of interrupt updates leave the button unchanged and report nothing |
| `ButtonInput.SingleClickLateIsr` | etc/code/wordclock/a/Button.cpp:16-56 | after `FirstClick`, an interrupt update more than 300 ms after the press puts the button in `Released` with the single flag raised and both times kept; further interrupt updates leave exactly that state, and the loop's next poll reports the single click; in the whole series exactly one single click and no double click is reported, the last reading reports it, and the button ends idle |
| `ButtonInput.SecondPressAndHold` | etc/code/wordclock/a/Button.cpp:53-67 | in `ClickedSingle`, a press more than 50 ms after the release and within 300 ms of the first press, then pressed readings or released ones within 50 ms of it, leave the button `ClickedDouble` since the second press, and report nothing |
| `ButtonInput.TailAndPoll` | etc/code/wordclock/a/Button.cpp:16-44 | released readings and then a poll on a `Released` button with at most a double flag report that double click exactly once, report no single click, and leave no flag |
| `ButtonInput.SecondRelease` | etc/code/wordclock/a/Button.cpp:16-67 | a release more than 50 ms after the second press, then released readings and a poll, report exactly one double click and no single click, and leave no flag |
| `ButtonInput.SecondClick` | etc/code/wordclock/a/Button.cpp:16-67 | from `ClickedSingle`, the whole second click with its intermediate readings and a final poll reports exactly one double click and no single click, and leaves no flag |
| `ButtonInput.DoubleClickGesture` | etc/code/wordclock/a/Button.cpp:16-67 | press, release after at least 50 ms, press again more than 50 ms after the release and within 300 ms of the first press, release more than 50 ms later, with any intermediate readings of the allowed kinds, then a poll: exactly one double click and no single click is reported, and no flag is left |
| `ButtonInput.ExampleTimelines` | etc/code/wordclock/a/Button.cpp:32-71 | press at 0 and release at 60 give `ClickedSingle`, and a poll at 400 reports a single click; adding a press at 120 and a release at 180 makes the poll report a double click; a press 20 ms before the clock wraps and a release 40 ms after it count as a 60 ms hold (`Elapsed(40, 2^32 - 20) == 60`) and give `ClickedSingle` |
| `ButtonInput.Button.constructor` | etc/code/wordclock/a/Button.cpp:3-11 | a new button is `Released`, both timestamps are 0, both flags are false, and the two actions are stored; the double action is optional |
| `ButtonInput.Button.Update` | etc/code/wordclock/a/Button.cpp:32-71 | the fields after `update()` are `Step` of the fields before, and the invariant is kept |
| `ButtonInput.Button.PerformClicks` | etc/code/wordclock/a/Button.cpp:16-30 | the resolved click and the new fields are `Poll` of the old fields; no flag is left pending; an action is invoked exactly when the click is single or double and that click's action is set |
| `LedStrip.UnusedLedIsOnStrip` | LedArray.hpp:5-6 | the unmounted index 89 lies on the 116-pixel strip |
| `LedStrip.LedArray.constructor` | LedArray.cpp:3-6 | the segment stores exactly `start = s` and `end = e` |
| `LedStrip.LedArray.PaintFrom` | LedArray.cpp:9-13 | the loop from index `i` to `end` keeps the buffer's length |
| `LedStrip.LedArray.Painted` | LedArray.cpp:8-13 | `paint(c)` as a function of the buffer keeps the buffer's length; `PaintedAt` states its contents |
| `LedStrip.LedArray.PaintFromAt` | LedArray.cpp:9-13 | after the loop from `i`, an index holds the color exactly when it lies in `[i, end)`, is not 89 and is covered by the segment; every other index keeps its value |
| `LedStrip.LedArray.PaintedAt` | LedArray.cpp:8-13 | after `paint(c)`, each index in `[start, end)` other than 89 holds `c`, and every other index keeps its value |
| `LedStrip.LedArray.PaintSkipsUnused` | LedArray.cpp:10-11 | `paint` never changes index 89 |
| `LedStrip.LedArray.PaintFramesOutside` | LedArray.cpp:9 | `paint` leaves every index outside `[start, end)` unchanged |
| `LedStrip.LedArray.PaintEmptyRange` | LedArray.cpp:9 | when `start >= end`, `paint` changes nothing |
| `LedStrip.LedArray.PaintIdempotent` | LedArray.cpp:8-13 | painting twice with one color gives the same buffer as painting once |
| `LedStrip.LedArray.PaintOverwrites` | LedArray.cpp:8-13 | `paint(c2)` after `paint(c1)` gives the same buffer as `paint(c2)` alone |
| `LedStrip.LedArray.Paint` | LedArray.cpp:8-13 | the buffer after the in-place loop is `Painted` of the buffer before: each covered index holds the color, and every other index is unchanged |
| `LedStrip.LedArray.Equals` | LedArray.hpp:28-30 | `operator==` holds exactly when both `start` and `end` agree, and equal segments paint the same indices |
| `LedStrip.LedArray.NotEquals` | LedArray.hpp:32-34 | `operator!=`, written in the source as its own disjunction, is exactly the negation of `operator==` |
| `LedStrip.EqualsIsRangeEquality` | LedArray.hpp:28-34 | `operator==` holds exactly when the two `(start, end)` pairs are equal, whichever objects carry them; `a != b` is the negation of `b == a` |
| `LedStrip.EqualsIsEquivalence` | LedArray.hpp:28-30 | `operator==` is reflexive, symmetric and transitive |

## Left out

- The pin number, `pinMode` and `attachInterrupt` in the button constructor are hardware setup and are not modelled. The interrupt routine's calls to `update()` are modelled as calls to `Update`.
- Interrupts arriving in the middle of `perform_clicks()`, and the meaning of `volatile`, are not modelled. The model is sequential and each call is one atomic step.
- The action callbacks are not run. `PerformClicks` reports whether one would be invoked, and what it does is outside the model.
- The stored state is a `uint8_t`. `update()` has a `default:` branch for values that are not states. Only the four enumeration values are ever stored, so the model uses a datatype and that branch cannot be reached. `Decode` records which codes name a state.
- The NeoPixel driver, the global `pixels` object and `show()` are replaced by a plain 116-entry buffer. `Paint` requires the buffer to have the strip's length. It writes no index past the buffer, so a segment whose `end` lies beyond the strip does not reach outside it.
- The packed color is kept as an opaque `bv32`; its byte layout on the strip is not modelled.
- SingleClickGesture: the first reading after the click window is a poll. An interrupt update there is covered by `SingleClickLateIsr`.
- SingleClickGesture, DoubleClickGesture: these assume that the clock does not wrap during the gesture. Wrap-around itself is modelled by `Elapsed`.
- DoubleClickGesture: the readings between the second release and the final poll must all be released. A press there is ignored while the double flag is pending (`PendingFlagFreezes`) and otherwise begins a new gesture, which this lemma does not follow.
- The colour-transition engine (`smooth_step`, `extract_color`, `shift_color`, `shift_color_all`, `display_time`, `tick`, `adjust_brightness`, `is_night`) is not part of this model. Only the declarations of these functions are available, and `SMOOTH_STEP` works on fractions.
- Melody playback (`Music.cpp`), the real-time clock, EEPROM and the time-to-segment lookup are I/O and timing code outside the two components modelled here.
