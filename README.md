# Console runtime core: debounce, test-case splitter, sequencer, frame clock

A Dafny model of the sequential logic in `src/rpi/main.c`, the runtime of
a handheld game console built on a two-core microcontroller. It covers
four parts:

- **Button debounce and edge detection** (`debounce.dfy`, module
  `Debounce`). This covers `button_history_read`, `button_history_write`
  and `button_poll`.
  - Each of the eight buttons keeps its last 64 GPIO samples, packed eight
    to a byte.
  - Each poll moves a ring cursor one place and stores the new level there.
    It then recounts the high samples.
  - The button is *up* when more than 53 samples are high. The pins have
    pull-ups, so up means released.
  - When a button goes from up to not up, its pin number is pushed to the
    other core. The FIFO is modelled as the sequence of everything pushed.
  - `ButtonState` is a value type, because the C array holds these
    structures inline. The class `Buttons` owns the array `button_states`
    and the FIFO.
  - The history is typed as exactly eight bytes, as in the C structure.
  - The cursor is typed as a position 0..63. The C field is a `uint8_t`,
    but the code only ever stores zero or a value reduced modulo 64 in it.
- **Test-case splitter** (`test_split.dfy`, module `TestSplit`). This covers
  `containsTestCases` and `splitIntoTestCases`.
  - It searches for the literal delimiter with first-occurrence `strstr`
    semantics.
  - Empty spans and an empty tail are skipped.
  - There are at most 10 cases.
  - The loop is a method over the remaining suffix of the script, which
    plays the role of the C pointer `start`. It is proved against a
    recursive definition: cut at every delimiter, drop the empty parts,
    keep the first 10.
- **Test-case sequencer** (`test_harness.dfy`, module `TestHarness`). This
  covers `runTestCase` and `processTestCases`.
  - The three globals are the fields of the class `Harness`.
  - The clock is a 32-bit millisecond reading passed in. It is read twice,
    as in the source: once for the expiry test and once for the start time.
  - Every script handed to the engine is appended to a ghost log.
  - `Begin` models the choice in `main` between splitting the script and
    running it whole. `Frame` models the per-frame call.
- **Frame clock** (`frame_timer.dfy`, module `FrameTimer`). This covers the
  elapsed-milliseconds step of the frame loop.

The model follows the code where its own comment says something else:

- The comment at `src/rpi/main.c:64-66` says a button counts as *pressed*
  when more than 5/6 of its samples are true. The code pushes a keypress
  when the count drops to 5/6 or less. With the pull-ups, more than 5/6
  true therefore means *released*. The model follows the code.

Two points about the test harness are easy to misread in the code:

- `processTestCases` ends a case once `now - start >= 5000`, not only when
  the difference is greater than 5000.
- After the last case it resets the index to 0. `main` calls it on every
  frame while there are cases, so case 0 starts again and the cases repeat
  for ever. `NextInCycle` proves this round-robin order.

## Model

| member | source | states |
|---|---|---|
| Debounce.WriteBitReadsBack | src/rpi/main.c:87-93 | After bit k is set or cleared with the mask `1 << k`, bit k reads back as the value written. |
| Debounce.WriteBitKeeps | src/rpi/main.c:87-93 | Setting or clearing bit k leaves each of the other seven bits as it was. |
| Debounce.UnpackWrite | src/rpi/main.c:81-93 | Writing bit i % 8 of byte i / 8 changes packed sample i to the value and leaves every other sample as it was. |
| Debounce.WriteSampleSamples | src/rpi/main.c:87-93 | A write to sample i of a button changes exactly that sample of its 64-sample window. |
| Debounce.Buttons.HistoryRead | src/rpi/main.c:81-86 | Reading bit i % 8 of byte i / 8 yields sample i of the button's window. |
| Debounce.Buttons.HistoryWrite | src/rpi/main.c:87-93 | Sample i of button b becomes the value. Every other sample, the cursor, the published state and every other button are unchanged. |
| Debounce.HighsIsMultiplicity | src/rpi/main.c:119-125 | The count of high samples is the multiplicity of true in the window, whatever the order. |
| Debounce.HighsPermutation | src/rpi/main.c:119-125 | Two windows holding the same samples in any order give the same count. |
| Debounce.IsUpCount | src/rpi/main.c:119-125 | A window is up if and only if at least 54 of its 64 samples are high, wherever they are. |
| Debounce.HighsUpdate | src/rpi/main.c:116-125 | Overwriting one sample changes the count by exactly the change in that sample. |
| Debounce.HighCountIsHighs | src/rpi/main.c:120-124 | Counting the packed bits one by one counts the high samples of the window. |
| Debounce.Buttons.CountHighs | src/rpi/main.c:120-124 | The count loop returns the number of high samples in the button's window. |
| Debounce.PollOnceSpec | src/rpi/main.c:116-129 | One poll moves the cursor one place modulo 64 and stores the level at the new cursor and nowhere else. The published state becomes that of the new window. |
| Debounce.PollConsistent | src/rpi/main.c:116-135 | After any poll, the published state agrees with the window. |
| Debounce.ZeroedConsistent | src/rpi/main.c:79 | The zero-initialised state holds no high sample, has cursor 0, is not up, and agrees with its window. |
| Debounce.PressedIff | src/rpi/main.c:125-134 | For a state that agrees with its window, a press happens if and only if the window was up and is not up after storing the level. Nothing is pushed on the change to up, and nothing while the state stays the same. |
| Debounce.HighNeverPresses | src/rpi/main.c:116-134 | A high (released) level never causes a press. |
| Debounce.Buttons.PollButton | src/rpi/main.c:114-135 | One pass of the button loop gives that button exactly one poll with its level. It reports a press if and only if the poll was a press, and leaves the other buttons unchanged. |
| Debounce.Buttons.Poll | src/rpi/main.c:110-137 | The new states are the old ones with every button polled once with its own level, and each agrees with its window. The FIFO grows by the pins of the pressed buttons, in pin order. |
| Debounce.PollAllAt | src/rpi/main.c:112-135 | In a full poll, button k's new state is its old state polled with its own level. No button sees another's level. |
| Debounce.PressesIff | src/rpi/main.c:127-134 | With distinct pins, a pin is pushed by a poll if and only if its button was pressed in that poll. |
| Debounce.PressesOmits | src/rpi/main.c:112-134 | With distinct pins, the pin of a button not yet polled has not been pushed. |
| Debounce.PressesWithin | src/rpi/main.c:112-134 | After the first n buttons are polled, at most n pins have been pushed, and each is the pin of one of those buttons. |
| Debounce.PressesOnce | src/rpi/main.c:112-134 | With distinct pins, a poll pushes each button's pin at most once. |
| Debounce.PollAllConsistent | src/rpi/main.c:116-137 | After a full poll, every button's published state agrees with its window. |
| Debounce.ButtonPinsDistinct | src/rpi/main.c:78 | The eight button pins are distinct, so each pushed pin names one button. |
| Debounce.Buttons.constructor | src/rpi/main.c:78-79 | The buttons start zeroed, each agreeing with its window, with the console's pins and nothing pushed. |
| TestSplit.FindFirst | src/rpi/main.c:246 | The search reports the first occurrence of the delimiter. It reports none exactly when the text does not contain the delimiter. |
| TestSplit.ContainsTestCases | src/rpi/main.c:234-238 | True if and only if the delimiter occurs somewhere in the script. |
| TestSplit.ContainsIffCut | src/rpi/main.c:234-238 | A script contains the delimiter if and only if cutting it at delimiters yields more than one span. |
| TestSplit.CollectIsTake | src/rpi/main.c:246-277 | The case list that the loop builds over the remaining text equals the first `room` non-empty spans. |
| TestSplit.SplitIntoTestCases | src/rpi/main.c:240-280 | The count equals the number of cases, which is at most 10. The cases are the first 10 non-empty spans between delimiters, in source order. |
| TestSplit.TestCasesWellFormed | src/rpi/main.c:246-277 | There are at most 10 cases, none empty and none containing the delimiter. |
| TestSplit.JoinSpans | src/rpi/main.c:246-262 | Joining the spans with the delimiter gives back the script. |
| TestSplit.SpansFree | src/rpi/main.c:246-262 | No span contains the delimiter. |
| TestSplit.NonEmptyParts | src/rpi/main.c:250-252 | Skipping empty spans keeps exactly the non-empty ones. When no span is empty, it keeps them all. |
| TestSplit.TestCasesRoundTrip | src/rpi/main.c:246-277 | When every span is non-empty and there are at most 10, the cases are exactly the spans and joining them with the delimiter reproduces the script. |
| TestHarness.ElapsedAcrossWrap | src/rpi/main.c:293 | The uint32_t difference of two clock readings is the true elapsed time, even when the clock wraps, as long as less than 2^32 ms have passed. |
| TestHarness.IndexStaysInRange | src/rpi/main.c:290-311 | With at least one case and the index in range, the index stays in range and any case started is a real one. |
| TestHarness.RunningUntilDelay | src/rpi/main.c:293-298 | A running case is left alone, and nothing starts, until 5000 ms have passed on the wrapping clock. |
| TestHarness.AdvanceAfterDelay | src/rpi/main.c:293-310 | Once 5000 ms have passed, the next case starts in the same call with a new start time. After the last case, the state goes back to idle at index 0. |
| TestHarness.IdleStarts | src/rpi/main.c:300-304 | An idle sequencer with its index in range starts that case and records the start time. |
| TestHarness.NeverDelay | src/rpi/main.c:222-311 | The declared Delay state is never entered. |
| TestHarness.InitialInCycle | src/rpi/main.c:228-230 | The initial globals (idle, index 0, nothing run) are in cycle. |
| TestHarness.NextInCycle | src/rpi/main.c:290-311 | Each call keeps the sequencer in cycle. The run log is always cases 0, 1, ..., count-1, 0, 1, ... in order, and the index matches the log. |
| TestHarness.Harness.RunTestCase | src/rpi/main.c:282-288 | The case is handed to the engine and the state becomes running. Nothing else changes. |
| TestHarness.Harness.ProcessTestCases | src/rpi/main.c:290-311 | The new globals and the case handed to the engine are those of the step function `Next`. The call preserves the cycle invariant, and the index never goes below 0. |
| TestHarness.Harness.Begin | src/rpi/main.c:412-425 | A script containing the delimiter is split into its test cases and nothing runs. Any other script runs whole and there are no cases. |
| TestHarness.Harness.Frame | src/rpi/main.c:450-453 | The sequencer advances on a frame only when there is at least one case. |
| TestHarness.Harness.constructor | src/rpi/main.c:228-230 | The sequencer starts idle at index 0 with start time 0. |
| FrameTimer.ReportedLags | src/rpi/main.c:459-462 | Over any run of frames, the reported milliseconds never exceed the true time. They fall short of it by up to 999 µs per frame. |
| FrameTimer.ReportedLagExample | src/rpi/main.c:459-462 | Frames 1999 µs apart report 2 ms over 3998 µs. |
| FrameTimer.CarriedExact | src/rpi/main.c:459-462 | With the remainder carried, the reported total is exactly the whole milliseconds elapsed, for any number of frames. |
| FrameTimer.FrameClock.Tick | src/rpi/main.c:459-462 | A frame reports the whole milliseconds since the previous reading and then keeps the new reading. |
| FrameTimer.FrameClock.TickCarried | src/rpi/main.c:459-462 | This is the corrected frame step. It reports the same whole milliseconds but advances the kept reading only by them. |
| FrameTimer.FrameClock.constructor | src/rpi/main.c:437 | The kept reading starts at the clock reading taken before the loop. |
| FrameTimer.FrameClock.RunFrames | src/rpi/main.c:459-462 | Over a run of frames as written, the elapsed times handed to the game add up to `Reported`, which `ReportedLags` bounds. The kept reading ends at the last reading. |
| FrameTimer.FrameClock.RunFramesCarried | src/rpi/main.c:459-462 | Over a run of frames with the remainder carried, the elapsed times add up to exactly the whole milliseconds between the first and the last reading. |

## Left out

- Allocation is taken to always succeed in `splitIntoTestCases`. A failed `malloc` there skips the case without counting it; that path is not modelled.
- Strings are modelled as the text before the terminating NUL. A NUL inside the script is not modelled.
- The debug `printf` output is left out.
- The cross-core FIFO is modelled only as the sequence of pushed pins. Its blocking when full, the other core's `multicore_fifo_pop_blocking`, and the concurrency between the two cores are left out.
- The GPIO layer is reduced to one level per pin per poll. This covers `gpio_get`, `button_init`'s direction and pull-up set-up, `power_lights`, `rng_init`, the display and the watchdog.
- `to_ms_since_boot`, `get_absolute_time`, `absolute_time_diff_us` and `us_to_ms` come from the SDK, which is not part of this model. The clock readings are parameters. `us_to_ms` is taken to be floor division by 1000.
- FrameTimer.FrameClock.Tick: returns the elapsed milliseconds as a natural number. It does not model the conversion to the C `int`, which would matter only for more than 2^31 ms between two frames.
- The boot and upload loops of `main`, `fatal_error`'s render loop, and the rest of the frame loop are not part of this model. The rest of the frame loop means press dispatch, `js_promises`, rendering and the re-upload check. These are busy-wait loops over hardware and the upload channel, with no data result to state.
- The JavaScript engine (`js_run`, `spade_call_*`, the piano callbacks) is not modelled. The scripts handed to `js_run` are recorded in a ghost log.
- `server/server.js` is not part of this model. It is serial, WebSocket and canvas plumbing on the host.

## Findings

| source | as written | input that shows it | evidently intended | confidence | as-written member | corrected member |
|---|---|---|---|---|---|---|
| src/rpi/main.c:459-462 | Each frame reports `(now - last) / 1000` ms and then sets `last = now`, which drops the sub-millisecond remainder every frame. Timers driven by the frame callback fall behind real time by up to 999 µs per frame. | Frames 1999 µs apart: two frames report 2 ms while 3998 µs (3 ms) have passed. Over 1000 such frames, 1000 ms are reported for 1.999 s. | The elapsed times sum to the real elapsed time, within less than 1 ms overall. | medium; not executed | FrameTimer.ReportedLags, FrameTimer.ReportedLagExample, FrameTimer.FrameClock.Tick, FrameTimer.FrameClock.RunFrames | FrameTimer.CarriedExact, FrameTimer.FrameClock.TickCarried, FrameTimer.FrameClock.RunFramesCarried |
