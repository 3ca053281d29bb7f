# Light box instrument session model

This is a Dafny model of the session logic in the `InstrumentUI` control
panel (`test2.py`). The panel drives an 8 x 12 grid of UV LEDs over a serial
link. Each LED has:

- a brightness of 0 to 100 per cent, set through a dialog;
- a running sum of brightness x seconds for the current ON session;
- the instant up to which that sum already accounts for the LED's current
  brightness.

The operations:

- A grid-button click edits one LED.
- The ON/OFF button starts or ends a session.
- A one-second timer folds the open interval of every LED into its sum and
  shows the running time as `HH:MM:SS`.
- `send_matrix` sends the matrix to the device as `<v,v,...,v>`, column by
  column, at start-up, after an edit while ON, on turning ON, and (all zeros)
  on turning OFF. An edit while OFF and the tick send nothing.
- When a session ends, the per-LED time-weighted averages are saved.

Modules:

- `Options`: `Option`.
- `Text`: `str(int)`, `join` and `split`, and reading integers back.
- `Matrix`: the grid shape and column-major order.
- `Wire`: the frame and how the device decodes it.
- `Clock`: `int()` truncation, `divmod` and the running-time label.
- `Accounting`: what each operation does to one LED as pure functions on a
  `Cell`, plus a reference definition. The reference is the exact integral of
  an LED's brightness history over a session. The lemmas prove that the
  accounting tracks that integral.
- `InstrumentControl`: class `Instrument`, holding the panel's state in three
  `array2` fields plus the ON flag and the start time. The Python operations
  become methods with loops. Each loop is proved against the `Accounting`
  function for one cell.
- `Scenarios`: whole sessions with concrete numbers.

Time is a `real` number of seconds, passed in as `now`. Python floats are
modelled as exact reals. The serial sink is the ghost log `sent`: it records
every matrix handed to it, and each matrix was encoded as `Frame(m)`. The session
invariant `Valid` covers four facts:

- ON holds exactly when a start time is set.
- ON holds exactly when every LED has a last-accounted time.
- No sum is negative.
- Every brightness is within 0..100, which the `Percent` type enforces.

Note that `_turn_off` zeroes the brightness matrix (test2.py:291) before the
save computes the averages (test2.py:296, 434). So for a session of length zero or
less, the saved average falls back to the zeroed brightness, 0.0, and not to
the brightness the LED had before OFF. `Accounting.SavedAverage` and
`Scenarios.ImmediateOff` state this.

## Model

| member | source | states |
|---|---|---|
| Text.Str | test2.py:357 | `str(i)`: at least one character, only digits for i >= 0, and a minus sign followed by digits for i < 0 |
| Text.Join | test2.py:358 | `sep.join(parts)`; splitting it back and counting its separators are proved in `SplitJoin` and `CountJoin` |
| Text.ParseStr | test2.py:357 | reading back the decimal text `str(i)` gives `i`, negative integers included |
| Text.SplitJoin | test2.py:358 | splitting `sep.join(parts)` on `sep` gives back `parts` when no part contains `sep` |
| Text.CountJoin | test2.py:358 | joining n separator-free parts puts exactly n - 1 separators in the text |
| Text.StrFree | test2.py:357 | `str(i)` never contains a comma or a colon (no digit and no minus sign) |
| Matrix.ColumnMajor | test2.py:355-357 | lists the 96 entries with the column loop outside the row loop: position `c*8 + r` holds entry (r, c) |
| Wire.Frame | test2.py:354-358 | the frame starts with `<`, ends with `>`, holds exactly 95 commas, and splits between the delimiters into exactly the 96 fields |
| Wire.Fields | test2.py:354-357 | the 96 fields of the frame; field `c*8 + r` is `str(brightness[r][c])` |
| Wire.DecodeFrame | test2.py:352-358 | decoding the frame gives back the matrix in column-major order |
| Wire.DarkFrame | test2.py:291-292 | the frame of an all-zero matrix is `<` + 95 x `0,` + `0>` |
| Clock.Truncate | test2.py:341 | Python's `int()` on a float truncates toward zero: the result is within one of `x`, on the same side of zero |
| Clock.DivMod | test2.py:342-343 | `divmod` by a positive divisor: quotient x divisor + remainder is the dividend, and the remainder lies in [0, divisor) |
| Clock.Hms | test2.py:341-343 | hrs x 3600 + mins x 60 + secs equals the elapsed seconds, with 0 <= mins, secs < 60, and hrs >= 0 when elapsed >= 0 |
| Clock.Pad2 | test2.py:344 | `{n:02}` gives at least two characters, exactly two when 0 <= n < 100, only digits when n >= 0, and reads back as n |
| Clock.RunningTime | test2.py:341-344 | the label starts with `Running time: `. The rest splits on `:` into exactly the three fields `{hrs:02}`, `{mins:02}`, `{secs:02}` of `Hms(elapsed)`, which read back as hrs, mins and secs. It is exactly 8 characters while the elapsed time is under 100 hours |
| Clock.ReadRunningTime | test2.py:341-344 | reading the running-time label back as `H:M:S` gives exactly the elapsed seconds it was built from |
| Clock.RunningTimeExample | test2.py:341-344 | 3725 seconds show as `Running time: 01:02:05` |
| Accounting.Accrue | test2.py:284-288 | folding in the open interval keeps the brightness and `lut` and never lowers the sum. With no `lut`, or `dt <= 0`, the cell is unchanged |
| Accounting.Edit | test2.py:220-238 | an edit sets the brightness and never lowers the sum. While ON it moves `lut` to `now`; while OFF it leaves the sum and `lut` alone. With no `lut`, or `dt <= 0`, the sum is unchanged |
| Accounting.Tick | test2.py:331-338 | a tick keeps the brightness, never lowers the sum, and keeps `lut` set or unset, never moving it backwards. With no `lut`, or `dt <= 0`, the cell is unchanged |
| Accounting.Open | test2.py:262-267 | turning ON keeps the staged brightness and starts the LED with nothing accounted: weight 0 at `now` |
| Accounting.Close | test2.py:282-291 | closing sets the brightness to 0, keeps `lut`, never lowers the sum, and leaves no open contribution: the weight is the sum at every instant |
| Accounting.Average | test2.py:376-396 | `_calculate_average`: 0.0 with no session while OFF; the brightness when the session has no positive length; otherwise average x length equals the weight `sum + brightness*(now - lut)` |
| Accounting.AreaIsProduct | test2.py:228-230 | `Area(b, dt)`, the b-fold sum used for `brightness * dt`, equals the product |
| Accounting.AreaConsecutive | test2.py:336-338 | two back-to-back intervals at one brightness add up to the interval they span |
| Accounting.AreaAtMost | test2.py:212-216 | at most 100 per cent, an interval's brightness-seconds lie in [0, 100 x dt] |
| Accounting.AccrueKeepsSound | test2.py:285-288 | folding in the open interval keeps the sum non-negative and never lowers it; `lut` does not change |
| Accounting.EditKeepsSound | test2.py:220-238 | an edit keeps the sum non-negative and `lut` set exactly while ON |
| Accounting.TickKeepsSound | test2.py:331-338 | a tick keeps the sum non-negative and `lut` set exactly while ON |
| Accounting.CloseKeepsSound | test2.py:282-305 | closing the session keeps the sum non-negative; after `lut` is cleared the LED is sound for OFF |
| Accounting.AccrueIsExact | test2.py:388-395 | when `lut <= now`, folding in the open interval turns the live weight `sum + brightness*(now-lut)` into the sum, with nothing lost to the `dt > 0` test |
| Accounting.EditAccountsOnce | test2.py:223-233 | an edit while ON adds the open interval to the sum exactly once and opens an empty interval at `now` |
| Accounting.TickPreservesWeight | test2.py:331-338 | a tick never changes `sum + brightness*(now - lut)`, at any later instant |
| Accounting.TickPreservesAverage | test2.py:331-338 | so a tick never changes any displayed average |
| Accounting.StepAccounts | test2.py:225-233 | an edit or tick not before `lut` adds the interval up to it and moves `lut` to it |
| Accounting.WeightTracksIntegral | test2.py:331-338 | after any chronological mix of edits and ticks, the LED's weight is its starting sum plus the exact integral of its brightness history: no interval is dropped or counted twice |
| Accounting.AverageIsIntegral | test2.py:376-396 | the live average of a session of positive length is the exact brightness integral over [start, now] divided by the length |
| Accounting.SavedAverageIsIntegral | test2.py:282-296 | the average the closing save reads at its own later instant is the integral over [start, close] divided by the time from start to save |
| Accounting.SavedAverage | test2.py:384-386 | the saved average is the closed sum over the session length, or 0.0 (the zeroed brightness) when that length is not positive |
| Accounting.IntegralBounds | test2.py:212-216 | the brightness integral over [from, now] lies between 0 and 100 x (now - from) |
| Accounting.AverageIsPercentage | test2.py:376-396 | a session's live average always lies in 0..100 |
| InstrumentControl.Instrument.Valid | test2.py:53-65 | the session invariant: ON exactly when a start time is set, exactly when every LED has a `lut`, and no sum negative; every operation keeps it |
| InstrumentControl.Instrument.constructor | test2.py:52-68 | starts OFF with no start time; every LED is at brightness 0, sum 0.0 and no `lut`; the all-zero matrix is the only one sent |
| InstrumentControl.Instrument.BuildTransmission | test2.py:352-358 | the nested column/row loop builds exactly `Frame` of the current matrix |
| InstrumentControl.Instrument.SendMatrix | test2.py:352-358 | logs the current matrix once and returns its frame; nothing else changes |
| InstrumentControl.Instrument.SetBrightness | test2.py:210-238 | a cancelled dialog changes nothing. Otherwise the clicked LED becomes `Edit(old, value, isOn, now)`. While ON, exactly one frame is sent; while OFF, none. Every other LED is untouched and `Valid` is kept |
| InstrumentControl.Instrument.EditCell | test2.py:220-238 | while ON, the old brightness times `dt` is added only when `lut` is set and `dt > 0`, then `lut := now`. The brightness is always set to the value. Other LEDs are untouched |
| InstrumentControl.Instrument.TurnOn | test2.py:254-270 | ON with start time `now`; every sum becomes 0.0 and every `lut` becomes `now`; the staged matrix is unchanged and sent once; `Valid` is kept |
| InstrumentControl.Instrument.StartSession | test2.py:256-267 | the state changes of turning ON before the send: ON flag, start time, fresh zero sums, every `lut` set to `now` |
| InstrumentControl.Instrument.TurnOff | test2.py:275-305 | when OFF, a no-op that saves nothing. When ON: each last interval is folded in, the matrix is zeroed, the all-zero matrix is sent, every LED's saved average is taken from the closed, zeroed state, and then the ON flag, start time and every `lut` are cleared |
| InstrumentControl.Instrument.Shutdown | test2.py:280-305 | the ON branch of turning OFF, in the source's order: close, zero and send, save, clear |
| InstrumentControl.Instrument.CloseIntervals | test2.py:280-292 | every LED becomes `Close(old, now)` (interval folded in, brightness 0) and the all-zero matrix is sent |
| InstrumentControl.Instrument.EndSession | test2.py:301-305 | OFF with no start time and no `lut` anywhere; brightness and sums are kept |
| InstrumentControl.Instrument.Toggle | test2.py:248-252 | the ON/OFF button flips the ON flag. From OFF it does what turning ON does: start time `now`, every LED `Open(old, now)`, the unchanged matrix sent once, nothing saved. From ON it does what turning OFF does: every LED `Close(old, now)` with `lut` cleared, the all-zero matrix sent, and every LED's saved average returned |
| InstrumentControl.Instrument.Tick | test2.py:323-344 | when OFF or with no start time: the idle label and no state change. When ON: each LED becomes `Tick(old, now)`, and the label shows `int(now - start)` as `HH:MM:SS`; `Valid` is kept |
| InstrumentControl.Instrument.OpenAll | test2.py:265-267 | every LED's `lut` becomes `now` |
| InstrumentControl.Instrument.AccrueAll | test2.py:282-289 | every LED becomes `Accrue(old, now)`: `brightness*dt` is added only where `lut` is set and `dt > 0`, and `lut` is left as is |
| InstrumentControl.Instrument.TickAll | test2.py:331-338 | every LED becomes `Tick(old, now)`: the sum and `lut` advance only where `dt > 0` |
| InstrumentControl.Instrument.SessionAverages | test2.py:432-434 | the row-by-row table of every LED's `_calculate_average` at one instant; nothing changes |
| Scenarios.WorkedExample | test2.py:376-396 | ON at t0 with the LED staged at 50, set to 100 at t0+10, OFF at t0+20: the saved average is 75 |
| Scenarios.FirstInterval | test2.py:226-233 | the edit at t0+10 banks 500 brightness-seconds and restarts the interval |
| Scenarios.SecondInterval | test2.py:282-291 | closing at t0+20 brings the sum to 1500 over 20 seconds: average 75 |
| Scenarios.ImmediateOff | test2.py:384-386 | turning OFF at the instant of turning ON saves 0.0, not the staged brightness |
| Scenarios.TickLabel | test2.py:341-344 | a tick 3725.5 s into a session shows `Running time: 01:02:05`, which reads back as 3725 |

## Left out

- The PyQt user interface is not modelled: window layout, button labels and colours, the ON/OFF button style, refreshing the buttons, message boxes and the file dialog. It is presentation built on a foreign library.
- The brightness dialog is modelled only by its result: `None` when cancelled, or a `Percent`, whose type carries the dialog's 0..100 bounds.
- Port selection, `connect_serial`, `FakeSerial` and the serial write (including the simulation and "port not open" branches) are I/O. Every frame `send_matrix` builds is recorded in the ghost log `sent`, whatever the sink does with it.
- Saving the session is file I/O: the log file name, the `datetime` stamps, two-decimal formatting and the error box on failure. Only the per-LED averages the save computes are modelled, as the table `TurnOff` returns. The session is cleared afterwards in every case, as in the source.
- `time.time()` and `datetime.now()` are clocks. `now` is a parameter, and `start_datetime` is not modelled.
- InstrumentControl.Instrument.TurnOff: the save calls `time.time()` once per LED in the source; the model reads every average at one instant `saveNow`.
- IEEE floating-point rounding is not modelled: times, sums and averages are exact reals. Whole-percentage brightness times seconds is written as repeated addition (`Area`), proved equal to the product.
- The QTimer scheduling, `_refresh_all_buttons`, the `calculate_average` alias and the `__main__` entry point hold no session logic.
- The order of the tick's last two steps is not kept: the running-time label is computed before the accumulation loop rather than after it. The label reads only the start time, which the loop does not touch, so the shown text is the same.
