# Debounced buttons, wrap-around ticks and a small matrix library, in Dafny

This project models three pieces of a MicroPython firmware library and proves properties of them.

- **Tick arithmetic** (`libs/timestamp.py`, module `Timestamp`).
  - `diff`, `advance`, `now`, `expired_at`, `expired` and `expired_and_advance` work on a microsecond counter.
  - The counter is truncated to the mask 2^30 - 1, and the viper functions compute on 32-bit `uint` words.
  - `__get_ticks_mask` is the loop that derives the mask.
- **Debounced push-buttons and switches** (`libs/button.py`).
  - Module `Debounce` is the 6-bit shift-register filter.
  - Module `Buttons` holds the `Event` record and the classes `ButtonCore`, `Button`, `Toggle` and `Unbuffered`.
  - Each `update` is a method on the object's fields. The clock tick and the raw pin level are passed in as parameters.
  - Each `update` is proved equal to a pure step function over a snapshot of the fields (`View()`). The lemmas state what one poll, or a sequence of polls, does.
- **Vectors and matrices** (`libs/picola.py`, module `Picola`).
  - A `Vector` wraps a list.
  - A `Matrix` keeps a flat row-major list plus a shape: unset, the empty tuple, or (rows, columns).
  - Python exceptions become the `Raised` result (or `false` from a method that mutates in place). Elements are integers.

The model follows the code where it departs from modular tick arithmetic or from a click detector that re-arms on release:

- **`diff(t1, t0)` when `t1 <= t0`.** The code computes `mask - t1 + t0`, not the modular difference.
  - Equal ticks are `mask` apart, not 0 (`EqualTicksAreExpired`).
  - One tick across the wrap reads as `2 * mask` (`DiffAcrossWrap`).
  - `diff` equals modular subtraction exactly when `t1 > t0` (`DiffIsModularIffForward`).
- **`__long_pressed` is never cleared by `update`.** The only assignment of `False` sits inside the branch where it is already false, so after one long press no later release is classified as a click until `reset` (`LongPressLatchSticks`).
- **`Button.reset(default_state)` ignores its argument for the filtered state.**
  - It calls `core_reset()` with no argument, so the filtered state always becomes false.
  - `default_state`, or the pin level, is stored in a separate `__state` field that nothing reads (`savedState`).

## Model

| member | source | states |
|---|---|---|
| Timestamp.GetTicksMask | libs/timestamp.py:4-9 | the loop returns a number of the form 2^bits - 1 that is at least ticks_max and at most every other such number that covers ticks_max |
| Timestamp.TicksMaskIsMask | libs/timestamp.py:4-10 | any result `__get_ticks_mask` can return for ticks_max = 2^30 - 1 is the mask 0x3FFF_FFFF = 2^30 - 1 |
| Timestamp.Diff | libs/timestamp.py:13-15 | t1 - t0 when t1 > t0; otherwise mask - t1 + t0, which is at least the mask for timestamps |
| Timestamp.Advance | libs/timestamp.py:17-19 | mask & (t + delta) on 32-bit words equals (t + delta) mod 2^30 |
| Timestamp.Now | libs/timestamp.py:22-24 | the raw tick ANDed with the mask is the tick mod 2^30 |
| Timestamp.ExpiredAt | libs/timestamp.py:27-29 | the inline formula is exactly diff(t, t_base) >= us |
| Timestamp.Expired | libs/timestamp.py:32-34 | expired_at against now(): diff(ticks mod 2^30, t_base) >= us |
| Timestamp.ExpiredAndAdvance | libs/timestamp.py:37-41 | the flag is expiry at t (or at now() when t is None); when expired the base advances by us mod 2^30, otherwise it is returned unchanged |
| Timestamp.DiffIsModularIffForward | libs/timestamp.py:15 | on timestamps, diff equals (t1 - t0) mod 2^30 if and only if t1 > t0 |
| Timestamp.EqualTicksAreExpired | libs/timestamp.py:15 | diff(t, t) is the mask, so expired_at(t, us, t) holds for every us up to the mask |
| Timestamp.DiffAcrossWrap | libs/timestamp.py:15 | diff(0, mask) is 2 * mask although modular subtraction gives 1 |
| Timestamp.AdvanceWraps | libs/timestamp.py:18-19 | advancing past the mask wraps to t + delta - 2^30 |
| Debounce.NextRegister | libs/button.py:136 | ((buffer << 1) + val) & 0x3F is (2 * buffer + val) mod 64, and its bit 0 is the new sample |
| Debounce.Step | libs/button.py:136-141 | the register takes the sample; the state turns true only on an all-ones register, false only on a zero register, and is otherwise unchanged |
| Debounce.ShiftIn | libs/button.py:136 | shifting a sample into the register of a six-sample window gives the register of the window slid by one |
| Debounce.RegisterIsWindow | libs/button.py:136 | after any run of samples, the register is the number formed by the last six samples |
| Debounce.WindowBit | libs/button.py:136 | bit i of the register is the sample taken i samples ago (the newest is bit 0) |
| Debounce.WindowAllOnes | libs/button.py:137-138 | the register equals 0x3F if and only if all six remembered samples are high |
| Debounce.WindowAllZeros | libs/button.py:139-140 | the register is 0 if and only if all six remembered samples are low |
| Debounce.FlipNeedsSixEqualSamples | libs/button.py:137-140 | a sample that flips the filtered state to v completes six equal samples v in a row |
| Debounce.AlternatingNeverFlips | libs/button.py:136-140 | an input that changes on every sample never moves the filtered state after its first sample |
| Debounce.SixthEqualSampleFlips | libs/button.py:136-140 | after a differing sample, fewer than six samples v leave the state alone and the sixth sets it to v |
| Buttons.Event.constructor | libs/button.py:24-26 | the event holds the given state and flags |
| Buttons.Event.Reset | libs/button.py:42-44 | reset overwrites both state and flags |
| Buttons.ActiveIffSomeQuery | libs/button.py:46-72 | for flags drawn from the six, `active` holds if and only if one of the six flag queries does |
| Buttons.FlagsAreDistinctBits | libs/button.py:7-12 | each flag is a single bit and two flags overlap only when equal, so the predicates test independent bits |
| Buttons.Sample | libs/button.py:129-143 | a sample is due exactly when diff(t, t_last) >= t_sample; then t_last advances by t_sample (not to t) and the filter steps; otherwise nothing changes |
| Buttons.ButtonCore.constructor | libs/button.py:79-90 | inversion defaults to (pin mode is pull-up); state false, t_last = t, register 0, nothing suppressed, t_sample = 1000000 / f_sample with f_sample 200 Hz when not given, a fresh empty event |
| Buttons.ButtonCore.CoreReset | libs/button.py:101-105 | state becomes the default, t_last the current tick, the register 0 |
| Buttons.ButtonCore.FilterEvents | libs/button.py:107-108 | the mask becomes 0xFFFF ^ events: it shares no bit with events and together with them covers every bit |
| Buttons.ButtonCore.ProcessState | libs/button.py:129-143 | t_last, the register and the returned state follow Sample; the changed flag is state XOR init_state |
| Buttons.ButtonHoldChanges | libs/button.py:191-198 | the long-press check sets long_pressed when a held press has lasted t_long_press, raises LongPressed (masked) only then, and changes nothing else |
| Buttons.ButtonEdgeKeeps | libs/button.py:200-227 | sampling and classifying an edge never change the event mask or long_pressed |
| Buttons.ButtonStepRespectsMask | libs/button.py:198 | after an update no suppressed flag is set and the mask is unchanged |
| Buttons.ButtonStepSamples | libs/button.py:200-209 | register and filtered state move only by a due sample of the inverted pin level; t_last advances by t_sample or stays |
| Buttons.ButtonStepLongPress | libs/button.py:193-197 | after an update long_pressed is its old value or (pressed and t_long_press expired since the last edge) |
| Buttons.ButtonStepFlags | libs/button.py:211-227 | a filtered press gives exactly Pressed; a release gives Released plus Clicked or RepeatClicked (by the repeat window) unless long-pressed, then Released only; otherwise only a new LongPressed; edges set t_changed and the event state |
| Buttons.LongPressLatchSticks | libs/button.py:218-224 | once long_pressed is set it stays set through any polls, and no later poll reports LongPressed, Clicked or RepeatClicked |
| Buttons.ButtonRunKeepsMask | libs/button.py:183-228 | no sequence of updates changes the event mask |
| Buttons.ButtonMaskOnlyFilters | libs/button.py:107-108 | with any mask, every field evolves exactly as with nothing suppressed and each poll's flags are the unsuppressed flags ANDed with the mask |
| Buttons.StepMaskOnlyFilters | libs/button.py:227 | one update under a mask and one with nothing suppressed, from matching states, keep matching states and masked flags |
| Buttons.Button.constructor | libs/button.py:147-155 | the core fields as for ButtonCore; t_changed and t_last_click at t; long-press 550000 and repeat-click 400000 ticks unless given; long_pressed false |
| Buttons.Button.Reset | libs/button.py:158-168 | state false whatever the default; timers restart at t; long_pressed false; __state gets the default or the inverted pin level |
| Buttons.Button.Update | libs/button.py:183-228 | returns the reused event; the new fields are ButtonStep of the old ones |
| Buttons.Button.CheckLongPress | libs/button.py:191-198 | the fields after the long-press check are ButtonHold of the old ones |
| Buttons.Button.SampleAndClassify | libs/button.py:200-227 | the fields after sampling and classification are ButtonEdge of the old ones |
| Buttons.Button.ReportEdge | libs/button.py:211-227 | the fields after classifying an edge are ButtonReport of the old ones |
| Buttons.ToggleStepSamples | libs/button.py:256-265 | a toggle samples exactly as a button does, and never changes its mask |
| Buttons.ToggleStepFlags | libs/button.py:266-280 | each filtered edge gives Pressed or Released, with Toggled and a flip of the logical state on the press (on the release when on_release); the event reports the logical state; without an edge no flag is set |
| Buttons.ToggleStepFlips | libs/button.py:266-278 | one poll flips the logical state exactly on a filtered edge to the toggling level |
| Buttons.ToggleParity | libs/button.py:266-278 | after any polls the logical state is the initial one flipped once per filtered press (per release when on_release), whatever is suppressed |
| Buttons.Toggle.constructor | libs/button.py:232-235 | the core fields as for ButtonCore, on_release stored, the last filtered state false |
| Buttons.Toggle.Reset | libs/button.py:238-240 | both the logical and the filtered state become the default; the register and t_last restart |
| Buttons.Toggle.Update | libs/button.py:247-281 | returns the reused event; the new fields are ToggleStep of the old ones |
| Buttons.Toggle.ReportEdge | libs/button.py:266-280 | the fields after classifying an edge are ToggleReport of the old ones |
| Buttons.UnbufferedStep | libs/button.py:293-306 | the state becomes inverted XOR pin level; a change gives Pressed or Released (masked) and the new event state; no change gives no flags |
| Buttons.EveryLevelChangeReported | libs/button.py:293-306 | with Pressed and Released allowed, a poll reports an event if and only if the pin level differs from the previous poll's |
| Buttons.MaskKept | libs/button.py:302 | no sequence of unbuffered updates changes the mask |
| Buttons.Unbuffered.constructor | libs/button.py:285-286 | the core fields as for ButtonCore |
| Buttons.Unbuffered.Reset | libs/button.py:289-290 | core_reset with the default state |
| Buttons.Unbuffered.Update | libs/button.py:293-306 | returns the reused event; the new fields are UnbufferedStep of the old ones; the register and t_last are untouched |
| Picola.CellUpdate | libs/picola.py:108-111 | writing cell (r, c) changes that cell and no other |
| Picola.CellAppend | libs/picola.py:178 | extending the data by a row keeps every earlier cell and puts the row last |
| Picola.FlattenCells | libs/picola.py:245-258 | concatenating equal-length rows puts rows[i][j] at cell (i, j) |
| Picola.Negated | libs/picola.py:32 | same length, every element negated |
| Picola.Sums | libs/picola.py:41 | zip semantics: the shorter length, element i is a[i] + b[i] |
| Picola.Scaled | libs/picola.py:53 | same length, every element multiplied by the scalar |
| Picola.Products | libs/picola.py:62 | zip semantics: the shorter length, element i is a[i] * b[i] |
| Picola.NegThenDot | libs/picola.py:57-62 | (-v).dot(w) == -(v.dot(w)): the dot product of the negated elements is the negated dot product |
| Picola.Column | libs/picola.py:186 | the comprehension reads column k top to bottom: element j is cell (j, k) |
| Picola.TransposedCells | libs/picola.py:182-188 | the columns appended as rows put cell (j, i) of the source at cell (i, j) |
| Picola.RowProducts | libs/picola.py:233-239 | the two inner loops give a row whose element j is the sum over k of a[row][k] * b[k][j] |
| Picola.Vector.constructor | libs/picola.py:3-4 | the vector holds the given list |
| Picola.Vector.Get | libs/picola.py:16-20 | raises if and only if idx < 0 or idx > len - 1; otherwise returns data[idx] |
| Picola.Vector.Set | libs/picola.py:23-28 | raises on the same indices with the data unchanged; otherwise writes only data[idx] and returns val |
| Picola.Vector.Neg | libs/picola.py:31-33 | a new vector of the negated elements |
| Picola.Vector.Add | libs/picola.py:36-42 | raises if and only if the lengths differ; otherwise a new vector of the elementwise sums |
| Picola.Vector.Scale | libs/picola.py:52-53 | a new vector with every element scaled |
| Picola.Vector.Outer | libs/picola.py:47-51 | a new len(a) by len(b) matrix with entry (i, j) = a[i] * b[j], and an unset shape for an empty a |
| Picola.Vector.Dot | libs/picola.py:57-62 | raises if and only if the lengths differ; otherwise the sum of the products |
| Picola.Matrix.constructor | libs/picola.py:132-135 | dims as given, no shape, no data |
| Picola.Matrix.AppendRow | libs/picola.py:169-179 | the first row sets the shape (1, n); a later row of the right length adds a row and exactly its elements; a wrong length or an empty shape raises with nothing changed; the shape invariant is kept |
| Picola.Matrix.FromData | libs/picola.py:245-258 | raises if and only if some row's length differs from the first; otherwise the data gain the rows concatenated and the shape is (rows, len(first row)), or () for no rows |
| Picola.Matrix.FromRows | libs/picola.py:132-137 | Matrix(rows): raises on ragged rows; otherwise element (i, j) is rows[i][j] with that shape |
| Picola.Matrix.Get | libs/picola.py:102-105 | raises when the shape is not a pair or the flat index row * columns + column lies outside the list; otherwise returns the element at that index under Python indexing (a negative index counts from the end of the whole list) |
| Picola.GetCell | libs/picola.py:102-105 | inside the shape, m[row][column] is cell (row, column) |
| Picola.ColumnSpillsIntoNextRow | libs/picola.py:102-105 | the column is not checked: m[0][columns] reads cell (1, 0) |
| Picola.Matrix.Set | libs/picola.py:108-111 | writes data[row * columns + column] with Python indexing; fails with the data unchanged when the shape is not a pair or the index is outside the list |
| Picola.Matrix.Transpose | libs/picola.py:182-188 | raises unless the shape is a pair; otherwise an r by c matrix gives c by r (unset when c is 0) with T[i][j] = M[j][i] |
| Picola.Matrix.Neg | libs/picola.py:198-204 | a new matrix of the negated elements with the same shape and dims |
| Picola.Matrix.Add | libs/picola.py:207-216 | raises if and only if the shapes differ; otherwise the elementwise sums with this shape and dims |
| Picola.Matrix.Sub | libs/picola.py:219-224 | the same shape check, then a + (-b): element i is a[i] - b[i] |
| Picola.Matrix.Mul | libs/picola.py:227-241 | raises unless both shapes are pairs and a.columns == b.rows; otherwise an a.rows by b.columns matrix whose entry (r, c) is the sum over k of a[r][k] * b[k][c] |

## Left out

- The busy-wait helpers `until_event` and `wait_for_*` (libs/button.py:111-126, 171-180, 243-244) are left out. They are unbounded loops over caller callbacks, and they refer to the undefined name `evt_flag`.
- `latency_us` and `f_max` (libs/button.py:92-98) are left out. They read a field that is never assigned and use float division.
- `Event.__str__` is left out: it is text formatting.
- The `__str__` methods, `__len__`, `append`, the row and column iterators and the `dims`, `shape` and `data` properties of the matrix library are left out.
- Hardware is not modelled; the model takes parameters in its place:
  - the `machine.Pin` object is replaced by the pull mode and, at each update or reset, the raw level it would read;
  - `time.ticks_us()` is replaced by the tick value that `timestamp.now()` would return.
- The `if __name__ == '__main__'` demonstrations are not part of this model.
- Buttons.ButtonCore.constructor: requires a given `f_sample` to be a positive integer. The source divides by zero for 0 and accepts a float, which is not modelled.
- Buttons.Button.constructor: an explicit `t_long_press` or `t_repeat_click` is converted to a 32-bit word when it is stored, which is where the viper functions would truncate it. The model does not keep Python's unbounded int in the field.
- `Flags` is a 16-bit vector: `filter_events` is modelled on 16-bit masks, and wider integers passed to it are not modelled.
- `Matrix.__neg__` is defined twice with the same body; the second definition (libs/picola.py:198-204) is the one modelled.
- Picola.Matrix.Transpose, Picola.Matrix.Add, Picola.Matrix.Sub and Picola.Matrix.Mul require the shape invariant `Valid()`:
  - an unset or empty shape holds no data;
  - a pair (r, c) has r >= 1 and exactly r * c elements.
  Every matrix built through the library keeps it. A list changed from outside through the `data` property could break it; that is not modelled.
- Picola.Vector.Add, Picola.Vector.Dot, Picola.Matrix.Add, Picola.Matrix.Sub and Picola.Matrix.Mul take operands of the right class only. For other operands the source returns `None`, and that path is not modelled.
- `Vector(data)` keeps the caller's list itself, so a later change to that list shows through the vector. The model copies the value and does not capture this aliasing.
- Matrix elements and vector elements are integers; floating-point elements are not modelled.
