# micro-keyboard firmware core in Dafny

This project models the per-cycle logic of the micro-keyboard firmware (`src/main.cpp`). The board is a 4 x 10 switch matrix with a Fn key at row 3, column 3 and a two-layer keymap. It is built either as a wired USB keyboard or as a wireless (BLE) keyboard.

The model covers five parts:

- **The debounce filter** (`debounceMatrix`), an integrate-and-dump counter per cell.
  - `Debounce` states one cell's step as a function and proves the filter's properties over whole reading sequences.
  - `Firmware.Keyboard.DebounceMatrix` runs the nested loops over the `debounced` / `stableCount` arrays, behind the 1 ms rate gate.
- **The keymap and layer selection.**
  - `Keys` holds the constant table and the layer choice.
  - `Keys` also holds the modifier switch. It turns codes 0xE0..0xE7 into the eight modifiers and passes each modifier's library constant (`KEY_LEFT_CTRL` .. `KEY_RIGHT_GUI`) to the transport. Every other code is passed through as it is.
  - The HID library's named key codes are not fixed here: the ones in the keymap (`KEY_RETURN`, `KEY_LEFT_ALT`, ...) and the eight modifier constants. They are fields of `LibCodes`, and every statement holds for any choice of them. The keymap's `Table` carries these constants beside its entries.
- **The report pass** (`sendHIDReport`).
  - `Emit` defines, on grid values, the press and release calls one pass makes (`Report`) and the any-key-pressed flag (`AnyActive`), and proves what they contain.
  - `Firmware.Keyboard.SendHidReport` runs the two loops over the arrays. Its contract ties the calls it appends to the `trace` field, and the new `prevDebounced`, to those functions.
  - Calls into the HID transport are recorded on `trace` as `Press(k)` / `Release(k)` events. `k` is the byte the call passes, so the keymap's Alt entry (`KEY_LEFT_ALT` itself) and code 0xE2 (which the switch turns into `KEY_LEFT_ALT`) make the same event, as long as `KEY_LEFT_ALT` lies outside 0xE0..0xE7 (`Keys.TransportCalls`).
- **The status-light timer** (`updateLED`).
  - `Led.Update` is the toggle rule.
  - `Firmware.Keyboard.UpdateLed` is the method with the source's three branches.
  - The value written to the light is returned as a `LedCommand`.
- **The state clearing in `setup`**, modelled as the `Keyboard` constructor. `Cycle` composes one pass of `loop`.

The board variant is the constant `wireless`. The millisecond clock (`millis()`), the raw matrix and the wireless link state (`bleKeyboard.isConnected()`) are method parameters. `millis()` and `isConnected()` are read separately by each step of the loop, so `Cycle` takes one reading per step.

Times are `uint32_t` in the source. `Ints.Elapsed` models `now - since` with its wrap-around modulo 2^32 explicitly.

Two behaviours of the code are easy to misread as design, so the model states them outright:

- **Fresh lookup on release.** A release looks its code up afresh, under the layer current at release time (`src/main.cpp:292`). It does not reuse a code cached when the key went down. `ReleaseLostUnderFn`, `EnterReleaseLostUnderFn` and `TopLeftReleasedAsDigit` state the consequences:
  - Enter let go while Fn is held is never released.
  - 'q' let go while Fn is held is released as '1'.
- **Early return while the link is down.** On the wireless board with the link down, the report pass returns before it writes `prevDebounced` (`src/main.cpp:240-245`). So `prevDebounced` does not track `debounced` during the outage. The first pass after the link comes back reports only each cell's net change since the last connected pass, under the layer current at that pass. A key pressed and released entirely during the outage is never reported (`UnchangedCellQuiet`: a cell whose value is back where it was makes no call; `ReportSilentWhenSynced`: a pass over a matrix that is back where it was makes none at all).

## Model

| member | source | states |
|---|---|---|
| Ints.Elapsed | src/main.cpp:208 | `now - since` on uint32_t: the plain difference when `since <= now`, the difference across one wrap-around otherwise; zero exactly when the two times are equal |
| Keys.Layer | src/main.cpp:247 | the layer is 0 or 1, and it is 1 exactly when the debounced Fn cell is pressed |
| Keys.Code | src/main.cpp:257 | on a well-formed table, the lookup returns the table's entry `keymap[layer][r][c]` |
| Keys.KeymapRow | src/main.cpp:145-168 | every row of the constant keymap has one entry per column |
| Keys.Keymap | src/main.cpp:145-168 | the constant keymap has two layers of 4 x 10 entries |
| Keys.KeymapEntries | src/main.cpp:145-168 | the whole Fn-layer bottom row and the Fn cell on layer 0 map to no key; the top-left key is 'q' on layer 0 and '1' on layer 1; Enter sits at (3, 4) |
| Keys.ModifierCode | src/main.cpp:298-322 | every modifier's code lies in 0xE0..0xE7 |
| Keys.Classify | src/main.cpp:298-330 | a code takes the modifier branch exactly when it lies in 0xE0..0xE7, selecting the modifier whose code it is; any other code takes the pass-through branch with the code unchanged |
| Keys.Transport | src/main.cpp:298-330 | the byte a call passes: the code itself outside 0xE0..0xE7, and the library constant of the code's modifier inside |
| Keys.TransportCalls | src/main.cpp:298-330 | each modifier code selects its modifier and passes its constant; codes outside 0xE0..0xE7 pass different bytes; the keymap's Alt entry (`KC_LALT`, defined at line 142 as the library constant itself) makes the same call as code 0xE2 unless that constant lies in 0xE0..0xE7 |
| Debounce.Step | src/main.cpp:214-225 | an agreeing reading clears the counter and keeps the value; a disagreeing one counts up, and the count reaching DEBOUNCE_MS commits the reading with the counter cleared; the value only changes to the reading, with a cleared counter; the counter stays below DEBOUNCE_MS |
| Debounce.CountStaysBounded | src/main.cpp:218-223 | from a counter below DEBOUNCE_MS, every sequence of updates keeps it below, so the guard in front of the increment always holds |
| Debounce.Differing | src/main.cpp:214-215 | the number of readings that disagree with a value is at most the number of readings, and zero exactly when every reading agrees |
| Debounce.ShortBurstRejected | src/main.cpp:214-223 | fewer disagreeing updates than are missing to the threshold, in any pattern and interleaved with any number of agreeing ones, leave the debounced value unchanged |
| Debounce.FlipNeedsSustainedReading | src/main.cpp:214-223 | whenever the debounced value changes over a sequence of readings, the sequence holds a run of consecutive disagreeing readings long enough to reach the threshold |
| Debounce.DisagreementCounts | src/main.cpp:218-219 | below the threshold, n disagreeing updates raise the counter by n and keep the value |
| Debounce.CommitOnThreshold | src/main.cpp:218-223 | from counter c, exactly DEBOUNCE_MS - c disagreeing updates flip the value and leave the counter at zero |
| Debounce.AgreementKeeps | src/main.cpp:215-216 | agreeing readings keep the value and clear the counter |
| Led.Update | src/main.cpp:87-131 | with a key active the light is driven on and its blink state is untouched; otherwise the blink toggles, recording `now`, exactly when at least one period has elapsed modulo 2^32, and nothing is written when it does not |
| Led.Period | src/main.cpp:104-119 | the blink period is between 250 and 2000 ms; it is 250 ms exactly on the wireless board with the link down, 2000 ms exactly on the wireless board with the link up, and 1000 ms on the wired board |
| Led.NoToggleWithinPeriod | src/main.cpp:104-129 | updates less than a period after the last toggle never change the blink state |
| Led.NoDoubleToggle | src/main.cpp:104-129 | a second update in the same millisecond as a toggle does not toggle again |
| Emit.LayerOf | src/main.cpp:247 | the layer of a pass is 0 or 1 |
| Emit.ActiveBeforeWitness | src/main.cpp:250-277 | the any-key scan stopped at (r, c) is true exactly when some cell before (r, c) is held, is not Fn, and maps to a key |
| Emit.AnyActive | src/main.cpp:250-277 | the any-key-pressed flag of a full pass is true exactly when some non-Fn cell is held and maps to a key under the current layer |
| Emit.CellEvents | src/main.cpp:285-369 | a cell makes at most one call, and makes one exactly when it is not Fn, its debounced value differs from the previous one, and its code under the current layer is not KC_NO; the call passes the byte the modifier switch gives for the code, and it is a press exactly when the cell is now held |
| Emit.EventsBefore | src/main.cpp:283-372 | the cells before (r, c) make at most one call each |
| Emit.Report | src/main.cpp:283-372 | a pass over the 4 x 10 matrix makes at most one call per cell |
| Emit.EventsBeforeStep | src/main.cpp:283-372 | the calls up to a cell are the calls up to the previous cell followed by that cell's calls, in row-major order |
| Emit.FlatTabulates | src/main.cpp:283-372 | concatenating a table of per-cell calls in row-major order gives the calls of the pass |
| Emit.EventsBeforeMembership | src/main.cpp:283-372 | a call is among those made before (r, c) exactly when some cell before (r, c) makes it |
| Emit.ReportMembership | src/main.cpp:283-372 | a call is in a pass's report exactly when some cell makes it: every changed, mapped, non-Fn cell contributes its call and nothing else is sent |
| Emit.EventsBeforeSingle | src/main.cpp:283-372 | when every cell but one is quiet, the calls up to (r, c) are that cell's calls if it comes before (r, c), and none otherwise |
| Emit.UnchangedCellQuiet | src/main.cpp:285-291 | the Fn cell and any cell whose value did not change make no call |
| Emit.ReportSingleChange | src/main.cpp:283-372 | when only one non-Fn cell changed, the pass's report is exactly that cell's call or nothing |
| Emit.ReportSilentWhenSynced | src/main.cpp:283-372 | a pass over a matrix whose non-Fn cells all equal the previous values makes no call, whatever the Fn cell did |
| Emit.ReleaseMatchesPressOnSameLayer | src/main.cpp:292-366 | a release carries the same key as the press of the same cell when the layer is the same at both passes |
| Emit.PressedStep | src/main.cpp:283-372 | two key sets that differ at most in one cell report that cell's call alone |
| Emit.LoneKey | src/main.cpp:283-372 | a lone key pressed and released with Fn up makes one press and one release of its layer-0 key; pressed with Fn held, one press of its layer-1 key |
| Emit.TopLeftKey | src/main.cpp:149-160 | the top-left key sends 'q' down and up on layer 0, and '1' with Fn held |
| Emit.ReleaseLostUnderFn | src/main.cpp:292 | a key with a layer-0 code but none on layer 1 pressed, then Fn pressed, the key released, Fn released: one press and never a release |
| Emit.PressThenFn | src/main.cpp:283-372 | a key pressed with Fn up makes the press of its layer-0 code, and Fn pressed afterwards makes no call |
| Emit.ReleaseUnderFn | src/main.cpp:292 | the key let go while Fn is held is released with its layer-1 code, or not at all when that is KC_NO, and Fn let go afterwards makes no call |
| Emit.TopLeftReleasedAsDigit | src/main.cpp:292 | 'q' pressed, then Fn pressed, then 'q' let go sends a press of 'q' and a release of '1' |
| Emit.EnterReleaseLostUnderFn | src/main.cpp:155-166 | Enter pressed, Fn pressed, Enter released, Fn released sends one press of Enter and no release |
| Firmware.Keyboard.constructor | src/main.cpp:388-396 | all three buffers are false or zero, the last-run time, the flag and the light are cleared, nothing has been sent, and the object invariant `Valid` (shapes, and every counter below DEBOUNCE_MS) and the synced state `Synced` (every non-Fn cell's previous value equals its debounced value) hold |
| Firmware.Keyboard.DebounceMatrix | src/main.cpp:205-228 | within the same millisecond as the last run nothing changes; otherwise the run time becomes `now` and every cell takes exactly one filter step on its own raw reading; the counters stay below DEBOUNCE_MS |
| Firmware.Keyboard.FindActiveKey | src/main.cpp:250-277 | the result is the any-key-pressed flag of the current matrix |
| Firmware.Keyboard.ReportChanges | src/main.cpp:283-373 | the calls of the pass over the current and previous matrices are appended to the trace in row-major order, and every non-Fn cell's previous value becomes its debounced value while the Fn cell's is kept |
| Firmware.Keyboard.ReportCell | src/main.cpp:285-370 | a non-Fn cell makes exactly its calls and is marked as seen; no other cell changes |
| Firmware.Keyboard.SendHidReport | src/main.cpp:239-373 | with the wireless link down, nothing changes; otherwise the flag is the any-key-pressed flag, the pass's calls are appended to the trace, every non-Fn cell is synced, and a pass over an already synced matrix sends nothing; the Fn cell's previous value is never written |
| Firmware.Keyboard.UpdateLed | src/main.cpp:87-131 | the light's state and the command written are those of `Led.Update` with the period of the board and link (250, 2000 or 1000 ms); nothing else changes |
| Firmware.Keyboard.Cycle | src/main.cpp:401-413 | one pass of the loop: the counters stay below DEBOUNCE_MS; when the rate gate opens the run time becomes the scan time and every cell takes one filter step, otherwise both are kept; with the link up the flag is set, the pass's calls are appended and the matrix is synced, with the link down none of these change; the Fn cell's previous value is kept; the light update follows; each step has its own clock and link readings |

## Left out

- Matrix scanning (`scanMatrixRaw`, `setupMatrixPins`): pin modes, `digitalRead` and microsecond delays are hardware I/O. The raw matrix is a parameter, and clearing `rawState` in `setup` has no counterpart.
- HID library internals (`Keyboard`, `bleKeyboard`): the library's code is not part of this model. Calls are recorded in order on `trace`. The six-key report capacity, what the host sees, and `begin()` are not modelled.
- Library key-code values (`KEY_RETURN`, `KEY_LEFT_ALT`, `KEY_LEFT_CTRL`, ...): defined in library headers that are not part of this model, so they stay free fields of `LibCodes`. In particular `KC_LALT` is not assumed to lie in 0xE0..0xE7, and the modifier constants are not assumed to differ from the keymap's codes.
- Serial logging (`Serial.begin`, `Serial.print`): diagnostics only.
- Light hardware (`digitalWrite`, `neoPixelSetValue`, `neoPixelClear`, the colours): only the on/off decision is kept, as a `LedCommand`.
- `millis()`, `delay(...)`, `setupHID` and `setupLED`: timing and bring-up with no state of the core. Times are parameters.
- Keys.Keymap: its contract states only the table's shape. The entries are the definition itself, and `Keys.KeymapEntries` states the ones the report logic depends on.
