/** The keyboard's per-cycle logic: the debounce filter, the report pass that turns
    debounced edges into HID press and release calls, and the status-light update, all
    working on the firmware's fixed-size state. The board variant (wired or wireless) is
    a constant of the object; the clock, the raw matrix and the wireless link state are
    inputs of each call. */
module Firmware {
  import opened Ints
  import opened Keys
  import opened Emit
  import Debounce
  import Led

  /** The current contents of a matrix buffer as a grid value. */
  ghost function View(a: array2<bool>): (g: Grid)
    reads a
    requires a.Length0 == ROWS && a.Length1 == COLS
    ensures IsGrid(g)
    ensures forall r, c :: 0 <= r < ROWS && 0 <= c < COLS ==> g[r][c] == a[r, c]
  {
    seq(ROWS, r requires 0 <= r < ROWS reads a => seq(COLS, c requires 0 <= c < COLS reads a => a[r, c]))
  }

  class Keyboard {
    /** The board variant: true for the wireless (BLE) board, false for the wired one. */
    const wireless: bool
    const keymap: Table

    /** Accepted switch states, the states seen by the last report pass, and the
        per-cell debounce counters. */
    const debounced: array2<bool>
    const prevDebounced: array2<bool>
    const stableCount: array2<u8>

    /** Time of the last debounce run. */
    var lastMs: u32
    /** Whether the last report pass found an active key. */
    var anyKeyPressed: bool
    var ledState: bool
    var lastLedToggle: u32
    /** Every press and release call made to the HID transport, oldest first. */
    var trace: seq<Event>

    ghost predicate Shaped()
      reads this
    {
      && debounced.Length0 == ROWS && debounced.Length1 == COLS
      && prevDebounced.Length0 == ROWS && prevDebounced.Length1 == COLS
      && stableCount.Length0 == ROWS && stableCount.Length1 == COLS
      && debounced != prevDebounced
    }

    /** The object invariant: the buffers have the matrix's shape and every debounce
        counter is below DEBOUNCE_MS. */
    ghost predicate Valid()
      reads this, stableCount
    {
      && Shaped()
      && forall r, c :: 0 <= r < ROWS && 0 <= c < COLS ==> stableCount[r, c] as int < Debounce.DEBOUNCE_MS
    }

    /** The filter state of cell (r, c). */
    ghost function Cell(r: nat, c: nat): Debounce.CellState
      reads this, debounced, stableCount
      requires Shaped() && r < ROWS && c < COLS
    {
      Debounce.CellState(debounced[r, c], stableCount[r, c] as nat)
    }

    /** The last report pass has seen every non-Fn cell's current debounced value. */
    ghost predicate Synced()
      reads this, debounced, prevDebounced
      requires Shaped()
    {
      forall r, c {:trigger prevDebounced[r, c]} :: 0 <= r < ROWS && 0 <= c < COLS && !IsFn(r, c) ==>
        prevDebounced[r, c] == debounced[r, c]
    }

    /** Start-up: every buffer and counter cleared, the light off, nothing sent. */
    constructor (wireless: bool, lib: LibCodes)
      ensures Valid() && Synced()
      ensures this.wireless == wireless && keymap == Keymap(lib)
      ensures fresh(debounced) && fresh(prevDebounced) && fresh(stableCount)
      ensures forall r, c :: 0 <= r < ROWS && 0 <= c < COLS ==>
        !debounced[r, c] && !prevDebounced[r, c] && stableCount[r, c] == 0
      ensures lastMs == 0 && !anyKeyPressed && !ledState && lastLedToggle == 0 && trace == []
    {
      this.wireless := wireless;
      keymap := Keymap(lib);
      debounced := new bool[ROWS, COLS]((r, c) => false);
      prevDebounced := new bool[ROWS, COLS]((r, c) => false);
      stableCount := new u8[ROWS, COLS]((r, c) => 0);
      lastMs := 0;
      anyKeyPressed := false;
      ledState := false;
      lastLedToggle := 0;
      trace := [];
    }

    /** One run of the debounce filter over the raw matrix `raw` at time `now`. Within
        the same millisecond as the previous run it does nothing; otherwise it records
        `now` and applies one filter step to every cell, each cell on its own. */
    method DebounceMatrix(raw: Grid, now: u32)
      requires Valid() && IsGrid(raw)
      modifies this, debounced, stableCount
      ensures Valid()
      ensures anyKeyPressed == old(anyKeyPressed) && trace == old(trace)
      ensures ledState == old(ledState) && lastLedToggle == old(lastLedToggle)
      ensures Elapsed(now, old(lastMs)) < 1 ==> lastMs == old(lastMs) && unchanged(debounced, stableCount)
      ensures Elapsed(now, old(lastMs)) >= 1 ==> lastMs == now
      ensures Elapsed(now, old(lastMs)) >= 1 ==>
        forall r, c :: 0 <= r < ROWS && 0 <= c < COLS ==> Cell(r, c) == Debounce.Step(old(Cell(r, c)), raw[r][c])
    {
      var timeElapsed := Elapsed(now, lastMs) >= 1;
      if !timeElapsed {
        return;
      }
      lastMs := now;
      for r := 0 to ROWS
        modifies debounced, stableCount
        invariant Valid()
        invariant forall i, j :: 0 <= i < ROWS && 0 <= j < COLS ==>
          Cell(i, j) == if i < r then Debounce.Step(old(Cell(i, j)), raw[i][j]) else old(Cell(i, j))
      {
        for c := 0 to COLS
          modifies debounced, stableCount
          invariant Valid()
          invariant forall i, j :: 0 <= i < ROWS && 0 <= j < COLS ==>
            Cell(i, j) == if Before(i, j, r, c) then Debounce.Step(old(Cell(i, j)), raw[i][j]) else old(Cell(i, j))
        {
          var v := raw[r][c];
          if v == debounced[r, c] {
            stableCount[r, c] := 0;
          } else {
            if stableCount[r, c] as int < Debounce.DEBOUNCE_MS {
              stableCount[r, c] := stableCount[r, c] + 1;
              if stableCount[r, c] as int >= Debounce.DEBOUNCE_MS {
                debounced[r, c] := v;
                stableCount[r, c] := 0;
              }
            }
          }
        }
      }
    }

    /** The first half of a report pass: whether some non-Fn cell is held and maps to a
        key under `layer`, the layer the Fn cell currently selects. */
    method FindActiveKey(layer: nat) returns (found: bool)
      requires Shaped() && layer == Layer(debounced[FN_ROW, FN_COL])
      ensures found == AnyActive(View(debounced), keymap)
    {
      ghost var D := View(debounced);
      assert layer == LayerOf(D);
      found := false;
      for r := 0 to ROWS
        invariant !ActiveBefore(D, keymap, r, 0)
      {
        for c := 0 to COLS
          invariant !ActiveBefore(D, keymap, r, c)
        {
          if r == FN_ROW && c == FN_COL {
            continue;
          }
          if debounced[r, c] {
            var code := Code(keymap, layer, r, c);
            if code != KC_NO {
              found := true;
              assert ActiveAt(D, keymap, r, c);
              return;
            }
          }
        }
      }
    }

    /** The second half of a report pass: a press or release call for every non-Fn cell
        whose debounced value differs from the value seen last time and that maps to a
        key under `layer`, in row-major order; every such cell is then marked as seen. */
    method ReportChanges(layer: nat)
      requires Shaped() && layer == Layer(debounced[FN_ROW, FN_COL])
      modifies this`trace, prevDebounced
      ensures trace == old(trace) + Report(View(debounced), old(View(prevDebounced)), keymap)
      ensures forall r, c {:trigger prevDebounced[r, c]} :: 0 <= r < ROWS && 0 <= c < COLS ==>
        prevDebounced[r, c] == if IsFn(r, c) then old(prevDebounced[r, c]) else debounced[r, c]
    {
      ghost var D := View(debounced);
      ghost var P0 := View(prevDebounced);
      assert layer == LayerOf(D);
      ghost var E := CellGrid(D, P0, keymap);
      var sent := [];
      for r := 0 to ROWS
        modifies prevDebounced
        invariant sent == Flat(E, r, 0)
        invariant forall i, j {:trigger prevDebounced[i, j]} :: 0 <= i < ROWS && 0 <= j < COLS ==>
          prevDebounced[i, j] == if Before(i, j, r, 0) && !IsFn(i, j) then D[i][j] else P0[i][j]
      {
        for c := 0 to COLS
          modifies prevDebounced
          invariant sent == Flat(E, r, c)
          invariant forall i, j {:trigger prevDebounced[i, j]} :: 0 <= i < ROWS && 0 <= j < COLS ==>
            prevDebounced[i, j] == if Before(i, j, r, c) && !IsFn(i, j) then D[i][j] else P0[i][j]
        {
          assert CellIs(E, D, P0, keymap, r, c);
          if r == FN_ROW && c == FN_COL {
            continue;
          }
          var events := ReportCell(r, c, layer, D, P0);
          sent := sent + events;
        }
      }
      FlatTabulates(E, D, P0, keymap, ROWS, 0);
      trace := trace + sent;
    }

    /** The body of the report loop for one non-Fn cell: if its debounced value differs
        from the value seen last time, the press or release call for the key it maps to
        under `layer` (none when it maps to no key), and the cell is marked as seen. D
        and P are the debounced and previously seen grids the pass works from. */
    method ReportCell(r: nat, c: nat, layer: nat, ghost D: Grid, ghost P: Grid) returns (events: seq<Event>)
      requires Shaped() && r < ROWS && c < COLS && !IsFn(r, c)
      requires IsGrid(D) && IsGrid(P) && layer == LayerOf(D)
      requires debounced[r, c] == D[r][c] && prevDebounced[r, c] == P[r][c]
      modifies prevDebounced
      ensures events == CellEvents(D, P, keymap, r, c)
      ensures prevDebounced[r, c] == debounced[r, c]
      ensures forall i, j :: 0 <= i < ROWS && 0 <= j < COLS && !(i == r && j == c) ==>
        prevDebounced[i, j] == old(prevDebounced[i, j])
    {
      events := [];
      var currentState := debounced[r, c];
      var previousState := prevDebounced[r, c];
      if currentState != previousState {
        var code := Code(keymap, layer, r, c);
        if code != KC_NO {
          if currentState {
            events := [Press(Transport(keymap.lib, code))];
          } else {
            events := [Release(Transport(keymap.lib, code))];
          }
        }
        prevDebounced[r, c] := currentState;
      }
    }

    /** One report pass. On the wireless board with the link down it returns at once;
        otherwise it sets `anyKeyPressed`, makes a press or release call for every non-Fn
        cell whose debounced value changed since the previous pass and maps to a key
        under the current layer, and records every non-Fn cell's value as seen. */
    method SendHidReport(connected: bool)
      requires Shaped()
      modifies this`anyKeyPressed, this`trace, prevDebounced
      ensures wireless && !connected ==>
        unchanged(prevDebounced) && anyKeyPressed == old(anyKeyPressed) && trace == old(trace)
      ensures !wireless || connected ==>
        && anyKeyPressed == AnyActive(View(debounced), keymap)
        && trace == old(trace) + Report(View(debounced), old(View(prevDebounced)), keymap)
        && Synced()
      ensures old(Synced()) ==> trace == old(trace)
      ensures forall r, c {:trigger prevDebounced[r, c]} :: 0 <= r < ROWS && 0 <= c < COLS && IsFn(r, c) ==>
        prevDebounced[r, c] == old(prevDebounced[r, c])
    {
      if wireless && !connected {
        return;
      }
      var layer := Layer(debounced[FN_ROW, FN_COL]);
      anyKeyPressed := FindActiveKey(layer);
      ReportChanges(layer);
      if old(Synced()) {
        ReportSilentWhenSynced(View(debounced), old(View(prevDebounced)), keymap);
      }
    }

    /** One status-light update at time `now`, with `connected` the wireless link state
        (not read on the wired board). */
    method UpdateLed(now: u32, connected: bool) returns (cmd: Led.LedCommand)
      requires Valid()
      modifies this
      ensures Valid()
      ensures lastMs == old(lastMs) && anyKeyPressed == old(anyKeyPressed) && trace == old(trace)
      ensures
        var o := Led.Update(Led.LedState(old(ledState), old(lastLedToggle)), anyKeyPressed, now,
                            Led.Period(wireless, connected));
        ledState == o.state.on && lastLedToggle == o.state.lastToggle && cmd == o.command
    {
      if anyKeyPressed {
        cmd := Led.KeyActive;
        return;
      }
      cmd := Led.NoWrite;
      if wireless {
        if !connected {
          if Elapsed(now, lastLedToggle) >= Led.FAST_BLINK {
            ledState := !ledState;
            cmd := Led.Blink(ledState);
            lastLedToggle := now;
          }
        } else {
          if Elapsed(now, lastLedToggle) >= Led.SLOW_BLINK {
            ledState := !ledState;
            cmd := Led.Blink(ledState);
            lastLedToggle := now;
          }
        }
      } else {
        if Elapsed(now, lastLedToggle) >= Led.HEARTBEAT {
          ledState := !ledState;
          cmd := Led.Blink(ledState);
          lastLedToggle := now;
        }
      }
    }

    /** One pass of the main loop: debounce the freshly scanned matrix, send the report,
        update the light. The clock and the link state are read separately by each step,
        so each step gets its own reading. */
    method Cycle(raw: Grid, scanTime: u32, reportLink: bool, ledTime: u32, ledLink: bool)
      returns (cmd: Led.LedCommand)
      requires Valid() && IsGrid(raw)
      modifies this, debounced, stableCount, prevDebounced
      ensures Valid()
      ensures forall r, c :: 0 <= r < ROWS && 0 <= c < COLS ==>
        Cell(r, c) == if Elapsed(scanTime, old(lastMs)) >= 1 then Debounce.Step(old(Cell(r, c)), raw[r][c]) else old(Cell(r, c))
      ensures !wireless || reportLink ==>
        && anyKeyPressed == AnyActive(View(debounced), keymap)
        && trace == old(trace) + Report(View(debounced), old(View(prevDebounced)), keymap)
        && Synced()
      ensures wireless && !reportLink ==>
        unchanged(prevDebounced) && anyKeyPressed == old(anyKeyPressed) && trace == old(trace)
      ensures lastMs == if Elapsed(scanTime, old(lastMs)) >= 1 then scanTime else old(lastMs)
      ensures forall r, c {:trigger prevDebounced[r, c]} :: 0 <= r < ROWS && 0 <= c < COLS && IsFn(r, c) ==>
        prevDebounced[r, c] == old(prevDebounced[r, c])
      ensures
        var o := Led.Update(Led.LedState(old(ledState), old(lastLedToggle)), anyKeyPressed, ledTime,
                            Led.Period(wireless, ledLink));
        ledState == o.state.on && lastLedToggle == o.state.lastToggle && cmd == o.command
    {
      DebounceMatrix(raw, scanTime);
      SendHidReport(reportLink);
      cmd := UpdateLed(ledTime, ledLink);
    }
  }
}
