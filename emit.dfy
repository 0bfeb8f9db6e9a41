/** The edge detector: which press and release calls one report pass makes. */
module Emit {
  import opened Ints
  import opened Keys

  /** A call into the HID transport. */
  datatype Event = Press(key: u8) | Release(key: u8)

  /** The layer a pass works under, read from the debounced Fn cell. */
  function LayerOf(D: Grid): (layer: nat)
    requires IsGrid(D)
    ensures layer < 2
  {
    Layer(D[FN_ROW][FN_COL])
  }

  /** Coordinate (i, j) comes before (r, c) in row-major order. */
  predicate Before(i: nat, j: nat, r: nat, c: nat) {
    i < r || (i == r && j < c)
  }

  /** The debounced cell is pressed and maps to a key under the active layer: what
      the status light counts as an active key. */
  predicate ActiveAt(D: Grid, km: Table, r: nat, c: nat)
    requires IsGrid(D) && r < ROWS && c < COLS
  {
    !IsFn(r, c) && D[r][c] && Code(km, LayerOf(D), r, c) != KC_NO
  }

  /** Some cell before (r, c) in row-major order is active: the scan that sets the
      any-key-pressed flag, stopped at (r, c). */
  function ActiveBefore(D: Grid, km: Table, r: nat, c: nat): bool
    requires IsGrid(D) && InMatrix(r, c)
    decreases r, c
  {
    if c == 0 then
      if r == 0 then false else ActiveBefore(D, km, r - 1, COLS)
    else
      ActiveBefore(D, km, r, c - 1) || ActiveAt(D, km, r, c - 1)
  }

  /** The partial scan is true exactly when an earlier cell is active. */
  lemma {:induction false} ActiveBeforeWitness(D: Grid, km: Table, r: nat, c: nat)
    requires IsGrid(D) && InMatrix(r, c)
    ensures ActiveBefore(D, km, r, c) <==>
      exists i: nat, j: nat :: i < ROWS && j < COLS && Before(i, j, r, c) && ActiveAt(D, km, i, j)
    decreases r, c
  {
    if c == 0 {
      if r > 0 {
        ActiveBeforeWitness(D, km, r - 1, COLS);
        forall i: nat, j: nat | i < ROWS && j < COLS
          ensures Before(i, j, r, c) <==> Before(i, j, r - 1, COLS)
        {
        }
      }
    } else {
      ActiveBeforeWitness(D, km, r, c - 1);
      if ActiveAt(D, km, r, c - 1) {
        assert Before(r, c - 1, r, c);
      }
      forall i: nat, j: nat | i < ROWS && j < COLS && Before(i, j, r, c) && ActiveAt(D, km, i, j)
        ensures Before(i, j, r, c - 1) || (i == r && j == c - 1)
      {
      }
    }
  }

  /** The any-key-pressed flag a full pass computes: set exactly when some non-Fn cell
      is held and maps to a key under the layer the Fn cell selects. */
  predicate AnyActive(D: Grid, km: Table): (b: bool)
    requires IsGrid(D)
    ensures b <==> exists i: nat, j: nat :: i < ROWS && j < COLS && ActiveAt(D, km, i, j)
  {
    ActiveBeforeWitness(D, km, ROWS, 0);
    ActiveBefore(D, km, ROWS, 0)
  }

  /** The calls the pass makes for cell (r, c), given the debounced grid D and the grid
      P of values seen by the previous pass. The code is looked up afresh under the
      current layer, for a release as much as for a press. */
  function CellEvents(D: Grid, P: Grid, km: Table, r: nat, c: nat): (es: seq<Event>)
    requires IsGrid(D) && IsGrid(P) && r < ROWS && c < COLS
    ensures |es| <= 1
    ensures es != [] <==> !IsFn(r, c) && D[r][c] != P[r][c] && Code(km, LayerOf(D), r, c) != KC_NO
    ensures es != [] ==> es[0].key == Transport(km.lib, Code(km, LayerOf(D), r, c))
    ensures es != [] ==> (es[0].Press? <==> D[r][c])
  {
    if IsFn(r, c) || D[r][c] == P[r][c] then []
    else
      var code := Code(km, LayerOf(D), r, c);
      if code == KC_NO then []
      else if D[r][c] then [Press(Transport(km.lib, code))]
      else [Release(Transport(km.lib, code))]
  }

  predicate InMatrix(r: nat, c: nat) {
    (r < ROWS && c <= COLS) || (r == ROWS && c == 0)
  }

  /** The calls made for every cell before (r, c), in row-major order. */
  function EventsBefore(D: Grid, P: Grid, km: Table, r: nat, c: nat): (es: seq<Event>)
    requires IsGrid(D) && IsGrid(P) && InMatrix(r, c)
    ensures |es| <= r * COLS + c
    decreases r, c
  {
    if c == 0 then
      if r == 0 then [] else EventsBefore(D, P, km, r - 1, COLS)
    else
      var prev, cell := EventsBefore(D, P, km, r, c - 1), CellEvents(D, P, km, r, c - 1);
      // This is `prev + cell`, with the empty cases written out so that the solver never
      // meets `[] + s`; EventsBeforeStep states the plain concatenation.
      if cell == [] then prev else if prev == [] then cell else prev + cell
  }

  /** EventsBefore is the concatenation of the cells' calls: empty parts are only
      skipped, never dropped. */
  lemma EventsBeforeStep(D: Grid, P: Grid, km: Table, r: nat, c: nat)
    requires IsGrid(D) && IsGrid(P) && r < ROWS && 0 < c <= COLS
    ensures EventsBefore(D, P, km, r, c) == EventsBefore(D, P, km, r, c - 1) + CellEvents(D, P, km, r, c - 1)
  {
  }

  /** All calls of one report pass over the whole matrix. */
  function Report(D: Grid, P: Grid, km: Table): (es: seq<Event>)
    requires IsGrid(D) && IsGrid(P)
    ensures |es| <= ROWS * COLS
  {
    EventsBefore(D, P, km, ROWS, 0)
  }

  /** A grid holding, for every cell, the calls that cell makes. */
  predicate IsCellGrid(E: seq<seq<seq<Event>>>) {
    |E| == ROWS && forall i :: 0 <= i < ROWS ==> |E[i]| == COLS
  }

  /** Entry (i, j) of E holds the calls cell (i, j) makes. */
  ghost predicate CellIs(E: seq<seq<seq<Event>>>, D: Grid, P: Grid, km: Table, i: nat, j: nat)
    requires IsCellGrid(E) && IsGrid(D) && IsGrid(P) && i < ROWS && j < COLS
  {
    E[i][j] == CellEvents(D, P, km, i, j)
  }

  /** E holds the calls of every cell of one pass. The fact about one cell is brought in
      by mentioning CellIs for that cell, which keeps proofs that walk the matrix cheap. */
  ghost predicate Tabulates(E: seq<seq<seq<Event>>>, D: Grid, P: Grid, km: Table)
    requires IsGrid(D) && IsGrid(P)
  {
    IsCellGrid(E) &&
    forall i: nat, j: nat {:trigger CellIs(E, D, P, km, i, j)} :: i < ROWS && j < COLS ==> CellIs(E, D, P, km, i, j)
  }

  lemma CellGrid(D: Grid, P: Grid, km: Table) returns (E: seq<seq<seq<Event>>>)
    requires IsGrid(D) && IsGrid(P)
    ensures Tabulates(E, D, P, km)
  {
    E := seq(ROWS, i requires 0 <= i < ROWS => seq(COLS, j requires 0 <= j < COLS => CellEvents(D, P, km, i, j)));
  }

  /** The entries of E before (r, c), concatenated in row-major order. */
  function Flat(E: seq<seq<seq<Event>>>, r: nat, c: nat): seq<Event>
    requires IsCellGrid(E) && InMatrix(r, c)
    decreases r, c
  {
    if c == 0 then
      if r == 0 then [] else Flat(E, r - 1, COLS)
    else
      var prev, cell := Flat(E, r, c - 1), E[r][c - 1];
      // `prev + cell` with the empty cases written out, as in EventsBefore.
      if cell == [] then prev else if prev == [] then cell else prev + cell
  }

  /** Walking a tabulated grid gives the calls of the pass. */
  lemma {:induction false} FlatTabulates(E: seq<seq<seq<Event>>>, D: Grid, P: Grid, km: Table, r: nat, c: nat)
    requires IsGrid(D) && IsGrid(P) && Tabulates(E, D, P, km) && InMatrix(r, c)
    ensures Flat(E, r, c) == EventsBefore(D, P, km, r, c)
    decreases r, c
  {
    if c == 0 {
      if r > 0 {
        FlatTabulates(E, D, P, km, r - 1, COLS);
      }
    } else {
      FlatTabulates(E, D, P, km, r, c - 1);
      assert CellIs(E, D, P, km, r, c - 1);
    }
  }


  lemma {:induction false} EventsBeforeMembership(D: Grid, P: Grid, km: Table, r: nat, c: nat, e: Event)
    requires IsGrid(D) && IsGrid(P) && InMatrix(r, c)
    ensures e in EventsBefore(D, P, km, r, c) <==>
      exists i: nat, j: nat :: i < ROWS && j < COLS && Before(i, j, r, c) && CellEvents(D, P, km, i, j) == [e]
    decreases r, c
  {
    if c == 0 {
      if r > 0 {
        EventsBeforeMembership(D, P, km, r - 1, COLS, e);
        forall i: nat, j: nat | i < ROWS && j < COLS
          ensures Before(i, j, r, c) <==> Before(i, j, r - 1, COLS)
        {
        }
      }
    } else {
      EventsBeforeMembership(D, P, km, r, c - 1, e);
      var cell := CellEvents(D, P, km, r, c - 1);
      if e in cell {
        assert cell == [e];
        assert Before(r, c - 1, r, c);
      }
      forall i: nat, j: nat | i < ROWS && j < COLS && Before(i, j, r, c) && CellEvents(D, P, km, i, j) == [e]
        ensures Before(i, j, r, c - 1) || (i == r && j == c - 1)
      {
      }
    }
  }

  /** A pass makes exactly the calls of the cells that changed: every event of the report
      comes from one non-Fn cell whose value differs from the previous pass and which maps
      to a key, and every such cell contributes its event. */
  lemma ReportMembership(D: Grid, P: Grid, km: Table, e: Event)
    requires IsGrid(D) && IsGrid(P)
    ensures e in Report(D, P, km) <==>
      exists i: nat, j: nat :: i < ROWS && j < COLS && CellEvents(D, P, km, i, j) == [e]
  {
    EventsBeforeMembership(D, P, km, ROWS, 0, e);
  }

  /** D and P agree on every non-Fn cell except possibly (r0, c0). */
  ghost predicate AgreeExcept(D: Grid, P: Grid, r0: nat, c0: nat)
    requires IsGrid(D) && IsGrid(P)
  {
    forall i: nat, j: nat :: i < ROWS && j < COLS && !IsFn(i, j) && !(i == r0 && j == c0) ==>
      D[i][j] == P[i][j]
  }

  /** Cell (i, j) makes no call in the pass. */
  ghost predicate Quiet(D: Grid, P: Grid, km: Table, i: nat, j: nat)
    requires IsGrid(D) && IsGrid(P) && i < ROWS && j < COLS
  {
    CellEvents(D, P, km, i, j) == []
  }

  /** Every cell except possibly (r0, c0) makes no call. The fact about one cell is
      brought in by mentioning Quiet for that cell. */
  ghost predicate QuietExcept(D: Grid, P: Grid, km: Table, r0: nat, c0: nat)
    requires IsGrid(D) && IsGrid(P)
  {
    forall i: nat, j: nat {:trigger Quiet(D, P, km, i, j)} ::
      i < ROWS && j < COLS && !(i == r0 && j == c0) ==> Quiet(D, P, km, i, j)
  }

  lemma {:induction false} EventsBeforeSingle(D: Grid, P: Grid, km: Table, r: nat, c: nat, r0: nat, c0: nat)
    requires IsGrid(D) && IsGrid(P) && InMatrix(r, c) && r0 < ROWS && c0 < COLS
    requires QuietExcept(D, P, km, r0, c0)
    ensures EventsBefore(D, P, km, r, c) ==
      if Before(r0, c0, r, c) then CellEvents(D, P, km, r0, c0) else []
    decreases r, c
  {
    if c == 0 {
      if r > 0 {
        EventsBeforeSingle(D, P, km, r - 1, COLS, r0, c0);
      }
    } else {
      EventsBeforeSingle(D, P, km, r, c - 1, r0, c0);
      if !(r == r0 && c - 1 == c0) {
        assert Quiet(D, P, km, r, c - 1);
      }
    }
  }

  /** A cell whose value did not change, or the Fn cell, makes no call. */
  lemma UnchangedCellQuiet(D: Grid, P: Grid, km: Table, r: nat, c: nat)
    requires IsGrid(D) && IsGrid(P) && r < ROWS && c < COLS
    requires IsFn(r, c) || D[r][c] == P[r][c]
    ensures CellEvents(D, P, km, r, c) == []
  {
  }

  /** When only one non-Fn cell changed since the previous pass, the pass makes exactly
      that cell's call (or none). */
  lemma ReportSingleChange(D: Grid, P: Grid, km: Table, r0: nat, c0: nat)
    requires IsGrid(D) && IsGrid(P) && r0 < ROWS && c0 < COLS
    requires AgreeExcept(D, P, r0, c0)
    ensures Report(D, P, km) == CellEvents(D, P, km, r0, c0)
  {
    forall i: nat, j: nat | i < ROWS && j < COLS && !(i == r0 && j == c0)
      ensures Quiet(D, P, km, i, j)
    {
      UnchangedCellQuiet(D, P, km, i, j);
    }
    EventsBeforeSingle(D, P, km, ROWS, 0, r0, c0);
  }

  /** A pass over a matrix that has not changed on any non-Fn cell since the previous
      pass makes no transport call, whatever the Fn cell did. */
  lemma ReportSilentWhenSynced(D: Grid, P: Grid, km: Table)
    requires IsGrid(D) && IsGrid(P)
    requires forall i: nat, j: nat :: i < ROWS && j < COLS && !IsFn(i, j) ==> D[i][j] == P[i][j]
    ensures Report(D, P, km) == []
  {
    ReportSingleChange(D, P, km, FN_ROW, FN_COL);
  }

  /** Press and release of one cell carry the same code when the layer is the same at
      both passes. */
  lemma ReleaseMatchesPressOnSameLayer(D1: Grid, P1: Grid, D2: Grid, P2: Grid, km: Table, r: nat, c: nat, k: u8)
    requires IsGrid(D1) && IsGrid(P1) && IsGrid(D2) && IsGrid(P2) && r < ROWS && c < COLS
    requires CellEvents(D1, P1, km, r, c) == [Press(k)]
    requires P2[r][c] && !D2[r][c]
    requires LayerOf(D1) == LayerOf(D2)
    ensures CellEvents(D2, P2, km, r, c) == [Release(k)]
  {
  }

  /** The matrix in which exactly the coordinates in `down` are pressed. */
  function Pressed(down: set<(nat, nat)>): (g: Grid)
    ensures IsGrid(g)
    ensures forall i: nat, j: nat :: i < ROWS && j < COLS ==> (g[i][j] <==> (i, j) in down)
  {
    seq(ROWS, i => seq(COLS, j => (i, j) in down))
  }

  /** Two key sets that differ at most in cell (r0, c0) report that cell alone. */
  lemma PressedStep(now: set<(nat, nat)>, before: set<(nat, nat)>, km: Table, r0: nat, c0: nat)
    requires r0 < ROWS && c0 < COLS
    requires now - {(r0, c0)} == before - {(r0, c0)}
    ensures Report(Pressed(now), Pressed(before), km) == CellEvents(Pressed(now), Pressed(before), km, r0, c0)
  {
    var D, P := Pressed(now), Pressed(before);
    forall i: nat, j: nat | i < ROWS && j < COLS && !IsFn(i, j) && !(i == r0 && j == c0)
      ensures D[i][j] == P[i][j]
    {
      assert (i, j) != (r0, c0);
      assert (i, j) in now - {(r0, c0)} <==> (i, j) in before - {(r0, c0)};
    }
    ReportSingleChange(D, P, km, r0, c0);
  }

  /** A lone key: pressing and then releasing non-Fn cell (r, c) with Fn up makes one press
      and one release of its layer-0 key; pressing it with Fn held makes one press of its
      layer-1 key. */
  lemma LoneKey(km: Table, r: nat, c: nat)
    requires r < ROWS && c < COLS && !IsFn(r, c)
    ensures Code(km, 0, r, c) != KC_NO ==>
      Report(Pressed({(r, c)}), Pressed({}), km) == [Press(Transport(km.lib, Code(km, 0, r, c)))] &&
      Report(Pressed({}), Pressed({(r, c)}), km) == [Release(Transport(km.lib, Code(km, 0, r, c)))]
    ensures Code(km, 1, r, c) != KC_NO ==>
      Report(Pressed({(FN_ROW, FN_COL), (r, c)}), Pressed({(FN_ROW, FN_COL)}), km)
        == [Press(Transport(km.lib, Code(km, 1, r, c)))]
  {
    var none, key := Pressed({}), Pressed({(r, c)});
    var fn, fnKey := Pressed({(FN_ROW, FN_COL)}), Pressed({(FN_ROW, FN_COL), (r, c)});
    assert LayerOf(key) == 0 && LayerOf(none) == 0 && LayerOf(fnKey) == 1;
    assert AgreeExcept(key, none, r, c) && AgreeExcept(none, key, r, c) && AgreeExcept(fnKey, fn, r, c);
    ReportSingleChange(key, none, km, r, c);
    ReportSingleChange(none, key, km, r, c);
    ReportSingleChange(fnKey, fn, km, r, c);
  }

  /** The top-left key of the keyboard's keymap: 'q' down and up on layer 0, '1' with Fn. */
  lemma TopLeftKey(lib: LibCodes)
    ensures Report(Pressed({(0, 0)}), Pressed({}), Keymap(lib)) == [Press(Ch('q'))]
    ensures Report(Pressed({}), Pressed({(0, 0)}), Keymap(lib)) == [Release(Ch('q'))]
    ensures Report(Pressed({(FN_ROW, FN_COL), (0, 0)}), Pressed({(FN_ROW, FN_COL)}), Keymap(lib))
            == [Press(Ch('1'))]
  {
    KeymapEntries(lib, 0);
    LoneKey(Keymap(lib), 0, 0);
  }

  /** The release is looked up under the layer current at release time, so a key that has
      a code on layer 0 but none on layer 1 loses its release when let go while Fn is
      held: key pressed, Fn pressed, key released, Fn released makes one press and no
      release. */
  lemma ReleaseLostUnderFn(km: Table, r: nat, c: nat)
    requires r < ROWS && c < COLS && !IsFn(r, c)
    requires Code(km, 0, r, c) != KC_NO && Code(km, 1, r, c) == KC_NO
    ensures
      var key, both := Pressed({(r, c)}), Pressed({(r, c), (FN_ROW, FN_COL)});
      var fn, none := Pressed({(FN_ROW, FN_COL)}), Pressed({});
      Report(key, none, km) + Report(both, key, km) + Report(fn, both, km) + Report(none, fn, km)
        == [Press(Transport(km.lib, Code(km, 0, r, c)))]
  {
    PressThenFn(km, r, c);
    ReleaseUnderFn(km, r, c);
  }

  /** First half: the key goes down with Fn up, then Fn goes down. The press carries
      the layer-0 code; pressing Fn makes no call. */
  lemma PressThenFn(km: Table, r: nat, c: nat)
    requires r < ROWS && c < COLS && !IsFn(r, c)
    ensures Report(Pressed({(r, c)}), Pressed({}), km) ==
      if Code(km, 0, r, c) == KC_NO then [] else [Press(Transport(km.lib, Code(km, 0, r, c)))]
    ensures Report(Pressed({(r, c), (FN_ROW, FN_COL)}), Pressed({(r, c)}), km) == []
  {
    PressedStep({(r, c)}, {}, km, r, c);
    PressedStep({(r, c), (FN_ROW, FN_COL)}, {(r, c)}, km, FN_ROW, FN_COL);
    assert (r, c) != (FN_ROW, FN_COL);
    assert LayerOf(Pressed({(r, c)})) == 0;
  }

  /** Second half: the key comes up with Fn held, then Fn comes up. The release carries
      the layer-1 code, whatever the press carried; releasing Fn makes no call. */
  lemma ReleaseUnderFn(km: Table, r: nat, c: nat)
    requires r < ROWS && c < COLS && !IsFn(r, c)
    ensures Report(Pressed({(FN_ROW, FN_COL)}), Pressed({(r, c), (FN_ROW, FN_COL)}), km) ==
      if Code(km, 1, r, c) == KC_NO then [] else [Release(Transport(km.lib, Code(km, 1, r, c)))]
    ensures Report(Pressed({}), Pressed({(FN_ROW, FN_COL)}), km) == []
  {
    PressedStep({(FN_ROW, FN_COL)}, {(r, c), (FN_ROW, FN_COL)}, km, r, c);
    PressedStep({}, {(FN_ROW, FN_COL)}, km, FN_ROW, FN_COL);
    assert (r, c) != (FN_ROW, FN_COL);
    assert LayerOf(Pressed({(FN_ROW, FN_COL)})) == 1;
  }

  /** The top-left key let go while Fn is held: 'q' is pressed, and the release that
      follows is a release of '1', so 'q' is never released. */
  lemma TopLeftReleasedAsDigit(lib: LibCodes)
    ensures Report(Pressed({(0, 0)}), Pressed({}), Keymap(lib)) == [Press(Ch('q'))]
    ensures Report(Pressed({(0, 0), (FN_ROW, FN_COL)}), Pressed({(0, 0)}), Keymap(lib)) == []
    ensures Report(Pressed({(FN_ROW, FN_COL)}), Pressed({(0, 0), (FN_ROW, FN_COL)}), Keymap(lib))
            == [Release(Ch('1'))]
  {
    KeymapEntries(lib, 0);
    PressThenFn(Keymap(lib), 0, 0);
    ReleaseUnderFn(Keymap(lib), 0, 0);
  }

  /** In the keyboard's keymap Enter is such a key: Enter pressed, Fn pressed, Enter
      released, Fn released sends one press of Enter and never its release. */
  lemma EnterReleaseLostUnderFn(lib: LibCodes)
    requires lib.returnKey != KC_NO
    ensures
      var enter, both := Pressed({(3, 4)}), Pressed({(3, 4), (FN_ROW, FN_COL)});
      var fn, none := Pressed({(FN_ROW, FN_COL)}), Pressed({});
      var km := Keymap(lib);
      Report(enter, none, km) + Report(both, enter, km) + Report(fn, both, km) + Report(none, fn, km)
        == [Press(Transport(lib, lib.returnKey))]
  {
    KeymapEntries(lib, 4);
    ReleaseLostUnderFn(Keymap(lib), 3, 4);
  }
}
