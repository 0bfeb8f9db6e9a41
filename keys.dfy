/** Matrix geometry, the two-layer keymap and the classification of key codes. */
module Keys {
  import opened Ints

  const ROWS: nat := 4
  const COLS: nat := 10

  /** The Fn key: holding it selects layer 1; it is never sent to the host. */
  const FN_ROW: nat := 3
  const FN_COL: nat := 3

  /** The "no key" entry of the keymap. */
  const KC_NO: u8 := 0

  predicate IsFn(r: nat, c: nat) {
    r == FN_ROW && c == FN_COL
  }

  /** A boolean value per matrix coordinate, indexed [row][column]. */
  type Grid = seq<seq<bool>>

  predicate IsGrid(g: Grid) {
    |g| == ROWS && forall r :: 0 <= r < ROWS ==> |g[r]| == COLS
  }

  /** The HID library's named key codes: the ones the keymap holds and the eight modifier
      constants the report passes for codes 0xE0..0xE7. Their values live in headers that
      are not part of this model, so everything is stated for every choice of them. */
  datatype LibCodes = LibCodes(
    returnKey: u8, backspace: u8,
    leftCtrl: u8, leftShift: u8, leftAlt: u8, leftGui: u8,
    rightCtrl: u8, rightShift: u8, rightAlt: u8, rightGui: u8,
    tab: u8, esc: u8, delete: u8,
    leftArrow: u8, downArrow: u8, upArrow: u8, rightArrow: u8,
    f1: u8, pageDown: u8, pageUp: u8, home: u8, end: u8, insert: u8)

  /** The key code of an ASCII character. */
  function Ch(c: char): u8
    requires c as int < 0x80
  {
    (c as int) as u8
  }

  /** A keymap, [layer][row][column] -> key code, together with the library constants
      the report passes to the host for the modifier codes. */
  datatype Table = Table(codes: seq<seq<seq<u8>>>, lib: LibCodes)

  predicate IsTable(t: Table) {
    |t.codes| == 2 && forall l :: 0 <= l < 2 ==>
      |t.codes[l]| == ROWS && forall r :: 0 <= r < ROWS ==> |t.codes[l][r]| == COLS
  }

  /** One row of the constant keymap. Layer 0 holds letters and punctuation; layer 1
      (Fn) digits, symbols, editing and navigation keys. */
  function KeymapRow(lib: LibCodes, layer: nat, r: nat): (row: seq<u8>)
    requires layer < 2 && r < ROWS
    ensures |row| == COLS
  {
    if layer == 0 then
      if r == 0 then [Ch('q'), Ch('w'), Ch('e'), Ch('r'), Ch('t'), Ch('y'), Ch('u'), Ch('i'), Ch('o'), Ch('p')]
      else if r == 1 then [Ch('a'), Ch('s'), Ch('d'), Ch('f'), Ch('g'), Ch('h'), Ch('j'), Ch('k'), Ch('l'), Ch(';')]
      else if r == 2 then [Ch('z'), Ch('x'), Ch('c'), Ch('v'), Ch('b'), Ch('n'), Ch('m'), Ch(','), Ch('.'), Ch('/')]
      else [KC_NO, KC_NO, Ch(' '), KC_NO, lib.returnKey, lib.backspace, lib.leftAlt, KC_NO, KC_NO, KC_NO]
    else
      if r == 0 then [Ch('1'), Ch('2'), Ch('3'), Ch('4'), Ch('5'), Ch('6'), Ch('7'), Ch('8'), Ch('9'), Ch('0')]
      else if r == 1 then [lib.tab, lib.esc, Ch('-'), Ch('='), Ch('`'), Ch('['), Ch(']'), Ch('\\'), Ch('\''), lib.delete]
      else if r == 2 then [lib.leftArrow, lib.downArrow, lib.upArrow, lib.rightArrow, lib.f1,
                           lib.pageDown, lib.pageUp, lib.home, lib.end, lib.insert]
      else [KC_NO, KC_NO, KC_NO, KC_NO, KC_NO, KC_NO, KC_NO, KC_NO, KC_NO, KC_NO]
  }

  /** The keyboard's constant two-layer keymap. */
  function Keymap(lib: LibCodes): (t: Table)
    ensures IsTable(t) && t.lib == lib
  {
    Table(
      [ [KeymapRow(lib, 0, 0), KeymapRow(lib, 0, 1), KeymapRow(lib, 0, 2), KeymapRow(lib, 0, 3)],
        [KeymapRow(lib, 1, 0), KeymapRow(lib, 1, 1), KeymapRow(lib, 1, 2), KeymapRow(lib, 1, 3)] ],
      lib)
  }

  /** The key code at (r, c) under `layer`; a coordinate the table does not hold maps
      to no key. */
  function Code(km: Table, layer: nat, r: nat, c: nat): (code: u8)
    ensures IsTable(km) && layer < 2 && r < ROWS && c < COLS ==> code == km.codes[layer][r][c]
  {
    if layer < |km.codes| && r < |km.codes[layer]| && c < |km.codes[layer][r]| then km.codes[layer][r][c]
    else KC_NO
  }

  /** The active layer: 1 exactly while the Fn cell is debounced-pressed. */
  function Layer(fnHeld: bool): (layer: nat)
    ensures layer < 2
    ensures layer == 1 <==> fnHeld
  {
    if fnHeld then 1 else 0
  }

  /** The Fn cell maps to no key on either layer, and the whole bottom row of the Fn
      layer is empty, so Space, Enter, Backspace and Alt send nothing while Fn is held.
      The top-left key is 'q' on layer 0 and '1' on layer 1; Enter sits at (3, 4). */
  lemma KeymapEntries(lib: LibCodes, c: nat)
    requires c < COLS
    ensures Code(Keymap(lib), 1, FN_ROW, c) == KC_NO
    ensures Code(Keymap(lib), 0, FN_ROW, FN_COL) == KC_NO
    ensures Code(Keymap(lib), 0, 0, 0) == Ch('q') && Code(Keymap(lib), 1, 0, 0) == Ch('1')
    ensures Code(Keymap(lib), 0, 3, 4) == lib.returnKey
  {
    assert Keymap(lib).codes[1][FN_ROW] == KeymapRow(lib, 1, 3);
    assert Keymap(lib).codes[0][FN_ROW] == KeymapRow(lib, 0, 3);
  }

  datatype Modifier =
    LeftCtrl | LeftShift | LeftAlt | LeftGui | RightCtrl | RightShift | RightAlt | RightGui

  /** Which branch of the report's modifier switch a code takes: one of the eight
      modifiers, or the pass-through of any other code. */
  datatype HidKey = Mod(modifier: Modifier) | Key(code: u8)

  /** The HID usage code (0xE0..0xE7) of each modifier. */
  function ModifierCode(m: Modifier): (code: u8)
    ensures 0xE0 <= code <= 0xE7
  {
    match m
    case LeftCtrl => 0xE0
    case LeftShift => 0xE1
    case LeftAlt => 0xE2
    case LeftGui => 0xE3
    case RightCtrl => 0xE4
    case RightShift => 0xE5
    case RightAlt => 0xE6
    case RightGui => 0xE7
  }

  /** The modifier switch of the report code: codes 0xE0..0xE7 become modifiers, every
      other code goes to the transport as it is. */
  function Classify(code: u8): (k: HidKey)
    ensures k.Mod? <==> 0xE0 <= code <= 0xE7
    ensures k.Mod? ==> ModifierCode(k.modifier) == code
    ensures k.Key? ==> k.code == code
  {
    if code == 0xE0 then Mod(LeftCtrl)
    else if code == 0xE1 then Mod(LeftShift)
    else if code == 0xE2 then Mod(LeftAlt)
    else if code == 0xE3 then Mod(LeftGui)
    else if code == 0xE4 then Mod(RightCtrl)
    else if code == 0xE5 then Mod(RightShift)
    else if code == 0xE6 then Mod(RightAlt)
    else if code == 0xE7 then Mod(RightGui)
    else Key(code)
  }

  /** The library constant the modifier switch passes for each modifier. */
  function LibModifier(lib: LibCodes, m: Modifier): u8 {
    match m
    case LeftCtrl => lib.leftCtrl
    case LeftShift => lib.leftShift
    case LeftAlt => lib.leftAlt
    case LeftGui => lib.leftGui
    case RightCtrl => lib.rightCtrl
    case RightShift => lib.rightShift
    case RightAlt => lib.rightAlt
    case RightGui => lib.rightGui
  }

  /** The byte a press or release call hands to the transport for a keymap code: the
      modifier's library constant for 0xE0..0xE7, the code itself otherwise. */
  function Transport(lib: LibCodes, code: u8): (b: u8)
    ensures !(0xE0 <= code <= 0xE7) ==> b == code
    ensures forall m :: code == ModifierCode(m) ==> b == LibModifier(lib, m)
  {
    match Classify(code)
    case Mod(m) => LibModifier(lib, m)
    case Key(k) => k
  }

  /** What reaches the host: each modifier code selects its modifier and passes that
      modifier's constant; codes outside 0xE0..0xE7 are told apart; and the keymap's Alt
      entry, which holds the library constant itself, makes the same call as code 0xE2
      unless that constant lies in 0xE0..0xE7. */
  lemma TransportCalls(lib: LibCodes, a: u8, b: u8, m: Modifier)
    ensures Classify(ModifierCode(m)) == Mod(m)
    ensures Transport(lib, ModifierCode(m)) == LibModifier(lib, m)
    ensures !(0xE0 <= a <= 0xE7) && !(0xE0 <= b <= 0xE7) && Transport(lib, a) == Transport(lib, b) ==> a == b
    ensures !(0xE0 <= lib.leftAlt <= 0xE7) ==> Transport(lib, 0xE2) == Transport(lib, lib.leftAlt)
  {
  }
}
