/**
 * Turning the raw bytes read from the terminal into key events: one byte per
 * key, except that the escape byte takes the next two bytes with it.
 */
module Keys {
  import opened TextGrid

  /** What `getchar` returns: a byte, or EOF (-1). */
  type KeyCode = k: int | -1 <= k < 256

  const EOF: KeyCode := -1
  const KEY_ESCAPE: KeyCode := 27
  const KEY_BACKSPACE: KeyCode := 127
  const KEY_ENTER: KeyCode := 10
  const KEY_TAB: KeyCode := 9

  /** `CTRL_KEY(k)`: the code a key sends with Ctrl held, `k & 0x1f`. */
  function CtrlKey(k: char): KeyCode
    requires k as int < 256
  {
    (k as int) % 32
  }

  /** `isprint` in the C locale. */
  predicate IsPrint(k: int) {
    32 <= k <= 126
  }

  /** `isupper` in the C locale. */
  predicate IsUpper(k: int) {
    'A' as int <= k <= 'Z' as int
  }

  datatype KeyEvent =
    | Char(c: byte)   // a printable key
    | Enter | Tab | Backspace
    | SaveQuit        // Ctrl-Q
    | Quit            // Ctrl-C
    | Escape
    | Up | Down | Left | Right
    | Ignored         // any other non-printable byte, EOF included
  {
    predicate IsArrow() {
      Up? || Down? || Left? || Right?
    }
  }

  /**
   * The event for an escape byte followed by `b0` and `b1`: an arrow key for
   * `[A`, `[B`, `[C`, `[D`, a plain escape for every other pair.
   */
  function EscapeEvent(b0: KeyCode, b1: KeyCode): (ev: KeyEvent)
    ensures ev == Escape || ev.IsArrow()
    ensures ev == Up <==> b0 == '[' as int && b1 == 'A' as int
    ensures ev == Down <==> b0 == '[' as int && b1 == 'B' as int
    ensures ev == Right <==> b0 == '[' as int && b1 == 'C' as int
    ensures ev == Left <==> b0 == '[' as int && b1 == 'D' as int
  {
    if b0 == 0 || b1 == 0 then Escape
    else if b0 == '[' as int && IsUpper(b1) then
      if b1 == 'A' as int then Up
      else if b1 == 'B' as int then Down
      else if b1 == 'C' as int then Right
      else if b1 == 'D' as int then Left
      else Escape
    else Escape
  }

  /** The event for `key`; `b0` and `b1` are the bytes read after it when it is an escape. */
  function Classify(key: KeyCode, b0: KeyCode, b1: KeyCode): (ev: KeyEvent)
    ensures ev.Char? <==> IsPrint(key)
    ensures ev.Char? ==> ev.c as int == key
    ensures ev.IsArrow() || ev == Escape <==> key == KEY_ESCAPE
    ensures ev == Backspace <==> key == KEY_BACKSPACE
    ensures ev == Enter <==> key == KEY_ENTER
    ensures ev == Tab <==> key == KEY_TAB
    ensures ev == SaveQuit <==> key == 17
    ensures ev == Quit <==> key == 3
    ensures ev == Ignored <==>
      !IsPrint(key) && key !in {KEY_ESCAPE, KEY_BACKSPACE, KEY_ENTER, KEY_TAB, 17, 3}
  {
    if key == KEY_ESCAPE then EscapeEvent(b0, b1)
    else if key == KEY_BACKSPACE then Backspace
    else if key == KEY_ENTER then Enter
    else if key == KEY_TAB then Tab
    else if key == CtrlKey('q') then SaveQuit
    else if key == CtrlKey('c') then Quit
    else if IsPrint(key) then Char(key as byte)
    else Ignored
  }

  /** The `k`-th byte of the input; past its end `getchar` keeps returning EOF. */
  function ReadAt(input: seq<KeyCode>, k: nat): KeyCode {
    if k < |input| then input[k] else EOF
  }

  datatype Decoded = Decoded(event: KeyEvent, rest: seq<KeyCode>)

  /**
   * Reads one key event off the front of the input. An escape byte always
   * consumes the two bytes after it, whatever they are.
   */
  function Decode(input: seq<KeyCode>): (r: Decoded)
    requires |input| >= 1
    ensures |r.rest| < |input| && r.rest == input[|input| - |r.rest|..]
    ensures input[0] != KEY_ESCAPE ==> |r.rest| == |input| - 1
    ensures input[0] == KEY_ESCAPE && |input| >= 3 ==> |r.rest| == |input| - 3
    ensures input[0] == KEY_ESCAPE && |input| < 3 ==> r.rest == []
    ensures r.event.IsArrow() <==>
      |input| >= 3 && input[0] == KEY_ESCAPE && input[1] == '[' as int &&
      'A' as int <= input[2] <= 'D' as int
  {
    var key := input[0];
    if key == KEY_ESCAPE then
      Decoded(Classify(key, ReadAt(input, 1), ReadAt(input, 2)), input[Min(3, |input|)..])
    else
      Decoded(Classify(key, 0, 0), input[1..])
  }
}
