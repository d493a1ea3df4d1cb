/**
 * The editor's state (the grid, the cursor and the grid size), its cursor
 * wrap policy, the editing operations and the dispatch of key events.
 *
 * The state is described twice: as a value (`State`), with one function per
 * operation stating what it does, and as the class `TextBuffer`, whose fields
 * are the program's globals and whose methods change them in place. The
 * methods that edit the grid or move the cursor are proved to take `Snap()`
 * to the corresponding function of the old `Snap()`; the others (allocation,
 * the row scan, saving, size inference and loading) state their effect on the
 * fields directly.
 */
module Editor {
  import opened TextGrid
  import opened Keys
  import opened FileFormat
  import opened Wrappers

  /** How many spaces the Tab key writes. */
  const TAB_SIZE: nat := 2

  /**
   * The editor's globals as a value: whether `text` is allocated, its cells,
   * the cursor `(x, y)` and the grid size `w` by `h`.
   */
  datatype State = State(hasText: bool, grid: seq<byte>, x: int, y: int, w: nat, h: nat)

  /** An allocated grid has exactly `w * h` cells; an unallocated one has none. */
  predicate Wf(s: State) {
    if s.hasText then |s.grid| == s.w * s.h else s.grid == []
  }

  predicate InGrid(x: int, y: int, w: nat, h: nat) {
    0 <= x < w && 0 <= y < h
  }

  /** The grid is allocated and the cursor is on it, so the cursor's cell can be written. */
  function IsTextValid(s: State): (b: bool)
    requires Wf(s)
    ensures b ==> s.hasText && 0 <= Index(s.x, s.y, s.w) < |s.grid|
    ensures b ==> s.w >= 1 && s.h >= 1
  {
    if s.hasText && InGrid(s.x, s.y, s.w, s.h) then
      IndexInGrid(s.x, s.y, s.w, s.h);
      true
    else
      false
  }

  /**
   * The wrap policy, applied after each edit: a cursor left of column 0 goes
   * to the previous row, at that row's end but no further than column w-1;
   * above row 0 it goes to (0, 0); past the last column to the start of the
   * next row; below the last row to the last cell of the grid.
   */
  function Wrap(s: State): (r: State)
    requires Wf(s) && s.hasText
    ensures r.hasText && r.grid == s.grid && r.w == s.w && r.h == s.h
    ensures s.w >= 1 && s.h >= 1 ==> InGrid(r.x, r.y, r.w, r.h)
    ensures InGrid(s.x, s.y, s.w, s.h) ==> r == s
  {
    // Only a row that exists is scanned; for any other row the column chosen
    // here is overwritten by one of the clamps below.
    var y1 := if s.x < 0 then s.y - 1 else s.y;
    var x1 :=
      if s.x < 0 then
        if 0 <= y1 < s.h then Min(s.w - 1, RowEnd(Row(s.grid, s.w, s.h, y1))) else s.w - 1
      else s.x;
    var (x2, y2) := if y1 < 0 then (0, 0) else (x1, y1);
    var (x3, y3) := if x2 >= s.w then (0, y2 + 1) else (x2, y2);
    var (x4, y4) := if y3 >= s.h then (s.w - 1, s.h - 1) else (x3, y3);
    s.(x := x4, y := y4)
  }

  /** Writing one character at the cursor and moving on. */
  function SetChar(s: State, v: byte): (r: State)
    requires Wf(s)
    ensures Wf(r) && r.hasText == s.hasText && r.w == s.w && r.h == s.h
    ensures !IsTextValid(s) ==> r == s
    ensures IsTextValid(s) ==>
      r.grid == s.grid[Index(s.x, s.y, s.w) := v] && InGrid(r.x, r.y, r.w, r.h) &&
      if s.x + 1 < s.w then r.x == s.x + 1 && r.y == s.y
      else if s.y + 1 < s.h then r.x == 0 && r.y == s.y + 1
      else r.x == s.w - 1 && r.y == s.h - 1
  {
    if !IsTextValid(s) then s
    else Wrap(s.(grid := s.grid[Index(s.x, s.y, s.w) := v], x := s.x + 1))
  }

  /** Backspace: blank the cell left of the cursor; at a row start, go to the previous row's end. */
  function Delete(s: State): (r: State)
    requires Wf(s)
    ensures Wf(r) && r.hasText == s.hasText && r.w == s.w && r.h == s.h
    ensures !IsTextValid(s) ==> r == s
    ensures IsTextValid(s) ==> InGrid(r.x, r.y, r.w, r.h)
    ensures IsTextValid(s) && s.x > 0 ==>
      r.grid == s.grid[Index(s.x - 1, s.y, s.w) := SPACE] && r.x == s.x - 1 && r.y == s.y
    ensures IsTextValid(s) && s.x == 0 && s.y == 0 ==> r.grid == s.grid && r.x == 0 && r.y == 0
    ensures IsTextValid(s) && s.x == 0 && s.y > 0 ==>
      r.grid == s.grid && r.y == s.y - 1 &&
      r.x == Min(s.w - 1, RowEnd(Row(s.grid, s.w, s.h, s.y - 1)))
  {
    if !IsTextValid(s) then s
    else
      var g := if s.x - 1 >= 0 then s.grid[Index(s.x - 1, s.y, s.w) := SPACE] else s.grid;
      Wrap(s.(grid := g, x := s.x - 1))
  }

  /** Enter: go to the start of the next row, or to the last cell from the last row. */
  function Newline(s: State): (r: State)
    requires Wf(s)
    ensures Wf(r) && r.hasText == s.hasText && r.w == s.w && r.h == s.h && r.grid == s.grid
    ensures !IsTextValid(s) ==> r == s
    ensures IsTextValid(s) && s.y + 1 < s.h ==> r.x == 0 && r.y == s.y + 1
    ensures IsTextValid(s) && s.y + 1 == s.h ==> r.x == s.w - 1 && r.y == s.h - 1
  {
    if !IsTextValid(s) then s
    else Wrap(s.(x := 0, y := s.y + 1))
  }

  /** `SetChar` applied `n` times with the same character. */
  function SetCharTimes(s: State, v: byte, n: nat): (r: State)
    requires Wf(s)
    ensures Wf(r) && r.hasText == s.hasText && r.w == s.w && r.h == s.h
    ensures !IsTextValid(s) ==> r == s
    ensures IsTextValid(s) ==> IsTextValid(r)
    decreases n
  {
    if n == 0 then s else SetChar(SetCharTimes(s, v, n - 1), v)
  }

  /** The cursor step of an arrow key: -1, 0 or +1 per coordinate. */
  function ArrowDx(ev: KeyEvent): int {
    (if ev == Right then 1 else 0) - (if ev == Left then 1 else 0)
  }

  function ArrowDy(ev: KeyEvent): int {
    (if ev == Down then 1 else 0) - (if ev == Up then 1 else 0)
  }

  function Abs(n: int): nat {
    if n < 0 then -n else n
  }

  /** What handling a key leads to: keep editing, or exit with the bytes saved (if any). */
  datatype Outcome = Continue | Exit(saved: Option<seq<byte>>)

  datatype Step = Step(state: State, outcome: Outcome)

  /** The effect of one key event; `hasFilename` says whether a file name was given. */
  function Dispatch(s: State, ev: KeyEvent, hasFilename: bool): (r: Step)
    requires Wf(s) && s.hasText
    ensures Wf(r.state) && r.state.hasText && r.state.w == s.w && r.state.h == s.h
    // the edit keys are routed to the edit operations
    ensures ev == Backspace ==> r.state == Delete(s)
    ensures ev == Enter ==> r.state == Newline(s)
    ensures ev == Tab ==> r.state == SetChar(SetChar(s, SPACE), SPACE)
    ensures ev.Char? ==> r.state == SetChar(s, ev.c)
    ensures r.outcome.Exit? <==> ev == SaveQuit || ev == Quit
    ensures r.outcome.Exit? ==> r.state == s
    ensures ev == SaveQuit ==>
      r.outcome.saved == if hasFilename then Some(Serialized(s.grid, s.w)) else None
    ensures ev == Quit ==> r.outcome.saved == None
    // an arrow moves the cursor one cell in its direction, without any wrap or
    // check, and leaves the grid as it is
    ensures ev.IsArrow() ==>
      r.state.grid == s.grid && Abs(r.state.x - s.x) + Abs(r.state.y - s.y) == 1
    ensures ev == Up ==> r.state.y < s.y
    ensures ev == Down ==> r.state.y > s.y
    ensures ev == Left ==> r.state.x < s.x
    ensures ev == Right ==> r.state.x > s.x
    // escapes and non-printable keys change nothing
    ensures ev == Escape || ev == Ignored ==> r.state == s && r.outcome == Continue
    // an edit keeps a valid cursor valid, and does nothing at all with an invalid one
    ensures !ev.IsArrow() && IsTextValid(s) ==> IsTextValid(r.state)
    ensures !ev.IsArrow() && !IsTextValid(s) ==> r.state == s
  {
    match ev
    case Backspace => Step(Delete(s), Continue)
    case Enter => Step(Newline(s), Continue)
    case Tab => Step(SetCharTimes(s, SPACE, TAB_SIZE), Continue)
    case SaveQuit => Step(s, Exit(if hasFilename then Some(Serialized(s.grid, s.w)) else None))
    case Quit => Step(s, Exit(None))
    case Char(c) => Step(SetChar(s, c), Continue)
    case Escape => Step(s, Continue)
    case Ignored => Step(s, Continue)
    case _ => Step(s.(x := s.x + ArrowDx(ev), y := s.y + ArrowDy(ev)), Continue)
  }

  /**
   * The state after handling `evs` in order, up to the first exit. Key
   * handling never reallocates or resizes the grid.
   */
  function Run(s: State, evs: seq<KeyEvent>, hasFilename: bool): (r: State)
    requires Wf(s) && s.hasText
    ensures Wf(r) && r.hasText && r.w == s.w && r.h == s.h
    decreases |evs|
  {
    if evs == [] then s
    else
      var step := Dispatch(s, evs[0], hasFilename);
      if step.outcome.Exit? then step.state else Run(step.state, evs[1..], hasFilename)
  }

  /**
   * From a valid cursor, any run of keys without arrow keys ends with a valid
   * cursor: only the arrows, which skip the wrap, can take it off the grid.
   */
  lemma {:induction false} RunWithoutArrowsStaysValid(s: State, evs: seq<KeyEvent>, hasFilename: bool)
    requires Wf(s) && IsTextValid(s)
    requires forall k :: 0 <= k < |evs| ==> !evs[k].IsArrow()
    ensures IsTextValid(Run(s, evs, hasFilename))
    decreases |evs|
  {
    if evs != [] {
      var step := Dispatch(s, evs[0], hasFilename);
      if !step.outcome.Exit? {
        RunWithoutArrowsStaysValid(step.state, evs[1..], hasFilename);
      }
    }
  }

  /**
   * The editor's globals: the grid `text` (null until allocated), the cursor,
   * the grid size and whether a file name was given.
   */
  class TextBuffer {
    var text: array?<byte>
    var cursorX: int
    var cursorY: int
    var sizeX: nat
    var sizeY: nat
    var hasFilename: bool

    /** An allocated grid has exactly `sizeX * sizeY` cells. */
    ghost predicate Valid()
      reads this
    {
      text != null ==> text.Length == sizeX * sizeY
    }

    /** The globals as a `State` value. */
    function Snap(): (s: State)
      reads this, text
      ensures Valid() ==> Wf(s)
    {
      State(text != null, if text == null then [] else text[..], cursorX, cursorY, sizeX, sizeY)
    }

    /** The globals before anything runs: no grid, cursor at (0, 0), size 0 by 0. */
    constructor (hasFilename: bool)
      ensures Valid() && text == null && this.hasFilename == hasFilename
      ensures cursorX == 0 && cursorY == 0 && sizeX == 0 && sizeY == 0
    {
      text := null;
      cursorX, cursorY := 0, 0;
      sizeX, sizeY := 0, 0;
      this.hasFilename := hasFilename;
    }

    /**
     * Allocates the grid unless it already exists, taking the grid size from
     * the screen only when no size has been set. The new cells are unspecified.
     */
    method InitText(screenX: nat, screenY: nat)
      requires Valid()
      modifies this
      ensures Valid() && hasFilename == old(hasFilename)
      ensures cursorX == old(cursorX) && cursorY == old(cursorY)
      ensures old(text) != null ==> text == old(text) && sizeX == old(sizeX) && sizeY == old(sizeY)
      ensures old(text) == null ==> text != null && fresh(text)
      ensures old(text) == null && old(sizeX) == 0 && old(sizeY) == 0 ==>
        sizeX == screenX && sizeY == screenY
      ensures old(text) == null && (old(sizeX) != 0 || old(sizeY) != 0) ==>
        sizeX == old(sizeX) && sizeY == old(sizeY)
    {
      if text != null {
        return;
      }
      if sizeX == 0 && sizeY == 0 {
        sizeX, sizeY := screenX, screenY;
      }
      text := new byte[sizeX * sizeY];
    }

    /** The cell at column `x` of row `y`. */
    function TextAt(x: int, y: int): (c: byte)
      reads this, text
      requires Valid() && text != null && InGrid(x, y, sizeX, sizeY)
      ensures c == Row(text[..], sizeX, sizeY, y)[x]
    {
      RowCell(text[..], sizeX, sizeY, y, x);
      text[Index(x, y, sizeX)]
    }

    /**
     * Scans the cursor row from its right end for the column just past its
     * last non-blank cell.
     */
    method GetMaxX() returns (k: int)
      requires Valid() && text != null && 0 <= cursorY < sizeY
      ensures 0 <= k <= sizeX
      ensures forall j :: k <= j < sizeX ==> IsBlank(TextAt(j, cursorY))
      ensures k > 0 ==> !IsBlank(TextAt(k - 1, cursorY))
      ensures k == RowEnd(Row(text[..], sizeX, sizeY, cursorY))
    {
      var i := sizeX - 1;
      while i >= 0 && (TextAt(i, cursorY) == SPACE || TextAt(i, cursorY) == NUL)
        invariant -1 <= i < sizeX
        invariant forall j :: i < j < sizeX ==> IsBlank(TextAt(j, cursorY))
      {
        i := i - 1;
      }
      k := i + 1;
      ghost var row := Row(text[..], sizeX, sizeY, cursorY);
      assert forall j :: 0 <= j < sizeX ==> row[j] == TextAt(j, cursorY);
      RowEndUnique(row, k);
    }

    /** Brings the cursor back onto the grid by the wrap policy. */
    method WrapCursor()
      requires Valid() && text != null
      modifies this`cursorX, this`cursorY
      ensures Snap() == Wrap(old(Snap()))
    {
      if cursorX < 0 {
        cursorY := cursorY - 1;
        cursorX := sizeX - 1;
        if 0 <= cursorY < sizeY {
          var maxX := GetMaxX();
          cursorX := Min(cursorX, maxX);
        }
      }
      if cursorY < 0 {
        cursorY := 0;
        cursorX := 0;
      }
      if cursorX >= sizeX {
        cursorX := 0;
        cursorY := cursorY + 1;
      }
      if cursorY >= sizeY {
        cursorX := sizeX - 1;
        cursorY := sizeY - 1;
      }
    }

    method SetTextChar(value: byte)
      requires Valid()
      modifies text, this`cursorX, this`cursorY
      ensures Valid()
      ensures Snap() == SetChar(old(Snap()), value)
    {
      if !IsTextValid(Snap()) {
        return;
      }
      text[Index(cursorX, cursorY, sizeX)] := value;
      cursorX := cursorX + 1;
      WrapCursor();
    }

    method TextDelete()
      requires Valid()
      modifies text, this`cursorX, this`cursorY
      ensures Valid()
      ensures Snap() == Delete(old(Snap()))
    {
      if !IsTextValid(Snap()) {
        return;
      }
      cursorX := cursorX - 1;
      if cursorX >= 0 {
        text[Index(cursorX, cursorY, sizeX)] := SPACE;
      }
      WrapCursor();
    }

    method TextNewline()
      requires Valid()
      modifies this`cursorX, this`cursorY
      ensures Valid()
      ensures Snap() == Newline(old(Snap()))
    {
      if !IsTextValid(Snap()) {
        return;
      }
      cursorY := cursorY + 1;
      cursorX := 0;
      WrapCursor();
    }

    /** The bytes the save writes, or `None` when no file name was given. */
    method FileSave() returns (written: Option<seq<byte>>)
      requires Valid() && text != null
      ensures !hasFilename ==> written == None
      ensures hasFilename ==> written == Some(Serialized(text[..], sizeX))
    {
      if !hasFilename {
        return None;
      }
      var out: seq<byte> := [];
      var i := 0;
      var n := sizeX * sizeY;
      ghost var g := text[..];
      while i < n
        invariant 0 <= i <= n == |g| && g == text[..]
        invariant out + SaveFrom(g[i..], i, sizeX) == Serialized(g, sizeX)
      {
        SaveFromStep(g, i, sizeX);
        var chunk := [text[i]];
        if i % sizeX == 0 && i > 1 {
          chunk := chunk + [NEWLINE];
        }
        out := out + chunk;
        i := i + 1;
      }
      assert SaveFrom(g[i..], i, sizeX) == [] by {
        assert g[i..] == [];
      }
      assert out == Serialized(g, sizeX);
      written := Some(out);
    }

    /**
     * Infers the grid size from a file's bytes, unless a size is already set:
     * the width is the offset of the first newline at a positive offset, and
     * the height is the number of reads (the bytes and the final EOF) divided
     * by one less than the width.
     */
    method TextToFileSize(file: seq<byte>)
      requires text == null
      requires sizeX != 0 || sizeY != 0 || FirstLineWidth(file) != 1
      modifies this`sizeX, this`sizeY
      ensures old(sizeX) != 0 || old(sizeY) != 0 ==> sizeX == old(sizeX) && sizeY == old(sizeY)
      ensures old(sizeX) == 0 && old(sizeY) == 0 ==>
        sizeX == FirstLineWidth(file) &&
        sizeY == if sizeX == 0 then 0 else (|file| + 1) / (sizeX - 1)
    {
      if sizeX != 0 || sizeY != 0 {
        return;
      }
      var i := 0;
      // One read per byte, then the read that returns EOF ends the loop.
      while i <= |file|
        invariant 0 <= i <= |file| + 1 && sizeY == 0
        invariant sizeX == 0 ==> forall j :: 0 < j < i && j < |file| ==> file[j] != NEWLINE
        invariant sizeX != 0 ==> sizeX == FirstLineWidth(file)
      {
        var c: KeyCode := if i < |file| then file[i] as int else EOF;
        if c == NEWLINE as int && sizeX == 0 {
          sizeX := i;
        }
        i := i + 1;
      }
      if sizeX != 0 {
        sizeY := i / (sizeX - 1);
      }
    }

    /**
     * The load loop: copies the file's bytes to the front of the grid as they
     * are, newlines included, followed by the EOF marker.
     */
    method FillText(file: seq<byte>)
      requires Valid() && text != null && |file| + 1 <= text.Length
      modifies text
      ensures text[..] == file + [EOF_BYTE] + old(text[..])[|file| + 1..]
    {
      var i := 0;
      while i <= |file|
        invariant 0 <= i <= |file| + 1
        invariant text[..i] == (file + [EOF_BYTE])[..i]
        invariant text[i..] == old(text[..])[i..]
      {
        text[i] := if i < |file| then file[i] else EOF_BYTE;
        i := i + 1;
      }
      assert text[..] == text[..|file| + 1] + text[|file| + 1..];
    }

    /**
     * Startup with a file name: the file is opened for writing and so
     * truncated, the size inference and the load loop see no bytes, and the
     * grid's first cell ends up holding the EOF marker.
     */
    method FileLoad(screenX: nat, screenY: nat)
      requires Valid() && text == null
      requires hasFilename ==>
        if sizeX == 0 && sizeY == 0 then screenX * screenY >= 1 else sizeX * sizeY >= 1
      modifies this
      ensures Valid() && hasFilename == old(hasFilename)
      ensures cursorX == old(cursorX) && cursorY == old(cursorY)
      ensures !hasFilename ==> text == null && sizeX == old(sizeX) && sizeY == old(sizeY)
      ensures hasFilename ==> text != null && fresh(text) && text.Length >= 1 && text[0] == EOF_BYTE
      ensures hasFilename && old(sizeX) == 0 && old(sizeY) == 0 ==> sizeX == screenX && sizeY == screenY
      ensures hasFilename && (old(sizeX) != 0 || old(sizeY) != 0) ==>
        sizeX == old(sizeX) && sizeY == old(sizeY)
    {
      if !hasFilename {
        return;
      }
      TextToFileSize([]);
      InitText(screenX, screenY);
      FillText([]);
    }

    /** Handles one key event. */
    method HandleEvent(ev: KeyEvent) returns (outcome: Outcome)
      requires Valid() && text != null
      modifies text, this`cursorX, this`cursorY
      ensures Valid()
      ensures Snap() == Dispatch(old(Snap()), ev, hasFilename).state
      ensures outcome == Dispatch(old(Snap()), ev, hasFilename).outcome
    {
      outcome := Continue;
      match ev {
        case Backspace =>
          TextDelete();
        case Enter =>
          TextNewline();
        case Tab =>
          for i := 0 to TAB_SIZE
            invariant Valid()
            invariant Snap() == SetCharTimes(old(Snap()), SPACE, i)
          {
            SetTextChar(SPACE);
          }
        case SaveQuit =>
          var saved := FileSave();
          outcome := Exit(saved);
        case Quit =>
          outcome := Exit(None);
        case Char(c) =>
          SetTextChar(c);
        case _ =>
      }
      if ev.IsArrow() {
        cursorX := cursorX + ArrowDx(ev);
        cursorY := cursorY + ArrowDy(ev);
      }
    }

    /** Reads one key event off the front of the input and handles it. */
    method HandleInput(input: seq<KeyCode>) returns (outcome: Outcome, rest: seq<KeyCode>)
      requires Valid() && text != null && |input| >= 1
      modifies text, this`cursorX, this`cursorY
      ensures Valid()
      ensures rest == Decode(input).rest
      ensures Snap() == Dispatch(old(Snap()), Decode(input).event, hasFilename).state
      ensures outcome == Dispatch(old(Snap()), Decode(input).event, hasFilename).outcome
    {
      var d := Decode(input);
      outcome := HandleEvent(d.event);
      rest := d.rest;
    }
  }
}
