/** The text screen of `vga.c`: 80x25 cells that scroll in place, against an
    unbounded page of which they are a window. */
module Vga {
  const WIDTH: nat := 80
  const HEIGHT: nat := 25
  const CELLS: nat := 2000

  /** A cell of screen memory: character in the low byte, colour in the high. */
  function Entry(character: nat, color: nat): int { character + 256 * color }

  const BLANK: nat := 0x20
  const NEWLINE: nat := 0x0A

  function BlankRow(color: nat): (row: seq<int>)
    ensures |row| == WIDTH && forall x :: 0 <= x < WIDTH ==> row[x] == Entry(BLANK, color)
  {
    seq(WIDTH, _ => Entry(BLANK, color))
  }

  datatype Event = SetColor(color: nat) | Put(character: nat)

  // ------------------------------------------------- the unbounded page

  /** Rows are only ever added at the bottom; writing wraps as soon as a row
      is full. */
  datatype Sheet = Sheet(rows: seq<seq<int>>, row: nat, col: nat, color: nat) {
    predicate Valid() {
      && HEIGHT <= |rows| && |rows| - HEIGHT <= row < |rows| && col < WIDTH
      && forall y :: 0 <= y < |rows| ==> |rows[y]| == WIDTH
    }

    function NewLine(): Sheet {
      Sheet(if row + 1 < |rows| then rows else rows + [BlankRow(color)], row + 1, 0, color)
    }

    /** The character under the cursor, replaced. */
    function Written(c: nat): Sheet
      requires Valid()
    {
      this.(rows := rows[row := rows[row][col := Entry(c, color)]])
    }

    function Step(e: Event): Sheet
      requires Valid()
    {
      match e
      case SetColor(c) => this.(color := c)
      case Put(c) =>
        if c == NEWLINE then NewLine()
        else
          if col + 1 < WIDTH then Written(c).(col := col + 1) else Written(c).NewLine()
    }
  }

  function Cleared(color: nat): Sheet {
    Sheet(seq(HEIGHT, _ => BlankRow(color)), 0, 0, color)
  }

  lemma StepValid(s: Sheet, e: Event)
    requires s.Valid()
    ensures s.Step(e).Valid()
  {
  }

  function After(s: Sheet, events: seq<Event>): (r: Sheet)
    requires s.Valid()
    ensures r.Valid()
    decreases |events|
  {
    if |events| == 0 then s
    else
      StepValid(s, events[0]);
      After(s.Step(events[0]), events[1..])
  }

  lemma {:induction false} AfterOneMore(s: Sheet, events: seq<Event>, e: Event)
    requires s.Valid()
    ensures After(s, events + [e]) == After(s, events).Step(e)
    decreases |events|
  {
    StepValid(s, e);
    if |events| == 0 {
      assert (events + [e])[1..] == [];
    } else {
      StepValid(s, events[0]);
      AfterOneMore(s.Step(events[0]), events[1..], e);
      assert (events + [e])[1..] == events[1..] + [e];
    }
  }

  // ------------------------------------------- where characters land, directly

  /** How many cells of the page lie before the cursor: a character takes one,
      a line feed (byte 10) the rest of its row of 80. */
  function Position(events: seq<Event>): nat {
    if |events| == 0 then 0
    else
      var p := Position(events[..|events| - 1]);
      match events[|events| - 1]
      case SetColor(_) => p
      case Put(c) => if c == 10 then (p / 80 + 1) * 80 else p + 1
  }

  /** The colour in force: the last one set. */
  function Colour(color: nat, events: seq<Event>): nat {
    if |events| == 0 then color
    else match events[|events| - 1]
      case SetColor(c) => c
      case Put(_) => Colour(color, events[..|events| - 1])
  }

  /** Event `i` prints a character. */
  predicate Prints(events: seq<Event>, i: nat) {
    i < |events| && events[i].Put? && events[i].character != 10
  }

  /** The character that event `i` prints stands at the position reached before
      it, in the colour then in force. */
  ghost predicate Printed(s: Sheet, color: nat, events: seq<Event>, i: nat)
    requires s.Valid() && Prints(events, i)
  {
    var p := Position(events[..i]);
    p / 80 < |s.rows| && s.rows[p / 80][p % 80] == events[i].character + 256 * Colour(color, events[..i])
  }

  /** No event prints at position `p`. */
  ghost predicate Untouched(events: seq<Event>, p: nat) {
    forall i: nat :: Prints(events, i) ==> Position(events[..i]) != p
  }

  /** Page, cursor and colour are laid out as the events say. */
  ghost predicate LaidOut(s: Sheet, color: nat, events: seq<Event>) {
    && s.Valid() && CursorAt(s, color, events)
    && (forall i: nat :: Prints(events, i) ==> Printed(s, color, events, i))
    && (forall y: nat, x: nat :: y < |s.rows| && x < 80 && Untouched(events, 80 * y + x) ==>
          IsBlank(color, events, y, s.rows[y][x]))
  }

  /** A cell of row `y` that nothing is printed in: a space, in the colour of
      the clear in the first 25 rows, and further down in the colour in force
      when the text reached the row. */
  ghost predicate IsBlank(color: nat, events: seq<Event>, y: nat, cell: int) {
    if y < 25 then cell == 32 + 256 * color
    else exists k: nat :: Reaches(events, k, y) && cell == 32 + 256 * Colour(color, events[..k])
  }

  /** Event `k` takes the cursor to row `y`. */
  ghost predicate Reaches(events: seq<Event>, k: nat, y: nat) {
    k < |events| && Position(events[..k]) < 80 * y <= Position(events[..k + 1])
  }

  ghost predicate CursorAt(s: Sheet, color: nat, events: seq<Event>) {
    && s.row == Position(events) / 80 && s.col == Position(events) % 80
    && s.color == Colour(color, events)
    && |s.rows| == if s.row < 25 then 25 else s.row + 1
  }

  lemma OneMore(events: seq<Event>, e: Event, color: nat)
    ensures (events + [e])[..|events|] == events
    ensures forall i: nat :: i <= |events| ==> (events + [e])[..i] == events[..i]
    ensures var p, q := Position(events), Position(events + [e]);
            if e.SetColor? then q == p else if e.character == 10 then q == (p / 80 + 1) * 80 else q == p + 1
    ensures Colour(color, events + [e]) == if e.SetColor? then e.color else Colour(color, events)
  {
    assert (events + [e])[..|events|] == events;
  }

  /** Positions only grow, so nothing is printed over. */
  lemma {:induction false} Ahead(events: seq<Event>, i: nat)
    requires Prints(events, i)
    ensures Position(events[..i]) < Position(events)
    decreases |events|
  {
    var n := |events| - 1;
    assert events == events[..n] + [events[n]];
    OneMore(events[..n], events[n], 0);
    if i < n {
      Ahead(events[..n], i);
      assert events[..n][..i] == events[..i];
    }
  }

  /** What one event does to the cells: at most one is written, at the cursor,
      and at most one blank row is added. */
  lemma StepCells(s: Sheet, e: Event)
    requires s.Valid()
    ensures var t := s.Step(e);
            && t.Valid() && |s.rows| <= |t.rows| <= |s.rows| + 1
            && (forall y, x :: 0 <= y < |s.rows| && 0 <= x < 80 ==>
                  t.rows[y][x] == if Prints([e], 0) && y == s.row && x == s.col then e.character + 256 * s.color
                                  else s.rows[y][x])
            && (|t.rows| > |s.rows| ==> forall x :: 0 <= x < 80 ==> t.rows[|s.rows|][x] == 32 + 256 * s.color)
  {
    StepValid(s, e);
  }

  lemma StepPlaces(s: Sheet, c: nat)
    requires s.Valid()
    ensures var t := s.Step(Put(c));
            if c == 10 then t.col == 0 && t.row == s.row + 1
            else
              && 80 * t.row + t.col == 80 * s.row + s.col + 1
              && s.row < |t.rows| && s.col < |t.rows[s.row]| && t.rows[s.row][s.col] == c + 256 * s.color
  {
  }

  lemma CursorStep(s: Sheet, color: nat, events: seq<Event>, e: Event)
    requires s.Valid() && CursorAt(s, color, events)
    ensures CursorAt(s.Step(e), color, events + [e])
  {
    OneMore(events, e, color);
    NextPosition(Position(events));
  }

  lemma NextPosition(p: nat)
    ensures if p % 80 < 79 then (p + 1) / 80 == p / 80 && (p + 1) % 80 == p % 80 + 1
            else (p + 1) / 80 == p / 80 + 1 && (p + 1) % 80 == 0
    ensures (p / 80 + 1) * 80 / 80 == p / 80 + 1 && (p / 80 + 1) * 80 % 80 == 0
  {
  }

  lemma PrintedStep(s: Sheet, color: nat, events: seq<Event>, e: Event, i: nat)
    requires LaidOut(s, color, events) && Prints(events + [e], i)
    ensures s.Step(e).Valid() && Printed(s.Step(e), color, events + [e], i)
  {
    hide Sheet.Step, Sheet.Valid, Position;
    StepCells(s, e);
    OneMore(events, e, color);
    if i < |events| {
      assert Prints(events, i) && Printed(s, color, events, i);
      Ahead(events, i);
      CellsApart(Position(events[..i]), Position(events));
    }
  }

  lemma CellsApart(p: nat, q: nat)
    requires p != q
    ensures p / 80 != q / 80 || p % 80 != q % 80
  {
  }

  lemma BlankStep(s: Sheet, color: nat, events: seq<Event>, e: Event, y: nat, x: nat)
    requires LaidOut(s, color, events)
    requires s.Step(e).Valid() && y < |s.Step(e).rows| && x < 80 && Untouched(events + [e], 80 * y + x)
    ensures IsBlank(color, events + [e], y, s.Step(e).rows[y][x])
  {
    hide Sheet.Step, Position;
    StepCells(s, e);
    OneMore(events, e, color);
    CursorStep(s, color, events, e);
    assert Untouched(events, 80 * y + x) by {
      forall i: nat | Prints(events, i)
        ensures Position(events[..i]) != 80 * y + x
      {
        assert Prints(events + [e], i);
      }
    }
    assert Prints([e], 0) ==> Prints(events + [e], |events|);
    if y < |s.rows| {
      StillBlank(color, events, e, y, s.rows[y][x]);
    } else {
      RowReached(events, e, y);
    }
  }

  lemma StillBlank(color: nat, events: seq<Event>, e: Event, y: nat, cell: int)
    requires IsBlank(color, events, y, cell)
    ensures IsBlank(color, events + [e], y, cell)
  {
    hide Position, Colour;
    if y >= 25 {
      var k: nat :| Reaches(events, k, y) && cell == 32 + 256 * Colour(color, events[..k]);
      assert (events + [e])[..k] == events[..k] && (events + [e])[..k + 1] == events[..k + 1];
      assert Reaches(events + [e], k, y);
    }
  }

  lemma RowReached(events: seq<Event>, e: Event, y: nat)
    requires Position(events) / 80 < y <= Position(events + [e]) / 80
    ensures Reaches(events + [e], |events|, y) && (events + [e])[..|events|] == events
  {
    assert (events + [e])[..|events|] == events && (events + [e])[..|events| + 1] == events + [e];
  }

  lemma LaidOutStep(s: Sheet, color: nat, events: seq<Event>, e: Event)
    requires LaidOut(s, color, events)
    ensures LaidOut(s.Step(e), color, events + [e])
  {
    hide Sheet.Step, Sheet.Valid, Printed, Untouched, IsBlank;
    StepCells(s, e);
    CursorStep(s, color, events, e);
    forall i: nat | Prints(events + [e], i)
      ensures Printed(s.Step(e), color, events + [e], i)
    {
      PrintedStep(s, color, events, e, i);
    }
    forall y: nat, x: nat | y < |s.Step(e).rows| && x < 80 && Untouched(events + [e], 80 * y + x)
      ensures IsBlank(color, events + [e], y, s.Step(e).rows[y][x])
    {
      BlankStep(s, color, events, e, y, x);
    }
  }

  /** The layout of the page: every character stands where the text before it
      puts it, everything else is blank, and so is the cursor's place given. */
  lemma {:induction false} Layout(color: nat, events: seq<Event>)
    ensures Cleared(color).Valid() && LaidOut(After(Cleared(color), events), color, events)
    decreases |events|
  {
    ClearedValid(color);
    if |events| > 0 {
      var n := |events| - 1;
      Layout(color, events[..n]);
      AfterOneMore(Cleared(color), events[..n], events[n]);
      LaidOutStep(After(Cleared(color), events[..n]), color, events[..n], events[n]);
      assert events == events[..n] + [events[n]];
    }
  }

  /** In a text without line feeds, character `i` comes `i`-th. */
  lemma {:induction false} PlainPosition(events: seq<Event>)
    requires forall i :: 0 <= i < |events| ==> events[i].Put? && events[i].character != 10
    ensures Position(events) == |events|
    decreases |events|
  {
    if |events| > 0 {
      PlainPosition(events[..|events| - 1]);
    }
  }

  /** The cell that the window's row `y` and column `x` should show. */
  function Shown(s: Sheet, y: nat, x: nat): int
    requires s.Valid() && y < HEIGHT && x < WIDTH
  {
    s.rows[|s.rows| - HEIGHT + y][x]
  }

  /** The cells are the last 25 rows of the page, and the software cursor is
      inside them, at the same place. */
  ghost predicate ShowsWindow(cells: seq<int>, row: nat, col: nat, s: Sheet) {
    && s.Valid() && |cells| == CELLS
    && row == s.row - (|s.rows| - HEIGHT) && col == s.col
    && ShowsCells(cells, s)
  }

  ghost predicate ShowsCells(cells: seq<int>, s: Sheet)
    requires s.Valid() && |cells| == CELLS
  {
    forall y, x {:trigger CellShows(cells, s, y, x)} :: 0 <= y < HEIGHT && 0 <= x < WIDTH ==> CellShows(cells, s, y, x)
  }

  ghost predicate CellShows(cells: seq<int>, s: Sheet, y: nat, x: nat)
    requires s.Valid() && |cells| == CELLS && y < HEIGHT && x < WIDTH
  {
    cells[y * WIDTH + x] == Shown(s, y, x)
  }

  /** Screen memory one row up, with a fresh last row. */
  ghost predicate Scrolled(before: seq<int>, after: seq<int>, color: nat) {
    && |before| == |after| == CELLS
    && (forall i :: 0 <= i < CELLS - WIDTH ==> after[i] == before[i + WIDTH])
    && (forall i :: CELLS - WIDTH <= i < CELLS ==> after[i] == Entry(BLANK, color))
  }

  lemma ScrollShows(before: seq<int>, after: seq<int>, s: Sheet)
    requires s.Valid() && s.row + 1 == |s.rows| && |before| == CELLS
    requires ShowsCells(before, s)
    requires Scrolled(before, after, s.color)
    ensures ShowsWindow(after, HEIGHT - 1, 0, s.NewLine())
  {
    var t := s.NewLine();
    forall y, x | 0 <= y < HEIGHT && 0 <= x < WIDTH
      ensures CellShows(after, t, y, x)
    {
      if y < HEIGHT - 1 {
        assert CellShows(before, s, y + 1, x);
      }
    }
  }

  /** Writing one cell changes one cell of the window. */
  lemma WriteShows(cells: seq<int>, row: nat, col: nat, s: Sheet, c: nat)
    requires ShowsWindow(cells, row, col, s)
    ensures row < HEIGHT && col < WIDTH && row * WIDTH + col < CELLS
    ensures ShowsWindow(cells[row * WIDTH + col := Entry(c, s.color)], row, col, s.Written(c))
  {
    var t := s.Written(c);
    var after := cells[row * WIDTH + col := Entry(c, s.color)];
    forall y, x | 0 <= y < HEIGHT && 0 <= x < WIDTH
      ensures CellShows(after, t, y, x)
    {
      assert CellShows(cells, s, y, x);
      assert y * WIDTH + x == row * WIDTH + col <==> y == row && x == col;
    }
  }

  class Screen {
    const memory: array<int>
    var row: nat
    var column: nat
    var color: nat
    ghost var sheet: Sheet

    ghost predicate Valid()
      reads this, memory
    {
      && memory.Length == CELLS
      && ShowsWindow(memory[..], row, column, sheet) && color == sheet.color
    }

    /** `vga_clear` on any screen memory. */
    constructor (memory: array<int>, color: nat)
      requires memory.Length == CELLS
      modifies memory
      ensures Valid() && sheet == Cleared(color) && this.memory == memory
      ensures row == 0 && column == 0 && forall i :: 0 <= i < 2000 ==> memory[i] == 32 + 256 * color
    {
      this.memory, this.color, row, column, sheet := memory, color, 0, 0, Cleared(color);
      new;
      for index := 0 to CELLS
        modifies memory
        invariant forall i :: 0 <= i < index ==> memory[i] == Entry(BLANK, color)
      {
        memory[index] := Entry(BLANK, color);
      }
      ClearedShows(memory[..], color);
    }

    method SetColor(color: nat)
      requires Valid()
      modifies this
      ensures Valid() && sheet == old(sheet).Step(Event.SetColor(color))
    {
      SameRows(memory[..], sheet, sheet.(color := color));
      this.color := color;
      sheet := sheet.(color := color);
    }

    method SetCursor(row: nat, column: nat)
      modifies this`row, this`column
      ensures if row < HEIGHT && column < WIDTH then this.row == row && this.column == column
              else this.row == old(this.row) && this.column == old(this.column)
    {
      if row >= HEIGHT || column >= WIDTH {
        return;
      }
      this.column := column;
      this.row := row;
    }

    method Scroll()
      requires memory.Length == CELLS && column < WIDTH
      modifies this`row, this`column, memory
      ensures Scrolled(old(memory[..]), memory[..], color)
      ensures row == HEIGHT - 1 && column == old(column)
    {
      MoveUp();
      ghost var moved := memory[..];
      for x := 0 to WIDTH
        modifies memory
        invariant forall i :: 0 <= i < CELLS - WIDTH ==> memory[i] == moved[i]
        invariant forall i :: CELLS - WIDTH <= i < CELLS - WIDTH + x ==> memory[i] == Entry(BLANK, color)
      {
        memory[(HEIGHT - 1) * WIDTH + x] := Entry(BLANK, color);
      }
      SetCursor(HEIGHT - 1, column);
    }

    /** Each row takes the contents of the next, top to bottom. */
    method MoveUp()
      requires memory.Length == CELLS
      modifies memory
      ensures forall i :: 0 <= i < CELLS - WIDTH ==> memory[i] == old(memory[i + WIDTH])
    {
      for y := 1 to HEIGHT
        invariant forall i :: 0 <= i < (y - 1) * WIDTH ==> memory[i] == old(memory[i + WIDTH])
        invariant forall i :: (y - 1) * WIDTH <= i < CELLS ==> memory[i] == old(memory[i])
      {
        MoveRow(y);
      }
    }

    /** Row `y` to the row above it. */
    method MoveRow(y: nat)
      requires memory.Length == CELLS && 1 <= y < HEIGHT
      modifies memory
      ensures forall i :: (y - 1) * WIDTH <= i < y * WIDTH ==> memory[i] == old(memory[i + WIDTH])
      ensures forall i :: 0 <= i < CELLS && !((y - 1) * WIDTH <= i < y * WIDTH) ==> memory[i] == old(memory[i])
    {
      var to := (y - 1) * WIDTH;
      for x := 0 to WIDTH
        invariant forall i :: to <= i < to + x ==> memory[i] == old(memory[i + WIDTH])
        invariant forall i :: 0 <= i < CELLS && !(to <= i < to + x) ==> memory[i] == old(memory[i])
      {
        memory[(y - 1) * WIDTH + x] := memory[y * WIDTH + x];
      }
    }

    /** `vga_write_char`. */
    method WriteChar(character: nat)
      requires Valid()
      modifies this, memory
      ensures Valid() && sheet == old(sheet).Step(Put(character))
      ensures if character == 10 then sheet.col == 0 && sheet.row == old(sheet).row + 1
              else
                && 80 * sheet.row + sheet.col == 80 * old(sheet).row + old(column) + 1
                && old(sheet).row < |sheet.rows| && old(column) < |sheet.rows[old(sheet).row]|
                && sheet.rows[old(sheet).row][old(column)] == character + 256 * old(color)
    {
      hide ShowsWindow;
      WindowCursor(memory[..], row, column, sheet);
      StepPlaces(sheet, character);
      if character == NEWLINE {
        column := 0;
        NextRow();
        return;
      }
      WriteShows(memory[..], row, column, sheet, character);
      ghost var before := memory[..];
      memory[row * WIDTH + column] := Entry(character, color);
      WrittenValid(sheet, character);
      assert memory[..] == before[row * WIDTH + column := Entry(character, color)];
      sheet := sheet.Written(character);
      column := column + 1;
      if column >= WIDTH {
        column := 0;
        NextRow();
      } else {
        sheet := sheet.(col := sheet.col + 1);
        ColumnMoves(memory[..], row, column - 1, sheet.(col := sheet.col - 1));
      }
      SetCursor(row, column);
    }

    /** Row increment, with a scroll at the bottom. */
    method NextRow()
      requires memory.Length == CELLS && column == 0 && color == sheet.color
      requires ShowsWindow(memory[..], row, sheet.col, sheet)
      modifies this, memory
      ensures Valid() && sheet == old(sheet).NewLine() && row < HEIGHT && column == 0
    {
      row := row + 1;
      if row >= HEIGHT {
        Scroll();
        ScrollShows(old(memory[..]), memory[..], sheet);
      } else {
        SameRows(memory[..], sheet, sheet.NewLine());
      }
      sheet := sheet.NewLine();
    }
  }

  /** What is shown depends on the rows alone. */
  lemma SameRows(cells: seq<int>, s: Sheet, t: Sheet)
    requires s.Valid() && t.Valid() && s.rows == t.rows && |cells| == CELLS && ShowsCells(cells, s)
    ensures ShowsCells(cells, t)
  {
    forall y, x | 0 <= y < HEIGHT && 0 <= x < WIDTH
      ensures CellShows(cells, t, y, x)
    {
      assert CellShows(cells, s, y, x);
    }
  }

  lemma ClearedShows(cells: seq<int>, color: nat)
    requires |cells| == CELLS && forall i :: 0 <= i < CELLS ==> cells[i] == Entry(BLANK, color)
    ensures ShowsWindow(cells, 0, 0, Cleared(color))
  {
  }

  lemma WindowCursor(cells: seq<int>, row: nat, col: nat, s: Sheet)
    requires ShowsWindow(cells, row, col, s)
    ensures s.Valid() && row < HEIGHT && col < WIDTH && col == s.col
  {
  }

  lemma ColumnMoves(cells: seq<int>, row: nat, col: nat, s: Sheet)
    requires ShowsWindow(cells, row, col, s) && col + 1 < WIDTH
    ensures ShowsWindow(cells, row, col + 1, s.(col := s.col + 1))
  {
    SameRows(cells, s, s.(col := s.col + 1));
  }

  /** The screen as a sliding window: after any run of colour changes and
      characters since a clear, the screen shows the last 25 rows of the page,
      and the cursor is on it. */
  method Play(screen: Screen, color: nat, events: seq<Event>)
    requires screen.Valid() && screen.sheet == Cleared(color)
    modifies screen, screen.memory
    ensures (ClearedValid(color);
             ShowsWindow(screen.memory[..], screen.row, screen.column, After(Cleared(color), events)))
    ensures screen.row < 25 && screen.column < 80
    ensures ShowsText(screen.memory[..], screen.row, screen.column, color, events)
  {
    hide ShowsWindow, ShowsText;
    ClearedValid(color);
    for i := 0 to |events|
      invariant screen.Valid() && screen.sheet == After(Cleared(color), events[..i])
    {
      AfterOneMore(Cleared(color), events[..i], events[i]);
      assert events[..i + 1] == events[..i] + [events[i]];
      match events[i] {
        case SetColor(c) => screen.SetColor(c);
        case Put(c) => screen.WriteChar(c);
      }
    }
    assert events[..|events|] == events;
    WindowCursor(screen.memory[..], screen.row, screen.column, screen.sheet);
    WindowShowsText(screen.memory[..], screen.row, screen.column, color, events);
  }

  /** How many rows have scrolled off the screen. */
  function Gone(events: seq<Event>): nat {
    if Position(events) / 80 < 25 then 0 else Position(events) / 80 - 24
  }

  /** 25 rows of 80 cells show the end of the text.  Each character that has
      not scrolled off is in the low byte of its cell, its colour in the high
      byte, and all other cells are blank; the cursor is behind the last. */
  ghost predicate ShowsText(cells: seq<int>, row: nat, col: nat, color: nat, events: seq<Event>) {
    && |cells| == 2000 && row == Position(events) / 80 - Gone(events) && col == Position(events) % 80
    && (forall i: nat :: Prints(events, i) ==> CharacterShown(cells, color, events, i))
    && (forall y: nat, x: nat :: y < 25 && x < 80 && Untouched(events, 80 * (Gone(events) + y) + x) ==>
          BlankShown(cells, color, events, y, x))
  }

  ghost predicate CharacterShown(cells: seq<int>, color: nat, events: seq<Event>, i: nat)
    requires |cells| == 2000 && Prints(events, i)
  {
    var p := Position(events[..i]);
    var k := p - 80 * Gone(events);
    0 <= k && events[i].character < 256 ==>
      k < 2000 && cells[k] % 256 == events[i].character && cells[k] / 256 == Colour(color, events[..i])
  }

  ghost predicate BlankShown(cells: seq<int>, color: nat, events: seq<Event>, y: nat, x: nat)
    requires |cells| == 2000 && y < 25 && x < 80
  {
    IsBlank(color, events, Gone(events) + y, cells[80 * y + x])
  }

  lemma WindowShowsText(cells: seq<int>, row: nat, col: nat, color: nat, events: seq<Event>)
    requires Cleared(color).Valid() && ShowsWindow(cells, row, col, After(Cleared(color), events))
    ensures ShowsText(cells, row, col, color, events)
  {
    hide Position, Sheet.Valid, After, Cleared, Untouched, IsBlank;
    Layout(color, events);
    var s := After(Cleared(color), events);
    ClearedValid(color);
    SheetRows(s);
    forall i: nat | Prints(events, i)
      ensures CharacterShown(cells, color, events, i)
    {
      assert Printed(s, color, events, i);
      Ahead(events, i);
      CharacterInWindow(cells, s, color, events, i);
    }
    forall y: nat, x: nat | y < 25 && x < 80 && Untouched(events, 80 * (Gone(events) + y) + x)
      ensures BlankShown(cells, color, events, y, x)
    {
      assert CellShows(cells, s, y, x);
    }
  }

  lemma SheetRows(s: Sheet)
    requires s.Valid()
    ensures |s.rows| >= 25
  {
  }

  lemma CharacterInWindow(cells: seq<int>, s: Sheet, color: nat, events: seq<Event>, i: nat)
    requires s.Valid() && |cells| == 2000 && ShowsCells(cells, s) && CursorAt(s, color, events)
    requires Prints(events, i) && Printed(s, color, events, i) && Position(events[..i]) < Position(events)
    ensures CharacterShown(cells, color, events, i)
  {
    hide Position, Sheet.Valid;
    var p := Position(events[..i]);
    var k := p - 80 * Gone(events);
    if 0 <= k && events[i].character < 256 {
      var y, x := p / 80 - Gone(events), p % 80;
      assert k == 80 * y + x;
      assert CellShows(cells, s, y, x);
      EntryBytes(events[i].character, Colour(color, events[..i]));
    }
  }

  lemma EntryBytes(character: nat, color: nat)
    requires character < 256
    ensures (character + 256 * color) % 256 == character && (character + 256 * color) / 256 == color
  {
  }

  lemma WrittenValid(s: Sheet, c: nat)
    requires s.Valid()
    ensures s.Written(c).Valid() && s.Written(c).color == s.color
    ensures s.Written(c).col == s.col && s.Written(c).row == s.row
  {
  }

  lemma ClearedValid(color: nat)
    ensures Cleared(color).Valid()
  {
  }
}
