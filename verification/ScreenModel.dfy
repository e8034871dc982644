/**
  The text console as a function of what is sent to it, and the unbounded page
  of which it shows a window. The Console class is proved to perform these steps.
 */
module ScreenModel {
  import opened Words

  const ROWS: nat := 25
  const COLUMNS: nat := 80
  const CELLS: nat := 2000
  const ATTRIBUTE: uint16 := 0x9000

  function Glyph(c: byte): uint16 { ATTRIBUTE + c }

  const BLANK: uint16 := 0x9020

  datatype Screen = Screen(cells: seq<uint16>, cx: nat, cy: nat)

  ghost predicate OnScreen(s: Screen) {
    |s.cells| == CELLS && s.cx < COLUMNS && s.cy < ROWS
  }

  datatype Event = Put(c: byte) | Up | Down | Left | Right

  function Blanks(n: nat): (s: seq<uint16>)
    ensures |s| == n && forall i :: 0 <= i < n ==> s[i] == BLANK
  {
    seq(n, _ => BLANK)
  }

  /** Every row one up, the last row cleared. */
  function Scrolled(cells: seq<uint16>): seq<uint16>
    requires |cells| == CELLS
  {
    cells[COLUMNS..] + Blanks(COLUMNS)
  }

  function ScrollIfNeeded(s: Screen): (r: Screen)
    requires |s.cells| == CELLS && s.cx < COLUMNS
    ensures OnScreen(r)
    decreases s.cy
  {
    if s.cy < ROWS then s else ScrollIfNeeded(Screen(Scrolled(s.cells), s.cx, s.cy - 1))
  }

  /** Where a tab leads: one past the next multiple of eight. */
  function TabStop(pos: nat): nat { (pos + 8) / 8 * 8 + 1 }

  /** What a character does before scrolling. */
  function Write(s: Screen, c: byte): Screen
    requires OnScreen(s)
  {
    var pos := s.cy * COLUMNS + s.cx;
    if c == 10 then s.(cx := 0, cy := s.cy + 1)
    else if c == 13 then s.(cx := 0)
    else if c == 8 then
      if s.cx == 0 && s.cy == 0 then s
      else if s.cx > 0 then s.(cells := s.cells[pos - 1 := BLANK], cx := s.cx - 1)
      else s.(cells := s.cells[pos - 1 := BLANK], cx := COLUMNS - 1, cy := s.cy - 1)
    else if c == 9 then s.(cx := TabStop(pos) % COLUMNS, cy := TabStop(pos) / COLUMNS)
    else if c == 127 then s.(cells := s.cells[pos := BLANK])
    else if s.cx < COLUMNS - 1 then s.(cells := s.cells[pos := Glyph(c)], cx := s.cx + 1)
    else s.(cells := s.cells[pos := Glyph(c)], cx := 0, cy := s.cy + 1)
  }

  function Step(s: Screen, e: Event): (r: Screen)
    requires OnScreen(s)
    ensures OnScreen(r)
  {
    match e
    case Put(c) => ScrollIfNeeded(Write(s, c))
    case Up => if s.cy > 0 then s.(cy := s.cy - 1) else s
    case Down => if s.cy < ROWS - 1 then s.(cy := s.cy + 1) else s
    case Left => if s.cx > 0 then s.(cx := s.cx - 1) else s
    case Right => if s.cx < COLUMNS - 1 then s.(cx := s.cx + 1) else s
  }

  function Run(s: Screen, events: seq<Event>): (r: Screen)
    requires OnScreen(s)
    ensures OnScreen(r)
    decreases |events|
  {
    if events == [] then s else Step(Run(s, events[..|events| - 1]), events[|events| - 1])
  }

  function Empty(): Screen { Screen(Blanks(CELLS), 0, 0) }

  // ----- The unbounded page

  /** A page with no last row, a cursor on it, and the top row of the part in view. */
  datatype Page = Page(cells: nat -> uint16, row: nat, col: nat, top: nat)

  function Overwrite(cells: nat -> uint16, k: nat, x: uint16): nat -> uint16 {
    i => if i == k then x else cells(i)
  }

  /** The view follows the cursor down, one row at a time, and never moves back. */
  function Follow(p: Page): Page {
    if p.row >= p.top + ROWS then p.(top := p.row + 1 - ROWS) else p
  }

  function PageWrite(p: Page, c: byte): Page {
    var pos := p.row * COLUMNS + p.col;
    if c == 10 then p.(row := p.row + 1, col := 0)
    else if c == 13 then p.(col := 0)
    else if c == 8 then
      if (p.row == p.top && p.col == 0) || pos == 0 then p
      else p.(cells := Overwrite(p.cells, pos - 1, BLANK), row := (pos - 1) / COLUMNS, col := (pos - 1) % COLUMNS)
    else if c == 9 then p.(row := TabStop(pos) / COLUMNS, col := TabStop(pos) % COLUMNS)
    else if c == 127 then p.(cells := Overwrite(p.cells, pos, BLANK))
    else p.(cells := Overwrite(p.cells, pos, Glyph(c)), row := (pos + 1) / COLUMNS, col := (pos + 1) % COLUMNS)
  }

  function PageStep(p: Page, e: Event): Page {
    match e
    case Put(c) => Follow(PageWrite(p, c))
    case Up => if p.row > p.top then p.(row := p.row - 1) else p
    case Down => if p.row < p.top + ROWS - 1 then p.(row := p.row + 1) else p
    case Left => if p.col > 0 then p.(col := p.col - 1) else p
    case Right => if p.col < COLUMNS - 1 then p.(col := p.col + 1) else p
  }

  function PageRun(p: Page, events: seq<Event>): Page
    decreases |events|
  {
    if events == [] then p else PageStep(PageRun(p, events[..|events| - 1]), events[|events| - 1])
  }

  function EmptyPage(): Page { Page(_ => BLANK, 0, 0, 0) }

  // ----- The screen is a window on the page

  /** Rows `top` to `top + 24` of the page are on the screen, and nothing is written below them. */
  ghost predicate Shows(s: Screen, p: Page) {
    && |s.cells| == CELLS
    && s.cx == p.col < COLUMNS
    && p.row == p.top + s.cy
    && (forall i :: 0 <= i < CELLS ==> s.cells[i] == p.cells(p.top * COLUMNS + i))
    && (forall i: nat :: i >= p.top * COLUMNS + CELLS ==> p.cells(i) == BLANK)
  }

  lemma WriteShows(s: Screen, p: Page, c: byte)
    requires OnScreen(s) && Shows(s, p)
    ensures Shows(Write(s, c), PageWrite(p, c))
    ensures PageWrite(p, c).top == p.top
  {
    if c == 9 {
      TabShows(s, p);
    } else if c == 8 {
      BackspaceShows(s, p);
    } else if c == 127 {
      PutCell(s, p, s.cy * COLUMNS + s.cx, BLANK);
    } else if c != 10 && c != 13 {
      GlyphShows(s, p, c);
    }
  }

  lemma TabShows(s: Screen, p: Page)
    requires OnScreen(s) && Shows(s, p)
    ensures Shows(Write(s, 9), PageWrite(p, 9))
  {
    var pos := s.cy * COLUMNS + s.cx;
    TabShift(p.top, pos);
    ShiftRows(p.top, TabStop(pos));
  }

  lemma BackspaceShows(s: Screen, p: Page)
    requires OnScreen(s) && Shows(s, p)
    ensures Shows(Write(s, 8), PageWrite(p, 8))
  {
    var pos := s.cy * COLUMNS + s.cx;
    if s.cx > 0 {
      PutCell(s, p, pos - 1, BLANK);
      RowCol(p.row, p.col - 1);
    } else if s.cy > 0 {
      PutCell(s, p, pos - 1, BLANK);
      RowCol(p.row - 1, COLUMNS - 1);
    }
  }

  lemma GlyphShows(s: Screen, p: Page, c: byte)
    requires OnScreen(s) && Shows(s, p)
    requires c != 8 && c != 9 && c != 10 && c != 13 && c != 127
    ensures Shows(Write(s, c), PageWrite(p, c))
  {
    PutCell(s, p, s.cy * COLUMNS + s.cx, Glyph(c));
    if s.cx < COLUMNS - 1 {
      RowCol(p.row, p.col + 1);
    } else {
      RowCol(p.row + 1, 0);
    }
  }

  lemma RowCol(row: nat, col: nat)
    requires col < COLUMNS
    ensures (row * COLUMNS + col) / COLUMNS == row && (row * COLUMNS + col) % COLUMNS == col
  {
  }

  /** Writing the same cell on both keeps the window. */
  lemma PutCell(s: Screen, p: Page, pos: nat, x: uint16)
    requires Shows(s, p) && pos < CELLS
    ensures Shows(s.(cells := s.cells[pos := x]), p.(cells := Overwrite(p.cells, p.top * COLUMNS + pos, x)))
  {
  }

  /** A row is a whole number of tab stops. */
  lemma TabShift(rows: nat, pos: nat)
    ensures TabStop(rows * COLUMNS + pos) == rows * COLUMNS + TabStop(pos)
  {
    assert rows * COLUMNS + pos + 8 == 8 * (rows * 10) + (pos + 8);
  }

  /** Rows above do not change where in a row a position lies. */
  lemma ShiftRows(rows: nat, pos: nat)
    ensures (rows * COLUMNS + pos) / COLUMNS == rows + pos / COLUMNS
    ensures (rows * COLUMNS + pos) % COLUMNS == pos % COLUMNS
  {
  }

  /** One scroll of the screen is one row of movement of the view. */
  lemma {:induction false} ScrollShows(s: Screen, p: Page)
    requires Shows(s, p)
    ensures Shows(ScrollIfNeeded(s), Follow(p))
    decreases s.cy
  {
    if s.cy >= ROWS {
      var s' := Screen(Scrolled(s.cells), s.cx, s.cy - 1);
      var p' := p.(top := p.top + 1);
      forall i | 0 <= i < CELLS ensures s'.cells[i] == p'.cells(p'.top * COLUMNS + i) {
        if i < CELLS - COLUMNS {
          assert s'.cells[i] == s.cells[i + COLUMNS];
        }
      }
      ScrollShows(s', p');
      assert Follow(p') == Follow(p);
    }
  }

  lemma StepShows(s: Screen, p: Page, e: Event)
    requires OnScreen(s) && Shows(s, p)
    ensures Shows(Step(s, e), PageStep(p, e))
  {
    if e.Put? {
      WriteShows(s, p, e.c);
      ScrollShows(Write(s, e.c), PageWrite(p, e.c));
    }
  }

  /**
    Whatever is typed and however the cursor is moved, the screen is the window
    from row `top` of the page on which the same things happen without scrolling.
   */
  lemma {:induction false} WindowOnPage(events: seq<Event>)
    ensures Shows(Run(Empty(), events), PageRun(EmptyPage(), events))
    decreases |events|
  {
    if events != [] {
      var init := events[..|events| - 1];
      WindowOnPage(init);
      StepShows(Run(Empty(), init), PageRun(EmptyPage(), init), events[|events| - 1]);
    }
  }

  /** How often an event scrolls the screen. */
  function ScrollsBy(s: Screen, e: Event): nat
    requires OnScreen(s)
  {
    if e.Put? && Write(s, e.c).cy >= ROWS then Write(s, e.c).cy - (ROWS - 1) else 0
  }

  function Scrolls(s: Screen, events: seq<Event>): nat
    requires OnScreen(s)
    decreases |events|
  {
    if events == [] then 0
    else
      var init := events[..|events| - 1];
      Scrolls(s, init) + ScrollsBy(Run(s, init), events[|events| - 1])
  }

  /** The top row in view is the number of scrolls so far. */
  lemma {:induction false} TopCountsScrolls(events: seq<Event>)
    ensures PageRun(EmptyPage(), events).top == Scrolls(Empty(), events)
    decreases |events|
  {
    if events != [] {
      var init, e := events[..|events| - 1], events[|events| - 1];
      TopCountsScrolls(init);
      WindowOnPage(init);
      if e.Put? {
        WriteShows(Run(Empty(), init), PageRun(EmptyPage(), init), e.c);
      }
    }
  }
}
