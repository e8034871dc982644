/**
  What a reader sees: typed text stands in the cells it was typed at, a printed
  number reads off the screen as that number, and the control characters and
  cursor keys undo or repeat what was typed.
 */
module TextLaws {
  import opened Words
  import opened ScreenModel
  import opened Numerals
  import opened Console

  /** Every character that is not one of the five the console acts upon. */
  predicate Printable(c: byte) {
    c != 8 && c != 9 && c != 10 && c != 13 && c != 127
  }

  predicate Text(cs: seq<byte>) {
    forall i :: 0 <= i < |cs| ==> Printable(cs[i])
  }

  /** The cell shows character `c`: its code in the low byte, gray on cyan in the high one. */
  predicate ShowsChar(cell: uint16, c: byte) {
    cell % 0x100 == c && cell / 0x100 == 0x90
  }

  lemma BlankShowsSpace()
    ensures ShowsChar(BLANK, 32)
  {
  }

  function Pos(p: Page): nat { p.row * COLUMNS + p.col }

  /** The cursor is in the part of the page in view. */
  predicate InView(p: Page) {
    p.top <= p.row < p.top + ROWS && p.col < COLUMNS
  }

  // ----- Text

  function PagePrint(p: Page, cs: seq<byte>): Page { PageRun(p, Typed(cs)) }

  lemma PagePrintAppend(p: Page, cs: seq<byte>, c: byte)
    ensures PagePrint(p, cs + [c]) == PageStep(PagePrint(p, cs), Put(c))
  {
    var events := Typed(cs + [c]);
    assert events[..|events| - 1] == Typed(cs);
  }

  /** `q` is `p` with text `cs` from the cursor on, the cursor behind it. */
  ghost predicate Reads(p: Page, q: Page, cs: seq<byte>) {
    && InView(q) && q.top >= p.top && Pos(q) == Pos(p) + |cs|
    && (forall i :: 0 <= i < |cs| ==> ShowsChar(q.cells(Pos(p) + i), cs[i]))
    && (forall k: nat :: k < Pos(p) || Pos(p) + |cs| <= k ==> q.cells(k) == p.cells(k))
  }

  /** Typed text stands on the page where it was typed, row after row, and nothing else changes. */
  lemma {:induction false} TextOnPage(p: Page, cs: seq<byte>)
    requires InView(p) && Text(cs)
    ensures Reads(p, PagePrint(p, cs), cs)
    decreases |cs|
  {
    if cs != [] {
      var init, c := cs[..|cs| - 1], cs[|cs| - 1];
      TextOnPage(p, init);
      PagePrintAppend(p, init, c);
      assert cs == init + [c];
      OneMore(p, PagePrint(p, init), init, c);
    }
  }

  lemma OneMore(p: Page, q: Page, cs: seq<byte>, c: byte)
    requires Reads(p, q, cs) && Printable(c)
    ensures Reads(p, PageStep(q, Put(c)), cs + [c])
  {
    var r := PageStep(q, Put(c));
    CursorAfter(q, c);
    forall i | 0 <= i < |cs + [c]| ensures ShowsChar(r.cells(Pos(p) + i), (cs + [c])[i]) {
    }
  }

  lemma CursorAfter(q: Page, c: byte)
    requires InView(q) && Printable(c)
    ensures var r := PageStep(q, Put(c));
            && InView(r) && r.top >= q.top && Pos(r) == Pos(q) + 1
            && r.cells == Overwrite(q.cells, Pos(q), Glyph(c))
  {
    if q.col < COLUMNS - 1 {
      RowCol(q.row, q.col + 1);
    } else {
      RowCol(q.row + 1, 0);
    }
  }

  // ----- Text on the screen

  /** A page of which `s` is the window. */
  ghost function PageOf(s: Screen): Page
    requires OnScreen(s)
  {
    Page((i: nat) => if i < |s.cells| then s.cells[i] else BLANK, s.cy, s.cx, 0)
  }

  lemma {:induction false} RunShows(s: Screen, p: Page, events: seq<Event>)
    requires OnScreen(s) && Shows(s, p)
    ensures Shows(Run(s, events), PageRun(p, events))
    decreases |events|
  {
    if events != [] {
      var init := events[..|events| - 1];
      RunShows(s, p, init);
      StepShows(Run(s, init), PageRun(p, init), events[|events| - 1]);
    }
  }

  function Cursor(s: Screen): nat { s.cy * COLUMNS + s.cx }

  /**
    Text sent to the screen can be read from it, from where the cursor was, less
    the rows by which the screen scrolled `up` meanwhile.
   */
  ghost predicate ReadsOn(s: Screen, r: Screen, cs: seq<byte>, up: nat) {
    && OnScreen(r) && Cursor(r) + up * COLUMNS == Cursor(s) + |cs|
    && forall i :: 0 <= i < |cs| && Cursor(s) + i >= up * COLUMNS ==>
         && Cursor(s) + i - up * COLUMNS < CELLS
         && ShowsChar(r.cells[Cursor(s) + i - up * COLUMNS], cs[i])
  }

  lemma TextOnScreen(s: Screen, cs: seq<byte>) returns (up: nat)
    requires OnScreen(s) && Text(cs)
    ensures ReadsOn(s, Print(s, cs), cs, up)
  {
    var p := PageOf(s);
    var r, q := Print(s, cs), PagePrint(p, cs);
    RunShows(s, p, Typed(cs));
    TextOnPage(p, cs);
    up := q.top;
    forall i | 0 <= i < |cs| && Cursor(s) + i >= up * COLUMNS
      ensures Cursor(s) + i - up * COLUMNS < CELLS && ShowsChar(r.cells[Cursor(s) + i - up * COLUMNS], cs[i])
    {
      assert ShowsChar(q.cells(Pos(p) + i), cs[i]);
      assert r.cells[Cursor(s) + i - up * COLUMNS] == q.cells(up * COLUMNS + (Cursor(s) + i - up * COLUMNS));
    }
  }

  /** The characters in `n` cells from cell `at` on. */
  function CharsAt(cells: seq<uint16>, at: nat, n: nat): (cs: seq<byte>)
    requires at + n <= |cells|
    ensures |cs| == n && forall i :: 0 <= i < n ==> cs[i] == cells[at + i] % 0x100
  {
    seq(n, i requires 0 <= i < n => cells[at + i] % 0x100)
  }

  lemma {:induction false} NumeralIsText(a: nat, base: nat)
    requires 2 <= base <= 16
    ensures Text(Numeral(a, base))
    decreases a
  {
    if a >= base {
      DivSmaller(a, base);
      NumeralIsText(a / base, base);
    }
  }

  /** A number printed on the screen reads off it as that number, wherever the cursor was. */
  lemma NumberReadsBack(s: Screen, a: nat, base: nat) returns (up: nat)
    requires OnScreen(s) && 2 <= base <= 16
    ensures var cs, r := Numeral(a, base), Print(s, Numeral(a, base));
            && ReadsOn(s, r, cs, up)
            && (Cursor(s) >= up * COLUMNS ==>
                  && Cursor(s) - up * COLUMNS + |cs| <= CELLS
                  && Parse(CharsAt(r.cells, Cursor(s) - up * COLUMNS, |cs|), base) == Some(a))
  {
    var cs := Numeral(a, base);
    NumeralIsText(a, base);
    up := TextOnScreen(s, cs);
    if Cursor(s) >= up * COLUMNS {
      var r, at := Print(s, cs), Cursor(s) - up * COLUMNS;
      assert ShowsChar(r.cells[Cursor(s) + (|cs| - 1) - up * COLUMNS], cs[|cs| - 1]);
      var read := CharsAt(r.cells, at, |cs|);
      forall i | 0 <= i < |cs| ensures read[i] == cs[i] {
        assert ShowsChar(r.cells[Cursor(s) + i - up * COLUMNS], cs[i]);
      }
      assert read == cs;
      RoundTrip(a, base);
    }
  }

  // ----- Lines

  /** `cs` followed by a new line. */
  function Line(cs: seq<byte>): seq<byte> { cs + [10] }

  /** A line that fits stands in its row, and the cursor goes to the start of the next. */
  lemma LineOnPage(p: Page, cs: seq<byte>)
    requires InView(p) && p.col == 0 && Text(cs) && |cs| < COLUMNS
    ensures var q := PagePrint(p, Line(cs));
            && InView(q) && q.row == p.row + 1 && q.col == 0
            && (forall i :: 0 <= i < |cs| ==> ShowsChar(q.cells(p.row * COLUMNS + i), cs[i]))
            && (forall k: nat :: k < Pos(p) || Pos(p) + |cs| <= k ==> q.cells(k) == p.cells(k))
  {
    TextOnPage(p, cs);
    PagePrintAppend(p, cs, 10);
    SameRow(PagePrint(p, cs), p.row, |cs|);
  }

  lemma SameRow(q: Page, row: nat, col: nat)
    requires q.col < COLUMNS && col < COLUMNS && Pos(q) == row * COLUMNS + col
    ensures q.row == row && q.col == col
  {
  }

  // ----- Undoing and repeating

  /** The two pages look the same and have the cursor and the view in the same place. */
  ghost predicate Alike(p: Page, q: Page) {
    && q.row == p.row && q.col == p.col && q.top == p.top
    && forall k: nat :: q.cells(k) == p.cells(k)
  }

  /** Backspace takes back the character typed: a space is left in its cell. */
  lemma BackspaceErases(p: Page, c: byte)
    requires InView(p) && Printable(c)
    ensures var q := PageStep(PageStep(p, Put(c)), Put(8));
            && q.row == p.row && q.col == p.col && q.top >= p.top
            && ShowsChar(q.cells(Pos(p)), 32)
            && forall k: nat :: k != Pos(p) ==> q.cells(k) == p.cells(k)
  {
    CursorAfter(p, c);
    var r := PageStep(p, Put(c));
    if p.col < COLUMNS - 1 {
      SameRow(r, p.row, p.col + 1);
    } else {
      SameRow(r, p.row + 1, 0);
    }
    RowCol(p.row, p.col);
  }

  /** At the top left of the view it does nothing. */
  lemma BackspaceAtTop(p: Page)
    requires InView(p) && p.row == p.top && p.col == 0
    ensures Alike(p, PageStep(p, Put(8)))
  {
  }

  /** Carriage return goes back to the start of the row: what was typed there can be typed again over itself. */
  lemma ReturnRetypes(p: Page, cs: seq<byte>)
    requires InView(p) && p.col == 0 && Text(cs) && |cs| < COLUMNS
    ensures var q := PagePrint(p, cs); Alike(q, PagePrint(PageStep(q, Put(13)), cs))
  {
    var q := PagePrint(p, cs);
    TextOnPage(p, cs);
    SameRow(q, p.row, |cs|);
    var back := PageStep(q, Put(13));
    TextOnPage(back, cs);
    var r := PagePrint(back, cs);
    SameRow(r, p.row, |cs|);
    StaysInRow(back, cs);
    forall k: nat ensures r.cells(k) == q.cells(k) {
      if Pos(p) <= k < Pos(p) + |cs| {
        var i := k - Pos(p);
        assert ShowsChar(q.cells(Pos(p) + i), cs[i]) && ShowsChar(r.cells(Pos(back) + i), cs[i]);
        SameChar(q.cells(k), r.cells(k), cs[i]);
      }
    }
  }

  lemma SameChar(x: uint16, y: uint16, c: byte)
    requires ShowsChar(x, c) && ShowsChar(y, c)
    ensures x == y
  {
  }

  /** Typing within a row moves no view. */
  lemma {:induction false} StaysInRow(p: Page, cs: seq<byte>)
    requires InView(p) && Text(cs) && p.col + |cs| < COLUMNS
    ensures PagePrint(p, cs).top == p.top
    decreases |cs|
  {
    if cs != [] {
      var init, c := cs[..|cs| - 1], cs[|cs| - 1];
      StaysInRow(p, init);
      TextOnPage(p, init);
      SameRow(PagePrint(p, init), p.row, p.col + |init|);
      PagePrintAppend(p, init, c);
      assert cs == init + [c];
      RowCol(p.row, p.col + |cs|);
    }
  }

  /** Delete leaves a space in the cell under the cursor, which stays: going left and deleting is a backspace. */
  lemma LeftAndDelete(p: Page)
    requires InView(p) && p.col > 0
    ensures Alike(PageStep(p, Put(8)), PageStep(PageStep(p, Left), Put(127)))
  {
    RowCol(p.row, p.col - 1);
  }

  /** A tab writes nothing and stops one past the next multiple of eight. */
  lemma TabStops(p: Page)
    requires InView(p)
    ensures var q := PageStep(p, Put(9));
            && q.cells == p.cells && q.col < COLUMNS && q.top >= p.top
            && (Pos(q) - 1) % 8 == 0 && Pos(p) < Pos(q) - 1 <= Pos(p) + 8
  {
  }

  /** The right key moves on as typing what the cell shows would. */
  lemma RightRetypes(p: Page, c: byte)
    requires InView(p) && p.col < COLUMNS - 1 && Printable(c) && ShowsChar(p.cells(Pos(p)), c)
    ensures Alike(PageStep(p, Put(c)), PageStep(p, Right))
  {
    RowCol(p.row, p.col + 1);
  }

  /** The down key and a carriage return are a new line, above the last row in view. */
  lemma DownReturns(p: Page)
    requires InView(p) && p.row < p.top + ROWS - 1
    ensures Alike(PageStep(p, Put(10)), PageStep(PageStep(p, Down), Put(13)))
  {
  }

  /** Up and left take back down and right; at an edge a key does nothing. */
  lemma KeysUndo(p: Page)
    requires InView(p)
    ensures Alike(p, if p.row < p.top + ROWS - 1 then PageStep(PageStep(p, Down), Up) else PageStep(p, Down))
    ensures Alike(p, if p.col < COLUMNS - 1 then PageStep(PageStep(p, Right), Left) else PageStep(p, Right))
    ensures p.row == p.top ==> Alike(p, PageStep(p, Up))
    ensures p.col == 0 ==> Alike(p, PageStep(p, Left))
  {
  }
}
