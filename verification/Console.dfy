/** The text console: 25 rows of 80 cells in video memory, written in place. */
module Console {
  import opened Words
  import opened ScreenModel
  import opened Numerals

  /** Sending the characters of `cs` one after the other. */
  function Typed(cs: seq<byte>): (events: seq<Event>)
    ensures |events| == |cs| && forall i :: 0 <= i < |cs| ==> events[i] == Put(cs[i])
  {
    seq(|cs|, i requires 0 <= i < |cs| => Put(cs[i]))
  }

  function Print(s: Screen, cs: seq<byte>): (r: Screen)
    requires OnScreen(s)
    ensures OnScreen(r)
  {
    Run(s, Typed(cs))
  }

  lemma PrintAppend(s: Screen, cs: seq<byte>, c: byte)
    requires OnScreen(s)
    ensures Print(s, cs + [c]) == Step(Print(s, cs), Put(c))
  {
    var events := Typed(cs + [c]);
    assert events[..|events| - 1] == Typed(cs);
  }

  lemma {:induction false} PrintConcat(s: Screen, cs: seq<byte>, ds: seq<byte>)
    requires OnScreen(s)
    ensures Print(s, cs + ds) == Print(Print(s, cs), ds)
    decreases |ds|
  {
    if ds == [] {
      assert cs + ds == cs;
    } else {
      var init, c := ds[..|ds| - 1], ds[|ds| - 1];
      assert ds == init + [c] && cs + ds == (cs + init) + [c];
      PrintConcat(s, cs, init);
      PrintAppend(s, cs + init, c);
      PrintAppend(Print(s, cs), init, c);
    }
  }

  class Terminal {
    const video: array<uint16>
    var cx: int
    var cy: int

    ghost predicate Valid()
      reads this, video
    {
      video.Length == CELLS && 0 <= cx < COLUMNS && 0 <= cy < ROWS
    }

    ghost function View(): Screen
      requires 0 <= cx && 0 <= cy
      reads this, video
    {
      Screen(video[..], cx, cy)
    }

    /** init_video */
    constructor (video: array<uint16>)
      requires video.Length == CELLS
      modifies video
      ensures Valid() && this.video == video
      ensures View() == Empty()
    {
      this.video, cx, cy := video, 0, 0;
      new;
      for i := 0 to ROWS
        invariant forall k :: 0 <= k < i * COLUMNS ==> video[k] == BLANK
        modifies video
      {
        for j := 0 to COLUMNS
          invariant forall k :: 0 <= k < i * COLUMNS + j ==> video[k] == BLANK
          modifies video
        {
          video[i * COLUMNS + j] := BLANK;
        }
      }
      assert video[..] == Blanks(CELLS);
    }

    /** memcpy of one row */
    method CopyRow(dest: nat, src: nat)
      requires dest + COLUMNS <= src && src + COLUMNS <= video.Length
      modifies video
      ensures forall k :: 0 <= k < video.Length ==>
                video[k] == if dest <= k < dest + COLUMNS then old(video[k - dest + src]) else old(video[k])
    {
      for i := 0 to COLUMNS
        invariant forall k :: 0 <= k < video.Length ==>
                    video[k] == if dest <= k < dest + i then old(video[k - dest + src]) else old(video[k])
      {
        video[dest + i] := video[src + i];
      }
    }

    method ScrollOnce()
      requires video.Length == CELLS
      modifies video
      ensures video[..] == Scrolled(old(video[..]))
    {
      for i := 1 to ROWS
        invariant forall k :: 0 <= k < CELLS ==>
                    video[k] == if k < (i - 1) * COLUMNS then old(video[k + COLUMNS]) else old(video[k])
      {
        CopyRow((i - 1) * COLUMNS, i * COLUMNS);
      }
      ghost var copied := video[..];
      for i := 0 to COLUMNS
        invariant forall k :: 0 <= k < CELLS ==>
                    video[k] == if CELLS - COLUMNS <= k < CELLS - COLUMNS + i then BLANK else copied[k]
      {
        video[(ROWS - 1) * COLUMNS + i] := BLANK;
      }
      assert video[..] == Scrolled(old(video[..]));
    }

    method ScrollIfNeeded()
      requires video.Length == CELLS && 0 <= cx < COLUMNS && 0 <= cy
      modifies video, `cy
      ensures Valid()
      ensures View() == ScreenModel.ScrollIfNeeded(old(View()))
    {
      while cy >= ROWS
        invariant 0 <= cy
        invariant ScreenModel.ScrollIfNeeded(View()) == ScreenModel.ScrollIfNeeded(old(View()))
      {
        ScrollOnce();
        cy := cy - 1;
      }
    }

    method Putc(c: byte)
      requires Valid()
      modifies this, video
      ensures Valid()
      ensures View() == Step(old(View()), Put(c))
    {
      var ptr := cy * COLUMNS + cx;
      if c == 10 {
        cy := cy + 1;
        cx := 0;
      } else if c == 13 {
        cx := 0;
      } else if c == 8 {
        if cx <= 0 && cy <= 0 {
          return;
        }
        video[cy * COLUMNS + cx - 1] := BLANK;
        cx := cx - 1;
        if cx < 0 {
          cx := COLUMNS - 1;
          cy := cy - 1;
        }
      } else if c == 9 {
        var pos := NextTab(ptr);
        cy := pos / COLUMNS;
        cx := pos % COLUMNS;
      } else if c == 127 {
        video[ptr] := BLANK;
      } else {
        video[ptr] := Glyph(c);
        if cx < COLUMNS - 1 {
          cx := cx + 1;
        } else {
          cx := 0;
          cy := cy + 1;
        }
      }
      assert View() == Write(old(View()), c);
      ScrollIfNeeded();
    }

    /** The tab loop: the counter is advanced once more after the test that ends it. */
    method NextTab(from: nat) returns (pos: uint16)
      requires from < CELLS
      ensures pos == TabStop(from)
      ensures (pos - 1) % 8 == 0 && from < pos - 1 <= from + 8
    {
      pos := from;
      pos := pos + 1;
      var done := pos % 8 == 0;
      pos := pos + 1;
      while !done
        invariant from + 2 <= pos <= TabStop(from)
        invariant done <==> (pos - 1) % 8 == 0
        decreases TabStop(from) - pos
      {
        done := pos % 8 == 0;
        pos := pos + 1;
      }
    }

    method MoveCursorUp()
      requires Valid()
      modifies `cy
      ensures Valid() && View() == Step(old(View()), Up)
    {
      if cy > 0 { cy := cy - 1; }
    }

    method MoveCursorDown()
      requires Valid()
      modifies `cy
      ensures Valid() && View() == Step(old(View()), Down)
    {
      if cy < ROWS - 1 { cy := cy + 1; }
    }

    method MoveCursorRight()
      requires Valid()
      modifies `cx
      ensures Valid() && View() == Step(old(View()), Right)
    {
      if cx < COLUMNS - 1 { cx := cx + 1; }
    }

    method MoveCursorLeft()
      requires Valid()
      modifies `cx
      ensures Valid() && View() == Step(old(View()), Left)
    {
      if cx > 0 { cx := cx - 1; }
    }

    /** puts, the terminating zero left off */
    method Puts(cs: seq<byte>)
      requires Valid()
      modifies this, video
      ensures Valid() && View() == Print(old(View()), cs)
    {
      for i := 0 to |cs|
        invariant Valid() && View() == Print(old(View()), cs[..i])
      {
        PrintAppend(old(View()), cs[..i], cs[i]);
        assert cs[..i + 1] == cs[..i] + [cs[i]];
        Putc(cs[i]);
      }
      assert cs[..|cs|] == cs;
    }

    // ----- Numbers

    method Puti(a: uint32)
      requires Valid()
      modifies this, video
      ensures Valid() && View() == Print(old(View()), Numeral(a, 10))
    {
      var digits := Decimal(a);
      Puts(digits);
    }

    method Puth(a: uint32)
      requires Valid()
      modifies this, video
      ensures Valid() && View() == Print(old(View()), [48, 120] + Numeral(a, 16))
    {
      Puts([48, 120]);
      var digits := Hexadecimal(a);
      PrintConcat(old(View()), [48, 120], digits);
      Puts(digits);
    }
  }
}
