/** The text screen: 25 rows of 80 cells that scroll, seen as a window onto an endless roll of
    paper. */
module Console {
  const WIDTH := 80
  const HEIGHT := 25
  const SIZE := 2000

  /** A screen cell: character code in the low byte, colours in the high one. */
  type Cell = x: int | 0 <= x < 0x1_0000
  type Color = x: int | 0 <= x < 16

  const BLANK: Cell := 0x0F20     // a space, white on black

  // ----- the endless terminal

  /** All rows ever begun, one after the other, and the cursor. The last 25 rows are on screen. */
  datatype Roll = Roll(cells: seq<Cell>, rows: nat, x: nat, y: nat)

  predicate RollOk(r: Roll) {
    |r.cells| == WIDTH * r.rows && r.rows >= HEIGHT && r.x < WIDTH && r.rows - HEIGHT <= r.y < r.rows
  }

  function Blanks(n: nat): (s: seq<Cell>)
    ensures |s| == n
    ensures forall i :: 0 <= i < n ==> s[i] == BLANK
  {
    if n == 0 then [] else Blanks(n - 1) + [BLANK]
  }

  function Cleared(): Roll {
    Roll(Blanks(SIZE), HEIGHT, 0, 0)
  }

  /** Character and colours as they are stored. */
  function CellOf(c: char, back: Color, fore: Color): (e: Cell)
    requires Printable(c)
  {
    c as int + 0x100 * (back * 16 + fore)
  }

  /** `char` is signed: codes from 128 up count as negative and are not shown. */
  predicate Printable(c: char) {
    ' ' <= c && c as int < 128
  }

  /** To the beginning of the next row, which may be a new one. */
  function NextRow(r: Roll): Roll {
    if r.y + 1 < r.rows then r.(x := 0, y := r.y + 1)
    else Roll(r.cells + Blanks(WIDTH), r.rows + 1, 0, r.y + 1)
  }

  /** To column `x`; past the last one is the next row. */
  function ToColumn(r: Roll, x: nat): Roll {
    if x >= WIDTH then NextRow(r) else r.(x := x)
  }

  /** A cell printed at the cursor. */
  function Struck(r: Roll, e: Cell): (q: Roll)
    requires RollOk(r)
    ensures RollOk(q)
  {
    r.(cells := r.cells[WIDTH * r.y + r.x := e])
  }

  function Type(r: Roll, c: char, back: Color, fore: Color): Roll
    requires RollOk(r)
  {
    if c as int == 8 then r.(x := if r.x > 0 then r.x - 1 else 0)
    else if c as int == 9 then ToColumn(r, r.x / 8 * 8 + 8)
    else if c == '\r' then r.(x := 0)
    else if c == '\n' then NextRow(r)
    else if Printable(c) then ToColumn(Struck(r, CellOf(c, back, fore)), r.x + 1)
    else r
  }

  lemma TypeKeepsOk(r: Roll, c: char, back: Color, fore: Color)
    requires RollOk(r)
    ensures RollOk(Type(r, c, back, fore))
  {
  }

  function TypeAll(r: Roll, s: string, back: Color, fore: Color): (q: Roll)
    requires RollOk(r)
    ensures RollOk(q)
    decreases |s|
  {
    if s == "" then r
    else
      TypeKeepsOk(r, s[0], back, fore);
      TypeAll(Type(r, s[0], back, fore), s[1..], back, fore)
  }

  /** What the screen shows. */
  function Window(r: Roll): (w: seq<Cell>)
    requires RollOk(r)
    ensures |w| == SIZE
  {
    r.cells[|r.cells| - SIZE..]
  }

  function CursorRow(r: Roll): (y: nat)
    requires RollOk(r)
    ensures y < HEIGHT
  {
    r.y - (r.rows - HEIGHT)
  }

  /** A printed cell shows where the cursor is on screen. */
  lemma StruckShows(r: Roll, e: Cell)
    requires RollOk(r)
    ensures WIDTH * CursorRow(r) + r.x < SIZE
    ensures Window(Struck(r, e)) == Window(r)[WIDTH * CursorRow(r) + r.x := e]
  {
  }

  /** The next row is one further down on screen; below the last one, everything else moves up. */
  lemma NextRowShows(r: Roll)
    requires RollOk(r)
    ensures RollOk(NextRow(r))
    ensures CursorRow(r) + 1 < HEIGHT ==> Window(NextRow(r)) == Window(r) && CursorRow(NextRow(r)) == CursorRow(r) + 1
    ensures CursorRow(r) + 1 == HEIGHT ==>
      Window(NextRow(r)) == Window(r)[WIDTH..] + Blanks(WIDTH) && CursorRow(NextRow(r)) == CursorRow(r)
  {
  }

  // ----- the screen

  class Screen {
    const video: array<Cell>
    var x: nat                  // cursor_x
    var y: nat                  // cursor_y
    var location: nat           // what the cursor registers of the display hold
    ghost var roll: Roll

    ghost predicate Valid()
      reads this, video
    {
      && video.Length == SIZE && RollOk(roll)
      && video[..] == Window(roll) && x == roll.x && y == CursorRow(roll)
      && location == y * WIDTH + x
    }

    constructor ()
      ensures Valid() && roll == Cleared() && fresh(video)
    {
      video := new Cell[SIZE];
      new;
      Clear();
    }

    method MoveCursor()
      requires y * WIDTH + x < SIZE
      modifies `location
      ensures location == y * WIDTH + x
    {
      location := y * WIDTH + x;
    }

    /** `console_clear`. */
    method Clear()
      requires video.Length == SIZE
      modifies this, video
      ensures Valid() && roll == Cleared()
    {
      var i := 0;
      while i < SIZE
        invariant 0 <= i <= SIZE
        invariant forall k :: 0 <= k < i ==> video[k] == BLANK
      {
        video[i] := BLANK;
        i := i + 1;
      }
      x, y := 0, 0;
      MoveCursor();
      roll := Cleared();
      assert video[..] == Blanks(SIZE);
    }

    /** `scroll`: when the cursor has left the screen everything moves up by one row. */
    method Scroll()
      requires video.Length == SIZE && y <= HEIGHT
      modifies `y, video
      ensures y == if old(y) >= HEIGHT then HEIGHT - 1 else old(y)
      ensures video[..] == if old(y) >= HEIGHT then old(video[WIDTH..]) + Blanks(WIDTH) else old(video[..])
    {
      if y >= HEIGHT {
        var i := 0;
        while i < 24 * WIDTH
          invariant 0 <= i <= 24 * WIDTH
          invariant forall k :: 0 <= k < i ==> video[k] == old(video[k + WIDTH])
          invariant forall k :: i <= k < SIZE ==> video[k] == old(video[k])
        {
          video[i] := video[i + WIDTH];
          i := i + 1;
        }
        i := 24 * WIDTH;
        while i < SIZE
          invariant 24 * WIDTH <= i <= SIZE
          invariant forall k :: 0 <= k < 24 * WIDTH ==> video[k] == old(video[k + WIDTH])
          invariant forall k :: 24 * WIDTH <= k < i ==> video[k] == BLANK
        {
          video[i] := BLANK;
          i := i + 1;
        }
        y := 24;
        assert video[..] == old(video[WIDTH..]) + Blanks(WIDTH);
      }
    }

    /** The first half of `console_putc_color`: the cursor may be left just past the end of a row or
        of the screen. */
    method Strike(c: char, back: Color, fore: Color) returns (ghost struck: Roll, ghost next: bool)
      requires Valid()
      modifies `x, `y, video
      ensures RollOk(struck) && video[..] == Window(struck) && roll == old(roll)
      ensures Type(roll, c, back, fore) == if next then NextRow(struck) else struck
      ensures if next then x == 0 && y == CursorRow(struck) + 1 else x == struck.x && y == CursorRow(struck)
    {
      hide Window, CellOf, CursorRow;
      struck, next := roll, false;
      if c as int == 8 && x != 0 {
        x := x - 1;
        struck := roll.(x := x);
        SameCells(roll, struck);
      } else if c as int == 9 {
        x := (x + 8) / 8 * 8;
        struck := if x < WIDTH then roll.(x := x) else roll;
        SameCells(roll, struck);
      } else if c == '\r' {
        x := 0;
        struck := roll.(x := 0);
        SameCells(roll, struck);
      } else if c == '\n' {
        x := 0;
        y := y + 1;
        next := true;
      } else if Printable(c) {
        StruckShows(roll, CellOf(c, back, fore));
        video[y * WIDTH + x] := CellOf(c, back, fore);
        x := x + 1;
        struck := Struck(roll, CellOf(c, back, fore));
        SameRow(roll, struck);
        if x < WIDTH {
          SameCells(struck, struck.(x := x));
          struck := struck.(x := x);
        }
      }
      if x >= WIDTH {
        x := 0;
        y := y + 1;
        next := true;
      }
    }

    /** `console_putc_color`. */
    method PutcColor(c: char, back: Color, fore: Color)
      requires Valid()
      modifies this, video
      ensures Valid() && roll == Type(old(roll), c, back, fore)
    {
      hide Window, Type, NextRow, Struck, CursorRow;
      ghost var struck, next := Strike(c, back, fore);
      NextRowShows(struck);
      Scroll();
      roll := Type(roll, c, back, fore);
      NextRowStart(struck);
      MoveCursor();
    }
  }

  /** What a C string holds: everything up to the first NUL. */
  function BeforeNul(s: string): (t: string)
    ensures t <= s && '\0' !in t
    ensures '\0' in s ==> |t| < |s| && s[|t|] == '\0'
    ensures '\0' !in s ==> t == s
  {
    if s == "" || s[0] == '\0' then "" else [s[0]] + BeforeNul(s[1..])
  }

  /** `console_write_color`: everything up to the terminator. */
  method WriteColor(screen: Screen, cstr: array<char>, back: Color, fore: Color)
    requires screen.Valid() && '\0' in cstr[..]
    modifies screen, screen.video
    ensures screen.Valid() && screen.roll == TypeAll(old(screen.roll), BeforeNul(cstr[..]), back, fore)
  {
    hide Type, TypeAll;
    ghost var s, r0 := BeforeNul(cstr[..]), screen.roll;
    var i := 0;
    TypeNothing(r0, back, fore);
    assert s[..0] == "";
    while cstr[i] != '\0'
      invariant 0 <= i <= |s| && screen.Valid() && screen.roll == TypeAll(r0, s[..i], back, fore)
      decreases |s| - i
    {
      screen.PutcColor(cstr[i], back, fore);
      TypeOneMore(r0, s[..i], s[i], back, fore);
      assert s[..i + 1] == s[..i] + [s[i]];
      i := i + 1;
    }
    assert s[..i] == s;
  }

  lemma TypeNothing(r: Roll, back: Color, fore: Color)
    requires RollOk(r)
    ensures TypeAll(r, "", back, fore) == r
  {
  }

  lemma {:induction false} TypeOneMore(r: Roll, s: string, c: char, back: Color, fore: Color)
    requires RollOk(r)
    ensures TypeAll(r, s + [c], back, fore) == Type(TypeAll(r, s, back, fore), c, back, fore)
    decreases |s|
  {
    hide Type;
    TypeKeepsOk(r, (s + [c])[0], back, fore);
    if s == "" {
      TypeNothing(Type(r, c, back, fore), back, fore);
      assert (s + [c])[1..] == "";
    } else {
      assert (s + [c])[1..] == s[1..] + [c];
      TypeOneMore(Type(r, s[0], back, fore), s[1..], c, back, fore);
    }
  }

  // ----- what typing does to the roll

  /** The cell at position `a` of the roll, which goes on blank below the last row begun. */
  function CellAt(r: Roll, a: nat): Cell {
    if a < |r.cells| then r.cells[a] else 0x0F20
  }

  /** What one character does. The printable ones put their code and colours at the cursor and move
      it on by one cell; the five control characters only move it: newline to the start of the next
      row, carriage return to the start of its own, backspace one to the left unless it is there
      already, tab to the next multiple of 8, which from column 72 on is the next row. All others
      do nothing. */
  lemma TypedCharacter(r: Roll, c: char, back: Color, fore: Color)
    requires RollOk(r)
    ensures RollOk(Type(r, c, back, fore))
    ensures var q, code, p := Type(r, c, back, fore), c as int, 80 * r.y + r.x;
      && (code == 10 ==> q.x == 0 && q.y == r.y + 1)
      && (code == 13 ==> q.x == 0 && q.y == r.y)
      && (code == 8 ==> q.y == r.y && q.x == if r.x == 0 then 0 else r.x - 1)
      && (code == 9 && r.x < 72 ==> q.y == r.y && r.x < q.x <= r.x + 8 && q.x % 8 == 0)
      && (code == 9 && r.x >= 72 ==> q.x == 0 && q.y == r.y + 1)
      && (32 <= code < 128 ==> 80 * q.y + q.x == p + 1)
      && (code !in {8, 9, 10, 13} && !(32 <= code < 128) ==> q == r)
      && q.rows == (if q.y < r.rows then r.rows else q.y + 1)
      && (forall a: nat :: CellAt(q, a) ==
            if 32 <= code < 128 && a == p then code + 0x100 * (16 * back + fore) else CellAt(r, a))
  {
    TypeKeepsOk(r, c, back, fore);
  }

  /** A cleared screen is 25 blank rows with the cursor in the top left corner. */
  lemma ClearedIsBlank()
    ensures RollOk(Cleared()) && Cleared().rows == 25 && Cleared().x == Cleared().y == 0
    ensures forall a: nat :: CellAt(Cleared(), a) == 0x0F20
  {
  }

  /** The screen shows the last 25 rows of the roll. */
  lemma LastRowsShow(r: Roll, row: nat, column: nat)
    requires RollOk(r) && row < 25 && column < 80
    ensures |Window(r)| == 2000 && Window(r)[80 * row + column] == CellAt(r, 80 * (r.rows - 25 + row) + column)
    ensures r.y == r.rows - 25 + CursorRow(r)
  {
  }

  /** Characters that can be shown fill consecutive cells from the cursor on, row after row, and
      change no other cell. */
  lemma {:induction false} TextFillsCells(r: Roll, s: string, back: Color, fore: Color)
    requires RollOk(r) && forall c :: c in s ==> 32 <= c as int < 128
    ensures var q, p := TypeAll(r, s, back, fore), 80 * r.y + r.x;
      && 80 * q.y + q.x == p + |s|
      && (forall a: nat :: CellAt(q, a) ==
            if p <= a < p + |s| then s[a - p] as int + 0x100 * (16 * back + fore) else CellAt(r, a))
    decreases |s|
  {
    if s != "" {
      var m := Type(r, s[0], back, fore);
      assert s[0] in s && forall c :: c in s[1..] ==> c in s;
      TypedCharacter(r, s[0], back, fore);
      hide Type, CellAt;
      TextFillsCells(m, s[1..], back, fore);
    }
  }

  lemma {:induction false} TypeConcat(r: Roll, s: string, t: string, back: Color, fore: Color)
    requires RollOk(r)
    ensures TypeAll(r, s + t, back, fore) == TypeAll(TypeAll(r, s, back, fore), t, back, fore)
    decreases |t|
  {
    if t == "" {
      assert s + t == s;
    } else {
      var n := |t| - 1;
      TypeConcat(r, s, t[..n], back, fore);
      assert t == t[..n] + [t[n]] && s + t == (s + t[..n]) + [t[n]];
      hide TypeAll, Type;
      TypeOneMore(r, s + t[..n], t[n], back, fore);
      TypeOneMore(TypeAll(r, s, back, fore), t[..n], t[n], back, fore);
    }
  }

  function Joined(lines: seq<string>): string
    requires lines != []
  {
    if |lines| == 1 then lines[0] else lines[0] + "\n" + Joined(lines[1..])
  }

  /** Lines shorter than a row, joined by newlines, fill consecutive rows from their left ends, one
      row a line; the rest of these rows and all others stay as they were. */
  lemma {:induction false} LinesFillRows(r: Roll, lines: seq<string>, back: Color, fore: Color)
    requires RollOk(r) && r.x == 0 && lines != []
    requires forall k :: 0 <= k < |lines| ==> |lines[k]| < 80 && forall c :: c in lines[k] ==> 32 <= c as int < 128
    ensures var q := TypeAll(r, Joined(lines), back, fore);
      && q.y == r.y + |lines| - 1 && q.x == |lines[|lines| - 1]|
      && (forall a: nat :: CellAt(q, a) ==
            if r.y <= a / 80 < r.y + |lines| && a % 80 < |lines[a / 80 - r.y]|
            then lines[a / 80 - r.y][a % 80] as int + 0x100 * (16 * back + fore)
            else CellAt(r, a))
    decreases |lines|
  {
    if |lines| == 1 {
      OneLine(r, lines[0], back, fore);
    } else {
      var first, rest := lines[0], lines[1..];
      var m := TypeAll(r, first + "\n", back, fore);
      assert Joined(lines) == first + "\n" + Joined(rest);
      hide TypeAll, Type, CellAt, Joined;
      TypeConcat(r, first + "\n", Joined(rest), back, fore);
      LineAndNewline(r, first, back, fore);
      assert forall k :: 0 <= k < |rest| ==> rest[k] == lines[k + 1];
      LinesFillRows(m, rest, back, fore);
    }
  }

  lemma OneLine(r: Roll, s: string, back: Color, fore: Color)
    requires RollOk(r) && r.x == 0 && |s| < 80 && forall c :: c in s ==> 32 <= c as int < 128
    ensures var q := TypeAll(r, s, back, fore);
      && q.y == r.y && q.x == |s|
      && (forall a: nat :: CellAt(q, a) ==
            if a / 80 == r.y && a % 80 < |s| then s[a % 80] as int + 0x100 * (16 * back + fore) else CellAt(r, a))
  {
    hide TypeAll, Type, CellAt;
    TextFillsCells(r, s, back, fore);
  }

  lemma LineAndNewline(r: Roll, s: string, back: Color, fore: Color)
    requires RollOk(r) && r.x == 0 && |s| < 80 && forall c :: c in s ==> 32 <= c as int < 128
    ensures var q := TypeAll(r, s + "\n", back, fore);
      && q.y == r.y + 1 && q.x == 0
      && (forall a: nat :: CellAt(q, a) ==
            if a / 80 == r.y && a % 80 < |s| then s[a % 80] as int + 0x100 * (16 * back + fore) else CellAt(r, a))
  {
    hide TypeAll, Type, CellAt;
    OneLine(r, s, back, fore);
    TypeOneMore(r, s, '\n', back, fore);
    TypedCharacter(TypeAll(r, s, back, fore), '\n', back, fore);
  }

  /** Whatever is typed, the rows above the cursor stay as they are, on screen or off it, and the
      cursor never goes back up. */
  lemma {:induction false} RowsAboveStay(r: Roll, s: string, back: Color, fore: Color)
    requires RollOk(r)
    ensures var q := TypeAll(r, s, back, fore);
      && q.y >= r.y && q.rows >= r.rows
      && q.cells[..WIDTH * r.y] == r.cells[..WIDTH * r.y]
    decreases |s|
  {
    if s != "" {
      var m := Type(r, s[0], back, fore);
      TypeKeepsOk(r, s[0], back, fore);
      RowsStep(r, s[0], back, fore);
      hide Type;
      RowsAboveStay(m, s[1..], back, fore);
      var q := TypeAll(m, s[1..], back, fore);
      assert q.cells[..WIDTH * m.y][..WIDTH * r.y] == q.cells[..WIDTH * r.y];
      assert m.cells[..WIDTH * m.y][..WIDTH * r.y] == m.cells[..WIDTH * r.y];
    }
  }

  lemma RowsStep(r: Roll, c: char, back: Color, fore: Color)
    requires RollOk(r)
    ensures var q := Type(r, c, back, fore);
      && q.y >= r.y && q.rows >= r.rows && RollOk(q)
      && q.cells[..WIDTH * r.y] == r.cells[..WIDTH * r.y]
  {
    TypeKeepsOk(r, c, back, fore);
  }

  lemma NextRowStart(r: Roll)
    ensures NextRow(r).x == 0
  {
  }

  lemma SameCells(r: Roll, q: Roll)
    requires RollOk(r) && RollOk(q) && q.cells == r.cells && q.rows == r.rows && q.y == r.y
    ensures Window(q) == Window(r) && CursorRow(q) == CursorRow(r)
  {
  }

  lemma SameRow(r: Roll, q: Roll)
    requires RollOk(r) && RollOk(q) && q.rows == r.rows && q.y == r.y
    ensures CursorRow(q) == CursorRow(r)
  {
  }
}
