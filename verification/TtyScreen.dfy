/** The incremental redraw of the terminal (kernel/src/dev/dev_tty.c): characters change the cells and
    mark them, and a render draws the marked cells only. */
module TtyScreen {
  import opened Words

  const NEWLINE := 10
  const RETURN := 13
  const BACKSPACE := 8
  const CURSOR := 0xdb

  // ---------------------------------------------------------------- what the text area is

  /** Characters and cursor. */
  datatype Grid = Grid(cells: seq<nat>, cursor: nat)

  /** The texture character a full redraw would put at cell i. */
  function Picture(g: Grid, showCursor: bool, i: nat): nat
    requires i < |g.cells|
  {
    if i == g.cursor && showCursor then CURSOR else g.cells[i]
  }

  function LineStart(cursor: nat, columns: nat): (r: nat)
    requires columns > 0
    ensures r <= cursor < r + columns
  {
    cursor - cursor % columns
  }

  /** The text moves up by one line, and an empty line appears at the bottom. */
  function Scrolled(g: Grid, columns: nat): (r: Grid)
    requires columns <= |g.cells| && g.cursor == |g.cells|
    ensures |r.cells| == |g.cells|
  {
    Grid(g.cells[columns..] + seq(columns, _ => 0), |g.cells| - columns)
  }

  /** One character on the text area. */
  function Put(g: Grid, columns: nat, ch: nat): (r: Grid)
    requires 0 < columns <= |g.cells| && g.cursor < |g.cells| && |g.cells| % columns == 0
    ensures |r.cells| == |g.cells| && r.cursor < |r.cells|
  {
    var size := |g.cells|;
    var start := LineStart(g.cursor, columns);
    WholeLines(size, g.cursor, columns);
    if ch == RETURN then Grid(g.cells, start)
    else if ch == BACKSPACE then
      if g.cursor > 0 then Grid(g.cells[g.cursor - 1 := 0], g.cursor - 1) else g
    else if ch == NEWLINE then
      if start + columns == size then Scrolled(Grid(g.cells, size), columns) else Grid(g.cells, start + columns)
    else
      var written := Grid(g.cells[g.cursor := ch], g.cursor + 1);
      if written.cursor == size then Scrolled(written, columns) else written
  }

  function PutAll(g: Grid, columns: nat, text: seq<nat>): (r: Grid)
    requires 0 < columns <= |g.cells| && g.cursor < |g.cells| && |g.cells| % columns == 0
    ensures |r.cells| == |g.cells| && r.cursor < |r.cells|
  {
    if text == [] then g else Put(PutAll(g, columns, text[..|text| - 1]), columns, text[|text| - 1])
  }

  /** A line that starts inside a whole number of lines ends inside it. */
  lemma WholeLines(size: nat, cursor: nat, columns: nat)
    requires columns > 0 && cursor < size && size % columns == 0
    ensures LineStart(cursor, columns) + columns <= size
  {
    var q, n := cursor / columns, size / columns;
    assert cursor == columns * q + cursor % columns;
    assert size == columns * n;
    if q >= n { MulMono(n, q, columns); }
    MulMono(q + 1, n, columns);
    assert (q + 1) * columns == columns * q + columns;
  }

  // ---------------------------------------------------------------- what a character does to the cells

  predicate IsPlain(ch: nat) {
    ch != RETURN && ch != BACKSPACE && ch != NEWLINE
  }

  /** The cells are what they were, but for one that now holds ch. */
  ghost predicate OnlyCell(cells: seq<nat>, cells': seq<nat>, at: int, ch: nat) {
    && |cells'| == |cells| && 0 <= at < |cells| && cells'[at] == ch
    && forall i {:trigger cells'[i]} :: 0 <= i < |cells| && i != at ==> cells'[i] == cells[i]
  }

  /** Every line holds what the one below it held, and the last is empty. */
  ghost predicate LinesUp(cells: seq<nat>, cells': seq<nat>, columns: nat) {
    && |cells'| == |cells|
    && forall i {:trigger cells'[i]} :: 0 <= i < |cells| ==>
         cells'[i] == if i + columns < |cells| then cells[i + columns] else 0
  }

  /** The cursor is at the beginning of line y. */
  predicate AtLine(g: Grid, columns: nat, y: nat) {
    columns > 0 && g.cursor % columns == 0 && g.cursor / columns == y
  }

  /** From g to g' the character took effect: a plain one stands where the cursor was, which is one
      further; return goes to the beginning of the line, newline to that of the next one, and
      backspace empties the cell before the cursor and goes there. What would leave the last line
      moves all lines up by one instead, and the cursor to the beginning of the empty last one. */
  ghost predicate TakesEffect(g: Grid, g': Grid, columns: nat, ch: nat)
    requires 0 < columns <= |g.cells|
  {
    if ch == RETURN then g'.cells == g.cells && AtLine(g', columns, g.cursor / columns)
    else if ch == BACKSPACE then
      if g.cursor == 0 then g' == g else OnlyCell(g.cells, g'.cells, g.cursor - 1, 0) && g'.cursor + 1 == g.cursor
    else if ch == NEWLINE then
      if g.cursor / columns + 1 < |g.cells| / columns then
        g'.cells == g.cells && AtLine(g', columns, g.cursor / columns + 1)
      else LinesUp(g.cells, g'.cells, columns) && AtLine(g', columns, |g.cells| / columns - 1)
    else if g.cursor + 1 < |g.cells| then OnlyCell(g.cells, g'.cells, g.cursor, ch) && g'.cursor == g.cursor + 1
    else
      && AtLine(g', columns, |g.cells| / columns - 1)
      && exists cells {:trigger OnlyCell(g.cells, cells, g.cursor, ch)} ::
           OnlyCell(g.cells, cells, g.cursor, ch) && LinesUp(cells, g'.cells, columns)
  }

  lemma PutTakesEffect(g: Grid, columns: nat, ch: nat)
    requires 0 < columns <= |g.cells| && g.cursor < |g.cells| && |g.cells| % columns == 0
    ensures TakesEffect(g, Put(g, columns, ch), columns, ch)
  {
    var g', size, start := Put(g, columns, ch), |g.cells|, LineStart(g.cursor, columns);
    WholeLines(size, g.cursor, columns);
    LineNumbers(size, g.cursor, columns, start);
    if IsPlain(ch) && g.cursor + 1 == size { assert OnlyCell(g.cells, g.cells[g.cursor := ch], g.cursor, ch); }
  }

  /** The beginning of the line of the cursor, and those of the next and of the last one, by number. */
  lemma LineNumbers(size: nat, cursor: nat, columns: nat, start: nat)
    requires 0 < columns <= size && cursor < size && size % columns == 0 && start == LineStart(cursor, columns)
    ensures start % columns == 0 && start / columns == cursor / columns
    ensures (start + columns) % columns == 0 && (start + columns) / columns == cursor / columns + 1
    ensures (size - columns) % columns == 0 && (size - columns) / columns == size / columns - 1
    ensures start + columns == size <==> cursor / columns + 1 == size / columns
    ensures cursor / columns + 1 <= size / columns
  {
    var q, n := cursor / columns, size / columns;
    assert cursor == q * columns + cursor % columns;
    assert size == n * columns;
    assert (q + 1) * columns == q * columns + columns && (n - 1) * columns == n * columns - columns;
    DivModUnique(start, columns, q, 0);
    DivModUnique(start + columns, columns, q + 1, 0);
    if q + 1 > n { MulMono(n, q, columns); }
    DivModUnique(size - columns, columns, n - 1, 0);
    if q + 1 < n { MulMono(q + 2, n, columns); assert (q + 2) * columns == (q + 1) * columns + columns; }
  }

  // ---------------------------------------------------------------- the endless page

  function NextPos(pos: nat, columns: nat, ch: nat): nat
    requires columns > 0
  {
    if ch == RETURN then pos / columns * columns
    else if ch == NEWLINE then (pos / columns + 1) * columns
    else if ch == BACKSPACE then (if pos > 0 then pos - 1 else 0)
    else pos + 1
  }

  /** Where the next character goes on a page without end, after the text was written on it from the
      cursor of g on. */
  function PagePos(g: Grid, columns: nat, text: seq<nat>): nat
    requires columns > 0
  {
    if text == [] then g.cursor else NextPos(PagePos(g, columns, text[..|text| - 1]), columns, text[|text| - 1])
  }

  /** The a-th cell of that page. */
  function PageCell(g: Grid, columns: nat, text: seq<nat>, a: nat): nat
    requires columns > 0
  {
    if text == [] then (if a < |g.cells| then g.cells[a] else 0)
    else
      var before, ch := text[..|text| - 1], text[|text| - 1];
      NewCell(PagePos(g, columns, before), ch, a, PageCell(g, columns, before, a))
  }

  /** The a-th cell of the page, which held was, after a character at pos. */
  function NewCell(pos: nat, ch: nat, a: nat, was: nat): nat {
    if IsPlain(ch) && a == pos then ch else if ch == BACKSPACE && a + 1 == pos then 0 else was
  }

  /** How far down the page the text has gone. */
  function PageEnd(g: Grid, columns: nat, text: seq<nat>): (end: nat)
    requires columns > 0
    ensures end >= PagePos(g, columns, text)
  {
    if text == [] then g.cursor else Max(PageEnd(g, columns, text[..|text| - 1]), PagePos(g, columns, text))
  }

  /** No backspace comes while the cursor stands in the first cell of the screen, unless that is the first of
      the page: there it does nothing on the screen, but would go back on the page. */
  predicate BacksWithin(g: Grid, columns: nat, text: seq<nat>)
    requires 0 < columns <= |g.cells| && g.cursor < |g.cells| && |g.cells| % columns == 0
  {
    text == [] ||
    var before := text[..|text| - 1];
    && BacksWithin(g, columns, before)
    && (text[|text| - 1] == BACKSPACE ==> PutAll(g, columns, before).cursor > 0 || PagePos(g, columns, before) == 0)
  }

  /** The screen shows the page from cell top on, which begins a line, and not from further down than the
      text needed; what lies below is empty. */
  ghost predicate ShowsPage(g: Grid, g': Grid, columns: nat, text: seq<nat>, top: nat) {
    var holds :=
      && columns > 0 && top % columns == 0 && |g'.cells| == |g.cells| && g'.cursor < |g.cells|
      && g'.cursor + top == PagePos(g, columns, text) && PageEnd(g, columns, text) < |g.cells| + top
      && (top > 0 ==> PageEnd(g, columns, text) + columns >= |g.cells| + top)
      && (forall i: nat {:trigger g'.cells[i]} :: i < |g.cells| ==> g'.cells[i] == PageCell(g, columns, text, i + top))
      && (forall a: nat {:trigger PageCell(g, columns, text, a)} :: a >= |g.cells| + top ==>
            PageCell(g, columns, text, a) == 0);
    holds
  }

  /** A position counted from the beginning of a line above is in the same column, so many lines further. */
  lemma FromTop(cursor: nat, top: nat, columns: nat)
    requires columns > 0 && top % columns == 0
    ensures (cursor + top) / columns * columns == cursor / columns * columns + top
    ensures ((cursor + top) / columns + 1) * columns == (cursor / columns + 1) * columns + top
    ensures (top + columns) % columns == 0
  {
    var q, t := cursor / columns, top / columns;
    assert cursor == q * columns + cursor % columns && top == t * columns;
    assert (q + t) * columns == q * columns + t * columns;
    assert (q + t + 1) * columns == (q + t) * columns + columns && (q + 1) * columns == q * columns + columns;
    DivModUnique(cursor + top, columns, q + t, cursor % columns);
    assert (t + 1) * columns == t * columns + columns;
    DivModUnique(top + columns, columns, t + 1, 0);
  }

  /** One more character on the page, and on the screen. */
  lemma PageStep(g: Grid, columns: nat, text: seq<nat>, ch: nat)
    requires columns > 0
    ensures PagePos(g, columns, text + [ch]) == NextPos(PagePos(g, columns, text), columns, ch)
    ensures PageEnd(g, columns, text + [ch]) == Max(PageEnd(g, columns, text), PagePos(g, columns, text + [ch]))
    ensures forall a: nat {:trigger PageCell(g, columns, text + [ch], a)} ::
        PageCell(g, columns, text + [ch], a) == NewCell(PagePos(g, columns, text), ch, a, PageCell(g, columns, text, a))
  {
    assert (text + [ch])[..|text|] == text;
  }

  /** The screen need not move: the character is placed on it as on the page. */
  lemma PageStays(g: Grid, g1: Grid, g': Grid, columns: nat, text: seq<nat>, ch: nat, top: nat)
    requires ShowsPage(g, g1, columns, text, top)
    requires |g'.cells| == |g1.cells| && g'.cursor < |g'.cells|
    requires g'.cursor + top == NextPos(g1.cursor + top, columns, ch)
    requires if IsPlain(ch) then OnlyCell(g1.cells, g'.cells, g1.cursor, ch)
             else if ch == BACKSPACE && g1.cursor > 0 then OnlyCell(g1.cells, g'.cells, g1.cursor - 1, 0)
             else g'.cells == g1.cells && (ch == BACKSPACE ==> top == 0)
    ensures ShowsPage(g, g', columns, text + [ch], top)
  {
    PageStep(g, columns, text, ch);
    forall i: nat {:trigger g'.cells[i]} | i < |g.cells|
      ensures g'.cells[i] == PageCell(g, columns, text + [ch], i + top)
    {
      assert g1.cells[i] == PageCell(g, columns, text, i + top);
    }
  }

  /** The screen moves down by one line. */
  lemma PageMoves(g: Grid, g1: Grid, g': Grid, columns: nat, text: seq<nat>, ch: nat, top: nat, cells: seq<nat>)
    requires ShowsPage(g, g1, columns, text, top) && columns <= |g1.cells| && (top + columns) % columns == 0
    requires LinesUp(cells, g'.cells, columns) && g'.cursor + columns == |g1.cells|
    requires |g1.cells| + top == NextPos(g1.cursor + top, columns, ch) && ch != BACKSPACE
    requires if IsPlain(ch) then OnlyCell(g1.cells, cells, g1.cursor, ch) else cells == g1.cells
    ensures ShowsPage(g, g', columns, text + [ch], top + columns)
  {
    PageStep(g, columns, text, ch);
    forall i: nat {:trigger g'.cells[i]} | i < |g.cells|
      ensures g'.cells[i] == PageCell(g, columns, text + [ch], i + (top + columns))
    {
      if i + columns < |g.cells| {
        assert g1.cells[i + columns] == PageCell(g, columns, text, (i + columns) + top);
      } else {
        assert PageCell(g, columns, text, i + (top + columns)) == 0;
      }
    }
  }

  /** What the character does, with the beginnings of the cursor's line and of the next one as numbers. */
  lemma PutSteps(g: Grid, columns: nat, ch: nat, home: nat, next: nat)
    requires 0 < columns <= |g.cells| && g.cursor < |g.cells| && |g.cells| % columns == 0
    requires home == g.cursor / columns * columns && next == (g.cursor / columns + 1) * columns
    ensures home + columns == next <= |g.cells| && (g.cursor + columns >= |g.cells| ==> next == |g.cells|)
    ensures var g' := Put(g, columns, ch);
      if ch == RETURN then g'.cells == g.cells && g'.cursor == home
      else if ch == NEWLINE && next < |g.cells| then g'.cells == g.cells && g'.cursor == next
      else if ch == NEWLINE then LinesUp(g.cells, g'.cells, columns) && g'.cursor + columns == |g.cells|
      else IsPlain(ch) && g.cursor + 1 == |g.cells| ==> g'.cursor + columns == |g.cells|
  {
    var start := LineStart(g.cursor, columns);
    WholeLines(|g.cells|, g.cursor, columns);
    assert start == home by { assert g.cursor == g.cursor / columns * columns + g.cursor % columns; }
    assert next == home + columns;
    if g.cursor + columns >= |g.cells| { LastLine(|g.cells|, g.cursor, columns, next); }
  }

  lemma LastLine(size: nat, cursor: nat, columns: nat, next: nat)
    requires columns > 0 && cursor < size && size % columns == 0 && next == (cursor / columns + 1) * columns
    requires cursor + columns >= size
    ensures next == size
  {
    var q, n := cursor / columns, size / columns;
    assert cursor == q * columns + cursor % columns && size == n * columns;
    assert (q + 1) * columns == q * columns + columns;
    assert (q + 2) * columns == (q + 1) * columns + columns;
    if q + 1 < n { MulMono(q + 2, n, columns); }
    if q + 1 > n { MulMono(n, q, columns); }
  }

  lemma PageGrowsLine(g: Grid, g1: Grid, columns: nat, text: seq<nat>, ch: nat, top: nat, home: nat, next: nat)
      returns (top': nat)
    requires 0 < columns <= |g.cells| && |g.cells| % columns == 0 && (ch == RETURN || ch == NEWLINE)
    requires ShowsPage(g, g1, columns, text, top)
    requires home == g1.cursor / columns * columns && next == (g1.cursor / columns + 1) * columns
    ensures ShowsPage(g, Put(g1, columns, ch), columns, text + [ch], top')
  {
    var g' := Put(g1, columns, ch);
    PutSteps(g1, columns, ch, home, next);
    FromTop(g1.cursor, top, columns);
    if ch == NEWLINE && next == |g.cells| {
      top' := top + columns;
      PageMoves(g, g1, g', columns, text, ch, top, g1.cells);
    } else {
      top' := top;
      PageStays(g, g1, g', columns, text, ch, top);
    }
  }

  lemma PlainStep(g: Grid, columns: nat, ch: nat) returns (cells: seq<nat>)
    requires 0 < columns <= |g.cells| && g.cursor < |g.cells| && |g.cells| % columns == 0 && IsPlain(ch)
    ensures OnlyCell(g.cells, cells, g.cursor, ch)
    ensures var g' := Put(g, columns, ch);
      if g.cursor + 1 < |g.cells| then g' == Grid(cells, g.cursor + 1)
      else LinesUp(cells, g'.cells, columns) && g'.cursor + columns == |g.cells|
  {
    cells := g.cells[g.cursor := ch];
  }

  lemma PageGrowsPlain(g: Grid, g1: Grid, columns: nat, text: seq<nat>, ch: nat, top: nat) returns (top': nat)
    requires 0 < columns <= |g.cells| && |g.cells| % columns == 0 && IsPlain(ch)
    requires ShowsPage(g, g1, columns, text, top)
    ensures ShowsPage(g, Put(g1, columns, ch), columns, text + [ch], top')
  {
    var cells := PlainStep(g1, columns, ch);
    if g1.cursor + 1 == |g.cells| {
      top' := top + columns;
      FromTop(g1.cursor, top, columns);
      PageMoves(g, g1, Put(g1, columns, ch), columns, text, ch, top, cells);
    } else {
      top' := top;
      PageStays(g, g1, Put(g1, columns, ch), columns, text, ch, top);
    }
  }

  lemma PageGrows(g: Grid, g1: Grid, columns: nat, text: seq<nat>, ch: nat, top: nat) returns (top': nat)
    requires 0 < columns <= |g.cells| && |g.cells| % columns == 0
    requires ShowsPage(g, g1, columns, text, top)
    requires ch == BACKSPACE ==> g1.cursor > 0 || PagePos(g, columns, text) == 0
    ensures ShowsPage(g, Put(g1, columns, ch), columns, text + [ch], top')
  {
    if IsPlain(ch) {
      top' := PageGrowsPlain(g, g1, columns, text, ch, top);
    } else if ch == BACKSPACE {
      top' := top;
      PageStays(g, g1, Put(g1, columns, ch), columns, text, ch, top);
    } else {
      top' := PageGrowsLine(g, g1, columns, text, ch, top,
                            g1.cursor / columns * columns, (g1.cursor / columns + 1) * columns);
    }
  }

  /** Text of any length stands on the screen as on an endless page of which the screen shows the last lines:
      scrolling loses nothing but what goes out at the top. */
  lemma {:induction false} TextOnPage(g: Grid, columns: nat, text: seq<nat>) returns (top: nat)
    requires 0 < columns <= |g.cells| && g.cursor < |g.cells| && |g.cells| % columns == 0
    requires BacksWithin(g, columns, text)
    ensures ShowsPage(g, PutAll(g, columns, text), columns, text, top)
  {
    if text == [] {
      top := 0;
    } else {
      var before, ch := text[..|text| - 1], text[|text| - 1];
      top := TextOnPage(g, columns, before);
      assert text == before + [ch];
      top := PageGrows(g, PutAll(g, columns, before), columns, before, ch, top);
    }
  }

  lemma NotBefore(top: nat, columns: nat)
    requires columns > 1 && top > 0 && top % columns == 0
    ensures (top - 1) % columns != 0
  {
    var q := (top - 1) / columns;
    if (top - 1) % columns == 0 { DivModUnique(top, columns, q, 1); }
  }

  /** The one exception is one: a backspace in the first cell of a screen that has scrolled leaves the screen
      as it is, and no part of the page looks like it any more. */
  lemma BackspaceAtTop(g: Grid, g1: Grid, columns: nat, text: seq<nat>, top: nat, top': nat)
    requires 0 < columns <= |g.cells| && |g.cells| % columns == 0
    requires ShowsPage(g, g1, columns, text, top) && g1.cursor == 0 && top > 0
    ensures !ShowsPage(g, Put(g1, columns, BACKSPACE), columns, text + [BACKSPACE], top')
  {
    PageStep(g, columns, text, BACKSPACE);
    assert Put(g1, columns, BACKSPACE) == g1;
    if columns > 1 { NotBefore(top, columns); }
  }

  predicate Plain(text: seq<nat>) {
    forall k {:trigger text[k]} :: 0 <= k < |text| ==> IsPlain(text[k])
  }

  /** Plain text stands on the page in consecutive cells. */
  lemma {:induction false} PlainOnPage(g: Grid, columns: nat, text: seq<nat>, a: nat)
    requires columns > 0 && Plain(text)
    ensures PagePos(g, columns, text) == g.cursor + |text| == PageEnd(g, columns, text)
    ensures PageCell(g, columns, text, a) ==
              if g.cursor <= a < g.cursor + |text| then text[a - g.cursor] else if a < |g.cells| then g.cells[a] else 0
  {
    if text != [] {
      var before := text[..|text| - 1];
      assert forall k {:trigger before[k]} :: 0 <= k < |before| ==> before[k] == text[k];
      assert IsPlain(text[|text| - 1]);
      PlainOnPage(g, columns, before, a);
    }
  }

  /** The text stands in consecutive cells from the cursor on, nothing else has changed, and the cursor is
      behind it. */
  ghost predicate StandsFrom(g: Grid, g': Grid, text: seq<nat>) {
    && |g'.cells| == |g.cells| && g'.cursor == g.cursor + |text| < |g.cells|
    && g'.cells == g.cells[..g.cursor] + text + g.cells[g'.cursor..]
  }

  /** Plain text that fits behind the cursor makes nothing scroll. */
  lemma PlainTextFits(g: Grid, g': Grid, columns: nat, text: seq<nat>, top: nat)
    requires Plain(text) && g.cursor + |text| < |g.cells| && ShowsPage(g, g', columns, text, top)
    ensures top == 0 && StandsFrom(g, g', text)
  {
    PlainOnPage(g, columns, text, 0);
    if 0 < top < columns { DivModUnique(top, columns, 0, top); }
    var cells := g.cells[..g.cursor] + text + g.cells[g'.cursor..];
    forall i: nat | i < |g.cells| ensures g'.cells[i] == cells[i] { PlainOnPage(g, columns, text, i); }
  }

  lemma {:induction false} PlainWithin(g: Grid, columns: nat, text: seq<nat>)
    requires 0 < columns <= |g.cells| && g.cursor < |g.cells| && |g.cells| % columns == 0 && Plain(text)
    ensures BacksWithin(g, columns, text)
  {
    if text != [] {
      var before := text[..|text| - 1];
      assert forall k {:trigger before[k]} :: 0 <= k < |before| ==> before[k] == text[k];
      assert IsPlain(text[|text| - 1]);
      PlainWithin(g, columns, before);
    }
  }

  lemma PlainTextStands(g: Grid, columns: nat, text: seq<nat>)
    requires 0 < columns <= |g.cells| && |g.cells| % columns == 0 && Plain(text) && g.cursor + |text| < |g.cells|
    ensures StandsFrom(g, PutAll(g, columns, text), text)
  {
    PlainWithin(g, columns, text);
    var top := TextOnPage(g, columns, text);
    PlainTextFits(g, PutAll(g, columns, text), columns, text, top);
  }

  // ---------------------------------------------------------------- sprites on the display

  datatype Sprite = Sprite(x: nat, y: nat, texture: nat)

  /** What the display shows at each half cell; a sprite replaces what was there. */
  type Display = map<(nat, nat), nat>

  function Paint(shown: Display, sprites: seq<Sprite>): Display {
    if sprites == [] then shown
    else
      var s := sprites[|sprites| - 1];
      Paint(shown, sprites[..|sprites| - 1])[(s.x, s.y) := s.texture]
  }

  lemma PaintOne(shown: Display, sprites: seq<Sprite>, s: Sprite)
    ensures Paint(shown, sprites + [s]) == Paint(shown, sprites)[(s.x, s.y) := s.texture]
  {
    assert (sprites + [s])[..|sprites|] == sprites;
  }

  /** Cell i shows both halves of a character. */
  predicate Shows(shown: Display, columns: nat, i: nat, draw: nat) {
    columns > 0 &&
    Half(shown, i % columns, i / columns, 0, draw * 2 + 1) && Half(shown, i % columns, i / columns, 8, draw * 2 + 2)
  }

  predicate Half(shown: Display, x: nat, y: nat, low: nat, texture: nat) {
    (x * 8, y * 16 + low) in shown && shown[(x * 8, y * 16 + low)] == texture
  }

  /** Drawing one cell leaves every other cell alone. */
  lemma DrawCell(shown: Display, columns: nat, i: nat, draw: nat, shown': Display)
    requires columns > 0 && 0 <= i / columns
    requires var x, y := i % columns, i / columns;
             shown' == shown[(x * 8, y * 16) := draw * 2 + 1][(x * 8, y * 16 + 8) := draw * 2 + 2]
    ensures Shows(shown', columns, i, draw)
    ensures forall j: nat, d: nat {:trigger Shows(shown', columns, j, d)} :: j != i ==>
        (Shows(shown', columns, j, d) <==> Shows(shown, columns, j, d))
  {
    forall j: nat, d: nat {:trigger Shows(shown', columns, j, d)} | j != i
      ensures Shows(shown', columns, j, d) <==> Shows(shown, columns, j, d)
    {
      CellsApart(i, j, columns);
    }
  }

  lemma CellsApart(i: nat, j: nat, columns: nat)
    requires columns > 0 && i != j
    ensures i % columns != j % columns || i / columns != j / columns
  {
    assert i == columns * (i / columns) + i % columns;
    assert j == columns * (j / columns) + j % columns;
  }

  // ---------------------------------------------------------------- marking

  /** Every unmarked cell already shows what a full redraw would put there; the cell of the cursor
      may be excepted. */
  ghost predicate Clean(shown: Display, columns: nat, g: Grid, marks: seq<bool>, showCursor: bool, exceptCursor: bool) {
    && columns > 0
    && |marks| == |g.cells|
    && forall i: nat {:trigger marks[i]} :: i < |marks| && !marks[i] && !(exceptCursor && i == g.cursor) ==>
         Shows(shown, columns, i, Picture(g, showCursor, i))
  }

  /** The display shows what a full redraw would. */
  ghost predicate ShowsText(shown: Display, columns: nat, g: Grid, showCursor: bool) {
    columns > 0 &&
    forall i: nat {:trigger Shows(shown, columns, i, Picture(g, showCursor, i))} :: i < |g.cells| ==>
        Shows(shown, columns, i, Picture(g, showCursor, i))
  }

  /** The display shows the character in column x of line y. */
  predicate ReadAt(shown: Display, x: nat, y: nat, ch: nat) {
    && (8 * x, 16 * y) in shown && shown[(8 * x, 16 * y)] == 2 * ch + 1
    && (8 * x, 16 * y + 8) in shown && shown[(8 * x, 16 * y + 8)] == 2 * ch + 2
  }

  /** Cell i of the text area is read on the display as a cell of the endless page. */
  predicate ReadsCell(shown: Display, g: Grid, columns: nat, text: seq<nat>, top: nat, i: nat) {
    columns > 0 && ReadAt(shown, i % columns, i / columns, PageCell(g, columns, text, i + top))
  }

  /** Line for line the display reads like the endless page from cell top on, but for the cursor where it
      is shown. */
  ghost predicate ReadsPage(shown: Display, g: Grid, columns: nat, text: seq<nat>, top: nat, cursor: nat, shows: bool) {
    var holds :=
      && columns > 0
      && (forall i: nat {:trigger ReadsCell(shown, g, columns, text, top, i)} ::
            i < |g.cells| && !(shows && i == cursor) ==> ReadsCell(shown, g, columns, text, top, i))
      && (shows ==> ReadAt(shown, cursor % columns, cursor / columns, CURSOR));
    holds
  }

  lemma TextReads(shown: Display, columns: nat, g: Grid, g': Grid, showCursor: bool, text: seq<nat>, top: nat)
    requires ShowsText(shown, columns, g', showCursor) && ShowsPage(g, g', columns, text, top)
    ensures ReadsPage(shown, g, columns, text, top, g'.cursor, showCursor)
  {
    forall i: nat {:trigger ReadsCell(shown, g, columns, text, top, i)}
        | i < |g.cells| && !(showCursor && i == g'.cursor)
      ensures ReadsCell(shown, g, columns, text, top, i)
    {
      assert g'.cells[i] == PageCell(g, columns, text, i + top);
      assert Shows(shown, columns, i, Picture(g', showCursor, i));
    }
    assert Shows(shown, columns, g'.cursor, Picture(g', showCursor, g'.cursor));
  }

  /** The text area shows the endless page, and so does the display if it is up to date. */
  ghost predicate PageShown(shown: Display, g: Grid, g': Grid, columns: nat, text: seq<nat>, showCursor: bool,
          upToDate: bool)
  {
    exists top: nat :: ShowsPage(g, g', columns, text, top) &&
        (upToDate ==> ReadsPage(shown, g, columns, text, top, g'.cursor, showCursor))
  }

  lemma WrittenIsShown(shown: Display, g: Grid, g': Grid, columns: nat, text: seq<nat>, showCursor: bool,
          upToDate: bool)
    requires 0 < columns <= |g.cells| && g.cursor < |g.cells| && |g.cells| % columns == 0
    requires BacksWithin(g, columns, text)
    requires g' == PutAll(g, columns, text) && (upToDate ==> ShowsText(shown, columns, g', showCursor))
    ensures PageShown(shown, g, g', columns, text, showCursor, upToDate)
  {
    var top := TextOnPage(g, columns, text);
    if upToDate { TextReads(shown, columns, g, g', showCursor, text, top); }
  }

  predicate InLine(i: nat, at: nat, columns: nat) {
    columns > 0 && LineStart(at, columns) <= i < LineStart(at, columns) + columns
  }

  /** The cells tty_putc marks. */
  predicate Touched(g: Grid, columns: nat, ch: nat, i: nat)
    requires 0 < columns <= |g.cells| && g.cursor < |g.cells| && |g.cells| % columns == 0
  {
    var at := Put(g, columns, ch).cursor;
    if ch == RETURN then InLine(i, at, columns)
    else if ch == BACKSPACE then i == at || i == at + 1
    else if ch == NEWLINE then
      || LineStart(g.cursor, columns) + columns == |g.cells|
      || (at >= columns && InLine(i, at - columns, columns)) || InLine(i, at, columns)
    else g.cursor + 1 == |g.cells| || i + 1 == at || i == at
  }

  /** A cell that is not touched keeps its character and is left and entered by no cursor. */
  lemma UntouchedKeeps(g: Grid, columns: nat, ch: nat, i: nat)
    requires 0 < columns <= |g.cells| && g.cursor < |g.cells| && |g.cells| % columns == 0 && i < |g.cells|
    requires !Touched(g, columns, ch, i)
    ensures var g' := Put(g, columns, ch); g'.cells[i] == g.cells[i] && i != g.cursor && i != g'.cursor
  {
    var start := LineStart(g.cursor, columns);
    WholeLines(|g.cells|, g.cursor, columns);
    LineStartOfStart(start, columns, g.cursor);
  }

  lemma LineStartOfStart(start: nat, columns: nat, at: nat)
    requires columns > 0 && start == LineStart(at, columns)
    ensures LineStart(start, columns) == start && LineStart(start + columns, columns) == start + columns
  {
    var q := at / columns;
    assert at == columns * q + at % columns;
    DivModUnique(start, columns, q, 0);
    assert (q + 1) * columns == q * columns + columns;
    DivModUnique(start + columns, columns, q + 1, 0);
  }

  /** Incremental redraw: marking the touched cells is enough. */
  lemma PutKeepsClean(shown: Display, columns: nat, g: Grid, marks: seq<bool>, showCursor: bool, ch: nat,
          marks': seq<bool>)
    requires 0 < columns <= |g.cells| && g.cursor < |g.cells| && |g.cells| % columns == 0
    requires Clean(shown, columns, g, marks, showCursor, true) && |marks'| == |marks|
    requires forall i: nat {:trigger marks'[i]} :: i < |marks'| && !marks'[i] ==>
        !marks[i] && !Touched(g, columns, ch, i)
    ensures Clean(shown, columns, Put(g, columns, ch), marks', showCursor, false)
  {
    var g' := Put(g, columns, ch);
    forall i: nat {:trigger marks'[i]} | i < |marks'| && !marks'[i]
      ensures Shows(shown, columns, i, Picture(g', showCursor, i))
    {
      UntouchedKeeps(g, columns, ch, i);
      assert !marks[i];
    }
  }

  class Tty {
    const lines: nat
    const columns: nat
    const buf: array<nat>
    const dirty: array<bool>
    var cursor: nat
    var showCursor: bool
    var shown: Display

    /** The shape of a tty; inside an update the cursor may stand at the end. */
    ghost predicate Shape()
      reads this
    {
      && columns > 0 && lines > 0 && buf.Length == dirty.Length == Times(lines, columns) && buf.Length >= 2
      && columns <= buf.Length && buf.Length % columns == 0 && cursor <= buf.Length
    }

    ghost predicate Valid()
      reads this
    {
      Shape() && cursor < buf.Length
    }

    ghost function Text(): Grid
      reads this, buf
    {
      Grid(buf[..], cursor)
    }

    /** tty_mark, tty_mark_line and tty_mark_all. */
    method Mark(i: nat)
      requires Shape() && i < buf.Length
      modifies dirty
      ensures forall j: nat {:trigger dirty[j]} :: j < dirty.Length ==> dirty[j] == (old(dirty[j]) || j == i)
    {
      dirty[i] := true;
    }

    method MarkLine(at: nat)
      requires Shape() && at < buf.Length
      modifies dirty
      ensures forall j: nat {:trigger dirty[j]} :: j < dirty.Length ==>
          dirty[j] == (old(dirty[j]) || InLine(j, at, columns))
    {
      WholeLines(buf.Length, at, columns);
      var x := at % columns;
      for i := 0 to columns
        invariant forall j: nat {:trigger dirty[j]} :: j < dirty.Length ==>
            dirty[j] == (old(dirty[j]) || at - x <= j < at - x + i)
      {
        Mark(at - x + i);
      }
    }

    method MarkAll()
      requires Shape()
      modifies dirty
      ensures forall j: nat {:trigger dirty[j]} :: j < dirty.Length ==> dirty[j]
    {
      for i := 0 to buf.Length
        invariant forall j: nat {:trigger dirty[j]} :: j < i ==> dirty[j]
      {
        Mark(i);
      }
    }

    /** tty_upd_scrollup, with the cursor at the end. */
    method ScrollUp()
      requires Shape() && cursor == buf.Length
      modifies `cursor, buf, dirty
      ensures Valid() && Text() == Scrolled(old(Text()), columns)
      ensures LinesUp(old(buf[..]), buf[..], columns) && cursor + columns == old(cursor)
    {
      var move := buf.Length - columns;
      forall i | 0 <= i < move { buf[i] := buf[i + columns]; }
      forall i | 0 <= i < move { dirty[i] := dirty[i + columns]; }
      cursor := cursor - columns;
      for i := 0 to columns
        invariant cursor == move
        invariant forall j {:trigger buf[j]} :: 0 <= j < move ==> buf[j] == old(buf[..])[j + columns]
        invariant forall j {:trigger buf[j]} :: move <= j < move + i ==> buf[j] == 0
      {
        buf[cursor + i] := 0;
      }
      assert buf[..] == Scrolled(old(Text()), columns).cells;
    }

    /** Marks are kept, and what the character touches is marked. */
    ghost predicate Covers(marks: seq<bool>, g: Grid, ch: nat)
      requires 0 < columns <= |g.cells| && g.cursor < |g.cells| && |g.cells| % columns == 0
      reads dirty
    {
      && |marks| == dirty.Length
      && forall i: nat {:trigger dirty[i]} :: i < dirty.Length && !dirty[i] ==> !marks[i] && !Touched(g, columns, ch, i)
    }

    /** The four cases of tty_putc. */
    method PutReturn()
      requires Valid()
      modifies `cursor, buf, dirty
      ensures Valid() && Text() == Put(old(Text()), columns, RETURN)
      ensures Covers(old(dirty[..]), old(Text()), RETURN)
    {
      ghost var start := LineStart(cursor, columns);
      cursor := cursor - cursor % columns;
      assert cursor == start;
      MarkLine(cursor);
      assert Put(old(Text()), columns, RETURN) == Grid(old(buf[..]), start);
    }

    method PutBackspace()
      requires Valid()
      modifies `cursor, buf, dirty
      ensures Valid() && Text() == Put(old(Text()), columns, BACKSPACE)
      ensures Covers(old(dirty[..]), old(Text()), BACKSPACE)
    {
      if cursor > 0 {
        cursor := cursor - 1;
        buf[cursor] := 0;
      }
      Mark(cursor);
      Mark(cursor + 1);
    }

    method PutNewline()
      requires Valid()
      modifies `cursor, buf, dirty
      ensures Valid() && Text() == Put(old(Text()), columns, NEWLINE)
      ensures Covers(old(dirty[..]), old(Text()), NEWLINE)
    {
      WholeLines(buf.Length, cursor, columns);
      cursor := cursor - cursor % columns;
      cursor := cursor + columns;
      if cursor == buf.Length {
        ScrollUp();
        MarkAll();
      } else {
        MarkLine(cursor - columns);
        MarkLine(cursor);
      }
    }

    method PutPlain(ch: nat)
      requires ch != RETURN && ch != BACKSPACE && ch != NEWLINE
      requires Valid()
      modifies `cursor, buf, dirty
      ensures Valid() && Text() == Put(old(Text()), columns, ch)
      ensures Covers(old(dirty[..]), old(Text()), ch)
    {
      buf[cursor] := ch;
      cursor := cursor + 1;
      if cursor == buf.Length {
        ScrollUp();
        MarkAll();
      } else {
        Mark(cursor - 1);
        Mark(cursor);
      }
    }

    /** tty_putc: the character takes effect and changes nothing else, and marks that were sufficient
        stay so: one render afterwards makes the whole display right. The cell under the cursor is
        always marked, so it need not be right before. */
    method PutC(ch: nat)
      requires Valid()
      modifies `cursor, buf, dirty
      ensures Valid() && Text() == Put(old(Text()), columns, ch) && TakesEffect(old(Text()), Text(), columns, ch)
      ensures old(Clean(shown, columns, Text(), dirty[..], showCursor, true)) ==>
                Clean(shown, columns, Text(), dirty[..], showCursor, false)
    {
      ghost var g, marks := Text(), dirty[..];
      PutTakesEffect(g, columns, ch);
      if ch == RETURN {
        PutReturn();
      } else if ch == BACKSPACE {
        PutBackspace();
      } else if ch == NEWLINE {
        PutNewline();
      } else {
        PutPlain(ch);
      }
      if Clean(shown, columns, g, marks, showCursor, true) {
        PutKeepsClean(shown, columns, g, marks, showCursor, ch, dirty[..]);
      }
    }

    /** Blinking, by the terminal task: the cell of the cursor is marked. */
    method Blink(show: bool)
      requires Valid()
      modifies `showCursor, dirty
      ensures Valid() && Text() == old(Text()) && showCursor == show
      ensures old(Clean(shown, columns, Text(), dirty[..], showCursor, true)) ==>
                Clean(shown, columns, Text(), dirty[..], showCursor, false)
    {
      ghost var marks, was := dirty[..], showCursor;
      showCursor := show;
      Mark(cursor);
      if Clean(shown, columns, Text(), marks, was, true) {
        forall i: nat {:trigger dirty[..][i]} | i < dirty.Length && !dirty[..][i]
          ensures Shows(shown, columns, i, Picture(Text(), showCursor, i))
        {
          assert !marks[i];
        }
      }
    }

    /** Every cell before i is drawn, as far as it is marked. */
    ghost predicate DrawnTo(sprites: seq<Sprite>, i: nat)
      requires Valid()
      reads this, buf, dirty
    {
      Redrawn(shown, Paint(shown, sprites), columns, Text(), dirty[..], showCursor, i)
    }

    /** The two halves of cell i, in column x of line y, if it is marked. */
    method DrawCharacter(x: nat, y: nat, i: nat, before: seq<Sprite>) returns (sprites: seq<Sprite>)
      requires Valid() && x < columns && y < lines && i == Times(y, columns) + x && DrawnTo(before, i)
      ensures DrawnTo(sprites, i + 1)
    {
      RowFits(y, lines, columns);
      CellAt(y, columns, x);
      sprites := before;
      if dirty[i] {
        var draw := if i == cursor && showCursor then CURSOR else buf[i];
        var top, low := Sprite(x * 8, y * 16, draw * 2 + 1), Sprite(x * 8, y * 16 + 8, draw * 2 + 2);
        PaintOne(shown, sprites, top);
        PaintOne(shown, sprites + [top], low);
        sprites := sprites + [top] + [low];
        DrawCell(Paint(shown, before), columns, i, draw, Paint(shown, sprites));
      }
      RedrawnMore(shown, Paint(shown, before), Paint(shown, sprites), columns, Text(), dirty[..], showCursor, i);
    }

    /** The loops of tty_render: two sprites for every marked cell. */
    method DrawMarked() returns (sprites: seq<Sprite>)
      requires Valid()
      ensures DrawnTo(sprites, buf.Length)
    {
      sprites := [];
      var i, y := 0, 0;
      while y < lines
        invariant y <= lines && i == Times(y, columns) && DrawnTo(sprites, i)
      {
        var x := 0;
        RowFits(y, lines, columns);
        while x < columns
          invariant x <= columns && i == Times(y, columns) + x && DrawnTo(sprites, i)
        {
          sprites := DrawCharacter(x, y, i, sprites);
          x := x + 1;
          i := i + 1;
        }
        y := y + 1;
      }
    }

    /** tty_render: the marked cells show their picture afterwards and the others what they showed
        before. If the marks were sufficient, the display shows the whole text. */
    method Render()
      requires Valid()
      modifies `shown, dirty
      ensures Valid() && Text() == old(Text())
      ensures Redrawn(old(shown), shown, columns, Text(), old(dirty[..]), showCursor, buf.Length)
      ensures old(Clean(shown, columns, Text(), dirty[..], showCursor, false)) ==>
                ShowsText(shown, columns, Text(), showCursor)
      ensures forall i {:trigger dirty[i]} :: 0 <= i < dirty.Length ==> !dirty[i]
    {
      var sprites := DrawMarked();
      RedrawnShows(shown, Paint(shown, sprites), columns, Text(), dirty[..], showCursor);
      shown := Paint(shown, sprites);
      forall j | 0 <= j < dirty.Length { dirty[j] := false; }
    }

    /** tty_init up to the welcome text. The display has at least two cells, and shows anything. */
    constructor (width: nat, height: nat, display: Display)
      requires width >= 8 && height >= 16 && width / 8 * (height / 16) >= 2
      ensures Valid() && fresh(buf) && fresh(dirty) && cursor == 0 && columns == width / 8 && lines == height / 16
      ensures forall i {:trigger buf[i]} :: 0 <= i < buf.Length ==> buf[i] == 0
    {
      lines := height / 16;
      columns := width / 8;
      buf := new nat[Times(height / 16, width / 8)](_ => 0);
      dirty := new bool[Times(height / 16, width / 8)](_ => false);
      cursor, showCursor, shown := 0, true, display;
      RowFits(0, height / 16, width / 8);
      MulMod(height / 16, width / 8);
    }

    /** What the terminal task does first: whatever the display showed, everything is marked and
        drawn. */
    method Start()
      requires Valid()
      modifies `shown, dirty
      ensures Valid() && Text() == old(Text()) && ShowsText(shown, columns, Text(), showCursor)
      ensures forall i {:trigger dirty[i]} :: 0 <= i < dirty.Length ==> !dirty[i]
    {
      MarkAll();
      Render();
    }

    /** tty_write: the new text, and a render. Plain text that fits stands in consecutive cells from the
        old cursor on; any text stands as on an endless page, whose last lines show, unless it goes
        back from the first cell of the screen. If the marks were sufficient, that is what the display
        reads, and the whole display is what a full redraw of the new text would give. */
    method Write(text: seq<nat>)
      requires Valid()
      modifies `cursor, `shown, buf, dirty
      ensures Valid() && Text() == PutAll(old(Text()), columns, text)
      ensures old(Clean(shown, columns, Text(), dirty[..], showCursor, text != [])) ==>
                ShowsText(shown, columns, Text(), showCursor)
                && Clean(shown, columns, Text(), dirty[..], showCursor, false)
      ensures Plain(text) && old(cursor) + |text| < buf.Length ==> StandsFrom(old(Text()), Text(), text)
      ensures BacksWithin(old(Text()), columns, text) ==>
                PageShown(shown, old(Text()), Text(), columns, text, showCursor,
                    old(Clean(shown, columns, Text(), dirty[..], showCursor, text != [])))
      ensures forall i {:trigger dirty[i]} :: 0 <= i < dirty.Length ==> !dirty[i]
    {
      ghost var clean := Clean(shown, columns, Text(), dirty[..], showCursor, text != []);
      for i := 0 to |text|
        invariant Valid() && shown == old(shown)
        invariant clean ==> Clean(shown, columns, Text(), dirty[..], showCursor, i == 0 && text != [])
        invariant Text() == PutAll(old(Text()), columns, text[..i])
      {
        assert text[..i + 1][..i] == text[..i];
        PutC(text[i]);
      }
      assert text[..|text|] == text;
      Render();
      if clean { ShownIsClean(shown, columns, Text(), dirty[..], showCursor); }
      if Plain(text) && old(cursor) + |text| < buf.Length { PlainTextStands(old(Text()), columns, text); }
      if BacksWithin(old(Text()), columns, text) {
        WrittenIsShown(shown, old(Text()), Text(), columns, text, showCursor, clean);
      }
    }

    /** tty_init with its welcome text, and the start of the terminal task: whatever the display
        showed, it reads line for line like a page with the welcome text on it. */
    static method Boot(width: nat, height: nat, display: Display, welcome: seq<nat>) returns (tty: Tty)
      requires width >= 8 && height >= 16 && width / 8 * (height / 16) >= 2
      ensures tty.Valid() && fresh(tty)
      ensures tty.Text() == PutAll(Blank(tty.buf.Length), tty.columns, welcome)
      ensures ShowsText(tty.shown, tty.columns, tty.Text(), tty.showCursor)
      ensures BacksWithin(Blank(tty.buf.Length), tty.columns, welcome) ==>
                PageShown(tty.shown, Blank(tty.buf.Length), tty.Text(), tty.columns, welcome, tty.showCursor, true)
    {
      tty := new Tty(width, height, display);
      ghost var blank := Blank(tty.buf.Length);
      assert tty.Text() == blank;
      tty.Write(welcome);
      tty.Start();
      if BacksWithin(blank, tty.columns, welcome) {
        WrittenIsShown(tty.shown, blank, tty.Text(), tty.columns, welcome, tty.showCursor, true);
      }
    }
  }

  /** An empty text area. */
  function Blank(size: nat): Grid {
    Grid(seq(size, _ => 0), 0)
  }

  ghost predicate SameCell(was: Display, display: Display, columns: nat, j: nat) {
    columns > 0 &&
    forall d: nat {:trigger Shows(display, columns, j, d)} :: Shows(display, columns, j, d) <==>
        Shows(was, columns, j, d)
  }

  /** A marked cell before n shows its picture now, another what it did before. */
  ghost predicate CellRedrawn(was: Display, display: Display, columns: nat, g: Grid, marks: seq<bool>, showCursor: bool,
                              n: nat, j: nat)
  {
    columns > 0 && j < |g.cells| == |marks| &&
    if j < n && marks[j] then Shows(display, columns, j, Picture(g, showCursor, j))
    else SameCell(was, display, columns, j)
  }

  /** The cells before n have been redrawn where marked. */
  ghost predicate Redrawn(was: Display, display: Display, columns: nat, g: Grid, marks: seq<bool>, showCursor: bool,
          n: nat)
  {
    && columns > 0
    && |marks| == |g.cells|
    && forall j: nat {:trigger CellRedrawn(was, display, columns, g, marks, showCursor, n, j)} ::
         j < |g.cells| ==> CellRedrawn(was, display, columns, g, marks, showCursor, n, j)
  }

  lemma RedrawnMore(was: Display, display: Display, display': Display, columns: nat, g: Grid, marks: seq<bool>,
                    showCursor: bool, i: nat)
    requires columns > 0 && i < |g.cells| && Redrawn(was, display, columns, g, marks, showCursor, i)
    requires if marks[i] then Shows(display', columns, i, Picture(g, showCursor, i)) else display' == display
    requires forall j: nat, d: nat {:trigger Shows(display', columns, j, d)} :: j != i ==>
               (Shows(display', columns, j, d) <==> Shows(display, columns, j, d))
    ensures Redrawn(was, display', columns, g, marks, showCursor, i + 1)
  {
    forall j: nat {:trigger CellRedrawn(was, display', columns, g, marks, showCursor, i + 1, j)} | j < |g.cells|
      ensures CellRedrawn(was, display', columns, g, marks, showCursor, i + 1, j)
    {
      assert CellRedrawn(was, display, columns, g, marks, showCursor, i, j);
    }
  }

  /** When the unmarked cells showed their picture, now every cell does. */
  lemma RedrawnShows(was: Display, display: Display, columns: nat, g: Grid, marks: seq<bool>, showCursor: bool)
    requires columns > 0 && Redrawn(was, display, columns, g, marks, showCursor, |g.cells|)
    ensures Clean(was, columns, g, marks, showCursor, false) ==> ShowsText(display, columns, g, showCursor)
  {
    if Clean(was, columns, g, marks, showCursor, false) {
      forall j: nat {:trigger Shows(display, columns, j, Picture(g, showCursor, j))} | j < |g.cells|
        ensures Shows(display, columns, j, Picture(g, showCursor, j))
      {
        assert CellRedrawn(was, display, columns, g, marks, showCursor, |g.cells|, j);
      }
    }
  }

  lemma ShownIsClean(display: Display, columns: nat, g: Grid, marks: seq<bool>, showCursor: bool)
    requires columns > 0 && ShowsText(display, columns, g, showCursor) && |marks| == |g.cells|
    ensures Clean(display, columns, g, marks, showCursor, false)
  {
    forall i: nat {:trigger marks[i]} | i < |marks| ensures Shows(display, columns, i, Picture(g, showCursor, i)) {}
  }

  lemma RowFits(y: nat, lines: nat, columns: nat)
    requires y < lines
    ensures Times(y, columns) + columns == Times(y + 1, columns) <= Times(lines, columns)
  {
    assert (y + 1) * columns == y * columns + columns;
    MulMono(y + 1, lines, columns);
  }

  lemma CellAt(y: nat, columns: nat, x: nat)
    requires x < columns
    ensures (Times(y, columns) + x) / columns == y && (Times(y, columns) + x) % columns == x
  {
    DivModUnique(y * columns + x, columns, y, x);
  }
}
