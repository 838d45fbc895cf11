/**
 * The VGA text screen of kernel/vga.c against an unbounded text tape: 80-column rows that are
 * never thrown away, of which the screen shows the last 25.
 */
module TextTape {
  import opened Words

  const WIDTH: nat := 80
  const CELLS: nat := 2000
  const LAST_ROW: nat := 1920

  /** A C `char`. */
  type Char = c: int | -128 <= c < 128

  const BACKSPACE: Char := 8
  const TAB: Char := 9
  const NEWLINE: Char := 10
  const SPACE: Char := 32

  /** `(uint16_t)c | (color << 8)`; a negative char fills the attribute byte with ones. */
  function Cell(c: Char, color: U8): U16 {
    if c >= 0 then c + 256 * color else 0x1_0000 + c
  }

  /** Low byte the character, high byte the colour; a negative char shows all attribute bits. */
  lemma CellBytes(c: Char, color: U8)
    ensures Cell(c, color) % 256 == (if c >= 0 then c else c + 256)
    ensures Cell(c, color) / 256 == (if c >= 0 then color else 0xFF)
  {
  }

  function BlankRow(color: U8): (r: seq<U16>)
    ensures |r| == 80 && forall i :: 0 <= i < 80 ==> r[i] == 32 + 256 * color
  {
    seq(WIDTH, i => Cell(SPACE, color))
  }

  // ---------------------------------------------------------------- the screen

  datatype Screen = Screen(cells: seq<U16>, cursor: nat)

  predicate OnScreen(s: Screen) {
    |s.cells| == CELLS && s.cursor < CELLS
  }

  /** `scroll`: rows move up one, the last becomes blank. */
  function Scrolled(cells: seq<U16>, color: U8): (r: seq<U16>)
    requires |cells| == CELLS
    ensures |r| == 2000
    ensures forall i :: 0 <= i < 1920 ==> r[i] == cells[i + 80]
    ensures forall i :: 1920 <= i < 2000 ==> r[i] == 32 + 256 * color
  {
    cells[WIDTH..] + BlankRow(color)
  }

  function ScreenPlain(s: Screen, c: Char, color: U8): (r: Screen)
    requires OnScreen(s)
    ensures OnScreen(r)
  {
    var cells := s.cells[s.cursor := Cell(c, color)];
    if s.cursor + 1 == CELLS then Screen(Scrolled(cells, color), LAST_ROW) else Screen(cells, s.cursor + 1)
  }

  /** `VGA_Putc`. */
  function ScreenPutc(s: Screen, c: Char, color: U8): (r: Screen)
    requires OnScreen(s)
    ensures OnScreen(r)
  {
    if c == NEWLINE then
      var row := s.cursor / WIDTH;
      if row >= 24 then Screen(Scrolled(s.cells, color), LAST_ROW) else Screen(s.cells, (row + 1) * WIDTH)
    else if c == TAB then
      ScreenPlain(ScreenPlain(ScreenPlain(ScreenPlain(s, SPACE, color), SPACE, color), SPACE, color), SPACE, color)
    else if c == BACKSPACE then
      if s.cursor > 0 then Screen(s.cells[s.cursor - 1 := Cell(SPACE, color)], s.cursor - 1) else s
    else ScreenPlain(s, c, color)
  }

  /**
   * What each character does, by its code: 10 goes to the start of the next row, 9 is four spaces,
   * 8 goes back and blanks the cell, and every other one is written and moves on. Leaving the last
   * row scrolls and ends at its start.
   */
  lemma PutcByCode(s: Screen, c: Char, color: U8)
    requires OnScreen(s)
    ensures var r, row := ScreenPutc(s, c, color), s.cursor / 80;
      && (c == 10 && row < 24 ==> r == Screen(s.cells, 80 * (row + 1)))
      && (c == 10 && row == 24 ==> r == Screen(Scrolled(s.cells, color), 1920))
      && (c == 9 ==> r == ScreenPrint(s, [32, 32, 32, 32], color))
      && (c == 9 && s.cursor < 1996 ==>
            var blank := 32 + 256 * color;
            && r.cursor == s.cursor + 4
            && forall i :: 0 <= i < 2000 ==> r.cells[i] == if s.cursor <= i < s.cursor + 4 then blank else s.cells[i])
      && (c == 8 && s.cursor > 0 ==> r == Screen(s.cells[s.cursor - 1 := 32 + 256 * color], s.cursor - 1))
      && (c == 8 && s.cursor == 0 ==> r == s)
      && (c !in {8, 9, 10} ==>
            var cells := s.cells[s.cursor := Cell(c, color)];
            r == if s.cursor == 1999 then Screen(Scrolled(cells, color), 1920) else Screen(cells, s.cursor + 1))
  {
    if c == 9 {
      FourSpaces(s, color);
    }
  }

  lemma FourSpaces(s: Screen, color: U8)
    requires OnScreen(s)
    ensures ScreenPutc(s, 9, color) == ScreenPrint(s, [32, 32, 32, 32], color)
  {
    PrintSnoc(s, [], 32, color);
    PrintSnoc(s, [32], 32, color);
    PrintSnoc(s, [32, 32], 32, color);
    PrintSnoc(s, [32, 32, 32], 32, color);
    assert [] + [32] == [32] && [32] + [32] == [32, 32] && [32, 32] + [32] == [32, 32, 32];
    assert [32, 32, 32] + [32] == [32, 32, 32, 32];
  }

  lemma PrintSnoc(s: Screen, text: seq<Char>, c: Char, color: U8)
    requires OnScreen(s)
    ensures ScreenPrint(s, text + [c], color) == ScreenPutc(ScreenPrint(s, text, color), c, color)
  {
    assert (text + [c])[..|text|] == text;
  }

  predicate Control(c: Char) {
    c == NEWLINE || c == TAB || c == BACKSPACE
  }

  function ScreenPrint(s: Screen, text: seq<Char>, color: U8): (r: Screen)
    requires OnScreen(s)
    ensures OnScreen(r)
  {
    if text == [] then s else ScreenPutc(ScreenPrint(s, text[..|text| - 1], color), text[|text| - 1], color)
  }

  // ---------------------------------------------------------------- the tape

  datatype Tape = Tape(cells: seq<U16>, pos: nat)

  function WindowBase(t: Tape): int {
    |t.cells| - CELLS
  }

  predicate OnTape(t: Tape) {
    |t.cells| >= CELLS && |t.cells| % WIDTH == 0 && WindowBase(t) <= t.pos < |t.cells|
  }

  /** The last 25 rows, and the cursor relative to them. */
  function Window(t: Tape): Screen
    requires OnTape(t)
  {
    Screen(t.cells[WindowBase(t)..], t.pos - WindowBase(t))
  }

  /** A cursor past the last row gets a fresh blank row. */
  function Extended(t: Tape, color: U8): Tape {
    if t.pos == |t.cells| then t.(cells := t.cells + BlankRow(color)) else t
  }

  function Type(t: Tape, c: Char, color: U8): (r: Tape)
    requires OnTape(t)
    ensures OnTape(r)
  {
    Extended(Tape(t.cells[t.pos := Cell(c, color)], t.pos + 1), color)
  }

  function TapePutc(t: Tape, c: Char, color: U8): (r: Tape)
    requires OnTape(t)
    ensures OnTape(r)
  {
    if c == NEWLINE then Extended(Tape(t.cells, (t.pos / WIDTH + 1) * WIDTH), color)
    else if c == TAB then Type(Type(Type(Type(t, SPACE, color), SPACE, color), SPACE, color), SPACE, color)
    else if c == BACKSPACE then
      if t.pos == WindowBase(t) then t else Tape(t.cells[t.pos - 1 := Cell(SPACE, color)], t.pos - 1)
    else Type(t, c, color)
  }

  function TapePrint(t: Tape, text: seq<Char>, color: U8): (r: Tape)
    requires OnTape(t)
    ensures OnTape(r)
  {
    if text == [] then t else TapePutc(TapePrint(t, text[..|text| - 1], color), text[|text| - 1], color)
  }

  // ---------------------------------------------------------------- the screen shows the tape

  lemma TypeRefines(t: Tape, c: Char, color: U8)
    requires OnTape(t)
    ensures Window(Type(t, c, color)) == ScreenPlain(Window(t), c, color)
  {
    var t1 := Tape(t.cells[t.pos := Cell(c, color)], t.pos + 1);
    var s := Window(t);
    assert t1.cells[WindowBase(t)..] == s.cells[s.cursor := Cell(c, color)];
    ExtendedRefines(t1, color);
  }

  /** Adding a row to the tape is scrolling the screen. */
  lemma ExtendedRefines(t: Tape, color: U8)
    requires |t.cells| >= CELLS && |t.cells| % WIDTH == 0 && WindowBase(t) <= t.pos <= |t.cells|
    ensures var cells := t.cells[WindowBase(t)..];
      Window(Extended(t, color)) ==
        if t.pos == |t.cells| then Screen(Scrolled(cells, color), LAST_ROW) else Screen(cells, t.pos - WindowBase(t))
  {
    if t.pos == |t.cells| {
      var t' := Extended(t, color);
      assert t'.cells[WindowBase(t')..] == t.cells[WindowBase(t)..][WIDTH..] + BlankRow(color);
    }
  }

  lemma RowAlignment(base: nat, cursor: nat)
    requires base % WIDTH == 0
    ensures (base + cursor) / WIDTH == base / WIDTH + cursor / WIDTH && base / WIDTH * WIDTH == base
  {
  }

  lemma PutcRefines(t: Tape, c: Char, color: U8)
    requires OnTape(t)
    ensures Window(TapePutc(t, c, color)) == ScreenPutc(Window(t), c, color)
  {
    var s := Window(t);
    var base := WindowBase(t);
    if c == NEWLINE {
      RowAlignment(base, s.cursor);
      ExtendedRefines(Tape(t.cells, (t.pos / WIDTH + 1) * WIDTH), color);
    } else if c == TAB {
      var t1 := Type(t, SPACE, color);
      var t2 := Type(t1, SPACE, color);
      TypeRefines(t, SPACE, color);
      TypeRefines(t1, SPACE, color);
      TypeRefines(t2, SPACE, color);
      TypeRefines(Type(t2, SPACE, color), SPACE, color);
    } else if c == BACKSPACE {
      if s.cursor > 0 {
        assert t.cells[t.pos - 1 := Cell(SPACE, color)][base..] == s.cells[s.cursor - 1 := Cell(SPACE, color)];
      }
    } else {
      TypeRefines(t, c, color);
    }
  }

  /**
   * For every text, control characters included, the screen after printing is the last 25 rows of
   * the tape after printing. Any screen is itself a tape, so this starts from any screen at all.
   */
  lemma {:induction false} PrintRefines(t: Tape, text: seq<Char>, color: U8)
    requires OnTape(t)
    ensures Window(TapePrint(t, text, color)) == ScreenPrint(Window(t), text, color)
  {
    if text != [] {
      PrintRefines(t, text[..|text| - 1], color);
      PutcRefines(TapePrint(t, text[..|text| - 1], color), text[|text| - 1], color);
    }
  }

  lemma AnyScreenIsATape(s: Screen)
    requires OnScreen(s)
    ensures OnTape(Tape(s.cells, s.cursor)) && Window(Tape(s.cells, s.cursor)) == s
  {
    assert s.cells[0..] == s.cells;
  }

  // ---------------------------------------------------------------- what the tape keeps

  /** `t'` grew out of `t` without touching any cell before index `n`. */
  ghost predicate Keeps(t: Tape, t': Tape, n: int) {
    0 <= n <= |t.cells| <= |t'.cells| && t'.cells[..n] == t.cells[..n]
  }

  lemma TypeKeeps(t: Tape, c: Char, color: U8, n: int)
    requires OnTape(t) && 0 <= n <= t.pos
    ensures Keeps(t, Type(t, c, color), n)
  {
  }

  lemma PutcKeeps(t: Tape, c: Char, color: U8)
    requires OnTape(t)
    ensures Keeps(t, TapePutc(t, c, color), WindowBase(t))
  {
    var n := WindowBase(t);
    if c == TAB {
      var t1 := Type(t, SPACE, color);
      var t2 := Type(t1, SPACE, color);
      TypeKeeps(t, SPACE, color, n);
      TypeKeeps(t1, SPACE, color, n);
      TypeKeeps(t2, SPACE, color, n);
      TypeKeeps(Type(t2, SPACE, color), SPACE, color, n);
    } else if !Control(c) {
      TypeKeeps(t, c, color, n);
    }
  }

  /** Rows that have scrolled off are never touched again. */
  lemma {:induction false} HistoryKept(t: Tape, text: seq<Char>, color: U8)
    requires OnTape(t)
    ensures Keeps(t, TapePrint(t, text, color), WindowBase(t))
  {
    if text != [] {
      var u := TapePrint(t, text[..|text| - 1], color);
      HistoryKept(t, text[..|text| - 1], color);
      PutcKeeps(u, text[|text| - 1], color);
      KeepsOn(t, u, TapePrint(t, text, color), WindowBase(t), WindowBase(u));
    }
  }

  lemma KeepsOn(a: Tape, b: Tape, c: Tape, n: int, m: int)
    requires Keeps(a, b, n) && Keeps(b, c, m) && n <= m
    ensures Keeps(a, c, n)
  {
    assert c.cells[..n] == c.cells[..m][..n];
    assert b.cells[..n] == b.cells[..m][..n];
  }

  /** `t'` is `t` with `text` typed at its cursor and nothing else different but added blanks. */
  ghost predicate Typed(t: Tape, t': Tape, text: seq<Char>, color: U8) {
    && t'.pos == t.pos + |text| && |t.cells| <= |t'.cells| && t'.pos < |t'.cells|
    && forall i :: 0 <= i < |t'.cells| ==>
         t'.cells[i] == if t.pos <= i < t'.pos then Cell(text[i - t.pos], color)
                        else if i < |t.cells| then t.cells[i] else Cell(SPACE, color)
  }

  /** Text without control characters can be read back from the tape, in order, from where it was typed. */
  lemma {:induction false} PlainTextReadsBack(t: Tape, text: seq<Char>, color: U8)
    requires OnTape(t) && forall i :: 0 <= i < |text| ==> !Control(text[i])
    ensures Typed(t, TapePrint(t, text, color), text, color)
  {
    if text != [] {
      PlainTextReadsBack(t, text[..|text| - 1], color);
    }
  }

  // ---------------------------------------------------------------- rmline

  function Spaces(n: nat): (r: seq<Char>)
    ensures |r| == n && forall i :: 0 <= i < n ==> r[i] == SPACE
  {
    seq(n, i => SPACE)
  }

  /** The screen with one row blanked. */
  function RowBlanked(cells: seq<U16>, row: nat, color: U8): (r: seq<U16>)
    requires |cells| == CELLS && row < 25
    ensures |r| == 2000
    ensures forall i :: 0 <= i < 2000 ==> r[i] == if 80 * row <= i < 80 * (row + 1) then 32 + 256 * color else cells[i]
  {
    cells[..row * WIDTH] + BlankRow(color) + cells[(row + 1) * WIDTH..]
  }

  /** `rmline`: 80 spaces from the start of the cursor's row, then back to that row. */
  function Rmline(s: Screen, color: U8): (r: Screen)
    requires OnScreen(s)
    ensures OnScreen(r)
  {
    var row := s.cursor / WIDTH;
    ScreenPrint(Screen(s.cells, row * WIDTH), Spaces(WIDTH), color).(cursor := row * WIDTH)
  }

  /** It blanks exactly the cursor's row; on the last row the wrap at its end then scrolls once. */
  lemma RmlineEffect(s: Screen, color: U8)
    requires OnScreen(s)
    ensures var row := s.cursor / WIDTH;
      var blanked := RowBlanked(s.cells, row, color);
      Rmline(s, color) == Screen(if row < 24 then blanked else Scrolled(blanked, color), row * WIDTH)
  {
    var row := s.cursor / WIDTH;
    var t := Tape(s.cells, row * WIDTH);
    AnyScreenIsATape(Screen(s.cells, row * WIDTH));
    PrintRefines(t, Spaces(WIDTH), color);
    RowTyped(t, row, color);
    if row == 24 {
      assert (RowBlanked(s.cells, row, color) + BlankRow(color))[WIDTH..]
        == RowBlanked(s.cells, row, color)[WIDTH..] + BlankRow(color);
    }
  }

  /** A row of spaces typed from the start of a row blanks it, and past the last row adds one. */
  lemma RowTyped(t: Tape, row: nat, color: U8)
    requires |t.cells| == CELLS && row < 25 && t.pos == row * WIDTH
    ensures OnTape(t)
    ensures TapePrint(t, Spaces(WIDTH), color).cells ==
      RowBlanked(t.cells, row, color) + (if row < 24 then [] else BlankRow(color))
  {
    PlainTextReadsBack(t, Spaces(WIDTH), color);
    PrintGrows(t, Spaces(WIDTH), color);
  }

  /** Plain text makes the tape just long enough to hold its cursor. */
  lemma {:induction false} PrintGrows(t: Tape, text: seq<Char>, color: U8)
    requires OnTape(t) && forall i :: 0 <= i < |text| ==> !Control(text[i])
    ensures var n := |TapePrint(t, text, color).cells|;
      n == |t.cells| || (n > |t.cells| && n - WIDTH <= t.pos + |text|)
    ensures |text| > 0 && t.pos + |text| >= |t.cells| ==> |TapePrint(t, text, color).cells| > |t.cells|
  {
    if text != [] {
      PrintGrows(t, text[..|text| - 1], color);
      PlainTextReadsBack(t, text[..|text| - 1], color);
    }
  }
}
