/** kernel/vga.c in its own form: the 80x25 cell buffer and the cursor register changed in place. */
module VgaTerminal {
  import opened Words
  import opened TextTape
  import opened Numerals

  class Terminal {
    const cells: array<U16>
    var cursor: nat     // the two cursor registers as one position
    var color: U8

    ghost function View(): Screen
      reads this, cells
    {
      Screen(cells[..], cursor)
    }

    ghost predicate Valid()
      reads this, cells
    {
      OnScreen(View())
    }

    /** `VGA_Clear`, the initial colour, and the cursor at the origin, as `Init_VGA` leaves them. */
    constructor ()
      ensures Valid() && fresh(cells) && cursor == 0 && color == 0x0A
      ensures forall i :: 0 <= i < 2000 ==> cells[i] == 0x0F20
    {
      cells := new U16[CELLS](i => Cell(SPACE, 0x0F));
      cursor, color := 0, 0x0A;
    }

    /** The inner copy loop of `scroll`: row `y` onto row `y - 1`. */
    method CopyRowUp(y: nat)
      requires cells.Length == CELLS && 1 <= y < 25
      modifies cells
      ensures forall i :: 0 <= i < CELLS ==>
        cells[i] == if (y - 1) * WIDTH <= i < y * WIDTH then old(cells[i + WIDTH]) else old(cells[i])
    {
      for x := 0 to WIDTH
        invariant forall i :: 0 <= i < CELLS ==>
          cells[i] == if (y - 1) * WIDTH <= i < (y - 1) * WIDTH + x then old(cells[i + WIDTH]) else old(cells[i])
      {
        cells[(y - 1) * WIDTH + x] := cells[y * WIDTH + x];
      }
    }

    /** `scroll`. */
    method Scroll()
      requires cells.Length == CELLS
      modifies cells
      ensures cells[..] == Scrolled(old(cells[..]), color)
      ensures forall i :: 0 <= i < 2000 ==> cells[i] == if i < 1920 then old(cells[i + 80]) else 32 + 256 * color
    {
      for y := 1 to 25
        invariant forall i :: 0 <= i < CELLS ==>
          cells[i] == if i < (y - 1) * WIDTH then old(cells[i + WIDTH]) else old(cells[i])
      {
        CopyRowUp(y);
      }
      for x := 0 to WIDTH
        invariant forall i :: 0 <= i < LAST_ROW ==> cells[i] == old(cells[i + WIDTH])
        invariant forall i :: LAST_ROW <= i < LAST_ROW + x ==> cells[i] == Cell(SPACE, color)
      {
        cells[LAST_ROW + x] := Cell(SPACE, color);
      }
    }

    /** `VGA_SetCursor`: coordinates are clamped onto the screen. */
    method SetCursor(x: int, y: int)
      modifies this`cursor
      ensures cursor == Nearest(y, 25) * WIDTH + Nearest(x, WIDTH) < CELLS
    {
      var cx, cy := x, y;
      if cx < 0 {
        cx := 0;
      }
      if cx >= WIDTH {
        cx := WIDTH - 1;
      }
      if cy < 0 {
        cy := 0;
      }
      if cy >= 25 {
        cy := 24;
      }
      cursor := cy * WIDTH + cx;
    }

    /** The ordinary-character path of `VGA_Putc`. */
    method PutPlain(c: Char)
      requires Valid()
      modifies this`cursor, cells
      ensures Valid() && View() == ScreenPlain(old(View()), c, color)
    {
      var position := cursor;
      cells[position] := Cell(c, color);
      position := position + 1;
      SetCursor(position % WIDTH, position / WIDTH);
      if position >= CELLS {
        Scroll();
      }
    }

    /**
     * `VGA_Putc`. The cursor is always below 2000, so the overflow guard at the top of the source
     * is dead and every write is in bounds.
     */
    method Putc(c: Char)
      requires Valid()
      modifies this`cursor, cells
      ensures Valid() && View() == ScreenPutc(old(View()), c, color)
    {
      var position := cursor;
      assert position < CELLS;
      if c == NEWLINE {
        var row := position / WIDTH;
        if row >= 24 {
          Scroll();
          row := 23;
        }
        SetCursor(0, row + 1);
      } else if c == TAB {
        PutPlain(SPACE);
        PutPlain(SPACE);
        PutPlain(SPACE);
        PutPlain(SPACE);
      } else if c == BACKSPACE {
        if position > 0 {
          position := position - 1;
          SetCursor(position % WIDTH, position / WIDTH);
          cells[position] := Cell(SPACE, color);
        }
      } else {
        PutPlain(c);
      }
    }

    /** The character loop of `kprint`. */
    method PutString(text: seq<Char>)
      requires Valid()
      modifies this`cursor, cells
      ensures Valid() && View() == ScreenPrint(old(View()), text, color)
    {
      assert text[..0] == [];
      for i := 0 to |text|
        invariant Valid() && View() == ScreenPrint(old(View()), text[..i], color)
      {
        Putc(text[i]);
        assert text[..i + 1][..i] == text[..i];
      }
      assert text[..|text|] == text;
    }

    /** `rmline`. */
    method RemoveLine()
      requires Valid()
      modifies this`cursor, cells
      ensures Valid() && View() == Rmline(old(View()), color)
    {
      var y := cursor / WIDTH;
      SetCursor(0, y);
      ghost var start := View();
      assert Spaces(WIDTH)[..0] == [];
      for i := 0 to WIDTH
        invariant Valid() && View() == ScreenPrint(start, Spaces(WIDTH)[..i], color)
      {
        Putc(SPACE);
        assert Spaces(WIDTH)[..i + 1][..i] == Spaces(WIDTH)[..i];
      }
      assert Spaces(WIDTH)[..WIDTH] == Spaces(WIDTH);
      SetCursor(0, y);
    }

    /** `kprint` on a C string, given as its characters before the terminator. */
    method Kprint(text: seq<Char>)
      requires Valid() && forall i :: 0 <= i < |text| ==> text[i] != 0
      modifies this`cursor, cells
      ensures Valid()
      ensures View() ==
        if text == [0x1B, 0x5B, 0x32, 0x6B] then Rmline(old(View()), color) else ScreenPrint(old(View()), text, color)
    {
      if text == EraseLine() {
        RemoveLine();
        return;
      }
      PutString(text);
    }

    /** `kprint_num`: the screen shows the one decimal numeral of the number. */
    method KprintNum(num: int) returns (ghost text: seq<Char>)
      requires Valid() && -0x8000_0000 <= num < 0x8000_0000
      modifies this`cursor, cells
      ensures SignedNumeral(text, num) && ParseSigned(text) == num
      ensures Valid() && View() == ScreenPrint(old(View()), text, color)
    {
      var t := FormatSigned(num);
      SignedIsPlain(t, num);
      Kprint(t);
      text := t;
    }

    /** `kprint_unsigned`. */
    method KprintUnsigned(num: U32) returns (ghost text: seq<Char>)
      requires Valid()
      modifies this`cursor, cells
      ensures Numeral(text, 10) && Parse(text, 10) == num
      ensures Valid() && View() == ScreenPrint(old(View()), text, color)
    {
      var t := FormatUnsigned(num);
      NumeralIsPlain(t, 10);
      Kprint(t);
      text := t;
    }

    /** The `%x` conversion of `vkprintf`. */
    method KprintHex(num: U64) returns (ghost text: seq<Char>)
      requires Valid()
      modifies this`cursor, cells
      ensures Numeral(text, 16) && Parse(text, 16) == num
      ensures Valid() && View() == ScreenPrint(old(View()), text, color)
    {
      var t := FormatHex(num);
      NumeralIsPlain(t, 16);
      Kprint(t);
      text := t;
    }
  }

  /** The coordinate in `[0, limit)` nearest to `v`. */
  function Nearest(v: int, limit: nat): (r: nat)
    requires limit > 0
    ensures r < limit
    ensures forall u :: 0 <= u < limit ==> Apart(v, r) <= Apart(v, u)
  {
    if v < 0 then 0 else if v >= limit then limit - 1 else v
  }

  function Apart(a: int, b: int): nat {
    if a < b then b - a else a - b
  }

  /** The escape text "\033[2k". */
  function EraseLine(): seq<Char> {
    [0x1B, 0x5B, 0x32, 0x6B]
  }

  lemma NumeralIsPlain(text: seq<Char>, base: nat)
    requires base <= 16 && Numeral(text, base)
    ensures text != EraseLine() && forall i :: 0 <= i < |text| ==> text[i] != 0 && !Control(text[i])
  {
    forall i | 0 <= i < |text| ensures text[i] >= 48 {
      assert IsDigit(text[i], base);
    }
    assert EraseLine()[0] == 0x1B;
  }

  lemma SignedIsPlain(text: seq<Char>, num: int)
    requires SignedNumeral(text, num)
    ensures text != EraseLine() && forall i :: 0 <= i < |text| ==> text[i] != 0 && !Control(text[i])
  {
    if num < 0 {
      NumeralIsPlain(text[1..], 10);
      forall i | 1 <= i < |text| ensures text[i] == text[1..][i - 1] {
      }
      assert EraseLine()[0] == 0x1B;
    } else {
      NumeralIsPlain(text, 10);
    }
  }
}
