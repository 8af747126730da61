// The text screen: 80 by 25 cells of two bytes in video memory, a cursor register of two bytes, and
// printing with scrolling.
module Terminal {
  import opened Layout
  import opened Memory

  const COLS := 80
  const ROWS := 25
  const WHITE: byte := 0x0F

  datatype Cell = Cell(ch: byte, attr: byte)

  /** What scrolling puts into the new bottom row. */
  const BLANK := Cell(0x20, 0x0F)

  /** The 16-bit store of `framebuffer_write`: a char is signed, so a value above 127 floods the
      attribute byte with ones. */
  function Painted(c: byte, fg: byte, bg: byte): Cell {
    Cell(c, if c < 128 then (bg * 16) % 256 + fg % 16 else 0xFF)
  }

  type Grid = g: seq<Cell> | |g| == 2000 witness seq(2000, _ => BLANK)

  function CellAt(m: seq<byte>, k: nat): Cell
    requires 2 * k + 1 < |m|
  {
    Cell(m[2 * k], m[2 * k + 1])
  }

  function GridOf(m: seq<byte>): Grid
    requires |m| >= 4000
  {
    seq(2000, k requires 0 <= k < 2000 => CellAt(m, k))
  }

  /** The screen after a store to cell `at`, which may lie behind it. */
  function Shown(g: Grid, at: nat, cell: Cell): Grid {
    if at < 2000 then g[at := cell] else g
  }

  function ScrolledUp(g: Grid): Grid {
    g[80..] + seq(80, _ => BLANK)
  }

  // ----- printing as a function -----

  /** The screen and the offset after one character of `framebuffer_write_string`. */
  function Put(g: Grid, off: nat, c: byte, color: byte): (r: (Grid, nat))
    requires off <= 2000
    ensures r.1 <= 2000
  {
    var (g1, off1) := if off >= 2000 then (ScrolledUp(g), off - 80) else (g, off);
    if c == 0x0A then (g1, (off1 / 80 + 1) * 80)
    else (g1[off1 := Painted(c, color, 0)], off1 + 1)
  }

  function Print(g: Grid, off: nat, str: seq<byte>, color: byte): (r: (Grid, nat))
    requires off <= 2000
    ensures r.1 <= 2000
  {
    if str == [] then (g, off)
    else var (g1, off1) := Print(g, off, str[..|str| - 1], color); Put(g1, off1, str[|str| - 1], color)
  }

  class Screen {
    /** Text-mode video memory, 32 KiB. */
    const video: array<byte>
    var cursorHigh: byte
    var cursorLow: byte

    constructor (video: array<byte>)
      ensures this.video == video && Cursor() == 0
    {
      this.video := video;
      cursorHigh, cursorLow := 0, 0;
    }

    ghost predicate Valid() {
      video.Length == 32768
    }

    function Cursor(): (p: nat)
      reads this
      ensures p < 65536
    {
      cursorHigh * 256 + cursorLow
    }

    ghost function Cells(): Grid
      requires Valid()
      reads video
    {
      GridOf(video[..])
    }

    /** Both arguments are single bytes in the source. */
    method SetCursor(r: int, c: int)
      modifies this
      ensures Cursor() == (r % 256) * 80 + c % 256
      ensures 0 <= r < 256 && 0 <= c < 256 ==> Cursor() == r * 80 + c
      ensures cursorHigh == Cursor() / 256 && cursorLow == Cursor() % 256
    {
      var pos := (r % 256) * 80 + c % 256;
      cursorHigh := (pos / 256) % 256;
      cursorLow := pos % 256;
    }

    method GetCursor() returns (row: byte, col: byte)
      ensures row == (Cursor() / 80) % 256 && col == Cursor() % 80
      ensures Cursor() < 20480 ==> row as int * 80 + col == Cursor()
    {
      var offset := cursorHigh * 256;
      offset := offset + cursorLow;
      row, col := (offset / 80) % 256, offset % 80;
    }

    /** Text memory goes on behind the screen. */
    method Write(row: byte, col: byte, c: byte, fg: byte, bg: byte)
      requires Valid() && row * 80 + col < 16384
      modifies video
      ensures var at, cell := row * 80 + col, Painted(c, fg, bg);
              Cells() == Shown(old(Cells()), at, cell)
      ensures var at, attr := row * 80 + col, if c < 128 then (bg * 16) % 256 + fg % 16 else 0xFF;
              video[..] == old(video[..])[2 * at := c][2 * at + 1 := attr]
    {
      var at := 2 * (row * 80 + col);
      var cell := Painted(c, fg, bg);
      video[at] := cell.ch;
      video[at + 1] := cell.attr;
      OneCell(old(video[..]), video[..], row * 80 + col, cell);
    }

    method Clear()
      requires Valid()
      modifies video
      ensures Cells() == seq(2000, _ => Cell(0x20, 0x07)) && video[4000..] == old(video[4000..])
    {
      for i := 0 to 2000
        invariant video[4000..] == old(video[4000..])
        invariant forall k :: 0 <= k < i ==> Cells()[k] == Cell(0x20, 0x07)
      {
        ghost var before, g := video[..], Cells();
        video[2 * i] := 0x20;
        video[2 * i + 1] := 0x07;
        OneCell(before, video[..], i, Cell(0x20, 0x07));
        assert Cells() == g[i := Cell(0x20, 0x07)];
      }
    }

    /** The copy takes 25 rows from row 1 on, so it brings in one row from behind the screen; that row
        is then painted blank. */
    method ScrollLn(offset: int) returns (moved: int)
      requires Valid()
      modifies video
      ensures moved == offset - 80 && Cells() == ScrolledUp(old(Cells())) && video[4000..] == old(video[4000..])
    {
      ghost var m := video[..];
      MemcpyWithin(video, 0, 160, 4000);
      CopyUpMoves(m, 0, 160, 4000);
      RowsMoved(m, video[..]);
      ghost var g := Cells();
      for i := 0 to 80
        invariant |Cells()| == 2000 && video[4000..] == old(video[4000..])
        invariant Cells()[..1920] == g[..1920]
        invariant forall k :: 1920 <= k < 1920 + i ==> Cells()[k] == BLANK
      {
        Write(24, i, 0x20, WHITE, 0);
      }
      assert Cells() == Cells()[..1920] + Cells()[1920..];
      assert Cells()[1920..] == seq(80, _ => BLANK);
      return offset - 80;
    }

    /** One round of the printing loop. */
    method WriteChar(at: nat, c: byte, color: byte) returns (offset: nat)
      requires Valid() && at <= 2000
      modifies video
      ensures (Cells(), offset) == Put(old(Cells()), at, c, color)
    {
      hide GridOf, Painted, ScrolledUp;
      offset := at;
      if offset >= 2000 {
        offset := ScrollLn(offset);
      }
      if c == 0x0A {
        offset := (offset / 80 + 1) * 80;
      } else {
        Write(offset / 80, offset % 80, c, color, 0);
        offset := offset + 1;
      }
    }

    /** `str` is the memory the pointer leads to; printing stops at the first NUL. */
    method WriteString(str: seq<byte>, color: byte)
      requires Valid() && 0 in str && Cursor() <= 2000
      modifies this, video
      ensures (Cells(), Cursor()) == Print(old(Cells()), old(Cursor()), CStr(str), color)
    {
      hide Print, Put, GridOf, CStr, Painted, ScrolledUp;
      var row, col := GetCursor();
      var offset := row as int * 80 + col;
      assert offset == Cursor();
      NothingPrinted(Cells(), offset, color);
      assert str[..0] == [];
      var i := 0;
      while str[i] != 0
        invariant 0 <= i < |str| && 0 <= offset <= 2000
        invariant forall k :: 0 <= k < i ==> str[k] != 0
        invariant (Cells(), offset) == Print(old(Cells()), old(Cursor()), str[..i], color)
        decreases |str| - i
      {
        PrintStep(old(Cells()), old(Cursor()), str, i, color);
        offset := WriteChar(offset, str[i], color);
        NulIsAhead(str, i);
        i := i + 1;
      }
      assert offset / 80 <= 25;
      SetCursor(offset / 80, offset % 80);
      CStrEnds(str, i);
    }
  }

  lemma NothingPrinted(g: Grid, off: nat, color: byte)
    requires off <= 2000
    ensures Print(g, off, [], color) == (g, off)
  {
  }

  lemma PrintStep(g: Grid, off: nat, str: seq<byte>, i: nat, color: byte)
    requires off <= 2000 && i < |str|
    ensures Print(g, off, str[..i + 1], color) ==
            var (g1, off1) := Print(g, off, str[..i], color); Put(g1, off1, str[i], color)
  {
    assert str[..i + 1][..i] == str[..i];
  }

  lemma OneCell(m: seq<byte>, m': seq<byte>, k: nat, cell: Cell)
    requires |m| == |m'| >= 4000 && 2 * k + 1 < |m|
    requires m' == m[2 * k := cell.ch][2 * k + 1 := cell.attr]
    ensures GridOf(m') == Shown(GridOf(m), k, cell)
  {
  }

  lemma RowsMoved(m: seq<byte>, m': seq<byte>)
    requires |m| >= 4160 && m' == Splice(m, 0, m[160..4160])
    ensures GridOf(m')[..1920] == GridOf(m)[80..]
  {
    forall k | 0 <= k < 1920 ensures GridOf(m')[k] == GridOf(m)[80 + k] {
      assert m'[2 * k] == m[160..4160][2 * k] && m'[2 * k + 1] == m[160..4160][2 * k + 1];
    }
  }

  // ----- the screen as a window of an endless tape -----

  /** The screen's initial contents, everything below it blank, and what has been printed over it. */
  datatype Tape = Tape(start: Grid, over: map<nat, Cell>) {
    function At(k: nat): Cell {
      if k in over then over[k] else if k < 2000 then start[k] else BLANK
    }

    function Set(k: nat, c: Cell): Tape {
      this.(over := over[k := c])
    }
  }

  /** Printing on a tape: no scrolling, only an ever growing position. */
  function Render(tape: Tape, at: nat, str: seq<byte>, color: byte): (Tape, nat) {
    if str == [] then (tape, at)
    else
      var (tape1, at1) := Render(tape, at, str[..|str| - 1], color);
      var c := str[|str| - 1];
      if c == 0x0A then (tape1, (at1 / 80 + 1) * 80)
      else (tape1.Set(at1, Painted(c, color, 0)), at1 + 1)
  }

  /** How far the window has moved when the position is `at`: just far enough to keep it on screen. */
  function Top(at: nat): nat {
    if at <= 2000 then 0 else (at - 2000 + 79) / 80
  }

  ghost predicate Shows(g: Grid, tape: Tape, top: nat) {
    && (forall k :: 0 <= k < 2000 ==> g[k] == tape.At(80 * top + k))
    && (forall k :: k >= 80 * top + 2000 ==> tape.At(k) == BLANK)
  }

  lemma ScrollShows(g: Grid, tape: Tape, top: nat)
    requires Shows(g, tape, top)
    ensures Shows(ScrolledUp(g), tape, top + 1)
  {
    forall k | 0 <= k < 2000 ensures ScrolledUp(g)[k] == tape.At(80 * (top + 1) + k) {
      if k < 1920 { assert ScrolledUp(g)[k] == g[80 + k]; }
    }
  }

  lemma SetShows(g: Grid, tape: Tape, top: nat, off: nat, c: Cell)
    requires Shows(g, tape, top) && off < 2000
    ensures Shows(g[off := c], tape.Set(80 * top + off, c), top)
  {
    var g', tape' := g[off := c], tape.Set(80 * top + off, c);
    forall k | 0 <= k < 2000 ensures g'[k] == tape'.At(80 * top + k) {
      if k != off { assert tape'.At(80 * top + k) == tape.At(80 * top + k); }
    }
    forall k | k >= 80 * top + 2000 ensures tape'.At(k) == BLANK {
      assert tape'.At(k) == tape.At(k);
    }
  }

  lemma PutShows(g: Grid, off: nat, tape: Tape, top: nat, c: byte, color: byte) returns (top': nat)
    requires Shows(g, tape, top) && off <= 2000 && (top == 0 || off > 1920)
    ensures var (g', off') := Put(g, off, c, color);
            var at := 80 * top + off;
            var (tape', at') := if c == 0x0A then (tape, (at / 80 + 1) * 80)
                                else (tape.Set(at, Painted(c, color, 0)), at + 1);
            Shows(g', tape', top') && at' == 80 * top' + off' && (top' == 0 || off' > 1920)
  {
    top' := top;
    var g1, off1 := g, off;
    if off >= 2000 {
      ScrollShows(g, tape, top);
      g1, off1, top' := ScrolledUp(g), off - 80, top + 1;
    }
    assert 80 * top' + off1 == 80 * top + off;
    if c != 0x0A { SetShows(g1, tape, top', off1, Painted(c, color, 0)); }
  }

  /** Printing leaves the 25-row window of the tape that ends with the row being written, and the
      cursor at the tape position less the rows that have moved out. */
  lemma {:induction false} PrintIsWindow(g: Grid, off: nat, str: seq<byte>, color: byte)
    requires off <= 2000
    ensures var (g', off') := Print(g, off, str, color);
            var (tape', at') := Render(Tape(g, map[]), off, str, color);
            && off' <= 2000 && at' == 80 * Top(at') + off'
            && forall k :: 0 <= k < 2000 ==> g'[k] == tape'.At(80 * Top(at') + k)
  {
    hide Print, Render;
    var top := PrintCoupled(g, off, str, color);
    var (g', off') := Print(g, off, str, color);
    TopIs(top, off');
  }

  lemma TopIs(top: nat, off: nat)
    requires off <= 2000 && (top == 0 || off > 1920)
    ensures Top(80 * top + off) == top
  {
  }

  lemma StartShows(g: Grid)
    ensures Shows(g, Tape(g, map[]), 0)
  {
  }

  lemma {:induction false} PrintCoupled(g: Grid, off: nat, str: seq<byte>, color: byte) returns (top: nat)
    requires off <= 2000
    ensures var (g', off') := Print(g, off, str, color);
            var (tape', at') := Render(Tape(g, map[]), off, str, color);
            Shows(g', tape', top) && at' == 80 * top + off' && (top == 0 || off' > 1920)
    decreases |str|
  {
    hide Shows, Put;
    if str == [] {
      top := 0;
      StartShows(g);
    } else {
      var init := str[..|str| - 1];
      var top1 := PrintCoupled(g, off, init, color);
      var (g1, off1) := Print(g, off, init, color);
      var (tape1, at1) := Render(Tape(g, map[]), off, init, color);
      top := PutShows(g1, off1, tape1, top1, str[|str| - 1], color);
    }
  }

  // ----- what is printed, cell by cell -----

  /** A printed character: its code, and the text colour on black; a code above 127 floods the attribute. */
  function Inked(c: byte, color: byte): (cell: Cell)
    ensures cell.ch == c && (c < 128 ==> cell.attr == color % 16) && (c >= 128 ==> cell.attr == 255)
  {
    Cell(c, if c < 128 then color % 16 else 255)
  }

  /** One character: painted at the offset, which moves on by one. */
  lemma CharacterPut(g: Grid, off: nat, c: byte, color: byte)
    requires off < 2000 && c != 10
    ensures Put(g, off, c, color) == (g[off := Inked(c, color)], off + 1)
  {
  }

  /** A line break: nothing painted, and the offset at the start of the next row. */
  lemma LineBreakPut(g: Grid, off: nat, color: byte)
    requires off < 2000
    ensures var (g', off') := Put(g, off, 10, color); g' == g && off' % 80 == 0 && off < off' <= off + 80
  {
  }

  /** Behind the last cell the screen first moves up by a row, and the new row is blank. */
  lemma FullScreenPut(g: Grid, c: byte, color: byte)
    ensures Put(g, 2000, c, color) == Put(ScrolledUp(g), 1920, c, color)
    ensures forall k :: 0 <= k < 1920 ==> ScrolledUp(g)[k] == g[k + 80]
    ensures forall k :: 1920 <= k < 2000 ==> ScrolledUp(g)[k] == Cell(32, 15)
  {
  }

  /** A string without line breaks that fits: its characters one after the other, in its colour. */
  lemma {:induction false} StringPrinted(g: Grid, off: nat, str: seq<byte>, color: byte)
    requires off + |str| <= 2000 && 10 !in str
    ensures var (g', off') := Print(g, off, str, color);
            && off' == off + |str|
            && forall k :: 0 <= k < 2000 ==> g'[k] == if off <= k < off + |str| then Inked(str[k - off], color) else g[k]
    decreases |str|
  {
    if str != [] {
      var init, c := str[..|str| - 1], str[|str| - 1];
      assert 10 !in init;
      StringPrinted(g, off, init, color);
      assert c in str;
      CharacterPut(Print(g, off, init, color).0, off + |init|, c, color);
    }
  }

  /** On the tape, every cell a string has printed holds one of its characters, in its colour. */
  lemma {:induction false} TapeColoured(tape: Tape, at: nat, str: seq<byte>, color: byte)
    requires tape.over == map[]
    ensures var (tape', _) := Render(tape, at, str, color);
            && tape'.start == tape.start
            && forall k :: k in tape'.over ==> tape'.over[k].ch in str && tape'.over[k] == Inked(tape'.over[k].ch, color)
    decreases |str|
  {
    if str != [] {
      var init, c := str[..|str| - 1], str[|str| - 1];
      TapeColoured(tape, at, init, color);
      var (tape1, at1) := Render(tape, at, init, color);
      assert Painted(c, color, 0) == Inked(c, color);
    }
  }

  /** So after any string, with line breaks and scrolling, each cell of the screen is a character of it in its
      colour, a blank, or what the screen showed there before it moved up. */
  lemma PrintColoured(g: Grid, off: nat, str: seq<byte>, color: byte)
    requires off <= 2000
    ensures var (g', off') := Print(g, off, str, color);
            var top := Top(Render(Tape(g, map[]), off, str, color).1);
            forall k :: 0 <= k < 2000 ==>
              || (g'[k].ch in str && g'[k] == Inked(g'[k].ch, color))
              || (80 * top + k < 2000 && g'[k] == g[80 * top + k])
              || g'[k] == Cell(32, 15)
  {
    hide Print, Render, Top;
    PrintIsWindow(g, off, str, color);
    TapeColoured(Tape(g, map[]), off, str, color);
  }
}
