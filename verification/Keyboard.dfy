// The keyboard driver: an interrupt routine that edits a line in a buffer and on the screen at once.
module Keyboard {
  import opened Layout
  import opened Memory
  import opened Terminal

  const BACKSPACE: byte := 0x08
  const NEWLINE: byte := 0x0A
  const ESC: byte := 27
  const LSHIFT: byte := 42
  const CAPS: byte := 58
  const LEFTARROW: byte := 75
  const KEYUP: byte := 0x80

  /** The two character tables; the shifted one has an entry for scancodes 0 to 57 only. */
  datatype Keymap = Keymap(plain: seq<byte>, shifted: seq<byte>) {
    predicate Ok() {
      |plain| == 256 && |shifted| == 58
    }

    /** The character of a key; `stray` is what lies behind the shifted table. */
    function Char(scancode: byte, upper: bool, stray: byte): byte
      requires Ok()
    {
      if !upper then plain[scancode] else if scancode < 58 then shifted[scancode] else stray
    }
  }

  type LineBuffer = b: seq<byte> | |b| == 256 witness seq(256, _ => 0)

  /** The driver state: KeyboardDriverState and `tempCode`. */
  datatype Keys = Keys(on: bool, shift: bool, caps: bool, index: byte, buffer: LineBuffer, last: int)

  // ----- the interrupt routine as a function of the driver state -----

  datatype Effect = Ignored | Erased | Entered | Typed | Arrow

  predicate IsPress(scancode: byte) {
    scancode < KEYUP && scancode != LSHIFT && scancode != CAPS
  }

  function Toggled(k: Keys, scancode: byte): Keys {
    var k1 := if scancode == LSHIFT then k.(shift := true) else k;
    var k2 := if scancode == LSHIFT + KEYUP then k1.(shift := false) else k1;
    if scancode == CAPS then k2.(caps := !k2.caps) else k2
  }

  /** What a press does, given the state with the toggles already applied. */
  function EffectOf(k: Keys, scancode: byte, c: byte): Effect {
    if c == BACKSPACE && k.index > 0 then Erased
    else if c == NEWLINE then Entered
    else if c != BACKSPACE && scancode != LEFTARROW then Typed
    else if scancode == LEFTARROW then Arrow
    else Ignored
  }

  function Applied(k: Keys, e: Effect, c: byte): Keys {
    match e
    case Erased =>
      if k.index > 0 then k.(index := k.index - 1, buffer := k.buffer[k.index - 1 := 0]) else k
    case Entered => k.(on := false)
    case Typed => k.(buffer := k.buffer[k.index := c], index := (k.index + 1) % 256)
    case _ => k
  }

  /** One interrupt. */
  function Isr(m: Keymap, k: Keys, scancode: byte, stray: byte): Keys
    requires m.Ok()
  {
    if !k.on then k.(index := 0)
    else
      var k1 := Toggled(k, scancode);
      var c := m.Char(scancode, k1.shift != k1.caps, stray);
      if !IsPress(scancode) then k1.(last := scancode)
      else if scancode == k1.last then k1
      else
        var k2 := Applied(k1, EffectOf(k1, scancode, c), c).(last := scancode);
        if c == ESC then k2.(buffer := seq(256, _ => 0)) else k2
  }

  // ----- its effect on the screen -----

  function Cleared(): Grid {
    seq(2000, k => Cell(0x20, 0x07))
  }

  /** "> " */
  const PROMPT: seq<byte> := [0x3E, 0x20]

  /** Where the left arrow takes the cursor. */
  function AfterArrow(pos: nat): nat {
    if pos % 80 == 2 then pos else if pos % 80 == 0 then pos + 255 else pos - 1
  }

  /** Screen and cursor after an effect, for a cursor in text memory and not at its very start when
      something is erased. */
  function Drawn(g: Grid, pos: nat, e: Effect, c: byte): (Grid, nat)
    requires pos < 16384 && (e.Erased? ==> pos > 0)
  {
    match e
    case Erased => (Shown(g, pos - 1, Painted(0, WHITE, 0)), pos - 1)
    case Typed =>
      if pos == 1999 then (ScrolledUp(g)[1919 := Painted(c, WHITE, 0)], 1920)
      else (Shown(g, pos, Painted(c, WHITE, 0)), pos + 1)
    case Arrow => (g, AfterArrow(pos))
    case _ => (g, pos)
  }

  /** The press an interrupt acts on, if any: the character and its effect. */
  function Press(m: Keymap, k: Keys, scancode: byte, stray: byte): Pressed
    requires m.Ok()
  {
    var k1 := Toggled(k, scancode);
    var c := m.Char(scancode, k1.shift != k1.caps, stray);
    Pressed(k.on && IsPress(scancode) && scancode != k1.last, c, EffectOf(k1, scancode, c))
  }

  datatype Pressed = Pressed(acts: bool, c: byte, effect: Effect)

  predicate Drawable(m: Keymap, k: Keys, pos: nat, scancode: byte, stray: byte)
    requires m.Ok()
  {
    pos < 16384 && var p := Press(m, k, scancode, stray); p.acts && p.effect.Erased? ==> pos > 0
  }

  function ScreenIsr(m: Keymap, k: Keys, g: Grid, pos: nat, scancode: byte, stray: byte): (Grid, nat)
    requires m.Ok() && Drawable(m, k, pos, scancode, stray)
  {
    var p := Press(m, k, scancode, stray);
    if !p.acts then (g, pos)
    else if p.c == ESC then Print(Cleared(), 0, PROMPT, WHITE)
    else Drawn(g, pos, p.effect, p.c)
  }

  // ----- the driver -----

  class KeyboardDriver {
    const screen: Screen
    const keymap: Keymap
    var inputOn: bool
    var shiftPressed: bool
    var capsCond: bool
    var bufferIndex: byte
    const buffer: array<byte>
    var tempCode: int

    constructor (screen: Screen, keymap: Keymap)
      requires screen.Valid() && keymap.Ok()
      ensures Valid() && this.screen == screen && this.keymap == keymap && fresh(buffer)
      ensures State() == Keys(false, false, false, 0, seq(256, _ => 0), 0)
    {
      this.screen, this.keymap := screen, keymap;
      inputOn, shiftPressed, capsCond, bufferIndex, tempCode := false, false, false, 0, 0;
      buffer := new byte[256](_ => 0);
    }

    ghost predicate Valid() {
      screen.Valid() && keymap.Ok() && buffer.Length == 256 && buffer != screen.video
    }

    ghost function State(): Keys
      requires Valid()
      reads this, buffer
    {
      Keys(inputOn, shiftPressed, capsCond, bufferIndex, buffer[..], tempCode)
    }

    method Activate()
      requires Valid()
      modifies this
      ensures State() == old(State()).(on := true)
    {
      inputOn := true;
    }

    method Deactivate()
      requires Valid()
      modifies this
      ensures State() == old(State()).(on := false)
    {
      inputOn := false;
    }

    method IsBlocking() returns (b: bool)
      requires Valid()
      ensures b == State().on
    {
      b := inputOn;
    }

    method Reset()
      requires Valid()
      modifies this, buffer
      ensures State() == old(State()).(index := 0, buffer := seq(256, _ => 0))
    {
      Memset(buffer, 0, 0, 256);
      bufferIndex := 0;
    }

    method GetBuffer(buf: array<byte>)
      requires Valid() && buf.Length >= 256 && buf != buffer
      modifies buf
      ensures buf[..256] == State().buffer && buf[256..] == old(buf[256..])
    {
      Memcpy(buf, 0, buffer[..], 256);
    }

    method ClearScreen()
      requires Valid()
      modifies this, buffer, screen, screen.video
      ensures State() == old(State()).(buffer := seq(256, _ => 0))
      ensures (screen.Cells(), screen.Cursor()) == Print(Cleared(), 0, PROMPT, WHITE)
    {
      screen.Clear();
      screen.SetCursor(0, 0);
      PromptEnds();
      screen.WriteString(PROMPT + [0], WHITE);
      Memset(buffer, 0, 0, 256);
    }

    /** keyboard_isr; the scancode and the byte behind the shifted table are what the hardware and
        the linker happened to provide. */
    method HandleInterrupt(scancode: byte, stray: byte)
      requires Valid() && Drawable(keymap, State(), screen.Cursor(), scancode, stray)
      modifies this, buffer, screen, screen.video
      ensures State() == Isr(keymap, old(State()), scancode, stray)
      ensures (screen.Cells(), screen.Cursor())
              == ScreenIsr(keymap, old(State()), old(screen.Cells()), old(screen.Cursor()), scancode, stray)
    {
      var row, col := screen.GetCursor();
      if !inputOn {
        bufferIndex := 0;
      } else {
        if scancode == LSHIFT {
          shiftPressed := true;
        }
        if scancode == LSHIFT + KEYUP {
          shiftPressed := false;
        }
        if scancode == CAPS {
          capsCond := !capsCond;
        }
        var c := keymap.Char(scancode, shiftPressed != capsCond, stray);
        if IsPress(scancode) {
          if scancode != tempCode {
            Edit(row, col, scancode, c);
            tempCode := scancode;
            if c == ESC {
              ClearScreen();
            }
          }
        } else {
          tempCode := scancode;
        }
      }
    }

    /** The four-way branch on the pressed character. */
    method Edit(row: byte, col: byte, scancode: byte, c: byte)
      requires Valid() && screen.Cursor() < 16384 && row as int * 80 + col == screen.Cursor() && col < 80
      requires EffectOf(State(), scancode, c).Erased? ==> screen.Cursor() > 0
      modifies this, buffer, screen, screen.video
      ensures State() == Applied(old(State()), EffectOf(old(State()), scancode, c), c)
      ensures (screen.Cells(), screen.Cursor())
              == Drawn(old(screen.Cells()), old(screen.Cursor()), EffectOf(old(State()), scancode, c), c)
    {
      hide GridOf, Painted, ScrolledUp, Drawn, Applied;
      ghost var k, g, pos := State(), screen.Cells(), screen.Cursor();
      NoDrawing(k, g, pos, c);
      if c == BACKSPACE && bufferIndex > 0 {
        EraseLast(row, col);
      } else if c == NEWLINE {
        Deactivate();
      } else if c != BACKSPACE && scancode != LEFTARROW {
        TypeChar(row, col, c);
      } else if scancode == LEFTARROW && col != 2 {
        StepLeft(row, col, c);
      } else {
        ArrowDrawn(g, row, col, c);
      }
    }

    method StepLeft(row: byte, col: byte, c: byte)
      requires Valid() && screen.Cursor() < 16384 && row as int * 80 + col == screen.Cursor() && col < 80 && col != 2
      modifies screen
      ensures State() == old(State()) && screen.Cells() == old(screen.Cells())
      ensures (screen.Cells(), screen.Cursor()) == Drawn(old(screen.Cells()), old(screen.Cursor()), Arrow, c)
    {
      hide GridOf, Drawn;
      ArrowDrawn(screen.Cells(), row, col, c);
      screen.SetCursor(row, col as int - 1);
    }

    method EraseLast(row: byte, col: byte)
      requires Valid() && 0 < screen.Cursor() < 16384 && row as int * 80 + col == screen.Cursor() && col < 80
      requires bufferIndex > 0
      modifies this, buffer, screen, screen.video
      ensures State() == Applied(old(State()), Erased, BACKSPACE)
      ensures (screen.Cells(), screen.Cursor()) == Drawn(old(screen.Cells()), old(screen.Cursor()), Erased, BACKSPACE)
    {
      hide GridOf, Painted, ScrolledUp;
      if col == 0 {
        screen.SetCursor(row as int - 1, COLS - 1);
        screen.Write(row - 1, 79, 0, WHITE, 0);
      } else {
        screen.SetCursor(row, col as int - 1);
        screen.Write(row, col - 1, 0, WHITE, 0);
      }
      bufferIndex := bufferIndex - 1;
      buffer[bufferIndex] := 0;
    }

    method TypeChar(row: byte, col: byte, c: byte)
      requires Valid() && screen.Cursor() < 16384 && row as int * 80 + col == screen.Cursor() && col < 80
      modifies this, buffer, screen, screen.video
      ensures State() == Applied(old(State()), Typed, c)
      ensures (screen.Cells(), screen.Cursor()) == Drawn(old(screen.Cells()), old(screen.Cursor()), Typed, c)
    {
      hide GridOf, Painted, ScrolledUp;
      buffer[bufferIndex] := c;
      bufferIndex := (bufferIndex + 1) % 256;
      var offset := row as int * 80 + col;
      if row == 24 && col == 79 {
        offset := screen.ScrollLn(offset);
      }
      screen.Write(offset / 80, offset % 80, c, WHITE, 0);
      screen.SetCursor(offset / 80, offset % 80 + 1);
    }
  }

  lemma NoDrawing(k: Keys, g: Grid, pos: nat, c: byte)
    requires pos < 16384
    ensures Drawn(g, pos, Entered, c) == (g, pos) && Drawn(g, pos, Ignored, c) == (g, pos)
    ensures Applied(k, Entered, c) == k.(on := false) && Applied(k, Ignored, c) == k && Applied(k, Arrow, c) == k
    ensures forall d :: Applied(k, Erased, c) == Applied(k, Erased, d)
    ensures pos > 0 ==> forall d :: Drawn(g, pos, Erased, c) == Drawn(g, pos, Erased, d)
  {
  }

  lemma ArrowDrawn(g: Grid, row: nat, col: nat, c: byte)
    requires row * 80 + col < 16384 && col < 80
    ensures Drawn(g, row * 80 + col, Arrow, c) ==
            (g, if col == 2 then row * 80 + col else row * 80 + (col - 1) % 256)
  {
    assert (row * 80 + col) / 80 == row && (row * 80 + col) % 80 == col;
    assert col == 0 ==> (col - 1) % 256 == 255;
    assert col > 0 ==> (col - 1) % 256 == col - 1;
  }

  lemma PromptEnds()
    ensures 0 in PROMPT + [0] && CStr(PROMPT + [0]) == PROMPT
  {
    assert (PROMPT + [0])[2] == 0;
    CStrEnds(PROMPT + [0], 2);
  }

  // ----- the line on the screen -----

  /** The cells just before the cursor hold exactly the buffered characters, and the buffer holds
      nothing more. */
  ghost predicate Coupled(k: Keys, g: Grid, pos: nat) {
    && pos < 2000 && k.index <= pos
    && (forall i :: 0 <= i < k.index ==> g[pos - k.index + i].ch == k.buffer[i])
    && (forall i :: k.index <= i < 256 ==> k.buffer[i] == 0)
  }

  lemma PaintedChar(c: byte, fg: byte, bg: byte)
    ensures Painted(c, fg, bg).ch == c
  {
  }

  lemma TypedKeepsCoupling(k: Keys, g: Grid, pos: nat, c: byte)
    requires Coupled(k, g, pos) && k.index < 255
    ensures var (g', pos') := Drawn(g, pos, Typed, c); Coupled(Applied(k, Typed, c), g', pos')
  {
    hide Painted;
    PaintedChar(c, WHITE, 0);
    var k' := Applied(k, Typed, c);
    var (g', pos') := Drawn(g, pos, Typed, c);
    forall i | 0 <= i < k'.index ensures g'[pos' - k'.index + i].ch == k'.buffer[i] {
      if i < k.index {
        assert g[pos - k.index + i].ch == k.buffer[i];
        if pos == 1999 { assert ScrolledUp(g)[1919 - k.index + i] == g[1999 - k.index + i]; }
      }
    }
  }

  lemma ErasedKeepsCoupling(k: Keys, g: Grid, pos: nat, c: byte)
    requires Coupled(k, g, pos) && k.index > 0
    ensures var (g', pos') := Drawn(g, pos, Erased, c); Coupled(Applied(k, Erased, c), g', pos')
  {
    hide Painted;
    var k' := Applied(k, Erased, c);
    var (g', pos') := Drawn(g, pos, Erased, c);
    forall i | 0 <= i < k'.index ensures g'[pos' - k'.index + i].ch == k'.buffer[i] {
      assert g[pos - k.index + i].ch == k.buffer[i];
    }
  }

  /** With input on: room for one more character, no ESC but the one that wraps the index to zero, no
      arrow that moves the cursor off the line. With input off, the index is zeroed. */
  predicate Harmless(m: Keymap, k: Keys, pos: nat, scancode: byte, stray: byte)
    requires m.Ok()
  {
    var p := Press(m, k, scancode, stray);
    if !k.on then k.index == 0
    else if !p.acts then true
    else if p.c == ESC then k.index == (if scancode == LEFTARROW then 0 else 255)
    else if p.effect.Typed? then k.index < 255
    else if p.effect.Arrow? then pos % 80 == 2 || (k.index == 0 && AfterArrow(pos) < 2000)
    else true
  }

  lemma IsrIsDrawable(m: Keymap, k: Keys, pos: nat, scancode: byte, stray: byte)
    requires m.Ok() && k.index <= pos < 2000
    ensures Drawable(m, k, pos, scancode, stray)
  {
  }

  /** A harmless interrupt keeps line and screen together: across rows, over the scroll at the last
      cell, and when erasing back over a row boundary. */
  lemma IsrKeepsCoupling(m: Keymap, k: Keys, g: Grid, pos: nat, scancode: byte, stray: byte)
    requires m.Ok() && Coupled(k, g, pos) && Harmless(m, k, pos, scancode, stray)
    ensures Drawable(m, k, pos, scancode, stray)
    ensures var (g', pos') := ScreenIsr(m, k, g, pos, scancode, stray);
            Coupled(Isr(m, k, scancode, stray), g', pos')
  {
    hide Drawn, Applied, Print;
    var p, k1 := Press(m, k, scancode, stray), Toggled(k, scancode);
    if p.acts {
      assert Coupled(k1, g, pos);
      NoDrawing(k1, g, pos, p.c);
      if p.c == ESC {
        PromptDrawn();
        EscapeApplied(k1, scancode);
      } else {
        match p.effect
        case Typed => TypedKeepsCoupling(k1, g, pos, p.c);
        case Erased => ErasedKeepsCoupling(k1, g, pos, p.c);
        case Arrow => ArrowMoves(g, pos, p.c);
        case _ =>
      }
    }
  }

  lemma EscapeApplied(k: Keys, scancode: byte)
    ensures Applied(k, EffectOf(k, scancode, ESC), ESC).index
            == if scancode == LEFTARROW then k.index else (k.index + 1) % 256
  {
  }

  lemma ArrowMoves(g: Grid, pos: nat, c: byte)
    requires pos < 2000
    ensures Drawn(g, pos, Arrow, c) == (g, AfterArrow(pos))
  {
  }

  /** A line of `n` characters. */
  function Ones(n: nat): LineBuffer
    requires n <= 256
  {
    seq(256, i => if i < n then 1 else 0)
  }

  /** A screen that shows the line before `pos` and nothing else. */
  function Showing(k: Keys, pos: nat): Grid
    requires k.index <= pos < 2000
  {
    seq(2000, j requires 0 <= j < 2000 =>
      Cell(if pos - k.index <= j < pos then k.buffer[j - (pos - k.index)] else 0, WHITE))
  }

  lemma PromptDrawn()
    ensures var (g, pos) := Print(Cleared(), 0, PROMPT, WHITE);
            pos == 2 && g[0].ch == 0x3E && g[1].ch == 0x20
  {
    assert PROMPT[..1] == [0x3E] && PROMPT[..1][..0] == [];
    assert Print(Cleared(), 0, [], WHITE) == (Cleared(), 0);
    assert Print(Cleared(), 0, PROMPT[..1], WHITE) == Put(Cleared(), 0, 0x3E, WHITE);
    assert Print(Cleared(), 0, PROMPT, WHITE)
        == Put(Put(Cleared(), 0, 0x3E, WHITE).0, Put(Cleared(), 0, 0x3E, WHITE).1, 0x20, WHITE);
  }

  /** If the screen `g` shows the line of `k`, it still does after the interrupt. */
  ghost predicate StaysCoupled(m: Keymap, k: Keys, g: Grid, pos: nat, scancode: byte, stray: byte)
    requires m.Ok()
  {
    Coupled(k, g, pos) ==>
      && Drawable(m, k, pos, scancode, stray)
      && var (g', pos') := ScreenIsr(m, k, g, pos, scancode, stray);
         Coupled(Isr(m, k, scancode, stray), g', pos')
  }

  /** Whatever the line and the screen showing it, an interrupt keeps them together exactly when its
      key, the length of the line and the cursor meet the condition. */
  lemma CouplingKeptIff(m: Keymap, k: Keys, pos: nat, scancode: byte, stray: byte)
    requires m.Ok() && k.index <= pos < 2000
    ensures (forall b: LineBuffer, g: Grid :: StaysCoupled(m, k.(buffer := b), g, pos, scancode, stray))
            <==> Harmless(m, k, pos, scancode, stray)
  {
    hide Isr, ScreenIsr, Coupled, Press, Drawable;
    if Harmless(m, k, pos, scancode, stray) {
      forall b: LineBuffer, g: Grid ensures StaysCoupled(m, k.(buffer := b), g, pos, scancode, stray) {
        var k1 := k.(buffer := b);
        SamePress(m, k, b, scancode, stray);
        if Coupled(k1, g, pos) { IsrKeepsCoupling(m, k1, g, pos, scancode, stray); }
      }
    } else {
      var k1 := k.(buffer := Ones(k.index));
      SamePress(m, k, Ones(k.index), scancode, stray);
      HarmUncouples(m, k1, pos, scancode, stray);
    }
  }

  lemma SamePress(m: Keymap, k: Keys, b: LineBuffer, scancode: byte, stray: byte)
    requires m.Ok()
    ensures Press(m, k.(buffer := b), scancode, stray) == Press(m, k, scancode, stray)
  {
  }

  lemma HarmUncouples(m: Keymap, k: Keys, pos: nat, scancode: byte, stray: byte)
    requires m.Ok() && k.index <= pos < 2000 && k.buffer == Ones(k.index)
    requires !Harmless(m, k, pos, scancode, stray)
    ensures !StaysCoupled(m, k, Showing(k, pos), pos, scancode, stray)
  {
    hide Print, Drawn;
    var p, k1, k' := Press(m, k, scancode, stray), Toggled(k, scancode), Isr(m, k, scancode, stray);
    var g := Showing(k, pos);
    assert Coupled(k, g, pos);
    IsrIsDrawable(m, k, pos, scancode, stray);
    if !k.on {
      assert k'.buffer[0] == 1;
    } else if p.c == ESC {
      PromptDrawn();
      EscapeApplied(k1, scancode);
      PromptIsNotALine(k', Print(Cleared(), 0, PROMPT, WHITE).0);
    } else if p.effect.Typed? {
      assert k'.index == 0 && k'.buffer[0] == 1;
    } else {
      ArrowMoves(g, pos, p.c);
      var pos' := AfterArrow(pos);
      if k.index <= pos' < 2000 {
        assert g[pos' - k.index].ch == 0 && g[pos' - k.index + 0].ch != k.buffer[0];
      }
    }
  }

  lemma PromptIsNotALine(k: Keys, g: Grid)
    requires k.index > 0 && k.buffer == seq(256, _ => 0) && g[0].ch == 0x3E && g[1].ch == 0x20
    ensures !Coupled(k, g, 2)
  {
    if k.index <= 2 {
      assert g[2 - k.index + 0].ch != k.buffer[0];
    }
  }

  /** The 256th character fills the buffer and wraps the index to zero: the driver takes the line for
      empty, and the next character will replace its first one. */
  lemma WrapLosesLine(m: Keymap, k: Keys, g: Grid, pos: nat, scancode: byte, stray: byte)
    requires m.Ok() && Coupled(k, g, pos) && k.index == 255
    requires var p := Press(m, k, scancode, stray); p.acts && p.effect.Typed? && p.c != ESC
    ensures Drawable(m, k, pos, scancode, stray)
    ensures var k', c := Isr(m, k, scancode, stray), Press(m, k, scancode, stray).c;
            var (g', pos') := ScreenIsr(m, k, g, pos, scancode, stray);
            && k'.index == 0 && k'.buffer == k.buffer[255 := c]
            && (Coupled(k', g', pos') <==> c == 0 && k.buffer == seq(256, _ => 0))
  {
    hide Painted;
    var k' := Isr(m, k, scancode, stray);
    assert k'.buffer[255] == Press(m, k, scancode, stray).c;
    assert forall i :: 0 <= i < 255 ==> k'.buffer[i] == k.buffer[i];
    if k.buffer != seq(256, _ => 0) {
      var i :| 0 <= i < 256 && k.buffer[i] != 0;
      assert i < 255 && k'.buffer[i] != 0;
    }
  }

  // ----- any sequence of keys -----

  /** A scancode, and what lay behind the shifted table when it was read. */
  datatype Scan = Scan(code: byte, stray: byte)

  function Interrupts(m: Keymap, k: Keys, scans: seq<Scan>): Keys
    requires m.Ok()
  {
    if scans == [] then k
    else
      var k1 := Interrupts(m, k, scans[..|scans| - 1]);
      Isr(m, k1, scans[|scans| - 1].code, scans[|scans| - 1].stray)
  }

  /** The screen after the same interrupts. */
  function Screens(m: Keymap, k: Keys, g: Grid, pos: nat, scans: seq<Scan>): (r: (Grid, nat))
    requires m.Ok()
  {
    if scans == [] then (g, pos)
    else
      var n := |scans| - 1;
      var k1 := Interrupts(m, k, scans[..n]);
      var (g1, pos1) := Screens(m, k, g, pos, scans[..n]);
      if Drawable(m, k1, pos1, scans[n].code, scans[n].stray)
      then ScreenIsr(m, k1, g1, pos1, scans[n].code, scans[n].stray)
      else (g1, pos1)
  }

  /** Every interrupt of the sequence is harmless when it comes. */
  ghost predicate Undisturbed(m: Keymap, k: Keys, g: Grid, pos: nat, scans: seq<Scan>)
    requires m.Ok()
  {
    forall n :: 0 <= n < |scans| ==>
      Harmless(m, Interrupts(m, k, scans[..n]), Screens(m, k, g, pos, scans[..n]).1, scans[n].code, scans[n].stray)
  }

  /** Line and screen agree after every sequence of harmless interrupts, started on an empty line with
      the cursor on the screen. */
  lemma {:induction false} LineShowsOnScreen(m: Keymap, k: Keys, g: Grid, pos: nat, scans: seq<Scan>)
    requires m.Ok() && Coupled(k, g, pos) && Undisturbed(m, k, g, pos, scans)
    ensures var (g', pos') := Screens(m, k, g, pos, scans);
            Coupled(Interrupts(m, k, scans), g', pos')
    decreases |scans|
  {
    hide Isr, ScreenIsr, Harmless, Coupled;
    if scans != [] {
      var n := |scans| - 1;
      var init := scans[..n];
      assert forall i :: 0 <= i < n ==> init[..i] == scans[..i] && init[i] == scans[i];
      LineShowsOnScreen(m, k, g, pos, init);
      var (g1, pos1) := Screens(m, k, g, pos, init);
      IsrKeepsCoupling(m, Interrupts(m, k, init), g1, pos1, scans[n].code, scans[n].stray);
    }
  }

  // ----- key by key -----

  /** Which table a key below 58 is read from: the plain one unless exactly one of shift and caps lock is on. */
  function TableChar(m: Keymap, k: Keys, scancode: byte): byte
    requires m.Ok() && scancode < 58
  {
    if k.shift == k.caps then m.plain[scancode] else m.shifted[scancode]
  }

  /** A printable key: its table's character goes to the end of the line and to the cursor. */
  lemma PrintableKey(m: Keymap, k: Keys, g: Grid, pos: nat, scancode: byte, stray: byte)
    requires m.Ok() && k.on && scancode < 58 && scancode != 42 && scancode != k.last && pos < 2000
    requires var c := if k.shift == k.caps then m.plain[scancode] else m.shifted[scancode];
             c != 8 && c != 10 && c != 27
    ensures var c := if k.shift == k.caps then m.plain[scancode] else m.shifted[scancode];
            && Isr(m, k, scancode, stray)
               == k.(buffer := k.buffer[k.index := c], index := (k.index + 1) % 256, last := scancode)
            && Drawable(m, k, pos, scancode, stray)
            && var (g', pos') := ScreenIsr(m, k, g, pos, scancode, stray);
               if pos < 1999 then pos' == pos + 1 && g' == g[pos := Inked(c, 15)]
               else && pos' == 1920 && g'[1919] == Inked(c, 15)
                    && (forall j :: 0 <= j < 1919 ==> g'[j] == g[j + 80])
                    && forall j :: 1920 <= j < 2000 ==> g'[j] == Cell(32, 15)
  {
  }

  /** With the cursor behind the screen it is not seen, but the cursor moves on. */
  lemma PrintableKeyUnseen(m: Keymap, k: Keys, g: Grid, pos: nat, scancode: byte, stray: byte)
    requires m.Ok() && k.on && scancode < 58 && scancode != 42 && scancode != k.last && 2000 <= pos < 16384
    requires var c := if k.shift == k.caps then m.plain[scancode] else m.shifted[scancode];
             c != 8 && c != 10 && c != 27
    ensures Drawable(m, k, pos, scancode, stray)
    ensures ScreenIsr(m, k, g, pos, scancode, stray) == (g, pos + 1)
  {
  }

  /** A key from 59 up, other than the arrow, has a plain character only. */
  lemma UpperKey(m: Keymap, k: Keys, scancode: byte, stray: byte)
    requires m.Ok() && k.on && 58 < scancode < 128 && scancode != 75 && scancode != k.last
    requires var c := if k.shift == k.caps then m.plain[scancode] else stray; c != 8 && c != 10 && c != 27
    ensures var c := if k.shift == k.caps then m.plain[scancode] else stray;
            Isr(m, k, scancode, stray)
            == k.(buffer := k.buffer[k.index := c], index := (k.index + 1) % 256, last := scancode)
  {
  }

  /** Backspace: the last character leaves the line, and its cell on the screen becomes empty. */
  lemma BackspaceKey(m: Keymap, k: Keys, g: Grid, pos: nat, scancode: byte, stray: byte)
    requires m.Ok() && k.on && scancode < 58 && scancode != 42 && scancode != k.last && 0 < pos < 2000
    requires TableChar(m, k, scancode) == 8
    ensures Drawable(m, k, pos, scancode, stray)
    ensures k.index > 0 ==>
              && Isr(m, k, scancode, stray)
                 == k.(buffer := k.buffer[k.index - 1 := 0], index := k.index - 1, last := scancode)
              && ScreenIsr(m, k, g, pos, scancode, stray) == (g[pos - 1 := Cell(0, 15)], pos - 1)
    ensures k.index == 0 ==>
              && Isr(m, k, scancode, stray) == k.(last := scancode)
              && ScreenIsr(m, k, g, pos, scancode, stray) == (g, pos)
  {
  }

  /** Enter: the line is closed, nothing is drawn. */
  lemma EnterKey(m: Keymap, k: Keys, g: Grid, pos: nat, scancode: byte, stray: byte)
    requires m.Ok() && k.on && scancode < 58 && scancode != 42 && scancode != k.last && pos < 2000
    requires TableChar(m, k, scancode) == 10
    ensures Isr(m, k, scancode, stray) == k.(on := false, last := scancode)
    ensures Drawable(m, k, pos, scancode, stray) && ScreenIsr(m, k, g, pos, scancode, stray) == (g, pos)
  {
  }

  /** ESC: an empty buffer and a blank screen with the prompt, but an index that has moved on. */
  lemma EscapeKey(m: Keymap, k: Keys, g: Grid, pos: nat, scancode: byte, stray: byte)
    requires m.Ok() && k.on && scancode < 58 && scancode != 42 && scancode != k.last && pos < 2000
    requires TableChar(m, k, scancode) == 27
    ensures Isr(m, k, scancode, stray)
            == k.(buffer := seq(256, _ => 0), index := (k.index + 1) % 256, last := scancode)
    ensures Drawable(m, k, pos, scancode, stray)
    ensures var (g', pos') := ScreenIsr(m, k, g, pos, scancode, stray);
            && pos' == 2 && g'[0] == Cell(0x3E, 15) && g'[1] == Cell(0x20, 15)
            && forall j :: 2 <= j < 2000 ==> g'[j] == Cell(0x20, 7)
  {
    StringPrinted(Cleared(), 0, PROMPT, WHITE);
    hide Print;
  }

  /** The arrow: only the cursor moves, one cell to the left, not past column 2. */
  lemma ArrowKey(m: Keymap, k: Keys, g: Grid, pos: nat, stray: byte)
    requires m.Ok() && k.on && k.last != 75 && pos < 2000 && pos % 80 != 0
    requires var c := if k.shift == k.caps then m.plain[75] else stray; c != 8 && c != 10 && c != 27
    ensures Isr(m, k, 75, stray) == k.(last := 75)
    ensures Drawable(m, k, pos, 75, stray)
    ensures ScreenIsr(m, k, g, pos, 75, stray) == (g, if pos % 80 == 2 then pos else pos - 1)
  {
  }

  /** Shift is held between press and release, caps lock turns over; neither types anything. */
  lemma ToggleKeys(m: Keymap, k: Keys, g: Grid, pos: nat, stray: byte)
    requires m.Ok() && k.on && pos < 2000
    ensures Isr(m, k, 42, stray) == k.(shift := true, last := 42)
    ensures Isr(m, k, 170, stray) == k.(shift := false, last := 170)
    ensures Isr(m, k, 58, stray) == k.(caps := !k.caps, last := 58)
    ensures forall sc: byte :: sc == 42 || sc == 170 || sc == 58 ==>
              Drawable(m, k, pos, sc, stray) && ScreenIsr(m, k, g, pos, sc, stray) == (g, pos)
  {
  }

  /** A release is remembered, a repeated press is not acted on, and without input only the index is reset. */
  lemma SilentKeys(m: Keymap, k: Keys, scancode: byte, stray: byte)
    requires m.Ok()
    ensures k.on && scancode >= 128 && scancode != 170 ==> Isr(m, k, scancode, stray) == k.(last := scancode)
    ensures k.on && scancode < 128 && scancode != 42 && scancode != 58 && scancode == k.last
            ==> Isr(m, k, scancode, stray) == k
    ensures !k.on ==> Isr(m, k, scancode, stray) == k.(index := 0)
  {
  }

  lemma SilentKeysDrawNothing(m: Keymap, k: Keys, g: Grid, pos: nat, scancode: byte, stray: byte)
    requires m.Ok() && pos < 2000 && (!k.on || scancode >= 128 || scancode == k.last)
    ensures Drawable(m, k, pos, scancode, stray) && ScreenIsr(m, k, g, pos, scancode, stray) == (g, pos)
  {
  }
}
