// System call 4: a line is read with interrupts enabled. Whatever the interleaving of the call's own
// steps with keyboard interrupts, the caller gets the line the accepted keys spell.
module LineInput {
  import opened Layout
  import opened Terminal
  import opened Keyboard

  // ----- what was typed -----

  /** An accepted key: its character, and whether it was the left arrow. */
  datatype Key = Key(typed: byte, left: bool)

  const ENTER := Key(NEWLINE, false)

  /** Turning scancodes into keys needs only the toggles and the last scancode. */
  datatype Decoder = Decoder(shift: bool, caps: bool, last: int, keys: seq<Key>)

  function Decode(m: Keymap, d: Decoder, s: Scan): Decoder
    requires m.Ok()
  {
    var shift := if s.code == LSHIFT then true else if s.code == LSHIFT + KEYUP then false else d.shift;
    var caps := if s.code == CAPS then !d.caps else d.caps;
    if !IsPress(s.code) then Decoder(shift, caps, s.code, d.keys)
    else if s.code == d.last then Decoder(shift, caps, d.last, d.keys)
    else
      var key := Key(m.Char(s.code, shift != caps, s.stray), s.code == LEFTARROW);
      Decoder(shift, caps, s.code, d.keys + [key])
  }

  function DecodeAll(m: Keymap, d: Decoder, scans: seq<Scan>): Decoder
    requires m.Ok()
  {
    if scans == [] then d else Decode(m, DecodeAll(m, d, scans[..|scans| - 1]), scans[|scans| - 1])
  }

  // ----- the line it spells -----

  datatype Line = Line(text: seq<byte>, ended: bool)

  /** A newline ends the line, a backspace takes back one character, ESC all of them, an arrow does
      nothing, and anything else is added. */
  function Extended(l: Line, key: Key): Line {
    if l.ended then l
    else if key.typed == NEWLINE then l.(ended := true)
    else if key.typed == BACKSPACE then (if l.text == [] then l else l.(text := l.text[..|l.text| - 1]))
    else if key.typed == ESC then l.(text := [])
    else if key.left then l
    else l.(text := l.text + [key.typed])
  }

  function Spell(keys: seq<Key>): Line {
    if keys == [] then Line([], false) else Extended(Spell(keys[..|keys| - 1]), keys[|keys| - 1])
  }

  /** Which keys a line of `n` characters can take: all but Enter and the arrow need the one-byte index
      not to have wrapped, and ESC, which empties the buffer without resetting the index, is right only
      where the index is zero afterwards. */
  predicate KeyOk(n: nat, key: Key) {
    if key.typed == NEWLINE then true
    else if key.typed == ESC then (if key.left then n % 256 == 0 else n == 255)
    else (key.left && key.typed != BACKSPACE) || n < 256
  }

  /** Every key up to the end of the line can be taken. */
  ghost predicate Fits(keys: seq<Key>) {
    forall n :: 0 <= n < |keys| ==> Takes(Spell(keys[..n]), keys[n])
  }

  predicate Takes(l: Line, key: Key) {
    l.ended || KeyOk(|l.text|, key)
  }

  /** A line as the 256-byte buffer holds it. */
  function Padded(text: seq<byte>): LineBuffer
    requires |text| <= 256
  {
    text + seq(256 - |text|, _ => 0)
  }

  lemma SpellMore(keys: seq<Key>, key: Key)
    ensures Spell(keys + [key]) == Extended(Spell(keys), key)
  {
    assert (keys + [key])[..|keys|] == keys;
  }

  lemma FitsMore(keys: seq<Key>, key: Key)
    ensures Fits(keys + [key]) <==> Fits(keys) && Takes(Spell(keys), key)
  {
    hide Spell, Takes;
    var all := keys + [key];
    assert forall n :: 0 <= n <= |keys| ==> all[..n] == keys[..n];
    assert keys[..|keys|] == keys && all[|keys|] == key;
    if Fits(all) {
      assert Takes(Spell(all[..|keys|]), all[|keys|]);
      forall n | 0 <= n < |keys| ensures Takes(Spell(keys[..n]), keys[n]) {
        assert Takes(Spell(all[..n]), all[n]);
      }
    }
  }

  // ----- the driver, key by key -----

  /** What a key does to a listening driver. */
  function Struck(k: Keys, key: Key): Keys {
    if !k.on then k
    else
      var k' := Applied(k, EffectOf(k, if key.left then LEFTARROW else 0, key.typed), key.typed);
      if key.typed == ESC then k'.(buffer := seq(256, _ => 0)) else k'
  }

  function StruckAll(k: Keys, keys: seq<Key>): Keys {
    if keys == [] then k else Struck(StruckAll(k, keys[..|keys| - 1]), keys[|keys| - 1])
  }

  /** The driver holds the line and nothing else, and listens until the line ends. */
  ghost predicate InStep(k: Keys, l: Line) {
    && |l.text| <= 256 && k.on == !l.ended && k.buffer == Padded(l.text)
    && (k.on ==> k.index == |l.text| % 256)
  }

  lemma KeyTaken(k: Keys, l: Line, key: Key)
    requires InStep(k, l) && Takes(l, key)
    ensures InStep(Struck(k, key), Extended(l, key))
  {
    hide Padded;
    PaddedEmpty();
    if |l.text| < 256 { PaddedTyped(l.text, key.typed); }
    if l.text != [] { PaddedErased(l.text); }
  }

  lemma PaddedEmpty()
    ensures Padded([]) == seq(256, _ => 0)
  {
  }

  lemma PaddedTyped(text: seq<byte>, c: byte)
    requires |text| < 256
    ensures Padded(text)[|text| := c] == Padded(text + [c])
  {
  }

  lemma PaddedErased(text: seq<byte>)
    requires 0 < |text| <= 256
    ensures Padded(text)[|text| - 1 := 0] == Padded(text[..|text| - 1])
  {
  }

  lemma {:induction false} KeysTaken(k: Keys, keys: seq<Key>)
    requires InStep(k, Line([], false)) && Fits(keys)
    ensures InStep(StruckAll(k, keys), Spell(keys))
    decreases |keys|
  {
    hide InStep, Takes;
    if keys != [] {
      var init, key := keys[..|keys| - 1], keys[|keys| - 1];
      assert keys == init + [key];
      FitsMore(init, key);
      KeysTaken(k, init);
      KeyTaken(StruckAll(k, init), Spell(init), key);
    }
  }

  // ----- exactly when lines arrive -----

  ghost predicate Plain(more: seq<byte>) {
    forall i :: 0 <= i < |more| ==> more[i] != BACKSPACE && more[i] != NEWLINE && more[i] != ESC
  }

  function Chars(more: seq<byte>): (keys: seq<Key>)
    ensures |keys| == |more|
  {
    seq(|more|, i requires 0 <= i < |more| => Key(more[i], false))
  }

  /** The buffer that is handed over when the user goes on with `more` and ends the line. */
  function Arrives(k: Keys, more: seq<byte>): LineBuffer {
    Struck(StruckAll(k, Chars(more)), ENTER).buffer
  }

  /** However the user goes on, the line that was begun with `text` arrives. */
  ghost predicate Safe(k: Keys, text: seq<byte>) {
    |text| <= 256 &&
    forall more :: Plain(more) && |text| + |more| <= 256 ==> Arrives(k, more) == Padded(text + more)
  }

  lemma {:induction false} PlainTaken(k: Keys, l: Line, more: seq<byte>)
    requires InStep(k, l) && !l.ended && Plain(more) && |l.text| + |more| <= 256
    ensures InStep(StruckAll(k, Chars(more)), Line(l.text + more, false))
    decreases |more|
  {
    hide InStep;
    if more != [] {
      var init, c := more[..|more| - 1], more[|more| - 1];
      PlainTaken(k, l, init);
      assert Chars(more)[..|more| - 1] == Chars(init);
      KeyTaken(StruckAll(k, Chars(init)), Line(l.text + init, false), Key(c, false)) by {
        assert Takes(Line(l.text + init, false), Key(c, false));
      }
      assert l.text + init + [c] == l.text + more;
    } else {
      assert l.text + [] == l.text && Line(l.text, false) == l;
    }
  }

  lemma InStepIsSafe(k: Keys, l: Line)
    requires InStep(k, l) && !l.ended
    ensures Safe(k, l.text)
  {
    forall more | Plain(more) && |l.text| + |more| <= 256 ensures Arrives(k, more) == Padded(l.text + more) {
      PlainTaken(k, l, more);
      KeyTaken(StruckAll(k, Chars(more)), Line(l.text + more, false), ENTER);
    }
  }

  /** A key the line cannot take loses it: ended at once, or after one more character, it arrives wrong. */
  lemma BadKeyIsUnsafe(k: Keys, l: Line, key: Key)
    requires InStep(k, l) && !l.ended && !KeyOk(|l.text|, key)
    ensures !Safe(Struck(k, key), Extended(l, key).text)
  {
    var k', text := Struck(k, key), Extended(l, key).text;
    if |text| <= 256 {
      var j := k'.index;
      assert j != |text| && |text| < 256;
      OneMore(k', 1);
      assert Plain([1]);
      assert Arrives(k', [1])[j] == 1;
      if j < |text| {
        assert Arrives(k', [])  == k'.buffer by { NoneMore(k'); }
        assert k'.buffer == l.text && l.text[255] == k'.buffer[255];
        assert Padded(text + [1])[255] == 1 && Arrives(k', [1])[255] == k'.buffer[255];
        assert Padded(text + [])[255] == 0;
        assert Plain([]);
      } else {
        assert Padded(text + [1])[|text|] == 1 && Arrives(k', [1])[|text|] == 0;
      }
    }
  }

  lemma OneMore(k: Keys, c: byte)
    requires k.on && Plain([c])
    ensures Arrives(k, [c]) == k.buffer[k.index := c]
  {
    assert Chars([c])[..0] == [] && Chars([c])[0] == Key(c, false);
    assert StruckAll(k, []) == k;
    assert StruckAll(k, Chars([c])) == Struck(k, Key(c, false));
  }

  lemma NoneMore(k: Keys)
    ensures Arrives(k, []) == k.buffer
  {
    assert Chars([]) == [];
  }

  ghost predicate AlwaysSafe(k: Keys, keys: seq<Key>) {
    forall n :: 0 <= n <= |keys| ==> SafeAfter(k, keys[..n])
  }

  ghost predicate SafeAfter(k: Keys, keys: seq<Key>) {
    !Spell(keys).ended ==> Safe(StruckAll(k, keys), Spell(keys).text)
  }

  /** Lines arrive, wherever one breaks off and goes on with plain characters, exactly when every key
      was one the line could take: delivery fails after an ESC that leaves the index off zero, and
      after a key that follows the 256th character. */
  lemma {:induction false} DeliveryIff(k: Keys, keys: seq<Key>)
    requires InStep(k, Line([], false))
    ensures AlwaysSafe(k, keys) <==> Fits(keys)
    decreases |keys|
  {
    hide InStep, Safe, KeyOk, Struck, Extended;
    assert keys[..|keys|] == keys;
    if keys == [] {
      InStepIsSafe(k, Line([], false));
    } else {
      var init, key := keys[..|keys| - 1], keys[|keys| - 1];
      assert keys == init + [key];
      assert forall n :: 0 <= n <= |init| ==> init[..n] == keys[..n];
      assert AlwaysSafe(k, keys) <==> AlwaysSafe(k, init) && SafeAfter(k, keys) by {
        SafeMore(k, init, key);
      }
      DeliveryIff(k, init);
      FitsMore(init, key);
      if Fits(init) {
        KeysTaken(k, init);
        if Takes(Spell(init), key) {
          KeyTaken(StruckAll(k, init), Spell(init), key);
          if !Spell(keys).ended { InStepIsSafe(StruckAll(k, keys), Spell(keys)); }
        } else {
          BadKeyIsUnsafe(StruckAll(k, init), Spell(init), key);
          BadKeyGoesOn(Spell(init), key);
        }
      }
    }
  }

  lemma SafeMore(k: Keys, init: seq<Key>, key: Key)
    ensures AlwaysSafe(k, init + [key]) <==> AlwaysSafe(k, init) && SafeAfter(k, init + [key])
  {
    hide SafeAfter;
    var keys := init + [key];
    assert keys[..|keys|] == keys;
    assert forall n :: 0 <= n <= |init| ==> init[..n] == keys[..n];
    if AlwaysSafe(k, keys) {
      forall n | 0 <= n <= |init| ensures SafeAfter(k, init[..n]) { assert SafeAfter(k, keys[..n]); }
      assert SafeAfter(k, keys[..|keys|]);
    }
  }

  lemma BadKeyGoesOn(l: Line, key: Key)
    requires !l.ended && !KeyOk(|l.text|, key)
    ensures !Extended(l, key).ended
  {
  }

  /** For instance: after ESC on a line of `n` characters, the next one arrives in place n + 1. */
  lemma EscapeShiftsLine(k: Keys, x: byte)
    requires k.on && k.index < 255 && Plain([x])
    ensures Arrives(Struck(k, Key(ESC, false)), [x]) == Padded([])[k.index + 1 := x]
  {
    OneMore(Struck(k, Key(ESC, false)), x);
  }

  // ----- the interrupt routine follows -----

  /** The driver holds the line, and while it listens, the decoder's toggles too. */
  ghost predicate Follows(k: Keys, d: Decoder) {
    && InStep(k, Spell(d.keys))
    && (k.on ==> k.shift == d.shift && k.caps == d.caps && k.last == d.last)
  }

  /** An acting interrupt is a key struck. */
  lemma IsrStrikes(m: Keymap, k: Keys, s: Scan)
    requires m.Ok() && k.on
    ensures var k1 := Toggled(k, s.code);
            var c := m.Char(s.code, k1.shift != k1.caps, s.stray);
            Isr(m, k, s.code, s.stray) ==
            if IsPress(s.code) && s.code != k.last then Struck(k1, Key(c, s.code == LEFTARROW)).(last := s.code)
            else k1.(last := s.code)
  {
  }

  lemma IsrFollows(m: Keymap, k: Keys, d: Decoder, s: Scan)
    requires m.Ok() && Follows(k, d) && Fits(Decode(m, d, s).keys)
    ensures Follows(Isr(m, k, s.code, s.stray), Decode(m, d, s))
  {
    hide Padded, Spell, Fits, Extended, Takes, Struck, Applied;
    var d' := Decode(m, d, s);
    if d'.keys != d.keys {
      var key := d'.keys[|d.keys|];
      assert d'.keys == d.keys + [key];
      SpellMore(d.keys, key);
      FitsMore(d.keys, key);
      if k.on {
        var k1 := Toggled(k, s.code);
        IsrStrikes(m, k, s);
        KeyTaken(k1, Spell(d.keys), key);
        StrikeKeepsToggles(k1, key);
      } else {
        EndedStays(Spell(d.keys), key);
      }
    } else if k.on {
      IsrStrikes(m, k, s);
    }
  }

  lemma StrikeKeepsToggles(k: Keys, key: Key)
    ensures Struck(k, key).shift == k.shift && Struck(k, key).caps == k.caps
  {
  }

  lemma EndedStays(l: Line, key: Key)
    requires l.ended
    ensures Extended(l, key) == l
  {
  }

  lemma {:induction false} InterruptsFollow(m: Keymap, k: Keys, d: Decoder, scans: seq<Scan>)
    requires m.Ok() && Follows(k, d) && Fits(DecodeAll(m, d, scans).keys)
    ensures Follows(Interrupts(m, k, scans), DecodeAll(m, d, scans))
    decreases |scans|
  {
    hide Follows, Isr, Decode;
    if scans != [] {
      var init := scans[..|scans| - 1];
      DecodeGrows(m, DecodeAll(m, d, init), scans[|scans| - 1]);
      InterruptsFollow(m, k, d, init);
      IsrFollows(m, Interrupts(m, k, init), DecodeAll(m, d, init), scans[|scans| - 1]);
    }
  }

  lemma DecodeGrows(m: Keymap, d: Decoder, s: Scan)
    requires m.Ok() && Fits(Decode(m, d, s).keys)
    ensures Fits(d.keys)
  {
    var d' := Decode(m, d, s);
    if d'.keys != d.keys { FitsMore(d.keys, d'.keys[|d.keys|]); }
  }

  // ----- the line on the screen -----

  ghost predicate ShowsText(g: Grid, pos: nat, text: seq<byte>) {
    && pos < 2000 && |text| <= pos
    && forall i :: 0 <= i < |text| ==> g[pos - |text| + i].ch == text[i]
  }

  /** No key before the end of the line moves the cursor without typing or erasing. */
  ghost predicate ArrowFree(keys: seq<Key>) {
    forall n :: 0 <= n < |keys| ==> Still(Spell(keys[..n]), keys[n])
  }

  predicate Still(l: Line, key: Key) {
    || l.ended || !key.left || key.typed == NEWLINE || key.typed == ESC
    || (key.typed == BACKSPACE && l.text != [])
  }

  lemma ArrowFreeMore(keys: seq<Key>, key: Key)
    ensures ArrowFree(keys + [key]) <==> ArrowFree(keys) && Still(Spell(keys), key)
  {
    hide Spell, Still;
    var all := keys + [key];
    assert forall n :: 0 <= n <= |keys| ==> all[..n] == keys[..n];
    assert keys[..|keys|] == keys && all[|keys|] == key;
    if ArrowFree(all) {
      assert Still(Spell(all[..|keys|]), all[|keys|]);
      forall n | 0 <= n < |keys| ensures Still(Spell(keys[..n]), keys[n]) {
        assert Still(Spell(all[..n]), all[n]);
      }
    }
  }

  lemma TypedShows(g: Grid, pos: nat, text: seq<byte>, c: byte)
    requires ShowsText(g, pos, text) && |text| < 256
    ensures var (g', pos') := Drawn(g, pos, Typed, c); ShowsText(g', pos', text + [c])
  {
    hide Painted;
    PaintedChar(c, WHITE, 0);
    var (g', pos') := Drawn(g, pos, Typed, c);
    var text' := text + [c];
    forall i | 0 <= i < |text'| ensures g'[pos' - |text'| + i].ch == text'[i] {
      if i < |text| {
        assert g[pos - |text| + i].ch == text[i];
        if pos == 1999 { assert ScrolledUp(g)[1919 - |text| + i] == g[1999 - |text| + i]; }
      }
    }
  }

  lemma ErasedShows(g: Grid, pos: nat, text: seq<byte>, c: byte)
    requires ShowsText(g, pos, text) && text != []
    ensures var (g', pos') := Drawn(g, pos, Erased, c); ShowsText(g', pos', text[..|text| - 1])
  {
    hide Painted;
    var (g', pos') := Drawn(g, pos, Erased, c);
    var text' := text[..|text| - 1];
    forall i | 0 <= i < |text'| ensures g'[pos' - |text'| + i].ch == text'[i] {
      assert g[pos - |text| + i].ch == text[i];
    }
  }

  lemma IsrShows(m: Keymap, k: Keys, d: Decoder, g: Grid, pos: nat, s: Scan)
    requires m.Ok() && Follows(k, d) && Fits(Decode(m, d, s).keys) && ArrowFree(Decode(m, d, s).keys)
    requires ShowsText(g, pos, Spell(d.keys).text)
    ensures Drawable(m, k, pos, s.code, s.stray)
    ensures var (g', pos') := ScreenIsr(m, k, g, pos, s.code, s.stray);
            ShowsText(g', pos', Spell(Decode(m, d, s).keys).text)
  {
    hide Padded, Spell, Fits, ArrowFree, Drawn, Print, Applied;
    var p, l := Press(m, k, s.code, s.stray), Spell(d.keys);
    assert |l.text| % 256 == 0 ==> l.text == [] || |l.text| == 256;
    if p.acts {
      var key := Key(p.c, s.code == LEFTARROW);
      assert Decode(m, d, s).keys == d.keys + [key];
      SpellMore(d.keys, key);
      FitsMore(d.keys, key);
      ArrowFreeMore(d.keys, key);
      NoDrawing(k, g, pos, p.c);
      PromptDrawn();
      if p.effect.Typed? && p.c != ESC {
        TypedShows(g, pos, l.text, p.c);
      } else if p.effect.Erased? {
        ErasedShows(g, pos, l.text, p.c);
      }
    } else if Decode(m, d, s).keys != d.keys {
      var key := Decode(m, d, s).keys[|d.keys|];
      assert Decode(m, d, s).keys == d.keys + [key];
      SpellMore(d.keys, key);
    }
  }

  /** The cells before the cursor spell the line the keys spell, which is the one that is delivered:
      across wraps and scrolls, and still after Enter. */
  lemma {:induction false} InterruptsShow(m: Keymap, k: Keys, d: Decoder, g: Grid, pos: nat, scans: seq<Scan>)
    requires m.Ok() && Follows(k, d) && ShowsText(g, pos, Spell(d.keys).text)
    requires Fits(DecodeAll(m, d, scans).keys) && ArrowFree(DecodeAll(m, d, scans).keys)
    ensures Follows(Interrupts(m, k, scans), DecodeAll(m, d, scans))
    ensures var (g', pos') := Screens(m, k, g, pos, scans);
            ShowsText(g', pos', Spell(DecodeAll(m, d, scans).keys).text)
    decreases |scans|
  {
    hide Follows, Isr, ScreenIsr, Decode, ShowsText, Fits, ArrowFree, Spell;
    InterruptsFollow(m, k, d, scans);
    if scans != [] {
      var init, s := scans[..|scans| - 1], scans[|scans| - 1];
      var before := DecodeAll(m, d, init);
      DecodeGrows(m, before, s);
      ArrowFreeGrows(m, before, s);
      InterruptsShow(m, k, d, g, pos, init);
      var (g1, pos1) := Screens(m, k, g, pos, init);
      IsrShows(m, Interrupts(m, k, init), before, g1, pos1, s);
    }
  }

  lemma ArrowFreeGrows(m: Keymap, d: Decoder, s: Scan)
    requires m.Ok() && ArrowFree(Decode(m, d, s).keys)
    ensures ArrowFree(d.keys)
  {
    var d' := Decode(m, d, s);
    if d'.keys != d.keys { ArrowFreeMore(d.keys, d'.keys[|d.keys|]); }
  }

  // ----- the system call, interrupted anywhere -----

  datatype Call =
    | Waiting(keys: Keys)
    | Copying(keys: Keys, copied: seq<byte>)
    | Finished(keys: Keys, line: seq<byte>)

  datatype Event = Interrupt(scan: Scan) | Proceed

  /** One interrupt, or one step of the call: a look at the flag, one byte of the copy, or, after the
      last byte, the reset. */
  function CallStep(m: Keymap, c: Call, e: Event): Call
    requires m.Ok()
  {
    match e
    case Interrupt(s) => c.(keys := Isr(m, c.keys, s.code, s.stray))
    case Proceed =>
      match c
      case Waiting(k) => if k.on then c else Copying(k, [])
      case Copying(k, copied) =>
        if |copied| < 256 then Copying(k, copied + [k.buffer[|copied|]])
        else Finished(k.(index := 0, buffer := Padded([])), copied)
      case Finished(_, _) => c
  }

  function CallRun(m: Keymap, c: Call, events: seq<Event>): Call
    requires m.Ok()
  {
    if events == [] then c
    else CallStep(m, CallRun(m, c, events[..|events| - 1]), events[|events| - 1])
  }

  function ScansOf(events: seq<Event>): seq<Scan> {
    if events == [] then []
    else
      var e := events[|events| - 1];
      ScansOf(events[..|events| - 1]) + (if e.Interrupt? then [e.scan] else [])
  }

  ghost predicate CallOk(c: Call, d: Decoder) {
    var l := Spell(d.keys);
    match c
    case Waiting(k) => Follows(k, d)
    case Copying(k, copied) =>
      Follows(k, d) && l.ended && |copied| <= 256 && copied == Padded(l.text)[..|copied|]
    case Finished(k, line) =>
      l.ended && |l.text| <= 256 && line == Padded(l.text) && !k.on && k.index == 0 && k.buffer == Padded([])
  }

  lemma ProceedKeeps(m: Keymap, c: Call, d: Decoder)
    requires m.Ok() && CallOk(c, d)
    ensures CallOk(CallStep(m, c, Proceed), d)
  {
    hide Padded, Spell;
    if c.Copying? {
      var whole := Padded(Spell(d.keys).text);
      if |c.copied| < 256 {
        assert whole[..|c.copied| + 1] == whole[..|c.copied|] + [whole[|c.copied|]];
      } else {
        assert whole[..256] == whole;
      }
    }
  }

  lemma InterruptKeeps(m: Keymap, c: Call, d: Decoder, s: Scan)
    requires m.Ok() && CallOk(c, d) && Fits(Decode(m, d, s).keys)
    ensures CallOk(CallStep(m, c, Interrupt(s)), Decode(m, d, s))
  {
    hide Padded, Spell, Fits;
    var d' := Decode(m, d, s);
    if !c.Finished? { IsrFollows(m, c.keys, d, s); }
    if d'.keys != d.keys {
      var key := d'.keys[|d.keys|];
      assert d'.keys == d.keys + [key];
      SpellMore(d.keys, key);
    }
  }

  lemma {:induction false} CallStaysOk(m: Keymap, c: Call, d: Decoder, events: seq<Event>)
    requires m.Ok() && CallOk(c, d) && Fits(DecodeAll(m, d, ScansOf(events)).keys)
    ensures CallOk(CallRun(m, c, events), DecodeAll(m, d, ScansOf(events)))
    decreases |events|
  {
    hide CallOk, CallStep, Decode;
    if events != [] {
      var init, e := events[..|events| - 1], events[|events| - 1];
      var before := DecodeAll(m, d, ScansOf(init));
      if e.Interrupt? {
        assert ScansOf(events)[..|ScansOf(events)| - 1] == ScansOf(init);
        DecodeGrows(m, before, e.scan);
        CallStaysOk(m, c, d, init);
        InterruptKeeps(m, CallRun(m, c, init), before, e.scan);
      } else {
        assert ScansOf(events) == ScansOf(init);
        CallStaysOk(m, c, d, init);
        ProceedKeeps(m, CallRun(m, c, init), before);
      }
    }
  }

  /** From a reset driver, activated, under any interleaving: a call that has finished delivers the
      256-byte image of exactly the line the keys spell up to Enter, and leaves the driver reset, ready for
      the next call. */
  lemma LineIsDelivered(m: Keymap, k: Keys, events: seq<Event>)
    requires m.Ok() && k.index == 0 && k.buffer == Padded([])
    requires var d := Decoder(k.shift, k.caps, k.last, []);
             Fits(DecodeAll(m, d, ScansOf(events)).keys)
    ensures var l := Spell(DecodeAll(m, Decoder(k.shift, k.caps, k.last, []), ScansOf(events)).keys);
            var c := CallRun(m, Waiting(k.(on := true)), events);
            && |l.text| <= 256 && (c.Finished? ==> (l.ended && c.line == Padded(l.text)
                                                && c.keys.buffer == Padded([]) && c.keys.index == 0 && !c.keys.on))
            && (c.Waiting? && c.keys.on ==> !l.ended)
  {
    hide Fits, Padded;
    var d := Decoder(k.shift, k.caps, k.last, []);
    CallStaysOk(m, Waiting(k.(on := true)), d, events);
  }

  /** And if no arrow moved the cursor, the line delivered is the one on the screen. */
  lemma DeliveredLineIsOnScreen(m: Keymap, k: Keys, events: seq<Event>, g: Grid, pos: nat)
    requires m.Ok() && k.index == 0 && k.buffer == Padded([]) && pos < 2000
    requires var keys := DecodeAll(m, Decoder(k.shift, k.caps, k.last, []), ScansOf(events)).keys;
             Fits(keys) && ArrowFree(keys)
    ensures var l := Spell(DecodeAll(m, Decoder(k.shift, k.caps, k.last, []), ScansOf(events)).keys);
            var c := CallRun(m, Waiting(k.(on := true)), events);
            var (g', pos') := Screens(m, k.(on := true), g, pos, ScansOf(events));
            ShowsText(g', pos', l.text) && (c.Finished? ==> |l.text| <= 256 && c.line == Padded(l.text))
  {
    hide Fits, Padded, ArrowFree;
    LineIsDelivered(m, k, events);
    InterruptsShow(m, k.(on := true), Decoder(k.shift, k.caps, k.last, []), g, pos, ScansOf(events));
  }

  /** After Enter, interrupts change nothing but the index. */
  lemma {:induction false} ClosedLineIsFrozen(m: Keymap, k: Keys, scans: seq<Scan>)
    requires m.Ok() && !k.on
    ensures Interrupts(m, k, scans) == if scans == [] then k else k.(index := 0)
    decreases |scans|
  {
    if scans != [] { ClosedLineIsFrozen(m, k, scans[..|scans| - 1]); }
  }

  /** How many of its own steps a call has left once the line is closed. */
  function StepsLeft(c: Call): int {
    match c
    case Waiting(_) => 258
    case Copying(_, copied) => 257 - |copied|
    case Finished(_, _) => 0
  }

  function Proceeds(events: seq<Event>): nat {
    if events == [] then 0
    else Proceeds(events[..|events| - 1]) + (if events[|events| - 1].Proceed? then 1 else 0)
  }

  /** Once the line is closed, 258 steps of its own finish the call, whatever interrupts come between. */
  lemma {:induction false} CallEnds(m: Keymap, c: Call, events: seq<Event>)
    requires m.Ok() && !c.keys.on && (c.Copying? ==> |c.copied| <= 256)
    ensures var c' := CallRun(m, c, events);
            && !c'.keys.on && (c'.Copying? ==> |c'.copied| <= 256)
            && (c'.Finished? || StepsLeft(c') <= StepsLeft(c) - Proceeds(events))
    ensures Proceeds(events) >= 258 ==> CallRun(m, c, events).Finished?
    decreases |events|
  {
    hide Isr;
    if events != [] {
      var init, e := events[..|events| - 1], events[|events| - 1];
      CallEnds(m, c, init);
      if e.Interrupt? { SilentKeys(m, CallRun(m, c, init).keys, e.scan.code, e.scan.stray); }
    }
  }

  // ----- from the key tables to the caller -----

  /** The characters of keys pressed one after the other, read from one table. */
  function CharsOf(table: seq<byte>, codes: seq<byte>): (chars: seq<byte>)
    requires forall i :: 0 <= i < |codes| ==> codes[i] < |table|
    ensures |chars| == |codes| && forall i :: 0 <= i < |codes| ==> chars[i] == table[codes[i]]
  {
    seq(|codes|, i requires 0 <= i < |codes| => table[codes[i]])
  }

  /** Keys of the shared part of the tables, each different from the one before it. */
  ghost predicate Pressed(last: int, scans: seq<Scan>) {
    && (forall i :: 0 <= i < |scans| ==> scans[i].code < 58 && scans[i].code != 42)
    && (scans != [] ==> scans[0].code != last)
    && forall i, j :: 0 <= i && j == i + 1 < |scans| ==> scans[i].code != scans[j].code
  }

  function CodesOf(scans: seq<Scan>): (codes: seq<byte>)
    ensures |codes| == |scans| && forall i :: 0 <= i < |scans| ==> codes[i] == scans[i].code
  {
    seq(|scans|, i requires 0 <= i < |scans| => scans[i].code)
  }

  /** They are decoded from the plain table, or from the shifted one when exactly one of shift and caps
      lock is on. */
  lemma {:induction false} KeysFromTable(m: Keymap, d: Decoder, scans: seq<Scan>)
    requires m.Ok() && Pressed(d.last, scans)
    ensures var table := if d.shift == d.caps then m.plain else m.shifted;
            && (forall i :: 0 <= i < |scans| ==> CodesOf(scans)[i] < |table|)
            && DecodeAll(m, d, scans) ==
               Decoder(d.shift, d.caps, if scans == [] then d.last else scans[|scans| - 1].code,
                       d.keys + Chars(CharsOf(table, CodesOf(scans))))
    decreases |scans|
  {
    var table := if d.shift == d.caps then m.plain else m.shifted;
    if scans != [] {
      var n := |scans| - 1;
      var init := scans[..n];
      PressedFirst(d.last, scans, n);
      KeysFromTable(m, d, init);
      LastPressed(d.last, scans);
      assert Chars(CharsOf(table, CodesOf(scans)))
          == Chars(CharsOf(table, CodesOf(init))) + [Key(table[scans[n].code], false)];
    }
  }

  lemma PressedFirst(last: int, scans: seq<Scan>, n: nat)
    requires Pressed(last, scans) && n <= |scans|
    ensures Pressed(last, scans[..n])
  {
  }

  lemma LastPressed(last: int, scans: seq<Scan>)
    requires Pressed(last, scans) && scans != []
    ensures var n := |scans| - 1; scans[n].code != if n == 0 then last else scans[n - 1].code
  {
  }

  lemma {:induction false} CharsSpell(chars: seq<byte>)
    requires Plain(chars) && |chars| <= 256
    ensures Spell(Chars(chars)) == Line(chars, false) && Fits(Chars(chars))
    decreases |chars|
  {
    hide Takes;
    if chars != [] {
      var init, c := chars[..|chars| - 1], chars[|chars| - 1];
      CharsSpell(init);
      assert Chars(chars) == Chars(init) + [Key(c, false)];
      SpellMore(Chars(init), Key(c, false));
      FitsMore(Chars(init), Key(c, false));
      assert Takes(Line(init, false), Key(c, false)) by { KeyFits(init, c); }
    }
  }

  lemma KeyFits(text: seq<byte>, c: byte)
    requires |text| < 256
    ensures c != ESC ==> Takes(Line(text, false), Key(c, false))
    ensures Takes(Line(text, false), ENTER)
  {
  }

  /** End to end: up to 256 printable keys and Enter, in any interleaving with the call. A finished call has
      handed over the characters the key table has for them, in order, and zeroes behind. */
  lemma TypedLineIsDelivered(m: Keymap, k: Keys, scans: seq<Scan>, enter: Scan, events: seq<Event>)
    requires m.Ok() && k.index == 0 && k.buffer == seq(256, _ => 0)
    requires |scans| <= 256 && Pressed(k.last, scans + [enter]) && ScansOf(events) == scans + [enter]
    requires enter.code < 58 && forall i :: 0 <= i < |scans| ==> scans[i].code < 58
    requires var table := if k.shift == k.caps then m.plain else m.shifted;
             && table[enter.code] == 10
             && forall i :: 0 <= i < |scans| ==> table[scans[i].code] !in {8, 10, 27}
    ensures var c := CallRun(m, Waiting(k.(on := true)), events);
            c.Finished? ==>
              && |c.line| == 256
              && (forall i :: 0 <= i < |scans| ==>
                    c.line[i] == if k.shift == k.caps then m.plain[scans[i].code] else m.shifted[scans[i].code])
              && forall i :: |scans| <= i < 256 ==> c.line[i] == 0
  {
    hide Fits, Spell, Takes, CallRun, DecodeAll;
    var d := Decoder(k.shift, k.caps, k.last, []);
    var table := if k.shift == k.caps then m.plain else m.shifted;
    var all := scans + [enter];
    assert forall i :: 0 <= i < |scans| ==> all[i] == scans[i];
    assert all[|scans|] == enter;
    KeysFromTable(m, d, all);
    var chars := CharsOf(table, CodesOf(scans));
    assert [] + Chars(CharsOf(table, CodesOf(all))) == Chars(chars) + [ENTER];
    assert Plain(chars);
    CharsSpell(chars);
    SpellMore(Chars(chars), ENTER);
    FitsMore(Chars(chars), ENTER);
    EnterTaken(chars);
    assert k.buffer == Padded([]);
    LineIsDelivered(m, k, events);
  }

  lemma EnterTaken(chars: seq<byte>)
    ensures Takes(Line(chars, false), ENTER) && Extended(Line(chars, false), ENTER) == Line(chars, true)
  {
  }
}
