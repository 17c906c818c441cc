/** The input decoder (`ImTui_ImplNcurses_NewFrame`): drains the pending
    terminal codes of one frame into the GUI library's input record.

    Each element of `codes` is the result of one `wgetch` call, in order,
    and reading past the end gives `ERR`; each element of `mice` is the
    answer of one `getmouse` call (`None` when it fails), consumed one per
    `KEY_MOUSE` code. Key codes and mouse masks are those of ncurses 6 with
    mouse protocol version 2. */
module Input {
  import opened Pacing

  datatype Option<T> = None | Some(value: T)

  /** `KEY_MOUSE`, `KEY_DC`, `KEY_BACKSPACE` and the arrow keys. */
  const KeyMouse: int := 409
  const KeyDeleteChar: int := 330
  const KeyBackspace: int := 263
  const KeyLeft: int := 260
  const KeyRight: int := 261
  const KeyUp: int := 259
  const KeyDown: int := 258
  const Escape: int := 27
  const Del: int := 127

  /** The terminal codes the source treats as shifted arrows: `KEY_SLEFT`,
      `KEY_SRIGHT`, `KEY_SR` and `KEY_SF`. */
  const ShiftLeftCode: int := 393
  const ShiftRightCode: int := 402
  const ShiftUpCode: int := 337
  const ShiftDownCode: int := 336

  /** The entries of the library's key map that the decoder reads. */
  const MapEnter: int := 10
  const MapDelete: int := 330
  const MapBackspace: int := 263
  const MapLeftArrow: int := 260
  const MapRightArrow: int := 261
  const MapUpArrow: int := 259
  const MapDownArrow: int := 258

  /** `KeysDown` has 512 entries; ncurses key codes end at `KEY_MAX` = 511. */
  const KeyCount: int := 512

  /** What `wgetch` can return: `ERR` or a code below `KEY_MAX + 1`. */
  predicate IsRawCode(c: int)
  {
    c == ERR || 0 <= c < KeyCount
  }

  /** The branches of the key table, in the order the source tests them. */
  datatype KeyBranch =
    | DeleteKey              // c == 330
    | BackspaceKey           // KEY_BACKSPACE, KEY_DC or 127
    | ShiftArrow(slot: int)  // 393, 402, 337, 336
    | BackspaceAgain         // the second KEY_BACKSPACE test
    | Arrow(slot: int)       // KEY_LEFT, KEY_RIGHT, KEY_UP, KEY_DOWN
    | Unmapped               // anything else

  /** The first-match key table. Because `KEY_DC` is 330, the `KEY_DC` test
      of the backspace branch is shadowed by the Delete branch, and the
      second `KEY_BACKSPACE` test is shadowed by the first: neither is ever
      taken. */
  function ClassifyKey(c: int): (b: KeyBranch)
    ensures b != BackspaceAgain
    ensures c == KeyDeleteChar ==> b == DeleteKey
    ensures b == BackspaceKey <==> c == KeyBackspace || c == Del
    ensures b.ShiftArrow? <==> c in {ShiftLeftCode, ShiftRightCode, ShiftUpCode, ShiftDownCode}
    ensures (b.ShiftArrow? || b.Arrow?) ==> 0 <= b.slot < KeyCount
  {
    if c == 330 then DeleteKey
    else if c == KeyBackspace || c == KeyDeleteChar || c == Del then BackspaceKey
    else if c == ShiftLeftCode then ShiftArrow(MapLeftArrow)
    else if c == ShiftRightCode then ShiftArrow(MapRightArrow)
    else if c == ShiftUpCode then ShiftArrow(MapUpArrow)
    else if c == ShiftDownCode then ShiftArrow(MapDownArrow)
    else if c == KeyBackspace then BackspaceAgain
    else if c == KeyLeft then Arrow(MapLeftArrow)
    else if c == KeyRight then Arrow(MapRightArrow)
    else if c == KeyUp then Arrow(MapUpArrow)
    else if c == KeyDown then Arrow(MapDownArrow)
    else Unmapped
  }

  /** The `KeysDown` entry a code marks. Only DEL and the four shifted
      arrows are redirected; every other code marks its own entry. */
  function KeySlot(c: int): (slot: int)
    requires 0 <= c < KeyCount
    ensures 0 <= slot < KeyCount
    ensures c == Del ==> slot == MapBackspace
    ensures c == ShiftLeftCode ==> slot == MapLeftArrow
    ensures c == ShiftRightCode ==> slot == MapRightArrow
    ensures c == ShiftUpCode ==> slot == MapUpArrow
    ensures c == ShiftDownCode ==> slot == MapDownArrow
    ensures c !in {Del, ShiftLeftCode, ShiftRightCode, ShiftUpCode, ShiftDownCode} ==> slot == c
  {
    match ClassifyKey(c)
    case DeleteKey => MapDelete
    case BackspaceKey => MapBackspace
    case ShiftArrow(s) => s
    case BackspaceAgain => MapBackspace
    case Arrow(s) => s
    case Unmapped => c
  }

  /** The text the code is queued as: the NUL-terminated string
      `{c & 0xFF, (c & 0xFF00) >> 8, 0}`. */
  function InputBytes(c: int): (r: seq<int>)
    requires c >= 0
    ensures 0 < c < 0x100 ==> r == [c]
    ensures c % 0x100 == 0 ==> r == []
  {
    var b0 := c % 0x100;
    var b1 := (c / 0x100) % 0x100;
    if b0 == 0 then [] else if b1 == 0 then [b0] else [b0, b1]
  }

  /** Mouse masks (`mmask_t`, protocol version 2). */
  const Button1Released: bv32 := 0x1
  const Button1Pressed: bv32 := 0x2
  const Button2Released: bv32 := 0x20
  const Button2Pressed: bv32 := 0x40
  const Button3Released: bv32 := 0x400
  const Button3Pressed: bv32 := 0x800
  const Button4Pressed: bv32 := 0x1_0000
  const Button5Pressed: bv32 := 0x20_0000
  const ButtonCtrl: bv32 := 0x200_0000
  const ButtonShift: bv32 := 0x400_0000
  const ButtonAlt: bv32 := 0x800_0000

  /** One `MEVENT` as `getmouse` reports it. */
  datatype MouseEvent = MouseEvent(x: int, y: int, bstate: bv32)

  /** The decoder's function-level statics, which persist across passes. */
  datatype MouseState = MouseState(mx: int, my: int, lbut: bool, rbut: bool, mbut: bool, mstate: bv32)

  /** The part of the input record one pass builds. */
  datatype Frame = Frame(
    keys: seq<bool>,
    ctrl: bool, shift: bool, alt: bool, superKey: bool,
    wheel: int,
    text: seq<int>,
    hasInput: bool)

  /** The record at the start of a pass: no key held, no modifier, no wheel
      motion; the text queue is the library's and is kept. */
  function ResetFrame(text: seq<int>): (f: Frame)
    ensures |f.keys| == KeyCount && f.text == text && !f.hasInput
    ensures forall k | 0 <= k < KeyCount :: !f.keys[k]
    ensures !f.ctrl && !f.shift && !f.alt && !f.superKey && f.wheel == 0
  {
    Frame(seq(KeyCount, _ => false), false, false, false, false, 0, text, false)
  }

  /** A button flag after an event: PRESSED sets it, then RELEASED clears
      it, so RELEASED wins when both bits are present. */
  function ButtonAfter(held: bool, state: bv32, pressed: bv32, released: bv32): (r: bool)
    ensures state & released != 0 ==> !r
    ensures state & released == 0 && state & pressed != 0 ==> r
    ensures state & released == 0 && state & pressed == 0 ==> r == held
  {
    var afterPress := if state & pressed != 0 then true else held;
    if state & released != 0 then false else afterPress
  }

  /** `flag |= (state & mask) != 0` */
  function Raise(flag: bool, state: bv32, mask: bv32): (r: bool)
    ensures r <==> flag || state & mask != 0
  {
    flag || state & mask != 0
  }

  /** BUTTON4 scrolls up by one, or else BUTTON5 down by one. */
  function WheelAfter(wheel: int, state: bv32): (r: int)
    ensures state & Button4Pressed != 0 ==> r == wheel + 1
    ensures state & Button4Pressed == 0 && state & Button5Pressed != 0 ==> r == wheel - 1
    ensures state & Button4Pressed == 0 && state & Button5Pressed == 0 ==> r == wheel
  {
    if state & Button4Pressed != 0 then wheel + 1
    else if state & Button5Pressed != 0 then wheel - 1
    else wheel
  }

  /** The statics after a successful `getmouse`: position and mask are
      replaced and each button follows its PRESSED and RELEASED bits. */
  function MouseAfter(m: MouseState, e: MouseEvent): (r: MouseState)
    ensures r.mx == e.x && r.my == e.y && r.mstate == e.bstate
    ensures e.bstate & Button1Released != 0 ==> !r.lbut
    ensures e.bstate & Button2Released != 0 ==> !r.mbut
    ensures e.bstate & Button3Released != 0 ==> !r.rbut
    ensures e.bstate & Button1Released == 0 && e.bstate & Button1Pressed != 0 ==> r.lbut
    ensures e.bstate & Button2Released == 0 && e.bstate & Button2Pressed != 0 ==> r.mbut
    ensures e.bstate & Button3Released == 0 && e.bstate & Button3Pressed != 0 ==> r.rbut
    ensures e.bstate & Button1Released == 0 && e.bstate & Button1Pressed == 0 ==> r.lbut == m.lbut
    ensures e.bstate & Button2Released == 0 && e.bstate & Button2Pressed == 0 ==> r.mbut == m.mbut
    ensures e.bstate & Button3Released == 0 && e.bstate & Button3Pressed == 0 ==> r.rbut == m.rbut
  {
    var s := e.bstate;
    MouseState(e.x, e.y,
               ButtonAfter(m.lbut, s, Button1Pressed, Button1Released),
               ButtonAfter(m.rbut, s, Button3Pressed, Button3Released),
               ButtonAfter(m.mbut, s, Button2Pressed, Button2Released),
               s)
  }

  /** The record after a successful `getmouse`: the wheel moves by at
      most one and the modifier bits of the mask are OR'ed in; nothing else
      changes. */
  function MouseFrame(f: Frame, state: bv32): (r: Frame)
    ensures r.keys == f.keys && r.text == f.text && r.hasInput == f.hasInput
    ensures r.superKey == f.superKey
    ensures r.ctrl == (f.ctrl || state & ButtonCtrl != 0)
    ensures r.shift == (f.shift || state & ButtonShift != 0)
    ensures r.alt == (f.alt || state & ButtonAlt != 0)
    ensures -1 <= r.wheel - f.wheel <= 1
    ensures r.wheel == f.wheel <==> state & Button4Pressed == 0 && state & Button5Pressed == 0
  {
    Frame(f.keys, Raise(f.ctrl, state, ButtonCtrl), Raise(f.shift, state, ButtonShift),
          Raise(f.alt, state, ButtonAlt), f.superKey, WheelAfter(f.wheel, state), f.text, f.hasInput)
  }

  /** The `KEY_MOUSE` branch: a failed `getmouse` changes nothing. */
  function MouseRead(m: MouseState, f: Frame, mice: seq<Option<MouseEvent>>): (r: (MouseState, Frame))
    ensures r.1.keys == f.keys && r.1.text == f.text && r.1.hasInput == f.hasInput
    ensures (mice == [] || mice[0].None?) ==> r == (m, f)
  {
    if mice != [] && mice[0].Some? then (MouseAfter(m, mice[0].value), MouseFrame(f, mice[0].value.bstate))
    else (m, f)
  }

  /** At the end of a pass, a last mouse state whose low four bits are
      exactly BUTTON1_RELEASED releases all three buttons. */
  function EndPass(m: MouseState): (r: MouseState)
    ensures r.mx == m.mx && r.my == m.my && r.mstate == m.mstate
    ensures m.mstate & 0xf == 1 ==> !r.lbut && !r.rbut && !r.mbut
    ensures m.mstate & 0xf != 1 ==> r == m
  {
    if m.mstate & 0xf == 1 then m.(lbut := false, rbut := false, mbut := false) else m
  }

  /** A code in 1..26 other than Tab, Line-feed and Carriage-return is
      Ctrl+letter. */
  predicate IsCtrlLetter(c: int)
  {
    1 <= c <= 26 && c != 9 && c != 10 && c != 13
  }

  /** The Ctrl-letter remap: a Ctrl letter becomes the letter itself. */
  function RemapCtrl(c: int): (k: int)
    ensures IsCtrlLetter(c) ==> k == 'a' as int + c - 1 && 'a' as int <= k <= 'z' as int
    ensures !IsCtrlLetter(c) ==> k == c
  {
    if IsCtrlLetter(c) then 'a' as int + c - 1 else c
  }

  /** The text filter: only codes below 127 other than Enter's are queued. */
  function QueueText(text: seq<int>, k: int): (r: seq<int>)
    requires k >= 0
    ensures |text| <= |r| && r[..|text|] == text
    ensures forall i | |text| <= i < |r| :: 1 <= r[i] < 127 && r[i] != MapEnter
    ensures 0 < k < 127 && k != MapEnter ==> r == text + [k]
    ensures (k == 0 || k >= 127 || k == MapEnter) ==> r == text
  {
    if k < 127 && k != MapEnter then text + InputBytes(k) else text
  }

  /** One keyboard code after the Escape step: the Ctrl-letter remap, then
      the text queue, then the key table. */
  function KeyStep(f: Frame, c: int): (r: Frame)
    requires |f.keys| == KeyCount && 0 <= c < KeyCount
    ensures |r.keys| == KeyCount
  {
    var k := RemapCtrl(c);
    Frame(f.keys[KeySlot(k) := true],
          f.ctrl || IsCtrlLetter(c),
          f.shift || ClassifyKey(k).ShiftArrow?,
          f.alt, f.superKey, f.wheel,
          QueueText(f.text, k),
          f.hasInput)
  }

  /** The next `wgetch` result, and the codes left after it. */
  function NextCode(codes: seq<int>): int
  {
    if |codes| == 0 then ERR else codes[0]
  }

  function DropCode(codes: seq<int>): seq<int>
  {
    if |codes| == 0 then [] else codes[1..]
  }

  function DropMouse(mice: seq<Option<MouseEvent>>): seq<Option<MouseEvent>>
  {
    if |mice| == 0 then [] else mice[1..]
  }

  predicate AllRawCodes(codes: seq<int>)
  {
    forall i | 0 <= i < |codes| :: IsRawCode(codes[i])
  }

  /** One turn of the read loop after a code other than `ERR`: the
      `KEY_MOUSE` branch consumes one `getmouse` answer; Escape peeks at the
      next code and, when there is one, reads it with Alt held instead; any
      other code goes through the key step. Returns the new statics and
      record and the codes and mouse answers left. */
  function ReadStep(m: MouseState, f: Frame, codes: seq<int>, mice: seq<Option<MouseEvent>>)
    : (r: (MouseState, Frame, seq<int>, seq<Option<MouseEvent>>))
    requires |f.keys| == KeyCount && AllRawCodes(codes) && NextCode(codes) != ERR
    ensures |r.1.keys| == KeyCount && r.1.hasInput
    ensures |r.2| < |codes| && AllRawCodes(r.2)
  {
    var c := codes[0];
    if c == KeyMouse then
      var next := MouseRead(m, f.(hasInput := true), mice);
      (next.0, next.1, codes[1..], DropMouse(mice))
    else if c == Escape && NextCode(codes[1..]) != ERR then
      (m, KeyStep(f.(hasInput := true, alt := true), codes[1]), codes[2..], mice)
    else
      // a bare Escape has consumed the ERR its lookahead read
      (m, KeyStep(f.(hasInput := true), c), if c == Escape then DropCode(codes[1..]) else codes[1..], mice)
  }

  /** A read step consumes codes from the front, and only the `KEY_MOUSE`
      branch touches the mouse statics and the wheel. */
  lemma ReadStepSuffix(m: MouseState, f: Frame, codes: seq<int>, mice: seq<Option<MouseEvent>>)
    requires |f.keys| == KeyCount && AllRawCodes(codes) && NextCode(codes) != ERR
    ensures var r := ReadStep(m, f, codes, mice);
            forall i | 0 <= i < |r.2| :: r.2[i] == codes[|codes| - |r.2| + i]
    ensures var r := ReadStep(m, f, codes, mice);
            codes[0] != KeyMouse ==> r.0 == m && r.1.wheel == f.wheel && r.3 == mice
  {
  }

  /** The read loop of a pass from the given statics and record, up to and
      including the `ERR` that ends it, after which the end-of-pass release
      is applied. */
  function Decode(m: MouseState, f: Frame, codes: seq<int>, mice: seq<Option<MouseEvent>>): (r: (MouseState, Frame))
    requires |f.keys| == KeyCount && AllRawCodes(codes)
    ensures |r.1.keys| == KeyCount
    decreases |codes|
  {
    if NextCode(codes) == ERR then (EndPass(m), f)
    else
      var s := ReadStep(m, f, codes, mice);
      Decode(s.0, s.1, s.2, s.3)
  }

  /** One whole pass: reset, then the read loop. */
  function Pass(m: MouseState, text: seq<int>, codes: seq<int>, mice: seq<Option<MouseEvent>>): (r: (MouseState, Frame))
    requires AllRawCodes(codes)
    ensures |r.1.keys| == KeyCount
  {
    Decode(m, ResetFrame(text), codes, mice)
  }

  /** A pass whose last mouse state has exactly BUTTON1_RELEASED in its
      low four bits ends with all three buttons released, whatever the
      codes read before the `ERR`. */
  lemma {:induction false} DecodeEndsReleased(m: MouseState, f: Frame, codes: seq<int>, mice: seq<Option<MouseEvent>>)
    requires |f.keys| == KeyCount && AllRawCodes(codes)
    ensures var r := Decode(m, f, codes, mice).0;
            r.mstate & 0xf == 1 ==> !r.lbut && !r.rbut && !r.mbut
    decreases |codes|
  {
    if NextCode(codes) != ERR {
      var s := ReadStep(m, f, codes, mice);
      DecodeEndsReleased(s.0, s.1, s.2, s.3);
    }
  }

  /** A pass reports input iff it read at least one code before `ERR`. */
  lemma {:induction false} HasInputIffCodeRead(m: MouseState, f: Frame, codes: seq<int>, mice: seq<Option<MouseEvent>>)
    requires |f.keys| == KeyCount && AllRawCodes(codes)
    ensures Decode(m, f, codes, mice).1.hasInput == (f.hasInput || NextCode(codes) != ERR)
    decreases |codes|
  {
    if NextCode(codes) != ERR {
      var s := ReadStep(m, f, codes, mice);
      HasInputIffCodeRead(s.0, s.1, s.2, s.3);
    }
  }

  /** Within a pass nothing is taken back: held keys stay held, modifiers
      stay set, the text queue only grows (by bytes 1..126 other than
      Enter's 10), and Super is never set. */
  predicate Accumulates(f: Frame, g: Frame)
    requires |f.keys| == KeyCount && |g.keys| == KeyCount
  {
    && (forall k | 0 <= k < KeyCount :: f.keys[k] ==> g.keys[k])
    && (f.ctrl ==> g.ctrl) && (f.shift ==> g.shift) && (f.alt ==> g.alt)
    && g.superKey == f.superKey
    && |f.text| <= |g.text| && g.text[..|f.text|] == f.text
    && (forall i | |f.text| <= i < |g.text| :: 1 <= g.text[i] < 127 && g.text[i] != MapEnter)
  }

  lemma AccumulatesTrans(f: Frame, g: Frame, h: Frame)
    requires |f.keys| == KeyCount && |g.keys| == KeyCount && |h.keys| == KeyCount
    requires Accumulates(f, g) && Accumulates(g, h)
    ensures Accumulates(f, h)
  {
    assert h.text[..|f.text|] == h.text[..|g.text|][..|f.text|];
  }

  lemma KeyStepAccumulates(f: Frame, c: int)
    requires |f.keys| == KeyCount && 0 <= c < KeyCount
    ensures Accumulates(f, KeyStep(f, c))
  {
  }

  /** One read step, whichever branch it takes, accumulates. */
  lemma StepAccumulates(m: MouseState, f: Frame, codes: seq<int>, mice: seq<Option<MouseEvent>>)
    requires |f.keys| == KeyCount && AllRawCodes(codes) && NextCode(codes) != ERR
    ensures Accumulates(f, ReadStep(m, f, codes, mice).1)
  {
    var c := codes[0];
    if c == KeyMouse {
    } else if c == Escape && NextCode(codes[1..]) != ERR {
      KeyStepAccumulates(f.(hasInput := true, alt := true), codes[1]);
    } else {
      KeyStepAccumulates(f.(hasInput := true), c);
    }
  }

  lemma {:induction false} DecodeAccumulates(m: MouseState, f: Frame, codes: seq<int>, mice: seq<Option<MouseEvent>>)
    requires |f.keys| == KeyCount && AllRawCodes(codes)
    ensures Accumulates(f, Decode(m, f, codes, mice).1)
    decreases |codes|
  {
    if NextCode(codes) != ERR {
      var s := ReadStep(m, f, codes, mice);
      StepAccumulates(m, f, codes, mice);
      DecodeAccumulates(s.0, s.1, s.2, s.3);
      AccumulatesTrans(f, s.1, Decode(m, f, codes, mice).1);
    }
  }

  /** A pass without `KEY_MOUSE` codes leaves the wheel alone and the mouse
      statics as they were, except for the end-of-pass release: button
      state persists across passes. */
  lemma {:induction false} NoMouseCodeKeepsMouse(m: MouseState, f: Frame, codes: seq<int>, mice: seq<Option<MouseEvent>>)
    requires |f.keys| == KeyCount && AllRawCodes(codes)
    requires forall i | 0 <= i < |codes| :: codes[i] != KeyMouse
    ensures Decode(m, f, codes, mice).0 == EndPass(m)
    ensures Decode(m, f, codes, mice).1.wheel == f.wheel
    decreases |codes|
  {
    if NextCode(codes) != ERR {
      var s := ReadStep(m, f, codes, mice);
      ReadStepSuffix(m, f, codes, mice);
      NoMouseCodeKeepsMouse(s.0, s.1, s.2, s.3);
    }
  }

  /** No mouse answer carries a wheel bit: clicks and motion only. */
  predicate NoWheelEvents(mice: seq<Option<MouseEvent>>)
  {
    forall i | 0 <= i < |mice| && mice[i].Some? ::
      mice[i].value.bstate & Button4Pressed == 0 && mice[i].value.bstate & Button5Pressed == 0
  }

  /** A read loop whose mouse answers carry no wheel bit leaves the wheel
      where it was, whatever clicks and motion it reads. */
  lemma {:induction false} NoWheelBits(m: MouseState, f: Frame, codes: seq<int>, mice: seq<Option<MouseEvent>>)
    requires |f.keys| == KeyCount && AllRawCodes(codes) && NoWheelEvents(mice)
    ensures Decode(m, f, codes, mice).1.wheel == f.wheel
    decreases |codes|
  {
    if NextCode(codes) != ERR {
      var s := ReadStep(m, f, codes, mice);
      ReadStepSuffix(m, f, codes, mice);
      if codes[0] == KeyMouse {
        assert s.3 == DropMouse(mice);
        forall i | 0 <= i < |s.3| && s.3[i].Some?
          ensures s.3[i].value.bstate & Button4Pressed == 0 && s.3[i].value.bstate & Button5Pressed == 0
        {
          assert s.3[i] == mice[i + 1];
        }
      }
      NoWheelBits(s.0, s.1, s.2, s.3);
    }
  }

  /** The wheel is a one-shot delta: a pass whose mouse answers carry no
      wheel bit reports no wheel motion, whatever the previous pass
      reported. */
  lemma WheelOneShot(m: MouseState, text: seq<int>, codes: seq<int>, mice: seq<Option<MouseEvent>>)
    requires AllRawCodes(codes) && NoWheelEvents(mice)
    ensures Pass(m, text, codes, mice).1.wheel == 0
  {
    NoWheelBits(m, ResetFrame(text), codes, mice);
  }

  /** A pass that begins with a wheel event reports that event's notch,
      +1 for BUTTON4 (up) and otherwise -1 for BUTTON5 (down), when the rest
      of its mouse answers carry no wheel bit. */
  lemma WheelPass(m: MouseState, text: seq<int>, e: MouseEvent, rest: seq<int>, mice: seq<Option<MouseEvent>>)
    requires AllRawCodes(rest) && NoWheelEvents(mice)
    ensures AllRawCodes([KeyMouse] + rest)
    ensures var w := Pass(m, text, [KeyMouse] + rest, [Some(e)] + mice).1.wheel;
            && (e.bstate & Button4Pressed != 0 ==> w == 1)
            && (e.bstate & Button4Pressed == 0 && e.bstate & Button5Pressed != 0 ==> w == -1)
            && (e.bstate & Button4Pressed == 0 && e.bstate & Button5Pressed == 0 ==> w == 0)
  {
    var codes := [KeyMouse] + rest;
    var ms := [Some(e)] + mice;
    var f := ResetFrame(text);
    assert codes[0] == KeyMouse && codes[1..] == rest && DropMouse(ms) == mice;
    var s := ReadStep(m, f, codes, ms);
    assert s.1 == MouseFrame(f.(hasInput := true), e.bstate);
    NoWheelBits(s.0, s.1, s.2, s.3);
  }

  /** The codes that reach the key step unchanged: every code is below
      `KeyCount` and none is Escape, so no lookahead replaces one. */
  predicate PlainCodes(codes: seq<int>)
  {
    forall i | 0 <= i < |codes| :: 0 <= codes[i] < KeyCount && codes[i] != Escape
  }

  /** The bytes one plain code queues; a `KEY_MOUSE` code queues none. */
  function CodeText(c: int): seq<int>
    requires 0 <= c < KeyCount
  {
    if c == KeyMouse then [] else QueueText([], RemapCtrl(c))
  }

  /** The bytes the plain codes of `codes` queue, in order. */
  function TextOf(codes: seq<int>): seq<int>
    requires PlainCodes(codes)
    decreases |codes|
  {
    if |codes| == 0 then [] else CodeText(codes[0]) + TextOf(codes[1..])
  }

  /** The `KeysDown` entries the keyboard codes of `codes` mark. */
  function KeysOf(codes: seq<int>): set<int>
    requires PlainCodes(codes)
    decreases |codes|
  {
    if |codes| == 0 then {}
    else (if codes[0] == KeyMouse then {} else {KeySlot(RemapCtrl(codes[0]))}) + KeysOf(codes[1..])
  }

  /** One read step over a plain code: the code is consumed alone, and a
      keyboard code marks its key and queues its bytes. */
  lemma PlainStep(m: MouseState, f: Frame, codes: seq<int>, mice: seq<Option<MouseEvent>>)
    requires |f.keys| == KeyCount && AllRawCodes(codes) && PlainCodes(codes) && |codes| > 0
    ensures NextCode(codes) != ERR
    ensures var s := ReadStep(m, f, codes, mice);
            && s.2 == codes[1..] && PlainCodes(s.2)
            && s.1.text == f.text + CodeText(codes[0])
            && forall k | 0 <= k < KeyCount ::
                 s.1.keys[k] == (f.keys[k] || (codes[0] != KeyMouse && k == KeySlot(RemapCtrl(codes[0]))))
  {
    var c := codes[0];
    assert PlainCodes(codes[1..]) by {
      forall i | 0 <= i < |codes[1..]| ensures 0 <= codes[1..][i] < KeyCount && codes[1..][i] != Escape {
        assert codes[1..][i] == codes[i + 1];
      }
    }
    if c != KeyMouse {
      var k := RemapCtrl(c);
      assert QueueText(f.text, k) == f.text + QueueText([], k);
    }
  }

  /** Without Escape lookahead, the text queue gains exactly the filtered
      bytes of each keyboard code read, in the order read. */
  lemma {:induction false} DecodeText(m: MouseState, f: Frame, codes: seq<int>, mice: seq<Option<MouseEvent>>)
    requires |f.keys| == KeyCount && AllRawCodes(codes) && PlainCodes(codes)
    ensures Decode(m, f, codes, mice).1.text == f.text + TextOf(codes)
    decreases |codes|
  {
    if |codes| == 0 {
      assert f.text + [] == f.text;
    } else {
      PlainStep(m, f, codes, mice);
      var s := ReadStep(m, f, codes, mice);
      DecodeText(s.0, s.1, s.2, s.3);
      assert Decode(m, f, codes, mice) == Decode(s.0, s.1, s.2, s.3);
      TextOfCons(f.text, codes);
    }
  }

  /** Queuing the first code's bytes, then the rest's, queues the bytes
      of all the codes. */
  lemma TextOfCons(text: seq<int>, codes: seq<int>)
    requires PlainCodes(codes) && |codes| > 0 && PlainCodes(codes[1..])
    ensures (text + CodeText(codes[0])) + TextOf(codes[1..]) == text + TextOf(codes)
  {
    var h, t := CodeText(codes[0]), TextOf(codes[1..]);
    assert TextOf(codes) == h + t;
    AppendAssoc(text, h, t);
  }

  lemma AppendAssoc(a: seq<int>, b: seq<int>, c: seq<int>)
    ensures (a + b) + c == a + (b + c)
  {
  }

  /** Without Escape lookahead, the keys held after the read loop are
      exactly those held before and those the codes read mark. */
  lemma {:induction false} DecodeKeys(m: MouseState, f: Frame, codes: seq<int>, mice: seq<Option<MouseEvent>>)
    requires |f.keys| == KeyCount && AllRawCodes(codes) && PlainCodes(codes)
    ensures var r := Decode(m, f, codes, mice).1;
            forall k | 0 <= k < KeyCount :: r.keys[k] == (f.keys[k] || k in KeysOf(codes))
    decreases |codes|
  {
    if |codes| > 0 {
      PlainStep(m, f, codes, mice);
      var s := ReadStep(m, f, codes, mice);
      DecodeKeys(s.0, s.1, s.2, s.3);
    }
  }

  lemma KeyStepAlt(f: Frame, c: int)
    requires |f.keys| == KeyCount && 0 <= c < KeyCount
    ensures KeyStep(f.(alt := true), c) == KeyStep(f, c).(alt := true)
  {
  }

  lemma MouseReadAlt(m: MouseState, f: Frame, mice: seq<Option<MouseEvent>>)
    ensures var r := MouseRead(m, f, mice);
            MouseRead(m, f.(alt := true), mice) == (r.0, r.1.(alt := true))
  {
  }

  /** Alt only rises: one read step from a record with Alt set gives the
      same as from the record without it, with Alt set. */
  lemma StepAltIndependent(m: MouseState, f: Frame, codes: seq<int>, mice: seq<Option<MouseEvent>>)
    requires |f.keys| == KeyCount && AllRawCodes(codes) && NextCode(codes) != ERR
    ensures var s := ReadStep(m, f, codes, mice);
            ReadStep(m, f.(alt := true), codes, mice) == (s.0, s.1.(alt := true), s.2, s.3)
  {
    var c := codes[0];
    var f1 := f.(hasInput := true);
    assert f.(alt := true).(hasInput := true) == f1.(alt := true);
    if c == KeyMouse {
      MouseReadAlt(m, f1, mice);
    } else if !(c == Escape && NextCode(codes[1..]) != ERR) {
      KeyStepAlt(f1, c);
    }
  }

  /** Starting a pass with Alt set changes nothing but Alt. */
  lemma {:induction false} DecodeAltIndependent(m: MouseState, f: Frame, codes: seq<int>, mice: seq<Option<MouseEvent>>)
    requires |f.keys| == KeyCount && AllRawCodes(codes)
    ensures Decode(m, f.(alt := true), codes, mice) == (Decode(m, f, codes, mice).0, Decode(m, f, codes, mice).1.(alt := true))
    decreases |codes|
  {
    if NextCode(codes) != ERR {
      var s := ReadStep(m, f, codes, mice);
      StepAltIndependent(m, f, codes, mice);
      DecodeAltIndependent(s.0, s.1, s.2, s.3);
    }
  }

  /** Escape followed by a code that is already there is that code with
      Alt held; the second code replaces the Escape. */
  lemma EscapeThenCodeIsAlt(m: MouseState, text: seq<int>, c: int, rest: seq<int>, mice: seq<Option<MouseEvent>>)
    requires 0 <= c < KeyCount && c != Escape && c != KeyMouse
    requires AllRawCodes(rest)
    ensures AllRawCodes([Escape, c] + rest) && AllRawCodes([c] + rest)
    ensures Pass(m, text, [Escape, c] + rest, mice)
         == (Pass(m, text, [c] + rest, mice).0, Pass(m, text, [c] + rest, mice).1.(alt := true))
  {
    var f1 := ResetFrame(text).(hasInput := true);
    assert ([Escape, c] + rest)[1..][0] == c;
    assert ([Escape, c] + rest)[2..] == rest == ([c] + rest)[1..];
    DecodeAltIndependent(m, KeyStep(f1, c), rest, mice);
    assert KeyStep(f1.(alt := true), c) == KeyStep(f1, c).(alt := true);
  }

  /** A bare Escape (its lookahead reads `ERR`) is the Escape key itself,
      queued as text, with Alt not set. */
  lemma BareEscape(m: MouseState, text: seq<int>, mice: seq<Option<MouseEvent>>)
    ensures AllRawCodes([Escape, ERR])
    ensures var r := Pass(m, text, [Escape, ERR], mice).1;
            r.keys[Escape] && !r.alt && !r.ctrl && r.text == text + [Escape] && r.hasInput
  {
    var f1 := ResetFrame(text).(hasInput := true);
    var f2 := KeyStep(f1, Escape);
    assert NextCode([Escape, ERR][1..]) == ERR;
    assert DropCode([Escape, ERR][1..]) == [];
    assert Decode(m, f2, [], mice) == (EndPass(m), f2);
    assert Pass(m, text, [Escape, ERR], mice).1 == f2;
    assert f2.text == text + [Escape];
  }

  /** Ctrl+letter: a code in 1..26 other than 9, 10 and 13 sets Ctrl and
      is read as the letter 'a' + code - 1, both as a held key and as text. */
  lemma CtrlLetter(m: MouseState, text: seq<int>, c: int, mice: seq<Option<MouseEvent>>)
    requires IsCtrlLetter(c)
    ensures AllRawCodes([c])
    ensures var r := Pass(m, text, [c], mice).1;
            r.ctrl && r.keys['a' as int + c - 1] && r.text == text + ['a' as int + c - 1] && !r.alt
  {
    var f2 := KeyStep(ResetFrame(text).(hasInput := true), c);
    assert [c][1..] == [];
    assert Decode(m, f2, [], mice) == (EndPass(m), f2);
    assert Pass(m, text, [c], mice).1 == f2;
  }

  /** A shifted-arrow code holds Shift and marks its arrow's key; as none
      of them is below 127, nothing is queued. */
  lemma ShiftArrowKey(m: MouseState, text: seq<int>, c: int, mice: seq<Option<MouseEvent>>)
    requires c in {ShiftLeftCode, ShiftRightCode, ShiftUpCode, ShiftDownCode}
    ensures AllRawCodes([c])
    ensures var r := Pass(m, text, [c], mice).1;
            r.shift && r.keys[KeySlot(c)] && !r.ctrl && !r.alt && r.text == text
  {
    var f2 := KeyStep(ResetFrame(text).(hasInput := true), c);
    assert [c][1..] == [];
    assert Decode(m, f2, [], mice) == (EndPass(m), f2);
    assert Pass(m, text, [c], mice).1 == f2;
  }

  /** Tab, Line-feed and Carriage-return are not Ctrl letters: they mark
      their own key, and all but Line-feed (Enter) are queued as text. */
  lemma ControlWhitespace(m: MouseState, text: seq<int>, c: int, mice: seq<Option<MouseEvent>>)
    requires c == 9 || c == 10 || c == 13
    ensures AllRawCodes([c])
    ensures var r := Pass(m, text, [c], mice).1;
            !r.ctrl && r.keys[c] && r.text == (if c == MapEnter then text else text + [c])
  {
    var f2 := KeyStep(ResetFrame(text).(hasInput := true), c);
    assert [c][1..] == [];
    assert Decode(m, f2, [], mice) == (EndPass(m), f2);
    assert Pass(m, text, [c], mice).1 == f2;
  }

  /** The library's input record, as far as the decoder writes it. */
  class IO {
    var keysDown: array<bool>
    var keyCtrl: bool
    var keyShift: bool
    var keyAlt: bool
    var keySuper: bool
    var mouseWheel: int
    var mouseWheelH: int
    var mousePos: (int, int)
    var mouseDown: array<bool>
    var text: seq<int>
    var displaySize: (int, int)
    var deltaTime: Micros

    ghost predicate Valid()
      reads this
    {
      keysDown.Length == KeyCount && mouseDown.Length == 3 && keysDown != mouseDown
    }

    constructor ()
      ensures Valid() && fresh(keysDown) && fresh(mouseDown) && text == []
    {
      keysDown := new bool[KeyCount](_ => false);
      mouseDown := new bool[3](_ => false);
      keyCtrl, keyShift, keyAlt, keySuper := false, false, false, false;
      mouseWheel, mouseWheelH := 0, 0;
      mousePos, displaySize := (0, 0), (0, 0);
      text := [];
      deltaTime := 0;
    }

    /** The record's fields as a `Frame`. */
    function Snapshot(hasInput: bool): (f: Frame)
      reads this, keysDown
    {
      Frame(keysDown[..], keyCtrl, keyShift, keyAlt, keySuper, mouseWheel, text, hasInput)
    }

    /** The start of a pass: the screen size is stored and keys, modifiers
        and wheel deltas are cleared; the text queue is kept. */
    method BeginFrame(cols: int, rows: int)
      requires Valid()
      modifies this, keysDown
      ensures Valid() && keysDown == old(keysDown) && mouseDown == old(mouseDown)
      ensures Snapshot(false) == ResetFrame(old(text))
      ensures mouseWheelH == 0 && displaySize == (cols, rows)
      ensures mousePos == old(mousePos) && deltaTime == old(deltaTime)
    {
      displaySize := (cols, rows);
      forall k | 0 <= k < KeyCount {
        keysDown[k] := false;
      }
      keyCtrl, keyShift, keyAlt, keySuper := false, false, false, false;
      mouseWheel, mouseWheelH := 0, 0;
    }

    /** The record's part of the mouse branch: the wheel and the modifier
        bits of the mask. */
    method MouseBits(state: bv32, ghost hasInput: bool)
      requires Valid()
      modifies this
      ensures Valid() && keysDown == old(keysDown) && mouseDown == old(mouseDown)
      ensures mouseWheelH == old(mouseWheelH) && displaySize == old(displaySize)
      ensures mousePos == old(mousePos) && deltaTime == old(deltaTime)
      ensures Snapshot(hasInput) == MouseFrame(old(Snapshot(hasInput)), state)
    {
      ghost var before := Snapshot(hasInput);
      if state & Button4Pressed != 0 {
        mouseWheel := mouseWheel + 1;
      } else if state & Button5Pressed != 0 {
        mouseWheel := mouseWheel - 1;
      }
      assert mouseWheel == WheelAfter(before.wheel, state);
      keyCtrl := Raise(keyCtrl, state, ButtonCtrl);
      keyShift := Raise(keyShift, state, ButtonShift);
      keyAlt := Raise(keyAlt, state, ButtonAlt);
      assert keysDown[..] == before.keys;
      assert Snapshot(hasInput) == MouseFrame(before, state);
    }

    /** Escape followed by another code: Alt is held. */
    method HoldAlt(ghost hasInput: bool)
      requires Valid()
      modifies this`keyAlt
      ensures Snapshot(hasInput) == old(Snapshot(hasInput)).(alt := true)
    {
      keyAlt := true;
    }

    /** One keyboard code after the Escape step, applied in place: the
        Ctrl-letter remap, the text filter and the key table. */
    method KeyCode(c: int, ghost hasInput: bool)
      requires Valid() && 0 <= c < KeyCount
      modifies this, keysDown
      ensures Valid() && keysDown == old(keysDown) && mouseDown == old(mouseDown)
      ensures mouseWheelH == old(mouseWheelH) && displaySize == old(displaySize)
      ensures mousePos == old(mousePos) && deltaTime == old(deltaTime)
      ensures Snapshot(hasInput) == KeyStep(old(Snapshot(hasInput)), c)
    {
      var k := c;
      if IsCtrlLetter(k) {
        keyCtrl := true;
        k := 'a' as int + k - 1;
      }
      if k < 127 {
        if k != MapEnter {
          text := text + InputBytes(k);
        }
      }
      keysDown[KeySlot(k)] := true;
      if ClassifyKey(k).ShiftArrow? {
        keyShift := true;
      }
    }
  }

  /** The keyboard branch of the read loop, for the code `c` just read
      at `codes[i]`: Escape peeks at the next code and, when there is one,
      holds Alt and reads that code instead; then the key step. Returns
      the position after the codes consumed. */
  method KeyTurn(io: IO, c: int, codes: seq<int>, i: int,
                 ghost m: MouseState, ghost mice: seq<Option<MouseEvent>>) returns (next: int)
    requires io.Valid() && AllRawCodes(codes) && 0 <= i < |codes|
    requires c == codes[i] && c != ERR && c != KeyMouse
    modifies io, io.keysDown
    ensures io.Valid() && io.keysDown == old(io.keysDown) && io.mouseDown == old(io.mouseDown)
    ensures io.mouseWheelH == old(io.mouseWheelH) && io.displaySize == old(io.displaySize)
      ensures io.mousePos == old(io.mousePos) && io.deltaTime == old(io.deltaTime)
    ensures i < next <= |codes|
    ensures var s := ReadStep(m, old(io.Snapshot(true)), codes[i..], mice);
            io.Snapshot(true) == s.1 && codes[next..] == s.2
  {
    var k := c;
    next := i + 1;
    if k == Escape {
      var ahead := NextCode(codes[next..]);
      if next < |codes| {
        next := next + 1;
      }
      if ahead != ERR {
        io.HoldAlt(true);
        k := ahead;
      }
    }
    io.KeyCode(k, true);
  }

  /** The decoder, holding the function-level statics of `NewFrame`. */
  class Decoder {
    var mx: int
    var my: int
    var lbut: bool
    var rbut: bool
    var mbut: bool
    var mstate: bv32

    constructor ()
      ensures Mouse() == MouseState(0, 0, false, false, false, 0)
    {
      mx, my := 0, 0;
      lbut, rbut, mbut := false, false, false;
      mstate := 0;
    }

    function Mouse(): MouseState
      reads this
    {
      MouseState(mx, my, lbut, rbut, mbut, mstate)
    }

    /** The mouse branch of the read loop for one successful `getmouse`. */
    method MouseCode(io: IO, e: MouseEvent, ghost hasInput: bool)
      requires io.Valid()
      modifies this, io
      ensures io.Valid() && io.keysDown == old(io.keysDown) && io.mouseDown == old(io.mouseDown)
      ensures io.mouseWheelH == old(io.mouseWheelH) && io.displaySize == old(io.displaySize)
      ensures io.mousePos == old(io.mousePos) && io.deltaTime == old(io.deltaTime)
      ensures Mouse() == MouseAfter(old(Mouse()), e)
      ensures io.Snapshot(hasInput) == MouseFrame(old(io.Snapshot(hasInput)), e.bstate)
    {
      mx, my, mstate := e.x, e.y, e.bstate;
      lbut := ButtonAfter(lbut, mstate, Button1Pressed, Button1Released);
      mbut := ButtonAfter(mbut, mstate, Button2Pressed, Button2Released);
      rbut := ButtonAfter(rbut, mstate, Button3Pressed, Button3Released);
      io.MouseBits(e.bstate, hasInput);
    }

    /** The read loop: codes until `ERR`, each applied in place. */
    method ReadLoop(io: IO, codes: seq<int>, mice: seq<Option<MouseEvent>>) returns (hasInput: bool)
      requires io.Valid() && AllRawCodes(codes)
      modifies this, io, io.keysDown
      ensures io.Valid() && io.keysDown == old(io.keysDown) && io.mouseDown == old(io.mouseDown)
      ensures io.mouseWheelH == old(io.mouseWheelH) && io.displaySize == old(io.displaySize)
      ensures io.mousePos == old(io.mousePos) && io.deltaTime == old(io.deltaTime)
      ensures (Mouse(), io.Snapshot(hasInput)) == Decode(old(Mouse()), old(io.Snapshot(false)), codes, mice)
    {
      hasInput := false;
      var i, j := 0, 0;
      while true
        invariant 0 <= i <= |codes| && 0 <= j <= |mice|
        invariant io.Valid() && io.keysDown == old(io.keysDown) && io.mouseDown == old(io.mouseDown)
        invariant io.mouseWheelH == old(io.mouseWheelH) && io.displaySize == old(io.displaySize)
        invariant io.mousePos == old(io.mousePos) && io.deltaTime == old(io.deltaTime)
        invariant Decode(Mouse(), io.Snapshot(hasInput), codes[i..], mice[j..])
               == Decode(old(Mouse()), old(io.Snapshot(false)), codes, mice)
        decreases |codes| - i
      {
        ghost var m1, f1, rest, restMice := Mouse(), io.Snapshot(hasInput), codes[i..], mice[j..];
        var c := NextCode(codes[i..]);
        if c == ERR {
          if mstate & 0xf == 1 {
            lbut, rbut, mbut := false, false, false;
          }
          assert Mouse() == EndPass(m1);
          return;
        } else if c == KeyMouse {
          i := i + 1;
          var event := if j < |mice| then mice[j] else None;
          if j < |mice| {
            j := j + 1;
          }
          assert mice[j..] == DropMouse(restMice);
          if event.Some? {
            MouseCode(io, event.value, true);
          }
          assert (Mouse(), io.Snapshot(true), codes[i..], mice[j..]) == ReadStep(m1, f1, rest, restMice);
        } else {
          i := KeyTurn(io, c, codes, i, m1, restMice);
        }
        hasInput := true;
      }
    }

    /** `ImTui_ImplNcurses_NewFrame`: one decode pass. The screen size
        comes from `getmaxyx`, the clock reading from `VSync::delta_s`. */
    method NewFrame(io: IO, vsync: VSync, cols: int, rows: int,
                    codes: seq<int>, mice: seq<Option<MouseEvent>>, now: Micros)
      returns (hasInput: bool)
      requires io.Valid() && AllRawCodes(codes)
      modifies this, io, io.keysDown, io.mouseDown, vsync`tLast
      ensures io.Valid() && io.keysDown == old(io.keysDown) && io.mouseDown == old(io.mouseDown)
      ensures var r := Pass(old(Mouse()), old(io.text), codes, mice);
              Mouse() == r.0 && io.Snapshot(hasInput) == r.1
      ensures io.mouseWheelH == 0 && io.displaySize == (cols, rows)
      ensures io.mousePos == (mx, my) && io.mouseDown[..] == [lbut, rbut, mbut]
      ensures mstate & 0xf == 1 ==> !io.mouseDown[0] && !io.mouseDown[1] && !io.mouseDown[2]
      ensures vsync.tLast == now && Add64(old(vsync.tLast), io.deltaTime) == now
    {
      io.BeginFrame(cols, rows);
      hasInput := ReadLoop(io, codes, mice);
      ghost var snap := io.Snapshot(hasInput);
      io.mousePos := (mx, my);
      io.mouseDown[0], io.mouseDown[1], io.mouseDown[2] := lbut, rbut, mbut;
      io.deltaTime := vsync.DeltaMicros(now);
      assert io.Snapshot(hasInput) == snap;
      DecodeEndsReleased(old(Mouse()), ResetFrame(old(io.text)), codes, mice);
    }
  }
}
