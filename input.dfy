/** The SDL event handlers of the game loop: keyboard, mouse and joystick
    state kept in the `app` arrays, and the rising-edge detector that turns a
    joystick button press into a one-frame "pressed once" flag. */
module Input {

  /** Size of the edge-detector arrays (the fallback of `#ifndef
      JOYPAD_BUTTON_MAX`). */
  const JOYPAD_BUTTON_MAX: nat := 64

  /** The synthetic button slots the hat (D-pad) drives. */
  const DPAD_UP_BTN: nat := 20
  const DPAD_DOWN_BTN: nat := 21
  const DPAD_LEFT_BTN: nat := 22
  const DPAD_RIGHT_BTN: nat := 23

  /** SDL's hat direction bits. */
  const HAT_UP: bv8 := 1
  const HAT_RIGHT: bv8 := 2
  const HAT_DOWN: bv8 := 4
  const HAT_LEFT: bv8 := 8

  /** SDL_PRESSED and SDL_RELEASED. */
  const PRESSED: nat := 1
  const RELEASED: nat := 0

  /** SDL_BUTTON_X1 and SDL_BUTTON_X2, the slots the wheel sets. */
  const BUTTON_X1: nat := 4
  const BUTTON_X2: nat := 5

  /** The hat drives the left stick to the ends of the int16 range, unless
      the stick itself is out of the dead zone. */
  const AXIS_MIN: int := -32768
  const AXIS_MAX: int := 32767
  const DEAD: int := 10000

  function Abs(x: int): nat {
    if x < 0 then -x else x
  }

  /** The value doJoyAxis stores for `axis`: the Y axes 1 (left stick) and
      3 (right stick) are inverted so that up is negative. */
  function AxisValue(axis: nat, value: int): (r: int)
    ensures r == value || r == -value
  {
    if axis == 1 || axis == 3 then -value else value
  }

  /** Storing an axis value and inverting it again gives back the raw
      reading; only the Y axes change sign. */
  lemma AxisValueInvolution(axis: nat, value: int)
    ensures AxisValue(axis, AxisValue(axis, value)) == value
    ensures Abs(AxisValue(axis, value)) == Abs(value)
    ensures AxisValue(axis, value) == value <==> value == 0 || (axis != 1 && axis != 3)
  {
  }

  /** Whether the hat value has direction bit `bit`. */
  predicate HatHas(value: bv8, bit: bv8) {
    value & bit != 0
  }

  /** The button slot value for a direction bit: 1 when set, else 0. */
  function HatButton(value: bv8, bit: bv8): (r: int)
    ensures r == 0 || r == 1
  {
    if HatHas(value, bit) then 1 else 0
  }

  /** The axis position the hat asks for, given its negative (left, up) and
      positive (right, down) bits: the positive bit is tested last and wins,
      and no bit centres the axis. */
  function HatAxis(neg: bool, pos: bool): (r: int)
    ensures r == AXIS_MAX <==> pos
    ensures r == AXIS_MIN <==> neg && !pos
    ensures r == 0 <==> !neg && !pos
  {
    if pos then AXIS_MAX else if neg then AXIS_MIN else 0
  }

  /** What the edge detector keeps for one joystick button: `prev` (it was
      last seen down), `edge` (it went down during this frame) and `held`
      (`app.joypadButton`). */
  datatype Button = Button(prev: bool, edge: bool, held: bool)

  /** The events that touch one button: the start of a frame, and a down or
      up event for that button. */
  datatype ButtonEvent = Frame | Down | Up

  /** beginInputFrame clears the edge; doButtonDown sets it only when the
      button was not already down; doButtonUp leaves it alone. */
  function Step(s: Button, ev: ButtonEvent): (r: Button)
    ensures ev != Up ==> r.prev == (s.prev || ev == Down)
    ensures r.edge ==> s.edge || (ev == Down && !s.prev)
    ensures ev == Down && !s.prev ==> r.edge
  {
    match ev
    case Frame => s.(edge := false)
    case Down => Button(true, s.edge || !s.prev, true)
    case Up => s.(prev := false, held := false)
  }

  /** The number of frames that end with the edge set, that is, in which
      getJoypadButtonPressedOnce reports the button: a `Frame` event closes
      the frame before it, and the end of the events closes the last one. */
  function EdgeFrames(s: Button, evs: seq<ButtonEvent>): (r: nat)
    ensures r <= 1 + |evs|
    decreases |evs|
  {
    if evs == [] then (if s.edge then 1 else 0)
    else (if evs[0] == Frame && s.edge then 1 else 0) + EdgeFrames(Step(s, evs[0]), evs[1..])
  }

  /** A button that stays down, however many down events repeat, is
      reported in one frame at most; once it is down and its frame has
      passed, it is never reported again until an up event. */
  lemma {:induction false} HeldButtonOneEdge(s: Button, evs: seq<ButtonEvent>)
    requires Up !in evs && (s.edge ==> s.prev)
    ensures EdgeFrames(s, evs) <= 1
    ensures s.prev && !s.edge ==> EdgeFrames(s, evs) == 0
    decreases |evs|
  {
    if evs != [] {
      var s' := Step(s, evs[0]);
      assert evs[0] in evs;
      assert Up !in evs[1..] by {
        forall k | 0 <= k < |evs[1..]|
          ensures evs[1..][k] != Up
        {
          assert evs[1..][k] == evs[k + 1];
        }
      }
      HeldButtonOneEdge(s', evs[1..]);
    }
  }

  /** A press, a new frame and a repeated press: the repeat leaves the edge
      clear, and the button is reported in the first frame only. */
  lemma RepeatedDownNoEdge(s: Button)
    requires !s.edge
    ensures !Step(Step(Step(s, Down), Frame), Down).edge
    ensures EdgeFrames(s, [Down, Frame, Down]) == (if s.prev then 0 else 1)
  {
    var s1 := Step(s, Down);
    var s2 := Step(s1, Frame);
    var s3 := Step(s2, Down);
    assert [Down, Frame, Down][1..] == [Frame, Down];
    assert [Frame, Down][1..] == [Down];
    assert [Down][1..] == [];
    assert EdgeFrames(s3, []) == 0;
  }

  /** The input state: the `app` arrays the handlers write (keyboard,
      mouse buttons, joystick buttons and axes, the last key and button)
      and the two static arrays of the edge detector. Array lengths stand
      for MAX_KEYBOARD_KEYS, MAX_MOUSE_BUTTONS and JOYPAD_AXIS_MAX. */
  class InputState {
    const keyboard: array<int>
    const mouseButtons: array<int>
    const joypadButton: array<int>
    const joypadAxis: array<int>
    const prevButton: array<int>
    const edgeButton: array<int>
    var lastKeyPressed: int
    var lastButtonPressed: int

    /** The edge arrays have JOYPAD_BUTTON_MAX slots and `app.joypadButton`
        at least as many (doButtonDown writes it for every such index); the
        hat writes axes 0 and 1 and the wheel mouse slots 4 and 5, none of
        them bounds-checked. */
    ghost predicate Valid()
      reads this
    {
      && prevButton.Length == JOYPAD_BUTTON_MAX && edgeButton.Length == JOYPAD_BUTTON_MAX
      && joypadButton.Length >= JOYPAD_BUTTON_MAX
      && joypadAxis.Length >= 2
      && mouseButtons.Length > BUTTON_X2
      && keyboard != mouseButtons && keyboard != joypadButton && keyboard != joypadAxis
      && keyboard != prevButton && keyboard != edgeButton
      && mouseButtons != joypadButton && mouseButtons != joypadAxis
      && mouseButtons != prevButton && mouseButtons != edgeButton
      && joypadButton != joypadAxis && joypadButton != prevButton && joypadButton != edgeButton
      && joypadAxis != prevButton && joypadAxis != edgeButton
      && prevButton != edgeButton
    }

    /** The edge detector's view of joystick button `b`. */
    ghost function ButtonAt(b: nat): Button
      reads this, prevButton, edgeButton, joypadButton
      requires Valid() && b < JOYPAD_BUTTON_MAX
    {
      Button(prevButton[b] != 0, edgeButton[b] != 0, joypadButton[b] != 0)
    }

    /** Zeroed state, as static storage starts. */
    constructor (keys: nat, mouse: nat, buttons: nat, axes: nat)
      requires mouse > BUTTON_X2 && buttons >= JOYPAD_BUTTON_MAX && axes >= 2
      ensures Valid()
      ensures keyboard.Length == keys && mouseButtons.Length == mouse
      ensures joypadButton.Length == buttons && joypadAxis.Length == axes
      ensures forall b :: 0 <= b < JOYPAD_BUTTON_MAX ==> ButtonAt(b) == Button(false, false, false)
    {
      keyboard := new int[keys](_ => 0);
      mouseButtons := new int[mouse](_ => 0);
      joypadButton := new int[buttons](_ => 0);
      joypadAxis := new int[axes](_ => 0);
      prevButton := new int[JOYPAD_BUTTON_MAX](_ => 0);
      edgeButton := new int[JOYPAD_BUTTON_MAX](_ => 0);
      lastKeyPressed := 0;
      lastButtonPressed := 0;
    }

    /** beginInputFrame: every edge flag cleared, nothing else touched. */
    method BeginInputFrame()
      requires Valid()
      modifies edgeButton
      ensures Valid()
      ensures forall b :: 0 <= b < JOYPAD_BUTTON_MAX ==> edgeButton[b] == 0
      ensures forall b :: 0 <= b < JOYPAD_BUTTON_MAX ==> ButtonAt(b) == Step(old(ButtonAt(b)), Frame)
    {
      var i := 0;
      while i < JOYPAD_BUTTON_MAX
        invariant i <= JOYPAD_BUTTON_MAX
        invariant forall b :: 0 <= b < i ==> edgeButton[b] == 0
      {
        edgeButton[i] := 0;
        i := i + 1;
      }
    }

    /** getJoypadButtonPressedOnce: 1 exactly when `button` is in range and
        its edge flag is set, else 0. */
    function PressedOnce(button: int): (r: int)
      reads this, edgeButton
      requires Valid()
      ensures r == 0 || r == 1
      ensures r == 1 <==> 0 <= button < JOYPAD_BUTTON_MAX && edgeButton[button] != 0
    {
      if button < 0 || button >= JOYPAD_BUTTON_MAX then 0
      else if edgeButton[button] != 0 then 1 else 0
    }

    /** The button is reported pressed once exactly when the edge detector
        holds an edge for it. */
    lemma PressedOnceIsEdge(b: nat)
      requires Valid() && b < JOYPAD_BUTTON_MAX
      ensures PressedOnce(b) == 1 <==> ButtonAt(b).edge
    {
    }

    /** doKeyUp: a non-repeat release of a key in range clears it. */
    method KeyUp(scancode: nat, repeat: nat)
      requires Valid()
      modifies keyboard
      ensures Valid()
      ensures repeat == 0 && scancode < keyboard.Length ==> keyboard[..] == old(keyboard[..])[scancode := 0]
      ensures !(repeat == 0 && scancode < keyboard.Length) ==> keyboard[..] == old(keyboard[..])
    {
      if repeat == 0 && scancode < keyboard.Length {
        keyboard[scancode] := 0;
      }
    }

    /** doKeyDown: a non-repeat press of a key in range sets it and
        becomes the last key pressed. */
    method KeyDown(scancode: nat, repeat: nat)
      requires Valid()
      modifies keyboard, this
      ensures Valid()
      ensures repeat == 0 && scancode < keyboard.Length ==>
                keyboard[..] == old(keyboard[..])[scancode := 1] && lastKeyPressed == scancode
      ensures !(repeat == 0 && scancode < keyboard.Length) ==>
                keyboard[..] == old(keyboard[..]) && lastKeyPressed == old(lastKeyPressed)
      ensures lastButtonPressed == old(lastButtonPressed)
    {
      if repeat == 0 && scancode < keyboard.Length {
        keyboard[scancode] := 1;
        lastKeyPressed := scancode;
      }
    }

    /** doMouseDown: a button in range is set. */
    method MouseDown(button: nat)
      requires Valid()
      modifies mouseButtons
      ensures Valid()
      ensures button < mouseButtons.Length ==> mouseButtons[..] == old(mouseButtons[..])[button := 1]
      ensures button >= mouseButtons.Length ==> mouseButtons[..] == old(mouseButtons[..])
    {
      if button < mouseButtons.Length {
        mouseButtons[button] := 1;
      }
    }

    /** doMouseUp: a button in range is cleared. */
    method MouseUp(button: nat)
      requires Valid()
      modifies mouseButtons
      ensures Valid()
      ensures button < mouseButtons.Length ==> mouseButtons[..] == old(mouseButtons[..])[button := 0]
      ensures button >= mouseButtons.Length ==> mouseButtons[..] == old(mouseButtons[..])
    {
      if button < mouseButtons.Length {
        mouseButtons[button] := 0;
      }
    }

    /** doMouseWheel: one notch down sets X1, one notch up sets X2, any
        other amount changes nothing. Nothing ever clears them here. */
    method MouseWheel(y: int)
      requires Valid()
      modifies mouseButtons
      ensures Valid()
      ensures mouseButtons[..] ==
                if y == -1 then old(mouseButtons[..])[BUTTON_X1 := 1]
                else if y == 1 then old(mouseButtons[..])[BUTTON_X2 := 1]
                else old(mouseButtons[..])
    {
      if y == -1 {
        mouseButtons[BUTTON_X1] := 1;
      }
      if y == 1 {
        mouseButtons[BUTTON_X2] := 1;
      }
    }

    /** doButtonDown: a press of a button in range raises its edge only when
        it was not already down, marks it down and held, and makes it the
        last button pressed; any other event changes nothing. */
    method ButtonDown(button: nat, state: nat)
      requires Valid()
      modifies prevButton, edgeButton, joypadButton, this
      ensures Valid()
      ensures button < JOYPAD_BUTTON_MAX && state == PRESSED ==>
                && prevButton[..] == old(prevButton[..])[button := 1]
                && edgeButton[..] == (if old(prevButton[button]) == 0 then old(edgeButton[..])[button := 1]
                                      else old(edgeButton[..]))
                && joypadButton[..] == old(joypadButton[..])[button := 1]
                && lastButtonPressed == button
      ensures !(button < JOYPAD_BUTTON_MAX && state == PRESSED) ==>
                && prevButton[..] == old(prevButton[..]) && edgeButton[..] == old(edgeButton[..])
                && joypadButton[..] == old(joypadButton[..]) && lastButtonPressed == old(lastButtonPressed)
      ensures lastKeyPressed == old(lastKeyPressed)
      ensures button < JOYPAD_BUTTON_MAX && state == PRESSED ==>
                ButtonAt(button) == Step(old(ButtonAt(button)), Down)
    {
      if button < JOYPAD_BUTTON_MAX && state == PRESSED {
        if prevButton[button] == 0 {
          edgeButton[button] := 1;
        }
        prevButton[button] := 1;
        joypadButton[button] := 1;
        lastButtonPressed := button;
      }
    }

    /** doButtonUp: a release of a button in range clears `prev` and the
        held state and leaves its edge alone; any other event changes
        nothing. */
    method ButtonUp(button: nat, state: nat)
      requires Valid()
      modifies prevButton, joypadButton
      ensures Valid()
      ensures button < JOYPAD_BUTTON_MAX && state == RELEASED ==>
                && prevButton[..] == old(prevButton[..])[button := 0]
                && joypadButton[..] == old(joypadButton[..])[button := 0]
      ensures !(button < JOYPAD_BUTTON_MAX && state == RELEASED) ==>
                prevButton[..] == old(prevButton[..]) && joypadButton[..] == old(joypadButton[..])
      ensures button < JOYPAD_BUTTON_MAX && state == RELEASED ==>
                ButtonAt(button) == Step(old(ButtonAt(button)), Up)
    {
      if button < JOYPAD_BUTTON_MAX && state == RELEASED {
        prevButton[button] := 0;
        joypadButton[button] := 0;
      }
    }

    /** doJoyAxis: an axis in range stores the reading, inverted for the Y
        axes; an axis out of range changes nothing. */
    method JoyAxis(axis: nat, value: int)
      requires Valid()
      modifies joypadAxis
      ensures Valid()
      ensures axis < joypadAxis.Length ==> joypadAxis[..] == old(joypadAxis[..])[axis := AxisValue(axis, value)]
      ensures axis >= joypadAxis.Length ==> joypadAxis[..] == old(joypadAxis[..])
    {
      if axis < joypadAxis.Length {
        var v := value;
        if axis == 1 || axis == 3 {
          v := -v;
        }
        joypadAxis[axis] := v;
      }
    }

    /** doJoyHat: the four D-pad slots mirror the four direction bits, and
        each left-stick axis whose reading is inside the dead zone is driven
        to the end the hat points at (right over left, down over up), or to
        0; an axis outside the dead zone keeps the stick's reading. */
    method JoyHat(value: bv8)
      requires Valid()
      modifies joypadButton, joypadAxis
      ensures Valid()
      ensures joypadButton[..] == old(joypadButton[..])[DPAD_UP_BTN := HatButton(value, HAT_UP)]
                                                       [DPAD_DOWN_BTN := HatButton(value, HAT_DOWN)]
                                                       [DPAD_LEFT_BTN := HatButton(value, HAT_LEFT)]
                                                       [DPAD_RIGHT_BTN := HatButton(value, HAT_RIGHT)]
      ensures var x := old(joypadAxis[0]);
              joypadAxis[0] == if Abs(x) < DEAD then HatAxis(HatHas(value, HAT_LEFT), HatHas(value, HAT_RIGHT)) else x
      ensures var y := old(joypadAxis[1]);
              joypadAxis[1] == if Abs(y) < DEAD then HatAxis(HatHas(value, HAT_UP), HatHas(value, HAT_DOWN)) else y
      ensures forall k :: 2 <= k < joypadAxis.Length ==> joypadAxis[k] == old(joypadAxis[k])
    {
      joypadButton[DPAD_UP_BTN] := if value & HAT_UP != 0 then 1 else 0;
      joypadButton[DPAD_DOWN_BTN] := if value & HAT_DOWN != 0 then 1 else 0;
      joypadButton[DPAD_LEFT_BTN] := if value & HAT_LEFT != 0 then 1 else 0;
      joypadButton[DPAD_RIGHT_BTN] := if value & HAT_RIGHT != 0 then 1 else 0;

      var x := joypadAxis[0];
      var y := joypadAxis[1];
      if Abs(x) < DEAD {
        var hx := 0;
        if value & HAT_LEFT != 0 {
          hx := AXIS_MIN;
        }
        if value & HAT_RIGHT != 0 {
          hx := AXIS_MAX;
        }
        joypadAxis[0] := hx;
      }
      if Abs(y) < DEAD {
        var hy := 0;
        if value & HAT_UP != 0 {
          hy := AXIS_MIN;
        }
        if value & HAT_DOWN != 0 {
          hy := AXIS_MAX;
        }
        joypadAxis[1] := hy;
      }
    }
  }
}
