/**
 * The key-state machine of `CommonUtilities::InputManager`.
 *
 * Window messages are collected into the "unset" snapshot (keys, mouse
 * position, wheel scroll); `Update` once per frame moves current to last and
 * unset to current. The edge queries compare the current and the last key
 * snapshot. A `std::bitset<256>` is the set of its set bits.
 *
 * The value `Input` holds every field of the manager; the pure functions on it
 * specify the class `InputManager`, whose methods update the fields in place.
 * The Win32 calls are not modelled: the cursor position that `WM_MOUSEMOVE`
 * reads through `GetCursorPos`/`ScreenToClient` is a parameter.
 */
module Input {

  // Virtual-key codes and message constants of the Windows headers.
  const VK_LBUTTON: nat := 0x01
  const VK_RBUTTON: nat := 0x02
  const VK_CANCEL: nat := 0x03
  const VK_MBUTTON: nat := 0x04
  const VK_XBUTTON1: nat := 0x05
  const VK_XBUTTON2: nat := 0x06
  const MK_LBUTTON: nat := 0x0001
  const MK_SHIFT: nat := 0x0004
  const MK_XBUTTON1: nat := 0x0020
  const MK_XBUTTON2: nat := 0x0040
  const WHEEL_DELTA: nat := 120

  /** A position of a `std::bitset<256>`. */
  type KeyCode = k: nat | k < 256

  /** `POINT`. */
  datatype Point = Point(x: int, y: int)

  /** The fields of `InputManager`. */
  datatype Input = Input(
    unsetKey: set<KeyCode>,
    currentKey: set<KeyCode>,
    lastKey: set<KeyCode>,
    unsetMousePosition: Point,
    currentMousePosition: Point,
    lastMousePosition: Point,
    unsetWheelScroll: int,
    currentWheelScroll: int,
    lastWheelScroll: int,
    mouseIsCaptured: bool)

  /** The constructor: bitsets all clear, positions and scrolls zero, not captured. */
  function Initial(): Input
  {
    Input({}, {}, {}, Point(0, 0), Point(0, 0), Point(0, 0), 0, 0, 0, false)
  }

  // ---------------------------------------------------------------------------
  // Queries

  /** `IsKeyDown`: set this frame, clear the frame before. */
  predicate IsKeyDown(s: Input, k: int)
    requires 0 < k < 256
  {
    k !in s.lastKey && k in s.currentKey
  }

  /** `IsKeyUp`: clear this frame, set the frame before. */
  predicate IsKeyUp(s: Input, k: int)
    requires 0 < k < 256
  {
    k !in s.currentKey && k in s.lastKey
  }

  /** `IsKeyPressed`: set in both frames. */
  predicate IsKeyPressed(s: Input, k: int)
    requires 0 < k < 256
  {
    k in s.currentKey && k in s.lastKey
  }

  /** What the mouse queries assert of their key code. */
  predicate IsMouseKey(k: int)
  {
    VK_LBUTTON <= k <= VK_XBUTTON2 && k != VK_CANCEL
  }

  /** `IsMouseButtonDown`. */
  predicate IsMouseButtonDown(s: Input, k: int)
    requires IsMouseKey(k)
  {
    k !in s.lastKey && k in s.currentKey
  }

  /** `IsMouseButtonUp`. */
  predicate IsMouseButtonUp(s: Input, k: int)
    requires IsMouseKey(k)
  {
    k !in s.currentKey && k in s.lastKey
  }

  /** `IsMouseButtonPressed`. */
  predicate IsMouseButtonPressed(s: Input, k: int)
    requires IsMouseKey(k)
  {
    k in s.currentKey && k in s.lastKey
  }

  /** `GetScrollWheel`: the scroll of the current frame. */
  function GetScrollWheel(s: Input): int
  {
    s.currentWheelScroll
  }

  /** `GetMouseMovement`: last position minus current position. */
  function GetMouseMovement(s: Input): (m: Point)
    ensures m.x + s.currentMousePosition.x == s.lastMousePosition.x
    ensures m.y + s.currentMousePosition.y == s.lastMousePosition.y
  {
    Point(s.lastMousePosition.x - s.currentMousePosition.x, s.lastMousePosition.y - s.currentMousePosition.y)
  }

  /** The mouse buttons are the key codes 1, 2, 4, 5 and 6, and their queries answer
      exactly as the key queries do. */
  lemma MouseQueriesAreKeyQueries(s: Input, k: int)
    requires IsMouseKey(k)
    ensures k in {VK_LBUTTON, VK_RBUTTON, VK_MBUTTON, VK_XBUTTON1, VK_XBUTTON2}
    ensures IsMouseButtonDown(s, k) == IsKeyDown(s, k)
    ensures IsMouseButtonUp(s, k) == IsKeyUp(s, k)
    ensures IsMouseButtonPressed(s, k) == IsKeyPressed(s, k)
  {
  }

  /** At most one of down, up and pressed holds for a key; down or pressed exactly when
      the key is set this frame, up or pressed exactly when it was set the frame before. */
  lemma EdgesExclusive(s: Input, k: int)
    requires 0 < k < 256
    ensures !(IsKeyDown(s, k) && IsKeyUp(s, k))
    ensures !(IsKeyDown(s, k) && IsKeyPressed(s, k))
    ensures !(IsKeyUp(s, k) && IsKeyPressed(s, k))
    ensures IsKeyDown(s, k) || IsKeyPressed(s, k) <==> k in s.currentKey
    ensures IsKeyUp(s, k) || IsKeyPressed(s, k) <==> k in s.lastKey
  {
  }

  // ---------------------------------------------------------------------------
  // Frame update

  /** `Update`: last takes current, current takes unset, for keys, mouse position and
      scroll; the unset scroll goes back to zero while the unset keys and position
      stay. */
  function Shifted(s: Input): (r: Input)
    ensures r.mouseIsCaptured == s.mouseIsCaptured
  {
    s.(lastKey := s.currentKey, currentKey := s.unsetKey,
       lastMousePosition := s.currentMousePosition, currentMousePosition := s.unsetMousePosition,
       lastWheelScroll := s.currentWheelScroll, currentWheelScroll := s.unsetWheelScroll,
       unsetWheelScroll := 0)
  }

  /** After `Update` a key is down exactly when it was recorded pressed since the last
      `Update` and not set in the frame before, and the scroll is the one recorded
      since. */
  lemma UpdateQueries(s: Input, k: int)
    requires 0 < k < 256
    ensures IsKeyDown(Shifted(s), k) <==> k in s.unsetKey && k !in s.currentKey
    ensures IsKeyUp(Shifted(s), k) <==> k !in s.unsetKey && k in s.currentKey
    ensures GetScrollWheel(Shifted(s)) == s.unsetWheelScroll
    ensures GetMouseMovement(Shifted(s)).x == s.currentMousePosition.x - s.unsetMousePosition.x
  {
  }

  /** Two `Update`s with no message between them leave no key down or up: every key is
      pressed or free according to the recorded state, and the scroll is zero. */
  lemma TwoQuietUpdates(s: Input, k: int)
    requires 0 < k < 256
    ensures !IsKeyDown(Shifted(Shifted(s)), k) && !IsKeyUp(Shifted(Shifted(s)), k)
    ensures IsKeyPressed(Shifted(Shifted(s)), k) <==> k in s.unsetKey
    ensures GetScrollWheel(Shifted(Shifted(s))) == 0
    ensures GetMouseMovement(Shifted(Shifted(s))) == Point(0, 0)
  {
  }

  // ---------------------------------------------------------------------------
  // Messages

  /** The messages `UpdateEvents` distinguishes. `Other` stands for every message
      code outside the fourteen named ones; it carries no code, so a recognised
      message cannot be written as `Other`. */
  datatype Kind =
    | KeyDown | SysKeyDown | LButtonDown | RButtonDown | MButtonDown | XButtonDown
    | KeyUp | SysKeyUp | LButtonUp | RButtonUp | MButtonUp | XButtonUp
    | MouseMove | MouseWheel | Other

  /** A window message with its `WPARAM` (the `LPARAM` is never read). */
  datatype Message = Message(kind: Kind, wParam: nat)

  /** How `UpdateEvents` ends: it returns a flag, or `std::bitset::set`/`reset` throws
      `std::out_of_range` for a position past 255 (before changing anything). */
  datatype Outcome = Returned(handled: bool) | OutOfRange

  datatype Handling = Handling(input: Input, outcome: Outcome)

  /** `LOWORD`, which `GET_KEYSTATE_WPARAM` reads. */
  function LoWord(w: nat): nat
  {
    w % 0x1_0000
  }

  /** `GET_WHEEL_DELTA_WPARAM`: the high word read as a signed 16-bit value. */
  function WheelDelta(w: nat): (d: int)
    ensures -0x8000 <= d < 0x8000
  {
    var hi := (w / 0x1_0000) % 0x1_0000;
    if hi < 0x8000 then hi else hi - 0x1_0000
  }

  /** C++ `/` on `int`: the quotient truncated toward zero. */
  function TruncDiv(a: int, b: nat): int
    requires b > 0
  {
    if a >= 0 then a / b else -((-a) / b)
  }

  /** Dividing by `WHEEL_DELTA` rounds toward zero: the quotient lies between zero and
      the exact quotient. */
  lemma TruncDivByWheelDelta(a: int)
    ensures var q := TruncDiv(a, WHEEL_DELTA);
      && (a >= 0 ==> 0 <= q * 120 <= a < q * 120 + 120)
      && (a < 0 ==> q * 120 - 120 < a <= q * 120 <= 0)
  {
  }

  /** `myUnsetKey.set(k)`. */
  function SetKey(s: Input, k: nat): Handling
  {
    if k < 256 then Handling(s.(unsetKey := s.unsetKey + {k}), Returned(true))
    else Handling(s, OutOfRange)
  }

  /** `myUnsetKey.reset(k)`. */
  function ResetKey(s: Input, k: nat): Handling
  {
    if k < 256 then Handling(s.(unsetKey := s.unsetKey - {k}), Returned(true))
    else Handling(s, OutOfRange)
  }

  /** The `WM_MOUSEMOVE` case: `cursor` is the client-area cursor position. */
  function MouseMoved(s: Input, cursor: Point): Handling
  {
    Handling(s.(unsetMousePosition := cursor), Returned(true))
  }

  /** `UpdateEvents`, case by case, with the `switch` fall-throughs: an `WM_XBUTTONDOWN`
      naming neither X button runs the key-up case, an `WM_XBUTTONUP` naming neither
      runs the mouse-move case. */
  function Handled(s: Input, msg: Message, cursor: Point): Handling
  {
    var w := msg.wParam;
    match msg.kind
    case KeyDown => SetKey(s, w)
    case SysKeyDown => SetKey(s, w)
    case LButtonDown => SetKey(s, w)
    case RButtonDown => SetKey(s, w)
    case MButtonDown => SetKey(s, VK_MBUTTON)
    case XButtonDown =>
      if LoWord(w) == MK_XBUTTON1 then SetKey(s, VK_XBUTTON1)
      else if LoWord(w) == MK_XBUTTON2 then SetKey(s, VK_XBUTTON2)
      else ResetKey(s, w)
    case KeyUp => ResetKey(s, w)
    case SysKeyUp => ResetKey(s, w)
    case LButtonUp => ResetKey(s, VK_LBUTTON)
    case RButtonUp => ResetKey(s, VK_RBUTTON)
    case MButtonUp => ResetKey(s, VK_MBUTTON)
    case XButtonUp =>
      if LoWord(w) == MK_XBUTTON1 then ResetKey(s, VK_XBUTTON1)
      else if LoWord(w) == MK_XBUTTON2 then ResetKey(s, VK_XBUTTON2)
      else MouseMoved(s, cursor)
    case MouseMove => MouseMoved(s, cursor)
    case MouseWheel => Handling(s.(unsetWheelScroll := TruncDiv(WheelDelta(w), WHEEL_DELTA)), Returned(true))
    case Other => Handling(s, Returned(false))
  }

  /** The change a message makes to the unset keys, as the `switch` decides it. */
  datatype KeyChange = NoKey | SetBit(bit: nat) | ClearBit(bit: nat)

  function KeyEffect(msg: Message): KeyChange
  {
    var w := msg.wParam;
    match msg.kind
    case KeyDown => SetBit(w)
    case SysKeyDown => SetBit(w)
    case LButtonDown => SetBit(w)
    case RButtonDown => SetBit(w)
    case MButtonDown => SetBit(VK_MBUTTON)
    case XButtonDown =>
      if LoWord(w) == MK_XBUTTON1 then SetBit(VK_XBUTTON1)
      else if LoWord(w) == MK_XBUTTON2 then SetBit(VK_XBUTTON2)
      else ClearBit(w)
    case KeyUp => ClearBit(w)
    case SysKeyUp => ClearBit(w)
    case LButtonUp => ClearBit(VK_LBUTTON)
    case RButtonUp => ClearBit(VK_RBUTTON)
    case MButtonUp => ClearBit(VK_MBUTTON)
    case XButtonUp =>
      if LoWord(w) == MK_XBUTTON1 then ClearBit(VK_XBUTTON1)
      else if LoWord(w) == MK_XBUTTON2 then ClearBit(VK_XBUTTON2)
      else NoKey
    case MouseMove => NoKey
    case MouseWheel => NoKey
    case Other => NoKey
  }

  /** Every message handling, summed up: a recognised message returns true and an
      unrecognised one false and changes nothing; a key message whose bit is within
      the bitset sets or clears exactly that bit of the unset keys and nothing else,
      one whose bit is past 255 throws and changes nothing; no message touches the
      current or last frame or the capture flag. */
  lemma HandledEffect(s: Input, msg: Message, cursor: Point)
    ensures var h := Handled(s, msg, cursor);
      var e := KeyEffect(msg);
      && h.input.currentKey == s.currentKey && h.input.lastKey == s.lastKey
      && h.input.currentMousePosition == s.currentMousePosition
      && h.input.currentWheelScroll == s.currentWheelScroll
      && h.input.mouseIsCaptured == s.mouseIsCaptured
      && (msg.kind.Other? <==> h.outcome == Returned(false))
      && (msg.kind.Other? ==> h.input == s)
      && (!e.NoKey? && e.bit >= 256 <==> h.outcome == OutOfRange)
      && (!e.NoKey? && e.bit >= 256 ==> h.input == s)
      && (e.SetBit? && e.bit < 256 ==> h.input == s.(unsetKey := s.unsetKey + {e.bit}) && h.outcome == Returned(true))
      && (e.ClearBit? && e.bit < 256 ==> h.input == s.(unsetKey := s.unsetKey - {e.bit}) && h.outcome == Returned(true))
      && (e.NoKey? ==> h.input.unsetKey == s.unsetKey)
  {
  }

  /** Messages never change what the queries answer before the next `Update`. */
  lemma HandledKeepsQueries(s: Input, msg: Message, cursor: Point, k: int)
    requires 0 < k < 256
    ensures var t := Handled(s, msg, cursor).input;
      && IsKeyDown(t, k) == IsKeyDown(s, k) && IsKeyUp(t, k) == IsKeyUp(s, k)
      && IsKeyPressed(t, k) == IsKeyPressed(s, k)
      && GetScrollWheel(t) == GetScrollWheel(s) && GetMouseMovement(t) == GetMouseMovement(s)
  {
  }

  /** A key pressed between two frames is reported down by the next `Update`, and one
      released, up. */
  lemma PressOrReleaseThenUpdate(s: Input, k: int, cursor: Point)
    requires 0 < k < 256
    ensures k !in s.currentKey ==> IsKeyDown(Shifted(Handled(s, Message(KeyDown, k), cursor).input), k)
    ensures k in s.currentKey ==> IsKeyUp(Shifted(Handled(s, Message(KeyUp, k), cursor).input), k)
  {
  }

  /** The wheel records whole notches: a delta of `n` notches gives `n`, and any delta
      gives between -273 and 273, rounding toward zero. */
  lemma WheelNotches(s: Input, n: int, w: nat)
    requires -273 <= n <= 273
    ensures WheelDelta(w) >= 0 ==> 0 <= Handled(s, Message(MouseWheel, w), Point(0, 0)).input.unsetWheelScroll <= 273
    ensures WheelDelta(w) < 0 ==> -273 <= Handled(s, Message(MouseWheel, w), Point(0, 0)).input.unsetWheelScroll <= 0
    ensures TruncDiv(n * 120, WHEEL_DELTA) == n
  {
    TruncDivByWheelDelta(n * 120);
    TruncDivByWheelDelta(WheelDelta(w));
  }

  /** `WM_XBUTTONDOWN` whose key state names neither X button runs the key-up case:
      it clears bit `wParam`, or throws when that is past 255. */
  lemma XButtonDownFallsThrough(s: Input, w: nat, cursor: Point)
    requires LoWord(w) != MK_XBUTTON1 && LoWord(w) != MK_XBUTTON2
    ensures Handled(s, Message(XButtonDown, w), cursor) == Handled(s, Message(KeyUp, w), cursor)
    ensures w < 256 ==> Handled(s, Message(XButtonDown, w), cursor).input.unsetKey == s.unsetKey - {w}
    ensures w >= 256 ==> Handled(s, Message(XButtonDown, w), cursor).outcome == OutOfRange
  {
  }

  /** The button-down cases set the bit named by `wParam`, but for mouse messages
      `wParam` holds the `MK_*` flags of the buttons and modifiers held down. A left
      click with shift held (`MK_LBUTTON | MK_SHIFT == 5`) sets bit 5, `VK_XBUTTON1`,
      and not bit 1; the button-up case clears only bit 1, so after the click and the
      release the first X button reads as held and the left button was never down. */
  lemma ShiftClickSetsXButton(s: Input, cursor: Point)
    requires s.unsetKey == {}
    ensures var down := Handled(s, Message(LButtonDown, MK_LBUTTON + MK_SHIFT), cursor).input;
      var up := Handled(down, Message(LButtonUp, MK_LBUTTON + MK_SHIFT), cursor).input;
      && VK_LBUTTON !in down.unsetKey
      && up.unsetKey == {VK_XBUTTON1}
  {
  }

  /** `UpdateEvents` with the left and right button-down cases setting their own
      virtual-key code, as the button-up cases do, whatever flags `wParam` holds. */
  function HandledIntended(s: Input, msg: Message, cursor: Point): Handling
  {
    match msg.kind
    case LButtonDown => SetKey(s, VK_LBUTTON)
    case RButtonDown => SetKey(s, VK_RBUTTON)
    case _ => Handled(s, msg, cursor)
  }

  /** With the intended handling a left or right click marks exactly its own button,
      and the release clears exactly that button, whatever flags either message
      carries. */
  lemma IntendedClickThenRelease(s: Input, w: nat, w': nat, cursor: Point)
    ensures var down := HandledIntended(s, Message(LButtonDown, w), cursor);
      && down.outcome == Returned(true)
      && down.input == s.(unsetKey := s.unsetKey + {VK_LBUTTON})
      && HandledIntended(down.input, Message(LButtonUp, w'), cursor).input
           == s.(unsetKey := s.unsetKey - {VK_LBUTTON})
    ensures var down := HandledIntended(s, Message(RButtonDown, w), cursor);
      && down.outcome == Returned(true)
      && down.input == s.(unsetKey := s.unsetKey + {VK_RBUTTON})
      && HandledIntended(down.input, Message(RButtonUp, w'), cursor).input
           == s.(unsetKey := s.unsetKey - {VK_RBUTTON})
  {
    var down := HandledIntended(s, Message(LButtonDown, w), cursor);
    assert down.input.unsetKey - {VK_LBUTTON} == s.unsetKey - {VK_LBUTTON};
    var downR := HandledIntended(s, Message(RButtonDown, w), cursor);
    assert downR.input.unsetKey - {VK_RBUTTON} == s.unsetKey - {VK_RBUTTON};
  }

  /** The manager, its fields updated in place. */
  class InputManager {
    var unsetKey: set<KeyCode>
    var currentKey: set<KeyCode>
    var lastKey: set<KeyCode>
    var unsetMousePosition: Point
    var currentMousePosition: Point
    var lastMousePosition: Point
    var unsetWheelScroll: int
    var currentWheelScroll: int
    var lastWheelScroll: int
    var mouseIsCaptured: bool

    /** The fields as one value. */
    function Snapshot(): Input
      reads this
    {
      Input(unsetKey, currentKey, lastKey, unsetMousePosition, currentMousePosition, lastMousePosition,
            unsetWheelScroll, currentWheelScroll, lastWheelScroll, mouseIsCaptured)
    }

    /** `InputManager()`: the initialiser list, and the default-constructed bitsets. */
    constructor ()
      ensures Snapshot() == Initial()
    {
      unsetKey, currentKey, lastKey := {}, {}, {};
      unsetMousePosition := Point(0, 0);
      currentMousePosition := Point(0, 0);
      lastMousePosition := Point(0, 0);
      unsetWheelScroll := 0;
      currentWheelScroll := 0;
      lastWheelScroll := 0;
      mouseIsCaptured := false;
    }

    /** `CaptureMouse`: only the flag (clipping the cursor is not modelled). */
    method CaptureMouse()
      modifies this
      ensures Snapshot() == old(Snapshot()).(mouseIsCaptured := true)
    {
      mouseIsCaptured := true;
    }

    /** `ReleaseMouse`: only the flag. */
    method ReleaseMouse()
      modifies this
      ensures Snapshot() == old(Snapshot()).(mouseIsCaptured := false)
    {
      mouseIsCaptured := false;
    }

    /** `IsMouseCaptured`. */
    function IsMouseCaptured(): bool
      reads this
    {
      mouseIsCaptured
    }

    /** `Update`. */
    method Update()
      modifies this
      ensures Snapshot() == Shifted(old(Snapshot()))
    {
      lastKey := currentKey;
      currentKey := unsetKey;
      lastMousePosition := currentMousePosition;
      currentMousePosition := unsetMousePosition;
      lastWheelScroll := currentWheelScroll;
      currentWheelScroll := unsetWheelScroll;
      unsetWheelScroll := 0;
    }

    /** `myUnsetKey.set(k)`. */
    method Set(k: nat) returns (outcome: Outcome)
      modifies this
      ensures Handling(Snapshot(), outcome) == SetKey(old(Snapshot()), k)
    {
      if k >= 256 {
        return OutOfRange;
      }
      unsetKey := unsetKey + {k};
      outcome := Returned(true);
    }

    /** `myUnsetKey.reset(k)`. */
    method Reset(k: nat) returns (outcome: Outcome)
      modifies this
      ensures Handling(Snapshot(), outcome) == ResetKey(old(Snapshot()), k)
    {
      if k >= 256 {
        return OutOfRange;
      }
      unsetKey := unsetKey - {k};
      outcome := Returned(true);
    }

    /** `UpdateEvents`; `cursor` is what `WM_MOUSEMOVE` reads from Win32. */
    method UpdateEvents(msg: Message, cursor: Point) returns (outcome: Outcome)
      modifies this
      ensures Handling(Snapshot(), outcome) == Handled(old(Snapshot()), msg, cursor)
    {
      var w := msg.wParam;
      match msg.kind {
        case KeyDown => outcome := Set(w);
        case SysKeyDown => outcome := Set(w);
        case LButtonDown => outcome := Set(w);
        case RButtonDown => outcome := Set(w);
        case MButtonDown => outcome := Set(VK_MBUTTON);
        case XButtonDown =>
          if LoWord(w) == MK_XBUTTON1 {
            outcome := Set(VK_XBUTTON1);
          } else if LoWord(w) == MK_XBUTTON2 {
            outcome := Set(VK_XBUTTON2);
          } else {
            outcome := Reset(w);
          }
        case KeyUp => outcome := Reset(w);
        case SysKeyUp => outcome := Reset(w);
        case LButtonUp => outcome := Reset(VK_LBUTTON);
        case RButtonUp => outcome := Reset(VK_RBUTTON);
        case MButtonUp => outcome := Reset(VK_MBUTTON);
        case XButtonUp =>
          if LoWord(w) == MK_XBUTTON1 {
            outcome := Reset(VK_XBUTTON1);
          } else if LoWord(w) == MK_XBUTTON2 {
            outcome := Reset(VK_XBUTTON2);
          } else {
            unsetMousePosition := cursor;
            outcome := Returned(true);
          }
        case MouseMove =>
          unsetMousePosition := cursor;
          outcome := Returned(true);
        case MouseWheel =>
          unsetWheelScroll := TruncDiv(WheelDelta(w), WHEEL_DELTA);
          outcome := Returned(true);
        case Other =>
          outcome := Returned(false);
      }
    }
  }
}
