/**
 * The controller page: the room code it pairs with, and the gesture
 * classifier that turns one-finger touch start/move/end and keystrokes
 * into set_cursor_visibility, cursor_move, tap and key_input messages.
 * The page's refs (isTouching, hasMoved, touchStartPos, lastTouch) and
 * state (socket, connected, roomCode, error) are fields of TouchPad.
 */
module GestureClassifier {
  import opened Protocol
  import opened Text

  /** Movement, in pixels from the touch's start, beyond which a touch is a drag and not a tap. */
  const DRAG_THRESHOLD: int := 5

  const NO_ROOM_ERROR: string := "No room code provided. Please scan the QR code or enter a room code."
  const CONNECT_FAILED_ERROR: string := "Failed to connect to room"
  const DISCONNECTED_ERROR: string := "Disconnected from server"

  /** Math.sqrt(dx*dx + dy*dy) > 5, stated exactly over integers by squaring both sides. */
  predicate BeyondThreshold(start: Point, p: Point)
  {
    var dx, dy := p.x - start.x, p.y - start.y;
    dx * dx + dy * dy > DRAG_THRESHOLD * DRAG_THRESHOLD
  }

  /** The key filter of handleKeyPress: which keys are forwarded, and as what. */
  function ForwardedKey(key: string): (r: Option<string>)
    ensures r.Some? <==> key == "Enter" || key == "Backspace" || |key| == 1
    ensures r.Some? ==> r.value == key
  {
    if key == "Enter" then Some("Enter")
    else if key == "Backspace" then Some("Backspace")
    else if |key| == 1 then Some(key)
    else None
  }

  /** The delta a message moves the cursor by: its own for cursor_move, none for the rest. */
  function MoveOf(e: ControllerEvent): Point
  {
    if e.CursorMove? then Point(e.deltaX, e.deltaY) else Point(0, 0)
  }

  /** The sum of the cursor_move deltas in events[from..], walked by index. */
  function MovesFrom(events: seq<ControllerEvent>, from: nat): Point
    decreases |events| - from
  {
    if from >= |events| then Point(0, 0)
    else
      var rest := MovesFrom(events, from + 1);
      Point(MoveOf(events[from]).x + rest.x, MoveOf(events[from]).y + rest.y)
  }

  /** Sending one more message adds its delta to the displacement sent since any earlier mark. */
  lemma {:induction false} MovesFromSnoc(events: seq<ControllerEvent>, from: nat, e: ControllerEvent)
    requires from <= |events|
    ensures MovesFrom(events + [e], from).x == MovesFrom(events, from).x + MoveOf(e).x
    ensures MovesFrom(events + [e], from).y == MovesFrom(events, from).y + MoveOf(e).y
    decreases |events| - from
  {
    if from < |events| {
      MovesFromSnoc(events, from + 1, e);
      assert (events + [e])[from] == events[from];
    }
  }

  /**
   * path runs from start to last, and moved says whether any position on
   * it lies beyond the threshold from the start.
   */
  ghost predicate DragRecorded(path: seq<Point>, start: Point, last: Point, moved: bool)
  {
    && |path| > 0 && path[0] == start && path[|path| - 1] == last
    && (moved <==> exists i :: 0 <= i < |path| && BeyondThreshold(start, path[i]))
  }

  /** Seeing one more position keeps the record: moved picks up whether that position lies beyond the threshold. */
  lemma DragRecordedExtend(path: seq<Point>, start: Point, last: Point, moved: bool, p: Point)
    requires DragRecorded(path, start, last, moved)
    ensures DragRecorded(path + [p], start, p, moved || BeyondThreshold(start, p))
  {
    var ext := path + [p];
    assert ext[|ext| - 1] == p;
    if moved {
      var i :| 0 <= i < |path| && BeyondThreshold(start, path[i]);
      assert ext[i] == path[i];
    }
    if exists i :: 0 <= i < |ext| && BeyondThreshold(start, ext[i]) {
      var i :| 0 <= i < |ext| && BeyondThreshold(start, ext[i]);
      if i < |path| {
        assert ext[i] == path[i];
      }
    }
  }

  /** JavaScript truthiness of a string that may be absent: present and non-empty. */
  predicate IsTruthy(s: Option<string>)
  {
    s.Some? && s.value != ""
  }

  class TouchPad {
    var hasSocket: bool
    var connected: bool
    var roomCode: string
    var error: string
    var isTouching: bool
    var hasMoved: bool
    var touchStart: Point
    var lastTouch: Point
    /** Everything the page has emitted on its socket. */
    var out: seq<ControllerEvent>
    /** The pad positions seen since the current touch started, start first. */
    ghost var path: seq<Point>
    /** The length of the output when the current touch started. */
    ghost var touchMark: nat

    /**
     * During a touch, hasMoved records whether any position seen so far lay
     * beyond the threshold from the start, and the cursor_move deltas sent
     * since the touch began add up to the last position minus the start.
     */
    ghost predicate Valid()
      reads this
    {
      && touchMark <= |out|
      && (!isTouching ==> !hasMoved)
      && (isTouching ==> DragRecorded(path, touchStart, lastTouch, hasMoved))
      && (isTouching ==> MovesFrom(out, touchMark) == Point(lastTouch.x - touchStart.x, lastTouch.y - touchStart.y))
    }

    /** The mount effect: the room parameter is upper-cased and a socket is opened, or an error is shown. */
    constructor (room: Option<string>)
      ensures Valid()
      ensures !IsTruthy(room) ==> !hasSocket && roomCode == "" && error == NO_ROOM_ERROR
      ensures IsTruthy(room) ==> hasSocket && roomCode == ToUpper(room.value) && error == ""
      ensures !connected && !isTouching && !hasMoved && out == []
    {
      connected, isTouching, hasMoved := false, false, false;
      touchStart, lastTouch := Point(0, 0), Point(0, 0);
      out, path, touchMark := [], [], 0;
      if IsTruthy(room) {
        hasSocket, roomCode, error := true, ToUpper(room.value), "";
      } else {
        hasSocket, roomCode, error := false, "", NO_ROOM_ERROR;
      }
    }

    /** socket.emit: one more message on the output; only a cursor_move changes the displacement sent. */
    method Emit(e: ControllerEvent)
      requires touchMark <= |out|
      modifies this`out
      ensures out == old(out) + [e] && touchMark <= |out|
      ensures MovesFrom(out, touchMark).x == MovesFrom(old(out), touchMark).x + MoveOf(e).x
      ensures MovesFrom(out, touchMark).y == MovesFrom(old(out), touchMark).y + MoveOf(e).y
    {
      MovesFromSnoc(out, touchMark, e);
      out := out + [e];
    }

    /** The socket's connect event: ask to join the (upper-cased) room. */
    method OnConnect()
      requires Valid() && hasSocket
      modifies this`out
      ensures Valid()
      ensures out == old(out) + [ControllerConnect(roomCode)]
    {
      Emit(ControllerConnect(roomCode));
    }

    /** controller_connected from the server. */
    method OnControllerConnected()
      requires Valid() && hasSocket
      modifies this`connected, this`error
      ensures Valid() && connected && error == ""
    {
      connected, error := true, "";
    }

    /** controller_error from the server: show its message, or a default one. */
    method OnControllerError(message: Option<string>)
      requires Valid() && hasSocket
      modifies this`connected, this`error
      ensures Valid() && !connected
      ensures error == if IsTruthy(message) then message.value else CONNECT_FAILED_ERROR
    {
      connected := false;
      error := if IsTruthy(message) then message.value else CONNECT_FAILED_ERROR;
    }

    /** The socket's disconnect event. */
    method OnDisconnect()
      requires Valid() && hasSocket
      modifies this`connected, this`error
      ensures Valid() && !connected && error == DISCONNECTED_ERROR
    {
      connected, error := false, DISCONNECTED_ERROR;
    }

    /** handleTouchStart: begin a touch at the pad-local position and show the cursor. */
    method TouchStart(touch: Point, padOrigin: Point)
      requires Valid()
      modifies this`isTouching, this`hasMoved, this`touchStart, this`lastTouch, this`out, this`path, this`touchMark
      ensures Valid()
      ensures !(hasSocket && connected) ==> unchanged(this)
      ensures hasSocket && connected ==>
        && isTouching && !hasMoved
        && touchStart == Point(touch.x - padOrigin.x, touch.y - padOrigin.y) && lastTouch == touchStart
        && out == old(out) + [SetCursorVisibility(roomCode, true)]
    {
      if !(hasSocket && connected) {
        return;
      }
      isTouching, hasMoved := true, false;
      var start := Point(touch.x - padOrigin.x, touch.y - padOrigin.y);
      touchStart, lastTouch := start, start;
      out := out + [SetCursorVisibility(roomCode, true)];
      path, touchMark := [start], |out|;
    }

    /**
     * handleTouchMove: while a touch is active, send the delta since the
     * last position when it is not zero, and mark the touch as a drag once
     * a position lies beyond the threshold from the start.
     */
    method TouchMove(touch: Point, padOrigin: Point)
      requires Valid()
      modifies this`hasMoved, this`lastTouch, this`out, this`path
      ensures Valid()
      ensures !(hasSocket && connected && isTouching) ==> unchanged(this)
      ensures hasSocket && connected && isTouching ==>
        var current := Point(touch.x - padOrigin.x, touch.y - padOrigin.y);
        var delta := Point(current.x - old(lastTouch).x, current.y - old(lastTouch).y);
        && lastTouch == current
        && hasMoved == (old(hasMoved) || BeyondThreshold(touchStart, current))
        && out == old(out) + if delta != Point(0, 0) then [CursorMove(roomCode, delta.x, delta.y)] else []
    {
      if !(hasSocket && connected && isTouching) {
        return;
      }
      var current := Point(touch.x - padOrigin.x, touch.y - padOrigin.y);
      var delta := Point(current.x - lastTouch.x, current.y - lastTouch.y);
      DragRecordedExtend(path, touchStart, lastTouch, hasMoved, current);
      if BeyondThreshold(touchStart, current) {
        hasMoved := true;
      }
      if delta != Point(0, 0) {
        Emit(CursorMove(roomCode, delta.x, delta.y));
      }
      lastTouch := current;
      path := path + [current];
    }

    /**
     * handleTouchEnd: a touch that never went beyond the threshold is a tap.
     * Over the touch, the cursor_move deltas sent add up to the last
     * position minus the start.
     */
    method TouchEnd()
      requires Valid()
      modifies this`isTouching, this`hasMoved, this`out
      ensures Valid()
      ensures !(hasSocket && connected) ==> unchanged(this)
      ensures hasSocket && connected ==>
        && !isTouching && !hasMoved
        && out == old(out) + if old(isTouching) && !old(hasMoved) then [Tap(roomCode)] else []
      ensures hasSocket && connected && old(isTouching) ==>
        && MovesFrom(old(out), old(touchMark)) == Point(old(lastTouch).x - old(touchStart).x, old(lastTouch).y - old(touchStart).y)
        && (|out| > |old(out)| <==> forall i :: 0 <= i < |old(path)| ==> !BeyondThreshold(old(touchStart), old(path)[i]))
    {
      if !(hasSocket && connected) {
        return;
      }
      if isTouching {
        if !hasMoved {
          Emit(Tap(roomCode));
        }
        isTouching, hasMoved := false, false;
      }
    }

    /** handleKeyPress: forward Enter, Backspace and single characters while connected. */
    method KeyPress(key: string)
      requires Valid()
      modifies this`out
      ensures Valid()
      ensures out == old(out) + if hasSocket && connected && ForwardedKey(key).Some? then [KeyInput(roomCode, key)] else []
    {
      if !(hasSocket && connected) {
        return;
      }
      if ForwardedKey(key).Some? {
        Emit(KeyInput(roomCode, key));
      }
    }

    /** The Hide Cursor and Show Cursor buttons. */
    method RequestCursorVisibility(isVisible: bool)
      requires Valid()
      modifies this`out
      ensures Valid()
      ensures out == old(out) + if hasSocket then [SetCursorVisibility(roomCode, isVisible)] else []
    {
      if hasSocket {
        Emit(SetCursorVisibility(roomCode, isVisible));
      }
    }
  }

  /**
   * A connected pad for room "abcd": returns the pad and the output after
   * connecting, so scenarios can look at what a gesture adds.
   */
  method ConnectedPad() returns (pad: TouchPad)
    ensures fresh(pad) && pad.Valid()
    ensures pad.hasSocket && pad.connected && !pad.isTouching
    ensures pad.roomCode == "ABCD"
  {
    pad := new TouchPad(Some("abcd"));
    ToUpperSpec("abcd");
    assert pad.roomCode == "ABCD";
    pad.OnConnect();
    pad.OnControllerConnected();
  }

  /**
   * Scenario: start, move by (+2,+1), move by (+1,+1), release: the
   * displacement stays under 5, so exactly one tap follows the two moves.
   */
  method TapScenario() returns (emitted: seq<ControllerEvent>)
    ensures emitted == [SetCursorVisibility("ABCD", true), CursorMove("ABCD", 2, 1),
                        CursorMove("ABCD", 1, 1), Tap("ABCD")]
  {
    var pad := ConnectedPad();
    var before := pad.out;
    pad.TouchStart(Point(110, 220), Point(10, 20));
    pad.TouchMove(Point(112, 221), Point(10, 20));
    pad.TouchMove(Point(113, 222), Point(10, 20));
    pad.TouchEnd();
    emitted := pad.out[|before|..];
  }

  /**
   * A drag that goes 10 pixels away and comes back to the start: both
   * moves are sent, and no tap follows although the touch ends where it began.
   */
  method DragBackScenario() returns (emitted: seq<ControllerEvent>)
    ensures emitted == [SetCursorVisibility("ABCD", true), CursorMove("ABCD", 10, 0),
                        CursorMove("ABCD", -10, 0)]
  {
    assert BeyondThreshold(Point(50, 50), Point(60, 50));
    var pad := ConnectedPad();
    var before := pad.out;
    pad.TouchStart(Point(50, 50), Point(0, 0));
    pad.TouchMove(Point(60, 50), Point(0, 0));
    pad.TouchMove(Point(50, 50), Point(0, 0));
    pad.TouchEnd();
    emitted := pad.out[|before|..];
  }
}
